/** What the lists of tasks, clusters and blocks have in common. */
module Lists {
  /** No element twice. */
  ghost predicate Distinct<T>(l: seq<T>) {
    forall i, j | 0 <= i < j < |l| :: l[i] != l[j]
  }
}
