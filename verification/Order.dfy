/** Orders given by a C comparison callback, and sorted sequences. */
module Order {

  type Comparison<!T> = (T, T) -> int

  /** The heap and both sorts only ask whether cmp(a, b) > 0, which they read as "a comes
      before b"; the tests pass callbacks like *a < *b. */
  predicate Before<T>(cmp: Comparison<T>, a: T, b: T) { cmp(a, b) > 0 }

  /** What a callback must satisfy: "before" is a strict weak order. */
  ghost predicate StrictWeakOrder<T(!new)>(cmp: Comparison<T>)
  {
    && (forall a, b {:trigger Before(cmp, a, b)} :: Before(cmp, a, b) ==> !Before(cmp, b, a))
    && (forall a, b, c {:trigger Before(cmp, a, b), Before(cmp, b, c)} ::
          !Before(cmp, a, b) && !Before(cmp, b, c) ==> !Before(cmp, a, c))
  }

  /** No element stands behind one that it comes before. */
  ghost predicate Sorted<T>(cmp: Comparison<T>, s: seq<T>)
  {
    forall i, j | 0 <= i < j < |s| :: !Before(cmp, s[j], s[i])
  }

  predicate Equivalent<T>(cmp: Comparison<T>, a: T, b: T) { !Before(cmp, a, b) && !Before(cmp, b, a) }
}
