/** Small facts about sequence concatenation, stated once for every element type. */
module SeqFacts {

  lemma ConcatAssoc<T>(x: seq<T>, y: seq<T>, z: seq<T>)
    ensures x + (y + z) == (x + y) + z
  {
  }

  lemma EmptyConcat<T>(x: seq<T>)
    ensures [] + x == x
  {
  }

  lemma HeadTail<T>(p: seq<T>)
    requires |p| > 0
    ensures [p[0]] + p[1..] == p
  {
  }

  /** `p` is what comes before position `k`, the element at `k`, and what comes after. */
  lemma SplitAround<T>(p: seq<T>, k: nat)
    requires k < |p|
    ensures p == p[..k] + ([p[k]] + p[k + 1..])
  {
  }
}
