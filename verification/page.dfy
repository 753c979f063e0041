/** What the component knows about the page currently on screen: the ids of
    its records, in the order the data source returned them, and the
    pagination metadata, if any response so far carried it. */
module Page {
  import opened Wrappers

  /** Pagination metadata exactly as the data source reports it; nothing
      about its fields is checked by the component. */
  datatype Pagination = Pagination(total: int, limit: int, offset: int, totalPages: int, currentPage: int)

  /** The loaded page. A record reduces to its integer id. */
  datatype LoadedPage = LoadedPage(rows: seq<int>, pagination: Option<Pagination>)

  /** The ids occurring in a sequence of ids. */
  function Elems(ids: seq<int>): set<int>
  {
    set x | x in ids
  }

  function Min(a: int, b: int): int
  {
    if a <= b then a else b
  }

  function Max(a: int, b: int): int
  {
    if a <= b then b else a
  }

  /** The consecutive integers lo, lo + 1, ..., hi - 1. */
  function Range(lo: int, hi: int): (r: seq<int>)
    ensures |r| == if lo <= hi then hi - lo else 0
    ensures forall i :: 0 <= i < |r| ==> r[i] == lo + i
    decreases hi - lo
  {
    if hi <= lo then [] else [lo] + Range(lo + 1, hi)
  }

  lemma ElemsCons(ids: seq<int>)
    requires ids != []
    ensures Elems(ids) == {ids[0]} + Elems(ids[1..])
  {
  }

  lemma ElemsConcat(a: seq<int>, b: seq<int>)
    ensures Elems(a + b) == Elems(a) + Elems(b)
  {
  }

  /** Taking the first `d` ids of `a + b` takes as many as it can from `a`
      and the rest, if any, from `b`. */
  lemma PrefixOfConcat(a: seq<int>, b: seq<int>, d: nat)
    ensures var ka := Min(d, |a|);
            var kb := Min(d - ka, |b|);
            && Min(d, |a + b|) == ka + kb
            && (a + b)[..ka + kb] == a[..ka] + b[..kb]
  {
  }

  lemma RangeConcat(lo: int, mid: int, hi: int)
    requires lo <= mid <= hi
    ensures Range(lo, mid) + Range(mid, hi) == Range(lo, hi)
  {
  }

  lemma RangePrefix(lo: int, hi: int, n: nat)
    requires lo + n <= hi
    ensures Range(lo, hi)[..n] == Range(lo, lo + n)
  {
  }

  /** A range holds hi - lo distinct ids. */
  lemma {:induction false} RangeElemsCount(lo: int, hi: int)
    requires lo <= hi
    ensures |Elems(Range(lo, hi))| == hi - lo
    decreases hi - lo
  {
    if lo < hi {
      RangeElemsCount(lo + 1, hi);
      ElemsCons(Range(lo, hi));
      assert Range(lo, hi)[1..] == Range(lo + 1, hi);
      assert lo !in Elems(Range(lo + 1, hi));
    } else {
      assert Range(lo, hi) == [];
    }
  }
}
