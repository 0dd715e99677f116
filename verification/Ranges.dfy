/** Sets of byte positions as lists of half-open ranges, and subtraction on them. */
module Ranges {
  datatype Range = Range(lo: nat, hi: nat)

  /** Library range sets hold no empty range. */
  type RangeList = rs: seq<Range> | forall r :: r in rs ==> r.lo < r.hi witness []

  predicate Covers(r: Range, p: nat) {
    r.lo <= p < r.hi
  }

  predicate In(p: nat, rs: seq<Range>) {
    rs != [] && (Covers(rs[0], p) || In(p, rs[1..]))
  }

  /** What is left of `r` without `c`: at most a piece on either side. */
  function Cut(r: Range, c: Range): RangeList {
    Piece(r.lo, if r.hi < c.lo then r.hi else c.lo) + Piece(if c.hi < r.lo then r.lo else c.hi, r.hi)
  }

  function Piece(lo: nat, hi: nat): RangeList {
    if lo < hi then [Range(lo, hi)] else []
  }

  function CutAll(rs: seq<Range>, c: Range): RangeList {
    if rs == [] then [] else Cut(rs[0], c) + CutAll(rs[1..], c)
  }

  /** The difference of two range sets. */
  function Subtract(rs: RangeList, cs: seq<Range>): RangeList
    decreases |cs|
  {
    if cs == [] then rs else Subtract(CutAll(rs, cs[0]), cs[1..])
  }

  lemma {:induction false} InOne(p: nat, r: Range)
    ensures In(p, [r]) <==> Covers(r, p)
  {
  }

  lemma {:induction false} InAppend(p: nat, rs: seq<Range>, ss: seq<Range>)
    ensures In(p, rs + ss) <==> In(p, rs) || In(p, ss)
  {
    if rs == [] {
      assert rs + ss == ss;
    } else {
      InAppend(p, rs[1..], ss);
      assert (rs + ss)[1..] == rs[1..] + ss;
    }
  }

  lemma {:induction false} InCut(p: nat, r: Range, c: Range)
    ensures In(p, Cut(r, c)) <==> Covers(r, p) && !Covers(c, p)
  {
    InAppend(p, Piece(r.lo, if r.hi < c.lo then r.hi else c.lo), Piece(if c.hi < r.lo then r.lo else c.hi, r.hi));
  }

  lemma {:induction false} InCutAll(p: nat, rs: seq<Range>, c: Range)
    ensures In(p, CutAll(rs, c)) <==> In(p, rs) && !Covers(c, p)
  {
    if rs != [] {
      InCutAll(p, rs[1..], c);
      InCut(p, rs[0], c);
      InAppend(p, Cut(rs[0], c), CutAll(rs[1..], c));
    }
  }

  /** Subtraction removes exactly the positions of `cs`. */
  lemma {:induction false} InSubtract(p: nat, rs: RangeList, cs: seq<Range>)
    ensures In(p, Subtract(rs, cs)) <==> In(p, rs) && !In(p, cs)
    decreases |cs|
  {
    if cs != [] {
      InCutAll(p, rs, cs[0]);
      InSubtract(p, CutAll(rs, cs[0]), cs[1..]);
    }
  }

  ghost predicate Subset(rs: seq<Range>, ss: seq<Range>) {
    forall p: nat :: In(p, rs) ==> In(p, ss)
  }

  /** Nothing is left after subtracting exactly when every position is covered. */
  lemma {:induction false} SubtractEmpty(rs: RangeList, cs: seq<Range>)
    ensures Subtract(rs, cs) == [] <==> Subset(rs, cs)
  {
    var left := Subtract(rs, cs);
    if left == [] {
      forall p: nat | In(p, rs)
        ensures In(p, cs)
      {
        InSubtract(p, rs, cs);
      }
    } else {
      assert left[0] in left;
      assert In(left[0].lo, left);
      InSubtract(left[0].lo, rs, cs);
    }
  }

  /** The library's mutable range set. */
  class RangeSet {
    var ranges: RangeList

    constructor (rs: RangeList)
      ensures ranges == rs
    {
      ranges := rs;
    }

    /** In-place difference. */
    method DifferenceMut(other: RangeList)
      modifies this
      ensures ranges == Subtract(old(ranges), other)
    {
      var todo := other;
      while todo != []
        invariant Subtract(ranges, todo) == Subtract(old(ranges), other)
        decreases |todo|
      {
        ranges := CutAll(ranges, todo[0]);
        todo := todo[1..];
      }
    }
  }

  /** `is_subset`: clone, subtract in place, test for emptiness. */
  method IsSubset(candidate: RangeList, authed: RangeList) returns (b: bool)
    ensures b <==> Subset(candidate, authed)
  {
    var remainder := new RangeSet(candidate);
    remainder.DifferenceMut(authed);
    b := remainder.ranges == [];
    SubtractEmpty(candidate, authed);
  }
}
