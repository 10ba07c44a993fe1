/** Sets of integers as sorted lists of ranges (noq-proto/src/range_set/array_range_set.rs). */
module RangeSets {
  /** From `start` up to but not including `end`. */
  datatype Range = Range(start: nat, end: nat)

  predicate In(r: Range, x: nat) {
    r.start <= x < r.end
  }

  ghost predicate Has(rs: seq<Range>, x: nat) {
    exists i :: 0 <= i < |rs| && In(rs[i], x)
  }

  /** Non-empty ranges in order, no two of them overlapping or adjacent. */
  ghost predicate Canonical(rs: seq<Range>) {
    && (forall i :: 0 <= i < |rs| ==> rs[i].start < rs[i].end)
    && (forall i, j :: 0 <= i < j < |rs| ==> rs[i].end < rs[j].start)
  }

  function Min(a: nat, b: nat): nat {
    if a <= b then a else b
  }

  function Max(a: nat, b: nat): nat {
    if a <= b then b else a
  }

  /** Absorb the ranges that `r` reaches. */
  function Merge(r: Range, rs: seq<Range>): seq<Range>
    decreases |rs|
  {
    if rs == [] || r.end < rs[0].start then [r] + rs
    else Merge(Range(r.start, Max(r.end, rs[0].end)), rs[1..])
  }

  function InsertSpec(rs: seq<Range>, x: Range): seq<Range>
    decreases |rs|
  {
    if rs == [] || x.end < rs[0].start then [x] + rs
    else if rs[0].end < x.start then [rs[0]] + InsertSpec(rs[1..], x)
    else Merge(Range(Min(rs[0].start, x.start), Max(rs[0].end, x.end)), rs[1..])
  }

  // ------------------------------------------------------------------ union, in canonical form

  lemma HasCons(r: Range, rs: seq<Range>, x: nat)
    ensures Has([r] + rs, x) <==> In(r, x) || Has(rs, x)
  {
    if In(r, x) {
      assert In(([r] + rs)[0], x);
    }
    if Has(rs, x) {
      var i :| 0 <= i < |rs| && In(rs[i], x);
      assert In(([r] + rs)[i + 1], x);
    }
  }

  lemma HasSplit(rs: seq<Range>, x: nat)
    requires rs != []
    ensures Has(rs, x) <==> In(rs[0], x) || Has(rs[1..], x)
  {
    HasCons(rs[0], rs[1..], x);
    assert [rs[0]] + rs[1..] == rs;
  }

  lemma {:induction false} MergeHas(r: Range, rs: seq<Range>, x: nat)
    requires Canonical(rs) && r.start < r.end && (rs != [] ==> r.start <= rs[0].start)
    ensures Has(Merge(r, rs), x) <==> In(r, x) || Has(rs, x)
    decreases |rs|
  {
    if rs == [] || r.end < rs[0].start {
      HasCons(r, rs, x);
    } else {
      HasSplit(rs, x);
      MergeHas(Range(r.start, Max(r.end, rs[0].end)), rs[1..], x);
    }
  }

  lemma {:induction false} MergeCanonical(r: Range, rs: seq<Range>)
    requires Canonical(rs) && r.start < r.end && (rs != [] ==> r.start <= rs[0].start)
    ensures Canonical(Merge(r, rs)) && Merge(r, rs) != [] && Merge(r, rs)[0].start == r.start
    decreases |rs|
  {
    if rs != [] && r.end >= rs[0].start {
      MergeCanonical(Range(r.start, Max(r.end, rs[0].end)), rs[1..]);
    }
  }

  /** Inserting a range adds exactly its elements. */
  lemma {:induction false} InsertAdds(rs: seq<Range>, r: Range, x: nat)
    requires Canonical(rs) && r.start < r.end
    ensures Has(InsertSpec(rs, r), x) <==> In(r, x) || Has(rs, x)
    decreases |rs|
  {
    if rs == [] || r.end < rs[0].start {
      HasCons(r, rs, x);
    } else {
      HasSplit(rs, x);
      if rs[0].end < r.start {
        HasCons(rs[0], InsertSpec(rs[1..], r), x);
        InsertAdds(rs[1..], r, x);
      } else {
        MergeHas(Range(Min(rs[0].start, r.start), Max(rs[0].end, r.end)), rs[1..], x);
      }
    }
  }

  lemma {:induction false} InsertCanonical(rs: seq<Range>, r: Range)
    requires Canonical(rs) && r.start < r.end
    ensures Canonical(InsertSpec(rs, r)) && InsertSpec(rs, r) != []
    ensures InsertSpec(rs, r)[0].start == if rs == [] then r.start else Min(rs[0].start, r.start)
    decreases |rs|
  {
    if rs != [] && r.end >= rs[0].start {
      if rs[0].end < r.start {
        InsertCanonical(rs[1..], r);
      } else {
        MergeCanonical(Range(Min(rs[0].start, r.start), Max(rs[0].end, r.end)), rs[1..]);
      }
    }
  }

  lemma Below(rs: seq<Range>, x: nat)
    requires Canonical(rs) && rs != [] && x < rs[0].start
    ensures !Has(rs, x)
  {
  }

  /** Just after the first range there is a gap. */
  lemma Gap(rs: seq<Range>)
    requires Canonical(rs) && rs != []
    ensures !Has(rs, rs[0].end) && Has(rs, rs[0].start) && forall x :: In(rs[0], x) ==> Has(rs, x)
  {
  }

  ghost predicate SameSet(a: seq<Range>, b: seq<Range>) {
    forall x: nat :: Has(a, x) <==> Has(b, x)
  }

  lemma SameFirst(a: seq<Range>, b: seq<Range>)
    requires Canonical(a) && Canonical(b) && SameSet(a, b) && a != [] && b != []
    ensures a[0].start <= b[0].start && (a[0].start == b[0].start ==> a[0].end <= b[0].end)
  {
    Gap(a);
    Gap(b);
    if b[0].start < a[0].start {
      Below(a, b[0].start);
    }
    var e := b[0].end;
    assert In(a[0], e) ==> Has(a, e);
  }

  /** A set has one canonical list. */
  lemma {:induction false} CanonicalIsUnique(a: seq<Range>, b: seq<Range>)
    requires Canonical(a) && Canonical(b) && SameSet(a, b)
    ensures a == b
    decreases |a|
  {
    if a != [] && b != [] {
      SameFirst(a, b);
      SameFirst(b, a);
      forall x: nat
        ensures Has(a[1..], x) <==> Has(b[1..], x)
      {
        HasSplit(a, x);
        HasSplit(b, x);
        RestIsAbove(a, x);
        RestIsAbove(b, x);
      }
      CanonicalIsUnique(a[1..], b[1..]);
    } else if a != [] {
      Gap(a);
    } else if b != [] {
      Gap(b);
    }
  }

  lemma RestIsAbove(rs: seq<Range>, x: nat)
    requires Canonical(rs) && rs != []
    ensures Has(rs[1..], x) ==> rs[0].end < x
  {
  }

  /** The order of insertions does not matter. */
  lemma InsertionsCommute(rs: seq<Range>, r: Range, s: Range)
    requires Canonical(rs) && r.start < r.end && s.start < s.end
    ensures InsertSpec(InsertSpec(rs, r), s) == InsertSpec(InsertSpec(rs, s), r)
  {
    InsertCanonical(rs, r);
    InsertCanonical(rs, s);
    InsertCanonical(InsertSpec(rs, r), s);
    InsertCanonical(InsertSpec(rs, s), r);
    forall x: nat
      ensures Has(InsertSpec(InsertSpec(rs, r), s), x) <==> Has(InsertSpec(InsertSpec(rs, s), r), x)
    {
      InsertAdds(rs, r, x);
      InsertAdds(rs, s, x);
      InsertAdds(InsertSpec(rs, r), s, x);
      InsertAdds(InsertSpec(rs, s), r, x);
    }
    CanonicalIsUnique(InsertSpec(InsertSpec(rs, r), s), InsertSpec(InsertSpec(rs, s), r));
  }

  // ------------------------------------------------------------------ in place

  lemma InsertCases(rs: seq<Range>, x: Range, idx: nat)
    requires idx < |rs|
    ensures InsertSpec(rs[idx..], x) ==
            if x.end < rs[idx].start then [x] + rs[idx..]
            else if rs[idx].end < x.start then [rs[idx]] + InsertSpec(rs[idx + 1..], x)
            else Merge(Range(Min(rs[idx].start, x.start), Max(rs[idx].end, x.end)), rs[idx + 1..])
  {
    assert rs[idx..][1..] == rs[idx + 1..];
  }

  ghost predicate Separated(rs: seq<Range>) {
    forall i :: 0 <= i < |rs| - 1 ==> rs[i].start < rs[i].end < rs[i + 1].start
  }

  /** Once it reaches nothing, merging leaves a range where it is. */
  lemma MergeStops(rs: seq<Range>, idx: nat, r: Range)
    requires idx < |rs| && (idx + 1 < |rs| ==> r.end < rs[idx + 1].start)
    ensures Merge(r, rs[idx + 1..]) == [r] + rs[idx + 1..]
    ensures rs[idx := r] == rs[..idx] + ([r] + rs[idx + 1..])
  {
  }

  class ArrayRangeSet {
    var ranges: seq<Range>

    constructor ()
      ensures ranges == []
    {
      ranges := [];
    }

    method MergeFollowing(idx: nat)
      requires idx < |ranges|
      modifies this
      ensures ranges == old(ranges[..idx]) + Merge(old(ranges[idx]), old(ranges[idx + 1..]))
      ensures idx < |ranges| && ranges[idx].start == old(ranges[idx].start) && ranges[idx].end >= old(ranges[idx].end)
    {
      ghost var before, goal := ranges[..idx], Merge(ranges[idx], ranges[idx + 1..]);
      while idx != |ranges| - 1
        invariant idx < |ranges| && ranges[..idx] == before
        invariant Merge(ranges[idx], ranges[idx + 1..]) == goal
        invariant ranges[idx].start == old(ranges[idx].start) && ranges[idx].end >= old(ranges[idx].end)
        decreases |ranges|
      {
        var curr, next := ranges[idx], ranges[idx + 1];
        if curr.end < next.start {
          break;
        }
        ghost var rest := ranges[idx + 1..];
        ranges := ranges[..idx] + [Range(curr.start, Max(next.end, curr.end))] + ranges[idx + 2..];
        assert ranges[idx + 1..] == rest[1..];
      }
      assert ranges == ranges[..idx] + ([ranges[idx]] + ranges[idx + 1..]);
    }

    /** Grow the range at `idx`, which `x` touches, and absorb those that follow. */
    method Extend(idx: nat, x: Range) returns (added: bool)
      requires idx < |ranges| && Separated(ranges) && x.start < x.end
      requires ranges[idx].start <= x.end && x.start <= ranges[idx].end
      modifies this
      ensures var r := old(ranges[idx]);
              ranges == old(ranges[..idx]) + Merge(Range(Min(r.start, x.start), Max(r.end, x.end)), old(ranges[idx + 1..]))
      ensures added == (ranges != old(ranges))
    {
      ghost var rs := ranges;
      added := false;
      if ranges[idx].start > x.start {
        added := true;
        ranges := ranges[idx := Range(x.start, ranges[idx].end)];
      }
      if x.end <= ranges[idx].end {
        MergeStops(rs, idx, ranges[idx]);
        return;
      }
      ranges := ranges[idx := Range(ranges[idx].start, x.end)];
      assert ranges[..idx] == rs[..idx] && ranges[idx + 1..] == rs[idx + 1..];
      MergeFollowing(idx);
      assert ranges[idx] != rs[idx];
      return true;
    }

    method InsertRange(x: Range) returns (added: bool)
      requires Separated(ranges) && x.start < x.end
      modifies this
      ensures ranges == InsertSpec(old(ranges), x) && added == (ranges != old(ranges))
    {
      ghost var rs := ranges;
      var idx := 0;
      while idx != |ranges|
        invariant idx <= |ranges| && ranges == rs
        invariant InsertSpec(rs, x) == rs[..idx] + InsertSpec(rs[idx..], x)
        decreases |ranges| - idx
      {
        InsertCases(rs, x, idx);
        if ranges[idx].start > x.end {
          ranges := ranges[..idx] + ([x] + ranges[idx..]);
          assert |ranges| == |rs| + 1;
          return true;
        }
        if x.start <= ranges[idx].end {
          added := Extend(idx, x);
          return;
        }
        assert rs[..idx + 1] + InsertSpec(rs[idx + 1..], x) == rs[..idx] + ([rs[idx]] + InsertSpec(rs[idx + 1..], x));
        idx := idx + 1;
      }
      assert rs[..idx] == rs && rs[idx..] == [] && [x] + [] == [x];
      ranges := ranges + [x];
      added := true;
      assert |ranges| == |rs| + 1;
    }

    /** Whether the set grew is what comes back. */
    method Insert(x: Range) returns (added: bool)
      requires Canonical(ranges)
      modifies this
      ensures Canonical(ranges) && added == (ranges != old(ranges))
      ensures ranges == if x.start < x.end then InsertSpec(old(ranges), x) else old(ranges)
    {
      if x.start >= x.end {
        return false;
      }
      InsertCanonical(ranges, x);
      added := InsertRange(x);
    }
  }
}
