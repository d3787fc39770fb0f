/** The frame allocator seen as a map from frame numbers to statuses. */
module FrameMap {
  import opened Words

  datatype Status = Free | Used | Reserved | Reserved2

  type Map = seq<Status>

  /** Frames from first on, n of them, all exist and are free. */
  ghost predicate FreeRun(m: Map, first: nat, n: nat) {
    && first + n <= |m|
    && forall f | first <= f < first + n :: m[f] == Free
  }

  /** The leftmost run of n free frames inside [first, last). */
  ghost function FirstRun(m: Map, n: nat, first: nat, last: nat): (r: Option<nat>)
    requires last <= |m|
    ensures r.Some? ==> first <= r.value && r.value + n <= last && FreeRun(m, r.value, n)
    ensures r.Some? ==> forall k | first <= k < r.value :: !FreeRun(m, k, n)
    ensures r.None? ==> forall k | first <= k && k + n <= last :: !FreeRun(m, k, n)
    decreases last - first
  {
    if first + n > last then None
    else if FreeRun(m, first, n) then Some(first)
    else FirstRun(m, n, first + 1, last)
  }

  /** FirstRun is the only function with those promises. */
  lemma FirstRunIs(m: Map, n: nat, first: nat, last: nat, k: nat)
    requires first <= k && k + n <= last <= |m|
    requires FreeRun(m, k, n)
    requires forall j | first <= j < k :: !FreeRun(m, j, n)
    ensures FirstRun(m, n, first, last) == Some(k)
  {
  }

  ghost function Fill(m: Map, first: nat, n: nat, s: Status): (r: Map)
    requires first + n <= |m|
    ensures |r| == |m|
    ensures forall f | 0 <= f < |m| :: r[f] == if first <= f < first + n then s else m[f]
  {
    seq(|m|, f requires 0 <= f < |m| => if first <= f < first + n then s else m[f])
  }

  /** Every used frame in [first, last) becomes free; reserved ones stay. */
  ghost function Release(m: Map, first: nat, last: nat): (r: Map)
    ensures |r| == |m|
    ensures forall f | 0 <= f < |m| :: r[f] == if first <= f < last && m[f] == Used then Free else m[f]
  {
    seq(|m|, f requires 0 <= f < |m| => if first <= f < last && m[f] == Used then Free else m[f])
  }

  lemma FillStep(m: Map, first: nat, n: nat, s: Status)
    requires first + n < |m|
    ensures Fill(m, first, n + 1, s) == Fill(m, first, n, s)[first + n := s]
  {
  }

  lemma ReleaseStep(m: Map, first: nat, f: nat)
    requires first <= f < |m|
    ensures Release(m, first, f + 1)
         == if m[f] == Used then Release(m, first, f)[f := Free] else Release(m, first, f)
  {
  }

  lemma ReleaseLimit(m: Map, first: nat, l1: nat, l2: nat)
    requires l1 == l2 || (l1 <= first && l2 <= first) || (l1 >= |m| && l2 >= |m|)
    ensures Release(m, first, l1) == Release(m, first, l2)
  {
  }

  lemma ReleaseOneFrame(m: Map, f: nat)
    requires f < |m| && m[f] == Used
    ensures Release(m, f, f + 1) == m[f := Free]
  {
  }

  /** Releasing what an allocation returned restores the map. */
  lemma ReleaseUndoesAllocation(m: Map, n: nat, first: nat, last: nat)
    requires last <= |m|
    requires FirstRun(m, n, first, last).Some?
    ensures var k := FirstRun(m, n, first, last).value;
            Release(Fill(m, k, n, Used), k, k + n) == m
  {
    var k := FirstRun(m, n, first, last).value;
    assert forall f | k <= f < k + n :: m[f] == Free;
  }

  /**
   * A left-to-right scan from first stands at f with the last `free` frames
   * free, and has met no run of count frames so far.
   */
  ghost predicate Scanned(m: Map, count: nat, first: nat, f: nat, free: nat) {
    && first + free <= f <= |m|
    && free < count
    && FreeRun(m, f - free, free)
    && (first + free == f || m[f - free - 1] != Free)
    && forall k | first <= k && k + count <= f :: !FreeRun(m, k, count)
  }

  /** One frame of the scan: it goes on, or stops at the leftmost run. */
  lemma ScanStep(m: Map, count: nat, first: nat, f: nat, free: nat, last: nat)
    requires Scanned(m, count, first, f, free) && f < last <= |m|
    ensures m[f] != Free ==> Scanned(m, count, first, f + 1, 0)
    ensures m[f] == Free && free + 1 < count ==> Scanned(m, count, first, f + 1, free + 1)
    ensures m[f] == Free && free + 1 == count ==> FirstRun(m, count, first, last) == Some(f + 1 - count)
  {
    forall k | first <= k && k + count == f + 1
      ensures FreeRun(m, k, count) <==> m[f] == Free && free + 1 == count
    {
      if free + 1 < count && first + free < f {
        assert k <= f - free - 1 < k + count;
      }
    }
    if m[f] == Free && free + 1 == count {
      FirstRunIs(m, count, first, last, f + 1 - count);
    }
  }

  /** The free frames of [first, last) are exactly the frames from s up to e. */
  ghost predicate OneHole(m: Map, first: nat, last: nat, s: nat, e: nat)
    requires last <= |m|
  {
    && first <= s <= e <= last
    && forall f | first <= f < last :: m[f] == Free <==> s <= f < e
  }

  /** First fit over one contiguous hole takes it from the left. */
  lemma OneHoleFirstRun(m: Map, n: nat, first: nat, last: nat, s: nat, e: nat)
    requires last <= |m| && n > 0
    requires OneHole(m, first, last, s, e)
    ensures FirstRun(m, n, first, last) == if s + n <= e then Some(s) else None
  {
    forall k | first <= k && k + n <= last && FreeRun(m, k, n)
      ensures s <= k && k + n <= e
    {
      assert m[k] == Free && m[k + n - 1] == Free;
    }
    if s + n <= e {
      assert FreeRun(m, s, n);
      FirstRunIs(m, n, first, last, s);
    }
  }

  /** Two successive first-fit allocations in [first, last) are adjacent. */
  ghost predicate GrowsAdjacently(m: Map, first: nat, last: nat)
    requires last <= |m|
  {
    forall n1: nat, n2: nat | n1 > 0 && n2 > 0 && FirstRun(m, n1, first, last).Some? ::
      var k1 := FirstRun(m, n1, first, last).value;
      var r2 := FirstRun(Fill(m, k1, n1, Used), n2, first, last);
      r2.Some? ==> r2.value == k1 + n1
  }

  /**
   * Growth is always adjacent exactly when the range has no hole between its
   * free frames.
   */
  lemma AdjacentGrowthIffOneHole(m: Map, first: nat, last: nat)
    requires first <= last <= |m|
    ensures GrowsAdjacently(m, first, last) <==> exists s: nat, e: nat :: OneHole(m, first, last, s, e)
  {
    if s: nat, e: nat :| OneHole(m, first, last, s, e) {
      forall n1: nat, n2: nat | n1 > 0 && n2 > 0 && FirstRun(m, n1, first, last).Some?
        ensures var k1 := FirstRun(m, n1, first, last).value;
                var r2 := FirstRun(Fill(m, k1, n1, Used), n2, first, last);
                r2.Some? ==> r2.value == k1 + n1
      {
        OneHoleFirstRun(m, n1, first, last, s, e);
        var m1 := Fill(m, s, n1, Used);
        assert OneHole(m1, first, last, s + n1, e);
        OneHoleFirstRun(m1, n2, first, last, s + n1, e);
      }
    }
    if GrowsAdjacently(m, first, last) {
      var r := FirstRun(m, 1, first, last);
      if r.None? {
        forall f | first <= f < last ensures m[f] != Free {
          assert !FreeRun(m, f, 1);
        }
        assert OneHole(m, first, last, first, first);
      } else {
        var s := r.value;
        var e := RunEnd(m, s, last);
        LeftmostFree(m, first, last);
        forall f | e < f < last ensures m[f] != Free {
          if m[f] == Free {
            SecondRunNotAdjacent(m, first, last, s, e, f);
          }
        }
        assert OneHole(m, first, last, s, e);
      }
    }
  }

  /** Where the free frames that start at s stop. */
  ghost function RunEnd(m: Map, s: nat, last: nat): (e: nat)
    requires s <= last <= |m|
    ensures s <= e <= last
    ensures forall f | s <= f < e :: m[f] == Free
    ensures e == last || m[e] != Free
    decreases last - s
  {
    if s == last || m[s] != Free then s else RunEnd(m, s + 1, last)
  }

  lemma LeftmostFree(m: Map, first: nat, last: nat)
    requires last <= |m|
    requires FirstRun(m, 1, first, last).Some?
    ensures var s := FirstRun(m, 1, first, last).value;
            m[s] == Free && forall f | first <= f < s :: m[f] != Free
  {
    var s := FirstRun(m, 1, first, last).value;
    forall f | first <= f < s ensures m[f] != Free {
      assert !FreeRun(m, f, 1);
    }
  }

  lemma SecondRunNotAdjacent(m: Map, first: nat, last: nat, s: nat, e: nat, f: nat)
    requires first <= s < e < f < last <= |m|
    requires forall k | first <= k < s :: m[k] != Free
    requires forall k | s <= k < e :: m[k] == Free
    requires m[e] != Free && m[f] == Free
    ensures !GrowsAdjacently(m, first, last)
  {
    var n := e - s;
    assert FreeRun(m, s, n);
    forall k | first <= k < s ensures !FreeRun(m, k, n) {
      assert m[k] != Free;
    }
    FirstRunIs(m, n, first, last, s);
    var m1 := Fill(m, s, e - s, Used);
    assert FreeRun(m1, f, 1);
    var r2 := FirstRun(m1, 1, first, last);
    assert r2.Some? && FreeRun(m1, r2.value, 1);
    assert m1[e] != Free;
  }
}
