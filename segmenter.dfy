/** The run segmenter `get_regions`: one left-to-right scan over a 1-D profile that
    reports the maximal runs of values above a threshold whose length is at least
    `minSize`. The scan itself is the method GetRegions; Regions is the recursive
    reference it is proved against, and IsMaximalRun is the declarative meaning of a
    reported region. */
module Segmenter {

  datatype Option<T> = None | Some(value: T)

  /** A half-open interval [start, end) of profile indices (the tuple `get_regions` appends). */
  datatype Region = Region(start: int, end: int)

  /** The comparison `v > threshold` of the scan. The threshold is a real number
      because the precise cropper computes it with a fractional factor. */
  predicate Above(v: int, threshold: real) {
    v as real > threshold
  }

  /** [s, e) is a non-empty run of values above the threshold that cannot be
      extended on either side. */
  ghost predicate IsMaximalRun(values: seq<int>, threshold: real, s: int, e: int) {
    && 0 <= s < e <= |values|
    && (forall k :: s <= k < e ==> Above(values[k], threshold))
    && (s == 0 || !Above(values[s - 1], threshold))
    && (e == |values| || !Above(values[e], threshold))
  }

  /** Each region ends strictly before the next one starts. */
  ghost predicate StrictlyOrdered(rs: seq<Region>) {
    forall i, j :: 0 <= i < j < |rs| ==> rs[i].end < rs[j].start
  }

  /** The first index at or after i whose value is not above the threshold. */
  function RunEnd(values: seq<int>, threshold: real, i: nat): (e: nat)
    requires i <= |values|
    ensures i <= e <= |values|
    ensures forall k :: i <= k < e ==> Above(values[k], threshold)
    ensures e == |values| || !Above(values[e], threshold)
    decreases |values| - i
  {
    if i == |values| || !Above(values[i], threshold) then i
    else RunEnd(values, threshold, i + 1)
  }

  /** The run [s, e) is reported only when it is at least minSize long. */
  function Report(s: int, e: int, minSize: int): seq<Region> {
    if e - s >= minSize then [Region(s, e)] else []
  }

  /** r is a region a scan begun at i may report: inside the profile, long enough,
      above the threshold throughout, and closed by a value at or below it (or by the
      end of the profile); if it starts after i, the value before it is not above. */
  ghost predicate ReportableFrom(values: seq<int>, threshold: real, minSize: int, i: nat, r: Region) {
    && i <= r.start < r.end <= |values|
    && r.end - r.start >= minSize
    && (forall k :: r.start <= k < r.end ==> Above(values[k], threshold))
    && (i < r.start ==> !Above(values[r.start - 1], threshold))
    && (r.end == |values| || !Above(values[r.end], threshold))
  }

  /** The regions found by a scan that begins, with no run open, at index i. */
  function RegionsFrom(values: seq<int>, threshold: real, minSize: int, i: nat): seq<Region>
    requires i <= |values|
    decreases |values| - i
  {
    if i == |values| then []
    else if !Above(values[i], threshold) then RegionsFrom(values, threshold, minSize, i + 1)
    else Report(i, RunEnd(values, threshold, i), minSize)
         + RegionsFrom(values, threshold, minSize, RunEnd(values, threshold, i))
  }

  /** Everything a scan from i reports is a long-enough run closed on the right,
      and the reports come in strictly increasing order. */
  lemma {:induction false} RegionsFromSound(values: seq<int>, threshold: real, minSize: int, i: nat)
    requires i <= |values|
    ensures forall r :: r in RegionsFrom(values, threshold, minSize, i) ==>
              ReportableFrom(values, threshold, minSize, i, r)
    ensures StrictlyOrdered(RegionsFrom(values, threshold, minSize, i))
    decreases |values| - i
  {
    if i == |values| {
    } else if !Above(values[i], threshold) {
      RegionsFromSound(values, threshold, minSize, i + 1);
    } else {
      var e := RunEnd(values, threshold, i);
      var rest := RegionsFrom(values, threshold, minSize, e);
      RegionsFromSound(values, threshold, minSize, e);
      assert forall r :: r in rest ==> e < r.start && ReportableFrom(values, threshold, minSize, i, r);
    }
  }

  /** The regions `get_regions(values, threshold, minSize)` returns. */
  function Regions(values: seq<int>, threshold: real, minSize: int): seq<Region> {
    RegionsFrom(values, threshold, minSize, 0)
  }

  /** Every reported region is a maximal run at least minSize long, the regions are
      in strictly increasing order, and a profile with no value above the threshold
      has none. */
  lemma RegionsSound(values: seq<int>, threshold: real, minSize: int)
    ensures forall r :: r in Regions(values, threshold, minSize) ==>
              IsMaximalRun(values, threshold, r.start, r.end) && r.end - r.start >= minSize
    ensures StrictlyOrdered(Regions(values, threshold, minSize))
    ensures (forall k :: 0 <= k < |values| ==> !Above(values[k], threshold)) ==>
              Regions(values, threshold, minSize) == []
  {
    var rs := Regions(values, threshold, minSize);
    RegionsFromSound(values, threshold, minSize, 0);
    assert forall r :: r in rs ==> Above(values[r.start], threshold);
    assert rs != [] ==> rs[0] in rs;
  }

  /** A maximal run at or after i that is long enough is found by the scan from i. */
  lemma {:induction false} RegionsFromComplete(values: seq<int>, threshold: real, minSize: int, i: nat, s: int, e: int)
    requires i <= s
    requires IsMaximalRun(values, threshold, s, e) && e - s >= minSize
    ensures Region(s, e) in RegionsFrom(values, threshold, minSize, i)
    decreases |values| - i
  {
    if i == s {
      assert RunEnd(values, threshold, s) == e;
    } else if !Above(values[i], threshold) {
      RegionsFromComplete(values, threshold, minSize, i + 1, s, e);
    } else {
      var e' := RunEnd(values, threshold, i);
      assert e' < s;
      RegionsFromComplete(values, threshold, minSize, e', s, e);
    }
  }

  /** The reported regions are exactly the maximal runs of length at least minSize. */
  lemma RegionsCharacterized(values: seq<int>, threshold: real, minSize: int, s: int, e: int)
    ensures Region(s, e) in Regions(values, threshold, minSize)
        <==> IsMaximalRun(values, threshold, s, e) && e - s >= minSize
  {
    RegionsSound(values, threshold, minSize);
    if IsMaximalRun(values, threshold, s, e) && e - s >= minSize {
      RegionsFromComplete(values, threshold, minSize, 0, s, e);
    }
  }

  /** Regions are separated by at least one value at or below the threshold, so
      there are at most (|values| + 1) / (minSize + 1) of them. */
  lemma {:induction false} RegionsFromCount(values: seq<int>, threshold: real, minSize: int, i: nat)
    requires minSize >= 1 && i <= |values|
    ensures |RegionsFrom(values, threshold, minSize, i)| * (minSize + 1) <= |values| - i + 1
    decreases |values| - i
  {
    if i == |values| {
    } else if !Above(values[i], threshold) {
      RegionsFromCount(values, threshold, minSize, i + 1);
    } else {
      var e := RunEnd(values, threshold, i);
      var rest := RegionsFrom(values, threshold, minSize, e);
      if e == |values| {
        assert rest == [];
      } else {
        assert rest == RegionsFrom(values, threshold, minSize, e + 1);
        RegionsFromCount(values, threshold, minSize, e + 1);
      }
      var n := |Report(i, e, minSize)|;
      assert n <= 1 && (n == 1 ==> e - i >= minSize);
      assert (n + |rest|) * (minSize + 1) == n * (minSize + 1) + |rest| * (minSize + 1);
    }
  }

  lemma RegionsCount(values: seq<int>, threshold: real, minSize: int)
    requires minSize >= 1
    ensures |Regions(values, threshold, minSize)| * (minSize + 1) <= |values| + 1
  {
    RegionsFromCount(values, threshold, minSize, 0);
  }

  /** A value at or below the threshold, with no run open, is skipped. */
  lemma RegionsFromSkip(values: seq<int>, threshold: real, minSize: int, i: nat)
    requires i < |values| && !Above(values[i], threshold)
    ensures RegionsFrom(values, threshold, minSize, i) == RegionsFrom(values, threshold, minSize, i + 1)
  {
  }

  /** A run opened at s and closed at e is reported (if long enough) before the
      regions found from e on. */
  lemma RegionsFromRun(values: seq<int>, threshold: real, minSize: int, s: nat, e: nat)
    requires s < e <= |values|
    requires forall k :: s <= k < e ==> Above(values[k], threshold)
    requires e == |values| || !Above(values[e], threshold)
    ensures RegionsFrom(values, threshold, minSize, s)
         == Report(s, e, minSize) + RegionsFrom(values, threshold, minSize, e)
  {
    assert RunEnd(values, threshold, s) == e;
  }

  /** `get_regions`: a scan with an open/closed `start` and an output list. It returns
      the reference result Regions, which RegionsSound and RegionsCharacterized
      describe. */
  method GetRegions(values: seq<int>, threshold: real, minSize: int) returns (regions: seq<Region>)
    ensures regions == Regions(values, threshold, minSize)
  {
    ghost var all := RegionsFrom(values, threshold, minSize, 0);
    regions := [];
    var start: Option<nat> := None;
    for i := 0 to |values|
      invariant start.None? ==> regions + RegionsFrom(values, threshold, minSize, i) == all
      invariant start.Some? ==> start.value < i
      invariant start.Some? ==> forall k :: start.value <= k < i ==> Above(values[k], threshold)
      invariant start.Some? ==> regions + RegionsFrom(values, threshold, minSize, start.value) == all
    {
      var above := Above(values[i], threshold);
      if above && start.None? {
        start := Some(i);
      } else if !above && start.Some? {
        RegionsFromRun(values, threshold, minSize, start.value, i);
        RegionsFromSkip(values, threshold, minSize, i);
        if i - start.value >= minSize {
          regions := regions + [Region(start.value, i)];
        }
        start := None;
      } else if !above {
        RegionsFromSkip(values, threshold, minSize, i);
      }
    }
    if start.Some? {
      RegionsFromRun(values, threshold, minSize, start.value, |values|);
      if |values| - start.value >= minSize {
        regions := regions + [Region(start.value, |values|)];
      }
    }
  }
}
