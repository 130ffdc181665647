/** The match-seed diff over the region manifest (tools/check_d36_rematch_seed.py). */
module SeedDiff {
  import opened Options
  import opened ByteRuns

  datatype Manifest = Manifest(name: string, addr: nat, size: nat)
  datatype Region = Region(name: string, addr: nat, off: nat, size: nat)

  function Total(regs: seq<Manifest>): nat {
    if regs == [] then 0 else Total(regs[..|regs| - 1]) + regs[|regs| - 1].size
  }

  /** The region table: each region starts where the sizes before it end. */
  ghost predicate TableOf(table: seq<Region>, regs: seq<Manifest>) {
    && |table| == |regs|
    && forall k | 0 <= k < |regs| ::
         table[k] == Region(regs[k].name, regs[k].addr, Total(regs[..k]), regs[k].size)
  }

  lemma TotalSnoc(regs: seq<Manifest>, k: nat)
    requires k < |regs|
    ensures Total(regs[..k + 1]) == Total(regs[..k]) + regs[k].size
  {
    assert regs[..k + 1][..k] == regs[..k];
  }

  method LoadRegions(regs: seq<Manifest>) returns (out: seq<Region>, off: nat)
    ensures TableOf(out, regs) && off == Total(regs)
  {
    out, off := [], 0;
    for k := 0 to |regs|
      invariant |out| == k && off == Total(regs[..k])
      invariant forall j | 0 <= j < k :: out[j] == Region(regs[j].name, regs[j].addr, Total(regs[..j]), regs[j].size)
    {
      TotalSnoc(regs, k);
      out := out + [Region(regs[k].name, regs[k].addr, off, regs[k].size)];
      off := off + regs[k].size;
    }
    assert regs[..|regs|] == regs;
  }

  predicate InRegion(r: Region, i: int) {
    r.off <= i < r.off + r.size
  }

  /** A laid-out table of `total` bytes: contiguous from 0 and in order. */
  ghost predicate LaidOut(table: seq<Region>, total: nat) {
    && (table != [] ==> table[0].off == 0)
    && (forall k | 0 < k < |table| :: table[k].off == table[k - 1].off + table[k - 1].size)
    && total == if table == [] then 0 else table[|table| - 1].off + table[|table| - 1].size
  }

  lemma {:induction false} TableIsLaidOut(table: seq<Region>, regs: seq<Manifest>)
    requires TableOf(table, regs)
    ensures LaidOut(table, Total(regs))
    ensures |table| == |regs| && forall k | 0 <= k < |regs| ::
              table[k].name == regs[k].name && table[k].addr == regs[k].addr && table[k].size == regs[k].size
  {
    forall k | 0 < k < |table|
      ensures table[k].off == table[k - 1].off + table[k - 1].size
    {
      assert regs[..k][..k - 1] == regs[..k - 1];
    }
  }

  lemma {:induction false} RegionsInOrder(table: seq<Region>, total: nat, k: nat, l: nat)
    requires LaidOut(table, total) && k < l < |table|
    ensures table[k].off + table[k].size <= table[l].off
    decreases l
  {
    if k < l - 1 { RegionsInOrder(table, total, k, l - 1); }
  }

  lemma {:induction false} RegionFits(table: seq<Region>, total: nat, k: nat)
    requires LaidOut(table, total) && k < |table|
    ensures table[k].off + table[k].size <= total
  {
    if k < |table| - 1 { RegionsInOrder(table, total, k, |table| - 1); }
  }

  /** The prefix sums cut the seed up: every byte of it is in exactly one region. */
  lemma {:induction false} EveryByteInOneRegion(table: seq<Region>, total: nat, i: nat) returns (k: nat)
    requires LaidOut(table, total) && i < total
    ensures k < |table| && InRegion(table[k], i)
    ensures forall l | 0 <= l < |table| && InRegion(table[l], i) :: l == k
  {
    k := |table| - 1;
    while !(table[k].off <= i)
      invariant k < |table| && i < table[k].off + table[k].size
      decreases k
    {
      assert table[0].off == 0;
      k := k - 1;
    }
    forall l | 0 <= l < |table| && InRegion(table[l], i)
      ensures l == k
    {
      if l < k { RegionsInOrder(table, total, l, k); }
      if k < l { RegionsInOrder(table, total, k, l); }
    }
  }

  // ---- diff_runs ----------------------------------------------------------------------------

  /** Two nested scans over `size` places: at a differing byte, run ahead to the end of the run.
      Both index blindly, so a slice shorter than that ends in an IndexError: no value. */
  method RegionRuns(ra: seq<Byte>, rb: seq<Byte>, size: nat) returns (runs: Option<seq<Run>>)
    requires |ra| <= size && |rb| <= size
    ensures runs.None? <==> |ra| < size || |rb| < size
    ensures runs.Some? ==> RunsOf(ra, rb, runs.value)
  {
    var found: seq<Run> := [];
    var j := 0;
    while j < size
      invariant j <= |ra| && j <= |rb| && EndedBy(ra, rb, j, found)
      invariant !Differs(ra, rb, j - 1) || !Differs(ra, rb, j)
    {
      if j == |ra| || j == |rb| { return None; }
      if ra[j] != rb[j] {
        var k := j;
        while k < size && k < |ra| && k < |rb| && ra[k] != rb[k]
          invariant j <= k <= |ra| && k <= |rb| && AllDiffer(ra, rb, j, k)
          invariant k == j ==> ra[k] != rb[k]
        {
          k := k + 1;
        }
        if k < size && (k == |ra| || k == |rb|) { return None; }
        CloseRun(ra, rb, found, j, k);
        found := found + [Run(j, k)];
        j := k;
      } else {
        PassIndex(ra, rb, found, j, j + 1);
        j := j + 1;
      }
    }
    forall r | MaximalRun(ra, rb, r)
      ensures r.end <= size
    {
      assert Differs(ra, rb, r.end - 1);
    }
    return Some(found);
  }

  type Report = map<string, seq<Run>>

  /** The lower of a place and the end of the blob, as a slice takes it. */
  function Clip(at: nat, s: seq<Byte>): (c: nat)
    ensures c <= |s| && c <= at
  {
    if at <= |s| then at else |s|
  }

  /** The bytes of the region that the blob has: a slice past the end is cut short, not refused. */
  function Slice(s: seq<Byte>, r: Region): (part: seq<Byte>)
    ensures |part| <= r.size
    ensures |part| == r.size <==> r.size == 0 || r.off + r.size <= |s|
  {
    s[Clip(r.off, s)..Clip(r.off + r.size, s)]
  }

  /** Two seeds, the region table, and the regions that are asked for. */
  datatype Seeds = Seeds(a: seq<Byte>, b: seq<Byte>, table: seq<Region>, names: string -> bool)
  {
    /** What `read_seed` has checked: both seeds are as long as the table. */
    ghost predicate Valid() {
      LaidOut(table, |a|) && |a| == |b|
    }

    /** Region `k` is asked for and its bytes differ. */
    predicate Flagged(k: int) {
      0 <= k < |table| && names(table[k].name) && Slice(a, table[k]) != Slice(b, table[k])
    }

    /** Region `k` is compared byte by byte, and one of the seeds ends inside it. */
    predicate Breaks(k: int) {
      Flagged(k) && (|Slice(a, table[k])| < table[k].size || |Slice(b, table[k])| < table[k].size)
    }

    /** Of the first `n` regions, the last flagged one of this name: its runs stay in the dictionary. */
    function LastFlagged(n: nat, name: string): (r: Option<nat>)
      requires n <= |table|
      ensures r.Some? ==> r.value < n && Flagged(r.value) && table[r.value].name == name
      ensures r.None? ==> forall k: nat | k < n && Flagged(k) :: table[k].name != name
    {
      if n == 0 then None
      else if Flagged(n - 1) && table[n - 1].name == name then Some(n - 1)
      else LastFlagged(n - 1, name)
    }

    ghost predicate Reports(n: nat, res: Report)
      requires n <= |table|
    {
      forall name :: ReportsName(n, name, res)
    }

    ghost predicate ReportsName(n: nat, name: string, res: Report)
      requires n <= |table|
    {
      match LastFlagged(n, name)
      case None => name !in res
      case Some(k) => name in res && RunsOf(Slice(a, table[k]), Slice(b, table[k]), res[name])
    }
  }

  datatype Outcome = Refused | Raised | Reported(report: Report)

  /** One turn of the loop: region `k` is filed if it was asked for and differs; no value if it raises. */
  method DiffRegion(s: Seeds, k: nat, before: Report) returns (after: Option<Report>)
    requires k < |s.table| && s.Reports(k, before)
    ensures after.None? <==> s.Breaks(k)
    ensures after.Some? ==> s.Reports(k + 1, after.value)
  {
    var r, res := s.table[k], before;
    if s.names(r.name) {
      var ra, rb := Slice(s.a, r), Slice(s.b, r);
      if ra != rb {
        var runs := RegionRuns(ra, rb, r.size);
        if runs.None? { return None; }
        res := res[r.name := runs.value];
      }
    }
    NextReport(s, k, before, res);
    after := Some(res);
  }

  /** Any two blobs, as `--diff` hands them in unchecked. */
  method DiffRuns(s: Seeds) returns (out: Outcome)
    ensures out.Raised? <==> exists k :: s.Breaks(k)
    ensures !out.Raised? ==> out.Reported? && s.Reports(|s.table|, out.report)
  {
    var res: Report := map[];
    for k := 0 to |s.table|
      invariant s.Reports(k, res)
      invariant forall j | 0 <= j < k :: !s.Breaks(j)
    {
      var next := DiffRegion(s, k, res);
      if next.None? {
        assert s.Breaks(k);
        return Raised;
      }
      res := next.value;
    }
    return Reported(res);
  }

  lemma NextReport(s: Seeds, k: nat, before: Report, res: Report)
    requires k < |s.table| && s.Reports(k, before)
    requires if s.Flagged(k) then
               var name := s.table[k].name;
               name in res && res == before[name := res[name]]
               && RunsOf(Slice(s.a, s.table[k]), Slice(s.b, s.table[k]), res[name])
             else res == before
    ensures s.Reports(k + 1, res)
  {
    var n := k + 1;
    forall name: string
      ensures s.ReportsName(n, name, res)
    {
      assert s.ReportsName(k, name, before);
    }
  }

  /** Seeds as long as their table never break a region. */
  lemma ValidNeverBreaks(s: Seeds)
    requires s.Valid()
    ensures forall k :: !s.Breaks(k)
  {
    forall k | 0 <= k < |s.table|
      ensures !s.Breaks(k)
    {
      RegionFits(s.table, |s.a|, k);
    }
  }

  /** The gate's own way in: `read_seed` refuses a blob that is not as long as the table, so the
      comparison after it never raises. */
  method CheckedDiff(regs: seq<Manifest>, a: seq<Byte>, b: seq<Byte>, names: string -> bool)
    returns (table: seq<Region>, out: Outcome)
    ensures TableOf(table, regs)
    ensures out.Refused? <==> |a| != Total(regs) || |b| != Total(regs)
    ensures !out.Refused? ==> out.Reported? && Seeds(a, b, table, names).Reports(|table|, out.report)
  {
    var total: nat;
    table, total := LoadRegions(regs);
    if |a| != total || |b| != total { return table, Refused; }
    TableIsLaidOut(table, regs);
    ValidNeverBreaks(Seeds(a, b, table, names));
    out := DiffRuns(Seeds(a, b, table, names));
  }

  // ---- what the report tells ----------------------------------------------------------------

  /** By the report, byte `i` of the seed differs: it is in region `k`, and a run filed under the
      region's name holds its place. */
  ghost predicate ReportedIn(s: Seeds, res: Report, k: int, i: int)
    requires 0 <= k < |s.table|
  {
    s.table[k].name in res && Covered(res[s.table[k].name], i - s.table[k].off)
  }

  /** The report is right about every byte of every region that is asked for. */
  ghost predicate Exact(s: Seeds, res: Report) {
    forall k, i | 0 <= k < |s.table| && s.names(s.table[k].name) && InRegion(s.table[k], i) ::
      ReportedIn(s, res, k, i) <==> Differs(s.a, s.b, i)
  }

  /** No two regions that are asked for, both with bytes in them, have one name. */
  ghost predicate NamesDistinct(table: seq<Region>, names: string -> bool) {
    forall k, l | 0 <= k < l < |table| && table[k].size > 0 && table[l].size > 0 && names(table[k].name) ::
      table[k].name != table[l].name
  }

  lemma SliceDiffers(s: Seeds, k: nat, i: nat)
    requires s.Valid() && k < |s.table| && InRegion(s.table[k], i)
    ensures Differs(s.a, s.b, i)
       <==> Differs(Slice(s.a, s.table[k]), Slice(s.b, s.table[k]), i - s.table[k].off)
  {
    RegionFits(s.table, |s.a|, k);
  }

  lemma DistinctNamesExact(s: Seeds, res: Report)
    requires s.Valid() && s.Reports(|s.table|, res) && NamesDistinct(s.table, s.names)
    ensures Exact(s, res)
  {
    forall k, i | 0 <= k < |s.table| && s.names(s.table[k].name) && InRegion(s.table[k], i)
      ensures ReportedIn(s, res, k, i) <==> Differs(s.a, s.b, i)
    {
      SliceDiffers(s, k, i);
      var ra, rb, name := Slice(s.a, s.table[k]), Slice(s.b, s.table[k]), s.table[k].name;
      assert s.ReportsName(|s.table|, name, res);
      match s.LastFlagged(|s.table|, name) {
        case None =>
        case Some(l) =>
          assert s.table[l].size > 0;
          assert l == k;
          RunsCoverExactly(ra, rb, res[name]);
      }
    }
  }

  /** A seed of zeros, but for a one at `at`. */
  function OneAt(n: nat, at: nat): (z: seq<Byte>)
    ensures |z| == n && forall i | 0 <= i < n :: z[i] == if i == at then 1 else 0
  {
    seq(n, i => if i == at then 1 else 0)
  }

  /** A single differing byte, the first of region `k`, is in that region's slices only. */
  lemma {:induction false} OneByteFlags(s: Seeds, k: nat, j: nat)
    requires s.Valid() && k < |s.table| && j < |s.table| && s.table[k].size > 0
    requires s.a == OneAt(|s.a|, |s.a|) && s.b == OneAt(|s.a|, s.table[k].off)
    ensures j != k ==> Slice(s.a, s.table[j]) == Slice(s.b, s.table[j])
    ensures j == k ==> RunsOf(Slice(s.a, s.table[k]), Slice(s.b, s.table[k]), [Run(0, 1)])
    ensures j == k ==> Slice(s.a, s.table[k]) != Slice(s.b, s.table[k])
  {
    RegionFits(s.table, |s.a|, k);
    RegionFits(s.table, |s.a|, j);
    if j < k { RegionsInOrder(s.table, |s.a|, j, k); }
    if k < j { RegionsInOrder(s.table, |s.a|, k, j); }
    OneAtSlice(|s.a|, |s.a|, s.table[j]);
    OneAtSlice(|s.a|, s.table[k].off, s.table[j]);
    if j == k { OneByteRun(Slice(s.a, s.table[j]), Slice(s.b, s.table[j])); }
  }

  /** A slice of a seed with one byte set has that byte, or is all zeros. */
  lemma OneAtSlice(n: nat, at: nat, r: Region)
    requires r.off + r.size <= n
    ensures Slice(OneAt(n, at), r) == OneAt(r.size, if r.off <= at then at - r.off else r.size)
  {
  }

  /** A single flagged region makes a report of its runs alone. */
  lemma OneReport(s: Seeds, k: nat, runs: seq<Run>)
    requires k < |s.table| && forall j: nat | j < |s.table| :: s.Flagged(j) <==> j == k
    requires RunsOf(Slice(s.a, s.table[k]), Slice(s.b, s.table[k]), runs)
    ensures s.Reports(|s.table|, map[s.table[k].name := runs])
  {
    forall name: string
      ensures s.ReportsName(|s.table|, name, map[s.table[k].name := runs])
    {
      assert s.Flagged(k);
      assert s.LastFlagged(|s.table|, name) == if name == s.table[k].name then Some(k) else None;
    }
  }

  /** Two regions of one name: the report of the first is read for the second. */
  lemma SharedNameMisleads(table: seq<Region>, total: nat, names: string -> bool, k: nat, l: nat)
    returns (s: Seeds, res: Report)
    requires LaidOut(table, total) && k < l < |table| && table[k].size > 0 && table[l].size > 0
    requires names(table[k].name) && table[k].name == table[l].name
    ensures s.table == table && s.names == names && s.Valid() && |s.a| == total
    ensures s.Reports(|table|, res) && !Exact(s, res)
  {
    RegionFits(table, total, k);
    RegionFits(table, total, l);
    RegionsInOrder(table, total, k, l);
    s := Seeds(OneAt(total, total), OneAt(total, table[k].off), table, names);
    res := map[table[k].name := [Run(0, 1)]];
    forall j: nat | j < |table|
      ensures s.Flagged(j) <==> j == k
    {
      OneByteFlags(s, k, j);
    }
    OneByteFlags(s, k, k);
    OneReport(s, k, [Run(0, 1)]);
    assert Covered([Run(0, 1)], 0) by { assert Run(0, 1) in [Run(0, 1)]; }
    assert InRegion(table[l], table[l].off) && !Differs(s.a, s.b, table[l].off);
    assert ReportedIn(s, res, l, table[l].off);
  }

  lemma OneByteRun(x: seq<Byte>, y: seq<Byte>)
    requires |x| == |y| > 0 && x[0] != y[0] && forall i | 1 <= i < |x| :: x[i] == y[i]
    ensures RunsOf(x, y, [Run(0, 1)])
  {
    assert Differs(x, y, 0) && forall i :: Differs(x, y, i) ==> i == 0;
    assert MaximalRun(x, y, Run(0, 1));
    forall r | MaximalRun(x, y, r)
      ensures r == Run(0, 1)
    {
      assert Differs(x, y, r.start) && Differs(x, y, r.end - 1);
    }
    assert [Run(0, 1)][0] == Run(0, 1);
  }

  /** The seed diff is exact for all seeds of a table precisely when the names of its non-empty
      selected regions are distinct. */
  lemma SeedDiffExact(table: seq<Region>, total: nat, names: string -> bool)
    requires LaidOut(table, total)
    ensures NamesDistinct(table, names)
       <==> (forall s: Seeds, res | s.table == table && s.names == names && |s.a| == total && s.Valid()
                && s.Reports(|table|, res) :: Exact(s, res))
  {
    if NamesDistinct(table, names) {
      forall s: Seeds, res | s.table == table && s.names == names && |s.a| == total && s.Valid()
                && s.Reports(|table|, res)
        ensures Exact(s, res)
      {
        DistinctNamesExact(s, res);
      }
    } else {
      var k, l :| 0 <= k < l < |table| && table[k].size > 0 && table[l].size > 0 && names(table[k].name)
                  && table[k].name == table[l].name;
      var s, res := SharedNameMisleads(table, total, names, k, l);
    }
  }

  /** By the report, byte `i` differs: it is filed under region `k`, which was asked for. */
  ghost predicate FlaggedAt(s: Seeds, res: Report, k: int, i: int) {
    0 <= k < |s.table| && s.names(s.table[k].name) && InRegion(s.table[k], i) && ReportedIn(s, res, k, i)
  }

  ghost predicate AskedFor(s: Seeds, i: int) {
    exists k :: 0 <= k < |s.table| && s.names(s.table[k].name) && InRegion(s.table[k], i)
  }

  /** From the manifest to the report: when the names are distinct, a byte that was asked for is
      flagged iff it differs, and never in two regions. */
  lemma {:induction false} EachByteFlaggedOnce(regs: seq<Manifest>, s: Seeds, res: Report, i: nat)
    requires TableOf(s.table, regs) && |s.a| == |s.b| == Total(regs) && i < Total(regs)
    requires s.Reports(|s.table|, res) && NamesDistinct(s.table, s.names)
    ensures (exists k :: FlaggedAt(s, res, k, i)) <==> AskedFor(s, i) && s.a[i] != s.b[i]
    ensures forall k, l | FlaggedAt(s, res, k, i) && FlaggedAt(s, res, l, i) :: k == l
  {
    TableIsLaidOut(s.table, regs);
    DistinctNamesExact(s, res);
    var k := EveryByteInOneRegion(s.table, Total(regs), i);
    assert Differs(s.a, s.b, i) <==> s.a[i] != s.b[i];
    if AskedFor(s, i) && s.a[i] != s.b[i] { assert FlaggedAt(s, res, k, i); }
  }

  /** The part of the blob that the table covers. */
  function Within(s: seq<Byte>, total: nat): seq<Byte> {
    s[..Clip(total, s)]
  }

  /** Both blobs end before byte `i`, or both have it and it is the same. */
  predicate SameByte(a: seq<Byte>, b: seq<Byte>, i: nat) {
    (i < |a| <==> i < |b|) && (i < |a| && i < |b| ==> a[i] == b[i])
  }

  /** The parts of two blobs that the table covers are equal byte by byte, and end alike. */
  lemma WithinByByte(a: seq<Byte>, b: seq<Byte>, total: nat)
    ensures Within(a, total) == Within(b, total) <==> forall i: nat | i < total :: SameByte(a, b, i)
  {
    var x, y := Within(a, total), Within(b, total);
    if forall i: nat | i < total :: SameByte(a, b, i) {
      assert |a| < total ==> SameByte(a, b, |a|);
      assert |b| < total ==> SameByte(a, b, |b|);
      forall i | 0 <= i < |x| && i < |y|
        ensures x[i] == y[i]
      {
        assert SameByte(a, b, i);
      }
    }
    if x == y {
      forall i: nat | i < total
        ensures SameByte(a, b, i)
      {
        assert i < |a| ==> x[i] == a[i];
        assert i < |b| ==> y[i] == b[i];
      }
    }
  }

  /** What an empty answer of the unchecked `--diff`, which asks for every region, is worth: nothing
      is flagged precisely when the parts that the table covers are equal, lengths included. */
  lemma NothingFlaggedExactly(s: Seeds, total: nat)
    requires LaidOut(s.table, total) && forall name :: s.names(name)
    ensures (forall k :: !s.Flagged(k)) <==> Within(s.a, total) == Within(s.b, total)
  {
    var a, b := Within(s.a, total), Within(s.b, total);
    if a == b {
      forall k | 0 <= k < |s.table|
        ensures !s.Flagged(k)
      {
        RegionFits(s.table, total, k);
        SliceWithin(s.a, total, s.table[k]);
        SliceWithin(s.b, total, s.table[k]);
      }
    }
    if forall k :: !s.Flagged(k) {
      if |a| < total { NotFlaggedAgrees(s, total, |a|); }
      if |b| < total { NotFlaggedAgrees(s, total, |b|); }
      forall i: nat | i < |a| && i < |b|
        ensures a[i] == b[i]
      {
        NotFlaggedAgrees(s, total, i);
      }
    }
  }

  /** Nothing is reported precisely then, too. */
  lemma EmptyReportExactly(s: Seeds, res: Report, total: nat)
    requires LaidOut(s.table, total) && (forall name :: s.names(name)) && s.Reports(|s.table|, res)
    ensures res == map[] <==> Within(s.a, total) == Within(s.b, total)
  {
    NothingFlaggedExactly(s, total);
    forall k: nat | k < |s.table| && s.Flagged(k)
      ensures s.table[k].name in res
    {
      assert s.ReportsName(|s.table|, s.table[k].name, res);
    }
    forall name | name in res
      ensures exists k :: s.Flagged(k)
    {
      assert s.ReportsName(|s.table|, name, res);
    }
    assert res == map[] <==> forall name :: name !in res;
  }

  predicate EveryName(name: string) {
    true
  }

  /** `--diff`: two files as they are, over every region of the manifest.  It raises if a region that
      differs is cut short; it prints nothing precisely when the files agree as far as the table goes. */
  method DiffCommand(regs: seq<Manifest>, a: seq<Byte>, b: seq<Byte>) returns (table: seq<Region>, out: Outcome)
    ensures TableOf(table, regs) && !out.Refused?
    ensures out.Raised? <==> exists k :: Seeds(a, b, table, EveryName).Breaks(k)
    ensures out.Reported? ==> Seeds(a, b, table, EveryName).Reports(|table|, out.report)
    ensures out == Reported(map[]) <==> Within(a, Total(regs)) == Within(b, Total(regs))
  {
    var total: nat;
    table, total := LoadRegions(regs);
    var s := Seeds(a, b, table, EveryName);
    out := DiffRuns(s);
    TableIsLaidOut(table, regs);
    NothingFlaggedExactly(s, total);
    if out.Reported? { EmptyReportExactly(s, out.report, total); }
  }

  lemma NotFlaggedAgrees(s: Seeds, total: nat, i: nat)
    requires LaidOut(s.table, total) && i < total
    requires (forall name :: s.names(name)) && forall k :: !s.Flagged(k)
    ensures (i < |s.a| <==> i < |s.b|) && (i < |s.a| ==> s.a[i] == s.b[i])
  {
    var k := EveryByteInOneRegion(s.table, total, i);
    assert !s.Flagged(k);
    SliceAt(s.a, s.table[k], i);
    SliceAt(s.b, s.table[k], i);
  }

  lemma SliceWithin(x: seq<Byte>, total: nat, r: Region)
    requires r.off + r.size <= total
    ensures Slice(x, r) == Slice(Within(x, total), r)
  {
  }

  lemma SliceAt(x: seq<Byte>, r: Region, i: nat)
    requires InRegion(r, i)
    ensures i < |x| <==> i - r.off < |Slice(x, r)|
    ensures i < |x| ==> Slice(x, r)[i - r.off] == x[i]
  {
  }
}
