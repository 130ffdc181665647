/** The byte-level diff of two arms and its verdict (tools/abc_region_diff.py). */
module RegionDiff {
  import opened ByteRuns
  import opened Options
  import opened Sequences

  /** A contiguous `[offset, offset + len)` range; an excused one may be declared anywhere. */
  datatype Range = Range(off: int, len: int)

  // ---- byte_ranges --------------------------------------------------------------------------

  function AsRange(r: Run): Range {
    Range(r.start, r.end - r.start)
  }

  function AsRanges(runs: seq<Run>): (ranges: seq<Range>)
    ensures |ranges| == |runs| && forall k | 0 <= k < |runs| :: ranges[k] == AsRange(runs[k])
  {
    seq(|runs|, k requires 0 <= k < |runs| => AsRange(runs[k]))
  }

  lemma AsRangesSnoc(runs: seq<Run>, r: Run)
    ensures AsRanges(runs + [r]) == AsRanges(runs) + [AsRange(r)]
  {
  }

  /** The ranges are the maximal differing runs, as offset and length. */
  ghost predicate RangesOf(x: seq<Byte>, y: seq<Byte>, ranges: seq<Range>) {
    exists runs :: RunsOf(x, y, runs) && ranges == AsRanges(runs)
  }

  /** What the scan knows at index `i`: the runs that have ended, and where the open one started. */
  ghost predicate Scanning(x: seq<Byte>, y: seq<Byte>, i: int, start: int, runs: seq<Run>) {
    && (start == -1 <==> !Differs(x, y, i - 1))
    && (start != -1 ==> 0 <= start < i && AllDiffer(x, y, start, i) && !Differs(x, y, start - 1))
    && EndedBy(x, y, if start == -1 then i - 1 else start, runs)
  }

  /** At an index that does not differ, an open run is over. */
  lemma RunOver(x: seq<Byte>, y: seq<Byte>, i: nat, start: int, runs: seq<Run>)
    requires Scanning(x, y, i, start, runs) && start != -1 && !Differs(x, y, i)
    ensures EndedBy(x, y, i, runs + [Run(start, i)])
  {
    CloseRun(x, y, runs, start, i);
  }

  /** Outside a run, index `i` is passed. */
  lemma NoRunHere(x: seq<Byte>, y: seq<Byte>, i: nat, runs: seq<Run>)
    requires Scanning(x, y, i, -1, runs)
    ensures EndedBy(x, y, i, runs)
  {
    PassIndex(x, y, runs, if i == 0 then 0 else i - 1, i);
  }

  /** One index further: a run opens, goes on or is over, or there is none. */
  lemma ScanOn(x: seq<Byte>, y: seq<Byte>, i: nat, start: int, runs: seq<Run>)
    requires i < Shared(x, y) && Scanning(x, y, i, start, runs)
    ensures x[i] != y[i] ==> Scanning(x, y, i + 1, if start == -1 then i else start, runs)
    ensures x[i] == y[i] && start == -1 ==> Scanning(x, y, i + 1, -1, runs)
    ensures x[i] == y[i] && start != -1 ==> Scanning(x, y, i + 1, -1, runs + [Run(start, i)])
  {
    if start == -1 {
      NoRunHere(x, y, i, runs);
    } else if x[i] == y[i] {
      RunOver(x, y, i, start, runs);
    }
  }

  method ByteRanges(x: seq<Byte>, y: seq<Byte>) returns (ranges: seq<Range>)
    ensures RangesOf(x, y, ranges)
  {
    ranges := [];
    ghost var runs: seq<Run> := [];
    var start := -1;      // no open range
    var n := Shared(x, y);
    for i := 0 to n
      invariant Scanning(x, y, i, start, runs) && ranges == AsRanges(runs)
    {
      ScanOn(x, y, i, start, runs);
      if x[i] != y[i] {
        if start == -1 {
          start := i;
        }
      } else if start != -1 {
        AsRangesSnoc(runs, Run(start, i));
        ranges, runs := ranges + [Range(start, i - start)], runs + [Run(start, i)];
        start := -1;
      }
    }
    if start != -1 {
      RunOver(x, y, n, start, runs);
      AsRangesSnoc(runs, Run(start, n));
      ranges, runs := ranges + [Range(start, n - start)], runs + [Run(start, n)];
    } else {
      NoRunHere(x, y, n, runs);
    }
    AllEnded(x, y, runs);
  }

  /** No run ends after the shared length. */
  lemma AllEnded(x: seq<Byte>, y: seq<Byte>, runs: seq<Run>)
    requires EndedBy(x, y, Shared(x, y), runs)
    ensures RunsOf(x, y, runs)
  {
    forall r | MaximalRun(x, y, r)
      ensures r.end <= Shared(x, y)
    {
      assert Differs(x, y, r.end - 1);
    }
  }

  // ---- excused ranges: what `inside` accepts ------------------------------------------------

  predicate Within(off: int, len: int, r: Range) {
    off >= r.off && off + len <= r.off + r.len
  }

  predicate Inside(off: int, len: int, ranges: seq<Range>) {
    exists k :: 0 <= k < |ranges| && Within(off, len, ranges[k])
  }

  predicate Holds(r: Range, i: int) {
    r.off <= i < r.off + r.len
  }

  ghost predicate Declared(ranges: seq<Range>, i: int) {
    exists k :: 0 <= k < |ranges| && Holds(ranges[k], i)
  }

  /** Every maximal differing run passes `inside`. */
  ghost predicate RunsExcused(x: seq<Byte>, y: seq<Byte>, ranges: seq<Range>) {
    forall r | MaximalRun(x, y, r) :: Inside(r.start, r.end - r.start, ranges)
  }

  /** Every differing byte lies in a declared range. */
  ghost predicate BytesExcused(x: seq<Byte>, y: seq<Byte>, ranges: seq<Range>) {
    forall i | Differs(x, y, i) :: Declared(ranges, i)
  }

  /** Run by run implies byte by byte, whatever is declared. */
  lemma RunsExcusedSound(x: seq<Byte>, y: seq<Byte>, ranges: seq<Range>)
    requires RunsExcused(x, y, ranges)
    ensures BytesExcused(x, y, ranges)
  {
    forall i | Differs(x, y, i)
      ensures Declared(ranges, i)
    {
      var r := RunAt(x, y, i);
      var k :| 0 <= k < |ranges| && Within(r.start, r.end - r.start, ranges[k]);
      assert Holds(ranges[k], i);
    }
  }

  /** The first non-negative index of a declared range. */
  function Low(r: Range): int {
    if r.off < 0 then 0 else r.off
  }

  function High(r: Range): int {
    r.off + r.len
  }

  /** Where a declared range touches or overlaps one that reaches farther, a third (or one of the
      two) holds both. */
  predicate TouchingMerged(ranges: seq<Range>) {
    forall j, k | 0 <= j < |ranges| && 0 <= k < |ranges| && Touch(ranges[j], ranges[k]) ::
      JointlyInside(ranges, ranges[j], ranges[k])
  }

  predicate Touch(r: Range, t: Range) {
    Low(r) < High(r) && Low(r) <= Low(t) <= High(r) < High(t)
  }

  predicate JointlyInside(ranges: seq<Range>, r: Range, t: Range) {
    Inside(Low(r), High(t) - Low(r), ranges)
  }

  /** With touching ranges merged, a covered stretch lies in one range. */
  lemma {:induction false} CoveredStretchInside(ranges: seq<Range>, s: nat, e: nat)
    requires TouchingMerged(ranges) && s < e && forall i | s <= i < e :: Declared(ranges, i)
    ensures Inside(s, e - s, ranges)
    decreases e
  {
    assert Declared(ranges, e - 1);
    var k :| 0 <= k < |ranges| && Holds(ranges[k], e - 1);
    var m := k;
    if s < e - 1 {
      CoveredStretchInside(ranges, s, e - 1);
      var j :| 0 <= j < |ranges| && Within(s, e - 1 - s, ranges[j]);
      m := OneByteMore(ranges, s, e, j, k);
    }
    assert Within(s, e - s, ranges[m]);
  }

  lemma OneByteMore(ranges: seq<Range>, s: nat, e: nat, j: int, k: int) returns (m: int)
    requires TouchingMerged(ranges) && s < e - 1
    requires 0 <= j < |ranges| && Within(s, e - 1 - s, ranges[j])
    requires 0 <= k < |ranges| && Holds(ranges[k], e - 1)
    ensures 0 <= m < |ranges| && Within(s, e - s, ranges[m])
  {
    var r, t := ranges[j], ranges[k];
    if High(r) >= e {
      m := j;
    } else if Low(t) <= s {
      m := k;
    } else {
      Touching(r, t, s, e);
      assert JointlyInside(ranges, r, t);
      var i :| 0 <= i < |ranges| && Within(Low(r), High(t) - Low(r), ranges[i]);
      WithinWider(s, e, r, t, ranges[i]);
      m := i;
    }
  }

  /** A range that holds all of the stretch but its last byte ends where one that holds just the end
      goes on, and starts no later. */
  lemma Touching(r: Range, t: Range, s: nat, e: nat)
    requires s < e - 1 && Within(s, e - 1 - s, r) && Holds(t, e - 1)
    requires High(r) < e && s < Low(t)
    ensures Touch(r, t)
  {
  }

  lemma WithinWider(s: nat, e: nat, r: Range, t: Range, u: Range)
    requires s < e - 1 && Within(s, e - 1 - s, r) && Holds(t, e - 1) && Within(Low(r), High(t) - Low(r), u)
    ensures Within(s, e - s, u)
  {
  }

  function Zeros(n: nat): (z: seq<Byte>)
    ensures |z| == n && forall i | 0 <= i < n :: z[i] == 0
  {
    seq(n, _ => 0)
  }

  /** Differs from `Zeros(e)` exactly on `[s, e)`. */
  function Mark(s: nat, e: nat): (z: seq<Byte>)
    requires s <= e
    ensures |z| == e && forall i | 0 <= i < e :: z[i] == if s <= i then 1 else 0
  {
    seq(e, i => if s <= i then 1 else 0)
  }

  /** `inside` sees every excused byte as excused exactly when touching ranges are merged: a run
      that straddles two adjacent declared ranges is reported although each byte is declared. */
  lemma InsideExact(ranges: seq<Range>)
    ensures TouchingMerged(ranges)
       <==> (forall x: seq<Byte>, y: seq<Byte> :: BytesExcused(x, y, ranges) ==> RunsExcused(x, y, ranges))
  {
    if TouchingMerged(ranges) {
      forall x, y | BytesExcused(x, y, ranges)
        ensures RunsExcused(x, y, ranges)
      {
        forall r | MaximalRun(x, y, r)
          ensures Inside(r.start, r.end - r.start, ranges)
        {
          CoveredStretchInside(ranges, r.start, r.end);
        }
      }
    } else {
      var j, k :| 0 <= j < |ranges| && 0 <= k < |ranges| && Touch(ranges[j], ranges[k])
                  && !JointlyInside(ranges, ranges[j], ranges[k]);
      StraddleIsStray(ranges, ranges[j], ranges[k]);
    }
  }

  lemma StraddleIsStray(ranges: seq<Range>, r: Range, t: Range)
    requires r in ranges && t in ranges && Touch(r, t) && !JointlyInside(ranges, r, t)
    ensures var x, y := Zeros(High(t)), Mark(Low(r), High(t));
            BytesExcused(x, y, ranges) && !RunsExcused(x, y, ranges)
  {
    var s, e := Low(r), High(t);
    var x, y := Zeros(e), Mark(s, e);
    var j :| 0 <= j < |ranges| && ranges[j] == r;
    var k :| 0 <= k < |ranges| && ranges[k] == t;
    forall i | Differs(x, y, i)
      ensures Declared(ranges, i)
    {
      if i < High(r) { assert Holds(ranges[j], i); } else { assert Holds(ranges[k], i); }
    }
    assert MaximalRun(x, y, Run(s, e));
  }

  // ---- read_rx: a region dump rebuilt from its chunks ---------------------------------------

  datatype Key = Key(step: int, rid: int)
  datatype Row = Row(key: Key, off: nat, chunk: seq<Byte>)

  /** Growing a buffer with zeros if need be, and writing a chunk into it. */
  function Write(buf: seq<Byte>, off: nat, chunk: seq<Byte>): (r: seq<Byte>)
    ensures |r| == if |buf| < off + |chunk| then off + |chunk| else |buf|
    ensures forall i | 0 <= i < |r| ::
              r[i] == if off <= i < off + |chunk| then chunk[i - off] else if i < |buf| then buf[i] else 0
  {
    var grown := if |buf| < off + |chunk| then buf + Zeros(off + |chunk| - |buf|) else buf;
    grown[..off] + chunk + grown[off + |chunk|..]
  }

  /** The buffer of one key after all rows, in their order. */
  function Replay(rows: seq<Row>, key: Key): seq<Byte> {
    if rows == [] then []
    else
      var last, buf := rows[|rows| - 1], Replay(rows[..|rows| - 1], key);
      if last.key == key then Write(buf, last.off, last.chunk) else buf
  }

  method ReadRx(rows: seq<Row>) returns (out: map<Key, seq<Byte>>)
    ensures forall key :: Rebuilt(rows, key, out)
  {
    out := map[];
    for i := 0 to |rows|
      invariant forall key :: Rebuilt(rows[..i], key, out)
    {
      var row := rows[i];
      ghost var before, now := out, rows[..i + 1];
      var buf := if row.key in out then out[row.key] else [];
      out := out[row.key := Write(buf, row.off, row.chunk)];
      PrefixSnoc(rows, i);
      forall key: Key
        ensures Rebuilt(now, key, out)
      {
        assert Rebuilt(rows[..i], key, before);
        OneRowMore(rows[..i], row, key, before);
      }
    }
    assert rows[..|rows|] == rows;
  }

  /** The buffer of a key is there if a row has the key, and is what the rows have made of it. */
  ghost predicate Rebuilt(rows: seq<Row>, key: Key, out: map<Key, seq<Byte>>) {
    && (key in out <==> exists r :: r in rows && r.key == key)
    && (key in out ==> out[key] == Replay(rows, key))
  }

  lemma {:induction false} OneRowMore(rows: seq<Row>, row: Row, key: Key, out: map<Key, seq<Byte>>)
    requires Rebuilt(rows, key, out)
    ensures var buf := if row.key in out then out[row.key] else [];
            Rebuilt(rows + [row], key, out[row.key := Write(buf, row.off, row.chunk)])
  {
    var all := rows + [row];
    if key !in out { NoRowsNoBytes(rows, key); }
    assert all[..|all| - 1] == rows && all[|rows|] == row;
    assert forall r :: r in all <==> r in rows || r == row;
  }

  lemma {:induction false} NoRowsNoBytes(rows: seq<Row>, key: Key)
    requires forall r | r in rows :: r.key != key
    ensures Replay(rows, key) == []
  {
    if rows != [] {
      assert rows[|rows| - 1] in rows;
      NoRowsNoBytes(rows[..|rows| - 1], key);
    }
  }

  predicate Covers(r: Row, key: Key, p: int) {
    r.key == key && r.off <= p < r.off + |r.chunk|
  }

  ghost predicate SomeRowCovers(rows: seq<Row>, key: Key, p: int) {
    exists r :: r in rows && Covers(r, key, p)
  }

  /** The row is a piece of the dump `whole`. */
  predicate PieceOf(r: Row, whole: seq<Byte>) {
    r.off + |r.chunk| <= |whole| && r.chunk == whole[r.off..r.off + |r.chunk|]
  }

  lemma {:induction false} ReplayedSoFar(rows: seq<Row>, key: Key, whole: seq<Byte>)
    requires forall r | r in rows && r.key == key :: PieceOf(r, whole)
    ensures |Replay(rows, key)| <= |whole|
    ensures forall p | 0 <= p < |whole| && SomeRowCovers(rows, key, p) ::
              p < |Replay(rows, key)| && Replay(rows, key)[p] == whole[p]
  {
    if rows != [] {
      var init, last := rows[..|rows| - 1], rows[|rows| - 1];
      assert rows == init + [last] && last in rows;
      ReplayedSoFar(init, key, whole);
      forall p | 0 <= p < |whole| && SomeRowCovers(rows, key, p)
        ensures p < |Replay(rows, key)| && Replay(rows, key)[p] == whole[p]
      {
        if !Covers(last, key, p) {
          var r :| r in rows && Covers(r, key, p);
          assert r in init && SomeRowCovers(init, key, p);
        } else {
          assert last.chunk[p - last.off] == whole[p];
        }
      }
    }
  }

  /** Chunks of one dump that cover it rebuild it, in whatever order and however often they come. */
  lemma DumpRebuilt(rows: seq<Row>, key: Key, whole: seq<Byte>)
    requires forall r | r in rows && r.key == key :: PieceOf(r, whole)
    requires forall p | 0 <= p < |whole| :: SomeRowCovers(rows, key, p)
    ensures Replay(rows, key) == whole
  {
    ReplayedSoFar(rows, key, whole);
    if whole != [] {
      assert SomeRowCovers(rows, key, |whole| - 1);
    }
  }

  // ---- column_diff: which hash columns ever differ ------------------------------------------

  /** The hash columns of one arm, step by step. */
  type Columns = map<int, seq<int>>

  predicate ColumnDiffers(a: Columns, b: Columns, step: int, i: int) {
    && step in a && step in b
    && 0 <= i < |a[step]| && i < |b[step]|
    && a[step][i] != b[step][i]
  }

  function DifferingSteps(a: Columns, b: Columns, steps: seq<int>, i: int): set<int> {
    set s | s in steps && ColumnDiffers(a, b, s, i)
  }

  datatype ColumnRow = ColumnRow(column: int, mismatches: nat, first: int)

  predicate Increasing(s: seq<int>) {
    forall k, l | 0 <= k < l < |s| :: s[k] < s[l]
  }

  lemma Pick<T>(s: set<T>) returns (x: T)
    requires s != {}
    ensures x in s
  {
    x :| x in s;
  }

  lemma LeastOf(s: set<int>) returns (m: int)
    requires s != {}
    ensures m in s && forall y | y in s :: m <= y
  {
    var x := Pick(s);
    m := x;
    if s - {x} != {} {
      var n := LeastOf(s - {x});
      m := if n < x then n else x;
    }
    assert forall y | y in s :: y == x || y in s - {x};
  }

  /** `sorted` of a set of integers. */
  method Sorted(s: set<int>) returns (out: seq<int>)
    ensures Increasing(out) && |out| == |s| && forall y :: y in out <==> y in s
  {
    out := [];
    var rest := s;
    while rest != {}
      invariant Increasing(out) && |out| + |rest| == |s|
      invariant forall y :: y in s <==> y in out || y in rest
      invariant forall y, z | y in out && z in rest :: y < z
    {
      ghost var least := LeastOf(rest);
      var m :| m in rest && forall y | y in rest :: m <= y;
      assert forall k | 0 <= k < |out| :: out[k] in out;
      out, rest := out + [m], rest - {m};
    }
  }

  /** The entry of column `i` counts the steps of `steps` at which it differs, and names the first. */
  ghost predicate Tallied(a: Columns, b: Columns, steps: seq<int>, i: int, entry: Option<ColumnRow>) {
    var at := DifferingSteps(a, b, steps, i);
    match entry
    case None => at == {}
    case Some(e) => at != {} && e.column == i && e.mismatches == |at| && FirstIn(steps, at, e.first)
  }

  function Entry(out: map<int, ColumnRow>, i: int): Option<ColumnRow> {
    if i in out then Some(out[i]) else None
  }

  /** One step of the column diff is counted into every column that differs at it. */
  method CountStep(a: Columns, b: Columns, steps: seq<int>, s: int, was: map<int, ColumnRow>)
    returns (out: map<int, ColumnRow>)
    requires s in a && s in b && s !in steps
    requires forall i :: Tallied(a, b, steps, i, Entry(was, i))
    ensures forall i :: Tallied(a, b, steps + [s], i, Entry(out, i))
  {
    out := was;
    var ra, rb := a[s], b[s];
    var width := if |ra| <= |rb| then |ra| else |rb|;
    for c := 0 to width
      invariant forall i | 0 <= i < c :: Tallied(a, b, steps + [s], i, Entry(out, i))
      invariant forall i | i < 0 || c <= i :: Entry(out, i) == Entry(was, i)
    {
      assert Tallied(a, b, steps, c, Entry(was, c)) && Entry(out, c) == Entry(was, c);
      TallyStep(a, b, steps, s, c, Entry(was, c));
      ghost var before := out;
      if ra[c] != rb[c] {
        var d := if c in out then out[c] else ColumnRow(c, 0, s);
        out := out[c := d.(mismatches := d.mismatches + 1)];
      }
      assert Entry(out, c) == Counted(a, b, s, c, Entry(was, c));
      assert forall i | i != c :: Entry(out, i) == Entry(before, i);
    }
    forall i
      ensures Tallied(a, b, steps + [s], i, Entry(out, i))
    {
      assert Tallied(a, b, steps, i, Entry(was, i));
      TallyStep(a, b, steps, s, i, Entry(was, i));
    }
  }

  function Counted(a: Columns, b: Columns, s: int, i: int, entry: Option<ColumnRow>): Option<ColumnRow> {
    if !ColumnDiffers(a, b, s, i) then entry
    else if entry.None? then Some(ColumnRow(i, 1, s))
    else Some(entry.value.(mismatches := entry.value.mismatches + 1))
  }

  ghost predicate FirstIn(steps: seq<int>, at: set<int>, s: int) {
    exists k :: 0 <= k < |steps| && steps[k] == s && s in at && forall j | 0 <= j < k :: steps[j] !in at
  }

  lemma TallyStep(a: Columns, b: Columns, steps: seq<int>, s: int, i: int, entry: Option<ColumnRow>)
    requires s !in steps && Tallied(a, b, steps, i, entry)
    ensures Tallied(a, b, steps + [s], i, Counted(a, b, s, i, entry))
  {
    var was, now, more := DifferingSteps(a, b, steps, i), DifferingSteps(a, b, steps + [s], i), steps + [s];
    assert now == if ColumnDiffers(a, b, s, i) then was + {s} else was;
    assert more[|steps|] == s && forall j | 0 <= j < |steps| :: more[j] == steps[j] && steps[j] in steps;
    if entry.Some? {
      var k :| 0 <= k < |steps| && steps[k] == entry.value.first && entry.value.first in was
               && forall j | 0 <= j < k :: steps[j] !in was;
      assert more[k] == entry.value.first;
      assert FirstIn(more, now, entry.value.first);
    } else if ColumnDiffers(a, b, s, i) {
      assert FirstIn(more, now, s);
    }
  }

  ghost predicate EverDiffers(a: Columns, b: Columns, i: int) {
    exists s :: ColumnDiffers(a, b, s, i)
  }

  ghost predicate Listed(rows: seq<ColumnRow>, i: int) {
    exists r :: r in rows && r.column == i
  }

  /** The row counts the common steps at which its column differs, and names the first. */
  ghost predicate RowCounts(a: Columns, b: Columns, r: ColumnRow) {
    var at := set s | s in a.Keys * b.Keys && ColumnDiffers(a, b, s, r.column);
    r.mismatches == |at| && r.first in at && forall s | s in at :: r.first <= s
  }

  /** The rows name exactly the columns that differ at a common step, in column order, each with
      the number of such steps and the first of them. */
  method ColumnDiff(a: Columns, b: Columns) returns (common: nat, rows: seq<ColumnRow>)
    ensures common == |a.Keys * b.Keys|
    ensures forall k, l | 0 <= k < l < |rows| :: rows[k].column < rows[l].column
    ensures forall i :: Listed(rows, i) <==> EverDiffers(a, b, i)
    ensures forall r | r in rows :: RowCounts(a, b, r)
  {
    var steps := Sorted(a.Keys * b.Keys);
    common := |steps|;
    var out: map<int, ColumnRow> := map[];
    for k := 0 to |steps|
      invariant forall i :: Tallied(a, b, steps[..k], i, Entry(out, i))
    {
      OneStepOn(steps, k);
      out := CountStep(a, b, steps[..k], steps[k], out);
    }
    assert steps[..|steps|] == steps;
    var columns := Sorted(out.Keys);
    assert forall k | 0 <= k < |columns| :: columns[k] in columns;
    rows := seq(|columns|, k requires 0 <= k < |columns| && columns[k] in out => out[columns[k]]);
    RowsAreRight(a, b, steps, out, columns, rows);
  }

  lemma OneStepOn(steps: seq<int>, k: nat)
    requires Increasing(steps) && k < |steps|
    ensures steps[..k + 1] == steps[..k] + [steps[k]]
    ensures steps[k] in steps && steps[k] !in steps[..k]
  {
  }

  lemma RowsAreRight(a: Columns, b: Columns, steps: seq<int>, out: map<int, ColumnRow>,
                     columns: seq<int>, rows: seq<ColumnRow>)
    requires Increasing(steps) && forall s :: s in steps <==> s in a.Keys * b.Keys
    requires forall i :: Tallied(a, b, steps, i, Entry(out, i))
    requires Increasing(columns) && forall i :: i in columns <==> i in out
    requires |rows| == |columns| && forall k | 0 <= k < |rows| :: columns[k] in out && rows[k] == out[columns[k]]
    ensures forall k, l | 0 <= k < l < |rows| :: rows[k].column < rows[l].column
    ensures forall i :: Listed(rows, i) <==> EverDiffers(a, b, i)
    ensures forall r | r in rows :: RowCounts(a, b, r)
  {
    forall k | 0 <= k < |columns|
      ensures rows[k].column == columns[k]
    {
      assert Tallied(a, b, steps, columns[k], Entry(out, columns[k]));
    }
    forall i
      ensures Listed(rows, i) <==> EverDiffers(a, b, i)
    {
      assert Tallied(a, b, steps, i, Entry(out, i));
      var at := DifferingSteps(a, b, steps, i);
      if i in out {
        var k :| 0 <= k < |columns| && columns[k] == i;
        assert rows[k] in rows;
        var s := Pick(at);
        assert ColumnDiffers(a, b, s, i);
      }
      if s :| ColumnDiffers(a, b, s, i) {
        assert s in at;
      }
    }
    forall r | r in rows
      ensures RowCounts(a, b, r)
    {
      assert Tallied(a, b, steps, r.column, Entry(out, r.column));
      assert (set s | s in a.Keys * b.Keys && ColumnDiffers(a, b, s, r.column))
          == DifferingSteps(a, b, steps, r.column);
    }
  }

  // ---- the verdict --------------------------------------------------------------------------

  datatype Excusal = Excusal(region: string, legs: seq<string>, bytes: seq<Range>)

  const LEG := "A-vs-B"

  predicate Names(e: Excusal, region: string) {
    LEG in e.legs && e.region == region
  }

  function ExcusedRanges(excusals: seq<Excusal>, region: string): seq<Range> {
    if excusals == [] then []
    else (if Names(excusals[0], region) then excusals[0].bytes else []) + ExcusedRanges(excusals[1..], region)
  }

  function Digits(n: nat): string {
    (if n < 10 then "" else Digits(n / 10)) + ["0123456789"[n % 10]]
  }

  /** The region a hash column stands for, or `col<i>` outside the generated list. */
  function RegionName(names: seq<string>, i: int): string {
    if 0 <= i < |names| then names[i]
    else "col" + if i < 0 then "-" + Digits(-i) else Digits(i)
  }

  type Dumps = map<Key, seq<Byte>>

  datatype Evidence = Evidence(a: Columns, b: Columns, rxA: Dumps, rxB: Dumps,
                               excusals: seq<Excusal>, names: seq<string>)
  {
    ghost predicate DumpedIn(region: string) {
      exists key :: key in rxA && key in rxB && RegionName(names, key.rid) == region
    }

    ghost predicate DumpExcused(key: Key)
      requires key in rxA && key in rxB
    {
      && |rxA[key]| == |rxB[key]|
      && RunsExcused(rxA[key], rxB[key], ExcusedRanges(excusals, RegionName(names, key.rid)))
    }

    ghost predicate ColumnExplained(i: int) {
      && (exists e :: e in excusals && Names(e, RegionName(names, i)))
      && DumpedIn(RegionName(names, i))
    }

    /** What PROVED stands for. */
    ghost predicate Proved() {
      && rxA.Keys * rxB.Keys != {}
      && (forall key | key in rxA && key in rxB :: DumpExcused(key))
      && (forall s, i | ColumnDiffers(a, b, s, i) :: ColumnExplained(i))
    }
  }

  datatype Outcome = NothingCompared | Judged(proved: bool)

  /** One dumped step and region: does its byte diff pass? */
  method JudgeDump(x: seq<Byte>, y: seq<Byte>, excused: seq<Range>) returns (ok: bool)
    ensures ok <==> |x| == |y| && RunsExcused(x, y, excused)
  {
    ok := |x| == |y|;
    var ranges := ByteRanges(x, y);
    ghost var runs :| RunsOf(x, y, runs) && ranges == AsRanges(runs);
    var strays := 0;
    for k := 0 to |ranges|
      invariant strays == 0 <==> forall j | 0 <= j < k :: Inside(ranges[j].off, ranges[j].len, excused)
    {
      if !Inside(ranges[k].off, ranges[k].len, excused) {
        strays := strays + 1;
      }
    }
    assert forall j | 0 <= j < |ranges| :: ranges[j] == AsRange(runs[j]) && runs[j] in runs;
    ok := ok && strays == 0;
  }

  /** Every commonly dumped step and region, and the names of the regions among them. */
  method JudgeDumps(ev: Evidence) returns (ok: bool, dumped: set<string>)
    ensures ok <==> forall key | key in ev.rxA && key in ev.rxB :: ev.DumpExcused(key)
    ensures forall n :: n in dumped <==> ev.DumpedIn(n)
  {
    ok, dumped := true, {};
    var keys := ev.rxA.Keys * ev.rxB.Keys;
    var rest := keys;
    while rest != {}
      invariant rest <= keys
      invariant ok <==> forall key | key in keys - rest :: ev.DumpExcused(key)
      invariant forall n :: n in dumped <==> exists key :: key in keys - rest && RegionName(ev.names, key.rid) == n
    {
      var key :| key in rest;
      var name := RegionName(ev.names, key.rid);
      var good := JudgeDump(ev.rxA[key], ev.rxB[key], ExcusedRanges(ev.excusals, name));
      assert keys - (rest - {key}) == keys - rest + {key};
      ok, dumped, rest := ok && good, dumped + {name}, rest - {key};
    }
    assert keys - rest == keys;
  }

  /** Every column that differs is named by an excusal, and its region was dumped. */
  method JudgeColumns(ev: Evidence, cols: seq<ColumnRow>, dumped: set<string>) returns (ok: bool)
    requires forall n :: n in dumped <==> ev.DumpedIn(n)
    ensures ok <==> forall r | r in cols :: ev.ColumnExplained(r.column)
  {
    ok := true;
    var named := set e | e in ev.excusals && LEG in e.legs :: e.region;
    for k := 0 to |cols|
      invariant ok <==> forall j | 0 <= j < k :: ev.ColumnExplained(cols[j].column)
    {
      var name := RegionName(ev.names, cols[k].column);
      assert name in named <==> exists e :: e in ev.excusals && Names(e, name);
      if name !in named || name !in dumped {
        ok := false;
      }
    }
    assert forall k | 0 <= k < |cols| :: cols[k] in cols;
  }

  method Judge(ev: Evidence) returns (r: Outcome)
    ensures r == NothingCompared <==> ev.a.Keys * ev.b.Keys == {}
    ensures r.Judged? ==> (r.proved <==> ev.Proved())
  {
    var common, cols := ColumnDiff(ev.a, ev.b);
    if common == 0 { return NothingCompared; }
    var good, dumped := JudgeDumps(ev);
    var explained := JudgeColumns(ev, cols, dumped);
    ColumnsListed(ev.a, ev.b, cols);
    r := Judged(good && explained && ev.rxA.Keys * ev.rxB.Keys != {});
  }

  lemma ColumnsListed(a: Columns, b: Columns, cols: seq<ColumnRow>)
    requires forall i :: Listed(cols, i) <==> EverDiffers(a, b, i)
    ensures forall s, i | ColumnDiffers(a, b, s, i) :: Listed(cols, i)
    ensures forall r | r in cols :: exists s :: ColumnDiffers(a, b, s, r.column)
  {
    forall s, i | ColumnDiffers(a, b, s, i)
      ensures Listed(cols, i)
    {
      assert EverDiffers(a, b, i);
    }
    forall r | r in cols
      ensures exists s :: ColumnDiffers(a, b, s, r.column)
    {
      assert Listed(cols, r.column) && EverDiffers(a, b, r.column);
    }
  }

  // ---- the two arms behind the labels -------------------------------------------------------

  /** What the log of one arm holds: its hash columns and its region dumps. */
  datatype Arm = Arm(columns: Columns, dumps: Dumps)

  /** The evidence of these two arms. */
  function Given(a: Arm, b: Arm, excusals: seq<Excusal>, names: seq<string>): Evidence {
    Evidence(a.columns, b.columns, a.dumps, b.dumps, excusals, names)
  }

  /** The arm that is read under the first label: equal labels name the second log. */
  function FirstArm(labelA: string, a: Arm, labelB: string, b: Arm): Arm {
    if labelA == labelB then b else a
  }

  /** The logs are kept by label. */
  method LoadArms(labelA: string, a: Arm, labelB: string, b: Arm) returns (logs: map<string, Arm>)
    ensures logs.Keys == {labelA, labelB}
    ensures logs[labelA] == FirstArm(labelA, a, labelB, b) && logs[labelB] == b
  {
    var given := [(labelA, a), (labelB, b)];
    logs := map[];
    for i := 0 to |given|
      invariant logs == if i == 0 then map[] else if i == 1 then map[labelA := a] else map[labelA := a][labelB := b]
    {
      logs := logs[given[i].0 := given[i].1];
    }
  }

  /** The whole command: the logs by label, then the verdict on what the two labels name. */
  method JudgeArms(labelA: string, a: Arm, labelB: string, b: Arm, excusals: seq<Excusal>, names: seq<string>)
    returns (r: Outcome)
    ensures var ev := Given(FirstArm(labelA, a, labelB, b), b, excusals, names);
            && (r == NothingCompared <==> ev.a.Keys * ev.b.Keys == {})
            && (r.Judged? ==> (r.proved <==> ev.Proved()))
  {
    var logs := LoadArms(labelA, a, labelB, b);
    r := Judge(Given(logs[labelA], logs[labelB], excusals, names));
  }

  /** An arm compared with itself is PROVED as soon as it dumped anything. */
  lemma SelfComparisonProved(b: Arm, excusals: seq<Excusal>, names: seq<string>)
    ensures Given(b, b, excusals, names).Proved() <==> b.dumps != map[]
  {
    var ev := Given(b, b, excusals, names);
    assert b.dumps.Keys == {} <==> b.dumps == map[];
    assert ev.rxA.Keys * ev.rxB.Keys == b.dumps.Keys;
    forall key | key in b.dumps
      ensures ev.DumpExcused(key)
    {
      NoRunsInItself(b.dumps[key], ExcusedRanges(excusals, RegionName(names, key.rid)));
    }
  }

  lemma NoRunsInItself(x: seq<Byte>, ranges: seq<Range>)
    ensures RunsExcused(x, x, ranges)
  {
    forall r
      ensures !MaximalRun(x, x, r)
    {
      assert !Differs(x, x, r.start);
    }
  }

  /** The verdict is about the two arms that were given, whatever they and the excusals are, exactly
      when their labels differ. */
  lemma VerdictIsOfGivenArms(labelA: string, labelB: string)
    ensures labelA != labelB
       <==> (forall a, b, excusals, names ::
               Given(FirstArm(labelA, a, labelB, b), b, excusals, names).Proved()
               <==> Given(a, b, excusals, names).Proved())
  {
    if labelA == labelB {
      var key := Key(0, 0);
      var a, b := Arm(map[0 := []], map[key := [0]]), Arm(map[0 := []], map[key := [1]]);
      SelfComparisonProved(b, [], []);
      assert key in b.dumps;
      assert MaximalRun([0], [1], Run(0, 1)) && !Inside(0, 1, []);
      assert !Given(a, b, [], []).DumpExcused(key);
      assert Given(FirstArm(labelA, a, labelB, b), b, [], []).Proved() && !Given(a, b, [], []).Proved();
    }
  }

  ghost predicate ByteDeclared(excusals: seq<Excusal>, region: string, i: int) {
    exists e, r :: e in excusals && Names(e, region) && r in e.bytes && Holds(r, i)
  }

  lemma {:induction false} DeclaredIsByteDeclared(excusals: seq<Excusal>, region: string, i: int)
    ensures Declared(ExcusedRanges(excusals, region), i) <==> ByteDeclared(excusals, region, i)
  {
    if excusals != [] {
      var rest := ExcusedRanges(excusals[1..], region);
      var mine := if Names(excusals[0], region) then excusals[0].bytes else [];
      DeclaredIsByteDeclared(excusals[1..], region, i);
      DeclaredAppend(mine, rest, i);
      assert excusals == [excusals[0]] + excusals[1..];
      if k :| 0 <= k < |mine| && Holds(mine[k], i) { assert mine[k] in mine; }
    }
  }

  lemma DeclaredAppend(a: seq<Range>, b: seq<Range>, i: int)
    ensures Declared(a + b, i) <==> Declared(a, i) || Declared(b, i)
  {
    var all := a + b;
    if k :| 0 <= k < |a| && Holds(a[k], i) { assert Holds(all[k], i); }
    if k :| 0 <= k < |b| && Holds(b[k], i) { assert Holds(all[|a| + k], i); }
    if k :| 0 <= k < |all| && Holds(all[k], i) { assert Holds(if k < |a| then a[k] else b[k - |a|], i); }
  }

  /** At every commonly dumped step the dumps are of one length and every byte that differs is
      declared for its region. */
  ghost predicate EveryByteDeclared(ev: Evidence) {
    forall key | key in ev.rxA && key in ev.rxB ::
      && |ev.rxA[key]| == |ev.rxB[key]|
      && forall i | Differs(ev.rxA[key], ev.rxB[key], i) ::
           ByteDeclared(ev.excusals, RegionName(ev.names, key.rid), i)
  }

  lemma BytesExcusedIsDeclared(x: seq<Byte>, y: seq<Byte>, excusals: seq<Excusal>, region: string)
    ensures BytesExcused(x, y, ExcusedRanges(excusals, region))
       <==> forall i | Differs(x, y, i) :: ByteDeclared(excusals, region, i)
  {
    forall i { DeclaredIsByteDeclared(excusals, region, i); }
  }

  /** A PROVED verdict means what it prints; and where no two declared ranges of a region touch
      without being merged, it is given whenever that holds. */
  lemma ProvedMeansEveryByteDeclared(ev: Evidence)
    ensures ev.Proved() ==> EveryByteDeclared(ev)
    ensures (forall n :: TouchingMerged(ExcusedRanges(ev.excusals, n))) && EveryByteDeclared(ev) ==>
              forall key | key in ev.rxA && key in ev.rxB :: ev.DumpExcused(key)
  {
    forall key | key in ev.rxA && key in ev.rxB
      ensures ev.DumpExcused(key) ==>
                (&& |ev.rxA[key]| == |ev.rxB[key]|
                 && forall i | Differs(ev.rxA[key], ev.rxB[key], i) ::
                      ByteDeclared(ev.excusals, RegionName(ev.names, key.rid), i))
      ensures (forall n :: TouchingMerged(ExcusedRanges(ev.excusals, n))) && EveryByteDeclared(ev) ==> ev.DumpExcused(key)
    {
      var x, y, n := ev.rxA[key], ev.rxB[key], RegionName(ev.names, key.rid);
      BytesExcusedIsDeclared(x, y, ev.excusals, n);
      InsideExact(ExcusedRanges(ev.excusals, n));
      if ev.DumpExcused(key) { RunsExcusedSound(x, y, ExcusedRanges(ev.excusals, n)); }
    }
  }

  // ---- the verdict in the words of the evidence ---------------------------------------------

  /** The number a text of digits denotes. */
  function Decimal(s: string): nat {
    if s == "" then 0
    else Decimal(s[..|s| - 1]) * 10 + if '0' <= s[|s| - 1] <= '9' then (s[|s| - 1] - '0') as nat else 0
  }

  lemma {:induction false} DigitsDenote(n: nat)
    ensures Decimal(Digits(n)) == n
  {
    LastDigit(n);
    if n < 10 {
      assert Digits(n)[..0] == "" && Decimal("") == 0;
    } else {
      DigitsDenote(n / 10);
    }
  }

  lemma LastDigit(n: nat)
    ensures Digits(n) != "" && Digits(n)[|Digits(n)| - 1] as int == '0' as int + n % 10
    ensures Digits(n)[..|Digits(n)| - 1] == if n < 10 then "" else Digits(n / 10)
  {
    assert "0123456789"[n % 10] as int == '0' as int + n % 10;
  }

  /** No digit too many: the first is not zero, but for the number zero. */
  lemma {:induction false} NoLeadingZero(n: nat)
    requires n > 0
    ensures Digits(n)[0] != '0'
  {
    LastDigit(n);
    if n >= 10 {
      NoLeadingZero(n / 10);
      LastDigit(n / 10);
      assert Digits(n)[0] == Digits(n)[..|Digits(n)| - 1][0];
    }
  }

  /** A region is called by its name, or outside the list by `col` and its number in decimal. */
  lemma {:induction false} RegionNames(names: seq<string>, i: int)
    ensures 0 <= i < |names| ==> RegionName(names, i) == names[i]
    ensures i >= |names| ==> exists d :: RegionName(names, i) == "col" + d && Plainly(d, i)
    ensures i < 0 ==> exists d :: RegionName(names, i) == "col" + ("-" + d) && Plainly(d, -i)
  {
    if i >= |names| { PlainDigits(i); }
    if i < 0 {
      PlainDigits(-i);
      var d := Digits(-i);
      assert RegionName(names, i) == "col" + ("-" + d) && Plainly(d, -i);
    }
  }

  /** The text is the number in decimal, without leading zeros. */
  predicate Plainly(d: string, n: int) {
    d != "" && Decimal(d) == n && (n > 0 ==> d[0] != '0') && forall i | 0 <= i < |d| :: '0' <= d[i] <= '9'
  }

  lemma PlainDigits(n: nat)
    ensures Plainly(Digits(n), n)
  {
    DigitsDenote(n);
    OnlyDigits(n);
    if n > 0 { NoLeadingZero(n); }
    LastDigit(n);
  }

  lemma {:induction false} OnlyDigits(n: nat)
    ensures forall i | 0 <= i < |Digits(n)| :: '0' <= Digits(n)[i] <= '9'
  {
    LastDigit(n);
    if n >= 10 {
      OnlyDigits(n / 10);
      assert forall i | 0 <= i < |Digits(n)| - 1 :: Digits(n)[i] == Digits(n / 10)[i];
    }
  }

  /** Some A-vs-B excusal is about the region. */
  ghost predicate Excusable(ev: Evidence, region: string) {
    exists e :: e in ev.excusals && "A-vs-B" in e.legs && e.region == region
  }

  /** One declared range of such an excusal takes in the whole stretch `[s, e)`. */
  ghost predicate StretchAllowed(excusals: seq<Excusal>, region: string, s: int, e: int) {
    exists x, r :: x in excusals && "A-vs-B" in x.legs && x.region == region && r in x.bytes
                   && r.off <= s && e <= r.off + r.len
  }

  /** The buffers differ all over `[s, e)`, and not just before it or after. */
  ghost predicate DifferOver(x: seq<Byte>, y: seq<Byte>, s: int, e: int) {
    && |x| == |y| && 0 <= s < e <= |x|
    && (forall i | s <= i < e :: x[i] != y[i])
    && (s == 0 || x[s - 1] == y[s - 1])
    && (e == |x| || x[e] == y[e])
  }

  ghost predicate DumpAllowed(ev: Evidence, key: Key)
    requires key in ev.rxA && key in ev.rxB
  {
    && |ev.rxA[key]| == |ev.rxB[key]|
    && forall s, e | DifferOver(ev.rxA[key], ev.rxB[key], s, e) ::
         StretchAllowed(ev.excusals, RegionName(ev.names, key.rid), s, e)
  }

  ghost predicate DumpedBoth(ev: Evidence, region: string) {
    exists key :: key in ev.rxA && key in ev.rxB && RegionName(ev.names, key.rid) == region
  }

  /** PROVED, exactly: something was dumped by both arms; every such dump is of one length and each
      stretch that differs in it lies in one range declared for its region; and every column that
      differs at a common step is of a region that an excusal names and that was dumped. */
  lemma {:induction false} ProvedExactly(ev: Evidence)
    ensures ev.Proved() <==>
              && (exists key :: key in ev.rxA && key in ev.rxB)
              && (forall key | key in ev.rxA && key in ev.rxB :: DumpAllowed(ev, key))
              && (forall step, i | step in ev.a && step in ev.b && 0 <= i < |ev.a[step]| && i < |ev.b[step]|
                                   && ev.a[step][i] != ev.b[step][i] ::
                    Excusable(ev, RegionName(ev.names, i)) && DumpedBoth(ev, RegionName(ev.names, i)))
  {
    forall key | key in ev.rxA && key in ev.rxB
      ensures ev.DumpExcused(key) <==> DumpAllowed(ev, key)
    {
      DumpReadings(ev, key);
    }
    assert (exists key :: key in ev.rxA && key in ev.rxB) <==> ev.rxA.Keys * ev.rxB.Keys != {} by {
      if key :| key in ev.rxA && key in ev.rxB { assert key in ev.rxA.Keys * ev.rxB.Keys; }
    }
    forall step, i
      ensures ColumnDiffers(ev.a, ev.b, step, i) <==>
                step in ev.a && step in ev.b && 0 <= i < |ev.a[step]| && i < |ev.b[step]|
                && ev.a[step][i] != ev.b[step][i]
    {
    }
    forall i
      ensures ev.ColumnExplained(i) <==>
                Excusable(ev, RegionName(ev.names, i)) && DumpedBoth(ev, RegionName(ev.names, i))
    {
      ColumnReadings(ev, RegionName(ev.names, i));
    }
  }

  lemma ColumnReadings(ev: Evidence, region: string)
    ensures (exists e :: e in ev.excusals && Names(e, region)) <==> Excusable(ev, region)
    ensures ev.DumpedIn(region) <==> DumpedBoth(ev, region)
  {
  }

  lemma {:induction false} DumpReadings(ev: Evidence, key: Key)
    requires key in ev.rxA && key in ev.rxB
    ensures ev.DumpExcused(key) <==> DumpAllowed(ev, key)
  {
    var x, y, region := ev.rxA[key], ev.rxB[key], RegionName(ev.names, key.rid);
    if |x| == |y| {
      forall s: nat, e: nat
        ensures MaximalRun(x, y, Run(s, e)) <==> DifferOver(x, y, s, e)
      {
        MaximalReadings(x, y, s, e);
      }
      forall s: nat, e: nat | s < e
        ensures Inside(s, e - s, ExcusedRanges(ev.excusals, region)) <==> StretchAllowed(ev.excusals, region, s, e)
      {
        InsideOfExcusals(ev.excusals, region, s, e);
      }
      assert forall r: Run :: r == Run(r.start, r.end);
    }
  }

  lemma MaximalReadings(x: seq<Byte>, y: seq<Byte>, s: nat, e: nat)
    requires |x| == |y|
    ensures MaximalRun(x, y, Run(s, e)) <==> DifferOver(x, y, s, e)
  {
    forall i: int
      ensures Differs(x, y, i) <==> 0 <= i < |x| && x[i] != y[i]
    {
    }
    if MaximalRun(x, y, Run(s, e)) {
      assert Differs(x, y, s) && Differs(x, y, e - 1);
      assert forall i | s <= i < e :: Differs(x, y, i);
      assert !Differs(x, y, s - 1) && !Differs(x, y, e);
    }
    if DifferOver(x, y, s, e) { assert AllDiffer(x, y, s, e); }
  }

  lemma {:induction false} InsideOfExcusals(excusals: seq<Excusal>, region: string, s: int, e: int)
    ensures Inside(s, e - s, ExcusedRanges(excusals, region)) <==> StretchAllowed(excusals, region, s, e)
  {
    if excusals != [] {
      var first, rest := excusals[0], excusals[1..];
      InsideOfExcusals(rest, region, s, e);
      var mine := if Names(first, region) then first.bytes else [];
      InsideAppend(mine, ExcusedRanges(rest, region), s, e - s);
      assert excusals == [first] + rest;
      if k :| 0 <= k < |mine| && Within(s, e - s, mine[k]) { assert mine[k] in mine; }
      if r :| r in first.bytes && r.off <= s && e <= r.off + r.len {
        var k :| 0 <= k < |first.bytes| && first.bytes[k] == r;
        assert Within(s, e - s, first.bytes[k]);
      }
    }
  }

  lemma InsideAppend(a: seq<Range>, b: seq<Range>, off: int, len: int)
    ensures Inside(off, len, a + b) <==> Inside(off, len, a) || Inside(off, len, b)
  {
    var all := a + b;
    if k :| 0 <= k < |a| && Within(off, len, a[k]) { assert Within(off, len, all[k]); }
    if k :| 0 <= k < |b| && Within(off, len, b[k]) { assert Within(off, len, all[|a| + k]); }
    if k :| 0 <= k < |all| && Within(off, len, all[k]) {
      assert Within(off, len, if k < |a| then a[k] else b[k - |a|]);
    }
  }

  /** A differing column of a listed region: PROVED only if an excusal carries its name and a common
      dump is of that region. */
  lemma {:induction false} ProvedColumnIsNamed(ev: Evidence, step: int, i: nat)
    requires step in ev.a && step in ev.b && i < |ev.a[step]| && i < |ev.b[step]| && i < |ev.names|
    requires ev.a[step][i] != ev.b[step][i] && ev.Proved()
    ensures exists e :: e in ev.excusals && "A-vs-B" in e.legs && e.region == ev.names[i]
    ensures exists key :: key in ev.rxA && key in ev.rxB && RegionName(ev.names, key.rid) == ev.names[i]
  {
    ProvedExactly(ev);
    RegionNames(ev.names, i);
    assert Excusable(ev, ev.names[i]) && DumpedBoth(ev, ev.names[i]);
  }

  /** A differing byte of a listed region: PROVED only if an excusal of that region declares it. */
  lemma {:induction false} ProvedByteIsDeclared(ev: Evidence, key: Key, i: nat)
    requires key in ev.rxA && key in ev.rxB && 0 <= key.rid < |ev.names| && ev.Proved()
    ensures |ev.rxA[key]| == |ev.rxB[key]|
    ensures i < |ev.rxA[key]| && ev.rxA[key][i] != ev.rxB[key][i] ==>
              exists e, r :: e in ev.excusals && "A-vs-B" in e.legs && e.region == ev.names[key.rid]
                             && r in e.bytes && r.off <= i < r.off + r.len
  {
    assert ev.DumpExcused(key);
    var x, y := ev.rxA[key], ev.rxB[key];
    if i < |x| && x[i] != y[i] {
      assert Differs(x, y, i);
      var run := RunAt(x, y, i);
      InsideOfExcusals(ev.excusals, RegionName(ev.names, key.rid), run.start, run.end);
      RegionNames(ev.names, key.rid);
      assert StretchAllowed(ev.excusals, ev.names[key.rid], run.start, run.end);
    }
  }
}
