/** Where two byte buffers differ, as maximal runs: the meaning that both run-length diffs of the
    tools (tools/abc_region_diff.py and tools/check_d36_rematch_seed.py) compute. */
module ByteRuns {

  type Byte = b: int | 0 <= b < 256

  /** The half-open stretch `[start, end)`. */
  datatype Run = Run(start: nat, end: nat)

  function Shared(x: seq<Byte>, y: seq<Byte>): nat {
    if |x| <= |y| then |x| else |y|
  }

  predicate Differs(x: seq<Byte>, y: seq<Byte>, i: int) {
    0 <= i < Shared(x, y) && x[i] != y[i]
  }

  ghost predicate AllDiffer(x: seq<Byte>, y: seq<Byte>, s: int, e: int) {
    forall i | s <= i < e :: Differs(x, y, i)
  }

  /** Every index of the run differs and neither neighbour does. */
  ghost predicate MaximalRun(x: seq<Byte>, y: seq<Byte>, r: Run) {
    r.start < r.end && AllDiffer(x, y, r.start, r.end)
    && !Differs(x, y, r.start - 1) && !Differs(x, y, r.end)
  }

  ghost predicate Covered(runs: seq<Run>, i: int) {
    exists r :: r in runs && r.start <= i < r.end
  }

  /** The answer of a byte diff: exactly the maximal runs, in order, no two adjacent. */
  ghost predicate RunsOf(x: seq<Byte>, y: seq<Byte>, runs: seq<Run>) {
    && (forall k, l | 0 <= k < l < |runs| :: runs[k].end < runs[l].start)
    && (forall r :: r in runs <==> MaximalRun(x, y, r))
  }

  // ---- the maximal run of an index ----------------------------------------------------------

  function RunStart(x: seq<Byte>, y: seq<Byte>, i: nat): (s: nat)
    requires Differs(x, y, i)
    ensures s <= i && AllDiffer(x, y, s, i + 1) && !Differs(x, y, s - 1)
  {
    if Differs(x, y, i - 1) then RunStart(x, y, i - 1) else i
  }

  function RunEnd(x: seq<Byte>, y: seq<Byte>, i: nat): (e: nat)
    requires Differs(x, y, i)
    ensures i < e <= Shared(x, y) && AllDiffer(x, y, i, e) && !Differs(x, y, e)
    decreases Shared(x, y) - i
  {
    if Differs(x, y, i + 1) then RunEnd(x, y, i + 1) else i + 1
  }

  function RunAt(x: seq<Byte>, y: seq<Byte>, i: nat): (r: Run)
    requires Differs(x, y, i)
    ensures MaximalRun(x, y, r) && r.start <= i < r.end <= Shared(x, y)
  {
    Run(RunStart(x, y, i), RunEnd(x, y, i))
  }

  /** An index has one maximal run. */
  lemma OneRunPerIndex(x: seq<Byte>, y: seq<Byte>, a: Run, b: Run, i: nat)
    requires MaximalRun(x, y, a) && MaximalRun(x, y, b)
    requires a.start <= i < a.end && b.start <= i < b.end
    ensures a == b
  {
    assert a.start < b.start ==> Differs(x, y, b.start - 1);
    assert b.start < a.start ==> Differs(x, y, a.start - 1);
    assert a.end < b.end ==> Differs(x, y, a.end);
    assert b.end < a.end ==> Differs(x, y, b.end);
  }

  /** The runs cover exactly the differing indices, each in one run. */
  lemma RunsCoverExactly(x: seq<Byte>, y: seq<Byte>, runs: seq<Run>)
    requires RunsOf(x, y, runs)
    ensures forall i :: Covered(runs, i) <==> Differs(x, y, i)
    ensures forall r, q | r in runs && q in runs && r.start < q.end && q.start < r.end :: r == q
  {
    forall r, q | r in runs && q in runs && r.start < q.end && q.start < r.end
      ensures r == q
    {
      OneRunPerIndex(x, y, r, q, if r.start < q.start then q.start else r.start);
    }
    forall i
      ensures Covered(runs, i) <==> Differs(x, y, i)
    {
      if Differs(x, y, i) {
        var r := RunAt(x, y, i);
        assert r in runs && r.start <= i < r.end;
      }
    }
  }

  /** A byte diff has one answer. */
  lemma {:induction false} RunsUnique(x: seq<Byte>, y: seq<Byte>, a: seq<Run>, b: seq<Run>)
    requires RunsOf(x, y, a) && RunsOf(x, y, b)
    ensures a == b
  {
    SortedSameRuns(a, b);
  }

  lemma {:induction false} SortedSameRuns(a: seq<Run>, b: seq<Run>)
    requires forall r | r in a :: r.start < r.end
    requires forall k, l | 0 <= k < l < |a| :: a[k].end < a[l].start
    requires forall k, l | 0 <= k < l < |b| :: b[k].end < b[l].start
    requires forall r :: r in a <==> r in b
    ensures a == b
  {
    assert |b| > 0 ==> b[0] in b;
    if a != [] {
      assert a[0] in b && b != [] && b[0] in a;
      assert a == [a[0]] + a[1..] && b == [b[0]] + b[1..];
      assert a[0] == b[0];
      forall r
        ensures r in a[1..] <==> r in b[1..]
      {
        if r in a[1..] { assert r in a && r != a[0]; }
        if r in b[1..] { assert r in b && r != b[0]; }
      }
      SortedSameRuns(a[1..], b[1..]);
    }
  }

  /** What a scan from the left knows: the runs that end by `upTo`, in order and apart. */
  ghost predicate EndedBy(x: seq<Byte>, y: seq<Byte>, upTo: int, runs: seq<Run>) {
    && (forall k, l | 0 <= k < l < |runs| :: runs[k].end < runs[l].start)
    && (forall r :: r in runs <==> MaximalRun(x, y, r) && r.end <= upTo)
  }

  /** Closing a run at the scan position. */
  lemma CloseRun(x: seq<Byte>, y: seq<Byte>, runs: seq<Run>, s: nat, e: nat)
    requires MaximalRun(x, y, Run(s, e)) && EndedBy(x, y, s, runs)
    ensures EndedBy(x, y, e, runs + [Run(s, e)])
  {
    var more := runs + [Run(s, e)];
    assert more[|runs|] == Run(s, e) && Differs(x, y, s);
    assert forall r :: r in more <==> r in runs || r == Run(s, e);
    forall r | MaximalRun(x, y, r) && s < r.end <= e
      ensures r == Run(s, e)
    {
      assert Differs(x, y, r.end - 1);
      OneRunPerIndex(x, y, r, Run(s, e), r.end - 1);
    }
    forall k | 0 <= k < |runs|
      ensures runs[k].end < s
    {
      assert runs[k] in runs && !Differs(x, y, runs[k].end);
    }
  }

  /** Passing an index that ends no run. */
  lemma PassIndex(x: seq<Byte>, y: seq<Byte>, runs: seq<Run>, from: nat, to: nat)
    requires from <= to && EndedBy(x, y, from, runs)
    requires forall e | from < e <= to :: !Differs(x, y, e - 1) || Differs(x, y, e)
    ensures EndedBy(x, y, to, runs)
  {
    forall r | MaximalRun(x, y, r) && r.end <= to
      ensures r in runs
    {
      assert Differs(x, y, r.end - 1) && !Differs(x, y, r.end);
    }
  }
}
