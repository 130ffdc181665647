/** The camera trace reader (tools/check_cam_trace.py): rise and fall of the edge flags, the longest
    stretch with the cursor pinned at the edge, and the longest hold of a scroll key.  Each is one
    pass over the samples; each is specified over all windows of the trace. */
module CamTrace {

  type Point = (int, int)

  datatype Sample = Sample(f: int, cur: Point, edge: string, held: string, camd: nat, gest: Point)

  type Trace = seq<Sample>

  /** The letters of a flag column such as `-R--`. */
  function SetLetters(mask: string): set<char> {
    set c | c in mask && c != '-'
  }

  /** Camera movement over `[a, b)`. */
  function Moved(s: Trace, a: nat, b: nat): nat
    requires a <= b <= |s|
  {
    if a == b then 0 else Moved(s, a, b - 1) + s[b - 1].camd
  }

  // ---- rise and fall ------------------------------------------------------------------------

  /** The letter is clear at sample `i` and set at the next. */
  predicate RisesAt(s: Trace, c: char, i: nat) {
    i + 1 < |s| && c !in SetLetters(s[i].edge) && c in SetLetters(s[i + 1].edge)
  }

  predicate FallsAt(s: Trace, c: char, i: nat) {
    i + 1 < |s| && c in SetLetters(s[i].edge) && c !in SetLetters(s[i + 1].edge)
  }

  ghost predicate Rises(s: Trace, c: char, n: nat) {
    exists i: nat :: i + 1 < n && RisesAt(s, c, i)
  }

  /** A rise, and strictly later a fall. */
  ghost predicate RisesThenFalls(s: Trace, c: char, n: nat) {
    exists i: nat, j: nat :: i < j && j + 1 < n && RisesAt(s, c, i) && FallsAt(s, c, j)
  }

  method RiseAndFall(samples: Trace) returns (risen: set<char>, fallen: set<char>)
    ensures forall c :: c in risen <==> Rises(samples, c, |samples|)
    ensures forall c :: c in fallen <==> RisesThenFalls(samples, c, |samples|)
    ensures fallen <= risen
  {
    risen, fallen := {}, {};
    var prevEdge: set<char> := {};
    for n := 0 to |samples|
      invariant n > 0 ==> prevEdge == SetLetters(samples[n - 1].edge)
      invariant forall c :: c in risen <==> Rises(samples, c, n)
      invariant forall c :: c in fallen <==> RisesThenFalls(samples, c, n)
    {
      var e := SetLetters(samples[n].edge);
      if n > 0 {
        ghost var risen0, fallen0 := risen, fallen;
        risen := risen + (e - prevEdge);
        fallen := fallen + (prevEdge - e) * risen;
        forall c
          ensures c in risen <==> Rises(samples, c, n + 1)
          ensures c in fallen <==> RisesThenFalls(samples, c, n + 1)
        {
          NextPair(samples, c, n);
          assert c in risen <==> c in risen0 || RisesAt(samples, c, n - 1);
          assert c in fallen <==> c in fallen0 || (FallsAt(samples, c, n - 1) && c in risen);
        }
      }
      prevEdge := e;
    }
    forall c | c in fallen
      ensures c in risen
    {
      var i: nat, j: nat :| i < j && j + 1 < |samples| && RisesAt(samples, c, i) && FallsAt(samples, c, j);
    }
  }

  /** What the pair ending at sample `n` adds. */
  lemma NextPair(s: Trace, c: char, n: nat)
    requires 0 < n < |s|
    ensures Rises(s, c, n + 1) <==> Rises(s, c, n) || RisesAt(s, c, n - 1)
    ensures RisesThenFalls(s, c, n + 1) <==> RisesThenFalls(s, c, n) || (Rises(s, c, n + 1) && FallsAt(s, c, n - 1))
  {
    if FallsAt(s, c, n - 1) && Rises(s, c, n + 1) {
      var i: nat :| i + 1 < n + 1 && RisesAt(s, c, i);
      assert i < n - 1;
    }
    if RisesThenFalls(s, c, n + 1) {
      var i: nat, j: nat :| i < j && j + 1 < n + 1 && RisesAt(s, c, i) && FallsAt(s, c, j);
      assert j == n - 1 ==> Rises(s, c, n + 1);
    }
  }

  // ---- windows ------------------------------------------------------------------------------

  /** A contiguous window `[a, b)` of the trace. */
  datatype Window = Window(a: nat, b: nat)

  /** The lexicographic order of (length, camera movement). */
  predicate Beats(n: nat, cam: nat, m: nat, com: nat) {
    n > m || (n == m && cam > com)
  }

  // ---- the pinned run -----------------------------------------------------------------------

  /** All samples of the window are at one cursor position with an edge flag set. */
  predicate Pinned(s: Trace, w: Window) {
    && w.a < w.b <= |s|
    && (forall i | w.a <= i < w.b :: SetLetters(s[i].edge) != {} && s[i].cur == s[w.a].cur)
  }

  /** The movement of a pinned run: what the camera did after its first sample. */
  function PinnedCam(s: Trace, w: Window): nat
    requires Pinned(s, w)
  {
    Moved(s, w.a + 1, w.b)
  }

  /** What the run dictionary of the source holds for a window. */
  datatype PinnedRun = PinnedRun(n: nat, cam: nat, cur: Point, from: int, to: int, edge: string, gest: set<Point>)

  function Describe(s: Trace, w: Window): PinnedRun
    requires Pinned(s, w)
  {
    PinnedRun(w.b - w.a, PinnedCam(s, w), s[w.a].cur, s[w.a].f, s[w.b - 1].f, s[w.b - 1].edge,
              set i | w.a <= i < w.b :: s[i].gest)
  }

  datatype Best = NoRun | BestRun(run: PinnedRun)

  /** The window is at least as good as every pinned window that ends by `n`, and strictly better
      than those that end before it. */
  ghost predicate BestPinned(s: Trace, w: Window, n: nat) {
    && Pinned(s, w) && w.b <= n
    && forall v | Pinned(s, v) && v.b <= n :: NotBeaten(s, w, v)
  }

  ghost predicate NotBeaten(s: Trace, w: Window, v: Window)
    requires Pinned(s, w) && Pinned(s, v)
  {
    && !Beats(v.b - v.a, PinnedCam(s, v), w.b - w.a, PinnedCam(s, w))
    && (v.b < w.b ==> Beats(w.b - w.a, PinnedCam(s, w), v.b - v.a, PinnedCam(s, v)))
  }

  /** The longest pinned window that ends at `w.b`. */
  ghost predicate LongestPinned(s: Trace, w: Window) {
    Pinned(s, w) && (w.a > 0 ==> !Pinned(s, Window(w.a - 1, w.b)))
  }

  /** Every pinned window that ends where the longest one does is part of it. */
  lemma {:induction false} PartOfLongest(s: Trace, w: Window, v: Window)
    requires LongestPinned(s, w) && Pinned(s, v) && v.b == w.b
    ensures w.a <= v.a
  {
  }

  /** The running window: none, or the longest pinned one that ends at `n`. */
  ghost predicate Running(s: Trace, n: nat, run: Best, here: Window) {
    match run
    case NoRun => forall w | Pinned(s, w) :: w.b != n
    case BestRun(r) => here.b == n && LongestPinned(s, here) && r == Describe(s, here)
  }

  ghost predicate BestSoFar(s: Trace, n: nat, best: Best, at: Window) {
    match best
    case NoRun => forall w | Pinned(s, w) :: w.b > n
    case BestRun(r) => BestPinned(s, at, n) && r == Describe(s, at)
  }

  /** One sample: the run goes on, a new one starts, or there is none. */
  method NextRun(samples: Trace, n: nat, run0: Best, ghost was: Window) returns (run: Best, ghost here: Window)
    requires n < |samples| && Running(samples, n, run0, was)
    ensures Running(samples, n + 1, run, here)
  {
    var s := samples[n];
    var pinned := SetLetters(s.edge) != {};
    here := was;
    if run0.BestRun? && pinned && s.cur == run0.run.cur {
      here := Window(was.a, n + 1);
      ExtendPinned(samples, was);
      run := BestRun(run0.run.(n := run0.run.n + 1, cam := run0.run.cam + s.camd, to := s.f,
                               edge := s.edge, gest := run0.run.gest + {s.gest}));
    } else if pinned {
      here := Window(n, n + 1);
      StartPinned(samples, n, run0.BestRun?, was);
      run := BestRun(PinnedRun(1, 0, s.cur, s.f, s.f, s.edge, {s.gest}));
    } else {
      run := NoRun;
    }
  }

  method PinnedBest(samples: Trace) returns (best: Best, ghost at: Window)
    ensures best == NoRun <==> forall w :: !Pinned(samples, w)
    ensures best.BestRun? ==> BestPinned(samples, at, |samples|) && best.run == Describe(samples, at)
  {
    best, at := NoRun, Window(0, 0);
    var run := NoRun;
    ghost var here := Window(0, 0);
    for n := 0 to |samples|
      invariant Running(samples, n, run, here)
      invariant BestSoFar(samples, n, best, at)
    {
      run, here := NextRun(samples, n, run, here);
      if run.BestRun? {
        NewBest(samples, n, best, at, here);
        if best == NoRun || Beats(run.run.n, run.run.cam, best.run.n, best.run.cam) {
          best, at := run, here;
        }
      }
    }
  }

  lemma ExtendPinned(s: Trace, w: Window)
    requires LongestPinned(s, w) && w.b < |s| && SetLetters(s[w.b].edge) != {} && s[w.b].cur == s[w.a].cur
    ensures LongestPinned(s, Window(w.a, w.b + 1))
    ensures Describe(s, Window(w.a, w.b + 1)).gest == Describe(s, w).gest + {s[w.b].gest}
    ensures PinnedCam(s, Window(w.a, w.b + 1)) == PinnedCam(s, w) + s[w.b].camd
  {
    if w.a > 0 && Pinned(s, Window(w.a - 1, w.b + 1)) {
      assert Pinned(s, Window(w.a - 1, w.b));
    }
    var now, was := Describe(s, Window(w.a, w.b + 1)).gest, Describe(s, w).gest;
    forall g
      ensures g in now <==> g in was || g == s[w.b].gest
    {
      if g == s[w.b].gest { assert s[w.b].gest in now; }
    }
  }

  lemma StartPinned(s: Trace, n: nat, running: bool, w: Window)
    requires n < |s| && SetLetters(s[n].edge) != {}
    requires running ==> w.b == n && Pinned(s, w) && s[n].cur != s[w.a].cur
    requires !running ==> forall v | Pinned(s, v) :: v.b != n
    ensures LongestPinned(s, Window(n, n + 1))
    ensures PinnedCam(s, Window(n, n + 1)) == 0 && Describe(s, Window(n, n + 1)).gest == {s[n].gest}
  {
    if n > 0 && Pinned(s, Window(n - 1, n + 1)) {
      assert Pinned(s, Window(n - 1, n));
    }
  }

  /** The run that ends at sample `n` is the only newcomer the best window has to be compared with. */
  lemma {:induction false} NewBest(s: Trace, n: nat, best: Best, at: Window, here: Window)
    requires n < |s| && LongestPinned(s, here) && here.b == n + 1
    requires best == NoRun ==> forall w | Pinned(s, w) :: w.b > n
    requires best.BestRun? ==> BestPinned(s, at, n) && best.run == Describe(s, at)
    ensures best == NoRun || Beats(here.b - here.a, PinnedCam(s, here), best.run.n, best.run.cam) ==>
              BestPinned(s, here, n + 1)
    ensures best.BestRun? && !Beats(here.b - here.a, PinnedCam(s, here), best.run.n, best.run.cam) ==>
              BestPinned(s, at, n + 1)
  {
    if best == NoRun || Beats(here.b - here.a, PinnedCam(s, here), best.run.n, best.run.cam) {
      forall v | Pinned(s, v) && v.b <= n + 1
        ensures NotBeaten(s, here, v)
      {
        if v.b == n + 1 { PartOfLongest(s, here, v); } else { assert NotBeaten(s, at, v); }
      }
    } else {
      forall v | Pinned(s, v) && v.b <= n + 1
        ensures NotBeaten(s, at, v)
      {
        if v.b == n + 1 { PartOfLongest(s, here, v); }
      }
    }
  }

  // ---- a held key ---------------------------------------------------------------------------

  predicate Holding(s: Trace, letter: char, w: Window) {
    w.a < w.b <= |s| && forall i | w.a <= i < w.b :: letter in SetLetters(s[i].held)
  }

  datatype HeldRun = HeldRun(n: nat, from: int, to: int, cam: nat)

  function DescribeHeld(s: Trace, w: Window): HeldRun
    requires w.a < w.b <= |s|
  {
    HeldRun(w.b - w.a, s[w.a].f, s[w.b - 1].f, Moved(s, w.a, w.b))
  }

  /** A longest window that holds the letter, and the first of that length. */
  ghost predicate FirstLongest(s: Trace, letter: char, w: Window, n: nat) {
    && Holding(s, letter, w) && w.b <= n
    && forall v | Holding(s, letter, v) && v.b <= n ::
         v.b - v.a <= w.b - w.a && (v.b - v.a == w.b - w.a ==> w.b <= v.b)
  }

  ghost predicate LongestHere(s: Trace, letter: char, w: Window) {
    Holding(s, letter, w) && (w.a > 0 ==> letter !in SetLetters(s[w.a - 1].held))
  }

  ghost predicate HoldRunning(s: Trace, letter: char, i: nat, run: HeldRun, here: Window) {
    if run.n == 0 then forall w | Holding(s, letter, w) :: w.b != i
    else here.b == i && LongestHere(s, letter, here) && run == DescribeHeld(s, here)
  }

  ghost predicate LongestSoFar(s: Trace, letter: char, i: nat, best: HeldRun, endI: int, at: Window) {
    if best.n == 0 then best == HeldRun(0, 0, 0, 0) && endI == -1 && forall w | Holding(s, letter, w) :: w.b > i
    else FirstLongest(s, letter, at, i) && best == DescribeHeld(s, at) && endI == at.b - 1
  }

  /** One sample: the hold goes on, starts, or there is none. */
  method NextHold(samples: Trace, letter: char, i: nat, run0: HeldRun, ghost was: Window)
    returns (run: HeldRun, ghost here: Window)
    requires i < |samples| && HoldRunning(samples, letter, i, run0, was)
    ensures HoldRunning(samples, letter, i + 1, run, here)
  {
    var s := samples[i];
    var isSet := letter in SetLetters(s.held);
    here := was;
    if run0.n > 0 && isSet {
      here := Window(was.a, i + 1);
      run := run0.(n := run0.n + 1, to := s.f, cam := run0.cam + s.camd);
    } else if isSet {
      assert i > 0 ==> !Holding(samples, letter, Window(i - 1, i));
      here := Window(i, i + 1);
      assert Moved(samples, i, i + 1) == Moved(samples, i, i) + s.camd;
      run := HeldRun(1, s.f, s.f, s.camd);
    } else {
      run := HeldRun(0, 0, 0, 0);
    }
  }

  method HeldBest(samples: Trace, letter: char) returns (best: HeldRun, cleared: bool, ghost at: Window)
    ensures best.n == 0 <==> forall w :: !Holding(samples, letter, w)
    ensures best.n == 0 ==> best == HeldRun(0, 0, 0, 0) && !cleared
    ensures best.n > 0 ==> FirstLongest(samples, letter, at, |samples|) && best == DescribeHeld(samples, at)
    // the release was seen exactly if the hold does not reach the end of the trace
    ensures best.n > 0 ==> (cleared <==> at.b < |samples|)
  {
    best, at := HeldRun(0, 0, 0, 0), Window(0, 0);
    var run := best;
    var endI := -1;
    ghost var here := Window(0, 0);
    for i := 0 to |samples|
      invariant HoldRunning(samples, letter, i, run, here)
      invariant LongestSoFar(samples, letter, i, best, endI, at)
    {
      run, here := NextHold(samples, letter, i, run, here);
      if run.n > 0 { NewLongest(samples, letter, i, best.n, at, here); }
      if run.n > best.n {
        best, endI, at := run, i, here;
      }
    }
    cleared := endI != -1 && exists i :: endI + 1 <= i < |samples| && letter !in SetLetters(samples[i].held);
    if best.n > 0 && at.b < |samples| {
      assert letter !in SetLetters(samples[at.b].held) by {
        assert !Holding(samples, letter, Window(at.a, at.b + 1));
      }
    }
  }

  lemma NewLongest(s: Trace, letter: char, i: nat, n: nat, at: Window, here: Window)
    requires i < |s| && LongestHere(s, letter, here) && here.b == i + 1
    requires n == 0 ==> forall w | Holding(s, letter, w) :: w.b > i
    requires n > 0 ==> FirstLongest(s, letter, at, i) && n == at.b - at.a
    ensures here.b - here.a > n ==> FirstLongest(s, letter, here, i + 1)
    ensures n > 0 && here.b - here.a <= n ==> FirstLongest(s, letter, at, i + 1)
  {
    forall v | Holding(s, letter, v) && v.b == i + 1
      ensures v.b - v.a <= here.b - here.a
    {
    }
  }

  // ---- the columns, character by character --------------------------------------------------

  /** A letter is set in a column such as `-R--` if it is there and is not the dash. */
  lemma LetterSet(mask: string, c: char)
    ensures c in SetLetters(mask) <==> c != '-' && c in mask
  {
  }

  /** What rises and falls, in the edge column itself. */
  lemma {:induction false} RiseAndFallByColumn(s: Trace, c: char, i: nat)
    ensures RisesAt(s, c, i) <==> i + 1 < |s| && c != '-' && c !in s[i].edge && c in s[i + 1].edge
    ensures FallsAt(s, c, i) <==> i + 1 < |s| && c != '-' && c in s[i].edge && c !in s[i + 1].edge
  {
  }

  /** A pinned window: every sample has a letter in its edge column and the cursor where the first has
      it.  The run keeps the length, the place, the first and the last frame, the last column and all
      gestures, and the movement after the first sample. */
  lemma {:induction false} PinnedByColumn(s: Trace, w: Window)
    ensures Pinned(s, w) <==>
              && w.a < w.b <= |s|
              && forall i | w.a <= i < w.b :: (exists c :: c in s[i].edge && c != '-') && s[i].cur == s[w.a].cur
    ensures Pinned(s, w) ==>
              var d := Describe(s, w);
              && d.n == w.b - w.a && d.cur == s[w.a].cur && d.from == s[w.a].f && d.to == s[w.b - 1].f
              && d.edge == s[w.b - 1].edge
              && (forall g :: g in d.gest <==> exists i :: w.a <= i < w.b && s[i].gest == g)
              && d.cam == Moved(s, w.a + 1, w.b)
  {
    forall i | 0 <= i < |s|
      ensures SetLetters(s[i].edge) != {} <==> exists c :: c in s[i].edge && c != '-'
    {
      SomeLetter(s[i].edge);
    }
  }

  lemma SomeLetter(mask: string)
    ensures SetLetters(mask) != {} <==> exists c :: c in mask && c != '-'
  {
    if c :| c in mask && c != '-' { assert c in SetLetters(mask); }
    if SetLetters(mask) != {} {
      var c :| c in SetLetters(mask);
    }
  }

  /** A held window, and its record: length, first and last frame, and all its movement. */
  lemma {:induction false} HeldByColumn(s: Trace, letter: char, w: Window)
    ensures Holding(s, letter, w) <==>
              w.a < w.b <= |s| && letter != '-' && forall i | w.a <= i < w.b :: letter in s[i].held
    ensures w.a < w.b <= |s| ==>
              var d := DescribeHeld(s, w);
              d.n == w.b - w.a && d.from == s[w.a].f && d.to == s[w.b - 1].f && d.cam == Moved(s, w.a, w.b)
  {
    if Holding(s, letter, w) { assert letter in SetLetters(s[w.a].held); }
  }

  /** Movement adds up over neighbouring stretches, and over one sample it is that sample's. */
  lemma {:induction false} MovementAddsUp(s: Trace, a: nat, b: nat, c: nat)
    requires a <= b <= c <= |s|
    ensures Moved(s, a, c) == Moved(s, a, b) + Moved(s, b, c)
    ensures a < |s| ==> Moved(s, a, a + 1) == s[a].camd
    decreases c
  {
    if a < |s| { assert Moved(s, a, a + 1) == Moved(s, a, a) + s[a].camd; }
    if b < c { MovementAddsUp(s, a, b, c - 1); }
  }

  /** The best pinned window, by its numbers: no pinned window that ends by `n` is longer, or as long
      with more movement; and those that end earlier are shorter, or as long with less movement. */
  lemma {:induction false} BestByNumbers(s: Trace, w: Window, n: nat)
    ensures BestPinned(s, w, n) <==>
              && Pinned(s, w) && w.b <= n
              && (forall v | Pinned(s, v) && v.b <= n ::
                    v.b - v.a < w.b - w.a
                    || (v.b - v.a == w.b - w.a && Moved(s, v.a + 1, v.b) <= Moved(s, w.a + 1, w.b)))
              && (forall v | Pinned(s, v) && v.b < w.b ::
                    v.b - v.a < w.b - w.a
                    || (v.b - v.a == w.b - w.a && Moved(s, v.a + 1, v.b) < Moved(s, w.a + 1, w.b)))
  {
    if Pinned(s, w) {
      forall v | Pinned(s, v)
        ensures NotBeaten(s, w, v) <==>
                  && (v.b - v.a < w.b - w.a
                      || (v.b - v.a == w.b - w.a && Moved(s, v.a + 1, v.b) <= Moved(s, w.a + 1, w.b)))
                  && (v.b < w.b ==>
                        (v.b - v.a < w.b - w.a
                         || (v.b - v.a == w.b - w.a && Moved(s, v.a + 1, v.b) < Moved(s, w.a + 1, w.b))))
      {
      }
    }
  }
}
