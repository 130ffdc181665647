/** The arm-order gate (tools/check_arm_order.py): a greedy matcher of a log against a template of
    steps, the structural check that makes it complete, and the re-record path.

    A template explains a log when some order-preserving assignment gives every log line a step
    that spells it and leaves only optional steps out.  The matcher never backtracks, so it is
    sound for every template but complete only for unambiguous ones. */
module ArmOrder {
  import opened Sequences

  /** A template entry: its primary text, its other spellings, and its annotations. */
  datatype Step = Step(t: string, alt: seq<string>, optional: bool, why: string)

  function EntryTexts(step: Step): seq<string> {
    [step.t] + step.alt
  }

  /** The texts of a step are its primary text and its other spellings. */
  lemma {:induction false} TextsOfStep(step: Step, x: string)
    ensures x in EntryTexts(step) <==> x == step.t || x in step.alt
    ensures NoRepeats(EntryTexts(step)) <==> step.t !in step.alt && NoRepeats(step.alt)
  {
    NoRepeatsAppend([step.t], step.alt);
  }

  type Template = seq<Step>
  type Log = seq<string>

  /** The three shapes of red: the steps disagree at (template step, log line), the log ended
      before a mandatory step, or lines are left over from `first` on. */
  datatype Failure =
    | Diverges(ti: nat, oi: nat)
    | Missing(ti: nat)
    | Unexpected(first: nat)

  // ---- what it means for a template to explain a log -----------------------------------------

  /** Line `k` of the log is spelled by the step it is given. */
  predicate Spelled(f: seq<nat>, template: Template, log: Log, k: nat) {
    k < |f| == |log| && f[k] < |template| && log[k] in EntryTexts(template[f[k]])
  }

  ghost predicate Assigns(f: seq<nat>, template: Template, log: Log) {
    && |f| == |log|
    && (forall k | 0 <= k < |f| ::
          f[k] < |template| && (log[k] == template[f[k]].t || log[k] in template[f[k]].alt))
    && (forall k, l | 0 <= k < l < |f| :: f[k] < f[l])
    && (forall i | 0 <= i < |template| && !template[i].optional :: i in f)
  }

  ghost predicate Explains(template: Template, log: Log) {
    exists f :: Assigns(f, template, log)
  }

  /** The same, step by step: the first step takes the first line, or is skipped if it may be. */
  predicate CanMatch(template: Template, log: Log) {
    if template == [] then log == []
    else
      || (log != [] && log[0] in EntryTexts(template[0]) && CanMatch(template[1..], log[1..]))
      || (template[0].optional && CanMatch(template[1..], log))
  }

  function Shifted(f: seq<nat>): (g: seq<nat>)
    ensures |g| == |f| && forall k | 0 <= k < |f| :: g[k] == f[k] + 1
  {
    seq(|f|, k requires 0 <= k < |f| => f[k] + 1)
  }

  lemma PrependUsed(g: seq<nat>, template: Template, log: Log)
    requires template != [] && log != [] && log[0] in EntryTexts(template[0])
    requires Assigns(g, template[1..], log[1..])
    ensures Assigns([0] + Shifted(g), template, log)
  {
    var f := [0] + Shifted(g);
    forall k | 0 <= k < |f|
      ensures f[k] < |template| && log[k] in EntryTexts(template[f[k]])
    {
      if k > 0 {
        SpelledOneOn(g, template, log, k - 1);
        assert Spelled(f, template, log, k);
      }
    }
    StillIncreasing(g);
    forall i | 0 <= i < |template| && !template[i].optional
      ensures i in f
    {
      if i > 0 { UsedOneOn(g, template, log, i - 1); }
    }
  }

  lemma StillIncreasing(g: seq<nat>)
    requires forall k, l | 0 <= k < l < |g| :: g[k] < g[l]
    ensures var f := [0] + Shifted(g); forall k, l | 0 <= k < l < |f| :: f[k] < f[l]
  {
  }

  lemma SpelledOneOn(g: seq<nat>, template: Template, log: Log, l: nat)
    requires template != [] && log != [] && Assigns(g, template[1..], log[1..]) && l < |g|
    ensures Spelled([0] + Shifted(g), template, log, l + 1)
  {
    assert log[1..][l] in EntryTexts(template[1..][g[l]]);
    assert log[1..][l] == log[l + 1] && template[1..][g[l]] == template[g[l] + 1];
  }

  lemma UsedOneOn(g: seq<nat>, template: Template, log: Log, j: nat)
    requires template != [] && log != [] && Assigns(g, template[1..], log[1..])
    requires j + 1 < |template| && !template[j + 1].optional
    ensures j + 1 in [0] + Shifted(g)
  {
    assert template[1..][j] == template[j + 1] && j in g;
    var k :| 0 <= k < |g| && g[k] == j;
    assert ([0] + Shifted(g))[k + 1] == j + 1;
  }

  lemma PrependSkipped(g: seq<nat>, template: Template, log: Log)
    requires template != [] && template[0].optional && Assigns(g, template[1..], log)
    ensures Assigns(Shifted(g), template, log)
  {
    var f := Shifted(g);
    forall k | 0 <= k < |f|
      ensures f[k] < |template| && log[k] in EntryTexts(template[f[k]])
    {
      assert log[k] in EntryTexts(template[1..][g[k]]);
    }
    forall i | 0 <= i < |template| && !template[i].optional
      ensures i in f
    {
      assert !template[1..][i - 1].optional;
      var k :| 0 <= k < |g| && g[k] == i - 1;
      assert f[k] == i;
    }
  }

  lemma {:induction false} CanMatchExplains(template: Template, log: Log) returns (f: seq<nat>)
    requires CanMatch(template, log)
    ensures Assigns(f, template, log)
    decreases |template|
  {
    if template == [] {
      f := [];
    } else if log != [] && log[0] in EntryTexts(template[0]) && CanMatch(template[1..], log[1..]) {
      var g := CanMatchExplains(template[1..], log[1..]);
      PrependUsed(g, template, log);
      f := [0] + Shifted(g);
    } else {
      var g := CanMatchExplains(template[1..], log);
      PrependSkipped(g, template, log);
      f := Shifted(g);
    }
  }

  /** The assignment without the template's first step (and, if it was used, its line). */
  function Unshifted(f: seq<nat>, from: nat): (g: seq<nat>)
    requires from <= |f| && forall k | from <= k < |f| :: f[k] > 0
    ensures |g| == |f| - from && forall k | 0 <= k < |g| :: g[k] == f[k + from] - 1
  {
    seq(|f| - from, k requires 0 <= k < |f| - from => f[k + from] - 1)
  }

  lemma DropFirst(f: seq<nat>, from: nat, template: Template, log: Log)
    requires template != [] && Assigns(f, template, log)
    requires from <= |f| && (forall k | from <= k < |f| :: f[k] > 0) && (forall k | 0 <= k < from :: f[k] == 0)
    ensures Assigns(Unshifted(f, from), template[1..], log[from..])
  {
    var g := Unshifted(f, from);
    forall k | 0 <= k < |g|
      ensures g[k] < |template[1..]| && log[from..][k] in EntryTexts(template[1..][g[k]])
    {
      SpelledOneBack(f, from, template, log, k);
    }
    forall i | 0 <= i < |template[1..]| && !template[1..][i].optional
      ensures i in g
    {
      UsedOneBack(f, from, template, log, i);
    }
  }

  lemma SpelledOneBack(f: seq<nat>, from: nat, template: Template, log: Log, k: nat)
    requires template != [] && Assigns(f, template, log)
    requires from <= |f| && (forall k | from <= k < |f| :: f[k] > 0) && from + k < |f|
    ensures Spelled(Unshifted(f, from), template[1..], log[from..], k)
  {
    var l := k + from;
    assert log[l] in EntryTexts(template[f[l]]) && log[from..][k] == log[l];
    assert template[1..][f[l] - 1] == template[f[l]];
  }

  lemma UsedOneBack(f: seq<nat>, from: nat, template: Template, log: Log, i: nat)
    requires template != [] && Assigns(f, template, log)
    requires from <= |f| && (forall k | from <= k < |f| :: f[k] > 0) && (forall k | 0 <= k < from :: f[k] == 0)
    requires i < |template[1..]| && !template[1..][i].optional
    ensures i in Unshifted(f, from)
  {
    var j := i + 1;
    assert template[j] == template[1..][i] && j in f;
    var k :| 0 <= k < |f| && f[k] == j;
    assert Unshifted(f, from)[k - from] == i;
  }

  lemma {:induction false} ExplainsCanMatch(f: seq<nat>, template: Template, log: Log)
    requires Assigns(f, template, log)
    ensures CanMatch(template, log)
    decreases |template|
  {
    if template != [] {
      if f != [] && f[0] == 0 {
        DropFirst(f, 1, template, log);
        ExplainsCanMatch(Unshifted(f, 1), template[1..], log[1..]);
      } else {
        DropFirst(f, 0, template, log);
        assert log[0..] == log && 0 !in f;
        ExplainsCanMatch(Unshifted(f, 0), template[1..], log);
      }
    }
  }

  /** The two readings of "explains" agree. */
  lemma ExplainsIffCanMatch(template: Template, log: Log)
    ensures Explains(template, log) <==> CanMatch(template, log)
  {
    if CanMatch(template, log) { var f := CanMatchExplains(template, log); }
    if Explains(template, log) {
      var f :| Assigns(f, template, log);
      ExplainsCanMatch(f, template, log);
    }
  }

  // ---- the matcher --------------------------------------------------------------------------

  /** The greedy match from template step `ti` and log line `oi` on. */
  function Greedy(template: Template, log: Log, ti: nat, oi: nat): (fails: seq<Failure>)
    requires ti <= |template| && oi <= |log|
    decreases |template| - ti
  {
    if ti == |template| then (if oi < |log| then [Unexpected(oi)] else [])
    else if oi == |log| then
      (if template[ti].optional then Greedy(template, log, ti + 1, oi) else [Missing(ti)])
    else if log[oi] in EntryTexts(template[ti]) then Greedy(template, log, ti + 1, oi + 1)
    else if template[ti].optional then Greedy(template, log, ti + 1, oi)
    else [Diverges(ti, oi)]
  }

  method MatchChannel(template: Template, log: Log) returns (fails: seq<Failure>)
    ensures fails == Greedy(template, log, 0, 0)
  {
    fails := [];
    var ti, oi := 0, 0;
    while ti < |template| && oi < |log|
      invariant ti <= |template| && oi <= |log|
      invariant Greedy(template, log, ti, oi) == Greedy(template, log, 0, 0)
      decreases |template| - ti
    {
      var step := template[ti];
      if log[oi] in EntryTexts(step) {
        ti, oi := ti + 1, oi + 1;
        continue;
      }
      if step.optional {
        ti := ti + 1;
        continue;
      }
      fails := fails + [Diverges(ti, oi)];
      return;
    }
    while ti < |template|
      invariant ti <= |template| && oi <= |log| && (ti < |template| ==> oi == |log|)
      invariant Greedy(template, log, ti, oi) == Greedy(template, log, 0, 0)
    {
      if !template[ti].optional {
        fails := fails + [Missing(ti)];
        return;
      }
      ti := ti + 1;
    }
    if oi < |log| {
      fails := fails + [Unexpected(oi)];
    }
  }

  predicate Accepts(template: Template, log: Log) {
    Greedy(template, log, 0, 0) == []
  }

  /** The greedy match looks only at what is left of both. */
  lemma {:induction false} GreedySuffix(template: Template, log: Log, ti: nat, oi: nat)
    requires ti <= |template| && oi <= |log|
    ensures (Greedy(template, log, ti, oi) == []) == Accepts(template[ti..], log[oi..])
    decreases |template| - ti
  {
    GreedyShift(template, log, ti, oi, 0, 0);
  }

  lemma {:induction false} GreedyShift(template: Template, log: Log, a: nat, b: nat, ti: nat, oi: nat)
    requires a + ti <= |template| && b + oi <= |log|
    ensures (Greedy(template, log, a + ti, b + oi) == []) == (Greedy(template[a..], log[b..], ti, oi) == [])
    decreases |template| - ti
  {
    if a + ti < |template| {
      assert template[a..][ti] == template[a + ti];
      GreedyShift(template, log, a, b, ti + 1, oi);
      if b + oi < |log| {
        assert log[b..][oi] == log[b + oi];
        GreedyShift(template, log, a, b, ti + 1, oi + 1);
      }
    }
  }

  lemma AcceptsStep(template: Template, log: Log)
    requires template != []
    ensures Accepts(template, log) ==
            if log != [] && log[0] in EntryTexts(template[0]) then Accepts(template[1..], log[1..])
            else template[0].optional && Accepts(template[1..], log)
  {
    if log != [] && log[0] in EntryTexts(template[0]) {
      GreedySuffix(template, log, 1, 1);
    } else if template[0].optional {
      GreedySuffix(template, log, 1, 0);
      assert log[0..] == log;
    }
  }

  // ---- sound always, complete exactly on unambiguous templates ------------------------------

  /** A green match is an explanation, whatever the template. */
  lemma {:induction false} Sound(template: Template, log: Log)
    requires Accepts(template, log)
    ensures CanMatch(template, log)
    decreases |template|
  {
    if template != [] {
      AcceptsStep(template, log);
      if log != [] && log[0] in EntryTexts(template[0]) {
        Sound(template[1..], log[1..]);
      } else {
        Sound(template[1..], log);
      }
    }
  }

  predicate Share(a: Step, b: Step) {
    exists x :: x in EntryTexts(a) && x in EntryTexts(b)
  }

  /** No optional step can be skipped all the way to a mandatory step that shares a text with it. */
  predicate Unambiguous(template: Template) {
    forall i, j | 0 <= i < j < |template| && !template[j].optional
                && (forall k | i <= k < j :: template[k].optional) ::
      !Share(template[i], template[j])
  }

  /** The position of the first mandatory step, or the length if there is none. */
  function FirstMandatory(template: Template): (m: nat)
    ensures m <= |template|
    ensures forall k | 0 <= k < m :: template[k].optional
    ensures m < |template| ==> !template[m].optional
  {
    if template == [] || !template[0].optional then 0 else 1 + FirstMandatory(template[1..])
  }

  predicate HeadClear(template: Template)
    requires template != []
  {
    var m := FirstMandatory(template);
    m == 0 || m == |template| || !Share(template[0], template[m])
  }

  lemma UnambiguousStep(template: Template)
    requires template != []
    ensures Unambiguous(template) <==> HeadClear(template) && Unambiguous(template[1..])
  {
    var rest, m := template[1..], FirstMandatory(template);
    if Unambiguous(template) {
      forall i, j | 0 <= i < j < |rest| && !rest[j].optional && (forall k | i <= k < j :: rest[k].optional)
        ensures !Share(rest[i], rest[j])
      {
        forall k | i + 1 <= k < j + 1
          ensures template[k].optional
        {
          assert rest[k - 1].optional;
        }
      }
    }
    if HeadClear(template) && Unambiguous(rest) {
      forall i, j | 0 <= i < j < |template| && !template[j].optional
                  && (forall k | i <= k < j :: template[k].optional)
        ensures !Share(template[i], template[j])
      {
        if i == 0 {
          assert j == m;
        } else {
          forall k | i - 1 <= k < j - 1
            ensures rest[k].optional
          {
            assert template[k + 1].optional;
          }
          assert !Share(rest[i - 1], rest[j - 1]);
        }
      }
    }
  }

  /** A line that only optional steps could take can also be left to an earlier step. */
  lemma {:induction false} LineNotNeeded(template: Template, log: Log)
    requires log != [] && CanMatch(template, log)
    requires var m := FirstMandatory(template);
             m < |template| ==> log[0] !in EntryTexts(template[m])
    ensures CanMatch(template, log[1..])
    decreases |template|
  {
    if log[0] in EntryTexts(template[0]) && CanMatch(template[1..], log[1..]) {
      assert template[0].optional;
    } else {
      LineNotNeeded(template[1..], log);
    }
  }

  lemma {:induction false} Complete(template: Template, log: Log)
    requires Unambiguous(template) && CanMatch(template, log)
    ensures Accepts(template, log)
    decreases |template|
  {
    if template != [] {
      AcceptsStep(template, log);
      UnambiguousStep(template);
      if log != [] && log[0] in EntryTexts(template[0]) {
        if !CanMatch(template[1..], log[1..]) {
          var m := FirstMandatory(template);
          assert m > 0 && FirstMandatory(template[1..]) == m - 1;
          assert m < |template| ==> template[1..][m - 1] == template[m];
          LineNotNeeded(template[1..], log);
        }
        Complete(template[1..], log[1..]);
      } else {
        Complete(template[1..], log);
      }
    }
  }

  /** The primary texts of the mandatory steps: the shortest log a template explains. */
  function MandatoryTexts(template: Template): Log {
    if template == [] then []
    else (if template[0].optional then [] else [template[0].t]) + MandatoryTexts(template[1..])
  }

  lemma {:induction false} MandatoryTextsMatch(template: Template)
    ensures CanMatch(template, MandatoryTexts(template))
  {
    if template != [] {
      MandatoryTextsMatch(template[1..]);
      var log := MandatoryTexts(template);
      if template[0].optional {
        assert log == MandatoryTexts(template[1..]);
      } else {
        assert log[1..] == MandatoryTexts(template[1..]);
        assert log[0] == EntryTexts(template[0])[0] && log[0] in EntryTexts(template[0]);
      }
    }
  }

  lemma {:induction false} EveryMandatoryStepIsLogged(template: Template, log: Log)
    requires CanMatch(template, log)
    ensures |log| >= |MandatoryTexts(template)|
    decreases |template|
  {
    if template != [] {
      if log != [] && log[0] in EntryTexts(template[0]) && CanMatch(template[1..], log[1..]) {
        EveryMandatoryStepIsLogged(template[1..], log[1..]);
      } else {
        EveryMandatoryStepIsLogged(template[1..], log);
      }
    }
  }

  /** What is left of a template from step `m`, reached by skipping. */
  lemma {:induction false} SkipTo(template: Template, m: nat, log: Log)
    requires m <= |template| && (forall k | 0 <= k < m :: template[k].optional)
    requires CanMatch(template[m..], log)
    ensures CanMatch(template, log)
    ensures MandatoryTexts(template) == MandatoryTexts(template[m..])
    decreases m
  {
    if m == 0 {
      assert template[0..] == template;
    } else {
      assert template[1..][m - 1..] == template[m..];
      SkipTo(template[1..], m - 1, log);
    }
  }

  /** An ambiguous template has a log it explains and the matcher rejects. */
  lemma {:induction false} AmbiguityShows(template: Template) returns (log: Log)
    requires !Unambiguous(template)
    ensures CanMatch(template, log) && !Accepts(template, log)
    decreases |template|
  {
    if template == [] { log := []; return; }
    UnambiguousStep(template);
    if !Unambiguous(template[1..]) {
      var more := AmbiguityShows(template[1..]);
      log := [template[0].t] + more;
      assert log[1..] == more && EntryTexts(template[0])[0] == template[0].t;
      AcceptsStep(template, log);
    } else {
      log := ConflictShows(template);
    }
  }

  /** The first step takes a line that the first mandatory step needs. */
  lemma ConflictShows(template: Template) returns (log: Log)
    requires template != [] && !HeadClear(template)
    ensures CanMatch(template, log) && !Accepts(template, log)
  {
    var rest, m := template[1..], FirstMandatory(template);
    var x :| x in EntryTexts(template[0]) && x in EntryTexts(template[m]);
    var after := template[m + 1..];
    var tail := MandatoryTexts(after);
    log := [x] + tail;
    assert log[1..] == tail && template[m..][1..] == after;
    MandatoryTextsMatch(after);
    SkipTo(template, m, log);
    AcceptsStep(template, log);
    TooFewLines(template, m);
  }

  lemma {:induction false} TooFewLines(template: Template, m: nat)
    requires 0 < m < |template| && m == FirstMandatory(template)
    ensures !Accepts(template[1..], MandatoryTexts(template[m + 1..]))
  {
    var rest, tail := template[1..], MandatoryTexts(template[m + 1..]);
    OneMoreNeeded(template, m);
    if Accepts(rest, tail) {
      Sound(rest, tail);
      EveryMandatoryStepIsLogged(rest, tail);
    }
  }

  lemma {:induction false} OneMoreNeeded(template: Template, m: nat)
    requires 0 < m < |template| && m == FirstMandatory(template)
    ensures |MandatoryTexts(template[1..])| == 1 + |MandatoryTexts(template[m + 1..])|
  {
    var rest, from := template[1..], template[m..];
    assert from[1..] == template[m + 1..] && rest[m - 1..] == from;
    MandatoryTextsMatch(from);
    SkipTo(rest, m - 1, MandatoryTexts(from));
  }

  /** The matcher and the meaning agree on every log exactly when the template is unambiguous. */
  lemma MatcherExact(template: Template)
    ensures Unambiguous(template)
       <==> (forall log :: Accepts(template, log) <==> Explains(template, log))
  {
    forall log
      ensures Accepts(template, log) ==> Explains(template, log)
      ensures Unambiguous(template) && Explains(template, log) ==> Accepts(template, log)
    {
      ExplainsIffCanMatch(template, log);
      if Accepts(template, log) { Sound(template, log); }
      if Unambiguous(template) && CanMatch(template, log) { Complete(template, log); }
    }
    if !Unambiguous(template) {
      var log := AmbiguityShows(template);
      ExplainsIffCanMatch(template, log);
      assert !(Accepts(template, log) <==> Explains(template, log));
    }
  }

  // ---- what a red means ---------------------------------------------------------------------

  /** The template step and the log line at which a match failed. */
  function StepOf(fail: Failure, template: Template): nat {
    match fail
    case Diverges(ti, _) => ti
    case Missing(ti) => ti
    case Unexpected(_) => |template|
  }

  function LineOf(fail: Failure, log: Log): nat {
    match fail
    case Diverges(_, oi) => oi
    case Missing(_) => |log|
    case Unexpected(first) => first
  }

  /** Up to the failing line the log is fine: followed by the mandatory texts from the failing
      step on, it would be explained. */
  lemma {:induction false} GoodUpToFailure(template: Template, log: Log, ti: nat, oi: nat)
    requires ti <= |template| && oi <= |log| && Greedy(template, log, ti, oi) != []
    ensures var fail := Greedy(template, log, ti, oi)[0]; var t, o := StepOf(fail, template), LineOf(fail, log);
            && ti <= t <= |template| && oi <= o <= |log|
            && CanMatch(template[ti..], log[oi..o] + MandatoryTexts(template[t..]))
    decreases |template| - ti
  {
    var fail := Greedy(template, log, ti, oi)[0];
    var t, o := StepOf(fail, template), LineOf(fail, log);
    if ti == |template| || (!template[ti].optional && (oi == |log| || log[oi] !in EntryTexts(template[ti]))) {
      MandatoryTextsMatch(template[t..]);
      assert log[oi..o] + MandatoryTexts(template[t..]) == MandatoryTexts(template[t..]);
    } else if oi < |log| && log[oi] in EntryTexts(template[ti]) {
      GoodUpToFailure(template, log, ti + 1, oi + 1);
      FromNext(log, oi, o, MandatoryTexts(template[t..]));
      assert template[ti..][0] == template[ti] && template[ti..][1..] == template[ti + 1..];
    } else {
      GoodUpToFailure(template, log, ti + 1, oi);
      assert template[ti..][0] == template[ti] && template[ti..][1..] == template[ti + 1..];
    }
  }

  lemma FromNext(log: Log, oi: nat, o: nat, tail: Log)
    requires oi < o <= |log|
    ensures var whole := log[oi..o] + tail; whole[0] == log[oi] && whole[1..] == log[oi + 1..o] + tail
  {
  }

  /** Past the failing line the log is lost: however it goes on, the match fails in the same place. */
  lemma {:induction false} LostAfterFailure(template: Template, log: Log, ti: nat, oi: nat, tail: Log)
    requires ti <= |template| && oi <= |log| && Greedy(template, log, ti, oi) != []
    requires LineOf(Greedy(template, log, ti, oi)[0], log) < |log|
    ensures var o := LineOf(Greedy(template, log, ti, oi)[0], log);
            && oi <= o
            && Greedy(template, log[..o + 1] + tail, ti, oi) == Greedy(template, log, ti, oi)
    decreases |template| - ti
  {
    var o := LineOf(Greedy(template, log, ti, oi)[0], log);
    if ti < |template| && oi < |log| {
      if log[oi] in EntryTexts(template[ti]) {
        LostAfterFailure(template, log, ti + 1, oi + 1, tail);
      } else if template[ti].optional {
        LostAfterFailure(template, log, ti + 1, oi, tail);
      }
      assert (log[..o + 1] + tail)[oi] == log[oi];
    } else if ti < |template| && template[ti].optional {
      LostAfterFailure(template, log, ti + 1, oi, tail);
    }
  }

  ghost predicate ExplainsWith(template: Template, begun: Log, tail: Log) {
    Explains(template, begun + tail)
  }

  /** The log can go on so that the template explains the whole of it. */
  ghost predicate Completable(template: Template, begun: Log) {
    exists tail :: ExplainsWith(template, begun, tail)
  }

  /** Under an unambiguous template the reported line is exact: the log before it can be completed
      to one the template explains, and with that line no completion is explained. */
  lemma {:induction false} FailureIsExact(template: Template, log: Log)
    requires Unambiguous(template) && Greedy(template, log, 0, 0) != []
    ensures var o := LineOf(Greedy(template, log, 0, 0)[0], log);
            && o <= |log|
            && Completable(template, log[..o])
            && (o < |log| ==> !Completable(template, log[..o + 1]))
            && !Explains(template, log)
  {
    FailingLogCompletable(template, log);
    NoCompletionAfter(template, log);
    ExplainsIffCanMatch(template, log);
    if CanMatch(template, log) { Complete(template, log); }
  }

  lemma {:induction false} NoCompletionAfter(template: Template, log: Log)
    requires Unambiguous(template) && Greedy(template, log, 0, 0) != []
    ensures var o := LineOf(Greedy(template, log, 0, 0)[0], log);
            o < |log| ==> !Completable(template, log[..o + 1])
  {
    var o := LineOf(Greedy(template, log, 0, 0)[0], log);
    if o < |log| {
      var begun := log[..o + 1];
      forall tail: Log
        ensures !ExplainsWith(template, begun, tail)
      {
        LostForGood(template, log, tail);
      }
    }
  }

  lemma {:induction false} FailingLogCompletable(template: Template, log: Log)
    requires Greedy(template, log, 0, 0) != []
    ensures var o := LineOf(Greedy(template, log, 0, 0)[0], log); o <= |log| && Completable(template, log[..o])
  {
    var fail := Greedy(template, log, 0, 0)[0];
    var t, o := StepOf(fail, template), LineOf(fail, log);
    GoodUpToFailure(template, log, 0, 0);
    assert template[0..] == template && log[0..o] == log[..o];
    ExplainsIffCanMatch(template, log[..o] + MandatoryTexts(template[t..]));
    assert ExplainsWith(template, log[..o], MandatoryTexts(template[t..]));
  }

  lemma {:induction false} LostForGood(template: Template, log: Log, tail: Log)
    requires Unambiguous(template) && Greedy(template, log, 0, 0) != []
    requires LineOf(Greedy(template, log, 0, 0)[0], log) < |log|
    ensures !ExplainsWith(template, log[..LineOf(Greedy(template, log, 0, 0)[0], log) + 1], tail)
  {
    LostAfterFailure(template, log, 0, 0, tail);
    var longer := log[..LineOf(Greedy(template, log, 0, 0)[0], log) + 1] + tail;
    ExplainsIffCanMatch(template, longer);
    if CanMatch(template, longer) { Complete(template, longer); }
  }

  /** Before the failing place, steps and lines match each other. */
  lemma {:induction false} MatchedUpToFailure(template: Template, log: Log, ti: nat, oi: nat)
    requires ti <= |template| && oi <= |log| && Greedy(template, log, ti, oi) != []
    ensures var fail := Greedy(template, log, ti, oi)[0]; var t, o := StepOf(fail, template), LineOf(fail, log);
            && ti <= t <= |template| && oi <= o <= |log|
            && CanMatch(template[ti..t], log[oi..o])
    decreases |template| - ti
  {
    var fail := Greedy(template, log, ti, oi)[0];
    var t, o := StepOf(fail, template), LineOf(fail, log);
    if ti == |template| || (!template[ti].optional && (oi == |log| || log[oi] !in EntryTexts(template[ti]))) {
      assert template[ti..t] == [] && log[oi..o] == [];
    } else if oi < |log| && log[oi] in EntryTexts(template[ti]) {
      MatchedUpToFailure(template, log, ti + 1, oi + 1);
      assert template[ti..t][1..] == template[ti + 1..t] && log[oi..o][1..] == log[oi + 1..o];
    } else {
      MatchedUpToFailure(template, log, ti + 1, oi);
      assert template[ti..t][1..] == template[ti + 1..t];
    }
  }

  /** What each red says, for every template: the steps before explain the lines before, and then a
      mandatory step meets another line, or the log is over at it, or lines follow the last step. */
  ghost predicate RedMeans(template: Template, log: Log, fail: Failure) {
    match fail
    case Diverges(t, o) =>
      && t < |template| && o < |log| && Explains(template[..t], log[..o])
      && !template[t].optional && log[o] != template[t].t && log[o] !in template[t].alt
    case Missing(t) =>
      t < |template| && Explains(template[..t], log) && !template[t].optional
    case Unexpected(o) =>
      o < |log| && Explains(template, log[..o])
  }

  lemma {:induction false} OneRedAtMost(template: Template, log: Log)
    ensures |Greedy(template, log, 0, 0)| <= 1
    ensures forall fail | fail in Greedy(template, log, 0, 0) :: RedMeans(template, log, fail)
  {
    FailsAtMostOnce(template, log, 0, 0);
    if Greedy(template, log, 0, 0) != [] {
      var fail := Greedy(template, log, 0, 0)[0];
      var t, o := StepOf(fail, template), LineOf(fail, log);
      MatchedUpToFailure(template, log, 0, 0);
      assert template[0..t] == template[..t] && log[0..o] == log[..o];
      ExplainsIffCanMatch(template[..t], log[..o]);
      assert template[..|template|] == template && log[..|log|] == log;
    }
  }

  lemma {:induction false} FailsAtMostOnce(template: Template, log: Log, ti: nat, oi: nat)
    requires ti <= |template| && oi <= |log|
    ensures var fails := Greedy(template, log, ti, oi);
            && |fails| <= 1
            && forall fail | fail in fails ::
                 match fail
                 case Diverges(t, o) => t < |template| && o < |log| && !template[t].optional
                                        && log[o] !in EntryTexts(template[t])
                 case Missing(t) => t < |template| && !template[t].optional
                 case Unexpected(o) => o < |log|
    decreases |template| - ti
  {
    if ti < |template| {
      FailsAtMostOnce(template, log, ti + 1, oi);
      if oi < |log| { FailsAtMostOnce(template, log, ti + 1, oi + 1); }
    }
  }

  // ---- the structural check of a committed template -----------------------------------------

  function AllTexts(template: Template): seq<string> {
    if template == [] then [] else EntryTexts(template[0]) + AllTexts(template[1..])
  }

  predicate NoRepeats(texts: seq<string>) {
    forall i, j | 0 <= i < j < |texts| :: texts[i] != texts[j]
  }

  datatype BaselineFault = NoText(step: nat) | TextTwice(step: nat, text: string)

  /** What the check asks of a template: a primary text everywhere, and no text twice. */
  ghost predicate CheckClean(template: Template) {
    (forall s | s in template :: s.t != "") && NoRepeats(AllTexts(template))
  }

  /** `check_baselines`, one channel: an entry without a primary text is reported and left out,
      a text already seen is reported. */
  method CheckTexts(template: Template) returns (faults: seq<BaselineFault>)
    ensures faults == [] <==> CheckClean(template)
  {
    faults := [];
    var texts: seq<string> := [];
    for i := 0 to |template|
      invariant faults == [] <==> (forall s | s in template[..i] :: s.t != "") && NoRepeats(AllTexts(template[..i]))
      invariant faults == [] ==> texts == AllTexts(template[..i])
    {
      var step := template[i];
      AllTextsSnoc(template, i);
      assert template[..i + 1] == template[..i] + [step];
      if step.t == "" {
        faults := faults + [NoText(i)];
        assert step in template[..i + 1];
        continue;
      }
      ghost var clean, before := faults == [], texts;
      for k := 0 to |EntryTexts(step)|
        invariant texts == before + EntryTexts(step)[..k]
        invariant faults == [] <==> clean && NoRepeats(before + EntryTexts(step)[..k])
      {
        var t := EntryTexts(step)[k];
        NoRepeatsAppend(texts, [t]);
        assert texts + [t] == before + EntryTexts(step)[..k + 1];
        if t in texts {
          faults := faults + [TextTwice(i, t)];
        }
        texts := texts + [t];
      }
      assert EntryTexts(step)[..|EntryTexts(step)|] == EntryTexts(step);
      NoRepeatsAppend(AllTexts(template[..i]), EntryTexts(step));
    }
    assert template[..|template|] == template;
  }

  lemma {:induction false} AllTextsAppend(a: Template, b: Template)
    ensures AllTexts(a + b) == AllTexts(a) + AllTexts(b)
  {
    if a == [] {
      EmptyAppend(b);
      EmptyAppend(AllTexts(b));
    } else {
      AllTextsAppend(a[1..], b);
      TailOfAppend(a, b);
      Associates(EntryTexts(a[0]), AllTexts(a[1..]), AllTexts(b));
    }
  }

  lemma AllTextsSnoc(template: Template, i: nat)
    requires i < |template|
    ensures AllTexts(template[..i + 1]) == AllTexts(template[..i]) + EntryTexts(template[i])
  {
    assert template[..i + 1] == template[..i] + [template[i]];
    AllTextsAppend(template[..i], [template[i]]);
    assert [template[i]][1..] == [];
  }

  lemma NoRepeatsAppend(a: seq<string>, b: seq<string>)
    ensures NoRepeats(a + b) <==> NoRepeats(a) && NoRepeats(b) && (forall x | x in a :: x !in b)
  {
    var all := a + b;
    if NoRepeats(all) {
      forall i, j | 0 <= i < j < |a|
        ensures a[i] != a[j]
      {
        assert all[i] != all[j];
      }
      forall i, j | 0 <= i < j < |b|
        ensures b[i] != b[j]
      {
        assert all[|a| + i] != all[|a| + j];
      }
      forall i, j | 0 <= i < |a| && 0 <= j < |b|
        ensures a[i] != b[j]
      {
        assert all[i] != all[|a| + j];
      }
    }
    if NoRepeats(a) && NoRepeats(b) && forall x | x in a :: x !in b {
      forall i, j | 0 <= i < j < |all|
        ensures all[i] != all[j]
      {
        if i < |a| <= j { assert a[i] in a && b[j - |a|] in b; }
      }
    }
  }

  lemma {:induction false} InAllTexts(template: Template, x: string)
    ensures x in AllTexts(template) <==> exists i :: 0 <= i < |template| && x in EntryTexts(template[i])
  {
    if template != [] {
      InAllTexts(template[1..], x);
      if x in AllTexts(template[1..]) {
        var i :| 0 <= i < |template[1..]| && x in EntryTexts(template[1..][i]);
        assert x in EntryTexts(template[i + 1]);
      }
      if i :| 0 <= i < |template| && x in EntryTexts(template[i]) {
        if i > 0 { assert x in EntryTexts(template[1..][i - 1]); }
      }
    }
  }

  ghost predicate StepsDisjoint(template: Template) {
    forall i, j | 0 <= i < j < |template| :: !Share(template[i], template[j])
  }

  /** No text twice means: none twice in one step, and none in two steps. */
  lemma {:induction false} NoRepeatsMeansDisjoint(template: Template)
    ensures NoRepeats(AllTexts(template)) <==>
            StepsDisjoint(template) && forall s | s in template :: NoRepeats(EntryTexts(s))
  {
    if template != [] {
      var head, rest := template[0], template[1..];
      NoRepeatsMeansDisjoint(rest);
      NoRepeatsAppend(EntryTexts(head), AllTexts(rest));
      StepsDisjointFirst(template);
      ApartInTexts(head, rest);
      assert template == [head] + rest;
    }
  }

  /** The check, said of the steps' own fields: every step has a primary text that is not among its
      spellings, no spelling is given twice, and no text belongs to two steps. */
  lemma {:induction false} CheckedStepByStep(template: Template)
    ensures CheckClean(template) <==>
              && (forall s | s in template :: s.t != "" && s.t !in s.alt && NoRepeats(s.alt))
              && (forall i, j, x | 0 <= i < j < |template| && (x == template[i].t || x in template[i].alt) ::
                    x != template[j].t && x !in template[j].alt)
  {
    NoRepeatsMeansDisjoint(template);
    forall s: Step { TextsOfStep(s, s.t); }
    forall i, j | 0 <= i < j < |template|
      ensures Share(template[i], template[j]) <==>
                exists x :: (x == template[i].t || x in template[i].alt)
                            && (x == template[j].t || x in template[j].alt)
    {
      forall x
        ensures x in EntryTexts(template[i]) <==> x == template[i].t || x in template[i].alt
        ensures x in EntryTexts(template[j]) <==> x == template[j].t || x in template[j].alt
      {
        TextsOfStep(template[i], x);
        TextsOfStep(template[j], x);
      }
    }
  }

  ghost predicate ApartFromAll(s: Step, rest: Template) {
    forall i | 0 <= i < |rest| :: !Share(s, rest[i])
  }

  lemma {:induction false} StepsDisjointFirst(template: Template)
    requires template != []
    ensures StepsDisjoint(template) <==> ApartFromAll(template[0], template[1..]) && StepsDisjoint(template[1..])
  {
    var rest := template[1..];
    if StepsDisjoint(template) {
      forall i | 0 <= i < |rest|
        ensures !Share(template[0], rest[i])
      {
        assert rest[i] == template[i + 1];
      }
      forall i, j | 0 <= i < j < |rest|
        ensures !Share(rest[i], rest[j])
      {
        assert rest[i] == template[i + 1] && rest[j] == template[j + 1];
      }
    }
    if ApartFromAll(template[0], rest) && StepsDisjoint(rest) {
      forall i, j | 0 <= i < j < |template|
        ensures !Share(template[i], template[j])
      {
        assert template[j] == rest[j - 1];
        if i > 0 { assert template[i] == rest[i - 1]; }
      }
    }
  }

  lemma {:induction false} ApartInTexts(s: Step, rest: Template)
    ensures ApartFromAll(s, rest) <==> forall x | x in EntryTexts(s) :: x !in AllTexts(rest)
  {
    forall x { InAllTexts(rest, x); }
    if ApartFromAll(s, rest) {
      forall x, i | x in EntryTexts(s) && 0 <= i < |rest|
        ensures x !in EntryTexts(rest[i])
      {
        assert !Share(s, rest[i]);
      }
    }
  }

  /** What the check buys: no two steps share a text, so the matcher is exact. */
  lemma {:induction false} CheckedTemplateIsExact(template: Template)
    requires NoRepeats(AllTexts(template))
    ensures Unambiguous(template)
    ensures forall log :: Accepts(template, log) <==> Explains(template, log)
  {
    NoRepeatsMeansDisjoint(template);
    MatcherExact(template);
  }

  // ---- re-recording a template from a live run ----------------------------------------------

  datatype Found = NotFound | Found(step: Step)

  /** The last step of the previous template that carries the text. */
  function LastWith(prior: Template, x: string): (r: Found)
    ensures r == NotFound <==> forall s | s in prior :: x !in EntryTexts(s)
    ensures r.Found? ==> r.step in prior && x in EntryTexts(r.step)
  {
    if prior == [] then NotFound
    else if x in EntryTexts(prior[|prior| - 1]) then Found(prior[|prior| - 1])
    else
      assert prior == prior[..|prior| - 1] + [prior[|prior| - 1]];
      LastWith(prior[..|prior| - 1], x)
  }

  /** The re-recorded step of a log line: the old one that spells it, or a new mandatory one. */
  function ReStep(prior: Template, x: string): (s: Step)
    ensures x in EntryTexts(s)
  {
    match LastWith(prior, x)
    case Found(s) => s
    case NotFound => assert EntryTexts(Step(x, [], false, ""))[0] == x; Step(x, [], false, "")
  }

  function Merge(prior: Template, log: Log): (template: Template)
    ensures |template| == |log|
    ensures forall k | 0 <= k < |log| :: template[k] == ReStep(prior, log[k])
  {
    seq(|log|, k requires 0 <= k < |log| => ReStep(prior, log[k]))
  }

  /** The old step carries the line as its text or as a spelling. */
  predicate Carries(step: Step, x: string) {
    x == step.t || x in step.alt
  }

  /** Line `k` of a re-recorded template is the last old step that carries it, with all its fields,
      or else a mandatory step of that text alone. */
  lemma {:induction false} MergedLine(prior: Template, log: Log, k: nat)
    requires k < |log|
    ensures |Merge(prior, log)| == |log|
    ensures (forall s | s in prior :: !Carries(s, log[k])) ==> Merge(prior, log)[k] == Step(log[k], [], false, "")
    ensures forall i | 0 <= i < |prior| && Carries(prior[i], log[k])
              && (forall j | i < j < |prior| :: !Carries(prior[j], log[k])) :: Merge(prior, log)[k] == prior[i]
  {
    forall s: Step { TextsOfStep(s, log[k]); }
    forall i | 0 <= i < |prior| && Carries(prior[i], log[k])
              && (forall j | i < j < |prior| :: !Carries(prior[j], log[k]))
      ensures Merge(prior, log)[k] == prior[i]
    {
      var j := TakerIsLast(prior, log[k], i);
    }
  }

  /** `by_text`: every text of the old template, with the last step that carries it. */
  method IndexByText(prior: Template) returns (byText: map<string, Step>)
    ensures forall x :: x in byText <==> LastWith(prior, x).Found?
    ensures forall x :: x in byText ==> byText[x] == LastWith(prior, x).step
  {
    byText := map[];
    for i := 0 to |prior|
      invariant forall x :: x in byText <==> LastWith(prior[..i], x).Found?
      invariant forall x :: x in byText ==> byText[x] == LastWith(prior[..i], x).step
    {
      byText := WithTexts(byText, prior[i]);
      forall x
        ensures LastWith(prior[..i + 1], x)
             == if x in EntryTexts(prior[i]) then Found(prior[i]) else LastWith(prior[..i], x)
      {
        assert prior[..i + 1][..i] == prior[..i] && prior[..i + 1][i] == prior[i];
      }
    }
    assert prior[..|prior|] == prior;
  }

  method WithTexts(was: map<string, Step>, step: Step) returns (byText: map<string, Step>)
    ensures forall x :: x in byText <==> x in was || x in EntryTexts(step)
    ensures forall x :: x in byText ==> byText[x] == if x in EntryTexts(step) then step else was[x]
  {
    byText := was;
    var texts := EntryTexts(step);
    for k := 0 to |texts|
      invariant forall x :: x in byText <==> x in was || x in texts[..k]
      invariant forall x :: x in byText ==> byText[x] == if x in texts[..k] then step else was[x]
    {
      assert texts[..k + 1] == texts[..k] + [texts[k]];
      byText := byText[texts[k] := step];
    }
    assert texts[..|texts|] == texts;
  }

  method MergeAnnotations(prior: Template, newTexts: Log) returns (out: Template)
    ensures out == Merge(prior, newTexts)
  {
    var byText := IndexByText(prior);
    out := [];
    for k := 0 to |newTexts|
      invariant |out| == k && forall j | 0 <= j < k :: out[j] == ReStep(prior, newTexts[j])
    {
      var t := newTexts[k];
      var rec := Step(t, [], false, "");
      if t in byText {
        var was := byText[t];
        // the original primary text is kept, so that a spelling from this run does not become it
        rec := Step(was.t, was.alt, was.optional, was.why);
        rec := if t in EntryTexts(rec) then rec else rec.(alt := rec.alt + [t]);
      }
      out := out + [rec];
    }
  }

  datatype ReRecord = KeptAsWas | Refused(dropped: Template) | Recorded(lines: Template)

  predicate Logged(step: Step, log: Log) {
    exists x :: x in EntryTexts(step) && x in log
  }

  lemma {:induction false} LoggedByTexts(step: Step, log: Log)
    ensures Logged(step, log) <==> step.t in log || exists x :: x in step.alt && x in log
  {
    forall x { TextsOfStep(step, x); }
  }

  /** One channel of `update_baseline`: a run that would lose an optional step is refused. */
  method UpdateChannel(prior: Template, armed: bool, log: Log) returns (r: ReRecord)
    ensures r.KeptAsWas? <==> !armed
    ensures r.Refused? <==> armed && exists s :: s in prior && s.optional && !Logged(s, log)
    ensures r.Refused? ==> forall s :: s in r.dropped <==> s in prior && s.optional && !Logged(s, log)
    ensures r.Recorded? ==> r.lines == Merge(prior, log)
  {
    if !armed { return KeptAsWas; }
    var dropped: Template := [];
    for i := 0 to |prior|
      invariant forall s :: s in dropped <==> s in prior[..i] && s.optional && !Logged(s, log)
    {
      assert prior[..i + 1] == prior[..i] + [prior[i]];
      if prior[i].optional && !Logged(prior[i], log) {
        dropped := dropped + [prior[i]];
      }
    }
    assert prior[..|prior|] == prior;
    if dropped != [] {
      assert dropped[0] in dropped;
      return Refused(dropped);
    }
    var lines := MergeAnnotations(prior, log);
    return Recorded(lines);
  }

  /** A re-recorded template accepts the run it was recorded from, whatever it replaces. */
  lemma ReRecordedAccepts(prior: Template, log: Log)
    ensures Accepts(Merge(prior, log), log)
  {
    MatchesInStep(Merge(prior, log), log, 0);
  }

  lemma {:induction false} MatchesInStep(template: Template, log: Log, k: nat)
    requires |template| == |log| && k <= |log|
    requires forall j | 0 <= j < |log| :: log[j] in EntryTexts(template[j])
    ensures Greedy(template, log, k, k) == []
    decreases |log| - k
  {
    if k < |log| { MatchesInStep(template, log, k + 1); }
  }

  /** No other step of the template takes a text of `s`: for each of them, `s` is the last to carry it. */
  predicate KeepsItsTexts(prior: Template, s: Step) {
    forall x | x in EntryTexts(s) :: LastWith(prior, x) == Found(s)
  }

  /** An old step survives every run that logs it precisely when it keeps its texts. */
  lemma StepSurvivesExactly(prior: Template, s: Step)
    requires s in prior
    ensures KeepsItsTexts(prior, s) <==> forall log | Logged(s, log) :: s in Merge(prior, log)
  {
    if KeepsItsTexts(prior, s) {
      forall log | Logged(s, log)
        ensures s in Merge(prior, log)
      {
        var x :| x in EntryTexts(s) && x in log;
        var k :| 0 <= k < |log| && log[k] == x;
        assert Merge(prior, log)[k] == s;
      }
    } else {
      var x :| x in EntryTexts(s) && LastWith(prior, x) != Found(s);
      assert [x][0] == x && Logged(s, [x]);
      assert Merge(prior, [x]) == [ReStep(prior, x)];
    }
  }

  /** The update of `prior` from this log is not refused. */
  ghost predicate NotRefused(prior: Template, log: Log) {
    forall s | s in prior && s.optional :: Logged(s, log)
  }

  ghost predicate OptionalKept(prior: Template, log: Log) {
    forall s | s in prior && s.optional :: s in Merge(prior, log)
  }

  /** The refusal is enough to protect the optional steps of a channel precisely when each of them
      keeps its texts: then no run that is let through loses one, and otherwise some run does. */
  lemma RefusalProtectsExactly(prior: Template)
    ensures (forall s | s in prior && s.optional :: KeepsItsTexts(prior, s))
       <==> (forall log | NotRefused(prior, log) :: OptionalKept(prior, log))
  {
    if forall s | s in prior && s.optional :: KeepsItsTexts(prior, s) {
      forall log, s | NotRefused(prior, log) && s in prior && s.optional
        ensures s in Merge(prior, log)
      {
        StepSurvivesExactly(prior, s);
      }
    } else {
      var s :| s in prior && s.optional && !KeepsItsTexts(prior, s);
      var i := LastPlace(prior, s);
      var m := EarliestLoser(prior, i);
      var log := LosingRun(prior, m);
    }
  }

  /** Place `i` is the last of an optional step that does not keep its texts. */
  ghost predicate Loses(prior: Template, i: int) {
    0 <= i < |prior| && prior[i].optional && !KeepsItsTexts(prior, prior[i]) && prior[i] !in prior[i + 1..]
  }

  lemma {:induction false} LastPlace(prior: Template, s: Step) returns (i: nat)
    requires s in prior
    ensures i < |prior| && prior[i] == s && s !in prior[i + 1..]
  {
    i := |prior| - 1;
    assert prior[0..] == prior;
    while prior[i] != s
      invariant i < |prior| && s !in prior[i + 1..]
      decreases i
    {
      assert prior[i..] == [prior[i]] + prior[i + 1..];
      i := i - 1;
    }
  }

  lemma {:induction false} EarliestLoser(prior: Template, i: nat) returns (m: nat)
    requires Loses(prior, i)
    ensures Loses(prior, m) && forall j | 0 <= j < m :: !Loses(prior, j)
  {
    if j: nat :| j < i && Loses(prior, j) {
      m := EarliestLoser(prior, j);
    } else {
      m := i;
    }
  }

  /** The step that takes a text stands no earlier than any step that carries it. */
  lemma {:induction false} TakerIsLast(prior: Template, x: string, j: nat) returns (k: nat)
    requires j < |prior| && x in EntryTexts(prior[j])
    ensures j <= k < |prior| && LastWith(prior, x) == Found(prior[k])
  {
    var n := |prior| - 1;
    if x in EntryTexts(prior[n]) {
      k := n;
    } else {
      k := TakerIsLast(prior[..n], x, j);
    }
  }

  /** The primary texts of the optional steps other than `s`. */
  function OtherTexts(prior: Template, s: Step): (log: Log)
    ensures forall t | t in prior && t.optional && t != s :: t.t in log
    ensures forall x | x in log :: exists t :: t in prior && t.optional && t != s && x == t.t
  {
    if prior == [] then []
    else
      assert prior == [prior[0]] + prior[1..];
      (if prior[0].optional && prior[0] != s then [prior[0].t] else []) + OtherTexts(prior[1..], s)
  }

  /** A run that logs every optional step, the first loser only by the text it does not keep: what
      could bring that step back is an earlier loser, and there is none. */
  lemma {:induction false} LosingRun(prior: Template, m: nat) returns (log: Log)
    requires Loses(prior, m) && forall j | 0 <= j < m :: !Loses(prior, j)
    ensures NotRefused(prior, log) && prior[m] !in Merge(prior, log)
  {
    var s := prior[m];
    var lost :| lost in EntryTexts(s) && LastWith(prior, lost) != Found(s);
    log := [lost] + OtherTexts(prior, s);
    assert log[0] == lost;
    AllLogged(prior, s, log);
    forall k | 0 <= k < |log|
      ensures ReStep(prior, log[k]) != s
    {
      if k > 0 {
        assert log[k] in OtherTexts(prior, s);
        var t :| t in prior && t.optional && t != s && log[k] == t.t;
        NotTakenBack(prior, m, t);
      }
    }
  }

  lemma {:induction false} AllLogged(prior: Template, s: Step, log: Log)
    requires Logged(s, log) && forall x | x in OtherTexts(prior, s) :: x in log
    ensures NotRefused(prior, log)
  {
    forall t | t in prior && t.optional
      ensures Logged(t, log)
    {
      if t != s { assert EntryTexts(t)[0] == t.t && t.t in log; }
    }
  }

  lemma {:induction false} NotTakenBack(prior: Template, m: nat, t: Step)
    requires Loses(prior, m) && forall j | 0 <= j < m :: !Loses(prior, j)
    requires t in prior && t.optional && t != prior[m]
    ensures ReStep(prior, t.t) != prior[m]
  {
    var s := prior[m];
    var j := LastPlace(prior, t);
    assert EntryTexts(t)[0] == t.t;
    var k := TakerIsLast(prior, t.t, j);
    assert k > m ==> prior[k] == prior[m + 1..][k - m - 1];
    if ReStep(prior, t.t) == s {
      assert t.t in EntryTexts(t) && LastWith(prior, t.t) != Found(t);
      assert Loses(prior, j);
    }
  }

  /** When the old template passed its check, every old optional step that was logged is in the new
      one, with its spellings and its reason, and still optional. */
  lemma OptionalStepsSurvive(prior: Template, log: Log, s: Step)
    requires StepsDisjoint(prior) && s in prior && s.optional && Logged(s, log)
    ensures s in Merge(prior, log)
  {
    forall x | x in EntryTexts(s) { OnlyStepWith(prior, s, x); }
    StepSurvivesExactly(prior, s);
  }

  lemma OnlyStepWith(prior: Template, s: Step, x: string)
    requires StepsDisjoint(prior) && s in prior && x in EntryTexts(s)
    ensures LastWith(prior, x) == Found(s)
  {
    var last := LastWith(prior, x).step;
    var i :| 0 <= i < |prior| && prior[i] == s;
    var j :| 0 <= j < |prior| && prior[j] == last;
    if i < j { assert Share(prior[i], prior[j]); }
    if j < i { assert Share(prior[j], prior[i]); }
  }

  /** Two lines of one log are the same step: equal, or two spellings of one old step. */
  ghost predicate SameStep(prior: Template, x: string, y: string) {
    x == y || exists s :: s in prior && x in EntryTexts(s) && y in EntryTexts(s)
  }

  lemma ReStepsShare(prior: Template, x: string, y: string)
    requires StepsDisjoint(prior)
    ensures Share(ReStep(prior, x), ReStep(prior, y)) <==> SameStep(prior, x, y)
  {
    var a, b := ReStep(prior, x), ReStep(prior, y);
    if z :| z in EntryTexts(a) && z in EntryTexts(b) {
      if LastWith(prior, x).Found? { OnlyStepWith(prior, a, z); }
      if LastWith(prior, y).Found? { OnlyStepWith(prior, b, z); }
    }
    if SameStep(prior, x, y) {
      if x != y {
        var s :| s in prior && x in EntryTexts(s) && y in EntryTexts(s);
        OnlyStepWith(prior, s, x);
        OnlyStepWith(prior, s, y);
      }
      assert x in EntryTexts(a) && x in EntryTexts(b);
    }
  }

  /** The re-recorded template passes the structural check exactly when the run never reported one
      step twice, neither in the same words nor in two spellings of it, and no new step is empty. */
  lemma {:induction false} ReRecordedPassesCheck(prior: Template, log: Log)
    requires CheckClean(prior)
    ensures CheckClean(Merge(prior, log)) <==>
            && (forall k, l | 0 <= k < l < |log| :: !SameStep(prior, log[k], log[l]))
            && ("" in log ==> LastWith(prior, "").Found?)
  {
    RepeatsAreSameSteps(prior, log);
    var template := Merge(prior, log);
    forall k | 0 <= k < |log|
      ensures template[k].t == "" <==> log[k] == "" && LastWith(prior, "") == NotFound
    {
      assert template[k] == ReStep(prior, log[k]);
    }
    if "" in log && LastWith(prior, "") == NotFound {
      var k :| 0 <= k < |log| && log[k] == "";
      assert template[k] in template;
    }
  }

  lemma RepeatsAreSameSteps(prior: Template, log: Log)
    requires NoRepeats(AllTexts(prior))
    ensures NoRepeats(AllTexts(Merge(prior, log))) <==>
            forall k, l | 0 <= k < l < |log| :: !SameStep(prior, log[k], log[l])
  {
    var template := Merge(prior, log);
    NoRepeatsMeansDisjoint(prior);
    NoRepeatsMeansDisjoint(template);
    forall s | s in template
      ensures NoRepeats(EntryTexts(s))
    {
      var k :| 0 <= k < |template| && template[k] == s;
      assert s == ReStep(prior, log[k]);
    }
    forall k, l | 0 <= k < l < |log|
      ensures Share(template[k], template[l]) <==> SameStep(prior, log[k], log[l])
    {
      ReStepsShare(prior, log[k], log[l]);
    }
  }

  /** Such templates exist: the old file is read back without the check, and here the only text of
      an optional step also belongs to a later step, which takes it. */
  lemma SharedTextLosesOptionalStep()
    ensures var lost := Step("a", [], true, ""); var prior := [lost, Step("a", [], false, "")];
            !KeepsItsTexts(prior, lost) && NotRefused(prior, ["a"]) && lost !in Merge(prior, ["a"])
  {
    var lost, taker := Step("a", [], true, ""), Step("a", [], false, "");
    assert EntryTexts(lost)[0] == "a" && EntryTexts(taker)[0] == "a" && "a" in ["a"];
    assert Logged(lost, ["a"]);
    assert LastWith([lost, taker], "a") == Found(taker);
  }
}
