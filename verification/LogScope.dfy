/** Scoping a host log to one client of a sequence (tools/check_codepage_adopt.py). */
module LogScope {
  import opened Options

  /** A client's window stays open half a second past its latest stamp. */
  const WINDOW_TAIL_MS := 500

  /** A log line and its time of day in milliseconds, if it carries one. */
  datatype Line = Line(text: string, stamp: Option<nat>)
  datatype Window = Window(t0: nat, t1: nat)

  predicate InWindow(w: Window, t: nat) {
    w.t0 <= t <= w.t1
  }

  predicate Disjoint(v: Window, w: Window) {
    v.t1 < w.t0 || w.t1 < v.t0
  }

  /** The window of a client: from its earliest stamp to its latest, and the tail. */
  ghost predicate WindowOf(client: seq<Line>, w: Window) {
    && (forall l | l in client && l.stamp.Some? :: w.t0 <= l.stamp.value && l.stamp.value + 500 <= w.t1)
    && (exists l :: l in client && l.stamp == Some(w.t0))
    && (exists l :: l in client && l.stamp.Some? && l.stamp.value + 500 == w.t1)
  }

  /** The stamp that governs line `i`: its own, or that of the stamped line before it. */
  function Governing(host: seq<Line>, i: nat): (r: Option<nat>)
    requires i < |host|
  {
    if host[i].stamp.Some? then host[i].stamp
    else if i == 0 then None else Governing(host, i - 1)
  }

  predicate InScope(host: seq<Line>, w: Window, i: nat)
    requires i < |host|
  {
    Governing(host, i).Some? && InWindow(w, Governing(host, i).value)
  }

  /** The indices in scope, in order. */
  function ScopeOf(host: seq<Line>, w: Window, n: nat): (s: seq<nat>)
    requires n <= |host|
    ensures forall i :: i in s <==> 0 <= i < n && InScope(host, w, i)
    ensures forall k, l | 0 <= k < l < |s| :: s[k] < s[l]
    ensures forall k | 0 <= k < |s| :: s[k] < n
  {
    if n == 0 then []
    else
      var before := ScopeOf(host, w, n - 1);
      assert forall k | 0 <= k < |before| :: before[k] in before;
      before + if InScope(host, w, n - 1) then [n - 1] else []
  }

  function LinesAt(host: seq<Line>, indices: seq<nat>): (lines: seq<Line>)
    requires forall k | 0 <= k < |indices| :: indices[k] < |host|
    ensures |lines| == |indices| && forall k | 0 <= k < |lines| :: lines[k] == host[indices[k]]
  {
    seq(|indices|, k requires 0 <= k < |indices| => host[indices[k]])
  }

  /** Stamped line `j` is the last one up to line `i`. */
  predicate StampedLast(host: seq<Line>, j: int, i: int) {
    0 <= j <= i < |host| && host[j].stamp.Some? && forall k | j < k <= i :: host[k].stamp.None?
  }

  /** A line is in scope exactly if the last stamped line up to it carries a time in the window: one
      without a time goes where the line before it goes, and lines before any time go nowhere. */
  lemma {:induction false} ScopeByLastStamp(host: seq<Line>, w: Window, i: nat)
    requires i < |host|
    ensures InScope(host, w, i) <==>
              exists j :: StampedLast(host, j, i) && w.t0 <= host[j].stamp.value <= w.t1
  {
    LastStampGoverns(host, i);
  }

  lemma {:induction false} LastStampGoverns(host: seq<Line>, i: nat)
    requires i < |host|
    ensures forall j | StampedLast(host, j, i) :: Governing(host, i) == host[j].stamp
    ensures Governing(host, i).Some? ==> exists j :: StampedLast(host, j, i)
  {
    if host[i].stamp.Some? {
      assert StampedLast(host, i, i);
    } else if i > 0 {
      LastStampGoverns(host, i - 1);
      forall j
        ensures StampedLast(host, j, i) <==> StampedLast(host, j, i - 1)
      {
      }
      if Governing(host, i).Some? {
        var j :| StampedLast(host, j, i - 1);
        assert StampedLast(host, j, i);
      }
    }
  }

  /** The window after one more client line. */
  lemma OneLineWider(client: seq<Line>, l: Line, before: Option<Window>, after: Option<Window>)
    requires before.None? ==> forall k | k in client :: k.stamp.None?
    requires before.Some? ==> WindowOf(client, before.value)
    requires l.stamp.None? ==> after == before
    requires l.stamp.Some? ==>
               && after.Some?
               && var t, end := l.stamp.value, l.stamp.value + 500;
                  if before.None? then after.value == Window(t, end)
                  else && after.value.t0 == (if t < before.value.t0 then t else before.value.t0)
                       && after.value.t1 == (if end > before.value.t1 then end else before.value.t1)
    ensures after.None? <==> forall k | k in client + [l] :: k.stamp.None?
    ensures after.Some? ==> WindowOf(client + [l], after.value)
  {
    assert l in client + [l];
    if before.Some? {
      var first :| first in client && first.stamp == Some(before.value.t0);
      var last :| last in client && last.stamp.Some? && last.stamp.value + 500 == before.value.t1;
      assert first in client + [l] && last in client + [l];
    }
  }

  method ClientWindow(client: seq<Line>) returns (w: Option<Window>)
    ensures w.None? <==> forall l | l in client :: l.stamp.None?
    ensures w.Some? ==> WindowOf(client, w.value)
  {
    w := None;
    for i := 0 to |client|
      invariant w.None? <==> forall l | l in client[..i] :: l.stamp.None?
      invariant w.Some? ==> WindowOf(client[..i], w.value)
    {
      var l := client[i];
      assert client[..i + 1] == client[..i] + [l];
      ghost var before := w;
      match l.stamp {
        case None =>
        case Some(t) =>
          var end := t + WINDOW_TAIL_MS;
          w := Some(match w
                    case None => Window(t, end)
                    case Some(v) => Window(if t < v.t0 then t else v.t0, if end > v.t1 then end else v.t1));
      }
      OneLineWider(client[..i], l, before, w);
    }
    assert client[..|client|] == client;
  }

  /** What one more host line adds to the scope. */
  lemma ScopeStep(host: seq<Line>, w: Window, i: nat)
    requires i < |host|
    ensures InScope(host, w, i) <==>
              if host[i].stamp.Some? then InWindow(w, host[i].stamp.value) else i > 0 && InScope(host, w, i - 1)
    ensures LinesAt(host, ScopeOf(host, w, i + 1))
         == LinesAt(host, ScopeOf(host, w, i)) + if InScope(host, w, i) then [host[i]] else []
  {
    if InScope(host, w, i) { OneLineMore(host, ScopeOf(host, w, i), i); }
  }

  lemma OneLineMore(host: seq<Line>, indices: seq<nat>, i: nat)
    requires i < |host| && forall k | 0 <= k < |indices| :: indices[k] < |host|
    ensures LinesAt(host, indices + [i]) == LinesAt(host, indices) + [host[i]]
  {
  }

  /** The host lines of this client's window; all of them, and no window, if the client log carries
      no time. */
  method ScopeHostToClient(host: seq<Line>, client: seq<Line>) returns (scoped: seq<Line>, w: Option<Window>)
    ensures w.None? <==> forall l | l in client :: l.stamp.None?
    ensures w.None? ==> scoped == host
    ensures w.Some? ==> WindowOf(client, w.value) && scoped == LinesAt(host, ScopeOf(host, w.value, |host|))
  {
    w := ClientWindow(client);
    if w.None? { return host, None; }
    scoped := [];
    var inside := false;
    for i := 0 to |host|
      invariant inside <==> i > 0 && InScope(host, w.value, i - 1)
      invariant scoped == LinesAt(host, ScopeOf(host, w.value, i))
    {
      ScopeStep(host, w.value, i);
      if host[i].stamp.Some? {
        inside := InWindow(w.value, host[i].stamp.value);
      }
      if inside {
        scoped := scoped + [host[i]];
      }
    }
  }

  /** Clients whose windows do not meet never share a host line; if they meet, some host log has a
      line that both claim. */
  lemma ScopesDisjointExactly(v: Window, w: Window)
    requires v.t0 <= v.t1 && w.t0 <= w.t1
    ensures Disjoint(v, w)
       <==> (forall host: seq<Line>, i: nat | i < |host| :: !(InScope(host, v, i) && InScope(host, w, i)))
  {
    if !Disjoint(v, w) {
      var host := [Line("", Some(if v.t0 < w.t0 then w.t0 else v.t0))];
      assert Governing(host, 0) == host[0].stamp;
      assert InScope(host, v, 0) && InScope(host, w, 0);
    }
  }

  /** Every stamp of the one client, and the tail, comes before every stamp of the other. */
  predicate EndsBefore(first: seq<Line>, second: seq<Line>) {
    forall k, l | k in first && l in second && k.stamp.Some? && l.stamp.Some? ::
      k.stamp.value + 500 < l.stamp.value
  }

  /** Two client logs never claim the same line of a host log exactly when all stamps of one, with the
      tail, come before all stamps of the other: that one client ran after the other is not enough. */
  lemma ClientsApartExactly(c: seq<Line>, v: Window, d: seq<Line>, w: Window)
    requires WindowOf(c, v) && WindowOf(d, w)
    ensures EndsBefore(c, d) || EndsBefore(d, c)
       <==> (forall host: seq<Line>, i: nat | i < |host| :: !(InScope(host, v, i) && InScope(host, w, i)))
  {
    WindowsByStamps(c, v, d, w);
    WindowsByStamps(d, w, c, v);
    WindowHasTail(c, v);
    WindowHasTail(d, w);
    ScopesDisjointExactly(v, w);
  }

  lemma WindowsByStamps(c: seq<Line>, v: Window, d: seq<Line>, w: Window)
    requires WindowOf(c, v) && WindowOf(d, w)
    ensures EndsBefore(c, d) <==> v.t1 < w.t0
  {
    var last :| last in c && last.stamp.Some? && last.stamp.value + WINDOW_TAIL_MS == v.t1;
    var first :| first in d && first.stamp == Some(w.t0);
  }

  lemma WindowHasTail(c: seq<Line>, v: Window)
    requires WindowOf(c, v)
    ensures v.t0 + WINDOW_TAIL_MS <= v.t1
  {
    var first :| first in c && first.stamp == Some(v.t0);
  }

  /** A client that runs over midnight claims the lines of every client with a stamp between its
      least and its greatest time of day, however much later that one ran. */
  lemma MidnightClientClaims(evening: nat, morning: nat, later: nat)
    requires morning <= later <= evening < 86400000
    ensures var c, d := [Line("", Some(evening)), Line("", Some(morning))], [Line("", Some(later))];
            var v, w := Window(morning, evening + WINDOW_TAIL_MS), Window(later, later + WINDOW_TAIL_MS);
            && WindowOf(c, v) && WindowOf(d, w) && !EndsBefore(c, d) && !EndsBefore(d, c)
            && InScope(d, v, 0) && InScope(d, w, 0)
  {
    var c, d := [Line("", Some(evening)), Line("", Some(morning))], [Line("", Some(later))];
    assert c[0] in c && c[1] in c && d[0] in d;
    assert Governing(d, 0) == Some(later);
  }

  /** Two seconds around midnight, and a client that starts five minutes later. */
  lemma MidnightWitness()
    ensures var c := [Line("", Some(86399000)), Line("", Some(1000))];
            var d := [Line("", Some(300000))];
            !EndsBefore(c, d) && !EndsBefore(d, c)
  {
    MidnightClientClaims(86399000, 1000, 300000);
  }
}
