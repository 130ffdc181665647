/** The committed call graph and its walk (tools/call_graph.py). */
module CallGraph {

  type Graph = map<string, set<string>>

  predicate Edge(g: Graph, a: string, b: string) {
    a in g && b in g[a]
  }

  // ---- what reaching means ------------------------------------------------------------------

  /** A walk along edges from a root. */
  ghost predicate Walk(g: Graph, roots: set<string>, p: seq<string>) {
    && p != [] && p[0] in roots
    && forall k | 0 <= k < |p| - 1 :: Edge(g, p[k], p[k + 1])
  }

  ghost predicate Reaches(g: Graph, roots: set<string>, x: string) {
    exists p :: Walk(g, roots, p) && p[|p| - 1] == x
  }

  lemma RootReached(g: Graph, roots: set<string>, x: string)
    requires x in roots
    ensures Reaches(g, roots, x)
  {
    assert Walk(g, roots, [x]) && [x][|[x]| - 1] == x;
  }

  lemma EdgeReached(g: Graph, roots: set<string>, x: string, y: string)
    requires Reaches(g, roots, x) && Edge(g, x, y)
    ensures Reaches(g, roots, y)
  {
    var p :| Walk(g, roots, p) && p[|p| - 1] == x;
    var q := p + [y];
    forall k | 0 <= k < |q| - 1
      ensures Edge(g, q[k], q[k + 1])
    {
      if k < |p| - 1 { assert Edge(g, p[k], p[k + 1]); }
    }
    assert Walk(g, roots, q) && q[|q| - 1] == y;
  }

  /** A set that holds the roots and is closed under edges holds every walk. */
  lemma {:induction false} WalkStaysIn(g: Graph, roots: set<string>, s: set<string>, p: seq<string>)
    requires roots <= s && (forall a, b | a in s && Edge(g, a, b) :: b in s)
    requires Walk(g, roots, p)
    ensures p[|p| - 1] in s
    decreases |p|
  {
    if |p| > 1 {
      var init := p[..|p| - 1];
      forall k | 0 <= k < |init| - 1
        ensures Edge(g, init[k], init[k + 1])
      {
        assert Edge(g, p[k], p[k + 1]);
      }
      WalkStaysIn(g, roots, s, init);
      assert Edge(g, p[|p| - 2], p[|p| - 1]);
    }
  }

  // ---- the walk -----------------------------------------------------------------------------

  function Targets(g: Graph): set<string> {
    set a, b | a in g && b in g[a] :: b
  }

  function AsSet(s: seq<string>): set<string> {
    set x | x in s
  }

  function Succ(g: Graph, a: string): set<string> {
    if a in g then g[a] else {}
  }

  /** Every successor not seen yet is queued, in whatever order they come. */
  method Expand(g: Graph, cur: string, seen0: set<string>, q0: seq<string>) returns (seen: set<string>, q: seq<string>)
    ensures seen == seen0 + Succ(g, cur) && q0 <= q
    ensures forall x :: x in q <==> x in q0 || x in Succ(g, cur) - seen0
    ensures seen == seen0 ==> q == q0
  {
    seen, q := seen0, q0;
    var rest := Succ(g, cur);
    while rest != {}
      invariant rest <= Succ(g, cur)
      invariant seen == seen0 + (Succ(g, cur) - rest) && q0 <= q
      invariant forall x :: x in q <==> x in q0 || x in Succ(g, cur) - rest - seen0
      invariant seen == seen0 ==> q == q0
    {
      var nxt :| nxt in rest;
      rest := rest - {nxt};
      if nxt !in seen {
        seen := seen + {nxt};
        q := q + [nxt];
      }
    }
  }

  /** Everything seen has been reached, and what is not waiting in the queue has been expanded. */
  ghost predicate Walking(g: Graph, start: set<string>, seen: set<string>, q: seq<string>) {
    && start <= seen <= start + Targets(g)
    && (forall x | x in q :: x in seen)
    && (forall x | x in seen :: Reaches(g, start, x))
    && (forall a | a in seen && a !in q :: Succ(g, a) <= seen)
  }

  lemma WalkingOn(g: Graph, start: set<string>, seen0: set<string>, q0: seq<string>, seen: set<string>, q: seq<string>)
    requires Walking(g, start, seen0, q0) && q0 != []
    requires seen == seen0 + Succ(g, q0[0])
    requires forall x :: x in q <==> x in q0[1..] || x in Succ(g, q0[0]) - seen0
    ensures Walking(g, start, seen, q)
  {
    var cur := q0[0];
    assert q0 == [cur] + q0[1..];
    forall x | x in Succ(g, cur)
      ensures Reaches(g, start, x) && x in Targets(g)
    {
      EdgeReached(g, start, cur, x);
    }
    forall a | a in seen && a !in q
      ensures Succ(g, a) <= seen
    {
      if a != cur { assert a in seen0 && a !in q0; }
    }
  }

  lemma WalkingStart(g: Graph, roots: seq<string>)
    ensures Walking(g, AsSet(roots), AsSet(roots), roots)
  {
    forall x | x in roots { RootReached(g, AsSet(roots), x); }
  }

  /** `reachable`: a queue of vertices to expand, and the set of those ever queued. */
  method Reachable(roots: seq<string>, g: Graph) returns (seen: set<string>)
    ensures forall x :: x in seen <==> Reaches(g, AsSet(roots), x)
  {
    ghost var start := AsSet(roots);
    seen := AsSet(roots);
    var q := roots;
    WalkingStart(g, roots);
    while q != []
      invariant Walking(g, start, seen, q)
      decreases start + Targets(g) - seen, |q|
    {
      ghost var seen0, q0 := seen, q;
      seen, q := Expand(g, q[0], seen, q[1..]);
      WalkingOn(g, start, seen0, q0, seen, q);
    }
    WalkedIsReached(g, start, seen);
  }

  lemma WalkedIsReached(g: Graph, start: set<string>, seen: set<string>)
    requires Walking(g, start, seen, [])
    ensures forall x :: x in seen <==> Reaches(g, start, x)
  {
    forall x | Reaches(g, start, x)
      ensures x in seen
    {
      var p :| Walk(g, start, p) && p[|p| - 1] == x;
      WalkStaysIn(g, start, seen, p);
    }
  }

  // ---- closure laws -------------------------------------------------------------------------

  /** More roots and more edges reach at least as much. */
  lemma ReachesMonotone(g: Graph, h: Graph, roots: set<string>, more: set<string>, x: string)
    requires roots <= more && (forall a, b | Edge(g, a, b) :: Edge(h, a, b))
    requires Reaches(g, roots, x)
    ensures Reaches(h, more, x)
  {
    var p :| Walk(g, roots, p) && p[|p| - 1] == x;
    assert Walk(h, more, p);
  }

  /** Walking on from what was reached reaches nothing new. */
  lemma ReachesIdempotent(g: Graph, roots: set<string>, reached: set<string>, x: string)
    requires forall y :: y in reached <==> Reaches(g, roots, y)
    ensures Reaches(g, reached, x) <==> x in reached
  {
    if Reaches(g, reached, x) {
      var p :| Walk(g, reached, p) && p[|p| - 1] == x;
      forall a, b | a in reached && Edge(g, a, b)
        ensures b in reached
      {
        EdgeReached(g, roots, a, b);
      }
      WalkStaysIn(g, reached, reached, p);
    }
    if x in reached { RootReached(g, reached, x); }
  }

  // ---- load_graph: three edge sources -------------------------------------------------------

  datatype Link = Link(source: string, target: string)
  datatype TailJump = TailJump(source: string, reaches: seq<string>)

  /** A record of the fall-through file: its keys and their values. */
  type Record = map<string, string>

  function AddEdge(g: Graph, a: string, b: string): (h: Graph)
    ensures forall x, y :: Edge(h, x, y) <==> Edge(g, x, y) || (x == a && y == b)
  {
    g[a := (if a in g then g[a] else {}) + {b}]
  }

  function Lower(s: string): string {
    if s == "" then ""
    else [if 'A' <= s[0] <= 'Z' then s[0] - 'A' + 'a' else s[0]] + Lower(s[1..])
  }

  /** `s.lstrip("0x")`: every leading `0` and `x`, not the prefix. */
  function DropZeros(s: string): string {
    if s == "" || !(s[0] == '0' || s[0] == 'x') then s else DropZeros(s[1..])
  }

  function Zeros(n: nat): (z: string)
    ensures |z| == n && forall i | 0 <= i < n :: z[i] == '0'
  {
    seq(n, _ => '0')
  }

  function ZFill(s: string): string {
    if |s| >= 8 then s else Zeros(8 - |s|) + s
  }

  /** The vertex an address of the fall-through file names, if any. */
  function Stripped(address: string): string {
    DropZeros(Lower(address))
  }

  /** The value of the first key, unless it is missing or empty; then that of the second, if any. */
  function Chosen(p: Record, first: string, second: string): string {
    if first in p && p[first] != "" then p[first]
    else if second in p then p[second]
    else ""
  }

  function Source(p: Record): string {
    Stripped(Chosen(p, "from", "src"))
  }

  function Target(p: Record): string {
    Stripped(Chosen(p, "to", "dst"))
  }

  /** The record stands for the edge from `a` to `b`. */
  predicate RecordEdge(p: Record, a: string, b: string) {
    Source(p) != "" && Target(p) != "" && ZFill(Source(p)) == a && ZFill(Target(p)) == b
  }

  ghost predicate FallsThrough(pairs: seq<Record>, a: string, b: string) {
    exists p :: p in pairs && RecordEdge(p, a, b)
  }

  lemma {:induction false} OneMoreRecord(pairs: seq<Record>, p: Record)
    ensures forall a, b :: FallsThrough(pairs + [p], a, b) <==> FallsThrough(pairs, a, b) || RecordEdge(p, a, b)
  {
    assert p in pairs + [p];
  }

  ghost predicate Jumps(jumps: seq<TailJump>, a: string, b: string) {
    exists j :: j in jumps && j.source == a && b in j.reaches
  }

  /** The edges of the loaded graph are those of its three sources and no others. */
  ghost predicate Loaded(g: Graph, links: seq<Link>, jumps: seq<TailJump>, pairs: seq<Record>, tailJumps: bool) {
    forall a, b :: Edge(g, a, b) <==>
      Link(a, b) in links || (tailJumps && Jumps(jumps, a, b)) || FallsThrough(pairs, a, b)
  }

  lemma OneMoreJump(jumps: seq<TailJump>, e: TailJump)
    ensures forall a, b :: Jumps(jumps + [e], a, b) <==> Jumps(jumps, a, b) || (e.source == a && b in e.reaches)
  {
    assert e in jumps + [e];
  }

  /** One tail jump: an edge to everything its landing code calls. */
  method AddReaches(g: Graph, e: TailJump) returns (h: Graph)
    ensures forall a, b :: Edge(h, a, b) <==> Edge(g, a, b) || (e.source == a && b in e.reaches)
  {
    h := g;
    for k := 0 to |e.reaches|
      invariant forall a, b :: Edge(h, a, b) <==> Edge(g, a, b) || (e.source == a && b in e.reaches[..k])
    {
      assert e.reaches[..k + 1] == e.reaches[..k] + [e.reaches[k]];
      h := AddEdge(h, e.source, e.reaches[k]);
    }
    assert e.reaches[..|e.reaches|] == e.reaches;
  }

  /** One fall-through record: an edge if both of its addresses are there and something is left of them. */
  method AddRecord(g: Graph, p: Record) returns (h: Graph)
    ensures forall a, b :: Edge(h, a, b) <==> Edge(g, a, b) || RecordEdge(p, a, b)
  {
    var a := if "from" in p then p["from"] else "";
    if a == "" && "src" in p { a := p["src"]; }
    var b := if "to" in p then p["to"] else "";
    if b == "" && "dst" in p { b := p["dst"]; }
    a, b := DropZeros(Lower(a)), DropZeros(Lower(b));
    h := if a != "" && b != "" then AddEdge(g, ZFill(a), ZFill(b)) else g;
  }

  method LoadGraph(links: seq<Link>, jumps: seq<TailJump>, pairs: seq<Record>, tailJumps: bool) returns (g: Graph)
    ensures Loaded(g, links, jumps, pairs, tailJumps)
  {
    g := map[];
    for i := 0 to |links|
      invariant forall a, b :: Edge(g, a, b) <==> Link(a, b) in links[..i]
    {
      assert links[..i + 1] == links[..i] + [links[i]];
      g := AddEdge(g, links[i].source, links[i].target);
    }
    assert links[..|links|] == links;
    if tailJumps {
      for i := 0 to |jumps|
        invariant forall a, b :: Edge(g, a, b) <==> Link(a, b) in links || Jumps(jumps[..i], a, b)
      {
        assert jumps[..i + 1] == jumps[..i] + [jumps[i]];
        g := AddReaches(g, jumps[i]);
        OneMoreJump(jumps[..i], jumps[i]);
      }
      assert jumps[..|jumps|] == jumps;
    }
    for i := 0 to |pairs|
      invariant forall a, b :: Edge(g, a, b) <==>
                  Link(a, b) in links || (tailJumps && Jumps(jumps, a, b)) || FallsThrough(pairs[..i], a, b)
    {
      assert pairs[..i + 1] == pairs[..i] + [pairs[i]];
      OneMoreRecord(pairs[..i], pairs[i]);
      g := AddRecord(g, pairs[i]);
    }
    assert pairs[..|pairs|] == pairs;
  }

  /** A walk that knows the tail jumps reaches at least what a walk without them reaches. */
  lemma TailJumpsOnlyAdd(g: Graph, h: Graph, links: seq<Link>, jumps: seq<TailJump>, pairs: seq<Record>,
                         roots: set<string>, x: string)
    requires Loaded(g, links, jumps, pairs, false) && Loaded(h, links, jumps, pairs, true)
    requires Reaches(g, roots, x)
    ensures Reaches(h, roots, x)
  {
    ReachesMonotone(g, h, roots, roots, x);
  }

  predicate IsId(s: string) {
    |s| == 8 && forall i | 0 <= i < 8 :: '0' <= s[i] <= '9' || 'a' <= s[i] <= 'f'
  }

  lemma {:induction false} ZerosComeBack(s: string)
    requires |s| <= 8 && forall i | 0 <= i < |s| :: s[i] != 'x'
    ensures |DropZeros(s)| <= |s|
    ensures Zeros(|s| - |DropZeros(s)|) + DropZeros(s) == s
  {
    if s != "" && s[0] == '0' {
      ZerosComeBack(s[1..]);
      OneZeroMore(|s| - |DropZeros(s)|, DropZeros(s), s);
    } else {
      assert Zeros(0) + s == s;
    }
  }

  lemma OneZeroMore(k: nat, rest: string, s: string)
    requires k > 0 && s != "" && s[0] == '0' && Zeros(k - 1) + rest == s[1..]
    ensures Zeros(k) + rest == s
  {
    assert Zeros(k) == ['0'] + Zeros(k - 1);
    assert s == ['0'] + s[1..];
  }

  /** A digit of an id, in either case. */
  predicate SameDigit(c: char, d: char) {
    c == d || ('a' <= d <= 'f' && c as int == d as int - 32)
  }

  /** `tail` spells the id from place `j` on, and before that the id has zeros only. */
  predicate SpellsFrom(tail: string, id: string, j: int) {
    && IsId(id) && 0 <= j <= 8 && |tail| == 8 - j
    && (forall k | 0 <= k < j :: id[k] == '0')
    && forall k | 0 <= k < |tail| :: SameDigit(tail[k], id[j + k])
  }

  /** The address names the vertex: the digits of its id in either case, leading zeros or not, bare or
      after a `0x`. */
  ghost predicate Spells(address: string, id: string) {
    || (exists j :: SpellsFrom(address, id, j))
    || (|address| >= 2 && (address[..2] == "0x" || address[..2] == "0X") && exists j :: SpellsFrom(address[2..], id, j))
  }

  /** Stripping and refilling gives the id back from each of its spellings, except that address 0
      gives no vertex at all. */
  lemma {:induction false} AddressNamesItsVertex(address: string, id: string)
    requires Spells(address, id)
    ensures Stripped(address) == "" <==> id == "00000000"
    ensures Stripped(address) != "" ==> ZFill(Stripped(address)) == id
  {
    if j :| SpellsFrom(address, id, j) {
      TailStripped(address, id, j);
    } else {
      var tail := address[2..];
      var j :| SpellsFrom(tail, id, j);
      TailStripped(tail, id, j);
      LowerOfPrefixed(address);
      PrefixDropped(Lower(tail));
    }
    RefilledId(id);
  }

  lemma {:induction false} LowerOfPrefixed(address: string)
    requires |address| >= 2 && (address[..2] == "0x" || address[..2] == "0X")
    ensures Lower(address) == "0x" + Lower(address[2..])
  {
    assert address[0] == address[..2][0] && address[1] == address[..2][1];
    assert Lower(address) == ['0'] + Lower(address[1..]) && address[1..][1..] == address[2..];
    assert Lower(address[1..]) == ['x'] + Lower(address[2..]);
  }

  lemma {:induction false} TailStripped(tail: string, id: string, j: int)
    requires SpellsFrom(tail, id, j)
    ensures Stripped(tail) == DropZeros(id)
  {
    LowerAt(tail);
    assert Lower(tail) == id[j..];
    ZerosDropped(id, j);
  }

  lemma {:induction false} ZerosDropped(id: string, j: nat)
    requires j <= |id| && forall k | 0 <= k < j :: id[k] == '0'
    ensures DropZeros(id) == DropZeros(id[j..])
    decreases j
  {
    if j > 0 {
      ZerosDropped(id[1..], j - 1);
      assert id[1..][j - 1..] == id[j..];
    } else {
      assert id[0..] == id;
    }
  }

  lemma {:induction false} RefilledId(id: string)
    requires IsId(id)
    ensures DropZeros(id) == "" <==> id == "00000000"
    ensures ZFill(DropZeros(id)) == id
  {
    ZerosComeBack(id);
    StrippedAway(id);
    NothingButZeros(id);
  }

  lemma NothingButZeros(id: string)
    requires IsId(id)
    ensures id == "00000000" <==> forall i | 0 <= i < 8 :: id[i] == '0' || id[i] == 'x'
  {
    assert forall i | 0 <= i < 8 :: id[i] != 'x';
  }

  lemma {:induction false} PrefixDropped(id: string)
    ensures DropZeros("0x" + id) == DropZeros(id)
  {
    var long, short := "0x" + id, "x" + id;
    assert long[0] == '0' && long[1..] == short;
    assert short[0] == 'x' && short[1..] == id;
  }

  /** Nothing is left exactly of a text of zeros and `x` only. */
  lemma {:induction false} StrippedAway(s: string)
    ensures DropZeros(s) == "" <==> forall i | 0 <= i < |s| :: s[i] == '0' || s[i] == 'x'
  {
    if s != "" {
      StrippedAway(s[1..]);
      assert forall i | 1 <= i < |s| :: s[i] == s[1..][i - 1];
    }
  }

  lemma {:induction false} LowerAt(s: string)
    ensures |Lower(s)| == |s|
    ensures forall i | 0 <= i < |s| :: Lower(s)[i] == if 'A' <= s[i] <= 'Z' then s[i] - 'A' + 'a' else s[i]
  {
    if s != "" { LowerAt(s[1..]); }
  }

  /** The address that a record gives under two keys: the first if it is there and not empty. */
  predicate Gives(p: Record, first: string, second: string, address: string) {
    || (first in p && p[first] != "" && address == p[first])
    || ((first !in p || p[first] == "") && second in p && address == p[second])
  }

  /** A record whose addresses spell two vertices is the edge between them. */
  lemma {:induction false} RecordIsEdge(p: Record, source: string, target: string, a: string, b: string)
    requires Gives(p, "from", "src", source) && Spells(source, a) && a != "00000000"
    requires Gives(p, "to", "dst", target) && Spells(target, b) && b != "00000000"
    ensures forall x, y :: RecordEdge(p, x, y) <==> x == a && y == b
  {
    AddressNamesItsVertex(source, a);
    AddressNamesItsVertex(target, b);
  }

  /** The text holds something but zeros and `x`. */
  predicate Telling(s: string) {
    exists i :: 0 <= i < |s| && s[i] !in "0xX"
  }

  lemma TellingIsKept(s: string)
    ensures Telling(s) <==> Stripped(s) != ""
  {
    LowerAt(s);
    StrippedAway(Lower(s));
    if i :| 0 <= i < |s| && s[i] !in "0xX" {
      assert Lower(s)[i] != '0' && Lower(s)[i] != 'x';
    }
  }

  /** When the third source adds nothing at all: no record has a telling address under `from` or
      `src` and another under `to` or `dst`. */
  lemma FallThroughsEmptyExactly(pairs: seq<Record>)
    ensures (forall a, b :: !FallsThrough(pairs, a, b))
       <==> (forall p | p in pairs :: !(Telling(Chosen(p, "from", "src")) && Telling(Chosen(p, "to", "dst"))))
  {
    forall p | p in pairs
      ensures RecordEdge(p, ZFill(Source(p)), ZFill(Target(p)))
         <==> Telling(Chosen(p, "from", "src")) && Telling(Chosen(p, "to", "dst"))
    {
      TellingIsKept(Chosen(p, "from", "src"));
      TellingIsKept(Chosen(p, "to", "dst"));
    }
    if forall a, b :: !FallsThrough(pairs, a, b) {
      forall p | p in pairs
        ensures !RecordEdge(p, ZFill(Source(p)), ZFill(Target(p)))
      {
        assert !FallsThrough(pairs, ZFill(Source(p)), ZFill(Target(p)));
      }
    }
  }

  /** The record has neither of the two keys of an address: the committed records, which spell their
      keys `from_addr` and `to_addr`, are all like this. */
  predicate Unread(p: Record) {
    ("from" !in p && "src" !in p) || ("to" !in p && "dst" !in p)
  }

  /** A file of unread records leaves the graph as if there were no such file. */
  lemma UnreadRecordsAddNothing(g: Graph, links: seq<Link>, jumps: seq<TailJump>, pairs: seq<Record>,
                                tailJumps: bool)
    requires forall p | p in pairs :: Unread(p)
    ensures Loaded(g, links, jumps, pairs, tailJumps) <==> Loaded(g, links, jumps, [], tailJumps)
  {
    FallThroughsEmptyExactly(pairs);
    assert forall a, b :: !FallsThrough([], a, b);
  }

  /** It is the keys alone: any two addresses that would be an edge under the keys looked up are
      none under the committed ones. */
  lemma CommittedKeysAreUnread(a: string, b: string)
    requires IsId(a) && IsId(b) && a != "00000000" && b != "00000000"
    ensures RecordEdge(map["from" := a, "to" := b], a, b)
    ensures Unread(map["from_addr" := a, "to_addr" := b])
  {
    assert SpellsFrom(a, a, 0) && SpellsFrom(b, b, 0);
    RecordIsEdge(map["from" := a, "to" := b], a, b, a, b);
  }
}
