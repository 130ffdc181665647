/** The fail-closed derivation of a public `.gitignore` or `.gitattributes`
    (tools/build_public_seed.py): parse, partition by a disposition table, group, print. */
module SeedConfig {
  import opened Arithmetic
  import opened Options
  import opened Sequences

  // ---- Python's lines and blanks ------------------------------------------------------------

  predicate IsBreak(c: char) {
    || '\n' <= c <= '\r'                       // newline, vertical tab, form feed, carriage return
    || '\U{1C}' <= c <= '\U{1E}'
    || c == '\U{85}' || c == '\U{2028}' || c == '\U{2029}'
  }

  predicate IsSpace(c: char) {
    || IsBreak(c)
    || c == '\t' || c == ' ' || c == '\U{1F}' || c == '\U{A0}' || c == '\U{1680}'
    || '\U{2000}' <= c <= '\U{200A}'
    || c == '\U{202F}' || c == '\U{205F}' || c == '\U{3000}'
  }

  /** The length of the first line. */
  function LineLength(s: string): (k: nat)
    ensures k <= |s| && (forall i | 0 <= i < k :: !IsBreak(s[i])) && (k < |s| ==> IsBreak(s[k]))
  {
    if s == "" || IsBreak(s[0]) then 0 else 1 + LineLength(s[1..])
  }

  /** The length of the break a text starts with: a carriage return takes its newline along. */
  function BreakLength(s: string): (n: nat)
    ensures n <= |s| && (s != "" ==> n > 0)
  {
    if s == "" then 0
    else if |s| > 1 && s[0] == '\r' && s[1] == '\n' then 2 else 1
  }

  function Rest(s: string): string {
    s[LineLength(s)..][BreakLength(s[LineLength(s)..])..]
  }

  /** `text.splitlines()`. */
  function SplitLines(s: string): seq<string>
    decreases |s|
  {
    if s == "" then [] else [s[..LineLength(s)]] + SplitLines(Rest(s))
  }

  function RStrip(s: string): (r: string)
    ensures r <= s
  {
    if s == "" || !IsSpace(s[|s| - 1]) then s else RStrip(s[..|s| - 1])
  }

  function LStrip(s: string): string {
    if s == "" || !IsSpace(s[0]) then s else LStrip(s[1..])
  }

  function Strip(s: string): string {
    LStrip(RStrip(s))
  }

  // ---- parse_entries ------------------------------------------------------------------------

  /** Neither blank nor a comment. */
  predicate IsRule(line: string) {
    var s := Strip(line);
    s != "" && s[0] != '#'
  }

  function RulesIn(lines: seq<string>): seq<string> {
    if lines == [] then []
    else FirstRule(lines[0]) + RulesIn(lines[1..])
  }

  /** The rules of a text. */
  function Rules(text: string): seq<string> {
    RulesIn(SplitLines(text))
  }

  lemma OneLineMoreRules(lines: seq<string>, i: nat)
    requires i < |lines|
    ensures RulesIn(lines[..i + 1]) == RulesIn(lines[..i]) + FirstRule(lines[i])
  {
    RulesInAppend(lines[..i], [lines[i]]);
    PrefixSnoc(lines, i);
    assert [lines[i]][1..] == [];
    EmptyAppend(FirstRule(lines[i]));
  }

  method ParseEntries(text: string) returns (out: seq<string>)
    ensures out == Rules(text)
  {
    out := [];
    var lines := SplitLines(text);
    for i := 0 to |lines|
      invariant out == RulesIn(lines[..i])
    {
      OneLineMoreRules(lines, i);
      var s := Strip(lines[i]);
      if s == "" || s[0] == '#' { continue; }
      out := out + [RStrip(lines[i])];
    }
    assert lines[..|lines|] == lines;
  }

  lemma {:induction false} RulesInAppend(a: seq<string>, b: seq<string>)
    ensures RulesIn(a + b) == RulesIn(a) + RulesIn(b)
  {
    if a == [] {
      EmptyAppend(b);
      EmptyAppend(RulesIn(b));
    } else {
      RulesInAppend(a[1..], b);
      TailOfAppend(a, b);
      Associates(FirstRule(a[0]), RulesIn(a[1..]), RulesIn(b));
    }
  }

  function Glue(a: string, b: string): string {
    a + "\n" + b
  }

  lemma GlueTail(a: string, b: string, k: nat)
    requires k <= |a|
    ensures Glue(a, b)[k..] == Glue(a[k..], b) && Glue(a, b)[..k] == a[..k]
  {
  }

  lemma GlueBreak(tail: string, b: string)
    requires tail != "" && IsBreak(tail[0])
    ensures Glue(tail, b)[BreakLength(Glue(tail, b))..]
         == if tail == "\r" then b else Glue(tail[BreakLength(tail)..], b)
  {
    if tail == "\r" {
      assert Glue(tail, b)[2..] == b;
    } else {
      GlueTail(tail, b, BreakLength(tail));
    }
  }

  /** The glued text breaks where the first text does, until that is used up. */
  lemma {:induction false} RestOfGlued(a: string, b: string)
    ensures var k := LineLength(a);
            && LineLength(Glue(a, b)) == k
            && Glue(a, b)[..k] == a[..k]
            && Rest(Glue(a, b)) == if k == |a| || a[k..] == "\r" then b else Glue(Rest(a), b)
  {
    var k := LineLength(a);
    FirstLineOfGlued(a, b);
    GlueTail(a, b, k);
    if k == |a| {
      assert Glue("", b)[1..] == b;
    } else {
      GlueBreak(a[k..], b);
    }
  }

  lemma {:induction false} NothingAfterLast(a: string)
    requires LineLength(a) == |a| || a[LineLength(a)..] == "\r"
    ensures Rest(a) == ""
  {
    var tail := a[LineLength(a)..];
    assert (tail == "" || tail == "\r") && BreakLength(tail) == |tail| && Rest(a) == tail[|tail|..];
  }

  lemma {:induction false} LastLine(a: string)
    requires LineLength(a) == |a| || a[LineLength(a)..] == "\r"
    ensures Rest(a) == "" && Rules(a) == FirstRule(a[..LineLength(a)])
  {
    NothingAfterLast(a);
    BlankIsNoRule();
    if a == "" {
      assert a[..LineLength(a)] == "";
    } else {
      RulesOfFirst(a);
      EmptyAppend(FirstRule(a[..LineLength(a)]));
    }
  }

  lemma {:induction false} OneLineGlued(a: string, b: string)
    requires LineLength(a) == |a| || a[LineLength(a)..] == "\r"
    ensures Rules(Glue(a, b)) == Rules(a) + Rules(b)
  {
    RestOfGlued(a, b);
    RulesOfFirst(Glue(a, b));
    LastLine(a);
  }

  lemma {:induction false} LongerGlued(a: string, b: string)
    requires LineLength(a) < |a| && a[LineLength(a)..] != "\r"
    requires Rules(Glue(Rest(a), b)) == Rules(Rest(a)) + Rules(b)
    ensures Rules(Glue(a, b)) == Rules(a) + Rules(b)
  {
    RestOfGlued(a, b);
    RulesOfFirst(Glue(a, b));
    RulesOfFirst(a);
    Associates(FirstRule(a[..LineLength(a)]), Rules(Rest(a)), Rules(b));
  }

  /** Gluing two texts with a newline glues their rules, even when the first ends in a carriage
      return or in a newline of its own. */
  lemma {:induction false} GluedRules(a: string, b: string)
    ensures Rules(Glue(a, b)) == Rules(a) + Rules(b)
    decreases |a|
  {
    if LineLength(a) == |a| || a[LineLength(a)..] == "\r" {
      OneLineGlued(a, b);
    } else {
      GluedRules(Rest(a), b);
      LongerGlued(a, b);
    }
  }

  function FirstRule(line: string): seq<string> {
    if IsRule(line) then [RStrip(line)] else []
  }

  lemma BlankIsNoRule()
    ensures FirstRule("") == [] && Rules("") == []
  {
  }

  lemma RulesOfFirst(s: string)
    requires s != ""
    ensures Rules(s) == FirstRule(s[..LineLength(s)]) + Rules(Rest(s))
  {
    var line := s[..LineLength(s)];
    assert ([line] + SplitLines(Rest(s)))[1..] == SplitLines(Rest(s));
  }

  lemma {:induction false} FirstLineOfGlued(a: string, b: string)
    ensures LineLength(Glue(a, b)) == LineLength(a)
  {
    if a != "" && !IsBreak(a[0]) {
      FirstLineOfGlued(a[1..], b);
      GlueTail(a, b, 1);
    }
  }

  // ---- derive: the table, the partition and the printed file --------------------------------

  /** A disposition row; an absent reason, withholding rule or unproduced subject is empty. */
  datatype Row = Row(entry: string, keep: bool, group: string, why: string,
                     withheldBy: string, noProducer: string)

  datatype Group = Group(gid: string, title: string)
  datatype Spec = Spec(rows: seq<Row>, header: string, groups: seq<Group>, groupText: map<string, string>)

  datatype LedgerRule = LedgerRule(id: string, publishes: bool)

  /** The publish ledger, the rules that own a tracked path, and the tracked paths. */
  datatype Ledger = Ledger(rules: seq<LedgerRule>, owning: set<string>, tracked: seq<string>)

  function Collapse(s: string): string {
    if s == "" then ""
    else if !IsSpace(s[0]) then [s[0]] + Collapse(s[1..])
    else if |s| > 1 && IsSpace(s[1]) then Collapse(s[1..])
    else " " + Collapse(s[1..])
  }

  /** Rows and entries are matched up to the blanks that align columns. */
  function Key(entry: string): string {
    Collapse(Strip(entry))
  }

  predicate KeysDistinct(rows: seq<Row>) {
    forall i, j | 0 <= i < j < |rows| :: Key(rows[i].entry) != Key(rows[j].entry)
  }

  /** The row of an entry. */
  function RowFor(rows: seq<Row>, e: string): (r: Option<Row>)
    ensures r.Some? ==> r.value in rows && Key(r.value.entry) == Key(e)
    ensures r.None? ==> forall row | row in rows :: Key(row.entry) != Key(e)
  {
    if rows == [] then None
    else if Key(rows[0].entry) == Key(e) then Some(rows[0])
    else RowFor(rows[1..], e)
  }

  predicate IsKept(rows: seq<Row>, e: string) {
    RowFor(rows, e).Some? && RowFor(rows, e).value.keep
  }

  /** What the derivation sorts entries by. */
  datatype Class = ToKeep | ToDrop | OfGroup(gid: string)

  predicate Belongs(rows: seq<Row>, c: Class, e: string) {
    match c
    case ToKeep => IsKept(rows, e)
    case ToDrop => !IsKept(rows, e)
    case OfGroup(gid) => IsKept(rows, e) && RowFor(rows, e).value.group == gid
  }

  /** The entries of a class, in order. */
  function Select(rows: seq<Row>, c: Class, s: seq<string>): (r: seq<string>)
    ensures forall e :: e in r <==> e in s && Belongs(rows, c, e)
  {
    if s == [] then []
    else Select(rows, c, s[..|s| - 1]) + if Belongs(rows, c, s[|s| - 1]) then [s[|s| - 1]] else []
  }

  function Kept(rows: seq<Row>, entries: seq<string>): seq<string> {
    Select(rows, ToKeep, entries)
  }

  function Dropped(rows: seq<Row>, entries: seq<string>): seq<string> {
    Select(rows, ToDrop, entries)
  }

  function Members(rows: seq<Row>, entries: seq<string>, gid: string): seq<string> {
    Select(rows, OfGroup(gid), entries)
  }

  /** The kept entries group by group, each group in the order of the source. */
  function Bucketed(rows: seq<Row>, groups: seq<Group>, entries: seq<string>): seq<string> {
    if groups == [] then []
    else Members(rows, entries, groups[0].gid) + Bucketed(rows, groups[1..], entries)
  }

  function Heading(spec: Spec, g: Group): seq<string> {
    if g.gid in spec.groupText then [spec.groupText[g.gid]]
    else if g.title != "" then ["# " + g.title] else []
  }

  function GroupLines(spec: Spec, entries: seq<string>, g: Group): seq<string> {
    var members := Members(spec.rows, entries, g.gid);
    if members == [] then [] else Heading(spec, g) + members + [""]
  }

  function Body(spec: Spec, groups: seq<Group>, entries: seq<string>): seq<string> {
    if groups == [] then [] else GroupLines(spec, entries, groups[0]) + Body(spec, groups[1..], entries)
  }

  function Join(lines: seq<string>): string {
    if lines == [] then "" else if |lines| == 1 then lines[0] else Glue(lines[0], Join(lines[1..]))
  }

  /** `s.rstrip("\n")`. */
  function ChopNewlines(s: string): string {
    if s == "" || s[|s| - 1] != '\n' then s else ChopNewlines(s[..|s| - 1])
  }

  /** The derived file of a list of entries. */
  function Output(spec: Spec, entries: seq<string>): string {
    ChopNewlines(Join([ChopNewlines(spec.header), ""] + Body(spec, spec.groups, entries))) + "\n"
  }

  // ---- when the derivation succeeds ---------------------------------------------------------

  predicate Listed(rows: seq<Row>, entries: seq<string>) {
    forall e | e in entries :: RowFor(rows, e).Some?
  }

  predicate Used(row: Row, entries: seq<string>) {
    exists e :: e in entries && Key(e) == Key(row.entry)
  }

  predicate NoneStale(rows: seq<Row>, entries: seq<string>) {
    forall row | row in rows :: Used(row, entries)
  }

  /** A keep row declares no private subject and gives a reason. */
  predicate KeepHolds(row: Row) {
    row.withheldBy == "" && row.noProducer == "" && row.why != ""
  }

  function LedgerRuleFor(rules: seq<LedgerRule>, id: string): Option<LedgerRule> {
    if rules == [] then None
    else if rules[|rules| - 1].id == id then Some(rules[|rules| - 1])
    else LedgerRuleFor(rules[..|rules| - 1], id)
  }

  function Prefix(e: string): string {
    DropSlashes(DropBangs(e))
  }

  function DropBangs(e: string): string {
    if e == "" || e[0] != '!' then e else DropBangs(e[1..])
  }

  function DropSlashes(e: string): string {
    if e == "" || e[|e| - 1] != '/' then e else DropSlashes(e[..|e| - 1])
  }

  predicate TracksUnder(tracked: seq<string>, prefix: string) {
    exists k :: 0 <= k < |tracked| && (tracked[k] == prefix || prefix + "/" <= tracked[k])
  }

  /** A drop row proves its subject: a withholding rule that owns something, or nothing tracked. */
  predicate DropHolds(row: Row, e: string, led: Ledger) {
    && (row.withheldBy != "" || row.noProducer != "")
    && (row.withheldBy != "" ==>
          var rule := LedgerRuleFor(led.rules, row.withheldBy);
          rule.Some? && !rule.value.publishes && row.withheldBy in led.owning)
    && (row.noProducer != "" ==> !TracksUnder(led.tracked, Prefix(e)))
  }

  predicate EntryHolds(rows: seq<Row>, e: string, led: Ledger) {
    RowFor(rows, e).Some? &&
    var row := RowFor(rows, e).value;
    if row.keep then KeepHolds(row) else DropHolds(row, e, led)
  }

  predicate Derivable(rows: seq<Row>, entries: seq<string>, led: Ledger) {
    && KeysDistinct(rows) && Listed(rows, entries) && NoneStale(rows, entries)
    && forall e | e in entries :: EntryHolds(rows, e, led)
  }

  datatype Refusal =
    | DuplicateRow
    | NoDisposition(entry: string)
    | StaleRows
    | BadKeep(entry: string)
    | BadDrop(entry: string)

  datatype Derived = Derived(text: string, kept: seq<string>, dropped: seq<string>) | Refused(why: Refusal)

  /** The table of distinct rows answers like the row list. */
  ghost predicate TableOf(rows: seq<Row>, table: map<string, Row>) {
    && (forall e {:trigger RowFor(rows, e)} ::
          RowFor(rows, e) == if Key(e) in table then Some(table[Key(e)]) else None)
    && (forall row | row in rows :: Key(row.entry) in table)
    && (forall k | k in table :: table[k] in rows && Key(table[k].entry) == k)
  }

  method BuildTable(rows: seq<Row>) returns (table: map<string, Row>, distinct: bool)
    ensures distinct <==> KeysDistinct(rows)
    ensures distinct ==> TableOf(rows, table)
  {
    table := map[];
    for i := 0 to |rows|
      invariant KeysDistinct(rows[..i]) && TableSoFar(rows[..i], table)
    {
      var k := Key(rows[i].entry);
      PrefixSnoc(rows, i);
      TableSnoc(rows[..i], table, rows[i]);
      if k in table {
        RepeatedKey(rows, rows[..i], i, table[k]);
        return table, false;
      }
      table := table[k := rows[i]];
    }
    assert rows[..|rows|] == rows;
    distinct := true;
    TableFromDistinct(rows, table);
  }

  ghost predicate TableSoFar(rows: seq<Row>, table: map<string, Row>) {
    && (forall k | k in table :: table[k] in rows && Key(table[k].entry) == k)
    && (forall row | row in rows :: Key(row.entry) in table)
  }

  lemma TableSnoc(rows: seq<Row>, table: map<string, Row>, row: Row)
    requires KeysDistinct(rows) && TableSoFar(rows, table)
    ensures var k := Key(row.entry);
            k !in table ==> KeysDistinct(rows + [row]) && TableSoFar(rows + [row], table[k := row])
  {
    var k, more := Key(row.entry), rows + [row];
    if k !in table {
      forall i, j | 0 <= i < j < |more|
        ensures Key(more[i].entry) != Key(more[j].entry)
      {
        assert more[i] == rows[i] && rows[i] in rows;
        if j < |rows| { assert more[j] == rows[j]; }
      }
    }
  }

  lemma RepeatedKey(rows: seq<Row>, before: seq<Row>, i: nat, was: Row)
    requires i < |rows| && before == rows[..i] && was in before && Key(was.entry) == Key(rows[i].entry)
    ensures !KeysDistinct(rows)
  {
    var j :| 0 <= j < i && rows[j] == was;
  }

  lemma TableFromDistinct(rows: seq<Row>, table: map<string, Row>)
    requires KeysDistinct(rows)
    requires forall k | k in table :: table[k] in rows && Key(table[k].entry) == k
    requires forall row | row in rows :: Key(row.entry) in table
    ensures TableOf(rows, table)
  {
    forall e
      ensures RowFor(rows, e) == if Key(e) in table then Some(table[Key(e)]) else None
    {
      if Key(e) in table {
        SameKeySameRow(rows, table[Key(e)], RowFor(rows, e).value);
      }
    }
  }

  lemma SameKeySameRow(rows: seq<Row>, a: Row, b: Row)
    requires KeysDistinct(rows) && a in rows && b in rows && Key(a.entry) == Key(b.entry)
    ensures a == b
  {
    var i :| 0 <= i < |rows| && rows[i] == a;
    var j :| 0 <= j < |rows| && rows[j] == b;
    assert i == j;
  }

  function KeysOf(entries: seq<string>): set<string> {
    set e | e in entries :: Key(e)
  }

  lemma PartitionSnoc(rows: seq<Row>, entries: seq<string>, i: nat)
    requires i < |entries|
    ensures Kept(rows, entries[..i + 1])
         == Kept(rows, entries[..i]) + if IsKept(rows, entries[i]) then [entries[i]] else []
    ensures Dropped(rows, entries[..i + 1])
         == Dropped(rows, entries[..i]) + if IsKept(rows, entries[i]) then [] else [entries[i]]
    ensures KeysOf(entries[..i + 1]) == KeysOf(entries[..i]) + {Key(entries[i])}
    ensures Listed(rows, entries[..i + 1]) <==> Listed(rows, entries[..i]) && RowFor(rows, entries[i]).Some?
  {
    var now := entries[..i + 1];
    assert now[..i] == entries[..i] && now[|now| - 1] == entries[i] && now == entries[..i] + [entries[i]];
  }

  /** Every entry goes to the kept or the dropped list, until one has no row. */
  method Partition(rows: seq<Row>, table: map<string, Row>, entries: seq<string>)
    returns (missing: Option<string>, seen: set<string>, kept: seq<string>, dropped: seq<string>)
    requires TableOf(rows, table)
    ensures missing.None? <==> Listed(rows, entries)
    ensures missing.Some? ==> missing.value in entries && RowFor(rows, missing.value).None?
    ensures missing.None? ==>
              kept == Kept(rows, entries) && dropped == Dropped(rows, entries) && seen == KeysOf(entries)
  {
    missing, seen, kept, dropped := None, {}, [], [];
    for i := 0 to |entries|
      invariant seen == KeysOf(entries[..i]) && Listed(rows, entries[..i])
      invariant kept == Kept(rows, entries[..i]) && dropped == Dropped(rows, entries[..i])
    {
      var e := entries[i];
      PartitionSnoc(rows, entries, i);
      var k := Key(e);
      assert RowFor(rows, e) == if k in table then Some(table[k]) else None;
      if k !in table {
        assert !Listed(rows, entries);
        missing := Some(e);
        return;
      }
      seen := seen + {k};
      if table[k].keep { kept := kept + [e]; } else { dropped := dropped + [e]; }
    }
    assert entries[..|entries|] == entries;
  }

  method CheckKept(rows: seq<Row>, table: map<string, Row>, kept: seq<string>, led: Ledger)
    returns (bad: Option<string>)
    requires TableOf(rows, table) && forall e | e in kept :: IsKept(rows, e)
    ensures bad.None? <==> forall e | e in kept :: EntryHolds(rows, e, led)
    ensures bad.Some? ==> bad.value in kept && !EntryHolds(rows, bad.value, led)
  {
    for i := 0 to |kept|
      invariant forall e | e in kept[..i] :: EntryHolds(rows, e, led)
    {
      assert kept[i] in kept && kept[..i + 1] == kept[..i] + [kept[i]];
      var row := table[Key(kept[i])];
      if row.withheldBy != "" || row.noProducer != "" || row.why == "" { return Some(kept[i]); }
    }
    assert kept[..|kept|] == kept;
    bad := None;
  }

  method CheckDropped(rows: seq<Row>, table: map<string, Row>, dropped: seq<string>, led: Ledger)
    returns (bad: Option<string>)
    requires TableOf(rows, table) && forall e | e in dropped :: RowFor(rows, e).Some? && !IsKept(rows, e)
    ensures bad.None? <==> forall e | e in dropped :: EntryHolds(rows, e, led)
    ensures bad.Some? ==> bad.value in dropped && !EntryHolds(rows, bad.value, led)
  {
    for i := 0 to |dropped|
      invariant forall e | e in dropped[..i] :: EntryHolds(rows, e, led)
    {
      assert dropped[i] in dropped && dropped[..i + 1] == dropped[..i] + [dropped[i]];
      if !DropHolds(table[Key(dropped[i])], dropped[i], led) { return Some(dropped[i]); }
    }
    assert dropped[..|dropped|] == dropped;
    bad := None;
  }

  /** The kept entries first, then the dropped ones. */
  method CheckSubjects(rows: seq<Row>, table: map<string, Row>, ghost entries: seq<string>,
                       kept: seq<string>, dropped: seq<string>, led: Ledger)
    returns (why: Option<Refusal>)
    requires TableOf(rows, table) && Listed(rows, entries)
    requires kept == Kept(rows, entries) && dropped == Dropped(rows, entries)
    ensures why.None? <==> forall e | e in entries :: EntryHolds(rows, e, led)
    ensures why.Some? ==> why.value.BadKeep? || why.value.BadDrop?
    ensures why.Some? && why.value.BadKeep? ==>
              why.value.entry in kept && !EntryHolds(rows, why.value.entry, led)
    ensures why.Some? && why.value.BadDrop? ==>
              && why.value.entry in dropped && !EntryHolds(rows, why.value.entry, led)
              && forall e | e in kept :: EntryHolds(rows, e, led)
  {
    var bad := CheckKept(rows, table, kept, led);
    if bad.Some? { return Some(BadKeep(bad.value)); }
    bad := CheckDropped(rows, table, dropped, led);
    if bad.Some? { return Some(BadDrop(bad.value)); }
    assert forall e | e in entries :: e in kept || e in dropped;
    why := None;
  }

  method PrintFile(spec: Spec, kept: seq<string>, ghost entries: seq<string>) returns (text: string)
    requires kept == Kept(spec.rows, entries)
    ensures text == Output(spec, entries)
  {
    var out := [ChopNewlines(spec.header), ""];
    for g := 0 to |spec.groups|
      invariant out + Body(spec, spec.groups[g..], entries)
             == [ChopNewlines(spec.header), ""] + Body(spec, spec.groups, entries)
    {
      var members := Members(spec.rows, kept, spec.groups[g].gid);
      MembersOfKept(spec.rows, entries, spec.groups[g].gid);
      ghost var before := out;
      if members != [] {
        out := out + (Heading(spec, spec.groups[g]) + members + [""]);
      }
      assert spec.groups[g..][1..] == spec.groups[g + 1..];
      assert out == before + GroupLines(spec, entries, spec.groups[g]);
      Associates(before, GroupLines(spec, entries, spec.groups[g]), Body(spec, spec.groups[g + 1..], entries));
    }
    assert out + [] == out;
    text := ChopNewlines(Join(out)) + "\n";
  }

  method Derive(spec: Spec, source: string, led: Ledger) returns (r: Derived)
    ensures r.Derived? <==> Derivable(spec.rows, Rules(source), led)
    ensures r.Derived? ==>
              var entries := Rules(source);
              r == Derived(Output(spec, entries), Kept(spec.rows, entries), Dropped(spec.rows, entries))
    // the refusals come in this order
    ensures r == Refused(DuplicateRow) <==> !KeysDistinct(spec.rows)
    ensures r.Refused? && r.why.NoDisposition? <==> KeysDistinct(spec.rows) && !Listed(spec.rows, Rules(source))
    ensures r.Refused? && r.why.NoDisposition? ==> r.why.entry in Rules(source) && RowFor(spec.rows, r.why.entry).None?
    ensures r == Refused(StaleRows) <==>
              KeysDistinct(spec.rows) && Listed(spec.rows, Rules(source)) && !NoneStale(spec.rows, Rules(source))
    ensures r.Refused? && r.why.BadKeep? ==>
              r.why.entry in Kept(spec.rows, Rules(source)) && !EntryHolds(spec.rows, r.why.entry, led)
    ensures r.Refused? && r.why.BadDrop? ==>
              && r.why.entry in Dropped(spec.rows, Rules(source)) && !EntryHolds(spec.rows, r.why.entry, led)
              && forall e | e in Kept(spec.rows, Rules(source)) :: EntryHolds(spec.rows, e, led)
    // what that means for the rows
    ensures r.Derived? ==> (forall e | e in r.kept :: KeepProved(spec.rows, e))
                           && forall e | e in r.dropped :: DropProved(spec.rows, e, led)
    ensures r.Refused? && r.why.BadKeep? ==> !KeepProved(spec.rows, r.why.entry)
    ensures r.Refused? && r.why.BadDrop? ==> !DropProved(spec.rows, r.why.entry, led)
  {
    if KeysDistinct(spec.rows) { ProofsByRow(spec.rows, led); }
    var rows := spec.rows;
    var table, distinct := BuildTable(rows);
    if !distinct { return Refused(DuplicateRow); }
    var entries := ParseEntries(source);
    var missing, seen, kept, dropped := Partition(rows, table, entries);
    if missing.Some? { return Refused(NoDisposition(missing.value)); }
    StaleIffUnseen(rows, table, entries, seen);
    if table.Keys - seen != {} { return Refused(StaleRows); }
    var why := CheckSubjects(rows, table, entries, kept, dropped, led);
    if why.Some? { return Refused(why.value); }
    var text := PrintFile(spec, kept, entries);
    r := Derived(text, kept, dropped);
  }

  lemma StaleIffUnseen(rows: seq<Row>, table: map<string, Row>, entries: seq<string>, seen: set<string>)
    requires TableOf(rows, table)
    requires seen == KeysOf(entries)
    ensures table.Keys - seen == {} <==> NoneStale(rows, entries)
  {
    if NoneStale(rows, entries) {
      forall k | k in table
        ensures k in seen
      {
        assert Used(table[k], entries);
      }
    }
    if table.Keys - seen == {} {
      forall row | row in rows
        ensures Used(row, entries)
      {
        assert Key(row.entry) !in table.Keys - seen;
      }
    }
  }

  lemma {:induction false} MembersOfKept(rows: seq<Row>, entries: seq<string>, gid: string)
    ensures Members(rows, Kept(rows, entries), gid) == Members(rows, entries, gid)
  {
    if entries != [] {
      var init := entries[..|entries| - 1];
      MembersOfKept(rows, init, gid);
      if IsKept(rows, entries[|entries| - 1]) {
        assert Kept(rows, entries)[..|Kept(rows, init)|] == Kept(rows, init);
      } else {
        assert Kept(rows, entries) == Kept(rows, init);
      }
    }
  }

  // ---- reading the printed file back --------------------------------------------------------

  function RulesOfAll(lines: seq<string>): seq<string> {
    if lines == [] then [] else Rules(lines[0]) + RulesOfAll(lines[1..])
  }

  lemma {:induction false} JoinedRules(lines: seq<string>)
    ensures Rules(Join(lines)) == RulesOfAll(lines)
  {
    BlankIsNoRule();
    if |lines| == 1 {
      assert lines[1..] == [];
      assert RulesOfAll(lines) == Rules(lines[0]) + [];
    } else if lines != [] {
      JoinedRules(lines[1..]);
      GluedRules(lines[0], Join(lines[1..]));
    }
  }

  lemma {:induction false} RulesOfAllAppend(a: seq<string>, b: seq<string>)
    ensures RulesOfAll(a + b) == RulesOfAll(a) + RulesOfAll(b)
  {
    if a == [] {
      EmptyAppend(b);
      EmptyAppend(RulesOfAll(b));
    } else {
      RulesOfAllAppend(a[1..], b);
      TailOfAppend(a, b);
      Associates(Rules(a[0]), RulesOfAll(a[1..]), RulesOfAll(b));
    }
  }

  lemma FinalNewline(s: string)
    ensures Rules(s + "\n") == Rules(s)
  {
    GluedRules(s, "");
    BlankIsNoRule();
    assert Glue(s, "") == s + "\n";
  }

  lemma {:induction false} ChoppedRules(s: string)
    ensures Rules(ChopNewlines(s)) == Rules(s)
    decreases |s|
  {
    if s != "" && s[|s| - 1] == '\n' {
      ChoppedRules(s[..|s| - 1]);
      OneNewlineOff(s);
    }
  }

  lemma {:induction false} OneNewlineOff(s: string)
    requires s != "" && s[|s| - 1] == '\n'
    ensures Rules(s[..|s| - 1]) == Rules(s)
  {
    FinalNewline(s[..|s| - 1]);
    assert s[..|s| - 1] + "\n" == s;
  }

  lemma {:induction false} RStripTwice(s: string)
    ensures RStrip(RStrip(s)) == RStrip(s)
  {
    if s != "" && IsSpace(s[|s| - 1]) { RStripTwice(s[..|s| - 1]); }
  }

  lemma {:induction false} NoBreakOneLine(s: string)
    requires forall i | 0 <= i < |s| :: !IsBreak(s[i])
    ensures LineLength(s) == |s|
  {
    if s != "" { NoBreakOneLine(s[1..]); }
  }

  lemma RuleStaysRule(line: string)
    requires IsRule(line)
    ensures FirstRule(RStrip(line)) == [RStrip(line)]
  {
    RStripTwice(line);
    assert Strip(RStrip(line)) == Strip(line);
  }

  lemma {:induction false} OneLineRules(e: string)
    requires LineLength(e) == |e|
    ensures Rules(e) == FirstRule(e)
  {
    assert e[..|e|] == e;
    LastLine(e);
  }

  /** An entry read from a line is a rule that reads back as itself. */
  lemma {:induction false} RuleReadsBack(line: string)
    requires IsRule(line) && LineLength(line) == |line|
    ensures Rules(RStrip(line)) == [RStrip(line)]
  {
    RuleStaysRule(line);
    assert forall i | 0 <= i < |RStrip(line)| :: RStrip(line)[i] == line[i];
    NoBreakOneLine(RStrip(line));
    OneLineRules(RStrip(line));
  }

  lemma {:induction false} RulesReadBack(text: string)
    ensures forall e | e in Rules(text) :: Rules(e) == [e]
    decreases |text|
  {
    if text != "" {
      RulesOfFirst(text);
      RulesReadBack(Rest(text));
      var line := text[..LineLength(text)];
      NoBreakOneLine(line);
      if IsRule(line) { RuleReadsBack(line); }
    }
  }

  lemma {:induction false} RulesOfEntries(entries: seq<string>)
    requires forall e | e in entries :: Rules(e) == [e]
    ensures RulesOfAll(entries) == entries
  {
    if entries != [] { RulesOfEntries(entries[1..]); }
  }

  /** The rules a printed group carries: those of its heading, and its members. */
  function PrintedRules(spec: Spec, groups: seq<Group>, entries: seq<string>): seq<string> {
    if groups == [] then []
    else
      var members := Members(spec.rows, entries, groups[0].gid);
      (if members == [] then [] else RulesOfAll(Heading(spec, groups[0])) + members)
      + PrintedRules(spec, groups[1..], entries)
  }

  lemma GroupRules(spec: Spec, entries: seq<string>, g: Group)
    requires forall e | e in entries :: Rules(e) == [e]
    ensures RulesOfAll(GroupLines(spec, entries, g)) ==
            var members := Members(spec.rows, entries, g.gid);
            if members == [] then [] else RulesOfAll(Heading(spec, g)) + members
  {
    var members := Members(spec.rows, entries, g.gid);
    if members != [] {
      RulesOfAllAppend(Heading(spec, g) + members, [""]);
      RulesOfAllAppend(Heading(spec, g), members);
      RulesOfEntries(members);
      BlankIsNoRule();
      assert [""][1..] == [] && RulesOfAll([""]) == [] + [];
    }
  }

  lemma {:induction false} BodyRules(spec: Spec, groups: seq<Group>, entries: seq<string>)
    requires forall e | e in entries :: Rules(e) == [e]
    ensures RulesOfAll(Body(spec, groups, entries)) == PrintedRules(spec, groups, entries)
  {
    if groups != [] {
      BodyRules(spec, groups[1..], entries);
      GroupRules(spec, entries, groups[0]);
      RulesOfAllAppend(GroupLines(spec, entries, groups[0]), Body(spec, groups[1..], entries));
    }
  }

  /** The derived file reads back as the rules of its header, then group by group. */
  lemma {:induction false} OutputReadsBack(spec: Spec, source: string)
    ensures Rules(Output(spec, Rules(source)))
         == Rules(spec.header) + PrintedRules(spec, spec.groups, Rules(source))
  {
    var entries := Rules(source);
    var body := Body(spec, spec.groups, entries);
    var top := [ChopNewlines(spec.header), ""];
    RulesReadBack(source);
    BodyRules(spec, spec.groups, entries);
    PrintedText(top + body);
    RulesOfAllAppend(top, body);
    TopRules(spec.header);
  }

  lemma PrintedText(lines: seq<string>)
    ensures Rules(ChopNewlines(Join(lines)) + "\n") == RulesOfAll(lines)
  {
    FinalNewline(ChopNewlines(Join(lines)));
    ChoppedRules(Join(lines));
    JoinedRules(lines);
  }

  lemma TopRules(header: string)
    ensures RulesOfAll([ChopNewlines(header), ""]) == Rules(header)
  {
    var top := [ChopNewlines(header), ""];
    ChoppedRules(header);
    BlankIsNoRule();
    assert top[1..] == [""] && [""][1..] == [];
    assert RulesOfAll([""]) == [] + [];
  }

  /** The header and the headings of the groups that are printed hold no rule of their own. */
  predicate CommentsOnly(spec: Spec, groups: seq<Group>, entries: seq<string>) {
    forall g | g in groups :: HeadingSilent(spec, g, entries)
  }

  predicate HeadingSilent(spec: Spec, g: Group, entries: seq<string>) {
    Members(spec.rows, entries, g.gid) != [] ==> RulesOfAll(Heading(spec, g)) == []
  }

  lemma CommentsOnlyFirst(spec: Spec, groups: seq<Group>, entries: seq<string>)
    requires groups != []
    ensures CommentsOnly(spec, groups, entries)
       <==> HeadingSilent(spec, groups[0], entries) && CommentsOnly(spec, groups[1..], entries)
  {
    assert groups == [groups[0]] + groups[1..];
  }

  lemma {:induction false} PrintedIsBucketed(spec: Spec, groups: seq<Group>, entries: seq<string>)
    ensures var p, b := PrintedRules(spec, groups, entries), Bucketed(spec.rows, groups, entries);
            && |p| >= |b|
            && (CommentsOnly(spec, groups, entries) ==> p == b)
            && (|p| == |b| ==> CommentsOnly(spec, groups, entries))
  {
    if groups != [] {
      var g, rest := groups[0], groups[1..];
      PrintedIsBucketed(spec, rest, entries);
      CommentsOnlyFirst(spec, groups, entries);
      var members, heading := Members(spec.rows, entries, g.gid), RulesOfAll(Heading(spec, g));
      assert heading == [] ==> heading + members == members;
    }
  }

  /** The derived file reads back as the bucketed kept entries exactly when header and headings are
      comments. */
  lemma ReparsedIsBucketed(spec: Spec, source: string)
    ensures Rules(Output(spec, Rules(source))) == Bucketed(spec.rows, spec.groups, Rules(source))
       <==> Rules(spec.header) == [] && CommentsOnly(spec, spec.groups, Rules(source))
  {
    OutputReadsBack(spec, source);
    PrintedIsBucketed(spec, spec.groups, Rules(source));
  }

  // ---- nothing kept is lost -----------------------------------------------------------------

  function Occurrences(groups: seq<Group>, gid: string): nat {
    if groups == [] then 0 else (if groups[0].gid == gid then 1 else 0) + Occurrences(groups[1..], gid)
  }

  lemma {:induction false} SelectCount(rows: seq<Row>, c: Class, s: seq<string>, e: string)
    ensures multiset(Select(rows, c, s))[e] == if Belongs(rows, c, e) then multiset(s)[e] else 0
  {
    if s != [] {
      var init, last := s[..|s| - 1], s[|s| - 1];
      SelectCount(rows, c, init, e);
      var more := if Belongs(rows, c, last) then [last] else [];
      CountSnoc(s, e);
      CountAppend(Select(rows, c, init), more, e);
      assert Select(rows, c, s) == Select(rows, c, init) + more;
      assert multiset(more)[e] == if Belongs(rows, c, e) && e == last then 1 else 0;
    }
  }

  lemma CountSnoc(s: seq<string>, e: string)
    requires s != []
    ensures multiset(s)[e] == multiset(s[..|s| - 1])[e] + if s[|s| - 1] == e then 1 else 0
  {
    assert s == s[..|s| - 1] + [s[|s| - 1]];
  }

  lemma CountAppend(a: seq<string>, b: seq<string>, e: string)
    ensures multiset(a + b)[e] == multiset(a)[e] + multiset(b)[e]
  {
  }

  lemma {:induction false} BucketedCount(rows: seq<Row>, groups: seq<Group>, entries: seq<string>, e: string)
    requires IsKept(rows, e)
    ensures multiset(Bucketed(rows, groups, entries))[e] ==
            multiset(entries)[e] * Occurrences(groups, RowFor(rows, e).value.group)
  {
    var m, gid := multiset(entries)[e], RowFor(rows, e).value.group;
    if groups != [] {
      BucketedCount(rows, groups[1..], entries, e);
      BucketedCountStep(rows, groups, entries, e);
      OnceMore(m, Occurrences(groups[1..], gid), Occurrences(groups, gid), groups[0].gid == gid);
    }
  }

  lemma {:induction false} BucketedCountStep(rows: seq<Row>, groups: seq<Group>, entries: seq<string>, e: string)
    requires IsKept(rows, e) && groups != []
    ensures multiset(Bucketed(rows, groups, entries))[e] ==
            (if groups[0].gid == RowFor(rows, e).value.group then multiset(entries)[e] else 0)
            + multiset(Bucketed(rows, groups[1..], entries))[e]
  {
    SelectCount(rows, OfGroup(groups[0].gid), entries, e);
    CountAppend(Members(rows, entries, groups[0].gid), Bucketed(rows, groups[1..], entries), e);
  }

  lemma OnceMore(m: nat, k: nat, n: nat, here: bool)
    requires n == (if here then 1 else 0) + k
    ensures (if here then m else 0) + m * k == m * n
  {
    if here { Distribute(m, k); }
  }

  /** Every kept entry is in a listed group, and in one listed once. */
  predicate GroupsListedOnce(spec: Spec, entries: seq<string>) {
    forall e | e in entries && IsKept(spec.rows, e) ::
      Occurrences(spec.groups, RowFor(spec.rows, e).value.group) == 1
  }

  /** Under a comment-only header and headings, the printed file reads back as every kept entry, as
      often as it was kept, exactly when the group of each is listed once; the derivation itself
      does not refuse a row whose group is not listed. */
  lemma NothingKeptIsLost(spec: Spec, source: string)
    requires Rules(spec.header) == [] && CommentsOnly(spec, spec.groups, Rules(source))
    ensures multiset(Rules(Output(spec, Rules(source)))) == multiset(Kept(spec.rows, Rules(source)))
       <==> GroupsListedOnce(spec, Rules(source))
  {
    ReparsedIsBucketed(spec, source);
    BucketingKeepsAll(spec, Rules(source));
  }

  /** The same of the bucketed entries, whatever the header and the headings hold. */
  lemma BucketingKeepsAll(spec: Spec, entries: seq<string>)
    ensures multiset(Bucketed(spec.rows, spec.groups, entries)) == multiset(Kept(spec.rows, entries))
       <==> GroupsListedOnce(spec, entries)
  {
    var bucketed, kept := Bucketed(spec.rows, spec.groups, entries), Kept(spec.rows, entries);
    forall e
      ensures multiset(bucketed)[e] == multiset(kept)[e]
         <==> (e in entries && IsKept(spec.rows, e) ==> Occurrences(spec.groups, RowFor(spec.rows, e).value.group) == 1)
    {
      OneEntryKept(spec, entries, e);
    }
    assert multiset(bucketed) == multiset(kept) <==> forall e :: multiset(bucketed)[e] == multiset(kept)[e];
  }

  lemma {:induction false} OneEntryKept(spec: Spec, entries: seq<string>, e: string)
    ensures multiset(Bucketed(spec.rows, spec.groups, entries))[e] == multiset(Kept(spec.rows, entries))[e]
       <==> (e in entries && IsKept(spec.rows, e) ==> Occurrences(spec.groups, RowFor(spec.rows, e).value.group) == 1)
  {
    SelectCount(spec.rows, ToKeep, entries, e);
    if IsKept(spec.rows, e) {
      BucketedCount(spec.rows, spec.groups, entries, e);
      var m, n := multiset(entries)[e], Occurrences(spec.groups, RowFor(spec.rows, e).value.group);
      assert e in entries <==> m > 0;
      OneTimes(m, n);
    } else {
      BucketedKept(spec.rows, spec.groups, entries);
      assert e !in Bucketed(spec.rows, spec.groups, entries);
    }
  }

  lemma OneTimes(m: nat, n: nat)
    ensures m * n == m <==> m == 0 || n == 1
  {
    if n > 1 && m > 0 { assert m * n == m + m * (n - 1) && m * (n - 1) > 0; }
  }

  // ---- deriving the derived file again ------------------------------------------------------

  function KeepRows(rows: seq<Row>): (r: seq<Row>)
    ensures forall row :: row in r <==> row in rows && row.keep
  {
    if rows == [] then [] else (if rows[0].keep then [rows[0]] else []) + KeepRows(rows[1..])
  }

  lemma {:induction false} KeepRowsDistinct(rows: seq<Row>)
    requires KeysDistinct(rows)
    ensures KeysDistinct(KeepRows(rows))
  {
    if rows != [] {
      var first, rest := rows[0], rows[1..];
      DistinctTail(rows);
      KeepRowsDistinct(rest);
      if first.keep {
        DistinctCons(first, KeepRows(rest));
      } else {
        EmptyAppend(KeepRows(rest));
      }
    }
  }

  lemma DistinctTail(rows: seq<Row>)
    requires rows != [] && KeysDistinct(rows)
    ensures KeysDistinct(rows[1..]) && forall row | row in rows[1..] :: Key(row.entry) != Key(rows[0].entry)
  {
    var rest := rows[1..];
    forall i | 0 <= i < |rest|
      ensures rest[i] == rows[i + 1] && Key(rest[i].entry) != Key(rows[0].entry)
    {
    }
    forall i, j | 0 <= i < j < |rest|
      ensures Key(rest[i].entry) != Key(rest[j].entry)
    {
      assert rest[i] == rows[i + 1] && rest[j] == rows[j + 1];
    }
  }

  lemma DistinctCons(first: Row, rest: seq<Row>)
    requires KeysDistinct(rest) && forall row | row in rest :: Key(row.entry) != Key(first.entry)
    ensures KeysDistinct([first] + rest)
  {
    var rows := [first] + rest;
    forall i, j | 0 <= i < j < |rows|
      ensures Key(rows[i].entry) != Key(rows[j].entry)
    {
      assert rows[j] == rest[j - 1] && rest[j - 1] in rest;
      if i > 0 { assert rows[i] == rest[i - 1]; }
    }
  }

  /** The keep rows answer for a kept entry as the whole table does. */
  lemma SameRow(rows: seq<Row>, e: string)
    requires KeysDistinct(rows) && IsKept(rows, e)
    ensures RowFor(KeepRows(rows), e) == RowFor(rows, e)
  {
    var row := RowFor(rows, e).value;
    assert row in KeepRows(rows);
    SameKeySameRow(rows, row, RowFor(KeepRows(rows), e).value);
  }

  lemma {:induction false} SelectAppend(rows: seq<Row>, c: Class, a: seq<string>, b: seq<string>)
    ensures Select(rows, c, a + b) == Select(rows, c, a) + Select(rows, c, b)
  {
    if b == [] {
      assert a + b == a;
    } else {
      var init, last := b[..|b| - 1], b[|b| - 1];
      SelectAppend(rows, c, a, init);
      assert (a + b)[..|a + b| - 1] == a + init && (a + b)[|a + b| - 1] == last;
      Associates(Select(rows, c, a), Select(rows, c, init), if Belongs(rows, c, last) then [last] else []);
    }
  }

  lemma {:induction false} SelectAllOrNone(rows: seq<Row>, c: Class, s: seq<string>)
    ensures (forall e | e in s :: Belongs(rows, c, e)) ==> Select(rows, c, s) == s
    ensures (forall e | e in s :: !Belongs(rows, c, e)) ==> Select(rows, c, s) == []
  {
    if s != [] {
      assert s == s[..|s| - 1] + [s[|s| - 1]];
      SelectAllOrNone(rows, c, s[..|s| - 1]);
    }
  }

  lemma {:induction false} BucketedKept(rows: seq<Row>, groups: seq<Group>, entries: seq<string>)
    ensures forall e | e in Bucketed(rows, groups, entries) :: e in entries && IsKept(rows, e)
  {
    if groups != [] { BucketedKept(rows, groups[1..], entries); }
  }

  /** Bucketing is stable: the members of a group that is listed once, or that has none, come out
      of the bucketed list in their old order. */
  lemma {:induction false} BucketedMembers(rows: seq<Row>, groups: seq<Group>, entries: seq<string>, gid: string)
    ensures Occurrences(groups, gid) == 0 ==> Members(rows, Bucketed(rows, groups, entries), gid) == []
    ensures Occurrences(groups, gid) == 1 ==>
              Members(rows, Bucketed(rows, groups, entries), gid) == Members(rows, entries, gid)
    ensures Members(rows, entries, gid) == [] ==> Members(rows, Bucketed(rows, groups, entries), gid) == []
  {
    if groups != [] {
      var first, rest := Members(rows, entries, groups[0].gid), Bucketed(rows, groups[1..], entries);
      BucketedMembers(rows, groups[1..], entries, gid);
      SelectAppend(rows, OfGroup(gid), first, rest);
      SelectAllOrNone(rows, OfGroup(gid), first);
    }
  }

  lemma {:induction false} SameBody(spec: Spec, groups: seq<Group>, entries: seq<string>)
    requires KeysDistinct(spec.rows) && (forall g | g in groups :: g in spec.groups)
    requires GroupsListedOnce(spec, entries)
    ensures Body(spec.(rows := KeepRows(spec.rows)), groups, Bucketed(spec.rows, spec.groups, entries))
         == Body(spec, groups, entries)
  {
    if groups != [] {
      SameBody(spec, groups[1..], entries);
      SameMembers(spec, groups[0].gid, entries);
    }
  }

  lemma SameMembers(spec: Spec, gid: string, entries: seq<string>)
    requires KeysDistinct(spec.rows) && GroupsListedOnce(spec, entries)
    ensures Members(KeepRows(spec.rows), Bucketed(spec.rows, spec.groups, entries), gid)
         == Members(spec.rows, entries, gid)
  {
    var bucketed := Bucketed(spec.rows, spec.groups, entries);
    BucketedKept(spec.rows, spec.groups, entries);
    SameSelection(spec.rows, OfGroup(gid), bucketed);
    BucketedMembers(spec.rows, spec.groups, entries, gid);
    var members := Members(spec.rows, entries, gid);
    if members != [] {
      assert members[0] in members;
      assert Occurrences(spec.groups, gid) == 1;
    }
  }

  /** On kept entries the keep rows select as the whole table does. */
  lemma {:induction false} SameSelection(rows: seq<Row>, c: Class, s: seq<string>)
    requires KeysDistinct(rows) && forall e | e in s :: IsKept(rows, e)
    ensures Select(KeepRows(rows), c, s) == Select(rows, c, s)
  {
    if s != [] {
      assert s == s[..|s| - 1] + [s[|s| - 1]];
      SameSelection(rows, c, s[..|s| - 1]);
      SameRow(rows, s[|s| - 1]);
    }
  }

  /** Deriving the derived file again, without the drop rows, succeeds and changes nothing. */
  predicate DerivesItself(spec: Spec, text: string, again: Ledger) {
    && Derivable(KeepRows(spec.rows), Rules(text), again)
    && Output(spec.(rows := KeepRows(spec.rows)), Rules(text)) == text
  }

  /** With a comment-only header and headings, the derived file derives itself, whatever the ledger
      says by then, exactly when the group of each kept entry is listed once. */
  lemma ReDerivation(spec: Spec, source: string, led: Ledger, again: Ledger)
    requires Derivable(spec.rows, Rules(source), led)
    requires Rules(spec.header) == [] && CommentsOnly(spec, spec.groups, Rules(source))
    ensures DerivesItself(spec, Output(spec, Rules(source)), again) <==> GroupsListedOnce(spec, Rules(source))
  {
    if GroupsListedOnce(spec, Rules(source)) { ListedOnceDerives(spec, source, led, again); }
    if DerivesItself(spec, Output(spec, Rules(source)), again) { DerivesListedOnce(spec, source, again); }
  }

  lemma ListedOnceDerives(spec: Spec, source: string, led: Ledger, again: Ledger)
    requires Derivable(spec.rows, Rules(source), led) && GroupsListedOnce(spec, Rules(source))
    requires Rules(spec.header) == [] && CommentsOnly(spec, spec.groups, Rules(source))
    ensures DerivesItself(spec, Output(spec, Rules(source)), again)
  {
    var entries := Rules(source);
    ReparsedIsBucketed(spec, source);
    SameBody(spec, spec.groups, entries);
    KeepRowsDistinct(spec.rows);
    BucketedHolds(spec, entries, led, again);
    NoneStaleAgain(spec, entries);
  }

  lemma DerivesListedOnce(spec: Spec, source: string, again: Ledger)
    requires KeysDistinct(spec.rows)
    requires Rules(spec.header) == [] && CommentsOnly(spec, spec.groups, Rules(source))
    requires DerivesItself(spec, Output(spec, Rules(source)), again)
    ensures GroupsListedOnce(spec, Rules(source))
  {
    ReparsedIsBucketed(spec, source);
    BucketedAgain(spec, source);
    forall e | e in Rules(source) && IsKept(spec.rows, e)
      ensures Occurrences(spec.groups, RowFor(spec.rows, e).value.group) == 1
    {
      CountedTwice(spec, Rules(source), e);
    }
  }

  /** Printing the derived file again changes nothing, so neither does bucketing its entries again. */
  lemma BucketedAgain(spec: Spec, source: string)
    requires KeysDistinct(spec.rows)
    requires Rules(spec.header) == [] && CommentsOnly(spec, spec.groups, Rules(source))
    requires var text := Output(spec, Rules(source));
             Output(spec.(rows := KeepRows(spec.rows)), Rules(text)) == text
    ensures var bucketed := Bucketed(spec.rows, spec.groups, Rules(source));
            Bucketed(KeepRows(spec.rows), spec.groups, bucketed) == bucketed
  {
    var bucketed, kept := Bucketed(spec.rows, spec.groups, Rules(source)), spec.(rows := KeepRows(spec.rows));
    ReparsedIsBucketed(spec, source);
    forall g | g in spec.groups
      ensures HeadingSilent(kept, g, bucketed)
    {
      assert HeadingSilent(spec, g, Rules(source));
      BucketedKept(spec.rows, spec.groups, Rules(source));
      SameSelection(spec.rows, OfGroup(g.gid), bucketed);
      BucketedMembers(spec.rows, spec.groups, Rules(source), g.gid);
    }
    ReparsedIsBucketed(kept, Output(spec, Rules(source)));
  }

  /** An entry of a group listed n times is printed n times and then n * n times; that is the same
      only if n is one, for its row is not stale, so n is not zero. */
  lemma CountedTwice(spec: Spec, entries: seq<string>, e: string)
    requires KeysDistinct(spec.rows) && e in entries && IsKept(spec.rows, e)
    requires var bucketed := Bucketed(spec.rows, spec.groups, entries);
             && Bucketed(KeepRows(spec.rows), spec.groups, bucketed) == bucketed
             && NoneStale(KeepRows(spec.rows), bucketed)
    ensures Occurrences(spec.groups, RowFor(spec.rows, e).value.group) == 1
  {
    var bucketed, row := Bucketed(spec.rows, spec.groups, entries), RowFor(spec.rows, e).value;
    var m, n := multiset(entries)[e], Occurrences(spec.groups, row.group);
    SameRow(spec.rows, e);
    BucketedCount(spec.rows, spec.groups, entries, e);
    BucketedCount(KeepRows(spec.rows), spec.groups, bucketed, e);
    assert e in multiset(entries);
    assert m > 0 && multiset(bucketed)[e] == m * n == m * n * n;
    UsedGroupIsListed(spec, entries, row);
    Positive(m, n);
    OneTimes(m * n, n);
  }

  lemma Positive(m: nat, n: nat)
    requires m > 0 && n > 0
    ensures m * n > 0
  {
  }

  /** A row that the derived file still uses is of a listed group. */
  lemma UsedGroupIsListed(spec: Spec, entries: seq<string>, row: Row)
    requires KeysDistinct(spec.rows) && row in KeepRows(spec.rows)
    requires NoneStale(KeepRows(spec.rows), Bucketed(spec.rows, spec.groups, entries))
    ensures Occurrences(spec.groups, row.group) > 0
  {
    var bucketed := Bucketed(spec.rows, spec.groups, entries);
    assert Used(row, bucketed);
    var e :| e in bucketed && Key(e) == Key(row.entry);
    BucketedIsListed(spec.rows, spec.groups, entries, e);
    SameKeySameRow(spec.rows, row, RowFor(spec.rows, e).value);
  }

  lemma {:induction false} BucketedIsListed(rows: seq<Row>, groups: seq<Group>, entries: seq<string>, e: string)
    requires e in Bucketed(rows, groups, entries)
    ensures IsKept(rows, e) && Occurrences(groups, RowFor(rows, e).value.group) > 0
  {
    if e !in Members(rows, entries, groups[0].gid) { BucketedIsListed(rows, groups[1..], entries, e); }
  }

  lemma BucketedHolds(spec: Spec, entries: seq<string>, led: Ledger, again: Ledger)
    requires Derivable(spec.rows, entries, led)
    ensures forall e | e in Bucketed(spec.rows, spec.groups, entries) ::
              RowFor(KeepRows(spec.rows), e).Some? && EntryHolds(KeepRows(spec.rows), e, again)
  {
    BucketedKept(spec.rows, spec.groups, entries);
    forall e | e in Bucketed(spec.rows, spec.groups, entries)
      ensures RowFor(KeepRows(spec.rows), e).Some? && EntryHolds(KeepRows(spec.rows), e, again)
    {
      SameRow(spec.rows, e);
      assert EntryHolds(spec.rows, e, led);
    }
  }

  lemma {:induction false} NoneStaleAgain(spec: Spec, entries: seq<string>)
    requires KeysDistinct(spec.rows) && Listed(spec.rows, entries) && NoneStale(spec.rows, entries)
    requires GroupsListedOnce(spec, entries)
    ensures NoneStale(KeepRows(spec.rows), Bucketed(spec.rows, spec.groups, entries))
  {
    forall row | row in KeepRows(spec.rows)
      ensures Used(row, Bucketed(spec.rows, spec.groups, entries))
    {
      assert Used(row, entries);
      var e :| e in entries && Key(e) == Key(row.entry);
      SameKeySameRow(spec.rows, row, RowFor(spec.rows, e).value);
      KeptIsBucketed(spec, entries, e);
    }
  }

  lemma {:induction false} KeptIsBucketed(spec: Spec, entries: seq<string>, e: string)
    requires GroupsListedOnce(spec, entries) && e in entries && IsKept(spec.rows, e)
    ensures e in Bucketed(spec.rows, spec.groups, entries)
  {
    var m, n := multiset(entries)[e], Occurrences(spec.groups, RowFor(spec.rows, e).value.group);
    BucketedCount(spec.rows, spec.groups, entries, e);
    InByCount(entries, e);
    InByCount(Bucketed(spec.rows, spec.groups, entries), e);
    Positive(m, n);
  }

  lemma InByCount(s: seq<string>, e: string)
    ensures e in s <==> multiset(s)[e] > 0
  {
    assert e in s <==> e in multiset(s);
  }

  /** A kept entry whose group is not listed leaves no trace: the derivation succeeds without it. */
  lemma {:induction false} UnlistedGroupDropsEntry(e: string)
    requires Rules(e) == [e]
    ensures var spec := Spec([Row(e, true, "g", "kept", "", "")], "", [], map[]);
            && Derivable(spec.rows, Rules(e), Ledger([], {}, []))
            && Kept(spec.rows, Rules(e)) == [e]
            && Rules(Output(spec, Rules(e))) == []
  {
    var spec := Spec([Row(e, true, "g", "kept", "", "")], "", [], map[]);
    OneKeptEntry(e, spec.rows[0]);
    BlankIsNoRule();
    ReparsedIsBucketed(spec, e);
  }

  lemma {:induction false} OneKeptEntry(e: string, row: Row)
    requires row.entry == e && row.keep && KeepHolds(row)
    ensures Derivable([row], [e], Ledger([], {}, [])) && Kept([row], [e]) == [e]
  {
    assert RowFor([row], e) == Some(row);
    assert Used(row, [e]) by { assert e in [e]; }
    assert [e][..0] == [] && Select([row], ToKeep, [e]) == [] + [e];
  }

  // ---- what a disposition has to prove ------------------------------------------------------

  /** The row in charge of an entry: its key is the entry's. */
  ghost predicate InCharge(rows: seq<Row>, e: string, row: Row) {
    row in rows && Key(row.entry) == Key(e)
  }

  /** What is left of an entry without its leading `!` and its trailing `/`. */
  ghost predicate TrimsTo(e: string, prefix: string) {
    exists i, j :: TrimmedAt(e, i, j) && prefix == e[i..j]
  }

  predicate TrimmedAt(e: string, i: int, j: int) {
    && 0 <= i <= j <= |e|
    && (forall k | 0 <= k < i :: e[k] == '!') && (i < |e| ==> e[i] != '!')
    && (forall k | j <= k < |e| :: e[k] == '/') && (j > i ==> e[j - 1] != '/')
  }

  /** The rule that answers for an id is the last one of that id. */
  ghost predicate AnswersFor(rules: seq<LedgerRule>, id: string, k: int) {
    && 0 <= k < |rules| && rules[k].id == id
    && forall l | k < l < |rules| :: rules[l].id != id
  }

  /** A kept entry: its row keeps it, names no private subject and gives a reason. */
  ghost predicate KeepProved(rows: seq<Row>, e: string) {
    exists row :: InCharge(rows, e, row) && row.keep && row.withheldBy == "" && row.noProducer == "" && row.why != ""
  }

  /** A dropped entry: its row drops it and names a withholding rule, or that nothing produces it, or
      both; the rule exists, does not publish and owns something; no tracked path is the subject or
      lies under it. */
  ghost predicate DropProved(rows: seq<Row>, e: string, led: Ledger) {
    exists row :: InCharge(rows, e, row) && !row.keep && SubjectProved(row, e, led)
  }

  ghost predicate SubjectProved(row: Row, e: string, led: Ledger) {
    && (row.withheldBy != "" || row.noProducer != "")
    && (row.withheldBy != "" ==>
          && (exists k :: AnswersFor(led.rules, row.withheldBy, k) && !led.rules[k].publishes)
          && row.withheldBy in led.owning)
    && (row.noProducer != "" ==>
          forall prefix, path | TrimsTo(e, prefix) && path in led.tracked ::
            path != prefix && !(prefix + "/" <= path))
  }

  /** The derivation, in the words of the table and the ledger: no two rows have one key, every entry
      is proved by its row, and every row is used. */
  lemma {:induction false} DerivableExactly(rows: seq<Row>, entries: seq<string>, led: Ledger)
    ensures Derivable(rows, entries, led) <==>
              && (forall i, j | 0 <= i < j < |rows| :: Key(rows[i].entry) != Key(rows[j].entry))
              && (forall e | e in entries :: KeepProved(rows, e) || DropProved(rows, e, led))
              && (forall row | row in rows :: exists e :: e in entries && Key(e) == Key(row.entry))
  {
    RowsUsed(rows, entries);
    if KeysDistinct(rows) { EntriesProved(rows, entries, led); }
  }

  lemma RowsUsed(rows: seq<Row>, entries: seq<string>)
    ensures NoneStale(rows, entries) <==>
              forall row | row in rows :: exists e :: e in entries && Key(e) == Key(row.entry)
  {
    forall row | row in rows
      ensures Used(row, entries) <==> exists e :: e in entries && Key(e) == Key(row.entry)
    {
    }
  }

  lemma {:induction false} EntriesProved(rows: seq<Row>, entries: seq<string>, led: Ledger)
    requires KeysDistinct(rows)
    ensures Listed(rows, entries) && (forall e | e in entries :: EntryHolds(rows, e, led))
       <==> (forall e | e in entries :: KeepProved(rows, e) || DropProved(rows, e, led))
  {
    forall e | e in entries
      ensures EntryHolds(rows, e, led) <==> KeepProved(rows, e) || DropProved(rows, e, led)
    {
      EntryReadings(rows, e, led);
    }
    assert forall e | e in entries && EntryHolds(rows, e, led) :: RowFor(rows, e).Some?;
  }

  lemma {:induction false} EntryReadings(rows: seq<Row>, e: string, led: Ledger)
    requires KeysDistinct(rows)
    ensures EntryHolds(rows, e, led) <==> KeepProved(rows, e) || DropProved(rows, e, led)
    ensures IsKept(rows, e) <==> exists row :: InCharge(rows, e, row) && row.keep
  {
    if RowFor(rows, e).Some? {
      var row := RowFor(rows, e).value;
      forall other | InCharge(rows, e, other)
        ensures other == row
      {
        SameKeySameRow(rows, row, other);
      }
      assert InCharge(rows, e, row);
      DropReadings(row, e, led);
    }
  }

  lemma {:induction false} DropReadings(row: Row, e: string, led: Ledger)
    ensures DropHolds(row, e, led) <==> SubjectProved(row, e, led)
  {
    AnswerFound(led.rules, row.withheldBy);
    PrefixTrims(e);
    forall prefix | TrimsTo(e, prefix)
      ensures prefix == Prefix(e)
    {
      TrimsOneWay(e, prefix, Prefix(e));
    }
    if TracksUnder(led.tracked, Prefix(e)) {
      var k :| 0 <= k < |led.tracked| && (led.tracked[k] == Prefix(e) || Prefix(e) + "/" <= led.tracked[k]);
      assert led.tracked[k] in led.tracked;
    } else {
      forall path | path in led.tracked
        ensures path != Prefix(e) && !(Prefix(e) + "/" <= path)
      {
        var k :| 0 <= k < |led.tracked| && led.tracked[k] == path;
      }
    }
  }

  lemma {:induction false} AnswerFound(rules: seq<LedgerRule>, id: string)
    ensures LedgerRuleFor(rules, id).Some? <==> exists k :: AnswersFor(rules, id, k)
    ensures forall k | AnswersFor(rules, id, k) :: LedgerRuleFor(rules, id) == Some(rules[k])
  {
    if rules != [] {
      var n := |rules| - 1;
      var init := rules[..n];
      AnswerFound(init, id);
      if rules[n].id == id {
        assert AnswersFor(rules, id, n);
      } else {
        forall k
          ensures AnswersFor(rules, id, k) <==> AnswersFor(init, id, k)
        {
        }
      }
    }
  }

  lemma {:induction false} BangsDropped(e: string) returns (i: nat)
    ensures i <= |e| && DropBangs(e) == e[i..]
    ensures (forall k | 0 <= k < i :: e[k] == '!') && (i < |e| ==> e[i] != '!')
  {
    if e == "" || e[0] != '!' {
      i := 0;
    } else {
      var j := BangsDropped(e[1..]);
      i := j + 1;
      assert e[1..][j..] == e[i..];
      assert forall k | 1 <= k < i :: e[k] == e[1..][k - 1];
    }
  }

  lemma {:induction false} SlashesDropped(e: string) returns (j: nat)
    ensures j <= |e| && DropSlashes(e) == e[..j]
    ensures (forall k | j <= k < |e| :: e[k] == '/') && (j > 0 ==> e[j - 1] != '/')
  {
    if e == "" || e[|e| - 1] != '/' {
      j := |e|;
    } else {
      j := SlashesDropped(e[..|e| - 1]);
      assert e[..|e| - 1][..j] == e[..j];
    }
  }

  lemma {:induction false} PrefixTrims(e: string)
    ensures TrimsTo(e, Prefix(e))
  {
    var i := BangsDropped(e);
    var tail := e[i..];
    var n := SlashesDropped(tail);
    var j := i + n;
    assert tail[..n] == e[i..j];
    assert forall k | j <= k < |e| :: e[k] == tail[k - i];
    assert TrimmedAt(e, i, j);
  }

  lemma TrimsOneWay(e: string, p: string, q: string)
    requires TrimsTo(e, p) && TrimsTo(e, q)
    ensures p == q
  {
    var i, j :| TrimmedAt(e, i, j) && p == e[i..j];
    var k, l :| TrimmedAt(e, k, l) && q == e[k..l];
    assert i == k;
    assert j == l;
  }

  /** An entry that its row keeps holds if it is proved so, and one that its row does not keep if
      that is. */
  lemma {:induction false} ProofsByRow(rows: seq<Row>, led: Ledger)
    requires KeysDistinct(rows)
    ensures forall e | IsKept(rows, e) :: EntryHolds(rows, e, led) <==> KeepProved(rows, e)
    ensures forall e | !IsKept(rows, e) :: EntryHolds(rows, e, led) <==> DropProved(rows, e, led)
  {
    forall e
      ensures IsKept(rows, e) ==> (EntryHolds(rows, e, led) <==> KeepProved(rows, e))
      ensures !IsKept(rows, e) ==> (EntryHolds(rows, e, led) <==> DropProved(rows, e, led))
    {
      EntryReadings(rows, e, led);
      if row :| InCharge(rows, e, row) {
        SameKeySameRow(rows, row, RowFor(rows, e).value);
      }
      forall a, b | InCharge(rows, e, a) && InCharge(rows, e, b)
        ensures a == b
      {
        SameKeySameRow(rows, a, b);
      }
    }
  }

  /** Which entries are kept, dropped, and printed under a group: by their rows, in order. */
  lemma {:induction false} SortedByRows(rows: seq<Row>, entries: seq<string>, e: string, gid: string)
    requires KeysDistinct(rows)
    ensures Kept(rows, []) == [] && Dropped(rows, []) == [] && Members(rows, [], gid) == []
    ensures Kept(rows, entries + [e]) == Kept(rows, entries)
              + if exists row :: InCharge(rows, e, row) && row.keep then [e] else []
    ensures Dropped(rows, entries + [e]) == Dropped(rows, entries)
              + if exists row :: InCharge(rows, e, row) && row.keep then [] else [e]
    ensures Members(rows, entries + [e], gid) == Members(rows, entries, gid)
              + if exists row :: InCharge(rows, e, row) && row.keep && row.group == gid then [e] else []
  {
    assert (entries + [e])[..|entries|] == entries;
    EntryReadings(rows, e, Ledger([], {}, []));
    if RowFor(rows, e).Some? {
      var row := RowFor(rows, e).value;
      forall other | InCharge(rows, e, other)
        ensures other == row
      {
        SameKeySameRow(rows, row, other);
      }
      assert InCharge(rows, e, row);
    }
  }

  // ---- lines, blanks and keys, character by character ---------------------------------------

  /** The characters at which Python ends a line, by code point. */
  lemma {:induction false} LineBreaks(c: char)
    ensures IsBreak(c) <==> c as int in {10, 11, 12, 13, 28, 29, 30, 0x85, 0x2028, 0x2029}
  {
  }

  /** The characters that Python strips, by code point. */
  lemma {:induction false} Blanks(c: char)
    ensures IsSpace(c) <==>
              || c as int in {9, 10, 11, 12, 13, 28, 29, 30, 31, 32, 0x85, 0xA0, 0x1680}
              || c as int in {0x2028, 0x2029, 0x202F, 0x205F, 0x3000}
              || 0x2000 <= c as int <= 0x200A
  {
  }

  /** One line and the next: the break is one character, or a carriage return with its newline. */
  lemma {:induction false} LinesSplit(line: string, end: string, rest: string)
    requires forall i | 0 <= i < |line| :: !IsBreak(line[i])
    requires end == "\r\n" || (|end| == 1 && IsBreak(end[0]) && (end == "\r" && rest != "" ==> rest[0] != '\n'))
    ensures SplitLines(line + (end + rest)) == [line] + SplitLines(rest)
  {
    var tail := end + rest;
    var text := line + tail;
    LineThenBreak(line, tail);
    assert text[..|line|] == line && text[|line|..] == tail;
    assert tail[BreakLength(tail)..] == rest;
  }

  lemma {:induction false} LineThenBreak(line: string, tail: string)
    requires (forall i | 0 <= i < |line| :: !IsBreak(line[i])) && tail != "" && IsBreak(tail[0])
    ensures LineLength(line + tail) == |line|
  {
    assert forall i | 0 <= i < |line| :: (line + tail)[i] == line[i];
    assert (line + tail)[|line|] == tail[0];
  }

  /** A last line without a break; nothing is a line after a final break. */
  lemma {:induction false} LastLineSplit(line: string)
    requires forall i | 0 <= i < |line| :: !IsBreak(line[i])
    ensures SplitLines(line) == if line == "" then [] else [line]
  {
    NoBreakOneLine(line);
    assert line[..|line|] == line && line[|line|..] == "";
    assert SplitLines("") == [];
  }

  /** Stripping on the right takes the blanks at the end and nothing else. */
  lemma {:induction false} StripsRight(s: string, c: char)
    ensures RStrip("") == ""
    ensures RStrip(s + [c]) == if IsSpace(c) then RStrip(s) else s + [c]
  {
    assert (s + [c])[..|s|] == s;
  }

  /** A line is a rule unless it is blank or its first other character is `#`; the rule is the line
      without the blanks at its end. */
  lemma {:induction false} RuleOfLine(blanks: string, c: char, more: string)
    requires forall i | 0 <= i < |blanks| :: IsSpace(blanks[i])
    requires !IsSpace(c)
    ensures FirstRule(blanks) == []
    ensures FirstRule(blanks + ([c] + more))
         == if c == '#' then [] else [blanks + RStrip([c] + more)]
  {
    AllBlank(blanks);
    var tail := [c] + more;
    RStripKeeps(blanks, tail);
    LastStays(c, more);
    LStripTo(blanks, RStrip(tail));
  }

  lemma {:induction false} AllBlank(s: string)
    requires forall i | 0 <= i < |s| :: IsSpace(s[i])
    ensures RStrip(s) == ""
  {
    if s != "" { AllBlank(s[..|s| - 1]); }
  }

  /** Right-stripping stops at a character that is no blank. */
  lemma {:induction false} RStripKeeps(front: string, tail: string)
    requires tail != "" && !IsSpace(tail[0])
    ensures RStrip(front + tail) == front + RStrip(tail)
    decreases |tail|
  {
    var n := |tail| - 1;
    assert (front + tail)[|front + tail| - 1] == tail[n];
    if IsSpace(tail[n]) {
      RStripKeeps(front, tail[..n]);
      assert (front + tail)[..|front + tail| - 1] == front + tail[..n];
    }
  }

  lemma {:induction false} LastStays(c: char, more: string)
    requires !IsSpace(c)
    ensures RStrip([c] + more) != "" && RStrip([c] + more)[0] == c
    decreases |more|
  {
    var s := [c] + more;
    if more != "" && IsSpace(more[|more| - 1]) {
      LastStays(c, more[..|more| - 1]);
      assert s[..|s| - 1] == [c] + more[..|more| - 1];
    }
  }

  lemma {:induction false} LStripTo(blanks: string, tail: string)
    requires (forall i | 0 <= i < |blanks| :: IsSpace(blanks[i])) && tail != "" && !IsSpace(tail[0])
    ensures LStrip(blanks + tail) == tail
  {
    if blanks == "" {
      assert blanks + tail == tail;
    } else {
      LStripTo(blanks[1..], tail);
      assert (blanks + tail)[1..] == blanks[1..] + tail;
    }
  }

  /** The words of a text: its stretches without blanks. */
  function Words(s: string): (w: seq<string>)
    ensures s != "" && !IsSpace(s[0]) ==> w != [] && w[0] != ""
  {
    if s == "" then []
    else if IsSpace(s[0]) then Words(s[1..])
    else if |s| == 1 || IsSpace(s[1]) then [[s[0]]] + Words(s[1..])
    else var w := Words(s[1..]); [[s[0]] + w[0]] + w[1..]
  }

  function Spaced(words: seq<string>): string {
    if words == [] then "" else if |words| == 1 then words[0] else words[0] + " " + Spaced(words[1..])
  }

  lemma {:induction false} WordsDropBlank(s: string, c: char)
    requires IsSpace(c)
    ensures Words(s + [c]) == Words(s)
  {
    var t := s + [c];
    if s == "" {
      assert t[1..] == "";
    } else {
      WordsDropBlank(s[1..], c);
      assert t[0] == s[0] && t[1..] == s[1..] + [c];
      if |s| == 1 {
        assert t[1] == c && s[1..] == "";
      } else {
        assert t[1] == s[1];
      }
    }
  }

  lemma {:induction false} WordsOfStripped(s: string)
    ensures Words(RStrip(s)) == Words(s) && Words(LStrip(s)) == Words(s)
  {
    WordsOfRStrip(s);
    WordsOfLStrip(s);
  }

  lemma {:induction false} WordsOfRStrip(s: string)
    ensures Words(RStrip(s)) == Words(s)
  {
    if s != "" && IsSpace(s[|s| - 1]) {
      var init := s[..|s| - 1];
      WordsOfRStrip(init);
      WordsDropBlank(init, s[|s| - 1]);
      assert init + [s[|s| - 1]] == s;
    }
  }

  lemma {:induction false} WordsOfLStrip(s: string)
    ensures Words(LStrip(s)) == Words(s)
  {
    if s != "" && IsSpace(s[0]) { WordsOfLStrip(s[1..]); }
  }

  /** The key of an entry is its words with single spaces between them, so two entries have one key
      exactly when they have the same words. */
  lemma {:induction false} KeyIsWords(a: string, b: string)
    ensures Key(a) == Spaced(Words(a))
    ensures Key(a) == Key(b) <==> Words(a) == Words(b)
  {
    KeyOfOne(a);
    KeyOfOne(b);
  }

  lemma {:induction false} KeyOfOne(a: string)
    ensures Key(a) == Spaced(Words(a)) && Words(Key(a)) == Words(a)
  {
    var r := RStrip(a);
    WordsOfStripped(a);
    WordsOfStripped(r);
    var s := LStrip(r);
    EndsBare(a);
    BareAfterLStrip(r);
    CollapsedWords(s);
    assert s != "" ==> !IsSpace(s[0]) by { StartsBare(r); }
  }

  lemma {:induction false} EndsBare(s: string)
    ensures RStrip(s) != "" ==> !IsSpace(RStrip(s)[|RStrip(s)| - 1])
  {
    if s != "" && IsSpace(s[|s| - 1]) { EndsBare(s[..|s| - 1]); }
  }

  lemma {:induction false} StartsBare(s: string)
    ensures LStrip(s) != "" ==> !IsSpace(LStrip(s)[0])
  {
    if s != "" && IsSpace(s[0]) { StartsBare(s[1..]); }
  }

  lemma {:induction false} BareAfterLStrip(s: string)
    requires s != "" ==> !IsSpace(s[|s| - 1])
    ensures LStrip(s) != "" ==> !IsSpace(LStrip(s)[|LStrip(s)| - 1])
  {
    if s != "" && IsSpace(s[0]) { BareAfterLStrip(s[1..]); }
  }

  /** Collapsing runs of blanks, in a text that does not end in one. */
  lemma {:induction false} CollapsedWords(s: string)
    requires s != "" ==> !IsSpace(s[|s| - 1])
    ensures Collapse(s) == (if s != "" && IsSpace(s[0]) then " " else "") + Spaced(Words(s))
    ensures Words(Collapse(s)) == Words(s)
    ensures s != "" ==> Words(s) != []
  {
    if s != "" {
      CollapsedWords(s[1..]);
      if IsSpace(s[0]) {
        BlankCollapsed(s);
      } else {
        CollapsedOn(s);
      }
    }
  }

  lemma {:induction false} BlankCollapsed(s: string)
    requires |s| > 1 && IsSpace(s[0])
    requires Collapse(s[1..]) == (if IsSpace(s[1]) then " " else "") + Spaced(Words(s[1..]))
    requires Words(Collapse(s[1..])) == Words(s[1..])
    ensures Collapse(s) == " " + Spaced(Words(s)) && Words(Collapse(s)) == Words(s)
  {
    var t := s[1..];
    assert Words(s) == Words(t);
    if !IsSpace(s[1]) {
      EmptyAppend(Spaced(Words(t)));
      assert Collapse(s) == " " + Collapse(t);
      assert (" " + Collapse(t))[1..] == Collapse(t) && IsSpace((" " + Collapse(t))[0]);
    }
  }

  lemma {:induction false} CollapsedStart(s: string)
    ensures (Collapse(s) == "" <==> s == "")
    ensures s != "" ==> (IsSpace(Collapse(s)[0]) <==> IsSpace(s[0])) && (!IsSpace(s[0]) ==> Collapse(s)[0] == s[0])
  {
    if s != "" && IsSpace(s[0]) && |s| > 1 && IsSpace(s[1]) { CollapsedStart(s[1..]); }
  }

  lemma {:induction false} CollapsedOn(s: string)
    requires s != "" && !IsSpace(s[0]) && !IsSpace(s[|s| - 1])
    requires Collapse(s[1..]) == (if s[1..] != "" && IsSpace(s[1]) then " " else "") + Spaced(Words(s[1..]))
    requires Words(Collapse(s[1..])) == Words(s[1..]) && (s[1..] != "" ==> Words(s[1..]) != [])
    ensures Collapse(s) == Spaced(Words(s)) && Words(Collapse(s)) == Words(s)
  {
    var x, t := s[0], s[1..];
    CollapsedStart(t);
    if t == "" {
      OneLetter(s);
    } else {
      assert s == [x] + t;
      assert Collapse(s) == [x] + Collapse(t);
      LetterCollapsed(x, t, Collapse(t), Words(t));
    }
  }

  /** A letter before a text `t` that collapses to `d`, both of the words `w`. */
  lemma {:induction false} LetterCollapsed(x: char, t: string, d: string, w: seq<string>)
    requires !IsSpace(x) && t != "" && d != "" && (IsSpace(t[0]) <==> IsSpace(d[0]))
    requires Words(t) == w && Words(d) == w && w != []
    requires d == (if IsSpace(t[0]) then " " else "") + Spaced(w)
    ensures [x] + d == Spaced(Words([x] + t)) && Words([x] + d) == Words([x] + t)
  {
    if IsSpace(t[0]) {
      WordEnds(x, t, w);
      WordEnds(x, d, w);
      SpacedAfter(x, w);
    } else {
      WordGrows(x, t, w);
      WordGrows(x, d, w);
      GrownWord(x, w);
      EmptyAppend(Spaced(w));
    }
  }

  lemma OneLetter(s: string)
    requires |s| == 1 && !IsSpace(s[0])
    ensures Collapse(s) == s == Spaced(Words(s))
  {
    assert s[1..] == "" && Words("") == [] && [s] + [] == [s];
    assert s == [s[0]];
  }

  lemma {:induction false} WordEnds(x: char, d: string, w: seq<string>)
    requires !IsSpace(x) && d != "" && IsSpace(d[0]) && Words(d) == w
    ensures Words([x] + d) == [[x]] + w
  {
    assert ([x] + d)[1..] == d && ([x] + d)[1] == d[0];
  }

  lemma {:induction false} WordGrows(x: char, d: string, w: seq<string>)
    requires !IsSpace(x) && d != "" && !IsSpace(d[0]) && Words(d) == w
    ensures w != [] && Words([x] + d) == [[x] + w[0]] + w[1..]
  {
    assert ([x] + d)[1..] == d && ([x] + d)[1] == d[0];
  }

  lemma SpacedAfter(x: char, w: seq<string>)
    requires w != []
    ensures Spaced([[x]] + w) == [x] + (" " + Spaced(w))
  {
    assert ([[x]] + w)[1..] == w;
  }

  lemma GrownWord(c: char, w: seq<string>)
    requires w != []
    ensures Spaced([[c] + w[0]] + w[1..]) == [c] + Spaced(w)
  {
    var v := [[c] + w[0]] + w[1..];
    assert v[0] == [c] + w[0] && v[1..] == w[1..];
    if |w| > 1 { assert ([c] + w[0]) + " " + Spaced(w[1..]) == [c] + (w[0] + " " + Spaced(w[1..])); }
  }

  // ---- the printed file, as text ------------------------------------------------------------

  function Lines(lines: seq<string>): string {
    if lines == [] then "" else lines[0] + ("\n" + Lines(lines[1..]))
  }

  /** A group that has members, as it is printed: a blank line, its own heading text or its title as
      a comment, and the members line by line. */
  function Block(spec: Spec, g: Group, members: seq<string>): string {
    "\n" + ((if g.gid in spec.groupText then spec.groupText[g.gid] + "\n"
             else if g.title != "" then "# " + g.title + "\n" else "")
            + Lines(members))
  }

  function Blocks(spec: Spec, groups: seq<Group>, entries: seq<string>): string {
    if groups == [] then ""
    else
      var members := Members(spec.rows, entries, groups[0].gid);
      (if members == [] then "" else Block(spec, groups[0], members)) + Blocks(spec, groups[1..], entries)
  }

  predicate EndsInNewline(s: string) {
    s != "" && s[|s| - 1] == '\n'
  }

  /** The newlines at the end go, all of them and nothing else. */
  lemma {:induction false} ChopsNewlines(s: string)
    ensures !EndsInNewline(s) ==> ChopNewlines(s) == s
    ensures ChopNewlines(s + "\n") == ChopNewlines(s) && !EndsInNewline(ChopNewlines(s))
  {
    assert (s + "\n")[..|s|] == s;
    if EndsInNewline(s) {
      ChopsNewlines(s[..|s| - 1]);
    }
  }

  lemma {:induction false} JoinedLines(lines: seq<string>)
    requires lines != []
    ensures Join(lines) + "\n" == Lines(lines)
  {
    var first, rest := lines[0], lines[1..];
    if rest == [] {
      assert Lines(rest) == "";
      EmptyAppend("\n");
    } else {
      JoinedLines(rest);
      Associates(first + "\n", Join(rest), "\n");
      Associates(first, "\n", Lines(rest));
    }
  }

  lemma {:induction false} LinesAppend(a: seq<string>, b: seq<string>)
    ensures Lines(a + b) == Lines(a) + Lines(b)
  {
    if a == [] {
      EmptyAppend(b);
      EmptyAppend(Lines(b));
    } else {
      LinesAppend(a[1..], b);
      TailOfAppend(a, b);
      Associates("\n", Lines(a[1..]), Lines(b));
      Associates(a[0], "\n" + Lines(a[1..]), Lines(b));
    }
  }

  lemma {:induction false} LinesOfGroup(spec: Spec, entries: seq<string>, g: Group)
    ensures var members := Members(spec.rows, entries, g.gid);
            members != [] ==> "\n" + Lines(GroupLines(spec, entries, g)) == Block(spec, g, members) + "\n"
  {
    var members, heading := Members(spec.rows, entries, g.gid), Heading(spec, g);
    if members != [] {
      LinesAppend(heading + members, [""]);
      LinesAppend(heading, members);
      LinesOfOne([""]);
      EmptyAppend("\n");
      LinesOfHeading(spec, g);
      Associates("\n", Lines(heading) + Lines(members), "\n");
    }
  }

  lemma LinesOfHeading(spec: Spec, g: Group)
    ensures Lines(Heading(spec, g)) == if g.gid in spec.groupText then spec.groupText[g.gid] + "\n"
                                       else if g.title != "" then "# " + g.title + "\n" else ""
  {
    LinesOfOne(Heading(spec, g));
  }

  lemma LinesOfOne(lines: seq<string>)
    requires |lines| <= 1
    ensures Lines(lines) == if lines == [] then "" else lines[0] + "\n"
  {
    if lines != [] {
      assert lines[1..] == [] && Lines(lines[1..]) == "";
      EmptyAppend("\n");
    }
  }

  lemma {:induction false} LinesOfBody(spec: Spec, groups: seq<Group>, entries: seq<string>)
    ensures "\n" + Lines(Body(spec, groups, entries)) == Blocks(spec, groups, entries) + "\n"
  {
    if groups == [] {
      EmptyAppend("\n");
    } else {
      var g, rest := groups[0], groups[1..];
      var members := Members(spec.rows, entries, g.gid);
      var first, after := GroupLines(spec, entries, g), Body(spec, rest, entries);
      LinesOfBody(spec, rest, entries);
      LinesOfGroup(spec, entries, g);
      LinesAppend(first, after);
      if members == [] {
        EmptyAppend(after);
        EmptyAppend(Blocks(spec, rest, entries));
      } else {
        var block := Block(spec, g, members);
        Associates("\n", Lines(first), Lines(after));
        Associates(block, "\n", Lines(after));
        Associates(block, Blocks(spec, rest, entries), "\n");
      }
    }
  }

  /** The text ends in one newline, after something else. */
  predicate EndsInOne(s: string) {
    |s| >= 2 && s[|s| - 1] == '\n' && s[|s| - 2] != '\n'
  }

  lemma EndOfAppend(a: string, b: string)
    requires EndsInOne(b)
    ensures EndsInOne(a + b)
  {
  }

  lemma {:induction false} LinesEnd(lines: seq<string>)
    requires lines != [] && forall l | l in lines :: l != "" && !EndsInNewline(l)
    ensures EndsInOne(Lines(lines))
  {
    assert lines[0] in lines;
    if |lines| == 1 {
      LinesOfOne(lines);
    } else {
      assert forall l | l in lines[1..] :: l in lines;
      LinesEnd(lines[1..]);
      EndOfAppend("\n", Lines(lines[1..]));
      EndOfAppend(lines[0], "\n" + Lines(lines[1..]));
    }
  }

  lemma {:induction false} BlockEnds(spec: Spec, g: Group, members: seq<string>)
    requires members != [] && forall l | l in members :: l != "" && !EndsInNewline(l)
    ensures EndsInOne(Block(spec, g, members))
  {
    LinesEnd(members);
    var heading := if g.gid in spec.groupText then spec.groupText[g.gid] + "\n"
                   else if g.title != "" then "# " + g.title + "\n" else "";
    EndOfAppend(heading, Lines(members));
    EndOfAppend("\n", heading + Lines(members));
  }

  lemma {:induction false} BlocksEnd(spec: Spec, groups: seq<Group>, entries: seq<string>)
    requires forall e | e in entries :: e != "" && !EndsInNewline(e)
    ensures Blocks(spec, groups, entries) == "" || EndsInOne(Blocks(spec, groups, entries))
  {
    if groups != [] {
      BlocksEnd(spec, groups[1..], entries);
      var members, after := Members(spec.rows, entries, groups[0].gid), Blocks(spec, groups[1..], entries);
      if members == [] {
        EmptyAppend(after);
      } else {
        BlockEnds(spec, groups[0], members);
        if after == "" {
          EmptyAppend(Block(spec, groups[0], members));
        } else {
          EndOfAppend(Block(spec, groups[0], members), after);
        }
      }
    }
  }

  lemma {:induction false} ChopAndBack(s: string)
    requires EndsInOne(s)
    ensures ChopNewlines(s) + "\n" == s
  {
    var x := s[..|s| - 1];
    assert s == x + "\n";
    ChopsNewlines(x);
  }

  /** The derived file, as text: the header without the newlines at its end, and the blocks of the
      groups that have members, in the order of the groups. */
  lemma {:induction false} OutputAsText(spec: Spec, source: string)
    ensures Output(spec, Rules(source))
         == ChopNewlines(spec.header) + ("\n" + Blocks(spec, spec.groups, Rules(source)))
  {
    var entries, h := Rules(source), ChopNewlines(spec.header);
    var body, blocks := Body(spec, spec.groups, entries), Blocks(spec, spec.groups, entries);
    EntriesAreBare(source);
    BlocksEnd(spec, spec.groups, entries);
    JoinedOutput(h, body, blocks, spec, entries);
    if blocks == "" {
      ChopsNewlines(spec.header);
      ChopsNewlines(h);
      EmptyAppend("\n");
    } else {
      EndOfAppend("\n", blocks);
      EndOfAppend(h, "\n" + blocks);
      ChopAndBack(h + ("\n" + blocks));
    }
  }

  lemma {:induction false} JoinedOutput(h: string, body: seq<string>, blocks: string, spec: Spec, entries: seq<string>)
    requires body == Body(spec, spec.groups, entries) && blocks == Blocks(spec, spec.groups, entries)
    ensures Join([h, ""] + body) == h + ("\n" + blocks)
  {
    var all := [h, ""] + body;
    LinesOfBody(spec, spec.groups, entries);
    JoinedLines(all);
    assert all[1..] == [""] + body && all[1..][1..] == body;
    assert Lines(all[1..]) == "" + ("\n" + Lines(body));
    EmptyAppend("\n" + Lines(body));
    Associates("\n", blocks, "\n");
    Associates(h, "\n" + blocks, "\n");
    SameFront(Join(all), h + ("\n" + blocks));
  }

  lemma SameFront(a: string, b: string)
    requires a + "\n" == b + "\n"
    ensures a == b
  {
    assert a == (a + "\n")[..|a|] && b == (b + "\n")[..|b|];
    assert |a + "\n"| == |b + "\n"|;
  }

  lemma {:induction false} EntriesAreBare(source: string)
    ensures forall e | e in Rules(source) :: e != "" && !EndsInNewline(e)
  {
    RulesInBare(SplitLines(source));
  }

  lemma {:induction false} RulesInBare(lines: seq<string>)
    ensures forall e | e in RulesIn(lines) :: e != "" && !EndsInNewline(e)
  {
    if lines != [] {
      RulesInBare(lines[1..]);
      EndsBare(lines[0]);
      assert RStrip(lines[0]) == "" ==> Strip(lines[0]) == "";
    }
  }
}
