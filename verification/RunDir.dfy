/** Run-directory names and their time order (tools/_rundir.py): three generations of names, five
    patterns, and the sort key that orders a mix of them. */
module RunDir {
  import opened Options
  import opened Sequences

  // ---- characters and fields ----------------------------------------------------------------

  predicate IsDigit(c: char) { '0' <= c <= '9' }
  predicate IsLower(c: char) { 'a' <= c <= 'z' }
  predicate IsHex(c: char) { IsDigit(c) || 'a' <= c <= 'f' }
  predicate IsAlnum(c: char) { IsDigit(c) || IsLower(c) || 'A' <= c <= 'Z' }
  predicate IsMapChar(c: char) { IsAlnum(c) || c == '.' || c == '-' }

  predicate Digits(s: string, n: nat) {
    |s| == n && forall i | 0 <= i < n :: IsDigit(s[i])
  }

  /** `YYYY-MM-DDTHH-MM-SSZ`. */
  predicate DashedStamp(s: string) {
    && |s| == 20
    && Digits(s[0..4], 4) && s[4] == '-' && Digits(s[5..7], 2) && s[7] == '-' && Digits(s[8..10], 2)
    && s[10] == 'T'
    && Digits(s[11..13], 2) && s[13] == '-' && Digits(s[14..16], 2) && s[16] == '-' && Digits(s[17..19], 2)
    && s[19] == 'Z'
  }

  /** `YYYYMMDDTHHMMSSZ`. */
  predicate CompactStamp(s: string) {
    |s| == 16 && Digits(s[0..8], 8) && s[8] == 'T' && Digits(s[9..15], 6) && s[15] == 'Z'
  }

  /** The fields of a name between underscores; no field of a pattern holds an underscore. */
  function Fields(s: string): (f: seq<string>)
    ensures f != []
  {
    if s == "" then [""]
    else
      var rest := Fields(s[1..]);
      if s[0] == '_' then [""] + rest else [[s[0]] + rest[0]] + rest[1..]
  }

  /** `$` matches at the end and before one final newline. */
  function Chopped(name: string): string {
    if name != "" && name[|name| - 1] == '\n' then name[..|name| - 1] else name
  }

  datatype Pattern = DashedSession | DashedProcess | CompactSession | CompactProcess | OldProcess

  /** The patterns in the order they are tried. */
  const PATTERNS := [DashedSession, DashedProcess, CompactSession, CompactProcess, OldProcess]

  predicate SomeAlnum(s: string) {
    s != "" && forall i | 0 <= i < |s| :: IsAlnum(s[i])
  }

  predicate Matches(p: Pattern, name: string) {
    MatchesFields(p, Fields(Chopped(name)))
  }

  predicate MatchesFields(p: Pattern, f: seq<string>) {
    match p
    case DashedSession =>
      && |f| == 4 && DashedStamp(f[0])
      && |f[1]| == 8 && (forall i | 0 <= i < 8 :: IsHex(f[1][i]))
      && f[2] != "" && (forall i | 0 <= i < |f[2]| :: IsMapChar(f[2][i]))
      && f[3] != "" && (forall i | 0 <= i < |f[3]| :: IsLower(f[3][i]))
    case DashedProcess =>
      |f| == 3 && DashedStamp(f[0]) && f[1] == "menu" && SomeAlnum(f[2])
    case CompactSession =>
      && |f| == 4 && CompactStamp(f[0])
      && |f[1]| == 8 && (forall i | 0 <= i < 8 :: IsHex(f[1][i]))
      && f[2] != "" && (forall i | 0 <= i < |f[2]| :: IsDigit(f[2][i]))
      && SomeAlnum(f[3])
    case CompactProcess =>
      |f| == 3 && CompactStamp(f[0]) && f[1] == "menu" && SomeAlnum(f[2])
    case OldProcess =>
      |f| == 3 && Digits(f[0], 8) && Digits(f[1], 6) && SomeAlnum(f[2])
  }

  /** No name is of two generations, and none is both a session and a process. */
  lemma AtMostOnePattern(p: Pattern, q: Pattern, name: string)
    requires Matches(p, name) && Matches(q, name)
    ensures p == q
  {
  }

  // ---- parse --------------------------------------------------------------------------------

  datatype Kind = Process | Session

  datatype Parsed = Parsed(pattern: Pattern, kind: Kind, stamp: string, key: string, id: Option<string>,
                           mapName: Option<string>, role: Option<string>, slot: Option<nat>, mode: Option<string>)

  function OnlyDigits(s: string): string {
    if s == "" then "" else (if IsDigit(s[0]) then [s[0]] else "") + OnlyDigits(s[1..])
  }

  function Number(s: string): nat {
    if s == "" then 0
    else Number(s[..|s| - 1]) * 10 + if IsDigit(s[|s| - 1]) then (s[|s| - 1] - '0') as nat else 0
  }

  /** The stamp of a name: what comes before the second part of the pattern. */
  function StampOf(p: Pattern, name: string): string
    requires Matches(p, name)
  {
    StampField(p, Fields(Chopped(name)))
  }

  function StampField(p: Pattern, f: seq<string>): string
    requires MatchesFields(p, f)
  {
    if p == OldProcess then f[0] + "_" + f[1] else f[0]
  }

  function ParsedAs(p: Pattern, name: string): Parsed
    requires Matches(p, name)
  {
    ParsedFields(p, Fields(Chopped(name)))
  }

  function ParsedFields(p: Pattern, f: seq<string>): Parsed
    requires MatchesFields(p, f)
  {
    var stamp := StampField(p, f);
    var key := OnlyDigits(stamp);
    match p
    case DashedSession => Parsed(p, Session, stamp, key, Some(f[1]), Some(f[2]), None, None, Some(f[3]))
    case CompactSession => Parsed(p, Session, stamp, key, Some(f[1]), None, Some(f[3]), Some(Number(f[2])), Some(f[3]))
    case _ => Parsed(p, Process, stamp, key, None, None, Some(f[2]), None, None)
  }

  method Parse(name: string) returns (r: Option<Parsed>)
    ensures r.None? <==> forall p :: !Matches(p, name)
    ensures r.Some? ==> Matches(r.value.pattern, name) && r.value == ParsedAs(r.value.pattern, name)
    ensures r.Some? <==> exists n :: WrittenAs(name, n)
    ensures forall n | WrittenAs(name, n) :: r == Some(Reading(n))
  {
    for i := 0 to |PATTERNS|
      invariant forall j | 0 <= j < i :: !Matches(PATTERNS[j], name)
    {
      if Matches(PATTERNS[i], name) {
        ResultIsReading(PATTERNS[i], name);
        return Some(ParsedAs(PATTERNS[i], name));
      }
    }
    forall p
      ensures !Matches(p, name)
    {
      assert p == PATTERNS[0] || p == PATTERNS[1] || p == PATTERNS[2] || p == PATTERNS[3] || p == PATTERNS[4];
    }
    NoResultNotWritten(name);
    r := None;
  }

  lemma {:induction false} ResultIsReading(p: Pattern, name: string)
    requires Matches(p, name)
    ensures ParsedAs(p, name).pattern == p
    ensures exists n :: WrittenAs(name, n)
    ensures forall n | WrittenAs(name, n) :: ParsedAs(p, name) == Reading(n)
  {
    ParsesExactly(name);
    AtMostOnePattern(p, PatternOf(name).value, name);
  }

  lemma {:induction false} NoResultNotWritten(name: string)
    requires forall p :: !Matches(p, name)
    ensures forall n :: !WrittenAs(name, n)
  {
    ParsesExactly(name);
  }

  // ---- the time a stamp denotes -------------------------------------------------------------

  datatype Time = Time(year: nat, month: nat, day: nat, hour: nat, minute: nat, second: nat)

  predicate SameDate(a: Time, b: Time) {
    a.year == b.year && a.month == b.month && a.day == b.day
  }

  predicate EarlierDate(a: Time, b: Time) {
    || a.year < b.year
    || (a.year == b.year && a.month < b.month)
    || (a.year == b.year && a.month == b.month && a.day < b.day)
  }

  predicate EarlierClock(a: Time, b: Time) {
    || a.hour < b.hour
    || (a.hour == b.hour && a.minute < b.minute)
    || (a.hour == b.hour && a.minute == b.minute && a.second < b.second)
  }

  predicate Earlier(a: Time, b: Time) {
    EarlierDate(a, b) || (SameDate(a, b) && EarlierClock(a, b))
  }

  /** Read off the stamp at its own generation's positions. */
  function TimeOf(p: Pattern, name: string): Time
    requires Matches(p, name)
  {
    var s := StampOf(p, name);
    match p
    case DashedSession => DashedTime(s)
    case DashedProcess => DashedTime(s)
    case _ => UndashedTime(s)
  }

  function UndashedTime(s: string): Time
    requires |s| >= 15
  {
    Time(Number(s[0..4]), Number(s[4..6]), Number(s[6..8]), Number(s[9..11]), Number(s[11..13]), Number(s[13..15]))
  }

  function DashedTime(s: string): Time
    requires |s| == 20
  {
    Time(Number(s[0..4]), Number(s[5..7]), Number(s[8..10]), Number(s[11..13]), Number(s[14..16]), Number(s[17..19]))
  }

  function KeyTime(key: string): Time
    requires |key| == 14
  {
    Time(Number(key[0..4]), Number(key[4..6]), Number(key[6..8]),
         Number(key[8..10]), Number(key[10..12]), Number(key[12..14]))
  }

  lemma {:induction false} OnlyDigitsAppend(a: string, b: string)
    ensures OnlyDigits(a + b) == OnlyDigits(a) + OnlyDigits(b)
  {
    if a == "" {
      EmptyAppend(b);
      EmptyAppend(OnlyDigits(b));
    } else {
      OnlyDigitsAppend(a[1..], b);
      TailOfAppend(a, b);
      Associates(if IsDigit(a[0]) then [a[0]] else "", OnlyDigits(a[1..]), OnlyDigits(b));
    }
  }

  lemma {:induction false} OnlyDigitsOfDigits(s: string)
    requires Digits(s, |s|)
    ensures OnlyDigits(s) == s
  {
    if s != "" { OnlyDigitsOfDigits(s[1..]); }
  }

  /** A field of digits and the character after it. */
  lemma Field(s: string, i: nat, j: nat)
    requires i < j < |s| && Digits(s[i..j], j - i) && !IsDigit(s[j])
    ensures OnlyDigits(s[i..]) == s[i..j] + OnlyDigits(s[j + 1..])
  {
    var d, tail := s[i..j], s[j..];
    assert s[i..] == d + tail && tail[1..] == s[j + 1..];
    OnlyDigitsAppend(d, tail);
    OnlyDigitsOfDigits(d);
    EmptyAppend(OnlyDigits(tail[1..]));
  }

  lemma SixNested(a: string, b: string, c: string, d: string, e: string, f: string)
    ensures a + (b + (c + (d + (e + (f + ""))))) == a + b + c + d + e + f
  {
  }

  lemma DashedKey(s: string)
    requires DashedStamp(s)
    ensures OnlyDigits(s) == s[0..4] + s[5..7] + s[8..10] + s[11..13] + s[14..16] + s[17..19]
  {
    assert s[0..] == s && s[20..] == "";
    Field(s, 0, 4);
    Field(s, 5, 7);
    Field(s, 8, 10);
    Field(s, 11, 13);
    Field(s, 14, 16);
    Field(s, 17, 19);
    SixNested(s[0..4], s[5..7], s[8..10], s[11..13], s[14..16], s[17..19]);
  }

  lemma UndashedKey(s: string)
    requires |s| >= 15 && Digits(s[0..8], 8) && !IsDigit(s[8]) && Digits(s[9..15], 6)
    requires |s| == 15 || (|s| == 16 && !IsDigit(s[15]))
    ensures OnlyDigits(s) == s[0..8] + s[9..15]
  {
    assert s[0..] == s;
    Field(s, 0, 8);
    if |s| == 15 {
      assert s[9..] == s[9..15];
      OnlyDigitsOfDigits(s[9..15]);
    } else {
      Field(s, 9, 15);
      assert s[16..] == "";
      EmptyAppend(s[9..15]);
    }
  }

  lemma SixParts(a: string, b: string, c: string, d: string, e: string, f: string)
    requires Digits(a, 4) && Digits(b, 2) && Digits(c, 2) && Digits(d, 2) && Digits(e, 2) && Digits(f, 2)
    ensures var key := a + b + c + d + e + f;
            && Digits(key, 14)
            && key[0..4] == a && key[4..6] == b && key[6..8] == c
            && key[8..10] == d && key[10..12] == e && key[12..14] == f
  {
  }

  lemma TwoParts(d: string, t: string)
    requires Digits(d, 8) && Digits(t, 6)
    ensures var key := d + t;
            && Digits(key, 14)
            && key[0..4] == d[0..4] && key[4..6] == d[4..6] && key[6..8] == d[6..8]
            && key[8..10] == t[0..2] && key[10..12] == t[2..4] && key[12..14] == t[4..6]
  {
  }

  lemma DashedKeyTime(s: string)
    requires DashedStamp(s)
    ensures Digits(OnlyDigits(s), 14) && KeyTime(OnlyDigits(s)) == DashedTime(s)
  {
    DashedKey(s);
    SixParts(s[0..4], s[5..7], s[8..10], s[11..13], s[14..16], s[17..19]);
  }

  lemma {:induction false} UndashedKeyTime(s: string)
    requires |s| >= 15 && Digits(s[0..8], 8) && !IsDigit(s[8]) && Digits(s[9..15], 6)
    requires |s| == 15 || (|s| == 16 && !IsDigit(s[15]))
    ensures Digits(OnlyDigits(s), 14) && KeyTime(OnlyDigits(s)) == UndashedTime(s)
  {
    UndashedKey(s);
    var d, t := s[0..8], s[9..15];
    TwoParts(d, t);
    SliceOfSlice(s, 0, 8, 0, 4);
    SliceOfSlice(s, 0, 8, 4, 6);
    SliceOfSlice(s, 0, 8, 6, 8);
    SliceOfSlice(s, 9, 15, 0, 2);
    SliceOfSlice(s, 9, 15, 2, 4);
    SliceOfSlice(s, 9, 15, 4, 6);
  }

  /** The key is fourteen digits in every generation, and reads as the stamp's own time. */
  lemma KeyTellsTime(p: Pattern, name: string)
    requires Matches(p, name)
    ensures var key := ParsedAs(p, name).key;
            Digits(key, 14) && TimeOf(p, name) == KeyTime(key)
  {
    var s := StampOf(p, name);
    if p.DashedSession? || p.DashedProcess? {
      DashedKeyTime(s);
    } else {
      if p == OldProcess { OldStamp(Fields(Chopped(name))[0], Fields(Chopped(name))[1]); }
      UndashedKeyTime(s);
    }
  }

  lemma OldStamp(date: string, time: string)
    requires Digits(date, 8) && Digits(time, 6)
    ensures var s := date + "_" + time; |s| == 15 && s[0..8] == date && s[8] == '_' && s[9..15] == time
  {
  }

  // ---- the orders ---------------------------------------------------------------------------

  /** Python's order on strings. */
  predicate Before(a: string, b: string) {
    b != "" && (a == "" || a[0] < b[0] || (a[0] == b[0] && Before(a[1..], b[1..])))
  }

  lemma {:induction false} BeforeSplit(a: string, b: string, x: string, y: string)
    requires |a| == |b|
    ensures Before(a + x, b + y) <==> Before(a, b) || (a == b && Before(x, y))
  {
    if a == "" {
      assert a + x == x && b + y == y;
    } else {
      BeforeSplit(a[1..], b[1..], x, y);
      assert (a + x)[1..] == a[1..] + x && (b + y)[1..] == b[1..] + y;
      assert a == [a[0]] + a[1..] && b == [b[0]] + b[1..];
    }
  }

  /** Digit strings of one length are ordered as numbers. */
  lemma {:induction false} DigitsOrder(a: string, b: string, n: nat)
    requires Digits(a, n) && Digits(b, n)
    ensures Before(a, b) <==> Number(a) < Number(b)
    ensures a == b <==> Number(a) == Number(b)
    decreases n
  {
    if n > 0 {
      var a0, b0, x, y := a[..n - 1], b[..n - 1], a[n - 1..], b[n - 1..];
      assert a == a0 + x && b == b0 + y && x == [a[n - 1]] && y == [b[n - 1]];
      DigitsOrder(a0, b0, n - 1);
      BeforeSplit(a0, b0, x, y);
      assert Before(x, y) <==> a[n - 1] < b[n - 1];
    }
  }

  lemma {:induction false} KeysOrderTimes(a: string, b: string)
    requires Digits(a, 14) && Digits(b, 14)
    ensures Before(a, b) <==> Earlier(KeyTime(a), KeyTime(b))
    ensures a == b <==> KeyTime(a) == KeyTime(b)
  {
    ClockPart(a, b);
    KeyPart(a, b, 6, 8);
    KeyPart(a, b, 4, 6);
    KeyPart(a, b, 0, 4);
    assert a[0..] == a && b[0..] == b;
  }

  lemma {:induction false} ClockPart(a: string, b: string)
    requires Digits(a, 14) && Digits(b, 14)
    ensures Before(a[8..], b[8..]) <==> EarlierClock(KeyTime(a), KeyTime(b))
    ensures a[8..] == b[8..] <==>
              var s, t := KeyTime(a), KeyTime(b); s.hour == t.hour && s.minute == t.minute && s.second == t.second
  {
    KeyPart(a, b, 12, 14);
    KeyPart(a, b, 10, 12);
    KeyPart(a, b, 8, 10);
    assert a[14..] == b[14..] == "";
  }

  lemma {:induction false} KeyPart(a: string, b: string, from: nat, to: nat)
    requires Digits(a, 14) && Digits(b, 14) && from <= to <= 14
    ensures var x, y := Number(a[from..to]), Number(b[from..to]);
            && (Before(a[from..], b[from..]) <==> x < y || (x == y && Before(a[to..], b[to..])))
            && (a[from..] == b[from..] <==> x == y && a[to..] == b[to..])
  {
    var x, y := a[from..to], b[from..to];
    SplitFrom(a, from, to);
    SplitFrom(b, from, to);
    DigitsOrder(x, y, to - from);
    BeforeSplit(x, y, a[to..], b[to..]);
    SameParts(x, a[to..], y, b[to..]);
  }

  lemma SplitFrom(key: string, from: nat, to: nat)
    requires Digits(key, 14) && from <= to <= 14
    ensures key[from..] == key[from..to] + key[to..] && Digits(key[from..to], to - from)
  {
  }

  lemma SameParts(a: string, x: string, b: string, y: string)
    requires |a| == |b|
    ensures a + x == b + y <==> a == b && x == y
  {
    assert a == (a + x)[..|a|] && x == (a + x)[|a|..];
    assert b == (b + y)[..|b|] && y == (b + y)[|b|..];
  }

  // ---- canon and the sort key ---------------------------------------------------------------

  function Compact(s: string): string
    requires |s| == 20
  {
    s[0..4] + s[5..7] + s[8..10] + "T" + s[11..13] + s[14..16] + s[17..19] + "Z"
  }

  function Canon(name: string): string {
    if |name| >= 20 && DashedStamp(name[..20]) then Compact(name[..20]) + name[20..] else name
  }

  lemma CanonIdempotent(name: string)
    ensures Canon(Canon(name)) == Canon(name)
  {
    if |name| >= 20 && DashedStamp(name[..20]) {
      var s := name[..20];
      assert Canon(name)[4] == s[5..7][0];
    }
  }

  datatype SortKey = SortKey(key: string, canon: string)

  function PatternOf(name: string): (r: Option<Pattern>)
    ensures r.Some? ==> Matches(r.value, name)
    ensures r.None? ==> forall p :: !Matches(p, name)
  {
    if Matches(DashedSession, name) then Some(DashedSession)
    else if Matches(DashedProcess, name) then Some(DashedProcess)
    else if Matches(CompactSession, name) then Some(CompactSession)
    else if Matches(CompactProcess, name) then Some(CompactProcess)
    else if Matches(OldProcess, name) then Some(OldProcess)
    else None
  }

  function KeyOf(name: string): SortKey {
    var p := PatternOf(name);
    SortKey(if p.Some? then ParsedAs(p.value, name).key else "", Canon(name))
  }

  /** Python's order on the pairs of `sort_key`. */
  predicate SortsBefore(a: SortKey, b: SortKey) {
    Before(a.key, b.key) || (a.key == b.key && Before(a.canon, b.canon))
  }

  /** Over all three generations, the sort key orders by the time the stamps denote. */
  lemma {:induction false} SortKeyOrdersByTime(p: Pattern, a: string, q: Pattern, b: string)
    requires Matches(p, a) && Matches(q, b)
    ensures SortsBefore(KeyOf(a), KeyOf(b)) <==>
              || Earlier(TimeOf(p, a), TimeOf(q, b))
              || (TimeOf(p, a) == TimeOf(q, b) && Before(Canon(a), Canon(b)))
  {
    AtMostOnePattern(p, PatternOf(a).value, a);
    AtMostOnePattern(q, PatternOf(b).value, b);
    KeyTellsTime(p, a);
    KeyTellsTime(q, b);
    KeysOrderTimes(ParsedAs(p, a).key, ParsedAs(q, b).key);
  }

  /** A name of no generation sorts before every run directory. */
  lemma {:induction false} UnparsedSortsFirst(junk: string, p: Pattern, name: string)
    requires PatternOf(junk) == None && Matches(p, name)
    ensures SortsBefore(KeyOf(junk), KeyOf(name))
  {
    AtMostOnePattern(p, PatternOf(name).value, name);
    KeyTellsTime(p, name);
  }

  // ---- ordering by canon alone --------------------------------------------------------------

  lemma {:induction false} FieldsStart(s: string)
    ensures var f := Fields(s);
            && f[0] <= s
            && (|f| > 1 ==> |s| > |f[0]| && s[|f[0]|] == '_' && Fields(s[|f[0]| + 1..]) == f[1..])
  {
    if s != "" && s[0] != '_' {
      FieldsStart(s[1..]);
      var f, rest := Fields(s), Fields(s[1..]);
      assert f[0] == [s[0]] + rest[0] && f[1..] == rest[1..];
      if |f| > 1 { assert s[|f[0]| + 1..] == s[1..][|rest[0]| + 1..]; }
    } else if s != "" {
      assert Fields(s)[1..] == Fields(s[1..]);
    }
  }

  function Separator(p: Pattern): char {
    if p == OldProcess then '_' else 'T'
  }

  /** The first fifteen characters of the canonical name: date digits, separator, time digits. */
  function Head(sep: char, key: string): string
    requires |key| == 14
  {
    key[0..8] + [sep] + key[8..14]
  }

  lemma {:induction false} DashedHead(s: string, name: string)
    requires DashedStamp(s) && s <= name
    ensures |OnlyDigits(s)| == 14 && Head('T', OnlyDigits(s)) <= Canon(name)
  {
    DashedKey(s);
    assert name[..20] == s;
    assert Head('T', OnlyDigits(s)) <= Compact(s);
  }

  lemma {:induction false} UndashedHead(s: string, name: string)
    requires |s| >= 15 && Digits(s[0..8], 8) && !IsDigit(s[8]) && Digits(s[9..15], 6) && s <= name
    requires |s| == 15 || (|s| == 16 && !IsDigit(s[15]))
    ensures |OnlyDigits(s)| == 14 && Head(s[8], OnlyDigits(s)) <= Canon(name)
  {
    UndashedKey(s);
    assert IsDigit(s[0..8][4]) && name[4] == s[4];
    assert |name| >= 20 ==> name[..20][4] == name[4];
    assert Head(s[8], OnlyDigits(s)) == s[..15];
  }

  lemma CanonHead(p: Pattern, name: string)
    requires Matches(p, name)
    ensures var key := ParsedAs(p, name).key;
            |key| == 14 && Head(Separator(p), key) <= Canon(name)
  {
    StampStartsName(p, name);
    var s := StampOf(p, name);
    if p.DashedSession? || p.DashedProcess? {
      DashedHead(s, name);
    } else {
      UndashedHead(s, name);
    }
  }

  lemma StampStartsName(p: Pattern, name: string)
    requires Matches(p, name)
    ensures StampOf(p, name) <= name
  {
    var core := Chopped(name);
    var f := Fields(core);
    FieldsStart(core);
    if p == OldProcess {
      var tail := core[9..];
      FieldsStart(tail);
      assert f[1] == Fields(tail)[0] && f[1] <= tail;
      assert core == core[..8] + [core[8]] + tail && core[..8] == f[0];
      assert StampOf(p, name) <= core;
    }
  }

  /** Where `canon` alone may be used to order names: between two names of one separator, between
      different dates, and where the older generation's name is the later one. */
  predicate CanonSafe(p: Pattern, s: Time, q: Pattern, t: Time) {
    || Separator(p) == Separator(q)
    || !SameDate(s, t)
    || (if p == OldProcess then Earlier(t, s) else Earlier(s, t))
  }

  /** For stamps that differ, the order of the canonical names is the order of the times exactly
      there; in particular between any two SES1 or SES8 names. */
  lemma {:induction false} CanonOrderExact(p: Pattern, a: string, q: Pattern, b: string)
    requires Matches(p, a) && Matches(q, b) && TimeOf(p, a) != TimeOf(q, b)
    ensures (Before(Canon(a), Canon(b)) <==> Earlier(TimeOf(p, a), TimeOf(q, b)))
       <==> CanonSafe(p, TimeOf(p, a), q, TimeOf(q, b))
  {
    var k, x := CanonParts(p, a);
    var l, y := CanonParts(q, b);
    HeadedOrder(Separator(p), k, x, Separator(q), l, y);
    SafeBySeparator(p, KeyTime(k), q, KeyTime(l));
  }

  lemma {:induction false} CanonParts(p: Pattern, name: string) returns (key: string, rest: string)
    requires Matches(p, name)
    ensures Digits(key, 14) && TimeOf(p, name) == KeyTime(key)
    ensures Canon(name) == Head(Separator(p), key) + rest
  {
    key := ParsedAs(p, name).key;
    KeyTellsTime(p, name);
    CanonHead(p, name);
    rest := AfterHead(Head(Separator(p), key), Canon(name));
  }

  lemma AfterHead(head: string, s: string) returns (rest: string)
    requires head <= s
    ensures s == head + rest
  {
    rest := s[|head|..];
  }

  lemma SafeBySeparator(p: Pattern, s: Time, q: Pattern, t: Time)
    ensures CanonSafe(p, s, q, t)
       <==> || Separator(p) == Separator(q)
            || !SameDate(s, t)
            || (if Separator(q) < Separator(p) then Earlier(t, s) else Earlier(s, t))
  {
  }

  lemma {:induction false} HeadedOrder(c: char, k: string, x: string, d: char, l: string, y: string)
    requires Digits(k, 14) && Digits(l, 14) && KeyTime(k) != KeyTime(l)
    ensures (Before(Head(c, k) + x, Head(d, l) + y) <==> Earlier(KeyTime(k), KeyTime(l)))
       <==> || c == d
            || !SameDate(KeyTime(k), KeyTime(l))
            || (if d < c then Earlier(KeyTime(l), KeyTime(k)) else Earlier(KeyTime(k), KeyTime(l)))
  {
    KeysOrderTimes(k, l);
    KeysOrderTimes(l, k);
    BeforeTotal(k, l);
    DatePart(k, l);
    assert k == k[0..8] + k[8..14] && l == l[0..8] + l[8..14];
    BeforeSplit(k[0..8], l[0..8], k[8..14], l[8..14]);
    HeadsDecide(c, k, x, d, l, y);
    NotBeforeItself(k[0..8]);
  }

  lemma {:induction false} NotBeforeItself(a: string)
    ensures !Before(a, a)
  {
    if a != "" { NotBeforeItself(a[1..]); }
  }

  lemma HeadsDecide(c: char, k: string, x: string, d: char, l: string, y: string)
    requires |k| == |l| == 14
    requires k[8..14] != l[8..14] || c != d || k[0..8] != l[0..8]
    ensures Before(Head(c, k) + x, Head(d, l) + y) <==>
              || Before(k[0..8], l[0..8])
              || (k[0..8] == l[0..8] && (c < d || (c == d && Before(k[8..14], l[8..14]))))
  {
    var a, b := [c] + k[8..14], [d] + l[8..14];
    assert Head(c, k) + x == k[0..8] + (a + x) && Head(d, l) + y == l[0..8] + (b + y);
    BeforeSplit(k[0..8], l[0..8], a + x, b + y);
    assert a + x == [c] + (k[8..14] + x) && b + y == [d] + (l[8..14] + y);
    BeforeSplit([c], [d], k[8..14] + x, l[8..14] + y);
    BeforeSplit(k[8..14], l[8..14], x, y);
  }

  lemma DatePart(k: string, l: string)
    requires Digits(k, 14) && Digits(l, 14)
    ensures SameDate(KeyTime(k), KeyTime(l)) <==> k[0..8] == l[0..8]
  {
    assert k[0..8] == k[0..4] + k[4..6] + k[6..8] && l[0..8] == l[0..4] + l[4..6] + l[6..8];
    assert k[0..8][0..4] == k[0..4] && k[0..8][4..6] == k[4..6] && k[0..8][6..8] == k[6..8];
    assert l[0..8][0..4] == l[0..4] && l[0..8][4..6] == l[4..6] && l[0..8][6..8] == l[6..8];
    DigitsOrder(k[0..4], l[0..4], 4);
    DigitsOrder(k[4..6], l[4..6], 2);
    DigitsOrder(k[6..8], l[6..8], 2);
  }

  lemma {:induction false} BeforeTotal(a: string, b: string)
    requires |a| == |b| && a != b
    ensures Before(a, b) <==> !Before(b, a)
  {
    if a[0] == b[0] {
      assert a == [a[0]] + a[1..] && b == [b[0]] + b[1..];
      BeforeTotal(a[1..], b[1..]);
    }
  }

  // ---- names that canon puts in the wrong order ---------------------------------------------

  lemma {:induction false} OneField(s: string)
    requires '_' !in s
    ensures Fields(s) == [s]
  {
    if s != "" {
      assert s[0] in s && s == [s[0]] + s[1..];
      OneField(s[1..]);
    }
  }

  lemma {:induction false} FirstField(s: string, t: string)
    requires '_' !in s
    ensures Fields(s + ("_" + t)) == [s] + Fields(t)
  {
    var rest := "_" + t;
    if s == "" {
      EmptyAppend(rest);
      assert rest[1..] == t;
    } else {
      assert s[0] in s && s == [s[0]] + s[1..];
      FirstField(s[1..], t);
      TailOfAppend(s, rest);
      assert ([s[1..]] + Fields(t))[1..] == Fields(t);
    }
  }

  lemma ThreeFields(a: string, b: string, c: string)
    requires '_' !in a && '_' !in b && SomeAlnum(c)
    ensures var name := a + ("_" + (b + ("_" + c)));
            Chopped(name) == name && Fields(name) == [a, b, c]
  {
    var two := b + ("_" + c);
    TwoFields(b, c);
    FirstField(a, two);
    EndsAlike("_", two);
    EndsAlike(a, "_" + two);
  }

  lemma TwoFields(b: string, c: string)
    requires '_' !in b && SomeAlnum(c)
    ensures var two := b + ("_" + c);
            Fields(two) == [b, c] && two[|two| - 1] == c[|c| - 1]
  {
    FirstField(b, c);
    OneField(c);
    EndsAlike("_", c);
    EndsAlike(b, "_" + c);
  }

  lemma EndsAlike(front: string, end: string)
    requires end != ""
    ensures |front + end| > 0 && (front + end)[|front + end| - 1] == end[|end| - 1]
  {
  }

  /** A pre-SES1 process directory. */
  function OldName(date: string, clock: string, role: string): string {
    date + ("_" + (clock + ("_" + role)))
  }

  /** An SES1 process directory. */
  function CompactName(date: string, clock: string, role: string): string {
    CompactStampOf(date, clock) + ("_" + ("menu" + ("_" + role)))
  }

  function CompactStampOf(date: string, clock: string): string {
    date + "T" + clock + "Z"
  }

  lemma OldNameParses(date: string, clock: string, role: string)
    requires Digits(date, 8) && Digits(clock, 6) && SomeAlnum(role)
    ensures Matches(OldProcess, OldName(date, clock, role))
    ensures ParsedAs(OldProcess, OldName(date, clock, role)).key == date + clock
  {
    ThreeFields(date, clock, role);
    OldStamp(date, clock);
    UndashedKey(date + "_" + clock);
  }

  lemma CompactNameParses(date: string, clock: string, role: string)
    requires Digits(date, 8) && Digits(clock, 6) && SomeAlnum(role)
    ensures Matches(CompactProcess, CompactName(date, clock, role))
    ensures ParsedAs(CompactProcess, CompactName(date, clock, role)).key == date + clock
  {
    var s := CompactStampOf(date, clock);
    assert s[0..8] == date && s[8] == 'T' && s[9..15] == clock && s[15] == 'Z';
    ThreeFields(s, "menu", role);
    UndashedKey(s);
  }

  /** Every pre-SES1 name and every later SES1 name of the same day are real names that `canon` alone
      puts the wrong way round; the sort key has them right. */
  lemma {:induction false} SameDayMixMisordered(date: string, clock: string, role: string,
                                                laterClock: string, laterRole: string)
    requires Digits(date, 8) && Digits(clock, 6) && Digits(laterClock, 6) && Before(clock, laterClock)
    requires SomeAlnum(role) && SomeAlnum(laterRole)
    ensures var a, b := OldName(date, clock, role), CompactName(date, laterClock, laterRole);
            && Matches(OldProcess, a) && Matches(CompactProcess, b)
            && Earlier(TimeOf(OldProcess, a), TimeOf(CompactProcess, b))
            && Before(Canon(b), Canon(a)) && !Before(Canon(a), Canon(b))
            && SortsBefore(KeyOf(a), KeyOf(b))
  {
    var a, b := OldName(date, clock, role), CompactName(date, laterClock, laterRole);
    OldNameParses(date, clock, role);
    CompactNameParses(date, laterClock, laterRole);
    SameDayKeys(date, clock, laterClock);
    KeyTellsTime(OldProcess, a);
    KeyTellsTime(CompactProcess, b);
    CanonOrderExact(OldProcess, a, CompactProcess, b);
    CanonOrderExact(CompactProcess, b, OldProcess, a);
    SortKeyOrdersByTime(OldProcess, a, CompactProcess, b);
  }

  lemma {:induction false} SameDayKeys(date: string, clock: string, laterClock: string)
    requires Digits(date, 8) && Digits(clock, 6) && Digits(laterClock, 6) && Before(clock, laterClock)
    ensures Digits(date + clock, 14) && Digits(date + laterClock, 14)
    ensures var s, t := KeyTime(date + clock), KeyTime(date + laterClock);
            SameDate(s, t) && Earlier(s, t) && !Earlier(t, s)
  {
    TwoParts(date, clock);
    TwoParts(date, laterClock);
    BeforeSplit(date, date, clock, laterClock);
    KeysOrderTimes(date + clock, date + laterClock);
  }

  // ---- the session pattern that the checkers copy -------------------------------------------

  predicate IsMid(s: string) {
    |s| == 8 && forall i | 0 <= i < 8 :: IsHex(s[i])
  }

  predicate SomeMapChars(s: string) {
    s != "" && forall i | 0 <= i < |s| :: IsMapChar(s[i])
  }

  predicate AllLower(s: string) {
    forall i | 0 <= i < |s| :: IsLower(s[i])
  }

  /** `SESSION_DIR_RE`: a compact stamp and a slot, or a dashed stamp and a map; last any letters and
      digits. */
  predicate SessionDir(name: string) {
    var f := Fields(Chopped(name));
    && |f| == 4 && IsMid(f[1]) && SomeAlnum(f[3])
    && if DashedStamp(f[0]) then SomeMapChars(f[2]) else CompactStamp(f[0]) && f[2] != "" && Digits(f[2], |f[2]|)
  }

  /** `is_session_dir`. */
  predicate IsSession(name: string) {
    var p := PatternOf(name);
    p.Some? && ParsedAs(p.value, name).kind == Session
  }

  /** The copied pattern accepts the name and the parser does not: an SES8 name whose mode is not all
      lower-case letters. */
  predicate Disputed(name: string) {
    SessionDir(name) && DashedStamp(Fields(Chopped(name))[0]) && !AllLower(Fields(Chopped(name))[3])
  }

  /** Every session the parser knows is one to the checkers, no process directory is, and the two
      agree on a name exactly when it is not disputed. */
  lemma {:induction false} SessionReadingsAgree(name: string)
    ensures IsSession(name) ==> SessionDir(name)
    ensures SessionDir(name) && PatternOf(name).Some? ==> IsSession(name)
    ensures (IsSession(name) <==> SessionDir(name)) <==> !Disputed(name)
  {
    SessionIsOneOfTwo(name);
    var f := Fields(Chopped(name));
    if SessionDir(name) && AllLower(f[3]) && DashedStamp(f[0]) {
      assert Matches(DashedSession, name);
    }
  }

  lemma {:induction false} SessionIsOneOfTwo(name: string)
    ensures IsSession(name) <==> Matches(DashedSession, name) || Matches(CompactSession, name)
  {
    if Matches(DashedSession, name) { AtMostOnePattern(DashedSession, PatternOf(name).value, name); }
    if Matches(CompactSession, name) { AtMostOnePattern(CompactSession, PatternOf(name).value, name); }
  }

  /** To the parser a disputed name is no run directory at all, so it sorts before every one. */
  lemma {:induction false} DisputedSortsFirst(name: string, p: Pattern, other: string)
    requires Disputed(name) && Matches(p, other)
    ensures PatternOf(name) == None && SortsBefore(KeyOf(name), KeyOf(other))
  {
    if PatternOf(name).Some? { NoPatternButDashed(PatternOf(name).value, name); }
    UnparsedSortsFirst(name, p, other);
  }

  lemma NoPatternButDashed(p: Pattern, name: string)
    requires Matches(p, name) && SessionDir(name) && DashedStamp(Fields(Chopped(name))[0])
    ensures p == DashedSession && AllLower(Fields(Chopped(name))[3])
  {
  }

  /** An SES8 session name. */
  function DashedName(stamp: string, mid: string, mapName: string, mode: string): string {
    stamp + ("_" + (mid + ("_" + (mapName + ("_" + mode)))))
  }

  /** Any mode with something else than lower-case letters makes a disputed name. */
  lemma {:induction false} DisputedNames(stamp: string, mid: string, mapName: string, mode: string)
    requires DashedStamp(stamp) && IsMid(mid) && SomeMapChars(mapName) && SomeAlnum(mode) && !AllLower(mode)
    ensures Disputed(DashedName(stamp, mid, mapName, mode))
  {
    var three := mid + ("_" + (mapName + ("_" + mode)));
    NoUnderscore(stamp);
    ThreeFields(mid, mapName, mode);
    FirstField(stamp, three);
    EndsAlike("_", three);
    EndsAlike(stamp, "_" + three);
  }

  lemma NoUnderscore(stamp: string)
    requires DashedStamp(stamp)
    ensures '_' !in stamp
  {
    assert forall i | 0 <= i < 4 :: stamp[i] == stamp[0..4][i];
    assert stamp[5] == stamp[5..7][0] && stamp[6] == stamp[5..7][1] && stamp[8] == stamp[8..10][0];
    assert stamp[9] == stamp[8..10][1] && stamp[11] == stamp[11..13][0] && stamp[12] == stamp[11..13][1];
    assert stamp[14] == stamp[14..16][0] && stamp[15] == stamp[14..16][1];
    assert stamp[17] == stamp[17..19][0] && stamp[18] == stamp[17..19][1];
  }

  /** `2026-09-29T08-15-02Z_ab12cd34_x_Host1`. */
  lemma DisputedExample()
    ensures Disputed(DashedName("2026-09-29T08-15-02Z", "ab12cd34", "x", "Host1"))
  {
    assert "Host1"[0] == 'H';
    DisputedNames("2026-09-29T08-15-02Z", "ab12cd34", "x", "Host1");
  }

  // ---- the names, written out ---------------------------------------------------------------

  /** A moment in the digits of its parts: four for the year, two for each of the others. */
  datatype When = When(year: string, month: string, day: string, hour: string, minute: string, second: string)

  /** The five kinds of run directory. */
  datatype RunName =
    | Ses8Session(at: When, mid: string, mapName: string, mode: string)
    | Ses8Process(at: When, role: string)
    | Ses1Session(at: When, mid: string, slot: string, role: string)
    | Ses1Process(at: When, role: string)
    | PreSes1(at: When, role: string)

  predicate NDigits(s: string, n: nat) {
    |s| == n && forall c | c in s :: '0' <= c <= '9'
  }

  predicate GoodWhen(w: When) {
    && NDigits(w.year, 4) && NDigits(w.month, 2) && NDigits(w.day, 2)
    && NDigits(w.hour, 2) && NDigits(w.minute, 2) && NDigits(w.second, 2)
  }

  predicate GoodMid(s: string) {
    |s| == 8 && forall c | c in s :: '0' <= c <= '9' || 'a' <= c <= 'f'
  }

  predicate GoodRole(s: string) {
    s != "" && forall c | c in s :: '0' <= c <= '9' || 'a' <= c <= 'z' || 'A' <= c <= 'Z'
  }

  /** Which parts a name of each kind may have. */
  predicate GoodName(n: RunName) {
    && GoodWhen(n.at)
    && match n
       case Ses8Session(_, mid, mapName, mode) =>
         && GoodMid(mid)
         && mapName != ""
         && (forall c | c in mapName :: '0' <= c <= '9' || 'a' <= c <= 'z' || 'A' <= c <= 'Z' || c == '.' || c == '-')
         && mode != "" && forall c | c in mode :: 'a' <= c <= 'z'
       case Ses1Session(_, mid, slot, role) =>
         GoodMid(mid) && slot != "" && NDigits(slot, |slot|) && GoodRole(role)
       case Ses8Process(_, role) => GoodRole(role)
       case Ses1Process(_, role) => GoodRole(role)
       case PreSes1(_, role) => GoodRole(role)
  }

  function Under(a: string, b: string): string {
    a + ("_" + b)
  }

  function Dashed(w: When): string {
    w.year + "-" + w.month + "-" + w.day + "T" + w.hour + "-" + w.minute + "-" + w.second + "Z"
  }

  function DateDigits(w: When): string {
    w.year + w.month + w.day
  }

  function ClockDigits(w: When): string {
    w.hour + w.minute + w.second
  }

  function CompactWhen(w: When): string {
    DateDigits(w) + "T" + ClockDigits(w) + "Z"
  }

  function Written(n: RunName): string {
    match n
    case Ses8Session(w, mid, mapName, mode) => Under(Dashed(w), Under(mid, Under(mapName, mode)))
    case Ses8Process(w, role) => Under(Dashed(w), Under("menu", role))
    case Ses1Session(w, mid, slot, role) =>
      Under(CompactWhen(w), Under(mid, Under(slot, role)))
    case Ses1Process(w, role) => Under(CompactWhen(w), Under("menu", role))
    case PreSes1(w, role) => Under(DateDigits(w), Under(ClockDigits(w), role))
  }

  function PatternFor(n: RunName): Pattern {
    match n
    case Ses8Session(_, _, _, _) => DashedSession
    case Ses8Process(_, _) => DashedProcess
    case Ses1Session(_, _, _, _) => CompactSession
    case Ses1Process(_, _) => CompactProcess
    case PreSes1(_, _) => OldProcess
  }

  /** What the parser has to say about a name. */
  function Reading(n: RunName): Parsed {
    var key := DateDigits(n.at) + ClockDigits(n.at);
    match n
    case Ses8Session(w, mid, mapName, mode) =>
      Parsed(DashedSession, Session, Dashed(w), key, Some(mid), Some(mapName), None, None, Some(mode))
    case Ses8Process(w, role) => Parsed(DashedProcess, Process, Dashed(w), key, None, None, Some(role), None, None)
    case Ses1Session(w, mid, slot, role) =>
      Parsed(CompactSession, Session, CompactWhen(w), key,
             Some(mid), None, Some(role), Some(Number(slot)), Some(role))
    case Ses1Process(w, role) =>
      Parsed(CompactProcess, Process, CompactWhen(w), key,
             None, None, Some(role), None, None)
    case PreSes1(w, role) =>
      Parsed(OldProcess, Process, DateDigits(w) + "_" + ClockDigits(w), key, None, None, Some(role), None, None)
  }

  /** The number in a text of digits. */
  lemma {:induction false} NumberReads(s: string, c: char)
    requires '0' <= c <= '9'
    ensures Number("") == 0 && Number(s + [c]) == 10 * Number(s) + (c as int - '0' as int)
  {
    assert (s + [c])[..|s|] == s;
  }

  lemma DigitsAlike(s: string, n: nat)
    ensures NDigits(s, n) <==> Digits(s, n)
  {
    if Digits(s, n) {
      forall c | c in s
        ensures '0' <= c <= '9'
      {
        var i :| 0 <= i < |s| && s[i] == c;
      }
    }
    if NDigits(s, n) {
      assert forall i | 0 <= i < n :: s[i] in s;
    }
  }

  lemma MidAlike(s: string)
    ensures GoodMid(s) <==> IsMid(s)
  {
    if IsMid(s) {
      forall c | c in s
        ensures '0' <= c <= '9' || 'a' <= c <= 'f'
      {
        var i :| 0 <= i < |s| && s[i] == c;
      }
    }
    if GoodMid(s) {
      assert forall i | 0 <= i < 8 :: s[i] in s;
    }
  }

  lemma RoleAlike(s: string)
    ensures GoodRole(s) <==> SomeAlnum(s)
  {
    if SomeAlnum(s) {
      forall c | c in s
        ensures '0' <= c <= '9' || 'a' <= c <= 'z' || 'A' <= c <= 'Z'
      {
        var i :| 0 <= i < |s| && s[i] == c;
      }
    }
    if GoodRole(s) {
      assert forall i | 0 <= i < |s| :: s[i] in s;
    }
  }

  lemma ModeAlike(s: string)
    ensures (forall c | c in s :: 'a' <= c <= 'z') <==> AllLower(s)
  {
    if AllLower(s) {
      forall c | c in s
        ensures 'a' <= c <= 'z'
      {
        var i :| 0 <= i < |s| && s[i] == c;
      }
    }
    if forall c | c in s :: 'a' <= c <= 'z' {
      assert forall i | 0 <= i < |s| :: s[i] in s;
    }
  }

  lemma MapAlike(s: string)
    ensures SomeMapChars(s) <==>
              && s != ""
              && forall c | c in s :: '0' <= c <= '9' || 'a' <= c <= 'z' || 'A' <= c <= 'Z' || c == '.' || c == '-'
  {
    if SomeMapChars(s) {
      forall c | c in s
        ensures '0' <= c <= '9' || 'a' <= c <= 'z' || 'A' <= c <= 'Z' || c == '.' || c == '-'
      {
        var i :| 0 <= i < |s| && s[i] == c;
      }
    }
    if forall c | c in s :: '0' <= c <= '9' || 'a' <= c <= 'z' || 'A' <= c <= 'Z' || c == '.' || c == '-' {
      assert forall i | 0 <= i < |s| :: s[i] in s;
    }
  }

  lemma {:induction false} DigitParts(w: When)
    requires GoodWhen(w)
    ensures Digits(w.year, 4) && Digits(w.month, 2) && Digits(w.day, 2)
    ensures Digits(w.hour, 2) && Digits(w.minute, 2) && Digits(w.second, 2)
    ensures Digits(DateDigits(w), 8) && Digits(ClockDigits(w), 6)
  {
    DigitsAlike(w.year, 4);
    DigitsAlike(w.month, 2);
    DigitsAlike(w.day, 2);
    DigitsAlike(w.hour, 2);
    DigitsAlike(w.minute, 2);
    DigitsAlike(w.second, 2);
  }

  lemma {:induction false} DashedParts(w: When)
    requires GoodWhen(w)
    ensures var s := Dashed(w);
            && |s| == 20 && s[4] == '-' && s[7] == '-' && s[10] == 'T' && s[13] == '-' && s[16] == '-' && s[19] == 'Z'
            && s[0..4] == w.year && s[5..7] == w.month && s[8..10] == w.day
            && s[11..13] == w.hour && s[14..16] == w.minute && s[17..19] == w.second
  {
    var date, clock := w.year + "-" + w.month + "-" + w.day, w.hour + "-" + w.minute + "-" + w.second;
    assert Dashed(w) == date + ("T" + (clock + "Z"));
    DatePieces(w.year, w.month, w.day, "-");
    ClockPieces(w.hour, w.minute, w.second, "-");
    Around(date, "T", clock, "Z");
    SliceOfSlice(Dashed(w), 0, 10, 0, 4);
    SliceOfSlice(Dashed(w), 0, 10, 5, 7);
    SliceOfSlice(Dashed(w), 0, 10, 8, 10);
    SliceOfSlice(Dashed(w), 11, 19, 0, 2);
    SliceOfSlice(Dashed(w), 11, 19, 3, 5);
    SliceOfSlice(Dashed(w), 11, 19, 6, 8);
  }

  lemma DatePieces(a: string, b: string, c: string, sep: string)
    requires |a| == 4 && |b| == |c| == 2 && |sep| == 1
    ensures var s := a + sep + b + sep + c;
            |s| == 10 && s[0..4] == a && s[4] == sep[0] && s[5..7] == b && s[7] == sep[0] && s[8..10] == c
  {
  }

  lemma ClockPieces(a: string, b: string, c: string, sep: string)
    requires |a| == |b| == |c| == 2 && |sep| == 1
    ensures var s := a + sep + b + sep + c;
            |s| == 8 && s[0..2] == a && s[2] == sep[0] && s[3..5] == b && s[5] == sep[0] && s[6..8] == c
  {
  }

  lemma Around(date: string, t: string, clock: string, z: string)
    requires |date| == 10 && |t| == 1 && |clock| == 8 && |z| == 1
    ensures var s := date + (t + (clock + z));
            && |s| == 20 && s[0..10] == date && s[10] == t[0] && s[11..19] == clock && s[19] == z[0]
            && s[4] == date[4] && s[7] == date[7] && s[13] == clock[2] && s[16] == clock[5]
  {
  }

  lemma {:induction false} DashedReads(w: When)
    requires GoodWhen(w)
    ensures DashedStamp(Dashed(w)) && '_' !in Dashed(w)
    ensures OnlyDigits(Dashed(w)) == DateDigits(w) + ClockDigits(w)
  {
    DashedParts(w);
    DigitParts(w);
    NoUnderscore(Dashed(w));
    DashedKey(Dashed(w));
    ThreeAndThree(w.year, w.month, w.day, w.hour, w.minute, w.second);
  }

  lemma ThreeAndThree(a: string, b: string, c: string, d: string, e: string, f: string)
    ensures a + b + c + d + e + f == (a + b + c) + (d + e + f)
  {
  }

  lemma {:induction false} CompactReads(w: When)
    requires GoodWhen(w)
    ensures var s := CompactWhen(w);
            CompactStamp(s) && '_' !in s && OnlyDigits(s) == DateDigits(w) + ClockDigits(w)
  {
    DigitParts(w);
    var s := CompactWhen(w);
    assert s[0..8] == DateDigits(w) && s[8] == 'T' && s[9..15] == ClockDigits(w) && s[15] == 'Z';
    UndashedKey(s);
    assert forall i | 0 <= i < 8 :: s[i] == DateDigits(w)[i];
    assert forall i | 9 <= i < 15 :: s[i] == ClockDigits(w)[i - 9];
  }

  lemma FourFields(a: string, b: string, c: string, d: string)
    requires '_' !in a && '_' !in b && '_' !in c && SomeAlnum(d)
    ensures var name := Under(a, Under(b, Under(c, d)));
            Chopped(name) == name && Fields(name) == [a, b, c, d]
  {
    var three := Under(b, Under(c, d));
    ThreeFields(b, c, d);
    FirstField(a, three);
    TwoFields(c, d);
    EndsAlike("_", Under(c, d));
    EndsAlike(b, "_" + Under(c, d));
    EndsAlike("_", three);
    EndsAlike(a, "_" + three);
  }

  lemma NoUnderscores(s: string, n: nat)
    ensures Digits(s, n) || IsMid(s) || SomeMapChars(s) ==> '_' !in s
  {
  }

  /** A name of four fields, or of three, is read field by field. */
  lemma {:induction false} FourRead(p: Pattern, a: string, b: string, c: string, d: string)
    requires '_' !in a && '_' !in b && '_' !in c && SomeAlnum(d)
    ensures var name := Under(a, Under(b, Under(c, d)));
            && Chopped(name) == name
            && (Matches(p, name) <==> MatchesFields(p, [a, b, c, d]))
            && (Matches(p, name) ==> ParsedAs(p, name) == ParsedFields(p, [a, b, c, d]))
  {
    FourFields(a, b, c, d);
  }

  lemma {:induction false} ThreeRead(p: Pattern, a: string, b: string, c: string)
    requires '_' !in a && '_' !in b && SomeAlnum(c)
    ensures var name := Under(a, Under(b, c));
            && Chopped(name) == name
            && (Matches(p, name) <==> MatchesFields(p, [a, b, c]))
            && (Matches(p, name) ==> ParsedAs(p, name) == ParsedFields(p, [a, b, c]))
  {
    ThreeFields(a, b, c);
  }

  lemma {:induction false} Ses8SessionReads(w: When, mid: string, mapName: string, mode: string)
    requires GoodName(Ses8Session(w, mid, mapName, mode))
    ensures var f := [Dashed(w), mid, mapName, mode];
            && '_' !in f[0] && '_' !in f[1] && '_' !in f[2] && SomeAlnum(f[3])
            && MatchesFields(DashedSession, f)
            && ParsedFields(DashedSession, f) == Reading(Ses8Session(w, mid, mapName, mode))
  {
    DashedReads(w);
    MidAlike(mid);
    MapAlike(mapName);
    ModeAlike(mode);
    NoUnderscores(mid, 8);
    NoUnderscores(mapName, 0);
  }

  lemma {:induction false} Ses8ProcessReads(w: When, role: string)
    requires GoodName(Ses8Process(w, role))
    ensures var f := [Dashed(w), "menu", role];
            && '_' !in f[0] && SomeAlnum(f[2])
            && MatchesFields(DashedProcess, f) && ParsedFields(DashedProcess, f) == Reading(Ses8Process(w, role))
  {
    DashedReads(w);
    RoleAlike(role);
  }

  lemma {:induction false} Ses1SessionReads(w: When, mid: string, slot: string, role: string)
    requires GoodName(Ses1Session(w, mid, slot, role))
    ensures var f := [CompactWhen(w), mid, slot, role];
            && '_' !in f[0] && '_' !in f[1] && '_' !in f[2] && SomeAlnum(f[3])
            && MatchesFields(CompactSession, f)
            && ParsedFields(CompactSession, f) == Reading(Ses1Session(w, mid, slot, role))
  {
    CompactReads(w);
    MidAlike(mid);
    RoleAlike(role);
    DigitsAlike(slot, |slot|);
    NoUnderscores(mid, 8);
    NoUnderscores(slot, |slot|);
  }

  lemma {:induction false} Ses1ProcessReads(w: When, role: string)
    requires GoodName(Ses1Process(w, role))
    ensures var f := [CompactWhen(w), "menu", role];
            && '_' !in f[0] && SomeAlnum(f[2])
            && MatchesFields(CompactProcess, f) && ParsedFields(CompactProcess, f) == Reading(Ses1Process(w, role))
  {
    CompactReads(w);
    RoleAlike(role);
  }

  lemma {:induction false} PreSes1Reads(w: When, role: string)
    requires GoodName(PreSes1(w, role))
    ensures var f := [DateDigits(w), ClockDigits(w), role];
            && '_' !in f[0] && '_' !in f[1] && SomeAlnum(f[2])
            && MatchesFields(OldProcess, f) && ParsedFields(OldProcess, f) == Reading(PreSes1(w, role))
  {
    DigitParts(w);
    RoleAlike(role);
    OldReads(w);
    NoUnderscores(DateDigits(w), 8);
    NoUnderscores(ClockDigits(w), 6);
  }

  /** A written name parses, into exactly its own parts. */
  lemma {:induction false} ParsesAsWritten(n: RunName)
    requires GoodName(n)
    ensures Matches(PatternFor(n), Written(n)) && ParsedAs(PatternFor(n), Written(n)) == Reading(n)
    ensures Chopped(Written(n)) == Written(n)
  {
    match n
    case Ses8Session(w, mid, mapName, mode) =>
      Ses8SessionReads(w, mid, mapName, mode);
      FourRead(DashedSession, Dashed(w), mid, mapName, mode);
    case Ses8Process(w, role) =>
      Ses8ProcessReads(w, role);
      ThreeRead(DashedProcess, Dashed(w), "menu", role);
    case Ses1Session(w, mid, slot, role) =>
      Ses1SessionReads(w, mid, slot, role);
      FourRead(CompactSession, CompactWhen(w), mid, slot, role);
    case Ses1Process(w, role) =>
      Ses1ProcessReads(w, role);
      ThreeRead(CompactProcess, CompactWhen(w), "menu", role);
    case PreSes1(w, role) =>
      PreSes1Reads(w, role);
      ThreeRead(OldProcess, DateDigits(w), ClockDigits(w), role);
  }

  lemma {:induction false} OldReads(w: When)
    requires GoodWhen(w)
    ensures OnlyDigits(DateDigits(w) + "_" + ClockDigits(w)) == DateDigits(w) + ClockDigits(w)
  {
    DigitParts(w);
    OldStamp(DateDigits(w), ClockDigits(w));
    UndashedKey(DateDigits(w) + "_" + ClockDigits(w));
  }

  function Rejoin(f: seq<string>): string {
    if f == [] then "" else if |f| == 1 then f[0] else Under(f[0], Rejoin(f[1..]))
  }

  lemma {:induction false} FieldsRejoin(s: string)
    ensures Rejoin(Fields(s)) == s
  {
    if s != "" {
      FieldsRejoin(s[1..]);
      var f, rest := Fields(s), Fields(s[1..]);
      assert s == [s[0]] + s[1..];
      if s[0] == '_' {
        assert f[1..] == rest && Under("", s[1..]) == "" + ("_" + s[1..]);
      } else {
        GrownField(s[0], rest);
      }
    }
  }

  lemma GrownField(c: char, f: seq<string>)
    requires f != []
    ensures Rejoin([[c] + f[0]] + f[1..]) == [c] + Rejoin(f)
  {
    var g := [[c] + f[0]] + f[1..];
    assert g[0] == [c] + f[0] && g[1..] == f[1..];
    if |f| > 1 { Associates([c], f[0], "_" + Rejoin(f[1..])); }
  }

  lemma {:induction false} RejoinThree(f: seq<string>)
    requires |f| == 3
    ensures Rejoin(f) == Under(f[0], Under(f[1], f[2]))
  {
    assert f[1..][1..] == [f[2]];
    assert Rejoin(f[1..]) == Under(f[1], Rejoin([f[2]]));
  }

  lemma {:induction false} RejoinFour(f: seq<string>)
    requires |f| == 4
    ensures Rejoin(f) == Under(f[0], Under(f[1], Under(f[2], f[3])))
  {
    RejoinThree(f[1..]);
  }

  lemma {:induction false} DashedFrom(s: string) returns (w: When)
    requires DashedStamp(s)
    ensures GoodWhen(w) && Dashed(w) == s
  {
    w := When(s[0..4], s[5..7], s[8..10], s[11..13], s[14..16], s[17..19]);
    GoodParts(w);
    var date, clock := w.year + "-" + w.month + "-" + w.day, w.hour + "-" + w.minute + "-" + w.second;
    assert date == s[0..10];
    assert clock == s[11..19];
    assert Dashed(w) == date + ("T" + (clock + "Z"));
    assert s == s[0..10] + ([s[10]] + (s[11..19] + [s[19]]));
  }

  lemma GoodParts(w: When)
    requires Digits(w.year, 4) && Digits(w.month, 2) && Digits(w.day, 2)
    requires Digits(w.hour, 2) && Digits(w.minute, 2) && Digits(w.second, 2)
    ensures GoodWhen(w)
  {
    DigitsAlike(w.year, 4);
    DigitsAlike(w.month, 2);
    DigitsAlike(w.day, 2);
    DigitsAlike(w.hour, 2);
    DigitsAlike(w.minute, 2);
    DigitsAlike(w.second, 2);
  }

  lemma {:induction false} DigitsFrom(date: string, clock: string) returns (w: When)
    requires Digits(date, 8) && Digits(clock, 6)
    ensures GoodWhen(w) && DateDigits(w) == date && ClockDigits(w) == clock
  {
    w := When(date[0..4], date[4..6], date[6..8], clock[0..2], clock[2..4], clock[4..6]);
    GoodParts(w);
    assert DateDigits(w) == date && ClockDigits(w) == clock;
  }

  lemma {:induction false} CompactFrom(s: string) returns (w: When)
    requires CompactStamp(s)
    ensures GoodWhen(w) && CompactWhen(w) == s
  {
    w := DigitsFrom(s[0..8], s[9..15]);
    assert s == s[0..8] + "T" + s[9..15] + "Z";
  }

  /** Whatever parses was written by those rules, up to a newline at its end. */
  lemma {:induction false} WrittenIfParses(p: Pattern, name: string) returns (n: RunName)
    requires Matches(p, name)
    ensures GoodName(n) && PatternFor(n) == p && Chopped(name) == Written(n)
  {
    var f := Fields(Chopped(name));
    FieldsRejoin(Chopped(name));
    match p
    case DashedSession =>
      var w := DashedFrom(f[0]);
      MidAlike(f[1]);
      MapAlike(f[2]);
      ModeAlike(f[3]);
      RejoinFour(f);
      n := Ses8Session(w, f[1], f[2], f[3]);
    case DashedProcess =>
      var w := DashedFrom(f[0]);
      RoleAlike(f[2]);
      RejoinThree(f);
      n := Ses8Process(w, f[2]);
    case CompactSession =>
      var w := CompactFrom(f[0]);
      MidAlike(f[1]);
      DigitsAlike(f[2], |f[2]|);
      RoleAlike(f[3]);
      RejoinFour(f);
      n := Ses1Session(w, f[1], f[2], f[3]);
    case CompactProcess =>
      var w := CompactFrom(f[0]);
      RoleAlike(f[2]);
      RejoinThree(f);
      n := Ses1Process(w, f[2]);
    case OldProcess =>
      var w := DigitsFrom(f[0], f[1]);
      RoleAlike(f[2]);
      RejoinThree(f);
      n := PreSes1(w, f[2]);
  }

  /** The name is written so, up to one newline at its end. */
  predicate WrittenAs(name: string, n: RunName) {
    GoodName(n) && (name == Written(n) || name == Written(n) + "\n")
  }

  /** A name is a run directory exactly if it is written by the rules, and it is read as its parts. */
  lemma {:induction false} ParsesExactly(name: string)
    ensures PatternOf(name).Some? <==> exists n :: WrittenAs(name, n)
    ensures forall n | WrittenAs(name, n) :: PatternOf(name) == Some(PatternFor(n))
                                             && ParsedAs(PatternFor(n), name) == Reading(n)
  {
    if PatternOf(name).Some? {
      var n := WrittenIfParses(PatternOf(name).value, name);
      UnChop(name);
      assert WrittenAs(name, n);
    }
    forall n | WrittenAs(name, n)
      ensures PatternOf(name) == Some(PatternFor(n)) && ParsedAs(PatternFor(n), name) == Reading(n)
    {
      WrittenIsRead(name, n);
    }
  }

  lemma UnChop(name: string)
    ensures name == Chopped(name) || name == Chopped(name) + "\n"
  {
  }

  lemma {:induction false} WrittenIsRead(name: string, n: RunName)
    requires WrittenAs(name, n)
    ensures Matches(PatternFor(n), name) && PatternOf(name) == Some(PatternFor(n))
    ensures ParsedAs(PatternFor(n), name) == Reading(n)
  {
    ParsesAsWritten(n);
    assert (Written(n) + "\n")[..|Written(n)|] == Written(n);
    assert Chopped(name) == Written(n) == Chopped(Written(n));
    SameChopped(PatternFor(n), Written(n), name);
    AtMostOnePattern(PatternFor(n), PatternOf(name).value, name);
  }

  /** A final newline makes no difference to the patterns. */
  lemma SameChopped(p: Pattern, a: string, b: string)
    requires Chopped(a) == Chopped(b) && Matches(p, a)
    ensures Matches(p, b) && ParsedAs(p, b) == ParsedAs(p, a)
  {
  }

  /** The time of a written name is the one its digits say. */
  lemma {:induction false} TimeAsWritten(n: RunName)
    requires GoodName(n)
    ensures Matches(PatternFor(n), Written(n))
    ensures TimeOf(PatternFor(n), Written(n))
         == Time(Number(n.at.year), Number(n.at.month), Number(n.at.day),
                 Number(n.at.hour), Number(n.at.minute), Number(n.at.second))
  {
    ParsesAsWritten(n);
    KeyTellsTime(PatternFor(n), Written(n));
    DigitParts(n.at);
    TwoParts(DateDigits(n.at), ClockDigits(n.at));
    DatePieces8(n.at.year, n.at.month, n.at.day);
    ClockPieces6(n.at.hour, n.at.minute, n.at.second);
  }

  lemma DatePieces8(a: string, b: string, c: string)
    requires |a| == 4 && |b| == |c| == 2
    ensures var s := a + b + c; s[0..4] == a && s[4..6] == b && s[6..8] == c
  {
  }

  lemma ClockPieces6(a: string, b: string, c: string)
    requires |a| == |b| == |c| == 2
    ensures var s := a + b + c; s[0..2] == a && s[2..4] == b && s[4..6] == c
  {
  }

  /** `canon` rewrites a dashed stamp at the start to the compact one, and no other name. */
  lemma {:induction false} CanonRewrites(w: When, rest: string, name: string)
    ensures GoodWhen(w) ==> Canon(Dashed(w) + rest) == (CompactWhen(w)) + rest
    ensures (forall v | GoodWhen(v) :: !(Dashed(v) <= name)) ==> Canon(name) == name
  {
    if GoodWhen(w) {
      DashedReads(w);
      DashedParts(w);
      assert (Dashed(w) + rest)[..20] == Dashed(w) && (Dashed(w) + rest)[20..] == rest;
      CompactedParts(w.year, w.month, w.day, w.hour, w.minute, w.second);
    }
    if |name| >= 20 && DashedStamp(name[..20]) {
      var v := DashedFrom(name[..20]);
      assert Dashed(v) <= name;
    }
  }

  lemma CompactedParts(a: string, b: string, c: string, d: string, e: string, f: string)
    ensures a + b + c + "T" + d + e + f + "Z" == (a + b + c) + "T" + (d + e + f) + "Z"
  {
  }

  /** A session name as the copied pattern takes it, up to one newline at its end. */
  predicate SessionWritten(name: string, w: When, mid: string, third: string, last: string) {
    && GoodWhen(w) && GoodMid(mid) && GoodRole(last)
    && ((SomeMapChars(third) && Chopped(name) == Under(Dashed(w), Under(mid, Under(third, last))))
        || (third != "" && NDigits(third, |third|)
            && Chopped(name) == Under(CompactWhen(w), Under(mid, Under(third, last)))))
  }

  lemma {:induction false} SessionDirExactly(name: string)
    ensures SessionDir(name) <==> exists w, mid, third, last :: SessionWritten(name, w, mid, third, last)
  {
    if SessionDir(name) {
      var f := Fields(Chopped(name));
      FieldsRejoin(Chopped(name));
      RejoinFour(f);
      MidAlike(f[1]);
      RoleAlike(f[3]);
      DigitsAlike(f[2], |f[2]|);
      if DashedStamp(f[0]) {
        var w := DashedFrom(f[0]);
        assert SessionWritten(name, w, f[1], f[2], f[3]);
      } else {
        var w := CompactFrom(f[0]);
        assert SessionWritten(name, w, f[1], f[2], f[3]);
      }
    }
    if w, mid, third, last :| SessionWritten(name, w, mid, third, last) {
      WrittenSession(name, w, mid, third, last);
    }
  }

  lemma {:induction false} WrittenSession(name: string, w: When, mid: string, third: string, last: string)
    requires SessionWritten(name, w, mid, third, last)
    ensures SessionDir(name)
  {
    DashedReads(w);
    CompactReads(w);
    DashedParts(w);
    MidAlike(mid);
    RoleAlike(last);
    DigitsAlike(third, |third|);
    NoUnderscores(mid, 8);
    NoUnderscores(third, |third|);
    if SomeMapChars(third) && Chopped(name) == Under(Dashed(w), Under(mid, Under(third, last))) {
      FourFields(Dashed(w), mid, third, last);
    } else {
      FourFields(CompactWhen(w), mid, third, last);
    }
  }
}
