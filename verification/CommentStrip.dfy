/** Comment removal from C and C++ text in one left-to-right pass (tools/_cstrip.py).

    The specification is a token relation, written without the loop: `Leads(tok, text)` says
    which token a text starts with, and `Tokenises` chains it to the end of the text.  Every text
    has exactly one tokenisation; stripping keeps its literals and plain characters and drops its
    comments (in line-preserving mode a block comment leaves its newlines behind). */
module CommentStrip {
  import opened Sequences

  datatype Token =
    | Plain(c: char)
    | Literal(s: string)
    | LineComment(s: string)
    | BlockComment(s: string)
  {
    function Source(): string {
      if Plain? then [c] else s
    }

    predicate IsComment() {
      LineComment? || BlockComment?
    }
  }

  predicate IsQuote(c: char) {
    c == '"' || c == '\''
  }

  // ---- what the pieces of the text mean -----------------------------------------------------

  /** The character at `k` of a literal's body is preceded by an escaping backslash. */
  predicate Escaped(body: string, k: nat)
    requires k <= |body|
  {
    k > 0 && body[k - 1] == '\\' && !Escaped(body, k - 1)
  }

  /** The body of a literal opened by `q` is closed by its character at `k`. */
  predicate ClosesAt(body: string, q: char, k: nat) {
    k < |body| && body[k] == q && !Escaped(body, k)
  }

  predicate OccursAt(text: string, sub: string, k: nat) {
    k + |sub| <= |text| && text[k..k + |sub|] == sub
  }

  /** `text.find(sub, start)`: the first occurrence at or after `start`, or -1. */
  function Find(text: string, sub: string, start: nat): (r: int)
    ensures r == -1 || (start <= r && OccursAt(text, sub, r))
    ensures forall k: nat :: start <= k && (r == -1 || k < r) ==> !OccursAt(text, sub, k)
    decreases |text| - start
  {
    if start + |sub| > |text| then -1
    else if OccursAt(text, sub, start) then start
    else if start == |text| then -1
    else Find(text, sub, start + 1)
  }

  /** `text` starts with the token `tok`. */
  ghost predicate Leads(tok: Token, text: string) {
    var n := |tok.Source()|;
    && 0 < n <= |text|
    && tok.Source() == text[..n]
    && match tok {
         case Plain(c) =>
           !IsQuote(c) && !(c == '/' && |text| > 1 && (text[1] == '/' || text[1] == '*'))
         case Literal(s) =>
           && IsQuote(s[0])
           && (forall k: nat :: k < n - 2 ==> !ClosesAt(text[1..], s[0], k))
           && (n == |text| || (n >= 2 && ClosesAt(text[1..], s[0], n - 2)))
         case LineComment(s) =>
           && OccursAt(text, "//", 0) && n >= 2
           && '\n' !in s
           && (n == |text| || text[n] == '\n')
         case BlockComment(s) =>
           && OccursAt(text, "/*", 0) && n >= 2
           && (forall k: nat :: 2 <= k < n - 2 ==> !OccursAt(text, "*/", k))
           && (n == |text| || (n >= 4 && OccursAt(text, "*/", n - 2)))
       }
  }

  /** `toks` is a tokenisation of the whole of `text`. */
  ghost predicate Tokenises(toks: seq<Token>, text: string) {
    if toks == [] then text == ""
    else Leads(toks[0], text) && Tokenises(toks[1..], text[|toks[0].Source()|..])
  }

  function Text(toks: seq<Token>): string {
    if toks == [] then "" else toks[0].Source() + Text(toks[1..])
  }

  // ---- one tokenisation, and only one -------------------------------------------------------

  lemma LeadsIsUnique(a: Token, b: Token, text: string)
    requires Leads(a, text) && Leads(b, text)
    ensures a == b
  {
    assert OccursAt(text, "//", 0) ==> text[..2][0] == '/' && text[..2][1] == '/';
    assert OccursAt(text, "/*", 0) ==> text[..2][0] == '/' && text[..2][1] == '*';
    assert text[0] == a.Source()[0] == b.Source()[0];
    var m, n := |a.Source()|, |b.Source()|;
    match a {
      case Plain(_) =>
      case Literal(s) =>
        assert b.Literal?;
      case LineComment(s) =>
        assert b.LineComment?;
      case BlockComment(s) =>
        assert b.BlockComment?;
    }
  }

  /** No text has two tokenisations. */
  lemma {:induction false} TokenisationIsUnique(a: seq<Token>, b: seq<Token>, text: string)
    requires Tokenises(a, text) && Tokenises(b, text)
    ensures a == b
  {
    if a != [] && b != [] {
      LeadsIsUnique(a[0], b[0], text);
      TokenisationIsUnique(a[1..], b[1..], text[|a[0].Source()|..]);
      assert a == [a[0]] + a[1..] && b == [b[0]] + b[1..];
    }
  }

  function LiteralEnd(body: string, q: char, k: nat): (e: nat)
    requires k <= |body|
    requires forall j: nat :: j < k ==> !ClosesAt(body, q, j)
    ensures k <= e <= |body|
    ensures forall j: nat :: j < e - 1 ==> !ClosesAt(body, q, j)
    ensures e == |body| || (e > 0 && ClosesAt(body, q, e - 1))
    decreases |body| - k
  {
    if k == |body| then k
    else if ClosesAt(body, q, k) then k + 1
    else LiteralEnd(body, q, k + 1)
  }

  function FirstToken(text: string): (tok: Token)
    requires text != ""
    ensures Leads(tok, text)
  {
    if IsQuote(text[0]) then
      Literal(text[..1 + LiteralEnd(text[1..], text[0], 0)])
    else if OccursAt(text, "//", 0) then
      assert text[..2] == "//";
      var j := Find(text, "\n", 0);
      assert j >= 0 ==> text[j..j + 1][0] == '\n' && text[0] == text[..2][0] && text[1] == text[..2][1];
      assert forall k: nat :: k < |text| && text[k] == '\n' ==> OccursAt(text, "\n", k);
      LineComment(if j < 0 then text else text[..j])
    else if OccursAt(text, "/*", 0) then
      assert text[..2] == "/*";
      var j := Find(text, "*/", 2);
      BlockComment(if j < 0 then text else text[..j + 2])
    else
      assert |text| > 1 ==> text[..2] == [text[0], text[1]];
      Plain(text[0])
  }

  function Lex(text: string): (toks: seq<Token>)
    ensures Tokenises(toks, text)
    decreases |text|
  {
    if text == "" then []
    else
      var tok := FirstToken(text);
      [tok] + Lex(text[|tok.Source()|..])
  }

  lemma {:induction false} TextOfTokenisation(toks: seq<Token>, text: string)
    requires Tokenises(toks, text)
    ensures Text(toks) == text
  {
    if toks != [] {
      var n := |toks[0].Source()|;
      TextOfTokenisation(toks[1..], text[n..]);
      assert text == text[..n] + text[n..];
    }
  }

  // ---- stripping ----------------------------------------------------------------------------

  function CountNewlines(s: string): nat {
    if s == "" then 0 else (if s[0] == '\n' then 1 else 0) + CountNewlines(s[1..])
  }

  function Newlines(n: nat): (toks: seq<Token>)
    ensures |toks| == n && forall t :: t in toks ==> t == Plain('\n')
  {
    seq(n, _ => Plain('\n'))
  }

  function Keep(toks: seq<Token>, keepLines: bool): seq<Token> {
    if toks == [] then []
    else KeepOne(toks[0], keepLines) + Keep(toks[1..], keepLines)
  }

  function KeepOne(tok: Token, keepLines: bool): seq<Token> {
    if !tok.IsComment() then [tok]
    else if tok.BlockComment? && keepLines then Newlines(CountNewlines(tok.s))
    else []
  }

  /** The meaning of `strip_comments`: the kept tokens of the text's one tokenisation. */
  function Strip(text: string, keepLines: bool): string {
    Text(Keep(Lex(text), keepLines))
  }

  lemma {:induction false} TextAppend(a: seq<Token>, b: seq<Token>)
    ensures Text(a + b) == Text(a) + Text(b)
  {
    if a == [] {
      EmptyAppend(b);
      EmptyAppend(Text(b));
    } else {
      TextAppend(a[1..], b);
      TailOfAppend(a, b);
      Associates(a[0].Source(), Text(a[1..]), Text(b));
    }
  }

  lemma {:induction false} NewlinesText(n: nat)
    ensures Text(Newlines(n)) == seq(n, _ => '\n')
  {
    if n > 0 {
      NewlinesText(n - 1);
      assert Newlines(n)[1..] == Newlines(n - 1);
    }
  }

  lemma {:induction false} StripStep(text: string, tok: Token, keepLines: bool)
    requires Leads(tok, text)
    ensures var rest := text[|tok.Source()|..];
            && Lex(text) == [tok] + Lex(rest)
            && Strip(text, keepLines) == Text(KeepOne(tok, keepLines)) + Strip(rest, keepLines)
  {
    var rest := text[|tok.Source()|..];
    var toks := [tok] + Lex(rest);
    assert toks[1..] == Lex(rest);
    assert Tokenises(toks, text);
    TokenisationIsUnique(toks, Lex(text), text);
    TextAppend(KeepOne(tok, keepLines), Keep(Lex(rest), keepLines));
  }

  // ---- the loop of the source ---------------------------------------------------------------

  /** The inner loop has read `m` characters of a literal's body and met (`closed`) or not met
      the closing quote. */
  ghost predicate Scanned(body: string, q: char, m: nat, closed: bool) {
    && m <= |body|
    && (forall k: nat :: k < m - 1 ==> !ClosesAt(body, q, k))
    && (m >= 1 ==> (closed <==> ClosesAt(body, q, m - 1)))
    && (closed ==> m >= 1)
    && (!closed && m < |body| ==> !Escaped(body, m))
  }

  lemma ScanStep(body: string, q: char, m: nat)
    requires IsQuote(q) && m < |body| && Scanned(body, q, m, false)
    ensures if body[m] == '\\' then Scanned(body, q, if m + 2 <= |body| then m + 2 else |body|, false)
            else Scanned(body, q, m + 1, body[m] == q)
  {
    assert body[m] == '\\' ==> Escaped(body, m + 1);
  }

  /** A literal is scanned whole, from its opening quote at `start`. */
  method ScanLiteral(text: string, start: nat) returns (chunk: string, i: nat)
    requires start < |text| && IsQuote(text[start])
    ensures start < i <= |text| && chunk == text[start..i]
    ensures Leads(Literal(chunk), text[start..])
  {
    var n, c := |text|, text[start];
    ghost var body := text[start + 1..];
    chunk, i := [c], start + 1;
    var closed := false;
    while i < n && !closed
      invariant start + 1 <= i <= n && chunk == text[start..i]
      invariant Scanned(body, c, i - start - 1, closed)
    {
      ScanStep(body, c, i - start - 1);
      if text[i] == '\\' {
        // any escape: two characters, or the one that is left at the end of the text
        var e := if i + 2 <= n then i + 2 else n;
        Extend(text, start, i, e);
        chunk := chunk + text[i..e];
        i := e;
      } else {
        Extend(text, start, i, i + 1);
        chunk := chunk + [text[i]];
        closed := text[i] == c;
        i := i + 1;
      }
    }
    ScannedLiteral(text, start, i, closed);
  }

  lemma {:induction false} ScannedLiteral(text: string, start: nat, i: nat, closed: bool)
    requires start < i <= |text| && IsQuote(text[start]) && (closed || i == |text|)
    requires Scanned(text[start + 1..], text[start], i - start - 1, closed)
    ensures Leads(Literal(text[start..i]), text[start..])
  {
    assert text[start..][1..] == text[start + 1..];
    LiteralLeads(text[start..], text[start..i], closed);
  }

  lemma Extend(text: string, start: nat, i: nat, e: nat)
    requires start <= i <= e <= |text|
    ensures text[start..i] + text[i..e] == text[start..e]
    ensures e == i + 1 ==> text[i..e] == [text[i]]
  {
  }

  lemma LiteralLeads(text: string, s: string, closed: bool)
    requires s != "" && s <= text && IsQuote(s[0])
    requires Scanned(text[1..], s[0], |s| - 1, closed) && (closed || s == text)
    ensures Leads(Literal(s), text)
  {
  }

  /** One turn of the outer loop: what position `i` appends to the output, and where it goes on. */
  method StripAt(text: string, i: nat, keepLines: bool) returns (piece: string, next: nat)
    requires i < |text|
    ensures i < next <= |text| && FirstToken(text[i..]).Source() == text[i..next]
    ensures piece == Rendered(FirstToken(text[i..]), keepLines)
  {
    var c, n := text[i], |text|;
    if IsQuote(c) {
      piece, next := ScanLiteral(text, i);
      LeadsIsUnique(FirstToken(text[i..]), Literal(piece), text[i..]);
    } else if c == '/' && i + 1 < n && text[i + 1] == '/' {
      LineCommentAt(text, i);
      var j := Find(text, "\n", i);
      piece, next := "", if j < 0 then n else j;      // the newline itself is kept
    } else if c == '/' && i + 1 < n && text[i + 1] == '*' {
      BlockCommentAt(text, i);
      var j := Find(text, "*/", i + 2);
      next := if j < 0 then n else j + 2;
      piece := if keepLines then seq(CountNewlines(text[i..next]), _ => '\n') else "";
    } else {
      PlainAt(text, i);
      piece, next := [c], i + 1;
    }
  }

  method StripComments(text: string, keepLines: bool) returns (out: string)
    ensures out == Strip(text, keepLines)
  {
    out := "";
    var i := 0;
    while i < |text|
      invariant 0 <= i <= |text|
      invariant out + Strip(text[i..], keepLines) == Strip(text, keepLines)
    {
      var piece, next := StripAt(text, i, keepLines);
      Advance(text, i, next, FirstToken(text[i..]), out, keepLines);
      out := out + piece;
      i := next;
    }
    assert text[i..] == "";
  }

  lemma LineCommentAt(text: string, i: nat)
    requires i + 1 < |text| && text[i] == '/' && text[i + 1] == '/'
    ensures var j := Find(text, "\n", i);
            FirstToken(text[i..]) == LineComment(text[i..if j < 0 then |text| else j])
  {
    assert text[i..][..2] == "//";
    ShiftFind(text, "\n", i, 0);
  }

  lemma BlockCommentAt(text: string, i: nat)
    requires i + 1 < |text| && text[i] == '/' && text[i + 1] == '*'
    ensures var j := Find(text, "*/", i + 2);
            FirstToken(text[i..]) == BlockComment(text[i..if j < 0 then |text| else j + 2])
  {
    assert text[i..][..2] == "/*";
    ShiftFind(text, "*/", i, 2);
  }

  lemma PlainAt(text: string, i: nat)
    requires i < |text| && !IsQuote(text[i])
    requires !(text[i] == '/' && i + 1 < |text| && (text[i + 1] == '/' || text[i + 1] == '*'))
    ensures FirstToken(text[i..]) == Plain(text[i])
  {
    if i + 1 < |text| { assert text[i..][..2] == [text[i], text[i + 1]]; }
  }

  function Rendered(tok: Token, keepLines: bool): string {
    if !tok.IsComment() then tok.Source()
    else if tok.BlockComment? && keepLines then seq(CountNewlines(tok.s), _ => '\n')
    else ""
  }

  lemma RenderedIsKept(tok: Token, keepLines: bool)
    ensures Text(KeepOne(tok, keepLines)) == Rendered(tok, keepLines)
  {
    if !tok.IsComment() {
      assert Text([tok]) == tok.Source() + Text([]);
    } else if tok.BlockComment? && keepLines {
      NewlinesText(CountNewlines(tok.s));
    }
  }

  lemma {:induction false} Advance(text: string, start: nat, i: nat, tok: Token, out: string, keepLines: bool)
    requires start < i <= |text|
    requires Leads(tok, text[start..]) && |tok.Source()| == i - start
    ensures out + Strip(text[start..], keepLines)
         == (out + Rendered(tok, keepLines)) + Strip(text[i..], keepLines)
  {
    SuffixOfSuffix(text, start, i);
    AdvanceOver(text[start..], text[i..], tok, out, keepLines);
  }

  lemma AdvanceOver(here: string, rest: string, tok: Token, out: string, keepLines: bool)
    requires Leads(tok, here) && rest == here[|tok.Source()|..]
    ensures out + Strip(here, keepLines) == (out + Rendered(tok, keepLines)) + Strip(rest, keepLines)
  {
    StripStep(here, tok, keepLines);
    RenderedIsKept(tok, keepLines);
    var a, b := Rendered(tok, keepLines), Strip(rest, keepLines);
    Associates(out, a, b);
    assert Strip(here, keepLines) == a + b;
  }

  lemma SuffixOfSuffix(text: string, start: nat, i: nat)
    requires start <= i <= |text|
    ensures text[start..][i - start..] == text[i..]
  {
  }

  /** Searching a text from `i + d` is searching the suffix at `i` from `d`. */
  lemma {:induction false} ShiftFind(text: string, sub: string, i: nat, d: nat)
    requires i + d <= |text| && sub != ""
    ensures var a, b := Find(text, sub, i + d), Find(text[i..], sub, d);
            (a == -1 <==> b == -1) && (a != -1 ==> a == b + i)
  {
    var a, b := Find(text, sub, i + d), Find(text[i..], sub, d);
    if b != -1 { OccursShifted(text, sub, i, b); }
    if a != -1 { OccursShifted(text, sub, i, a - i); }
  }

  lemma OccursShifted(text: string, sub: string, i: nat, k: nat)
    requires i <= |text|
    ensures OccursAt(text[i..], sub, k) <==> OccursAt(text, sub, i + k)
  {
    if i + k + |sub| <= |text| {
      assert text[i..][k..k + |sub|] == text[i + k..i + k + |sub|];
    }
  }

  // ---- deleting a comment never makes a new one ---------------------------------------------

  /** Whether a body position is escaped depends only on what comes before it. */
  lemma {:induction false} EscapedPrefix(a: string, b: string, k: nat)
    requires k <= |a| && k <= |b| && a[..k] == b[..k]
    ensures Escaped(a, k) == Escaped(b, k)
  {
    if k > 0 {
      assert a[k - 1] == a[..k][k - 1] == b[..k][k - 1] == b[k - 1];
      assert a[..k - 1] == a[..k][..k - 1] && b[..k - 1] == b[..k][..k - 1];
      EscapedPrefix(a, b, k - 1);
    }
  }

  /** A token stays a token when the text after it changes, except that nothing may be added after
      a token that ran to the end of its text, and a plain slash must keep its next character. */
  lemma LeadsElsewhere(tok: Token, text: string, other: string)
    requires Leads(tok, text) && !tok.IsComment()
    requires tok.Source() <= other
    requires |text| == |tok.Source()| ==> other == text
    requires tok == Plain('/') && |text| > 1 ==> |other| == 1 || other[1] == text[1]
    ensures Leads(tok, other)
  {
    var n := |tok.Source()|;
    assert forall k :: 0 <= k < n ==> text[k] == text[..n][k] == other[..n][k] == other[k];
    if tok.Literal? && n >= 2 {
      forall k: nat | k <= n - 2
        ensures ClosesAt(text[1..], tok.s[0], k) == ClosesAt(other[1..], tok.s[0], k)
      {
        assert text[1..][..k] == other[1..][..k];
        EscapedPrefix(text[1..], other[1..], k);
      }
    }
  }

  /** The kept tokens are themselves the tokenisation of the stripped text. */
  lemma {:induction false} KeptTokenisation(toks: seq<Token>, text: string, keepLines: bool)
    requires Tokenises(toks, text)
    ensures Tokenises(Keep(toks, keepLines), Text(Keep(toks, keepLines)))
  {
    if toks != [] {
      var tok, rest := toks[0], text[|toks[0].Source()|..];
      var kept := Keep(toks[1..], keepLines);
      KeptTokenisation(toks[1..], rest, keepLines);
      if !tok.IsComment() {
        KeptStartsAlike(toks[1..], rest, keepLines);
        var other := tok.Source() + Text(kept);
        LeadsElsewhere(tok, text, other);
        assert ([tok] + kept)[1..] == kept && other[|tok.Source()|..] == Text(kept);
      } else if tok.BlockComment? && keepLines {
        NewlinesThen(CountNewlines(tok.s), kept);
      } else {
        assert [] + kept == kept;
      }
    }
  }

  /** After anything but a comment opener, stripping leaves the first character alone. */
  lemma KeptStartsAlike(toks: seq<Token>, text: string, keepLines: bool)
    requires Tokenises(toks, text)
    ensures text == "" ==> Text(Keep(toks, keepLines)) == ""
    ensures text != "" && text[0] != '/' ==>
            Text(Keep(toks, keepLines)) != "" && Text(Keep(toks, keepLines))[0] == text[0]
  {
    if toks != [] {
      assert OccursAt(text, "//", 0) ==> text[..2][0] == '/' && text[..2][1] == '/';
      assert OccursAt(text, "/*", 0) ==> text[..2][0] == '/' && text[..2][1] == '*';
      if !toks[0].IsComment() {
        var kept := Keep(toks[1..], keepLines);
        assert ([toks[0]] + kept)[1..] == kept;
        assert text[0] == toks[0].Source()[0];
      }
    }
  }

  lemma {:induction false} NewlinesThen(n: nat, toks: seq<Token>)
    requires Tokenises(toks, Text(toks))
    ensures Tokenises(Newlines(n) + toks, Text(Newlines(n) + toks))
  {
    if n == 0 {
      EmptyAppend(toks);
    } else {
      NewlinesThen(n - 1, toks);
      NewlinesTail(n, toks);
      NewlineLeads(Newlines(n) + toks, Newlines(n - 1) + toks);
    }
  }

  lemma NewlinesTail(n: nat, toks: seq<Token>)
    requires n > 0
    ensures var all := Newlines(n) + toks;
            all != [] && all[0] == Plain('\n') && all[1..] == Newlines(n - 1) + toks
  {
    assert Newlines(n)[1..] == Newlines(n - 1);
    TailOfAppend(Newlines(n), toks);
  }

  lemma {:induction false} NewlineLeads(all: seq<Token>, toks: seq<Token>)
    requires all != [] && all[0] == Plain('\n') && all[1..] == toks
    requires Tokenises(toks, Text(toks))
    ensures Tokenises(all, Text(all))
  {
    var text := "\n" + Text(toks);
    assert Leads(Plain('\n'), text) && text[1..] == Text(toks);
  }

  lemma {:induction false} KeepHasNoComment(toks: seq<Token>, keepLines: bool)
    ensures forall t :: t in Keep(toks, keepLines) ==> !t.IsComment()
  {
    if toks != [] {
      KeepHasNoComment(toks[1..], keepLines);
    }
  }

  lemma {:induction false} KeepWithoutComments(toks: seq<Token>, keepLines: bool)
    requires forall t :: t in toks ==> !t.IsComment()
    ensures Keep(toks, keepLines) == toks
  {
    if toks != [] {
      KeepWithoutComments(toks[1..], keepLines);
    }
  }

  /** The stripped text reads back as exactly the kept tokens: no comment is left in it, and the
      deletions formed none, whatever was unterminated in the input. */
  lemma {:induction false} StrippedTextTokens(text: string, keepLines: bool)
    ensures Lex(Strip(text, keepLines)) == Keep(Lex(text), keepLines)
    ensures forall t :: t in Lex(Strip(text, keepLines)) ==> !t.IsComment()
  {
    KeptTokenisation(Lex(text), text, keepLines);
    var out := Strip(text, keepLines);
    TokenisationIsUnique(Lex(out), Keep(Lex(text), keepLines), out);
    KeepHasNoComment(Lex(text), keepLines);
  }

  /** Stripping again, in either mode, changes nothing. */
  lemma {:induction false} StripIdempotent(text: string, keepLines: bool, again: bool)
    ensures Strip(Strip(text, keepLines), again) == Strip(text, keepLines)
  {
    StrippedTextTokens(text, keepLines);
    KeepWithoutComments(Lex(Strip(text, keepLines)), again);
    TextOfTokenisation(Lex(Strip(text, keepLines)), Strip(text, keepLines));
  }

  // ---- line numbers -------------------------------------------------------------------------

  lemma {:induction false} CountAppend(a: string, b: string)
    ensures CountNewlines(a + b) == CountNewlines(a) + CountNewlines(b)
  {
    if a == "" {
      EmptyAppend(b);
    } else {
      CountAppend(a[1..], b);
      TailOfAppend(a, b);
    }
  }

  lemma {:induction false} CountRun(n: nat)
    ensures CountNewlines(seq(n, _ => '\n')) == n
  {
    if n > 0 {
      CountRun(n - 1);
      assert seq(n, _ => '\n')[1..] == seq(n - 1, _ => '\n');
    }
  }

  lemma {:induction false} CountNone(s: string)
    requires '\n' !in s
    ensures CountNewlines(s) == 0
  {
    if s != "" {
      assert forall c :: c in s[1..] ==> c in s;
      CountNone(s[1..]);
    }
  }

  /** Line-preserving stripping keeps the number of newlines. */
  lemma {:induction false} KeepLinesCount(toks: seq<Token>, text: string)
    requires Tokenises(toks, text)
    ensures CountNewlines(Text(Keep(toks, true))) == CountNewlines(text)
  {
    TokensKeepLines(toks, text);
    KeptLines(toks);
    TextOfTokenisation(toks, text);
  }

  /** What the token leaves in line-preserving mode has as many newlines as the token. */
  predicate KeepsLines(tok: Token) {
    CountNewlines(Rendered(tok, true)) == CountNewlines(tok.Source())
  }

  lemma {:induction false} TokensKeepLines(toks: seq<Token>, text: string)
    requires Tokenises(toks, text)
    ensures forall t | t in toks :: KeepsLines(t)
  {
    if toks != [] {
      TokenKeepsLines(toks[0], text);
      TokensKeepLines(toks[1..], text[|toks[0].Source()|..]);
    }
  }

  lemma {:induction false} TokenKeepsLines(tok: Token, text: string)
    requires Leads(tok, text)
    ensures KeepsLines(tok)
  {
    if tok.BlockComment? { CountRun(CountNewlines(tok.s)); }
    if tok.LineComment? { CountNone(tok.s); }
  }

  lemma {:induction false} KeptLines(toks: seq<Token>)
    requires forall t | t in toks :: KeepsLines(t)
    ensures CountNewlines(Text(toks)) == CountNewlines(Text(Keep(toks, true)))
  {
    if toks != [] {
      var tok, rest := toks[0], toks[1..];
      KeptLines(rest);
      assert KeepsLines(tok);
      CountAppend(tok.Source(), Text(rest));
      TextAppend(KeepOne(tok, true), Keep(rest, true));
      RenderedIsKept(tok, true);
      CountAppend(Rendered(tok, true), Text(Keep(rest, true)));
    }
  }

  /** The character `j` places after `i` of the text is `j` places after `o` of the output, on the
      same line. */
  ghost predicate SameSpot(text: string, out: string, i: nat, o: nat, j: nat) {
    && i + j < |text| && o + j < |out| && text[i + j] == out[o + j]
    && CountNewlines(text[..i + j]) == CountNewlines(out[..o + j])
  }

  /** The token that starts at `i` of the text starts at `o` of the output, each of its characters
      on its old line. */
  ghost predicate Lands(text: string, out: string, i: nat, o: nat, tok: Token) {
    && i + |tok.Source()| <= |text| && text[i..i + |tok.Source()|] == tok.Source()
    && forall j: nat :: j < |tok.Source()| ==> SameSpot(text, out, i, o, j)
  }

  /** With `keep_lines`, every character that survives stands on its old line: token `k` of the
      text, if it is not a comment, is in the output with as many newlines before each of its
      characters as it had in the input. */
  lemma {:induction false} LinesPreserved(text: string, k: nat)
    requires k < |Lex(text)| && !Lex(text)[k].IsComment()
    ensures var toks := Lex(text);
            Lands(text, Strip(text, true), |Text(toks[..k])|, |Text(Keep(toks[..k], true))|, toks[k])
  {
    var toks := Lex(text);
    var before, tok, rest := toks[..k], toks[k], toks[k + 1..];
    SplitAt(toks, k);
    TextOfTokenisation(toks, text);
    SplitText(before, tok, rest);
    SplitKept(before, tok, rest);
    PrefixCount(toks, text, k);
    SharedStretchLands(text, Strip(text, true), Text(before), Text(Keep(before, true)), tok,
                       Text(rest), Text(Keep(rest, true)));
  }

  lemma SplitAt(toks: seq<Token>, k: nat)
    requires k < |toks|
    ensures toks == toks[..k] + ([toks[k]] + toks[k + 1..])
  {
  }

  lemma SplitText(before: seq<Token>, tok: Token, rest: seq<Token>)
    ensures Text(before + ([tok] + rest)) == Text(before) + (tok.Source() + Text(rest))
  {
    TextAppend(before, [tok] + rest);
    assert ([tok] + rest)[1..] == rest;
  }

  lemma SplitKept(before: seq<Token>, tok: Token, rest: seq<Token>)
    requires !tok.IsComment()
    ensures Text(Keep(before + ([tok] + rest), true))
         == Text(Keep(before, true)) + (tok.Source() + Text(Keep(rest, true)))
  {
    KeepAppend(before, [tok] + rest, true);
    assert ([tok] + rest)[1..] == rest;
    SplitText(Keep(before, true), tok, Keep(rest, true));
  }

  lemma {:induction false} SharedStretchLands(text: string, out: string, a: string, b: string, tok: Token,
                                                c: string, d: string)
    requires CountNewlines(a) == CountNewlines(b)
    requires text == a + (tok.Source() + c) && out == b + (tok.Source() + d)
    ensures Lands(text, out, |a|, |b|, tok)
  {
    var s := tok.Source();
    Middle(a, s, c);
    forall j: nat | j < |s|
      ensures SameSpot(text, out, |a|, |b|, j)
    {
      SharedSpot(text, out, a, b, s, c, d, j);
    }
  }

  lemma Middle(a: string, s: string, c: string)
    ensures (a + (s + c))[|a|..|a| + |s|] == s
  {
  }

  lemma PrefixInto(a: string, s: string, c: string, j: nat)
    requires j < |s|
    ensures (a + (s + c))[..|a| + j] == a + s[..j] && (a + (s + c))[|a| + j] == s[j]
  {
  }

  lemma {:induction false} SharedSpot(text: string, out: string, a: string, b: string, s: string,
                                        c: string, d: string, j: nat)
    requires CountNewlines(a) == CountNewlines(b) && j < |s|
    requires text == a + (s + c) && out == b + (s + d)
    ensures SameSpot(text, out, |a|, |b|, j)
  {
    PrefixInto(a, s, c, j);
    PrefixInto(b, s, d, j);
    CountAppend(a, s[..j]);
    CountAppend(b, s[..j]);
  }

  lemma {:induction false} KeepAppend(a: seq<Token>, b: seq<Token>, keepLines: bool)
    ensures Keep(a + b, keepLines) == Keep(a, keepLines) + Keep(b, keepLines)
  {
    if a == [] {
      EmptyAppend(b);
      EmptyAppend(Keep(b, keepLines));
    } else {
      KeepAppend(a[1..], b, keepLines);
      TailOfAppend(a, b);
      Associates(KeepOne(a[0], keepLines), Keep(a[1..], keepLines), Keep(b, keepLines));
    }
  }

  lemma {:induction false} PrefixCount(toks: seq<Token>, text: string, k: nat)
    requires Tokenises(toks, text) && k <= |toks|
    ensures CountNewlines(Text(toks[..k])) == CountNewlines(Text(Keep(toks[..k], true)))
  {
    TokensKeepLines(toks, text);
    KeptLines(toks[..k]);
  }

  function NonComments(toks: seq<Token>): seq<Token> {
    if toks == [] then []
    else (if toks[0].IsComment() then [] else [toks[0]]) + NonComments(toks[1..])
  }

  /** The default mode leaves exactly the non-comment tokens of the text, and the line-preserving
      mode the same ones with newlines between them: dropping the newlines it added for comments
      (all of them plain) gives the default output's tokens back. */
  lemma {:induction false} ModesKeepTheSameTokens(toks: seq<Token>)
    ensures Keep(toks, false) == NonComments(toks)
    ensures NoNewlines(Keep(toks, true)) == NoNewlines(Keep(toks, false))
  {
    if toks != [] {
      ModesKeepTheSameTokens(toks[1..]);
      NoNewlinesAppend(KeepOne(toks[0], true), Keep(toks[1..], true));
      NoNewlinesAppend(KeepOne(toks[0], false), Keep(toks[1..], false));
      if toks[0].IsComment() { NoNewlinesRun(CountNewlines(toks[0].s)); }
    }
  }

  /** Both modes of one text, token for token. */
  lemma ModesAgree(text: string)
    ensures Lex(Strip(text, false)) == NonComments(Lex(text))
    ensures NoNewlines(Lex(Strip(text, true))) == NoNewlines(Lex(Strip(text, false)))
    ensures CountNewlines(Strip(text, true)) == CountNewlines(text)
  {
    StrippedTextTokens(text, false);
    StrippedTextTokens(text, true);
    ModesKeepTheSameTokens(Lex(text));
    KeepLinesCount(Lex(text), text);
  }

  function NoNewlines(toks: seq<Token>): seq<Token> {
    if toks == [] then []
    else (if toks[0] == Plain('\n') then [] else [toks[0]]) + NoNewlines(toks[1..])
  }

  lemma {:induction false} NoNewlinesAppend(a: seq<Token>, b: seq<Token>)
    ensures NoNewlines(a + b) == NoNewlines(a) + NoNewlines(b)
  {
    if a == [] {
      EmptyAppend(b);
      EmptyAppend(NoNewlines(b));
    } else {
      NoNewlinesAppend(a[1..], b);
      TailOfAppend(a, b);
      Associates(if a[0] == Plain('\n') then [] else [a[0]], NoNewlines(a[1..]), NoNewlines(b));
    }
  }

  lemma {:induction false} NoNewlinesRun(n: nat)
    ensures NoNewlines(Newlines(n)) == []
  {
    if n > 0 {
      NoNewlinesRun(n - 1);
      assert Newlines(n)[1..] == Newlines(n - 1);
    }
  }

  // ---- what is kept and what goes, case by case ---------------------------------------------

  /** The inside of a literal with quote `q`: escapes come whole, and no other character is the quote. */
  predicate Inside(q: char, body: string) {
    || body == ""
    || (body[0] == '\\' && |body| >= 2 && Inside(q, body[2..]))
    || (body[0] != '\\' && body[0] != q && Inside(q, body[1..]))
  }

  /** Past a character that is not escaped, escaping starts afresh. */
  lemma {:induction false} EscapedAfresh(full: string, n: nat, k: nat)
    requires n <= k <= |full| && !Escaped(full, n)
    ensures Escaped(full, k) == Escaped(full[n..], k - n)
    decreases k
  {
    if k > n {
      EscapedAfresh(full, n, k - 1);
      assert full[n..][k - 1 - n] == full[k - 1];
    }
  }

  /** No character inside closes the literal, and what follows is not escaped. */
  lemma {:induction false} InsideNeverCloses(q: char, body: string, full: string)
    requires q != '\\' && Inside(q, body) && body <= full
    ensures !Escaped(full, |body|) && forall k: nat | k < |body| :: !ClosesAt(full, q, k)
    decreases |body|
  {
    if body != "" {
      var n := if body[0] == '\\' then 2 else 1;
      assert full[0] == body[0] && !Escaped(full, 0) && Escaped(full, 1) == (body[0] == '\\');
      assert !Escaped(full, n);
      assert full[..|body|] == body && full[n..][..|body| - n] == body[n..];
      InsideNeverCloses(q, body[n..], full[n..]);
      EscapedAfresh(full, n, |body|);
      forall k: nat | k < |body|
        ensures !ClosesAt(full, q, k)
      {
        if k >= n {
          EscapedAfresh(full, n, k);
          assert !ClosesAt(full[n..], q, k - n) && full[n..][k - n] == full[k];
        } else if k == 1 {
          assert Escaped(full, 1);
        } else {
          assert full[0] == body[0];
        }
      }
    }
  }

  /** A literal is kept whole and the rest is stripped on its own, whatever the literal holds. */
  lemma {:induction false} LiteralKept(q: char, body: string, rest: string, keepLines: bool)
    requires (q == '"' || q == '\'') && Inside(q, body)
    ensures Strip([q] + body + [q] + rest, keepLines) == [q] + body + [q] + Strip(rest, keepLines)
  {
    var lit := [q] + body + [q];
    LiteralLeadsText(q, body, rest);
    SplitHere(lit, rest);
    StripStep(lit + rest, Literal(lit), keepLines);
    RenderedIsKept(Literal(lit), keepLines);
  }

  lemma {:induction false} LiteralLeadsText(q: char, body: string, rest: string)
    requires (q == '"' || q == '\'') && Inside(q, body)
    ensures Leads(Literal([q] + body + [q]), [q] + body + [q] + rest)
  {
    var lit := [q] + body + [q];
    var text, full := lit + rest, body + [q] + rest;
    SplitHere(lit, rest);
    assert text[1..] == full && full[|body|] == q;
    InsideNeverCloses(q, body, full);
  }

  lemma SplitHere(a: string, b: string)
    ensures (a + b)[..|a|] == a && (a + b)[|a|..] == b
  {
  }

  /** A literal that is never closed is kept to the end of the text, a lone backslash there included. */
  lemma {:induction false} UnclosedLiteralKept(q: char, body: string, dangling: bool, keepLines: bool)
    requires (q == '"' || q == '\'') && Inside(q, body)
    ensures var text := [q] + body + if dangling then "\\" else ""; Strip(text, keepLines) == text
  {
    var text := [q] + body + if dangling then "\\" else "";
    var full := text[1..];
    assert body <= full && text[..|text|] == text && text[|text|..] == "";
    InsideNeverCloses(q, body, full);
    assert Leads(Literal(text), text);
    StripStep(text, Literal(text), keepLines);
    EmptyStrip(keepLines);
  }

  lemma EmptyStrip(keepLines: bool)
    ensures Strip("", keepLines) == ""
  {
    TokenisationIsUnique(Lex(""), [], "");
  }

  /** A line comment goes, up to but not including its newline. */
  lemma {:induction false} LineCommentGoes(body: string, rest: string, keepLines: bool)
    requires '\n' !in body && (rest == "" || rest[0] == '\n')
    ensures Strip("//" + body + rest, keepLines) == Strip(rest, keepLines)
  {
    var comment := "//" + body;
    var text := comment + rest;
    assert text[..2] == "//" && text[..|comment|] == comment && text[|comment|..] == rest;
    assert Leads(LineComment(comment), text);
    StripStep(text, LineComment(comment), keepLines);
  }

  /** A block comment goes; line-preserving, its newlines stay. */
  lemma {:induction false} BlockCommentGoes(body: string, rest: string, keepLines: bool)
    requires forall i | 0 < i < |body| && body[i] == '/' :: body[i - 1] != '*'
    ensures Strip("/*" + body + "*/" + rest, keepLines)
         == (if keepLines then seq(CountNewlines(body), _ => '\n') else "") + Strip(rest, keepLines)
  {
    var comment := "/*" + body + "*/";
    BlockCommentLeads(body, rest);
    SplitHere(comment, rest);
    StripStep(comment + rest, BlockComment(comment), keepLines);
    RenderedIsKept(BlockComment(comment), keepLines);
    NewlinesOfComment(body, "*/");
  }

  lemma {:induction false} BlockCommentLeads(body: string, rest: string)
    requires forall i | 0 < i < |body| && body[i] == '/' :: body[i - 1] != '*'
    ensures Leads(BlockComment("/*" + body + "*/"), "/*" + body + "*/" + rest)
  {
    var comment := "/*" + body + "*/";
    var text, n := comment + rest, |comment|;
    SplitHere(comment, rest);
    assert text[..2] == "/*" && text[n - 2..n] == "*/";
    forall k: nat | 2 <= k < n - 2
      ensures !OccursAt(text, "*/", k)
    {
      NoEndInside(body, text, k);
    }
  }

  lemma NoEndInside(body: string, text: string, k: nat)
    requires forall i | 0 < i < |body| && body[i] == '/' :: body[i - 1] != '*'
    requires "/*" + body + "*/" <= text && 2 <= k < |body| + 2
    ensures !OccursAt(text, "*/", k)
  {
    var comment, m := "/*" + body + "*/", k - 1;
    assert text[k] == comment[k] == body[k - 2] && text[k + 1] == comment[k + 1];
    if k + 1 < |body| + 2 { assert comment[k + 1] == body[m]; } else { assert comment[k + 1] == '*'; }
    assert text[k..k + 2][0] == text[k] && text[k..k + 2][1] == text[k + 1];
  }

  lemma NewlinesOfComment(body: string, end: string)
    requires end == "*/" || end == ""
    ensures CountNewlines("/*" + body + end) == CountNewlines(body)
  {
    CountAppend("/*" + body, end);
    CountAppend("/*", body);
    CountNone("/*");
    CountNone(end);
  }

  /** A block comment that is never closed takes the rest of the text along. */
  lemma {:induction false} UnclosedCommentGoes(body: string, keepLines: bool)
    requires forall i | 0 < i < |body| && body[i] == '/' :: body[i - 1] != '*'
    ensures Strip("/*" + body, keepLines) == if keepLines then seq(CountNewlines(body), _ => '\n') else ""
  {
    var text := "/*" + body;
    assert text[..2] == "/*" && text[..|text|] == text && text[|text|..] == "";
    forall k: nat | 2 <= k < |text| - 2
      ensures !OccursAt(text, "*/", k)
    {
      assert text[k..k + 2][0] == text[k] == body[k - 2] && text[k..k + 2][1] == text[k + 1] == body[k - 1];
    }
    assert Leads(BlockComment(text), text);
    StripStep(text, BlockComment(text), keepLines);
    EmptyStrip(keepLines);
    RenderedIsKept(BlockComment(text), keepLines);
    assert "/*" + body + "" == text;
    NewlinesOfComment(body, "");
  }

  /** Every other character is kept: neither a quote, nor a slash before a slash or a star. */
  lemma {:induction false} PlainKept(c: char, rest: string, keepLines: bool)
    requires c != '"' && c != '\''
    requires c == '/' ==> rest == "" || (rest[0] != '/' && rest[0] != '*')
    ensures Strip([c] + rest, keepLines) == [c] + Strip(rest, keepLines)
  {
    var text := [c] + rest;
    assert text[..1] == [c] && text[1..] == rest;
    assert Leads(Plain(c), text);
    StripStep(text, Plain(c), keepLines);
  }
}
