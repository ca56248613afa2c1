/**
 sanitizeQuery of src/database/data-source.ts: four global regular-expression replacements. Each is
 written as the leftmost-match scan that a JavaScript `/g` replacement performs.
 */
module SqlSanitizer {
  import opened Basics

  // ---------------------------------------------------------------- character classes

  predicate IsDigit(c: char) { '0' <= c <= '9' }

  predicate IsLetter(c: char) { 'a' <= c <= 'z' || 'A' <= c <= 'Z' }

  /** `\w` */
  predicate IsWord(c: char) { IsDigit(c) || IsLetter(c) || c == '_' }

  /** `[?,\s]` */
  predicate InList(c: char) { c == '?' || c == ',' || IsSpace(c) }

  predicate IsQuote(c: char) { c == '\'' }

  predicate NotQuote(c: char) { c != '\'' }

  /** Length of the longest prefix whose characters all pass the test. */
  function Span(test: char -> bool, s: string): (n: nat)
    ensures n <= |s|
    ensures forall i :: 0 <= i < n ==> test(s[i])
    ensures n < |s| ==> !test(s[n])
  {
    if s == "" || !test(s[0]) then 0 else 1 + Span(test, s[1..])
  }

  lemma {:induction false} SpanIs(test: char -> bool, s: string, n: nat)
    requires n <= |s| && (forall i :: 0 <= i < n ==> test(s[i])) && (n < |s| ==> !test(s[n]))
    ensures Span(test, s) == n
  {
    if n > 0 {
      SpanIs(test, s[1..], n - 1);
    }
  }

  lemma DropJoin(a: string, b: string, n: nat)
    requires n <= |a|
    ensures (a + b)[n..] == a[n..] + b
  {
  }

  lemma Associative(a: string, b: string, c: string)
    ensures a + (b + c) == (a + b) + c
  {
  }

  // ---------------------------------------------------------------- the four passes

  /** `'([^']*)'` at the head of `s`: the length of the match, 0 for none. */
  function LiteralAt(s: string): (n: nat)
    ensures n <= |s|
  {
    if s != "" && s[0] == '\'' && Span(NotQuote, s[1..]) + 1 < |s| then Span(NotQuote, s[1..]) + 2 else 0
  }

  function StripLiterals(s: string): string {
    if s == "" then ""
    else if LiteralAt(s) > 0 then "?" + StripLiterals(s[LiteralAt(s)..])
    else [s[0]] + StripLiterals(s[1..])
  }

  /** `\b(\d+)\b` at the head of `s`, after a word character or not; shorter digit runs never end at a boundary. */
  function NumberAt(s: string, afterWord: bool): (n: nat)
    ensures n <= |s|
  {
    var n := Span(IsDigit, s);
    if !afterWord && (n == |s| || !IsWord(s[n])) then n else 0
  }

  function StripNumbers(s: string, afterWord: bool): string
    decreases |s|
  {
    if s == "" then ""
    else if NumberAt(s, afterWord) > 0 then "?" + StripNumbers(s[NumberAt(s, afterWord)..], true)
    else [s[0]] + StripNumbers(s[1..], IsWord(s[0]))
  }

  /** `\([?,\s]+\)` at the head of `s`. */
  function ListAt(s: string): (n: nat)
    ensures n <= |s|
    ensures n > 0 ==> n >= 3 && s[0] == '('
  {
    if s == "" || s[0] != '(' then 0
    else
      var n := Span(InList, s[1..]);
      if n > 0 && n + 1 < |s| && s[n + 1] == ')' then n + 2 else 0
  }

  function CollapseLists(s: string): string {
    if s == "" then ""
    else if ListAt(s) > 0 then "(?)" + CollapseLists(s[ListAt(s)..])
    else [s[0]] + CollapseLists(s[1..])
  }

  /** `\s*\?` at the head of `s`. */
  function MarkAt(s: string): (n: nat)
    ensures n <= |s|
  {
    var b := Span(IsSpace, s);
    if b < |s| && s[b] == '?' then b + 1 else 0
  }

  /** `\s*,\s*\?` at the head of `s`. */
  function LinkAt(s: string): (n: nat)
    ensures n <= |s|
  {
    var a := Span(IsSpace, s);
    if a < |s| && s[a] == ',' && MarkAt(s[a + 1..]) > 0 then a + 1 + MarkAt(s[a + 1..]) else 0
  }

  /** As many links as follow one another. */
  function ChainAt(s: string): (n: nat)
    ensures n <= |s|
  {
    if LinkAt(s) == 0 then 0 else LinkAt(s) + ChainAt(s[LinkAt(s)..])
  }

  /** `\?(\s*,\s*\?)+`: how much the scan consumes when it keeps the character at the head. */
  function MarkLength(s: string): (n: nat)
    requires s != ""
    ensures 1 <= n <= |s|
  {
    if s[0] == '?' then 1 + ChainAt(s[1..]) else 1
  }

  function CollapseMarks(s: string): string {
    if s == "" then "" else [s[0]] + CollapseMarks(s[MarkLength(s)..])
  }

  function SanitizeQuery(query: string): string {
    CollapseMarks(CollapseLists(StripNumbers(StripLiterals(query), false)))
  }

  // ---------------------------------------------------------------- the normal form

  function Quotes(s: string): nat {
    |Filter(IsQuote, s)|
  }

  /** No standalone number anywhere. */
  predicate NoNumber(s: string, afterWord: bool) {
    s == "" || (NumberAt(s, afterWord) == 0 && NoNumber(s[1..], IsWord(s[0])))
  }

  /** Every value list is `(?)`. */
  predicate ListsCollapsed(s: string) {
    s == "" || ((ListAt(s) > 0 ==> s[..ListAt(s)] == "(?)") && ListsCollapsed(s[1..]))
  }

  /** No question mark is linked to a next one. */
  predicate MarksCollapsed(s: string) {
    s == "" || ((s[0] == '?' ==> LinkAt(s[1..]) == 0) && MarksCollapsed(s[1..]))
  }

  predicate Sanitized(s: string) {
    Quotes(s) <= 1 && NoNumber(s, false) && ListsCollapsed(s) && MarksCollapsed(s)
  }

  // ---------------------------------------------------------------- sanitized text is left alone

  lemma LiteralHasTwoQuotes(s: string)
    requires LiteralAt(s) > 0
    ensures Quotes(s) >= 2
  {
    var n := LiteralAt(s);
    var body := s[1..n - 1];
    assert s == "'" + body + "'" + s[n..];
    QuotesConcat("'" + body + "'", s[n..]);
    QuotesConcat("'" + body, "'");
    QuotesConcat("'", body);
    assert "'"[1..] == "";
  }

  lemma {:induction false} LiteralsFixed(s: string)
    requires Quotes(s) <= 1
    ensures StripLiterals(s) == s
  {
    if s != "" {
      if LiteralAt(s) > 0 {
        LiteralHasTwoQuotes(s);
      } else {
        LiteralsFixed(s[1..]);
      }
    }
  }

  lemma QuotesOne(c: char)
    ensures Quotes([c]) == if IsQuote(c) then 1 else 0
  {
    assert [c][1..] == "" && Filter(IsQuote, "") == [];
  }

  lemma QuotesHead(s: string)
    requires s != ""
    ensures Quotes(s) == (if IsQuote(s[0]) then 1 else 0) + Quotes(s[1..])
  {
    assert s == [s[0]] + s[1..];
    QuotesConcat([s[0]], s[1..]);
    QuotesOne(s[0]);
  }

  lemma QuotesConcat(a: string, b: string)
    ensures Quotes(a + b) == Quotes(a) + Quotes(b)
  {
    FilterConcat(IsQuote, a, b);
  }

  lemma {:induction false} NumbersFixed(s: string, afterWord: bool)
    requires NoNumber(s, afterWord)
    ensures StripNumbers(s, afterWord) == s
  {
    if s != "" {
      NumbersFixed(s[1..], IsWord(s[0]));
      assert StripNumbers(s, afterWord) == [s[0]] + s[1..];
    }
  }

  lemma {:induction false} ListsSuffix(s: string, n: nat)
    requires ListsCollapsed(s) && n <= |s|
    ensures ListsCollapsed(s[n..])
  {
    if n > 0 {
      ListsSuffix(s[1..], n - 1);
      assert s[1..][n - 1..] == s[n..];
    }
  }

  lemma {:induction false} ListsFixed(s: string)
    requires ListsCollapsed(s)
    ensures CollapseLists(s) == s
  {
    if s != "" {
      if ListAt(s) > 0 {
        ListsSuffix(s, ListAt(s));
        ListsFixed(s[ListAt(s)..]);
        assert s == s[..ListAt(s)] + s[ListAt(s)..];
      } else {
        ListsFixed(s[1..]);
      }
    }
  }

  lemma {:induction false} MarksFixed(s: string)
    requires MarksCollapsed(s)
    ensures CollapseMarks(s) == s
  {
    if s != "" {
      assert MarkLength(s) == 1;
      MarksFixed(s[1..]);
    }
  }

  // ---------------------------------------------------------------- what each pass establishes

  lemma {:induction false} LiteralsEstablish(s: string)
    ensures Quotes(StripLiterals(s)) <= 1
  {
    if s != "" {
      if LiteralAt(s) > 0 {
        LiteralsEstablish(s[LiteralAt(s)..]);
        QuotesConcat("?", StripLiterals(s[LiteralAt(s)..]));
        assert "?"[1..] == "";
      } else {
        QuotesConcat([s[0]], StripLiterals(s[1..]));
        assert [s[0]][1..] == "";
        if s[0] == '\'' {
          FilterNone(IsQuote, s[1..]);
          LiteralsFixed(s[1..]);
        } else {
          LiteralsEstablish(s[1..]);
        }
      }
    }
  }

  lemma HeadTail(s: string, n: nat)
    requires 0 < n <= |s|
    ensures s[1..][n - 1..] == s[n..] && s[..n] == [s[0]] + s[1..][..n - 1]
  {
  }

  /** Inside a word nothing is rewritten. */
  lemma {:induction false} NumbersCopyWord(s: string, n: nat)
    requires n <= |s| && (forall i :: 0 <= i < n ==> IsWord(s[i]))
    ensures StripNumbers(s, true) == s[..n] + StripNumbers(s[n..], true)
  {
    if n > 0 {
      HeadTail(s, n);
      NumbersCopyWord(s[1..], n - 1);
    }
  }

  /** A character that begins no number in `s` begins none in front of the rewritten rest. */
  lemma NumbersHead(s: string, afterWord: bool)
    requires s != "" && NumberAt(s, afterWord) == 0
    ensures NumberAt([s[0]] + StripNumbers(s[1..], IsWord(s[0])), afterWord) == 0
  {
    if !afterWord && IsDigit(s[0]) {
      var k := Span(IsDigit, s);
      var r := [s[0]] + StripNumbers(s[1..], true);
      NumbersCopyWord(s[1..], k);
      assert forall i :: 0 <= i <= k ==> r[i] == s[i];
      SpanIs(IsDigit, r, k);
    }
  }

  lemma {:induction false} NumbersEstablish(s: string, afterWord: bool)
    ensures NoNumber(StripNumbers(s, afterWord), afterWord)
    decreases |s|
  {
    if s != "" {
      var r := StripNumbers(s, afterWord);
      var n := NumberAt(s, afterWord);
      if n > 0 {
        var tail := StripNumbers(s[n..], true);
        assert r == "?" + tail && r[1..] == tail;
        NumbersEstablish(s[n..], true);
        NoNumberAfterNonWord(tail);
        assert Span(IsDigit, r) == 0;
      } else {
        NumbersHead(s, afterWord);
        NumbersEstablish(s[1..], IsWord(s[0]));
        assert r[1..] == StripNumbers(s[1..], IsWord(s[0]));
      }
    }
  }

  /** Text that does not begin with a word character has no number relative to either left context. */
  lemma NoNumberAfterNonWord(s: string)
    requires NoNumber(s, true) && (s == "" || !IsWord(s[0]))
    ensures NoNumber(s, false)
  {
  }

  lemma {:induction false} ListsHead(s: string)
    ensures CollapseLists(s) == "" <==> s == ""
    ensures s != "" ==> CollapseLists(s)[0] == s[0]
  {
  }

  lemma {:induction false} MarksHead(s: string)
    ensures CollapseMarks(s) == "" <==> s == ""
    ensures s != "" ==> CollapseMarks(s)[0] == s[0]
  {
  }

  /** The rewritten rest offers an opening parenthesis the same list, if any, as the original. */
  lemma ListsNext(s: string)
    requires s != "" && s[0] == '(' && ListAt(s) == 0
    ensures ListAt("(" + CollapseLists(s[1..])) == 0
  {
    var tail := CollapseLists(s[1..]);
    var n := Span(InList, s[1..]);
    ListsCopy(s[1..], n);
    ListsHead(s[1..][n..]);
    assert forall i :: 0 <= i < n ==> tail[i] == s[1..][i];
    SpanIs(InList, tail, n);
    assert ("(" + tail)[1..] == tail;
  }

  lemma {:induction false} ListsEstablish(s: string)
    ensures ListsCollapsed(CollapseLists(s))
  {
    if s != "" {
      var r := CollapseLists(s);
      if ListAt(s) > 0 {
        ListsEstablish(s[ListAt(s)..]);
        ListThenCollapsed(CollapseLists(s[ListAt(s)..]));
      } else {
        ListsEstablish(s[1..]);
        assert r[1..] == CollapseLists(s[1..]);
        if s[0] == '(' {
          ListsNext(s);
        }
      }
    }
  }

  lemma ListThenCollapsed(tail: string)
    requires ListsCollapsed(tail)
    ensures ListsCollapsed("(?)" + tail)
  {
    var r := "(?)" + tail;
    assert r[1..] == "?)" + tail && r[1..][1..] == ")" + tail && r[1..][1..][1..] == tail;
    assert InList('?') && !InList(')');
    SpanIs(InList, r[1..], 1);
    assert r[..3] == "(?)";
    assert ListsCollapsed(")" + tail);
    assert ListsCollapsed("?)" + tail);
  }

  lemma {:induction false} ListsCopyJoin(a: string, b: string)
    requires forall i :: 0 <= i < |a| ==> a[i] != '('
    ensures CollapseLists(a + b) == a + CollapseLists(b)
  {
    if a == "" {
      assert a + b == b;
    } else {
      DropJoin(a, b, 1);
      ListsCopyJoin(a[1..], b);
      Associative([a[0]], a[1..], CollapseLists(b));
    }
  }

  /** Text without an opening parenthesis is copied. */
  lemma ListsCopy(s: string, n: nat)
    requires n <= |s| && forall i :: 0 <= i < n ==> s[i] != '('
    ensures CollapseLists(s) == s[..n] + CollapseLists(s[n..])
  {
    assert s[..n] + s[n..] == s;
    ListsCopyJoin(s[..n], s[n..]);
  }

  lemma {:induction false} MarksCopyJoin(a: string, b: string)
    requires forall i :: 0 <= i < |a| ==> a[i] != '?'
    ensures CollapseMarks(a + b) == a + CollapseMarks(b)
  {
    if a == "" {
      assert a + b == b;
    } else {
      DropJoin(a, b, 1);
      MarksCopyJoin(a[1..], b);
      Associative([a[0]], a[1..], CollapseMarks(b));
    }
  }

  /** Text without a question mark is copied. */
  lemma MarksCopy(s: string, n: nat)
    requires n <= |s| && forall i :: 0 <= i < n ==> s[i] != '?'
    ensures CollapseMarks(s) == s[..n] + CollapseMarks(s[n..])
  {
    assert s[..n] + s[n..] == s;
    MarksCopyJoin(s[..n], s[n..]);
  }

  lemma LinkEnds(s: string)
    requires LinkAt(s) > 0
    ensures EndsInMark(s, LinkAt(s))
  {
    var tail := s[Span(IsSpace, s) + 1..];
    assert tail[MarkAt(tail) - 1] == '?';
  }

  /** What is left after a chain of links. */
  function AfterChain(s: string): string {
    if LinkAt(s) == 0 then s else AfterChain(s[LinkAt(s)..])
  }

  lemma {:induction false} NoLinkAfterChain(s: string)
    ensures LinkAt(AfterChain(s)) == 0
  {
    if LinkAt(s) > 0 {
      NoLinkAfterChain(s[LinkAt(s)..]);
    }
  }

  lemma DropSum(s: string, m: nat, n: nat, rest: string, after: string)
    requires m + n <= |s| && rest == s[m..] && after == rest[n..]
    ensures s[m + n..] == after
  {
  }

  lemma ChainUnfolds(s: string)
    requires LinkAt(s) > 0
    ensures ChainAt(s) == LinkAt(s) + ChainAt(s[LinkAt(s)..])
    ensures AfterChain(s) == AfterChain(s[LinkAt(s)..])
  {
  }

  lemma {:induction false} ChainStops(s: string)
    ensures s[ChainAt(s)..] == AfterChain(s)
  {
    if LinkAt(s) > 0 {
      var rest := s[LinkAt(s)..];
      ChainUnfolds(s);
      ChainStops(rest);
      DropSum(s, LinkAt(s), ChainAt(rest), rest, AfterChain(rest));
    }
  }

  predicate EndsInMark(s: string, n: nat) {
    n > 0 ==> n <= |s| && s[n - 1] == '?'
  }

  lemma EndsInMarkSum(s: string, m: nat, n: nat, rest: string)
    requires m > 0 && m + n <= |s| && rest == s[m..] && EndsInMark(s, m) && EndsInMark(rest, n)
    ensures EndsInMark(s, m + n)
  {
  }

  lemma {:induction false} ChainMark(s: string)
    ensures EndsInMark(s, ChainAt(s))
  {
    var l := LinkAt(s);
    if l > 0 {
      var rest := s[l..];
      LinkEnds(s);
      ChainUnfolds(s);
      ChainMark(rest);
      EndsInMarkSum(s, l, ChainAt(rest), rest);
    }
  }

  lemma ChainEnds(s: string)
    ensures LinkAt(s[ChainAt(s)..]) == 0
    ensures ChainAt(s) > 0 ==> s[ChainAt(s) - 1] == '?'
  {
    ChainStops(s);
    NoLinkAfterChain(s);
    ChainMark(s);
  }

  /** A span followed by the same character is the same span. */
  lemma CopiedSpan(test: char -> bool, t: string, q: string)
    requires var n := Span(test, t); (n == |t| <==> q == "") && (n < |t| ==> q[0] == t[n])
    ensures Span(test, t[..Span(test, t)] + q) == Span(test, t)
  {
    var n := Span(test, t);
    SpanIs(test, t[..n] + q, n);
  }

  /** Leading white space is copied and stays the leading white space. */
  lemma MarksCopySpaces(t: string)
    ensures var a := Span(IsSpace, t);
      && CollapseMarks(t) == t[..a] + CollapseMarks(t[a..])
      && Span(IsSpace, CollapseMarks(t)) == a
  {
    var a := Span(IsSpace, t);
    MarksCopy(t, a);
    MarksHead(t[a..]);
    CopiedSpan(IsSpace, t, CollapseMarks(t[a..]));
  }

  /** Text that offers no link offers none after the rewriting either. */
  lemma MarksLink(t: string)
    requires LinkAt(t) == 0
    ensures LinkAt(CollapseMarks(t)) == 0
  {
    var r := CollapseMarks(t);
    var a := Span(IsSpace, t);
    MarksCopySpaces(t);
    MarksHead(t[a..]);
    if a < |t| && t[a] == ',' {
      MarksLinkTail(t, a);
    }
  }

  lemma MarksLinkTail(t: string, a: nat)
    requires a < |t| && t[a] == ',' && MarkAt(t[a + 1..]) == 0
    requires CollapseMarks(t) == t[..a] + CollapseMarks(t[a..])
    ensures MarkAt(CollapseMarks(t)[a + 1..]) == 0
  {
    var u := t[a + 1..];
    MarksAfterComma(t[a..], u);
    assert CollapseMarks(t)[a + 1..] == CollapseMarks(u);
    MarksCopySpaces(u);
    MarksHead(u[Span(IsSpace, u)..]);
  }

  lemma MarksAfterComma(t: string, u: string)
    requires t != "" && t[0] == ',' && t[1..] == u
    ensures CollapseMarks(t) == "," + CollapseMarks(u)
  {
  }

  /** After a mark and its chain no further link follows, and the consumed text ends as it began. */
  lemma MarkLengthEnds(s: string)
    requires s != "" && s[0] == '?'
    ensures LinkAt(s[MarkLength(s)..]) == 0
    ensures s[MarkLength(s) - 1] == '?'
  {
    ChainEnds(s[1..]);
    assert s[1..][ChainAt(s[1..])..] == s[MarkLength(s)..];
  }

  lemma {:induction false} MarksEstablish(s: string)
    ensures MarksCollapsed(CollapseMarks(s))
    decreases |s|
  {
    if s != "" {
      var rest := s[MarkLength(s)..];
      if s[0] == '?' {
        MarkLengthEnds(s);
        MarksLink(rest);
      }
      MarksEstablish(rest);
      assert CollapseMarks(s)[1..] == CollapseMarks(rest);
    }
  }

  // ---------------------------------------------------------------- what later passes keep

  lemma {:induction false} NoNumberSuffix(s: string, afterWord: bool, n: nat)
    requires NoNumber(s, afterWord) && 0 < n <= |s|
    ensures NoNumber(s[n..], IsWord(s[n - 1]))
  {
    if n > 1 {
      NoNumberSuffix(s[1..], IsWord(s[0]), n - 1);
      assert s[1..][n - 1..] == s[n..];
    }
  }

  lemma NoNumberAfterList(tail: string, afterWord: bool)
    requires NoNumber(tail, false)
    ensures NoNumber("(?)" + tail, afterWord)
  {
    var r := "(?)" + tail;
    assert r[1..] == "?)" + tail && r[1..][1..] == ")" + tail && r[1..][1..][1..] == tail;
    assert NoNumber(")" + tail, false);
    assert NoNumber("?)" + tail, false);
  }

  lemma ListsKeepNumberHead(s: string, afterWord: bool)
    requires s != "" && NumberAt(s, afterWord) == 0
    ensures NumberAt(CollapseLists(s), afterWord) == 0
  {
    if !afterWord {
      var k := Span(IsDigit, s);
      ListsCopy(s, k);
      ListsHead(s[k..]);
      CopiedSpan(IsDigit, s, CollapseLists(s[k..]));
    }
  }

  lemma {:induction false} ListsKeepNumbers(s: string, afterWord: bool)
    requires NoNumber(s, afterWord)
    ensures NoNumber(CollapseLists(s), afterWord)
    decreases |s|
  {
    if s != "" {
      var r := CollapseLists(s);
      if ListAt(s) > 0 {
        NoNumberSuffix(s, afterWord, ListAt(s));
        ListsKeepNumbers(s[ListAt(s)..], false);
        NoNumberAfterList(CollapseLists(s[ListAt(s)..]), afterWord);
      } else {
        ListsKeepNumbers(s[1..], IsWord(s[0]));
        ListsKeepNumberHead(s, afterWord);
        assert r[1..] == CollapseLists(s[1..]);
      }
    }
  }

  lemma MarksKeepNumberHead(s: string, afterWord: bool)
    requires s != "" && NumberAt(s, afterWord) == 0
    ensures NumberAt(CollapseMarks(s), afterWord) == 0
  {
    if !afterWord {
      var k := Span(IsDigit, s);
      MarksCopy(s, k);
      MarksHead(s[k..]);
      CopiedSpan(IsDigit, s, CollapseMarks(s[k..]));
    }
  }

  lemma {:induction false} MarksKeepNumbers(s: string, afterWord: bool)
    requires NoNumber(s, afterWord)
    ensures NoNumber(CollapseMarks(s), afterWord)
    decreases |s|
  {
    if s != "" {
      var n := MarkLength(s);
      if s[0] == '?' {
        MarkLengthEnds(s);
      }
      NoNumberSuffix(s, afterWord, n);
      MarksKeepNumbers(s[n..], IsWord(s[0]));
      MarksKeepNumberHead(s, afterWord);
      assert CollapseMarks(s)[1..] == CollapseMarks(s[n..]);
    }
  }

  /** Text that begins outside `[?,\s]` ends every span, link and chain before it. */
  predicate Stops(b: string) {
    b == "" || !InList(b[0])
  }

  lemma SpanJoin(test: char -> bool, a: string, b: string)
    requires b == "" || !test(b[0])
    ensures Span(test, a + b) == Span(test, a)
  {
    SpanIs(test, a + b, Span(test, a));
  }

  lemma MarkJoin(a: string, b: string)
    requires Stops(b)
    ensures MarkAt(a + b) == MarkAt(a)
  {
    SpanJoin(IsSpace, a, b);
  }

  lemma LinkJoin(a: string, b: string)
    requires Stops(b)
    ensures LinkAt(a + b) == LinkAt(a)
  {
    var n := Span(IsSpace, a);
    SpanJoin(IsSpace, a, b);
    if n < |a| && a[n] == ',' {
      DropJoin(a, b, n + 1);
      MarkJoin(a[n + 1..], b);
    }
  }

  lemma {:induction false} ChainJoin(a: string, b: string)
    requires Stops(b)
    ensures ChainAt(a + b) == ChainAt(a)
  {
    LinkJoin(a, b);
    if LinkAt(a) > 0 {
      ChainJoin(a[LinkAt(a)..], b);
      DropJoin(a, b, LinkAt(a));
    }
  }

  lemma MarkLengthJoin(a: string, b: string)
    requires Stops(b) && a != ""
    ensures MarkLength(a + b) == MarkLength(a)
  {
    if a[0] == '?' {
      DropJoin(a, b, 1);
      ChainJoin(a[1..], b);
    }
  }

  /** Rewriting never reaches across such a beginning. */
  lemma {:induction false} MarksJoin(a: string, b: string)
    requires Stops(b)
    ensures CollapseMarks(a + b) == CollapseMarks(a) + CollapseMarks(b)
    decreases |a|
  {
    if a == "" {
      assert a + b == b;
    } else {
      var n := MarkLength(a);
      MarkLengthJoin(a, b);
      MarksJoin(a[n..], b);
      DropJoin(a, b, n);
      Associative([a[0]], CollapseMarks(a[n..]), CollapseMarks(b));
    }
  }

  lemma {:induction false} MarksInList(u: string)
    requires forall i :: 0 <= i < |u| ==> InList(u[i])
    ensures forall i :: 0 <= i < |CollapseMarks(u)| ==> InList(CollapseMarks(u)[i])
    decreases |u|
  {
    if u != "" {
      MarksInList(u[MarkLength(u)..]);
    }
  }

  /** The list run behind an opening parenthesis is rewritten on its own. */
  lemma MarksListRun(t: string)
    ensures var k := Span(InList, t);
      && CollapseMarks(t) == CollapseMarks(t[..k]) + CollapseMarks(t[k..])
      && Span(InList, CollapseMarks(t)) == |CollapseMarks(t[..k])|
  {
    var k := Span(InList, t);
    assert t == t[..k] + t[k..];
    MarksJoin(t[..k], t[k..]);
    MarksInList(t[..k]);
    MarksHead(t[k..]);
    SpanIs(InList, CollapseMarks(t), |CollapseMarks(t[..k])|);
  }

  lemma MarksKeepListHead(s: string)
    requires s != "" && s[0] == '(' && (ListAt(s) > 0 ==> s[..ListAt(s)] == "(?)")
    ensures var r := "(" + CollapseMarks(s[1..]); ListAt(r) > 0 ==> r[..ListAt(r)] == "(?)"
  {
    var t := s[1..];
    var k := Span(InList, t);
    var r := "(" + CollapseMarks(t);
    MarksListRun(t);
    MarksHead(t[..k]);
    MarksHead(t[k..]);
    assert r[1..] == CollapseMarks(t);
    if ListAt(r) > 0 {
      assert ListAt(s) == k + 2;
      OnlyMark(s, k);
      assert CollapseMarks(t[..k]) == "?";
      assert r[..3] == "(?)";
    }
  }

  lemma OnlyMark(s: string, k: nat)
    requires k + 2 <= |s| && s[..k + 2] == "(?)"
    ensures k == 1 && s[1..][..k] == "?"
  {
    assert |s[..k + 2]| == 3;
    assert s[1] == s[..k + 2][1];
  }

  lemma {:induction false} MarksKeepLists(s: string)
    requires ListsCollapsed(s)
    ensures ListsCollapsed(CollapseMarks(s))
    decreases |s|
  {
    if s != "" {
      var rest := s[MarkLength(s)..];
      ListsSuffix(s, MarkLength(s));
      MarksKeepLists(rest);
      assert CollapseMarks(s)[1..] == CollapseMarks(rest);
      if s[0] == '(' {
        MarksKeepListHead(s);
      }
    }
  }

  /** A test that ignores everything the last three passes add or remove. */
  ghost predicate Indifferent(keep: char -> bool) {
    forall c :: InList(c) || IsDigit(c) ==> !keep(c)
  }

  lemma FilterHead(keep: char -> bool, s: string)
    requires s != ""
    ensures Filter(keep, s) == Filter(keep, [s[0]]) + Filter(keep, s[1..])
  {
    assert s == [s[0]] + s[1..];
    FilterConcat(keep, [s[0]], s[1..]);
  }

  lemma FilterDropped(keep: char -> bool, s: string, n: nat)
    requires n <= |s| && (forall i :: 0 <= i < n ==> !keep(s[i]))
    ensures Filter(keep, s) == Filter(keep, s[n..])
  {
    assert s == s[..n] + s[n..];
    FilterConcat(keep, s[..n], s[n..]);
    FilterNone(keep, s[..n]);
  }

  lemma {:induction false} NumbersKeep(keep: char -> bool, s: string, afterWord: bool)
    requires Indifferent(keep)
    ensures Filter(keep, StripNumbers(s, afterWord)) == Filter(keep, s)
    decreases |s|
  {
    if s != "" {
      var r := StripNumbers(s, afterWord);
      var n := NumberAt(s, afterWord);
      if n > 0 {
        NumbersKeep(keep, s[n..], true);
        FilterDropped(keep, s, n);
        assert r[1..] == StripNumbers(s[n..], true) && !keep(r[0]);
        FilterDropped(keep, r, 1);
      } else {
        NumbersKeep(keep, s[1..], IsWord(s[0]));
        FilterHead(keep, s);
        FilterHead(keep, r);
        assert r[1..] == StripNumbers(s[1..], IsWord(s[0]));
      }
    }
  }

  /** What a filter sees of a parenthesised list whose inside it ignores. */
  lemma FilterList(keep: char -> bool, list: string, tail: string)
    requires forall c :: c in list ==> !keep(c)
    ensures Filter(keep, "(" + list + ")" + tail) == Filter(keep, "(") + Filter(keep, ")") + Filter(keep, tail)
  {
    FilterConcat(keep, "(" + list + ")", tail);
    FilterConcat(keep, "(" + list, ")");
    FilterConcat(keep, "(", list);
    FilterNone(keep, list);
  }

  lemma ListText(s: string) returns (list: string)
    requires ListAt(s) > 0
    ensures s == "(" + list + ")" + s[ListAt(s)..] && forall c :: c in list ==> InList(c)
  {
    var t := s[1..];
    list := t[..ListAt(s) - 2];
    assert t == list + ")" + s[ListAt(s)..];
  }

  lemma FilterLists(keep: char -> bool, list: string, a: string, b: string)
    requires !keep('?') && (forall c :: c in list ==> !keep(c)) && Filter(keep, a) == Filter(keep, b)
    ensures Filter(keep, "(?)" + a) == Filter(keep, "(" + list + ")" + b)
  {
    FilterList(keep, list, b);
    FilterList(keep, "?", a);
    MarkedList();
  }

  lemma MarkedList()
    ensures "(" + "?" + ")" == "(?)"
  {
  }

  lemma {:induction false} ListsKeep(keep: char -> bool, s: string)
    requires Indifferent(keep)
    ensures Filter(keep, CollapseLists(s)) == Filter(keep, s)
  {
    if s != "" {
      if ListAt(s) > 0 {
        ListsKeep(keep, s[ListAt(s)..]);
        var list := ListText(s);
        FilterLists(keep, list, CollapseLists(s[ListAt(s)..]), s[ListAt(s)..]);
      } else {
        ListsKeep(keep, s[1..]);
        FilterHead(keep, s);
        FilterHead(keep, CollapseLists(s));
        assert CollapseLists(s)[1..] == CollapseLists(s[1..]);
      }
    }
  }

  lemma LinkInList(s: string)
    ensures forall i :: 0 <= i < LinkAt(s) ==> InList(s[i])
  {
    if LinkAt(s) > 0 {
      var a := Span(IsSpace, s);
      var b := Span(IsSpace, s[a + 1..]);
      forall i | 0 <= i < LinkAt(s)
        ensures InList(s[i])
      {
        if a < i <= a + b {
          assert IsSpace(s[a + 1..][i - a - 1]);
        }
      }
    }
  }

  lemma {:induction false} ChainInList(s: string)
    ensures forall i :: 0 <= i < ChainAt(s) ==> InList(s[i])
  {
    var l := LinkAt(s);
    if l > 0 {
      LinkInList(s);
      ChainInList(s[l..]);
      forall i | l <= i < ChainAt(s)
        ensures InList(s[i])
      {
        assert s[i] == s[l..][i - l];
      }
    }
  }

  lemma {:induction false} MarksKeep(keep: char -> bool, s: string)
    requires Indifferent(keep)
    ensures Filter(keep, CollapseMarks(s)) == Filter(keep, s)
    decreases |s|
  {
    if s != "" {
      var r, n := CollapseMarks(s), MarkLength(s);
      MarksKeep(keep, s[n..]);
      assert r[1..] == CollapseMarks(s[n..]);
      if s[0] == '?' {
        ChainInList(s[1..]);
        assert forall i :: 1 <= i < n ==> s[i] == s[1..][i - 1];
        FilterDropped(keep, s, n);
        FilterDropped(keep, r, 1);
      } else {
        FilterHead(keep, s);
        FilterHead(keep, r);
      }
    }
  }

  // ---------------------------------------------------------------- idempotence

  /** The later passes neither add nor remove quotes. */
  lemma QuotesSurvive(literals: string)
    ensures Quotes(CollapseMarks(CollapseLists(StripNumbers(literals, false)))) == Quotes(literals)
  {
    var numbers := StripNumbers(literals, false);
    NumbersKeep(IsQuote, literals, false);
    ListsKeep(IsQuote, numbers);
    MarksKeep(IsQuote, CollapseLists(numbers));
  }

  lemma NoNumberSurvives(literals: string)
    ensures NoNumber(CollapseMarks(CollapseLists(StripNumbers(literals, false))), false)
  {
    var numbers := StripNumbers(literals, false);
    NumbersEstablish(literals, false);
    ListsKeepNumbers(numbers, false);
    MarksKeepNumbers(CollapseLists(numbers), false);
  }

  lemma ListsAndMarksCollapse(numbers: string)
    ensures ListsCollapsed(CollapseMarks(CollapseLists(numbers)))
      && MarksCollapsed(CollapseMarks(CollapseLists(numbers)))
  {
    var lists := CollapseLists(numbers);
    ListsEstablish(numbers);
    MarksKeepLists(lists);
    MarksEstablish(lists);
  }

  /** Sanitizing any query yields sanitized text. */
  lemma SanitizeEstablishes(query: string)
    ensures Sanitized(SanitizeQuery(query))
  {
    LiteralsEstablish(query);
    QuotesSurvive(StripLiterals(query));
    NoNumberSurvives(StripLiterals(query));
    ListsAndMarksCollapse(StripNumbers(StripLiterals(query), false));
  }

  /** The fixed points of sanitizing are exactly the sanitized texts. */
  lemma FixedExactlyWhenSanitized(query: string)
    ensures SanitizeQuery(query) == query <==> Sanitized(query)
  {
    SanitizeEstablishes(query);
    if Sanitized(query) {
      LiteralsFixed(query);
      NumbersFixed(query, false);
      ListsFixed(query);
      MarksFixed(query);
    }
  }

  lemma SanitizeIsIdempotent(query: string)
    ensures SanitizeQuery(SanitizeQuery(query)) == SanitizeQuery(query)
  {
    SanitizeEstablishes(query);
    FixedExactlyWhenSanitized(SanitizeQuery(query));
  }

  // ---------------------------------------------------------------- literal independence

  predicate QuoteFree(s: string) {
    '\'' !in s
  }

  function Quoted(before: string, literal: string, after: string): string {
    before + "'" + literal + "'" + after
  }

  lemma {:induction false} QuoteFreeCopied(s: string, rest: string)
    requires QuoteFree(s)
    ensures StripLiterals(s + rest) == s + StripLiterals(rest)
  {
    if s == "" {
      assert s + rest == rest;
    } else {
      assert s[1..] + rest == (s + rest)[1..];
      QuoteFreeCopied(s[1..], rest);
    }
  }

  lemma LiteralReplaced(literal: string, after: string)
    requires QuoteFree(literal)
    ensures StripLiterals("'" + literal + "'" + after) == "?" + StripLiterals(after)
  {
    var s := "'" + literal + "'" + after;
    assert s[1..] == literal + "'" + after;
    SpanIs(NotQuote, s[1..], |literal|);
    assert s[|literal| + 2..] == after;
  }

  /** Text opening with a quote either has no other quote or opens with a complete literal. */
  lemma FirstLiteral(s: string) returns (literal: string, after: string)
    requires s != "" && s[0] == '\'' && Quotes(s) % 2 == 0
    ensures s == "'" + literal + "'" + after && QuoteFree(literal) && Quotes(after) % 2 == 0
  {
    QuoteNotLast(s);
    literal, after := CutAtQuote(s[1..]);
    Reassemble(s, literal, after);
    QuotesAround(literal, after);
  }

  lemma QuoteNotLast(s: string)
    requires s != "" && s[0] == '\'' && Quotes(s) % 2 == 0
    ensures Span(NotQuote, s[1..]) < |s[1..]|
  {
    QuotesHead(s);
    if Span(NotQuote, s[1..]) == |s[1..]| {
      FilterNone(IsQuote, s[1..]);
    }
  }

  lemma Reassemble(s: string, literal: string, after: string)
    requires s != "" && s[0] == '\'' && s[1..] == literal + "'" + after
    ensures s == "'" + literal + "'" + after
  {
    assert s == "'" + s[1..];
  }

  lemma CutAtQuote(t: string) returns (literal: string, after: string)
    requires Span(NotQuote, t) < |t|
    ensures t == literal + "'" + after && QuoteFree(literal)
  {
    var n := Span(NotQuote, t);
    literal, after := t[..n], t[n + 1..];
    assert forall c :: c in literal ==> NotQuote(c);
  }

  lemma QuotesAround(literal: string, after: string)
    requires QuoteFree(literal)
    ensures Quotes("'" + literal + "'" + after) == 2 + Quotes(after)
  {
    QuotesConcat("'" + literal + "'", after);
    QuotesConcat("'" + literal, "'");
    QuotesConcat("'", literal);
    FilterNone(IsQuote, literal);
    assert "'"[1..] == "";
  }

  /** Text with balanced quotes is rewritten on its own, whatever follows. */
  lemma {:induction false} BalancedSplits(before: string, rest: string)
    requires Quotes(before) % 2 == 0
    ensures StripLiterals(before + rest) == StripLiterals(before) + StripLiterals(rest)
    decreases |before|
  {
    if before == "" {
      assert before + rest == rest;
    } else if before[0] != '\'' {
      QuotesHead(before);
      BalancedSplits(before[1..], rest);
      DropJoin(before, rest, 1);
      Associative([before[0]], StripLiterals(before[1..]), StripLiterals(rest));
    } else {
      var literal, after := FirstLiteral(before);
      BalancedSplits(after, rest);
      LiteralSplits(literal, after, rest);
    }
  }

  lemma LiteralSplits(literal: string, after: string, rest: string)
    requires QuoteFree(literal)
    requires StripLiterals(after + rest) == StripLiterals(after) + StripLiterals(rest)
    ensures StripLiterals("'" + literal + "'" + after + rest)
      == StripLiterals("'" + literal + "'" + after) + StripLiterals(rest)
  {
    LiteralReplaced(literal, after);
    LiteralReplaced(literal, after + rest);
    Associative("'" + literal + "'", after, rest);
    Associative("?", StripLiterals(after), StripLiterals(rest));
  }

  lemma LiteralHidden(before: string, z: string, after: string)
    requires Quotes(before) % 2 == 0 && QuoteFree(z)
    ensures StripLiterals(Quoted(before, z, after)) == StripLiterals(before) + ("?" + StripLiterals(after))
  {
    var rest := "'" + z + "'" + after;
    assert Quoted(before, z, after) == before + rest;
    BalancedSplits(before, rest);
    LiteralReplaced(z, after);
  }

  /** After an even number of quotes, the contents of a literal never reach the sanitized text. */
  lemma LiteralIndependent(before: string, x: string, y: string, after: string)
    requires Quotes(before) % 2 == 0 && QuoteFree(x) && QuoteFree(y)
    ensures SanitizeQuery(Quoted(before, x, after)) == SanitizeQuery(Quoted(before, y, after))
  {
    LiteralHidden(before, x, after);
    LiteralHidden(before, y, after);
  }

  /** Splitting off the last quote. */
  lemma {:induction false} LastQuote(s: string) returns (head: string, tail: string)
    requires Quotes(s) > 0
    ensures s == head + "'" + tail && QuoteFree(tail) && Quotes(head) == Quotes(s) - 1
  {
    var init, last := s[..|s| - 1], s[|s| - 1];
    assert s == init + [last];
    QuotesConcat(init, [last]);
    QuotesOne(last);
    if last == '\'' {
      head, tail := init, "";
    } else {
      head, tail := LastQuote(init);
      tail := tail + [last];
    }
  }

  /** After an odd number of quotes the opening quote closes another literal, and the contents stay visible. */
  lemma OddLeaks(head: string, tail: string, x: string, after: string)
    requires Quotes(head) % 2 == 0 && QuoteFree(tail) && QuoteFree(x)
    ensures StripLiterals(Quoted(head + "'" + tail, x, after))
         == StripLiterals(head) + ("?" + (x + StripLiterals("'" + after)))
  {
    var open := "'" + after;
    OddRegrouped(head, tail, x, after);
    BalancedSplits(head, "'" + tail + "'" + (x + open));
    LiteralReplaced(tail, x + open);
    QuoteFreeCopied(x, open);
  }

  lemma OddRegrouped(head: string, tail: string, x: string, after: string)
    ensures Quoted(head + "'" + tail, x, after) == head + ("'" + tail + "'" + (x + ("'" + after)))
  {
  }

  lemma LettersSurvive(query: string)
    ensures Filter(IsLetter, SanitizeQuery(query)) == Filter(IsLetter, StripLiterals(query))
  {
    var literals := StripLiterals(query);
    NumbersKeep(IsLetter, literals, false);
    ListsKeep(IsLetter, StripNumbers(literals, false));
    MarksKeep(IsLetter, CollapseLists(StripNumbers(literals, false)));
  }

  lemma OddLetters(head: string, tail: string, x: string, after: string)
    requires Quotes(head) % 2 == 0 && QuoteFree(tail) && QuoteFree(x)
    ensures Filter(IsLetter, SanitizeQuery(Quoted(head + "'" + tail, x, after)))
         == Filter(IsLetter, StripLiterals(head)) + (Filter(IsLetter, x) + Filter(IsLetter, StripLiterals("'" + after)))
  {
    var shown := x + StripLiterals("'" + after);
    OddLeaks(head, tail, x, after);
    LettersSurvive(Quoted(head + "'" + tail, x, after));
    FilterConcat(IsLetter, StripLiterals(head), "?" + shown);
    assert ("?" + shown)[1..] == shown;
    FilterDropped(IsLetter, "?" + shown, 1);
    FilterConcat(IsLetter, x, StripLiterals("'" + after));
  }

  /** The contents of a quoted piece are hidden, whatever they are, exactly when it starts after an even
      number of quotes. */
  lemma HiddenExactlyAfterEvenQuotes(before: string, after: string)
    ensures (forall x, y :: QuoteFree(x) && QuoteFree(y) ==>
               SanitizeQuery(Quoted(before, x, after)) == SanitizeQuery(Quoted(before, y, after)))
       <==> Quotes(before) % 2 == 0
  {
    if Quotes(before) % 2 == 0 {
      forall x, y | QuoteFree(x) && QuoteFree(y)
        ensures SanitizeQuery(Quoted(before, x, after)) == SanitizeQuery(Quoted(before, y, after))
      {
        LiteralIndependent(before, x, y, after);
      }
    } else {
      var head, tail := LastQuote(before);
      OddLetters(head, tail, "a", after);
      OddLetters(head, tail, "b", after);
      var n := |Filter(IsLetter, StripLiterals(head))|;
      FilterAll(IsLetter, "a");
      FilterAll(IsLetter, "b");
      assert Filter(IsLetter, SanitizeQuery(Quoted(before, "a", after)))[n] == 'a';
      assert Filter(IsLetter, SanitizeQuery(Quoted(before, "b", after)))[n] == 'b';
      assert QuoteFree("a") && QuoteFree("b");
    }
  }
}
