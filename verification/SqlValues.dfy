/**
 What sanitizeQuery of src/database/data-source.ts makes of values: numbers, literals and lists of them
 are as good as one mark.
 */
module SqlValues {
  import opened Basics
  import opened SqlSanitizer

  // ---------------------------------------------------------------- what a value becomes

  /** A letter, a digit or an underscore. */
  predicate WordChar(c: char) {
    'a' <= c <= 'z' || 'A' <= c <= 'Z' || '0' <= c <= '9' || c == '_'
  }

  /** Nothing, or text that begins and ends outside words as seen from its neighbour. */
  predicate EndsPlain(s: string) {
    s == "" || !WordChar(s[|s| - 1])
  }

  predicate BeginsPlain(s: string) {
    s == "" || !WordChar(s[0])
  }

  /** Names keep their digits: a word that is more than a number is left alone. */
  lemma NamesAreKept(w: string)
    requires (forall i :: 0 <= i < |w| ==> WordChar(w[i])) && exists i :: 0 <= i < |w| && !('0' <= w[i] <= '9')
    ensures SanitizeQuery(w) == w
  {
    FilterNone(IsQuote, w);
    WordHasNoNumber(w);
    if Span(IsDigit, w) == |w| {
      assert forall i :: 0 <= i < |w| ==> IsDigit(w[i]);
    }
    NothingToCollapse(w);
    FixedExactlyWhenSanitized(w);
  }

  lemma {:induction false} WordHasNoNumber(w: string)
    requires forall i :: 0 <= i < |w| ==> WordChar(w[i])
    ensures NoNumber(w, true)
  {
    if w != "" {
      WordHasNoNumber(w[1..]);
    }
  }

  lemma {:induction false} NothingToCollapse(w: string)
    requires forall i :: 0 <= i < |w| ==> WordChar(w[i])
    ensures ListsCollapsed(w) && MarksCollapsed(w)
  {
    if w != "" {
      NothingToCollapse(w[1..]);
    }
  }

  lemma {:induction false} LiteralsHead(s: string)
    requires BeginsPlain(s)
    ensures BeginsPlain(StripLiterals(s))
  {
  }

  /** An opening quote with no other quote is copied with all that follows. */
  lemma LoneQuoteCopied(t: string)
    requires QuoteFree(t)
    ensures StripLiterals("'" + t) == "'" + t
  {
    QuotesConcat("'", t);
    QuotesOne('\'');
    FilterNone(IsQuote, t);
    LiteralsFixed("'" + t);
  }

  lemma {:induction false} LiteralsLast(s: string)
    ensures StripLiterals(s) == "" <==> s == ""
    ensures EndsPlain(s) ==> EndsPlain(StripLiterals(s))
  {
    if s != "" {
      LiteralsLast(s[if LiteralAt(s) > 0 then LiteralAt(s) else 1..]);
    }
  }

  /** After an even number of quotes, quote-free text is copied. */
  lemma CopiedAfterEven(a: string, m: string, b: string)
    requires Quotes(a) % 2 == 0 && QuoteFree(m)
    ensures StripLiterals(a + (m + b)) == StripLiterals(a) + (m + StripLiterals(b))
  {
    BalancedSplits(a, m + b);
    QuoteFreeCopied(m, b);
  }

  /** After an odd number it is part of a literal if another quote follows. */
  lemma HiddenAfterOdd(head: string, t: string, m: string, literal: string, after: string)
    requires Quotes(head) % 2 == 0 && QuoteFree(t) && QuoteFree(m) && QuoteFree(literal)
    ensures StripLiterals(head + "'" + t + (m + (literal + "'" + after)))
         == StripLiterals(head) + ("?" + StripLiterals(after))
  {
    var x := t + m + literal;
    RegroupHidden(head, t, m, literal, after);
    BalancedSplits(head, "'" + x + "'" + after);
    LiteralReplaced(x, after);
  }

  lemma RegroupHidden(head: string, t: string, m: string, literal: string, after: string)
    ensures head + "'" + t + (m + (literal + "'" + after)) == head + ("'" + (t + m + literal) + "'" + after)
  {
    var rest := literal + "'" + after;
    Regroup(head, t, m + rest);
    assert t + (m + rest) == t + m + literal + "'" + after;
    assert "'" + (t + m + literal + "'" + after) == "'" + (t + m + literal) + "'" + after;
  }

  lemma Regroup(head: string, t: string, rest: string)
    ensures head + "'" + t + rest == head + ("'" + (t + rest))
  {
  }

  /** Otherwise everything from the last quote on is copied. */
  lemma CopiedAfterOdd(head: string, t: string, m: string, b: string)
    requires Quotes(head) % 2 == 0 && QuoteFree(t) && QuoteFree(m) && QuoteFree(b)
    ensures StripLiterals(head + "'" + t + (m + b)) == StripLiterals(head) + "'" + t + (m + b)
    ensures StripLiterals(b) == b
  {
    var x := t + (m + b);
    Regroup(head, t, m + b);
    Regroup(StripLiterals(head), t, m + b);
    BalancedSplits(head, "'" + x);
    LoneQuoteCopied(x);
    QuoteFreeCopied(b, "");
    assert b + "" == b;
  }

  /** Quote-free text in a query: either a literal hides it, or it is copied between what its neighbours become. */
  lemma LiteralsHole(a: string, m: string, n: string, b: string) returns (hidden: bool, front: string)
    requires QuoteFree(m) && QuoteFree(n)
    ensures hidden ==> StripLiterals(a + (m + b)) == StripLiterals(a + (n + b))
    ensures !hidden ==> StripLiterals(a + (m + b)) == front + (m + StripLiterals(b))
    ensures !hidden ==> StripLiterals(a + (n + b)) == front + (n + StripLiterals(b))
    ensures !hidden && EndsPlain(a) ==> EndsPlain(front)
  {
    if Quotes(a) % 2 == 0 {
      hidden, front := false, StripLiterals(a);
      CopiedAfterEven(a, m, b);
      CopiedAfterEven(a, n, b);
      LiteralsLast(a);
    } else {
      var head, t := LastQuote(a);
      hidden, front := '\'' in b, StripLiterals(head) + "'" + t;
      if hidden {
        var literal, after := CutFirst(b);
        HiddenAfterOdd(head, t, m, literal, after);
        HiddenAfterOdd(head, t, n, literal, after);
      } else {
        CopiedAfterOdd(head, t, m, b);
        CopiedAfterOdd(head, t, n, b);
        LastIsSame(a, front, head, t);
      }
    }
  }

  lemma CutFirst(b: string) returns (literal: string, after: string)
    requires '\'' in b
    ensures b == literal + "'" + after && QuoteFree(literal)
  {
    QuoteEndsSpan(b);
    literal, after := CutAtQuote(b);
  }

  lemma QuoteEndsSpan(b: string)
    ensures '\'' in b <==> Span(NotQuote, b) < |b|
  {
    var k := Span(NotQuote, b);
    assert forall i :: 0 <= i < k ==> NotQuote(b[i]);
  }

  lemma LastIsSame(a: string, front: string, head: string, t: string)
    requires a == head + "'" + t && front == StripLiterals(head) + "'" + t
    ensures EndsPlain(a) <==> EndsPlain(front)
  {
    assert a[|a| - 1] == ("'" + t)[|t|] && front[|front| - 1] == ("'" + t)[|t|];
  }

  /** One step of the scan for numbers. */
  function StepAt(s: string, afterWord: bool): (n: nat)
    requires s != ""
    ensures 1 <= n <= |s|
  {
    if NumberAt(s, afterWord) > 0 then NumberAt(s, afterWord) else 1
  }

  function Shown(s: string, afterWord: bool): string
    requires s != ""
  {
    if NumberAt(s, afterWord) > 0 then "?" else [s[0]]
  }

  function InWord(s: string, afterWord: bool): bool
    requires s != ""
  {
    NumberAt(s, afterWord) > 0 || IsWord(s[0])
  }

  lemma NumbersStep(a: string, b: string, afterWord: bool)
    requires a != "" && NumberAt(a + b, afterWord) == NumberAt(a, afterWord)
    ensures var rest, next := a[StepAt(a, afterWord)..], InWord(a, afterWord);
      && StripNumbers(a + b, afterWord) == Shown(a, afterWord) + StripNumbers(rest + b, next)
      && StripNumbers(a, afterWord) == Shown(a, afterWord) + StripNumbers(rest, next)
  {
    DropJoin(a, b, StepAt(a, afterWord));
  }

  lemma NumberJoin(a: string, b: string, afterWord: bool)
    requires a != "" && (BeginsPlain(b) || EndsPlain(a))
    ensures NumberAt(a + b, afterWord) == NumberAt(a, afterWord)
  {
    var d := Span(IsDigit, a);
    if d == |a| {
      assert IsDigit(a[|a| - 1]);
    }
    SpanIs(IsDigit, a + b, d);
  }

  /** Text that ends outside a word is rewritten on its own. */
  lemma {:induction false} NumbersSplit(a: string, b: string, afterWord: bool)
    requires a != "" && EndsPlain(a)
    ensures StripNumbers(a + b, afterWord) == StripNumbers(a, afterWord) + StripNumbers(b, false)
    decreases |a|
  {
    var rest, next := a[StepAt(a, afterWord)..], InWord(a, afterWord);
    NumberJoin(a, b, afterWord);
    NumbersStep(a, b, afterWord);
    if rest == "" {
      WholeStepIsPlain(a, afterWord);
      StripNothing(rest, b);
    } else {
      assert EndsPlain(rest);
      NumbersSplit(rest, b, next);
    }
    Associative(Shown(a, afterWord), StripNumbers(rest, next), StripNumbers(b, false));
  }

  lemma EmptyJoin(x: string)
    ensures "" + x == x
  {
  }

  lemma StripNothing(rest: string, b: string)
    requires rest == ""
    ensures StripNumbers(rest + b, false) == StripNumbers(rest, false) + StripNumbers(b, false)
  {
    EmptyJoin(b);
    EmptyJoin(StripNumbers(b, false));
  }

  lemma WholeStepIsPlain(a: string, afterWord: bool)
    requires a != "" && EndsPlain(a) && StepAt(a, afterWord) == |a|
    ensures !InWord(a, afterWord)
  {
    var last := a[|a| - 1];
    assert NumberAt(a, afterWord) > 0 ==> IsDigit(last);
  }

  /** At a non-word character the left context does not matter. */
  lemma PlainForgets(s: string)
    requires BeginsPlain(s)
    ensures StripNumbers(s, true) == StripNumbers(s, false)
  {
  }

  lemma {:induction false} NumbersBefore(a: string, b: string, afterWord: bool)
    requires BeginsPlain(b)
    ensures StripNumbers(a + b, afterWord) == StripNumbers(a, afterWord) + StripNumbers(b, false)
    decreases |a|
  {
    if a == "" {
      assert a + b == b;
      PlainForgets(b);
    } else {
      var rest, next := a[StepAt(a, afterWord)..], InWord(a, afterWord);
      NumberJoin(a, b, afterWord);
      NumbersStep(a, b, afterWord);
      NumbersBefore(rest, b, next);
      Associative(Shown(a, afterWord), StripNumbers(rest, next), StripNumbers(b, false));
    }
  }

  predicate AllDigits(s: string) {
    forall i :: 0 <= i < |s| ==> '0' <= s[i] <= '9'
  }

  /** A standalone number and a mark become the same. */
  lemma NumberReplaced(d: string, b: string)
    requires d != "" && AllDigits(d) && BeginsPlain(b)
    ensures StripNumbers(d + b, false) == StripNumbers("?" + b, false)
  {
    SpanIs(IsDigit, d + b, |d|);
    assert (d + b)[|d|..] == b && ("?" + b)[1..] == b;
    PlainForgets(b);
  }

  /** A standalone number is as good as a mark, inside literals and outside. */
  lemma NumberIsMark(a: string, d: string, b: string)
    requires d != "" && AllDigits(d) && EndsPlain(a) && BeginsPlain(b)
    ensures SanitizeQuery(a + d + b) == SanitizeQuery(a + "?" + b)
  {
    var hidden, front := LiteralsHole(a, d, "?", b);
    Associative(a, d, b);
    Associative(a, "?", b);
    if !hidden {
      LiteralsHead(b);
      NumberReplacedAfter(front, d, StripLiterals(b));
    }
  }

  lemma NumberReplacedAfter(front: string, d: string, tail: string)
    requires d != "" && AllDigits(d) && EndsPlain(front) && BeginsPlain(tail)
    ensures StripNumbers(front + (d + tail), false) == StripNumbers(front + ("?" + tail), false)
  {
    NumberReplaced(d, tail);
    if front != "" {
      NumbersSplit(front, d + tail, false);
      NumbersSplit(front, "?" + tail, false);
    } else {
      assert front + (d + tail) == d + tail && front + ("?" + tail) == "?" + tail;
    }
  }

  /** After an even number of quotes a literal is as good as a mark. */
  lemma LiteralIsMark(a: string, x: string, b: string)
    requires Quotes(a) % 2 == 0 && QuoteFree(x)
    ensures SanitizeQuery(Quoted(a, x, b)) == SanitizeQuery(a + "?" + b)
  {
    LiteralHidden(a, x, b);
    assert a + "?" + b == a + ("?" + b);
    BalancedSplits(a, "?" + b);
    QuoteFreeCopied("?", b);
  }

  // ---------------------------------------------------------------- lists of values

  /** A comma among white space. */
  predicate IsSeparator(sep: string) {
    exists i :: 0 <= i < |sep| && SeparatesAt(sep, i)
  }

  predicate SeparatesAt(sep: string, i: nat) {
    i < |sep| && sep[i] == ',' && forall j :: 0 <= j < |sep| && j != i ==> IsSpace(sep[j])
  }

  lemma SeparatorChars(sep: string)
    requires IsSeparator(sep)
    ensures forall i :: 0 <= i < |sep| ==> InList(sep[i]) && !IsWord(sep[i]) && NotQuote(sep[i])
  {
    var k :| 0 <= k < |sep| && SeparatesAt(sep, k);
    forall i | 0 <= i < |sep|
      ensures InList(sep[i]) && !IsWord(sep[i]) && NotQuote(sep[i])
    {
      assert i == k || IsSpace(sep[i]);
    }
  }

  /** A marked separator is one link, wherever it stands. */
  lemma SeparatorLinks(sep: string, y: string)
    requires IsSeparator(sep) && y != "" && y[0] == '?'
    ensures LinkAt(sep + y) == |sep| + 1
  {
    var i :| 0 <= i < |sep| && SeparatesAt(sep, i);
    SpacesBefore(sep[..i], sep[i..] + y);
    assert sep + y == sep[..i] + (sep[i..] + y);
    SpacesBefore(sep[i + 1..], y);
    DropJoin(sep, y, i + 1);
  }

  lemma SpacesBefore(t: string, x: string)
    requires (forall j :: 0 <= j < |t| ==> IsSpace(t[j])) && x != "" && !IsSpace(x[0])
    ensures Span(IsSpace, t + x) == |t| && (t + x)[|t|] == x[0]
  {
    SpanIs(IsSpace, t + x, |t|);
  }

  /** A link is decided by the text up to its first mark. */
  lemma MarkLocal(t: string, x: string)
    requires x != "" && x[0] == '?'
    ensures MarkAt(t + x) == MarkAt(t + "?") <= |t| + 1
  {
    SpanJoin(IsSpace, t, x);
    SpanJoin(IsSpace, t, "?");
  }

  lemma LinkToMark(t: string, x: string)
    requires x != "" && x[0] == '?'
    ensures LinkAt(t + x) == LinkAt(t + "?") <= |t| + 1
  {
    var n := Span(IsSpace, t);
    SpanJoin(IsSpace, t, x);
    SpanJoin(IsSpace, t, "?");
    if n < |t| && t[n] == ',' {
      MarkLocal(t[n + 1..], x);
      CommaLink(t, x, n);
      CommaLink(t, "?", n);
    }
  }

  lemma CommaLink(t: string, x: string, n: nat)
    requires n < |t| && t[n] == ',' && Span(IsSpace, t + x) == n
    ensures LinkAt(t + x) == if MarkAt(t[n + 1..] + x) > 0 then n + 1 + MarkAt(t[n + 1..] + x) else 0
  {
    DropJoin(t, x, n + 1);
  }

  lemma LinkLocal(t: string, x: string, y: string)
    requires x != "" && y != "" && x[0] == '?' && y[0] == '?'
    ensures LinkAt(t + x) == LinkAt(t + y) <= |t| + 1
  {
    LinkToMark(t, x);
    LinkToMark(t, y);
  }

  lemma DropPast(t: string, x: string)
    requires x != ""
    ensures (t + x)[|t| + 1..] == x[1..]
  {
  }

  /** Two texts that begin with a mark and go on with the same chain, one of them after `n` more linked characters. */
  predicate SameChain(x: string, y: string, n: nat) {
    && x != "" && y != "" && x[0] == '?' && y[0] == '?'
    && n < |x| && x[1..][n..] == y[1..]
    && ChainAt(x[1..]) == n + ChainAt(y[1..])
  }

  /** A chain in front of a mark ends before it, or takes it along with all links behind it. */
  lemma {:induction false} ChainHole(t: string, x: string, y: string, n: nat) returns (through: bool)
    requires SameChain(x, y, n)
    ensures !through ==> ChainAt(t + x) == ChainAt(t + y) <= |t|
    ensures through ==> ChainAt(t + y) == |t| + 1 + ChainAt(y[1..])
    ensures through ==> ChainAt(t + x) == |t| + 1 + n + ChainAt(y[1..])
    decreases |t|
  {
    LinkLocal(t, x, y);
    var l := LinkAt(t + x);
    through := l == |t| + 1;
    if through {
      LinkPast(t, x);
      LinkPast(t, y);
    } else if l > 0 {
      LinkWithin(t, x, l);
      LinkWithin(t, y, l);
      through := ChainHole(t[l..], x, y, n);
    }
  }

  lemma LinkWithin(t: string, x: string, l: nat)
    requires LinkAt(t + x) == l && 0 < l <= |t|
    ensures ChainAt(t + x) == l + ChainAt(t[l..] + x)
  {
    DropJoin(t, x, l);
  }

  lemma LinkPast(t: string, x: string)
    requires x != "" && LinkAt(t + x) == |t| + 1
    ensures ChainAt(t + x) == |t| + 1 + ChainAt(x[1..])
  {
    DropPast(t, x);
  }

  /** Linked marks behind a mark change nothing. */
  lemma {:induction false} MarksAbsorb(a: string, x: string, y: string, n: nat, p: string, q: string)
    requires SameChain(x, y, n) && p == a + x && q == a + y
    ensures CollapseMarks(p) == CollapseMarks(q)
    decreases |a|
  {
    if a == "" {
      EmptyJoin(x);
      EmptyJoin(y);
      BothPassed(x, y, n);
    } else {
      var through, k := MarksStep(a, x, y, n);
      if through {
        BothThrough(a, x, y, n);
      } else {
        var rest := a[k..];
        MarksAbsorb(rest, x, y, n, rest + x, rest + y);
        StepTaken(a, x, k, p, rest + x);
        StepTaken(a, y, k, q, rest + y);
      }
    }
  }

  /** The scan's step at the head of `a` passes the mark behind `a` in both texts, or consumes `k` characters
      of both. */
  lemma MarksStep(a: string, x: string, y: string, n: nat) returns (through: bool, k: nat)
    requires SameChain(x, y, n) && a != ""
    ensures through ==> a[0] == '?' && ChainAt(a[1..] + y) == |a| + ChainAt(y[1..])
                        && ChainAt(a[1..] + x) == |a| + n + ChainAt(y[1..])
    ensures !through ==> 1 <= k <= |a|
    ensures !through ==> if a[0] == '?' then ChainAt(a[1..] + x) == ChainAt(a[1..] + y) == k - 1 else k == 1
  {
    through, k := false, 1;
    if a[0] == '?' {
      through := ChainHole(a[1..], x, y, n);
      if !through {
        k := ChainAt(a[1..] + y) + 1;
      }
    }
  }

  lemma StepTaken(a: string, x: string, k: nat, p: string, rest: string)
    requires a != "" && 1 <= k <= |a| && (if a[0] == '?' then ChainAt(a[1..] + x) == k - 1 else k == 1)
    requires p == a + x && rest == a[k..] + x
    ensures CollapseMarks(p) == [a[0]] + CollapseMarks(rest)
  {
    if a[0] == '?' {
      ChainWithin(a, x, k, p, rest);
    } else {
      MarksCopyOne(a, x, p, rest);
    }
  }

  lemma BothThrough(a: string, x: string, y: string, n: nat)
    requires SameChain(x, y, n) && a != "" && a[0] == '?'
    requires ChainAt(a[1..] + y) == |a| + ChainAt(y[1..]) && ChainAt(a[1..] + x) == |a| + n + ChainAt(y[1..])
    ensures CollapseMarks(a + x) == CollapseMarks(a + y)
  {
    ChainThrough(a, x, n, y[1..]);
    ChainThrough(a, y, 0, y[1..]);
  }

  lemma BothPassed(x: string, y: string, n: nat)
    requires SameChain(x, y, n)
    ensures CollapseMarks(x) == CollapseMarks(y)
  {
    ChainPassed(x, x[1..], n, y[1..]);
    ChainPassed(y, y[1..], 0, y[1..]);
  }

  lemma ChainThrough(a: string, x: string, n: nat, b: string)
    requires a != "" && a[0] == '?' && n < |x| && x[1..][n..] == b
    requires ChainAt(a[1..] + x) == |a| + n + ChainAt(b)
    ensures CollapseMarks(a + x) == "?" + CollapseMarks(b[ChainAt(b)..])
  {
    var t := a[1..] + x;
    DropJoin(a, x, 1);
    DropPast(a[1..], x);
    DropSum(t, |a|, n, x[1..], b);
    ChainPassed(a + x, t, |a| + n, b);
  }

  lemma MarksCopyOne(a: string, x: string, p: string, rest: string)
    requires a != "" && a[0] != '?' && p == a + x && rest == a[1..] + x
    ensures CollapseMarks(p) == [a[0]] + CollapseMarks(rest)
  {
    DropJoin(a, x, 1);
  }

  lemma ChainWithin(a: string, x: string, k: nat, p: string, rest: string)
    requires a != "" && a[0] == '?' && 1 <= k <= |a| && ChainAt(a[1..] + x) == k - 1
    requires p == a + x && rest == a[k..] + x
    ensures CollapseMarks(p) == "?" + CollapseMarks(rest)
  {
    DropJoin(a, x, 1);
    DropJoin(a, x, k);
    MarkTaken(p, rest);
  }

  lemma MarkTaken(s: string, rest: string)
    requires s != "" && s[0] == '?' && s[MarkLength(s)..] == rest
    ensures CollapseMarks(s) == "?" + CollapseMarks(rest)
  {
  }

  /** A mark whose chain runs `n` characters and then through `b`'s own. */
  lemma ChainPassed(s: string, t: string, n: nat, b: string)
    requires s != "" && s[0] == '?' && s[1..] == t && n <= |t| && t[n..] == b && ChainAt(t) == n + ChainAt(b)
    ensures CollapseMarks(s) == "?" + CollapseMarks(b[ChainAt(b)..])
  {
    DropSum(s, 1, n, t, b);
    DropSum(s, 1 + n, ChainAt(b), b, b[ChainAt(b)..]);
    MarkTaken(s, b[ChainAt(b)..]);
  }

  /** A mark, a separator and a mark chain like one mark. */
  lemma SeparatorChains(sep: string, b: string)
    requires IsSeparator(sep)
    ensures SameChain("?" + (sep + ("?" + b)), "?" + b, |sep| + 1)
  {
    var x, y := "?" + (sep + ("?" + b)), "?" + b;
    var t := sep + y;
    SeparatorLinks(sep, y);
    DropPast(sep, y);
    ChainUnfolds(t);
    assert x[1..] == t && y[1..] == b;
  }

  predicate AllInList(s: string) {
    forall i :: 0 <= i < |s| ==> InList(s[i])
  }

  /** The list text at the head ends in a closing parenthesis. */
  predicate ClosesList(b: string) {
    Span(InList, b) < |b| && b[Span(InList, b)] == ')'
  }

  /** `a` ends in an opening parenthesis and list text. */
  predicate EndsOpen(a: string) {
    a != "" && a[0] == '(' && Span(InList, a[1..]) == |a| - 1
  }

  function ListStep(a: string): (n: nat)
    requires a != ""
    ensures 1 <= n <= |a|
  {
    if ListAt(a) > 0 then ListAt(a) else 1
  }

  /** What becomes of the text before list text, up to a list that takes it up. */
  function ListFront(a: string, closes: bool): string {
    if a == "" then ""
    else if EndsOpen(a) && closes then "(?)"
    else (if ListAt(a) > 0 then "(?)" else [a[0]]) + ListFront(a[ListStep(a)..], closes)
  }

  predicate TakesUp(a: string, closes: bool) {
    a != "" && ((EndsOpen(a) && closes) || TakesUp(a[ListStep(a)..], closes))
  }

  /** What becomes of list text and all that follows. */
  function ListBack(takesUp: bool, m: string, b: string): string {
    if takesUp && ClosesList(b) then CollapseLists(b[Span(InList, b) + 1..]) else m + CollapseLists(b)
  }

  /** List text in a query: either a value list takes it up, or it is copied. */
  lemma {:induction false} ListsHole(a: string, m: string, b: string)
    requires m != "" && AllInList(m)
    ensures CollapseLists(a + (m + b))
         == ListFront(a, ClosesList(b)) + ListBack(TakesUp(a, ClosesList(b)), m, b)
    decreases |a|
  {
    if a == "" {
      ListsCopyJoin(m, b);
      assert a + (m + b) == m + b;
    } else if EndsOpen(a) && ClosesList(b) {
      ListTaken(a, m, b);
    } else {
      ListOutside(a, m, b);
      ListsHole(a[ListStep(a)..], m, b);
      ListPassed(a, m + b, ListFront(a[ListStep(a)..], ClosesList(b)), ListBack(TakesUp(a, ClosesList(b)), m, b));
    }
  }

  lemma ListPassed(a: string, x: string, front: string, back: string)
    requires a != "" && ListAt(a + x) == ListAt(a) && CollapseLists(a[ListStep(a)..] + x) == front + back
    ensures CollapseLists(a + x) == ((if ListAt(a) > 0 then "(?)" else [a[0]]) + front) + back
  {
    DropJoin(a, x, ListStep(a));
    Associative(if ListAt(a) > 0 then "(?)" else [a[0]], front, back);
  }

  lemma ListTaken(a: string, m: string, b: string)
    requires EndsOpen(a) && ClosesList(b) && m != "" && AllInList(m)
    ensures CollapseLists(a + (m + b)) == "(?)" + CollapseLists(b[Span(InList, b) + 1..])
  {
    var s, n, k := a + (m + b), |a| + |m| + (Span(InList, b) + 1), Span(InList, b) + 1;
    ListTakenAt(a, m, b);
    SkipTo(a, m, b, k);
    ListStepTaken(s, n, b[k..]);
  }

  lemma ListStepTaken(s: string, n: nat, rest: string)
    requires 0 < n <= |s| && ListAt(s) == n && s[n..] == rest
    ensures CollapseLists(s) == "(?)" + CollapseLists(rest)
  {
  }

  lemma SkipTo(a: string, m: string, b: string, k: nat)
    requires k <= |b|
    ensures |a| + |m| + k <= |a + (m + b)| && (a + (m + b))[|a| + |m| + k..] == b[k..]
  {
    assert a + (m + b) == a + m + b;
  }

  lemma ListTakenAt(a: string, m: string, b: string)
    requires EndsOpen(a) && ClosesList(b) && m != "" && AllInList(m)
    ensures ListAt(a + (m + b)) == |a| + |m| + Span(InList, b) + 1
  {
    var s := a + (m + b);
    DropJoin(a, m + b, 1);
    SpanOver(a[1..], m, b);
    assert s[|a| + |m| + Span(InList, b)] == b[Span(InList, b)];
  }

  lemma SpanOver(t: string, m: string, b: string)
    requires Span(InList, t) == |t| && AllInList(m)
    ensures Span(InList, t + (m + b)) == |t| + |m| + Span(InList, b)
  {
    SpanIs(InList, t + (m + b), |t| + |m| + Span(InList, b));
  }

  /** Otherwise what a list at the head of `a` does is decided within `a`. */
  lemma ListOutside(a: string, m: string, b: string)
    requires a != "" && !(EndsOpen(a) && ClosesList(b)) && m != "" && AllInList(m)
    ensures ListAt(a + (m + b)) == ListAt(a)
  {
    if a[0] == '(' {
      var t := a[1..];
      DropJoin(a, m + b, 1);
      if Span(InList, t) == |t| {
        SpanOver(t, m, b);
      } else {
        SpanIs(InList, t + (m + b), Span(InList, t));
      }
    }
  }

  lemma {:induction false} NumbersCopyPlain(m: string, b: string)
    requires m != "" && forall i :: 0 <= i < |m| ==> !IsWord(m[i])
    ensures StripNumbers(m + b, false) == m + StripNumbers(b, false)
  {
    NumbersSplit(m, b, false);
    NumbersPlain(m);
  }

  lemma {:induction false} NumbersPlain(m: string)
    requires forall i :: 0 <= i < |m| ==> !IsWord(m[i])
    ensures StripNumbers(m, false) == m
  {
    if m != "" {
      NumbersPlain(m[1..]);
    }
  }

  /** Marks joined by a separator are as good as one, anywhere in a query. */
  lemma LinkedMarks(a: string, sep: string, b: string)
    requires IsSeparator(sep)
    ensures SanitizeQuery(a + ("?" + sep + "?") + b) == SanitizeQuery(a + "?" + b)
  {
    var m := "?" + sep + "?";
    SeparatorChars(sep);
    MarkTextIsPlain(sep);
    Associative(a, m, b);
    Associative(a, "?", b);
    var hidden, front := LiteralsHole(a, m, "?", b);
    if !hidden {
      LinkedMarksVisible(front, sep, StripLiterals(b));
    }
  }

  lemma MarkTextIsPlain(sep: string)
    requires forall i :: 0 <= i < |sep| ==> InList(sep[i]) && !IsWord(sep[i]) && NotQuote(sep[i])
    ensures var m := "?" + sep + "?"; QuoteFree(m) && AllInList(m) && forall i :: 0 <= i < |m| ==> !IsWord(m[i])
  {
  }

  lemma LinkedMarksVisible(front: string, sep: string, tail: string)
    requires IsSeparator(sep)
    ensures CollapseMarks(CollapseLists(StripNumbers(front + (("?" + sep + "?") + tail), false)))
         == CollapseMarks(CollapseLists(StripNumbers(front + ("?" + tail), false)))
  {
    var m := "?" + sep + "?";
    SeparatorChars(sep);
    MarkTextIsPlain(sep);
    PlainKept(front, m, tail);
    PlainKept(front, "?", tail);
    LinkedMarksListed(StripNumbers(front, false), sep, StripNumbers(tail, false));
  }

  lemma PlainKept(front: string, m: string, tail: string)
    requires m != "" && forall i :: 0 <= i < |m| ==> !IsWord(m[i])
    ensures StripNumbers(front + (m + tail), false) == StripNumbers(front, false) + (m + StripNumbers(tail, false))
  {
    NumbersBefore(front, m + tail, false);
    NumbersCopyPlain(m, tail);
  }

  lemma LinkedMarksListed(front: string, sep: string, rest: string)
    requires IsSeparator(sep)
    ensures CollapseMarks(CollapseLists(front + (("?" + sep + "?") + rest)))
         == CollapseMarks(CollapseLists(front + ("?" + rest)))
  {
    var m := "?" + sep + "?";
    SeparatorChars(sep);
    MarkTextIsPlain(sep);
    ListsHole(front, m, rest);
    ListsHole(front, "?", rest);
    LinkedMarksCollapsed(ListFront(front, ClosesList(rest)), sep, CollapseLists(rest));
  }

  lemma LinkedMarksCollapsed(front: string, sep: string, after: string)
    requires IsSeparator(sep)
    ensures CollapseMarks(front + (("?" + sep + "?") + after)) == CollapseMarks(front + ("?" + after))
  {
    assert ("?" + sep + "?") + after == "?" + (sep + ("?" + after));
    SeparatorChains(sep, after);
    var x, y := "?" + (sep + ("?" + after)), "?" + after;
    MarksAbsorb(front, x, y, |sep| + 1, front + x, front + y);
  }

  /** What the sanitizer replaces: a number, a literal, or a mark that stands for one already. */
  predicate IsValue(v: string) {
    v == "?" || (v != "" && AllDigits(v)) || IsLiteral(v)
  }

  predicate IsLiteral(v: string) {
    |v| >= 2 && v[0] == '\'' && v[|v| - 1] == '\'' && QuoteFree(v[1..|v| - 1])
  }

  function Listed(values: seq<string>, seps: seq<string>): string
    requires |values| == |seps| + 1
  {
    if |values| == 1 then values[0]
    else Listed(values[..|values| - 1], seps[..|seps| - 1]) + seps[|seps| - 1] + values[|values| - 1]
  }

  lemma ValueIsMark(a: string, v: string, b: string)
    requires IsValue(v) && Balanced(a) && EndsPlain(a) && BeginsPlain(b)
    ensures SanitizeQuery(a + v + b) == SanitizeQuery(a + "?" + b)
  {
    if IsLiteral(v) {
      var x := v[1..|v| - 1];
      assert v == "'" + x + "'";
      assert a + v + b == Quoted(a, x, b);
      LiteralIsMark(a, x, b);
    } else if v != "?" {
      NumberIsMark(a, v, b);
    }
  }

  lemma ValueQuotes(v: string)
    requires IsValue(v)
    ensures Balanced(v)
  {
    if IsLiteral(v) {
      var x := v[1..|v| - 1];
      assert v == "'" + x + "'" + "";
      QuotesAround(x, "");
    } else {
      FilterNone(IsQuote, v);
    }
  }

  ghost predicate IsList(values: seq<string>, seps: seq<string>) {
    && |values| == |seps| + 1
    && (forall i :: 0 <= i < |values| ==> IsValue(values[i]))
    && (forall i :: 0 <= i < |seps| ==> IsSeparator(seps[i]))
  }

  predicate Balanced(s: string) {
    Quotes(s) % 2 == 0
  }

  lemma BalancedJoin(a: string, b: string)
    requires Balanced(a) && Balanced(b)
    ensures Balanced(a + b)
  {
    QuotesConcat(a, b);
  }

  lemma {:induction false} ListQuotes(values: seq<string>, seps: seq<string>)
    requires IsList(values, seps)
    ensures Balanced(Listed(values, seps))
    decreases |values|
  {
    ValueQuotes(values[|values| - 1]);
    if |values| > 1 {
      var init, sep := Listed(values[..|values| - 1], seps[..|seps| - 1]), seps[|seps| - 1];
      ListQuotes(values[..|values| - 1], seps[..|seps| - 1]);
      SeparatorPlain(sep, "");
      BalancedJoin(init, sep);
      BalancedJoin(init + sep, values[|values| - 1]);
    }
  }

  lemma SeparatorPlain(sep: string, b: string)
    requires IsSeparator(sep)
    ensures sep != "" && BeginsPlain(sep + b) && EndsPlain(b + sep) && Quotes(sep) == 0
  {
    SeparatorChars(sep);
    FilterNone(IsQuote, sep);
  }

  /** A list of values of any kind, length and spacing is as good as one mark, in parentheses or not. */
  lemma {:induction false} ListIsMark(a: string, values: seq<string>, seps: seq<string>, b: string)
    requires IsList(values, seps) && Balanced(a) && EndsPlain(a) && BeginsPlain(b)
    ensures SanitizeQuery(a + Listed(values, seps) + b) == SanitizeQuery(a + "?" + b)
    decreases |values|
  {
    var v := values[|values| - 1];
    if |values| == 1 {
      ValueIsMark(a, v, b);
    } else {
      var sep := seps[|seps| - 1];
      var init := Listed(values[..|values| - 1], seps[..|seps| - 1]);
      ListQuotes(values[..|values| - 1], seps[..|seps| - 1]);
      SeparatorPlain(sep, "?" + b);
      ListIsMark(a, values[..|values| - 1], seps[..|seps| - 1], sep + ("?" + b));
      LastValueIsMark(a, init, sep, v, b);
    }
  }

  lemma LastValueIsMark(a: string, init: string, sep: string, v: string, b: string)
    requires Balanced(a) && Balanced(init) && IsSeparator(sep) && IsValue(v) && BeginsPlain(b)
    requires SanitizeQuery(a + init + (sep + ("?" + b))) == SanitizeQuery(a + "?" + (sep + ("?" + b)))
    ensures SanitizeQuery(a + (init + sep + v) + b) == SanitizeQuery(a + "?" + b)
  {
    var front := a + init + sep;
    BalancedFront(a, init, sep);
    ValueIsMark(front, v, b);
    LinkedMarks(a, sep, b);
    Regrouped(a, init, sep, v, b);
    Regrouped(a, init, sep, "?", b);
    Regrouped(a, "?", sep, "?", b);
  }

  lemma BalancedFront(a: string, init: string, sep: string)
    requires Balanced(a) && Balanced(init) && IsSeparator(sep)
    ensures Balanced(a + init + sep) && EndsPlain(a + init + sep)
  {
    SeparatorPlain(sep, a + init);
    BalancedJoin(a, init);
    BalancedJoin(a + init, sep);
  }

  lemma Regrouped(a: string, init: string, sep: string, v: string, b: string)
    ensures SanitizeQuery(a + (init + sep + v) + b) == SanitizeQuery(a + init + sep + v + b)
    ensures SanitizeQuery(a + init + (sep + (v + b))) == SanitizeQuery(a + init + sep + v + b)
  {
    RegroupedText(a, init, sep, v, b);
  }

  lemma RegroupedText(a: string, init: string, sep: string, v: string, b: string)
    ensures a + (init + sep + v) + b == a + init + sep + v + b
    ensures a + init + (sep + (v + b)) == a + init + sep + v + b
  {
  }
}
