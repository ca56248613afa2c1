/** Small shared vocabulary: optional values, calls that may throw, and string search. */
module Basics {

  datatype Option<+T> = None | Some(value: T)

  /** A call that either returns or throws; the thrown value is kept where it matters. */
  datatype Outcome<+T, +E> = Ok(value: T) | Throws(error: E)

  /** JavaScript's `text.includes(part)` on strings. */
  predicate Includes(text: string, part: string) {
    exists i :: 0 <= i <= |text| - |part| && text[i..][..|part|] == part
  }

  /** A text includes a part exactly when it is that part with something before and after it. */
  lemma IncludesExactly(text: string, part: string)
    ensures Includes(text, part) <==> exists before, after :: text == before + part + after
  {
    if Includes(text, part) {
      var i :| 0 <= i <= |text| - |part| && text[i..][..|part|] == part;
      assert text == text[..i] + part + text[i..][|part|..];
    }
    if before, after :| text == before + part + after {
      assert text[|before|..][..|part|] == part;
    }
  }

  /** JavaScript's `Array.prototype.filter` with a pure predicate. */
  function Filter<T>(keep: T -> bool, items: seq<T>): (kept: seq<T>)
    ensures forall x :: x in kept ==> x in items && keep(x)
    ensures forall x :: x in items && keep(x) ==> x in kept
  {
    if items == [] then []
    else (if keep(items[0]) then [items[0]] else []) + Filter(keep, items[1..])
  }

  lemma {:induction false} FilterConcat<T>(keep: T -> bool, a: seq<T>, b: seq<T>)
    ensures Filter(keep, a + b) == Filter(keep, a) + Filter(keep, b)
  {
    if a == [] {
      assert a + b == b;
    } else {
      assert (a + b)[1..] == a[1..] + b;
      FilterConcat(keep, a[1..], b);
    }
  }

  lemma {:induction false} FilterAll<T>(keep: T -> bool, a: seq<T>)
    requires forall x :: x in a ==> keep(x)
    ensures Filter(keep, a) == a
  {
    if a != [] {
      FilterAll(keep, a[1..]);
    }
  }

  lemma {:induction false} FilterNone<T>(keep: T -> bool, a: seq<T>)
    requires forall x :: x in a ==> !keep(x)
    ensures Filter(keep, a) == []
  {
    if a != [] {
      FilterNone(keep, a[1..]);
    }
  }

  /** Filtering for less afterwards is filtering for less at once. */
  lemma {:induction false} FilterWithin<T>(keep: T -> bool, wider: T -> bool, a: seq<T>)
    requires forall x :: x in a && keep(x) ==> wider(x)
    ensures Filter(keep, Filter(wider, a)) == Filter(keep, a)
  {
    if a != [] {
      FilterWithin(keep, wider, a[1..]);
      assert a[0] in a && keep(a[0]) ==> wider(a[0]);
      var head := if wider(a[0]) then [a[0]] else [];
      FilterConcat(keep, head, Filter(wider, a[1..]));
      assert Filter(keep, [a[0]]) == if keep(a[0]) then [a[0]] else [] by {
        assert [a[0]][1..] == [];
      }
    }
  }

  /** Tests that agree on the elements select the same ones. */
  lemma {:induction false} FilterSame<T>(p: T -> bool, q: T -> bool, a: seq<T>)
    requires forall x :: x in a ==> p(x) == q(x)
    ensures Filter(p, a) == Filter(q, a)
  {
    if a != [] {
      assert a[0] in a;
      FilterSame(p, q, a[1..]);
    }
  }

  /** How a write to a store ends: done, not done, or done without the caller learning it. */
  datatype Reply = Executed | NotExecuted | ReplyLost

  /** White space of ECMAScript: `\s` and what `trim` removes. */
  predicate IsSpace(c: char) {
    || '\U{0009}' <= c <= '\U{000D}'
    || c in {' ', '\U{00A0}', '\U{1680}', '\U{2028}', '\U{2029}', '\U{202F}', '\U{205F}', '\U{3000}', '\U{FEFF}'}
    || '\U{2000}' <= c <= '\U{200A}'
  }

  lemma PositiveFactor(size: int, k: int)
    requires size > 0 && size * k > 0
    ensures k > 0
  {
  }
}
