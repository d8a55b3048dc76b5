/** The address check of the invitation route: the pattern
    `^[^\s@]+@[^\s@]+\.[^\s@]+$`, and the plain description of what it
    accepts. `\s` is JavaScript's whitespace class, the same set `trim`
    removes. */
module Email {
  import opened Js

  /** `[^\s@]`. */
  predicate Plain(c: char) {
    !IsWhitespace(c) && c != '@'
  }

  predicate AllPlain(s: string) {
    forall k :: 0 <= k < |s| ==> Plain(s[k])
  }

  /** A match of the pattern: split points `at` (the `@`) and `dot` (the
      escaped `.`) with a nonempty run of plain characters before, between
      and after them. The runs before and after `dot` may hold further dots. */
  predicate MatchAt(s: string, at: int, dot: int) {
    && 0 < at && at + 1 < dot && dot + 1 < |s|
    && s[at] == '@' && s[dot] == '.'
    && AllPlain(s[..at]) && AllPlain(s[at + 1..dot]) && AllPlain(s[dot + 1..])
  }

  /** `emailRegex.test(email)`, scanning every pair of split points. */
  predicate MatchesPattern(s: string) {
    exists at, dot :: 0 <= at < dot < |s| && MatchAt(s, at, dot)
  }

  function CountOf(s: string, c: char): nat {
    if s == [] then 0 else (if s[0] == c then 1 else 0) + CountOf(s[1..], c)
  }

  lemma {:induction false} CountOfAppend(a: string, b: string, c: char)
    ensures CountOf(a + b, c) == CountOf(a, c) + CountOf(b, c)
  {
    if a != [] {
      CountOfAppend(a[1..], b, c);
      assert (a + b)[1..] == a[1..] + b;
    } else {
      assert a + b == b;
    }
  }

  lemma {:induction false} CountOfZero(s: string, c: char)
    ensures CountOf(s, c) == 0 <==> c !in s
  {
    if s != [] {
      CountOfZero(s[1..], c);
      assert s == [s[0]] + s[1..];
    }
  }

  /** The position of the first `c`, or `|s|` when there is none. */
  function IndexOf(s: string, c: char): (r: nat)
    ensures r <= |s|
    ensures r < |s| ==> s[r] == c
    ensures c !in s[..r]
  {
    if s == [] then 0
    else if s[0] == c then 0
    else
      var i := IndexOf(s[1..], c);
      assert s[..i + 1] == [s[0]] + s[1..][..i];
      i + 1
  }

  /** What the pattern accepts, in words: no whitespace, exactly one `@`,
      something before it, and a `.` after it that is neither the first nor
      the last character of the domain. */
  predicate WellFormed(s: string) {
    && NoWhitespace(s)
    && CountOf(s, '@') == 1
    && var at := IndexOf(s, '@');
       && 0 < at < |s|
       && var domain := s[at + 1..];
          |domain| >= 2 && '.' in domain[1..|domain| - 1]
  }

  /** The pattern accepts exactly the well-formed addresses. */
  lemma PatternIffWellFormed(s: string)
    ensures MatchesPattern(s) <==> WellFormed(s)
  {
    if MatchesPattern(s) {
      var at, dot :| 0 <= at < dot < |s| && MatchAt(s, at, dot);
      MatchImpliesWellFormed(s, at, dot);
    }
    if WellFormed(s) {
      WellFormedHasMatch(s);
    }
  }

  lemma AllPlainSplit(s: string, at: int, dot: int)
    requires 0 < at && at + 1 < dot && dot + 1 < |s| && s[at] == '@' && s[dot] == '.'
    requires AllPlain(s[..at]) && AllPlain(s[at + 1..dot]) && AllPlain(s[dot + 1..])
    ensures s == s[..at] + [s[at]] + s[at + 1..dot] + [s[dot]] + s[dot + 1..]
    ensures '@' !in s[..at] && '@' !in s[at + 1..]
    ensures NoWhitespace(s)
  {
    assert s == s[..at] + [s[at]] + s[at + 1..dot] + [s[dot]] + s[dot + 1..];
    assert s[at + 1..] == s[at + 1..dot] + [s[dot]] + s[dot + 1..];
    forall k | 0 <= k < |s| ensures !IsWhitespace(s[k]) {
      if k < at {
        assert s[k] == s[..at][k];
      } else if at < k < dot {
        assert s[k] == s[at + 1..dot][k - at - 1];
      } else if dot < k {
        assert s[k] == s[dot + 1..][k - dot - 1];
      }
    }
  }

  lemma MatchImpliesWellFormed(s: string, at: int, dot: int)
    requires 0 <= at < dot < |s| && MatchAt(s, at, dot)
    ensures WellFormed(s)
  {
    AllPlainSplit(s, at, dot);
    CountOfZero(s[..at], '@');
    CountOfZero(s[at + 1..], '@');
    CountOfAppend(s[..at], s[at..], '@');
    assert s == s[..at] + s[at..];
    assert s[at..] == [s[at]] + s[at + 1..];
    CountOfAppend([s[at]], s[at + 1..], '@');
    var i := IndexOf(s, '@');
    assert i == at;
    var domain := s[at + 1..];
    assert domain[dot - at - 1] == '.';
    assert domain[1..|domain| - 1][dot - at - 2] == '.';
  }

  lemma WellFormedHasMatch(s: string)
    requires WellFormed(s)
    ensures MatchesPattern(s)
  {
    var at := IndexOf(s, '@');
    var domain := s[at + 1..];
    var inner := domain[1..|domain| - 1];
    var p :| 0 <= p < |inner| && inner[p] == '.';
    var dot := at + 2 + p;
    assert s[dot] == '.';
    assert s == s[..at] + [s[at]] + s[at + 1..];
    CountOfAppend(s[..at] + [s[at]], s[at + 1..], '@');
    CountOfAppend(s[..at], [s[at]], '@');
    CountOfZero(s[..at], '@');
    CountOfZero(s[at + 1..], '@');
    assert AllPlain(s[..at]) by {
      forall k | 0 <= k < at ensures Plain(s[..at][k]) {
        assert s[..at][k] == s[k];
      }
    }
    var mid, tail := s[at + 1..dot], s[dot + 1..];
    assert AllPlain(mid) by {
      forall k | 0 <= k < |mid| ensures Plain(mid[k]) {
        assert mid[k] == s[at + 1..][k];
      }
    }
    assert AllPlain(tail) by {
      forall k | 0 <= k < |tail| ensures Plain(tail[k]) {
        assert tail[k] == s[at + 1..][dot - at + k];
      }
    }
    assert MatchAt(s, at, dot);
  }
}
