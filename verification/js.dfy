/** The few pieces of JavaScript's built-in semantics the application relies
    on: truthiness of optional strings, `String.prototype.trim` and the regular
    expression class `\s`, `String.prototype.charCodeAt` (UTF-16 code units),
    ASCII `toLowerCase`, and the `ToInt32` conversion applied by `<<`. */
module Js {
  import opened Wrappers

  const TwoTo31: int := 0x8000_0000
  const TwoTo32: int := 0x1_0000_0000

  // ---------------------------------------------------------------------------
  // Truthiness

  /** `!!v` for a value that is a string, `undefined` or `null`. */
  predicate Truthy(v: Option<string>) {
    v.Some? && v.value != ""
  }

  // ---------------------------------------------------------------------------
  // Whitespace, as `String.prototype.trim` and the regular expression `\s`
  // both define it: the WhiteSpace and LineTerminator productions.

  predicate IsWhitespace(c: char) {
    var v := c as int;
    || 0x09 <= v <= 0x0D                    // tab, line feed, vertical tab, form feed, carriage return
    || v == 0x20 || v == 0xA0 || v == 0x1680
    || 0x2000 <= v <= 0x200A
    || v == 0x2028 || v == 0x2029           // line and paragraph separators
    || v == 0x202F || v == 0x205F || v == 0x3000
    || v == 0xFEFF                          // byte order mark
  }

  predicate AllWhitespace(s: string) {
    forall i :: 0 <= i < |s| ==> IsWhitespace(s[i])
  }

  predicate NoWhitespace(s: string) {
    forall i :: 0 <= i < |s| ==> !IsWhitespace(s[i])
  }

  /** Drops leading whitespace. */
  function TrimStart(s: string): (r: string)
    ensures |r| <= |s| && r == s[|s| - |r|..]
    ensures AllWhitespace(s[..|s| - |r|])
    ensures r == [] || !IsWhitespace(r[0])
  {
    if |s| > 0 && IsWhitespace(s[0]) then TrimStart(s[1..]) else s
  }

  /** Drops trailing whitespace. */
  function TrimEnd(s: string): (r: string)
    ensures |r| <= |s| && r == s[..|r|]
    ensures AllWhitespace(s[|r|..])
    ensures r == [] || !IsWhitespace(r[|r| - 1])
  {
    if |s| > 0 && IsWhitespace(s[|s| - 1]) then
      var r := TrimEnd(s[..|s| - 1]);
      assert s[|r|..] == s[..|s| - 1][|r|..] + [s[|s| - 1]];
      r
    else s
  }

  /** Cutting whitespace off the front of `s` (leaving `a`) and then off the
      end of `a` (leaving `b`) leaves the slice `s[i..j]`, with whitespace on
      either side of it. */
  lemma TwoCuts(s: string, a: string, b: string, i: nat, j: nat)
    requires i == |s| - |a| && j == i + |b| && |a| <= |s| && |b| <= |a|
    requires a == s[i..] && AllWhitespace(s[..i])
    requires b == a[..|b|] && AllWhitespace(a[|b|..])
    ensures b == s[i..j] && AllWhitespace(s[..i]) && AllWhitespace(s[j..])
  {
    forall k | 0 <= k < |b| ensures b[k] == s[i..j][k] {
      assert b[k] == a[k];
    }
    var tail := a[|b|..];
    forall k | 0 <= k < |s| - j ensures IsWhitespace(s[j..][k]) {
      assert s[j..][k] == tail[k];
    }
  }

  /** `s.trim()`: the longest slice of `s` that neither starts nor ends with
      whitespace, everything cut off on either side being whitespace. */
  function Trim(s: string): (r: string)
    ensures exists i, j :: 0 <= i <= j <= |s| && r == s[i..j]
                           && AllWhitespace(s[..i]) && AllWhitespace(s[j..])
    ensures r == [] || (!IsWhitespace(r[0]) && !IsWhitespace(r[|r| - 1]))
  {
    var a := TrimStart(s);
    var b := TrimEnd(a);
    TwoCuts(s, a, b, |s| - |a|, |s| - |a| + |b|);
    b
  }

  /** Two whitespace runs around an empty middle make all of `s` whitespace. */
  lemma WhitespaceAround(s: string, i: nat)
    requires i <= |s| && AllWhitespace(s[..i]) && AllWhitespace(s[i..])
    ensures AllWhitespace(s)
  {
    var front, back := s[..i], s[i..];
    forall k | 0 <= k < |s| ensures IsWhitespace(s[k]) {
      if k < i { assert front[k] == s[k]; } else { assert back[k - i] == s[k]; }
    }
  }

  /** `s.trim() === ''` exactly when every character of `s` is whitespace. */
  lemma TrimEmptyIffAllWhitespace(s: string)
    ensures Trim(s) == [] <==> AllWhitespace(s)
  {
    var a := TrimStart(s);
    var b := TrimEnd(a);
    var i := |s| - |a|;
    TwoCuts(s, a, b, i, i + |b|);
    if b == [] {
      WhitespaceAround(s, i);
    } else {
      assert s[i] == b[0];
    }
  }

  /** Trimming twice is trimming once. */
  lemma TrimIdempotent(s: string)
    ensures Trim(Trim(s)) == Trim(s)
  {
    var r := Trim(s);
    assert TrimStart(r) == r;
    assert TrimEnd(r) == r;
  }

  // ---------------------------------------------------------------------------
  // ASCII case mapping, as `toLowerCase` behaves on key names such as
  // "ArrowUp" or "W".

  function LowerChar(c: char): (r: char)
    ensures 'A' <= c <= 'Z' ==> r as int == c as int + 32
    ensures !('A' <= c <= 'Z') ==> r == c
  {
    if 'A' <= c <= 'Z' then (c as int + 32) as char else c
  }

  function ToLowerCase(s: string): (r: string)
    ensures |r| == |s|
    ensures forall i :: 0 <= i < |s| ==> r[i] == LowerChar(s[i])
  {
    if s == [] then [] else [LowerChar(s[0])] + ToLowerCase(s[1..])
  }

  // ---------------------------------------------------------------------------
  // UTF-16 code units, the unit `length` and `charCodeAt` count in.

  function CodeUnitsOf(c: char): (r: seq<int>)
    ensures |r| == (if c as int < 0x1_0000 then 1 else 2)
    ensures forall k :: 0 <= k < |r| ==> 0 <= r[k] < 0x1_0000
    ensures c as int < 0x1_0000 ==> r == [c as int]
  {
    var v := c as int;
    if v < 0x1_0000 then [v]
    else [0xD800 + (v - 0x1_0000) / 0x400, 0xDC00 + (v - 0x1_0000) % 0x400]
  }

  /** The code units of `s`, in order; a character outside the Basic
      Multilingual Plane contributes its surrogate pair. */
  function CodeUnits(s: string): (r: seq<int>)
    ensures |s| <= |r| <= 2 * |s|
    ensures forall k :: 0 <= k < |r| ==> 0 <= r[k] < 0x1_0000
  {
    if s == [] then [] else CodeUnitsOf(s[0]) + CodeUnits(s[1..])
  }

  // ---------------------------------------------------------------------------
  // ToInt32 (section 7.1.6 of ECMA-262): wrap an integral number into the
  // signed 32-bit range.

  function ToInt32(x: int): (r: int)
    ensures -TwoTo31 <= r < TwoTo31
    ensures (x - r) % TwoTo32 == 0
  {
    var m := x % TwoTo32;
    if m >= TwoTo31 then m - TwoTo32 else m
  }

  /** ToInt32 is the identity on the signed 32-bit range, and the unique value
      in that range congruent to its argument. */
  lemma ToInt32Unique(x: int, y: int)
    requires -TwoTo31 <= y < TwoTo31
    requires (x - y) % TwoTo32 == 0
    ensures ToInt32(x) == y
  {
    var r := ToInt32(x);
    assert (r - y) % TwoTo32 == 0 by {
      assert (x - y) - (x - r) == r - y;
    }
    assert -TwoTo32 < r - y < TwoTo32;
  }

  lemma CongruentScaled(t: int, h: int)
    requires (t - h) % TwoTo32 == 0
    ensures (32 * t - 32 * h) % TwoTo32 == 0
  {
    var k := (t - h) / TwoTo32;
    assert t - h == k * TwoTo32;
    assert 32 * t - 32 * h == (32 * k) * TwoTo32;
  }

  lemma CongruentTrans(a: int, b: int, c: int)
    requires (a - b) % TwoTo32 == 0 && (b - c) % TwoTo32 == 0
    ensures (a - c) % TwoTo32 == 0
  {
    var k, l := (a - b) / TwoTo32, (b - c) / TwoTo32;
    assert a - b == k * TwoTo32 && b - c == l * TwoTo32;
    assert a - c == (k + l) * TwoTo32;
  }

  /** `h << 5` for an integral number `h`. */
  function ShiftLeft5(h: int): (r: int)
    ensures -TwoTo31 <= r < TwoTo31
    ensures (r - 32 * h) % TwoTo32 == 0
  {
    var t := ToInt32(h);
    var r := ToInt32(t * 32);
    CongruentScaled(t, h);
    CongruentTrans(r, 32 * t, 32 * h);
    r
  }
}
