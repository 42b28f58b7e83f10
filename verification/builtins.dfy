/** The JavaScript built-ins the quiz application relies on, on the inputs it
    gives them: `Math.round` of a non-negative ratio, `String.prototype.trim`,
    `split` on a one-character separator, `toLowerCase` + `startsWith`,
    `parseInt` without a radix, the decimal rendering of a non-negative
    integer, and `Array.prototype.slice(-n)`. */
module Builtins {
  import opened Types

  // ---------------------------------------------------------------------------
  // Math.round
  // ---------------------------------------------------------------------------

  /** `Math.round(a / b)` for a non-negative ratio. */
  function Round(a: nat, b: nat): (r: nat)
    requires b > 0
  {
    (2 * a + b) / (2 * b)
  }

  /** Round gives the integer nearest to a/b, halves rounded up: the unique r
      with r - 1/2 <= a/b < r + 1/2. */
  lemma RoundNearest(a: nat, b: nat)
    requires b > 0
    ensures var r := Round(a, b); 2 * b * r <= 2 * a + b < 2 * b * r + 2 * b
  {
    var q := (2 * a + b) / (2 * b);
    assert 2 * a + b == (2 * b) * q + (2 * a + b) % (2 * b);
  }

  function Min(a: nat, b: nat): (m: nat) { if a <= b then a else b }
  function Max(a: nat, b: nat): (m: nat) { if a <= b then b else a }

  lemma MulStrictCancel(b: nat, x: int, y: int)
    requires b > 0 && b * x < b * y
    ensures x < y
  {
  }

  lemma MulMono(a: nat, b: nat, w: nat)
    requires a <= b
    ensures a * w <= b * w
  {
    assert b * w - a * w == (b - a) * w;
  }

  /** A ratio that lies between lo and hi rounds to a value between lo and hi. */
  lemma RoundBetween(a: nat, b: nat, lo: nat, hi: nat)
    requires b > 0 && lo * b <= a <= hi * b
    ensures lo <= Round(a, b) <= hi
  {
    var r := Round(a, b);
    RoundNearest(a, b);
    assert 2 * b * r <= 2 * a + b <= 2 * b * hi + b;
    MulStrictCancel(2 * b, r, hi + 1);
    assert 2 * b * lo - b <= 2 * a - b < 2 * b * r;
    MulStrictCancel(2 * b, lo - 1, r);
  }

  /** Rounding an exact multiple gives the multiplier back. */
  lemma RoundExact(k: nat, b: nat)
    requires b > 0
    ensures Round(k * b, b) == k
  {
    RoundBetween(k * b, b, k, k);
  }

  /** `Math.round(part / whole * 100)`: a whole percentage, at most 100 when
      part <= whole. */
  function Percentage(part: nat, whole: nat): (p: nat)
    requires whole > 0
    ensures part <= whole ==> p <= 100
    ensures part == whole ==> p == 100
  {
    if part <= whole then
      MulMono(part, whole, 100);
      RoundBetween(100 * part, whole, 0, 100);
      if part == whole then RoundExact(100, whole); Round(100 * part, whole)
      else Round(100 * part, whole)
    else
      Round(100 * part, whole)
  }

  /** The percentage is the whole number nearest to 100·part/whole, halves up. */
  lemma PercentageNearest(part: nat, whole: nat)
    requires whole > 0
    ensures var p := Percentage(part, whole);
      2 * whole * p <= 200 * part + whole < 2 * whole * p + 2 * whole
  {
    RoundNearest(100 * part, whole);
  }

  // ---------------------------------------------------------------------------
  // String.prototype.trim
  // ---------------------------------------------------------------------------

  /** The characters `trim` removes: ECMAScript WhiteSpace and LineTerminator. */
  predicate IsWhitespace(c: char)
  {
    || c == '\t' || c == '\n' || c == '\U{0B}' || c == '\U{0C}' || c == '\r'
    || c == ' ' || c == '\U{A0}' || c == '\U{1680}'
    || ('\U{2000}' <= c <= '\U{200A}')
    || c == '\U{2028}' || c == '\U{2029}' || c == '\U{202F}' || c == '\U{205F}'
    || c == '\U{3000}' || c == '\U{FEFF}'
  }

  /** Drops leading whitespace. */
  function TrimStart(s: string): (r: string)
  {
    if |s| > 0 && IsWhitespace(s[0]) then TrimStart(s[1..]) else s
  }

  /** Drops trailing whitespace. */
  function TrimEnd(s: string): (r: string)
  {
    if |s| > 0 && IsWhitespace(s[|s| - 1]) then TrimEnd(s[..|s| - 1]) else s
  }

  /** `s.trim()`. */
  function Trim(s: string): (r: string)
  {
    TrimEnd(TrimStart(s))
  }

  /** TrimStart keeps a suffix, cuts off only whitespace, and what it keeps does
      not start with whitespace. */
  lemma {:induction false} TrimStartSpec(s: string)
    ensures var r := TrimStart(s);
      && |r| <= |s| && r == s[|s| - |r|..]
      && (forall k | 0 <= k < |s| - |r| :: IsWhitespace(s[k]))
      && (|r| > 0 ==> !IsWhitespace(r[0]))
  {
    if |s| > 0 && IsWhitespace(s[0]) {
      TrimStartSpec(s[1..]);
    }
  }

  /** TrimEnd keeps a prefix, cuts off only whitespace, and what it keeps does
      not end with whitespace. */
  lemma {:induction false} TrimEndSpec(s: string)
    ensures var r := TrimEnd(s);
      && |r| <= |s| && r == s[..|r|]
      && (forall k | |r| <= k < |s| :: IsWhitespace(s[k]))
      && (|r| > 0 ==> !IsWhitespace(r[|r| - 1]))
  {
    if |s| > 0 && IsWhitespace(s[|s| - 1]) {
      TrimEndSpec(s[..|s| - 1]);
    }
  }

  /** `trim` keeps a contiguous part of s that neither starts nor ends with
      whitespace, and removes only whitespace on either side. */
  lemma TrimSpec(s: string)
    ensures var r := Trim(s); var i := |s| - |TrimStart(s)|;
      && 0 <= i <= i + |r| <= |s|
      && s[i..i + |r|] == r
      && (|r| > 0 ==> !IsWhitespace(r[0]) && !IsWhitespace(r[|r| - 1]))
      && (forall k | 0 <= k < i :: IsWhitespace(s[k]))
      && (forall k | i + |r| <= k < |s| :: IsWhitespace(s[k]))
  {
    var t := TrimStart(s);
    var r := TrimEnd(t);
    var i := |s| - |t|;
    TrimStartSpec(s);
    TrimEndSpec(t);
    assert t == s[i..] && r == t[..|r|];
    assert s[i..i + |r|] == r;
    if |r| > 0 {
      assert r[0] == t[0];
    }
    forall k | i + |r| <= k < |s|
      ensures IsWhitespace(s[k])
    {
      assert s[k] == t[k - i];
    }
  }

  /** A string that neither starts nor ends with whitespace is its own trim. */
  lemma TrimIdentity(s: string)
    requires |s| > 0 ==> !IsWhitespace(s[0]) && !IsWhitespace(s[|s| - 1])
    ensures Trim(s) == s
  {
  }

  // ---------------------------------------------------------------------------
  // String.prototype.split with a one-character separator
  // ---------------------------------------------------------------------------

  function IndexOf(s: string, c: char): (i: nat)
    requires c in s
    ensures i < |s| && s[i] == c && c !in s[..i]
  {
    if s[0] == c then 0 else 1 + IndexOf(s[1..], c)
  }

  /** `s.split(sep)`: the maximal separator-free pieces, always at least one
      (the empty string splits into one empty piece). */
  function Split(s: string, sep: char): (parts: seq<string>)
    ensures |parts| >= 1
    ensures forall k | 0 <= k < |parts| :: sep !in parts[k]
    decreases |s|
  {
    if sep !in s then [s]
    else
      var i := IndexOf(s, sep);
      [s[..i]] + Split(s[i + 1..], sep)
  }

  /** `parts.join(sep)`. */
  function Join(parts: seq<string>, sep: char): (joined: string)
    requires |parts| >= 1
  {
    if |parts| == 1 then parts[0] else parts[0] + [sep] + Join(parts[1..], sep)
  }

  /** Splitting and joining with the same separator gives the text back. */
  lemma {:induction false} JoinSplit(s: string, sep: char)
    ensures Join(Split(s, sep), sep) == s
    decreases |s|
  {
    if sep in s {
      var i := IndexOf(s, sep);
      var rest := Split(s[i + 1..], sep);
      var parts := [s[..i]] + rest;
      assert Split(s, sep) == parts;
      assert parts[1..] == rest;
      assert Join(parts, sep) == s[..i] + [sep] + Join(rest, sep);
      JoinSplit(s[i + 1..], sep);
      assert s == s[..i] + [sep] + s[i + 1..];
    }
  }

  /** Joining separator-free pieces and splitting again gives the pieces back. */
  lemma {:induction false} SplitJoin(parts: seq<string>, sep: char)
    requires |parts| >= 1
    requires forall k | 0 <= k < |parts| :: sep !in parts[k]
    ensures Split(Join(parts, sep), sep) == parts
  {
    if |parts| > 1 {
      var s := Join(parts, sep);
      var p := parts[0];
      assert s == p + [sep] + Join(parts[1..], sep);
      assert s[|p|] == sep;
      assert s[..|p|] == p;
      IndexOfPrefix(s, p, sep);
      assert s[|p| + 1..] == Join(parts[1..], sep);
      SplitJoin(parts[1..], sep);
    }
  }

  lemma IndexOfPrefix(s: string, p: string, c: char)
    requires |p| < |s| && s[..|p|] == p && s[|p|] == c && c !in p
    ensures c in s && IndexOf(s, c) == |p|
  {
    var i := IndexOf(s, c);
    assert forall k | 0 <= k < i :: s[k] != c by {
      forall k | 0 <= k < i ensures s[k] != c {
        assert s[..i][k] == s[k];
      }
    }
    assert forall k | 0 <= k < |p| :: s[k] != c by {
      forall k | 0 <= k < |p| ensures s[k] != c {
        assert s[..|p|][k] == s[k];
      }
    }
  }

  // ---------------------------------------------------------------------------
  // toLowerCase / startsWith
  // ---------------------------------------------------------------------------

  /** Lower-cases ASCII letters; other characters are kept. */
  function LowerChar(c: char): char
  {
    if 'A' <= c <= 'Z' then (c as int - 'A' as int + 'a' as int) as char else c
  }

  function ToLowerCase(s: string): (r: string)
    ensures |r| == |s|
    ensures forall k | 0 <= k < |s| :: r[k] == LowerChar(s[k])
  {
    seq(|s|, k requires 0 <= k < |s| => LowerChar(s[k]))
  }

  predicate StartsWith(s: string, prefix: string)
  {
    |prefix| <= |s| && s[..|prefix|] == prefix
  }

  // ---------------------------------------------------------------------------
  // Decimal rendering and parseInt
  // ---------------------------------------------------------------------------

  predicate IsDecimalDigit(c: char)
  {
    '0' <= c <= '9'
  }

  /** The numeric value of a digit character in bases up to 36, or 36 when the
      character is not a digit in any base. */
  function DigitValue(c: char): (v: nat)
    ensures v <= 36
    ensures IsDecimalDigit(c) <==> v < 10
  {
    if '0' <= c <= '9' then c as int - '0' as int
    else if 'a' <= c <= 'z' then c as int - 'a' as int + 10
    else if 'A' <= c <= 'Z' then c as int - 'A' as int + 10
    else 36
  }

  /** The longest prefix of s made of digits of the given radix. */
  function DigitPrefix(s: string, radix: nat): (ds: string)
    ensures |ds| <= |s| && ds == s[..|ds|]
    ensures forall k | 0 <= k < |ds| :: DigitValue(ds[k]) < radix
    ensures |ds| < |s| ==> DigitValue(s[|ds|]) >= radix
  {
    if |s| > 0 && DigitValue(s[0]) < radix then [s[0]] + DigitPrefix(s[1..], radix) else []
  }

  /** The value of a digit string, most significant digit first. */
  function DigitsValue(ds: string, radix: nat): (v: nat)
  {
    if |ds| == 0 then 0
    else DigitsValue(ds[..|ds| - 1], radix) * radix + DigitValue(ds[|ds| - 1])
  }

  function DecimalDigit(d: nat): (c: char)
    requires d < 10
    ensures IsDecimalDigit(c) && DigitValue(c) == d
  {
    ('0' as int + d) as char
  }

  /** The decimal text `${n}` of a non-negative integer, without leading zeros. */
  function NatToString(n: nat): (s: string)
    ensures |s| >= 1
    ensures forall k | 0 <= k < |s| :: IsDecimalDigit(s[k])
    ensures s[0] == '0' ==> n == 0 && |s| == 1
  {
    if n < 10 then [DecimalDigit(n)] else NatToString(n / 10) + [DecimalDigit(n % 10)]
  }

  lemma {:induction false} NatToStringValue(n: nat)
    ensures DigitsValue(NatToString(n), 10) == n
  {
    if n >= 10 {
      var s := NatToString(n);
      assert s[..|s| - 1] == NatToString(n / 10);
      NatToStringValue(n / 10);
    }
  }

  /** `parseInt(s)` with no radix argument; None is NaN. Leading whitespace is
      skipped, one sign is accepted, a `0x`/`0X` prefix switches to base 16,
      and the longest run of digits that follows is read. */
  function ParseInt(s: string): (r: Option<int>)
  {
    var t := TrimStart(s);
    var ds := DigitPrefix(DigitText(t), Radix(t));
    if |ds| == 0 then None else Some(Sign(t) * DigitsValue(ds, Radix(t)))
  }

  function Sign(t: string): (sign: int)
  {
    if |t| > 0 && t[0] == '-' then -1 else 1
  }

  function Unsigned(t: string): (u: string)
  {
    if |t| > 0 && (t[0] == '-' || t[0] == '+') then t[1..] else t
  }

  predicate HasHexPrefix(u: string)
  {
    |u| >= 2 && u[0] == '0' && (u[1] == 'x' || u[1] == 'X')
  }

  function Radix(t: string): (radix: nat)
  {
    if HasHexPrefix(Unsigned(t)) then 16 else 10
  }

  function DigitText(t: string): (digits: string)
  {
    var u := Unsigned(t);
    if HasHexPrefix(u) then u[2..] else u
  }

  /** parseInt reads back the decimal text of every non-negative integer. */
  lemma ParseIntNatToString(n: nat)
    ensures ParseInt(NatToString(n)) == Some(n)
  {
    var s := NatToString(n);
    assert !IsWhitespace(s[0]) by {
      assert IsDecimalDigit(s[0]);
    }
    assert TrimStart(s) == s;
    assert Unsigned(s) == s;
    assert Sign(s) == 1;
    assert !HasHexPrefix(s);
    assert Radix(s) == 10 && DigitText(s) == s;
    AllDigitsPrefix(s);
    NatToStringValue(n);
  }

  lemma {:induction false} AllDigitsPrefix(s: string)
    requires forall k | 0 <= k < |s| :: IsDecimalDigit(s[k])
    ensures DigitPrefix(s, 10) == s
  {
    if |s| > 0 {
      AllDigitsPrefix(s[1..]);
    }
  }

  // ---------------------------------------------------------------------------
  // Array.prototype.slice(-n)
  // ---------------------------------------------------------------------------

  /** `s.slice(-n)` for n > 0: the last n elements, or all of s when shorter.
      (`slice(-0)` would be the whole of s.) */
  function LastN<T>(s: seq<T>, n: nat): (r: seq<T>)
    requires n > 0
    ensures |r| == if |s| < n then |s| else n
    ensures r == s[|s| - |r|..]
  {
    var start := if |s| - n < 0 then 0 else |s| - n;
    s[start..]
  }
}
