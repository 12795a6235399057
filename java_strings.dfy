/** The few operations on Java strings the library core relies on: printing and
    parsing decimal numbers (`Integer.toString`, `Integer.parseInt`), the last
    piece of `split("-")`, `trim`, `toLowerCase` and `contains`. */
module JavaStrings {
  import opened Common

  predicate IsDigit(c: char) {
    '0' <= c <= '9'
  }

  predicate AllDigits(s: string) {
    forall k :: 0 <= k < |s| ==> IsDigit(s[k])
  }

  function DigitChar(d: nat): (c: char)
    requires d < 10
    ensures IsDigit(c) && c as int - '0' as int == d
  {
    (d + '0' as int) as char
  }

  /** `Integer.toString(n)` for a non-negative `n`: its decimal digits, most significant first. */
  function NatToString(n: nat): (s: string)
    ensures |s| > 0 && AllDigits(s)
    decreases n
  {
    if n < 10 then [DigitChar(n)] else NatToString(n / 10) + [DigitChar(n % 10)]
  }

  /** The number a run of decimal digits denotes. */
  function DigitsValue(s: string): nat
    requires AllDigits(s)
  {
    if s == [] then 0 else DigitsValue(s[..|s| - 1]) * 10 + (s[|s| - 1] as int - '0' as int)
  }

  /** `Integer.parseInt(s)` on the strings a copy-id suffix can be: a non-empty run of
      decimal digits parses, anything else throws (here: None). */
  function ParseNat(s: string): Option<nat> {
    if |s| > 0 && AllDigits(s) then Some(DigitsValue(s)) else None
  }

  /** Parsing what `NatToString` prints gives the number back. */
  lemma {:induction false} ParseNatToString(n: nat)
    ensures ParseNat(NatToString(n)) == Some(n)
    decreases n
  {
    var s := NatToString(n);
    if n >= 10 {
      ParseNatToString(n / 10);
      assert s[..|s| - 1] == NatToString(n / 10);
      assert DigitsValue(s) == (n / 10) * 10 + n % 10;
    }
  }

  /** The last element of `s.split("-")`: the text after the last '-', or all of `s`
      when it holds no '-'. */
  function LastSegment(s: string): (t: string)
    ensures '-' !in t
    ensures |t| <= |s| && s[|s| - |t|..] == t
    ensures |t| < |s| ==> s[|s| - |t| - 1] == '-'
  {
    if s == [] then []
    else if s[|s| - 1] == '-' then []
    else LastSegment(s[..|s| - 1]) + [s[|s| - 1]]
  }

  /** Whatever precedes it, the last segment of `p + "-" + t` is `t` when `t` holds no '-'. */
  lemma {:induction false} LastSegmentAfterDash(p: string, t: string)
    requires '-' !in t
    ensures LastSegment(p + "-" + t) == t
    decreases |t|
  {
    var s := p + "-" + t;
    if t != [] {
      assert s[..|s| - 1] == p + "-" + t[..|t| - 1];
      LastSegmentAfterDash(p, t[..|t| - 1]);
    }
  }

  lemma DigitsHoldNoDash(s: string)
    requires AllDigits(s)
    ensures '-' !in s
  {
  }

  /** Characters `String.trim` strips: every code point up to the space. */
  predicate IsBlank(c: char) {
    c <= ' '
  }

  function TrimStart(s: string): string {
    if s != [] && IsBlank(s[0]) then TrimStart(s[1..]) else s
  }

  function TrimEnd(s: string): string {
    if s != [] && IsBlank(s[|s| - 1]) then TrimEnd(s[..|s| - 1]) else s
  }

  /** `String.trim`. */
  function Trim(s: string): string {
    TrimEnd(TrimStart(s))
  }

  lemma {:induction false} TrimStartSpec(s: string)
    ensures var t := TrimStart(s);
      |t| <= |s| && s[|s| - |t|..] == t && (t != [] ==> !IsBlank(t[0])) &&
      forall k :: 0 <= k < |s| - |t| ==> IsBlank(s[k])
    decreases |s|
  {
    if s != [] && IsBlank(s[0]) {
      TrimStartSpec(s[1..]);
    }
  }

  lemma {:induction false} TrimEndSpec(s: string)
    ensures var t := TrimEnd(s);
      |t| <= |s| && s[..|t|] == t && (t != [] ==> !IsBlank(t[|t| - 1])) &&
      forall k :: |t| <= k < |s| ==> IsBlank(s[k])
    decreases |s|
  {
    if s != [] && IsBlank(s[|s| - 1]) {
      TrimEndSpec(s[..|s| - 1]);
    }
  }

  /** `t` is the stretch of `s` that starts at `a`, and only blanks lie around it. */
  predicate BlankAround(s: string, t: string, a: int) {
    0 <= a <= |s| - |t| && s[a..a + |t|] == t &&
    (forall k :: 0 <= k < a ==> IsBlank(s[k])) &&
    (forall k :: a + |t| <= k < |s| ==> IsBlank(s[k]))
  }

  /** `trim` keeps the one contiguous stretch of `s` that starts and ends with a
      non-blank character, and drops only blanks around it. */
  lemma TrimSpec(s: string)
    ensures var t := Trim(s);
      (t != [] ==> !IsBlank(t[0]) && !IsBlank(t[|t| - 1])) &&
      exists a :: BlankAround(s, t, a)
  {
    var u := TrimStart(s);
    TrimStartSpec(s);
    TrimEndSpec(u);
    var t := TrimEnd(u);
    var a := |s| - |u|;
    assert s[a..a + |t|] == u[..|t|];
    forall k | a + |t| <= k < |s| ensures IsBlank(s[k]) {
      assert s[k] == u[k - a];
    }
    assert BlankAround(s, t, a);
  }

  /** A query trims to nothing exactly when all of it is blank. */
  lemma TrimEmptyIffBlank(s: string)
    ensures Trim(s) == [] <==> forall k :: 0 <= k < |s| ==> IsBlank(s[k])
  {
    TrimSpec(s);
    TrimStartSpec(s);
  }

  /** `Character.toLowerCase` on ASCII letters; every other character is kept. */
  function ToLowerChar(c: char): char {
    if 'A' <= c <= 'Z' then (c as int + 32) as char else c
  }

  /** `String.toLowerCase`, restricted to ASCII case folding. */
  function ToLower(s: string): string {
    seq(|s|, k requires 0 <= k < |s| => ToLowerChar(s[k]))
  }

  predicate StartsWith(s: string, p: string) {
    |p| <= |s| && s[..|p|] == p
  }

  /** `s.contains(p)`: some position of `s` starts a copy of `p`. */
  predicate Contains(s: string, p: string)
    decreases |s|
  {
    StartsWith(s, p) || (s != [] && Contains(s[1..], p))
  }

  /** A copy of `p` starts at position `i` of `s`. */
  predicate OccursAt(s: string, p: string, i: int) {
    0 <= i <= |s| - |p| && s[i..i + |p|] == p
  }

  /** The recursive search agrees with the textbook definition of a substring. */
  lemma {:induction false} ContainsIffSubstring(s: string, p: string)
    ensures Contains(s, p) <==> exists i :: OccursAt(s, p, i)
    decreases |s|
  {
    if StartsWith(s, p) {
      assert OccursAt(s, p, 0);
    } else if s != [] {
      ContainsIffSubstring(s[1..], p);
      if Contains(s[1..], p) {
        var i :| OccursAt(s[1..], p, i);
        assert s[i + 1..i + 1 + |p|] == s[1..][i..i + |p|];
        assert OccursAt(s, p, i + 1);
      }
      if i :| OccursAt(s, p, i) && i > 0 {
        assert s[1..][i - 1..i - 1 + |p|] == s[i..i + |p|];
        assert OccursAt(s[1..], p, i - 1);
      }
    }
  }
}
