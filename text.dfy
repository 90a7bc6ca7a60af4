/** The JavaScript string built-ins the scheduling code relies on:
    `String.prototype.trim`, `parseInt`, `String(n)` for a natural number,
    the `'0' + s` padding loop and the `<` / `>` comparison of strings. */
module Text {
  import opened Common

  // ---------------------------------------------------------------------
  // Whitespace and trim
  // ---------------------------------------------------------------------

  /** The WhiteSpace and LineTerminator code points of ECMAScript, which
      `trim` removes and `parseInt` skips. */
  const JsWhitespace: set<char> := {
    '\U{0009}', '\U{000A}', '\U{000B}', '\U{000C}', '\U{000D}', '\U{0020}', '\U{00A0}', '\U{1680}',
    '\U{2000}', '\U{2001}', '\U{2002}', '\U{2003}', '\U{2004}', '\U{2005}', '\U{2006}', '\U{2007}',
    '\U{2008}', '\U{2009}', '\U{200A}', '\U{2028}', '\U{2029}', '\U{202F}', '\U{205F}', '\U{3000}',
    '\U{FEFF}'
  }

  predicate IsJsWhitespace(c: char) {
    c in JsWhitespace
  }

  /** `s` with its leading whitespace removed. */
  function TrimStart(s: string): (r: string)
    ensures |r| <= |s| && r == s[|s| - |r|..]
    ensures forall i | 0 <= i < |s| - |r| :: IsJsWhitespace(s[i])
    ensures r == [] || !IsJsWhitespace(r[0])
  {
    if |s| == 0 || !IsJsWhitespace(s[0]) then s else TrimStart(s[1..])
  }

  /** `s` with its trailing whitespace removed. */
  function TrimEnd(s: string): (r: string)
    ensures |r| <= |s| && r == s[..|r|]
    ensures forall i | |r| <= i < |s| :: IsJsWhitespace(s[i])
    ensures r == [] || !IsJsWhitespace(r[|r| - 1])
  {
    if |s| == 0 || !IsJsWhitespace(s[|s| - 1]) then s else TrimEnd(s[..|s| - 1])
  }

  /** `String.prototype.trim`: `s` without the whitespace at both ends. */
  function Trim(s: string): (r: string)
    ensures |r| <= |s|
    ensures r == [] || (!IsJsWhitespace(r[0]) && !IsJsWhitespace(r[|r| - 1]))
  {
    TrimEnd(TrimStart(s))
  }

  /** Trim removes only whitespace: its result is the infix of `s` that
      starts at `lead`, and everything outside that infix is whitespace. */
  lemma {:induction false} TrimInfix(s: string) returns (lead: nat)
    ensures lead + |Trim(s)| <= |s| && s[lead..lead + |Trim(s)|] == Trim(s)
    ensures forall i | 0 <= i < lead :: IsJsWhitespace(s[i])
    ensures forall i | lead + |Trim(s)| <= i < |s| :: IsJsWhitespace(s[i])
  {
    var t := TrimStart(s);
    lead := |s| - |t|;
    TrimEndWithin(s, lead);
  }

  /** Trimming the end of the suffix of `s` from `lead` keeps an infix of
      `s` and drops only whitespace. */
  lemma TrimEndWithin(s: string, lead: nat)
    requires lead <= |s|
    ensures lead + |TrimEnd(s[lead..])| <= |s| && s[lead..lead + |TrimEnd(s[lead..])|] == TrimEnd(s[lead..])
    ensures forall i | lead + |TrimEnd(s[lead..])| <= i < |s| :: IsJsWhitespace(s[i])
  {
    var t := s[lead..];
    var r := TrimEnd(t);
    assert s[lead..lead + |r|] == t[..|r|];
    forall i | lead + |r| <= i < |s| ensures IsJsWhitespace(s[i]) {
      assert s[i] == t[i - lead];
    }
  }

  /** A string with no whitespace at either end is its own trim. */
  lemma {:induction false} TrimOfTrimmed(s: string)
    requires s == [] || (!IsJsWhitespace(s[0]) && !IsJsWhitespace(s[|s| - 1]))
    ensures Trim(s) == s
  {
    assert TrimStart(s) == s;
    assert TrimEnd(s) == s;
  }

  /** Trimming twice is trimming once. */
  lemma TrimIdempotent(s: string)
    ensures Trim(Trim(s)) == Trim(s)
  {
    TrimOfTrimmed(Trim(s));
  }

  // ---------------------------------------------------------------------
  // Digits and numbers
  // ---------------------------------------------------------------------

  predicate IsDecimalDigit(c: char) { '0' <= c <= '9' }

  predicate IsHexDigit(c: char) {
    IsDecimalDigit(c) || 'a' <= c <= 'f' || 'A' <= c <= 'F'
  }

  /** A digit of the given radix (10 or 16). */
  predicate IsDigitOf(c: char, radix: nat) {
    if radix == 16 then IsHexDigit(c) else IsDecimalDigit(c)
  }

  function DigitValue(c: char): (d: nat)
    requires IsHexDigit(c)
    ensures d < 16
    ensures IsDecimalDigit(c) ==> d < 10
  {
    if IsDecimalDigit(c) then c as int - '0' as int
    else if 'a' <= c <= 'f' then c as int - 'a' as int + 10
    else c as int - 'A' as int + 10
  }

  function DigitChar(d: nat): (c: char)
    requires d < 10
    ensures IsDecimalDigit(c) && DigitValue(c) == d
  {
    (d + '0' as int) as char
  }

  predicate AllDigitsOf(s: string, radix: nat) {
    forall i | 0 <= i < |s| :: IsDigitOf(s[i], radix)
  }

  /** The number written by the digits `s` in the given radix. */
  function DigitsValue(s: string, radix: nat): nat
    requires radix == 10 || radix == 16
    requires AllDigitsOf(s, radix)
  {
    if |s| == 0 then 0
    else DigitsValue(s[..|s| - 1], radix) * radix + DigitValue(s[|s| - 1])
  }

  /** `String(n)` for a natural number: its decimal digits, with no
      leading zero except for 0 itself. */
  function NatToString(n: nat): (r: string)
    ensures |r| >= 1 && AllDigitsOf(r, 10)
    ensures |r| > 1 ==> r[0] != '0'
  {
    if n < 10 then [DigitChar(n)] else NatToString(n / 10) + [DigitChar(n % 10)]
  }

  /** Reading back the digits of `String(n)` gives `n`. */
  lemma {:induction false} NatToStringValue(n: nat)
    ensures DigitsValue(NatToString(n), 10) == n
  {
    if n >= 10 {
      var s := NatToString(n);
      assert s[..|s| - 1] == NatToString(n / 10);
      NatToStringValue(n / 10);
    }
  }

  /** `k` copies of the character '0'. */
  function Zeros(k: nat): (r: string)
    ensures |r| == k && forall i | 0 <= i < k :: r[i] == '0'
  {
    seq(k, _ => '0')
  }

  /** Leading zeros do not change the value of a digit string. */
  lemma {:induction false} LeadingZerosValue(k: nat, s: string, radix: nat)
    requires radix == 10 || radix == 16
    requires AllDigitsOf(s, radix)
    ensures AllDigitsOf(Zeros(k) + s, radix)
    ensures DigitsValue(Zeros(k) + s, radix) == DigitsValue(s, radix)
  {
    var z := Zeros(k) + s;
    assert AllDigitsOf(z, radix) by {
      forall i | 0 <= i < |z| ensures IsDigitOf(z[i], radix) {
        if i >= k { assert z[i] == s[i - k]; }
      }
    }
    if |s| == 0 {
      assert z == Zeros(k);
      ZerosValue(k, radix);
    } else {
      assert z[..|z| - 1] == Zeros(k) + s[..|s| - 1];
      LeadingZerosValue(k, s[..|s| - 1], radix);
    }
  }

  lemma {:induction false} ZerosValue(k: nat, radix: nat)
    requires radix == 10 || radix == 16
    ensures AllDigitsOf(Zeros(k), radix) && DigitsValue(Zeros(k), radix) == 0
  {
    if k > 0 {
      assert Zeros(k)[..k - 1] == Zeros(k - 1);
      ZerosValue(k - 1, radix);
    }
  }

  /** The zero-padding the ID generators apply: `'0'` is prepended while the
      string is shorter than three characters. */
  function ZeroPad3(s: string): (r: string)
    ensures |r| == if |s| < 3 then 3 else |s|
  {
    if |s| < 3 then Zeros(3 - |s|) + s else s
  }

  /** The padding loop `while (nextNum.length < 3) nextNum = '0' + nextNum`. */
  method PadWithZeros(digits: string) returns (r: string)
    ensures r == ZeroPad3(digits)
    ensures r[|r| - |digits|..] == digits
    ensures forall i | 0 <= i < |r| - |digits| :: r[i] == '0'
  {
    r := digits;
    while |r| < 3
      invariant |digits| <= |r| <= if |digits| < 3 then 3 else |digits|
      invariant r == Zeros(|r| - |digits|) + digits
    {
      r := "0" + r;
    }
  }

  // ---------------------------------------------------------------------
  // parseInt
  // ---------------------------------------------------------------------

  /** The radix argument of `parseInt`: 10, or left out (then a `0x`/`0X`
      prefix selects 16). */
  datatype Radix = Ten | Unspecified

  /** The length of the longest prefix of `s` made of digits of `radix`. */
  function DigitRun(s: string, radix: nat): (n: nat)
    ensures n <= |s| && AllDigitsOf(s[..n], radix)
    ensures n < |s| ==> !IsDigitOf(s[n], radix)
  {
    if |s| == 0 || !IsDigitOf(s[0], radix) then 0
    else
      var n := 1 + DigitRun(s[1..], radix);
      assert forall i | 1 <= i < n :: s[..n][i] == s[1..][..n - 1][i - 1];
      n
  }

  /** The digits at the start of `body`, read in base `base`; `None` when
      `body` does not start with a digit. */
  function ParseDigits(body: string, base: nat): (r: Option<nat>)
    requires base == 10 || base == 16
    ensures r.None? <==> (|body| == 0 || !IsDigitOf(body[0], base))
  {
    var n := DigitRun(body, base);
    if n == 0 then None else Some(DigitsValue(body[..n], base))
  }

  /** `parseInt(s, radix)` on its integer path: skip leading whitespace,
      take an optional sign, under `Unspecified` strip a `0x`/`0X` prefix
      and switch to radix 16, then read the longest run of digits; no digit
      at all gives `None` (JavaScript's `NaN`). */
  function ParseInt(s: string, radix: Radix): (r: Option<int>)
    ensures TrimStart(s) == [] ==> r.None?
  {
    var t := TrimStart(s);
    var negative := |t| > 0 && t[0] == '-';
    var u := if |t| > 0 && (t[0] == '-' || t[0] == '+') then t[1..] else t;
    var hex := radix == Unspecified && |u| >= 2 && u[0] == '0' && (u[1] == 'x' || u[1] == 'X');
    match ParseDigits(if hex then u[2..] else u, if hex then 16 else 10)
    case None => None
    case Some(v) => Some(if negative then -(v as int) else v as int)
  }

  /** A non-empty string of decimal digits parses, under either radix, to
      the number it writes. */
  lemma ParseIntOfDigits(s: string, radix: Radix)
    requires |s| >= 1 && AllDigitsOf(s, 10)
    ensures ParseInt(s, radix) == Some(DigitsValue(s, 10))
  {
    assert !IsJsWhitespace(s[0]);
    assert TrimStart(s) == s;
    assert !(s[0] == '-' || s[0] == '+');
    assert |s| >= 2 ==> !(s[1] == 'x' || s[1] == 'X');
    var n := DigitRun(s, 10);
    assert n == |s|;
    assert s[..n] == s;
  }

  /** The digits of `String(n)`, zero-padded to three, parse back to `n`. */
  lemma ParsePaddedNumber(n: nat, radix: Radix)
    ensures |ZeroPad3(NatToString(n))| >= 3
    ensures AllDigitsOf(ZeroPad3(NatToString(n)), 10)
    ensures ParseInt(ZeroPad3(NatToString(n)), radix) == Some(n)
  {
    var s := NatToString(n);
    NatToStringValue(n);
    if |s| < 3 {
      LeadingZerosValue(3 - |s|, s, 10);
    }
    ParseIntOfDigits(ZeroPad3(s), radix);
  }

  // ---------------------------------------------------------------------
  // String comparison
  // ---------------------------------------------------------------------

  /** JavaScript's `a < b` on strings: lexicographic order on characters,
      a proper prefix coming first. */
  predicate LexLess(a: string, b: string) {
    if |a| == 0 then |b| > 0
    else if |b| == 0 then false
    else if a[0] != b[0] then a[0] < b[0]
    else LexLess(a[1..], b[1..])
  }

  lemma {:induction false} LexLessIrreflexive(a: string)
    ensures !LexLess(a, a)
  {
    if |a| > 0 { LexLessIrreflexive(a[1..]); }
  }

  lemma {:induction false} LexLessAsymmetric(a: string, b: string)
    ensures !(LexLess(a, b) && LexLess(b, a))
  {
    if |a| > 0 && |b| > 0 && a[0] == b[0] { LexLessAsymmetric(a[1..], b[1..]); }
  }

  lemma {:induction false} LexLessTransitive(a: string, b: string, c: string)
    requires LexLess(a, b) && LexLess(b, c)
    ensures LexLess(a, c)
  {
    if |a| > 0 && a[0] == b[0] && b[0] == c[0] {
      LexLessTransitive(a[1..], b[1..], c[1..]);
    }
  }

  lemma {:induction false} LexLessTotal(a: string, b: string)
    ensures a == b || LexLess(a, b) || LexLess(b, a)
  {
    if |a| > 0 && |b| > 0 && a[0] == b[0] {
      LexLessTotal(a[1..], b[1..]);
      if a[1..] == b[1..] {
        assert a == [a[0]] + a[1..] && b == [b[0]] + b[1..];
      }
    }
  }

  /** Comparing `p + x` with `q + y` where `p` and `q` have the same length
      compares `p` with `q` first and `x` with `y` on a tie: concatenating
      fixed-width fields gives the composite order. */
  lemma {:induction false} LexLessConcat(p: string, q: string, x: string, y: string)
    requires |p| == |q|
    ensures LexLess(p + x, q + y) <==> LexLess(p, q) || (p == q && LexLess(x, y))
  {
    if |p| > 0 {
      assert (p + x)[1..] == p[1..] + x && (q + y)[1..] == q[1..] + y;
      LexLessConcat(p[1..], q[1..], x, y);
      if p[0] == q[0] && p[1..] == q[1..] {
        assert p == [p[0]] + p[1..] && q == [q[0]] + q[1..];
      }
    } else {
      assert p + x == x && q + y == y;
    }
  }
}
