/** String helpers with the PHP semantics the generator relies on: ASCII
    lower-casing, splitting at the first occurrence of a delimiter,
    `explode`/`implode` on one character, `substr($s, 0, $n)`, and the
    integer/string conversions `intval` and `(string)` perform. */
module Text {

  function Min(a: int, b: int): int {
    if a <= b then a else b
  }

  predicate IsUpper(c: char) {
    'A' <= c <= 'Z'
  }

  predicate IsDigit(c: char) {
    '0' <= c <= '9'
  }

  predicate AllDigits(s: string) {
    forall i :: 0 <= i < |s| ==> IsDigit(s[i])
  }

  /** No upper-case ASCII letter anywhere in `s`. */
  predicate IsLowerCase(s: string) {
    forall i :: 0 <= i < |s| ==> !IsUpper(s[i])
  }

  function LowerChar(c: char): char {
    if IsUpper(c) then (c as int + 32) as char else c
  }

  /** ASCII lower-casing, as PHP 8.2 and later (or any PHP in the C locale)
      lower-cases array keys: letters A-Z become a-z and every other
      character is kept. */
  function Lower(s: string): (r: string)
    ensures |r| == |s|
    ensures IsLowerCase(r)
    ensures forall i :: 0 <= i < |s| && !IsUpper(s[i]) ==> r[i] == s[i]
    ensures forall i :: 0 <= i < |s| && IsUpper(s[i]) ==> r[i] as int == s[i] as int + 32
  {
    seq(|s|, i requires 0 <= i < |s| => LowerChar(s[i]))
  }

  /** Lower-casing an already lower-case string changes nothing; in
      particular lower-casing is idempotent. */
  lemma LowerOfLowerCase(s: string)
    requires IsLowerCase(s)
    ensures Lower(s) == s
  {
  }

  /** Lower-casing only ever produces letters it was given or lower-case
      letters, so it keeps delimiters such as `&`, `=` and `#` out. */
  lemma LowerKeepsOut(s: string, c: char)
    requires c !in s && !IsUpper(c) && !('a' <= c <= 'z')
    ensures c !in Lower(s)
  {
    forall i | 0 <= i < |s|
      ensures Lower(s)[i] != c
    {
      assert s[i] != c;
    }
  }

  /** The position of the first `c` in `s`, or `|s|` when there is none. */
  function IndexOf(s: string, c: char): (i: nat)
    ensures i <= |s|
    ensures i < |s| ==> s[i] == c
    ensures c !in s[..i]
  {
    if |s| == 0 || s[0] == c then 0
    else
      var j := IndexOf(s[1..], c);
      assert s[..1 + j] == [s[0]] + s[1..][..j];
      1 + j
  }

  /** The text before the first `c`, or the whole of `s` when it holds none
      (PHP's `explode(c, s)[0]`). */
  function Before(s: string, c: char): (r: string)
    ensures c !in r
    ensures r <= s
    ensures |r| < |s| ==> s[|r|] == c
    ensures c !in s ==> r == s
  {
    s[..IndexOf(s, c)]
  }

  /** The text after the first `c`, or the empty string when `s` holds none. */
  function After(s: string, c: char): (r: string)
    ensures c in s ==> s == Before(s, c) + [c] + r
    ensures c !in s ==> r == ""
    ensures |r| <= |s|
  {
    var i := IndexOf(s, c);
    if i < |s| then s[i + 1..] else ""
  }

  /** Splitting `x + [c] + y` at its first `c` gives back `x` and `y` when `x`
      holds no `c`. */
  lemma {:induction false} BeforeAfterJoined(x: string, c: char, y: string)
    requires c !in x
    ensures Before(x + [c] + y, c) == x
    ensures After(x + [c] + y, c) == y
  {
    var s := x + [c] + y;
    var i := IndexOf(s, c);
    assert s[|x|] == c;
    forall j | 0 <= j < i
      ensures s[j] != c
    {
      assert s[..i][j] == s[j];
    }
    forall j | 0 <= j < |x|
      ensures s[j] != c
    {
      assert s[j] == x[j];
    }
    assert i == |x|;
  }

  /** PHP's `implode(c, parts)`. */
  function Join(parts: seq<string>, c: char): string
    decreases |parts|
  {
    if |parts| == 0 then ""
    else if |parts| == 1 then parts[0]
    else parts[0] + [c] + Join(parts[1..], c)
  }

  /** PHP's `explode(c, s)`: the maximal pieces of `s` between occurrences of
      `c`; there is always at least one piece, and joining the pieces with `c`
      gives back `s`. */
  function Split(s: string, c: char): (parts: seq<string>)
    ensures |parts| >= 1
    ensures forall i :: 0 <= i < |parts| ==> c !in parts[i]
    ensures Join(parts, c) == s
    decreases |s|
  {
    if c !in s then [s]
    else
      var rest := Split(After(s, c), c);
      assert ([Before(s, c)] + rest)[1..] == rest;
      [Before(s, c)] + rest
  }

  /** Splitting `x + [c] + y` with `x` free of `c` gives `x` followed by the
      pieces of `y`. */
  lemma SplitCons(x: string, c: char, y: string)
    requires c !in x
    ensures Split(x + [c] + y, c) == [x] + Split(y, c)
  {
    var s := x + [c] + y;
    assert s[|x|] == c;
    BeforeAfterJoined(x, c, y);
  }

  /** Splitting is the inverse of joining pieces that do not contain the
      delimiter. */
  lemma {:induction false} SplitJoin(parts: seq<string>, c: char)
    requires |parts| >= 1
    requires forall i :: 0 <= i < |parts| ==> c !in parts[i]
    ensures Split(Join(parts, c), c) == parts
    decreases |parts|
  {
    if |parts| > 1 {
      var rest := parts[1..];
      calc {
        Split(Join(parts, c), c);
        Split(parts[0] + [c] + Join(rest, c), c);
        { SplitCons(parts[0], c, Join(rest, c)); }
        [parts[0]] + Split(Join(rest, c), c);
        { SplitJoin(rest, c); }
        [parts[0]] + rest;
        parts;
      }
    }
  }

  /** PHP's `substr(s, 0, n)` for `n >= 0`: the first `n` characters of `s`,
      or all of `s` when it is shorter. */
  function Take(s: string, n: nat): (r: string)
    ensures |r| == Min(n, |s|)
    ensures r <= s
    ensures multiset(r) <= multiset(s)
  {
    if n <= |s| then
      assert s == s[..n] + s[n..];
      s[..n]
    else s
  }

  function DigitValue(c: char): nat
    requires IsDigit(c)
  {
    c as int - '0' as int
  }

  function DigitChar(d: nat): (c: char)
    requires d < 10
    ensures IsDigit(c) && DigitValue(c) == d
  {
    ('0' as int + d) as char
  }

  /** The number a string of decimal digits denotes. */
  function DigitsValue(ds: string): nat
    requires AllDigits(ds)
    decreases |ds|
  {
    if |ds| == 0 then 0
    else 10 * DigitsValue(ds[..|ds| - 1]) + DigitValue(ds[|ds| - 1])
  }

  /** The length of the longest run of decimal digits at the start of `s`. */
  function LeadingDigits(s: string): (n: nat)
    ensures n <= |s|
    ensures AllDigits(s[..n])
    ensures n < |s| ==> !IsDigit(s[n])
  {
    if |s| == 0 || !IsDigit(s[0]) then 0
    else
      var n := LeadingDigits(s[1..]);
      assert s[..1 + n] == [s[0]] + s[1..][..n];
      1 + n
  }

  /** PHP's `intval` of a string, restricted to integer notation: an optional
      sign followed by the longest run of decimal digits; a string that
      starts otherwise reads as 0. A numeric string in exponent or decimal
      notation (`"2e1"`, `"1.5e3"`) reads here as its leading integer digits
      (2 and 1), where PHP 7.1 and later read it as the number it denotes (20
      and 1500). */
  function IntVal(s: string): int {
    if |s| > 0 && (s[0] == '-' || s[0] == '+') then
      var t := s[1..];
      var v: int := DigitsValue(t[..LeadingDigits(t)]);
      if s[0] == '-' then -v else v
    else
      DigitsValue(s[..LeadingDigits(s)])
  }

  /** The decimal digits of `n`, without leading zeros. */
  function NatToDecimal(n: nat): (r: string)
    ensures |r| >= 1 && AllDigits(r)
    decreases n
  {
    if n < 10 then [DigitChar(n)]
    else NatToDecimal(n / 10) + [DigitChar(n % 10)]
  }

  /** PHP's `(string)` of an integer. */
  function DecimalString(i: int): string {
    if i < 0 then "-" + NatToDecimal(-i) else NatToDecimal(i)
  }

  lemma {:induction false} NatToDecimalValue(n: nat)
    ensures DigitsValue(NatToDecimal(n)) == n
    decreases n
  {
    var r := NatToDecimal(n);
    if n >= 10 {
      NatToDecimalValue(n / 10);
      assert r[..|r| - 1] == NatToDecimal(n / 10);
    }
  }

  /** `intval` reads back every integer that `(string)` prints. */
  lemma IntValOfDecimal(i: int)
    ensures IntVal(DecimalString(i)) == i
  {
    var n: nat := if i < 0 then -i else i;
    var ds := NatToDecimal(n);
    NatToDecimalValue(n);
    assert LeadingDigits(ds) == |ds|;
    assert ds[..|ds|] == ds;
    if i < 0 {
      assert DecimalString(i)[1..] == ds;
    } else {
      assert IsDigit(ds[0]);
    }
  }

  /** A string PHP turns into an integer when it is used as an array key:
      "0", or an optional minus sign followed by a decimal number without
      leading zeros (the 64-bit range check is not modelled). */
  predicate IntegerLike(s: string) {
    || s == "0"
    || (|s| >= 1 && '1' <= s[0] <= '9' && AllDigits(s))
    || (|s| >= 2 && s[0] == '-' && '1' <= s[1] <= '9' && AllDigits(s[1..]))
  }
}
