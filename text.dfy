/** The Java string operations the core relies on, written out:
    Spring's StringUtils.hasText, the UTF-8 byte count of getBytes(UTF_8),
    toLowerCase on the ASCII letters, lastIndexOf and decimal formatting. */
module Text {

  /** Character.isWhitespace: the Unicode space, line and paragraph separators
      except the three no-break spaces, plus the ASCII controls
      HT, LF, VT, FF, CR and FS..US. */
  predicate IsWhitespace(c: char) {
    || c == ' ' || c == '\t' || c == '\n' || c == '\U{000B}' || c == '\U{000C}' || c == '\r'
    || ('\U{001C}' <= c <= '\U{001F}')
    || c == '\U{1680}'
    || ('\U{2000}' <= c <= '\U{2006}')
    || ('\U{2008}' <= c <= '\U{200A}')
    || c == '\U{2028}' || c == '\U{2029}' || c == '\U{205F}' || c == '\U{3000}'
  }

  /** StringUtils.hasText: some character is not whitespace. */
  predicate HasText(s: string) {
    exists i :: 0 <= i < |s| && !IsWhitespace(s[i])
  }

  /** A concatenation has text exactly when one of its parts has; so the empty
      string and any run of whitespace have none. */
  lemma HasTextConcat(a: string, b: string)
    ensures HasText(a + b) <==> HasText(a) || HasText(b)
    ensures !HasText("")
  {
    var s := a + b;
    if HasText(s) {
      var i :| 0 <= i < |s| && !IsWhitespace(s[i]);
      if i < |a| {
        assert a[i] == s[i];
      } else {
        assert b[i - |a|] == s[i];
      }
    }
    if HasText(a) {
      var i :| 0 <= i < |a| && !IsWhitespace(a[i]);
      assert s[i] == a[i];
    }
    if HasText(b) {
      var i :| 0 <= i < |b| && !IsWhitespace(b[i]);
      assert s[|a| + i] == b[i];
    }
  }

  /** Bytes one code point takes in UTF-8. */
  function Utf8Width(c: char): nat {
    if c as int < 0x80 then 1
    else if c as int < 0x800 then 2
    else if c as int < 0x10000 then 3
    else 4
  }

  /** The length of s.getBytes(StandardCharsets.UTF_8): no bytes for the empty
      string, one byte per character for ASCII text. */
  function Utf8Length(s: string): (n: nat)
    ensures n == 0 <==> s == []
    ensures (forall i :: 0 <= i < |s| ==> s[i] as int < 0x80) ==> n == |s|
  {
    if s == [] then 0
    else
      assert forall i :: 0 <= i < |s[1..]| ==> s[1..][i] == s[i + 1];
      Utf8Width(s[0]) + Utf8Length(s[1..])
  }

  /** Every character takes between one and four bytes. */
  lemma {:induction false} Utf8LengthBounds(s: string)
    ensures |s| <= Utf8Length(s) <= 4 * |s|
  {
    if s != [] {
      Utf8LengthBounds(s[1..]);
    }
  }

  function LowerChar(c: char): char {
    if 'A' <= c <= 'Z' then (c as int + 32) as char else c
  }

  function UpperChar(c: char): char {
    if 'a' <= c <= 'z' then (c as int - 32) as char else c
  }

  /** String.toLowerCase restricted to the ASCII letters: no upper-case letter
      remains and every other character is kept. */
  function ToLower(s: string): (r: string)
    ensures |r| == |s|
    ensures forall i :: 0 <= i < |s| ==> r[i] == LowerChar(s[i])
    ensures forall i :: 0 <= i < |r| ==> !('A' <= r[i] <= 'Z')
    ensures forall i :: 0 <= i < |s| && !('A' <= s[i] <= 'Z') ==> r[i] == s[i]
  {
    seq(|s|, i requires 0 <= i < |s| => LowerChar(s[i]))
  }

  /** String.toUpperCase restricted to the ASCII letters. */
  function ToUpper(s: string): (r: string)
    ensures |r| == |s|
    ensures forall i :: 0 <= i < |s| ==> r[i] == UpperChar(s[i])
  {
    seq(|s|, i requires 0 <= i < |s| => UpperChar(s[i]))
  }

  /** Changing the case of ASCII letters does not change the lower-case form. */
  lemma LowerOfUpper(s: string)
    ensures ToLower(ToUpper(s)) == ToLower(s)
  {
    assert forall i :: 0 <= i < |s| ==> LowerChar(UpperChar(s[i])) == LowerChar(s[i]);
  }

  /** The last position below n holding c, or -1. */
  function LastIndexBelow(s: string, c: char, n: nat): (r: int)
    requires n <= |s|
    ensures -1 <= r < n
    ensures r == -1 <==> forall i :: 0 <= i < n ==> s[i] != c
    ensures r >= 0 ==> s[r] == c && forall i :: r < i < n ==> s[i] != c
  {
    if n == 0 then -1
    else if s[n - 1] == c then n - 1
    else LastIndexBelow(s, c, n - 1)
  }

  /** String.lastIndexOf(c): the last position holding c, or -1. */
  function LastIndexOf(s: string, c: char): (r: int)
    ensures -1 <= r < |s|
    ensures r == -1 <==> c !in s
    ensures r >= 0 ==> s[r] == c && forall i :: r < i < |s| ==> s[i] != c
  {
    LastIndexBelow(s, c, |s|)
  }

  /** When c does not occur after a separator c, lastIndexOf finds that separator. */
  lemma LastIndexOfJoin(a: string, c: char, b: string)
    requires c !in b
    ensures LastIndexOf(a + [c] + b, c) == |a|
  {
    var s := a + [c] + b;
    assert s[|a|] == c;
    assert forall i :: |a| < i < |s| ==> s[i] == b[i - |a| - 1];
  }

  function DigitChar(d: nat): (c: char)
    requires d < 10
    ensures '0' <= c <= '9' && c as int - '0' as int == d
  {
    ('0' as int + d) as char
  }

  predicate IsDigits(s: string) {
    forall i :: 0 <= i < |s| ==> '0' <= s[i] <= '9'
  }

  /** String.format("%d", n) for a non-negative n. */
  function NatToDecimal(n: nat): (r: string)
    ensures |r| >= 1 && IsDigits(r)
  {
    if n < 10 then [DigitChar(n)] else NatToDecimal(n / 10) + [DigitChar(n % 10)]
  }

  /** The number a string of decimal digits denotes. */
  function DecimalValue(s: string): nat
    requires IsDigits(s)
  {
    if s == [] then 0
    else 10 * DecimalValue(s[..|s| - 1]) + (s[|s| - 1] as int - '0' as int)
  }

  /** Printing a number and reading it back gives the number. */
  lemma {:induction false} DecimalRoundTrip(n: nat)
    ensures DecimalValue(NatToDecimal(n)) == n
  {
    if n >= 10 {
      var r := NatToDecimal(n);
      assert r[..|r| - 1] == NatToDecimal(n / 10);
      DecimalRoundTrip(n / 10);
    }
  }

  /** String.format("%04d", n) for 0 <= n <= 9999. */
  function Pad4(n: nat): (r: string)
    requires n < 10000
    ensures |r| == 4 && IsDigits(r)
  {
    [DigitChar(n / 1000), DigitChar(n / 100 % 10), DigitChar(n / 10 % 10), DigitChar(n % 10)]
  }

  /** The four padded digits read back as the number. */
  lemma Pad4RoundTrip(n: nat)
    requires n < 10000
    ensures DecimalValue(Pad4(n)) == n
  {
    var r := Pad4(n);
    Pad4Prefix3(n);
    assert r[..4][..3] == r[..3] && r[..4] == r;
  }

  lemma Pad4Prefix1(n: nat)
    requires n < 10000
    ensures DecimalValue(Pad4(n)[..1]) == n / 1000
  {
    var r := Pad4(n);
    assert r[..1][..0] == [];
  }

  lemma Pad4Prefix2(n: nat)
    requires n < 10000
    ensures DecimalValue(Pad4(n)[..2]) == n / 100
  {
    var r := Pad4(n);
    Pad4Prefix1(n);
    assert r[..2][..1] == r[..1];
    assert DecimalValue(r[..2]) == 10 * (n / 1000) + n / 100 % 10;
  }

  lemma Pad4Prefix3(n: nat)
    requires n < 10000
    ensures DecimalValue(Pad4(n)[..3]) == n / 10
  {
    var r := Pad4(n);
    Pad4Prefix2(n);
    assert r[..3][..2] == r[..2];
    assert DecimalValue(r[..3]) == 10 * (n / 100) + n / 10 % 10;
  }

  /** Java's long division, which truncates toward zero: the quotient has the
      sign of a and its magnitude is the floor of |a| / b. */
  function JavaDiv(a: int, b: int): (q: int)
    requires b > 0
    ensures a >= 0 ==> 0 <= q && q * b <= a < q * b + b
    ensures a < 0 ==> q <= 0 && q * b - b < a <= q * b
  {
    if a >= 0 then a / b else -((-a) / b)
  }
}
