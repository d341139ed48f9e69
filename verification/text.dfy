/** The string primitives the component relies on, written out for `seq<char>`:
    `String.prototype.trim`, `String.prototype.includes`, and the decimal text
    JavaScript produces when an integer is interpolated into a template string. */
module Text {

  /** The code points `trim` removes: the ECMAScript WhiteSpace set (tab,
      vertical tab, form feed, space, no-break space, byte-order mark and the
      other Zs space separators) and the LineTerminator set. */
  predicate IsWhitespace(c: char) {
    || c == '\t' || c == '\n' || c == '\U{000B}' || c == '\U{000C}' || c == '\r'
    || c == ' ' || c == '\U{00A0}' || c == '\U{1680}'
    || ('\U{2000}' <= c <= '\U{200A}')
    || c == '\U{2028}' || c == '\U{2029}' || c == '\U{202F}' || c == '\U{205F}'
    || c == '\U{3000}' || c == '\U{FEFF}'
  }

  /** Every character of `s` is whitespace (vacuously so for the empty string). */
  predicate Blank(s: string) {
    forall i :: 0 <= i < |s| ==> IsWhitespace(s[i])
  }

  /** Drops the leading whitespace: the result is a suffix of `s`, what was
      dropped is whitespace, and the result does not start with whitespace. */
  function TrimStart(s: string): (r: string)
    ensures |r| <= |s| && r == s[|s| - |r|..]
    ensures Blank(s[..|s| - |r|])
    ensures |r| > 0 ==> !IsWhitespace(r[0])
    decreases |s|
  {
    if |s| > 0 && IsWhitespace(s[0]) then TrimStart(s[1..]) else s
  }

  /** Drops the trailing whitespace: the result is a prefix of `s`, what was
      dropped is whitespace, and the result does not end with whitespace. */
  function TrimEnd(s: string): (r: string)
    ensures |r| <= |s| && r == s[..|r|]
    ensures Blank(s[|r|..])
    ensures |r| > 0 ==> !IsWhitespace(r[|r| - 1])
    decreases |s|
  {
    if |s| > 0 && IsWhitespace(s[|s| - 1]) then TrimEnd(s[..|s| - 1]) else s
  }

  /** `s.trim()`: a contiguous slice of `s` with whitespace on neither end,
      cut out of `s` by removing only whitespace. */
  function Trim(s: string): (r: string)
    ensures |r| <= |s|
    ensures |r| > 0 ==> !IsWhitespace(r[0]) && !IsWhitespace(r[|r| - 1])
    ensures exists i, j :: 0 <= i <= j <= |s| && r == s[i..j] && Blank(s[..i]) && Blank(s[j..])
  {
    var t := TrimStart(s);
    TrimIsSlice(s, t, TrimEnd(t));
    TrimEnd(t)
  }

  /** A suffix `t` of `s` after whitespace, and a prefix `r` of `t` before
      whitespace: `r` is a slice `s[i..j]` with only whitespace outside it. */
  lemma TrimIsSlice(s: string, t: string, r: string)
    requires |t| <= |s| && t == s[|s| - |t|..] && Blank(s[..|s| - |t|])
    requires |r| <= |t| && r == t[..|r|] && Blank(t[|r|..])
    ensures exists i, j :: 0 <= i <= j <= |s| && r == s[i..j] && Blank(s[..i]) && Blank(s[j..])
  {
    var i := |s| - |t|;
    var j := i + |r|;
    assert t[..|r|] == s[i..j];
    assert s[j..] == t[|r|..];
  }

  /** `s.trim() === ''` holds exactly for the strings made only of whitespace. */
  lemma TrimEmptyIffBlank(s: string)
    ensures Trim(s) == "" <==> Blank(s)
  {
  }

  /** `p` occurs in `s` at offset `i`. */
  predicate OccursAt(s: string, p: string, i: int) {
    0 <= i && i + |p| <= |s| && s[i..i + |p|] == p
  }

  /** An occurrence of `p` at `i` puts the `j`-th character of `p` at `i + j`. */
  lemma OccurrenceChar(s: string, p: string, i: int, j: int)
    requires OccursAt(s, p, i) && 0 <= j < |p|
    ensures s[i + j] == p[j]
  {
  }

  /** `s.includes(p)`: scan the offsets of `s` from the left for an occurrence of `p`. */
  predicate Includes(s: string, p: string)
    ensures Includes(s, p) ==> |p| <= |s|
    ensures |p| == 0 ==> Includes(s, p)
    decreases |s|
  {
    (|p| <= |s| && s[..|p|] == p) || (|s| > 0 && Includes(s[1..], p))
  }

  /** Where the left-to-right scan succeeds, `p` occurs. */
  lemma {:induction false} IncludesWitness(s: string, p: string) returns (i: int)
    requires Includes(s, p)
    ensures OccursAt(s, p, i)
    decreases |s|
  {
    if |p| <= |s| && s[..|p|] == p {
      i := 0;
    } else {
      var k := IncludesWitness(s[1..], p);
      assert s[1..][k..k + |p|] == s[k + 1..k + 1 + |p|];
      i := k + 1;
    }
  }

  /** Any occurrence of `p` makes the scan succeed, at that offset at the latest. */
  lemma {:induction false} OccursIncludes(s: string, p: string, i: int)
    requires OccursAt(s, p, i)
    ensures Includes(s, p)
    decreases i
  {
    if i > 0 {
      assert s[1..][i - 1..i - 1 + |p|] == s[i..i + |p|];
      OccursIncludes(s[1..], p, i - 1);
    }
  }

  /** The left-to-right scan finds `p` exactly when `p` occurs somewhere in `s`. */
  lemma IncludesIffOccurs(s: string, p: string)
    ensures Includes(s, p) <==> exists i :: OccursAt(s, p, i)
  {
    if Includes(s, p) {
      var i := IncludesWitness(s, p);
    }
    forall i | OccursAt(s, p, i) ensures Includes(s, p) {
      OccursIncludes(s, p, i);
    }
  }

  predicate IsDigit(c: char) {
    '0' <= c <= '9'
  }

  predicate AllDigits(s: string) {
    forall i :: 0 <= i < |s| ==> IsDigit(s[i])
  }

  function DigitChar(d: nat): (c: char)
    requires d < 10
    ensures IsDigit(c) && c as int - '0' as int == d
  {
    (d + '0' as int) as char
  }

  function DigitValue(c: char): nat
    requires IsDigit(c)
  {
    c as int - '0' as int
  }

  /** The decimal numeral of a natural number, most significant digit first,
      without leading zeros. */
  function NatToDecimal(n: nat): (r: string)
    ensures |r| > 0 && AllDigits(r)
    ensures |r| > 1 ==> r[0] != '0'
    decreases n
  {
    if n < 10 then [DigitChar(n)] else NatToDecimal(n / 10) + [DigitChar(n % 10)]
  }

  /** The number a string of decimal digits denotes. */
  function DecimalValue(s: string): nat
    requires AllDigits(s)
    decreases |s|
  {
    if |s| == 0 then 0 else DecimalValue(s[..|s| - 1]) * 10 + DigitValue(s[|s| - 1])
  }

  /** Reading back the numeral of `n` gives `n`. */
  lemma {:induction false} DecimalRoundTrip(n: nat)
    ensures DecimalValue(NatToDecimal(n)) == n
    decreases n
  {
    if n >= 10 {
      var r := NatToDecimal(n);
      assert r[..|r| - 1] == NatToDecimal(n / 10);
      DecimalRoundTrip(n / 10);
    }
  }

  /** `${n}` for an integer `n`: a minus sign for negative values, then the
      decimal numeral of the magnitude. */
  function IntToString(n: int): (r: string)
    ensures |r| > 0
    ensures r[0] == '-' <==> n < 0
    ensures AllDigits(if n < 0 then r[1..] else r)
  {
    if n < 0 then "-" + NatToDecimal(-n) else NatToDecimal(n)
  }

  /** The length of the longest all-digit prefix of `s`. */
  function DigitRun(s: string): (n: nat)
    ensures n <= |s| && AllDigits(s[..n])
    ensures n < |s| ==> !IsDigit(s[n])
    decreases |s|
  {
    if |s| > 0 && IsDigit(s[0]) then 1 + DigitRun(s[1..]) else 0
  }
}
