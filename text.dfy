/** Byte-string helpers used by the fetch, converter and sticker modules.
    A C++ std::string or byte vector is modelled as a Dafny string holding one
    char per byte; character classes follow the "C" locale. */
module Text {

  newtype uint64 = x: int | 0 <= x < 0x1_0000_0000_0000_0000
  newtype int64 = x: int | -0x8000_0000_0000_0000 <= x < 0x8000_0000_0000_0000

  const Int64Max: int := 0x7FFF_FFFF_FFFF_FFFF
  const Int64Min: int := -0x8000_0000_0000_0000

  /** std::isspace in the "C" locale: space, \t, \n, \v, \f and \r. */
  predicate IsSpace(c: char) { c == ' ' || '\t' <= c <= '\r' }

  predicate IsDigit(c: char) { '0' <= c <= '9' }

  predicate IsUpper(c: char) { 'A' <= c <= 'Z' }

  predicate IsLowerAscii(c: char) { 'a' <= c <= 'z' }

  /** std::tolower and std::toupper in the "C" locale: only ASCII letters change. */
  function ToLower(c: char): char { if IsUpper(c) then (c as int + 32) as char else c }

  function ToUpper(c: char): char { if IsLowerAscii(c) then (c as int - 32) as char else c }

  /** `lower` of fetch.cpp, also the ::tolower transform of converter.cpp. */
  function Lower(s: string): (r: string)
    ensures |r| == |s|
    ensures forall i :: 0 <= i < |r| ==> !IsUpper(r[i])
    ensures forall i :: 0 <= i < |s| && !IsUpper(s[i]) ==> r[i] == s[i]
    ensures forall i :: 0 <= i < |s| && IsUpper(s[i]) ==> r[i] as int == s[i] as int + 32
  {
    seq(|s|, i requires 0 <= i < |s| => ToLower(s[i]))
  }

  /** The ::toupper transform applied to the request method. */
  function Upper(s: string): (r: string)
    ensures |r| == |s|
    ensures forall i :: 0 <= i < |r| ==> !IsLowerAscii(r[i])
    ensures forall i :: 0 <= i < |s| && !IsLowerAscii(s[i]) ==> r[i] == s[i]
    ensures forall i :: 0 <= i < |s| && IsLowerAscii(s[i]) ==> r[i] as int == s[i] as int - 32
  {
    seq(|s|, i requires 0 <= i < |s| => ToUpper(s[i]))
  }

  /** Two characters that are equal, or the same ASCII letter in the two cases. */
  predicate SameLetterIgnoringCase(a: char, b: char) {
    a == b || (IsUpper(a) && b as int == a as int + 32) || (IsUpper(b) && a as int == b as int + 32)
  }

  /** Two strings that differ at most in the case of ASCII letters. */
  predicate EqualIgnoringCase(s: string, t: string) {
    |s| == |t| && forall i :: 0 <= i < |s| ==> SameLetterIgnoringCase(s[i], t[i])
  }

  /** Lower-casing identifies exactly the strings that differ only in ASCII
      case, which is what makes `lower` a case-insensitive comparison. */
  lemma LowerEqualIffIgnoringCase(s: string, t: string)
    ensures Lower(s) == Lower(t) <==> EqualIgnoringCase(s, t)
  {
    if Lower(s) == Lower(t) {
      forall i | 0 <= i < |s|
        ensures SameLetterIgnoringCase(s[i], t[i])
      {
        assert Lower(s)[i] == Lower(t)[i];
      }
    }
    if EqualIgnoringCase(s, t) {
      assert forall i :: 0 <= i < |s| ==> Lower(s)[i] == Lower(t)[i];
    }
  }

  predicate NoUpper(s: string) { forall i :: 0 <= i < |s| ==> !IsUpper(s[i]) }

  /** Lower-casing twice is lower-casing once. */
  lemma LowerIdempotent(s: string)
    ensures Lower(Lower(s)) == Lower(s)
  {
  }

  // ---------------------------------------------------------------------------
  // trim
  // ---------------------------------------------------------------------------

  predicate AllSpace(s: string) { forall i :: 0 <= i < |s| ==> IsSpace(s[i]) }

  /** The first index at or after `i` that is not whitespace. */
  function SkipSpaces(s: string, i: nat): (j: nat)
    requires i <= |s|
    ensures i <= j <= |s|
    ensures forall k :: i <= k < j ==> IsSpace(s[k])
    ensures j < |s| ==> !IsSpace(s[j])
    decreases |s| - i
  {
    if i < |s| && IsSpace(s[i]) then SkipSpaces(s, i + 1) else i
  }

  /** The last index `j` at or below `b`, and above `a`, such that s[j - 1] is
      not whitespace; `a` when s[a..b] is all whitespace. */
  function SkipSpacesBack(s: string, a: nat, b: nat): (j: nat)
    requires a <= b <= |s|
    ensures a <= j <= b
    ensures forall k :: j <= k < b ==> IsSpace(s[k])
    ensures j > a ==> !IsSpace(s[j - 1])
    decreases b
  {
    if b > a && IsSpace(s[b - 1]) then SkipSpacesBack(s, a, b - 1) else b
  }

  /** What `trim` of fetch.cpp returns: the slice of `s` between its leading and
      its trailing whitespace. */
  function Trimmed(s: string): string {
    var a := SkipSpaces(s, 0);
    s[a..SkipSpacesBack(s, a, |s|)]
  }

  /** The slice that `trim` keeps has whitespace only on both sides of it, and no
      whitespace at either of its ends. */
  lemma TrimmedIsInnerSlice(s: string)
    ensures exists a :: (0 <= a <= a + |Trimmed(s)| <= |s|
                         && Trimmed(s) == s[a..a + |Trimmed(s)|]
                         && AllSpace(s[..a]) && AllSpace(s[a + |Trimmed(s)|..]))
    ensures Trimmed(s) != [] ==> !IsSpace(Trimmed(s)[0]) && !IsSpace(Trimmed(s)[|Trimmed(s)| - 1])
  {
    var a := SkipSpaces(s, 0);
    var b := SkipSpacesBack(s, a, |s|);
    assert AllSpace(s[..a]);
    assert AllSpace(s[b..]);
    assert Trimmed(s) == s[a..a + |Trimmed(s)|];
  }

  /** `trim` gives the empty string exactly for all-whitespace input. */
  lemma TrimmedEmptyIffAllSpace(s: string)
    ensures Trimmed(s) == [] <==> AllSpace(s)
  {
    var a := SkipSpaces(s, 0);
    var b := SkipSpacesBack(s, a, |s|);
    if Trimmed(s) == [] {
      assert a == b;
    }
  }

  /** Trimming a trimmed string changes nothing. */
  lemma TrimmedIdempotent(s: string)
    ensures Trimmed(Trimmed(s)) == Trimmed(s)
  {
    var r := Trimmed(s);
    TrimmedIsInnerSlice(s);
    if r != [] {
      assert SkipSpaces(r, 0) == 0;
      assert SkipSpacesBack(r, 0, |r|) == |r|;
    }
  }

  /** A leading blank does not change what `trim` returns. */
  lemma TrimmedOfSpacePrefix(s: string)
    ensures Trimmed(" " + s) == Trimmed(s)
  {
    var a := SkipSpaces(s, 0);
    var b := SkipSpacesBack(s, a, |s|);
    SkipLeadingBlank(s);
    SkipSpacesBackShift(s, a, |s|);
    ShiftedSlice(" ", s, a, b);
    TrimmedShifted(" " + s, s, a, b);
  }

  /** `trim` of `t` is the slice of `s` it lines up with, one place to the left. */
  lemma TrimmedShifted(t: string, s: string, a: nat, b: nat)
    requires a <= b <= |s| && |t| == |s| + 1
    requires SkipSpaces(t, 0) == a + 1 && SkipSpacesBack(t, a + 1, |t|) == b + 1
    requires t[a + 1..b + 1] == s[a..b]
    ensures Trimmed(t) == s[a..b]
  {
  }

  /** The leading blank is skipped along with the rest of the whitespace. */
  lemma SkipLeadingBlank(s: string)
    ensures SkipSpaces(" " + s, 0) == SkipSpaces(s, 0) + 1
  {
    assert IsSpace((" " + s)[0]);
    SkipSpacesShift(s, 0);
  }

  /** A slice of `s` is the slice one further on in `x + s`, for one-character `x`. */
  lemma ShiftedSlice(x: string, s: string, a: nat, b: nat)
    requires |x| == 1 && a <= b <= |s|
    ensures (x + s)[a + 1..b + 1] == s[a..b]
  {
  }

  /** A leading blank shifts the forward whitespace scan by one place. */
  lemma {:induction false} SkipSpacesShift(s: string, i: nat)
    requires i <= |s|
    ensures SkipSpaces(" " + s, i + 1) == SkipSpaces(s, i) + 1
    decreases |s| - i
  {
    var t := " " + s;
    if i < |s| {
      assert t[i + 1] == s[i];
      if IsSpace(s[i]) {
        SkipSpacesShift(s, i + 1);
      }
    }
  }

  /** A leading blank shifts the backward whitespace scan by one place. */
  lemma {:induction false} SkipSpacesBackShift(s: string, a: nat, b: nat)
    requires a <= b <= |s|
    ensures SkipSpacesBack(" " + s, a + 1, b + 1) == SkipSpacesBack(s, a, b) + 1
    decreases b
  {
    var t := " " + s;
    if b > a {
      assert t[b] == s[b - 1];
      if IsSpace(s[b - 1]) {
        SkipSpacesBackShift(s, a, b - 1);
      }
    }
  }

  /** `trim` of fetch.cpp: two index loops narrowing [a, b). */
  method Trim(s: string) returns (r: string)
    ensures r == Trimmed(s)
  {
    var a, b := 0, |s|;
    while a < b && IsSpace(s[a])
      invariant 0 <= a <= b == |s|
      invariant SkipSpaces(s, a) == SkipSpaces(s, 0)
    {
      a := a + 1;
    }
    while b > a && IsSpace(s[b - 1])
      invariant a <= b <= |s|
      invariant SkipSpacesBack(s, a, b) == SkipSpacesBack(s, a, |s|)
    {
      b := b - 1;
    }
    r := s[a..b];
  }

  // ---------------------------------------------------------------------------
  // scanning numbers the way num_get / strtoll do
  // ---------------------------------------------------------------------------

  /** The first index at or after `i` that is whitespace. */
  function SkipToken(s: string, i: nat): (j: nat)
    requires i <= |s|
    ensures i <= j <= |s|
    ensures forall k :: i <= k < j ==> !IsSpace(s[k])
    ensures j < |s| ==> IsSpace(s[j])
    decreases |s| - i
  {
    if i < |s| && !IsSpace(s[i]) then SkipToken(s, i + 1) else i
  }

  /** The first index at or after `i` that is not a decimal digit. */
  function SkipDigits(s: string, i: nat): (j: nat)
    requires i <= |s|
    ensures i <= j <= |s|
    ensures forall k :: i <= k < j ==> IsDigit(s[k])
    ensures j < |s| ==> !IsDigit(s[j])
    decreases |s| - i
  {
    if i < |s| && IsDigit(s[i]) then SkipDigits(s, i + 1) else i
  }

  predicate AllDigits(s: string) { forall i :: 0 <= i < |s| ==> IsDigit(s[i]) }

  /** The value of a string of decimal digits, most significant first. */
  function DecimalValue(ds: string): nat
    requires AllDigits(ds)
  {
    if ds == [] then 0 else DecimalValue(ds[..|ds| - 1]) * 10 + (ds[|ds| - 1] as int - '0' as int)
  }

  /** The result of reading "[+|-]digits" at index `i`. */
  datatype NumberScan = NoDigits | Scanned(value: int, end: nat)

  /** Reads an optional sign and a maximal run of decimal digits starting at `i`;
      `end` is the index just after the last digit. */
  function ScanSigned(s: string, i: nat): (r: NumberScan)
    requires i <= |s|
    ensures r.Scanned? ==> i < r.end <= |s| && (r.end < |s| ==> !IsDigit(s[r.end]))
    ensures r.NoDigits? <==> SkipDigits(s, if i < |s| && (s[i] == '+' || s[i] == '-') then i + 1 else i)
                             == (if i < |s| && (s[i] == '+' || s[i] == '-') then i + 1 else i)
  {
    var negative := i < |s| && s[i] == '-';
    var d := if i < |s| && (s[i] == '+' || s[i] == '-') then i + 1 else i;
    var e := SkipDigits(s, d);
    if e == d then NoDigits
    else
      var magnitude: int := DecimalValue(s[d..e]);
      Scanned(if negative then -magnitude else magnitude, e)
  }

  // ---------------------------------------------------------------------------
  // hexadecimal digits
  // ---------------------------------------------------------------------------

  /** The digits used for lower-case hexadecimal output. */
  const HexAlphabet := "0123456789abcdef"

  /** The value of a hexadecimal digit (0 for any other character). */
  function HexDigitValue(c: char): nat {
    if '0' <= c <= '9' then c as int - '0' as int
    else if 'a' <= c <= 'f' then c as int - 'a' as int + 10
    else 0
  }

  /** Each digit of the alphabet reads back as its position. */
  lemma HexAlphabetValues(d: nat)
    requires d < 16
    ensures HexDigitValue(HexAlphabet[d]) == d
  {
  }

  // ---------------------------------------------------------------------------
  // fixed-width integers
  // ---------------------------------------------------------------------------

  /** A byte whose value is `x` reduced modulo 256. */
  function Byte(x: int): (c: char)
    ensures c as int == x % 256
  {
    (x % 256) as char
  }

  /** A conversion to a 32-bit `int` (two's-complement wrap-around). */
  function ToInt32(x: int): (r: int)
    ensures -0x8000_0000 <= r < 0x8000_0000
    ensures -0x8000_0000 <= x < 0x8000_0000 ==> r == x
    ensures (x - r) % 0x1_0000_0000 == 0
  {
    (x + 0x8000_0000) % 0x1_0000_0000 - 0x8000_0000
  }
}
