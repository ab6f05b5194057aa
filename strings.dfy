/** The parts of Rust's `str`, `char` and `u64` behaviour that the expansion engine
    relies on, written out over `seq<char>` (a Rust `char` is a Unicode scalar value,
    as a Dafny `char` is). */
module Strings {
  import opened Wrappers

  const U64_MAX: nat := 0xFFFF_FFFF_FFFF_FFFF

  /** Rust's `u64`. */
  newtype u64 = x: int | 0 <= x <= 0xFFFF_FFFF_FFFF_FFFF

  // ---------------------------------------------------------------------------
  // Whitespace and `str::trim`
  // ---------------------------------------------------------------------------

  /** `char::is_whitespace`: the Unicode White_Space property. */
  predicate IsWhitespace(c: char) {
    || ('\t' <= c <= '\r')
    || c == ' '
    || c == '\U{85}'
    || c == '\U{A0}'
    || c == '\U{1680}'
    || ('\U{2000}' <= c <= '\U{200A}')
    || c == '\U{2028}'
    || c == '\U{2029}'
    || c == '\U{202F}'
    || c == '\U{205F}'
    || c == '\U{3000}'
  }

  predicate AllWhitespace(s: string) {
    forall i :: 0 <= i < |s| ==> IsWhitespace(s[i])
  }

  /** The number of whitespace characters at the front of `s`. */
  function LeadingWhitespace(s: string): (n: nat)
    ensures n <= |s|
    ensures forall i :: 0 <= i < n ==> IsWhitespace(s[i])
    ensures n < |s| ==> !IsWhitespace(s[n])
    decreases |s|
  {
    if s != [] && IsWhitespace(s[0]) then 1 + LeadingWhitespace(s[1..]) else 0
  }

  /** The number of whitespace characters at the back of `s`. */
  function TrailingWhitespace(s: string): (n: nat)
    ensures n <= |s|
    ensures forall i :: |s| - n <= i < |s| ==> IsWhitespace(s[i])
    ensures n < |s| ==> !IsWhitespace(s[|s| - 1 - n])
    decreases |s|
  {
    if s != [] && IsWhitespace(s[|s| - 1]) then 1 + TrailingWhitespace(s[..|s| - 1]) else 0
  }

  /** `str::trim`: `s` without its leading and trailing whitespace. */
  function Trim(s: string): (r: string)
    ensures |r| <= |s|
    ensures r == [] || (!IsWhitespace(r[0]) && !IsWhitespace(r[|r| - 1]))
  {
    var t := s[LeadingWhitespace(s)..];
    t[..|t| - TrailingWhitespace(t)]
  }

  /** What `Trim` removes is whitespace, from the two ends only. */
  lemma TrimSlice(s: string) returns (i: nat, j: nat)
    ensures i <= j <= |s| && Trim(s) == s[i..j]
    ensures AllWhitespace(s[..i]) && AllWhitespace(s[j..])
  {
    i := LeadingWhitespace(s);
    var t := s[i..];
    var trail := TrailingWhitespace(t);
    j := |s| - trail;
    assert t[..|t| - trail] == s[i..j];
    assert s[j..] == t[|t| - trail..];
  }

  /** A string trims to nothing exactly when it is all whitespace (the check behind
      "snippet title cannot be empty" and "global macro name cannot be empty"). */
  lemma TrimEmptyIffAllWhitespace(s: string)
    ensures Trim(s) == [] <==> AllWhitespace(s)
  {
    var r := Trim(s);
    var i, j := TrimSlice(s);
    if r == [] {
      forall k | 0 <= k < |s| ensures IsWhitespace(s[k]) {
        if k < i { assert s[..i][k] == s[k]; } else { assert s[j..][k - j] == s[k]; }
      }
    }
  }

  /** Trimming leaves a string alone when neither end is whitespace. */
  lemma TrimIdentity(s: string)
    requires s == [] || (!IsWhitespace(s[0]) && !IsWhitespace(s[|s| - 1]))
    ensures Trim(s) == s
  {
    if s != [] {
      assert LeadingWhitespace(s) == 0;
      assert s[0..] == s;
      assert TrailingWhitespace(s) == 0;
    }
  }

  // ---------------------------------------------------------------------------
  // `str::to_ascii_uppercase`
  // ---------------------------------------------------------------------------

  function AsciiUpperChar(c: char): char {
    if 'a' <= c <= 'z' then (c as int - 32) as char else c
  }

  function AsciiUpper(s: string): (r: string) {
    seq(|s|, i requires 0 <= i < |s| => AsciiUpperChar(s[i]))
  }

  predicate HasNoAsciiLower(s: string) {
    forall i :: 0 <= i < |s| ==> !('a' <= s[i] <= 'z')
  }

  /** Upper-casing a string that has no ASCII lower-case letter changes nothing. */
  lemma AsciiUpperOfUpper(s: string)
    requires HasNoAsciiLower(s)
    ensures AsciiUpper(s) == s
  {
  }

  /** Upper-casing twice is upper-casing once: case-insensitive lookups keyed on
      `AsciiUpper` see the same key for `s` and for `AsciiUpper(s)`. */
  lemma AsciiUpperIdempotent(s: string)
    ensures AsciiUpper(AsciiUpper(s)) == AsciiUpper(s)
    ensures HasNoAsciiLower(AsciiUpper(s))
  {
  }

  // ---------------------------------------------------------------------------
  // `str::ends_with`, `str::starts_with`, byte-window comparison
  // ---------------------------------------------------------------------------

  /** `s.ends_with(t)`. */
  predicate IsSuffix(t: string, s: string) {
    |t| <= |s| && s[|s| - |t|..] == t
  }

  /** `haystack.get(i..i + needle.len()) == Some(needle)`. */
  predicate StartsWithAt(haystack: string, i: nat, needle: string) {
    i + |needle| <= |haystack| && haystack[i..i + |needle|] == needle
  }

  // ---------------------------------------------------------------------------
  // UTF-8 lengths (the parser reports byte offsets)
  // ---------------------------------------------------------------------------

  /** `char::len_utf8`. */
  function Utf8Width(c: char): (w: nat)
    ensures 1 <= w <= 4
  {
    if c as int < 0x80 then 1
    else if c as int < 0x800 then 2
    else if c as int < 0x10000 then 3
    else 4
  }

  /** `str::len`: the number of bytes of the UTF-8 encoding of `s`. */
  function Utf8Length(s: string): (n: nat)
    ensures |s| <= n <= 4 * |s|
    decreases |s|
  {
    if s == [] then 0 else Utf8Length(s[..|s| - 1]) + Utf8Width(s[|s| - 1])
  }

  // ---------------------------------------------------------------------------
  // `u64::from_str` and its inverse
  // ---------------------------------------------------------------------------

  predicate IsDigit(c: char) {
    '0' <= c <= '9'
  }

  predicate AllDigits(s: string) {
    forall i :: 0 <= i < |s| ==> IsDigit(s[i])
  }

  function DigitValue(c: char): (d: nat)
    requires IsDigit(c)
    ensures d < 10
  {
    c as int - '0' as int
  }

  function DigitChar(d: nat): (c: char)
    requires d < 10
    ensures IsDigit(c) && DigitValue(c) == d
  {
    ('0' as int + d) as char
  }

  /** The number a run of decimal digits denotes (most significant first). */
  function DecimalValue(s: string): nat
    requires AllDigits(s)
    decreases |s|
  {
    if s == [] then 0 else DecimalValue(s[..|s| - 1]) * 10 + DigitValue(s[|s| - 1])
  }

  /** The shortest decimal spelling of `n`. */
  function DecimalString(n: nat): (s: string)
    ensures s != [] && AllDigits(s)
    decreases n
  {
    if n < 10 then [DigitChar(n)] else DecimalString(n / 10) + [DigitChar(n % 10)]
  }

  lemma {:induction false} DecimalValueOfString(n: nat)
    ensures DecimalValue(DecimalString(n)) == n
    decreases n
  {
    if n >= 10 {
      var s := DecimalString(n);
      assert s[..|s| - 1] == DecimalString(n / 10);
      DecimalValueOfString(n / 10);
    }
  }

  /** `str::parse::<u64>`: an optional `+`, then one or more ASCII digits whose
      value fits in 64 bits; anything else (empty, a sign alone, `-`, any other
      character, overflow) is an error. */
  function ParseU64(s: string): (r: Option<u64>)
  {
    if s == [] then None
    else
      var digits := if s[0] == '+' then s[1..] else s;
      if digits != [] && AllDigits(digits) && DecimalValue(digits) <= U64_MAX
      then Some(DecimalValue(digits) as u64)
      else None
  }

  /** Every `u64` is read back from its decimal spelling, with or without `+`. */
  lemma ParseU64RoundTrip(n: u64)
    ensures ParseU64(DecimalString(n as nat)) == Some(n)
    ensures ParseU64("+" + DecimalString(n as nat)) == Some(n)
  {
    var s := DecimalString(n as nat);
    DecimalValueOfString(n as nat);
    assert ("+" + s)[1..] == s;
  }

  /** A number above `u64::MAX` is refused. */
  lemma ParseU64Overflow(n: nat)
    requires n > U64_MAX
    ensures ParseU64(DecimalString(n)) == None
  {
    DecimalValueOfString(n);
  }
}
