/** String helpers shared by several crates: ordering, decimal digits, lengths and searches. */
module Text {

  /** The order Rust puts on `str`: byte by byte, which on UTF-8 is code point by code point. */
  predicate LexLess(a: string, b: string)
    decreases |a|
  {
    b != [] && (a == [] || a[0] < b[0] || (a[0] == b[0] && LexLess(a[1..], b[1..])))
  }

  lemma {:induction false} LexTotal(a: string, b: string)
    ensures a == b || LexLess(a, b) || LexLess(b, a)
  {
    if a != [] && b != [] && a[0] == b[0] {
      LexTotal(a[1..], b[1..]);
      assert a == [a[0]] + a[1..] && b == [b[0]] + b[1..];
    }
  }

  lemma {:induction false} LexAsymmetric(a: string, b: string)
    requires LexLess(a, b)
    ensures a != b && !LexLess(b, a)
  {
    if a != [] && a[0] == b[0] { LexAsymmetric(a[1..], b[1..]); }
  }

  lemma {:induction false} LexIrreflexive(a: string)
    ensures !LexLess(a, a)
  {
    if a != [] { LexIrreflexive(a[1..]); }
  }

  lemma {:induction false} LexTransitive(a: string, b: string, c: string)
    requires LexLess(a, b) && LexLess(b, c)
    ensures LexLess(a, c)
  {
    if a != [] && a[0] == b[0] && b[0] == c[0] { LexTransitive(a[1..], b[1..], c[1..]); }
  }

  /** Number of bytes of the UTF-8 encoding. */
  function ByteLength(s: string): nat {
    if s == [] then 0
    else
      var c := s[0] as int;
      (if c < 0x80 then 1 else if c < 0x800 then 2 else if c < 0x1_0000 then 3 else 4) + ByteLength(s[1..])
  }

  lemma {:induction false} BytesBounded(s: string)
    ensures |s| <= ByteLength(s) <= 4 * |s|
  {
    if s != [] { BytesBounded(s[1..]); }
  }

  /** How many characters are at or above this code point. */
  function CountFrom(s: string, least: int): nat {
    if s == [] then 0 else (if s[0] as int >= least then 1 else 0) + CountFrom(s[1..], least)
  }

  /** One byte for each character, and one more at each of the bounds of the encoding that it reaches. */
  lemma {:induction false} BytesAre(s: string)
    ensures ByteLength(s) == |s| + CountFrom(s, 0x80) + CountFrom(s, 0x800) + CountFrom(s, 0x1_0000)
  {
    if s != [] { BytesAre(s[1..]); }
  }

  predicate IsDigit(c: char) { '0' <= c <= '9' }

  predicate IsAsciiAlphabetic(c: char) { 'a' <= c <= 'z' || 'A' <= c <= 'Z' }

  predicate IsAsciiAlphanumeric(c: char) { IsDigit(c) || IsAsciiAlphabetic(c) }

  /** Unicode category Cc: the C0 and C1 control characters. */
  predicate IsControl(c: char) { c < ' ' || '\U{7F}' <= c <= '\U{9F}' }

  /** `to_ascii_lowercase` of one character. */
  function Lower(c: char): char { if 'A' <= c <= 'Z' then c + 32 as char else c }

  predicate AllDigits(s: string) { forall i :: 0 <= i < |s| ==> IsDigit(s[i]) }

  function Digit(n: nat): (c: char)
    requires n < 10
    ensures IsDigit(c) && c as int - '0' as int == n
  {
    '0' + n as char
  }

  /** Plain decimal digits, without sign or leading zero. */
  function Decimal(n: nat): (s: string)
    ensures s != [] && AllDigits(s)
  {
    if n < 10 then [Digit(n)] else Decimal(n / 10) + [Digit(n % 10)]
  }

  /** The number a run of digits denotes. */
  function Number(s: string): nat
    requires AllDigits(s)
  {
    if s == [] then 0 else Number(s[..|s| - 1]) * 10 + (s[|s| - 1] as int - '0' as int)
  }

  /** `needle` occurs in `text` at `at`. */
  predicate OccursAt(text: string, needle: string, at: int) {
    0 <= at <= |text| - |needle| && text[at..at + |needle|] == needle
  }

  predicate Contains(text: string, needle: string) {
    exists at :: 0 <= at <= |text| - |needle| && OccursAt(text, needle, at)
  }

  lemma OccurrenceChar(text: string, needle: string, at: int, k: int)
    requires 0 <= k < |needle|
    ensures OccursAt(text, needle, at) ==> text[at + k] == needle[k]
  {
  }

  /** A text without some character of the needle does not contain it. */
  lemma Lacks(text: string, needle: string, k: int)
    requires 0 <= k < |needle| && forall i :: 0 <= i < |text| ==> text[i] != needle[k]
    ensures !Contains(text, needle)
  {
    forall at | 0 <= at <= |text| - |needle| ensures !OccursAt(text, needle, at) {
      OccurrenceChar(text, needle, at, k);
    }
  }

  predicate StartsWith(text: string, prefix: string) { prefix <= text }

  predicate EndsWith(text: string, suffix: string) {
    |suffix| <= |text| && text[|text| - |suffix|..] == suffix
  }
}
