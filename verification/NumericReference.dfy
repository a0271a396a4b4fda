/** What numeric character references are read as by html/src/char_reference.cpp. */
module NumericReference {
  import opened Wrappers
  import opened Trie
  import opened CharReference

  const DECIMAL := "0123456789"
  const LOWER_HEX := "0123456789abcdef"
  const UPPER_HEX := "0123456789ABCDEF"

  predicate IsAlphabet(digits: string, hex: bool) {
    if hex then digits == LOWER_HEX || digits == UPPER_HEX else digits == DECIMAL
  }

  predicate Plain(digits: string) {
    |digits| >= 2 && forall c :: c in digits ==> '0' <= c <= 'z'
  }

  /** The code of a digit. */
  function DigitCode(digits: string, d: nat): ascii
    requires d < |digits| && Plain(digits)
  {
    var c := digits[d];
    assert c in digits;
    c as int
  }

  /** The numeral of a number over an alphabet of digits. */
  function Numeral(n: nat, digits: string): Word
    requires Plain(digits)
    decreases n
  {
    if n < |digits| then [DigitCode(digits, n)]
    else Numeral(n / |digits|, digits) + [DigitCode(digits, n % |digits|)]
  }

  lemma AlphabetIsPlain(digits: string, hex: bool)
    requires IsAlphabet(digits, hex)
    ensures Plain(digits) && |digits| == if hex then 16 else 10
  {
  }

  lemma DigitReads(digits: string, hex: bool, d: nat)
    requires IsAlphabet(digits, hex) && Plain(digits) && d < |digits|
    ensures IsDigit(DigitCode(digits, d), hex) && DigitValue(DigitCode(digits, d), hex) == d
  {
  }

  /** The digits are the characters of the alphabets, and no others. */
  lemma DigitsAre(c: ascii, hex: bool)
    ensures IsDigit(c, hex) <==> exists digits, d | IsAlphabet(digits, hex) && 0 <= d < |digits| :: digits[d] as int == c
  {
    if IsDigit(c, hex) {
      var digits := if !hex then DECIMAL else if c <= 70 then UPPER_HEX else LOWER_HEX;
      assert IsAlphabet(digits, hex) && digits[DigitValue(c, hex)] as int == c;
    }
  }

  lemma {:induction false} NumeralReads(n: nat, digits: string, hex: bool)
    requires IsAlphabet(digits, hex) && Plain(digits)
    ensures |Numeral(n, digits)| > 0
    ensures forall k :: 0 <= k < |Numeral(n, digits)| ==> IsDigit(Numeral(n, digits)[k], hex)
    ensures Number(Numeral(n, digits), hex) == n
    decreases n
  {
    AlphabetIsPlain(digits, hex);
    hide IsAlphabet, DigitCode, DigitValue, IsDigit, Plain;
    var b := |digits|;
    var last := DigitCode(digits, n % b);
    DigitReads(digits, hex, n % b);
    if n < b {
      assert [last][..0] == [];
    } else {
      NumeralReads(n / b, digits, hex);
      var front := Numeral(n / b, digits);
      assert (front + [last])[..|front|] == front;
    }
  }

  /** The digits of a numeral end where the numeral ends. */
  lemma {:induction false} DigitsEndAt(s: Word, i: nat, e: nat, hex: bool)
    requires i <= e < |s| && !IsDigit(s[e], hex) && forall k :: i <= k < e ==> IsDigit(s[k], hex)
    ensures DigitsEnd(s, i, hex) == e
    decreases e - i
  {
    if i < e {
      DigitsEndAt(s, i + 1, e, hex);
    }
  }

  /** What stands in front of the digits: the letter of either case for base sixteen. */
  predicate IsPrefix(prefix: Word, hex: bool) {
    if hex then prefix == [AMPERSAND, HASH, 120] || prefix == [AMPERSAND, HASH, 88] else prefix == [AMPERSAND, HASH]
  }

  /** The text of a reference, part by part. */
  lemma Framed(prefix: Word, t: Word, hex: bool)
    requires IsPrefix(prefix, hex) && |t| > 0 && forall k :: 0 <= k < |t| ==> IsDigit(t[k], hex)
    ensures
      var s, e := prefix + t + [SEMICOLON], |prefix| + |t|;
      && |s| == e + 1 && s[0] == AMPERSAND && s[1] == HASH && s[e] == SEMICOLON
      && (hex <==> s[2] == 120 || s[2] == 88) && |prefix| == (if hex then 3 else 2)
      && s[|prefix|..e] == t && (forall k :: |prefix| <= k < e ==> IsDigit(s[k], hex))
  {
    var s := prefix + t + [SEMICOLON];
    assert hex ==> s[2] == prefix[2];
    assert !hex ==> s[2] == t[0] && IsDigit(t[0], false);
    forall k | |prefix| <= k < |prefix| + |t|
      ensures s[k] == t[k - |prefix|]
    {
    }
  }

  /** A reference whose digits end at a semicolon. */
  lemma ReferenceIs(patterns: seq<Word>, utf8: seq<Bytes>, s: Word, hex: bool, start: nat, e: nat)
    requires |utf8| == |patterns| && start == (if hex then 3 else 2) && start <= e == |s| - 1
    requires |s| >= 3 && s[1] == HASH && s[e] == SEMICOLON && (hex <==> s[2] == 120 || s[2] == 88)
    requires forall k :: start <= k < e ==> IsDigit(s[k], hex)
    ensures forall k :: 0 <= k < |s[start..e]| ==> IsDigit(s[start..e][k], hex)
    ensures Reference(patterns, utf8, s) == Some((InsertCodepoint(Number(s[start..e], hex) % WORD_RANGE), e + 1))
  {
    DigitsEndAt(s, start, e, hex);
    hide Number, InsertCodepoint, DigitsEnd;
  }

  lemma ReferenceReads(patterns: seq<Word>, utf8: seq<Bytes>, n: nat, digits: string, hex: bool, prefix: Word)
    requires |utf8| == |patterns| && n < WORD_RANGE
    requires IsAlphabet(digits, hex) && Plain(digits) && IsPrefix(prefix, hex)
    ensures
      var s := prefix + Numeral(n, digits) + [SEMICOLON];
      s[0] == AMPERSAND && Reference(patterns, utf8, s) == Some((InsertCodepoint(n), |s|))
  {
    hide Numeral, Number, IsAlphabet, InsertCodepoint, Reference, IsPrefix, IsDigit, Plain;
    NumeralReads(n, digits, hex);
    var t := Numeral(n, digits);
    Framed(prefix, t, hex);
    ReferenceIs(patterns, utf8, prefix + t + [SEMICOLON], hex, |prefix|, |prefix| + |t|);
  }

  /** Every number below 2^32, in decimal or in base sixteen with digits of either case, is read back. */
  lemma NumeralRoundTrip(patterns: seq<Word>, utf8: seq<Bytes>, n: nat, digits: string, hex: bool, prefix: Word)
    requires |utf8| == |patterns| && n < WORD_RANGE
    requires IsAlphabet(digits, hex) && Plain(digits) && IsPrefix(prefix, hex)
    ensures Unescaped(patterns, utf8, prefix + Numeral(n, digits) + [SEMICOLON]) == InsertCodepoint(n)
  {
    ReferenceReads(patterns, utf8, n, digits, hex, prefix);
    WholeReference(patterns, utf8, prefix + Numeral(n, digits) + [SEMICOLON], InsertCodepoint(n));
  }

  /** A text that is one reference. */
  lemma WholeReference(patterns: seq<Word>, utf8: seq<Bytes>, s: Word, output: Option<Bytes>)
    requires |utf8| == |patterns| && s != [] && s[0] == AMPERSAND
    requires Reference(patterns, utf8, s) == Some((output, |s|))
    ensures Unescaped(patterns, utf8, s) == output
  {
    hide Reference;
    assert s[|s|..] == [];
    if output.Some? {
      assert output.value + [] == output.value;
    }
  }
}
