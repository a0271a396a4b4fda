/** Replacing character references in text, as html/src/char_reference.cpp does it with the
    compressed scanner. */
module CharReference {
  import opened Trie
  import opened Scanner
  import opened ModArith
  import opened Wrappers

  type Bytes = seq<int>

  const HASH: ascii := 35
  const SEMICOLON: ascii := 59

  /** The range of a uint32_t. */
  const WORD_RANGE: int := 0x1_0000_0000

  // ----- UTF-8 -----

  /** The bytes of a code point, or nothing where the code throws. */
  function InsertCodepoint(cp: nat): Option<Bytes>
    requires cp < WORD_RANGE
  {
    if cp / 0x80 == 0 then Some([cp % 0x80])
    else if cp / 0x800 == 0 then Some([0xC0 + cp / 0x40 % 0x20, 0x80 + cp % 0x40])
    else if cp / 0x1_0000 == 0 then Some([0xE0 + cp / 0x1000 % 0x10, 0x80 + cp / 0x40 % 0x40, 0x80 + cp % 0x40])
    // cp & 0xFF700000 == 0: only bit 23 and the bits below bit 20 may be set
    else if cp / 0x100_0000 == 0 && cp / 0x10_0000 % 8 == 0 then
      Some([0xF0 + cp / 0x4_0000 % 4, 0x80 + cp / 0x1000 % 0x40, 0x80 + cp / 0x40 % 0x40, 0x80 + cp % 0x40])
    else None
  }

  /** Reading one UTF-8 sequence: the lead byte gives the length, every other byte six bits. */
  function Decode(b: Bytes): Option<nat> {
    var Six := (x: int) => 0x80 <= x < 0xC0;
    if |b| == 1 && 0 <= b[0] < 0x80 then Some(b[0])
    else if |b| == 2 && 0xC0 <= b[0] < 0xE0 && Six(b[1]) then Some((b[0] - 0xC0) * 0x40 + (b[1] - 0x80))
    else if |b| == 3 && 0xE0 <= b[0] < 0xF0 && Six(b[1]) && Six(b[2]) then
      Some((b[0] - 0xE0) * 0x1000 + (b[1] - 0x80) * 0x40 + (b[2] - 0x80))
    else if |b| == 4 && 0xF0 <= b[0] < 0xF8 && Six(b[1]) && Six(b[2]) && Six(b[3]) then
      Some((b[0] - 0xF0) * 0x4_0000 + (b[1] - 0x80) * 0x1000 + (b[2] - 0x80) * 0x40 + (b[3] - 0x80))
    else None
  }

  /** The bytes written stand for the code point exactly below the last plane: plane 16 throws,
      and a value with bit 23 set loses that bit. */
  lemma Utf8Exactly(cp: nat)
    requires cp < WORD_RANGE
    ensures InsertCodepoint(cp).Some? && Decode(InsertCodepoint(cp).value) == Some(cp) <==> cp < 0x10_0000
    ensures 0x10_0000 <= cp <= 0x10_FFFF ==> InsertCodepoint(cp) == None
  {
    hide InsertCodepoint, Decode;
    if cp >= 0x1_0000 {
      FourBytes(cp);
    } else {
      FewBytes(cp);
    }
  }

  lemma FewBytes(cp: nat)
    requires cp < 0x1_0000
    ensures InsertCodepoint(cp).Some? && Decode(InsertCodepoint(cp).value) == Some(cp)
  {
    if cp >= 0x800 {
      ThreeBytes(cp);
      hide InsertCodepoint, Decode;
    } else if cp >= 0x80 {
      TwoBytes(cp);
      hide InsertCodepoint, Decode;
    }
  }

  lemma TwoBytes(cp: nat)
    requires 0x80 <= cp < 0x800
    ensures InsertCodepoint(cp).Some? && Decode(InsertCodepoint(cp).value) == Some(cp)
  {
    hide Decode;
    DecodeTwo(cp / 0x40, cp % 0x40);
    assert InsertCodepoint(cp) == Some([0xC0 + cp / 0x40, 0x80 + cp % 0x40]);
  }

  lemma ThreeBytes(cp: nat)
    requires 0x800 <= cp < 0x1_0000
    ensures InsertCodepoint(cp).Some? && Decode(InsertCodepoint(cp).value) == Some(cp)
  {
    hide Decode;
    Sextets(cp);
    DecodeThree(cp / 0x1000, cp / 0x40 % 0x40, cp % 0x40);
    assert InsertCodepoint(cp) == Some([0xE0 + cp / 0x1000, 0x80 + cp / 0x40 % 0x40, 0x80 + cp % 0x40]);
  }

  lemma DecodeTwo(a: nat, b: nat)
    requires a < 0x20 && b < 0x40
    ensures Decode([0xC0 + a, 0x80 + b]) == Some(a * 0x40 + b)
  {
  }

  lemma DecodeThree(a: nat, b: nat, c: nat)
    requires a < 0x10 && b < 0x40 && c < 0x40
    ensures Decode([0xE0 + a, 0x80 + b, 0x80 + c]) == Some(a * 0x1000 + b * 0x40 + c)
  {
  }

  lemma DecodeFour(a: nat, b: nat, c: nat, d: nat)
    requires a < 8 && b < 0x40 && c < 0x40 && d < 0x40
    ensures Decode([0xF0 + a, 0x80 + b, 0x80 + c, 0x80 + d]) == Some(a * 0x4_0000 + b * 0x1000 + c * 0x40 + d)
  {
  }

  /** The six-bit groups of a number. */
  lemma Sextets(cp: nat)
    ensures cp == cp / 0x1000 * 0x1000 + cp / 0x40 % 0x40 * 0x40 + cp % 0x40
  {
    DivTwice(cp, 0x40);
  }

  lemma DivTwice(x: nat, y: nat)
    requires y == 0x40
    ensures x / y / y == x / 0x1000
  {
  }

  lemma FourBytes(cp: nat)
    requires 0x1_0000 <= cp < WORD_RANGE
    ensures cp < 0x10_0000 ==> InsertCodepoint(cp).Some? && Decode(InsertCodepoint(cp).value) == Some(cp)
    ensures cp >= 0x10_0000 && InsertCodepoint(cp).Some? ==> Decode(InsertCodepoint(cp).value) != Some(cp)
    ensures 0x10_0000 <= cp <= 0x10_FFFF ==> InsertCodepoint(cp) == None
  {
    hide Decode;
    var a := cp / 0x4_0000 % 4;
    DecodeFour(a, cp / 0x1000 % 0x40, cp / 0x40 % 0x40, cp % 0x40);
    FourGroups(cp);
  }

  /** The groups of the four-byte form make up the number below plane 16, and less than it above. */
  lemma FourGroups(cp: nat)
    ensures cp == cp / 0x4_0000 * 0x4_0000 + cp / 0x1000 % 0x40 * 0x1000 + cp / 0x40 % 0x40 * 0x40 + cp % 0x40
    ensures cp < 0x10_0000 <==> cp / 0x4_0000 < 4
  {
    Sextets(cp);
    DivLast(cp);
    var q := cp / 0x1000;
    assert q == q / 0x40 * 0x40 + q % 0x40;
  }

  lemma DivLast(x: nat)
    ensures x / 0x1000 / 0x40 == x / 0x4_0000
  {
  }

  // ----- Numbers -----

  predicate IsDigit(c: ascii, hex: bool) {
    48 <= c <= 57 || (hex && (65 <= c <= 70 || 97 <= c <= 102))
  }

  function DigitValue(c: ascii, hex: bool): nat
    requires IsDigit(c, hex)
  {
    if c <= 57 then c - 48 else if c <= 70 then c - 65 + 10 else c - 97 + 10
  }

  /** The end of the longest run of digits from i on. */
  ghost function DigitsEnd(s: Word, i: nat, hex: bool): (e: nat)
    requires i <= |s|
    ensures i <= e <= |s|
    ensures forall k :: i <= k < e ==> IsDigit(s[k], hex)
    ensures e < |s| ==> !IsDigit(s[e], hex)
    decreases |s| - i
  {
    if i < |s| && IsDigit(s[i], hex) then DigitsEnd(s, i + 1, hex) else i
  }

  /** The number a run of digits spells in base sixteen or ten. */
  ghost function Number(s: Word, hex: bool): nat
    requires forall k :: 0 <= k < |s| ==> IsDigit(s[k], hex)
  {
    if |s| == 0 then 0
    else (if hex then 16 else 10) * Number(s[..|s| - 1], hex) + DigitValue(s[|s| - 1], hex)
  }

  lemma NumberNext(s: Word, i: nat, k: nat, hex: bool)
    requires i <= k < |s| && forall j :: i <= j <= k ==> IsDigit(s[j], hex)
    ensures Number(s[i..k + 1], hex) == (if hex then 16 else 10) * Number(s[i..k], hex) + DigitValue(s[k], hex)
  {
    var t := s[i..k + 1];
    assert t[..|t| - 1] == s[i..k] && t[|t| - 1] == s[k];
  }

  // ----- What unescaping means -----

  /** The replacement for the reference at the head of the text and its length: a number between
      "&#" or "&#x" and a semicolon, or a listed name. The outer option is none when there is no
      reference, the inner one when the number cannot be written. */
  ghost function Reference(patterns: seq<Word>, utf8: seq<Bytes>, s: Word): Option<(Option<Bytes>, nat)>
    requires |utf8| == |patterns|
  {
    if |s| >= 2 && s[1] == HASH then
      var hex := |s| >= 3 && (s[2] == 120 || s[2] == 88);
      var start := if hex then 3 else 2;
      var e := DigitsEnd(s, start, hex);
      if e < |s| && s[e] == SEMICOLON then
        Some((InsertCodepoint(Number(s[start..e], hex) % WORD_RANGE), e + 1))
      else None
    else if exists i: nat :: 1 <= i <= |patterns| && LastMatch(patterns, s, i) then
      var i: nat :| 1 <= i <= |patterns| && LastMatch(patterns, s, i);
      Some((Some(utf8[i - 1]), |patterns[i - 1]|))
    else None
  }

  function Prepend(b: Bytes, r: Option<Bytes>): Option<Bytes> {
    if r.Some? then Some(b + r.value) else None
  }

  /** Text with every reference replaced, from left to right; an ampersand that starts no
      reference stands for itself. None when a reference cannot be written. */
  ghost function Unescaped(patterns: seq<Word>, utf8: seq<Bytes>, s: Word): Option<Bytes>
    requires |utf8| == |patterns|
    decreases |s|
  {
    if s == [] then Some([])
    else
      var r := if s[0] == AMPERSAND then Reference(patterns, utf8, s) else None;
      if r.None? || r.value.1 == 0 || r.value.1 > |s| then Prepend([s[0]], Unescaped(patterns, utf8, s[1..]))
      else if r.value.0.None? then None
      else Prepend(r.value.0.value, Unescaped(patterns, utf8, s[r.value.1..]))
  }

  lemma PrependTwice(a: Bytes, b: Bytes, r: Option<Bytes>)
    ensures Prepend(a, Prepend(b, r)) == Prepend(a + b, r)
  {
    if r.Some? {
      assert a + (b + r.value) == a + b + r.value;
    }
  }

  lemma PrependNothing(r: Option<Bytes>)
    ensures Prepend([], r) == r
  {
    if r.Some? {
      assert [] + r.value == r.value;
    }
  }

  /** Text without references is copied. */
  lemma {:induction false} CopyPlain(patterns: seq<Word>, utf8: seq<Bytes>, s: Word, n: nat)
    requires |utf8| == |patterns| && n <= |s|
    requires forall k :: 0 <= k < n ==> s[k] != AMPERSAND
    ensures Unescaped(patterns, utf8, s) == Prepend(s[..n], Unescaped(patterns, utf8, s[n..]))
  {
    hide Reference;
    if n == 0 {
      assert s[..0] == [] && s[0..] == s;
      PrependNothing(Unescaped(patterns, utf8, s));
    } else {
      CopyPlain(patterns, utf8, s[1..], n - 1);
      CopyHead(patterns, utf8, s, n);
    }
  }

  lemma CopyOne(patterns: seq<Word>, utf8: seq<Bytes>, s: Word)
    requires |utf8| == |patterns| && s != []
    requires s[0] != AMPERSAND || Reference(patterns, utf8, s).None?
    ensures Unescaped(patterns, utf8, s) == Prepend([s[0]], Unescaped(patterns, utf8, s[1..]))
  {
  }

  lemma Slices(s: Word, n: nat)
    requires 1 <= n <= |s|
    ensures s[1..][n - 1..] == s[n..] && [s[0]] + s[1..][..n - 1] == s[..n]
  {
  }

  /** One character copied in front of a copied run. */
  lemma CopyHead(patterns: seq<Word>, utf8: seq<Bytes>, s: Word, n: nat)
    requires |utf8| == |patterns| && 1 <= n <= |s|
    requires s[0] != AMPERSAND || Reference(patterns, utf8, s).None?
    requires Unescaped(patterns, utf8, s[1..]) == Prepend(s[1..][..n - 1], Unescaped(patterns, utf8, s[1..][n - 1..]))
    ensures Unescaped(patterns, utf8, s) == Prepend(s[..n], Unescaped(patterns, utf8, s[n..]))
  {
    CopyOne(patterns, utf8, s);
    hide Unescaped, Reference, Prepend;
    Slices(s, n);
    PrependTwice([s[0]], s[1..][..n - 1], Unescaped(patterns, utf8, s[n..]));
  }

  /** An ampersand that starts no reference is copied, and so is the text read after it. */
  lemma CopyAmbiguous(patterns: seq<Word>, utf8: seq<Bytes>, s: Word, n: nat)
    requires |utf8| == |patterns| && 1 <= n <= |s| && s[0] == AMPERSAND
    requires Reference(patterns, utf8, s).None?
    requires forall k :: 1 <= k < n ==> s[k] != AMPERSAND
    ensures Unescaped(patterns, utf8, s) == Prepend(s[..n], Unescaped(patterns, utf8, s[n..]))
  {
    hide Reference, Unescaped;
    CopyPlain(patterns, utf8, s[1..], n - 1);
    CopyHead(patterns, utf8, s, n);
  }

  // ----- Unescaping -----

  /** The digits of a numeric reference from i on: where they end and their value in 32 bits. */
  method ReadNumber(s: Word, i: nat, hex: bool) returns (e: nat, codepoint: nat)
    requires i <= |s|
    ensures e == DigitsEnd(s, i, hex)
    ensures codepoint == Number(s[i..e], hex) % WORD_RANGE
  {
    e, codepoint := i, 0;
    assert Number(s[i..e], hex) == 0;
    hide Number, DigitValue;
    while e < |s| && IsDigit(s[e], hex)
      invariant i <= e <= |s| && DigitsEnd(s, i, hex) == DigitsEnd(s, e, hex)
      invariant forall k :: i <= k < e ==> IsDigit(s[k], hex)
      invariant codepoint == Number(s[i..e], hex) % WORD_RANGE
    {
      NumberNext(s, i, e, hex);
      WrapStep(Number(s[i..e], hex), if hex then 16 else 10, DigitValue(s[e], hex));
      codepoint := codepoint * (if hex then 16 else 10) % WORD_RANGE;
      codepoint := (codepoint + DigitValue(s[e], hex)) % WORD_RANGE;
      e := e + 1;
    }
  }

  /** Wrapping after every step is wrapping once at the end. */
  lemma WrapStep(v: nat, base: nat, d: nat)
    requires base == 10 || base == 16
    ensures ((v % WORD_RANGE) * base % WORD_RANGE + d) % WORD_RANGE == (base * v + d) % WORD_RANGE
  {
    var q, r := v / WORD_RANGE, v % WORD_RANGE;
    assert base * v + d == (r * base + d) + (base * q) * WORD_RANGE;
    ModWitness(r * base + d, base * q, WORD_RANGE);
    ModAdd(r * base, d, WORD_RANGE);
    ModAdd(r * base % WORD_RANGE, d, WORD_RANGE);
  }

  /** The reference or ambiguous ampersand at the head of the text. */
  method ReadReference(g: Generator, s: Word, utf8: seq<Bytes>, ghost patterns: seq<Word>)
    returns (read: nat, ambiguous: bool, output: Option<Bytes>)
    requires g.Represents() && g.Allocated() && g.CompressedUpTo(g.maxState + 1) && Spells(g.trie, patterns)
    requires References(patterns) && PrefixFree(patterns) && |utf8| == |patterns|
    requires s != [] && s[0] == AMPERSAND
    ensures 1 <= read <= |s|
    ensures ambiguous ==> Reference(patterns, utf8, s).None? && forall k :: 1 <= k < read ==> s[k] != AMPERSAND
    ensures !ambiguous ==> Reference(patterns, utf8, s) == Some((output, read))
  {
    ambiguous, output := false, None;
    if |s| >= 2 && s[1] == HASH {
      var hex := |s| >= 3 && (s[2] == 120 || s[2] == 88);
      var codepoint;
      read, codepoint := ReadNumber(s, if hex then 3 else 2, hex);
      if read < |s| && s[read] == SEMICOLON {
        read := read + 1;
        output := InsertCodepoint(codepoint);
      } else {
        ambiguous := true;
      }
    } else {
      var state;
      state, read := g.ScanCompressed(s, patterns);
      ScanVerdict(g.trie, patterns, s, state, read);
      if state >= 0 {
        ambiguous := true;
      } else {
        output := Some(utf8[-state - 1]);
      }
    }
  }

  /** A negative state names the one listed reference at the head of the text; any other state
      means there is none. */
  lemma ScanVerdict(t: Trie, patterns: seq<Word>, s: Word, state: int, read: nat)
    requires Shape(t) && Valid(t) && Spells(t, patterns) && PrefixFree(patterns)
    requires var (f, n) := RunTable(t.rows, s, START_STATE, 0);
      (state == f && read == n) || (state == f == 0 && read == n - 1)
    ensures state < 0 ==> -state <= |patterns| && LastMatch(patterns, s, -state) && read == |patterns[-state - 1]|
    ensures forall i: nat :: 1 <= i <= |patterns| ==> (state == -(i as int) <==> LastMatch(patterns, s, i))
  {
    hide Valid, Spells, PrefixFree, Extends;
    ScanStart(t, patterns, s);
    var (f, n) := RunTable(t.rows, s, START_STATE, 0);
    RunRecognises(t, patterns, s, START_STATE, 0);
    RecognisedExactly(patterns, s, f, n);
  }

  lemma ScanStart(t: Trie, patterns: seq<Word>, s: Word)
    requires Shape(t)
    ensures Scanning(t, patterns, s, START_STATE, 0)
  {
  }

  /** Running the table from the start recognises the patterns. */
  lemma {:induction false} RunRecognises(t: Trie, patterns: seq<Word>, s: Word, state: int, read: nat)
    requires Valid(t) && Spells(t, patterns) && Scanning(t, patterns, s, state, read)
    ensures var (f, n) := RunTable(t.rows, s, state, read); Recognised(patterns, s, f, n)
    decreases |s| - read
  {
    hide AllRooted, Distinct, EntriesValid, Bare, Spells, Recognised;
    if read < |s| && state > 0 {
      ScanAdvance(t, patterns, s, state, read);
      RunRecognises(t, patterns, s, t.rows[state][s[read]], read + 1);
    } else {
      ScanDone(t, patterns, s, state, read);
    }
  }

  method Unescape(g: Generator, escaped: Word, utf8: seq<Bytes>, ghost patterns: seq<Word>) returns (r: Option<Bytes>)
    requires g.Represents() && g.Allocated() && g.CompressedUpTo(g.maxState + 1) && Spells(g.trie, patterns)
    requires References(patterns) && PrefixFree(patterns) && |utf8| == |patterns|
    ensures r == Unescaped(patterns, utf8, escaped)
  {
    hide Reference, Valid, Spells, References, PrefixFree;
    var unescaped: Bytes := [];
    var cptr := 0;
    assert escaped[0..] == escaped;
    PrependNothing(Unescaped(patterns, utf8, escaped));
    while cptr < |escaped|
      invariant cptr <= |escaped|
      invariant Unescaped(patterns, utf8, escaped) == Prepend(unescaped, Unescaped(patterns, utf8, escaped[cptr..]))
    {
      var s := escaped[cptr..];
      if s[0] == AMPERSAND {
        var read, ambiguous, output := ReadReference(g, s, utf8, patterns);
        if ambiguous {
          CopyAmbiguous(patterns, utf8, s, read);
          output := Some(s[..read]);
        }
        if output.None? {
          return None;
        }
        PrependTwice(unescaped, output.value, Unescaped(patterns, utf8, s[read..]));
        unescaped := unescaped + output.value;
        assert s[read..] == escaped[cptr + read..];
        cptr := cptr + read;
      } else {
        PrependTwice(unescaped, [s[0]], Unescaped(patterns, utf8, s[1..]));
        unescaped := unescaped + [s[0]];
        assert s[1..] == escaped[cptr + 1..];
        cptr := cptr + 1;
      }
    }
    assert unescaped + [] == unescaped;
    return Some(unescaped);
  }

  /** From the list of names to decoded text: the generator builds and compresses its table, and the decoder
      scans with it. */
  method GenerateAndUnescape(patterns: seq<Word>, utf8: seq<Bytes>, escaped: Word) returns (ok: bool, r: Option<Bytes>)
    requires References(patterns) && PrefixFree(patterns) && |utf8| == |patterns|
    ensures ok <==> |TrieWords(patterns)| < MAX_STATES
    ensures ok ==> r == Unescaped(patterns, utf8, escaped)
  {
    hide PrefixFree, References, Spells, Unescaped;
    r := None;
    PrefixFreeHasNone(patterns);
    var g := new Generator();
    var outcome := g.Generate(patterns);
    ok := outcome.Generated?;
    if ok {
      g.InitialiseCompressed();
      g.GenerateCompressed();
      r := Unescape(g, escaped, utf8, patterns);
    }
  }
}
