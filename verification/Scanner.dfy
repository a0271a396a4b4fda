/** The generator and both scan loops of entities_scanner_generator.cpp. */
module Scanner {
  import opened Trie

  const MAX_STATES: nat := 10000

  datatype Outcome = Generated | NonDeterministic | StatesExhausted

  // ----- What a scan should find -----

  /** The state a scan should end in, told from the patterns alone: minus the number of the
      pattern some prefix of the input equals (the last one listed), positive while the input
      could still grow into a pattern, zero otherwise. */
  ghost predicate Recognised(patterns: seq<Word>, input: Word, state: int, read: nat) {
    && read <= |input|
    && (state < 0 ==> read > 0 && input[..read] in patterns && LastIndex(patterns, input[..read]) == -state)
    && (state > 0 ==> read == |input| && (input == [] || Extends(patterns, input)))
    && (state == 0 ==> read > 0 && input[..read] !in patterns && !Extends(patterns, input[..read]))
    && (forall k :: 0 < k < read ==> Extends(patterns, input[..k]))
  }

  lemma PrefixChain(patterns: seq<Word>, input: Word, k: nat, n: nat)
    requires k < n <= |input| && (input[..n] in patterns || Extends(patterns, input[..n]))
    ensures Extends(patterns, input[..k])
  {
    assert input[..n][..k] == input[..k];
    if input[..n] in patterns {
      assert ProperPrefix(input[..k], input[..n]);
    } else {
      var p :| p in patterns && ProperPrefix(input[..n], p);
      assert p[..n][..k] == p[..k];
      assert ProperPrefix(input[..k], p);
    }
  }

  /** Pattern number i is not empty, starts the input, and is not listed again later. */
  ghost predicate LastMatch(patterns: seq<Word>, input: Word, i: nat)
    requires 1 <= i <= |patterns|
  {
    && patterns[i - 1] != [] && patterns[i - 1] <= input
    && forall j :: i <= j < |patterns| ==> patterns[j] != patterns[i - 1]
  }

  /** Over prefix-free patterns a scan is negative exactly when it has found a pattern, and then
      the last index of it, and positive exactly on proper prefixes. */
  lemma RecognisedExactly(patterns: seq<Word>, input: Word, state: int, read: nat)
    requires PrefixFree(patterns) && Recognised(patterns, input, state, read)
    ensures forall i: nat :: 1 <= i <= |patterns| ==> (state == -(i as int) <==> LastMatch(patterns, input, i))
    ensures state > 0 <==> input == [] || Extends(patterns, input)
  {
    forall i: nat | 1 <= i <= |patterns|
      ensures state == -(i as int) <==> LastMatch(patterns, input, i)
    {
      var p := patterns[i - 1];
      LastIndexIs(patterns, p, i);
      if p != [] && p <= input {
        FoundPattern(patterns, input, state, read, p);
      }
    }
    if input != [] && Extends(patterns, input) {
      ExtendingScan(patterns, input, state, read);
    }
  }

  lemma LastIndexIs(patterns: seq<Word>, p: Word, i: nat)
    requires 1 <= i <= |patterns| && patterns[i - 1] == p
    ensures p in patterns
    ensures LastIndex(patterns, p) == i <==> forall j :: i <= j < |patterns| ==> patterns[j] != p
  {
  }

  /** A non-empty pattern in front of the input is what the scan stops at. */
  lemma FoundPattern(patterns: seq<Word>, input: Word, state: int, read: nat, p: Word)
    requires PrefixFree(patterns) && Recognised(patterns, input, state, read)
    requires p in patterns && p != [] && p <= input
    ensures state < 0 && input[..read] == p
  {
    var n := |p|;
    assert input[..n] == p && !Extends(patterns, p);
    if 0 < read < n {
      PrefixChain(patterns, input, read, n);
    }
  }

  /** A proper prefix of a pattern keeps the scan going to its end. */
  lemma ExtendingScan(patterns: seq<Word>, input: Word, state: int, read: nat)
    requires PrefixFree(patterns) && Recognised(patterns, input, state, read)
    requires input != [] && Extends(patterns, input)
    ensures state > 0
  {
    assert input == input[..|input|];
    if 0 < read < |input| {
      PrefixChain(patterns, input, read, |input|);
    }
  }

  // ----- The generated tables -----

  class Generator {
    var uncompressed: array2<int>
    /** The current maximum state. */
    var maxState: nat

    var compressed: array<int>
    var checks: array<int>
    var shifts: array<int>
    /** The current maximum index in the compressed table. */
    var maxIndex: nat

    /** What the uncompressed table holds. */
    ghost var trie: Trie

    ghost predicate Represents()
      reads this, uncompressed
    {
      && Valid(trie)
      && uncompressed.Length0 == MAX_STATES && uncompressed.Length1 == INPUT_RANGE
      && |trie.rows| == maxState + 1 && START_STATE <= maxState < MAX_STATES
      && (forall s, c :: 0 <= s <= maxState && 0 <= c < INPUT_RANGE ==> uncompressed[s, c] == trie.rows[s][c])
      && (forall s, c :: maxState < s < MAX_STATES && 0 <= c < INPUT_RANGE ==> uncompressed[s, c] == 0)
    }

    constructor ()
      ensures Represents() && fresh(uncompressed) && trie == EmptyTrie()
    {
      uncompressed := new int[MAX_STATES, INPUT_RANGE]((i, j) => 0);
      maxState := 1;
      compressed, checks, shifts := new int[0], new int[0], new int[0];
      maxIndex := 0;
      trie := EmptyTrie();
      new;
      EmptyTrieValid();
    }

    /** A new intermediate state, entered from s on c. */
    method NewState(s: nat, c: ascii) returns (state: nat)
      requires Represents() && IsState(trie, s) && uncompressed[s, c] == 0 && maxState + 1 < MAX_STATES
      modifies this`maxState, this`trie, uncompressed
      ensures Represents() && trie == AddState(old(trie), s, c)
      ensures state == maxState == old(maxState) + 1
    {
      AddStateValid(trie, s, c);
      maxState := maxState + 1;
      uncompressed[s, c] := maxState;
      state := maxState;
      trie := AddState(trie, s, c);
    }

    /** The end-state points to the (negative) pattern index. */
    method EndState(s: nat, c: ascii, processed: nat)
      requires Represents() && IsState(trie, s) && uncompressed[s, c] <= 0 && processed > 0
      modifies this`trie, uncompressed
      ensures Represents() && trie == AddEnd(old(trie), s, c, processed)
    {
      AddEndValid(trie, s, c, processed);
      uncompressed[s, c] := -(processed as int);
      trie := AddEnd(trie, s, c, processed);
    }

    /** The state for one more character of a pattern that goes on: a known one, or a new one
        unless the states have run out. start is the trie before the pattern. */
    method Advance(state: nat, pattern: Word, k: nat, ghost start: Trie) returns (next: nat, exhausted: bool)
      requires Represents() && k + 1 < |pattern| && Reached(trie, start, pattern, k, state)
      requires pattern[..k + 1] !in trie.ends
      modifies this`maxState, this`trie, uncompressed
      ensures trie.ends == old(trie.ends) && Valid(trie)
      ensures !exhausted ==> Represents() && Reached(trie, start, pattern, k + 1, next)
      ensures exhausted ==> |trie.paths| > MAX_STATES
      ensures exhausted ==> forall w :: IsPath(trie, w) ==> IsPath(start, w) || ProperPrefix(w, pattern)
    {
      hide AllRooted, Distinct, Bare;
      var c := pattern[k];
      ghost var before := trie;
      assert pattern[..k] + [c] == pattern[..k + 1] && ProperPrefix(pattern[..k + 1], pattern);
      assert EntryValid(trie, state, c);
      next, exhausted := state, false;
      if uncompressed[state, c] != 0 {
        next := uncompressed[state, c];
        WalkKnown(start, trie, pattern, k);
      } else {
        AddStateValid(trie, state, c);
        PathsGrow(before, AddState(before, state, c), pattern[..k + 1]);
        if maxState + 1 < MAX_STATES {
          next := NewState(state, c);
          WalkNew(start, before, trie, pattern, k);
        } else {
          maxState := maxState + 1;
          uncompressed[state, c] := maxState;
          trie := AddState(before, state, c);
          exhausted := true;
        }
      }
    }

    /** The last character of a pattern, unless the patterns are not deterministic. */
    method Finish(state: nat, pattern: Word, processed: nat, ghost start: Trie) returns (ok: bool)
      requires Represents() && processed > 0 && pattern != []
      requires Reached(trie, start, pattern, |pattern| - 1, state)
      modifies this`trie, uncompressed
      ensures Represents()
      ensures ok ==> trie.ends == old(trie.ends)[pattern := processed]
      ensures ok ==> forall w :: IsPath(trie, w) <==> IsPath(start, w) || ProperPrefix(w, pattern)
      ensures !ok ==> IsPath(start, pattern)
    {
      var k := |pattern| - 1;
      var c := pattern[k];
      assert pattern[..k] + [c] == pattern;
      assert EntryValid(trie, state, c);
      ok := uncompressed[state, c] <= 0;
      if ok {
        ghost var before := trie;
        EndState(state, c, processed);
        SamePaths(before, trie);
      } else {
        assert trie.paths[uncompressed[state, c]] == pattern;
        assert IsPath(trie, pattern);
      }
    }

    /** One pattern, character by character from the start state. */
    method AddPattern(pattern: Word, processed: nat) returns (outcome: Outcome)
      requires Represents() && processed > 0
      requires forall w :: ProperPrefix(w, pattern) ==> w !in trie.ends
      modifies this`maxState, this`trie, uncompressed
      ensures Valid(trie) && (!outcome.StatesExhausted? ==> Represents())
      ensures outcome.Generated? && pattern != [] ==> trie.ends == old(trie.ends)[pattern := processed]
      ensures outcome.Generated? && pattern != [] ==>
        forall w :: IsPath(trie, w) <==> IsPath(old(trie), w) || ProperPrefix(w, pattern)
      ensures outcome.Generated? && pattern == [] ==> trie == old(trie)
      ensures outcome.NonDeterministic? ==> pattern != [] && IsPath(old(trie), pattern)
      ensures outcome.StatesExhausted? ==> |trie.paths| > MAX_STATES
      ensures outcome.StatesExhausted? ==>
        forall w :: IsPath(trie, w) ==> IsPath(old(trie), w) || ProperPrefix(w, pattern)
    {
      if pattern == [] {
        return Generated;
      }
      ghost var start := trie;
      var state, k := START_STATE, 0;
      assert IsPath(trie, []);
      while k + 1 < |pattern|
        invariant 0 <= k < |pattern|
        invariant Represents() && uncompressed == old(uncompressed) && trie.ends == start.ends
        invariant Reached(trie, start, pattern, k, state)
      {
        assert ProperPrefix(pattern[..k + 1], pattern);
        var next, exhausted := Advance(state, pattern, k, start);
        if exhausted {
          return StatesExhausted;
        }
        state, k := next, k + 1;
      }
      var ok := Finish(state, pattern, processed, start);
      return if ok then Generated else NonDeterministic;
    }

    /** Pattern i of the list, on top of those before it. */
    method AddNext(patterns: seq<Word>, i: nat) returns (outcome: Outcome)
      requires i < |patterns| && NoEarlierPrefix(patterns)
      requires Represents() && Spells(trie, patterns[..i]) && PrefixFree(patterns[..i])
      modifies this`maxState, this`trie, uncompressed
      ensures outcome.Generated? ==>
        Represents() && Spells(trie, patterns[..i + 1]) && PrefixFree(patterns[..i + 1])
      ensures outcome.NonDeterministic? ==> !PrefixFree(patterns)
      ensures outcome.StatesExhausted? ==> |TrieWords(patterns)| >= MAX_STATES
    {
      var pattern := patterns[i];
      ghost var done, rest, before := patterns[..i], patterns[i + 1..], trie;
      assert patterns == done + [pattern] + rest && patterns[..i + 1] == done + [pattern];
      EarlierPrefixes(patterns, i);
      NoEndInside(trie, done, pattern);
      outcome := AddPattern(pattern, i + 1);
      match outcome
      case NonDeterministic => NotPrefixFree(before, done, pattern, rest);
      case StatesExhausted => TooManyWords(before, trie, done, pattern, rest);
      case Generated =>
        if pattern == [] {
          SpellsEmpty(trie, done);
          PrefixFreeEmpty(done);
        } else {
          SpellsNext(before, trie, done, pattern);
          SpelledIsPrefixFree(before, trie, done, pattern);
        }
    }

    /** Every pattern in turn. */
    method Generate(patterns: seq<Word>) returns (outcome: Outcome)
      requires Represents() && trie == EmptyTrie() && NoEarlierPrefix(patterns)
      modifies this`maxState, this`trie, uncompressed
      ensures outcome.Generated? <==> PrefixFree(patterns) && |TrieWords(patterns)| < MAX_STATES
      ensures outcome.Generated? ==> Represents() && Spells(trie, patterns) && maxState == |TrieWords(patterns)|
    {
      EmptyTrieSpells();
      for i := 0 to |patterns|
        invariant Represents() && uncompressed == old(uncompressed)
        invariant Spells(trie, patterns[..i]) && PrefixFree(patterns[..i])
      {
        outcome := AddNext(patterns, i);
        if !outcome.Generated? {
          return;
        }
      }
      assert patterns[..|patterns|] == patterns;
      StateCount(trie, patterns);
      outcome := Generated;
    }

    // ----- Scanning the uncompressed table -----

    method Scan(input: Word, ghost patterns: seq<Word>) returns (state: int, read: nat)
      requires Represents() && Spells(trie, patterns)
      ensures Recognised(patterns, input, state, read)
      ensures (state, read) == RunTable(trie.rows, input, START_STATE, 0)
    {
      state, read := START_STATE, 0;
      while read < |input| && state > 0
        invariant Scanning(trie, patterns, input, state, read)
        invariant RunTable(trie.rows, input, START_STATE, 0) == RunTable(trie.rows, input, state, read)
        decreases |input| - read
      {
        ScanAdvance(trie, patterns, input, state, read);
        state := uncompressed[state, input[read]];
        read := read + 1;
      }
      ScanDone(trie, patterns, input, state, read);
    }

    // ----- The compressed table -----

    /** The entry the compressed tables hold for a state and a character; an index outside the
        filled part, or one that belongs to another state, is a mismatch. */
    function Lookup(state: nat, c: nat): int
      requires state < shifts.Length && maxIndex <= checks.Length == compressed.Length
      reads this, shifts, checks, compressed
    {
      var index := shifts[state] + c;
      if 0 <= index < maxIndex && checks[index] == state then compressed[index] else 0
    }

    ghost predicate Allocated()
      reads this, uncompressed
    {
      && uncompressed.Length0 == MAX_STATES && uncompressed.Length1 == INPUT_RANGE
      && maxState < MAX_STATES
      && shifts.Length == maxState + 1
      && checks.Length == compressed.Length == (maxState + 1) * INPUT_RANGE
      && shifts != checks && shifts != compressed && checks != compressed
    }

    /** The rows below n are compressed: every lookup in them gives the uncompressed entry. */
    ghost predicate CompressedUpTo(n: nat)
      requires Allocated() && n <= maxState + 1
      reads this, uncompressed, shifts, checks, compressed
    {
      && maxIndex <= n * INPUT_RANGE <= checks.Length
      && (forall k :: 0 <= k < maxIndex ==> 0 <= checks[k] < n)
      && (forall s, c :: 0 <= s < n && 0 <= c < INPUT_RANGE ==> Lookup(s, c) == uncompressed[s, c])
      && (forall s, c :: 0 <= s < n && 0 <= c < INPUT_RANGE && Owned(s, c) ==> PastFirst(s, c))
    }

    /** The index for a state and a character belongs to the state. */
    predicate Owned(state: nat, c: nat)
      requires state < shifts.Length && maxIndex <= checks.Length
      reads this, shifts, checks
    {
      var index := shifts[state] + c;
      0 <= index < maxIndex && checks[index] == state
    }

    /** The row of a state has a non-zero entry at c or before it. */
    ghost predicate PastFirst(state: nat, c: nat)
      requires state < uncompressed.Length0 && c < uncompressed.Length1
      reads this, uncompressed
    {
      exists l :: 0 <= l <= c && uncompressed[state, l] != 0
    }

    method InitialiseCompressed()
      requires Represents()
      modifies this`compressed, this`checks, this`shifts, this`maxIndex
      ensures Represents() && Allocated() && maxIndex == 0
      ensures fresh(compressed) && fresh(checks) && fresh(shifts)
    {
      compressed := new int[(maxState + 1) * INPUT_RANGE](_ => 0);
      checks := new int[(maxState + 1) * INPUT_RANGE];
      shifts := new int[maxState + 1];
      maxIndex := 0;
    }

    /** The first and last column of a row that is not zero; l is past the end of a zero row. */
    method RowBounds(state: nat) returns (l: nat, r: nat)
      requires Allocated() && state <= maxState
      ensures l <= INPUT_RANGE && r < INPUT_RANGE && (l < INPUT_RANGE ==> l <= r)
      ensures l == INPUT_RANGE ==> r == INPUT_RANGE - 1
      ensures l < INPUT_RANGE ==> uncompressed[state, l] != 0
      ensures forall c :: 0 <= c < l ==> uncompressed[state, c] == 0
      ensures forall c :: r < c < INPUT_RANGE ==> uncompressed[state, c] == 0
    {
      l := 0;
      while l < INPUT_RANGE && uncompressed[state, l] == 0
        invariant l <= INPUT_RANGE
        invariant forall c :: 0 <= c < l ==> uncompressed[state, c] == 0
      {
        l := l + 1;
      }
      r := INPUT_RANGE - 1;
      while r > l && uncompressed[state, r] == 0
        invariant r < INPUT_RANGE && (l < INPUT_RANGE ==> l <= r)
        invariant forall c :: r < c < INPUT_RANGE ==> uncompressed[state, c] == 0
        invariant l == INPUT_RANGE ==> r == INPUT_RANGE - 1
      {
        r := r - 1;
      }
    }

    /** Copies columns l to r of a row to the end of the compressed table. */
    method AppendRow(state: nat, l: nat, r: nat)
      requires Allocated() && state <= maxState && maxIndex <= state * INPUT_RANGE
      requires l <= INPUT_RANGE && r < INPUT_RANGE && l <= r + 1
      modifies this`maxIndex, shifts, checks, compressed
      ensures maxIndex == old(maxIndex) + (r + 1 - l) <= checks.Length
      ensures shifts[state] == old(maxIndex) - l
      ensures forall s :: 0 <= s < state ==> shifts[s] == old(shifts[s])
      ensures forall k :: 0 <= k < old(maxIndex) ==> checks[k] == old(checks[k]) && compressed[k] == old(compressed[k])
      ensures forall k :: old(maxIndex) <= k < maxIndex ==> checks[k] == state && compressed[k] == uncompressed[state, k - shifts[state]]
    {
      var start := maxIndex;
      shifts[state] := maxIndex - l;
      assert (state + 1) * INPUT_RANGE <= (maxState + 1) * INPUT_RANGE;
      for j := l to r + 1
        invariant maxIndex == start + (j - l)
        invariant shifts[state] == start - l
        invariant forall s :: 0 <= s < state ==> shifts[s] == old(shifts[s])
        invariant forall k :: 0 <= k < start ==> checks[k] == old(checks[k]) && compressed[k] == old(compressed[k])
        invariant forall k :: start <= k < maxIndex ==> checks[k] == state && compressed[k] == uncompressed[state, k - shifts[state]]
      {
        compressed[maxIndex] := uncompressed[state, j];
        checks[maxIndex] := state;
        maxIndex := maxIndex + 1;
      }
    }

    /** Appends the row of one state to the compressed table. */
    method CompressRow(state: nat)
      requires Allocated() && state <= maxState && CompressedUpTo(state)
      modifies this`maxIndex, shifts, checks, compressed
      ensures CompressedUpTo(state + 1)
    {
      hide Valid;
      var l, r := RowBounds(state);
      AppendRow(state, l, r);
      forall s, c | 0 <= s < state && 0 <= c < INPUT_RANGE
        ensures Lookup(s, c) == uncompressed[s, c] && Owned(s, c) == old(Owned(s, c))
      {
        assert old(Lookup(s, c)) == uncompressed[s, c];
      }
      forall s, c | 0 <= s <= state && 0 <= c < INPUT_RANGE && Owned(s, c)
        ensures PastFirst(s, c)
      {
        if s < state {
          assert old(Owned(s, c)) && old(PastFirst(s, c));
        } else {
          assert l <= c;
        }
      }
    }

    /** Compresses the table, row after row. */
    method GenerateCompressed()
      requires Represents() && Allocated() && maxIndex == 0
      modifies this`maxIndex, shifts, checks, compressed
      ensures Represents() && Allocated() && CompressedUpTo(maxState + 1)
    {
      for state := 0 to maxState + 1
        invariant CompressedUpTo(state)
      {
        CompressRow(state);
      }
    }

    /** One step of the compressed scan; a mismatch leaves the character unread. */
    method CompressedStep(state: nat, c: ascii, ghost patterns: seq<Word>) returns (next: int, advanced: bool)
      requires Represents() && Allocated() && CompressedUpTo(maxState + 1) && Spells(trie, patterns)
      requires IsState(trie, state)
      ensures next == trie.rows[state][c] && (!advanced ==> next == 0)
      ensures References(patterns) && advanced && trie.paths[state] != [] ==> c > AMPERSAND
    {
      assert Lookup(state, c) == trie.rows[state][c];
      var index := shifts[state] + c;
      if 0 <= index < maxIndex && checks[index] == state {
        if References(patterns) {
          assert Owned(state, c);
          OwnedIsLate(state, c, patterns);
        }
        next, advanced := compressed[index], true;
      } else {
        next, advanced := 0, false;
      }
    }

    /** The same scan on the compressed tables. It stops where the uncompressed scan stops,
        except that it may leave the character nothing matches unread. */
    method ScanCompressed(input: Word, ghost patterns: seq<Word>) returns (state: int, read: nat)
      requires Represents() && Allocated() && CompressedUpTo(maxState + 1) && Spells(trie, patterns)
      ensures read <= |input|
      ensures var (s, n) := RunTable(trie.rows, input, START_STATE, 0);
        (state == s && read == n) || (state == s == 0 && read == n - 1)
      ensures References(patterns) ==> LateText(input, read)
      ensures References(patterns) && input != [] && input[0] == AMPERSAND ==> read > 0
    {
      hide AllRooted, Distinct, EntriesValid, Bare, Spells, Recognised;
      state, read := START_STATE, 0;
      if References(patterns) {
        ReferenceStart(trie, patterns);
      }
      while read < |input| && state > 0
        invariant Tracking(trie, patterns, input, state, read)
        decreases |input| - read, state
      {
        var next, advanced := CompressedStep(state, input[read], patterns);
        TrackStep(trie, patterns, input, state, read, next, advanced);
        state := next;
        if advanced {
          read := read + 1;
        }
      }
    }

    /** A column in the block of a row other than the first lies beyond the ampersand. */
    lemma OwnedIsLate(state: nat, c: ascii, patterns: seq<Word>)
      requires Represents() && Allocated() && CompressedUpTo(maxState + 1) && Spells(trie, patterns)
      requires References(patterns) && IsState(trie, state) && Owned(state, c)
      ensures trie.paths[state] != [] ==> c > AMPERSAND
    {
      assert PastFirst(state, c);
      var l :| 0 <= l <= c && uncompressed[state, l] != 0;
      assert trie.rows[state][l] != 0;
      ReferenceRows(trie, patterns, state, l);
    }
  }

  /** state is where the first k characters of pattern lead; the words of the trie are those
      it had at the start and these prefixes. */
  ghost predicate Reached(t: Trie, start: Trie, pattern: Word, k: nat, state: nat) {
    && k < |pattern|
    && IsState(t, state) && t.paths[state] == pattern[..k]
    && forall w :: IsPath(t, w) <==> IsPath(start, w) || (ProperPrefix(w, pattern) && |w| <= k)
  }

  /** The scan loop over a table: the state reached and the characters read. */
  function RunTable(rows: seq<seq<int>>, input: Word, state: int, read: nat): (int, nat)
    requires read <= |input| && forall s :: 0 <= s < |rows| ==> |rows[s]| == INPUT_RANGE
    decreases |input| - read
  {
    if read < |input| && 0 < state < |rows| then RunTable(rows, input, rows[state][input[read]], read + 1)
    else (state, read)
  }

  /** Beyond its first character the text read has no ampersand. */
  ghost predicate LateText(input: Word, read: nat) {
    forall k :: 0 < k < read <= |input| ==> input[k] > AMPERSAND
  }

  /** Midway through a scan: the state is that of the text read so far, or the scan is over. */
  ghost predicate Scanning(t: Trie, patterns: seq<Word>, input: Word, state: int, read: nat) {
    && read <= |input|
    && (state > 0 ==> IsState(t, state) && t.paths[state] == input[..read])
    && (state <= 0 ==> Recognised(patterns, input, state, read))
    && (forall k :: 0 < k < read ==> Extends(patterns, input[..k]))
  }

  lemma ScanAdvance(t: Trie, patterns: seq<Word>, input: Word, state: nat, read: nat)
    requires Valid(t) && Spells(t, patterns) && Scanning(t, patterns, input, state, read)
    requires state > 0 && read < |input|
    ensures Scanning(t, patterns, input, t.rows[state][input[read]], read + 1)
  {
    assert input[..read] + [input[read]] == input[..read + 1];
    StepMeaning(t, patterns, state, input[read]);
    assert read > 0 ==> IsPath(t, input[..read]);
  }

  /** A compressed scan in step with the uncompressed one. */
  ghost predicate Tracking(t: Trie, patterns: seq<Word>, input: Word, state: int, read: nat)
    requires Shape(t)
  {
    var (s, n) := RunTable(t.rows, input, START_STATE, 0);
    && read <= |input|
    && (state > 0 ==> Scanning(t, patterns, input, state, read) && (s, n) == RunTable(t.rows, input, state, read))
    && (state <= 0 ==> (state == s && read == n) || (state == s == 0 && read == n - 1))
    && (References(patterns) ==> LateText(input, read))
    && (read == 0 && input != [] && t.rows[START_STATE][input[0]] != 0 ==> state == START_STATE)
  }

  lemma TrackStep(t: Trie, patterns: seq<Word>, input: Word, state: nat, read: nat, next: int, advanced: bool)
    requires Valid(t) && Spells(t, patterns) && Tracking(t, patterns, input, state, read)
    requires state > 0 && read < |input|
    requires next == t.rows[state][input[read]] && (!advanced ==> next == 0)
    requires References(patterns) && advanced && t.paths[state] != [] ==> input[read] > AMPERSAND
    ensures Tracking(t, patterns, input, next, if advanced then read + 1 else read)
  {
    hide AllRooted, Distinct, EntriesValid, Bare, Spells, Recognised;
    ScanAdvance(t, patterns, input, state, read);
    assert RunTable(t.rows, input, state, read) == RunTable(t.rows, input, next, read + 1);
  }

  lemma ScanDone(t: Trie, patterns: seq<Word>, input: Word, state: int, read: nat)
    requires Valid(t) && Spells(t, patterns) && Scanning(t, patterns, input, state, read)
    requires read == |input| || state <= 0
    ensures Recognised(patterns, input, state, read)
  {
    if state > 0 {
      assert input[..read] == input && IsPath(t, input);
    }
  }

  /** What one table entry says about the word it stands for. */
  lemma StepMeaning(t: Trie, patterns: seq<Word>, s: nat, c: ascii)
    requires Valid(t) && Spells(t, patterns) && IsState(t, s)
    ensures
      var n, w := t.rows[s][c], t.paths[s] + [c];
      && (n > 0 ==> IsState(t, n) && t.paths[n] == w)
      && (n < 0 ==> w in patterns && LastIndex(patterns, w) == -n)
      && (n == 0 ==> w !in patterns && !Extends(patterns, w))
  {
    assert EntryValid(t, s, c);
  }

  /** Stepping to a known state adds no word. */
  lemma WalkKnown(t: Trie, u: Trie, pattern: Word, k: nat)
    requires k + 1 < |pattern| && IsPath(u, pattern[..k + 1])
    requires forall w :: IsPath(u, w) <==> IsPath(t, w) || (ProperPrefix(w, pattern) && |w| <= k)
    ensures forall w :: IsPath(u, w) <==> IsPath(t, w) || (ProperPrefix(w, pattern) && |w| <= k + 1)
  {
    forall w | ProperPrefix(w, pattern) && |w| == k + 1
      ensures IsPath(u, w)
    {
      assert w == pattern[..k + 1];
    }
  }

  /** A new state adds the prefix it stands for. */
  lemma WalkNew(t: Trie, u: Trie, v: Trie, pattern: Word, k: nat)
    requires k + 1 < |pattern|
    requires forall w :: IsPath(u, w) <==> IsPath(t, w) || (ProperPrefix(w, pattern) && |w| <= k)
    requires forall w :: IsPath(v, w) <==> IsPath(u, w) || w == pattern[..k + 1]
    ensures forall w :: IsPath(v, w) <==> IsPath(t, w) || (ProperPrefix(w, pattern) && |w| <= k + 1)
  {
    forall w | ProperPrefix(w, pattern) && |w| == k + 1
      ensures w == pattern[..k + 1]
    {
    }
  }

  lemma EarlierPrefixes(patterns: seq<Word>, i: nat)
    requires i < |patterns| && NoEarlierPrefix(patterns)
    ensures NoEarlierPrefix(patterns[..i + 1])
  {
  }

  lemma TooManyWords(t: Trie, u: Trie, patterns: seq<Word>, p: Word, rest: seq<Word>)
    requires Valid(u) && Spells(t, patterns)
    requires forall w :: IsPath(u, w) ==> IsPath(t, w) || ProperPrefix(w, p)
    ensures |u.paths| - 1 <= |TrieWords(patterns + [p] + rest)|
  {
    ExtendsLast(patterns, p);
    StateBound(u, patterns + [p]);
    TrieWordsGrow(patterns + [p], rest);
  }

  lemma PrefixFreeEmpty(patterns: seq<Word>)
    requires PrefixFree(patterns)
    ensures PrefixFree(patterns + [[]])
  {
    ExtendsLast(patterns, []);
  }

  /** A pattern added without complaint is neither inside an earlier one nor past it. */
  lemma SpelledIsPrefixFree(t: Trie, u: Trie, patterns: seq<Word>, p: Word)
    requires PrefixFree(patterns) && Valid(u) && Spells(t, patterns) && Spells(u, patterns + [p]) && p != []
    ensures PrefixFree(patterns + [p])
  {
    var all := patterns + [p];
    forall q | q in all && q != []
      ensures !Extends(all, q)
    {
      EndIsNoPath(u, q);
    }
  }

  /** No word is both an end and a state. */
  lemma EndIsNoPath(t: Trie, w: Word)
    requires Valid(t) && w in t.ends
    ensures !IsPath(t, w)
  {
    assert Rooted(t, w);
    var s :| IsState(t, s) && t.paths[s] == w[..|w| - 1];
    EntryEnd(t, s, w[|w| - 1], w);
  }

  lemma EntryEnd(t: Trie, s: nat, c: ascii, w: Word)
    requires Shape(t) && EntriesValid(t) && IsState(t, s) && w in t.ends
    requires w != [] && t.paths[s] == w[..|w| - 1] && c == w[|w| - 1]
    ensures !IsPath(t, w)
  {
    assert w == t.paths[s] + [c];
    assert EntryValid(t, s, c);
  }
}
