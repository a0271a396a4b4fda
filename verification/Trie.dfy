/** Pattern lists and the trie they spell out, the meaning behind the generated scanner tables
    of entities_scanner_generator.cpp. A state stands for the word that leads to it, and the words of a table
    are the proper prefixes of its patterns; the lemmas say how a new state or a new end changes both, and
    what a list that is free of prefixes makes of them. */
module Trie {

  /** The characters of a C string of ASCII text. */
  type ascii = c: int | 1 <= c < 128 witness 65

  type Word = seq<ascii>

  const INPUT_RANGE: nat := 256
  const START_STATE: nat := 1

  // ----- What a pattern list means -----

  ghost predicate ProperPrefix(v: Word, w: Word) {
    |v| < |w| && w[..|v|] == v
  }

  /** The number of the last pattern equal to w, counting from one, or zero. */
  ghost function LastIndex(patterns: seq<Word>, w: Word): (i: nat)
    ensures i <= |patterns|
    ensures i > 0 ==> patterns[i - 1] == w && forall j :: i <= j < |patterns| ==> patterns[j] != w
    ensures i == 0 ==> w !in patterns
  {
    if |patterns| == 0 then 0
    else if patterns[|patterns| - 1] == w then |patterns|
    else LastIndex(patterns[..|patterns| - 1], w)
  }

  /** Some pattern goes on past w. */
  ghost predicate Extends(patterns: seq<Word>, w: Word) {
    exists p :: p in patterns && ProperPrefix(w, p)
  }

  /** No pattern is a proper prefix of another; empty patterns do not matter. */
  ghost predicate PrefixFree(patterns: seq<Word>) {
    forall p :: p in patterns && p != [] ==> !Extends(patterns, p)
  }

  /** No pattern is a proper prefix of one listed after it. */
  ghost predicate NoEarlierPrefix(patterns: seq<Word>) {
    forall i, j :: 0 <= i < j < |patterns| && patterns[i] != [] ==> !ProperPrefix(patterns[i], patterns[j])
  }

  lemma PrefixFreeHasNone(patterns: seq<Word>)
    requires PrefixFree(patterns)
    ensures NoEarlierPrefix(patterns)
  {
    forall i, j | 0 <= i < j < |patterns| && patterns[i] != []
      ensures !ProperPrefix(patterns[i], patterns[j])
    {
      assert patterns[i] in patterns && patterns[j] in patterns && !Extends(patterns, patterns[i]);
    }
  }

  // ----- The trie as a value -----

  /** rows[s][c] is the next state, or minus the number of the pattern that ends there;
      paths[s] is the word that leads to state s; ends gives the number of every word added. */
  datatype Trie = Trie(rows: seq<seq<int>>, paths: seq<Word>, ends: map<Word, nat>)

  ghost predicate Shape(t: Trie) {
    && |t.rows| == |t.paths| > START_STATE
    && t.paths[START_STATE] == []
    && forall s :: 0 <= s < |t.rows| ==> |t.rows[s]| == INPUT_RANGE
  }

  ghost predicate IsState(t: Trie, s: int) {
    START_STATE <= s < |t.paths|
  }

  /** w is the word of some state. */
  ghost predicate IsPath(t: Trie, w: Word) {
    exists s :: IsState(t, s) && t.paths[s] == w
  }

  /** w hangs off the state of its word less one character. */
  ghost predicate Rooted(t: Trie, w: Word) {
    w != [] && IsPath(t, w[..|w| - 1])
  }

  ghost predicate EntryValid(t: Trie, s: int, c: ascii)
    requires Shape(t) && IsState(t, s)
  {
    var n, w := t.rows[s][c], t.paths[s] + [c];
    && (n > 0 ==> IsState(t, n) && t.paths[n] == w && w !in t.ends)
    && (n < 0 ==> w in t.ends && t.ends[w] == -n && !IsPath(t, w))
    && (n == 0 ==> w !in t.ends && !IsPath(t, w))
  }

  /** No entry but those for text characters in the rows of states. */
  ghost predicate Bare(t: Trie)
    requires Shape(t)
  {
    && (forall c :: 0 <= c < INPUT_RANGE ==> t.rows[0][c] == 0)
    && (forall s, c :: IsState(t, s) && 128 <= c < INPUT_RANGE ==> t.rows[s][c] == 0)
    && (forall s :: IsState(t, s) ==> t.rows[s][0] == 0)
  }

  ghost predicate Distinct(t: Trie) {
    forall r, s :: IsState(t, r) && IsState(t, s) && t.paths[r] == t.paths[s] ==> r == s
  }

  ghost predicate AllRooted(t: Trie) {
    && (forall s {:trigger Rooted(t, t.paths[s])} :: IsState(t, s) && s != START_STATE ==> Rooted(t, t.paths[s]))
    && (forall w {:trigger Rooted(t, w)} {:trigger t.ends[w]} :: w in t.ends ==> Rooted(t, w) && t.ends[w] > 0)
  }

  ghost predicate EntriesValid(t: Trie)
    requires Shape(t)
  {
    forall s, c: ascii :: IsState(t, s) ==> EntryValid(t, s, c)
  }

  ghost predicate Valid(t: Trie) {
    Shape(t) && Bare(t) && Distinct(t) && AllRooted(t) && EntriesValid(t)
  }

  ghost function ZeroRow(): (r: seq<int>)
    ensures |r| == INPUT_RANGE && forall c :: 0 <= c < INPUT_RANGE ==> r[c] == 0
  {
    seq(INPUT_RANGE, _ => 0)
  }

  ghost function EmptyTrie(): Trie {
    Trie([ZeroRow(), ZeroRow()], [[], []], map[])
  }

  ghost function SetEntry(rows: seq<seq<int>>, s: nat, c: ascii, n: int): (r: seq<seq<int>>)
    requires s < |rows| && |rows[s]| == INPUT_RANGE
    ensures |r| == |rows| && r[s] == rows[s][c := n]
    ensures forall k :: 0 <= k < |rows| && k != s ==> r[k] == rows[k]
  {
    rows[s := rows[s][c := n]]
  }

  /** A new state for the word of s and c. */
  ghost function AddState(t: Trie, s: nat, c: ascii): Trie
    requires Shape(t) && IsState(t, s)
  {
    Trie(SetEntry(t.rows, s, c, |t.rows|) + [ZeroRow()], t.paths + [t.paths[s] + [c]], t.ends)
  }

  /** Pattern number n ends at the word of s and c. */
  ghost function AddEnd(t: Trie, s: nat, c: ascii, n: nat): Trie
    requires Shape(t) && IsState(t, s)
  {
    Trie(SetEntry(t.rows, s, c, -(n as int)), t.paths, t.ends[t.paths[s] + [c] := n])
  }

  lemma EmptyTrieValid()
    ensures Valid(EmptyTrie())
  {
    var t := EmptyTrie();
    forall s, c: ascii | IsState(t, s)
      ensures EntryValid(t, s, c)
    {
      assert |t.paths[s] + [c]| == 1;
    }
  }

  /** A word determines the state and character it is reached by. */
  lemma WordSplits(t: Trie, r: nat, s: nat, a: ascii, b: ascii)
    requires Valid(t) && IsState(t, r) && IsState(t, s) && t.paths[r] + [a] == t.paths[s] + [b]
    ensures r == s && a == b
  {
    var v, w := t.paths[r] + [a], t.paths[s] + [b];
    assert a == v[|v| - 1] && b == w[|w| - 1];
    assert t.paths[r] == v[..|v| - 1] && t.paths[s] == w[..|w| - 1];
  }

  lemma PathsGrow(t: Trie, u: Trie, x: Word)
    requires u.paths == t.paths + [x] && |t.paths| > START_STATE
    ensures forall w :: IsPath(u, w) <==> IsPath(t, w) || w == x
    ensures forall w :: Rooted(t, w) ==> Rooted(u, w)
  {
    assert IsState(u, |t.paths|) && u.paths[|t.paths|] == x;
    forall w | IsPath(t, w)
      ensures IsPath(u, w)
    {
      var s :| IsState(t, s) && t.paths[s] == w;
      assert IsState(u, s) && u.paths[s] == w;
    }
    forall w | IsPath(u, w)
      ensures IsPath(t, w) || w == x
    {
      var s :| IsState(u, s) && u.paths[s] == w;
      if s < |t.paths| {
        assert IsState(t, s) && t.paths[s] == w;
      }
    }
  }

  lemma PathIsRooted(t: Trie, w: Word)
    requires Valid(t) && IsPath(t, w) && w != []
    ensures Rooted(t, w)
  {
    var k :| IsState(t, k) && t.paths[k] == w;
  }

  lemma AddStateEntry(t: Trie, s: nat, c: ascii, r: nat, a: ascii)
    requires Valid(t) && IsState(t, s) && t.rows[s][c] == 0
    requires Shape(AddState(t, s, c)) && IsState(AddState(t, s, c), r)
    ensures EntryValid(AddState(t, s, c), r, a)
  {
    var u, x := AddState(t, s, c), t.paths[s] + [c];
    PathsGrow(t, u, x);
    assert EntryValid(t, s, c);
    if r < |t.paths| {
      assert EntryValid(t, r, a);
      if t.paths[r] + [a] == x {
        WordSplits(t, r, s, a, c);
      } else {
        assert u.rows[r][a] == t.rows[r][a];
      }
    } else {
      var w := x + [a];
      assert u.rows[r][a] == 0;
      assert w[..|w| - 1] == x && |w| > |x|;
      if IsPath(t, w) {
        PathIsRooted(t, w);
        assert false;
      }
    }
  }

  lemma AddStatePaths(t: Trie, s: nat, c: ascii)
    requires Valid(t) && IsState(t, s) && t.rows[s][c] == 0
    ensures Distinct(AddState(t, s, c)) && AllRooted(AddState(t, s, c))
  {
    var u, x := AddState(t, s, c), t.paths[s] + [c];
    PathsGrow(t, u, x);
    assert EntryValid(t, s, c);
    assert x[..|x| - 1] == t.paths[s] && Rooted(u, x);
    assert forall k :: IsState(t, k) ==> t.paths[k] != x;
    forall r, k | IsState(u, r) && IsState(u, k) && u.paths[r] == u.paths[k]
      ensures r == k
    {
      assert r < |t.paths| ==> IsState(t, r);
      assert k < |t.paths| ==> IsState(t, k);
    }
    forall r | IsState(u, r) && r != START_STATE
      ensures Rooted(u, u.paths[r])
    {
      if r < |t.paths| {
        assert IsState(t, r) && Rooted(t, t.paths[r]);
      }
    }
  }

  lemma AddStateValid(t: Trie, s: nat, c: ascii)
    requires Valid(t) && IsState(t, s) && t.rows[s][c] == 0
    ensures Valid(AddState(t, s, c))
  {
    var u := AddState(t, s, c);
    assert Shape(u);
    AddStatePaths(t, s, c);
    forall r, a: ascii | IsState(u, r)
      ensures EntryValid(u, r, a)
    {
      AddStateEntry(t, s, c, r, a);
    }
    AddStateBare(t, s, c);
  }

  lemma AddStateBare(t: Trie, s: nat, c: ascii)
    requires Valid(t) && IsState(t, s) && Shape(AddState(t, s, c))
    ensures Bare(AddState(t, s, c))
  {
    var u := AddState(t, s, c);
    forall r, a | IsState(u, r) && (a == 0 || 128 <= a < INPUT_RANGE)
      ensures u.rows[r][a] == 0
    {
      if r < |t.paths| {
        assert IsState(t, r) && t.rows[r][a] == 0;
      }
    }
  }

  lemma AddEndEntry(t: Trie, s: nat, c: ascii, n: nat, r: nat, a: ascii)
    requires Valid(t) && IsState(t, s) && t.rows[s][c] <= 0 && n > 0
    requires Shape(AddEnd(t, s, c, n)) && IsState(AddEnd(t, s, c, n), r)
    ensures EntryValid(AddEnd(t, s, c, n), r, a)
  {
    var u, x := AddEnd(t, s, c, n), t.paths[s] + [c];
    SamePaths(t, u);
    assert IsState(t, r) && EntryValid(t, s, c) && EntryValid(t, r, a);
    if t.paths[r] + [a] == x {
      WordSplits(t, r, s, a, c);
    } else {
      assert u.rows[r][a] == t.rows[r][a];
    }
  }

  lemma AddEndValid(t: Trie, s: nat, c: ascii, n: nat)
    requires Valid(t) && IsState(t, s) && t.rows[s][c] <= 0 && n > 0
    ensures Valid(AddEnd(t, s, c, n))
  {
    var u, x := AddEnd(t, s, c, n), t.paths[s] + [c];
    assert Shape(u);
    SamePaths(t, u);
    assert x[..|x| - 1] == t.paths[s];
    forall r, a: ascii | IsState(u, r)
      ensures EntryValid(u, r, a)
    {
      AddEndEntry(t, s, c, n, r, a);
    }
    assert forall r :: IsState(u, r) <==> IsState(t, r);
    assert AllRooted(u) by {
      forall w
        ensures Rooted(u, w) <==> Rooted(t, w)
      {
      }
      assert Rooted(t, x);
    }
  }

  lemma SamePaths(t: Trie, u: Trie)
    requires t.paths == u.paths
    ensures forall w :: IsPath(u, w) <==> IsPath(t, w)
  {
    assert forall s :: IsState(u, s) <==> IsState(t, s);
  }

  // ----- A trie against the pattern list it was built from -----

  /** The states a trie over the patterns needs: its start and one for every proper prefix. */
  ghost function TrieWords(patterns: seq<Word>): (s: set<Word>)
    ensures forall w :: w in s <==> w == [] || Extends(patterns, w)
  {
    if |patterns| == 0 then {[]}
    else
      var n := |patterns| - 1;
      ExtendsLast(patterns[..n], patterns[n]);
      assert patterns == patterns[..n] + [patterns[n]];
      TrieWords(patterns[..n]) + (set k | 0 <= k < |patterns[n]| :: patterns[n][..k])
  }

  lemma ExtendsLast(patterns: seq<Word>, p: Word)
    ensures forall w :: Extends(patterns + [p], w) <==> Extends(patterns, w) || ProperPrefix(w, p)
    ensures forall w :: ProperPrefix(w, p) <==> w in (set k | 0 <= k < |p| :: p[..k])
  {
    var all := patterns + [p];
    assert forall q :: q in all <==> q in patterns || q == p;
    forall w
      ensures Extends(all, w) <==> Extends(patterns, w) || ProperPrefix(w, p)
    {
      if ProperPrefix(w, p) {
        assert p in all;
      }
    }
    forall w | ProperPrefix(w, p)
      ensures w in (set k | 0 <= k < |p| :: p[..k])
    {
      assert w == p[..|w|];
    }
  }

  /** The trie's states and ends are exactly those the patterns call for. */
  ghost predicate Spells(t: Trie, patterns: seq<Word>) {
    && (forall w :: IsPath(t, w) <==> w == [] || Extends(patterns, w))
    && (forall w :: w in t.ends <==> w != [] && w in patterns)
    && (forall w :: w in t.ends ==> t.ends[w] == LastIndex(patterns, w))
  }

  lemma EmptyTrieSpells()
    ensures Spells(EmptyTrie(), [])
  {
    assert IsState(EmptyTrie(), 1);
  }

  /** t, extended along the whole of p and ended there as pattern n, spells the longer list. */
  lemma SpellsNext(t: Trie, u: Trie, patterns: seq<Word>, p: Word)
    requires Spells(t, patterns) && p != []
    requires forall w :: IsPath(u, w) <==> IsPath(t, w) || ProperPrefix(w, p)
    requires u.ends == t.ends[p := |patterns| + 1]
    ensures Spells(u, patterns + [p])
  {
    ExtendsLast(patterns, p);
    LastIndexNext(patterns, p);
  }

  lemma LastIndexNext(patterns: seq<Word>, p: Word)
    ensures forall w :: LastIndex(patterns + [p], w) == if w == p then |patterns| + 1 else LastIndex(patterns, w)
  {
    var all := patterns + [p];
    assert all[..|all| - 1] == patterns;
  }

  /** An empty pattern leaves the trie alone. */
  lemma SpellsEmpty(t: Trie, patterns: seq<Word>)
    requires Spells(t, patterns)
    ensures Spells(t, patterns + [[]])
  {
    ExtendsLast(patterns, []);
    LastIndexNext(patterns, []);
  }

  /** Earlier patterns do not end on the way through a new one. */
  lemma NoEndInside(t: Trie, patterns: seq<Word>, p: Word)
    requires Spells(t, patterns) && NoEarlierPrefix(patterns + [p])
    ensures forall w :: ProperPrefix(w, p) ==> w !in t.ends
  {
    var all := patterns + [p];
    forall i | 0 <= i < |patterns| && patterns[i] != []
      ensures !ProperPrefix(patterns[i], p)
    {
      assert all[i] == patterns[i] && all[|patterns|] == p;
    }
  }

  /** If a later pattern is the word of a state, it is a proper prefix of an earlier one. */
  lemma NotPrefixFree(t: Trie, patterns: seq<Word>, p: Word, rest: seq<Word>)
    requires Spells(t, patterns) && p != [] && IsPath(t, p)
    ensures !PrefixFree(patterns + [p] + rest)
  {
    var q :| q in patterns && ProperPrefix(p, q);
    var all := patterns + [p] + rest;
    assert q in all && p in all;
  }

  lemma {:induction false} DistinctCount(words: seq<Word>)
    requires forall i, j :: 0 <= i < j < |words| ==> words[i] != words[j]
    ensures |set w | w in words| == |words|
  {
    var all := set w | w in words;
    if |words| == 0 {
      assert all == {};
    } else {
      var n := |words| - 1;
      DistinctCount(words[..n]);
      var front := set w | w in words[..n];
      assert all == front + {words[n]} && words[n] !in front;
    }
  }

  /** A valid trie has one state for every word, so as many as the patterns need. */
  lemma StateCount(t: Trie, patterns: seq<Word>)
    requires Valid(t) && Spells(t, patterns)
    ensures |t.paths| - 1 == |TrieWords(patterns)|
  {
    var words := t.paths[1..];
    forall i, j | 0 <= i < j < |words|
      ensures words[i] != words[j]
    {
      assert IsState(t, i + 1) && IsState(t, j + 1);
    }
    DistinctCount(words);
    forall w
      ensures w in words <==> IsPath(t, w)
    {
      if w in words {
        var i :| 0 <= i < |words| && words[i] == w;
        assert IsState(t, i + 1);
      }
      if IsPath(t, w) {
        var s :| IsState(t, s) && t.paths[s] == w;
        assert words[s - 1] == w;
      }
    }
    assert (set w | w in words) == TrieWords(patterns);
  }

  /** A trie whose words are all needed has no more states than the patterns need. */
  lemma StateBound(t: Trie, patterns: seq<Word>)
    requires Valid(t) && forall w :: IsPath(t, w) ==> w in TrieWords(patterns)
    ensures |t.paths| - 1 <= |TrieWords(patterns)|
  {
    var words := t.paths[1..];
    forall i, j | 0 <= i < j < |words|
      ensures words[i] != words[j]
    {
      assert IsState(t, i + 1) && IsState(t, j + 1);
    }
    DistinctCount(words);
    var all := set w | w in words;
    forall w | w in all
      ensures w in TrieWords(patterns)
    {
      var i :| 0 <= i < |words| && words[i] == w;
      assert IsState(t, i + 1);
    }
    SubsetCount(all, TrieWords(patterns));
  }

  lemma {:induction false} SubsetCount(a: set<Word>, b: set<Word>)
    requires a <= b
    ensures |a| <= |b|
  {
    assert b == a + (b - a);
  }

  /** A longer list needs at least as many states. */
  lemma TrieWordsGrow(patterns: seq<Word>, rest: seq<Word>)
    ensures TrieWords(patterns) <= TrieWords(patterns + rest)
    ensures |TrieWords(patterns)| <= |TrieWords(patterns + rest)|
  {
    assert forall w :: Extends(patterns, w) ==> Extends(patterns + rest, w) by {
      forall w | Extends(patterns, w)
        ensures Extends(patterns + rest, w)
      {
        var p :| p in patterns && ProperPrefix(w, p);
        assert p in patterns + rest;
      }
    }
    SubsetCount(TrieWords(patterns), TrieWords(patterns + rest));
  }

  // ----- Pattern lists of character references -----

  const AMPERSAND: ascii := 38

  /** Every pattern is an ampersand followed by characters after it in the alphabet, as the
      names and the final semicolon of the entities are. */
  ghost predicate References(patterns: seq<Word>) {
    && patterns != []
    && forall p :: p in patterns ==> IsReference(p)
  }

  ghost predicate IsReference(p: Word) {
    |p| >= 2 && p[0] == AMPERSAND && forall k :: 1 <= k < |p| ==> p[k] > AMPERSAND
  }

  /** Only the start state moves on an ampersand, and no other state on anything up to it. */
  lemma ReferenceRows(t: Trie, patterns: seq<Word>, s: nat, c: ascii)
    requires Valid(t) && Spells(t, patterns) && References(patterns) && IsState(t, s) && t.rows[s][c] != 0
    ensures if t.paths[s] == [] then c == AMPERSAND else c > AMPERSAND
  {
    var w := t.paths[s] + [c];
    assert EntryValid(t, s, c);
    assert w in patterns || Extends(patterns, w);
    var p :| p in patterns && w <= p;
    assert p[|w| - 1] == c && IsReference(p);
  }

  lemma ReferenceStart(t: Trie, patterns: seq<Word>)
    requires Valid(t) && Spells(t, patterns) && References(patterns)
    ensures t.rows[START_STATE][AMPERSAND] > 0
  {
    var p := patterns[0];
    assert p in patterns && IsReference(p);
    FirstStep(t, patterns, p);
  }

  lemma FirstStep(t: Trie, patterns: seq<Word>, p: Word)
    requires Shape(t) && EntriesValid(t) && Spells(t, patterns) && p in patterns && |p| >= 2
    ensures t.rows[START_STATE][p[0]] > 0
  {
    var w := p[..1];
    assert ProperPrefix(w, p);
    assert Extends(patterns, w) && IsPath(t, w);
    assert t.paths[START_STATE] + [p[0]] == w;
    assert EntryValid(t, START_STATE, p[0]);
  }
}
