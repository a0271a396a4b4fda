/** The message schedules of crypto/src/sha.cpp, kept in a window of 17 words instead of in full. */
module MessageSchedule {

  /** Word t of the schedule: of the block itself, and then of the 16 words before it. */
  function Word<W>(g: seq<W> -> W, m: seq<W>, t: nat): W
    requires |m| == 16
    decreases t, 1
  {
    if t < 16 then m[t] else g(Previous(g, m, t))
  }

  function Previous<W>(g: seq<W> -> W, m: seq<W>, t: nat): (w: seq<W>)
    requires |m| == 16 && t >= 16
    ensures |w| == 16
    decreases t, 0
  {
    seq(16, i requires 0 <= i < 16 => Word(g, m, t - 16 + i))
  }

  /** The sixteen words before word t, or those of the block. */
  function Window<W>(g: seq<W> -> W, m: seq<W>, t: nat): (w: seq<W>)
    requires |m| == 16
    ensures |w| == 16
  {
    if t < 16 then m else Previous(g, m, t)
  }

  lemma FirstWindow<W>(g: seq<W> -> W, m: seq<W>, t: nat)
    requires |m| == 16 && t <= 16
    ensures Window(g, m, t) == m
  {
    if t == 16 {
      assert forall i :: 0 <= i < 16 ==> Previous(g, m, t)[i] == Word(g, m, i) == m[i];
    }
  }

  lemma NextWindow<W>(g: seq<W> -> W, m: seq<W>, t: nat)
    requires |m| == 16 && t >= 16
    ensures g(Window(g, m, t)) == Word(g, m, t)
    ensures Window(g, m, t + 1) == Window(g, m, t)[1..] + [Word(g, m, t)]
  {
    hide Word;
    WordFromPrevious(g, m, t);
    var before, after := Previous(g, m, t), Previous(g, m, t + 1);
    forall i | 0 <= i < 16
      ensures after[i] == if i < 15 then before[i + 1] else Word(g, m, t)
    {
    }
    assert after == before[1..] + [Word(g, m, t)];
  }

  lemma WordFromPrevious<W>(g: seq<W> -> W, m: seq<W>, t: nat)
    requires |m| == 16 && t >= 16
    ensures Word(g, m, t) == g(Previous(g, m, t))
  {
  }

  /** Word t from the window, which moves on once the words of the block are used up. */
  method NextWord<W>(w: array<W>, g: seq<W> -> W, ghost m: seq<W>, t: nat) returns (word: W)
    requires w.Length == 17 && |m| == 16 && w[..16] == Window(g, m, t)
    modifies w
    ensures word == Word(g, m, t) && w[..16] == Window(g, m, t + 1)
  {
    hide Word;
    if t <= 15 {
      FirstWindow(g, m, t);
      FirstWindow(g, m, t + 1);
      BlockWord(g, m, t);
      word := w[t];
    } else {
      NextWindow(g, m, t);
      hide Window;
      w[16] := g(w[..16]);
      word := w[16];
      ghost var s := w[..];
      for i := 0 to 16
        invariant w.Length == 17 && s[16] == w[16]
        invariant forall k :: 0 <= k < i ==> w[k] == s[k + 1]
        invariant forall k :: i <= k < 17 ==> w[k] == s[k]
      {
        w[i] := w[i + 1];
      }
      assert w[..16] == s[1..16] + [s[16]];
    }
  }

  lemma BlockWord<W>(g: seq<W> -> W, m: seq<W>, t: nat)
    requires |m| == 16 && t < 16
    ensures Word(g, m, t) == m[t]
  {
  }

  /** n rounds, each with its word of the schedule. */
  function Rounds<W, S>(round: (S, nat, W) -> S, g: seq<W> -> W, m: seq<W>, s: S, n: nat): S
    requires |m| == 16
  {
    if n == 0 then s else round(Rounds(round, g, m, s, n - 1), n - 1, Word(g, m, n - 1))
  }

  /** The rounds with the moving window. */
  method Run<W(0), S>(round: (S, nat, W) -> S, g: seq<W> -> W, m: seq<W>, s0: S, n: nat) returns (s: S)
    requires |m| == 16
    ensures s == Rounds(round, g, m, s0, n)
  {
    hide Word, Window;
    var w := new W[17];
    for t := 0 to 16
      invariant w[..t] == m[..t]
    {
      w[t] := m[t];
    }
    assert w[..16] == m;
    FirstWindow(g, m, 0);
    s := s0;
    for t := 0 to n
      invariant w.Length == 17 && w[..16] == Window(g, m, t)
      invariant s == Rounds(round, g, m, s0, t)
    {
      var word := NextWord(w, g, m, t);
      s := round(s, t, word);
    }
  }
}
