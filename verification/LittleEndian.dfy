/** Byte strings read as little-endian numbers. */
module LittleEndian {
  import opened ByteType

  /** Two bytes, low byte first. */
  function Word16(low: byte, high: byte): int {
    low as int + 256 * high as int
  }

  ghost function LeVal(s: seq<byte>): int {
    if |s| == 0 then 0 else s[0] + 256 * LeVal(s[1..])
  }

  lemma {:induction false} LeNonNegative(s: seq<byte>)
    ensures LeVal(s) >= 0
  {
    if |s| != 0 {
      LeNonNegative(s[1..]);
    }
  }

  /** Strings of one length with one value are the same string. */
  lemma {:induction false} LeInjective(s: seq<byte>, t: seq<byte>)
    requires |s| == |t| && LeVal(s) == LeVal(t)
    ensures s == t
  {
    if |s| != 0 {
      assert LeVal(s) % 256 == s[0] && LeVal(t) % 256 == t[0];
      LeInjective(s[1..], t[1..]);
      assert s == [s[0]] + s[1..] && t == [t[0]] + t[1..];
    }
  }
}
