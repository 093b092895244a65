// Bytes, little-endian words and in-place writes, shared by the storage models.
module Bytes {
  type byte = b: int | 0 <= b < 256
  type uint32 = w: int | 0 <= w < 0x1_0000_0000

  function EncodeWord(w: uint32): (s: seq<byte>)
    ensures |s| == 4
  {
    [w % 256, w / 0x100 % 256, w / 0x1_0000 % 256, w / 0x100_0000]
  }

  function DecodeWord(s: seq<byte>): uint32
    requires |s| == 4
  {
    s[0] as int + 0x100 * s[1] as int + 0x1_0000 * s[2] as int + 0x100_0000 * s[3] as int
  }

  lemma WordRoundTrip(w: uint32)
    ensures DecodeWord(EncodeWord(w)) == w
  {
    var a := w / 0x100;
    var b := w / 0x1_0000;
    assert b == a / 0x100;
    assert w / 0x100_0000 == b / 0x100;
  }

  // Binary digit j of a number.
  function BitOf(x: nat, j: nat): nat
    decreases j
  {
    if j == 0 then x % 2 else BitOf(x / 2, j - 1)
  }

  // The four bytes from p on are the number w, lowest byte first.
  predicate WordAt(s: seq<byte>, p: nat, w: int) {
    && p + 4 <= |s|
    && s[p] as int + 0x100 * s[p + 1] as int + 0x1_0000 * s[p + 2] as int + 0x100_0000 * s[p + 3] as int == w
  }

  lemma WordLayout(s: seq<byte>, p: nat, w: uint32)
    requires p + 4 <= |s|
    ensures s[p..p + 4] == EncodeWord(w) ==> WordAt(s, p, w)
    ensures WordAt(s, p, DecodeWord(s[p..p + 4]))
  {
    WordRoundTrip(w);
    if s[p..p + 4] == EncodeWord(w) {
      assert s[p] == s[p..p + 4][0] && s[p + 1] == s[p..p + 4][1];
      assert s[p + 2] == s[p..p + 4][2] && s[p + 3] == s[p..p + 4][3];
    }
  }

  // Overwrites |bytes| bytes of mem from position p on.
  function Splice(mem: seq<byte>, p: nat, bytes: seq<byte>): (m: seq<byte>)
    requires p + |bytes| <= |mem|
    ensures |m| == |mem|
    ensures m[p..p + |bytes|] == bytes
    ensures forall i :: 0 <= i < p || p + |bytes| <= i < |mem| ==> m[i] == mem[i]
  {
    mem[..p] + bytes + mem[p + |bytes|..]
  }
}
