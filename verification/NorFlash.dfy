// NOR flash: erasing sets bytes to 0xFF, programming can only clear bits.
module NorFlash {
  import opened Bytes

  const ERASED: byte := 0xFF

  // Bitwise and of two bytes.
  function And(a: byte, b: byte): (r: byte)
    ensures r <= a && r <= b
  {
    AndBits(a, b, 8)
  }

  function AndBits(a: nat, b: nat, bits: nat): (r: nat)
    ensures r <= a && r <= b
    decreases bits
  {
    if bits == 0 then 0
    else 2 * AndBits(a / 2, b / 2, bits - 1) + (if a % 2 == 1 && b % 2 == 1 then 1 else 0)
  }

  function Ones(bits: nat): nat {
    if bits == 0 then 0 else 2 * Ones(bits - 1) + 1
  }

  lemma {:induction false} AndOnes(b: nat, bits: nat)
    requires b <= Ones(bits)
    ensures AndBits(Ones(bits), b, bits) == b
  {
    if bits > 0 {
      AndOnes(b / 2, bits - 1);
    }
  }

  lemma {:induction false} AndBitsAt(a: nat, b: nat, bits: nat, j: nat)
    requires j < bits
    ensures BitOf(AndBits(a, b, bits), j) == 1 <==> BitOf(a, j) == 1 && BitOf(b, j) == 1
    decreases bits
  {
    var r, low := AndBits(a / 2, b / 2, bits - 1), if a % 2 == 1 && b % 2 == 1 then 1 else 0;
    assert AndBits(a, b, bits) == 2 * r + low && (2 * r + low) / 2 == r && (2 * r + low) % 2 == low;
    if j > 0 {
      AndBitsAt(a / 2, b / 2, bits - 1, j - 1);
      hide AndBits;
    }
  }

  // Programming clears exactly the bits that are clear in the data.
  lemma AndBitwise(a: byte, b: byte, j: nat)
    requires j < 8
    ensures BitOf(And(a, b), j) == 1 <==> BitOf(a, j) == 1 && BitOf(b, j) == 1
  {
    AndBitsAt(a, b, 8, j);
  }

  // An erased byte takes any value.
  lemma AndErased(b: byte)
    ensures And(ERASED, b) == b
  {
    assert Ones(8) == 255 by {
      assert Ones(2) == 3 && Ones(4) == 15 && Ones(6) == 63;
    }
    AndOnes(b, 8);
  }

  function AllErased(n: nat): (s: seq<byte>)
    ensures |s| == n
  {
    seq(n, i => ERASED)
  }

  // The flash after programming `data` at p.
  function Programmed(mem: seq<byte>, p: nat, data: seq<byte>): (m: seq<byte>)
    requires p + |data| <= |mem|
    ensures |m| == |mem|
  {
    Splice(mem, p, seq(|data|, i requires 0 <= i < |data| => And(mem[p + i], data[i])))
  }

  // Programming an erased region writes the data as it is.
  lemma ProgramErased(mem: seq<byte>, p: nat, data: seq<byte>)
    requires p + |data| <= |mem| && forall i :: p <= i < p + |data| ==> mem[i] == ERASED
    ensures Programmed(mem, p, data) == Splice(mem, p, data)
  {
    forall i | 0 <= i < |data|
      ensures And(mem[p + i], data[i]) == data[i]
    {
      AndErased(data[i]);
    }
    assert seq(|data|, i requires 0 <= i < |data| => And(mem[p + i], data[i])) == data;
  }

  lemma ProgrammedIs(mem: seq<byte>, p: nat, data: seq<byte>, m: seq<byte>)
    requires p + |data| <= |mem| == |m|
    requires forall i :: 0 <= i < |data| ==> m[p + i] == And(mem[p + i], data[i])
    requires forall i :: 0 <= i < p || p + |data| <= i < |mem| ==> m[i] == mem[i]
    ensures m == Programmed(mem, p, data)
  {
    hide And;
    var s := seq(|data|, i requires 0 <= i < |data| => And(mem[p + i], data[i]));
    assert m[p..p + |data|] == s;
    assert m == m[..p] + m[p..p + |data|] + m[p + |data|..];
    assert m[..p] == mem[..p] && m[p + |data|..] == mem[p + |data|..];
  }
}
