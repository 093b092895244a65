// Circular storage of bytes: the content that starts at a position and wraps at the end.
module CircularBytes {
  import opened Bytes

  // n bytes read circularly from position start.
  function Circular(mem: seq<byte>, start: nat, n: nat): (s: seq<byte>)
    requires start < |mem| && n <= |mem|
    ensures |s| == n
  {
    if start + n <= |mem| then mem[start..start + n] else mem[start..] + mem[..start + n - |mem|]
  }

  function Wrap(size: nat, p: nat): nat {
    if p >= size then p - size else p
  }

  // The storage after copying `item` to position w, in two pieces if the tail is too short.
  function WriteAt(mem: seq<byte>, w: nat, item: seq<byte>): (m: seq<byte>)
    requires w < |mem| && |item| <= |mem|
    ensures |m| == |mem|
  {
    var rem := |mem| - w;
    if rem < |item| then Splice(Splice(mem, w, item[..rem]), 0, item[rem..]) else Splice(mem, w, item)
  }

  lemma CircularAt(mem: seq<byte>, start: nat, n: nat, i: nat)
    requires start < |mem| && i < n <= |mem|
    ensures Wrap(|mem|, start + i) < |mem| && Circular(mem, start, n)[i] == mem[Wrap(|mem|, start + i)]
  {
  }

  lemma WriteAtAt(mem: seq<byte>, w: nat, item: seq<byte>, p: nat)
    requires w < |mem| && |item| <= |mem| && p < |mem|
    ensures WriteAt(mem, w, item)[p] ==
      if w <= p < w + |item| then item[p - w]
      else if p + |mem| < w + |item| then item[p + |mem| - w]
      else mem[p]
  {
  }

  // Writing just behind n bytes of content appends to it; its first k bytes stay as they were.
  lemma WriteAppends(mem: seq<byte>, start: nat, n: nat, item: seq<byte>, k: nat)
    requires start < |mem| && n + |item| <= |mem| && Wrap(|mem|, start + n) < |mem| && k <= n
    ensures Circular(WriteAt(mem, Wrap(|mem|, start + n), item), start, n + |item|) == Circular(mem, start, n) + item
    ensures Circular(WriteAt(mem, Wrap(|mem|, start + n), item), start, k) == Circular(mem, start, k)
  {
    hide WriteAt, Circular;
    var w := Wrap(|mem|, start + n);
    var m := WriteAt(mem, w, item);
    var a, b := Circular(m, start, n + |item|), Circular(mem, start, n) + item;
    forall i | 0 <= i < n + |item|
      ensures a[i] == b[i]
    {
      CircularAt(m, start, n + |item|, i);
      WriteAtAt(mem, w, item, Wrap(|mem|, start + i));
      if i < n {
        CircularAt(mem, start, n, i);
      }
    }
    forall i | 0 <= i < k
      ensures Circular(m, start, k)[i] == Circular(mem, start, k)[i]
    {
      CircularAt(m, start, k, i);
      CircularAt(mem, start, k, i);
      WriteAtAt(mem, w, item, Wrap(|mem|, start + i));
    }
  }

  lemma CircularPiece(mem: seq<byte>, start: nat, n: nat)
    requires start < |mem| && start + n <= |mem|
    ensures Circular(mem, start, n) == mem[start..start + n]
  {
  }

  lemma CircularNone(mem: seq<byte>, start: nat)
    requires start < |mem|
    ensures Circular(mem, start, 0) == []
  {
  }

  lemma CircularSplit(mem: seq<byte>, start: nat, n: nat, k: nat)
    requires start < |mem| && k <= n <= |mem|
    ensures Wrap(|mem|, start + k) < |mem|
    ensures Circular(mem, start, n) == Circular(mem, start, k) + Circular(mem, Wrap(|mem|, start + k), n - k)
  {
  }
}
