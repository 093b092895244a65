// WebSocket framing on top of a byte connection (RFC 6455, sections 5.2 and 5.3): building and
// parsing frame headers, masking in place, and reading payloads piece by piece.
module WsFrame {
  import opened Bytes

  // ---------- masking ----------

  // Bitwise exclusive or.
  function Xor(a: byte, b: byte): byte {
    EightBits();
    XorBits(a, b, 8)
  }

  lemma EightBits()
    ensures Bound(8) == 256
  {
    assert Bound(2) == 4 && Bound(4) == 16 && Bound(6) == 64;
  }

  function Bound(bits: nat): nat {
    if bits == 0 then 1 else 2 * Bound(bits - 1)
  }

  function XorBits(a: nat, b: nat, bits: nat): (r: nat)
    ensures r < Bound(bits)
    decreases bits
  {
    if bits == 0 then 0 else 2 * XorBits(a / 2, b / 2, bits - 1) + (if a % 2 == b % 2 then 0 else 1)
  }

  lemma {:induction false} XorSymmetric(a: nat, b: nat, bits: nat)
    ensures XorBits(a, b, bits) == XorBits(b, a, bits)
    decreases bits
  {
    if bits > 0 {
      XorSymmetric(a / 2, b / 2, bits - 1);
    }
  }

  lemma {:induction false} XorBitsTwice(a: nat, k: nat, bits: nat)
    requires a < Bound(bits)
    ensures XorBits(XorBits(a, k, bits), k, bits) == a
    decreases bits
  {
    if bits > 0 {
      XorBitsTwice(a / 2, k / 2, bits - 1);
    }
  }

  lemma {:induction false} XorBitsZero(a: nat, bits: nat)
    requires a < Bound(bits)
    ensures XorBits(a, 0, bits) == a
    decreases bits
  {
    if bits > 0 {
      XorBitsZero(a / 2, bits - 1);
    }
  }

  lemma {:induction false} XorBitsAt(a: nat, b: nat, bits: nat, j: nat)
    requires j < bits
    ensures BitOf(XorBits(a, b, bits), j) == 1 <==> BitOf(a, j) != BitOf(b, j)
    decreases bits
  {
    if j > 0 {
      XorBitsAt(a / 2, b / 2, bits - 1, j - 1);
    }
  }

  // A bit of a masked byte is set exactly where byte and key differ.
  lemma XorBitwise(a: byte, b: byte, j: nat)
    requires j < 8
    ensures BitOf(Xor(a, b), j) == 1 <==> BitOf(a, j) != BitOf(b, j)
  {
    XorBitsAt(a, b, 8, j);
  }

  // Masking with two keys in turn gives the byte back exactly if the keys agree.
  lemma XorCancels(a: byte, k: byte, l: byte)
    ensures Xor(Xor(a, k), l) == a <==> k == l
    ensures Xor(a, 0) == a
  {
    hide XorBits, Bound;
    EightBits();
    XorBitsTwice(a, k, 8);
    XorBitsZero(a, 8);
    var y := Xor(a, k);
    XorSymmetric(y, k, 8);
    XorSymmetric(y, l, 8);
    XorBitsTwice(k, y, 8);
    XorBitsTwice(l, y, 8);
  }

  type Key = k: seq<byte> | |k| == 4 witness [0, 0, 0, 0]

  const ZERO_KEY: Key := [0, 0, 0, 0]

  // The key byte for position i of a payload.
  function KeyAt(key: Key, i: nat): byte {
    key[i % 4]
  }

  function Masked(s: seq<byte>, key: Key): (r: seq<byte>)
    ensures |r| == |s| && forall i :: 0 <= i < |s| ==> r[i] == Xor(s[i], KeyAt(key, i))
  {
    seq(|s|, i requires 0 <= i < |s| => Xor(s[i], KeyAt(key, i)))
  }

  lemma MaskedTwice(s: seq<byte>, key: Key)
    ensures Masked(Masked(s, key), key) == s
    ensures Masked(s, ZERO_KEY) == s
  {
    hide Xor;
    forall i | 0 <= i < |s|
      ensures Xor(Xor(s[i], KeyAt(key, i)), KeyAt(key, i)) == s[i] && Xor(s[i], KeyAt(ZERO_KEY, i)) == s[i]
    {
      XorCancels(s[i], KeyAt(key, i), KeyAt(key, i));
    }
  }

  // Payload byte i goes out with exactly those bits inverted that are set in key byte i mod 4.
  lemma MaskedBits(s: seq<byte>, key: Key, i: nat, j: nat)
    requires i < |s| && j < 8
    ensures BitOf(Masked(s, key)[i], j) == 1 <==> BitOf(s[i], j) != BitOf(key[i % 4], j)
  {
    XorBitwise(s[i], key[i % 4], j);
  }

  lemma MaskedPrefix(s: seq<byte>, key: Key, n: nat)
    requires n <= |s|
    ensures Masked(s, key)[..n] == Masked(s[..n], key)
  {
  }

  // The key read from its start lines up with a piece that starts at position p of the payload.
  predicate KeyFits(key: Key, p: nat, n: nat) {
    forall i :: 0 <= i < n ==> KeyAt(key, i) == KeyAt(key, p + i)
  }

  lemma KeyFitsWhen(key: Key, p: nat, n: nat)
    ensures p % 4 == 0 || key == ZERO_KEY ==> KeyFits(key, p, n)
  {
  }

  // A piece of a masked payload, unmasked from the start of the key, is the piece of the
  // payload exactly if the key lines up.
  lemma PieceUnmasked(payload: seq<byte>, key: Key, p: nat, n: nat)
    requires p + n <= |payload|
    ensures Masked(Masked(payload, key)[p..p + n], key) == payload[p..p + n] <==> KeyFits(key, p, n)
  {
    hide Xor, KeyAt;
    var a, b := Masked(Masked(payload, key)[p..p + n], key), payload[p..p + n];
    forall i | 0 <= i < n
      ensures a[i] == b[i] <==> KeyAt(key, i) == KeyAt(key, p + i)
    {
      XorCancels(payload[p + i], KeyAt(key, p + i), KeyAt(key, i));
    }
    if KeyFits(key, p, n) {
      assert a == b;
    }
  }

  // ---------- headers ----------

  const MAX_INT: nat := 0x7FFF_FFFF

  function Bit(b: bool): nat {
    if b then 0x80 else 0
  }

  function Length16(len: nat): (s: seq<byte>)
    requires len < 0x1_0000
    ensures |s| == 2
  {
    [len / 0x100, len % 0x100]
  }

  function Length32(len: nat): (s: seq<byte>)
    requires len < 0x1_0000_0000
    ensures |s| == 4
  {
    [len / 0x100_0000, len / 0x1_0000 % 0x100, len / 0x100 % 0x100, len % 0x100]
  }

  // The first two bytes of a header and its extended length: the shortest form there is.
  function Front(opcode: byte, masked: bool, len: nat): (s: seq<byte>)
    requires len <= MAX_INT
    ensures |s| == if len <= 125 then 2 else if len < 0x1_0000 then 4 else 10
  {
    var m := Bit(masked);
    if len <= 125 then [opcode, len + m]
    else if len < 0x1_0000 then [opcode, 126 + m] + Length16(len)
    else [opcode, 127 + m, 0, 0, 0, 0] + Length32(len)
  }

  function Header(opcode: byte, key: Option<Key>, len: nat): seq<byte>
    requires len <= MAX_INT
  {
    Front(opcode, key.Some?, len) + (if key.Some? then key.value else [])
  }

  datatype Option<T> = None | Some(value: T)

  // How many bytes in front of the mask key belong to a header that starts with these two.
  function HeadSize(b1: byte): nat {
    if b1 % 0x80 == 126 then 4 else if b1 % 0x80 == 127 then 10 else 2
  }

  // A 32-bit pattern read as a C int.
  function AsInt(w: uint32): int {
    if w >= 0x8000_0000 then w - 0x1_0000_0000 else w
  }

  // The payload length a header announces; a length of more than 32 bits reads as -1.
  function Announced(s: seq<byte>): int
    requires |s| >= 2 && |s| >= HeadSize(s[1])
  {
    var short := s[1] % 0x80;
    if short == 126 then s[2] as int * 0x100 + s[3] as int
    else if short != 127 then short
    else if s[2] != 0 || s[3] != 0 || s[4] != 0 || s[5] != 0 then -1
    else AsInt(s[6] as int * 0x100_0000 + s[7] as int * 0x1_0000 + s[8] as int * 0x100 + s[9] as int)
  }

  predicate HasHeader(s: seq<byte>) {
    |s| >= 2 && |s| >= HeadSize(s[1]) && |s| >= HeadSize(s[1]) + (if s[1] >= 0x80 && Announced(s) != 0 then 4 else 0)
  }

  // Where the payload starts: the mask key of an empty frame is not read.
  function HeaderSize(s: seq<byte>): (n: nat)
    requires HasHeader(s)
    ensures n <= |s|
  {
    HeadSize(s[1]) + (if s[1] >= 0x80 && Announced(s) != 0 then 4 else 0)
  }

  lemma LengthRoundTrip(len: nat)
    requires len <= MAX_INT
    ensures len < 0x1_0000 ==> Length16(len)[0] as int * 0x100 + Length16(len)[1] as int == len
    ensures var s := Length32(len);
      AsInt(s[0] as int * 0x100_0000 + s[1] as int * 0x1_0000 + s[2] as int * 0x100 + s[3] as int) == len
  {
    var a := len / 0x100;
    var b := len / 0x1_0000;
    assert b == a / 0x100;
    assert len / 0x100_0000 == b / 0x100;
  }

  // Header round trip: opcode, mask flag, length and key come back, the length form is the
  // shortest there is, and the payload starts right behind - unless the frame is masked and
  // empty, when the reader stops in front of the key.
  lemma HeaderRoundTrip(opcode: byte, key: Option<Key>, len: nat, rest: seq<byte>)
    requires len <= MAX_INT
    ensures
      var h := Header(opcode, key, len);
      var s := h + rest;
      && |h| == (if len <= 125 then 2 else if len < 0x1_0000 then 4 else 10) + (if key.Some? then 4 else 0)
      && HasHeader(s) && s[0] == opcode && (s[1] >= 0x80 <==> key.Some?) && Announced(s) == len
      && (key.Some? && len > 0 ==> s[HeaderSize(s) - 4..HeaderSize(s)] == key.value)
      && (HeaderSize(s) == |h| <==> !(key.Some? && len == 0))
      && (key.Some? && len == 0 ==> s[HeaderSize(s)..] == key.value + rest)
  {
    var tail := (if key.Some? then key.value else []) + rest;
    FrontRoundTrip(opcode, key.Some?, len, tail);
    hide Front;
    assert Header(opcode, key, len) + rest == Front(opcode, key.Some?, len) + tail;
    if key.Some? {
      assert tail[..4] == key.value;
    }
  }

  lemma FrontRoundTrip(opcode: byte, masked: bool, len: nat, rest: seq<byte>)
    requires len <= MAX_INT
    ensures
      var f := Front(opcode, masked, len);
      var s := f + rest;
      && s[0] == opcode && (s[1] >= 0x80 <==> masked) && HeadSize(s[1]) == |f| && Announced(s) == len
      && s[..|f|] == f && s[|f|..] == rest
  {
    LengthRoundTrip(len);
    hide Length16, Length32, AsInt;
  }

  // ---------- headers as bytes ----------

  // Opcode, mask bit and length as they go out: seven bits, or 126 and two bytes, or 127 and
  // eight bytes, highest byte first.
  ghost predicate FrontBytes(s: seq<byte>, opcode: byte, masked: bool, len: nat) {
    && |s| == (if len < 126 then 2 else if len < 65536 then 4 else 10)
    && s[0] == opcode && (s[1] >= 128 <==> masked)
    && s[1] as int % 128 == (if len < 126 then len else if len < 65536 then 126 else 127)
    && (126 <= len < 65536 ==> s[2] as int * 0x100 + s[3] as int == len)
    && (65536 <= len ==> s[2..6] == [0, 0, 0, 0])
    && (65536 <= len ==>
          s[6] as int * 0x100_0000 + s[7] as int * 0x1_0000 + s[8] as int * 0x100 + s[9] as int == len)
  }

  lemma FrontLayout(opcode: byte, masked: bool, len: nat)
    requires len <= MAX_INT
    ensures FrontBytes(Front(opcode, masked, len), opcode, masked, len)
  {
    LengthRoundTrip(len);
    hide Length16, Length32;
  }

  // The key stands behind the front.
  lemma HeaderLayout(opcode: byte, key: Option<Key>, len: nat)
    requires len <= MAX_INT
    ensures var h, n := Header(opcode, key, len), if len < 126 then 2 else if len < 65536 then 4 else 10;
      && n <= |h| && FrontBytes(h[..n], opcode, key.Some?, len)
      && h[n..] == if key.Some? then key.value else []
  {
    FrontLayout(opcode, key.Some?, len);
    hide FrontBytes;
    var h, f := Header(opcode, key, len), Front(opcode, key.Some?, len);
    assert h[..|f|] == f;
  }

  // For instance, a masked text frame of 300 bytes.
  lemma HeaderOf300(key: Key)
    ensures Header(0x81, Some(key), 300) == [0x81, 0xFE, 0x01, 0x2C] + key
  {
  }

  // The eight bytes from position 2 on as a number, highest byte first.
  function Number64(s: seq<byte>): nat
    requires |s| >= 10
  {
    s[2] as int * 0x100_0000_0000_0000 + s[3] as int * 0x1_0000_0000_0000 + s[4] as int * 0x100_0000_0000
    + s[5] as int * 0x1_0000_0000 + s[6] as int * 0x100_0000 + s[7] as int * 0x1_0000 + s[8] as int * 0x100
    + s[9] as int
  }

  // The length that is read from a header: seven bits, two bytes or eight bytes.  Numbers from
  // 2^31 on come out negative.
  ghost predicate LengthRead(s: seq<byte>, n: int)
    requires HasHeader(s)
  {
    var short := s[1] as int % 128;
    if short < 126 then n == short
    else if short == 126 then n == s[2] as int * 0x100 + s[3] as int
    else
      && (Number64(s) < 0x8000_0000 ==> n == Number64(s))
      && (0x8000_0000 <= Number64(s) < 0x1_0000_0000 ==> n == Number64(s) - 0x1_0000_0000)
      && (0x1_0000_0000 <= Number64(s) ==> n == -1)
  }

  lemma AnnouncedIsRead(s: seq<byte>)
    requires HasHeader(s)
    ensures LengthRead(s, Announced(s))
    ensures HeaderSize(s) ==
      (if s[1] % 128 == 126 then 4 else if s[1] % 128 == 127 then 10 else 2)
      + (if s[1] >= 128 && Announced(s) != 0 then 4 else 0)
  {
  }

  // Any header that announces this length is at least as long.
  lemma FrontIsShortest(opcode: byte, masked: bool, len: nat, s: seq<byte>)
    requires len <= MAX_INT && HasHeader(s) && Announced(s) == len
    ensures HeadSize(s[1]) >= |Front(opcode, masked, len)|
  {
    hide Front;
  }

  // ---------- frames on the wire ----------

  datatype Frame = Frame(opcode: byte, key: Option<Key>, payload: seq<byte>)

  function KeyOf(f: Frame): Key {
    if f.key.Some? then f.key.value else ZERO_KEY
  }

  // A payload of a length the C int holds, and no key on an empty frame.
  predicate FrameOk(f: Frame) {
    |f.payload| <= MAX_INT && !(f.key.Some? && f.payload == [])
  }

  function Wire(f: Frame): seq<byte>
    requires |f.payload| <= MAX_INT
  {
    Header(f.opcode, f.key, |f.payload|) + Masked(f.payload, KeyOf(f))
  }

  function WireAll(frames: seq<Frame>): seq<byte>
    requires forall i :: 0 <= i < |frames| ==> FrameOk(frames[i])
  {
    if frames == [] then [] else
      assert FrameOk(frames[0]);
      Wire(frames[0]) + WireAll(frames[1..])
  }

  function Payloads(frames: seq<Frame>): seq<byte> {
    if frames == [] then [] else frames[0].payload + Payloads(frames[1..])
  }

  lemma {:induction false} WireAllSnoc(frames: seq<Frame>, f: Frame)
    requires FrameOk(f) && forall i :: 0 <= i < |frames| ==> FrameOk(frames[i])
    ensures WireAll(frames + [f]) == WireAll(frames) + Wire(f) && Payloads(frames + [f]) == Payloads(frames) + f.payload
  {
    hide Wire;
    if frames == [] {
      assert frames + [f] == [f];
    } else {
      assert (frames + [f])[1..] == frames[1..] + [f];
      WireAllSnoc(frames[1..], f);
    }
  }

  // What parsing finds in front of a well-formed frame.
  lemma WireFront(f: Frame, rest: seq<byte>)
    requires FrameOk(f)
    ensures
      var s := Wire(f) + rest;
      && HasHeader(s) && s[0] == f.opcode && Announced(s) == |f.payload|
      && (s[1] >= 0x80 <==> f.key.Some?)
      && (f.key.Some? ==> HeaderSize(s) >= 4 && s[HeaderSize(s) - 4..HeaderSize(s)] == f.key.value)
      && s[HeaderSize(s)..] == Masked(f.payload, KeyOf(f)) + rest
  {
    hide Header, Announced, Masked;
    var h, m := Header(f.opcode, f.key, |f.payload|), Masked(f.payload, KeyOf(f));
    HeaderRoundTrip(f.opcode, f.key, |f.payload|, m + rest);
    assert Wire(f) + rest == h + (m + rest);
    assert (h + (m + rest))[|h|..] == m + rest;
  }

  lemma WholeFrame(f: Frame, earlier: seq<byte>)
    requires |f.payload| <= MAX_INT
    ensures var wire := Masked(f.payload, KeyOf(f));
      && wire[..|f.payload|] == wire
      && earlier + Header(f.opcode, f.key, |f.payload|) + wire == earlier + Wire(f)
      && (f.payload == [] ==> earlier + Header(f.opcode, f.key, |f.payload|) + [] == earlier + Wire(f))
  {
    hide Header, Masked;
  }

  lemma HeaderParts(op: byte, maskFlag: bool, random: Key, len: nat)
    requires len <= MAX_INT
    ensures Header(op, if maskFlag then Some(random) else None, len) == if maskFlag then Front(op, true, len) + random
      else Front(op, false, len)
  {
  }

  // Masks the first len bytes of a buffer in place.
  method MaskBuffer(b: array<byte>, len: nat, mask: Key)
    requires len <= b.Length
    modifies b
    ensures b[..len] == Masked(old(b[..len]), mask) && b[len..] == old(b[len..])
  {
    hide Xor;
    for i := 0 to len
      invariant forall j :: 0 <= j < i ==> b[j] == Xor(old(b[j]), KeyAt(mask, j))
      invariant forall j :: i <= j < b.Length ==> b[j] == old(b[j])
    {
      b[i] := Xor(b[i], mask[i % 4]);
    }
  }

  // The length of the next piece: what is left of the frame, or as much as the caller has room for.
  function Piece(remaining: nat, len: nat): nat {
    if remaining > len then len else remaining
  }

  // What is on the wire while a frame is read: the rest of its payload, then whole frames.
  ghost predicate OnWire(incoming: seq<byte>, current: Frame, pos: nat, frames: seq<Frame>, bytesRemaining: int,
      payloadLen: int, maskKey: Key) {
    && (forall i :: 0 <= i < |frames| ==> FrameOk(frames[i]))
    && pos <= |current.payload|
    && incoming == Masked(current.payload, KeyOf(current))[pos..] + WireAll(frames)
    && bytesRemaining == |current.payload| - pos
    && (bytesRemaining > 0 ==> payloadLen > 0 && maskKey == KeyOf(current))
  }

  // Frames take at least two bytes more than their payloads.
  lemma {:induction false} WireLonger(frames: seq<Frame>)
    requires forall i :: 0 <= i < |frames| ==> FrameOk(frames[i])
    ensures |Payloads(frames)| + 2 * |frames| <= |WireAll(frames)|
  {
    hide Masked;
    if frames != [] {
      assert FrameOk(frames[0]);
      WireLonger(frames[1..]);
    }
  }

  // Every way to explain the bytes on the wire by frames has fewer payload bytes to come.
  ghost predicate StreamLost(incoming: seq<byte>, left: seq<byte>, payloadLen: int, key: Key) {
    forall c: Frame, p: nat, fs: seq<Frame> :: OnWire(incoming, c, p, fs, 0, payloadLen, key) ==>
      |LeftOf(c, p, fs)| < |left|
  }

  // Once the rest of the last frame that was sent is forgotten, the payload stream is lost for
  // good.  In any case at least one header is read where there may be none.
  lemma FrameForgotten(incoming: seq<byte>, current: Frame, pos: nat, frames: seq<Frame>, remaining: nat,
      payloadLen: int, key: Key)
    requires OnWire(incoming, current, pos, frames, remaining, payloadLen, key) && remaining > 0
    ensures frames == [] ==> StreamLost(incoming, LeftOf(current, pos, frames), payloadLen, key)
    ensures forall c: Frame, p: nat, fs: seq<Frame> :: OnWire(incoming, c, p, fs, 0, payloadLen, key) ==>
      fs != [] && |LeftOf(c, p, fs)| + 2 * |fs| <= |incoming|
  {
    hide Masked, WireAll;
    assert frames == [] ==> WireAll(frames) == [] by { NoFrames(); }
    assert |incoming| > 0;
    forall c: Frame, p: nat, fs: seq<Frame> | OnWire(incoming, c, p, fs, 0, payloadLen, key)
      ensures fs != [] && |LeftOf(c, p, fs)| + 2 * |fs| <= |incoming|
    {
      assert Masked(c.payload, KeyOf(c))[p..] + WireAll(fs) == WireAll(fs);
      WireLonger(fs);
      NoFrames();
    }
  }

  lemma OneFrame(f: Frame)
    requires FrameOk(f)
    ensures WireAll([f]) == Wire(f) && Payloads([f]) == f.payload
  {
    assert [f][1..] == [];
  }

  lemma NoFrames()
    ensures WireAll([]) == []
  {
  }

  // With a frame behind, the stream may survive by chance: the one byte left over and the header
  // of the next frame are taken for one frame, whose payload happens to be the bytes sent.
  lemma StreamCanSurvive(b: byte)
    ensures var current, next, read := Frame(2, None, [1]), Frame(2, None, [b]), Frame(1, None, [1, b]);
      var incoming := Masked(current.payload, KeyOf(current)) + WireAll([next]);
      && OnWire(incoming, current, 0, [next], 1, 1, ZERO_KEY)
      && OnWire(incoming, current, 1, [read], 0, 1, ZERO_KEY)
      && LeftOf(current, 1, [read]) == LeftOf(current, 0, [next])
  {
    var current, next, read := Frame(2, None, [1]), Frame(2, None, [b]), Frame(1, None, [1, b]);
    MaskedTwice([1], ZERO_KEY);
    MaskedTwice([b], ZERO_KEY);
    MaskedTwice([1, b], ZERO_KEY);
    hide Masked, Xor;
    OneFrame(next);
    OneFrame(read);
    assert Wire(next) == [2, 1, b] && Wire(read) == [1, 2, 1, b];
    hide Wire, WireAll;
  }

  lemma FrameCut(incoming: seq<byte>, current: Frame, pos: nat, frames: seq<Frame>, remaining: nat, payloadLen: int,
      key: Key)
    requires OnWire(incoming, current, pos, frames, remaining, payloadLen, key) && remaining > 0
    ensures pos < |current.payload| && (forall i :: 0 <= i < |frames| ==> FrameOk(frames[i]))
    ensures incoming == Masked(current.payload, KeyOf(current))[pos..] + WireAll(frames)
  {
  }

  // The payload bytes from a position of a frame on.
  function LeftOf(current: Frame, pos: nat, frames: seq<Frame>): seq<byte>
    requires pos <= |current.payload|
  {
    current.payload[pos..] + Payloads(frames)
  }

  // Taking a piece from the wire and unmasking it from the start of the key.
  lemma PieceTaken(incoming: seq<byte>, current: Frame, pos: nat, frames: seq<Frame>, remaining: nat, payloadLen: int,
      key: Key, got: nat)
    requires OnWire(incoming, current, pos, frames, remaining, payloadLen, key) && 0 < got <= remaining
    ensures got <= |incoming| && key == KeyOf(current) && pos + got <= |current.payload|
      && OnWire(incoming[got..], current, pos + got, frames, remaining - got, payloadLen, key)
    ensures var data := Masked(incoming[..got], key);
      && (data == current.payload[pos..pos + got] <==> KeyFits(key, pos, got))
      && (KeyFits(key, pos, got) ==> LeftOf(current, pos, frames) == data + LeftOf(current, pos + got, frames))
  {
    hide Masked, WireAll, KeyFits, Payloads;
    var wire := Masked(current.payload, KeyOf(current));
    PieceSplits(wire, WireAll(frames), pos, got);
    PieceUnmasked(current.payload, key, pos, got);
    PieceSplits(current.payload, Payloads(frames), pos, got);
  }

  lemma PieceSplits(s: seq<byte>, rest: seq<byte>, p: nat, n: nat)
    requires p + n <= |s|
    ensures |s[p..] + rest| >= n && (s[p..] + rest)[..n] == s[p..p + n] && (s[p..] + rest)[n..] == s[p + n..] + rest
    ensures s[p..] + rest == s[p..p + n] + (s[p + n..] + rest)
  {
  }

  class WsTransport {
    var sent: seq<byte>       // handed to the parent connection
    var incoming: seq<byte>   // arrived there, not read yet
    var opcode: byte
    var maskKey: Key
    var payloadLen: int
    var bytesRemaining: int
    ghost var current: Frame        // the frame being read, and how far
    ghost var pos: nat
    ghost var frames: seq<Frame>    // the frames behind it

    ghost predicate Valid()
      reads this
    {
      OnWire(incoming, current, pos, frames, bytesRemaining, payloadLen, maskKey)
    }

    // What a failed read leaves: the rest of the current frame is still to arrive, but a header
    // is expected.  Unless another frame follows, no frames explain that without loss.
    ghost predicate FrameLost()
      reads this
    {
      && bytesRemaining == 0 && pos < |current.payload|
      && (forall i :: 0 <= i < |frames| ==> FrameOk(frames[i]))
      && incoming == Masked(current.payload, KeyOf(current))[pos..] + WireAll(frames)
      && (frames == [] ==> StreamLost(incoming, Left(), payloadLen, maskKey))
    }

    // The payload bytes still to be read.
    ghost function Left(): seq<byte>
      requires pos <= |current.payload|
      reads this
    {
      LeftOf(current, pos, frames)
    }

    constructor ()
      ensures Valid() && sent == [] && Left() == [] && frames == [] && bytesRemaining == 0
    {
      sent, incoming := [], [];
      opcode, maskKey, payloadLen, bytesRemaining := 0, ZERO_KEY, 0, 0;
      current, pos, frames := Frame(0, None, []), 0, [];
    }

    // The peer sends a frame.
    method Arrive(f: Frame)
      requires Valid() && FrameOk(f)
      modifies this`incoming, this`frames
      ensures Valid() && Left() == old(Left()) + f.payload
      ensures frames == old(frames) + [f] && incoming == old(incoming) + Wire(f)
    {
      hide Wire, Masked;
      WireAllSnoc(frames, f);
      incoming := incoming + Wire(f);
      frames := frames + [f];
    }

    // Writing to the parent: it takes a prefix of the data, or fails with a result below zero.
    method ParentWrite(data: seq<byte>, accepted: int) returns (ret: int)
      requires accepted <= |data|
      modifies this`sent
      ensures ret == accepted && sent == old(sent) + (if accepted > 0 then data[..accepted] else [])
    {
      if accepted > 0 {
        sent := sent + data[..accepted];
      }
      return accepted;
    }

    method WsHeader(op: byte, maskFlag: bool, len: nat) returns (wsHeader: seq<byte>)
      requires len <= MAX_INT
      ensures wsHeader == Front(op, maskFlag, len) && FrontBytes(wsHeader, op, maskFlag, len)
    {
      FrontLayout(op, maskFlag, len);
      hide FrontBytes;
      var flag := Bit(maskFlag);
      wsHeader := [op];
      if len <= 125 {
        wsHeader := wsHeader + [len + flag];
      } else if len < 65536 {
        wsHeader := wsHeader + [126 + flag];
        wsHeader := wsHeader + [len / 0x100, len % 0x100];
      } else {
        wsHeader := wsHeader + [127 + flag];
        wsHeader := wsHeader + [0, 0, 0, 0];
        wsHeader := wsHeader + [len / 0x100_0000, len / 0x1_0000 % 0x100, len / 0x100 % 0x100, len % 0x100];
      }
    }

    // Builds the header, masks the payload in place and sends the header.
    method HeaderOut(op: byte, maskFlag: bool, b: array<byte>, len: nat, random: Key, accepted: int)
        returns (n: int, headerLen: nat)
      requires len <= b.Length && len <= MAX_INT
      requires accepted <= |Header(op, if maskFlag then Some(random) else None, len)|
      modifies this`sent, b
      ensures var header := Header(op, if maskFlag then Some(random) else None, len);
        n == accepted && headerLen == |header| && sent == old(sent) + (if accepted > 0 then header[..accepted] else [])
      ensures n == headerLen ==> sent == old(sent) + Header(op, if maskFlag then Some(random) else None, len)
      ensures b[..len] == Masked(old(b[..len]), if maskFlag then random else ZERO_KEY) && b[len..] == old(b[len..])
      ensures b[..] == Masked(old(b[..len]), if maskFlag then random else ZERO_KEY) + old(b[len..])
    {
      HeaderParts(op, maskFlag, random, len);
      hide Xor, KeyAt, Front, Masked, Header;
      var wsHeader := WsHeader(op, maskFlag, len);
      if maskFlag {
        wsHeader := wsHeader + random;
      }
      MaskIf(maskFlag, b, len, random);
      n := ParentWrite(wsHeader, accepted);
      headerLen := |wsHeader|;
    }

    // Masks with the key, if there is one.
    method MaskIf(maskFlag: bool, b: array<byte>, len: nat, random: Key)
      requires len <= b.Length
      modifies b
      ensures b[..len] == Masked(old(b[..len]), if maskFlag then random else ZERO_KEY) && b[len..] == old(b[len..])
      ensures b[..] == Masked(old(b[..len]), if maskFlag then random else ZERO_KEY) + old(b[len..])
    {
      MaskedTwice(b[..len], random);
      hide Xor, KeyAt, Masked;
      if maskFlag {
        MaskBuffer(b, len, random);
      }
      assert b[..] == b[..len] + b[len..];
    }

    // Sends the masked payload and masks it back.
    method PayloadOut(b: array<byte>, len: nat, maskFlag: bool, random: Key, accepted: int, ghost given: seq<byte>)
        returns (ret: int)
      requires len <= b.Length && accepted <= len
      requires b[..len] == Masked(given, if maskFlag then random else ZERO_KEY)
      modifies this`sent, b
      ensures ret == accepted && sent == old(sent) + (if accepted > 0 then old(b[..len])[..accepted] else [])
      ensures b[..] == given + old(b[len..])
    {
      MaskedTwice(given, random);
      hide Xor, KeyAt, Masked;
      ret := ParentWrite(b[..len], accepted);
      MaskIf(maskFlag, b, len, random);
    }

    // The payload goes out masked from the caller's own buffer, which is masked in place and
    // masked back - but not if the header could not be sent in full.
    method WsWrite(op: byte, maskFlag: bool, b: array<byte>, len: nat, pollWrite: int, random: Key,
        headerAccepted: int, payloadAccepted: int) returns (ret: int)
      requires len <= b.Length && len <= MAX_INT && payloadAccepted <= len
      requires headerAccepted <= |Header(op, if maskFlag then Some(random) else None, len)|
      modifies this`sent, b
      ensures pollWrite <= 0 ==> ret == pollWrite && sent == old(sent) && b[..] == old(b[..])
      ensures pollWrite > 0 ==>
        var header := Header(op, if maskFlag then Some(random) else None, len);
        var wire := Masked(old(b[..len]), if maskFlag then random else ZERO_KEY);
        if headerAccepted != |header| then
          ret == -1 && b[..] == wire + old(b[len..])
            && sent == old(sent) + (if headerAccepted > 0 then header[..headerAccepted] else [])
        else
          && b[..] == old(b[..])
          && ret == (if len == 0 then 0 else payloadAccepted)
          && sent == old(sent) + header + (if ret > 0 then wire[..ret] else [])
      // all of it is taken: one frame for the peer to read
      ensures pollWrite > 0 ==>
        var f := Frame(op, if maskFlag then Some(random) else None, old(b[..len]));
        (headerAccepted == |Header(f.opcode, f.key, len)| && (len == 0 || payloadAccepted == len) ==>
          sent == old(sent) + Wire(f))
    {
      if pollWrite <= 0 {
        return pollWrite;
      }
      hide Xor, KeyAt, Masked, Header, Wire;
      ghost var given, rest := b[..len], b[len..];
      WholeFrame(Frame(op, if maskFlag then Some(random) else None, given), sent);
      assert b[..] == given + rest;
      var n, headerLen := HeaderOut(op, maskFlag, b, len, random, headerAccepted);
      if n != headerLen {
        return -1;
      }
      if len == 0 {
        return 0;
      }
      ret := PayloadOut(b, len, maskFlag, random, payloadAccepted, given);
    }

    // Reads and parses a header that has arrived in full.  The key of an empty frame is not
    // read; what the field holds then is left over in the caller's buffer.
    method WsReadHeader(pollRead: int, stale: Key) returns (ret: int)
      requires pollRead > 0 ==> HasHeader(incoming)
      modifies this`incoming, this`opcode, this`maskKey, this`payloadLen, this`bytesRemaining
      ensures pollRead <= 0 ==>
        ret == pollRead && incoming == old(incoming) && bytesRemaining == old(bytesRemaining)
        && payloadLen == old(payloadLen) && maskKey == old(maskKey)
      ensures pollRead > 0 ==>
        && ret == Announced(old(incoming)) && LengthRead(old(incoming), ret)
        && payloadLen == ret && bytesRemaining == ret
        && opcode == old(incoming)[0] % 0x10
        && incoming == old(incoming)[HeaderSize(old(incoming))..]
        && maskKey == (if old(incoming)[1] < 0x80 then ZERO_KEY
                       else if ret == 0 then stale
                         else old(incoming)[HeaderSize(old(incoming)) - 4..HeaderSize(old(incoming))])
    {
      if pollRead <= 0 {
        return pollRead;
      }
      AnnouncedIsRead(incoming);
      hide LengthRead;
      var input := incoming;
      var data, used := input[..2], 2;
      opcode := data[0] % 0x10;
      var mask := data[1] / 0x80 % 2;
      var len: int := data[1] % 0x80;
      if len == 126 {
        used := 4;
        len := input[2] as int * 0x100 + input[3] as int;
      } else if len == 127 {
        used := 10;
        if input[2] != 0 || input[3] != 0 || input[4] != 0 || input[5] != 0 {
          len := -1;
        } else {
          len :=
            AsInt(input[6] as int * 0x100_0000 + input[7] as int * 0x1_0000 + input[8] as int * 0x100
            + input[9] as int);
        }
      }
      if mask == 1 {
        if len != 0 {
          maskKey := input[used..used + 4];
          used := used + 4;
        } else {
          maskKey := stale;
        }
      } else {
        maskKey := ZERO_KEY;
      }
      incoming := input[used..];
      payloadLen := len;
      bytesRemaining := len;
      return len;
    }

    // Reads at most len payload bytes, of which the parent delivers `got`, and unmasks them from
    // the start of the key.
    method WsReadPayload(buffer: array<byte>, len: nat, got: int) returns (ret: int)
      requires len <= buffer.Length && 0 <= bytesRemaining
      requires got <= Piece(bytesRemaining, len) && got <= |incoming|
      modifies this`incoming, this`bytesRemaining, buffer
      ensures got <= 0 ==>
        ret == (if Piece(old(bytesRemaining), len) != 0 then got else 0) && incoming == old(incoming)
          && bytesRemaining == old(bytesRemaining)
      ensures got > 0 ==>
        && ret == got && incoming == old(incoming)[got..] && bytesRemaining == old(bytesRemaining) - got
        && buffer[..got] == Masked(old(incoming)[..got], maskKey)
      ensures buffer[Piece(old(bytesRemaining), len)..] == old(buffer[Piece(bytesRemaining, len)..])
    {
      hide Xor, KeyAt, Masked;
      var bytesToRead := if bytesRemaining > len then len else bytesRemaining;
      var rlen := 0;
      if bytesToRead != 0 {
        rlen := got;
        if rlen <= 0 {
          return rlen;
        }
        for i := 0 to rlen
          modifies buffer
          invariant buffer[..i] == incoming[..i] && buffer[i..] == old(buffer[i..])
        {
          assert old(buffer[i..])[1..] == old(buffer[i + 1..]);
          buffer[i] := incoming[i];
        }
        incoming := incoming[rlen..];
      }
      bytesRemaining := bytesRemaining - rlen;
      ghost var raw := buffer[..bytesToRead];
      MaskBuffer(buffer, bytesToRead, maskKey);
      MaskedPrefix(raw, maskKey, rlen);
      return rlen;
    }

    // A frame that has arrived is begun.
    method NextFrame(pollRead: int, stale: Key) returns (ret: int)
      requires Valid() && bytesRemaining == 0
      requires pollRead > 0 ==> frames != []
      modifies this`incoming, this`opcode, this`maskKey, this`payloadLen, this`bytesRemaining
      modifies this`current, this`pos, this`frames
      ensures Valid() && Left() == old(Left())
      ensures pollRead <= 0 ==>
        ret == pollRead && bytesRemaining == 0 && current == old(current) && frames == old(frames)
      ensures pollRead > 0 ==>
        && current == old(frames)[0] && pos == 0 && frames == old(frames)[1..]
        && opcode == current.opcode % 0x10 && ret == |current.payload| == bytesRemaining
    {
      hide Masked, Wire, Header, Announced, HeaderSize, HasHeader;
      if pollRead > 0 {
        assert incoming == Wire(frames[0]) + WireAll(frames[1..]);
        WireFront(frames[0], WireAll(frames[1..]));
      }
      ret := WsReadHeader(pollRead, stale);
      if pollRead > 0 {
        current, pos, frames := frames[0], 0, frames[1..];
      }
    }

    // A piece of the current frame: exactly the payload, if the key lines up with it.  If the
    // parent fails, or the caller has no room, the rest of the frame is forgotten although it
    // still arrives.
    method NextPiece(buffer: array<byte>, len: nat, got: int) returns (ret: int)
      requires Valid() && bytesRemaining > 0 && len <= buffer.Length && got <= Piece(bytesRemaining, len)
      modifies this`incoming, this`bytesRemaining, this`pos, buffer
      ensures got > 0 ==>
        && ret == got && Valid() && pos == old(pos) + got
        && (buffer[..got] == current.payload[old(pos)..pos] <==> KeyFits(KeyOf(current), old(pos), got))
        && (KeyFits(KeyOf(current), old(pos), got) ==> old(Left()) == buffer[..got] + Left())
      ensures got <= 0 ==>
        ret == (if len == 0 then 0 else got) && incoming == old(incoming) && pos == old(pos) && FrameLost()
    {
      hide Xor, KeyAt, Masked, KeyFits, KeyOf, OnWire, LeftOf, StreamLost, WireAll;
      if got > 0 {
        PieceTaken(incoming, current, pos, frames, bytesRemaining, payloadLen, maskKey, got);
        ret := WsReadPayload(buffer, len, got);
        pos := pos + got;
      } else {
        FrameForgotten(incoming, current, pos, frames, bytesRemaining, payloadLen, maskKey);
        FrameCut(incoming, current, pos, frames, bytesRemaining, payloadLen, maskKey);
        ret := WsReadPayload(buffer, len, got);
        bytesRemaining := 0;
      }
    }

    // A read: a new header if the last frame is used up, then a piece of the payload.
    method WsRead(buffer: array<byte>, len: nat, pollRead: int, got: int, stale: Key) returns (ret: int)
      requires Valid() && len <= buffer.Length
      requires bytesRemaining == 0 && pollRead > 0 ==> frames != []
      requires got
        <= Piece(if bytesRemaining > 0 then bytesRemaining else if frames != [] then |frames[0].payload| else 0, len)
      modifies this`incoming, this`opcode, this`maskKey, this`payloadLen, this`bytesRemaining
      modifies this`current, this`pos, this`frames, buffer
      ensures old(bytesRemaining) == 0 && pollRead > 0 ==>
        current == old(frames)[0] && frames == old(frames)[1..] && opcode == current.opcode % 0x10
      ensures !(old(bytesRemaining) == 0 && pollRead > 0) ==> current == old(current) && frames == old(frames)
      // No header has arrived, or it belongs to an empty frame.
      ensures old(bytesRemaining) == 0 && (pollRead <= 0 || current.payload == []) ==>
        ret == (if pollRead <= 0 then pollRead else 0) && Valid() && Left() == old(Left())
          && buffer[..] == old(buffer[..])
      // A piece is delivered.
      ensures (old(bytesRemaining) > 0 || (pollRead > 0 && current.payload != [])) && got > 0 ==>
        && ret == got && Valid()
        && var p := if old(bytesRemaining) > 0 then old(pos) else 0;
        && pos == p + got <= |current.payload|
        && (buffer[..got] == current.payload[p..pos] <==> KeyFits(KeyOf(current), p, got))
        && (KeyFits(KeyOf(current), p, got) ==> old(Left()) == buffer[..got] + Left())
      // The frame is lost.
      ensures (old(bytesRemaining) > 0 || (pollRead > 0 && current.payload != [])) && got <= 0 ==>
        ret == (if len == 0 then 0 else got) && FrameLost()
    {
      hide Masked, WireAll, KeyFits, StreamLost;
      var rlen := 0;
      if bytesRemaining <= 0 {
        rlen := NextFrame(pollRead, stale);
        if rlen <= 0 {
          bytesRemaining := 0;
          return rlen;
        }
      }
      if payloadLen != 0 {
        rlen := NextPiece(buffer, len, got);
      }
      return rlen;
    }
  }

  // A frame of one byte whose payload could not be read: nothing explains that byte any more.
  method LastFrameLost(b: byte) returns (t: WsTransport, ret: int)
    ensures fresh(t) && ret == -1 && t.frames == [] && t.current == Frame(2, None, [b]) && t.FrameLost()
    ensures t.incoming == [b]
      && forall c: Frame, p: nat, fs: seq<Frame> :: !OnWire([b], c, p, fs, 0, t.payloadLen, t.maskKey)
  {
    t := new WsTransport();
    hide Masked, Wire, StreamLost, OnWire, t.Left, LeftOf, t.FrameLost;
    t.Arrive(Frame(2, None, [b]));
    ret := t.NextFrame(1, ZERO_KEY);
    LastByte(b, t.incoming, t.current, t.payloadLen, t.maskKey);
    var buffer := new byte[1];
    ret := t.NextPiece(buffer, 1, -1);
  }

  lemma LastByte(b: byte, incoming: seq<byte>, current: Frame, payloadLen: int, key: Key)
    requires current == Frame(2, None, [b]) && OnWire(incoming, current, 0, [], 1, payloadLen, key)
    ensures incoming == [b] && forall c: Frame, p: nat, fs: seq<Frame> :: !OnWire([b], c, p, fs, 0, payloadLen, key)
  {
    FrameForgotten(incoming, current, 0, [], 1, payloadLen, key);
    MaskedTwice([b], ZERO_KEY);
    NoFrames();
    hide Masked, WireAll, LeftOf, StreamLost;
    assert incoming == Masked([b], ZERO_KEY)[0..] + WireAll([]);
  }

  // The key does not line up with a piece that starts at position 1.
  lemma KeyMisfit()
    ensures !KeyFits([1, 2, 3, 4], 1, 1)
  {
    assert KeyAt([1, 2, 3, 4], 0) == 1 && KeyAt([1, 2, 3, 4], 1 + 0) == 2;
  }

  // Why an empty frame with a key is not allowed here: reading leaves its key in the stream,
  // where it is taken for the next header.
  lemma EmptyMaskedFrameMisread(f: Frame, rest: seq<byte>)
    requires f.key.Some? && f.payload == []
    ensures
      var s := Wire(f) + rest;
      HasHeader(s) && Announced(s) == 0 && s[HeaderSize(s)..] == f.key.value + rest
  {
    HeaderRoundTrip(f.opcode, f.key, 0, rest);
    assert Wire(f) + rest == Header(f.opcode, f.key, 0) + rest;
  }
}
