// The binary form of a partition table: 32-byte records, an optional MD5 record and an end
// marker.  The hash is a parameter: nothing is assumed about it but its length.
module PartitionBinary {
  import opened Bytes

  const MAX_PARTITION_LENGTH: nat := 0xC00
  const FF: byte := 0xFF

  type Digest = d: seq<byte> | |d| == 16 witness seq(16, _ => 0)

  // A table row.  Python integers are unbounded; names are held encoded.
  datatype Part = Part(name: seq<byte>, type_: int, subtype: int, offset: int, size: int, encrypted: bool)

  datatype Error = FieldTooWide | TooLong | BadLength | BadMagic | BadDigest | NoEndMarker

  datatype Result<T> = Ok(value: T) | Err(error: Error)

  predicate FitsWidths(p: Part) {
    && 0 <= p.type_ < 256 && 0 <= p.subtype < 256
    && 0 <= p.offset < 0x1_0000_0000 && 0 <= p.size < 0x1_0000_0000
  }

  // A name field: cut at 16 bytes, padded with NULs.
  function PackName(name: seq<byte>): (s: seq<byte>)
    ensures |s| == 16
  {
    if |name| >= 16 then name[..16] else name + seq(16 - |name|, _ => 0)
  }

  function UpToNul(s: seq<byte>): (t: seq<byte>)
    ensures t <= s && 0 !in t && (t == s || s[|t|] == 0)
  {
    if s == [] || s[0] == 0 then [] else [s[0]] + UpToNul(s[1..])
  }

  // What survives of a name.
  function StoredName(name: seq<byte>): seq<byte> {
    UpToNul(if |name| >= 16 then name[..16] else name)
  }

  function Stored(p: Part): Part {
    p.(name := StoredName(p.name))
  }

  function PackPart(p: Part): (s: seq<byte>)
    requires FitsWidths(p)
    ensures |s| == 32
  {
    [0xAA, 0x50, p.type_, p.subtype] + EncodeWord(p.offset) + EncodeWord(p.size) + PackName(p.name)
    + EncodeWord(if p.encrypted then 1 else 0)
  }

  // Unknown flag bits are only warned about.
  function UnpackPart(s: seq<byte>): Result<Part>
    requires |s| == 32
  {
    if s[..2] != [0xAA, 0x50] then Err(BadMagic)
    else Ok(Part(UpToNul(s[12..28]), s[2], s[3], DecodeWord(s[4..8]), DecodeWord(s[8..12]),
      DecodeWord(s[28..]) % 2 == 1))
  }

  lemma NameRoundTrip(name: seq<byte>)
    ensures UpToNul(PackName(name)) == StoredName(name)
    ensures StoredName(name) == name <==> |name| <= 16 && 0 !in name
  {
    if |name| < 16 {
      UpToNulPadded(name, 16 - |name|);
    }
    StoredWhole(name);
  }

  lemma StoredWhole(name: seq<byte>)
    ensures StoredName(name) == name <==> |name| <= 16 && 0 !in name
  {
    hide UpToNul;
    var cut := if |name| >= 16 then name[..16] else name;
    CutAtNul(cut);
    assert |name| <= 16 ==> cut == name;
  }

  lemma CutAtNul(s: seq<byte>)
    ensures UpToNul(s) == s <==> 0 !in s
  {
    var t := UpToNul(s);
    hide UpToNul;
    if t != s {
      assert s[|t|] in s;
    }
  }

  lemma {:induction false} UpToNulPadded(name: seq<byte>, n: nat)
    ensures UpToNul(name + seq(n, _ => 0)) == UpToNul(name)
  {
    var s := name + seq(n, _ => 0);
    if name != [] && name[0] != 0 {
      assert s[1..] == name[1..] + seq(n, _ => 0);
      UpToNulPadded(name[1..], n);
    }
  }

  lemma FieldSlices(head: seq<byte>, a: seq<byte>, b: seq<byte>, name: seq<byte>, c: seq<byte>)
    requires |head| == |a| == |b| == |c| == 4 && |name| == 16
    ensures var s := head + a + b + name + c;
      |s| == 32 && s[..4] == head && s[4..8] == a && s[8..12] == b && s[12..28] == name && s[28..] == c
  {
  }

  lemma PartRoundTrip(p: Part)
    requires FitsWidths(p)
    ensures UnpackPart(PackPart(p)) == Ok(Stored(p))
    ensures PackPart(p)[0] == 0xAA
  {
    hide EncodeWord, DecodeWord, PackName, UpToNul, StoredName;
    var flags: uint32 := if p.encrypted then 1 else 0;
    var head: seq<byte> := [0xAA, 0x50, p.type_, p.subtype];
    FieldSlices(head, EncodeWord(p.offset), EncodeWord(p.size), PackName(p.name), EncodeWord(flags));
    assert PackPart(p)[..2] == PackPart(p)[..4][..2] == [0xAA, 0x50];
    WordRoundTrip(p.offset);
    WordRoundTrip(p.size);
    WordRoundTrip(flags);
    NameRoundTrip(p.name);
  }

  // ---------- the bytes of a record ----------

  // Magic, type, subtype, offset, size, name and flags of a row lie at `at`, numbers lowest
  // byte first and the name cut at 16 bytes or padded with NULs.
  ghost predicate RecordAt(s: seq<byte>, at: nat, p: Part) {
    && at + 32 <= |s|
    && s[at] == 0xAA && s[at + 1] == 0x50 && s[at + 2] as int == p.type_ && s[at + 3] as int == p.subtype
    && WordAt(s, at + 4, p.offset) && WordAt(s, at + 8, p.size)
    && (forall i :: at + 12 <= i < at + 28 ==> s[i] == if i - at - 12 < |p.name| then p.name[i - at - 12] else 0)
    && WordAt(s, at + 28, if p.encrypted then 1 else 0)
  }

  // The row that is read from the bytes at `at`: the name ends in front of the first NUL, and
  // of the flags only the lowest bit counts.
  ghost predicate ReadAt(s: seq<byte>, at: nat, p: Part) {
    && at + 32 <= |s|
    && s[at] == 0xAA && s[at + 1] == 0x50 && s[at + 2] as int == p.type_ && s[at + 3] as int == p.subtype
    && WordAt(s, at + 4, p.offset) && WordAt(s, at + 8, p.size)
    && |p.name| <= 16 && 0 !in p.name && p.name == s[at + 12..at + 12 + |p.name|]
    && (|p.name| < 16 ==> s[at + 12 + |p.name|] == 0)
    && (p.encrypted <==> s[at + 28] % 2 == 1)
  }

  lemma PackedLayout(p: Part)
    requires FitsWidths(p)
    ensures RecordAt(PackPart(p), 0, p)
  {
    hide EncodeWord, WordAt, PackName;
    var flags: uint32 := if p.encrypted then 1 else 0;
    var head: seq<byte> := [0xAA, 0x50, p.type_, p.subtype];
    var s := PackPart(p);
    FieldSlices(head, EncodeWord(p.offset), EncodeWord(p.size), PackName(p.name), EncodeWord(flags));
    assert s[..4] == head;
    WordLayout(s, 4, p.offset);
    WordLayout(s, 8, p.size);
    WordLayout(s, 28, flags);
    forall i | 12 <= i < 28
      ensures s[i] == if i - 12 < |p.name| then p.name[i - 12] else 0
    {
      assert s[i] == s[12..28][i - 12] == PackName(p.name)[i - 12];
      PaddedName(p.name, i - 12);
    }
    assert s[28..] == s[28..32];
  }

  lemma PaddedName(name: seq<byte>, i: nat)
    requires i < 16
    ensures PackName(name)[i] == if i < |name| then name[i] else 0
  {
  }

  // A record is accepted for its magic alone, and read field by field.
  lemma UnpackedLayout(s: seq<byte>)
    requires |s| == 32
    ensures UnpackPart(s).Ok? <==> s[0] == 0xAA && s[1] == 0x50
    ensures UnpackPart(s).Ok? ==> ReadAt(s, 0, UnpackPart(s).value)
    ensures UnpackPart(s).Err? ==> UnpackPart(s).error == BadMagic
  {
    hide WordAt, DecodeWord;
    assert s[..2] == [s[0], s[1]];
    WordLayout(s, 4, 0);
    WordLayout(s, 8, 0);
    var name := UpToNul(s[12..28]);
    assert name == s[12..28][..|name|] == s[12..12 + |name|];
    assert |name| < 16 ==> s[12 + |name|] == s[12..28][|name|];
    LowestBit(s[28..]);
  }

  lemma LowestBit(s: seq<byte>)
    requires |s| == 4
    ensures DecodeWord(s) % 2 == s[0] as int % 2
  {
  }

  // For instance, row "nvs" of type 1 and subtype 2 at 0x9000, 0x6000 long.
  lemma RecordOfNvs()
    ensures PackPart(Part([0x6E, 0x76, 0x73], 1, 2, 0x9000, 0x6000, false)) ==
      [0xAA, 0x50, 1, 2, 0, 0x90, 0, 0, 0, 0x60, 0, 0, 0x6E, 0x76, 0x73, 0] + seq(16, _ => 0)
  {
    assert EncodeWord(0x9000) == [0, 0x90, 0, 0] && EncodeWord(0x6000) == [0, 0x60, 0, 0];
  }

  // ---------- the table ----------

  const MARKER: seq<byte> := seq(32, _ => FF)
  const MD5_BEGIN: seq<byte> := [0xEB, 0xEB] + seq(14, _ => FF)

  function PackAll(parts: seq<Part>): (s: seq<byte>)
    requires forall i :: 0 <= i < |parts| ==> FitsWidths(parts[i])
    ensures |s| == 32 * |parts|
  {
    if parts == [] then [] else PackPart(parts[0]) + PackAll(parts[1..])
  }

  function ToBinary(parts: seq<Part>, md5sum: bool, md5: seq<byte> -> Digest): Result<seq<byte>> {
    if !(forall i :: 0 <= i < |parts| ==> FitsWidths(parts[i])) then Err(FieldTooWide)
    else
      var s := PackAll(parts);
      var t := if md5sum then s + MD5_BEGIN + md5(s) else s;
      if |t| >= MAX_PARTITION_LENGTH then Err(TooLong) else Ok(t + seq(MAX_PARTITION_LENGTH - |t|, _ => FF))
  }

  function Prepend(parts: seq<Part>, r: Result<seq<Part>>): Result<seq<Part>> {
    match r
    case Ok(rest) => Ok(parts + rest)
    case Err(e) => Err(e)
  }

  // The meaning of a binary table; `hashed` is what the MD5 record must have the digest of.
  function Parse(b: seq<byte>, hashed: seq<byte>, md5sum: bool, md5: seq<byte> -> Digest): Result<seq<Part>>
    decreases |b|
  {
    if b == [] then Err(NoEndMarker)
    else if |b| < 32 then Err(BadLength)
    else if b[..32] == MARKER then Ok([])
    else if md5sum && b[..2] == MD5_BEGIN[..2] then
      if b[16..32] == md5(hashed) then Parse(b[32..], hashed, md5sum, md5) else Err(BadDigest)
    else
      match UnpackPart(b[..32])
      case Err(e) => Err(e)
      case Ok(p) => Prepend([p], Parse(b[32..], hashed + b[..32], md5sum, md5))
  }

  method FromBinary(b: seq<byte>, md5sum: bool, md5: seq<byte> -> Digest) returns (r: Result<seq<Part>>)
    ensures r == Parse(b, [], md5sum, md5)
  {
    var result: seq<Part>, hashed: seq<byte> := [], [];
    var o := 0;
    PrependNone(Parse(b, [], md5sum, md5));
    assert b[o..] == b;
    while o < |b|
      invariant 0 <= o <= |b|
      invariant Parse(b, [], md5sum, md5) == Prepend(result, Parse(b[o..], hashed, md5sum, md5))
    {
      ghost var tail := b[o..];
      var data := if o + 32 <= |b| then b[o..o + 32] else b[o..];
      if |data| != 32 {
        return Err(BadLength);
      }
      assert data == tail[..32] && tail[32..] == b[o + 32..];
      assert data[..2] == tail[..2] && data[16..] == tail[16..32];
      if data == seq(32, _ => FF) {
        assert result + [] == result;
        return Ok(result);
      }
      if md5sum && data[..2] == MD5_BEGIN[..2] {
        if data[16..] != md5(hashed) {
          return Err(BadDigest);
        }
      } else {
        hashed := hashed + data;
        var p := UnpackPart(data);
        if p.Err? {
          return Err(p.error);
        }
        PrependTwice(result, p.value, Parse(tail[32..], hashed, md5sum, md5));
        result := result + [p.value];
      }
      o := o + 32;
    }
    return Err(NoEndMarker);
  }

  lemma PrependNone(r: Result<seq<Part>>)
    ensures Prepend([], r) == r
  {
    if r.Ok? {
      assert [] + r.value == r.value;
    }
  }

  lemma PrependTwice(parts: seq<Part>, p: Part, r: Result<seq<Part>>)
    ensures Prepend(parts, Prepend([p], r)) == Prepend(parts + [p], r)
  {
    if r.Ok? {
      assert parts + ([p] + r.value) == parts + [p] + r.value;
    }
  }

  function StoredAll(parts: seq<Part>): (s: seq<Part>)
    ensures |s| == |parts| && forall i :: 0 <= i < |parts| ==> s[i] == Stored(parts[i])
  {
    if parts == [] then [] else [Stored(parts[0])] + StoredAll(parts[1..])
  }

  lemma {:induction false} PackedAt(parts: seq<Part>, k: nat)
    requires k < |parts| && forall i :: 0 <= i < |parts| ==> FitsWidths(parts[i])
    ensures PackAll(parts)[32 * k..32 * k + 32] == PackPart(parts[k])
  {
    hide PackPart, FitsWidths;
    if k > 0 {
      PackedAt(parts[1..], k - 1);
      assert PackAll(parts)[32 * k..32 * k + 32] == PackAll(parts[1..])[32 * (k - 1)..32 * (k - 1) + 32];
    }
  }

  lemma WordWithin(b: seq<byte>, from: nat, s: seq<byte>, at: nat, w: int)
    requires from + |s| <= |b| && s == b[from..from + |s|] && WordAt(s, at, w)
    ensures WordAt(b, from + at, w)
  {
    assert s[at] == b[from + at] && s[at + 1] == b[from + at + 1];
    assert s[at + 2] == b[from + at + 2] && s[at + 3] == b[from + at + 3];
  }

  lemma RecordWithin(s: seq<byte>, at: nat, p: Part)
    requires at + 32 <= |s| && RecordAt(s[at..at + 32], 0, p)
    ensures RecordAt(s, at, p)
  {
    var r := s[at..at + 32];
    forall i | at + 12 <= i < at + 28
      ensures s[i] == if i - at - 12 < |p.name| then p.name[i - at - 12] else 0
    {
      assert s[i] == r[i - at];
    }
    assert r[0] == s[at] && r[1] == s[at + 1] && r[2] == s[at + 2] && r[3] == s[at + 3];
    WordWithin(s, at, r, 4, p.offset);
    WordWithin(s, at, r, 8, p.size);
    WordWithin(s, at, r, 28, if p.encrypted then 1 else 0);
  }

  // The whole binary table, byte by byte: row k is at 32 * k, the MD5 record with the digest of
  // all rows stands behind the last one, and the rest is 0xFF.
  lemma BinaryLayout(parts: seq<Part>, md5sum: bool, md5: seq<byte> -> Digest)
    requires ToBinary(parts, md5sum, md5).Ok?
    ensures var s, n := ToBinary(parts, md5sum, md5).value, 32 * |parts|;
      var end := if md5sum then n + 32 else n;
      && |s| == 0xC00 && end + 32 <= |s|
      && (forall k :: 0 <= k < |parts| ==> RecordAt(s, 32 * k, parts[k]))
      && (md5sum ==> s[n..n + 16] == [0xEB, 0xEB] + seq(14, _ => 0xFF))
      && (md5sum ==> s[n + 16..n + 32] == md5(s[..n]))
      && forall i :: end <= i < |s| ==> s[i] == 0xFF
  {
    hide RecordAt, PackPart, FitsWidths, PackAll;
    var s, packed, n := ToBinary(parts, md5sum, md5).value, PackAll(parts), 32 * |parts|;
    assert s[..n] == packed;
    forall k | 0 <= k < |parts|
      ensures RecordAt(s, 32 * k, parts[k])
    {
      PackedAt(parts, k);
      assert s[32 * k..32 * k + 32] == packed[32 * k..32 * k + 32];
      PackedLayout(parts[k]);
      RecordWithin(s, 32 * k, parts[k]);
    }
  }

  // What is read from any binary without an MD5 record: row k is the one at 32 * k, and the end
  // marker stands behind the last one.
  lemma {:induction false} ParsedLayout(b: seq<byte>, hashed: seq<byte>, md5: seq<byte> -> Digest)
    ensures var r := Parse(b, hashed, false, md5);
      r.Ok? ==>
        && 32 * |r.value| + 32 <= |b|
        && (forall k :: 0 <= k < |r.value| ==> ReadAt(b, 32 * k, r.value[k]))
        && b[32 * |r.value|..32 * |r.value| + 32] == seq(32, _ => FF)
    decreases |b|
  {
    hide ReadAt, UnpackPart;
    var r := Parse(b, hashed, false, md5);
    if r.Ok? {
      if b[..32] == MARKER {
        assert b[0..32] == b[..32];
      } else {
        UnpackedLayout(b[..32]);
        ParsedLayout(b[32..], hashed + b[..32], md5);
        var rest := Parse(b[32..], hashed + b[..32], false, md5).value;
        var n := |rest|;
        assert b[32 * n + 32..32 * n + 64] == b[32..][32 * n..32 * n + 32];
        forall k | 0 <= k < |r.value|
          ensures ReadAt(b, 32 * k, r.value[k])
        {
          if k == 0 {
            assert b[0..32] == b[..32];
            ReadWithin(b, 0, b[..32], 0, r.value[0]);
          } else {
            assert r.value[k] == rest[k - 1];
            ReadWithin(b, 32, b[32..], 32 * (k - 1), rest[k - 1]);
          }
        }
      }
    }
  }

  lemma SliceWithin(b: seq<byte>, from: nat, n: nat, lo: nat, hi: nat)
    requires from + n <= |b| && lo <= hi <= n
    ensures b[from..from + n][lo..hi] == b[from + lo..from + hi]
  {
    var x, y := b[from..from + n][lo..hi], b[from + lo..from + hi];
    forall k | 0 <= k < hi - lo
      ensures x[k] == y[k]
    {
      assert x[k] == b[from..from + n][lo + k];
    }
  }

  lemma ReadWithin(b: seq<byte>, from: nat, s: seq<byte>, at: nat, p: Part)
    requires from + |s| <= |b| && s == b[from..from + |s|] && ReadAt(s, at, p)
    ensures ReadAt(b, from + at, p)
  {
    hide WordAt;
    assert s[at] == b[from + at] && s[at + 1] == b[from + at + 1] && s[at + 28] == b[from + at + 28];
    assert s[at + 2] == b[from + at + 2] && s[at + 3] == b[from + at + 3];
    WordWithin(b, from, s, at + 4, p.offset);
    WordWithin(b, from, s, at + 8, p.size);
    SliceWithin(b, from, |s|, at + 12, at + 12 + |p.name|);
    var to := from + at;
    assert p.name == b[to + 12..to + 12 + |p.name|];
    assert WordAt(b, to + 4, p.offset) && WordAt(b, to + 8, p.size);
    assert b[to] == 0xAA && b[to + 1] == 0x50;
    assert b[to + 2] as int == p.type_ && b[to + 3] as int == p.subtype;
    assert p.encrypted <==> b[to + 28] % 2 == 1;
    assert |p.name| < 16 ==> b[to + 12 + |p.name|] == 0;
    assert |p.name| < 16 ==> s[at + 12 + |p.name|] == b[from + at + 12 + |p.name|];
  }

  // Reading packed records gives the stored rows, then goes on behind them.
  lemma {:induction false} ParseParts(parts: seq<Part>, rest: seq<byte>, hashed: seq<byte>, md5sum: bool,
      md5: seq<byte> -> Digest)
    requires forall i :: 0 <= i < |parts| ==> FitsWidths(parts[i])
    ensures Parse(PackAll(parts) + rest, hashed, md5sum, md5)
         == Prepend(StoredAll(parts), Parse(rest, hashed + PackAll(parts), md5sum, md5))
  {
    hide PackPart, Stored, UnpackPart;
    var b := PackAll(parts) + rest;
    if parts == [] {
      assert b == rest && hashed + PackAll(parts) == hashed;
      PrependNone(Parse(rest, hashed, md5sum, md5));
    } else {
      var data, more := PackPart(parts[0]), PackAll(parts[1..]);
      assert b[..32] == data && b[32..] == more + rest;
      PartRoundTrip(parts[0]);
      assert b[..2][0] == data[0] && MARKER[0] == FF && MD5_BEGIN[..2][0] == 0xEB;
      ParseParts(parts[1..], rest, hashed + data, md5sum, md5);
      assert hashed + PackAll(parts) == hashed + data + more;
      PrependFirst(Stored(parts[0]), StoredAll(parts[1..]), Parse(rest, hashed + PackAll(parts), md5sum, md5));
      hide Prepend;
    }
  }

  lemma PrependFirst(p: Part, parts: seq<Part>, r: Result<seq<Part>>)
    ensures Prepend([p], Prepend(parts, r)) == Prepend([p] + parts, r)
  {
    if r.Ok? {
      assert [p] + (parts + r.value) == [p] + parts + r.value;
    }
  }

  // How many rows the binary form holds.
  function Capacity(md5sum: bool): nat {
    if md5sum then 94 else 95
  }

  // Encoding succeeds exactly when every field fits and the rows leave room for the end marker
  // (and the MD5 record); decoding then gives back the rows with their stored names, with or
  // without the MD5 record, for any hash.
  lemma BinaryRoundTrip(parts: seq<Part>, md5sum: bool, md5: seq<byte> -> Digest)
    ensures
      var r := ToBinary(parts, md5sum, md5);
      && (r.Ok? <==> |parts| <= Capacity(md5sum) && forall i :: 0 <= i < |parts| ==> FitsWidths(parts[i]))
      && (r.Ok? ==> |r.value| == MAX_PARTITION_LENGTH && Parse(r.value, [], md5sum, md5) == Ok(StoredAll(parts)))
      && (r.Ok? ==> (Parse(r.value, [], md5sum, md5) == Ok(parts) <==>
                     forall i :: 0 <= i < |parts| ==> |parts[i].name| <= 16 && 0 !in parts[i].name))
  {
    hide FitsWidths, PackAll, Parse, Stored;
    var r := ToBinary(parts, md5sum, md5);
    if r.Ok? {
      ParsePacked(parts,
        if md5sum then MAX_PARTITION_LENGTH - 32 * |parts| - 32 else MAX_PARTITION_LENGTH - 32 * |parts|, md5sum, md5);
      var s, pad := PackAll(parts), seq(MAX_PARTITION_LENGTH - 32 * |parts| - (if md5sum then 32 else 0), _ => FF);
      assert r.value == (if md5sum then s + (MD5_BEGIN + md5(s) + pad) else s + pad);
      StoredIsPart(parts);
    }
  }

  lemma StoredIsPart(parts: seq<Part>)
    ensures StoredAll(parts) == parts <==> forall i :: 0 <= i < |parts| ==> |parts[i].name| <= 16 && 0 !in parts[i].name
  {
    hide StoredName;
    forall i | 0 <= i < |parts|
      ensures StoredAll(parts)[i] == parts[i] <==> |parts[i].name| <= 16 && 0 !in parts[i].name
    {
      NameRoundTrip(parts[i].name);
    }
  }

  lemma ParsePacked(parts: seq<Part>, n: nat, md5sum: bool, md5: seq<byte> -> Digest)
    requires n >= 32 && forall i :: 0 <= i < |parts| ==> FitsWidths(parts[i])
    ensures
      var s, pad := PackAll(parts), seq(n, _ => FF);
      Parse(if md5sum then s + (MD5_BEGIN + md5(s) + pad) else s + pad, [], md5sum, md5) == Ok(StoredAll(parts))
  {
    hide FitsWidths, PackAll, Parse;
    var s, pad := PackAll(parts), seq(n, _ => FF);
    EndMarker(pad, s, md5sum, md5);
    assert [] + s == s;
    if md5sum {
      Md5Record(s, pad, md5);
      ParseParts(parts, MD5_BEGIN + md5(s) + pad, [], md5sum, md5);
    } else {
      ParseParts(parts, pad, [], md5sum, md5);
    }
    assert StoredAll(parts) + [] == StoredAll(parts);
  }

  lemma EndMarker(pad: seq<byte>, hashed: seq<byte>, md5sum: bool, md5: seq<byte> -> Digest)
    requires |pad| >= 32 && forall i :: 0 <= i < |pad| ==> pad[i] == FF
    ensures Parse(pad, hashed, md5sum, md5) == Ok([])
  {
    assert pad[..32] == MARKER;
  }

  lemma Md5Record(s: seq<byte>, rest: seq<byte>, md5: seq<byte> -> Digest)
    ensures Parse(MD5_BEGIN + md5(s) + rest, s, true, md5) == Parse(rest, s, true, md5)
  {
    var b := MD5_BEGIN + md5(s) + rest;
    assert b[..2] == MD5_BEGIN[..2] && b[16..32] == md5(s) && b[32..] == rest;
    assert b[..32][0] == 0xEB && MARKER[0] == FF;
  }

  // A table whose MD5 record was made for other rows is refused.
  lemma WrongDigestRefused(parts: seq<Part>, digest: Digest, rest: seq<byte>, md5: seq<byte> -> Digest)
    requires forall i :: 0 <= i < |parts| ==> FitsWidths(parts[i])
    requires digest != md5(PackAll(parts))
    ensures Parse(PackAll(parts) + (MD5_BEGIN + digest + rest), [], true, md5) == Err(BadDigest)
  {
    var b := MD5_BEGIN + digest + rest;
    ParseParts(parts, b, [], true, md5);
    assert [] + PackAll(parts) == PackAll(parts);
    assert b[..2] == MD5_BEGIN[..2] && b[16..32] == digest;
    assert b[..32][0] == 0xEB && MARKER[0] == FF;
  }
}
