// Boot-slot selection over two flash sectors, each holding a sequence number with a
// checksum; the larger valid number decides.  Switching the slot is proved crash-atomic.
module OtaSelect {
  import opened Arith
  import opened Bytes
  import opened NorFlash

  const SECTOR: nat := 0x1000
  const RECORD: nat := 32
  const NO_SEQ: uint32 := 0xFFFF_FFFF

  datatype Select = Select(otaSeq: uint32, tag: seq<byte>, crc: uint32)

  function EncodeSelect(r: Select): (s: seq<byte>)
    requires |r.tag| == 24
    ensures |s| == RECORD
  {
    EncodeWord(r.otaSeq) + r.tag + EncodeWord(r.crc)
  }

  function DecodeSelect(s: seq<byte>): (r: Select)
    requires |s| == RECORD
    ensures |r.tag| == 24
  {
    Select(DecodeWord(s[..4]), s[4..28], DecodeWord(s[28..]))
  }

  lemma SelectRoundTrip(r: Select)
    requires |r.tag| == 24
    ensures DecodeSelect(EncodeSelect(r)) == r
  {
    var s := EncodeSelect(r);
    assert s[..4] == EncodeWord(r.otaSeq) && s[4..28] == r.tag && s[28..] == EncodeWord(r.crc);
    WordRoundTrip(r.otaSeq);
    WordRoundTrip(r.crc);
  }

  // Number, label and checksum of a record, the numbers lowest byte first.
  ghost predicate SelectAsBytes(s: seq<byte>, r: Select) {
    |s| == 32 && WordAt(s, 0, r.otaSeq) && s[4..28] == r.tag && WordAt(s, 28, r.crc)
  }

  lemma SelectLayout(r: Select, s: seq<byte>)
    requires |r.tag| == 24 && |s| == RECORD
    ensures SelectAsBytes(EncodeSelect(r), r) && SelectAsBytes(s, DecodeSelect(s))
  {
    hide EncodeWord, DecodeWord, WordAt;
    var e := EncodeSelect(r);
    assert e[0..4] == EncodeWord(r.otaSeq) && e[4..28] == r.tag && e[28..32] == EncodeWord(r.crc);
    WordLayout(e, 0, r.otaSeq);
    WordLayout(e, 28, r.crc);
    assert s[0..4] == s[..4] && s[28..32] == s[28..];
    WordLayout(s, 0, 0);
    WordLayout(s, 28, 0);
  }

  predicate SelectValid(r: Select, crc: uint32 -> uint32) {
    r.otaSeq != NO_SEQ && r.crc == crc(r.otaSeq)
  }

  predicate IsOtaData(flash: seq<byte>) {
    |flash| == 2 * SECTOR
  }

  function SelectAt(flash: seq<byte>, sec: nat): (r: Select)
    requires IsOtaData(flash) && sec < 2
    ensures |r.tag| == 24
  {
    DecodeSelect(flash[sec * SECTOR..sec * SECTOR + RECORD])
  }

  // ---------- what the flash content means ----------

  // The largest sequence number with a valid checksum, -1 if there is none.
  function Deciding(flash: seq<byte>, crc: uint32 -> uint32): (d: int)
    requires IsOtaData(flash)
    ensures -1 <= d < NO_SEQ
  {
    var a, b := SeqOf(SelectAt(flash, 0), crc), SeqOf(SelectAt(flash, 1), crc);
    if a >= b then a else b
  }

  function SeqOf(r: Select, crc: uint32 -> uint32): (d: int)
    ensures -1 <= d < NO_SEQ
  {
    if SelectValid(r, crc) then r.otaSeq else -1
  }

  datatype Choice = Default | Slot(n: nat)

  // Sequence number s selects slot (s - 1) mod count, in 32-bit arithmetic.
  function SlotOf(s: uint32, count: nat): Choice
    requires count > 0
  {
    Slot((if s == 0 then NO_SEQ else s - 1) % count)
  }

  function Boot(flash: seq<byte>, crc: uint32 -> uint32, count: nat): Choice
    requires IsOtaData(flash) && count > 0
  {
    var d := Deciding(flash, crc);
    if d < 0 then Default else SlotOf(d, count)
  }

  // ---------- the next sequence number ----------

  // The first of r, r + count, r + 2 * count, ... that is at least m.
  function NextSeq(m: nat, r: nat, count: nat): (s: nat)
    requires 0 < count
    ensures m <= s && r <= s && (s < m + count || s == r)
    decreases m - r
  {
    if m > r then NextSeq(m, r + count, count) else r
  }

  // The number a switch to `slot` writes when m decides, or when nothing does (m = -1).
  function TargetSeq(m: int, slot: nat, count: nat): nat
    requires slot < count
  {
    if m < 0 then slot + 1 else NextSeq(m, (slot + 1) % count, count)
  }

  lemma {:induction false} NextSeqForm(m: nat, r: nat, count: nat) returns (i: nat)
    requires 0 < count
    ensures NextSeq(m, r, count) == i * count + r
    decreases m - r
  {
    i := 0;
    if m > r {
      var j := NextSeqForm(m, r + count, count);
      i := j + 1;
    }
  }

  lemma NextSeqStep(m: nat, r: nat, count: nat)
    requires 0 < count && m > r
    ensures NextSeq(m, r, count) == NextSeq(m, r + count, count)
  {
  }

  lemma NextSeqDone(m: nat, r: nat, count: nat)
    requires 0 < count && m <= r
    ensures NextSeq(m, r, count) == r
  {
  }

  // The number written selects the requested slot, is no smaller than the deciding one,
  // exceeds it by less than the number of slots, and no number in between selects the slot.
  lemma TargetSeqSelects(m: int, slot: nat, count: nat)
    requires slot < count && m >= -1 && (m != 0 || slot + 1 < count)
    ensures var s := TargetSeq(m, slot, count);
      && 1 <= s && m <= s && (m >= 1 ==> s < m + count) && (m <= 0 ==> s <= count)
      && (s < NO_SEQ ==> SlotOf(s, count) == Slot(slot))
      && (forall t: uint32 :: m <= t < s && 1 <= t ==> SlotOf(t, count) != Slot(slot))
  {
    hide NextSeq;
    var s := TargetSeq(m, slot, count);
    var q := TargetForm(m, slot, count);
    DivUnique(s - 1, count, q, slot);
    forall t: uint32 | m <= t < s && 1 <= t
      ensures SlotOf(t, count) != Slot(slot)
    {
      CloseResidues(t - 1, s - 1, count);
    }
  }

  lemma TargetForm(m: int, slot: nat, count: nat) returns (q: nat)
    requires slot < count && m >= -1 && (m != 0 || slot + 1 < count)
    ensures TargetSeq(m, slot, count) == q * count + slot + 1
    ensures var s := TargetSeq(m, slot, count); m <= s && (m >= 1 ==> s < m + count) && (m <= 0 ==> s <= count)
  {
    hide NextSeq;
    TargetResidue(slot, count);
    if m < 0 {
      q := 0;
    } else {
      var i := NextSeqForm(m, (slot + 1) % count, count);
      if slot + 1 < count {
        q := i;
      } else {
        MulSign(i, count);
        q := i - 1;
        assert i * count == (i - 1) * count + count;
      }
    }
  }

  // A deciding number of zero is the one case in which the search can pick a wrong number:
  // for the last slot it stops at zero, which selects that slot only if the number of
  // slots divides 2^32.
  lemma ZeroSeqForLastSlot(count: nat)
    requires count > 0
    ensures TargetSeq(0, count - 1, count) == 0
    ensures SlotOf(TargetSeq(0, count - 1, count), count) == Slot(count - 1) <==> 0x1_0000_0000 % count == 0
  {
    TargetResidue(count - 1, count);
    var n: nat := NO_SEQ;
    var q, r := n / count, n % count;
    assert n == q * count + r;
    if r == count - 1 {
      assert n + 1 == (q + 1) * count;
      DivUnique(n + 1, count, q + 1, 0);
    } else {
      DivUnique(n + 1, count, q, r + 1);
    }
  }

  // Three slots: the search for the last one stops at zero, and the first one boots.
  lemma ZeroSeqOfThree()
    ensures TargetSeq(0, 2, 3) == 0 && SlotOf(TargetSeq(0, 2, 3), 3) == Slot(0)
  {
  }

  lemma TargetResidue(slot: nat, count: nat)
    requires slot < count
    ensures (slot + 1) % count == if slot + 1 < count then slot + 1 else 0
  {
    if slot + 1 < count {
      DivUnique(slot + 1, count, 0, slot + 1);
    } else {
      DivUnique(slot + 1, count, 1, 0);
    }
  }

  lemma CloseResidues(a: nat, b: nat, n: nat)
    requires a < b < a + n
    ensures a % n != b % n
  {
    var qa, qb := a / n, b / n;
    assert a == qa * n + a % n && b == qb * n + b % n;
    assert (qb - qa) * n == qb * n - qa * n;
    MulSign(qb - qa, n);
  }

  // ---------- interrupted switches ----------

  // The sector a switch erases: the one whose number does not decide.
  function TargetSector(flash: seq<byte>, crc: uint32 -> uint32): (sec: nat)
    requires IsOtaData(flash)
    ensures sec < 2
  {
    var a, b := SeqOf(SelectAt(flash, 0), crc), SeqOf(SelectAt(flash, 1), crc);
    if a >= 0 && a >= b then 1 else 0
  }

  ghost predicate SameOutside(a: seq<byte>, b: seq<byte>, sec: nat)
    requires IsOtaData(a) && IsOtaData(b) && sec < 2
  {
    forall i :: 0 <= i < 2 * SECTOR && !(sec * SECTOR <= i < sec * SECTOR + SECTOR) ==> a[i] == b[i]
  }

  lemma OtherSelect(a: seq<byte>, b: seq<byte>, sec: nat)
    requires IsOtaData(a) && IsOtaData(b) && sec < 2 && SameOutside(a, b, sec)
    ensures SelectAt(b, 1 - sec) == SelectAt(a, 1 - sec)
  {
    var p := (1 - sec) * SECTOR;
    assert a[p..p + RECORD] == b[p..p + RECORD];
  }

  // Whatever an interruption leaves in the sector being rewritten, the boot choice is the
  // old one as long as that sector's checksum does not fit, and the choice of its number
  // if the checksum fits a number that is not smaller.
  lemma InterruptedSwitch(flash: seq<byte>, after: seq<byte>, crc: uint32 -> uint32, count: nat)
    requires IsOtaData(flash) && IsOtaData(after) && count > 0
    requires SameOutside(flash, after, TargetSector(flash, crc))
    ensures var r := SelectAt(after, TargetSector(flash, crc));
      && (!SelectValid(r, crc) ==>
            Deciding(after, crc) == Deciding(flash, crc) && Boot(after, crc, count) == Boot(flash, crc, count))
      && (SelectValid(r, crc) && r.otaSeq >= Deciding(flash, crc) ==>
            Deciding(after, crc) == r.otaSeq && Boot(after, crc, count) == SlotOf(r.otaSeq, count))
  {
    hide SelectAt, SlotOf;
    OtherSelect(flash, after, TargetSector(flash, crc));
  }

  // A record of which only the first k bytes have reached the erased sector.
  function Torn(enc: seq<byte>, k: nat): (s: seq<byte>)
    requires |enc| == RECORD && k <= RECORD
    ensures |s| == RECORD
  {
    enc[..k] + AllErased(RECORD - k)
  }

  // The checksum is not fooled by the first one, two or three bytes of the number alone.
  predicate TornNeverValid(s: uint32, crc: uint32 -> uint32) {
    forall k :: 1 <= k <= 3 ==> var t := DecodeWord(EncodeWord(s)[..k] + AllErased(4 - k)); t == s || crc(t) != NO_SEQ
  }

  // A partly written record is either invalid or already carries the full number.
  lemma TornRecord(r: Select, k: nat, crc: uint32 -> uint32)
    requires |r.tag| == 24 && k <= RECORD && TornNeverValid(r.otaSeq, crc)
    ensures var t := DecodeSelect(Torn(EncodeSelect(r), k)); SelectValid(t, crc) ==> t.otaSeq == r.otaSeq
  {
    var enc := EncodeSelect(r);
    var s := Torn(enc, k);
    WordRoundTrip(r.otaSeq);
    if k >= 4 {
      assert s[..4] == EncodeWord(r.otaSeq);
    } else {
      assert s[..4] == EncodeWord(r.otaSeq)[..k] + AllErased(4 - k);
      assert s[28..] == AllErased(4);
    }
  }

  // A record with the erased value as its number is never valid.
  lemma TornNoSeq(r: Select, k: nat)
    requires |r.tag| == 24 && k <= RECORD && r.otaSeq == NO_SEQ
    ensures DecodeSelect(Torn(EncodeSelect(r), k)).otaSeq == NO_SEQ
  {
    assert EncodeWord(NO_SEQ) == AllErased(4);
    assert Torn(EncodeSelect(r), k)[..4] == AllErased(4);
  }

  lemma SpliceSelect(flash: seq<byte>, sec: nat, s: seq<byte>)
    requires IsOtaData(flash) && sec < 2 && RECORD <= |s| <= SECTOR
    ensures IsOtaData(Splice(flash, sec * SECTOR, s))
    ensures SelectAt(Splice(flash, sec * SECTOR, s), sec) == DecodeSelect(s[..RECORD])
    ensures SameOutside(flash, Splice(flash, sec * SECTOR, s), sec)
  {
    var m, p := Splice(flash, sec * SECTOR, s), sec * SECTOR;
    assert m[p..p + |s|] == s;
    assert m[p..p + RECORD] == m[p..p + |s|][..RECORD];
  }

  lemma ErasedInvalid(crc: uint32 -> uint32)
    ensures !SelectValid(DecodeSelect(AllErased(RECORD)), crc)
  {
    assert AllErased(RECORD)[..4] == AllErased(4);
  }

  datatype Error = Ok | InvalidArg

  class OtaData {
    const flash: array<byte>
    const crc: uint32 -> uint32
    const count: nat
    // Every content the flash has had: what an interruption may leave behind.
    ghost var images: seq<seq<byte>>

    ghost predicate Valid()
      reads this, flash
    {
      flash.Length == 2 * SECTOR && 0 < count <= 16
    }

    constructor (flash: array<byte>, crc: uint32 -> uint32, count: nat)
      requires flash.Length == 2 * SECTOR && 0 < count <= 16
      ensures Valid() && this.flash == flash && this.crc == crc && this.count == count && images == []
    {
      this.flash, this.crc, this.count, images := flash, crc, count, [];
    }

    method ReadSelect(sec: nat) returns (r: Select)
      requires Valid() && sec < 2
      ensures r == SelectAt(flash[..], sec) && |r.tag| == 24
    {
      assert flash[sec * SECTOR..sec * SECTOR + RECORD] == flash[..][sec * SECTOR..sec * SECTOR + RECORD];
      r := DecodeSelect(flash[sec * SECTOR..sec * SECTOR + RECORD]);
    }

    method EraseSector(sec: nat)
      requires Valid() && sec < 2
      modifies flash, this`images
      ensures flash[..] == Splice(old(flash[..]), sec * SECTOR, AllErased(SECTOR))
      ensures images == old(images) + [flash[..]]
    {
      forall i | sec * SECTOR <= i < sec * SECTOR + SECTOR {
        flash[i] := ERASED;
      }
      images := images + [flash[..]];
    }

    // Programs a record byte by byte onto an erased sector.
    method ProgramRecord(sec: nat, rec: seq<byte>)
      requires Valid() && sec < 2 && |rec| == RECORD
      requires forall i :: sec * SECTOR <= i < sec * SECTOR + RECORD ==> flash[i] == ERASED
      modifies flash, this`images
      ensures flash[..] == Splice(old(flash[..]), sec * SECTOR, rec)
      ensures images == old(images) + TornImages(old(flash[..]), sec * SECTOR, rec, RECORD)
    {
      hide Torn, And, Splice;
      var base := sec * SECTOR;
      ghost var was := flash[..];
      TornNone(was, base, rec);
      for k := 0 to RECORD
        invariant flash[..] == Splice(was, base, Torn(rec, k))
        invariant images == old(images) + TornImages(was, base, rec, k)
      {
        TornNext(was, base, rec, k);
        AndErased(rec[k]);
        ghost var now := flash[..];
        assert flash[base + k] == now[base + k] == ERASED;
        flash[base + k] := And(flash[base + k], rec[k]);
        assert flash[..] == now[base + k := rec[k]];
        images := images + [flash[..]];
      }
      TornAll(rec);
    }

    // Afterwards the new number decides, unless it is the erased value, which no record can
    // carry: then the old number still decides.  If no torn number passes the checksum, every image
    // of the rewrite either boots as before or already boots the new number.
    method RewriteOtaSeq(s: uint32, sec: nat, r: Select)
      requires Valid() && sec == TargetSector(flash[..], crc) && |r.tag| == 24
      requires s >= Deciding(flash[..], crc)
      modifies flash, this`images
      ensures Deciding(flash[..], crc) == if s < NO_SEQ then s else old(Deciding(flash[..], crc))
      ensures |images| > |old(images)| && images[..|old(images)|] == old(images) && images[|images| - 1] == flash[..]
      ensures TornNeverValid(s, crc) ==>
        forall k :: |old(images)| <= k < |images| ==> BootsEither(images[k], old(flash[..]), s, crc, count)
    {
      hide TornNeverValid, Splice, DecodeSelect, EncodeSelect, Deciding, TargetSector, Boot, BootsEither;
      var rec := Select(s, r.tag, crc(s));
      ghost var was := flash[..];
      EraseSector(sec);
      ghost var erased, before := flash[..], images;
      assert forall i :: sec * SECTOR <= i < sec * SECTOR + SECTOR ==> flash[i] == ERASED by {
        assert erased[sec * SECTOR..sec * SECTOR + SECTOR] == AllErased(SECTOR);
        forall i | sec * SECTOR <= i < sec * SECTOR + SECTOR
          ensures erased[i] == ERASED
        {
          assert erased[i] == erased[sec * SECTOR..sec * SECTOR + SECTOR][i - sec * SECTOR];
        }
      }
      ProgramRecord(sec, EncodeSelect(rec));
      ErasedBootsAsBefore(was, sec, s, crc, count);
      OneTornBoots(was, sec, rec, crc, count, RECORD);
      TornAll(EncodeSelect(rec));
      forall k | TornNeverValid(s, crc) && |old(images)| <= k < |images|
        ensures BootsEither(images[k], was, s, crc, count)
      {
        if k == |old(images)| {
          assert images[k] == erased;
        } else {
          TornBoots(was, sec, rec, crc, count, RECORD, k - |before|);
          assert images[k] == TornImages(erased, sec * SECTOR, EncodeSelect(rec), RECORD)[k - |before|];
        }
      }
    }

    // esp_ota_get_boot_partition, for data that is not empty of OTA slots.
    method GetBootPartition() returns (c: Choice)
      requires Valid()
      ensures c == Boot(flash[..], crc, count)
    {
      hide SelectAt;
      var s0 := ReadSelect(0);
      var s1 := ReadSelect(1);
      if s0.otaSeq == NO_SEQ && s1.otaSeq == NO_SEQ {
        c := Default;
      } else if SelectValid(s0, crc) && SelectValid(s1, crc) {
        c := SlotOf(if s0.otaSeq >= s1.otaSeq then s0.otaSeq else s1.otaSeq, count);
      } else if SelectValid(s0, crc) {
        c := SlotOf(s0.otaSeq, count);
      } else if SelectValid(s1, crc) {
        c := SlotOf(s1.otaSeq, count);
      } else {
        c := Default;
      }
    }

    // The search loop: counts i up until the candidate is no smaller than m.
    method SearchSeq(m: uint32, slot: nat) returns (s: uint32)
      requires Valid() && slot < count && NextSeq(m, (slot + 1) % count, count) <= NO_SEQ
      ensures s == NextSeq(m, (slot + 1) % count, count)
    {
      hide NextSeq;
      var i: uint32 := 0;
      var r := (slot + 1) % count;
      while m > r + i * count
        invariant i <= i * count
        invariant NextSeq(m, r + i * count, count) == NextSeq(m, r, count)
        decreases m - (r + i * count)
      {
        assert (i + 1) * count == i * count + count;
        NextSeqStep(m, r + i * count, count);
        i := i + 1;
      }
      NextSeqDone(m, r + i * count, count);
      s := r + i * count;
    }

    // The number a switch to the slot writes.
    ghost function Target(slot: nat): nat
      requires Valid() && slot < count
      reads this, flash
    {
      TargetSeq(Deciding(flash[..], crc), slot, count)
    }

    // esp_rewrite_ota_data, while numbers last: afterwards the requested slot boots, except
    // in the one case of a deciding number of zero.  When the erased value itself is the next
    // number, the switch is reported as done and the old choice still boots.  If no torn number passes the checksum,
    // an interruption at any moment leaves a flash that boots the old choice or the new one.
    method SetBootSlot(subtype: nat) returns (err: Error)
      requires Valid() && (subtype % 16 < count ==> Target(subtype % 16) <= NO_SEQ)
      modifies flash, this`images
      ensures err == if subtype % 16 < count then Ok else InvalidArg
      ensures err != Ok ==> flash[..] == old(flash[..]) && images == old(images)
      ensures err == Ok && old(Target(subtype % 16)) == NO_SEQ ==>
        Deciding(flash[..], crc) == old(Deciding(flash[..], crc))
          && Boot(flash[..], crc, count) == old(Boot(flash[..], crc, count))
      ensures err == Ok && old(Target(subtype % 16)) < NO_SEQ ==> Deciding(flash[..], crc) == old(Target(subtype % 16))
      ensures err == Ok && old(Target(subtype % 16)) < NO_SEQ ==>
        (Boot(flash[..], crc, count) == Slot(subtype % 16) <==>
        old(Deciding(flash[..], crc)) != 0 || subtype % 16 + 1 < count || 0x1_0000_0000 % count == 0)
      ensures |images| >= |old(images)| && images[..|old(images)|] == old(images)
      ensures err == Ok ==> |images| > |old(images)| && images[|images| - 1] == flash[..]
      ensures err == Ok && TornNeverValid(old(Target(subtype % 16)), crc) ==>
        forall k :: |old(images)| <= k < |images| ==>
          IsOtaData(images[k])
            && Boot(images[k], crc, count) in {old(Boot(flash[..], crc, count)), Boot(flash[..], crc, count)}
    {
      hide SelectAt, SlotOf, TornNeverValid, NextSeq, BootsEither, Boot, Deciding, TargetSector, SelectValid;
      var slot := subtype % 16;
      if slot >= count {
        return InvalidArg;
      }
      var s0 := ReadSelect(0);
      var s1 := ReadSelect(1);
      ghost var was := flash[..];
      DecidingCases(was, crc);
      TargetLeast(Deciding(was, crc), slot, count);
      var s;
      if SelectValid(s0, crc) && SelectValid(s1, crc) {
        s := SearchSeq(if s0.otaSeq >= s1.otaSeq then s0.otaSeq else s1.otaSeq, slot);
        if s0.otaSeq >= s1.otaSeq {
          RewriteOtaSeq(s, 1, s1);
        } else {
          RewriteOtaSeq(s, 0, s0);
        }
      } else if SelectValid(s0, crc) {
        s := SearchSeq(s0.otaSeq, slot);
        RewriteOtaSeq(s, 1, s1);
      } else if SelectValid(s1, crc) {
        s := SearchSeq(s1.otaSeq, slot);
        RewriteOtaSeq(s, 0, s0);
      } else {
        s := slot + 1;
        RewriteOtaSeq(s, 0, s0);
      }
      if s < NO_SEQ {
        SwitchBoots(flash[..], Deciding(was, crc), slot, crc, count);
      } else {
        SameDecides(was, flash[..], crc, count);
      }
      forall k | TornNeverValid(s, crc) && |old(images)| <= k < |images|
        ensures IsOtaData(images[k])
          && Boot(images[k], crc, count) in {Boot(was, crc, count), Boot(flash[..], crc, count)}
      {
        EitherBoot(images[k], was, s, crc, count);
      }
      return Ok;
    }

    // Choosing the factory image erases the whole partition, first sector first.
    method SetBootFactory()
      requires Valid()
      modifies flash, this`images
      ensures Boot(flash[..], crc, count) == Default
      ensures |images| == |old(images)| + 2 && images[..|old(images)|] == old(images)
      ensures images[|old(images)|] == Splice(old(flash[..]), 0, AllErased(SECTOR))
    {
      hide AllErased;
      ghost var was := flash[..];
      EraseSector(0);
      ghost var half := flash[..];
      EraseSector(1);
      BothErased(was, half, flash[..], crc);
    }
  }

  lemma DecidingCases(flash: seq<byte>, crc: uint32 -> uint32)
    requires IsOtaData(flash)
    ensures var s0, s1 := SelectAt(flash, 0), SelectAt(flash, 1);
      var v0, v1 := SelectValid(s0, crc), SelectValid(s1, crc);
      var d := if v0 && (v1 ==> s0.otaSeq >= s1.otaSeq) then s0.otaSeq else if v1 then s1.otaSeq else -1;
      var sec := if v0 && (v1 ==> s0.otaSeq >= s1.otaSeq) then 1 else 0;
      Deciding(flash, crc) == d && TargetSector(flash, crc) == sec
  {
    hide SelectAt;
  }

  lemma TargetLeast(m: int, slot: nat, count: nat)
    requires slot < count && m >= -1
    ensures m <= TargetSeq(m, slot, count)
  {
  }

  // When the number of a switch decides, the requested slot boots if and only if the number
  // it replaced was not zero, or the slot is not the last, or the slots divide 2^32.
  lemma SwitchBoots(now: seq<byte>, m: int, slot: nat, crc: uint32 -> uint32, count: nat)
    requires IsOtaData(now) && slot < count && m >= -1
    requires Deciding(now, crc) == TargetSeq(m, slot, count)
    ensures Boot(now, crc, count) == SlotOf(TargetSeq(m, slot, count), count)
    ensures Boot(now, crc, count) == Slot(slot) <==> m != 0 || slot + 1 < count || 0x1_0000_0000 % count == 0
  {
    hide Deciding, SlotOf, TargetSeq;
    if m != 0 || slot + 1 < count {
      TargetSeqSelects(m, slot, count);
    } else {
      ZeroSeqForLastSlot(count);
    }
  }

  lemma EitherBoot(im: seq<byte>, was: seq<byte>, s: uint32, crc: uint32 -> uint32, count: nat)
    requires count > 0 && IsOtaData(was) && BootsEither(im, was, s, crc, count)
    ensures IsOtaData(im)
      && (Boot(im, crc, count) == Boot(was, crc, count) || (s < NO_SEQ && Boot(im, crc, count) == SlotOf(s, count)))
  {
  }

  lemma SameDecides(was: seq<byte>, now: seq<byte>, crc: uint32 -> uint32, count: nat)
    requires count > 0 && IsOtaData(was) && IsOtaData(now) && Deciding(now, crc) == Deciding(was, crc)
    ensures Boot(now, crc, count) == Boot(was, crc, count)
  {
  }

  lemma BothErased(was: seq<byte>, half: seq<byte>, after: seq<byte>, crc: uint32 -> uint32)
    requires IsOtaData(was) && half == Splice(was, 0 * SECTOR, AllErased(SECTOR))
    requires after == Splice(half, 1 * SECTOR, AllErased(SECTOR))
    ensures IsOtaData(half) && IsOtaData(after) && Deciding(after, crc) == -1
    ensures SeqOf(SelectAt(half, 0), crc) == -1 && SelectAt(half, 1) == SelectAt(was, 1)
  {
    hide DecodeSelect, AllErased, Deciding, SelectAt, Splice;
    ErasedPrefix();
    ErasedInvalid(crc);
    SpliceSelect(was, 0, AllErased(SECTOR));
    SpliceSelect(half, 1, AllErased(SECTOR));
    OtherSelect(was, half, 0);
    OtherSelect(half, after, 1);
    assert Deciding(after, crc)
      == (var a, b := SeqOf(SelectAt(after, 0), crc), SeqOf(SelectAt(after, 1), crc); if a >= b then a else b) by {
      DecidingDef(after, crc);
    }
  }

  lemma DecidingDef(flash: seq<byte>, crc: uint32 -> uint32)
    requires IsOtaData(flash)
    ensures Deciding(flash, crc) ==
      (var a, b := SeqOf(SelectAt(flash, 0), crc), SeqOf(SelectAt(flash, 1), crc); if a >= b then a else b)
  {
  }

  // Unlike a switch, the factory reset is not crash-atomic: between the two erasures the
  // device boots the slot of the second sector.  It is the old choice or the default
  // exactly if that sector holds nothing or the same slot, or already decided.
  lemma FactoryResetHalfway(was: seq<byte>, crc: uint32 -> uint32, count: nat)
    requires IsOtaData(was) && count > 0
    ensures var half := Splice(was, 0, AllErased(SECTOR));
      var a, b := SeqOf(SelectAt(was, 0), crc), SeqOf(SelectAt(was, 1), crc);
      Boot(half, crc, count) in {Boot(was, crc, count), Default} <==>
        b < 0 || b >= a || SlotOf(a, count) == SlotOf(b, count)
  {
    hide AllErased, SelectAt, Splice;
    var half := Splice(was, 0, AllErased(SECTOR));
    assert half == Splice(was, 0 * SECTOR, AllErased(SECTOR));
    DecidingDef(was, crc);
    BothErased(was, half, Splice(half, 1 * SECTOR, AllErased(SECTOR)), crc);
    DecidingDef(half, crc);
  }

  function SectorWith(r: Select): (s: seq<byte>)
    requires |r.tag| == 24
    ensures |s| == SECTOR
  {
    EncodeSelect(r) + AllErased(SECTOR - RECORD)
  }

  // With number 3 in the first sector and 2 in the second, four slots boot slot 2, and a
  // factory reset cut off between the erasures boots slot 1.
  lemma FactoryResetBootsOlder(crc: uint32 -> uint32, tag: seq<byte>)
    requires |tag| == 24
    ensures var was := SectorWith(Select(3, tag, crc(3))) + SectorWith(Select(2, tag, crc(2)));
      && Boot(was, crc, 4) == Slot(2)
      && Boot(Splice(was, 0, AllErased(SECTOR)), crc, 4) == Slot(1)
  {
    hide AllErased, Splice, EncodeSelect, DecodeSelect;
    var a, b := Select(3, tag, crc(3)), Select(2, tag, crc(2));
    var was := SectorWith(a) + SectorWith(b);
    SelectRoundTrip(a);
    SelectRoundTrip(b);
    assert was[..RECORD] == EncodeSelect(a) && was[SECTOR..SECTOR + RECORD] == EncodeSelect(b);
    assert SelectAt(was, 0) == a && SelectAt(was, 1) == b;
    var half := Splice(was, 0, AllErased(SECTOR));
    assert half == Splice(was, 0 * SECTOR, AllErased(SECTOR));
    BothErased(was, half, Splice(half, 1 * SECTOR, AllErased(SECTOR)), crc);
  }

  // Numbers last: after any sequence of n switches the deciding number has grown by less
  // than count per switch.
  function AfterSwitches(d: int, slots: seq<nat>, count: nat): int
    requires forall k :: 0 <= k < |slots| ==> slots[k] < count
    decreases |slots|
  {
    if slots == [] then d else AfterSwitches(TargetSeq(d, slots[0], count), slots[1..], count)
  }

  lemma OneMore(n: nat, k: nat)
    ensures (n + 1) * k == n * k + k
  {
  }

  lemma {:induction false} SwitchesStayInRange(d: int, slots: seq<nat>, count: nat)
    requires forall k :: 0 <= k < |slots| ==> slots[k] < count
    requires (d >= 1 || d == -1) && 0 < count
    ensures AfterSwitches(d, slots, count) <= (if d >= 1 then d else 1) + |slots| * (count - 1)
    ensures AfterSwitches(d, slots, count) >= 1 || (slots == [] && d == -1)
    ensures slots != [] && AfterSwitches(d, slots, count) < NO_SEQ ==>
      SlotOf(AfterSwitches(d, slots, count), count) == Slot(slots[|slots| - 1])
    decreases |slots|
  {
    hide TargetSeq, SlotOf;
    if slots != [] {
      var s, rest := TargetSeq(d, slots[0], count), slots[1..];
      TargetSeqSelects(d, slots[0], count);
      SwitchesStayInRange(s, rest, count);
      OneMore(|rest|, count - 1);
      assert |slots| == |rest| + 1;
      assert rest != [] ==> rest[|rest| - 1] == slots[|slots| - 1];
    }
  }

  // The flash boots as `was` does, or boots number s.
  ghost predicate BootsEither(im: seq<byte>, was: seq<byte>, s: uint32, crc: uint32 -> uint32, count: nat)
    requires count > 0 && IsOtaData(was)
  {
    && IsOtaData(im)
    && (Boot(im, crc, count) == Boot(was, crc, count) || (s < NO_SEQ && Boot(im, crc, count) == SlotOf(s, count)))
  }

  // The contents the flash goes through while the first k bytes of a record are programmed.
  ghost function TornImages(erased: seq<byte>, base: nat, rec: seq<byte>, k: nat): (r: seq<seq<byte>>)
    requires base + RECORD <= |erased| && |rec| == RECORD && k <= RECORD
    ensures |r| == k
  {
    if k == 0 then [] else TornImages(erased, base, rec, k - 1) + [Splice(erased, base, Torn(rec, k))]
  }

  lemma TornNone(was: seq<byte>, base: nat, rec: seq<byte>)
    requires |rec| == RECORD && base + RECORD <= |was|
    requires forall i :: base <= i < base + RECORD ==> was[i] == ERASED
    ensures was == Splice(was, base, Torn(rec, 0))
  {
  }

  lemma TornAll(rec: seq<byte>)
    requires |rec| == RECORD
    ensures Torn(rec, RECORD) == rec
  {
  }

  lemma ErasedBootsAsBefore(was: seq<byte>, sec: nat, s: uint32, crc: uint32 -> uint32, count: nat)
    requires IsOtaData(was) && count > 0 && sec == TargetSector(was, crc)
    ensures BootsEither(Splice(was, sec * SECTOR, AllErased(SECTOR)), was, s, crc, count)
  {
    hide DecodeSelect, Boot, TargetSector, AllErased;
    var im := Splice(was, sec * SECTOR, AllErased(SECTOR));
    SpliceSelect(was, sec, AllErased(SECTOR));
    assert AllErased(SECTOR)[..RECORD] == AllErased(RECORD) by { ErasedPrefix(); }
    ErasedInvalid(crc);
    InterruptedSwitch(was, im, crc, count);
  }

  lemma ErasedPrefix()
    ensures AllErased(SECTOR)[..RECORD] == AllErased(RECORD)
  {
  }

  lemma OneTornBoots(was: seq<byte>, sec: nat, rec: Select, crc: uint32 -> uint32, count: nat, k: nat)
    requires IsOtaData(was) && count > 0 && sec == TargetSector(was, crc) && |rec.tag| == 24 && k <= RECORD
    requires rec.otaSeq >= Deciding(was, crc) && (k < RECORD ==> TornNeverValid(rec.otaSeq, crc))
    requires rec.crc == crc(rec.otaSeq)
    ensures var im := Splice(Splice(was, sec * SECTOR, AllErased(SECTOR)), sec * SECTOR, Torn(EncodeSelect(rec), k));
      && BootsEither(im, was, rec.otaSeq, crc, count)
      && (k == RECORD ==> Deciding(im, crc) == if rec.otaSeq < NO_SEQ then rec.otaSeq else Deciding(was, crc))
  {
    hide DecodeSelect, EncodeSelect, Boot, TargetSector, AllErased, TornNeverValid, Deciding, SelectAt, Torn, SlotOf;
    var enc := EncodeSelect(rec);
    var erased := Splice(was, sec * SECTOR, AllErased(SECTOR));
    var im := Splice(erased, sec * SECTOR, Torn(enc, k));
    SpliceSelect(was, sec, AllErased(SECTOR));
    SpliceSelect(erased, sec, Torn(enc, k));
    assert Torn(enc, k)[..RECORD] == Torn(enc, k);
    SelectRoundTrip(rec);
    TornAll(enc);
    if k < RECORD {
      TornRecord(rec, k, crc);
    }
    if rec.otaSeq == NO_SEQ {
      TornNoSeq(rec, k);
    }
    InterruptedSwitch(was, im, crc, count);
  }

  lemma {:induction false} TornBoots(was: seq<byte>, sec: nat, rec: Select, crc: uint32 -> uint32, count: nat, k: nat,
      j: nat)
    requires IsOtaData(was) && count > 0 && sec == TargetSector(was, crc) && |rec.tag| == 24 && j < k <= RECORD
    requires rec.otaSeq >= Deciding(was, crc) && TornNeverValid(rec.otaSeq, crc)
    requires rec.crc == crc(rec.otaSeq)
    ensures var erased := Splice(was, sec * SECTOR, AllErased(SECTOR));
      BootsEither(TornImages(erased, sec * SECTOR, EncodeSelect(rec), k)[j], was, rec.otaSeq, crc, count)
  {
    hide TargetSector, AllErased, TornNeverValid, Deciding, Torn, BootsEither, EncodeSelect, Splice;
    if j == k - 1 {
      OneTornBoots(was, sec, rec, crc, count, k);
    } else {
      TornBoots(was, sec, rec, crc, count, k - 1, j);
    }
  }

  lemma TornNext(was: seq<byte>, base: nat, rec: seq<byte>, k: nat)
    requires |rec| == RECORD && k < RECORD && base + RECORD <= |was|
    ensures Splice(was, base, Torn(rec, k))[base + k] == ERASED
    ensures Splice(was, base, Torn(rec, k))[base + k := rec[k]] == Splice(was, base, Torn(rec, k + 1))
  {
    var a, b := Torn(rec, k), Torn(rec, k + 1);
    assert a[k := rec[k]] == b;
  }
}
