// The byte-buffer discipline of the ring buffer: no headers, one retrieval outstanding
// at a time, proved to be a bounded first-in first-out queue of bytes.
module ByteRing {
  import opened Bytes
  import opened CircularBytes

  class ByteBuffer {
    const size: nat
    const buf: array<byte>
    var write: nat
    var read: nat
    var free: nat
    var full: bool
    var itemsWaiting: int

    ghost var returned: seq<byte>   // every byte received and returned so far
    ghost var held: nat             // size of the retrieval not yet returned, 0 if none

    // Number of bytes between the free and the write pointer.
    ghost function Used(): int
      reads this
    {
      if full then size else if write >= free then write - free else write + size - free
    }

    ghost predicate Valid()
      reads this, buf
    {
      && 0 < size == buf.Length < 0x8000_0000
      && write < size && free < size && (full ==> write == free)
      && held <= Used() && read == Wrap(size, free + held)
      && itemsWaiting == Used() - held
    }

    // The bytes sent so far, those received so far, and the difference.
    ghost function Sent(): seq<byte>
      requires Valid()
      reads this, buf
    {
      returned + Circular(buf[..], free, Used())
    }

    ghost function Received(): seq<byte>
      requires Valid()
      reads this, buf
    {
      returned + Circular(buf[..], free, held)
    }

    lemma ReceivedIsPrefix()
      requires Valid()
      ensures Received() <= Sent() && itemsWaiting == |Sent()| - |Received()|
    {
      CircularSplit(buf[..], free, Used(), held);
    }

    constructor (bufferSize: nat)
      requires 0 < bufferSize < 0x8000_0000
      ensures Valid() && fresh(buf) && size == bufferSize
      ensures Sent() == Received() == [] && held == 0 && Used() == 0
    {
      size := bufferSize;
      buf := new byte[bufferSize];
      write, read, free, full, itemsWaiting := 0, 0, 0, false, 0;
      returned, held := [], 0;
    }

    // Admission by the pointers is admission by the true free space.
    method CheckItemFits(itemSize: nat) returns (fits: bool)
      requires Valid() && 0 < itemSize <= size
      ensures fits <==> itemSize <= size - Used()
    {
      if write == free {
        return !full;
      }
      if free > write {
        return itemSize <= free - write;
      }
      return itemSize <= size - (write - free);
    }

    method CopyBytes(p: nat, data: seq<byte>)
      requires p + |data| <= buf.Length
      modifies buf
      ensures buf[..] == Splice(old(buf[..]), p, data)
    {
      forall i | 0 <= i < |data| {
        buf[p + i] := data[i];
      }
    }

    method CopyItem(item: seq<byte>)
      requires Valid() && 0 < |item| <= size - Used()
      modifies this`write, this`full, this`itemsWaiting, buf
      ensures Valid() && Used() == old(Used()) + |item|
      ensures buf[..] == WriteAt(old(buf[..]), old(write), item)
    {
      hide Splice;
      var rest := item;
      var remLen := size - write;
      if remLen < |rest| {
        CopyBytes(write, rest[..remLen]);
        itemsWaiting := itemsWaiting + remLen;
        rest := rest[remLen..];
        write := 0;
      }
      CopyBytes(write, rest);
      itemsWaiting := itemsWaiting + |rest|;
      write := write + |rest|;
      if write == size {
        write := 0;
      }
      if write == free {
        full := true;
      }
    }

    // xRingbufferSend without blocking.
    method Send(item: seq<byte>) returns (ok: bool)
      requires Valid()
      modifies this`write, this`full, this`itemsWaiting, buf
      ensures Valid()
      ensures ok <==> |item| <= size - old(Used())
      ensures Used() == old(Used()) + if ok then |item| else 0
      ensures Sent() == old(Sent()) + if ok then item else []
      ensures Received() == old(Received())
    {
      hide WriteAt, Circular;
      if |item| > size {
        return false;
      }
      if |item| == 0 {
        return true;
      }
      ok := CheckItemFits(|item|);
      if ok {
        ghost var mem, used := buf[..], Used();
        WriteAppends(mem, free, used, item, held);
        CopyItem(item);
        assert returned + (Circular(mem, free, used) + item) == returned + Circular(mem, free, used) + item;
      }
    }

    method CheckItemAvail() returns (avail: bool)
      requires Valid()
      ensures avail <==> held == 0 && Used() > 0
    {
      if read != free {
        return false;
      }
      avail := itemsWaiting > 0 && (read != write || full);
    }

    // xRingbufferReceive (maxSize 0) and xRingbufferReceiveUpTo: a contiguous piece.
    method Receive(maxSize: nat) returns (ok: bool, item: nat, len: nat)
      requires Valid()
      modifies this`read, this`itemsWaiting, this`held
      ensures Valid()
      ensures ok <==> old(held) == 0 && Used() > 0
      ensures !ok ==> read == old(read) && held == old(held) && itemsWaiting == old(itemsWaiting)
      ensures ok ==> 0 < len && item + len <= size && item == free && held == len
      ensures ok ==> Received() == old(Received()) + buf[item..item + len]
      // as much as is contiguous and asked for
      ensures ok && maxSize != 0 ==> len <= maxSize
      ensures ok ==> len == maxSize || item + len == size || len == Used()
    {
      hide Circular;
      item, len := 0, 0;
      ok := CheckItemAvail();
      if !ok {
        return;
      }
      item := read;
      if read > write || full {
        if maxSize == 0 || size - read <= maxSize {
          len := size - read;
          read := 0;
        } else {
          len := maxSize;
          read := read + maxSize;
        }
      } else {
        if maxSize == 0 || write - read <= maxSize {
          len := write - read;
          read := write;
        } else {
          len := maxSize;
          read := read + maxSize;
        }
      }
      itemsWaiting := itemsWaiting - len;
      held := len;
      CircularPiece(buf[..], free, held);
      CircularPiece(buf[..], free, 0);
      assert returned + [] + buf[item..item + len] == returned + buf[item..item + len];
    }

    // Returning the retrieval frees exactly its bytes.
    method ReturnItem()
      requires Valid() && held > 0
      modifies this`free, this`full, this`returned, this`held
      ensures Valid() && held == 0 && Used() == old(Used()) - old(held)
      ensures Sent() == old(Sent()) && Received() == old(Received())
    {
      hide Circular;
      ghost var used, taken := Used(), Circular(buf[..], free, held);
      CircularSplit(buf[..], free, used, held);
      free := read;
      if full {
        full := false;
      }
      assert Used() == used - held;
      assert returned + (taken + Circular(buf[..], free, used - held))
        == returned + taken + Circular(buf[..], free, used - held);
      assert returned + taken + [] == returned + taken;
      CircularNone(buf[..], read);
      returned, held := returned + taken, 0;
    }

    method GetCurMaxSize() returns (n: nat)
      requires Valid()
      ensures n == size - Used()
    {
      if full {
        return 0;
      }
      var freeSize: int := free - write;
      if freeSize <= 0 {
        freeSize := freeSize + size;
      }
      n := freeSize;
    }
  }
}
