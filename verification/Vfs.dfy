// The virtual file system switch: registered file systems in a small slot table, path lookup
// by longest prefix, and the table that maps global descriptors to a slot and a local one.
module Vfs {
  const VFS_MAX_COUNT: nat := 8
  const ESP_VFS_PATH_MAX: nat := 15

  datatype Option<T> = None | Some(value: T)

  // A registered file system.  Without a prefix it is never found by path.
  datatype Mount = Mount(prefix: Option<string>, hasOpen: bool, hasClose: bool)

  // index -1 marks an unused entry.
  datatype FdEntry = FdEntry(permanent: bool, index: int, localFd: int)

  const UNUSED: FdEntry := FdEntry(false, -1, 255)

  datatype Error = Fine | InvalidArg | InvalidState | NoMem | ENOENT | ENOSYS | ENOMEM | EBADF

  // The prefix covers the path: up to a separator, or all of it; the empty one covers any path.
  predicate Covers(prefix: string, path: string) {
    prefix <= path && (prefix == [] || |path| == |prefix| || path[|prefix|] == '/')
  }

  // Put differently: the prefix is empty, or the path itself, or followed by a separator.
  lemma CoversIff(prefix: string, path: string)
    ensures Covers(prefix, path) <==> prefix == "" || path == prefix || prefix + "/" <= path
  {
    if prefix <= path && |path| > |prefix| {
      assert path == prefix + [path[|prefix|]] + path[|prefix| + 1..];
    }
    if prefix + "/" <= path {
      assert path[|prefix|] == (prefix + "/")[|prefix|];
      assert prefix == path[..|prefix|];
    }
  }

  predicate Matches(m: Option<Mount>, path: string) {
    m.Some? && m.value.prefix.Some? && Covers(m.value.prefix.value, path)
  }

  predicate UniquePrefixes(slots: seq<Option<Mount>>) {
    forall i, j :: 0 <= i < j < |slots| && slots[i].Some? && slots[j].Some? && slots[i].value.prefix.Some? ==>
      slots[i].value.prefix != slots[j].value.prefix
  }

  // Slot i holds the longest prefix that covers the path.
  predicate Longest(slots: seq<Option<Mount>>, path: string, i: nat) {
    && i < |slots| && Matches(slots[i], path)
    && forall j :: 0 <= j < |slots| && Matches(slots[j], path) ==>
      |slots[j].value.prefix.value| <= |slots[i].value.prefix.value|
  }

  // With distinct prefixes there is only one such slot.
  lemma LongestIsUnique(slots: seq<Option<Mount>>, path: string, i: nat, j: nat)
    requires UniquePrefixes(slots) && Longest(slots, path, i) && Longest(slots, path, j)
    ensures i == j
  {
    var p, q := slots[i].value.prefix.value, slots[j].value.prefix.value;
    assert p == path[..|p|] && q == path[..|q|];
  }

  // The path a file system sees.
  function TranslatePath(prefix: string, path: string): (p: string)
    requires prefix <= path
    ensures if path == prefix then p == "/" else prefix + p == path
    ensures Covers(prefix, path) && prefix != [] ==> p != [] && p[0] == '/'
  {
    if |path| == |prefix| then "/" else path[|prefix|..]
  }

  class VfsSwitch {
    const slots: array<Option<Mount>>
    var count: nat
    const fds: array<FdEntry>
    ghost var clock: nat                // counts registrations
    ghost var registration: seq<nat>    // for a slot, its latest one
    ghost var openedOn: seq<nat>        // for a used descriptor, the one it was opened on

    // Every used descriptor refers to a live slot, and to the registration it was opened on.
    ghost predicate FdOk(fd: nat)
      requires fd < fds.Length
      reads this, slots, fds
    {
      fds[fd].index == -1 ||
      (0 <= fds[fd].index < slots.Length && fds[fd].index < |registration| && fd < |openedOn|
       && slots[fds[fd].index].Some? && openedOn[fd] == registration[fds[fd].index])
    }

    ghost predicate SlotsOk()
      reads this, slots
    {
      && count <= slots.Length == VFS_MAX_COUNT && |registration| == slots.Length && |openedOn| == fds.Length
      && (forall i :: count <= i < slots.Length ==> slots[i].None?)
      && forall i :: 0 <= i < slots.Length ==> registration[i] < clock
    }

    ghost predicate Valid()
      reads this, slots, fds
    {
      SlotsOk() && forall fd :: 0 <= fd < fds.Length ==> FdOk(fd)
    }

    constructor (maxFds: nat)
      ensures Valid() && fresh(slots) && fresh(fds) && fds.Length == maxFds
      ensures forall fd :: 0 <= fd < fds.Length ==> fds[fd] == UNUSED
      ensures count == 0 && slots.Length == 8
    {
      slots := new Option<Mount>[VFS_MAX_COUNT](_ => None);
      fds := new FdEntry[maxFds](_ => UNUSED);
      count, clock := 0, 1;
      registration := seq(VFS_MAX_COUNT, _ => 0);
      openedOn := seq(maxFds, _ => 0);
    }

    // A path prefix that may be registered.  For the empty one the code also looks at the byte
    // in front of the string.
    predicate PrefixOk(prefix: Option<string>, byteBefore: char) {
      prefix.Some? ==>
        var p := prefix.value;
        && (|p| == 0 || |p| >= 2) && |p| <= ESP_VFS_PATH_MAX
        && (if p == [] then byteBefore != '/' else p[0] == '/' && p[|p| - 1] != '/')
    }

    method Register(m: Mount, byteBefore: char) returns (err: Error, index: nat)
      requires Valid()
      modifies this`count, this`clock, this`registration, slots
      ensures Valid()
      ensures err.InvalidArg? <==> !PrefixOk(m.prefix, byteBefore)
      ensures err.NoMem? <==>
        PrefixOk(m.prefix, byteBefore) && forall i :: 0 <= i < slots.Length ==> old(slots[i]).Some?
      ensures err.Fine? || err.InvalidArg? || err.NoMem?
      ensures !err.Fine? ==> slots[..] == old(slots[..]) && registration == old(registration)
      ensures err.Fine? ==>
        && index < slots.Length && old(slots[index]).None?
        && (forall i :: 0 <= i < index ==> old(slots[i]).Some?)
        && slots[..] == old(slots[..])[index := Some(m)]
        && count == (if index == old(count) then old(count) + 1 else old(count))
        && registration == old(registration)[index := old(clock)]
        && (forall i :: 0 <= i < slots.Length ==> old(registration)[i] != registration[index])
    {
      if m.prefix.Some? {
        var p := m.prefix.value;
        var len := |p|;
        if (len != 0 && len < 2) || len > ESP_VFS_PATH_MAX {
          return InvalidArg, 0;
        }
        if (len > 0 && p[0] != '/') || (if len == 0 then byteBefore else p[len - 1]) == '/' {
          return InvalidArg, 0;
        }
      }
      index := 0;
      while index < count
        invariant index <= count && forall i :: 0 <= i < index ==> slots[i].Some?
      {
        if slots[index].None? {
          break;
        }
        index := index + 1;
      }
      if index == count {
        if count >= VFS_MAX_COUNT {
          assert forall i :: 0 <= i < slots.Length ==> slots[i].Some?;
          return NoMem, 0;
        }
        assert slots[index].None?;
        count := count + 1;
      }
      assert old(slots[index]).None?;
      forall f | 0 <= f < fds.Length
        ensures fds[f].index != index
      {
        assert old(FdOk(f));
      }
      slots[index] := Some(m);
      registration := registration[index := clock];
      clock := clock + 1;
      err := Fine;
      forall f | 0 <= f < fds.Length
        ensures FdOk(f)
      {
        assert old(FdOk(f));
      }
    }

    // Removes the first file system with this prefix, and every descriptor that refers to it.
    method Unregister(basePath: string) returns (err: Error, ghost at: nat)
      requires Valid()
      modifies slots, fds
      ensures Valid()
      ensures err == if exists i :: 0 <= i < slots.Length && Has(old(slots[i]), basePath) then Fine else InvalidState
      ensures !err.Fine? ==> slots[..] == old(slots[..]) && fds[..] == old(fds[..])
      ensures err.Fine? ==>
        && at < slots.Length && Has(old(slots[at]), basePath)
          && (forall i :: 0 <= i < at ==> !Has(old(slots[i]), basePath))
        && slots[..] == old(slots[..])[at := None]
        && forall fd :: 0 <= fd < fds.Length ==> fds[fd] == if old(fds[fd]).index == at then UNUSED else old(fds[fd])
    {
      at := 0;
      for i := 0 to count
        invariant slots[..] == old(slots[..]) && fds[..] == old(fds[..])
        invariant forall j :: 0 <= j < i ==> !Has(slots[j], basePath)
      {
        if slots[i].Some? && slots[i].value.prefix == Some(basePath) {
          at := i;
          slots[i] := None;
          for j := 0 to fds.Length
            invariant slots[..] == old(slots[..])[i := None]
            invariant forall k :: 0 <= k < j ==> fds[k] == if old(fds[k]).index == i then UNUSED else old(fds[k])
            invariant forall k :: j <= k < fds.Length ==> fds[k] == old(fds[k])
          {
            if fds[j].index == i {
              fds[j] := UNUSED;
            }
          }
          assert Has(old(slots[i]), basePath);
          forall f | 0 <= f < fds.Length
            ensures FdOk(f)
          {
            assert old(FdOk(f));
          }
          return Fine, at;
        }
      }
      err := InvalidState;
    }

    static predicate Has(m: Option<Mount>, basePath: string) {
      m.Some? && m.value.prefix == Some(basePath)
    }

    // The lookup by path: the longest covering prefix, the empty one as a last resort.
    method GetVfsForPath(path: string) returns (best: Option<nat>)
      requires SlotsOk()
      ensures best.None? <==> forall i :: 0 <= i < slots.Length ==> !Matches(slots[i], path)
      ensures best.Some? ==> Longest(slots[..], path, best.value)
    {
      best := None;
      var bestLen := -1;
      for i := 0 to count
        invariant best.None? <==> forall j :: 0 <= j < i ==> !Matches(slots[j], path)
        invariant best.None? ==> bestLen == -1
        invariant best.Some? ==>
          && best.value < i && Matches(slots[best.value], path)
          && (bestLen == |slots[best.value].value.prefix.value|
            || (bestLen == -1 && slots[best.value].value.prefix.value == []))
          && forall j :: 0 <= j < i && Matches(slots[j], path) ==>
            |slots[j].value.prefix.value| <= |slots[best.value].value.prefix.value|
      {
        if slots[i].None? || slots[i].value.prefix.None? {
          continue;
        }
        var prefix := slots[i].value.prefix.value;
        if |path| < |prefix| || path[..|prefix|] != prefix {
          continue;
        }
        if |prefix| == 0 && best.None? {
          best := Some(i);
          continue;
        }
        if |path| > |prefix| && path[|prefix|] != '/' {
          continue;
        }
        if bestLen < |prefix| {
          bestLen := |prefix|;
          best := Some(i);
        }
      }
    }

    // The file system behind a descriptor.
    method GetVfsForFd(fd: int) returns (vfs: Option<nat>)
      requires Valid()
      ensures vfs == if 0 <= fd < fds.Length && fds[fd].index != -1 then Some(fds[fd].index) else None
      ensures vfs.Some? ==> vfs.value < count && slots[vfs.value].Some? && registration[vfs.value] == openedOn[fd]
    {
      if !(fd < fds.Length && fd >= 0) {
        return None;
      }
      var index := fds[fd].index;
      assert FdOk(fd);
      if index < 0 || index >= count {
        return None;
      }
      return Some(index);
    }

    // Opening a file: the lookup, the file system's own open with its result, and the lowest
    // unused descriptor.  A local descriptor is stored in eight bits.
    method Open(path: string, fdWithin: int) returns (fd: int, err: Error, vfs: Option<nat>, within: string)
      requires Valid()
      modifies fds, this`openedOn
      ensures Valid()
      ensures vfs.Some? ==>
        Longest(slots[..], path, vfs.value) && within == TranslatePath(slots[vfs.value].value.prefix.value, path)
      ensures err ==
        if vfs.None? then ENOENT
        else if !slots[vfs.value].value.hasOpen then ENOSYS
        else if fdWithin < 0 then ENOENT
        else if exists i :: 0 <= i < fds.Length && old(fds[i]).index == -1 then Fine
        else if slots[vfs.value].value.hasClose then ENOMEM
        else ENOSYS
      ensures vfs.None? <==> forall i :: 0 <= i < slots.Length ==> !Matches(slots[i], path)
      ensures fd < 0 ==> fds[..] == old(fds[..]) && openedOn == old(openedOn)
      ensures fd >= -1 && (fd >= 0 <==> err.Fine?)
      ensures fd >= 0 ==>
        && fd < fds.Length && old(fds[fd]).index == -1 && (forall i :: 0 <= i < fd ==> old(fds[i]).index != -1)
        && fds[..] == old(fds[..])[fd := FdEntry(false, vfs.value, fdWithin % 0x100)]
        && openedOn == old(openedOn)[fd := registration[vfs.value]]
    {
      within := "";
      vfs := GetVfsForPath(path);
      if vfs.None? {
        return -1, ENOENT, vfs, within;
      }
      var m := slots[vfs.value].value;
      within := TranslatePath(m.prefix.value, path);
      if !m.hasOpen {
        return -1, ENOSYS, vfs, within;
      }
      if fdWithin >= 0 {
        for i := 0 to fds.Length
          invariant forall j :: 0 <= j < i ==> fds[j].index != -1
        {
          if fds[i].index == -1 {
            fds[i] := FdEntry(false, vfs.value, fdWithin % 0x100);
            openedOn := openedOn[i := registration[vfs.value]];
            forall f | 0 <= f < fds.Length
              ensures FdOk(f)
            {
              assert old(FdOk(f));
            }
            return i, Fine, vfs, within;
          }
        }
        return -1, if m.hasClose then ENOMEM else ENOSYS, vfs, within;
      }
      return -1, ENOENT, vfs, within;
    }

    method Close(fd: int, closeResult: int) returns (ret: int, err: Error, vfs: Option<nat>)
      requires Valid()
      modifies fds
      ensures Valid()
      ensures vfs == if 0 <= fd < fds.Length && old(fds[fd]).index != -1 then Some(old(fds[fd]).index) else None
      ensures vfs.Some? ==>
        vfs.value < slots.Length && slots[vfs.value].Some? && registration[vfs.value] == openedOn[fd]
      ensures err == if vfs.None? then EBADF else if !slots[vfs.value].value.hasClose then ENOSYS else Fine
      ensures !err.Fine? ==> ret == -1 && fds[..] == old(fds[..])
      ensures err.Fine? ==>
        ret == closeResult && fds[..] == (if old(fds[fd]).permanent then old(fds[..]) else old(fds[..])[fd := UNUSED])
    {
      vfs := GetVfsForFd(fd);
      if vfs.None? {
        return -1, EBADF, vfs;
      }
      if !slots[vfs.value].value.hasClose {
        return -1, ENOSYS, vfs;
      }
      if !fds[fd].permanent {
        fds[fd] := UNUSED;
      }
      forall f | 0 <= f < fds.Length
        ensures FdOk(f)
      {
        assert old(FdOk(f));
      }
      return closeResult, Fine, vfs;
    }

    // Registering a permanent descriptor checks the slot number against the number of slots in
    // use so far, not that the slot is still occupied; the table stays sound exactly if it is.
    method RegisterFd(id: int) returns (err: Error, fd: int)
      requires Valid()
      modifies fds, this`openedOn
      ensures err ==
        if id < 0 || id >= count then InvalidArg
        else if exists i :: 0 <= i < fds.Length && old(fds[i]).index == -1 then Fine
        else NoMem
      ensures !err.Fine? ==> Valid() && fds[..] == old(fds[..])
      ensures err.Fine? ==>
        && 0 <= fd < fds.Length && old(fds[fd]).index == -1 && fds[..] == old(fds[..])[fd := FdEntry(true, id, fd)]
        && (Valid() <==> slots[id].Some?)
    {
      if id < 0 || id >= count {
        return InvalidArg, -1;
      }
      for i := 0 to fds.Length
        invariant forall j :: 0 <= j < i ==> fds[j].index != -1
      {
        if fds[i].index == -1 {
          fds[i] := FdEntry(true, id, i);
          openedOn := openedOn[i := registration[id]];
          forall f | 0 <= f < fds.Length && f != i
            ensures FdOk(f)
          {
            assert old(FdOk(f));
          }
          assert FdOk(i) <==> slots[id].Some?;
          return Fine, i;
        }
      }
      return NoMem, -1;
    }
  }

  // A file system is registered and unregistered, and a descriptor is then registered for its
  // slot: it is accepted although nothing is behind it.
  method FdOfFreedSlot() returns (v: VfsSwitch, err: Error, fd: int)
    ensures fresh(v) && err.Fine? && fd == 0 && v.fds.Length > 0 && v.fds[0] == FdEntry(true, 0, 0)
    ensures v.slots.Length > 0 && v.slots[0].None? && !v.Valid()
  {
    v := new VfsSwitch(1);
    var index;
    ghost var at;
    err, index := v.Register(Mount(Some("/a"), true, true), 'x');
    assert VfsSwitch.Has(v.slots[0], "/a");
    err, at := v.Unregister("/a");
    assert v.fds[0].index == -1;
    err, fd := v.RegisterFd(0);
  }
}
