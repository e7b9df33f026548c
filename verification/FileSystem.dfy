/** The file system calls as they run, updating the free map, the directory and the list of open inodes in place. */
module FileSystem {
  import opened Common
  import opened FsState
  import opened FsSafety
  import Bitmap
  import InodeBytes

  class FileSystem {
    const freeMap: Bitmap.Bitmap
    const device: InodeBytes.Device
    var disk: map<nat, Extent>
    var dir: seq<Entry>
    var open: seq<Inode>
    var files: map<nat, File>

    /** One bit of the map for each sector of the device. */
    ghost predicate Valid()
      reads device
    {
      freeMap.Valid() && |device.sectors| == freeMap.bitCnt && InodeBytes.WholeSectors(device.sectors)
    }

    ghost function State(): Fs
      requires freeMap.Valid()
      reads this, freeMap.bits
    {
      Fs(freeMap.View(), disk, dir, open, files)
    }

    constructor (fs: Fs, freeMap: Bitmap.Bitmap, device: InodeBytes.Device)
      requires freeMap.Valid() && freeMap.View() == fs.free
      requires |device.sectors| == |fs.free| && InodeBytes.WholeSectors(device.sectors)
      ensures this.freeMap == freeMap && this.device == device && Valid() && State() == fs
    {
      this.freeMap, this.device := freeMap, device;
      disk, dir, open, files := fs.disk, fs.dir, fs.open, fs.files;
    }

    /** lookup: scans the slots in order, stopping where a read fails. */
    method FindEntry(name: string, readable: nat) returns (slot: Option<nat>)
      ensures slot == Lookup(dir, name, Upto(dir, readable))
    {
      var k := 0;
      while k < |dir| && k < readable
        invariant k <= Upto(dir, readable) && Lookup(dir, name, k).None?
      {
        if dir[k].inUse && dir[k].name == name {
          LookupFound(dir, name, k + 1, Upto(dir, readable));
          return Some(k);
        }
        k := k + 1;
      }
      return None;
    }

    method FindSlot(readable: nat) returns (slot: nat)
      ensures slot == FreeSlot(dir, 0, Upto(dir, readable))
    {
      slot := 0;
      while slot < |dir| && slot < readable && dir[slot].inUse
        invariant slot <= Upto(dir, readable)
        invariant FreeSlot(dir, slot, Upto(dir, readable)) == FreeSlot(dir, 0, Upto(dir, readable))
      {
        slot := slot + 1;
      }
    }

    method AddEntry(name: string, sector: nat, r: Reads) returns (success: bool)
      modifies `dir
      ensures (dir, success) == DirAdd(old(dir), name, sector, r)
    {
      if |name| == 0 || |name| > NAME_MAX {
        return false;
      }
      var found := FindEntry(name, r.lookup);
      if found.Some? {
        return false;
      }
      var slot := FindSlot(r.slot);
      success := r.write && slot < |dir|;
      if success {
        dir := dir[slot := Entry(sector, name, true)];
      }
    }

    /** free_map_allocate on the bitmap's words. */
    method AllocateSectors(cnt: nat, written: bool) returns (sector: Option<nat>)
      requires freeMap.Valid()
      modifies freeMap.bits
      ensures (freeMap.View(), sector) == Allocate(old(freeMap.View()), cnt, written)
    {
      sector := freeMap.ScanFlip(0, cnt, false);
      if sector.Some? && !written {
        freeMap.SetMultiple(sector.value, cnt, false);
        sector := None;
      }
    }

    /** inode_create: a file of zeros on sectors that were free; no other sector of data is written. */
    method MakeInode(sector: nat, length: nat, mem: bool, written: bool) returns (success: bool)
      requires Valid()
      modifies `disk, freeMap.bits, device
      ensures Valid() && (State(), success) == InodeCreate(old(State()), sector, length, mem, written)
      ensures !success ==> device.sectors == old(device.sectors)
      ensures success ==> ZeroFile(sector) && ElsewhereKept(disk[sector], old(device.sectors), device.sectors)
    {
      if !mem {
        return false;
      }
      var start := AllocateSectors(InodeBytes.SectorCount(length), written);
      if start.None? {
        return false;
      }
      var e := InodeBytes.Extent(start.value, length);
      disk := disk[sector := e];
      device.ZeroFill(e);
      success := true;
    }

    /** That inode's file is on the device and all zeros. */
    ghost predicate ZeroFile(sector: nat)
      reads this, device
    {
      && sector in disk && InodeBytes.OnDevice(device.sectors, disk[sector])
      && InodeBytes.Content(device.sectors, disk[sector]) == seq(disk[sector].length, _ => 0)
    }

    /** filesys_create. A create that succeeds keeps the invariant exactly when SafeAdd allows it, leaves a file of
        zeros, and writes no sector that was in use. */
    method CreateFile(name: string, size: nat, env: CreateEnv) returns (success: bool)
      requires Valid() && Inv(State())
      modifies `disk, `dir, freeMap.bits, device
      ensures Valid() && (State(), success) == Create(old(State()), name, size, env)
      ensures !success ==> Inv(State())
      ensures success ==> (Inv(State()) <==> SafeAdd(old(State()), name, env.scans))
      ensures success ==> SlotFor(old(dir), env.scans) < |dir| && ZeroFile(dir[SlotFor(old(dir), env.scans)].sector)
      ensures UsedKept(old(freeMap.View()), old(device.sectors), device.sectors)
    {
      ghost var fs := State();
      success := EnterFile(name, size, env);
      if success {
        CreateKeepsIff(fs, name, size, env);
        ghost var sec, e := CreateTakes(fs, name, size, env);
      } else {
        CreateFails(fs, name, size, env);
      }
    }

    method EnterFile(name: string, size: nat, env: CreateEnv) returns (success: bool)
      requires Valid()
      modifies `disk, `dir, freeMap.bits, device
      ensures Valid() && (State(), success) == Create(old(State()), name, size, env)
      ensures success ==> SlotFor(old(dir), env.scans) < |dir| && ZeroFile(dir[SlotFor(old(dir), env.scans)].sector)
      ensures UsedKept(old(freeMap.View()), old(device.sectors), device.sectors)
    {
      if !env.root {
        return false;
      }
      var sector := AllocateSectors(1, env.sectorWritten);
      if sector.None? {
        return false;
      }
      success := MakeInode(sector.value, size, env.mem, env.dataWritten);
      if success {
        success := AddEntry(name, sector.value, env.scans);
      }
      if !success && sector.value != 0 {
        freeMap.SetMultiple(sector.value, 1, false);
      }
    }

    /** The search through the list of open inodes. */
    method FindInode(sector: nat) returns (i: Option<nat>)
      ensures i == IndexOf(open, sector)
    {
      var k := 0;
      while k < |open|
        invariant k <= |open| && forall j :: 0 <= j < k ==> open[j].sector != sector
      {
        if open[k].sector == sector {
          IndexAt(open, sector, k);
          return Some(k);
        }
        k := k + 1;
      }
      return None;
    }

    method OpenInode(sector: nat, mem: bool) returns (ok: bool)
      requires freeMap.Valid() && sector in disk
      modifies `open
      ensures (State(), ok) == InodeOpen(old(State()), sector, mem)
    {
      var i := FindInode(sector);
      if i.Some? {
        open := open[i.value := open[i.value].(openCnt := open[i.value].openCnt + 1)];
        return true;
      }
      ok := mem;
      if mem {
        open := [Inode(sector, 1, false, 0, disk[sector])] + open;
      }
    }

    /** inode_close; the last close of a removed inode gives its sectors back to the map. */
    method CloseInode(i: nat)
      requires freeMap.Valid() && Closable(State(), i)
      modifies `open, freeMap.bits
      ensures State() == InodeClose(old(State()), i)
    {
      var inode := open[i].(openCnt := open[i].openCnt - 1);
      open := open[i := inode];
      if inode.openCnt == 0 {
        open := open[..i] + open[i + 1..];
        if inode.removed {
          freeMap.SetMultiple(inode.sector, 1, false);
          freeMap.SetMultiple(inode.data.start, InodeBytes.SectorCount(inode.data.length), false);
        }
      }
    }

    /** filesys_open */
    method OpenFile(name: string, h: nat, root: bool, scan: nat, inodeMem: bool, fileMem: bool) returns (ok: bool)
      requires freeMap.Valid() && Inv(State()) && h !in files
      modifies `open, `files, freeMap.bits
      ensures Sound(old(State())) && (State(), ok) == Open(old(State()), name, h, root, scan, inodeMem, fileMem) && Inv(State())
    {
      DoKeeps(State(), OpenOp(name, h, root, scan, inodeMem, fileMem));
      ok := OpenEntry(name, h, root, scan, inodeMem, fileMem);
    }

    method OpenEntry(name: string, h: nat, root: bool, scan: nat, inodeMem: bool, fileMem: bool) returns (ok: bool)
      requires freeMap.Valid() && Sound(State())
      modifies `open, `files, freeMap.bits
      ensures (State(), ok) == Open(old(State()), name, h, root, scan, inodeMem, fileMem)
    {
      if !root {
        return false;
      }
      var slot := FindEntry(name, scan);
      if slot.None? {
        return false;
      }
      var sector := dir[slot.value].sector;
      ok := OpenInode(sector, inodeMem);
      if !ok {
        return;
      }
      FoundAfterOpen(old(State()), sector, inodeMem);
      if fileMem {
        files := files[h := File(sector, false)];
      } else {
        var i := FindInode(sector);
        CloseInode(i.value);
        ok := false;
      }
    }

    /** file_reopen */
    method ReopenFile(from: nat, h: nat, mem: bool) returns (ok: bool)
      requires freeMap.Valid() && Inv(State()) && from in files && h !in files
      modifies `open, `files
      ensures Sound(old(State())) && (State(), ok) == Reopen(old(State()), from, h, mem) && Inv(State())
    {
      DoKeeps(State(), ReopenOp(from, h, mem));
      ok := ReopenShared(from, h, mem);
    }

    method ReopenShared(from: nat, h: nat, mem: bool) returns (ok: bool)
      requires freeMap.Valid() && Sound(State()) && from in files
      modifies `open, `files
      ensures (State(), ok) == Reopen(old(State()), from, h, mem)
    {
      var i := FindInode(files[from].sector);
      open := open[i.value := open[i.value].(openCnt := open[i.value].openCnt + 1)];
      if mem {
        files := files[h := File(files[from].sector, false)];
      } else {
        open := open[i.value := open[i.value].(openCnt := open[i.value].openCnt - 1)];
        assert open == old(open);
      }
      ok := mem;
    }

    /** file_deny_write and file_allow_write */
    method DenyWrite(h: nat, deny: bool)
      requires freeMap.Valid() && Inv(State()) && h in files
      modifies `open, `files
      ensures Sound(old(State())) && State() == SetDeny(old(State()), h, deny) && Inv(State())
    {
      DoKeeps(State(), DenyOp(h, deny));
      SwitchDeny(h, deny);
    }

    method SwitchDeny(h: nat, deny: bool)
      requires freeMap.Valid() && Sound(State()) && h in files
      modifies `open, `files
      ensures State() == SetDeny(old(State()), h, deny)
    {
      var i := FindInode(files[h].sector);
      if files[h].deny != deny {
        files := files[h := files[h].(deny := deny)];
        open := open[i.value := open[i.value].(denyCnt := open[i.value].denyCnt + if deny then 1 else -1)];
      }
    }

    /** file_close */
    method CloseFile(h: nat)
      requires freeMap.Valid() && Inv(State()) && h in files
      modifies `open, `files, freeMap.bits
      ensures Sound(old(State())) && State() == Close(old(State()), h) && Inv(State())
    {
      DoKeeps(State(), CloseOp(h));
      DropFile(h);
    }

    method DropFile(h: nat)
      requires freeMap.Valid() && Sound(State()) && h in files
      modifies `open, `files, freeMap.bits
      ensures State() == Close(old(State()), h)
    {
      SetDenyFound(State(), h);
      var i := FindInode(files[h].sector);
      SwitchDeny(h, false);
      CloseInode(i.value);
      files := files - {h};
    }

    /** file_write_at: nothing is written while a file of the inode denies writes; otherwise exactly the bytes that reach
        before the end of the file are, and no sector of another file changes. */
    method WriteFile(h: nat, buffer: seq<Byte>, size: int, offset: nat, bounce: bool) returns (written: nat)
      requires Valid() && Inv(State()) && h in files && size <= |buffer|
      modifies device
      ensures Valid() && files[h].sector in disk
      ensures var e := disk[files[h].sector];
              && InodeBytes.OnDevice(old(device.sectors), e) && InodeBytes.OnDevice(device.sectors, e)
              && written == (if exists g :: g in files && files[g].sector == files[h].sector && files[g].deny then 0
                             else InodeBytes.Moved(e, size, offset, bounce))
              && written <= |buffer| && InodeBytes.Fits(e, offset, written)
              && InodeBytes.Content(device.sectors, e) ==
                 InodeBytes.Written(InodeBytes.Content(old(device.sectors), e), offset, buffer[..written])
              && ElsewhereKept(e, old(device.sectors), device.sectors)
    {
      InvIsSound(State());
      DeniedIff(State(), h);
      OpenOnDevice(State(), h);
      DeniersBounded(State(), IndexOf(open, files[h].sector).value);
      var i := FindInode(files[h].sector);
      written := device.WriteAt(open[i.value].data, open[i.value].denyCnt, buffer, size, offset, bounce);
    }

    /** file_read_at: the file's bytes from `offset`, as many as there are. */
    method ReadFile(h: nat, size: int, offset: nat, bounce: bool) returns (buffer: seq<Byte>)
      requires Valid() && Inv(State()) && h in files
      ensures files[h].sector in disk
      ensures var e := disk[files[h].sector];
              && InodeBytes.OnDevice(device.sectors, e) && |buffer| == InodeBytes.Moved(e, size, offset, bounce)
              && InodeBytes.Fits(e, offset, |buffer|)
              && buffer == InodeBytes.Taken(InodeBytes.Content(device.sectors, e), offset, |buffer|)
    {
      InvIsSound(State());
      OpenOnDevice(State(), h);
      var i := FindInode(files[h].sector);
      buffer := device.ReadAt(open[i.value].data, size, offset, bounce);
    }

    /** filesys_remove */
    method RemoveFile(name: string, root: bool, scan: nat, mem: bool, write: bool) returns (success: bool)
      requires freeMap.Valid() && Inv(State())
      modifies `open, `dir, freeMap.bits
      ensures Sound(old(State())) && (State(), success) == Remove(old(State()), name, root, scan, mem, write) && Inv(State())
    {
      DoKeeps(State(), RemoveOp(name, root, scan, mem, write));
      success := RemoveEntry(name, root, scan, mem, write);
    }

    /** dir_remove in the root directory. */
    method RemoveEntry(name: string, root: bool, scan: nat, mem: bool, write: bool) returns (success: bool)
      requires freeMap.Valid() && Sound(State())
      modifies `open, `dir, freeMap.bits
      ensures (State(), success) == Remove(old(State()), name, root, scan, mem, write)
    {
      if !root {
        return false;
      }
      var slot := FindEntry(name, scan);
      if slot.None? {
        return false;
      }
      var sector := dir[slot.value].sector;
      var ok := OpenInode(sector, mem);
      if !ok {
        return false;
      }
      FoundAfterOpen(old(State()), sector, mem);
      var i := FindInode(sector);
      if write {
        dir := dir[slot.value := dir[slot.value].(inUse := false)];
        open := open[i.value := open[i.value].(removed := true)];
      }
      CloseInode(i.value);
      success := write;
    }
  }

  /** The data of an open file's inode is what the disk says and lies among the sectors. */
  lemma OpenOnDevice(fs: Fs, h: nat)
    requires Inv(fs) && Sound(fs) && h in fs.files
    ensures var s := fs.files[h].sector;
            && s in fs.disk && InodeOf(fs, h).data == fs.disk[s]
            && fs.disk[s].start + InodeBytes.SectorCount(fs.disk[s].length) <= |fs.free|
  {
    assert InodeOk(fs, InodeOf(fs, h)) && Live(fs, fs.files[h].sector);
  }

  ghost predicate ElsewhereKept(e: Extent, before: InodeBytes.Sectors, after: InodeBytes.Sectors) {
    |after| == |before| && forall x :: 0 <= x < |before| && !InData(e, x) ==> after[x] == before[x]
  }

  /** Sectors that were in use have the bytes they had. */
  ghost predicate UsedKept(free: seq<bool>, before: InodeBytes.Sectors, after: InodeBytes.Sectors) {
    |after| == |before| == |free| && forall x :: 0 <= x < |free| && free[x] ==> after[x] == before[x]
  }

  lemma {:induction false} IndexAt(open: seq<Inode>, sector: nat, k: nat)
    requires k < |open| && open[k].sector == sector && forall j :: 0 <= j < k ==> open[j].sector != sector
    ensures IndexOf(open, sector) == Some(k)
  {
    if k > 0 {
      assert forall j :: 0 <= j < k - 1 ==> open[1..][j] == open[j + 1];
      IndexAt(open[1..], sector, k - 1);
    }
  }
}
