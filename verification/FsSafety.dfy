/** Over every run of file system calls: one open inode per sector with exact counts, unique names, no sector
    owned twice, every owned sector marked, and a removed file's sectors kept until its last close. */
module FsSafety {
  import opened Common
  import opened BitmapSpec
  import opened FsState
  import InodeBytes

  // ----- who owns which sector -----

  predicate InData(e: Extent, x: nat) {
    e.start <= x < e.start + InodeBytes.SectorCount(e.length)
  }

  predicate Owns(s: nat, e: Extent, x: nat) {
    x == s || InData(e, x)
  }

  predicate InDir(dir: seq<Entry>, s: nat) {
    exists i :: 0 <= i < |dir| && dir[i].inUse && dir[i].sector == s
  }

  predicate IsOpen(open: seq<Inode>, s: nat) {
    exists i :: 0 <= i < |open| && open[i].sector == s
  }

  /** Inodes that own their sectors: the two system files, those with a name and those still open. */
  predicate Live(fs: Fs, s: nat) {
    s == FREE_MAP_SECTOR || s == ROOT_DIR_SECTOR || InDir(fs.dir, s) || IsOpen(fs.open, s)
  }

  /** Every owned sector is marked, and the inode's own sector is not among its data. */
  predicate Marked(free: seq<bool>, s: nat, e: Extent) {
    && !InData(e, s) && s < |free| && e.start + InodeBytes.SectorCount(e.length) <= |free|
    && forall x :: 0 <= x < |free| && Owns(s, e, x) ==> free[x]
  }

  ghost predicate Apart(s: nat, e: Extent, t: nat, f: Extent) {
    forall x: nat :: !(Owns(s, e, x) && Owns(t, f, x))
  }

  ghost predicate ExtentsOk(fs: Fs) {
    && (forall s :: Live(fs, s) ==> s in fs.disk && Marked(fs.free, s, fs.disk[s]))
    && (forall s, t :: Live(fs, s) && Live(fs, t) && s != t && s in fs.disk && t in fs.disk ==>
          Apart(s, fs.disk[s], t, fs.disk[t]))
  }

  // ----- names -----

  predicate DirOk(dir: seq<Entry>) {
    && (forall i :: 0 <= i < |dir| && dir[i].inUse ==> ValidName(dir[i].name) && dir[i].sector > ROOT_DIR_SECTOR)
    && (forall i, j :: 0 <= i < j < |dir| && dir[i].inUse && dir[j].inUse ==>
          dir[i].name != dir[j].name && dir[i].sector != dir[j].sector)
  }

  // ----- counts -----

  function Handles(files: map<nat, File>, s: nat): set<nat> {
    set h | h in files && files[h].sector == s
  }

  function Deniers(files: map<nat, File>, s: nat): set<nat> {
    set h | h in files && files[h].sector == s && files[h].deny
  }

  predicate Distinct(open: seq<Inode>) {
    forall i, j :: 0 <= i < j < |open| ==> open[i].sector != open[j].sector
  }

  /** open_cnt counts the inode's files, deny_write_cnt those that deny writes; a removed inode has no name. */
  ghost predicate InodeOk(fs: Fs, n: Inode) {
    && n.openCnt == |Handles(fs.files, n.sector)| > 0
    && n.denyCnt == |Deniers(fs.files, n.sector)|
    && n.sector in fs.disk && n.data == fs.disk[n.sector]
    && (n.removed ==> n.sector > ROOT_DIR_SECTOR && !InDir(fs.dir, n.sector))
    && (!n.removed ==> n.sector <= ROOT_DIR_SECTOR || InDir(fs.dir, n.sector))
  }

  ghost predicate OpenOk(fs: Fs) {
    && Distinct(fs.open)
    && (forall i :: 0 <= i < |fs.open| ==> InodeOk(fs, fs.open[i]))
    && (forall h :: h in fs.files ==> IsOpen(fs.open, fs.files[h].sector))
  }

  ghost predicate Inv(fs: Fs) {
    ExtentsOk(fs) && DirOk(fs.dir) && OpenOk(fs)
  }

  /** Writes are never denied by more openers than there are. */
  lemma DeniersBounded(fs: Fs, i: nat)
    requires Inv(fs) && i < |fs.open|
    ensures 0 <= fs.open[i].denyCnt <= fs.open[i].openCnt
  {
    assert InodeOk(fs, fs.open[i]);
    var d, h := Deniers(fs.files, fs.open[i].sector), Handles(fs.files, fs.open[i].sector);
    assert h == d + (h - d);
  }

  lemma InvIsSound(fs: Fs)
    requires Inv(fs)
    ensures Sound(fs)
  {
    forall i | 0 <= i < |fs.open|
      ensures Closable(fs, i)
    {
      assert InodeOk(fs, fs.open[i]) && Live(fs, fs.open[i].sector);
    }
    forall i | 0 <= i < |fs.dir| && fs.dir[i].inUse
      ensures fs.dir[i].sector in fs.disk && Marked(fs.free, fs.dir[i].sector, fs.disk[fs.dir[i].sector])
    {
      assert Live(fs, fs.dir[i].sector);
    }
  }

  // ----- creating -----

  lemma AllocateKeepsMarks(free: seq<bool>, cnt: nat, written: bool)
    ensures var (free', r) := Allocate(free, cnt, written);
            && |free'| == |free| && (r.None? ==> free' == free)
            && (forall x :: 0 <= x < |free| && free[x] ==> free'[x])
            && (r.Some? ==> RunAt(free, r.value, cnt, false) && RunAt(free', r.value, cnt, true))
  {
  }

  /** More marks keep everything that was owned owned. */
  lemma MoreMarks(fs: Fs, fs': Fs)
    requires Inv(fs) && fs'.dir == fs.dir && fs'.open == fs.open && fs'.files == fs.files && |fs'.free| == |fs.free|
    requires forall s :: Live(fs, s) ==> s in fs.disk && s in fs'.disk && fs'.disk[s] == fs.disk[s]
    requires forall s, x :: Live(fs, s) && 0 <= x < |fs.free| && Owns(s, fs.disk[s], x) ==> fs'.free[x]
    ensures Inv(fs')
  {
    forall s | Live(fs', s)
      ensures s in fs'.disk && Marked(fs'.free, s, fs'.disk[s])
    {
      assert Live(fs, s);
    }
    forall i | 0 <= i < |fs'.open|
      ensures InodeOk(fs', fs'.open[i])
    {
      assert InodeOk(fs, fs.open[i]) && Live(fs, fs.open[i].sector);
    }
    forall s, t | Live(fs', s) && Live(fs', t) && s != t
      ensures Apart(s, fs'.disk[s], t, fs'.disk[t])
    {
      assert Live(fs, s) && Live(fs, t);
    }
  }

  /** No used slot other than `slot` has the name. */
  predicate NameUnused(dir: seq<Entry>, name: string, slot: nat) {
    forall i :: 0 <= i < |dir| && i != slot && dir[i].inUse ==> dir[i].name != name
  }

  function Entered(dir: seq<Entry>, slot: nat, name: string, sector: nat): seq<Entry>
    requires slot < |dir|
  {
    dir[slot := Entry(sector, name, true)]
  }

  /** The slot dir_add writes: the first unused one, or the one at which its scan stopped. */
  function SlotFor(dir: seq<Entry>, r: Reads): nat {
    FreeSlot(dir, 0, Upto(dir, r.slot))
  }

  /** A slot takes a new entry: names stay unique exactly when no other slot has the name, and the sectors
      with a name are as before, without that of an entry that is overwritten. */
  lemma EnteredDir(dir: seq<Entry>, slot: nat, name: string, sector: nat, s: nat)
    requires DirOk(dir) && slot < |dir| && ValidName(name) && !InDir(dir, sector) && sector > ROOT_DIR_SECTOR
    ensures DirOk(Entered(dir, slot, name, sector)) <==> NameUnused(dir, name, slot)
    ensures InDir(Entered(dir, slot, name, sector), s) <==>
            s == sector || (InDir(dir, s) && !(dir[slot].inUse && dir[slot].sector == s))
  {
    var dir' := Entered(dir, slot, name, sector);
    assert dir'[slot].inUse && dir'[slot].sector == sector && dir'[slot].name == name;
    assert forall i :: 0 <= i < |dir| && i != slot ==> dir'[i] == dir[i];
    assert forall i :: 0 <= i < |dir| && dir[i].inUse ==> dir[i].sector != sector;
    if InDir(dir, s) && !(dir[slot].inUse && dir[slot].sector == s) {
      var i :| 0 <= i < |dir| && dir[i].inUse && dir[i].sector == s;
      assert dir'[i] == dir[i];
    }
    if InDir(dir', s) && s != sector {
      var i :| 0 <= i < |dir'| && dir'[i].inUse && dir'[i].sector == s;
      assert dir'[i] == dir[i];
    }
  }

  /** A sector that was not marked belongs to nobody. */
  lemma FreeIsUnowned(fs: Fs, x: nat)
    requires Inv(fs) && x < |fs.free| && !fs.free[x]
    ensures !Live(fs, x)
    ensures forall s :: Live(fs, s) ==> s in fs.disk && !Owns(s, fs.disk[s], x)
  {
    forall s | Live(fs, s)
      ensures s in fs.disk && !Owns(s, fs.disk[s], x)
    {
      assert Marked(fs.free, s, fs.disk[s]);
    }
    assert Live(fs, x) ==> Owns(x, fs.disk[x], x);
  }

  /** A new inode over sectors that were free joins the live ones. */
  lemma NewFileKeeps(fs: Fs, fs': Fs, sec: nat, e: Extent)
    requires Inv(fs) && sec > ROOT_DIR_SECTOR && Marked(fs'.free, sec, e) && |fs'.free| == |fs.free|
    requires forall x :: 0 <= x < |fs.free| ==> fs'.free[x] == (fs.free[x] || Owns(sec, e, x))
    requires forall x :: 0 <= x < |fs.free| && Owns(sec, e, x) ==> !fs.free[x]
    requires fs'.disk == fs.disk[sec := e] && fs'.open == fs.open && fs'.files == fs.files
    requires DirOk(fs'.dir) && InDir(fs'.dir, sec) && forall s :: InDir(fs'.dir, s) ==> InDir(fs.dir, s) || s == sec
    requires forall i :: 0 <= i < |fs.open| && InDir(fs.dir, fs.open[i].sector) ==> InDir(fs'.dir, fs.open[i].sector)
    ensures Inv(fs')
  {
    FreeIsUnowned(fs, sec);
    forall s | Live(fs', s)
      ensures (s == sec || Live(fs, s)) && s in fs'.disk && Marked(fs'.free, s, fs'.disk[s])
    {
    }
    forall s | Live(fs, s)
      ensures Apart(s, fs.disk[s], sec, e)
    {
      forall x: nat
        ensures !(Owns(s, fs.disk[s], x) && Owns(sec, e, x))
      {
        assert Marked(fs.free, s, fs.disk[s]);
      }
    }
    forall i | 0 <= i < |fs'.open|
      ensures InodeOk(fs', fs'.open[i])
    {
      assert InodeOk(fs, fs.open[i]) && Live(fs, fs.open[i].sector);
    }
  }

  predicate Made(fs: Fs, size: nat, env: CreateEnv) {
    env.root && var (free, sector) := Allocate(fs.free, 1, env.sectorWritten);
    sector.Some? && InodeCreate(fs.(free := free), sector.value, size, env.mem, env.dataWritten).1
  }

  /** A successful create takes an inode sector and data sectors that were free, and writes one slot. */
  lemma CreateTakes(fs: Fs, name: string, size: nat, env: CreateEnv) returns (sec: nat, e: Extent)
    requires Inv(fs) && Create(fs, name, size, env).1
    ensures var fs', slot := Create(fs, name, size, env).0, SlotFor(fs.dir, env.scans);
            && slot < |fs.dir| && ValidName(name) && fs'.dir == Entered(fs.dir, slot, name, sec)
            && fs'.disk == fs.disk[sec := e] && fs'.open == fs.open && fs'.files == fs.files && |fs'.free| == |fs.free|
            && (forall x :: 0 <= x < |fs.free| ==> fs'.free[x] == (fs.free[x] || Owns(sec, e, x)))
            && (forall x :: 0 <= x < |fs.free| && Owns(sec, e, x) ==> !fs.free[x])
            && Marked(fs'.free, sec, e) && e.length == size
    ensures sec > ROOT_DIR_SECTOR && !Live(fs, sec)
  {
    var (free, sector) := Allocate(fs.free, 1, env.sectorWritten);
    AllocateKeepsMarks(fs.free, 1, env.sectorWritten);
    sec := sector.value;
    assert !fs.free[sec];
    FreeIsUnowned(fs, sec);
    var n := InodeBytes.SectorCount(size);
    AllocateKeepsMarks(free, n, env.dataWritten);
    e := InodeBytes.Extent(Allocate(free, n, env.dataWritten).1.value, size);
    assert !InData(e, sec);
  }

  /** What a create needs of the directory: no other slot has the name, and an entry it overwrites is not open. */
  predicate SafeAdd(fs: Fs, name: string, r: Reads) {
    var slot := SlotFor(fs.dir, r);
    && NameUnused(fs.dir, name, slot)
    && (slot < |fs.dir| && fs.dir[slot].inUse ==> !IsOpen(fs.open, fs.dir[slot].sector))
  }

  lemma SafeCreateKeeps(fs: Fs, name: string, size: nat, env: CreateEnv)
    requires Inv(fs) && Create(fs, name, size, env).1 && SafeAdd(fs, name, env.scans)
    ensures Inv(Create(fs, name, size, env).0)
  {
    var sec, e := CreateTakes(fs, name, size, env);
    var fs', slot := Create(fs, name, size, env).0, SlotFor(fs.dir, env.scans);
    forall s
      ensures DirOk(fs'.dir)
      ensures InDir(fs'.dir, s) <==> s == sec || (InDir(fs.dir, s) && !(fs.dir[slot].inUse && fs.dir[slot].sector == s))
    {
      EnteredDir(fs.dir, slot, name, sec, s);
    }
    NewFileKeeps(fs, fs', sec, e);
  }

  /** A successful create keeps the invariant exactly when no other slot has the name and an entry it
      overwrites is not open. */
  lemma CreateKeepsIff(fs: Fs, name: string, size: nat, env: CreateEnv)
    requires Inv(fs) && Create(fs, name, size, env).1
    ensures Inv(Create(fs, name, size, env).0) <==> SafeAdd(fs, name, env.scans)
  {
    if SafeAdd(fs, name, env.scans) {
      SafeCreateKeeps(fs, name, size, env);
    }
    var sec, e := CreateTakes(fs, name, size, env);
    var fs', slot := Create(fs, name, size, env).0, SlotFor(fs.dir, env.scans);
    EnteredDir(fs.dir, slot, name, sec, fs.dir[slot].sector);
    if Inv(fs') && fs.dir[slot].inUse {
      forall i | 0 <= i < |fs.open|
        ensures fs.open[i].sector != fs.dir[slot].sector
      {
        assert InodeOk(fs, fs.open[i]) && InodeOk(fs', fs'.open[i]);
        assert InDir(fs.dir, fs.dir[slot].sector) && !InDir(fs'.dir, fs.dir[slot].sector);
      }
    }
  }

  lemma CreateFails(fs: Fs, name: string, size: nat, env: CreateEnv)
    requires Inv(fs) && !Create(fs, name, size, env).1
    ensures Inv(Create(fs, name, size, env).0)
  {
    var fs' := Create(fs, name, size, env).0;
    var (free, sector) := Allocate(fs.free, 1, env.sectorWritten);
    AllocateKeepsMarks(fs.free, 1, env.sectorWritten);
    if env.root && sector.Some? {
      var sec := sector.value;
      assert !fs.free[sec];
      FreeIsUnowned(fs, sec);
      AllocateKeepsMarks(free, InodeBytes.SectorCount(size), env.dataWritten);
      forall s, x | Live(fs, s) && 0 <= x < |fs.free| && Owns(s, fs.disk[s], x)
        ensures fs'.free[x]
      {
        assert Marked(fs.free, s, fs.disk[s]) && fs.free[x] && x != sec;
      }
      MoreMarks(fs, fs');
    }
  }

  // ----- opening -----

  lemma FewerLive(fs: Fs, fs': Fs)
    requires ExtentsOk(fs) && fs'.free == fs.free && fs'.disk == fs.disk
    requires forall s :: Live(fs', s) ==> Live(fs, s)
    ensures ExtentsOk(fs')
  {
  }

  /** A change of counts and files alone keeps the rest. */
  lemma CountsOnly(fs: Fs, fs': Fs)
    requires ExtentsOk(fs) && DirOk(fs.dir) && OpenOk(fs') && fs'.free == fs.free && fs'.disk == fs.disk && fs'.dir == fs.dir
    requires |fs'.open| == |fs.open| && forall i :: 0 <= i < |fs.open| ==> fs'.open[i].sector == fs.open[i].sector
    ensures Inv(fs')
  {
    SameSectors(fs.open, fs'.open);
    FewerLive(fs, fs');
  }

  lemma FoundIsOpen(open: seq<Inode>, s: nat)
    ensures IndexOf(open, s).Some? <==> IsOpen(open, s)
  {
    assert IndexOf(open, s).Some? ==> open[IndexOf(open, s).value].sector == s;
  }

  lemma HandleAdded(files: map<nat, File>, h: nat, s: nat, t: nat)
    requires h !in files
    ensures var files' := files[h := File(s, false)];
            && |Handles(files', s)| == |Handles(files, s)| + 1 && (t != s ==> Handles(files', t) == Handles(files, t))
            && Deniers(files', t) == Deniers(files, t)
  {
    var files' := files[h := File(s, false)];
    assert Handles(files', s) == Handles(files, s) + {h};
    assert t != s ==> Handles(files', t) == Handles(files, t);
  }

  /** The state in which an open inode has one more file. */
  function Shared(fs: Fs, i: nat, h: nat): Fs
    requires i < |fs.open|
  {
    fs.(open := fs.open[i := fs.open[i].(openCnt := fs.open[i].openCnt + 1)],
        files := fs.files[h := File(fs.open[i].sector, false)])
  }

  lemma SharedOpen(fs: Fs, i: nat, h: nat)
    requires OpenOk(fs) && i < |fs.open| && h !in fs.files
    ensures OpenOk(Shared(fs, i, h))
  {
    var fs' := Shared(fs, i, h);
    forall j | 0 <= j < |fs.open|
      ensures InodeOk(fs', fs'.open[j])
    {
      assert InodeOk(fs, fs.open[j]);
      HandleAdded(fs.files, h, fs.open[i].sector, fs.open[j].sector);
    }
    SameSectors(fs.open, fs'.open);
    assert IsOpen(fs.open, fs.open[i].sector);
  }

  /** Sharing an inode that is open: its count and its files grow by one. */
  lemma SharedKeeps(fs: Fs, i: nat, h: nat)
    requires Inv(fs) && i < |fs.open| && h !in fs.files
    ensures Inv(Shared(fs, i, h))
  {
    CountsOnly(fs, Shared(fs, i, h)) by { SharedOpen(fs, i, h); }
  }

  lemma SameSectors(open: seq<Inode>, open': seq<Inode>)
    requires |open'| == |open| && forall i :: 0 <= i < |open| ==> open'[i].sector == open[i].sector
    ensures Distinct(open) ==> Distinct(open')
    ensures forall s :: IsOpen(open', s) <==> IsOpen(open, s)
  {
    forall s
      ensures IsOpen(open', s) <==> IsOpen(open, s)
    {
      if IsOpen(open, s) {
        var i :| 0 <= i < |open| && open[i].sector == s;
        assert open'[i].sector == s;
      }
      if IsOpen(open', s) {
        var i :| 0 <= i < |open'| && open'[i].sector == s;
        assert open[i].sector == s;
      }
    }
  }

  lemma PushedOpen(open: seq<Inode>, n: Inode, s: nat)
    ensures IsOpen([n] + open, s) <==> s == n.sector || IsOpen(open, s)
  {
    if IsOpen(open, s) {
      var i :| 0 <= i < |open| && open[i].sector == s;
      assert ([n] + open)[i + 1].sector == s;
    }
    assert ([n] + open)[0].sector == n.sector;
  }

  /** The state in which an inode that was not open has been opened for one file. */
  function Fresh(fs: Fs, s: nat, h: nat): Fs
    requires s in fs.disk
  {
    fs.(open := [Inode(s, 1, false, 0, fs.disk[s])] + fs.open, files := fs.files[h := File(s, false)])
  }

  lemma FreshInode(fs: Fs, s: nat, h: nat, j: nat)
    requires OpenOk(fs) && InDir(fs.dir, s) && !IsOpen(fs.open, s) && h !in fs.files && s in fs.disk && j <= |fs.open|
    ensures InodeOk(Fresh(fs, s, h), Fresh(fs, s, h).open[j])
  {
    HandleAdded(fs.files, h, s, Fresh(fs, s, h).open[j].sector);
    if j == 0 {
      assert Handles(fs.files, s) == {} && Deniers(fs.files, s) == {};
    } else {
      assert InodeOk(fs, fs.open[j - 1]) && IsOpen(fs.open, fs.open[j - 1].sector);
    }
  }

  lemma FreshOpen(fs: Fs, s: nat, h: nat)
    requires OpenOk(fs) && InDir(fs.dir, s) && !IsOpen(fs.open, s) && h !in fs.files && s in fs.disk
    ensures OpenOk(Fresh(fs, s, h))
  {
    var fs' := Fresh(fs, s, h);
    forall j | 0 <= j < |fs'.open|
      ensures InodeOk(fs', fs'.open[j])
    {
      FreshInode(fs, s, h, j);
    }
    forall g | g in fs'.files
      ensures IsOpen(fs'.open, fs'.files[g].sector)
    {
      PushedOpen(fs.open, fs'.open[0], fs'.files[g].sector);
    }
  }

  /** Opening an inode that is not open: it joins the list with one file. */
  lemma FreshKeeps(fs: Fs, s: nat, h: nat)
    requires Inv(fs) && InDir(fs.dir, s) && !IsOpen(fs.open, s) && h !in fs.files && s in fs.disk
    ensures Inv(Fresh(fs, s, h))
  {
    var fs' := Fresh(fs, s, h);
    FreshOpen(fs, s, h);
    forall t | Live(fs', t)
      ensures Live(fs, t)
    {
      PushedOpen(fs.open, fs'.open[0], t);
    }
    FewerLive(fs, fs');
  }

  /** Opening and closing again, when no file could be made, leaves no trace. */
  lemma OpenCloseIsNothing(fs: Fs, s: nat, mem: bool)
    requires OpenOk(fs) && Sound(fs) && s in fs.disk && InRange(fs.free, s, 1)
    requires InRange(fs.free, fs.disk[s].start, InodeBytes.SectorCount(fs.disk[s].length)) && InodeOpen(fs, s, mem).1
    ensures var fs1 := InodeOpen(fs, s, mem).0;
            && IndexOf(fs1.open, s).Some? && Closable(fs1, IndexOf(fs1.open, s).value)
            && InodeClose(fs1, IndexOf(fs1.open, s).value) == fs
  {
    FoundAfterOpen(fs, s, mem);
    var fs1 := InodeOpen(fs, s, mem).0;
    match IndexOf(fs.open, s)
    case Some(i) =>
      assert InodeOk(fs, fs.open[i]);
      SameSectors(fs.open, fs1.open);
      IndexUnique(fs1.open, s, i);
      assert fs1.open[i := fs.open[i]] == fs.open;
    case None =>
      assert fs1.open[0].sector == s;
      IndexFirst(fs1.open, s);
      assert fs1.open[..0] + fs1.open[1..] == fs.open;
  }

  lemma IndexFirst(open: seq<Inode>, s: nat)
    requires open != [] && open[0].sector == s
    ensures IndexOf(open, s) == Some(0)
  {
  }

  lemma {:induction false} IndexUnique(open: seq<Inode>, s: nat, i: nat)
    requires i < |open| && open[i].sector == s && Distinct(open)
    ensures IndexOf(open, s) == Some(i)
  {
    assert IndexOf(open, s).Some?;
  }

  lemma OpenFound(fs: Fs, s: nat, h: nat, inodeMem: bool, fileMem: bool)
    requires Inv(fs) && Sound(fs) && InDir(fs.dir, s) && h !in fs.files && s in fs.disk && InRange(fs.free, s, 1)
    requires InRange(fs.free, fs.disk[s].start, InodeBytes.SectorCount(fs.disk[s].length)) && InodeOpen(fs, s, inodeMem).1
    ensures var fs1 := InodeOpen(fs, s, inodeMem).0;
            && IndexOf(fs1.open, s).Some? && Closable(fs1, IndexOf(fs1.open, s).value)
            && Inv(FileOpen(fs1, s, h, fileMem).0)
  {
    OpenCloseIsNothing(fs, s, inodeMem);
    FoundIsOpen(fs.open, s);
    if fileMem {
      match IndexOf(fs.open, s)
      case Some(i) => SharedKeeps(fs, i, h);
      case None => FreshKeeps(fs, s, h);
    }
  }

  lemma OpenKeeps(fs: Fs, name: string, h: nat, root: bool, scan: nat, inodeMem: bool, fileMem: bool)
    requires Inv(fs) && h !in fs.files
    ensures Sound(fs) && Inv(Open(fs, name, h, root, scan, inodeMem, fileMem).0)
  {
    InvIsSound(fs);
    var slot := Lookup(fs.dir, name, Upto(fs.dir, scan));
    if root && slot.Some? {
      var s := fs.dir[slot.value].sector;
      assert InDir(fs.dir, s);
      if InodeOpen(fs, s, inodeMem).1 {
        OpenFound(fs, s, h, inodeMem, fileMem);
      }
    }
  }

  lemma ReopenKeeps(fs: Fs, from: nat, h: nat, mem: bool)
    requires Inv(fs) && from in fs.files && h !in fs.files
    ensures Sound(fs) && Inv(Reopen(fs, from, h, mem).0)
  {
    InvIsSound(fs);
    if mem {
      SharedKeeps(fs, IndexOf(fs.open, fs.files[from].sector).value, h);
    }
  }

  // ----- denying writes -----

  lemma DenyCounted(files: map<nat, File>, h: nat, deny: bool, t: nat)
    requires h in files && files[h].deny != deny
    ensures var s, files' := files[h].sector, files[h := files[h].(deny := deny)];
            && Handles(files', t) == Handles(files, t)
            && (t == s ==> |Deniers(files', t)| == |Deniers(files, t)| + if deny then 1 else -1)
            && (t != s ==> Deniers(files', t) == Deniers(files, t))
  {
    var s, files' := files[h].sector, files[h := files[h].(deny := deny)];
    if t != s {
      assert Deniers(files', t) == Deniers(files, t);
    } else if deny {
      assert Deniers(files', t) == Deniers(files, t) + {h};
    } else {
      assert Deniers(files', t) == Deniers(files, t) - {h};
    }
  }

  lemma DenyOpen(fs: Fs, h: nat, deny: bool)
    requires OpenOk(fs) && Sound(fs) && h in fs.files && fs.files[h].deny != deny
    ensures OpenOk(SetDeny(fs, h, deny))
  {
    var fs' := SetDeny(fs, h, deny);
    var i := IndexOf(fs.open, fs.files[h].sector).value;
    forall j | 0 <= j < |fs.open|
      ensures InodeOk(fs', fs'.open[j])
    {
      assert InodeOk(fs, fs.open[j]);
      DenyCounted(fs.files, h, deny, fs.open[j].sector);
    }
    SameSectors(fs.open, fs'.open);
  }

  lemma DenyKeeps(fs: Fs, h: nat, deny: bool)
    requires Inv(fs) && h in fs.files
    ensures Sound(fs) && Inv(SetDeny(fs, h, deny))
  {
    InvIsSound(fs);
    if fs.files[h].deny != deny {
      CountsOnly(fs, SetDeny(fs, h, deny)) by { DenyOpen(fs, h, deny); }
    }
  }

  // ----- closing -----

  lemma HandleGone(files: map<nat, File>, h: nat, t: nat)
    requires h in files && !files[h].deny
    ensures var s := files[h].sector;
            && (t == s ==> |Handles(files - {h}, t)| == |Handles(files, t)| - 1)
            && (t != s ==> Handles(files - {h}, t) == Handles(files, t))
            && Deniers(files - {h}, t) == Deniers(files, t)
  {
    if t == files[h].sector {
      assert Handles(files - {h}, t) == Handles(files, t) - {h};
    } else {
      assert Handles(files - {h}, t) == Handles(files, t);
    }
    assert Deniers(files - {h}, t) == Deniers(files, t);
  }

  /** The state in which an inode has lost one file of several. */
  function Dropped(fs: Fs, h: nat, i: nat): Fs
    requires i < |fs.open|
  {
    fs.(open := fs.open[i := fs.open[i].(openCnt := fs.open[i].openCnt - 1)], files := fs.files - {h})
  }

  /** A close that is not the last: the inode keeps its other files. */
  lemma EarlyCloseOpen(fs: Fs, h: nat, i: nat)
    requires OpenOk(fs) && h in fs.files && !fs.files[h].deny
    requires i < |fs.open| && fs.open[i].sector == fs.files[h].sector && fs.open[i].openCnt != 1
    ensures OpenOk(Dropped(fs, h, i))
  {
    var fs' := Dropped(fs, h, i);
    forall j | 0 <= j < |fs.open|
      ensures InodeOk(fs', fs'.open[j])
    {
      assert InodeOk(fs, fs.open[j]);
      HandleGone(fs.files, h, fs.open[j].sector);
    }
    SameSectors(fs.open, fs'.open);
  }

  function Without(open: seq<Inode>, i: nat): seq<Inode>
    requires i < |open|
  {
    open[..i] + open[i + 1..]
  }

  lemma WithoutOpen(open: seq<Inode>, i: nat, t: nat)
    requires i < |open| && Distinct(open)
    ensures Distinct(Without(open, i))
    ensures IsOpen(Without(open, i), t) <==> IsOpen(open, t) && t != open[i].sector
    ensures forall n :: n in Without(open, i) <==> n in open && n.sector != open[i].sector
  {
    var rest := Without(open, i);
    forall j | 0 <= j < |rest|
      ensures rest[j] == open[if j < i then j else j + 1]
    {
    }
    if IsOpen(open, t) && t != open[i].sector {
      var j :| 0 <= j < |open| && open[j].sector == t;
      assert rest[if j < i then j else j - 1] == open[j];
    }
    forall n | n in open && n.sector != open[i].sector
      ensures n in rest
    {
      var j :| 0 <= j < |open| && open[j] == n;
      assert rest[if j < i then j else j - 1] == open[j];
    }
  }

  /** The last close: the inode leaves the list and no file refers to it. */
  lemma LastCloseOpen(fs: Fs, h: nat, i: nat, free: seq<bool>)
    requires OpenOk(fs) && h in fs.files && !fs.files[h].deny
    requires i < |fs.open| && fs.open[i].sector == fs.files[h].sector && fs.open[i].openCnt == 1
    ensures OpenOk(fs.(free := free, open := Without(fs.open, i), files := fs.files - {h}))
  {
    var fs', s := fs.(free := free, open := Without(fs.open, i), files := fs.files - {h}), fs.open[i].sector;
    assert InodeOk(fs, fs.open[i]) && h in Handles(fs.files, s);
    WithoutOpen(fs.open, i, s);
    forall n | n in fs'.open
      ensures InodeOk(fs', n)
    {
      assert n in fs.open && InodeOk(fs, n);
      HandleGone(fs.files, h, n.sector);
    }
    forall g | g in fs'.files
      ensures IsOpen(fs'.open, fs'.files[g].sector)
    {
      HandleGone(fs.files, h, s);
      assert fs'.files[g].sector == s ==> g in Handles(fs'.files, s);
      WithoutOpen(fs.open, i, fs'.files[g].sector);
    }
  }

  /** Releasing the sectors of an inode that is no longer live leaves every other inode's sectors marked. */
  lemma ReleaseExtents(fs: Fs, fs': Fs, s: nat)
    requires ExtentsOk(fs) && Live(fs, s) && fs'.disk == fs.disk
    requires InRange(fs.free, s, 1) && InRange(fs.free, fs.disk[s].start, InodeBytes.SectorCount(fs.disk[s].length))
    requires fs'.free == Released(fs.free, s, fs.disk[s])
    requires forall t :: Live(fs', t) ==> Live(fs, t) && t != s
    ensures ExtentsOk(fs')
  {
    forall t | Live(fs', t)
      ensures t in fs.disk && Marked(fs'.free, t, fs.disk[t])
    {
      assert Marked(fs.free, t, fs.disk[t]) && Apart(s, fs.disk[s], t, fs.disk[t]);
    }
  }

  lemma LastCloseLive(fs: Fs, fs': Fs, i: nat, t: nat)
    requires OpenOk(fs) && i < |fs.open| && fs'.open == Without(fs.open, i) && fs'.dir == fs.dir && Live(fs', t)
    ensures Live(fs, t) && (fs.open[i].removed ==> t != fs.open[i].sector)
  {
    assert InodeOk(fs, fs.open[i]);
    WithoutOpen(fs.open, i, t);
  }

  lemma LastCloseKeeps(fs: Fs, h: nat, i: nat)
    requires Inv(fs) && h in fs.files && !fs.files[h].deny
    requires i < |fs.open| && fs.open[i].sector == fs.files[h].sector && Closable(fs, i) && fs.open[i].openCnt == 1
    ensures Inv(InodeClose(fs, i).(files := fs.files - {h}))
  {
    var fs', s := InodeClose(fs, i).(files := fs.files - {h}), fs.open[i].sector;
    assert fs'.open == Without(fs.open, i);
    LastCloseOpen(fs, h, i, fs'.free);
    forall t | Live(fs', t)
      ensures Live(fs, t) && (fs.open[i].removed ==> t != s)
    {
      LastCloseLive(fs, fs', i, t);
    }
    if fs.open[i].removed {
      assert InodeOk(fs, fs.open[i]) && IsOpen(fs.open, s);
      ReleaseExtents(fs, fs', s);
    } else {
      FewerLive(fs, fs');
    }
  }

  lemma EarlyCloseKeeps(fs: Fs, h: nat, i: nat)
    requires Inv(fs) && h in fs.files && !fs.files[h].deny
    requires i < |fs.open| && fs.open[i].sector == fs.files[h].sector && fs.open[i].openCnt != 1
    ensures Inv(Dropped(fs, h, i))
  {
    CountsOnly(fs, Dropped(fs, h, i)) by { EarlyCloseOpen(fs, h, i); }
  }

  /** A close of a file that denies no writes. */
  lemma PlainCloseKeeps(fs: Fs, h: nat, i: nat)
    requires Inv(fs) && h in fs.files && !fs.files[h].deny
    requires i < |fs.open| && fs.open[i].sector == fs.files[h].sector && Closable(fs, i)
    ensures Inv(InodeClose(fs, i).(files := fs.files - {h}))
  {
    if fs.open[i].openCnt == 1 {
      LastCloseKeeps(fs, h, i);
    } else {
      EarlyCloseKeeps(fs, h, i);
      assert InodeClose(fs, i).(files := fs.files - {h}) == Dropped(fs, h, i);
    }
  }

  lemma SetDenyFound(fs: Fs, h: nat)
    requires Sound(fs) && h in fs.files
    ensures var fs1, i := SetDeny(fs, h, false), IndexOf(fs.open, fs.files[h].sector).value;
            && fs1.files - {h} == fs.files - {h} && h in fs1.files && !fs1.files[h].deny
            && fs1.open[i].sector == fs1.files[h].sector && Closable(fs1, i)
  {
    var i := IndexOf(fs.open, fs.files[h].sector).value;
    assert Closable(fs, i) && SetDeny(fs, h, false).open[i].data == fs.open[i].data;
  }

  lemma CloseKeeps(fs: Fs, h: nat)
    requires Inv(fs) && h in fs.files
    ensures Sound(fs) && Inv(Close(fs, h))
  {
    DenyKeeps(fs, h, false);
    SetDenyFound(fs, h);
    InvIsSound(SetDeny(fs, h, false));
    PlainCloseKeeps(SetDeny(fs, h, false), h, IndexOf(fs.open, fs.files[h].sector).value);
  }

  /** free_map_release asserts that the sectors it is given are marked: those of a live inode are, first its own
      and then its data. */
  lemma ReleaseAssertions(fs: Fs, s: nat)
    requires Inv(fs) && Live(fs, s)
    ensures s in fs.disk && RunAt(fs.free, s, 1, true)
    ensures RunAt(Fill(fs.free, s, 1, false), fs.disk[s].start, InodeBytes.SectorCount(fs.disk[s].length), true)
  {
    var e := fs.disk[s];
    assert Marked(fs.free, s, e);
    assert forall x: nat :: InData(e, x) ==> Owns(s, e, x) && x != s;
  }

  /** A close changes the free map only when it is the last one of a removed file, and then it releases exactly
      that file's sectors. */
  lemma CloseReleases(fs: Fs, h: nat, x: nat)
    requires Inv(fs) && Sound(fs) && h in fs.files && x < |fs.free|
    ensures var s := fs.files[h].sector; var i := IndexOf(fs.open, s).value;
            && s in fs.disk && |Close(fs, h).free| == |fs.free|
            && Close(fs, h).free[x] == (fs.free[x] && !(Handles(fs.files, s) == {h} && fs.open[i].removed && Owns(s, fs.disk[s], x)))
  {
    var s := fs.files[h].sector;
    var i := IndexOf(fs.open, s).value;
    assert InodeOk(fs, fs.open[i]) && Closable(fs, i);
    OneHandle(fs.files, s, h);
  }

  lemma OneHandle(files: map<nat, File>, s: nat, h: nat)
    requires h in files && files[h].sector == s
    ensures Handles(files, s) == {h} <==> |Handles(files, s)| == 1
  {
    assert h in Handles(files, s);
    assert |Handles(files, s)| == 1 ==> |Handles(files, s) - {h}| == 0;
  }

  // ----- removing -----

  function Erased(dir: seq<Entry>, slot: nat): seq<Entry>
    requires slot < |dir|
  {
    dir[slot := dir[slot].(inUse := false)]
  }

  lemma ErasedOk(dir: seq<Entry>, slot: nat, t: nat)
    requires DirOk(dir) && slot < |dir| && dir[slot].inUse
    ensures DirOk(Erased(dir, slot))
    ensures InDir(Erased(dir, slot), t) <==> InDir(dir, t) && t != dir[slot].sector
  {
    var dir' := Erased(dir, slot);
    if InDir(dir, t) && t != dir[slot].sector {
      var i :| 0 <= i < |dir| && dir[i].inUse && dir[i].sector == t;
      assert dir'[i] == dir[i];
    }
    if InDir(dir', t) {
      var i :| 0 <= i < |dir'| && dir'[i].inUse && dir'[i].sector == t;
      assert dir'[i] == dir[i] && i != slot;
    }
  }

  lemma RemoveOpenCounts(fs: Fs, slot: nat, i: nat)
    requires DirOk(fs.dir) && OpenOk(fs) && slot < |fs.dir| && fs.dir[slot].inUse
    requires i < |fs.open| && fs.open[i].sector == fs.dir[slot].sector
    ensures var fs' := fs.(dir := Erased(fs.dir, slot), open := fs.open[i := fs.open[i].(removed := true)]);
            forall j :: 0 <= j < |fs'.open| ==> InodeOk(fs', fs'.open[j])
  {
    var fs' := fs.(dir := Erased(fs.dir, slot), open := fs.open[i := fs.open[i].(removed := true)]);
    forall j | 0 <= j < |fs.open|
      ensures InodeOk(fs', fs'.open[j])
    {
      assert InodeOk(fs, fs.open[j]);
      ErasedOk(fs.dir, slot, fs.open[j].sector);
    }
  }

  /** Removing a file that is open: its name goes, its inode and sectors stay. */
  lemma RemoveOpenKeeps(fs: Fs, slot: nat, i: nat)
    requires Inv(fs) && slot < |fs.dir| && fs.dir[slot].inUse
    requires i < |fs.open| && fs.open[i].sector == fs.dir[slot].sector
    ensures Inv(fs.(dir := Erased(fs.dir, slot), open := fs.open[i := fs.open[i].(removed := true)]))
  {
    var fs' := fs.(dir := Erased(fs.dir, slot), open := fs.open[i := fs.open[i].(removed := true)]);
    forall t
      ensures DirOk(fs'.dir) && (InDir(fs'.dir, t) <==> InDir(fs.dir, t) && t != fs.dir[slot].sector)
    {
      ErasedOk(fs.dir, slot, t);
    }
    RemoveOpenCounts(fs, slot, i);
    SameSectors(fs.open, fs'.open);
    FewerLive(fs, fs');
  }

  /** Removing a file that is not open releases its sectors at once. */
  lemma RemoveClosedKeeps(fs: Fs, fs': Fs, slot: nat)
    requires Inv(fs) && Sound(fs) && slot < |fs.dir| && fs.dir[slot].inUse && !IsOpen(fs.open, fs.dir[slot].sector)
    requires fs'.dir == Erased(fs.dir, slot) && fs'.open == fs.open && fs'.files == fs.files && fs'.disk == fs.disk
    requires fs'.free == Released(fs.free, fs.dir[slot].sector, fs.disk[fs.dir[slot].sector])
    ensures Inv(fs')
  {
    var s := fs.dir[slot].sector;
    forall t
      ensures DirOk(fs'.dir) && (InDir(fs'.dir, t) <==> InDir(fs.dir, t) && t != s)
    {
      ErasedOk(fs.dir, slot, t);
    }
    forall j | 0 <= j < |fs.open|
      ensures InodeOk(fs', fs'.open[j])
    {
      assert InodeOk(fs, fs.open[j]) && IsOpen(fs.open, fs.open[j].sector);
    }
    assert InDir(fs.dir, s);
    ReleaseExtents(fs, fs', s);
  }

  /** What filesys_remove comes to when the file is open, and when it is not. */
  lemma RemoveOpenEffect(fs: Fs, name: string, scan: nat, mem: bool, slot: nat, i: nat)
    requires Distinct(fs.open) && Sound(fs) && Lookup(fs.dir, name, Upto(fs.dir, scan)) == Some(slot)
    requires IndexOf(fs.open, fs.dir[slot].sector) == Some(i) && fs.open[i].openCnt > 0
    ensures Remove(fs, name, true, scan, mem, true) ==
            (fs.(dir := Erased(fs.dir, slot), open := fs.open[i := fs.open[i].(removed := true)]), true)
  {
    var s := fs.dir[slot].sector;
    FoundAfterOpen(fs, s, mem);
    var fs1 := InodeOpen(fs, s, mem).0;
    SameSectors(fs.open, fs1.open);
    IndexUnique(fs1.open, s, i);
    var n := fs1.open[i].(removed := true);
    assert fs1.open[i := n][i := n.(openCnt := n.openCnt - 1)] == fs.open[i := fs.open[i].(removed := true)];
  }

  lemma RemoveClosedEffect(fs: Fs, name: string, scan: nat, slot: nat)
    requires Sound(fs) && Lookup(fs.dir, name, Upto(fs.dir, scan)) == Some(slot)
    requires IndexOf(fs.open, fs.dir[slot].sector).None?
    ensures var s := fs.dir[slot].sector;
            Remove(fs, name, true, scan, true, true) ==
            (fs.(dir := Erased(fs.dir, slot), free := Released(fs.free, s, fs.disk[s])), true)
  {
    var s := fs.dir[slot].sector;
    FoundAfterOpen(fs, s, true);
    var fs1 := InodeOpen(fs, s, true).0;
    IndexFirst(fs1.open, s);
    var n := Inode(s, 1, true, 0, fs.disk[s]);
    assert fs1.open[0 := n][..0] + fs1.open[0 := n][1..] == fs.open;
  }

  lemma RemoveKeeps(fs: Fs, name: string, root: bool, scan: nat, mem: bool, write: bool)
    requires Inv(fs)
    ensures Sound(fs) && Inv(Remove(fs, name, root, scan, mem, write).0)
  {
    InvIsSound(fs);
    var slot := Lookup(fs.dir, name, Upto(fs.dir, scan));
    if root && slot.Some? {
      var s := fs.dir[slot.value].sector;
      if InodeOpen(fs, s, mem).1 {
        FoundIsOpen(fs.open, s);
        if write {
          match IndexOf(fs.open, s)
          case Some(i) =>
            assert InodeOk(fs, fs.open[i]);
            RemoveOpenEffect(fs, name, scan, mem, slot.value, i);
            RemoveOpenKeeps(fs, slot.value, i);
          case None =>
            RemoveClosedEffect(fs, name, scan, slot.value);
            RemoveClosedKeeps(fs, Remove(fs, name, root, scan, mem, write).0, slot.value);
        } else {
          OpenCloseIsNothing(fs, s, mem);
        }
      }
    }
  }

  // ----- runs -----

  datatype Op =
    | CreateOp(name: string, size: nat, env: CreateEnv)
    | OpenOp(name: string, h: nat, root: bool, scan: nat, inodeMem: bool, fileMem: bool)
    | ReopenOp(from: nat, h: nat, mem: bool)
    | DenyOp(h: nat, deny: bool)
    | CloseOp(h: nat)
    | RemoveOp(name: string, root: bool, scan: nat, mem: bool, write: bool)

  /** A new file is a new object, a file passed to a call is open, and a create that succeeds has neither missed
      its name in another slot nor overwritten the entry of an open file. */
  predicate CanDo(fs: Fs, op: Op) {
    match op
    case CreateOp(name, size, env) => Create(fs, name, size, env).1 ==> SafeAdd(fs, name, env.scans)
    case OpenOp(_, h, _, _, _, _) => h !in fs.files
    case ReopenOp(from, h, _) => from in fs.files && h !in fs.files
    case DenyOp(h, _) => h in fs.files
    case CloseOp(h) => h in fs.files
    case RemoveOp(_, _, _, _, _) => true
  }

  function Do(fs: Fs, op: Op): Fs
    requires Sound(fs) && CanDo(fs, op)
  {
    match op
    case CreateOp(name, size, env) => Create(fs, name, size, env).0
    case OpenOp(name, h, root, scan, inodeMem, fileMem) => Open(fs, name, h, root, scan, inodeMem, fileMem).0
    case ReopenOp(from, h, mem) => Reopen(fs, from, h, mem).0
    case DenyOp(h, deny) => SetDeny(fs, h, deny)
    case CloseOp(h) => Close(fs, h)
    case RemoveOp(name, root, scan, mem, write) => Remove(fs, name, root, scan, mem, write).0
  }

  /** Every call keeps the invariant. */
  lemma DoKeeps(fs: Fs, op: Op)
    requires Inv(fs) && CanDo(fs, op)
    ensures Sound(fs) && Inv(Do(fs, op))
  {
    match op
    case CreateOp(name, size, env) =>
      InvIsSound(fs);
      if Create(fs, name, size, env).1 {
        SafeCreateKeeps(fs, name, size, env);
      } else {
        CreateFails(fs, name, size, env);
      }
    case OpenOp(name, h, root, scan, inodeMem, fileMem) => OpenKeeps(fs, name, h, root, scan, inodeMem, fileMem);
    case ReopenOp(from, h, mem) => ReopenKeeps(fs, from, h, mem);
    case DenyOp(h, deny) => DenyKeeps(fs, h, deny);
    case CloseOp(h) => CloseKeeps(fs, h);
    case RemoveOp(name, root, scan, mem, write) => RemoveKeeps(fs, name, root, scan, mem, write);
  }

  predicate Run(states: seq<Fs>, ops: seq<Op>) {
    && |states| == |ops| + 1
    && forall n :: 0 <= n < |ops| ==>
         CanDo(states[n], ops[n]) && (Sound(states[n]) ==> states[n + 1] == Do(states[n], ops[n]))
  }

  /** Over every run of calls the invariant holds. */
  lemma {:induction false} RunKeepsInv(states: seq<Fs>, ops: seq<Op>, n: nat)
    requires Run(states, ops) && n <= |ops| && Inv(states[0])
    ensures Inv(states[n])
  {
    if n > 0 {
      RunKeepsInv(states, ops, n - 1);
      DoKeeps(states[n - 1], ops[n - 1]);
      assert states[n - 1 + 1] == Do(states[n - 1], ops[n - 1]);
    }
  }

  // ----- what the calls are for -----

  /** A created file's entry names an inode of its size. The name leads there unless an earlier slot has it; every
      other name leads where it did, except that of an overwritten entry, which leads nowhere. */
  lemma CreateThenLookup(fs: Fs, name: string, size: nat, env: CreateEnv, other: string)
    requires Inv(fs) && Create(fs, name, size, env).1
    ensures var fs', slot := Create(fs, name, size, env).0, SlotFor(fs.dir, env.scans);
            && |fs'.dir| == |fs.dir| && slot < |fs.dir|
            && fs'.dir[slot].sector in fs'.disk && fs'.disk[fs'.dir[slot].sector].length == size
            && (Lookup(fs'.dir, name, |fs'.dir|) == Some(slot) <==>
                  forall i :: 0 <= i < slot && fs.dir[i].inUse ==> fs.dir[i].name != name)
            && (other != name ==>
                  Lookup(fs'.dir, other, |fs'.dir|) ==
                  if fs.dir[slot].inUse && fs.dir[slot].name == other then None else Lookup(fs.dir, other, |fs.dir|))
  {
    var sec, e := CreateTakes(fs, name, size, env);
    var fs', slot := Create(fs, name, size, env).0, SlotFor(fs.dir, env.scans);
    assert forall i :: 0 <= i < |fs.dir| && i != slot ==> fs'.dir[i] == fs.dir[i];
    assert Lookup(fs'.dir, name, slot + 1).Some?;
    LookupFound(fs'.dir, name, slot + 1, |fs'.dir|);
    if other != name && !(fs.dir[slot].inUse && fs.dir[slot].name == other) {
      SameLookup(fs.dir, fs'.dir, other, slot, |fs.dir|);
    }
  }

  lemma {:induction false} LookupFound(dir: seq<Entry>, name: string, k: nat, end: nat)
    requires k <= end && Lookup(dir, name, k).Some?
    ensures Lookup(dir, name, end) == Lookup(dir, name, k)
  {
    if k < end {
      LookupFound(dir, name, k, end - 1);
    }
  }

  /** Entries of other names do not matter to a search. */
  lemma {:induction false} SameLookup(dir: seq<Entry>, dir': seq<Entry>, name: string, slot: nat, end: nat)
    requires |dir'| == |dir| && slot < |dir|
    requires forall i :: 0 <= i < |dir| && i != slot ==> dir'[i] == dir[i]
    requires !(dir[slot].inUse && dir[slot].name == name) && !(dir'[slot].inUse && dir'[slot].name == name)
    ensures Lookup(dir', name, end) == Lookup(dir, name, end)
  {
    if end > 0 {
      SameLookup(dir, dir', name, slot, end - 1);
    }
  }

  /** `x` is the first free sector. */
  predicate FirstFree(free: seq<bool>, x: nat) {
    x < |free| && !free[x] && forall y :: 0 <= y < x ==> free[y]
  }

  /** There is a free sector and, once the first is taken, a free run of `n`. */
  predicate HasRoom(free: seq<bool>, n: nat) {
    exists x :: 0 <= x < |free| && FirstFree(free, x) && HasRun(free[x := true], n)
  }

  predicate HasRun(free: seq<bool>, n: nat) {
    exists i :: 0 <= i <= |free| && RunAt(free, i, n, false)
  }

  lemma FirstIsFree(free: seq<bool>)
    ensures match FirstRun(free, 0, 1, false)
            case None => forall x :: 0 <= x < |free| ==> free[x]
            case Some(i) => FirstFree(free, i) && Fill(free, i, 1, true) == free[i := true]
  {
    assert forall x: nat :: x < |free| && !free[x] ==> RunAt(free, x, 1, false);
  }

  lemma AllocatesIff(free: seq<bool>, n: nat, written: bool)
    ensures Allocate(free, n, written).1.Some? <==> written && HasRun(free, n)
  {
  }

  lemma MadeIff(fs: Fs, size: nat, env: CreateEnv)
    ensures Made(fs, size, env) <==>
            env.root && env.sectorWritten && env.mem && env.dataWritten && HasRoom(fs.free, InodeBytes.SectorCount(size))
  {
    FirstIsFree(fs.free);
    var n := InodeBytes.SectorCount(size);
    match FirstRun(fs.free, 0, 1, false)
    case None =>
      assert forall x: nat :: !FirstFree(fs.free, x);
    case Some(x) =>
      AllocatesIff(fs.free[x := true], n, env.dataWritten);
      assert forall y: nat :: FirstFree(fs.free, y) ==> y == x;
  }

  /** A create succeeds exactly when memory, map writes and sectors last, the name is valid and seen in no slot,
      and there is an unused slot or the search for one is cut short. */
  lemma CreateSucceedsIff(fs: Fs, name: string, size: nat, env: CreateEnv)
    ensures Create(fs, name, size, env).1 <==>
            && env.root && env.sectorWritten && env.mem && env.dataWritten && HasRoom(fs.free, InodeBytes.SectorCount(size))
            && ValidName(name)
            && (forall i :: 0 <= i < |fs.dir| && i < env.scans.lookup && fs.dir[i].inUse ==> fs.dir[i].name != name)
            && env.scans.write && (env.scans.slot < |fs.dir| || exists i :: 0 <= i < |fs.dir| && !fs.dir[i].inUse)
  {
    MadeIff(fs, size, env);
  }

  lemma ErasedLookup(dir: seq<Entry>, slot: nat, other: string)
    requires DirOk(dir) && slot < |dir| && dir[slot].inUse
    ensures Lookup(Erased(dir, slot), other, |dir|) == if other == dir[slot].name then None else Lookup(dir, other, |dir|)
  {
    if other != dir[slot].name {
      SameLookup(dir, Erased(dir, slot), other, slot, |dir|);
    }
  }

  lemma RemoveErases(fs: Fs, name: string, root: bool, scan: nat, mem: bool)
    requires Sound(fs) && Remove(fs, name, root, scan, mem, true).1
    ensures var slot := Lookup(fs.dir, name, Upto(fs.dir, scan));
            slot.Some? && Remove(fs, name, root, scan, mem, true).0.dir == Erased(fs.dir, slot.value)
  {
  }

  /** A removed file's name is gone and every other name is where it was. */
  lemma RemoveThenLookup(fs: Fs, name: string, root: bool, scan: nat, mem: bool, other: string)
    requires Inv(fs) && Sound(fs) && Remove(fs, name, root, scan, mem, true).1
    ensures var dir := Remove(fs, name, root, scan, mem, true).0.dir;
            Lookup(dir, other, |dir|) == if other == name then None else Lookup(fs.dir, other, |fs.dir|)
  {
    RemoveErases(fs, name, root, scan, mem);
    ErasedLookup(fs.dir, Lookup(fs.dir, name, Upto(fs.dir, scan)).value, other);
  }

  /** An opened file is a handle on the inode its name stands for, which is open and not removed. */
  lemma OpenIsOfName(fs: Fs, name: string, h: nat, root: bool, scan: nat, inodeMem: bool, fileMem: bool)
    requires Sound(fs) && Open(fs, name, h, root, scan, inodeMem, fileMem).1
    ensures var fs', slot := Open(fs, name, h, root, scan, inodeMem, fileMem).0, Lookup(fs.dir, name, |fs.dir|);
            && slot.Some? && fs'.files == fs.files[h := File(fs.dir[slot.value].sector, false)]
            && IsOpen(fs'.open, fs.dir[slot.value].sector) && fs'.dir == fs.dir && fs'.free == fs.free
  {
    LookupFound(fs.dir, name, Upto(fs.dir, scan), |fs.dir|);
    var s := fs.dir[Lookup(fs.dir, name, |fs.dir|).value].sector;
    FoundAfterOpen(fs, s, inodeMem);
    FoundIsOpen(InodeOpen(fs, s, inodeMem).0.open, s);
  }

  /** A create takes only sectors nobody owns and leaves every live inode's sectors marked. Every live inode stays
      live but one: that of an overwritten entry which is not open is lost, its sectors still marked. */
  lemma CreateTakesUnowned(fs: Fs, name: string, size: nat, env: CreateEnv, s: nat, x: nat)
    requires Inv(fs) && Create(fs, name, size, env).1
    requires Live(fs, s) && x < |fs.free| && s in fs.disk && Owns(s, fs.disk[s], x)
    ensures fs.free[x] && Create(fs, name, size, env).0.free[x]
    ensures var fs', slot := Create(fs, name, size, env).0, SlotFor(fs.dir, env.scans);
            && s in fs'.disk && fs'.disk[s] == fs.disk[s] && slot < |fs.dir|
            && (Live(fs', s) <==> !(fs.dir[slot].inUse && fs.dir[slot].sector == s && !IsOpen(fs.open, s)))
  {
    assert Marked(fs.free, s, fs.disk[s]);
    var sec, e := CreateTakes(fs, name, size, env);
    EnteredDir(fs.dir, SlotFor(fs.dir, env.scans), name, sec, s);
  }

  /** A failed create gives back every sector it took exactly when it had not yet taken any for data. */
  lemma FailedCreateLeaksIff(fs: Fs, name: string, size: nat, env: CreateEnv)
    requires Inv(fs) && !Create(fs, name, size, env).1
    ensures Create(fs, name, size, env).0.free == fs.free <==> !Made(fs, size, env) || InodeBytes.SectorCount(size) == 0
  {
    var fs' := Create(fs, name, size, env).0;
    var (free, sector) := Allocate(fs.free, 1, env.sectorWritten);
    AllocateKeepsMarks(fs.free, 1, env.sectorWritten);
    if env.root && sector.Some? {
      var sec, n := sector.value, InodeBytes.SectorCount(size);
      assert !fs.free[sec];
      FreeIsUnowned(fs, sec);
      AllocateKeepsMarks(free, n, env.dataWritten);
      if Made(fs, size, env) && n > 0 {
        var start := Allocate(free, n, env.dataWritten).1.value;
        assert !free[start] && start != sec && fs'.free[start];
      } else {
        assert forall x :: 0 <= x < |fs.free| ==> fs'.free[x] == fs.free[x];
      }
    }
  }

  /** A create with an empty name is one that leaks: it fails only after the data sectors are taken. */
  lemma EmptyNameLeaks(fs: Fs, size: nat, env: CreateEnv)
    requires Inv(fs) && Made(fs, size, env) && size > 0
    ensures !Create(fs, "", size, env).1 && Create(fs, "", size, env).0.free != fs.free
  {
    FailedCreateLeaksIff(fs, "", size, env);
  }

  /** dir_add keeps names unique exactly when no used slot other than the one it writes has the name; a scan that
      is cut short by lack of memory can miss one. */
  lemma AddKeepsNamesIff(dir: seq<Entry>, name: string, sector: nat, r: Reads)
    requires DirOk(dir) && DirAdd(dir, name, sector, r).1 && !InDir(dir, sector) && sector > ROOT_DIR_SECTOR
    ensures DirOk(DirAdd(dir, name, sector, r).0) <==> NameUnused(dir, name, SlotFor(dir, r))
  {
    EnteredDir(dir, SlotFor(dir, r), name, sector, sector);
  }

  /** The search for a slot that is cut short overwrites the entry it stopped at. */
  lemma ShortScanOverwrites()
    ensures var dir := [Entry(5, "a", true)];
            && DirOk(dir) && DirAdd(dir, "b", 6, Reads(1, 0, true)) == ([Entry(6, "b", true)], true)
            && Lookup(dir, "a", 1) == Some(0) && Lookup([Entry(6, "b", true)], "a", 1).None?
  {
    var dir := [Entry(5, "a", true)];
    assert Lookup(dir, "b", 1).None? && FreeSlot(dir, 0, 0) == 0;
    assert dir[0 := Entry(6, "b", true)] == [Entry(6, "b", true)];
    assert Lookup(dir, "a", 0).None?;
  }

  lemma ShortScanDuplicates()
    ensures var dir := [Entry(5, "a", true), Entry(0, "", false)];
            DirOk(dir) && DirAdd(dir, "a", 6, Reads(0, 2, true)).1 && !DirOk(DirAdd(dir, "a", 6, Reads(0, 2, true)).0)
  {
    var dir := [Entry(5, "a", true), Entry(0, "", false)];
    assert FreeSlot(dir, 1, 2) == 1 && FreeSlot(dir, 0, 2) == 1;
    var dir' := DirAdd(dir, "a", 6, Reads(0, 2, true)).0;
    assert dir'[0].inUse && dir'[1].inUse && dir'[0].name == dir'[1].name;
  }

  // ----- formatting -----

  /** A map whose first `at` sectors are taken has its first run right after them. */
  lemma RunAfter(free: seq<bool>, at: nat, cnt: nat)
    requires cnt > 0 && at <= |free| && forall x :: 0 <= x < |free| ==> free[x] == (x < at)
    ensures FirstRun(free, 0, cnt, false) == if at + cnt <= |free| then Some(at) else None
  {
    forall i: nat | i < at || |free| < i + cnt
      ensures !RunAt(free, i, cnt, false)
    {
      assert i < |free| ==> free[i] == (i < at);
    }
    assert at + cnt <= |free| ==> RunAt(free, at, cnt, false);
  }

  /** An empty root directory and the two system files, the free map's open. */
  lemma FormattedInv(fs: Fs)
    requires FREE_MAP_SECTOR in fs.disk && ROOT_DIR_SECTOR in fs.disk
    requires Marked(fs.free, FREE_MAP_SECTOR, fs.disk[FREE_MAP_SECTOR])
    requires Marked(fs.free, ROOT_DIR_SECTOR, fs.disk[ROOT_DIR_SECTOR])
    requires Apart(FREE_MAP_SECTOR, fs.disk[FREE_MAP_SECTOR], ROOT_DIR_SECTOR, fs.disk[ROOT_DIR_SECTOR])
    requires forall i :: 0 <= i < |fs.dir| ==> !fs.dir[i].inUse
    requires fs.open == [Inode(FREE_MAP_SECTOR, 1, false, 0, fs.disk[FREE_MAP_SECTOR])]
    requires fs.files == map[0 := File(FREE_MAP_SECTOR, false)]
    ensures Inv(fs)
  {
    assert fs.open[0].sector == FREE_MAP_SECTOR;
    assert Handles(fs.files, FREE_MAP_SECTOR) == {0} && Deniers(fs.files, FREE_MAP_SECTOR) == {};
    assert forall s :: !InDir(fs.dir, s);
    assert forall s :: Live(fs, s) ==> s == FREE_MAP_SECTOR || s == ROOT_DIR_SECTOR;
  }

  lemma FormatSteps(sectors: nat, k: nat)
    requires sectors >= 2 && k == InodeBytes.SectorCount(MapBytes(sectors))
    ensures k > 0 && (Format(sectors, true).Some? <==> 3 + k <= sectors)
    ensures Format(sectors, true).Some? ==>
              && Format(sectors, true).value.free == Fill(Fill(Blank(sectors).free, 2, k, true), 2 + k, 1, true)
              && Format(sectors, true).value.disk == map[FREE_MAP_SECTOR := InodeBytes.Extent(2, MapBytes(sectors)),
                                                         ROOT_DIR_SECTOR := InodeBytes.Extent(2 + k, ROOT_BYTES)]
  {
    RunAfter(Blank(sectors).free, 2, k);
    if 2 + k <= sectors {
      RunAfter(Fill(Blank(sectors).free, 2, k, true), 2 + k, 1);
    }
  }

  /** Formatting succeeds exactly when nothing fails and the map file and one directory sector fit after the two
      inode sectors; what it leaves satisfies the invariant. */
  lemma FormatInv(sectors: nat, ok: bool)
    ensures Format(sectors, ok).Some? <==> ok && 3 + InodeBytes.SectorCount(MapBytes(sectors)) <= sectors
    ensures Format(sectors, ok).Some? ==> Inv(Format(sectors, ok).value)
  {
    if ok && sectors >= 2 {
      FormatSteps(sectors, InodeBytes.SectorCount(MapBytes(sectors)));
      if 3 + InodeBytes.SectorCount(MapBytes(sectors)) <= sectors {
        FormattedInv(Format(sectors, ok).value);
      }
    }
  }

  // ----- what open, reopen, deny, close and remove do -----

  /** filesys_open succeeds exactly when the directory opens, the name is in a slot that is read, the inode is open or
      there is memory for it, and there is memory for the file. A failure changes nothing. */
  lemma OpenSucceedsIff(fs: Fs, name: string, h: nat, root: bool, scan: nat, inodeMem: bool, fileMem: bool)
    requires Inv(fs) && Sound(fs) && h !in fs.files
    ensures Open(fs, name, h, root, scan, inodeMem, fileMem).1 <==>
            root && fileMem && exists i :: 0 <= i < |fs.dir| && i < scan && fs.dir[i].inUse && fs.dir[i].name == name
                                           && (inodeMem || IsOpen(fs.open, fs.dir[i].sector))
    ensures !Open(fs, name, h, root, scan, inodeMem, fileMem).1 ==> Open(fs, name, h, root, scan, inodeMem, fileMem).0 == fs
  {
    var slot := Lookup(fs.dir, name, Upto(fs.dir, scan));
    if slot.Some? {
      var s := fs.dir[slot.value].sector;
      IsOpenIff(fs.open, s);
      if InodeOpen(fs, s, inodeMem).1 {
        OpenCloseIsNothing(fs, s, inodeMem);
      }
      assert forall i :: 0 <= i < |fs.dir| && fs.dir[i].inUse && fs.dir[i].name == name ==> i == slot.value;
    }
  }

  lemma IsOpenIff(open: seq<Inode>, s: nat)
    ensures IsOpen(open, s) <==> IndexOf(open, s).Some?
  {
  }

  /** file_reopen succeeds exactly when there is memory: the new file is of the same inode, denies nothing, and the
      inode has one opener more. */
  lemma ReopenEffect(fs: Fs, from: nat, h: nat, mem: bool)
    requires Inv(fs) && Sound(fs) && from in fs.files && h !in fs.files
    ensures var (fs', ok) := Reopen(fs, from, h, mem);
            && ok == mem && (!mem ==> fs' == fs)
            && (mem ==> && fs'.files == fs.files[h := File(fs.files[from].sector, false)]
                        && fs'.dir == fs.dir && fs'.free == fs.free && fs'.disk == fs.disk)
  {
  }

  /** The open inode of a file. */
  function InodeOf(fs: Fs, h: nat): Inode
    requires Sound(fs) && h in fs.files
  {
    fs.open[IndexOf(fs.open, fs.files[h].sector).value]
  }

  /** file_deny_write and file_allow_write set the file's flag and nothing else of the files; the inode's count is then
      the number of its files that deny writes. */
  lemma DenyEffect(fs: Fs, h: nat, deny: bool)
    requires Inv(fs) && Sound(fs) && h in fs.files
    ensures var fs' := SetDeny(fs, h, deny);
            && fs'.files == fs.files[h := fs.files[h].(deny := deny)]
            && fs'.dir == fs.dir && fs'.free == fs.free && fs'.disk == fs.disk
            && Sound(fs') && InodeOf(fs', h).denyCnt == |Deniers(fs'.files, fs.files[h].sector)|
  {
    DenyFlag(fs, h, deny);
    DenyCount(fs, h, deny);
  }

  lemma DenyFlag(fs: Fs, h: nat, deny: bool)
    requires Sound(fs) && h in fs.files
    ensures var fs' := SetDeny(fs, h, deny);
            && fs'.files == fs.files[h := fs.files[h].(deny := deny)]
            && fs'.dir == fs.dir && fs'.free == fs.free && fs'.disk == fs.disk
  {
    assert fs.files[h := fs.files[h]] == fs.files;
  }

  lemma DenyCount(fs: Fs, h: nat, deny: bool)
    requires Inv(fs) && Sound(fs) && h in fs.files
    ensures var fs' := SetDeny(fs, h, deny);
            && Sound(fs') && h in fs'.files && fs'.files[h].sector == fs.files[h].sector
            && InodeOf(fs', h).denyCnt == |Deniers(fs'.files, fs.files[h].sector)|
  {
    DenyKeeps(fs, h, deny);
    InvIsSound(SetDeny(fs, h, deny));
    CountIsDeniers(SetDeny(fs, h, deny), h);
  }

  lemma CountIsDeniers(fs: Fs, h: nat)
    requires Inv(fs) && Sound(fs) && h in fs.files
    ensures InodeOf(fs, h).denyCnt == |Deniers(fs.files, fs.files[h].sector)|
  {
    assert InodeOk(fs, InodeOf(fs, h));
  }

  /** While any file of an inode denies writes its count is positive, so every write to it is refused. */
  lemma DeniedIff(fs: Fs, h: nat)
    requires Inv(fs) && Sound(fs) && h in fs.files
    ensures InodeOf(fs, h).denyCnt > 0 <==> exists g :: g in fs.files && fs.files[g].sector == fs.files[h].sector && fs.files[g].deny
  {
    CountIsDeniers(fs, h);
    var d := Deniers(fs.files, fs.files[h].sector);
    if g :| g in fs.files && fs.files[g].sector == fs.files[h].sector && fs.files[g].deny {
      assert g in d;
    } else {
      assert d == {};
    }
  }

  /** file_close drops the file; its inode leaves the list exactly when that was its last file. */
  lemma CloseEffect(fs: Fs, h: nat)
    requires Inv(fs) && Sound(fs) && h in fs.files
    ensures var fs', s := Close(fs, h), fs.files[h].sector;
            && fs'.files == fs.files - {h} && fs'.dir == fs.dir && fs'.disk == fs.disk
            && (IsOpen(fs'.open, s) <==> Handles(fs.files, s) != {h})
  {
    CloseDrops(fs, h);
    OpenIffFiles(Close(fs, h), fs.files[h].sector) by { CloseKeeps(fs, h); }
    LastHandle(fs.files, h);
  }

  lemma CloseDrops(fs: Fs, h: nat)
    requires Sound(fs) && h in fs.files
    ensures Close(fs, h).files == fs.files - {h} && Close(fs, h).dir == fs.dir && Close(fs, h).disk == fs.disk
  {
  }

  lemma LastHandle(files: map<nat, File>, h: nat)
    requires h in files
    ensures Handles(files - {h}, files[h].sector) != {} <==> Handles(files, files[h].sector) != {h}
  {
    var s := files[h].sector;
    assert Handles(files - {h}, s) == Handles(files, s) - {h} && h in Handles(files, s);
  }

  /** An inode is open exactly when it has a file. */
  lemma OpenIffFiles(fs: Fs, s: nat)
    requires OpenOk(fs)
    ensures IsOpen(fs.open, s) <==> Handles(fs.files, s) != {}
  {
    if IsOpen(fs.open, s) {
      var i :| 0 <= i < |fs.open| && fs.open[i].sector == s;
      assert InodeOk(fs, fs.open[i]);
    }
    if Handles(fs.files, s) != {} {
      var g :| g in Handles(fs.files, s);
      assert IsOpen(fs.open, fs.files[g].sector);
    }
  }

  /** filesys_remove succeeds exactly when the directory opens, the name is in a slot that is read, the inode is open or
      there is memory for it, and the entry can be written. A failure changes nothing. */
  lemma RemoveSucceedsIff(fs: Fs, name: string, root: bool, scan: nat, mem: bool, write: bool)
    requires Inv(fs) && Sound(fs)
    ensures Remove(fs, name, root, scan, mem, write).1 <==>
            root && write && exists i :: 0 <= i < |fs.dir| && i < scan && fs.dir[i].inUse && fs.dir[i].name == name
                                         && (mem || IsOpen(fs.open, fs.dir[i].sector))
    ensures !Remove(fs, name, root, scan, mem, write).1 ==> Remove(fs, name, root, scan, mem, write).0 == fs
  {
    var slot := Lookup(fs.dir, name, Upto(fs.dir, scan));
    if slot.Some? {
      var s := fs.dir[slot.value].sector;
      IsOpenIff(fs.open, s);
      if InodeOpen(fs, s, mem).1 && !write {
        OpenCloseIsNothing(fs, s, mem);
      }
      assert forall i :: 0 <= i < |fs.dir| && fs.dir[i].inUse && fs.dir[i].name == name ==> i == slot.value;
    }
  }
}
