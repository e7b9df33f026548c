/** Files, directory, open inodes and free map: what each file system call does to them.
    Allocation and disk outcomes that the code can meet are arguments of the call. */
module FsState {
  import opened Common
  import opened BitmapSpec
  import InodeBytes

  type Extent = InodeBytes.Extent

  const FREE_MAP_SECTOR: nat := 0
  const ROOT_DIR_SECTOR: nat := 1
  const NAME_MAX: nat := 14

  datatype Entry = Entry(sector: nat, name: string, inUse: bool)

  datatype Inode = Inode(sector: nat, openCnt: int, removed: bool, denyCnt: int, data: Extent)

  datatype File = File(sector: nat, deny: bool)

  /** `free` marks sectors in use, `disk` holds the inodes written to disk, `dir` the slots of the root
      directory, `open` the list of open inodes and `files` the open files. */
  datatype Fs = Fs(free: seq<bool>, disk: map<nat, Extent>, dir: seq<Entry>, open: seq<Inode>, files: map<nat, File>)

  // ----- free map -----

  /** free_map_allocate; `written` says whether the map could be written back. */
  function Allocate(free: seq<bool>, cnt: nat, written: bool): (seq<bool>, Option<nat>) {
    match FirstRun(free, 0, cnt, false)
    case None => (free, None)
    case Some(i) =>
      if written then (Fill(free, i, cnt, true), Some(i))
      else (Fill(Fill(free, i, cnt, true), i, cnt, false), None)
  }

  // ----- directory -----

  /** Slot of a used entry of this name among the first `end` slots. */
  function Lookup(dir: seq<Entry>, name: string, end: nat): (r: Option<nat>)
    ensures r.Some? ==> r.value < end && r.value < |dir| && dir[r.value].inUse && dir[r.value].name == name
    ensures r.None? ==> forall i :: 0 <= i < end && i < |dir| ==> !(dir[i].inUse && dir[i].name == name)
  {
    if end == 0 then None
    else
      var r := Lookup(dir, name, end - 1);
      if r.Some? then r
      else if end <= |dir| && dir[end - 1].inUse && dir[end - 1].name == name then Some(end - 1)
      else None
  }

  /** First unused slot among the first `end`, or the slot at which reading stopped. */
  function FreeSlot(dir: seq<Entry>, at: nat, end: nat): (r: nat)
    requires at <= end <= |dir|
    ensures at <= r <= end
    ensures r < end ==> !dir[r].inUse
    ensures forall i :: at <= i < r ==> dir[i].inUse
    decreases end - at
  {
    if at == end || !dir[at].inUse then at else FreeSlot(dir, at + 1, end)
  }

  predicate ValidName(name: string) {
    0 < |name| <= NAME_MAX
  }

  /** How many slots a scan reads before its bounce buffer cannot be had, and whether the write has one. */
  datatype Reads = Reads(lookup: nat, slot: nat, write: bool)

  function Upto(dir: seq<Entry>, n: nat): nat {
    if n < |dir| then n else |dir|
  }

  /** dir_add; a directory does not grow. */
  function DirAdd(dir: seq<Entry>, name: string, sector: nat, r: Reads): (seq<Entry>, bool) {
    if !ValidName(name) || Lookup(dir, name, Upto(dir, r.lookup)).Some? then (dir, false)
    else
      var slot := FreeSlot(dir, 0, Upto(dir, r.slot));
      if r.write && slot < |dir| then (dir[slot := Entry(sector, name, true)], true) else (dir, false)
  }

  // ----- inodes -----

  function IndexOf(open: seq<Inode>, sector: nat): (r: Option<nat>)
    ensures r.Some? ==> r.value < |open| && open[r.value].sector == sector
    ensures r.None? ==> forall i :: 0 <= i < |open| ==> open[i].sector != sector
  {
    if open == [] then None
    else if open[0].sector == sector then Some(0)
    else match IndexOf(open[1..], sector) case None => None case Some(i) => Some(i + 1)
  }

  function InodeCreate(fs: Fs, sector: nat, length: nat, mem: bool, written: bool): (Fs, bool) {
    if !mem then (fs, false) else
    var (free, start) := Allocate(fs.free, InodeBytes.SectorCount(length), written);
    if start.None? then (fs.(free := free), false)
    else (fs.(free := free, disk := fs.disk[sector := InodeBytes.Extent(start.value, length)]), true)
  }

  /** inode_open: an inode that is already open is shared. */
  function InodeOpen(fs: Fs, sector: nat, mem: bool): (Fs, bool)
    requires sector in fs.disk
  {
    match IndexOf(fs.open, sector)
    case Some(i) => (fs.(open := fs.open[i := fs.open[i].(openCnt := fs.open[i].openCnt + 1)]), true)
    case None =>
      if mem then (fs.(open := [Inode(sector, 1, false, 0, fs.disk[sector])] + fs.open), true) else (fs, false)
  }

  predicate InRange(free: seq<bool>, at: nat, cnt: nat) {
    at + cnt <= |free|
  }

  /** inode_close: the last close takes the inode off the list and, if it was removed, releases its sectors. */
  function InodeClose(fs: Fs, i: nat): Fs
    requires i < |fs.open|
    requires InRange(fs.free, fs.open[i].sector, 1)
    requires InRange(fs.free, fs.open[i].data.start, InodeBytes.SectorCount(fs.open[i].data.length))
  {
    var inode := fs.open[i].(openCnt := fs.open[i].openCnt - 1);
    if inode.openCnt != 0 then fs.(open := fs.open[i := inode])
    else
      var open := fs.open[..i] + fs.open[i + 1..];
      if inode.removed then fs.(open := open, free := Released(fs.free, inode.sector, inode.data))
      else fs.(open := open)
  }

  function Released(free: seq<bool>, sector: nat, e: Extent): (r: seq<bool>)
    requires InRange(free, sector, 1) && InRange(free, e.start, InodeBytes.SectorCount(e.length))
    ensures |r| == |free|
  {
    Fill(Fill(free, sector, 1, false), e.start, InodeBytes.SectorCount(e.length), false)
  }

  // ----- calls -----

  /** Outcomes of the allocations and map writes of a create. */
  datatype CreateEnv = CreateEnv(root: bool, sectorWritten: bool, mem: bool, dataWritten: bool, scans: Reads)

  /** filesys_create: on failure after the inode sector was taken, that sector alone is released. */
  function Create(fs: Fs, name: string, size: nat, env: CreateEnv): (Fs, bool) {
    if !env.root then (fs, false) else
    var (free, sector) := Allocate(fs.free, 1, env.sectorWritten);
    if sector.None? then (fs.(free := free), false) else
    var (fs1, made) := InodeCreate(fs.(free := free), sector.value, size, env.mem, env.dataWritten);
    var (dir, added) := if made then DirAdd(fs1.dir, name, sector.value, env.scans) else (fs1.dir, false);
    if added then (fs1.(dir := dir), true)
    else if sector.value != 0 && sector.value < |fs1.free| then (fs1.(free := Fill(fs1.free, sector.value, 1, false)), false)
    else (fs1, false)
  }

  predicate Closable(fs: Fs, i: nat) {
    && i < |fs.open| && InRange(fs.free, fs.open[i].sector, 1)
    && InRange(fs.free, fs.open[i].data.start, InodeBytes.SectorCount(fs.open[i].data.length))
  }

  /** file_open on an inode just opened: a file, or the inode closed again when there is no memory for one. */
  function FileOpen(fs: Fs, sector: nat, h: nat, mem: bool): (Fs, bool)
    requires IndexOf(fs.open, sector).Some? && Closable(fs, IndexOf(fs.open, sector).value)
  {
    if mem then (fs.(files := fs.files[h := File(sector, false)]), true)
    else (InodeClose(fs, IndexOf(fs.open, sector).value), false)
  }

  /** Every inode a call may meet can be closed. */
  predicate Sound(fs: Fs) {
    && (forall i :: 0 <= i < |fs.open| ==> Closable(fs, i))
    && (forall i :: 0 <= i < |fs.dir| && fs.dir[i].inUse ==>
          && fs.dir[i].sector in fs.disk && InRange(fs.free, fs.dir[i].sector, 1)
          && InRange(fs.free, fs.disk[fs.dir[i].sector].start, InodeBytes.SectorCount(fs.disk[fs.dir[i].sector].length)))
    && (forall h :: h in fs.files ==> IndexOf(fs.open, fs.files[h].sector).Some?)
  }

  /** filesys_open, giving the new file the handle `h`; `scan` is how many slots the lookup can read. */
  function Open(fs: Fs, name: string, h: nat, root: bool, scan: nat, inodeMem: bool, fileMem: bool): (Fs, bool)
    requires Sound(fs)
  {
    var slot := Lookup(fs.dir, name, Upto(fs.dir, scan));
    if !root || slot.None? then (fs, false) else
    var sector := fs.dir[slot.value].sector;
    var (fs1, ok) := InodeOpen(fs, sector, inodeMem);
    if !ok then (fs, false) else
    FoundAfterOpen(fs, sector, inodeMem);
    FileOpen(fs1, sector, h, fileMem)
  }

  lemma FoundAfterOpen(fs: Fs, sector: nat, mem: bool)
    requires sector in fs.disk && Sound(fs) && InRange(fs.free, sector, 1)
    requires InRange(fs.free, fs.disk[sector].start, InodeBytes.SectorCount(fs.disk[sector].length))
    requires InodeOpen(fs, sector, mem).1
    ensures var fs1 := InodeOpen(fs, sector, mem).0;
            IndexOf(fs1.open, sector).Some? && Closable(fs1, IndexOf(fs1.open, sector).value)
  {
    var fs1 := InodeOpen(fs, sector, mem).0;
    match IndexOf(fs.open, sector)
    case Some(i) =>
      assert fs1.open[i].sector == sector;
      var j := IndexOf(fs1.open, sector).value;
      assert Closable(fs, j);
    case None =>
      assert fs1.open[0].sector == sector;
  }

  /** file_reopen */
  function Reopen(fs: Fs, from: nat, h: nat, mem: bool): (Fs, bool)
    requires Sound(fs) && from in fs.files
  {
    var i := IndexOf(fs.open, fs.files[from].sector).value;
    if mem
    then (fs.(open := fs.open[i := fs.open[i].(openCnt := fs.open[i].openCnt + 1)],
              files := fs.files[h := File(fs.files[from].sector, false)]), true)
    else (fs, false)
  }

  function SetDeny(fs: Fs, h: nat, deny: bool): Fs
    requires Sound(fs) && h in fs.files
  {
    var i := IndexOf(fs.open, fs.files[h].sector).value;
    if fs.files[h].deny == deny then fs else
    fs.(open := fs.open[i := fs.open[i].(denyCnt := fs.open[i].denyCnt + if deny then 1 else -1)],
        files := fs.files[h := fs.files[h].(deny := deny)])
  }

  /** file_close */
  function Close(fs: Fs, h: nat): Fs
    requires Sound(fs) && h in fs.files
  {
    var fs1 := SetDeny(fs, h, false);
    var i := IndexOf(fs.open, fs.files[h].sector).value;
    assert Closable(fs, i);
    InodeClose(fs1, i).(files := fs.files - {h})
  }

  /** filesys_remove; the entry goes at once, the sectors when the last opener closes. */
  function Remove(fs: Fs, name: string, root: bool, scan: nat, mem: bool, write: bool): (Fs, bool)
    requires Sound(fs)
  {
    var slot := Lookup(fs.dir, name, Upto(fs.dir, scan));
    if !root || slot.None? then (fs, false) else
    var sector := fs.dir[slot.value].sector;
    var (fs1, ok) := InodeOpen(fs, sector, mem);
    if !ok then (fs, false) else
    FoundAfterOpen(fs, sector, mem);
    var i := IndexOf(fs1.open, sector).value;
    if !write then (InodeClose(fs1, i), false) else
    var fs2 := fs1.(dir := fs1.dir[slot.value := fs1.dir[slot.value].(inUse := false)],
                    open := fs1.open[i := fs1.open[i].(removed := true)]);
    (InodeClose(fs2, i), true)
  }

  // ----- formatting -----

  /** Bytes of sixteen directory entries of twenty bytes. */
  const ROOT_BYTES: nat := 320

  /** bitmap_file_size: whole words of 32 bits. */
  function MapBytes(sectors: nat): nat {
    (sectors + 31) / 32 * 4
  }

  /** free_map_init on a device of that many sectors, and the zeroed root directory to come. */
  function Blank(sectors: nat): Fs
    requires sectors >= 2
  {
    Fs(seq(sectors, x => x < 2), map[], seq(16, _ => Entry(0, "", false)), [], map[])
  }

  /** filesys_init with formatting: None where it panics; `ok` says that memory and map writes suffice. */
  function Format(sectors: nat, ok: bool): Option<Fs> {
    if !ok || sectors < 2 then None else
    var (fs1, map1) := InodeCreate(Blank(sectors), FREE_MAP_SECTOR, MapBytes(sectors), true, true);
    var (fs2, root2) := InodeCreate(fs1, ROOT_DIR_SECTOR, ROOT_BYTES, true, true);
    if !map1 || !root2 then None
    else Some(fs2.(open := [Inode(FREE_MAP_SECTOR, 1, false, 0, fs2.disk[FREE_MAP_SECTOR])],
                   files := map[0 := File(FREE_MAP_SECTOR, false)]))
  }
}
