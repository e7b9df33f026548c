/** The swap device: a page occupies eight consecutive 512-byte sectors. */
module Swap {
  import opened Common
  import opened VmState

  type Sector = s: seq<Byte> | |s| == SECTOR_SIZE witness seq(SECTOR_SIZE, _ => 0)

  /** The page stored in the eight sectors starting at `first`. */
  function PageAt(sectors: seq<Sector>, first: nat): (d: PageData)
    requires first + SECTORS_PER_PAGE <= |sectors|
    ensures forall i :: 0 <= i < PGSIZE ==> d[i] == sectors[first + i / SECTOR_SIZE][i % SECTOR_SIZE]
  {
    seq(PGSIZE, i requires 0 <= i < PGSIZE => sectors[first + i / SECTOR_SIZE][i % SECTOR_SIZE] as Byte)
  }

  function Slots(sectors: seq<Sector>, n: nat): (r: seq<PageData>)
    requires n * SECTORS_PER_PAGE <= |sectors|
    ensures |r| == n
    ensures forall j :: 0 <= j < n ==> r[j] == PageAt(sectors, j * SECTORS_PER_PAGE)
  {
    seq(n, j requires 0 <= j < n => PageAt(sectors, j * SECTORS_PER_PAGE))
  }

  /** Replacing the eight sectors of one slot changes that slot only. */
  lemma SlotsUpdate(before: seq<Sector>, after: seq<Sector>, n: nat, slot: nat, data: PageData)
    requires n * SECTORS_PER_PAGE <= |before| == |after| && slot < n
    requires forall i :: 0 <= i < |before| && !(slot * SECTORS_PER_PAGE <= i < (slot + 1) * SECTORS_PER_PAGE) ==>
               after[i] == before[i]
    requires forall i :: 0 <= i < SECTORS_PER_PAGE ==>
               after[slot * SECTORS_PER_PAGE + i] == data[i * SECTOR_SIZE..(i + 1) * SECTOR_SIZE]
    ensures Slots(after, n) == Slots(before, n)[slot := data]
  {
    forall j | 0 <= j < n && j != slot
      ensures PageAt(after, j * SECTORS_PER_PAGE) == PageAt(before, j * SECTORS_PER_PAGE)
    {
    }
    var d := PageAt(after, slot * SECTORS_PER_PAGE);
    forall b | 0 <= b < PGSIZE
      ensures d[b] == data[b]
    {
      var i := b / SECTOR_SIZE;
      assert after[slot * SECTORS_PER_PAGE + i] == data[i * SECTOR_SIZE..(i + 1) * SECTOR_SIZE];
    }
    assert d == data;
  }

  class SwapDevice {
    const sectors: array<Sector>
    var used: seq<bool>

    ghost predicate Valid()
      reads this
    {
      sectors.Length == |used| * SECTORS_PER_PAGE
    }

    ghost function Contents(): seq<PageData>
      reads this, sectors
      requires Valid()
    {
      Slots(sectors[..], |used|)
    }

    constructor (pages: nat)
      ensures Valid() && fresh(sectors) && used == seq(pages, _ => false)
    {
      sectors := new Sector[pages * SECTORS_PER_PAGE](_ => seq(SECTOR_SIZE, _ => 0));
      used := seq(pages, _ => false);
    }

    /** Claims the lowest free slot and returns its first sector. */
    method GetFree() returns (sector: nat)
      requires Valid()
      requires FirstUnused(used, 0) < |used|
      modifies `used
      ensures Valid() && used == old(used)[FirstUnused(old(used), 0) := true]
      ensures sector == FirstUnused(old(used), 0) * SECTORS_PER_PAGE
    {
      var i := 0;
      while used[i]
        invariant 0 <= i <= FirstUnused(used, 0) == FirstUnused(used, i)
        decreases |used| - i
      {
        i := i + 1;
      }
      used := used[i := true];
      sector := i * SECTORS_PER_PAGE;
    }

    /** Copies the eight sectors at `location` out and frees their slot. */
    method Read(location: nat) returns (buffer: PageData)
      requires Valid() && location % SECTORS_PER_PAGE == 0 && location / SECTORS_PER_PAGE < |used|
      modifies `used
      ensures Valid() && used == old(used)[location / SECTORS_PER_PAGE := false]
      ensures buffer == old(Contents())[location / SECTORS_PER_PAGE] && Contents() == old(Contents())
    {
      var bytes: seq<Byte> := [];
      var i := 0;
      while i < SECTORS_PER_PAGE
        invariant 0 <= i <= SECTORS_PER_PAGE
        invariant |bytes| == i * SECTOR_SIZE
        invariant forall b :: 0 <= b < |bytes| ==> bytes[b] == sectors[location + b / SECTOR_SIZE][b % SECTOR_SIZE]
      {
        bytes := bytes + sectors[location + i];
        i := i + 1;
      }
      buffer := bytes;
      assert buffer == PageAt(sectors[..], location);
      used := used[location / SECTORS_PER_PAGE := false];
    }

    /** Stores a page in the lowest free slot and returns its first sector. */
    method Write(buffer: PageData) returns (location: nat)
      requires Valid()
      requires FirstUnused(used, 0) < |used|
      modifies `used, sectors
      ensures Valid() && used == old(used)[FirstUnused(old(used), 0) := true]
      ensures location == FirstUnused(old(used), 0) * SECTORS_PER_PAGE
      ensures Contents() == old(Contents())[FirstUnused(old(used), 0) := buffer]
    {
      ghost var before := sectors[..];
      location := GetFree();
      var i := 0;
      while i < SECTORS_PER_PAGE
        invariant 0 <= i <= SECTORS_PER_PAGE
        invariant Valid() && used == old(used)[FirstUnused(old(used), 0) := true]
        invariant forall j :: 0 <= j < i ==> sectors[location + j] == buffer[j * SECTOR_SIZE..(j + 1) * SECTOR_SIZE]
        invariant forall j :: 0 <= j < sectors.Length && !(location <= j < location + i) ==> sectors[j] == before[j]
      {
        sectors[location + i] := buffer[i * SECTOR_SIZE..(i + 1) * SECTOR_SIZE];
        i := i + 1;
      }
      SlotsUpdate(before, sectors[..], |used|, location / SECTORS_PER_PAGE, buffer);
    }
  }
}
