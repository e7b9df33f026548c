/** Two faults on file-backed pages whose steps overlap. frame_find_empty gives up frame_lock without reserving the
    frame it returns, so what comes out depends on whether the second search precedes the first installation. */
module VmInterleaving {
  import opened Common
  import opened VmState
  import opened VmRefinement

  /** A free swap slot if every frame is taken. */
  predicate HasRoom(s: Vm) {
    s.occupancy >= TOTAL_PAGES ==> FirstUnused(s.swapUsed, 0) < |s.swapUsed|
  }

  predicate Loadable(s: Vm, id: PageId) {
    id in s.spt && s.spt[id].location == InFilesys && SeekOk(s.spt[id]) && ReadSucceeds(s.spt[id])
  }

  /** The page's bytes have been read into frame `i`. */
  function ReadInto(t: Vm, id: PageId, i: nat): Vm
    requires i < |t.frames| && id in t.spt
  {
    t.(ram := t.ram[t.frames[i].kpage := FileContent(t.spt[id])])
  }

  /** After an eviction from a full table the victim's frame is the first free one. */
  lemma EvictedIsFirst(s: Vm)
    requires Inv(s) && s.occupancy >= TOTAL_PAGES && CanEvict(s)
    ensures Evict(s).occupancy < TOTAL_PAGES && FirstFree(Evict(s).frames, 0) == Victim(s)
  {
    OccupiedBound(s.frames);
    var v, fs := Victim(s), Evict(s).frames;
    assert fs[v].upage == 0;
    forall j | 0 <= j < v
      ensures fs[j].upage != 0
    {
      assert fs[j] == s.frames[j];
    }
  }

  /** A search right after another is given the same frame. */
  lemma SecondSearchShares(s: Vm)
    requires Inv(s) && HasRoom(s)
    ensures CanFindEmpty(s) && CanFindEmpty(AfterFind(s))
    ensures AfterFind(AfterFind(s)) == AfterFind(s) && FoundFrame(AfterFind(s)) == FoundFrame(s) < TOTAL_PAGES
  {
    FindRefines(s);
    if s.occupancy >= TOTAL_PAGES {
      EvictedIsFirst(s);
    }
  }

  lemma LoadKeepsOther(s: Vm, a: PageId, b: PageId)
    requires Inv(s) && HasRoom(s) && Loadable(s, a) && b in s.spt && s.spt[b].location == InFilesys && a != b
    ensures CanFault(s, a) && Inv(LoadFromFile(s, a)) && Abs(LoadFromFile(s, a)) == Abs(s)
    ensures b in LoadFromFile(s, a).spt && LoadFromFile(s, a).spt[b] == s.spt[b]
  {
    LoadRefines(s, a);
    FindRefines(s);
  }

  /** Reading into a frame that is taken changes the page there and nothing else. */
  lemma ReadOverPage(u: Vm, a: PageId, b: PageId, i: nat)
    requires Consistent(u) && i < TOTAL_PAGES && b in u.spt && a in u.spt
    requires u.spt[a].location == InFrame && u.spt[a].kpage == u.frames[i].kpage
    ensures Consistent(ReadInto(u, b, i)) && Content(ReadInto(u, b, i), a) == FileContent(u.spt[b])
  {
    var w := ReadInto(u, b, i);
    assert forall j :: 0 <= j < TOTAL_PAGES ==> FrameOk(w, w.frames[j]) == FrameOk(u, u.frames[j]);
    assert forall id :: id in u.spt ==> PageOk(u, id) && PageOk(w, id);
  }

  /** Both faults search before either installs: they are given the same frame. When the second one's bytes are
      read, the first one's page is in the frame and now has the second one's bytes; the frame is taken, so the
      second installation ends that process. */
  lemma OverlapOverwrites(s: Vm, a: PageId, b: PageId)
    requires Inv(s) && HasRoom(s) && Loadable(s, a) && Loadable(s, b) && a != b
    ensures CanFault(s, a) && CanFindEmpty(AfterFind(s)) && FoundFrame(AfterFind(s)) == FoundFrame(s)
    ensures var u, i := LoadFromFile(s, a), FoundFrame(AfterFind(s));
            && i < |u.frames| && u.frames[i].upage != 0 && b in u.spt
            && var w := ReadInto(u, b, i);
            && Consistent(w) && a in w.spt && Content(w, a) == FileContent(s.spt[b])
            && (Content(w, a) == FileContent(s.spt[a]) <==> FileContent(s.spt[a]) == FileContent(s.spt[b]))
  {
    SecondSearchShares(s);
    LoadKeepsOther(s, a, b);
    FindRefines(s);
    assert PageOk(s, a);
    ReadOverPage(LoadFromFile(s, a), a, b, FoundFrame(s));
  }

  /** The second fault searches after the first has installed: both pages have their own bytes. */
  lemma SerialKeepsBoth(s: Vm, a: PageId, b: PageId)
    requires Inv(s) && HasRoom(s) && Loadable(s, a) && Loadable(s, b) && a != b
    requires CanFault(s, a) && HasRoom(LoadFromFile(s, a))
    ensures var u := LoadFromFile(s, a);
            && CanFault(u, b) && b in u.spt && Inv(LoadFromFile(u, b))
            && a in LoadFromFile(u, b).spt && b in LoadFromFile(u, b).spt
            && Content(LoadFromFile(u, b), a) == FileContent(s.spt[a])
            && Content(LoadFromFile(u, b), b) == FileContent(s.spt[b])
  {
    LoadKeepsOther(s, a, b);
    var u := LoadFromFile(s, a);
    LoadRefines(u, b);
    assert Abs(LoadFromFile(u, b)) == Abs(s);
    assert Abs(s)[a] == FileContent(s.spt[a]) && Abs(s)[b] == FileContent(s.spt[b]);
    assert Abs(LoadFromFile(u, b))[a] == Content(LoadFromFile(u, b), a);
    assert Abs(LoadFromFile(u, b))[b] == Content(LoadFromFile(u, b), b);
  }
}
