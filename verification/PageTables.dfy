/**
  The two-level page tables of paging.c, in place, seen as a finite map from
  virtual page numbers to frame numbers.  Entries have the 32-bit paging format of
  section 4.3 of volume 3A of the Intel 64 and IA-32 Architectures SDM: bit 0 is
  present, bit 2 is user access, bits 31:12 are the frame.
*/
module PageTables {
  import opened Basics
  import opened Frames

  const MAPPED: nat := TABLES * ENTRIES // virtual pages that have a table
  const PAGE_PRESENT: nat := 1
  const PAGE_WRITE: nat := 2

  /** A call returns, or spins forever on the lock that it holds itself (see PagingLock). */
  datatype Result = Returns(e: Error) | NeverReturns

  // ------------------------------------------------------------------- page entries

  /** (physical & 0xFFFFF000) | (flags & 0xFFF) */
  function MakeEntry(physical: nat, flags: nat): nat {
    (physical - physical % PAGE_SIZE) + flags % PAGE_SIZE
  }

  predicate Present(e: nat) {
    e % 2 == 1
  }

  predicate UserBit(e: nat) {
    (e / 4) % 2 == 1
  }

  function FrameOf(e: nat): nat {
    e / PAGE_SIZE
  }

  lemma EntryFields(physical: nat, flags: nat)
    ensures FrameOf(MakeEntry(physical, flags)) == physical / PAGE_SIZE
    ensures Present(MakeEntry(physical, flags)) <==> Present(flags)
    ensures MakeEntry(physical, flags) / 4096 == physical / 4096 && MakeEntry(physical, flags) % 4096 == flags % 4096
    ensures physical < UINT32 ==> MakeEntry(physical, flags) < UINT32
  {
    var low := flags % PAGE_SIZE;
    assert flags == PAGE_SIZE * (flags / PAGE_SIZE) + low;
    assert MakeEntry(physical, flags) == PAGE_SIZE * (physical / PAGE_SIZE) + low;
  }

  // ---------------------------------------------------------- tables as a finite map

  /** The table words ts realise the map view; word v is the entry of virtual page v. */
  ghost predicate Shows(ts: seq<nat>, view: map<nat, nat>) {
    && |ts| == MAPPED
    && (forall v | v in view :: v < MAPPED)
    && forall v: nat {:trigger ts[v]} | v < MAPPED ::
         && (v in view <==> Present(ts[v]))
         && (v in view ==> view[v] == FrameOf(ts[v]))
  }

  /** Where the map sends a virtual address; 0 when the page is absent. */
  function Image(view: map<nat, nat>, virtual: nat): nat {
    if virtual / PAGE_SIZE in view then view[virtual / PAGE_SIZE] * PAGE_SIZE + virtual % PAGE_SIZE else 0
  }

  /** Every page below 64 MB goes to the frame of the same number. */
  ghost function Identity(): map<nat, nat> {
    map v | v in Block(0, MAPPED) :: v
  }

  lemma ShowsUpdate(ts: seq<nat>, view: map<nat, nat>, v: nat, e: nat)
    requires Shows(ts, view) && v < MAPPED
    ensures Shows(ts[v := e], if Present(e) then view[v := FrameOf(e)] else view - {v})
  {
  }

  lemma Split(virtual: nat)
    requires virtual < UINT32
    ensures virtual / (PAGE_SIZE * ENTRIES) < ENTRIES
    ensures virtual / (PAGE_SIZE * ENTRIES) * ENTRIES + (virtual / PAGE_SIZE) % ENTRIES == virtual / PAGE_SIZE
  {
    var page := virtual / PAGE_SIZE;
    assert virtual / (PAGE_SIZE * ENTRIES) == page / ENTRIES;
  }

  lemma IdentityEntry(v: nat)
    ensures Present(v * PAGE_SIZE + PAGE_PRESENT + PAGE_WRITE)
    ensures FrameOf(v * PAGE_SIZE + PAGE_PRESENT + PAGE_WRITE) == v
  {
    assert v * PAGE_SIZE + PAGE_PRESENT + PAGE_WRITE == 2 * (2048 * v + 1) + 1;
  }

  lemma IdentityShows(ts: seq<nat>)
    requires |ts| == MAPPED && forall v | 0 <= v < MAPPED :: ts[v] == v * PAGE_SIZE + PAGE_PRESENT + PAGE_WRITE
    ensures Shows(ts, Identity())
  {
    forall v: nat | v < MAPPED ensures Present(ts[v]) && FrameOf(ts[v]) == v {
      IdentityEntry(v);
    }
  }

  // --------------------------------------------------------------------- the class

  class Paging {
    const base: nat // address of identity_page_tables
    const directory: array<nat>
    const words: array<nat> // identity_page_tables, row after row
    const pageTables: array<Option<nat>> // pointers into words
    ghost var view: map<nat, nat>

    ghost predicate Valid()
      reads this, directory, words, pageTables
    {
      && base % PAGE_SIZE == 0 && base + TABLES * PAGE_SIZE < UINT32
      && directory.Length == ENTRIES && pageTables.Length == ENTRIES && words != directory
      && Shows(words[..], view)
      && (forall i | 0 <= i < ENTRIES :: pageTables[i] == if i < TABLES then Some(i * ENTRIES) else None)
      && (forall i | 0 <= i < ENTRIES ::
            directory[i] == if i < TABLES then base + i * PAGE_SIZE + PAGE_PRESENT + PAGE_WRITE else 0)
    }

    /** paging_init: the first 64 MB are mapped to themselves and nothing else is mapped. */
    constructor (base: nat, directory: array<nat>, words: array<nat>, pageTables: array<Option<nat>>)
      requires base % PAGE_SIZE == 0 && base + TABLES * PAGE_SIZE < UINT32
      requires directory.Length == ENTRIES && pageTables.Length == ENTRIES && words.Length == MAPPED
      requires words != directory
      modifies directory, words, pageTables
      ensures Valid() && fresh(this)
      ensures view == Identity()
      ensures forall v | 0 <= v < MAPPED :: words[v] == v * 4096 + 3
    {
      this.base := base;
      this.directory := directory;
      this.words := words;
      this.pageTables := pageTables;
      view := Identity();
      new;
      for i := 0 to ENTRIES
        invariant view == Identity()
        invariant forall j | 0 <= j < i :: directory[j] == 0 && pageTables[j] == None
      {
        directory[i] := 0;
        pageTables[i] := None;
      }
      for t := 0 to TABLES
        invariant view == Identity()
        invariant forall v | 0 <= v < t * ENTRIES :: words[v] == v * PAGE_SIZE + PAGE_PRESENT + PAGE_WRITE
        invariant forall i | 0 <= i < ENTRIES :: pageTables[i] == if i < t then Some(i * ENTRIES) else None
        invariant forall i | 0 <= i < ENTRIES ::
                    directory[i] == if i < t then base + i * PAGE_SIZE + PAGE_PRESENT + PAGE_WRITE else 0
      {
        FillTable(t);
        directory[t] := base + t * PAGE_SIZE + PAGE_PRESENT + PAGE_WRITE;
        pageTables[t] := Some(t * ENTRIES);
      }
      IdentityShows(words[..]);
    }

    /** paging.c:102-105 */
    method FillTable(t: nat)
      requires t < TABLES && words.Length == MAPPED && words != directory
      modifies words
      ensures forall v | 0 <= v < MAPPED ::
                words[v] == if t * ENTRIES <= v < t * ENTRIES + ENTRIES
                            then v * PAGE_SIZE + PAGE_PRESENT + PAGE_WRITE else old(words[v])
    {
      for e := 0 to ENTRIES
        invariant forall v | 0 <= v < MAPPED ::
                    words[v] == if t * ENTRIES <= v < t * ENTRIES + e
                                then v * PAGE_SIZE + PAGE_PRESENT + PAGE_WRITE else old(words[v])
      {
        var phys := t * PAGE_SIZE * ENTRIES + e * PAGE_SIZE;
        words[t * ENTRIES + e] := (phys - phys % PAGE_SIZE) + PAGE_PRESENT + PAGE_WRITE;
      }
    }

    /** map_page: on an existing table the page's entry is replaced; without a table the call never returns. */
    method MapPage(virtual: nat, physical: nat, flags: nat) returns (r: Result)
      requires Valid() && virtual < UINT32 && physical < UINT32 && flags < UINT32
      modifies this, words
      ensures Valid()
      ensures var v := virtual / PAGE_SIZE;
              if virtual % PAGE_SIZE != 0 || physical % PAGE_SIZE != 0 then r == Returns(Invalid) && view == old(view)
              else if v >= MAPPED then r == NeverReturns && view == old(view)
              else && r == Returns(Ok)
                   && view == if Present(flags) then old(view)[v := physical / PAGE_SIZE] else old(view) - {v}
      ensures r != Returns(Ok) ==> words[..] == old(words[..])
      ensures r == Returns(Ok) ==>
                var v := virtual / PAGE_SIZE;
                && words[v] / 4096 == physical / 4096 && words[v] % 4096 == flags % 4096
                && words[..] == old(words[..])[v := words[v]]
    {
      if virtual % PAGE_SIZE != 0 || physical % PAGE_SIZE != 0 {
        return Returns(Invalid);
      }
      var pd := virtual / (PAGE_SIZE * ENTRIES);
      var pt := (virtual / PAGE_SIZE) % ENTRIES;
      Split(virtual);
      if pd >= ENTRIES || pt >= ENTRIES {
        return Returns(Invalid);
      }
      if pageTables[pd] == None {
        return NeverReturns;
      }
      EntryFields(physical, flags);
      Write(pageTables[pd].value + pt, MakeEntry(physical, flags));
      r := Returns(Ok);
    }

    method Write(v: nat, e: nat)
      requires Valid() && v < MAPPED
      modifies this, words
      ensures Valid() && view == if Present(e) then old(view)[v := FrameOf(e)] else old(view) - {v}
      ensures words[..] == old(words[..])[v := e]
    {
      ShowsUpdate(words[..], view, v, e);
      words[v] := e;
      assert words[..] == old(words[..])[v := e];
      view := if Present(e) then view[v := FrameOf(e)] else view - {v};
    }

    /** unmap_page removes the page from the map; a page without table is left alone. */
    method UnmapPage(virtual: nat) returns (e: Error)
      requires Valid() && virtual < UINT32
      modifies this, words
      ensures Valid()
      ensures if virtual % PAGE_SIZE != 0 then e == Invalid && view == old(view)
              else e == Ok && view == old(view) - {virtual / PAGE_SIZE}
      ensures words[..] == if e == Ok && virtual / PAGE_SIZE < MAPPED
                           then old(words[..])[virtual / PAGE_SIZE := 0] else old(words[..])
    {
      if virtual % PAGE_SIZE != 0 {
        return Invalid;
      }
      var pd := virtual / (PAGE_SIZE * ENTRIES);
      var pt := (virtual / PAGE_SIZE) % ENTRIES;
      Split(virtual);
      if pd >= ENTRIES || pt >= ENTRIES {
        return Invalid;
      }
      if pageTables[pd] != None {
        Write(pageTables[pd].value + pt, 0);
      }
      e := Ok;
    }

    /** get_physical_addr computes the image of the address under the map. */
    method GetPhysicalAddr(virtual: nat) returns (physical: nat)
      requires Valid() && virtual < UINT32
      ensures physical == Image(view, virtual)
    {
      physical := 0;
      var pd := virtual / (PAGE_SIZE * ENTRIES);
      var pt := (virtual / PAGE_SIZE) % ENTRIES;
      Split(virtual);
      if pd >= ENTRIES || pt >= ENTRIES {
        return;
      }
      if pageTables[pd] == None {
        return;
      }
      var entry := words[pageTables[pd].value + pt];
      assert entry == words[..][virtual / PAGE_SIZE];
      if entry % 2 == 0 {
        return;
      }
      physical := (entry - entry % PAGE_SIZE) + virtual % PAGE_SIZE;
    }

    // ------------------------------------------------------- what the processor sees

    /** The processor's walk: directory entry, table by its address, table entry. */
    ghost function HardwareWalk(virtual: nat): Option<nat>
      requires Valid() && virtual < UINT32
      reads this, directory, words, pageTables
    {
      Split(virtual);
      var pde := directory[virtual / (PAGE_SIZE * ENTRIES)];
      if !Present(pde) then None
      else
        var table := (FrameOf(pde) * PAGE_SIZE - base) / PAGE_SIZE;
        var index := table * ENTRIES + (virtual / PAGE_SIZE) % ENTRIES;
        if !(0 <= index < MAPPED) then None
        else if !Present(words[index]) then None
        else Some(FrameOf(words[index]) * PAGE_SIZE + virtual % PAGE_SIZE)
    }

    /** User-mode access needs the user bit in the directory entry and in the table entry. */
    ghost predicate UserMayAccess(virtual: nat)
      requires Valid() && virtual < UINT32
      reads this, directory, words, pageTables
    {
      Split(virtual);
      && HardwareWalk(virtual).Some?
      && UserBit(directory[virtual / (PAGE_SIZE * ENTRIES)])
      && UserBit(words[virtual / PAGE_SIZE])
    }

    lemma DirectoryEntry(pd: nat)
      requires Valid() && pd < TABLES
      ensures Present(directory[pd]) && !UserBit(directory[pd])
      ensures (FrameOf(directory[pd]) * PAGE_SIZE - base) / PAGE_SIZE == pd
    {
      var e := base + pd * PAGE_SIZE + 3;
      assert base == PAGE_SIZE * (base / PAGE_SIZE);
      assert e == PAGE_SIZE * (base / PAGE_SIZE + pd) + 3;
      assert FrameOf(e) == base / PAGE_SIZE + pd;
      assert e == 4 * (1024 * (base / PAGE_SIZE + pd)) + 3;
      assert e / 4 == 1024 * (base / PAGE_SIZE + pd);
    }

    /** The processor's walk and get_physical_addr agree, and the walk finds exactly the pages of the map. */
    lemma HardwareAgrees(virtual: nat)
      requires Valid() && virtual < UINT32
      ensures HardwareWalk(virtual) == if virtual / PAGE_SIZE in view then Some(Image(view, virtual)) else None
    {
      Split(virtual);
      var pd := virtual / (PAGE_SIZE * ENTRIES);
      if pd < TABLES {
        DirectoryEntry(pd);
        assert words[virtual / PAGE_SIZE] == words[..][virtual / PAGE_SIZE];
      }
    }

    /** No page is ever accessible in user mode, whatever flags map_page was given. */
    lemma NeverUserAccessible(virtual: nat)
      requires Valid() && virtual < UINT32
      ensures !UserMayAccess(virtual)
    {
      Split(virtual);
      var pd := virtual / (PAGE_SIZE * ENTRIES);
      if pd < TABLES {
        DirectoryEntry(pd);
      }
    }
  }

  /** After map_page every address of the page goes to the frame, and no other page moves. */
  lemma MappingIsLocal(view: map<nat, nat>, v: nat, f: nat, virtual: nat)
    ensures virtual / PAGE_SIZE == v ==> Image(view[v := f], virtual) == f * PAGE_SIZE + virtual % PAGE_SIZE
    ensures virtual / PAGE_SIZE == v ==> Image(view - {v}, virtual) == 0
    ensures virtual / PAGE_SIZE != v ==>
              Image(view[v := f], virtual) == Image(view - {v}, virtual) == Image(view, virtual)
  {
  }

  /** After paging_init an address below 64 MB translates to itself and every other address to 0. */
  lemma IdentityImage(virtual: nat)
    ensures var view := Identity();
            Image(view, virtual) == if virtual < 64 * 1024 * 1024 then virtual else 0
  {
    var page := virtual / PAGE_SIZE;
    assert virtual == page * PAGE_SIZE + virtual % PAGE_SIZE;
  }
}
