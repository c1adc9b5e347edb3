/**
 The software TLB of emu/tlb.c and emu/tlb.h: a direct-mapped cache of page translations
 that must never disagree with the page table it caches.
 */
module Tlb {
  import PowersOfTwo

  const PAGE_SIZE := 4096
  const TLB_SIZE := 1024
  const TLB_PAGE_EMPTY := 1

  type Addr = a: nat | a < 0x1_0000_0000

  /** TLB_PAGE and PGOFFSET. */
  function PageOf(a: Addr): Addr { a - a % 4096 }
  function Offset(a: Addr): (o: nat)
    ensures o < PAGE_SIZE
  {
    a % 4096
  }

  /** TLB_INDEX. */
  function Index(a: Addr): (i: nat)
    ensures i < TLB_SIZE
  {
    assert PowersOfTwo.Pow2(10) == 1024 by { assert PowersOfTwo.Pow2(5) == 32; assert PowersOfTwo.Pow2(8) == 256; }
    PowersOfTwo.XorBelow((a / 4096) % 1024, a / 0x40_0000, 10);
    PowersOfTwo.Xor((a / 4096) % 1024, a / 0x40_0000)
  }

  // ----- page tables and host memory -----

  /** Host pointers of the pages that can be read, and of those that can be written as they are. */
  datatype PageTable = PageTable(read: map<Addr, int>, write: map<Addr, int>)

  /** What is writable is readable at the same place. */
  ghost predicate Consistent(t: PageTable) {
    forall p :: p in t.write ==> p in t.read && t.read[p] == t.write[p]
  }

  function Lookup(m: map<Addr, int>, p: Addr): Translation {
    if p in m then Mapped(m[p]) else Fault
  }

  datatype Translation = Mapped(ptr: int) | Fault

  /** Translating `page` may change the table, but only for that page. */
  ghost predicate OnlyPage(t: PageTable, next: PageTable, page: Addr) {
    Consistent(next) && forall p: Addr :: p != page ==>
                          Lookup(next.read, p) == Lookup(t.read, p) && Lookup(next.write, p) == Lookup(t.write, p)
  }

  type Host = map<int, int>

  function Byte(h: Host, p: int): int {
    if p in h then h[p] else 0
  }

  /** memcpy to and from host memory. */
  function Blit(h: Host, p: int, bytes: seq<int>): Host
    decreases bytes
  {
    if bytes == [] then h else Blit(h[p := bytes[0]], p + 1, bytes[1..])
  }

  function Fetch(h: Host, p: int, n: nat): seq<int> {
    seq(n, i => Byte(h, p + i))
  }

  /** Byte `i` after `a`, wrapping at the end of the address space. */
  function Plus(a: Addr, i: nat): Addr {
    (a + i) % 0x1_0000_0000
  }

  /** Every one of the `n` bytes from `a` lies on a page of `m`. */
  ghost predicate AllMapped(m: map<Addr, int>, a: Addr, n: nat) {
    forall i :: 0 <= i < n ==> PageOf(Plus(a, i)) in m
  }

  /** Where the page table puts one guest byte. */
  function Place(m: map<Addr, int>, a: Addr): int {
    if PageOf(a) in m then m[PageOf(a)] + Offset(a) else 0
  }

  /** Reading and writing one byte at a time through the page table. */
  function ReadBytes(h: Host, m: map<Addr, int>, a: Addr, n: nat): seq<int> {
    seq(n, i requires 0 <= i < n => Byte(h, Place(m, Plus(a, i))))
  }

  function WriteBytes(h: Host, m: map<Addr, int>, a: Addr, bytes: seq<int>): Host
    decreases bytes
  {
    if bytes == [] then h else WriteBytes(h[Place(m, a) := bytes[0]], m, Plus(a, 1), bytes[1..])
  }

  /** A host byte that no byte of a write lands on is left alone. */
  lemma {:induction false} WriteMisses(h: Host, m: map<Addr, int>, a: Addr, bytes: seq<int>, p: int)
    requires forall i :: 0 <= i < |bytes| ==> Place(m, Plus(a, i)) != p
    ensures Byte(WriteBytes(h, m, a, bytes), p) == Byte(h, p)
    decreases bytes
  {
    hide Place, Plus;
    if bytes != [] {
      PlusNone(a);
      assert Place(m, Plus(a, 0)) != p;
      forall i | 0 <= i < |bytes| - 1 ensures Place(m, Plus(Plus(a, 1), i)) != p {
        PlusPlus(a, 1, i);
        assert Place(m, Plus(a, 1 + i)) != p;
      }
      WriteMisses(h[Place(m, a) := bytes[0]], m, Plus(a, 1), bytes[1..], p);
    }
  }

  /** Of the bytes of a write that land on one host byte, the last stays. */
  lemma {:induction false} WriteHits(h: Host, m: map<Addr, int>, a: Addr, bytes: seq<int>, i: nat)
    requires i < |bytes|
    requires forall j :: i < j < |bytes| ==> Place(m, Plus(a, j)) != Place(m, Plus(a, i))
    ensures Byte(WriteBytes(h, m, a, bytes), Place(m, Plus(a, i))) == bytes[i]
    decreases bytes
  {
    hide Place, Plus;
    var b, next, p := Plus(a, 1), h[Place(m, a) := bytes[0]], Place(m, Plus(a, i));
    PlusNone(a);
    forall j: nat ensures Plus(b, j) == Plus(a, j + 1) {
      PlusPlus(a, 1, j);
    }
    if i == 0 {
      forall j | 0 <= j < |bytes| - 1 ensures Place(m, Plus(b, j)) != p {
        assert Place(m, Plus(a, j + 1)) != p;
      }
      WriteMisses(next, m, b, bytes[1..], p);
    } else {
      forall j | i - 1 < j < |bytes| - 1 ensures Place(m, Plus(b, j)) != Place(m, Plus(b, i - 1)) {
        assert Place(m, Plus(a, j + 1)) != p;
      }
      WriteHits(next, m, b, bytes[1..], i - 1);
    }
  }

  lemma PlusNone(a: Addr)
    ensures Plus(a, 0) == a
  {
  }

  /** Bytes of a write that share a host byte agree. */
  ghost predicate Agree(m: map<Addr, int>, a: Addr, bytes: seq<int>) {
    forall i, j :: 0 <= i < j < |bytes| && Place(m, Plus(a, i)) == Place(m, Plus(a, j)) ==> bytes[i] == bytes[j]
  }

  /** A read of what was just written returns it, if and only if bytes that share a host byte agree. */
  lemma ReadBackIff(h: Host, m: map<Addr, int>, a: Addr, bytes: seq<int>)
    ensures ReadBytes(WriteBytes(h, m, a, bytes), m, a, |bytes|) == bytes <==> Agree(m, a, bytes)
  {
    hide Place, Plus, WriteBytes, Byte;
    var out := WriteBytes(h, m, a, bytes);
    var got := ReadBytes(out, m, a, |bytes|);
    if got == bytes {
      forall i, j | 0 <= i < j < |bytes| && Place(m, Plus(a, i)) == Place(m, Plus(a, j)) ensures bytes[i] == bytes[j] {
        assert got[i] == got[j];
      }
    }
    if Agree(m, a, bytes) {
      forall i: nat | i < |bytes| ensures got[i] == bytes[i] {
        var k := LastSharing(m, a, |bytes|, i);
        WriteHits(h, m, a, bytes, k);
      }
    }
  }

  lemma LastSharing(m: map<Addr, int>, a: Addr, n: nat, i: nat) returns (k: nat)
    requires i < n
    ensures i <= k < n && Place(m, Plus(a, k)) == Place(m, Plus(a, i))
    ensures forall j :: k < j < n ==> Place(m, Plus(a, j)) != Place(m, Plus(a, k))
  {
    hide Place, Plus;
    k := n - 1;
    while k > i && Place(m, Plus(a, k)) != Place(m, Plus(a, i))
      invariant i <= k < n
      invariant forall j :: k < j < n ==> Place(m, Plus(a, j)) != Place(m, Plus(a, i))
    {
      k := k - 1;
    }
  }

  /** A read that shares no host byte with a write returns what it returned before. */
  lemma ReadElsewhere(h: Host, m: map<Addr, int>, a: Addr, bytes: seq<int>, r: map<Addr, int>, b: Addr, n: nat)
    requires forall i, j :: 0 <= i < |bytes| && 0 <= j < n ==> Place(m, Plus(a, i)) != Place(r, Plus(b, j))
    ensures ReadBytes(WriteBytes(h, m, a, bytes), r, b, n) == ReadBytes(h, r, b, n)
  {
    hide Place, Plus, WriteBytes, Byte;
    forall j: nat | j < n
      ensures Byte(WriteBytes(h, m, a, bytes), Place(r, Plus(b, j))) == Byte(h, Place(r, Plus(b, j)))
    {
      WriteMisses(h, m, a, bytes, Place(r, Plus(b, j)));
    }
  }

  lemma PlusPlus(a: Addr, i: nat, j: nat)
    ensures Plus(Plus(a, i), j) == Plus(a, i + j)
  {
  }

  /** Within a page the bytes are consecutive in host memory. */
  lemma SamePage(a: Addr, i: nat)
    requires Offset(a) + i < PAGE_SIZE
    ensures Plus(a, i) == a + i && PageOf(Plus(a, i)) == PageOf(a) && Offset(Plus(a, i)) == Offset(a) + i
  {
  }

  /** The page after the one `a` is on. */
  function NextPage(a: Addr): Addr {
    (PageOf(a) + 4096) % 0x1_0000_0000
  }

  lemma NextPageStart(a: Addr)
    ensures NextPage(a) == Plus(a, PAGE_SIZE - Offset(a)) && PageOf(NextPage(a)) == NextPage(a) &&
        Offset(NextPage(a)) == 0
    ensures NextPage(a) != PageOf(a)
  {
  }

  lemma FetchIsReadBytes(h: Host, m: map<Addr, int>, a: Addr, n: nat)
    requires PageOf(a) in m && Offset(a) + n <= PAGE_SIZE
    ensures Fetch(h, m[PageOf(a)] + Offset(a), n) == ReadBytes(h, m, a, n)
    ensures AllMapped(m, a, n)
  {
    hide Plus, PageOf, Offset, Byte;
    forall i | 0 <= i < n ensures Place(m, Plus(a, i)) == m[PageOf(a)] + Offset(a) + i && PageOf(Plus(a, i)) in m {
      SamePage(a, i);
    }
  }

  lemma {:induction false} BlitIsWriteBytes(h: Host, m: map<Addr, int>, a: Addr, bytes: seq<int>)
    requires PageOf(a) in m && Offset(a) + |bytes| <= PAGE_SIZE
    ensures Blit(h, m[PageOf(a)] + Offset(a), bytes) == WriteBytes(h, m, a, bytes)
    decreases bytes
  {
    if |bytes| == 1 {
      assert bytes[1..] == [];
    } else if bytes != [] {
      SamePage(a, 1);
      BlitIsWriteBytes(h[Place(m, a) := bytes[0]], m, Plus(a, 1), bytes[1..]);
    }
  }

  lemma ReadBytesSplit(h: Host, m: map<Addr, int>, a: Addr, n: nat, k: nat)
    requires k <= n
    ensures ReadBytes(h, m, a, n) == ReadBytes(h, m, a, k) + ReadBytes(h, m, Plus(a, k), n - k)
    ensures AllMapped(m, a, k) && AllMapped(m, Plus(a, k), n - k) ==> AllMapped(m, a, n)
  {
    hide Plus, PageOf, Place, Byte;
    forall i | k <= i < n ensures Plus(Plus(a, k), i - k) == Plus(a, i) {
      PlusPlus(a, k, i - k);
    }
    if AllMapped(m, a, k) && AllMapped(m, Plus(a, k), n - k) {
      forall i | 0 <= i < n ensures PageOf(Plus(a, i)) in m {
        if i >= k {
          PlusPlus(a, k, i - k);
          assert PageOf(Plus(Plus(a, k), i - k)) in m;
        }
      }
    }
  }

  lemma {:induction false} WriteBytesSplit(h: Host, m: map<Addr, int>, a: Addr, b1: seq<int>, b2: seq<int>)
    ensures WriteBytes(h, m, a, b1 + b2) == WriteBytes(WriteBytes(h, m, a, b1), m, Plus(a, |b1|), b2)
    decreases b1
  {
    if b1 == [] {
      assert b1 + b2 == b2 && Plus(a, 0) == a;
    } else {
      assert (b1 + b2)[1..] == b1[1..] + b2;
      PlusPlus(a, 1, |b1| - 1);
      WriteBytesSplit(h[Place(m, a) := b1[0]], m, Plus(a, 1), b1[1..], b2);
    }
  }

  // ----- the cached entries -----

  datatype Entry = Entry(page: Addr, pageIfWritable: Addr, dataMinusAddr: int)

  const EMPTY := Entry(TLB_PAGE_EMPTY, TLB_PAGE_EMPTY, 0)

  /** A tagged entry gives the pointer the page table gives; it is a write hit only for a writable page. */
  ghost predicate EntryOk(e: Entry, t: PageTable) {
    && (e.page != TLB_PAGE_EMPTY ==> e.page in t.read && t.read[e.page] == e.dataMinusAddr + e.page)
    && (e.pageIfWritable != TLB_PAGE_EMPTY ==> e.pageIfWritable == e.page && e.page in t.write)
  }

  ghost predicate Coherent(entries: seq<Entry>, t: PageTable) {
    forall i :: 0 <= i < |entries| ==> EntryOk(entries[i], t)
  }

  lemma PageIsNotEmptyTag(a: Addr)
    ensures PageOf(a) != TLB_PAGE_EMPTY
  {
  }

  // ----- every run of refreshes, misses and changes of the page table -----

  /** The cache and the mmu it serves; memChanges has 32 bits, changes has 64. */
  datatype World = World(memChanges: nat, changes: nat, entries: seq<Entry>, table: PageTable)

  datatype Event = Refreshed | Missed(addr: Addr, write: bool, next: PageTable) | Remapped(next: PageTable)

  function AllEmpty(): seq<Entry> {
    seq(TLB_SIZE, _ => EMPTY)
  }

  function Flushed(w: World): World {
    w.(memChanges := w.changes % 0x1_0000_0000, entries := AllEmpty())
  }

  function Install(entries: seq<Entry>, addr: Addr, write: bool, ptr: int): seq<Entry>
    requires |entries| == TLB_SIZE
  {
    entries[Index(addr) := Entry(PageOf(addr), if write then PageOf(addr) else TLB_PAGE_EMPTY, ptr - PageOf(addr))]
  }

  function Step(w: World, e: Event): World
    requires |w.entries| == TLB_SIZE
  {
    match e
    case Refreshed => if w.memChanges == w.changes then w else Flushed(w)
    case Missed(addr, write, next) =>
      var t := w.(table := next, changes := if next == w.table then w.changes else w.changes + 1);
      var u := if t.changes != t.memChanges then Flushed(t) else t;
      match Lookup(if write then next.write else next.read, PageOf(addr)) {
        case Fault => u
        case Mapped(ptr) => u.(entries := Install(u.entries, addr, write, ptr))
      }
    case Remapped(next) => w.(table := next, changes := w.changes + 1)
  }

  ghost predicate Possible(w: World, e: Event) {
    match e
    case Refreshed => true
    case Missed(addr, _, next) => OnlyPage(w.table, next, PageOf(addr))
    case Remapped(next) => Consistent(next)
  }

  /** Whenever the counts agree, every tagged entry gives exactly the page table's pointer. */
  ghost predicate Inv(w: World) {
    && |w.entries| == TLB_SIZE && Consistent(w.table) && w.memChanges <= w.changes
    && (w.memChanges == w.changes ==> Coherent(w.entries, w.table))
  }

  lemma StepKeepsInv(w: World, e: Event)
    requires Inv(w) && Possible(w, e)
    ensures Inv(Step(w, e))
    ensures !e.Remapped? ==> Coherent(Step(w, e).entries, Step(w, e).table)
  {
    if e.Missed? {
      PageIsNotEmptyTag(e.addr);
    }
  }

  /** A miss that is translated fills its entry, for writing only after a write, so the next access is a hit. */
  lemma MissFills(w: World, addr: Addr, write: bool, next: PageTable)
    requires Inv(w) && Possible(w, Missed(addr, write, next))
    requires PageOf(addr) in (if write then next.write else next.read)
    ensures var e := Step(w, Missed(addr, write, next)).entries[Index(addr)];
      && e.page == PageOf(addr) && (e.pageIfWritable == PageOf(addr) <==> write)
      && e.dataMinusAddr + addr == Place(if write then next.write else next.read, addr)
  {
    hide Index;
    PageIsNotEmptyTag(addr);
  }

  ghost predicate IsRun(w: World, events: seq<Event>)
    requires Inv(w)
    decreases events
  {
    events == [] || (Possible(w, events[0]) && (StepKeepsInv(w, events[0]); IsRun(Step(w, events[0]), events[1..])))
  }

  ghost function After(w: World, events: seq<Event>): World
    requires Inv(w) && IsRun(w, events)
    decreases events
  {
    if events == [] then w else StepKeepsInv(w, events[0]); After(Step(w, events[0]), events[1..])
  }

  /** The invariant over runs, through the wrap-around of the 32-bit count; a refresh ends any staleness. */
  lemma {:induction false} RunStaysCoherent(w: World, events: seq<Event>)
    requires Inv(w) && IsRun(w, events)
    ensures Inv(After(w, events))
    ensures var last := After(w, events); Coherent(Step(last, Refreshed).entries, last.table)
    decreases events
  {
    if events == [] {
      StepKeepsInv(w, Refreshed);
    } else {
      StepKeepsInv(w, events[0]);
      RunStaysCoherent(Step(w, events[0]), events[1..]);
    }
  }

  // ----- the memory management unit behind the cache -----

  class Mmu {
    var changes: nat
    var table: PageTable
    var host: Host
    /** How a translation changes the table, for instance by a copy on write. */
    const effect: (PageTable, Addr, bool) -> PageTable

    ghost predicate Valid()
      reads this
    {
      && Consistent(table)
      && forall t, p, w :: Consistent(t) ==> OnlyPage(t, effect(t, p, w), p)
    }

    constructor (table: PageTable, host: Host, effect: (PageTable, Addr, bool) -> PageTable)
      requires Consistent(table) && forall t, p, w :: Consistent(t) ==> OnlyPage(t, effect(t, p, w), p)
      ensures Valid() && this.table == table && this.host == host && changes == 0
    {
      this.table, this.host, this.effect, changes := table, host, effect, 0;
    }

    /** mmu_translate: any change of the table bumps `changes`. */
    method Translate(page: Addr, write: bool) returns (r: Translation)
      requires Valid()
      modifies this`table, this`changes
      ensures Valid() && OnlyPage(old(table), table, page)
      ensures r == Lookup(if write then table.write else table.read, page)
      ensures if table == old(table) then changes == old(changes) else changes == old(changes) + 1
    {
      var next := effect(table, page, write);
      assert OnlyPage(table, next, page);
      if next != table {
        table := next;
        changes := changes + 1;
      }
      r := Lookup(if write then table.write else table.read, page);
    }

    /** Mappings changed by somebody else: mmap, munmap, mprotect, fork. */
    method Remap(next: PageTable, memory: Host)
      requires Valid() && Consistent(next)
      modifies this`table, this`changes, this`host
      ensures Valid() && table == next && host == memory && changes == old(changes) + 1
    {
      table, host, changes := next, memory, changes + 1;
    }
  }

  // ----- the cache -----

  class Cache {
    var mmu: Mmu
    var dirtyPage: Addr
    /** 32 bits wide, while the count it remembers has 64. */
    var memChanges: nat
    var segfaultAddr: Addr
    const entries: array<Entry>

    ghost function Snapshot(): World
      reads this, mmu, entries
    {
      World(memChanges, mmu.changes, entries[..], mmu.table)
    }

    ghost predicate Shape()
      reads this, mmu
    {
      entries.Length == TLB_SIZE && mmu.Valid() && memChanges <= mmu.changes
    }

    /** Entries are right whenever the counts agree. */
    ghost predicate Valid()
      reads this, mmu, entries
    {
      Shape() && Inv(Snapshot())
    }

    /** After a refresh, and until somebody else changes the mappings, entries are right. */
    ghost predicate Fresh()
      reads this, mmu, entries
    {
      Shape() && Coherent(entries[..], mmu.table)
    }

    constructor (mmu: Mmu)
      requires mmu.Valid()
      ensures Fresh() && Valid() && this.mmu == mmu && fresh(entries)
    {
      this.mmu := mmu;
      dirtyPage, segfaultAddr := TLB_PAGE_EMPTY, 0;
      memChanges := mmu.changes % 0x1_0000_0000;
      entries := new Entry[TLB_SIZE](_ => EMPTY);
    }

    /** tlb_flush. */
    method Flush()
      requires entries.Length == TLB_SIZE && mmu.Valid()
      modifies this`memChanges, entries
      ensures Fresh() && memChanges == mmu.changes % 0x1_0000_0000 && entries[..] == AllEmpty()
    {
      memChanges := mmu.changes % 0x1_0000_0000;
      var i := 0;
      while i < TLB_SIZE
        invariant 0 <= i <= TLB_SIZE
        invariant memChanges == mmu.changes % 0x1_0000_0000
        invariant forall j :: 0 <= j < i ==> entries[j] == EMPTY
      {
        entries[i] := EMPTY;
        i := i + 1;
      }
    }

    /** tlb_refresh. */
    method Refresh(m: Mmu)
      requires Valid() && m.Valid()
      modifies this, entries
      ensures mmu == m && Fresh() && Valid()
      ensures old(mmu) == m ==> Snapshot() == Step(old(Snapshot()), Refreshed)
    {
      if mmu == m && memChanges == m.changes {
        return;
      }
      mmu := m;
      dirtyPage := TLB_PAGE_EMPTY;
      memChanges := m.changes % 0x1_0000_0000;
      Flush();
    }

    /** tlb_handle_miss. */
    method HandleMiss(addr: Addr, write: bool) returns (r: Translation)
      requires Valid()
      modifies this`dirtyPage, this`memChanges, this`segfaultAddr, entries, mmu`table, mmu`changes
      ensures Fresh() && OnlyPage(old(mmu.table), mmu.table, PageOf(addr))
      ensures PageOf(addr) in (if write then mmu.table.write else mmu.table.read) ==>
          r == Mapped(Place(mmu.table.read, addr)) && segfaultAddr == old(segfaultAddr)
      ensures PageOf(addr) !in (if write then mmu.table.write else mmu.table.read) ==>
          r == Fault && segfaultAddr == addr
      ensures r != Fault ==> dirtyPage == PageOf(addr)
      ensures Snapshot() == Step(old(Snapshot()), Missed(addr, write, mmu.table))
    {
      var ptr := mmu.Translate(PageOf(addr), write);
      if mmu.changes != memChanges {
        Flush();
      }
      if ptr == Fault {
        segfaultAddr := addr;
        return Fault;
      }
      dirtyPage := PageOf(addr);
      var page := PageOf(addr);
      var e := Entry(page, if write then page else TLB_PAGE_EMPTY, ptr.ptr - page);
      PageIsNotEmptyTag(addr);
      assert EntryOk(e, mmu.table);
      entries[Index(addr)] := e;
      r := Mapped(e.dataMinusAddr + addr);
    }

    /** __tlb_read_ptr: on a hit the page table is not asked. */
    method ReadPtr(addr: Addr) returns (r: Translation)
      requires Fresh()
      modifies this`dirtyPage, this`memChanges, this`segfaultAddr, entries, mmu`table, mmu`changes
      ensures Fresh() && OnlyPage(old(mmu.table), mmu.table, PageOf(addr))
      ensures PageOf(addr) in mmu.table.read ==>
          r == Mapped(Place(mmu.table.read, addr)) && segfaultAddr == old(segfaultAddr)
      ensures PageOf(addr) !in mmu.table.read ==> r == Fault && segfaultAddr == addr
    {
      var entry := entries[Index(addr)];
      if entry.page == PageOf(addr) {
        PageIsNotEmptyTag(addr);
        assert EntryOk(entries[..][Index(addr)], mmu.table);
        return Mapped(entry.dataMinusAddr + addr);
      }
      r := HandleMiss(addr, false);
    }

    /** __tlb_write_ptr. */
    method WritePtr(addr: Addr) returns (r: Translation)
      requires Fresh()
      modifies this`dirtyPage, this`memChanges, this`segfaultAddr, entries, mmu`table, mmu`changes
      ensures Fresh() && OnlyPage(old(mmu.table), mmu.table, PageOf(addr))
      ensures PageOf(addr) in mmu.table.write ==>
          r == Mapped(Place(mmu.table.write, addr)) && dirtyPage == PageOf(addr) && segfaultAddr == old(segfaultAddr)
      ensures PageOf(addr) !in mmu.table.write ==> r == Fault && segfaultAddr == addr
    {
      var entry := entries[Index(addr)];
      if entry.pageIfWritable == PageOf(addr) {
        PageIsNotEmptyTag(addr);
        assert EntryOk(entries[..][Index(addr)], mmu.table);
        dirtyPage := PageOf(addr);
        return Mapped(entry.dataMinusAddr + addr);
      }
      r := HandleMiss(addr, true);
    }

    /** __tlb_read_cross_page. */
    method ReadCrossPage(addr: Addr, size: nat) returns (ok: bool, out: seq<int>)
      requires Fresh() && size <= PAGE_SIZE && Offset(addr) + size > PAGE_SIZE
      modifies this`dirtyPage, this`memChanges, this`segfaultAddr, entries, mmu`table, mmu`changes
      ensures Fresh()
      ensures forall p: Addr :: p != PageOf(addr) && p != NextPage(addr) ==>
                Lookup(mmu.table.read, p) == Lookup(old(mmu.table).read, p)
      ensures ok ==> AllMapped(mmu.table.read, addr, size) && out == ReadBytes(mmu.host, mmu.table.read, addr, size)
      ensures !ok ==>
          PageOf(segfaultAddr) !in mmu.table.read && (segfaultAddr == addr || segfaultAddr == NextPage(addr))
    {
      hide Index, PageOf, Offset, Plus;
      NextPageStart(addr);
      var ptr1 := ReadPtr(addr);
      if ptr1 == Fault {
        return false, [];
      }
      label second:
      var ptr2 := ReadPtr(NextPage(addr));
      if ptr2 == Fault {
        return false, [];
      }
      assert Lookup(mmu.table.read, PageOf(addr)) == old@second(Lookup(mmu.table.read, PageOf(addr)));
      var part1 := PAGE_SIZE - Offset(addr);
      assert part1 < size;
      FetchIsReadBytes(mmu.host, mmu.table.read, addr, part1);
      FetchIsReadBytes(mmu.host, mmu.table.read, NextPage(addr), size - part1);
      ReadBytesSplit(mmu.host, mmu.table.read, addr, size, part1);
      return true, Fetch(mmu.host, ptr1.ptr, part1) + Fetch(mmu.host, ptr2.ptr, size - part1);
    }

    /** tlb_read: the bytes that translating every single address would give. */
    method Read(addr: Addr, size: nat) returns (ok: bool, out: seq<int>)
      requires Fresh() && size <= PAGE_SIZE
      modifies this`dirtyPage, this`memChanges, this`segfaultAddr, entries, mmu`table, mmu`changes
      ensures Fresh()
      ensures forall p: Addr :: p != PageOf(addr) && p != NextPage(addr) ==>
                Lookup(mmu.table.read, p) == Lookup(old(mmu.table).read, p)
      ensures ok ==> AllMapped(mmu.table.read, addr, size) && out == ReadBytes(mmu.host, mmu.table.read, addr, size)
      ensures !ok ==>
          PageOf(segfaultAddr) !in mmu.table.read && (segfaultAddr == addr || segfaultAddr == NextPage(addr))
      ensures !ok && segfaultAddr == NextPage(addr) ==> Offset(addr) + size > PAGE_SIZE
    {
      hide Index, PageOf, Offset, Plus;
      NextPageStart(addr);
      if Offset(addr) > PAGE_SIZE - size {
        ok, out := ReadCrossPage(addr, size);
        return;
      }
      var ptr := ReadPtr(addr);
      if ptr == Fault {
        return false, [];
      }
      FetchIsReadBytes(mmu.host, mmu.table.read, addr, size);
      return true, Fetch(mmu.host, ptr.ptr, size);
    }

    /** __tlb_write_cross_page: both pages are translated before the first byte is stored. */
    method WriteCrossPage(addr: Addr, value: seq<int>) returns (ok: bool)
      requires Fresh() && |value| <= PAGE_SIZE && Offset(addr) + |value| > PAGE_SIZE
      modifies this`dirtyPage, this`memChanges, this`segfaultAddr, entries, mmu`table, mmu`changes, mmu`host
      ensures Fresh()
      ensures forall p: Addr :: p != PageOf(addr) && p != NextPage(addr) ==>
                Lookup(mmu.table.write, p) == Lookup(old(mmu.table).write, p)
      ensures ok ==> AllMapped(mmu.table.write, addr, |value|) && mmu.host == WriteBytes(old(mmu.host),
          mmu.table.write, addr, value)
      ensures !ok ==> mmu.host == old(mmu.host)
      ensures !ok ==>
          PageOf(segfaultAddr) !in mmu.table.write && (segfaultAddr == addr || segfaultAddr == NextPage(addr))
    {
      hide Index, PageOf, Offset, Plus;
      NextPageStart(addr);
      var ptr1 := WritePtr(addr);
      if ptr1 == Fault {
        return false;
      }
      label second:
      var ptr2 := WritePtr(NextPage(addr));
      if ptr2 == Fault {
        return false;
      }
      assert Lookup(mmu.table.write, PageOf(addr)) == old@second(Lookup(mmu.table.write, PageOf(addr)));
      var part1 := PAGE_SIZE - Offset(addr);
      assert part1 < |value|;
      ghost var m, h := mmu.table.write, mmu.host;
      BlitIsWriteBytes(h, m, addr, value[..part1]);
      FetchIsReadBytes(h, m, addr, part1);
      BlitIsWriteBytes(Blit(h, ptr1.ptr, value[..part1]), m, NextPage(addr), value[part1..]);
      FetchIsReadBytes(h, m, NextPage(addr), |value| - part1);
      ReadBytesSplit(h, m, addr, |value|, part1);
      WriteBytesSplit(h, m, addr, value[..part1], value[part1..]);
      assert value[..part1] + value[part1..] == value;
      mmu.host := Blit(mmu.host, ptr1.ptr, value[..part1]);
      mmu.host := Blit(mmu.host, ptr2.ptr, value[part1..]);
      ok := true;
    }

    /** tlb_write: all bytes land where translating every single address would put them, or none does. */
    method Write(addr: Addr, value: seq<int>) returns (ok: bool)
      requires Fresh() && |value| <= PAGE_SIZE
      modifies this`dirtyPage, this`memChanges, this`segfaultAddr, entries, mmu`table, mmu`changes, mmu`host
      ensures Fresh()
      ensures forall p: Addr :: p != PageOf(addr) && p != NextPage(addr) ==>
                Lookup(mmu.table.write, p) == Lookup(old(mmu.table).write, p)
      ensures ok ==> AllMapped(mmu.table.write, addr, |value|) && mmu.host == WriteBytes(old(mmu.host),
          mmu.table.write, addr, value)
      ensures !ok ==> mmu.host == old(mmu.host)
      ensures !ok ==>
          PageOf(segfaultAddr) !in mmu.table.write && (segfaultAddr == addr || segfaultAddr == NextPage(addr))
    {
      hide Index, PageOf, Offset, Plus;
      if Offset(addr) > PAGE_SIZE - |value| {
        ok := WriteCrossPage(addr, value);
        return;
      }
      var ptr := WritePtr(addr);
      if ptr == Fault {
        return false;
      }
      BlitIsWriteBytes(mmu.host, mmu.table.write, addr, value);
      FetchIsReadBytes(mmu.host, mmu.table.write, addr, |value|);
      mmu.host := Blit(mmu.host, ptr.ptr, value);
      ok := true;
    }
  }
}
