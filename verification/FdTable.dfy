/** Open files shared by descriptor tables: reference counts, slots and close-on-exec bits (fs/fd.c). */
module FdTable {

  const EBADF := -9
  const EMFILE := -24

  /** A place in a table. Open files are named by number, in the order they were created. */
  datatype Slot = Empty | Holds(fd: nat)

  /** `users` is the table's own reference count; a table without users is gone and has no slots. */
  datatype Table = Table(users: nat, slots: seq<Slot>, cloexec: seq<bool>)

  /**
   `refs` are the counts of the files that exist; `outside` the references held outside the
   tables; `closed` the close operations that were run.
   */
  datatype World = World(refs: map<nat, int>, tables: seq<Table>, outside: multiset<nat>, closed: multiset<nat>,
      next: nat)

  // ----- counting -----

  function Count(slots: seq<Slot>, fd: nat): nat {
    if slots == [] then 0 else (if slots[0] == Holds(fd) then 1 else 0) + Count(slots[1..], fd)
  }

  function Total(tables: seq<Table>, fd: nat): nat {
    if tables == [] then 0 else Count(tables[0].slots, fd) + Total(tables[1..], fd)
  }

  lemma {:induction false} CountUpdate(slots: seq<Slot>, f: nat, s: Slot, fd: nat)
    requires f < |slots|
    ensures Count(slots[f := s], fd) == Count(slots, fd)
      - (if slots[f] == Holds(fd) then 1 else 0) + (if s == Holds(fd) then 1 else 0)
  {
    if f == 0 {
      assert slots[f := s][1..] == slots[1..];
    } else {
      assert slots[f := s][1..] == slots[1..][f - 1 := s];
      CountUpdate(slots[1..], f - 1, s, fd);
    }
  }

  lemma {:induction false} CountAppend(a: seq<Slot>, b: seq<Slot>, fd: nat)
    ensures Count(a + b, fd) == Count(a, fd) + Count(b, fd)
  {
    if a == [] {
      assert a + b == b;
    } else {
      assert (a + b)[1..] == a[1..] + b;
      CountAppend(a[1..], b, fd);
    }
  }

  lemma {:induction false} TotalUpdate(tables: seq<Table>, t: nat, table: Table, fd: nat)
    requires t < |tables|
    ensures Total(tables[t := table], fd) == Total(tables, fd) - Count(tables[t].slots, fd) + Count(table.slots, fd)
  {
    if t == 0 {
      assert tables[t := table][1..] == tables[1..];
    } else {
      assert tables[t := table][1..] == tables[1..][t - 1 := table];
      TotalUpdate(tables[1..], t - 1, table, fd);
    }
  }

  lemma {:induction false} TotalAppend(tables: seq<Table>, table: Table, fd: nat)
    ensures Total(tables + [table], fd) == Total(tables, fd) + Count(table.slots, fd)
  {
    if tables == [] {
      assert tables + [table] == [table] && [table][1..] == [];
    } else {
      assert (tables + [table])[1..] == tables[1..] + [table];
      TotalAppend(tables[1..], table, fd);
    }
  }

  // ----- the invariant -----

  /** All references to a file there are. */
  function Uses(w: World, fd: nat): nat {
    Total(w.tables, fd) + w.outside[fd]
  }

  /** A file exists exactly while it is referred to, counts its references, and is closed once when the last goes. */
  ghost predicate RefOk(w: World, fd: nat) {
    if fd in w.refs then fd < w.next && w.refs[fd] == Uses(w, fd) > 0 && w.closed[fd] == 0
    else Uses(w, fd) == 0 && w.closed[fd] == if fd < w.next then 1 else 0
  }

  /** A close-on-exec bit is set only on an occupied slot. */
  ghost predicate TableOk(table: Table) {
    && |table.cloexec| == |table.slots|
    && (forall f :: 0 <= f < |table.slots| && table.cloexec[f] ==> table.slots[f].Holds?)
    && (table.users == 0 ==> table.slots == [])
  }

  ghost predicate Inv(w: World) {
    (forall fd: nat :: RefOk(w, fd)) && forall t :: 0 <= t < |w.tables| ==> TableOk(w.tables[t])
  }

  predicate Live(w: World, t: nat) {
    t < |w.tables| && w.tables[t].users > 0
  }

  // ----- references -----

  /** fd_create: a new file, with the one reference of its creator. */
  function Create(w: World): World {
    w.(refs := w.refs[w.next := 1], outside := w.outside + multiset{w.next}, next := w.next + 1)
  }

  /** fd_retain. */
  function Retain(w: World, fd: nat): World
    requires fd in w.refs
  {
    w.(refs := w.refs[fd := w.refs[fd] + 1], outside := w.outside + multiset{fd})
  }

  /** The count after one reference is gone, and the close operation at zero: fd_close. */
  function Unref(refs: map<nat, int>, fd: nat): map<nat, int>
    requires fd in refs
  {
    if refs[fd] == 1 then refs - {fd} else refs[fd := refs[fd] - 1]
  }

  function Closes(refs: map<nat, int>, fd: nat): multiset<nat>
    requires fd in refs
  {
    if refs[fd] == 1 then multiset{fd} else multiset{}
  }

  function Drop(w: World, fd: nat): World
    requires fd in w.refs
  {
    w.(refs := Unref(w.refs, fd), closed := w.closed + Closes(w.refs, fd), outside := w.outside - multiset{fd})
  }

  // ----- slots -----

  function Lookup(w: World, t: nat, f: int): Slot
    requires t < |w.tables|
  {
    if 0 <= f < |w.tables[t].slots| then w.tables[t].slots[f] else Empty
  }

  function Put(w: World, t: nat, f: nat, s: Slot, bit: bool): World
    requires t < |w.tables| && f < |w.tables[t].slots| && f < |w.tables[t].cloexec|
  {
    var table := w.tables[t];
    w.(tables := w.tables[t := table.(slots := table.slots[f := s], cloexec := table.cloexec[f := bit])])
  }

  /** An outside reference moves into an empty slot. */
  function Give(w: World, t: nat, f: nat, fd: nat, bit: bool): World
    requires t < |w.tables| && f < |w.tables[t].slots| && f < |w.tables[t].cloexec|
  {
    Put(w, t, f, Holds(fd), bit).(outside := w.outside - multiset{fd})
  }

  /** The reference of a slot becomes an outside one. */
  function Take(w: World, t: nat, f: nat): World
    requires t < |w.tables| && f < |w.tables[t].slots| && f < |w.tables[t].cloexec| && w.tables[t].slots[f].Holds?
  {
    Put(w, t, f, Empty, false).(outside := w.outside + multiset{w.tables[t].slots[f].fd})
  }

  lemma SlotLive(w: World, t: nat, f: nat)
    requires t < |w.tables| && f < |w.tables[t].slots| && w.tables[t].slots[f].Holds?
    requires forall fd: nat :: RefOk(w, fd)
    ensures w.tables[t].slots[f].fd in w.refs
  {
    var fd := w.tables[t].slots[f].fd;
    CountUpdate(w.tables[t].slots, f, Empty, fd);
    TotalUpdate(w.tables, t, Table(0, [], []), fd);
    assert RefOk(w, fd);
  }

  // ----- each move keeps the invariant -----

  lemma CreateKeeps(w: World)
    requires Inv(w)
    ensures Inv(Create(w))
  {
    forall fd: nat ensures RefOk(Create(w), fd) { assert RefOk(w, fd); }
  }

  lemma RetainKeeps(w: World, fd: nat)
    requires Inv(w) && fd in w.refs
    ensures Inv(Retain(w, fd))
  {
    forall x: nat ensures RefOk(Retain(w, fd), x) { assert RefOk(w, x); }
  }

  lemma DropKeeps(w: World, fd: nat)
    requires Inv(w) && fd in w.refs && fd in w.outside
    ensures Inv(Drop(w, fd))
  {
    forall x: nat ensures RefOk(Drop(w, fd), x) { assert RefOk(w, x); }
  }

  lemma PutUses(w: World, t: nat, f: nat, s: Slot, bit: bool, fd: nat)
    requires t < |w.tables| && f < |w.tables[t].slots| && f < |w.tables[t].cloexec|
    ensures Uses(Put(w, t, f, s, bit), fd) == Uses(w, fd)
      - (if w.tables[t].slots[f] == Holds(fd) then 1 else 0) + (if s == Holds(fd) then 1 else 0)
  {
    var table := w.tables[t];
    var filled := table.(slots := table.slots[f := s], cloexec := table.cloexec[f := bit]);
    CountUpdate(table.slots, f, s, fd);
    TotalUpdate(w.tables, t, filled, fd);
  }

  lemma GiveKeeps(w: World, t: nat, f: nat, fd: nat, bit: bool)
    requires Inv(w) && Live(w, t) && f < |w.tables[t].slots|
    requires w.tables[t].slots[f].Empty? && fd in w.outside
    ensures Inv(Give(w, t, f, fd, bit))
  {
    assert TableOk(w.tables[t]);
    forall x: nat ensures RefOk(Give(w, t, f, fd, bit), x) {
      assert RefOk(w, x);
      PutUses(w, t, f, Holds(fd), bit, x);
    }
  }

  lemma TakeKeeps(w: World, t: nat, f: nat)
    requires Inv(w) && t < |w.tables| && f < |w.tables[t].slots| && w.tables[t].slots[f].Holds?
    ensures TableOk(w.tables[t]) && Inv(Take(w, t, f))
  {
    assert TableOk(w.tables[t]);
    forall x: nat ensures RefOk(Take(w, t, f), x) {
      assert RefOk(w, x);
      PutUses(w, t, f, Empty, false, x);
    }
  }

  /** fdtable_close. */
  function Close(w: World, t: nat, f: int): (r: World)
    requires Inv(w) && t < |w.tables|
    ensures Inv(r)
    ensures r.outside == w.outside && r.next == w.next && |r.tables| == |w.tables|
    ensures forall u :: 0 <= u < |w.tables| && u != t ==> r.tables[u] == w.tables[u]
    ensures Lookup(w, t, f).Empty? ==> r == w
    ensures Lookup(w, t, f).Holds? ==> r.tables[t] == Cleared(w.tables[t], f)
  {
    if Lookup(w, t, f).Empty? then w
    else
      SlotLive(w, t, f);
      TakeKeeps(w, t, f);
      var fd := Lookup(w, t, f).fd;
      DropKeeps(Take(w, t, f), fd);
      assert w.outside + multiset{fd} - multiset{fd} == w.outside;
      Drop(Take(w, t, f), fd)
  }

  function Cleared(table: Table, f: nat): Table
    requires f < |table.slots| && f < |table.cloexec|
  {
    table.(slots := table.slots[f := Empty], cloexec := table.cloexec[f := false])
  }

  // ----- allocation -----

  /** The number a new descriptor gets: the least free one from `start` on. */
  function LeastFree(slots: seq<Slot>, start: nat): (f: nat)
    ensures f >= start && (f >= |slots| || slots[f].Empty?)
    ensures forall g :: start <= g < f ==> g < |slots| && slots[g].Holds?
    ensures f > start ==> f <= |slots|
    decreases |slots| - start
  {
    if start >= |slots| || slots[start].Empty? then start else LeastFree(slots, start + 1)
  }

  function Grown(table: Table, size: nat): Table {
    if size <= |table.slots| then table
    else table.(slots := table.slots + Nones(size - |table.slots|),
                cloexec := table.cloexec + seq(size - |table.slots|, i => false))
  }

  function Nones(n: nat): (s: seq<Slot>)
    ensures |s| == n && forall i :: 0 <= i < n ==> s[i] == Empty
  {
    seq(n, i => Empty)
  }

  lemma {:induction false} NoneCounted(s: seq<Slot>, fd: nat)
    requires forall i :: 0 <= i < |s| ==> s[i] == Empty
    ensures Count(s, fd) == 0
  {
    if s != [] { NoneCounted(s[1..], fd); }
  }

  /** fdtable_resize. */
  function Grow(w: World, t: nat, size: nat): World
    requires t < |w.tables|
  {
    w.(tables := w.tables[t := Grown(w.tables[t], size)])
  }

  lemma GrowKeeps(w: World, t: nat, size: nat)
    requires Inv(w) && Live(w, t)
    ensures Inv(Grow(w, t, size)) && Live(Grow(w, t, size), t)
    ensures |Grow(w, t, size).tables[t].slots| >= size
    ensures forall f :: Lookup(Grow(w, t, size), t, f) == Lookup(w, t, f)
  {
    var table := w.tables[t];
    assert TableOk(table);
    if size > |table.slots| {
      forall fd: nat ensures RefOk(Grow(w, t, size), fd) {
        assert RefOk(w, fd);
        TotalUpdate(w.tables, t, Grown(table, size), fd);
        var more := Nones(size - |table.slots|);
        NoneCounted(more, fd);
        CountAppend(table.slots, more, fd);
      }
    } else {
      assert Grow(w, t, size).tables == w.tables;
    }
  }

  /** f_install_start: the slot takes over the caller's reference; without a number, that reference is dropped. */
  function Install(w: World, t: nat, fd: nat, start: nat, bit: bool, limit: nat): (r: World)
    requires Inv(w) && Live(w, t) && fd in w.outside
    ensures Inv(r)
  {
    assert RefOk(w, fd);
    var f := LeastFree(w.tables[t].slots, start);
    if f >= limit then
      DropKeeps(w, fd);
      Drop(w, fd)
    else
      GrowKeeps(w, t, f + 1);
      var g := Grow(w, t, f + 1);
      assert Lookup(g, t, f) == Lookup(w, t, f);
      GiveKeeps(g, t, f, fd, bit);
      assert TableOk(g.tables[t]);
      Give(g, t, f, fd, bit)
  }

  /** sys_dup and its like. */
  function Dup(w: World, t: nat, f: int, start: nat, bit: bool, limit: nat): (r: World)
    requires Inv(w) && Live(w, t)
    ensures Inv(r)
  {
    if Lookup(w, t, f).Empty? then w
    else
      SlotLive(w, t, f);
      var fd := Lookup(w, t, f).fd;
      RetainKeeps(w, fd);
      Install(Retain(w, fd), t, fd, start, bit, limit)
  }

  /** sys_dup3. */
  function Dup3(w: World, t: nat, f: int, g: nat, bit: bool, limit: nat): (r: World)
    requires Inv(w) && Live(w, t)
    ensures Inv(r)
  {
    if Lookup(w, t, f).Empty? || g + 1 > limit then w
    else
      SlotLive(w, t, f);
      var fd := Lookup(w, t, f).fd;
      GrowKeeps(w, t, g + 1);
      var w1 := Grow(w, t, g + 1);
      RetainKeeps(w1, fd);
      var w2 := Retain(w1, fd);
      var w3 := Close(w2, t, g);
      assert TableOk(w2.tables[t]) && TableOk(w3.tables[t]);
      GiveKeeps(w3, t, g, fd, bit);
      Give(w3, t, g, fd, bit)
  }

  // ----- whole tables -----

  /** fdtable_do_cloexec from `f` on: close what is marked. */
  function CloseMarked(w: World, t: nat, f: nat): (r: World)
    requires Inv(w) && t < |w.tables|
    ensures Inv(r) && |r.tables| == |w.tables|
    decreases |w.tables[t].slots| - f
  {
    assert TableOk(w.tables[t]);
    if f >= |w.tables[t].slots| then w
    else if w.tables[t].cloexec[f] then CloseMarked(Close(w, t, f), t, f + 1)
    else CloseMarked(w, t, f + 1)
  }

  /** The last fdtable_release, from `f` on: close everything. */
  function CloseAll(w: World, t: nat, f: nat): (r: World)
    requires Inv(w) && t < |w.tables|
    ensures Inv(r) && |r.tables| == |w.tables|
    decreases |w.tables[t].slots| - f
  {
    assert TableOk(w.tables[t]);
    if f >= |w.tables[t].slots| then w else CloseAll(Close(w, t, f), t, f + 1)
  }

  /** What a closing pass from `f` on leaves in a table: every slot it closes is empty and unmarked, the others stay. */
  ghost predicate Swept(a: Table, b: Table, f: nat, marked: bool) {
    && b.users == a.users && |b.slots| == |a.slots| == |a.cloexec| == |b.cloexec|
    && forall g :: 0 <= g < |a.slots| ==>
         var gone := g >= f && (marked ==> a.cloexec[g]);
         b.slots[g] == (if gone then Empty else a.slots[g]) && b.cloexec[g] == (if gone then false else a.cloexec[g])
  }

  /** Only table `t` changes, and no reference held outside. */
  ghost predicate OnlyTable(a: World, b: World, t: nat) {
    && |a.tables| == |b.tables| && a.outside == b.outside && a.next == b.next
    && forall u :: 0 <= u < |a.tables| && u != t ==> b.tables[u] == a.tables[u]
  }

  lemma {:induction false} CloseMarkedResult(w: World, t: nat, f: nat)
    requires Inv(w) && t < |w.tables|
    ensures var r := CloseMarked(w, t, f);
      OnlyTable(w, r, t) && Swept(w.tables[t], r.tables[t], f, true)
    decreases |w.tables[t].slots| - f
  {
    hide Inv, Close;
    assert TableOk(w.tables[t]) by { InvTable(w, t); }
    if f < |w.tables[t].slots| {
      CloseMarkedResult(if w.tables[t].cloexec[f] then Close(w, t, f) else w, t, f + 1);
    }
  }

  lemma {:induction false} CloseAllResult(w: World, t: nat, f: nat)
    requires Inv(w) && t < |w.tables|
    ensures var r := CloseAll(w, t, f);
      OnlyTable(w, r, t) && Swept(w.tables[t], r.tables[t], f, false)
    decreases |w.tables[t].slots| - f
  {
    hide Inv, Close;
    assert TableOk(w.tables[t]) by { InvTable(w, t); }
    if f < |w.tables[t].slots| {
      CloseAllResult(Close(w, t, f), t, f + 1);
    }
  }

  lemma InvTable(w: World, t: nat)
    requires Inv(w) && t < |w.tables|
    ensures TableOk(w.tables[t])
  {
  }

  /** The counts after each slot is counted once more. */
  function Bump(refs: map<nat, int>, slots: seq<Slot>): map<nat, int> {
    if slots == [] then refs
    else Bump(if slots[0].Holds? && slots[0].fd in refs then refs[slots[0].fd := refs[slots[0].fd] + 1] else refs,
        slots[1..])
  }

  lemma {:induction false} BumpCounts(refs: map<nat, int>, slots: seq<Slot>, fd: nat)
    ensures Bump(refs, slots).Keys == refs.Keys
    ensures fd in refs ==> Bump(refs, slots)[fd] == refs[fd] + Count(slots, fd)
    decreases |slots|
  {
    if slots != [] {
      var s := slots[0];
      var more := if s.Holds? && s.fd in refs then refs[s.fd := refs[s.fd] + 1] else refs;
      BumpCounts(more, slots[1..], fd);
    }
  }

  /** fdtable_copy: a new table with the same contents, each file counted once more for each slot. */
  function Copy(w: World, t: nat): (r: World)
    requires Inv(w) && t < |w.tables|
    ensures Inv(r)
  {
    var table := w.tables[t].(users := 1);
    CopyKeeps(w, t);
    w.(refs := Bump(w.refs, table.slots), tables := w.tables + [table])
  }

  lemma CopyKeeps(w: World, t: nat)
    requires Inv(w) && t < |w.tables|
    ensures var table := w.tables[t].(users := 1);
      Inv(w.(refs := Bump(w.refs, table.slots), tables := w.tables + [table]))
  {
    var table := w.tables[t].(users := 1);
    var r := w.(refs := Bump(w.refs, table.slots), tables := w.tables + [table]);
    assert TableOk(w.tables[t]);
    forall fd: nat ensures RefOk(r, fd) {
      assert RefOk(w, fd);
      BumpCounts(w.refs, table.slots, fd);
      TotalAppend(w.tables, table, fd);
      TotalUpdate(w.tables, t, Table(0, [], []), fd);
    }
  }

  /** fdtable_new. */
  function NewTable(w: World, size: nat): (r: World)
    requires Inv(w)
    ensures Inv(r)
  {
    var table := Grown(Table(1, [], []), size);
    NewKeeps(w, size);
    w.(tables := w.tables + [table])
  }

  lemma NewKeeps(w: World, size: nat)
    requires Inv(w)
    ensures Inv(w.(tables := w.tables + [Grown(Table(1, [], []), size)]))
  {
    var table := Grown(Table(1, [], []), size);
    var r := w.(tables := w.tables + [table]);
    forall fd: nat ensures RefOk(r, fd) {
      assert RefOk(w, fd);
      NoneCounted(table.slots, fd);
      TotalAppend(w.tables, table, fd);
    }
  }

  /** Another task shares the table. */
  function Share(w: World, t: nat): (r: World)
    requires Inv(w) && Live(w, t)
    ensures Inv(r)
  {
    var table := w.tables[t].(users := w.tables[t].users + 1);
    UsersKeep(w, t, table);
    w.(tables := w.tables[t := table])
  }

  lemma UsersKeep(w: World, t: nat, table: Table)
    requires Inv(w) && t < |w.tables| && TableOk(table)
    requires forall fd: nat :: Count(table.slots, fd) == Count(w.tables[t].slots, fd)
    ensures Inv(w.(tables := w.tables[t := table]))
  {
    var r := w.(tables := w.tables[t := table]);
    forall fd: nat ensures RefOk(r, fd) {
      assert RefOk(w, fd);
      TotalUpdate(w.tables, t, table, fd);
    }
  }

  lemma ClosedEmpty(w: World, t: nat)
    requires Inv(w) && t < |w.tables|
    ensures forall fd: nat :: Count(CloseAll(w, t, 0).tables[t].slots, fd) == Count([], fd)
  {
    CloseAllResult(w, t, 0);
    forall fd: nat ensures Count(CloseAll(w, t, 0).tables[t].slots, fd) == Count([], fd) {
      NoneCounted(CloseAll(w, t, 0).tables[t].slots, fd);
    }
  }

  /** fdtable_release: the last user closes every slot and frees the table. */
  function Release(w: World, t: nat): (r: World)
    requires Inv(w) && Live(w, t)
    ensures Inv(r)
  {
    var n := w.tables[t].users - 1;
    if n > 0 then
      UsersKeep(w, t, w.tables[t].(users := n));
      w.(tables := w.tables[t := w.tables[t].(users := n)])
    else
      var c := CloseAll(w, t, 0);
      ClosedEmpty(w, t);
      UsersKeep(c, t, Table(0, [], []));
      c.(tables := c.tables[t := Table(0, [], [])])
  }

  // ----- the sections of dup and dup3 that hold no lock -----

  /** The count of a looked-up file goes up, whether or not the file still exists. */
  function RetainLooked(w: World, fd: nat): World {
    if fd in w.refs then Retain(w, fd) else w.(outside := w.outside + multiset{fd})
  }

  lemma RetainLookedKeepsIff(w: World, fd: nat)
    requires Inv(w)
    ensures Inv(RetainLooked(w, fd)) <==> fd in w.refs
  {
    if fd in w.refs {
      RetainKeeps(w, fd);
    } else {
      assert !RefOk(RetainLooked(w, fd), fd);
    }
  }

  /** The store at the end of dup3, which does not look at what the slot holds. */
  function Fill(w: World, t: nat, g: nat, fd: nat, bit: bool): World
    requires t < |w.tables| && g < |w.tables[t].slots| && g < |w.tables[t].cloexec|
  {
    Put(w, t, g, Holds(fd), bit || w.tables[t].cloexec[g]).(outside := w.outside - multiset{fd})
  }

  lemma FillKeepsIff(w: World, t: nat, g: nat, fd: nat, bit: bool)
    requires Inv(w) && Live(w, t) && g < |w.tables[t].slots| && fd in w.outside
    ensures TableOk(w.tables[t]) && (Inv(Fill(w, t, g, fd, bit)) <==> w.tables[t].slots[g].Empty?)
  {
    assert TableOk(w.tables[t]);
    var s := w.tables[t].slots[g];
    if s.Empty? {
      GiveKeeps(w, t, g, fd, bit);
    } else {
      SlotLive(w, t, g);
      PutUses(w, t, g, Holds(fd), bit || w.tables[t].cloexec[g], s.fd);
      assert RefOk(w, s.fd);
      assert !RefOk(Fill(w, t, g, fd, bit), s.fd);
    }
  }

  // ----- runs -----

  /** `looked` are the files that calls in progress have looked up and not yet retained. */
  datatype State = State(world: World, looked: multiset<nat>)

  /** What one thread does at a time: a section under the table's lock, or one of those without. */
  datatype Event =
    | Creating
    | Retaining(fd: nat)
    | Dropping(fd: nat)
    | Looking(t: nat, f: int)
    | RetainingLooked(fd: nat)
    | Growing(t: nat, max: nat)
    | Installing(t: nat, fd: nat, start: nat, bit: bool)
    | Filling(t: nat, g: nat, fd: nat, bit: bool)
    | Closing(t: nat, f: int)
    | Execing(t: nat)
    | Copying(t: nat)
    | Sharing(t: nat)
    | Releasing(t: nat)
    | Making(size: nat)

  ghost predicate Enabled(s: State, e: Event) {
    var w := s.world;
    match e
    case Creating => true
    case Retaining(fd) => fd in w.outside
    case Dropping(fd) => fd in w.outside
    case Looking(t, _) => Live(w, t)
    case RetainingLooked(fd) => fd in s.looked
    case Growing(t, _) => Live(w, t)
    case Installing(t, fd, _, _) => Live(w, t) && fd in w.outside
    case Filling(t, g, fd, _) => Live(w, t) && g < |w.tables[t].slots| && fd in w.outside
    case Closing(t, _) => Live(w, t)
    case Execing(t) => Live(w, t)
    case Copying(t) => Live(w, t)
    case Sharing(t) => Live(w, t)
    case Releasing(t) => Live(w, t)
    case Making(_) => true
  }

  /** The looked-up file still exists; the slot dup3 has closed is still empty. */
  ghost predicate Undisturbed(s: State, e: Event)
    requires Enabled(s, e)
  {
    match e
    case RetainingLooked(fd) => fd in s.world.refs
    case Filling(t, g, _, _) => s.world.tables[t].slots[g].Empty?
    case _ => true
  }

  lemma OutsideLive(w: World, fd: nat)
    requires Inv(w) && fd in w.outside
    ensures fd in w.refs
  {
    assert RefOk(w, fd);
  }

  /** One section, with the limit on open files in force at the time. */
  function NextWorld(s: State, e: Event, limit: nat): World
    requires Inv(s.world) && Enabled(s, e)
  {
    var w := s.world;
    match e
    case Creating => Create(w)
    case Retaining(fd) => OutsideLive(w, fd); Retain(w, fd)
    case Dropping(fd) => OutsideLive(w, fd); Drop(w, fd)
    case Looking(_, _) => w
    case RetainingLooked(fd) => RetainLooked(w, fd)
    case Growing(t, max) => if max + 1 > limit then w else Grow(w, t, max + 1)
    case Installing(t, fd, start, bit) => Install(w, t, fd, start, bit, limit)
    case Filling(t, g, fd, bit) => InvTable(w, t); Fill(w, t, g, fd, bit)
    case Closing(t, f) => Close(w, t, f)
    case Execing(t) => CloseMarked(w, t, 0)
    case Copying(t) => Copy(w, t)
    case Sharing(t) => Share(w, t)
    case Releasing(t) => Release(w, t)
    case Making(size) => NewTable(w, size)
  }

  function Next(s: State, e: Event, limit: nat): State
    requires Inv(s.world) && Enabled(s, e)
  {
    State(NextWorld(s, e, limit),
          match e
          case Looking(t, f) => if Lookup(s.world, t, f).Holds? then s.looked + multiset{Lookup(s.world, t, f).fd}
              else s.looked
          case RetainingLooked(fd) => s.looked - multiset{fd}
          case _ => s.looked)
  }

  /** A section keeps the invariant if and only if the file it looked up, or the slot it emptied, was left alone. */
  lemma NextKeepsInvIff(s: State, e: Event, limit: nat)
    requires Inv(s.world) && Enabled(s, e)
    ensures Inv(Next(s, e, limit).world) <==> Undisturbed(s, e)
  {
    hide Inv, RefOk, TableOk, Close, CloseMarked, CloseAll, Copy, Share, Release, NewTable, Install, Grow, Retain, Drop,
      Create, RetainLooked, Fill;
    var w := s.world;
    match e
    case Creating => CreateKeeps(w);
    case Retaining(fd) => OutsideLive(w, fd); RetainKeeps(w, fd);
    case Dropping(fd) => OutsideLive(w, fd); DropKeeps(w, fd);
    case RetainingLooked(fd) => RetainLookedKeepsIff(w, fd);
    case Growing(t, max) => GrowKeeps(w, t, max + 1);
    case Filling(t, g, fd, bit) => FillKeepsIff(w, t, g, fd, bit);
    case _ =>
  }

  /** A run in which every section is left undisturbed. */
  ghost predicate IsRun(s: State, es: seq<(Event, nat)>)
    requires Inv(s.world)
    decreases |es|
  {
    es == [] ||
    (&& Enabled(s, es[0].0) && Undisturbed(s, es[0].0)
     && (NextKeepsInvIff(s, es[0].0, es[0].1); IsRun(Next(s, es[0].0, es[0].1), es[1..])))
  }

  ghost function After(s: State, es: seq<(Event, nat)>): (r: State)
    requires Inv(s.world) && IsRun(s, es)
    ensures Inv(r.world)
    decreases |es|
  {
    if es == [] then s
    else
      NextKeepsInvIff(s, es[0].0, es[0].1);
      After(Next(s, es[0].0, es[0].1), es[1..])
  }

  ghost function Nothing(): (s: State)
    ensures Inv(s.world)
  {
    State(World(map[], [], multiset{}, multiset{}, 0), multiset{})
  }

  /**
   After every such run from nothing, a file that was created either exists, counts the slots
   that hold it and the references held elsewhere, and has not been closed; or it has been
   closed once, and nothing refers to it.
   */
  lemma RunClosesOnce(es: seq<(Event, nat)>, fd: nat)
    requires IsRun(Nothing(), es)
    ensures var w := After(Nothing(), es).world;
      fd < w.next ==>
        if fd in w.refs then w.refs[fd] == Total(w.tables, fd) + w.outside[fd] > 0 && w.closed[fd] == 0
        else Total(w.tables, fd) == w.outside[fd] == 0 && w.closed[fd] == 1
  {
    assert RefOk(After(Nothing(), es).world, fd);
  }

  /** In every table after every such run, a close-on-exec bit stands only on an occupied slot. */
  lemma RunMarksOccupied(es: seq<(Event, nat)>, t: nat, f: nat)
    requires IsRun(Nothing(), es)
    ensures var w := After(Nothing(), es).world;
      t < |w.tables| && f < |w.tables[t].cloexec| && w.tables[t].cloexec[f] ==> Lookup(w, t, f).Holds?
  {
    var w := After(Nothing(), es).world;
    if t < |w.tables| { assert TableOk(w.tables[t]); }
  }

  /** A looked-up file that some slot, or some other reference, still holds is there to be retained. */
  lemma HeldIsUndisturbed(s: State, fd: nat)
    requires Inv(s.world) && fd in s.looked
    requires fd in s.world.outside || exists t, f :: 0 <= t < |s.world.tables| && Lookup(s.world, t, f) == Holds(fd)
    ensures Undisturbed(s, RetainingLooked(fd))
  {
    if fd in s.world.outside {
      OutsideLive(s.world, fd);
    } else {
      var t, f :| 0 <= t < |s.world.tables| && Lookup(s.world, t, f) == Holds(fd);
      HeldLive(s.world, t, f);
    }
  }

  // ----- dup against close, on a shared table -----

  ghost predicate Reachable(s: State) {
    exists es :: IsRun(Nothing(), es) && After(Nothing(), es) == s
  }

  lemma {:induction false} RunExtends(s: State, es: seq<(Event, nat)>, e: Event, limit: nat)
    requires Inv(s.world) && IsRun(s, es)
    requires Enabled(After(s, es), e) && Undisturbed(After(s, es), e)
    ensures IsRun(s, es + [(e, limit)]) && After(s, es + [(e, limit)]) == Next(After(s, es), e, limit)
    decreases |es|
  {
    hide Inv, Enabled, Undisturbed, Next;
    var more := es + [(e, limit)];
    if es == [] {
      assert more == [(e, limit)] && more[1..] == [];
      NextKeepsInvIff(s, e, limit);
    } else {
      assert more[0] == es[0] && more[1..] == es[1..] + [(e, limit)];
      NextKeepsInvIff(s, es[0].0, es[0].1);
      RunExtends(Next(s, es[0].0, es[0].1), es[1..], e, limit);
    }
  }

  lemma ReachNext(s: State, e: Event, limit: nat)
    requires Inv(s.world) && Reachable(s) && Enabled(s, e) && Undisturbed(s, e)
    ensures Reachable(Next(s, e, limit)) && Inv(Next(s, e, limit).world)
  {
    hide Inv, Enabled, Undisturbed, Next, IsRun, After;
    var es :| IsRun(Nothing(), es) && After(Nothing(), es) == s;
    RunExtends(Nothing(), es, e, limit);
    NextKeepsInvIff(s, e, limit);
  }

  /** One open file in one table, shared by two tasks. */
  function Shared(): State {
    State(World(map[0 := 1], [Table(2, [Holds(0)], [false])], multiset{}, multiset{}, 1), multiset{})
  }

  lemma OneSlot()
    ensures Grown(Table(1, [], []), 1) == Table(1, [Empty], [false])
    ensures Grown(Table(1, [Empty], [false]), 1) == Table(1, [Empty], [false])
  {
    assert [] + Nones(1) == [Empty];
    assert [] + seq(1, i => false) == [false];
  }

  /** The only slot of the only table, written. */
  lemma OnlySlot(w: World, users: nat, was: Slot, s: Slot)
    requires w.tables == [Table(users, [was], [false])]
    ensures Put(w, 0, 0, s, false).tables == [Table(users, [s], [false])]
  {
    assert [was][0 := s] == [s] && [false][0 := false] == [false];
    assert w.tables[0 := Table(users, [s], [false])] == [Table(users, [s], [false])];
  }

  lemma SharedReachable()
    ensures Inv(Shared().world) && Reachable(Shared())
  {
    hide Inv, Reachable, Grown, Put, Install;
    var s0 := Nothing();
    StartReachable();
    ReachNext(s0, Creating, 1);
    var s1 := Next(s0, Creating, 1);
    ReachNext(s1, Making(1), 1);
    var s2 := Next(s1, Making(1), 1);
    OneSlot();
    assert s2.world.tables == [] + [Table(1, [Empty], [false])] == [Table(1, [Empty], [false])];
    assert s2.world.outside == multiset{} + multiset{0} == multiset{0};
    ReachNext(s2, Installing(0, 0, 0, false), 1);
    var s3 := Next(s2, Installing(0, 0, 0, false), 1);
    InstallOnly(s2.world);
    ReachNext(s3, Sharing(0), 1);
    var table := Table(2, [Holds(0)], [false]);
    assert s3.world.tables[0 := table] == [table];
    assert Next(s3, Sharing(0), 1) == Shared();
  }

  lemma InstallOnly(w: World)
    requires Inv(w) && w == World(map[0 := 1], [Table(1, [Empty], [false])], multiset{0}, multiset{}, 1)
    ensures Install(w, 0, 0, 0, false, 1) ==
            World(map[0 := 1], [Table(1, [Holds(0)], [false])], multiset{}, multiset{}, 1)
  {
    hide Inv, Install, Grown;
    InstallGives(w, 0, 0, 0, false, 1);
    OneSlot();
    assert LeastFree([Empty], 0) == 0;
    assert w.tables[0 := w.tables[0]] == w.tables;
    OnlySlot(w, 1, Empty, Holds(0));
    assert multiset{0} - multiset{0} == multiset{};
  }

  lemma StartReachable()
    ensures Reachable(Nothing())
  {
    assert IsRun(Nothing(), []) && After(Nothing(), []) == Nothing();
  }

  /** The same after one task has looked the file up for dup and the other has closed it. */
  function Raced(): State {
    State(World(map[], [Table(2, [Empty], [false])], multiset{}, multiset{0}, 1), multiset{0})
  }

  lemma RacedReachable()
    ensures Inv(Raced().world) && Reachable(Raced())
  {
    hide Inv, Reachable;
    SharedReachable();
    var s := Shared();
    ReachNext(s, Looking(0, 0), 1);
    var looked := Next(s, Looking(0, 0), 1);
    ReachNext(looked, Closing(0, 0), 1);
    ClosedOnly(looked.world);
    assert Next(looked, Closing(0, 0), 1) == Raced();
  }

  lemma ClosedOnly(w: World)
    requires Inv(w) && w == Shared().world
    ensures Close(w, 0, 0) == Raced().world
  {
    hide Inv;
    OnlySlot(w, 2, Holds(0), Empty);
    assert map[0 := 1] - {0} == map[];
    assert multiset{} + multiset{0} == multiset{0} && multiset{0} - multiset{0} == multiset{};
  }

  /** The last two sections of dup leave a closed file in the table. */
  ghost predicate DupKeepsClosed(s: State)
    requires Inv(s.world) && Enabled(s, RetainingLooked(0))
  {
    var w := Next(s, RetainingLooked(0), 1).world;
    && |w.tables| == 1 && |w.tables[0].slots| == |w.tables[0].cloexec| == 1 && w.tables[0].slots[0].Empty?
    && var r := Give(w, 0, 0, 0, false);
    Lookup(r, 0, 0) == Holds(0) && 0 !in r.refs && r.closed[0] == 1
  }

  /** dup goes on after that close: it retains a file that is gone, and puts it into the table. */
  lemma DupRace()
    ensures exists s :: Reachable(s) && Inv(s.world) && Enabled(s, RetainingLooked(0)) && DupKeepsClosed(s)
  {
    hide Inv, Reachable;
    RacedReachable();
    var s := Raced();
    assert Enabled(s, RetainingLooked(0)) && DupKeepsClosed(s);
  }

  /** Undisturbed, the sections of dup make the whole call. */
  lemma DupSections(w: World, t: nat, f: int, start: nat, bit: bool, limit: nat)
    requires Inv(w) && Live(w, t) && Lookup(w, t, f).Holds?
    ensures var fd := Lookup(w, t, f).fd;
      && fd in w.refs && Inv(RetainLooked(w, fd)) && fd in RetainLooked(w, fd).outside
      && Dup(w, t, f, start, bit, limit) == Install(RetainLooked(w, fd), t, fd, start, bit, limit)
  {
    hide Install;
    HeldLive(w, t, f);
    RetainKeeps(w, Lookup(w, t, f).fd);
  }

  lemma InstallGives(w: World, t: nat, fd: nat, start: nat, bit: bool, limit: nat)
    requires Inv(w) && Live(w, t) && fd in w.outside
    ensures var n := LeastFree(w.tables[t].slots, start);
      var r := Install(w, t, fd, start, bit, limit);
      if n < limit then
        var g := Grow(w, t, n + 1);
        && Inv(g) && n < |g.tables[t].slots| == |g.tables[t].cloexec| && g.tables[t].slots[n].Empty?
        && r == Give(g, t, n, fd, bit)
      else fd in w.refs && r == Drop(w, fd)
  {
    var n := LeastFree(w.tables[t].slots, start);
    OutsideLive(w, fd);
    GrowKeeps(w, t, n + 1);
    InvTable(Grow(w, t, n + 1), t);
    assert Lookup(Grow(w, t, n + 1), t, n) == Lookup(w, t, n);
  }

  lemma Dup3Fails(w: World, t: nat, f: int, g: nat, bit: bool, limit: nat)
    requires Inv(w) && Live(w, t) && (Lookup(w, t, f).Empty? || g >= limit)
    ensures Dup3(w, t, f, g, bit, limit) == w
  {
  }

  /** The stages of dup3: the table grows, the file is retained, the target is closed and then filled. */
  lemma Dup3Stages(w: World, t: nat, f: int, g: nat, bit: bool, limit: nat)
    requires Inv(w) && Live(w, t) && Lookup(w, t, f).Holds? && g < limit
    ensures var fd, w1 := Lookup(w, t, f).fd, Grow(w, t, g + 1);
      && Inv(w1) && fd in w1.refs
      && var w2 := Retain(w1, fd);
      && Inv(w2)
      && var w3 := Close(w2, t, g);
      && g < |w3.tables[t].slots| == |w3.tables[t].cloexec| && !w3.tables[t].cloexec[g]
      && Dup3(w, t, f, g, bit, limit) == Give(w3, t, g, fd, bit)
  {
    hide Count, Total, RefOk;
    HeldLive(w, t, f);
    GrowKeeps(w, t, g + 1);
    var fd, w1 := Lookup(w, t, f).fd, Grow(w, t, g + 1);
    RetainKeeps(w1, fd);
    var w2 := Retain(w1, fd);
    var w3 := Close(w2, t, g);
    InvTable(w2, t);
    InvTable(w3, t);
  }

  lemma GiveThenClose(w: World, t: nat, f: nat, fd: nat, bit: bool)
    requires Inv(w) && Live(w, t) && f < |w.tables[t].slots| && w.tables[t].slots[f].Empty?
    requires fd in w.outside && fd in w.refs && w.refs[fd] > 1
    ensures TableOk(w.tables[t]) && Inv(Give(w, t, f, fd, bit))
    ensures var r := Close(Give(w, t, f, fd, bit), t, f);
      && r.refs == w.refs[fd := w.refs[fd] - 1] && r.closed == w.closed && r.outside == w.outside - multiset{fd}
      && r.tables == w.tables
  {
    hide Inv, RefOk, Count, Total, Close;
    InvTable(w, t);
    GiveKeeps(w, t, f, fd, bit);
    GiveBack(w, t, f, fd, bit);
    var g := Give(w, t, f, fd, bit);
    InvTable(g, t);
    CloseIs(g, t, f, g.(tables := w.tables, refs := Unref(g.refs, fd), closed := g.closed + Closes(g.refs, fd)));
  }

  /** A slot filled and cleared again is the slot there was. */
  lemma GiveBack(w: World, t: nat, f: nat, fd: nat, bit: bool)
    requires t < |w.tables| && f < |w.tables[t].slots| && w.tables[t].slots[f].Empty? && TableOk(w.tables[t])
    ensures var g := Give(w, t, f, fd, bit);
      && Lookup(g, t, f) == Holds(fd) && |g.tables[t].slots| == |g.tables[t].cloexec| == |w.tables[t].slots|
      && g.tables[t := Cleared(g.tables[t], f)] == w.tables
  {
    var table := w.tables[t];
    assert table.slots[f := Holds(fd)][f := Empty] == table.slots;
    assert table.cloexec[f := bit][f := false] == table.cloexec;
    assert w.tables[t := table] == w.tables;
  }

  /** A new descriptor for a file, closed again: every descriptor, count and closing is as before. */
  lemma DupThenClose(w: World, t: nat, f: int, start: nat, bit: bool, limit: nat)
    requires Inv(w) && Live(w, t) && Lookup(w, t, f).Holds?
    requires LeastFree(w.tables[t].slots, start) < limit
    ensures var r := Close(Dup(w, t, f, start, bit, limit), t, LeastFree(w.tables[t].slots, start));
      && r.refs == w.refs && r.closed == w.closed && r.outside == w.outside
      && forall g :: Lookup(r, t, g) == Lookup(w, t, g)
  {
    hide Inv, Close, Install, RefOk, Count, Total;
    var n, fd := LeastFree(w.tables[t].slots, start), Lookup(w, t, f).fd;
    HeldLive(w, t, f);
    assert w.refs[fd] > 0 by { Positive(w, fd); }
    RetainKeeps(w, fd);
    var w1 := Retain(w, fd);
    InstallGives(w1, t, fd, start, bit, limit);
    var w2 := Grow(w1, t, n + 1);
    GiveThenClose(w2, t, n, fd, bit);
    assert w.outside + multiset{fd} - multiset{fd} == w.outside;
    assert w.refs[fd := w.refs[fd] + 1][fd := w.refs[fd]] == w.refs;
    GrowKeeps(w1, t, n + 1);
    forall g ensures Lookup(w2, t, g) == Lookup(w, t, g) {
      assert Lookup(w1, t, g) == Lookup(w, t, g);
    }
  }

  // ----- close-on-exec marks -----

  predicate Marked(w: World, t: nat, f: int)
    requires t < |w.tables|
  {
    0 <= f < |w.tables[t].cloexec| && w.tables[t].cloexec[f]
  }

  /** No slot but `n` has changed, neither its file nor its mark. */
  ghost predicate OtherSlotsKept(a: World, b: World, t: nat, n: int) {
    && |a.tables| == |b.tables| && t < |a.tables|
    && (forall f :: f != n ==> Lookup(b, t, f) == Lookup(a, t, f) && Marked(b, t, f) == Marked(a, t, f))
    && (forall u :: 0 <= u < |a.tables| && u != t ==> b.tables[u] == a.tables[u])
  }

  lemma GrowKeepsSlots(w: World, t: nat, size: nat)
    requires Inv(w) && Live(w, t)
    ensures OtherSlotsKept(w, Grow(w, t, size), t, -1)
    ensures forall f :: Lookup(Grow(w, t, size), t, f) == Lookup(w, t, f)
    ensures forall f :: Marked(Grow(w, t, size), t, f) == Marked(w, t, f)
  {
    InvTable(w, t);
  }

  /** An installed descriptor holds the file with the mark asked for, and no other descriptor changes. */
  lemma InstallMarks(w: World, t: nat, fd: nat, start: nat, bit: bool, limit: nat)
    requires Inv(w) && Live(w, t) && fd in w.outside
    ensures var n, r := LeastFree(w.tables[t].slots, start), Install(w, t, fd, start, bit, limit);
      n < limit ==> Lookup(r, t, n) == Holds(fd) && Marked(r, t, n) == bit && OtherSlotsKept(w, r, t, n)
  {
    hide Inv, Install, Grow;
    var n := LeastFree(w.tables[t].slots, start);
    InstallGives(w, t, fd, start, bit, limit);
    GrowKeepsSlots(w, t, n + 1);
  }

  /** dup gives a second, unmarked or marked, descriptor for the same file. */
  lemma DupMarks(w: World, t: nat, f: int, start: nat, bit: bool, limit: nat)
    requires Inv(w) && Live(w, t) && Lookup(w, t, f).Holds? && LeastFree(w.tables[t].slots, start) < limit
    ensures var n, r := LeastFree(w.tables[t].slots, start), Dup(w, t, f, start, bit, limit);
      && Lookup(r, t, n) == Lookup(r, t, f) == Lookup(w, t, f) && Marked(r, t, n) == bit && n != f
      && OtherSlotsKept(w, r, t, n)
  {
    hide Inv, Install;
    var fd := Lookup(w, t, f).fd;
    HeldLive(w, t, f);
    RetainKeeps(w, fd);
    InstallMarks(Retain(w, fd), t, fd, start, bit, limit);
    forall g ensures Lookup(Retain(w, fd), t, g) == Lookup(w, t, g) && Marked(Retain(w, fd), t, g) == Marked(w, t, g) {
    }
  }

  /** After dup3 the target holds the file of `f` with the mark asked for, whatever it held before; f itself stays. */
  lemma Dup3Marks(w: World, t: nat, f: int, g: nat, bit: bool, limit: nat)
    requires Inv(w) && Live(w, t) && Lookup(w, t, f).Holds? && g < limit
    ensures var r := Dup3(w, t, f, g, bit, limit);
      && Lookup(r, t, g) == Lookup(r, t, f) == Lookup(w, t, f) && Marked(r, t, g) == bit
      && OtherSlotsKept(w, r, t, g)
  {
    hide Inv, Close, Dup3, Grow;
    Dup3Stages(w, t, f, g, bit, limit);
    GrowKeepsSlots(w, t, g + 1);
    var w2 := Retain(Grow(w, t, g + 1), Lookup(w, t, f).fd);
    var w3 := Close(w2, t, g);
    InvTable(w2, t);
    CloseKeepsSlots(w2, t, g);
    forall h ensures Lookup(w2, t, h) == Lookup(w, t, h) && Marked(w2, t, h) == Marked(w, t, h) {
    }
  }

  /** A descriptor duplicated onto itself, which POSIX leaves alone, is closed and filled again, with the new mark. */
  lemma DupOntoItselfIff(w: World, t: nat, f: nat, bit: bool, limit: nat)
    requires Inv(w) && Live(w, t) && Lookup(w, t, f).Holds? && f < limit
    ensures (forall h :: Lookup(Dup3(w, t, f, f, bit, limit), t, h) == Lookup(w, t, h))
    ensures (forall h :: Marked(Dup3(w, t, f, f, bit, limit), t, h) == Marked(w, t, h)) <==> Marked(w, t, f) == bit
  {
    hide Inv, Dup3;
    Dup3Marks(w, t, f, f, bit, limit);
  }

  lemma CloseKeepsSlots(w: World, t: nat, g: nat)
    requires Inv(w) && t < |w.tables| && TableOk(w.tables[t])
    ensures OtherSlotsKept(w, Close(w, t, g), t, g)
    ensures Lookup(Close(w, t, g), t, g).Empty?
  {
    hide Inv, Close;
  }

  /** At exec a descriptor goes if and only if it is marked; the others stay as they are. */
  lemma ExecClosesMarked(w: World, t: nat, f: int)
    requires Inv(w) && t < |w.tables|
    ensures var r := CloseMarked(w, t, 0);
      Lookup(r, t, f) == (if Marked(w, t, f) then Empty else Lookup(w, t, f)) && !Marked(r, t, f)
  {
    hide Inv, CloseMarked;
    CloseMarkedResult(w, t, 0);
  }

  /** So a descriptor installed with the mark goes at the next exec, and one installed without it stays. */
  lemma InstallThenExec(w: World, t: nat, fd: nat, start: nat, bit: bool, limit: nat)
    requires Inv(w) && Live(w, t) && fd in w.outside && LeastFree(w.tables[t].slots, start) < limit
    ensures var n, r := LeastFree(w.tables[t].slots, start), Install(w, t, fd, start, bit, limit);
      t < |r.tables| && Lookup(CloseMarked(r, t, 0), t, n) == if bit then Empty else Holds(fd)
  {
    hide Inv, Install, CloseMarked;
    InstallMarks(w, t, fd, start, bit, limit);
    var r := Install(w, t, fd, start, bit, limit);
    ExecClosesMarked(r, t, LeastFree(w.tables[t].slots, start));
  }

  // ----- tables as a whole -----

  /** A table shared and released again is as before. */
  lemma ShareThenRelease(w: World, t: nat)
    requires Inv(w) && Live(w, t)
    ensures Share(w, t).tables[t].users == w.tables[t].users + 1
    ensures Live(Share(w, t), t) && Release(Share(w, t), t) == w
  {
    hide Inv;
    var s := Share(w, t);
    assert s.tables[t := w.tables[t]] == w.tables;
  }

  /** The last user takes the table with it, and closes every file that only this table referred to. */
  lemma LastRelease(w: World, t: nat, fd: nat)
    requires Inv(w) && Live(w, t) && w.tables[t].users == 1
    ensures var r := Release(w, t);
      && |r.tables| == |w.tables| && r.tables[t] == Table(0, [], [])
      && (forall u :: 0 <= u < |w.tables| && u != t ==> r.tables[u] == w.tables[u])
      && (fd in r.refs <==> Uses(w, fd) > Count(w.tables[t].slots, fd))
      && (fd in w.refs && fd !in r.refs ==> r.closed[fd] == w.closed[fd] + 1)
  {
    hide CloseAll;
    var r := Release(w, t);
    CloseAllResult(w, t, 0);
    assert RefOk(w, fd) && RefOk(r, fd);
    assert r.tables == w.tables[t := Table(0, [], [])];
    TotalUpdate(w.tables, t, Table(0, [], []), fd);
  }

  /** A new table has its slots, all empty, and one user; a copy has the slots and the marks of the original. */
  lemma NewTables(w: World, size: nat, t: nat)
    requires Inv(w) && Live(w, t)
    ensures var r := NewTable(w, size);
      && r == w.(tables := w.tables + [r.tables[|w.tables|]])
      && r.tables[|w.tables|].users == 1 && |r.tables[|w.tables|].slots| == size
      && forall f :: Lookup(r, |w.tables|, f) == Empty && !Marked(r, |w.tables|, f)
    ensures var r := Copy(w, t);
      && |r.tables| == |w.tables| + 1 && r.tables[..|w.tables|] == w.tables && r.tables[|w.tables|].users == 1
      && forall f :: Lookup(r, |w.tables|, f) == Lookup(w, t, f) && Marked(r, |w.tables|, f) == Marked(w, t, f)
  {
    hide Inv;
  }

  /** Growing reaches the number asked for if that is below the limit, and else does nothing; no slot changes. */
  lemma GrowingMakesRoom(s: State, t: nat, max: nat, limit: nat)
    requires Inv(s.world) && Enabled(s, Growing(t, max))
    ensures var r, size := NextWorld(s, Growing(t, max), limit), |s.world.tables[t].slots|;
      && OtherSlotsKept(s.world, r, t, -1)
      && |r.tables[t].slots| == if max < limit && size <= max then max + 1 else size
  {
    hide Inv;
    GrowKeepsSlots(s.world, t, max + 1);
  }

  /** No table is longer than the limit. */
  ghost predicate Within(w: World, limit: nat) {
    forall t :: 0 <= t < |w.tables| ==> |w.tables[t].slots| <= limit
  }

  lemma StepWithin(s: State, e: Event, limit: nat)
    requires Inv(s.world) && Enabled(s, e) && Within(s.world, limit) && (e.Making? ==> e.size <= limit)
    ensures Within(NextWorld(s, e, limit), limit)
  {
    hide Inv, RefOk, TableOk, Within, Close, CloseMarked, CloseAll, Install, Release, Copy, NewTable, Grow, Fill;
    var w := s.world;
    match e
    case Growing(t, max) => if max < limit { GrowWithin(w, t, max + 1, limit); }
    case Installing(t, fd, start, bit) => InstallWithin(w, t, fd, start, bit, limit);
    case Filling(t, g, fd, bit) => InvTable(w, t); FillWithin(w, t, g, fd, bit, limit);
    case Closing(t, f) => CloseWithin(w, t, f, limit);
    case Execing(t) => CloseWithin(w, t, 0, limit);
    case Copying(t) => MoreWithin(w, 0, t, limit);
    case Sharing(t) => SameWithin(w, Share(w, t), limit);
    case Releasing(t) => ReleaseWithin(w, t, limit);
    case Making(size) => MoreWithin(w, size, 0, limit);
    case _ => SameWithin(w, NextWorld(s, e, limit), limit);
  }

  lemma SameWithin(w: World, r: World, limit: nat)
    requires Within(w, limit) && |r.tables| == |w.tables|
    requires forall t :: 0 <= t < |w.tables| ==> |r.tables[t].slots| == |w.tables[t].slots|
    ensures Within(r, limit)
  {
  }

  lemma GrowWithin(w: World, t: nat, size: nat, limit: nat)
    requires t < |w.tables| && Within(w, limit) && size <= limit
    ensures Within(Grow(w, t, size), limit)
  {
  }

  lemma FillWithin(w: World, t: nat, g: nat, fd: nat, bit: bool, limit: nat)
    requires Live(w, t) && TableOk(w.tables[t]) && g < |w.tables[t].slots| && Within(w, limit)
    ensures Within(Fill(w, t, g, fd, bit), limit)
  {
  }

  lemma CloseWithin(w: World, t: nat, f: int, limit: nat)
    requires Inv(w) && t < |w.tables| && Within(w, limit)
    ensures Within(Close(w, t, f), limit) && Within(CloseMarked(w, t, 0), limit)
  {
    hide Inv, Close, CloseMarked;
    CloseMarkedResult(w, t, 0);
  }

  lemma ReleaseWithin(w: World, t: nat, limit: nat)
    requires Inv(w) && Live(w, t) && Within(w, limit)
    ensures Within(Release(w, t), limit)
  {
    hide Inv, CloseAll;
    CloseAllResult(w, t, 0);
  }

  lemma InstallWithin(w: World, t: nat, fd: nat, start: nat, bit: bool, limit: nat)
    requires Inv(w) && Live(w, t) && fd in w.outside && Within(w, limit)
    ensures Within(Install(w, t, fd, start, bit, limit), limit)
  {
    hide Inv, RefOk, TableOk, LeastFree;
  }

  lemma MoreWithin(w: World, size: nat, t: nat, limit: nat)
    requires Inv(w) && Within(w, limit) && size <= limit
    ensures Within(NewTable(w, size), limit)
    ensures t < |w.tables| ==> Within(Copy(w, t), limit)
  {
    hide Inv;
  }

  /** Under a fixed limit no run ever gives a descriptor at or beyond it. */
  lemma {:induction false} RunWithinLimit(s: State, es: seq<(Event, nat)>, limit: nat)
    requires Inv(s.world) && IsRun(s, es) && Within(s.world, limit)
    requires forall i :: 0 <= i < |es| ==> es[i].1 == limit && (es[i].0.Making? ==> es[i].0.size <= limit)
    ensures Within(After(s, es).world, limit)
    decreases |es|
  {
    hide Inv, Within, NextWorld;
    if es != [] {
      NextKeepsInvIff(s, es[0].0, limit);
      StepWithin(s, es[0].0, limit);
      RunWithinLimit(Next(s, es[0].0, limit), es[1..], limit);
    }
  }

  lemma Positive(w: World, fd: nat)
    requires Inv(w) && fd in w.refs
    ensures w.refs[fd] > 0
  {
    assert RefOk(w, fd);
  }

  // ----- the code -----

  class Descriptors {
    var refs: map<nat, int>
    var tables: seq<Table>
    var closed: multiset<nat>
    var next: nat
    ghost var outside: multiset<nat>

    ghost function Snapshot(): World
      reads this
    {
      World(refs, tables, outside, closed, next)
    }

    ghost predicate Valid()
      reads this
    {
      Inv(Snapshot())
    }

    constructor ()
      ensures Valid() && Snapshot() == Nothing().world
    {
      refs, tables, closed, next, outside := map[], [], multiset{}, 0, multiset{};
    }

    /** fd_create. */
    method FdCreate() returns (fd: nat)
      requires Valid()
      modifies this
      ensures Valid() && Snapshot() == Create(old(Snapshot())) && fd == old(next)
    {
      CreateKeeps(Snapshot());
      fd := next;
      refs, next := refs[fd := 1], next + 1;
      outside := outside + multiset{fd};
    }

    /** fd_close, on a reference that is no longer counted in any slot. */
    method FdClose(fd: nat)
      requires fd in refs
      modifies this`refs, this`closed
      ensures refs == Unref(old(refs), fd) && closed == old(closed) + Closes(old(refs), fd)
    {
      refs := refs[fd := refs[fd] - 1];
      if refs[fd] == 0 {
        closed := closed + multiset{fd};
        refs := refs - {fd};
      }
    }

    /** fdtable_get on the current table. */
    method Get(t: nat, f: int) returns (s: Slot)
      requires t < |tables|
      ensures s == Lookup(Snapshot(), t, f)
    {
      if f < 0 || f >= |tables[t].slots| { return Empty; }
      s := tables[t].slots[f];
    }

    /** fdtable_close. */
    method FdtableClose(t: nat, f: int) returns (err: int)
      requires Valid() && t < |tables|
      modifies this
      ensures Valid() && Snapshot() == Close(old(Snapshot()), t, f)
      ensures err == if Lookup(old(Snapshot()), t, f).Empty? then EBADF else 0
    {
      hide Inv, RefOk, Count, Total;
      InvTable(Snapshot(), t);
      ghost var w := Snapshot();
      var s := Get(t, f);
      if s.Empty? { return EBADF; }
      assert s.fd in refs by { HeldLive(w, t, f); }
      FdClose(s.fd);
      tables := tables[t := tables[t].(slots := tables[t].slots[f := Empty], cloexec := tables[t].cloexec[f := false])];
      CloseIs(w, t, f, Snapshot());
      return 0;
    }

    /** fdtable_expand, with fdtable_resize. */
    method Expand(t: nat, max: nat, limit: nat) returns (err: int)
      requires Valid() && Live(Snapshot(), t)
      modifies this`tables
      ensures Valid()
      ensures Snapshot() == if max + 1 > limit then old(Snapshot()) else Grow(old(Snapshot()), t, max + 1)
      ensures err == if max + 1 > limit then EMFILE else 0
    {
      hide Inv, RefOk, Count, Total;
      GrowKeeps(Snapshot(), t, max + 1);
      var size := max + 1;
      if size > limit { return EMFILE; }
      if |tables[t].slots| >= size {
        assert tables[t := tables[t]] == tables;
        return 0;
      }
      tables := tables[t := Grown(tables[t], size)];
      return 0;
    }

    /** The search of f_install_start: the least free number, unless it runs into the limit first. */
    method FreeNumber(t: nat, start: nat, limit: nat) returns (f: nat)
      requires t < |tables|
      ensures var n, size := LeastFree(tables[t].slots, start), |tables[t].slots|;
        if f < limit && f < size then f == n && tables[t].slots[f].Empty?
        else f <= n && (f < limit ==> f == n)
    {
      var size := if limit < |tables[t].slots| then limit else |tables[t].slots|;
      ghost var n := LeastFree(tables[t].slots, start);
      f := start;
      while f < size && tables[t].slots[f].Holds?
        invariant start <= f <= n
      {
        f := f + 1;
      }
    }

    /** f_install_start and f_install: the number the file got, or an error and the reference dropped. */
    method FInstall(t: nat, fd: nat, start: nat, bit: bool, limit: nat) returns (f: int)
      requires Valid() && Live(Snapshot(), t) && fd in outside
      modifies this
      ensures Valid() && Snapshot() == Install(old(Snapshot()), t, fd, start, bit, limit)
      ensures f == var n := LeastFree(old(tables)[t].slots, start); if n < limit then n else EMFILE
      ensures f != EMFILE ==> t < |tables| && Lookup(Snapshot(), t, f) == Holds(fd) && Marked(Snapshot(), t, f) == bit
    {
      hide Inv, RefOk, Count, Total, Install, LeastFree, OtherSlotsKept;
      ghost var w := Snapshot();
      ghost var n := LeastFree(tables[t].slots, start);
      InstallMarks(w, t, fd, start, bit, limit);
      InstallGives(w, t, fd, start, bit, limit);
      f := FreeNumber(t, start, limit);
      if f >= limit || f >= |tables[t].slots| {
        var err := Expand(t, f, limit);
        if err < 0 {
          FdClose(fd);
          outside := outside - multiset{fd};
          return err;
        }
      } else {
        assert tables[t := tables[t]] == tables;
      }
      assert f == n && Snapshot() == Grow(w, t, n + 1);
      tables := tables[t := tables[t].(slots := tables[t].slots[f := Holds(fd)],
          cloexec := tables[t].cloexec[f := bit])];
      outside := outside - multiset{fd};
    }

    /** sys_dup, and F_DUPFD with a least number. */
    method SysDup(t: nat, f: int, start: nat, bit: bool, limit: nat) returns (g: int)
      requires Valid() && Live(Snapshot(), t)
      modifies this
      ensures Valid() && Snapshot() == Dup(old(Snapshot()), t, f, start, bit, limit)
      ensures Lookup(old(Snapshot()), t, f).Empty? ==> g == EBADF
      ensures Lookup(old(Snapshot()), t, f).Holds? ==>
        g == var n := LeastFree(old(tables)[t].slots, start); if n < limit then n else EMFILE
    {
      hide Inv, RefOk, Count, Total, Install;
      ghost var w := Snapshot();
      var s := Get(t, f);
      if s.Empty? { return EBADF; }
      HeldLive(w, t, f);
      RetainKeeps(w, s.fd);
      refs := refs[s.fd := refs[s.fd] + 1];
      outside := outside + multiset{s.fd};
      g := FInstall(t, s.fd, start, bit, limit);
    }

    /** sys_dup3. */
    method SysDup3(t: nat, f: int, g: nat, bit: bool, limit: nat) returns (r: int)
      requires Valid() && Live(Snapshot(), t)
      modifies this
      ensures Valid() && Snapshot() == Dup3(old(Snapshot()), t, f, g, bit, limit)
      ensures r == if Lookup(old(Snapshot()), t, f).Empty? then EBADF else if g + 1 > limit then EMFILE else g
      ensures r == g ==> t < |tables| && Lookup(Snapshot(), t, g) == Lookup(old(Snapshot()), t, f)
      ensures r == g ==> t < |tables| && Marked(Snapshot(), t, g) == bit
    {
      hide Inv, RefOk, Count, Total, Close, Dup3, Grown, Nones, TableOk, OtherSlotsKept;
      ghost var w := Snapshot();
      var s := Get(t, f);
      if s.Empty? {
        assert w == Dup3(w, t, f, g, bit, limit) by { Dup3Fails(w, t, f, g, bit, limit); }
        return EBADF;
      }
      var err := Expand(t, g, limit);
      if err < 0 {
        assert w == Dup3(w, t, f, g, bit, limit) by { Dup3Fails(w, t, f, g, bit, limit); }
        return err;
      }
      Dup3Stages(w, t, f, g, bit, limit);
      refs := refs[s.fd := refs[s.fd] + 1];
      outside := outside + multiset{s.fd};
      assert Snapshot() == Retain(Grow(w, t, g + 1), s.fd);
      var _ := FdtableClose(t, g);
      ghost var w3 := Snapshot();
      assert tables[t].cloexec[g := false] == tables[t].cloexec;
      tables := tables[t := tables[t].(slots := tables[t].slots[g := Holds(s.fd)])];
      if bit {
        tables := tables[t := tables[t].(cloexec := tables[t].cloexec[g := true])];
      }
      outside := outside - multiset{s.fd};
      assert Snapshot() == Give(w3, t, g, s.fd, bit);
      Dup3Marks(w, t, f, g, bit, limit);
      return g;
    }

    /** fdtable_do_cloexec: every marked slot is closed, no other. */
    method DoCloexec(t: nat)
      requires Valid() && Live(Snapshot(), t)
      modifies this
      ensures Valid() && Snapshot() == CloseMarked(old(Snapshot()), t, 0)
      ensures Swept(old(tables)[t], tables[t], 0, true) && OnlyTable(old(Snapshot()), Snapshot(), t)
    {
      hide Inv, RefOk, Count, Total, Close;
      ghost var w := Snapshot();
      CloseMarkedResult(w, t, 0);
      InvTable(w, t);
      var f := 0;
      while f < |tables[t].slots|
        invariant t < |tables| && 0 <= f <= |tables[t].slots|
        invariant Valid() && TableOk(tables[t])
        invariant CloseMarked(Snapshot(), t, f) == CloseMarked(w, t, 0)
        decreases |tables[t].slots| - f
      {
        if tables[t].cloexec[f] {
          var _ := FdtableClose(t, f);
          InvTable(Snapshot(), t);
        }
        f := f + 1;
      }
    }

    /** fdtable_copy. */
    method FdtableCopy(t: nat) returns (u: nat)
      requires Valid() && Live(Snapshot(), t)
      modifies this
      ensures Valid() && Snapshot() == Copy(old(Snapshot()), t)
      ensures u == |old(tables)| && tables == old(tables) + [old(tables)[t].(users := 1)]
    {
      hide Inv, RefOk, Count, Total;
      CopyKeeps(Snapshot(), t);
      u := |tables|;
      var table := Table(1, tables[t].slots, tables[t].cloexec);
      var f := 0;
      while f < |table.slots|
        invariant 0 <= f <= |table.slots|
        invariant unchanged(this`tables, this`closed, this`next, this`outside)
        invariant Bump(refs, table.slots[f..]) == Bump(old(refs), table.slots)
        invariant refs.Keys == old(refs).Keys
      {
        assert table.slots[f..][0] == table.slots[f] && table.slots[f..][1..] == table.slots[f + 1..];
        if table.slots[f].Holds? {
          assert table.slots[f].fd in refs by { HeldLive(old(Snapshot()), t, f); }
          refs := refs[table.slots[f].fd := refs[table.slots[f].fd] + 1];
        }
        f := f + 1;
      }
      tables := tables + [table];
    }

    /** fdtable_release. */
    method FdtableRelease(t: nat)
      requires Valid() && Live(Snapshot(), t)
      modifies this
      ensures Valid() && Snapshot() == Release(old(Snapshot()), t)
    {
      hide Inv, RefOk, Count, Total, Close;
      ghost var w := Snapshot();
      var n := tables[t].users - 1;
      if n > 0 {
        tables := tables[t := tables[t].(users := n)];
        assert Snapshot() == Release(w, t);
      } else {
        CloseAllResult(w, t, 0);
        var f := 0;
        while f < |tables[t].slots|
          invariant t < |tables| && 0 <= f <= |tables[t].slots|
          invariant Valid()
          invariant CloseAll(Snapshot(), t, f) == CloseAll(w, t, 0)
          decreases |tables[t].slots| - f
        {
          var _ := FdtableClose(t, f);
          f := f + 1;
        }
        assert Snapshot() == CloseAll(w, t, 0);
        ghost var c := Snapshot();
        tables := tables[t := Table(0, [], [])];
        assert Snapshot() == c.(tables := c.tables[t := Table(0, [], [])]);
        assert Snapshot() == Release(w, t);
      }
    }
  }

  /** Closing a slot, piece by piece. */
  lemma CloseIs(w: World, t: nat, f: nat, r: World)
    requires Inv(w) && t < |w.tables| && Lookup(w, t, f).Holds? && Lookup(w, t, f).fd in w.refs
    requires TableOk(w.tables[t]) && r.tables == w.tables[t := Cleared(w.tables[t], f)]
    requires r.refs == Unref(w.refs, Lookup(w, t, f).fd) && r.closed == w.closed + Closes(w.refs, Lookup(w, t, f).fd)
    requires r.outside == w.outside && r.next == w.next
    ensures r == Close(w, t, f)
  {
  }

  lemma HeldLive(w: World, t: nat, f: int)
    requires Inv(w) && t < |w.tables| && Lookup(w, t, f).Holds?
    ensures Lookup(w, t, f).fd in w.refs
  {
    SlotLive(w, t, f);
  }
}
