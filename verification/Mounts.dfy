/** The mount list (fs/mount.c) and the trimming of paths to a mount (fs/generic.c). */
module Mounts {
  import PathNormalize

  const EBUSY := -16
  const EINVAL := -22

  /** `id` counts the calls of do_mount, so it tells which of two mounts is the more recent. */
  datatype Mount = Mount(id: nat, point: string, refs: int)

  // ----- paths and mount points -----

  /** The test of mount_find: the point is the path, or the path goes on with a slash behind it. */
  predicate Covers(point: string, path: string) {
    point <= path && (|path| == |point| || path[|point|] == '/')
  }

  /** On normalized paths that is a prefix of whole components. */
  lemma CoversIsComponentPrefix(point: seq<string>, path: seq<string>)
    requires PathNormalize.AllComps(point) && PathNormalize.AllComps(path)
    ensures Covers(PathNormalize.Join(point), PathNormalize.Join(path)) <==> point <= path
  {
    if point <= path {
      PrefixCovers(point, path);
    }
    if Covers(PathNormalize.Join(point), PathNormalize.Join(path)) {
      CoversPrefix(point, path);
    }
  }

  lemma {:induction false} PrefixCovers(point: seq<string>, path: seq<string>)
    requires point <= path
    ensures Covers(PathNormalize.Join(point), PathNormalize.Join(path))
  {
    if |point| == |path| {
      assert point == path;
    } else {
      PrefixCovers(point, path[..|path| - 1]);
    }
  }

  lemma CoversPrefix(point: seq<string>, path: seq<string>)
    requires PathNormalize.AllComps(point) && PathNormalize.AllComps(path)
    requires Covers(PathNormalize.Join(point), PathNormalize.Join(path))
    ensures point <= path
  {
    hide PathNormalize.Comps, PathNormalize.Join;
    var a, b := PathNormalize.Join(point), PathNormalize.Join(path);
    PathNormalize.CompsOfJoin(point);
    PathNormalize.CompsOfJoin(path);
    if |a| < |b| {
      var rest := b[|a| + 1..];
      assert b == a + "/" + rest;
      PathNormalize.CompsSplit(a, rest);
    } else {
      assert a == b;
    }
  }

  /** Two points that cover a path and are equally long are the same point. */
  lemma CoversSame(a: string, b: string, path: string)
    requires Covers(a, path) && Covers(b, path) && |a| == |b|
    ensures a == b
  {
    assert a == path[..|a|] && b == path[..|b|];
  }

  // ----- the list -----

  /** Longest points first, and of equally long ones the most recent first. */
  ghost predicate Ordered(list: seq<Mount>) {
    forall i, j :: 0 <= i < j < |list| ==> Before(list[i], list[j])
  }

  predicate Before(a: Mount, b: Mount) {
    |a.point| > |b.point| || (|a.point| == |b.point| && a.id > b.id)
  }

  ghost predicate HasRoot(list: seq<Mount>) {
    exists i :: 0 <= i < |list| && list[i].point == ""
  }

  /** The first mount whose point covers the path, or the length of the list. */
  function FirstCover(list: seq<Mount>, path: string): (i: nat)
    ensures i <= |list|
    ensures i < |list| ==> Covers(list[i].point, path)
    ensures forall j :: 0 <= j < i ==> !Covers(list[j].point, path)
  {
    if list == [] || Covers(list[0].point, path) then 0 else 1 + FirstCover(list[1..], path)
  }

  /** The first mount on exactly this point, or the length of the list. */
  function FirstAt(list: seq<Mount>, point: string): (i: nat)
    ensures i <= |list|
    ensures i < |list| ==> list[i].point == point
    ensures forall j :: 0 <= j < i ==> list[j].point != point
  {
    if list == [] || list[0].point == point then 0 else 1 + FirstAt(list[1..], point)
  }

  /** Where do_mount puts a point: before the first that is not longer. */
  function Slot(list: seq<Mount>, point: string): (i: nat)
    ensures i <= |list|
    ensures i < |list| ==> |list[i].point| <= |point|
    ensures forall j :: 0 <= j < i ==> |list[j].point| > |point|
  {
    if list == [] || |list[0].point| <= |point| then 0 else 1 + Slot(list[1..], point)
  }

  function Insert(list: seq<Mount>, m: Mount): seq<Mount> {
    list[..Slot(list, m.point)] + [m] + list[Slot(list, m.point)..]
  }

  function RemoveAt(list: seq<Mount>, i: nat): seq<Mount>
    requires i < |list|
  {
    list[..i] + list[i + 1..]
  }

  function Refer(list: seq<Mount>, i: nat, delta: int): seq<Mount>
    requires i < |list|
  {
    list[i := list[i].(refs := list[i].refs + delta)]
  }

  /** The best mount for a path: the longest point that covers it, and of those the most recent mount. */
  ghost predicate IsBest(list: seq<Mount>, path: string, m: Mount) {
    && m in list && Covers(m.point, path)
    && forall o :: o in list && Covers(o.point, path) ==>
         |o.point| < |m.point| || (o.point == m.point && o.id <= m.id)
  }

  /** mount_find resolves a path to its best mount. */
  lemma FindIsBest(list: seq<Mount>, path: string)
    requires Ordered(list) && HasRoot(list)
    requires path == "" || path[0] == '/'
    ensures var i := FirstCover(list, path);
      i < |list| && IsBest(list, path, list[i])
  {
    hide FirstCover;
    var i := FirstCover(list, path);
    var r :| 0 <= r < |list| && list[r].point == "";
    assert Covers(list[r].point, path);
    var m := list[i];
    forall o | o in list && Covers(o.point, path)
      ensures |o.point| < |m.point| || (o.point == m.point && o.id <= m.id)
    {
      var j :| 0 <= j < |list| && list[j] == o;
      assert i < j ==> Before(list[i], list[j]);
      if |o.point| == |m.point| { CoversSame(o.point, m.point, path); }
    }
  }

  /** Only one mount is the best one, so the lookup is determined by the set of mounts alone. */
  lemma BestIsUnique(list: seq<Mount>, path: string, a: Mount, b: Mount)
    requires Ordered(list) && IsBest(list, path, a) && IsBest(list, path, b)
    ensures a == b
  {
    var i :| 0 <= i < |list| && list[i] == a;
    var j :| 0 <= j < |list| && list[j] == b;
    assert !Before(a, b) && !Before(b, a);
  }

  lemma InsertOrdered(list: seq<Mount>, m: Mount)
    requires Ordered(list)
    requires forall i :: 0 <= i < |list| ==> list[i].id < m.id
    ensures Ordered(Insert(list, m))
  {
    var k, s := Slot(list, m.point), Insert(list, m);
    forall i, j | 0 <= i < j < |s| ensures Before(s[i], s[j]) {
      assert i < k ==> s[i] == list[i];
      assert j < k ==> s[j] == list[j];
      assert i > k ==> s[i] == list[i - 1];
      assert j > k ==> s[j] == list[j - 1];
      if i == k { SlotBelow(list, m, j - 1); }
      if i < k < j { assert Before(list[i], list[j - 1]); }
    }
  }

  /** Everything behind the slot is no longer than the new point. */
  lemma SlotBelow(list: seq<Mount>, m: Mount, j: nat)
    requires Ordered(list) && Slot(list, m.point) <= j < |list|
    ensures |list[j].point| <= |m.point|
  {
    var k := Slot(list, m.point);
    if k < j { assert Before(list[k], list[j]); }
  }

  lemma RemoveOrdered(list: seq<Mount>, i: nat)
    requires Ordered(list) && i < |list|
    ensures Ordered(RemoveAt(list, i))
  {
    var s := RemoveAt(list, i);
    assert forall j :: 0 <= j < |s| ==> s[j] == if j < i then list[j] else list[j + 1];
  }

  lemma ReferOrdered(list: seq<Mount>, i: nat, delta: int)
    requires Ordered(list) && i < |list|
    ensures Ordered(Refer(list, i, delta))
  {
    var s := Refer(list, i, delta);
    forall a, b | 0 <= a < b < |s| ensures Before(s[a], s[b]) {
      assert Before(list[a], list[b]);
    }
  }

  /** Unmounting the point just mounted gives the very list there was, and with it the resolution of every path. */
  lemma UmountUndoesMount(list: seq<Mount>, m: Mount)
    requires Ordered(list)
    ensures var s := Insert(list, m);
      var i := FirstAt(s, m.point);
      i < |s| && s[i] == m && RemoveAt(s, i) == list
  {
    var k, s := Slot(list, m.point), Insert(list, m);
    assert s[k] == m;
    var i := FirstAt(s, m.point);
    assert forall j :: 0 <= j < k ==> s[j] == list[j];
    assert i == k;
  }

  // ----- runs -----

  /** The list, the references given out and not yet released, and the number of the next mount. */
  datatype World = World(list: seq<Mount>, held: multiset<nat>, next: nat)

  /** `ok` is whether the filesystem's own mount operation succeeds. */
  datatype Event = Mounting(point: string, ok: bool) | Unmounting(point: string) | Looking(path: string) |
      Releasing(id: nat)

  function IndexOf(list: seq<Mount>, id: nat): (i: nat)
    ensures i <= |list|
    ensures i < |list| ==> list[i].id == id
    ensures i == |list| ==> forall j :: 0 <= j < |list| ==> list[j].id != id
  {
    if list == [] || list[0].id == id then 0 else 1 + IndexOf(list[1..], id)
  }

  ghost predicate Enabled(w: World, e: Event) {
    match e
    case Looking(path) => HasRoot(w.list) && (path == "" || path[0] == '/')
    case Releasing(id) => id in w.held
    case _ => true
  }

  function Next(w: World, e: Event): World {
    match e
    case Mounting(point, ok) =>
      if !ok then w else World(Insert(w.list, Mount(w.next, point, 0)), w.held, w.next + 1)
    case Unmounting(point) =>
      var i := FirstAt(w.list, point);
      if i == |w.list| || w.list[i].refs != 0 then w else w.(list := RemoveAt(w.list, i))
    case Looking(path) =>
      var i := FirstCover(w.list, path);
      if i == |w.list| then w else w.(list := Refer(w.list, i, 1), held := w.held + multiset{w.list[i].id})
    case Releasing(id) =>
      var i := IndexOf(w.list, id);
      if i == |w.list| then w else w.(list := Refer(w.list, i, -1), held := w.held - multiset{id})
  }

  ghost predicate Distinct(list: seq<Mount>) {
    forall i, j :: 0 <= i < j < |list| ==> list[i].id != list[j].id
  }

  ghost predicate Counted(list: seq<Mount>, held: multiset<nat>, next: nat) {
    forall i :: 0 <= i < |list| ==> list[i].id < next && list[i].refs == held[list[i].id]
  }

  /** A mount somebody refers to is in the list. */
  ghost predicate AllMounted(list: seq<Mount>, held: multiset<nat>) {
    forall id :: id in held ==> IndexOf(list, id) < |list|
  }

  ghost predicate Inv(w: World) {
    Ordered(w.list) && Distinct(w.list) && Counted(w.list, w.held, w.next) && AllMounted(w.list, w.held)
  }

  lemma InsertKeeps(list: seq<Mount>, held: multiset<nat>, next: nat, point: string)
    requires Inv(World(list, held, next))
    ensures Inv(World(Insert(list, Mount(next, point, 0)), held, next + 1))
  {
    hide Ordered, IndexOf, Slot, Insert, Distinct, AllMounted;
    var m := Mount(next, point, 0);
    InsertOrdered(list, m);
    IndexedBelow(list, held, next);
    InsertDistinct(list, m);
    InsertMounted(list, held, m);
    InsertCounted(list, held, next, m);
  }

  lemma IndexedBelow(list: seq<Mount>, held: multiset<nat>, next: nat)
    requires Counted(list, held, next) && AllMounted(list, held)
    ensures next !in held
  {
    assert IndexOf(list, next) == |list|;
  }

  /** The new list holds the new mount and the old ones in their order. */
  lemma InsertAt(list: seq<Mount>, m: Mount)
    ensures var k, s := Slot(list, m.point), Insert(list, m);
      && |s| == |list| + 1 && s[k] == m
      && forall i :: 0 <= i < |s| && i != k ==> s[i] == list[if i < k then i else i - 1]
  {
  }

  lemma InsertDistinct(list: seq<Mount>, m: Mount)
    requires Distinct(list) && forall i :: 0 <= i < |list| ==> list[i].id < m.id
    ensures Distinct(Insert(list, m))
  {
    hide Insert;
    InsertAt(list, m);
  }

  lemma InsertCounted(list: seq<Mount>, held: multiset<nat>, next: nat, m: Mount)
    requires Counted(list, held, next) && m.id == next && m.refs == held[next]
    ensures Counted(Insert(list, m), held, next + 1)
  {
    hide Insert;
    InsertAt(list, m);
  }

  lemma InsertMounted(list: seq<Mount>, held: multiset<nat>, m: Mount)
    requires AllMounted(list, held)
    ensures AllMounted(Insert(list, m), held)
  {
    var k, s := Slot(list, m.point), Insert(list, m);
    InsertAt(list, m);
    hide Insert;
    forall id | id in held ensures IndexOf(s, id) < |s| {
      var i := IndexOf(list, id);
      var j := if i < k then i else i + 1;
      assert s[j].id == id;
    }
  }

  lemma RemoveKeeps(list: seq<Mount>, held: multiset<nat>, next: nat, i: nat)
    requires Inv(World(list, held, next)) && i < |list| && list[i].refs == 0
    ensures Inv(World(RemoveAt(list, i), held, next))
  {
    hide Ordered, IndexOf, AllMounted;
    var s := RemoveAt(list, i);
    RemoveOrdered(list, i);
    assert forall j :: 0 <= j < |s| ==> s[j] == if j < i then list[j] else list[j + 1];
    assert list[i].id !in held;
    RemoveMounted(list, held, i);
  }

  lemma RemoveMounted(list: seq<Mount>, held: multiset<nat>, i: nat)
    requires AllMounted(list, held) && i < |list| && list[i].id !in held
    ensures AllMounted(RemoveAt(list, i), held)
  {
    var s := RemoveAt(list, i);
    forall id | id in held ensures IndexOf(s, id) < |s| {
      var j := IndexOf(list, id);
      var k := if j < i then j else j - 1;
      assert s[k].id == id;
    }
  }

  /** Only the count of one mount changes. */
  lemma ReferAt(list: seq<Mount>, i: nat, delta: int)
    requires i < |list|
    ensures var s := Refer(list, i, delta);
      && |s| == |list| && s[i] == list[i].(refs := list[i].refs + delta)
      && forall j :: 0 <= j < |s| && j != i ==> s[j] == list[j]
  {
  }

  lemma ReferDistinct(list: seq<Mount>, i: nat, delta: int)
    requires Distinct(list) && i < |list|
    ensures Distinct(Refer(list, i, delta))
  {
    hide Refer;
    ReferAt(list, i, delta);
    var s := Refer(list, i, delta);
    forall a, b | 0 <= a < b < |s| ensures s[a].id != s[b].id {
      assert list[a].id != list[b].id;
    }
  }

  lemma ReferCounted(list: seq<Mount>, held: multiset<nat>, next: nat, i: nat, delta: int, holds: multiset<nat>)
    requires Distinct(list) && Counted(list, held, next) && i < |list|
    requires holds[list[i].id] == held[list[i].id] + delta
    requires forall id :: id != list[i].id ==> holds[id] == held[id]
    ensures Counted(Refer(list, i, delta), holds, next)
  {
    hide Refer;
    ReferAt(list, i, delta);
    var s := Refer(list, i, delta);
    forall j | 0 <= j < |s| ensures s[j].id < next && s[j].refs == holds[s[j].id] {
      assert list[j].id < next && list[j].refs == held[list[j].id];
    }
  }

  lemma ReferMounted(list: seq<Mount>, held: multiset<nat>, i: nat, delta: int, holds: multiset<nat>)
    requires AllMounted(list, held) && i < |list|
    requires forall id :: id != list[i].id ==> holds[id] == held[id]
    ensures AllMounted(Refer(list, i, delta), holds)
  {
    hide Refer;
    ReferAt(list, i, delta);
    var s := Refer(list, i, delta);
    forall id | id in holds ensures IndexOf(s, id) < |s| {
      var j := if id == list[i].id then i else IndexOf(list, id);
      assert s[j].id == id;
    }
  }

  lemma ReferKeeps(list: seq<Mount>, held: multiset<nat>, next: nat, i: nat, delta: int, holds: multiset<nat>)
    requires Inv(World(list, held, next)) && i < |list|
    requires holds[list[i].id] == held[list[i].id] + delta
    requires forall id :: id != list[i].id ==> holds[id] == held[id]
    ensures Inv(World(Refer(list, i, delta), holds, next))
  {
    hide Ordered, Distinct, Counted, AllMounted, Refer, IndexOf;
    ReferOrdered(list, i, delta);
    ReferDistinct(list, i, delta);
    ReferCounted(list, held, next, i, delta, holds);
    ReferMounted(list, held, i, delta, holds);
  }

  lemma NextKeepsInv(w: World, e: Event)
    requires Inv(w) && Enabled(w, e)
    ensures Inv(Next(w, e))
  {
    hide Inv, Insert, RemoveAt, Refer;
    match e
    case Mounting(point, ok) =>
      InsertKeeps(w.list, w.held, w.next, point);
    case Unmounting(point) =>
      var i := FirstAt(w.list, point);
      if i < |w.list| && w.list[i].refs == 0 { RemoveKeeps(w.list, w.held, w.next, i); }
    case Looking(path) =>
      var i := FirstCover(w.list, path);
      if i < |w.list| { ReferKeeps(w.list, w.held, w.next, i, 1, w.held + multiset{w.list[i].id}); }
    case Releasing(id) =>
      var i := IndexOf(w.list, id);
      if i < |w.list| { ReferKeeps(w.list, w.held, w.next, i, -1, w.held - multiset{id}); }
  }

  ghost predicate IsRun(w: World, es: seq<Event>)
    decreases |es|
  {
    es == [] || (Enabled(w, es[0]) && IsRun(Next(w, es[0]), es[1..]))
  }

  function After(w: World, es: seq<Event>): World
    decreases |es|
  {
    if es == [] then w else After(Next(w, es[0]), es[1..])
  }

  /** In every run the list stays ordered, every reference is counted, and no mount in use goes away. */
  lemma {:induction false} RunKeepsInv(w: World, es: seq<Event>)
    requires Inv(w) && IsRun(w, es)
    ensures Inv(After(w, es))
    decreases |es|
  {
    hide Inv;
    if es != [] {
      NextKeepsInv(w, es[0]);
      RunKeepsInv(Next(w, es[0]), es[1..]);
    }
  }

  /** After any run from the empty list that left a root mounted, a lookup gives the best mount. */
  lemma RunResolves(es: seq<Event>, path: string)
    requires IsRun(World([], multiset{}, 0), es)
    requires HasRoot(After(World([], multiset{}, 0), es).list)
    requires path == "" || path[0] == '/'
    ensures var list := After(World([], multiset{}, 0), es).list;
      FirstCover(list, path) < |list| && IsBest(list, path, list[FirstCover(list, path)])
  {
    RunKeepsInv(World([], multiset{}, 0), es);
    FindIsBest(After(World([], multiset{}, 0), es).list, path);
  }

  /** How many of the steps are successful mounts, lookups and releases. */
  function Made(es: seq<Event>): nat {
    if es == [] then 0 else (if es[0].Mounting? && es[0].ok then 1 else 0) + Made(es[1..])
  }

  function Lookups(es: seq<Event>): nat {
    if es == [] then 0 else (if es[0].Looking? then 1 else 0) + Lookups(es[1..])
  }

  function Releases(es: seq<Event>): nat {
    if es == [] then 0 else (if es[0].Releasing? then 1 else 0) + Releases(es[1..])
  }

  lemma StepBalances(w: World, e: Event)
    requires Inv(w) && Enabled(w, e)
    ensures var t := Next(w, e);
      && |t.held| == |w.held| + (if e.Looking? then 1 else if e.Releasing? then -1 else 0)
      && t.next == w.next + if e.Mounting? && e.ok then 1 else 0
  {
    hide Ordered, IndexOf, FirstCover, FirstAt, Insert, Refer;
    if e.Looking? { FindIsBest(w.list, e.path); }
  }

  /** Every lookup of a run takes one reference and every release gives one back; every mount gets a new number. */
  lemma {:induction false} RunBalances(w: World, es: seq<Event>)
    requires Inv(w) && IsRun(w, es)
    ensures |After(w, es).held| + Releases(es) == |w.held| + Lookups(es)
    ensures After(w, es).next == w.next + Made(es)
    decreases |es|
  {
    hide Inv, Next;
    if es != [] {
      NextKeepsInv(w, es[0]);
      StepBalances(w, es[0]);
      RunBalances(Next(w, es[0]), es[1..]);
    }
  }

  /** After a run that released as often as it looked up, every mount can be unmounted. */
  lemma ReleasedAll(es: seq<Event>)
    requires IsRun(World([], multiset{}, 0), es) && Lookups(es) == Releases(es)
    ensures forall m :: m in After(World([], multiset{}, 0), es).list ==> m.refs == 0
  {
    hide IsRun, After, Lookups, Releases, Made;
    RunKeepsInv(World([], multiset{}, 0), es);
    RunBalances(World([], multiset{}, 0), es);
  }

  /** As steps: a mount followed by an unmount of its point leaves the list, and every lookup, as it was. */
  lemma MountThenUmount(w: World, point: string)
    requires Inv(w)
    ensures Next(Next(w, Mounting(point, true)), Unmounting(point)).list == w.list
  {
    UmountUndoesMount(w.list, Mount(w.next, point, 0));
  }

  // ----- what each step does -----

  /** The mount most recently made on a point. */
  ghost predicate IsNewest(list: seq<Mount>, point: string, m: Mount) {
    m in list && m.point == point && forall o :: o in list && o.point == point ==> o.id <= m.id
  }

  lemma FirstIsNewest(list: seq<Mount>, point: string)
    requires Ordered(list)
    ensures var i := FirstAt(list, point);
      if i < |list| then IsNewest(list, point, list[i]) else forall m :: m in list ==> m.point != point
  {
    hide FirstAt;
    var i := FirstAt(list, point);
    if i < |list| {
      forall o | o in list && o.point == point ensures o.id <= list[i].id {
        var j :| 0 <= j < |list| && list[j] == o;
        assert i < j ==> Before(list[i], list[j]);
      }
    }
  }

  /** An unmount takes exactly the newest mount of the point away, if nobody refers to it, and else does nothing. */
  lemma UmountRemoves(w: World, point: string)
    requires Inv(w)
    ensures forall m :: IsNewest(w.list, point, m) ==>
      var t := Next(w, Unmounting(point));
      && t.held == w.held && t.next == w.next
      && (m.refs == 0 ==> |t.list| == |w.list| - 1 && forall o :: o in t.list <==> o in w.list && o != m)
      && (m.refs != 0 ==> t == w)
    ensures (forall m :: m in w.list ==> m.point != point) ==> Next(w, Unmounting(point)) == w
  {
    hide FirstAt, IndexOf;
    var i := FirstAt(w.list, point);
    FirstIsNewest(w.list, point);
    if i < |w.list| {
      forall m | IsNewest(w.list, point, m) ensures m == w.list[i] {
        NewestIsOne(w, point, m, w.list[i]);
      }
      if w.list[i].refs == 0 { RemovedOne(w.list, i); }
    }
  }

  lemma NewestIsOne(w: World, point: string, a: Mount, b: Mount)
    requires Inv(w) && IsNewest(w.list, point, a) && IsNewest(w.list, point, b)
    ensures a == b
  {
    hide IndexOf;
    var i :| 0 <= i < |w.list| && w.list[i] == a;
    var j :| 0 <= j < |w.list| && w.list[j] == b;
    assert a.id == b.id;
  }

  lemma NewestIsFirst(w: World, point: string)
    requires Inv(w)
    ensures forall m :: IsNewest(w.list, point, m) ==>
      FirstAt(w.list, point) < |w.list| && m == w.list[FirstAt(w.list, point)]
  {
    hide IndexOf, FirstAt;
    FirstIsNewest(w.list, point);
    forall m | IsNewest(w.list, point, m)
      ensures FirstAt(w.list, point) < |w.list| && m == w.list[FirstAt(w.list, point)]
    {
      NewestIsOne(w, point, m, w.list[FirstAt(w.list, point)]);
    }
  }

  lemma RemovedOne(list: seq<Mount>, i: nat)
    requires Distinct(list) && i < |list|
    ensures forall o :: o in RemoveAt(list, i) <==> o in list && o != list[i]
  {
    var s := RemoveAt(list, i);
    assert forall j :: 0 <= j < |s| ==> s[j] == if j < i then list[j] else list[j + 1];
    forall o | o in list && o != list[i] ensures o in s {
      var j :| 0 <= j < |list| && list[j] == o;
      assert o == s[if j < i then j else j - 1];
    }
  }

  /** A mount adds one mount, the newest on its point, that nobody refers to, and changes no other. */
  lemma MountAdds(w: World, point: string)
    requires Inv(w)
    ensures var t, m := Next(w, Mounting(point, true)), Mount(w.next, point, 0);
      && IsNewest(t.list, point, m) && |t.list| == |w.list| + 1
      && (forall o :: o in t.list <==> o in w.list || o == m)
      && t.held == w.held
    ensures Next(w, Mounting(point, false)) == w
  {
    hide Inv, Insert;
    var m := Mount(w.next, point, 0);
    InsertMembers(w.list, m);
    assert forall o :: o in w.list ==> o.id < w.next by { OlderIds(w); }
  }

  lemma OlderIds(w: World)
    requires Inv(w)
    ensures forall o :: o in w.list ==> o.id < w.next
  {
    hide IndexOf;
  }

  lemma InsertMembers(list: seq<Mount>, m: Mount)
    ensures |Insert(list, m)| == |list| + 1
    ensures forall o :: o in Insert(list, m) <==> o in list || o == m
  {
    hide Slot, Insert;
    var s, k := Insert(list, m), Slot(list, m.point);
    InsertAt(list, m);
    forall o | o in list ensures o in s {
      var i :| 0 <= i < |list| && list[i] == o;
      assert o == s[if i < k then i else i + 1];
    }
    forall o | o in s ensures o in list || o == m {
      var i :| 0 <= i < |s| && s[i] == o;
    }
  }

  /** A lookup refers once more to the best mount; releasing that reference puts everything back. */
  lemma LookThenRelease(w: World, path: string) returns (m: Mount)
    requires Inv(w) && Enabled(w, Looking(path))
    ensures IsBest(w.list, path, m)
    ensures var t := Next(w, Looking(path));
      && t.held == w.held + multiset{m.id} && t.next == w.next && m.(refs := m.refs + 1) in t.list
      && Enabled(t, Releasing(m.id)) && Next(t, Releasing(m.id)) == w
  {
    hide FirstCover, IndexOf;
    var i := FirstCover(w.list, path);
    FindIsBest(w.list, path);
    m := w.list[i];
    var t := Next(w, Looking(path));
    assert t.list[i] == m.(refs := m.refs + 1);
    var j := IndexOf(t.list, m.id);
    assert i == j by { SameId(w.list, t.list, i, j); }
    assert Refer(t.list, i, -1) == w.list;
    assert w.held + multiset{m.id} - multiset{m.id} == w.held;
  }

  lemma SameId(list: seq<Mount>, more: seq<Mount>, i: nat, j: nat)
    requires Distinct(list) && i < |list| && more == Refer(list, i, 1) && j == IndexOf(more, list[i].id)
    ensures i == j
  {
    hide IndexOf;
    assert more[i].id == list[i].id;
    assert j < |more| ==> more[j].id == list[j].id;
  }

  // ----- the code -----

  class MountTable {
    var list: seq<Mount>
    var next: nat
    ghost var held: multiset<nat>

    ghost function Snapshot(): World
      reads this
    {
      World(list, held, next)
    }

    ghost predicate Valid()
      reads this
    {
      Inv(Snapshot())
    }

    constructor ()
      ensures Valid() && Snapshot() == World([], multiset{}, 0)
    {
      list, next, held := [], 0, multiset{};
    }

    /** mount_find: take a reference to the mount a path is on. */
    method Find(path: string) returns (id: nat, point: string)
      requires Valid() && Enabled(Snapshot(), Looking(path))
      modifies this
      ensures Valid() && Snapshot() == Next(old(Snapshot()), Looking(path))
      ensures Covers(point, path)
      ensures exists m :: IsBest(old(list), path, m) && m.id == id && m.point == point
    {
      hide Inv, Refer, IsBest;
      assert Ordered(list) by { InvOrdered(Snapshot()); }
      NextKeepsInv(Snapshot(), Looking(path));
      FindIsBest(list, path);
      var i := 0;
      while !Covers(list[i].point, path)
        invariant 0 <= i <= FirstCover(list, path)
        decreases |list| - i
      {
        i := i + 1;
      }
      id, point := list[i].id, list[i].point;
      held := held + multiset{id};
      list := Refer(list, i, 1);
    }

    /** mount_release. */
    method Release(id: nat)
      requires Valid() && Enabled(Snapshot(), Releasing(id))
      modifies this
      ensures Valid() && Snapshot() == Next(old(Snapshot()), Releasing(id))
    {
      NextKeepsInv(Snapshot(), Releasing(id));
      var i := IndexOf(list, id);
      held := held - multiset{id};
      list := Refer(list, i, -1);
    }

    /** do_mount; `err` is what the filesystem's own mount operation answered. */
    method DoMount(point: string, err: int) returns (res: int)
      requires Valid()
      modifies this
      ensures Valid() && Snapshot() == Next(old(Snapshot()), Mounting(point, err >= 0))
      ensures res == if err < 0 then err else 0
    {
      hide Inv;
      NextKeepsInv(Snapshot(), Mounting(point, err >= 0));
      var m := Mount(next, point, 0);
      if err < 0 { return err; }
      var i := 0;
      while i < |list| && |list[i].point| > |point|
        invariant 0 <= i <= Slot(list, point)
      {
        i := i + 1;
      }
      list, next := list[..i] + [m] + list[i..], next + 1;
      return 0;
    }

    /** do_umount and mount_remove. */
    method DoUmount(point: string) returns (res: int)
      requires Valid()
      modifies this
      ensures Valid() && Snapshot() == Next(old(Snapshot()), Unmounting(point))
      ensures res == EINVAL <==> forall m :: m in old(list) ==> m.point != point
      ensures forall m :: IsNewest(old(list), point, m) ==>
        if m.refs == 0 then res == 0 && forall o :: o in list <==> o in old(list) && o != m
        else res == EBUSY && list == old(list)
    {
      hide Inv, IsNewest;
      NextKeepsInv(Snapshot(), Unmounting(point));
      UmountRemoves(Snapshot(), point);
      NewestIsFirst(Snapshot(), point);
      var i := 0;
      while i < |list| && list[i].point != point
        invariant 0 <= i <= FirstAt(list, point)
      {
        i := i + 1;
      }
      if i == |list| { return EINVAL; }
      assert list[i] in list;
      if list[i].refs != 0 { return EBUSY; }
      list := list[..i] + list[i + 1..];
      return 0;
    }

    /** contains_mount_point: is something mounted at the path or below it? */
    method ContainsMountPoint(path: string) returns (found: bool)
      ensures found <==> exists m :: m in list && Covers(path, m.point)
    {
      var i := 0;
      while i < |list|
        invariant 0 <= i <= |list|
        invariant forall j :: 0 <= j < i ==> !Covers(path, list[j].point)
      {
        if Covers(path, list[i].point) { assert list[i] in list; return true; }
        i := i + 1;
      }
      return false;
    }

    /** find_mount_and_trim_path: the mount of the path in the buffer, and the path left in its place. */
    method FindAndTrim(path: array<char>) returns (id: nat, ghost point: string)
      requires Valid() && '\0' in path[..] && Enabled(Snapshot(), Looking(Text(path[..])))
      modifies this, path
      ensures Valid() && Snapshot() == Next(old(Snapshot()), Looking(old(Text(path[..]))))
      ensures exists m :: IsBest(old(list), old(Text(path[..])), m) && m.id == id && m.point == point
      ensures '\0' in path[..] && point + Text(path[..]) == old(Text(path[..]))
    {
      hide Inv, IsBest, Covers;
      var text := ReadText(path);
      var p;
      id, p := Find(text);
      point := p;
      assert |p| <= |text| && p == text[..|p|] by { CoversTake(p, text); }
      Trim(path, |p|);
      assert text == text[..|p|] + text[|p|..];
    }
  }

  lemma InvOrdered(w: World)
    requires Inv(w)
    ensures Ordered(w.list)
  {
  }

  lemma CoversTake(point: string, path: string)
    requires Covers(point, path)
    ensures |point| <= |path| && point == path[..|point|]
  {
  }

  // ----- text in a buffer -----

  /** The characters before the first NUL. */
  ghost function Text(buf: seq<char>): (s: string)
    requires '\0' in buf
    ensures |s| < |buf| && s == buf[..|s|] && buf[|s|] == '\0' && '\0' !in s
  {
    if buf[0] == '\0' then "" else [buf[0]] + Text(buf[1..])
  }

  lemma TextIs(buf: seq<char>, n: nat)
    requires n < |buf| && buf[n] == '\0' && '\0' !in buf[..n]
    ensures '\0' in buf && Text(buf) == buf[..n]
  {
    var t := Text(buf);
    forall k | 0 <= k < n ensures buf[k] != '\0' { assert buf[k] == buf[..n][k]; }
    forall k | 0 <= k < |t| ensures buf[k] != '\0' { assert buf[k] == t[k]; }
  }

  method ReadText(buf: array<char>) returns (s: string)
    requires '\0' in buf[..]
    ensures s == Text(buf[..])
  {
    var n := 0;
    ghost var t := Text(buf[..]);
    while buf[n] != '\0'
      invariant 0 <= n <= |t|
      decreases |t| - n
    {
      n := n + 1;
    }
    s := buf[..n];
  }

  /** The copying loop of find_mount_and_trim_path: drop the first `n` characters in place. */
  method Trim(path: array<char>, n: nat)
    requires '\0' in path[..] && n <= |Text(path[..])|
    modifies path
    ensures '\0' in path[..] && Text(path[..]) == old(Text(path[..]))[n..]
  {
    ghost var was := path[..];
    ghost var text := Text(was);
    var dst, src := 0, n;
    while path[src] != '\0'
      invariant n <= src <= |text| && dst == src - n
      invariant path[..dst] == was[n..src]
      invariant forall k :: src <= k < path.Length ==> path[k] == was[k]
      decreases |text| - src
    {
      path[dst] := path[src];
      dst, src := dst + 1, src + 1;
    }
    assert src == |text|;
    path[dst] := '\0';
    assert path[..dst] == text[n..];
    TextIs(path[..], dst);
  }
}
