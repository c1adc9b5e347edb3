/** The records, hash chains and reference counts of kernel/futex.c, refining the protocol in `Futex`. */
module FutexTable {
  import opened Futex
  import PowersOfTwo

  /** struct futex; its address in memory is the number it has in `Table.futexes`. */
  datatype Record = Record(key: Key, refcount: nat, queue: seq<int>)

  function Hash(k: Key): nat {
    PowersOfTwo.Xor(k.addr, k.mem) % 4096
  }

  /** The threads in futex_wait whose `futex` pointer is `f`. */
  ghost function Pointing(waits: map<int, int>, f: int): set<int> {
    set w | w in waits && waits[w] == f
  }

  lemma PointingAdd(waits: map<int, int>, w: int, f: int, g: int)
    requires w !in waits
    ensures |Pointing(waits[w := f], g)| == |Pointing(waits, g)| + if g == f then 1 else 0
  {
    var more := Pointing(waits[w := f], g);
    assert more == if g == f then Pointing(waits, g) + {w} else Pointing(waits, g);
  }

  lemma PointingRemove(waits: map<int, int>, w: int, g: int)
    requires w in waits
    ensures |Pointing(waits - {w}, g)| == |Pointing(waits, g)| - if g == waits[w] then 1 else 0
  {
    var less := waits - {w};
    PointingAdd(less, w, waits[w], g);
    assert less[w := waits[w]] == waits;
  }

  lemma PointingMove(waits: map<int, int>, w: int, f: int, g: int)
    requires w in waits && waits[w] != f
    ensures |Pointing(waits[w := f], g)| ==
            |Pointing(waits, g)| + (if g == f then 1 else 0) - (if g == waits[w] then 1 else 0)
  {
    PointingRemove(waits, w, g);
    PointingAdd(waits - {w}, w, f, g);
    assert (waits - {w})[w := f] == waits[w := f];
  }

  function Chain(buckets: map<nat, seq<int>>, h: nat): seq<int> {
    if h in buckets then buckets[h] else []
  }

  /** Every count is the number of threads pointing at the record plus the references held by the running call. */
  ghost predicate Counted(futexes: map<int, Record>, waits: map<int, int>, held: multiset<int>) {
    && (forall f :: f in futexes ==> futexes[f].refcount > 0 && futexes[f].refcount == |Pointing(waits, f)| + held[f])
    && (forall f :: f in held ==> f in futexes)
    && (forall w :: w in waits ==> waits[w] in futexes)
  }

  /** The chain of bucket `h` holds the records that hash there, each once, and nothing else. */
  ghost predicate ChainOk(futexes: map<int, Record>, chain: seq<int>, h: nat) {
    NoRepeats(chain) && forall f :: f in chain <==> f in futexes && Hash(futexes[f].key) == h
  }

  ghost predicate UniqueKeys(futexes: map<int, Record>) {
    forall f, g :: f in futexes && g in futexes && futexes[f].key == futexes[g].key ==> f == g
  }

  /** At most one record per futex, found through its hash chain. */
  ghost predicate Hashed(futexes: map<int, Record>, buckets: map<nat, seq<int>>, nextId: int) {
    && UniqueKeys(futexes)
    && (forall f :: f in futexes ==> f < nextId)
    && (forall h :: ChainOk(futexes, Chain(buckets, h), h))
  }

  ghost predicate HasRecord(futexes: map<int, Record>, k: Key) {
    exists f :: f in futexes && futexes[f].key == k
  }

  /** The records hold the protocol's queues, and the threads stand where the protocol says. */
  ghost predicate Refines(futexes: map<int, Record>, waits: map<int, int>, world: World) {
    && world.sleepers.Keys == waits.Keys
    && (forall w :: w in waits ==> waits[w] in futexes && world.sleepers[w].key == futexes[waits[w]].key)
    && (forall f :: f in futexes ==> world.Queue(futexes[f].key) == futexes[f].queue)
    && (forall k :: world.Queue(k) != [] ==> HasRecord(futexes, k))
    && WellFormed(world)
  }

  /** A search of one chain is a search of the whole table. */
  lemma ChainSearch(futexes: map<int, Record>, buckets: map<nat, seq<int>>, nextId: int, k: Key)
    requires Hashed(futexes, buckets, nextId)
    ensures forall f :: f in Chain(buckets, Hash(k)) ==> f in futexes
    ensures (forall f :: f in Chain(buckets, Hash(k)) && f in futexes ==> futexes[f].key != k) ==>
            !HasRecord(futexes, k)
  {
    hide Hash;
    assert ChainOk(futexes, Chain(buckets, Hash(k)), Hash(k));
  }

  // ----- the four ways get and put change the table -----

  lemma ChangeCount(futexes: map<int, Record>, buckets: map<nat, seq<int>>, nextId: int, waits: map<int, int>,
      world: World, f: int, count: nat)
    requires f in futexes && Hashed(futexes, buckets, nextId) && Refines(futexes, waits, world)
    ensures var fs := futexes[f := futexes[f].(refcount := count)];
            Hashed(fs, buckets, nextId) && Refines(fs, waits, world)
  {
    var fs := futexes[f := futexes[f].(refcount := count)];
    KeepsHashed(futexes, fs, buckets, nextId);
  }

  lemma CreateHashed(futexes: map<int, Record>, buckets: map<nat, seq<int>>, nextId: int, k: Key)
    requires Hashed(futexes, buckets, nextId) && !HasRecord(futexes, k)
    ensures Hashed(futexes[nextId := Record(k, 1, [])], buckets[Hash(k) := [nextId] + Chain(buckets, Hash(k))],
        nextId + 1)
    ensures nextId !in futexes
  {
    hide Hash;
    var chain := Chain(buckets, Hash(k));
    var fs, bs := futexes[nextId := Record(k, 1, [])], buckets[Hash(k) := [nextId] + chain];
    assert nextId !in futexes;
    forall f, g | f in fs && g in fs && fs[f].key == fs[g].key ensures f == g {
      assert f in futexes && g == nextId ==> HasRecord(futexes, k);
      assert g in futexes && f == nextId ==> HasRecord(futexes, k);
    }
    forall h ensures ChainOk(fs, Chain(bs, h), h) {
      assert ChainOk(futexes, Chain(buckets, h), h);
      if h == Hash(k) {
        JoinNoRepeats([nextId], chain);
      }
    }
  }

  lemma CreateRefines(futexes: map<int, Record>, waits: map<int, int>, world: World, f: int, k: Key)
    requires Refines(futexes, waits, world) && !HasRecord(futexes, k) && f !in futexes
    ensures Refines(futexes[f := Record(k, 1, [])], waits, world)
  {
    var fs := futexes[f := Record(k, 1, [])];
    forall other | world.Queue(other) != [] ensures HasRecord(fs, other) {
      var g :| g in futexes && futexes[g].key == other;
      assert g in fs && fs[g].key == other;
    }
  }

  lemma CreateCounted(futexes: map<int, Record>, waits: map<int, int>, held: multiset<int>, f: int, k: Key)
    requires Counted(futexes, waits, held) && f !in futexes
    ensures Counted(futexes[f := Record(k, 1, [])], waits, held + multiset{f})
  {
    assert forall w :: w in waits ==> waits[w] != f;
    assert Pointing(waits, f) == {};
  }

  lemma RetainCounted(futexes: map<int, Record>, waits: map<int, int>, held: multiset<int>, f: int)
    requires Counted(futexes, waits, held) && f in futexes
    ensures Counted(futexes[f := futexes[f].(refcount := futexes[f].refcount + 1)], waits, held + multiset{f})
  {
  }

  lemma ReleaseCounted(futexes: map<int, Record>, waits: map<int, int>, held: multiset<int>, f: int)
    requires Counted(futexes, waits, held) && f in held
    ensures f in futexes && futexes[f].refcount > 0
    ensures futexes[f].refcount > 1 ==>
            Counted(futexes[f := futexes[f].(refcount := futexes[f].refcount - 1)], waits, held - multiset{f})
    ensures futexes[f].refcount == 1 && (forall w :: w in waits ==> waits[w] != f) ==>
            Counted(futexes - {f}, waits, held - multiset{f})
  {
  }

  /** Nobody points at a record whose last reference is the running call's, so nobody is queued on it. */
  lemma LastReferenceQueueEmpty(futexes: map<int, Record>, waits: map<int, int>, held: multiset<int>, world: World,
      buckets: map<nat, seq<int>>, nextId: int, f: int)
    requires Counted(futexes, waits, held) && Refines(futexes, waits, world)
    requires f in held && futexes[f].refcount == 1 && Hashed(futexes, buckets, nextId)
    ensures futexes[f].queue == []
    ensures forall w :: w in waits ==> waits[w] != f
  {
    assert |Pointing(waits, f)| == 0;
    assert Pointing(waits, f) == {};
    forall w | w in waits ensures waits[w] != f {
      assert w !in Pointing(waits, f);
    }
    QueuedPointHere(futexes, waits, world, f);
  }

  lemma QueuedPointHere(futexes: map<int, Record>, waits: map<int, int>, world: World, f: int)
    requires Refines(futexes, waits, world) && f in futexes
    requires UniqueKeys(futexes)
    ensures forall w :: w in futexes[f].queue ==> w in waits && waits[w] == f
    ensures futexes[f].queue != [] ==> exists w :: w in waits && waits[w] == f
  {
    assert QueueOk(world, futexes[f].key);
    if futexes[f].queue != [] {
      var w := futexes[f].queue[0];
      assert w in futexes[f].queue;
      assert w in waits && waits[w] == f;
    }
  }

  lemma DestroyHashed(futexes: map<int, Record>, buckets: map<nat, seq<int>>, nextId: int, f: int)
    requires Hashed(futexes, buckets, nextId) && f in futexes
    ensures var h := Hash(futexes[f].key); Hashed(futexes - {f}, buckets[h := Without(Chain(buckets, h), f)], nextId)
  {
    hide Hash, NoRepeats;
    var here := Hash(futexes[f].key);
    var fs, bs := futexes - {f}, buckets[here := Without(Chain(buckets, here), f)];
    forall h ensures ChainOk(fs, Chain(bs, h), h) {
      assert ChainOk(futexes, Chain(buckets, h), h);
      if h == here {
        WithoutMembers(Chain(buckets, h), f);
      }
    }
  }

  lemma DestroyRefines(futexes: map<int, Record>, waits: map<int, int>, world: World, f: int)
    requires Refines(futexes, waits, world) && f in futexes && futexes[f].queue == []
    requires forall w :: w in waits ==> waits[w] != f
    ensures Refines(futexes - {f}, waits, world)
  {
    var fs := futexes - {f};
    forall k | world.Queue(k) != [] ensures HasRecord(fs, k) {
      var g :| g in futexes && futexes[g].key == k;
      assert g in fs && fs[g].key == k;
    }
  }

  // ----- the steps that move threads -----

  ghost predicate SameKeys(futexes: map<int, Record>, fs: map<int, Record>) {
    fs.Keys == futexes.Keys && forall f :: f in fs ==> fs[f].key == futexes[f].key
  }

  lemma KeepsHashed(futexes: map<int, Record>, fs: map<int, Record>, buckets: map<nat, seq<int>>, nextId: int)
    requires Hashed(futexes, buckets, nextId) && SameKeys(futexes, fs)
    ensures Hashed(fs, buckets, nextId)
    ensures forall k :: HasRecord(futexes, k) ==> HasRecord(fs, k)
  {
    hide Hash;
    forall h ensures ChainOk(fs, Chain(buckets, h), h) {
      assert ChainOk(futexes, Chain(buckets, h), h);
    }
    forall k | HasRecord(futexes, k) ensures HasRecord(fs, k) {
      var g :| g in futexes && futexes[g].key == k;
      assert g in fs && fs[g].key == k;
    }
  }

  /** The caller's reference becomes the new sleeper's. */
  lemma EnqueueStep(futexes: map<int, Record>, buckets: map<nat, seq<int>>, nextId: int, waits: map<int, int>,
      world: World, held: multiset<int>, w: int, val: int, f: int)
    requires Counted(futexes, waits, held) && Hashed(futexes, buckets, nextId) && Refines(futexes, waits, world)
    requires w !in waits && f in held && f in futexes
    requires futexes[f].key in world.memory && world.memory[futexes[f].key] == val
    ensures var fs := futexes[f := futexes[f].(queue := futexes[f].queue + [w])];
            && Counted(fs, waits[w := f], held - multiset{f}) && Hashed(fs, buckets, nextId)
            && Refines(fs, waits[w := f], Enqueue(world, w, futexes[f].key, val))
  {
    hide Hash;
    var k := futexes[f].key;
    var fs := futexes[f := futexes[f].(queue := futexes[f].queue + [w])];
    KeepsHashed(futexes, fs, buckets, nextId);
    NextKeepsWellFormed(world, DoWait(w, k, val));
    forall g ensures |Pointing(waits[w := f], g)| == |Pointing(waits, g)| + if g == f then 1 else 0 {
      PointingAdd(waits, w, f, g);
    }
    EnqueueRefines(futexes, waits, world, w, val, f);
  }

  lemma EnqueueRefines(futexes: map<int, Record>, waits: map<int, int>, world: World, w: int, val: int, f: int)
    requires Refines(futexes, waits, world) && w !in waits && f in futexes
    requires UniqueKeys(futexes)
    requires WellFormed(Enqueue(world, w, futexes[f].key, val))
    ensures Refines(futexes[f := futexes[f].(queue := futexes[f].queue + [w])], waits[w := f],
                    Enqueue(world, w, futexes[f].key, val))
  {
    var k := futexes[f].key;
    var fs, t := futexes[f := futexes[f].(queue := futexes[f].queue + [w])], Enqueue(world, w, k, val);
    forall other | t.Queue(other) != [] ensures HasRecord(fs, other) {
      if other == k {
        assert f in fs && fs[f].key == k;
      } else {
        assert HasRecord(futexes, other);
        var g :| g in futexes && futexes[g].key == other;
        assert g in fs && fs[g].key == other;
      }
    }
  }

  /** The sleeper's reference becomes the caller's. */
  lemma LeaveStep(futexes: map<int, Record>, buckets: map<nat, seq<int>>, nextId: int, waits: map<int, int>,
      world: World, held: multiset<int>, w: int)
    requires Counted(futexes, waits, held) && Hashed(futexes, buckets, nextId) && Refines(futexes, waits, world)
    requires w in waits
    ensures var f := waits[w];
            && f in futexes
            && var fs := futexes[f := futexes[f].(queue := Without(futexes[f].queue, w))];
            && Counted(fs, waits - {w}, held + multiset{f}) && Hashed(fs, buckets, nextId)
            && Refines(fs, waits - {w}, Leave(world, w))
  {
    hide Hash;
    var f := waits[w];
    var fs := futexes[f := futexes[f].(queue := Without(futexes[f].queue, w))];
    KeepsHashed(futexes, fs, buckets, nextId);
    NextKeepsWellFormed(world, DoLeave(w));
    forall g ensures |Pointing(waits - {w}, g)| == |Pointing(waits, g)| - if g == f then 1 else 0 {
      PointingRemove(waits, w, g);
    }
    LeaveRefines(futexes, waits, world, w);
  }

  lemma LeaveRefines(futexes: map<int, Record>, waits: map<int, int>, world: World, w: int)
    requires Refines(futexes, waits, world) && w in waits
    requires UniqueKeys(futexes)
    requires WellFormed(Leave(world, w))
    ensures var f := waits[w];
            Refines(futexes[f := futexes[f].(queue := Without(futexes[f].queue, w))], waits - {w}, Leave(world, w))
  {
    var f, t := waits[w], Leave(world, w);
    var fs := futexes[f := futexes[f].(queue := Without(futexes[f].queue, w))];
    forall k | t.Queue(k) != [] ensures HasRecord(fs, k) {
      assert HasRecord(futexes, k) by {
        assert k != world.sleepers[w].key ==> t.Queue(k) == world.Queue(k);
        assert futexes[f].key == world.sleepers[w].key;
      }
      var g :| g in futexes && futexes[g].key == k;
      assert g in fs && fs[g].key == k;
    }
  }

  lemma WakeOneRefines(futexes: map<int, Record>, waits: map<int, int>, s: World, f: int, i: nat)
    requires f in futexes && WellFormed(s) && i < |s.Queue(futexes[f].key)|
    requires Refines(futexes, waits, Wake(s, futexes[f].key, i).0)
    requires UniqueKeys(futexes)
    ensures futexes[f].queue == s.Queue(futexes[f].key)[i..]
    ensures Refines(futexes[f := futexes[f].(queue := futexes[f].queue[1..])], waits, Wake(s, futexes[f].key, i + 1).0)
  {
    var k := futexes[f].key;
    var t, u := Wake(s, k, i).0, Wake(s, k, i + 1).0;
    assert t.Queue(k) == s.Queue(k)[i..];
    var fs := futexes[f := futexes[f].(queue := futexes[f].queue[1..])];
    NextKeepsWellFormed(s, DoWake(k, i + 1));
    forall other | u.Queue(other) != [] ensures HasRecord(fs, other) {
      assert other != k ==> t.Queue(other) == u.Queue(other);
      assert HasRecord(futexes, other) by { assert f in futexes && futexes[f].key == k; }
      var g :| g in futexes && futexes[g].key == other;
      assert g in fs && fs[g].key == other;
    }
  }

  /** The head of f's queue, moved to the tail of f2's, or of its own, together with its reference. */
  function MoveOne(futexes: map<int, Record>, f: int, f2: int): map<int, Record>
    requires f in futexes && f2 in futexes && futexes[f].queue != [] && futexes[f].refcount > 0
  {
    var r := futexes[f];
    var rest := futexes[f := Record(r.key, r.refcount - 1, r.queue[1..])];
    rest[f2 := Record(rest[f2].key, rest[f2].refcount + 1, rest[f2].queue + [r.queue[0]])]
  }

  lemma MoveOneCounted(futexes: map<int, Record>, waits: map<int, int>, held: multiset<int>, f: int, f2: int)
    requires Counted(futexes, waits, held) && f in held && f2 in futexes && futexes[f].queue != []
    requires futexes[f].queue[0] in waits && waits[futexes[f].queue[0]] == f
    ensures futexes[f].refcount > 1
    ensures Counted(MoveOne(futexes, f, f2), waits[futexes[f].queue[0] := f2], held)
  {
    var w := futexes[f].queue[0];
    assert w in Pointing(waits, f);
    assert |Pointing(waits, f)| >= 1;
    if f == f2 {
      assert waits[w := f2] == waits;
      return;
    }
    forall g
      ensures |Pointing(waits[w := f2], g)| ==
              |Pointing(waits, g)| + (if g == f2 then 1 else 0) - (if g == f then 1 else 0)
    {
      PointingMove(waits, w, f2, g);
    }
  }

  lemma MoveOneRefines(futexes: map<int, Record>, waits: map<int, int>, s: World, f: int, f2: int, i: nat)
    requires f in futexes && f2 in futexes && UniqueKeys(futexes) && futexes[f].refcount > 0
    requires futexes[f].key != futexes[f2].key && WellFormed(s) && i < |s.Queue(futexes[f].key)|
    requires Refines(futexes, waits, MoveHead(s, futexes[f].key, i, futexes[f2].key))
    ensures futexes[f].queue == s.Queue(futexes[f].key)[i..]
    ensures futexes[f].queue[0] in waits && waits[futexes[f].queue[0]] == f
    ensures Refines(MoveOne(futexes, f, f2), waits[futexes[f].queue[0] := f2],
                    MoveHead(s, futexes[f].key, i + 1, futexes[f2].key))
  {
    hide Refines;
    var k, k2 := futexes[f].key, futexes[f2].key;
    var t, u := MoveHead(s, k, i, k2), MoveHead(s, k, i + 1, k2);
    MoveHeadShape(s, k, i, k2);
    MoveHeadShape(s, k, i + 1, k2);
    assert futexes[f].queue == t.Queue(k) by { QueuesAgree(futexes, waits, t, f); }
    assert futexes[f2].queue == t.Queue(k2) by { QueuesAgree(futexes, waits, t, f2); }
    var w := futexes[f].queue[0];
    assert w == s.Queue(k)[i] && w in futexes[f].queue;
    QueuedPointHere(futexes, waits, t, f);
    assert s.Queue(k)[..i + 1] == s.Queue(k)[..i] + [w];
    NextOrMove(s, k, i + 1, k2);
    MoveOneAgrees(futexes, waits, t, u, f, f2);
  }

  /** The same on one record: its queue turns by one place. */
  lemma TurnOneRefines(futexes: map<int, Record>, waits: map<int, int>, s: World, f: int, i: nat)
    requires f in futexes && UniqueKeys(futexes) && futexes[f].refcount > 0 && WellFormed(s)
    requires Refines(futexes, waits, MoveHead(s, futexes[f].key, i, futexes[f].key)) && futexes[f].queue != []
    ensures futexes[f].queue[0] in waits && waits[futexes[f].queue[0]] == f
    ensures Refines(MoveOne(futexes, f, f), waits[futexes[f].queue[0] := f],
                    MoveHead(s, futexes[f].key, i + 1, futexes[f].key))
  {
    hide Refines, MoveHead, WellFormed, UniqueKeys;
    var k, w := futexes[f].key, futexes[f].queue[0];
    var t, u := MoveHead(s, k, i, k), MoveHead(s, k, i + 1, k);
    QueuesAgree(futexes, waits, t, f);
    assert w in futexes[f].queue;
    QueuedPointHere(futexes, waits, t, f);
    assert waits[w := f] == waits;
    NextOrMove(s, k, i + 1, k);
    TurnShape(s, k, i);
    TurnAgrees(futexes, waits, t, u, f);
  }

  lemma TurnShape(s: World, k: Key, i: nat)
    ensures var t, u := MoveHead(s, k, i, k), MoveHead(s, k, i + 1, k);
            && (t.Queue(k) != [] ==> u.Queue(k) == t.Queue(k)[1..] + [t.Queue(k)[0]])
            && (forall other :: other != k ==> u.Queue(other) == t.Queue(other))
            && u.sleepers == t.sleepers
  {
  }

  lemma TurnAgrees(futexes: map<int, Record>, waits: map<int, int>, t: World, u: World, f: int)
    requires f in futexes && UniqueKeys(futexes) && futexes[f].refcount > 0 && futexes[f].queue != []
    requires Refines(futexes, waits, t) && WellFormed(u) && u.sleepers == t.sleepers
    requires u.Queue(futexes[f].key) == futexes[f].queue[1..] + [futexes[f].queue[0]]
    requires forall k :: k != futexes[f].key ==> u.Queue(k) == t.Queue(k)
    ensures Refines(MoveOne(futexes, f, f), waits, u)
  {
    hide WellFormed;
    var fs := MoveOne(futexes, f, f);
    forall k | u.Queue(k) != [] ensures HasRecord(fs, k) {
      if k == futexes[f].key {
        assert f in fs && fs[f].key == k;
      } else {
        var g :| g in futexes && futexes[g].key == k;
        assert g in fs && fs[g].key == k;
      }
    }
  }

  lemma QueuesAgree(futexes: map<int, Record>, waits: map<int, int>, world: World, f: int)
    requires Refines(futexes, waits, world) && f in futexes
    ensures futexes[f].queue == world.Queue(futexes[f].key)
  {
  }

  lemma NextOrMove(s: World, k: Key, n: nat, k2: Key)
    requires WellFormed(s) && (k == k2 || n <= |s.Queue(k)|)
    ensures WellFormed(MoveHead(s, k, n, k2))
  {
    forall x ensures QueueOk(MoveHead(s, k, n, k2), x) {
      MoveKeepsQueue(s, k, n, k2, x);
    }
  }

  /** One more thread moved in the protocol is one more thread moved in the records. */
  lemma MoveOneAgrees(futexes: map<int, Record>, waits: map<int, int>, t: World, u: World, f: int, f2: int)
    requires f in futexes && f2 in futexes && UniqueKeys(futexes) && futexes[f].key != futexes[f2].key
    requires futexes[f].refcount > 0 && futexes[f].queue != []
    requires futexes[f].queue[0] in waits && waits[futexes[f].queue[0]] == f
    requires Refines(futexes, waits, t) && WellFormed(u)
    requires u.Queue(futexes[f].key) == futexes[f].queue[1..]
    requires u.Queue(futexes[f2].key) == futexes[f2].queue + [futexes[f].queue[0]]
    requires forall k :: k != futexes[f].key && k != futexes[f2].key ==> u.Queue(k) == t.Queue(k)
    requires u.sleepers.Keys == t.sleepers.Keys
    requires forall w :: w in t.sleepers && w != futexes[f].queue[0] ==> u.sleepers[w].key == t.sleepers[w].key
    requires futexes[f].queue[0] in u.sleepers ==> u.sleepers[futexes[f].queue[0]].key == futexes[f2].key
    ensures Refines(MoveOne(futexes, f, f2), waits[futexes[f].queue[0] := f2], u)
  {
    var fs := MoveOne(futexes, f, f2);
    forall k | u.Queue(k) != [] ensures HasRecord(fs, k) {
      if k == futexes[f].key {
        assert f in fs && fs[f].key == k;
      } else if k == futexes[f2].key {
        assert f2 in fs && fs[f2].key == k;
      } else {
        var g :| g in futexes && futexes[g].key == k;
        assert g in fs && fs[g].key == k;
      }
    }
  }

  lemma InTable(futexes: map<int, Record>, buckets: map<nat, seq<int>>, nextId: int, waits: map<int, int>,
      held: multiset<int>, world: World, f: int)
    requires Counted(futexes, waits, held) && Hashed(futexes, buckets, nextId) && Refines(futexes, waits, world)
    requires f in held
    ensures f in futexes && futexes[f].refcount > 0 && futexes[f].queue == world.Queue(futexes[f].key)
    ensures WellFormed(world)
  {
  }

  lemma HasUniqueKeys(futexes: map<int, Record>, buckets: map<nat, seq<int>>, nextId: int)
    requires Hashed(futexes, buckets, nextId)
    ensures UniqueKeys(futexes)
  {
  }

  lemma WakeNone(futexes: map<int, Record>, waits: map<int, int>, s: World, k: Key)
    requires Refines(futexes, waits, s)
    ensures var t := Wake(s, k, 0).0;
            Refines(futexes, waits, t) && t.Queue(k) == s.Queue(k) && t.memory == s.memory
  {
    var t := Wake(s, k, 0).0;
    forall other ensures t.Queue(other) == s.Queue(other) && QueueOk(t, other) {
      assert QueueOk(s, other);
    }
  }

  lemma WakeEnough(s: World, k: Key, n: nat, max: nat)
    requires n <= |s.Queue(k)| && n <= max && (n < |s.Queue(k)| ==> n == max)
    ensures Wake(s, k, n).0 == Wake(s, k, max).0 && Wake(s, k, max).1 == n
    ensures Wake(s, k, n).0.memory == s.memory
  {
  }

  lemma ChangeQueue(futexes: map<int, Record>, buckets: map<nat, seq<int>>, nextId: int, waits: map<int, int>,
      held: multiset<int>, f: int, q: seq<int>)
    requires f in futexes && Hashed(futexes, buckets, nextId) && Counted(futexes, waits, held)
    ensures var fs := futexes[f := futexes[f].(queue := q)]; Hashed(fs, buckets, nextId) && Counted(fs, waits, held)
  {
    KeepsHashed(futexes, futexes[f := futexes[f].(queue := q)], buckets, nextId);
  }

  lemma MoveNone(futexes: map<int, Record>, waits: map<int, int>, s: World, k: Key, k2: Key)
    requires Refines(futexes, waits, s)
    ensures Refines(futexes, waits, MoveHead(s, k, 0, k2))
    ensures MoveHead(s, k, 0, k2).Queue(k) == s.Queue(k)
  {
    var t := MoveHead(s, k, 0, k2);
    NextOrMove(s, k, 0, k2);
    assert t.sleepers == s.sleepers;
    forall other ensures t.Queue(other) == s.Queue(other) {
    }
  }

  lemma MoveKeepsMemory(s: World, k: Key, n: nat, k2: Key)
    requires k == k2 || n <= |s.Queue(k)|
    ensures MoveHead(s, k, n, k2).memory == s.memory
  {
  }

  /** Where the requeue loop stands after `done` moves of a queue of `n`, with `left` in it. */
  predicate Remaining(n: nat, same: bool, done: nat, left: nat, more: bool) {
    if !same then done + left == n && (more <==> left > 0)
    else left == n && (more <==> n >= 2 || (n == 1 && done == 0)) && (n <= 1 ==> done <= n)
  }

  lemma RequeueOneRefines(futexes: map<int, Record>, waits: map<int, int>, s: World, f: int, f2: int, i: nat)
    requires f in futexes && f2 in futexes && UniqueKeys(futexes) && futexes[f].refcount > 0 && WellFormed(s)
    requires futexes[f].queue != [] && (futexes[f].key == futexes[f2].key || i < |s.Queue(futexes[f].key)|)
    requires Refines(futexes, waits, MoveHead(s, futexes[f].key, i, futexes[f2].key))
    ensures futexes[f].queue[0] in waits && waits[futexes[f].queue[0]] == f
    ensures Refines(MoveOne(futexes, f, f2), waits[futexes[f].queue[0] := f2],
                    MoveHead(s, futexes[f].key, i + 1, futexes[f2].key))
  {
    hide Refines;
    if futexes[f].key == futexes[f2].key {
      assert f == f2;
      TurnOneRefines(futexes, waits, s, f, i);
    } else {
      MoveOneRefines(futexes, waits, s, f, f2, i);
    }
  }

  /** One turn of the requeue loop, on the records, the chains and the counts. */
  lemma RequeueStep(futexes: map<int, Record>, buckets: map<nat, seq<int>>, nextId: int, waits: map<int, int>,
      s: World, f: int, f2: int, i: nat)
    requires Counted(futexes, waits, multiset{f, f2}) && Hashed(futexes, buckets, nextId) && WellFormed(s)
    requires f in futexes && f2 in futexes && futexes[f].queue != []
    requires futexes[f].key == futexes[f2].key || i < |s.Queue(futexes[f].key)|
    requires Refines(futexes, waits, MoveHead(s, futexes[f].key, i, futexes[f2].key))
    ensures futexes[f].refcount > 1
    ensures var fs, ws := MoveOne(futexes, f, f2), waits[futexes[f].queue[0] := f2];
            && Counted(fs, ws, multiset{f, f2}) && Hashed(fs, buckets, nextId)
            && Refines(fs, ws, MoveHead(s, futexes[f].key, i + 1, futexes[f2].key))
  {
    hide Hash, Counted, Hashed, Refines, MoveHead, WellFormed;
    assert f in multiset{f, f2};
    InTable(futexes, buckets, nextId, waits, multiset{f, f2}, MoveHead(s, futexes[f].key, i, futexes[f2].key), f);
    HasUniqueKeys(futexes, buckets, nextId);
    RequeueOneRefines(futexes, waits, s, f, f2, i);
    MoveOneCounted(futexes, waits, multiset{f, f2}, f, f2);
    KeepsHashed(futexes, MoveOne(futexes, f, f2), buckets, nextId);
  }

  lemma HeldByCall(f: int, f2: int)
    ensures multiset{} + multiset{f} == multiset{f} && multiset{f} - multiset{f} == multiset{}
    ensures multiset{f} + multiset{f2} == multiset{f, f2} && multiset{f, f2} - multiset{f2} == multiset{f}
  {
  }

  lemma RequeueIs(s: World, k: Key, wakeMax: nat, requeueMax: nat, k2: Key, t: World, woken: nat, requeued: nat)
    requires (t, woken) == Wake(s, k, wakeMax) && requeued == Moves(|t.Queue(k)|, requeueMax, k == k2)
    ensures k == k2 || requeued <= |t.Queue(k)|
    ensures Requeue(s, k, wakeMax, requeueMax, k2) == (MoveHead(t, k, requeued, k2), woken + requeued)
  {
  }

  lemma StoreRefines(futexes: map<int, Record>, waits: map<int, int>, s: World, k: Key, val: int)
    requires Refines(futexes, waits, s)
    ensures Refines(futexes, waits, Store(s, k, val))
  {
    var t := Store(s, k, val);
    forall other ensures t.Queue(other) == s.Queue(other) && QueueOk(t, other) {
      assert QueueOk(s, other);
    }
  }

  class Table {
    var futexes: map<int, Record>
    var buckets: map<nat, seq<int>>
    var waits: map<int, int>
    var memory: map<Key, int>
    var nextId: int
    ghost var world: World

    ghost predicate Inv(held: multiset<int>)
      reads this
    {
      && Counted(futexes, waits, held)
      && Hashed(futexes, buckets, nextId)
      && Refines(futexes, waits, world)
      && world.memory == memory
    }

    /** Between calls nobody holds a reference but the sleeping threads. */
    ghost predicate Valid()
      reads this
    {
      Inv(multiset{})
    }

    constructor (memory: map<Key, int>)
      ensures Valid() && world == World(map[], map[], memory)
    {
      futexes, buckets, waits, nextId := map[], map[], map[], 0;
      this.memory := memory;
      world := World(map[], map[], memory);
    }

    /** futex_get_unlocked: the record of `k`, found or made, with one more reference. */
    method GetUnlocked(k: Key, ghost held: multiset<int>) returns (f: int)
      requires Inv(held)
      modifies this`futexes, this`buckets, this`nextId
      ensures Inv(held + multiset{f})
      ensures f in futexes && futexes[f].key == k
      ensures forall g :: g in old(futexes) ==> g in futexes && futexes[g].key == old(futexes)[g].key
    {
      hide Hash, Counted, Refines, Hashed;
      var chain := Chain(buckets, Hash(k));
      ChainSearch(futexes, buckets, nextId, k);
      var i := 0;
      while i < |chain|
        invariant 0 <= i <= |chain|
        invariant forall j :: 0 <= j < i ==> chain[j] in futexes && futexes[chain[j]].key != k
      {
        f := chain[i];
        assert f in chain;
        if futexes[f].key == k {
          ChangeCount(futexes, buckets, nextId, waits, world, f, futexes[f].refcount + 1);
          RetainCounted(futexes, waits, held, f);
          futexes := futexes[f := futexes[f].(refcount := futexes[f].refcount + 1)];
          return;
        }
        i := i + 1;
      }
      f := nextId;
      CreateHashed(futexes, buckets, nextId, k);
      CreateRefines(futexes, waits, world, f, k);
      CreateCounted(futexes, waits, held, f, k);
      nextId := nextId + 1;
      futexes := futexes[f := Record(k, 1, [])];
      buckets := buckets[Hash(k) := [f] + chain];
    }

    /** futex_put_unlocked. */
    method PutUnlocked(f: int, ghost held: multiset<int>)
      requires Inv(held) && f in held
      modifies this`futexes, this`buckets
      ensures Inv(held - multiset{f})
      ensures forall g :: g in old(futexes) && g != f ==> g in futexes && futexes[g] == old(futexes)[g]
      ensures old(futexes)[f].refcount > 1 ==>
          futexes.Keys == old(futexes).Keys && futexes[f].key == old(futexes)[f].key
    {
      hide Hash, Counted, Refines, Hashed;
      ReleaseCounted(futexes, waits, held, f);
      var r := futexes[f];
      if r.refcount - 1 == 0 {
        LastReferenceQueueEmpty(futexes, waits, held, world, buckets, nextId, f);
        assert r.queue == [];
        DestroyHashed(futexes, buckets, nextId, f);
        DestroyRefines(futexes, waits, world, f);
        buckets := buckets[Hash(r.key) := Without(Chain(buckets, Hash(r.key)), f)];
        futexes := futexes - {f};
      } else {
        ChangeCount(futexes, buckets, nextId, waits, world, f, r.refcount - 1);
        futexes := futexes[f := r.(refcount := r.refcount - 1)];
      }
    }

    /** futex_wait up to the point where it sleeps; `w` stands for the caller's struct futex_wait. */
    method StartWait(w: int, k: Key, val: int) returns (err: int)
      requires Valid() && w !in waits
      modifies this
      ensures Valid() && memory == old(memory)
      ensures (world, err) == Wait(old(world), w, k, val)
      ensures if k in memory && memory[k] == val then
                && err == 0 && world.Queue(k) == old(world).Queue(k) + [w]
                && w in world.sleepers && world.sleepers[w] == Sleeper(k, val, true)
              else world == old(world) && err == if k in memory then EAGAIN else EFAULT
    {
      hide Hash, Counted, Hashed, Refines;
      var f := GetUnlocked(k, multiset{});
      assert multiset{} + multiset{f} == multiset{f};
      err := 0;
      if k !in memory {
        err := EFAULT;
      } else if memory[k] != val {
        err := EAGAIN;
      } else {
        EnqueueStep(futexes, buckets, nextId, waits, world, multiset{f}, w, val, f);
        assert multiset{f} - multiset{f} == multiset{};
        futexes := futexes[f := futexes[f].(queue := futexes[f].queue + [w])];
        waits := waits[w := f];
        world := Enqueue(world, w, k, val);
        return;
      }
      PutUnlocked(f, multiset{f});
      assert multiset{f} - multiset{f} == multiset{};
    }

    /** futex_wait from where it wakes up: whatever the reason, it leaves the queue if it is still on one. */
    method FinishWait(w: int)
      requires Valid() && w in waits && w in world.sleepers
      modifies this
      ensures Valid() && memory == old(memory)
      ensures world == Leave(old(world), w)
    {
      hide Hash, Counted, Hashed, Refines;
      var f := waits[w];
      LeaveStep(futexes, buckets, nextId, waits, world, multiset{}, w);
      futexes := futexes[f := futexes[f].(queue := Without(futexes[f].queue, w))];
      waits := waits - {w};
      world := Leave(world, w);
      assert multiset{} + multiset{f} == multiset{f};
      PutUnlocked(f, multiset{f});
      assert multiset{f} - multiset{f} == multiset{};
    }

    /** The first loop of futex_wakelike: wake the oldest sleepers of the record `f`. */
    method WakeSome(f: int, max: nat) returns (woken: nat)
      requires Inv(multiset{f})
      modifies this`futexes, this`world
      ensures Inv(multiset{f}) && futexes.Keys == old(futexes).Keys && futexes[f].key == old(futexes)[f].key
      ensures (world, woken) == Wake(old(world), old(futexes)[f].key, max)
    {
      hide Hash, Counted, Hashed, Refines, Wake;
      assert f in multiset{f};
      InTable(futexes, buckets, nextId, waits, multiset{f}, world, f);
      ghost var k, s := futexes[f].key, world;
      woken := 0;
      WakeNone(futexes, waits, s, k);
      world := Wake(s, k, 0).0;
      while futexes[f].queue != []
        invariant f in futexes && futexes[f].key == k && futexes.Keys == old(futexes).Keys
        invariant Counted(futexes, waits, multiset{f}) && Hashed(futexes, buckets, nextId)
        invariant Refines(futexes, waits, world)
        invariant woken <= max && woken <= |s.Queue(k)|
        invariant world == Wake(s, k, woken).0 && futexes[f].queue == s.Queue(k)[woken..]
        decreases |futexes[f].queue|
      {
        if woken >= max {
          break;
        }
        HasUniqueKeys(futexes, buckets, nextId);
        WakeOneRefines(futexes, waits, s, f, woken);
        ChangeQueue(futexes, buckets, nextId, waits, multiset{f}, f, futexes[f].queue[1..]);
        futexes := futexes[f := futexes[f].(queue := futexes[f].queue[1..])];
        woken := woken + 1;
        world := Wake(s, k, woken).0;
      }
      WakeEnough(s, k, woken, max);
    }

    /**
     The second loop: move the next sleepers of `f`, oldest first, to the tail of `f2`. The loop
     macro reads the next entry before the current one is moved, so the loop ends after an entry
     that was the last one then.
     */
    method RequeueSome(f: int, f2: int, max: nat) returns (requeued: nat)
      requires Inv(multiset{f, f2}) && f in futexes && f2 in futexes
      modifies this`futexes, this`waits, this`world
      ensures Inv(multiset{f, f2})
      ensures var k, k2 := old(futexes)[f].key, old(futexes)[f2].key;
              && requeued == Moves(|old(world).Queue(k)|, max, k == k2)
              && world == MoveHead(old(world), k, requeued, k2)
    {
      hide Hash, Counted, Hashed, Refines, MoveHead, WellFormed;
      assert f in multiset{f, f2};
      InTable(futexes, buckets, nextId, waits, multiset{f, f2}, world, f);
      ghost var k, k2, s := futexes[f].key, futexes[f2].key, world;
      assert f == f2 <==> k == k2 by { HasUniqueKeys(futexes, buckets, nextId); }
      requeued := 0;
      MoveNone(futexes, waits, s, k, k2);
      world := MoveHead(s, k, 0, k2);
      var more := futexes[f].queue != [];
      while more
        invariant f in futexes && f2 in futexes && futexes[f].key == k && futexes[f2].key == k2
        invariant Counted(futexes, waits, multiset{f, f2}) && Hashed(futexes, buckets, nextId)
        invariant Refines(futexes, waits, world)
        invariant requeued <= max && (k == k2 || requeued <= |s.Queue(k)|)
        invariant world == MoveHead(s, k, requeued, k2)
        invariant Remaining(|s.Queue(k)|, k == k2, requeued, |futexes[f].queue|, more)
        decreases max - requeued, more
      {
        if requeued >= max {
          break;
        }
        var w, last := futexes[f].queue[0], |futexes[f].queue| == 1;
        RequeueStep(futexes, buckets, nextId, waits, s, f, f2, requeued);
        assert futexes[f].refcount > 1;
        var r := futexes[f];
        futexes := futexes[f := Record(r.key, r.refcount - 1, r.queue[1..])];
        var r2 := futexes[f2];
        futexes := futexes[f2 := Record(r2.key, r2.refcount + 1, r2.queue + [w])];
        waits := waits[w := f2];
        requeued := requeued + 1;
        world := MoveHead(s, k, requeued, k2);
        more := !last;
      }
      MoveKeepsMemory(s, k, requeued, k2);
    }

    /** futex_wakelike: FUTEX_WAKE or FUTEX_REQUEUE. */
    method WakeLike(requeue: bool, k: Key, wakeMax: nat, requeueMax: nat, k2: Key) returns (count: nat)
      requires Valid()
      modifies this
      ensures Valid() && memory == old(memory)
      ensures (world, count) ==
              if requeue then Requeue(old(world), k, wakeMax, requeueMax, k2) else Wake(old(world), k, wakeMax)
    {
      hide Hash, Counted, Hashed, Refines, Wake, MoveHead, Moves, Requeue;
      var f := GetUnlocked(k, multiset{});
      HeldByCall(f, f);
      count := WakeSome(f, wakeMax);
      ghost var t := world;
      if requeue {
        var f2 := GetUnlocked(k2, multiset{f});
        HeldByCall(f, f2);
        var requeued := RequeueSome(f, f2, requeueMax);
        RequeueIs(old(world), k, wakeMax, requeueMax, k2, t, count, requeued);
        PutUnlocked(f2, multiset{f, f2});
        count := count + requeued;
      }
      PutUnlocked(f, multiset{f});
    }

    /** A user store: it needs no futex_lock, so it may fall between any two of the calls above. */
    method UserStore(k: Key, val: int)
      requires Valid()
      modifies this`memory, this`world
      ensures Valid() && world == Store(old(world), k, val)
    {
      StoreRefines(futexes, waits, world, k, val);
      memory := memory[k := val];
      world := Store(world, k, val);
    }
  }
}
