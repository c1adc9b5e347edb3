/**
 The futex protocol of kernel/futex.c. `World` is the protocol as a user sees it: one
 queue of sleepers per address. `FutexTable` is the code: refcounted records in a hash
 table, changed in place while futex_lock is held.
 */
module Futex {
  import opened PowersOfTwo

  /** A futex is named by an address space and an address in it. */
  datatype Key = Key(mem: nat, addr: nat)

  const EAGAIN := -11
  const EFAULT := -14

  // ----- the protocol -----

  /**
   A thread inside futex_wait: the futex it is on, the value it compared with, and
   whether it is still where it compared (a requeue moves it elsewhere).
   */
  datatype Sleeper = Sleeper(key: Key, val: int, direct: bool)

  datatype World = World(queues: map<Key, seq<int>>, sleepers: map<int, Sleeper>, memory: map<Key, int>) {
    function Queue(k: Key): seq<int> {
      if k in queues then queues[k] else []
    }
  }

  function Min(a: nat, b: nat): nat {
    if a < b then a else b
  }

  function Without(q: seq<int>, w: int): seq<int> {
    if q == [] then [] else if q[0] == w then q[1..] else [q[0]] + Without(q[1..], w)
  }

  function Enqueue(s: World, w: int, k: Key, val: int): World {
    s.(queues := s.queues[k := s.Queue(k) + [w]], sleepers := s.sleepers[w := Sleeper(k, val, true)])
  }

  /** The locked part of futex_wait before it sleeps: compare, and sleep only if equal. */
  function Wait(s: World, w: int, k: Key, val: int): (World, int) {
    if k !in s.memory then (s, EFAULT)
    else if s.memory[k] != val then (s, EAGAIN)
    else (Enqueue(s, w, k, val), 0)
  }

  /** Leaving futex_wait: woken, timed out, interrupted, or woken for no reason. */
  function Leave(s: World, w: int): World
    requires w in s.sleepers
  {
    var k := s.sleepers[w].key;
    s.(queues := s.queues[k := Without(s.Queue(k), w)], sleepers := s.sleepers - {w})
  }

  function Wake(s: World, k: Key, max: nat): (World, nat) {
    var n := Min(max, |s.Queue(k)|);
    (s.(queues := s.queues[k := s.Queue(k)[n..]]), n)
  }

  /** Sleepers `ws` now stand on `k` because of a requeue. */
  function Moved(sleepers: map<int, Sleeper>, ws: seq<int>, k: Key): map<int, Sleeper> {
    map w | w in sleepers :: if w in ws then Sleeper(k, sleepers[w].val, false) else sleepers[w]
  }

  /** The head put at the tail, `m` times over. */
  function Rotated(q: seq<int>, m: nat): (r: seq<int>)
    ensures |r| == |q|
  {
    if m == 0 || q == [] then q
    else
      var r := Rotated(q, m - 1);
      r[1..] + [r[0]]
  }

  /** The first `n` sleepers of `k` moved to the tail of `k2`, which may be the same queue. */
  function MoveHead(s: World, k: Key, n: nat, k2: Key): World
    requires k == k2 || n <= |s.Queue(k)|
  {
    if k == k2 then s.(queues := s.queues[k := Rotated(s.Queue(k), n)])
    else
      var head := s.Queue(k)[..n];
      s.(queues := s.queues[k := s.Queue(k)[n..]][k2 := s.Queue(k2) + head], sleepers := Moved(s.sleepers, head, k2))
  }

  /**
   How many times a requeue moves a sleeper. On its own queue of two or more it comes by the sleepers
   it has moved again, until it has moved as often as it may.
   */
  function Moves(n: nat, max: nat, same: bool): nat {
    if same && n >= 2 then max else Min(max, n)
  }

  function Requeue(s: World, k: Key, wakeMax: nat, requeueMax: nat, k2: Key): (World, nat) {
    var (t, woken) := Wake(s, k, wakeMax);
    var n := Moves(|t.Queue(k)|, requeueMax, k == k2);
    (MoveHead(t, k, n, k2), woken + n)
  }

  function Store(s: World, k: Key, val: int): World {
    s.(memory := s.memory[k := val])
  }

  datatype Step =
    | DoWait(w: int, k: Key, val: int)
    | DoLeave(w: int)
    | DoWake(k: Key, max: nat)
    | DoRequeue(k: Key, wakeMax: nat, requeueMax: nat, k2: Key)
    | DoStore(k: Key, val: int)

  /** A thread enters futex_wait once at a time. */
  predicate Enabled(s: World, step: Step) {
    match step
    case DoWait(w, _, _) => w !in s.sleepers
    case DoLeave(w) => w in s.sleepers
    case _ => true
  }

  function Next(s: World, step: Step): World
    requires Enabled(s, step)
  {
    match step
    case DoWait(w, k, val) => Wait(s, w, k, val).0
    case DoLeave(w) => Leave(s, w)
    case DoWake(k, max) => Wake(s, k, max).0
    case DoRequeue(k, wakeMax, requeueMax, k2) => Requeue(s, k, wakeMax, requeueMax, k2).0
    case DoStore(k, val) => Store(s, k, val)
  }

  ghost predicate IsRun(s: World, steps: seq<Step>)
    decreases steps
  {
    steps == [] || (Enabled(s, steps[0]) && IsRun(Next(s, steps[0]), steps[1..]))
  }

  ghost function After(s: World, steps: seq<Step>): World
    requires IsRun(s, steps)
    decreases steps
  {
    if steps == [] then s else After(Next(s, steps[0]), steps[1..])
  }

  // ----- what every run keeps -----

  ghost predicate NoRepeats(q: seq<int>) {
    forall i, j :: 0 <= i < j < |q| ==> q[i] != q[j]
  }

  /** Every thread queued on `k` is asleep on that very futex, and queued once. */
  ghost predicate QueueOk(s: World, k: Key) {
    && NoRepeats(s.Queue(k))
    && forall w :: w in s.Queue(k) ==> w in s.sleepers && s.sleepers[w].key == k
  }

  ghost predicate WellFormed(s: World) {
    forall k :: QueueOk(s, k)
  }

  lemma SliceNoRepeats(q: seq<int>, n: nat)
    requires NoRepeats(q) && n <= |q|
    ensures NoRepeats(q[..n]) && NoRepeats(q[n..])
    ensures forall w :: w in q[..n] ==> w in q && w !in q[n..]
    ensures forall w :: w in q[n..] ==> w in q
  {
    assert forall i :: 0 <= i < |q| - n ==> q[n..][i] == q[n + i];
  }

  lemma JoinNoRepeats(p: seq<int>, q: seq<int>)
    requires NoRepeats(p) && NoRepeats(q) && forall w :: w in p ==> w !in q
    ensures NoRepeats(p + q)
  {
    var r := p + q;
    forall i, j | 0 <= i < j < |r| ensures r[i] != r[j] {
      if i < |p| <= j {
        assert r[i] in p && r[j] in q;
      }
    }
  }

  lemma {:induction false} WithoutMembers(q: seq<int>, w: int)
    requires NoRepeats(q)
    ensures NoRepeats(Without(q, w))
    ensures forall x :: x in Without(q, w) <==> x in q && x != w
  {
    if q != [] {
      assert q == [q[0]] + q[1..];
      SliceNoRepeats(q, 1);
      assert q[0] in q[..1];
      WithoutMembers(q[1..], w);
      if q[0] != w {
        JoinNoRepeats([q[0]], Without(q[1..], w));
      }
    }
  }

  lemma NextKeepsWellFormed(s: World, step: Step)
    requires WellFormed(s) && Enabled(s, step)
    ensures WellFormed(Next(s, step))
  {
    var t := Next(s, step);
    forall k ensures QueueOk(t, k) {
      assert QueueOk(s, k);
      match step
      case DoWait(w, other, val) =>
        if k == other {
          JoinNoRepeats(s.Queue(k), [w]);
        }
      case DoLeave(w) => WithoutMembers(s.Queue(k), w);
      case DoWake(other, max) => WakeKeepsQueue(s, other, max, k);
      case DoRequeue(other, wakeMax, requeueMax, k2) =>
        var u := Wake(s, other, wakeMax).0;
        forall x ensures QueueOk(u, x) {
          assert QueueOk(s, x);
          WakeKeepsQueue(s, other, wakeMax, x);
        }
        MoveKeepsQueue(u, other, Moves(|u.Queue(other)|, requeueMax, other == k2), k2, k);
      case DoStore(_, _) =>
    }
  }

  lemma WakeKeepsQueue(s: World, k: Key, max: nat, x: Key)
    requires QueueOk(s, x)
    ensures QueueOk(Wake(s, k, max).0, x)
  {
    if x == k {
      SliceNoRepeats(s.Queue(k), Min(max, |s.Queue(k)|));
    }
  }

  lemma MoveKeepsQueue(s: World, k: Key, n: nat, k2: Key, x: Key)
    requires WellFormed(s) && (k == k2 || n <= |s.Queue(k)|)
    ensures QueueOk(MoveHead(s, k, n, k2), x)
  {
    assert QueueOk(s, k) && QueueOk(s, k2) && QueueOk(s, x);
    if k == k2 {
      RotatedMembers(s.Queue(k), n);
    } else {
      SliceNoRepeats(s.Queue(k), n);
      if x == k2 {
        JoinNoRepeats(s.Queue(k2), s.Queue(k)[..n]);
      }
    }
  }

  /** A rotation keeps the members of a queue. */
  lemma {:induction false} RotatedMembers(q: seq<int>, m: nat)
    ensures forall w :: w in Rotated(q, m) <==> w in q
    ensures NoRepeats(q) ==> NoRepeats(Rotated(q, m))
  {
    if m > 0 && q != [] {
      RotatedMembers(q, m - 1);
      var r := Rotated(q, m - 1);
      assert r == [r[0]] + r[1..];
      if NoRepeats(r) {
        SliceNoRepeats(r, 1);
        assert r[0] in r[..1];
        JoinNoRepeats(r[1..], [r[0]]);
      }
    }
  }

  /** And it is the queue read from a later place on, around its end. */
  lemma RotatedIs(q: seq<int>, m: nat)
    requires q != []
    ensures Rotated(q, m) == q[m % |q|..] + q[..m % |q|]
  {
    hide Rotated;
    RotatedFrom(q, m, m / |q|, m % |q|);
  }

  lemma {:induction false} RotatedFrom(q: seq<int>, m: nat, c: int, i: nat)
    requires m == c * |q| + i && i < |q|
    ensures Rotated(q, m) == q[i..] + q[..i]
    decreases m
  {
    if m == 0 {
      assert i == 0 by { MultipleBound(c, |q|); }
      assert q[0..] + q[..0] == q;
    } else if i > 0 {
      RotatedFrom(q, m - 1, c, i - 1);
      TurnedOnce(q, i - 1, Rotated(q, m - 1));
    } else {
      assert (c - 1) * |q| == c * |q| - |q|;
      RotatedFrom(q, m - 1, c - 1, |q| - 1);
      TurnedOnce(q, |q| - 1, Rotated(q, m - 1));
      assert q[0..] + q[..0] == q;
    }
  }

  lemma TurnedOnce(q: seq<int>, i: nat, r: seq<int>)
    requires i < |q| && r == q[i..] + q[..i]
    ensures r[1..] + [r[0]] == if i == |q| - 1 then q else q[i + 1..] + q[..i + 1]
  {
    assert r[0] == q[i] && r[1..] == q[i + 1..] + q[..i];
    assert q[..i] + [q[i]] == q[..i + 1];
  }

  lemma {:induction false} RunKeepsWellFormed(s: World, steps: seq<Step>)
    requires WellFormed(s) && IsRun(s, steps)
    ensures WellFormed(After(s, steps))
    decreases steps
  {
    if steps != [] {
      NextKeepsWellFormed(s, steps[0]);
      RunKeepsWellFormed(Next(s, steps[0]), steps[1..]);
    }
  }

  /** Requeueing a queue onto itself changes neither who sleeps where nor what for, only the order. */
  lemma RequeueOntoItself(s: World, k: Key, wakeMax: nat, requeueMax: nat)
    ensures var (t, count) := Requeue(s, k, wakeMax, requeueMax, k);
            var woken := Min(wakeMax, |s.Queue(k)|);
            var rest := s.Queue(k)[woken..];
            && count == woken + Moves(|rest|, requeueMax, true)
            && t.Queue(k) == Rotated(rest, Moves(|rest|, requeueMax, true))
            && (forall other :: other != k ==> t.Queue(other) == s.Queue(other))
            && t.sleepers == s.sleepers && t.memory == s.memory
  {
  }

  /** The answer counts every sleeper once exactly when one is left at most, or no more may be moved than are left. */
  lemma SelfRequeueCountIff(s: World, k: Key, wakeMax: nat, requeueMax: nat)
    ensures var left := |s.Queue(k)| - Min(wakeMax, |s.Queue(k)|);
            Requeue(s, k, wakeMax, requeueMax, k).1 == Min(wakeMax, |s.Queue(k)|) + Min(requeueMax, left) <==>
            left <= 1 || requeueMax <= left
  {
    RequeueOntoItself(s, k, wakeMax, requeueMax);
  }

  /** Two sleepers, and five answered as requeued. */
  lemma SelfRequeueOvercounts(k: Key)
    ensures Requeue(World(map[k := [1, 2]], map[], map[]), k, 0, 5, k).1 == 5
  {
    SelfRequeueCountIff(World(map[k := [1, 2]], map[], map[]), k, 0, 5);
  }

  /** Wake and requeue serve the queue oldest first and in order, and answer with how many they served. */
  lemma RequeueServesInOrder(s: World, k: Key, wakeMax: nat, requeueMax: nat, k2: Key)
    returns (woken: seq<int>, moved: seq<int>, rest: seq<int>)
    requires k != k2
    ensures s.Queue(k) == woken + moved + rest
    ensures |woken| == Min(wakeMax, |s.Queue(k)|) && |moved| == Min(requeueMax, |s.Queue(k)| - |woken|)
    ensures var (t, count) := Requeue(s, k, wakeMax, requeueMax, k2);
            && t.Queue(k) == rest && t.Queue(k2) == s.Queue(k2) + moved && count == |woken| + |moved|
            && (forall other :: other != k && other != k2 ==> t.Queue(other) == s.Queue(other))
            && t.sleepers.Keys == s.sleepers.Keys && t.memory == s.memory
            && (forall w :: w in s.sleepers && w !in moved ==> t.sleepers[w] == s.sleepers[w])
            && (forall w :: w in s.sleepers && w in moved ==> t.sleepers[w].key == k2 && !t.sleepers[w].direct)
  {
    hide Wake, MoveHead, World.Queue;
    var q := s.Queue(k);
    var n := Min(wakeMax, |q|);
    var m := Min(requeueMax, |q| - n);
    woken, moved, rest := q[..n], q[n..][..m], q[n..][m..];
    assert q == woken + (moved + rest);
    WakeShape(s, k, wakeMax);
    MoveHeadShape(Wake(s, k, wakeMax).0, k, m, k2);
  }

  lemma WakeShape(s: World, k: Key, max: nat)
    ensures var (u, n) := Wake(s, k, max);
            && n == Min(max, |s.Queue(k)|) && u.Queue(k) == s.Queue(k)[n..]
            && u.sleepers == s.sleepers && u.memory == s.memory
            && forall other :: other != k ==> u.Queue(other) == s.Queue(other)
  {
  }

  lemma MoveHeadShape(s: World, k: Key, n: nat, k2: Key)
    requires k != k2 && n <= |s.Queue(k)|
    ensures var t, head := MoveHead(s, k, n, k2), s.Queue(k)[..n];
            && t.Queue(k) == s.Queue(k)[n..] && t.Queue(k2) == s.Queue(k2) + head
            && (forall other :: other != k && other != k2 ==> t.Queue(other) == s.Queue(other))
            && t.sleepers.Keys == s.sleepers.Keys && t.memory == s.memory
            && (forall w :: w in s.sleepers && w !in head ==> t.sleepers[w] == s.sleepers[w])
            && (forall w :: w in s.sleepers && w in head ==> t.sleepers[w].key == k2 && !t.sleepers[w].direct)
  {
  }

  // ----- no lost wake-ups -----

  /** Whoever sleeps on `k` because of the value there compared with the value that is there now. */
  ghost predicate UpToDate(s: World, k: Key) {
    forall w :: w in s.Queue(k) && w in s.sleepers && s.sleepers[w].direct ==>
        k in s.memory && s.sleepers[w].val == s.memory[k]
  }

  lemma NextKeepsUpToDate(s: World, step: Step, k: Key)
    requires WellFormed(s) && Enabled(s, step) && UpToDate(s, k)
    requires !(step.DoStore? && step.k == k)
    ensures UpToDate(Next(s, step), k)
  {
    assert QueueOk(s, k);
    match step
    case DoWait(who, other, val) =>
    case DoLeave(who) => WithoutMembers(s.Queue(k), who);
    case DoWake(other, max) =>
      assert QueueOk(s, other);
      SliceNoRepeats(s.Queue(other), Min(max, |s.Queue(other)|));
    case DoRequeue(other, wakeMax, requeueMax, k2) => RequeueKeepsUpToDate(s, other, wakeMax, requeueMax, k2, k);
    case DoStore(_, _) =>
  }

  /** A requeue takes sleepers away from `k`, brings some that are not there for its value, or turns its queue. */
  lemma RequeueKeepsUpToDate(s: World, other: Key, wakeMax: nat, requeueMax: nat, k2: Key, k: Key)
    requires WellFormed(s) && UpToDate(s, k)
    ensures UpToDate(Requeue(s, other, wakeMax, requeueMax, k2).0, k)
  {
    hide Requeue, UpToDate;
    if other == k2 {
      SelfRequeueKeepsUpToDate(s, k2, wakeMax, requeueMax, k);
    } else {
      MoveKeepsUpToDate(s, other, wakeMax, requeueMax, k2, k);
    }
  }

  lemma SelfRequeueKeepsUpToDate(s: World, k2: Key, wakeMax: nat, requeueMax: nat, k: Key)
    requires UpToDate(s, k)
    ensures UpToDate(Requeue(s, k2, wakeMax, requeueMax, k2).0, k)
  {
    hide Requeue, Rotated, Moves;
    var n := Min(wakeMax, |s.Queue(k2)|);
    var rest := s.Queue(k2)[n..];
    RequeueOntoItself(s, k2, wakeMax, requeueMax);
    RotatedMembers(rest, Moves(|rest|, requeueMax, true));
    assert forall w :: w in rest ==> w in s.Queue(k2);
  }

  lemma MoveKeepsUpToDate(s: World, other: Key, wakeMax: nat, requeueMax: nat, k2: Key, k: Key)
    requires WellFormed(s) && UpToDate(s, k) && other != k2
    ensures UpToDate(Requeue(s, other, wakeMax, requeueMax, k2).0, k)
  {
    hide Requeue;
    var t := Requeue(s, other, wakeMax, requeueMax, k2).0;
    var woken, moved, rest := RequeueServesInOrder(s, other, wakeMax, requeueMax, k2);
    assert QueueOk(s, k) && QueueOk(s, other);
    forall w | w in moved ensures !t.sleepers[w].direct {
      assert w in s.Queue(other);
    }
  }

  ghost predicate NoStoreTo(steps: seq<Step>, k: Key) {
    forall step :: step in steps ==> !(step.DoStore? && step.k == k)
  }

  lemma {:induction false} RunKeepsUpToDate(s: World, steps: seq<Step>, k: Key)
    requires WellFormed(s) && IsRun(s, steps) && UpToDate(s, k) && NoStoreTo(steps, k)
    ensures UpToDate(After(s, steps), k)
    decreases steps
  {
    if steps != [] {
      NextKeepsWellFormed(s, steps[0]);
      NextKeepsUpToDate(s, steps[0], k);
      RunKeepsUpToDate(Next(s, steps[0]), steps[1..], k);
    }
  }

  lemma {:induction false} RunKeepsMemory(s: World, steps: seq<Step>, k: Key)
    requires IsRun(s, steps) && NoStoreTo(steps, k) && k in s.memory
    ensures k in After(s, steps).memory && After(s, steps).memory[k] == s.memory[k]
    decreases steps
  {
    if steps != [] {
      RunKeepsMemory(Next(s, steps[0]), steps[1..], k);
    }
  }

  /**
   A store, then whatever the other threads do, then a wake of everybody, then whatever
   the other threads do: nobody sleeps there who compared with another value.
   */
  lemma NoLostWakeup(s: World, k: Key, val: int, between: seq<Step>, max: nat, later: seq<Step>)
    requires WellFormed(s)
    requires var s1 := Store(s, k, val);
             && IsRun(s1, between) && NoStoreTo(between, k)
             && max >= |After(s1, between).Queue(k)|
             && IsRun(Wake(After(s1, between), k, max).0, later) && NoStoreTo(later, k)
    ensures var last := After(Wake(After(Store(s, k, val), between), k, max).0, later);
            forall w :: w in last.Queue(k) && w in last.sleepers && last.sleepers[w].direct ==>
                last.sleepers[w].val == val
  {
    var s1 := Store(s, k, val);
    var s2 := After(s1, between);
    var s3 := Wake(s2, k, max).0;
    NextKeepsWellFormed(s, DoStore(k, val));
    RunKeepsWellFormed(s1, between);
    NextKeepsWellFormed(s2, DoWake(k, max));
    RunKeepsMemory(s1, between, k);
    RunKeepsMemory(s3, later, k);
    RunKeepsUpToDate(s3, later, k);
  }

  // ----- sleeping and leaving -----

  /** A thread goes to sleep, last in the queue, exactly when the word is there and holds what it expects. */
  lemma WaitSleepsIff(s: World, w: int, k: Key, val: int)
    ensures var (t, err) := Wait(s, w, k, val);
      if k in s.memory && s.memory[k] == val then
        && err == 0 && t.Queue(k) == s.Queue(k) + [w]
        && t.sleepers == s.sleepers[w := Sleeper(k, val, true)] && t.memory == s.memory
        && forall other :: other != k ==> t.Queue(other) == s.Queue(other)
      else t == s && err == if k in s.memory then EAGAIN else EFAULT
  {
  }

  lemma {:induction false} WithoutSplit(p: seq<int>, w: int, r: seq<int>)
    requires w !in p
    ensures Without(p + [w] + r, w) == p + r
  {
    var q := p + [w] + r;
    if p == [] {
      assert q[1..] == r && p + r == r;
    } else {
      assert q[1..] == p[1..] + [w] + r && q[0] == p[0];
      WithoutSplit(p[1..], w, r);
      assert p == [p[0]] + p[1..];
    }
  }

  /** A thread that leaves is asleep nowhere and in no queue; the others keep their places. */
  lemma LeaveGone(s: World, w: int)
    requires WellFormed(s) && w in s.sleepers
    ensures var t := Leave(s, w);
      && t.sleepers == s.sleepers - {w} && t.memory == s.memory
      && (forall k :: w !in t.Queue(k) && (w !in s.Queue(k) ==> t.Queue(k) == s.Queue(k)))
      && (forall k, p, r :: s.Queue(k) == p + [w] + r ==> t.Queue(k) == p + r)
  {
    var t := Leave(s, w);
    forall k ensures w !in t.Queue(k) && (w !in s.Queue(k) ==> t.Queue(k) == s.Queue(k)) {
      assert QueueOk(s, k);
      WithoutMembers(s.Queue(k), w);
      if w !in s.Queue(k) { WithoutAbsent(s.Queue(k), w); }
    }
    forall k, p, r | s.Queue(k) == p + [w] + r ensures t.Queue(k) == p + r {
      var q := s.Queue(k);
      assert QueueOk(s, k) && q[|p|] == w;
      assert forall i :: 0 <= i < |p| ==> p[i] == q[i];
      WithoutSplit(p, w, r);
    }
  }

  lemma {:induction false} WithoutAbsent(q: seq<int>, w: int)
    requires w !in q
    ensures Without(q, w) == q
  {
    if q != [] {
      WithoutAbsent(q[1..], w);
      assert q == [q[0]] + q[1..];
    }
  }

  // ----- first come, first served -----

  ghost predicate Ahead(q: seq<int>, a: int, b: int) {
    exists i, j :: 0 <= i < j < |q| && q[i] == a && q[j] == b
  }

  /** `a` sleeps where it waited, and has not been moved. */
  ghost predicate Waiting(s: World, k: Key, a: int) {
    a in s.Queue(k) && a in s.sleepers && s.sleepers[a].direct
  }

  lemma AheadInFront(q: seq<int>, more: seq<int>, a: int, b: int)
    ensures Ahead(q, a, b) ==> Ahead(q + more, a, b)
    ensures a in q && b in more ==> Ahead(q + more, a, b)
  {
    var r := q + more;
    assert forall i :: 0 <= i < |q| ==> r[i] == q[i];
    assert forall j :: 0 <= j < |more| ==> r[|q| + j] == more[j];
    if a in q && b in more {
      var i :| 0 <= i < |q| && q[i] == a;
      var j :| 0 <= j < |more| && more[j] == b;
      assert r[i] == a && r[|q| + j] == b;
    }
  }

  /** Whoever is served, the ones ahead are served before. */
  lemma AheadInRest(q: seq<int>, n: nat, a: int, b: int)
    requires NoRepeats(q) && Ahead(q, a, b) && n <= |q| && a in q[n..]
    ensures Ahead(q[n..], a, b)
  {
    var i, j :| 0 <= i < j < |q| && q[i] == a && q[j] == b;
    var m :| 0 <= m < |q| - n && q[n..][m] == a;
    assert q[n + m] == a && n + m == i;
    assert q[n..][i - n] == a && q[n..][j - n] == b;
  }

  lemma AheadCut(p: seq<int>, w: int, r: seq<int>, a: int, b: int)
    requires Ahead(p + [w] + r, a, b) && w != a && w != b
    ensures Ahead(p + r, a, b)
  {
    var q, m := p + [w] + r, |p|;
    var i, j :| 0 <= i < j < |q| && q[i] == a && q[j] == b;
    assert q[m] == w;
    var i', j' := if i < m then i else i - 1, if j < m then j else j - 1;
    assert (p + r)[i'] == a && (p + r)[j'] == b;
  }

  lemma Cutting(q: seq<int>, w: int) returns (m: nat)
    requires NoRepeats(q) && w in q
    ensures m < |q| && q == q[..m] + [w] + q[m + 1..] && w !in q[..m]
  {
    m :| m < |q| && q[m] == w;
  }

  lemma AheadWithout(q: seq<int>, w: int, a: int, b: int)
    requires NoRepeats(q) && Ahead(q, a, b) && w != a && w != b
    ensures Ahead(Without(q, w), a, b)
  {
    hide NoRepeats, Ahead, Without;
    if w in q {
      var m := Cutting(q, w);
      WithoutSplit(q[..m], w, q[m + 1..]);
      AheadCut(q[..m], w, q[m + 1..], a, b);
    } else {
      WithoutAbsent(q, w);
    }
  }

  /** No step but a requeue of the queue onto itself lets `b` pass `a`, or be served before it. */
  lemma StepKeepsOrder(s: World, step: Step, k: Key, a: int, b: int)
    requires WellFormed(s) && Enabled(s, step) && a in s.sleepers && b in s.sleepers
    requires step != DoLeave(a) && step != DoLeave(b)
    requires !(step.DoRequeue? && step.k == k && step.k2 == k)
    requires Waiting(s, k, a) ==> Ahead(s.Queue(k), a, b)
    ensures var t := Next(s, step);
      a in t.sleepers && b in t.sleepers && (Waiting(t, k, a) ==> Ahead(t.Queue(k), a, b))
  {
    hide Requeue, Ahead;
    var t := Next(s, step);
    assert QueueOk(s, k);
    match step
    case DoWait(w, other, val) =>
      WaitSleepsIff(s, w, other, val);
      AheadInFront(s.Queue(k), [w], a, b);
    case DoLeave(w) =>
      WithoutMembers(s.Queue(k), w);
      if Waiting(s, k, a) { AheadWithout(s.Queue(k), w, a, b); }
    case DoWake(other, max) =>
      if Waiting(t, k, a) && other == k {
        var n := Min(max, |s.Queue(k)|);
        assert a in s.Queue(k)[n..];
        SliceNoRepeats(s.Queue(k), n);
        AheadInRest(s.Queue(k), n, a, b);
      }
    case DoRequeue(other, wakeMax, requeueMax, k2) => RequeueKeepsOrder(s, other, wakeMax, requeueMax, k2, k, a, b);
    case DoStore(_, _) =>
  }

  lemma RequeueKeepsOrder(s: World, other: Key, wakeMax: nat, requeueMax: nat, k2: Key, k: Key, a: int, b: int)
    requires WellFormed(s) && a in s.sleepers && b in s.sleepers && !(other == k && k2 == k)
    requires Waiting(s, k, a) ==> Ahead(s.Queue(k), a, b)
    ensures var t := Requeue(s, other, wakeMax, requeueMax, k2).0;
      a in t.sleepers && b in t.sleepers && (Waiting(t, k, a) ==> Ahead(t.Queue(k), a, b))
  {
    hide Requeue, Ahead;
    var t := Requeue(s, other, wakeMax, requeueMax, k2).0;
    if other == k2 {
      RequeueOntoItself(s, k2, wakeMax, requeueMax);
    } else {
      var woken, moved, rest := RequeueServesInOrder(s, other, wakeMax, requeueMax, k2);
      assert QueueOk(s, k);
      if Waiting(t, k, a) {
        if k == other {
          var n := |woken| + |moved|;
          assert s.Queue(k) == (woken + moved) + rest && s.Queue(k)[n..] == rest;
          SliceNoRepeats(s.Queue(k), n);
          assert s.Queue(k)[..n] == woken + moved;
          AheadInRest(s.Queue(k), n, a, b);
        } else if k == k2 {
          assert a !in moved;
          AheadInFront(s.Queue(k), moved, a, b);
        }
      }
    }
  }

  /** The thread stays in futex_wait throughout. */
  ghost predicate Stays(steps: seq<Step>, w: int) {
    DoLeave(w) !in steps
  }

  ghost predicate NoTurning(steps: seq<Step>, k: Key) {
    forall step :: step in steps ==> !(step.DoRequeue? && step.k == k && step.k2 == k)
  }

  lemma {:induction false} RunKeepsOrder(s: World, steps: seq<Step>, k: Key, a: int, b: int)
    requires WellFormed(s) && IsRun(s, steps) && a in s.sleepers && b in s.sleepers
    requires Stays(steps, a) && Stays(steps, b) && NoTurning(steps, k)
    requires Waiting(s, k, a) ==> Ahead(s.Queue(k), a, b)
    ensures var t := After(s, steps);
      a in t.sleepers && b in t.sleepers && (Waiting(t, k, a) ==> Ahead(t.Queue(k), a, b))
    decreases steps
  {
    hide Ahead, Waiting;
    if steps != [] {
      assert steps[0] in steps;
      NextKeepsWellFormed(s, steps[0]);
      StepKeepsOrder(s, steps[0], k, a, b);
      RunKeepsOrder(Next(s, steps[0]), steps[1..], k, a, b);
    }
  }

  lemma {:induction false} RunKeepsAsleep(s: World, steps: seq<Step>, a: int)
    requires IsRun(s, steps) && a in s.sleepers && Stays(steps, a)
    ensures a in After(s, steps).sleepers
    decreases steps
  {
    hide MoveHead, Moves;
    if steps != [] {
      assert steps[0] in steps;
      StepKeepsAsleep(s, steps[0], a);
      RunKeepsAsleep(Next(s, steps[0]), steps[1..], a);
    }
  }

  lemma StepKeepsAsleep(s: World, step: Step, a: int)
    requires Enabled(s, step) && a in s.sleepers && step != DoLeave(a)
    ensures a in Next(s, step).sleepers
  {
  }

  /**
   First come, first served: `a` waits, then, after whatever the other threads do, `b` waits on the same
   address. As long as neither leaves, while `a` is still where it waited `b` is in the queue behind it, so no
   wake or requeue has taken `b` before `a`. Only a requeue of the queue onto itself would reorder it.
   */
  lemma EarlierServedFirst(s: World, k: Key, a: int, va: int, between: seq<Step>, b: int, vb: int, later: seq<Step>)
    requires WellFormed(s) && a !in s.sleepers && Wait(s, a, k, va).1 == 0
    requires var s1 := Wait(s, a, k, va).0;
      && IsRun(s1, between) && Stays(between, a)
      && b !in After(s1, between).sleepers && Wait(After(s1, between), b, k, vb).1 == 0
      && IsRun(Wait(After(s1, between), b, k, vb).0, later)
      && Stays(later, a) && Stays(later, b) && NoTurning(later, k)
    ensures var last := After(Wait(After(Wait(s, a, k, va).0, between), b, k, vb).0, later);
      Waiting(last, k, a) ==> Ahead(last.Queue(k), a, b)
  {
    hide Ahead;
    var s1 := Wait(s, a, k, va).0;
    var s2 := After(s1, between);
    var s3 := Wait(s2, b, k, vb).0;
    NextKeepsWellFormed(s, DoWait(a, k, va));
    RunKeepsWellFormed(s1, between);
    RunKeepsAsleep(s1, between, a);
    NextKeepsWellFormed(s2, DoWait(b, k, vb));
    WaitSleepsIff(s2, b, k, vb);
    AheadInFront(s2.Queue(k), [b], a, b);
    RunKeepsOrder(s3, later, k, a, b);
  }

  /** A queue turned by `m` keeps the order of two places exactly when its new front does not fall between them. */
  lemma TurnedOrderIff(q: seq<int>, m: nat, i: nat, j: nat)
    requires NoRepeats(q) && i < j < |q|
    ensures Ahead(Rotated(q, m), q[i], q[j]) <==> !(i < m % |q| <= j)
  {
    hide Rotated;
    var c := m % |q|;
    var r := Rotated(q, m);
    RotatedIs(q, m);
    RotatedMembers(q, m);
    var i', j' := if i < c then |q| - c + i else i - c, if j < c then |q| - c + j else j - c;
    assert r[i'] == q[i] && r[j'] == q[j];
  }

  /** Two sleepers, and one of them requeued onto the same address: the later one is now first. */
  lemma TurningReorders(k: Key)
    ensures var s := World(map[k := [1, 2]], map[], map[]);
      Ahead(s.Queue(k), 1, 2) && Ahead(Requeue(s, k, 0, 1, k).0.Queue(k), 2, 1)
  {
    var s := World(map[k := [1, 2]], map[], map[]);
    assert s.Queue(k)[0] == 1 && s.Queue(k)[1] == 2;
    RequeueOntoItself(s, k, 0, 1);
    assert s.Queue(k)[0..] == [1, 2];
    RotatedIs([1, 2], 1);
    var r := Requeue(s, k, 0, 1, k).0.Queue(k);
    assert r[0] == 2 && r[1] == 1;
  }
}
