/**
 POSIX advisory record locks of one inode (fs/lock.c).

 The list `posix_locks` is a sequence of byte-range locks. The abstract view is a
 map from (owner, byte) to the mode held there; `ModeAt` reads it off a list.
 */
module RecordLocks {

  /** F_RDLCK_, F_WRLCK_ and F_UNLCK_; a lock in a list is never of kind Unlock. */
  datatype Kind = Read | Write | Unlock

  datatype Lock = Lock(start: int, end: int, kind: Kind, pid: int, owner: int) {
    predicate Covers(b: int) { start <= b <= end }
  }

  // ----- the pure predicates -----

  predicate Overlap(a: Lock, b: Lock) {
    a.end >= b.start && b.end >= a.start
  }

  predicate Conflict(a: Lock, b: Lock) {
    a.owner != b.owner && Overlap(a, b) && (a.kind == Write || b.kind == Write)
  }

  predicate Adjacent(a: Lock, b: Lock) {
    a.end == b.start - 1 || b.end == a.start - 1
  }

  predicate Touch(a: Lock, b: Lock) {
    Overlap(a, b) || Adjacent(a, b)
  }

  // ----- the byte map a list stands for -----

  datatype Mode = Free | Shared | Exclusive

  function ModeOf(k: Kind): Mode {
    match k
    case Read => Shared
    case Write => Exclusive
    case Unlock => Free
  }

  ghost predicate Holds(locks: seq<Lock>, owner: int, b: int, k: Kind) {
    exists l :: l in locks && l.owner == owner && l.Covers(b) && l.kind == k
  }

  ghost function ModeAt(locks: seq<Lock>, owner: int, b: int): Mode {
    if Holds(locks, owner, b, Write) then Exclusive
    else if Holds(locks, owner, b, Read) then Shared
    else Free
  }

  /** Who holds which byte how: the state POSIX describes. */
  type ByteMap = (int, int) -> Mode

  ghost function Bytes(locks: seq<Lock>): ByteMap {
    (o, b) => ModeAt(locks, o, b)
  }

  /** What POSIX asks before a request is granted, said byte by byte. */
  ghost predicate MayGrant(m: ByteMap, q: Lock) {
    q.kind == Unlock ||
    forall o, b :: o != q.owner && q.Covers(b) ==> m(o, b) == Free || (m(o, b) == Shared && q.kind == Read)
  }

  // ----- well-formed lists -----

  ghost predicate ProperLock(l: Lock) {
    l.start <= l.end && l.kind != Unlock
  }

  /** Two locks of one owner share no byte, and locks of one kind do not even meet. */
  ghost predicate Apart(a: Lock, b: Lock) {
    a.owner == b.owner ==> !Overlap(a, b) && (a.kind == b.kind ==> !Adjacent(a, b))
  }

  ghost predicate Coalesced(locks: seq<Lock>) {
    && (forall l :: l in locks ==> ProperLock(l))
    && (forall i, j :: 0 <= i < j < |locks| ==> Apart(locks[i], locks[j]))
  }

  ghost predicate HasOwner(locks: seq<Lock>, o: int) {
    exists l :: l in locks && l.owner == o
  }

  /** The locks of each owner are consecutive. */
  ghost predicate Grouped(locks: seq<Lock>) {
    locks == [] ||
    (Grouped(locks[1..]) && (HasOwner(locks[1..], locks[0].owner) ==> locks[1].owner == locks[0].owner))
  }

  ghost predicate NoConflicts(locks: seq<Lock>) {
    forall a, b :: a in locks && b in locks ==> !Conflict(a, b)
  }

  ghost predicate WellFormed(locks: seq<Lock>) {
    Coalesced(locks) && Grouped(locks) && NoConflicts(locks)
  }

  // ----- specification of placing a request -----

  /** The request after it has swallowed a lock of its own kind. */
  function Merge(r: Lock, l: Lock): Lock {
    r.(start := if l.start < r.start then l.start else r.start,
       end := if l.end > r.end then l.end else r.end)
  }

  /** What is left of `l` once the bytes of `r` are taken out: two, one or no locks. */
  function Subtract(l: Lock, r: Lock): seq<Lock> {
    if r.start > l.start && r.end < l.end then [l.(end := r.start - 1), l.(start := r.end + 1)]
    else if r.start <= l.start && r.end >= l.end then []
    else if l.start < r.start then [l.(end := r.start - 1)]
    else if l.end > r.end then [l.(start := r.end + 1)]
    else [l]
  }

  function Place(locks: seq<Lock>, r: Lock, found: bool): seq<Lock> {
    if locks == [] then (if r.kind == Unlock then [] else [r])
    else if locks[0].owner != r.owner then
      if found then (if r.kind == Unlock then [] else [r]) + locks
      else [locks[0]] + Place(locks[1..], r, false)
    else if locks[0].kind == r.kind then
      if Touch(locks[0], r) then Place(locks[1..], Merge(r, locks[0]), true)
      else [locks[0]] + Place(locks[1..], r, true)
    else if Overlap(locks[0], r) then Subtract(locks[0], r) + Place(locks[1..], r, true)
    else [locks[0]] + Place(locks[1..], r, true)
  }

  // ----- lemmas about Place -----

  /** Once `found`, the owner's locks stand at the front of what is left. */
  ghost predicate Fronted(locks: seq<Lock>, o: int, found: bool) {
    found && HasOwner(locks, o) ==> locks[0].owner == o
  }

  lemma TailFacts(locks: seq<Lock>, o: int, found: bool)
    requires locks != [] && Coalesced(locks) && Grouped(locks) && Fronted(locks, o, found)
    ensures Coalesced(locks[1..]) && Grouped(locks[1..])
    ensures locks[0].owner == o ==> Fronted(locks[1..], o, true)
    ensures Fronted(locks[1..], o, false)
  {
  }

  lemma HoldsCons(l: Lock, rest: seq<Lock>, o: int, b: int, k: Kind)
    ensures Holds([l] + rest, o, b, k) <==> (l.owner == o && l.Covers(b) && l.kind == k) || Holds(rest, o, b, k)
  {
    var all := [l] + rest;
    if l.owner == o && l.Covers(b) && l.kind == k { assert l in all; }
    if Holds(rest, o, b, k) {
      var x :| x in rest && x.owner == o && x.Covers(b) && x.kind == k;
      assert x in all;
    }
  }

  lemma HoldsConcat(a: seq<Lock>, c: seq<Lock>, o: int, b: int, k: Kind)
    ensures Holds(a + c, o, b, k) <==> Holds(a, o, b, k) || Holds(c, o, b, k)
  {
    if Holds(a, o, b, k) {
      var x :| x in a && x.owner == o && x.Covers(b) && x.kind == k;
      assert x in a + c;
    }
    if Holds(c, o, b, k) {
      var x :| x in c && x.owner == o && x.Covers(b) && x.kind == k;
      assert x in a + c;
    }
  }

  /** `Place` sets the requester's bytes to the requested kind and moves nothing else. */
  lemma {:induction false} PlaceHolds(locks: seq<Lock>, r: Lock, found: bool, o: int, b: int, k: Kind)
    requires Coalesced(locks) && Grouped(locks) && Fronted(locks, r.owner, found)
    requires r.start <= r.end && k != Unlock
    ensures Holds(Place(locks, r, found), o, b, k) <==>
            if o == r.owner && r.Covers(b) then k == r.kind else Holds(locks, o, b, k)
    decreases locks
  {
    hide Holds, Coalesced, Grouped, Fronted, Subtract;
    if locks == [] {
      HoldsNothing(o, b, k);
      HoldsCons(r, [], o, b, k);
      assert [r] + [] == [r];
    } else {
      var l, rest := locks[0], locks[1..];
      assert locks == [l] + rest;
      TailFacts(locks, r.owner, found);
      HoldsCons(l, rest, o, b, k);
      if l.owner != r.owner {
        if found {
          HoldsCons(r, locks, o, b, k);
          assert [] + locks == locks;
          if o == r.owner { NotAmong(locks, o, b, k); }
        } else {
          PlaceHolds(rest, r, false, o, b, k);
          HoldsCons(l, Place(rest, r, false), o, b, k);
        }
      } else {
        FirstApart(locks);
        if l.Covers(b) { NotHeldToo(l, rest, b, k); }
        if l.kind == r.kind && Touch(l, r) {
          PlaceHolds(rest, Merge(r, l), true, o, b, k);
        } else {
          PlaceHolds(rest, r, true, o, b, k);
          if l.kind != r.kind && Overlap(l, r) {
            HoldsConcat(Subtract(l, r), Place(rest, r, true), o, b, k);
            SubtractHolds(l, r, o, b, k);
          } else {
            HoldsCons(l, Place(rest, r, true), o, b, k);
          }
        }
      }
    }
  }

  lemma HoldsNothing(o: int, b: int, k: Kind)
    ensures !Holds([], o, b, k)
  {
  }

  /** With the owner's group passed, no lock of the owner is left. */
  lemma NotAmong(locks: seq<Lock>, o: int, b: int, k: Kind)
    requires locks != [] && locks[0].owner != o && Fronted(locks, o, true)
    ensures !Holds(locks, o, b, k)
  {
  }

  /** A byte of the first lock is in no other lock of its owner. */
  lemma NotHeldToo(l: Lock, rest: seq<Lock>, b: int, k: Kind)
    requires l.Covers(b) && forall x :: x in rest ==> Apart(l, x)
    ensures !Holds(rest, l.owner, b, k)
  {
  }

  lemma SubtractHolds(l: Lock, r: Lock, o: int, b: int, k: Kind)
    requires Overlap(l, r) && r.start <= r.end
    ensures Holds(Subtract(l, r), o, b, k) <==> l.owner == o && l.Covers(b) && l.kind == k && !r.Covers(b)
  {
    var pieces := Subtract(l, r);
    if l.owner == o && l.Covers(b) && l.kind == k && !r.Covers(b) {
      if b < r.start {
        assert l.(end := r.start - 1) in pieces;
      } else {
        assert l.(start := r.end + 1) in pieces;
      }
    }
  }

  /** Every lock of the result is a proper one. */
  lemma {:induction false} PlaceProper(locks: seq<Lock>, r: Lock, found: bool)
    requires forall l :: l in locks ==> ProperLock(l)
    requires r.start <= r.end
    ensures forall l :: l in Place(locks, r, found) ==> ProperLock(l)
    decreases locks
  {
    if locks != [] {
      PlaceProper(locks[1..], r, false);
      PlaceProper(locks[1..], r, true);
      PlaceProper(locks[1..], Merge(r, locks[0]), true);
      assert forall x :: x in locks[1..] ==> x in locks;
      assert locks[0] in locks;
    }
  }

  /** A lock that keeps clear of the request and of the other locks keeps clear of the result. */
  lemma PlaceKeepsApart(p: Lock, locks: seq<Lock>, r: Lock, found: bool)
    requires Coalesced(locks) && Grouped(locks) && Fronted(locks, r.owner, found)
    requires r.start <= r.end && ProperLock(p)
    requires Apart(p, r)
    requires forall l :: l in locks ==> Apart(p, l)
    ensures forall x :: x in Place(locks, r, found) ==> Apart(p, x)
  {
    PlaceProper(locks, r, found);
    forall x | x in Place(locks, r, found) ensures Apart(p, x) {
      if x.owner == p.owner {
        ByteKeptClear(p, locks, r, found, x, x.start);
        ByteKeptClear(p, locks, r, found, x, x.end);
        if x.Covers(p.start) {
          ByteKeptClear(p, locks, r, found, x, p.start);
        }
      }
    }
  }

  lemma ByteKeptClear(p: Lock, locks: seq<Lock>, r: Lock, found: bool, x: Lock, b: int)
    requires Coalesced(locks) && Grouped(locks) && Fronted(locks, r.owner, found)
    requires r.start <= r.end && ProperLock(p) && ProperLock(x)
    requires Apart(p, r)
    requires forall l :: l in locks ==> Apart(p, l)
    requires x in Place(locks, r, found) && x.owner == p.owner && x.Covers(b)
    ensures !p.Covers(b) && (p.kind == x.kind ==> !p.Covers(b - 1) && !p.Covers(b + 1))
  {
    PlaceHolds(locks, r, found, x.owner, b, x.kind);
    assert Holds(Place(locks, r, found), x.owner, b, x.kind);
    if !(x.owner == r.owner && r.Covers(b)) {
      var l :| l in locks && l.owner == x.owner && l.Covers(b) && l.kind == x.kind;
      assert Apart(p, l);
    }
  }

  lemma {:induction false} PlaceCoalesced(locks: seq<Lock>, r: Lock, found: bool)
    requires Coalesced(locks) && Grouped(locks) && Fronted(locks, r.owner, found)
    requires r.start <= r.end
    ensures Coalesced(Place(locks, r, found))
    decreases locks
  {
    hide Grouped;
    PlaceProper(locks, r, found);
    if locks != [] {
      var l, rest := locks[0], locks[1..];
      TailFacts(locks, r.owner, found);
      FirstApart(locks);
      if l.owner != r.owner {
        if found {
          if r.kind != Unlock {
            assert forall x :: x in locks ==> x.owner != r.owner;
            ConsCoalesced(r, locks);
          }
        } else {
          PlaceCoalesced(rest, r, false);
          PlaceKeepsApart(l, rest, r, false);
          ConsCoalesced(l, Place(rest, r, false));
        }
      } else if l.kind == r.kind && Touch(l, r) {
        PlaceCoalesced(rest, Merge(r, l), true);
      } else {
        PlaceCoalesced(rest, r, true);
        if l.kind != r.kind && Overlap(l, r) {
          forall p | p in Subtract(l, r) ensures forall x :: x in Place(rest, r, true) ==> Apart(p, x) {
            assert forall x :: x in rest && Apart(l, x) ==> Apart(p, x);
            PlaceKeepsApart(p, rest, r, true);
          }
          ConcatCoalesced(Subtract(l, r), Place(rest, r, true));
        } else {
          PlaceKeepsApart(l, rest, r, true);
          ConsCoalesced(l, Place(rest, r, true));
        }
      }
    }
  }

  lemma FirstApart(locks: seq<Lock>)
    requires locks != [] && Coalesced(locks)
    ensures forall x :: x in locks[1..] ==> Apart(locks[0], x)
    ensures ProperLock(locks[0])
  {
    forall x | x in locks[1..] ensures Apart(locks[0], x) {
      var j :| 0 <= j < |locks[1..]| && locks[1..][j] == x;
      assert Apart(locks[0], locks[j + 1]);
    }
  }

  lemma ConsCoalesced(l: Lock, rest: seq<Lock>)
    requires ProperLock(l) && Coalesced(rest)
    requires forall x :: x in rest ==> Apart(l, x)
    ensures Coalesced([l] + rest)
  {
    ConcatCoalesced([l], rest);
  }

  lemma ConcatCoalesced(a: seq<Lock>, c: seq<Lock>)
    requires Coalesced(a) && Coalesced(c)
    requires forall p, x :: p in a && x in c ==> Apart(p, x)
    ensures Coalesced(a + c)
  {
    var all := a + c;
    forall i, j | 0 <= i < j < |all| ensures Apart(all[i], all[j]) {
      if i < |a| <= j {
        assert all[i] in a && all[j] in c;
      }
    }
  }

  lemma {:induction false} PlaceOwners(locks: seq<Lock>, r: Lock, found: bool, o: int)
    requires o != r.owner
    ensures HasOwner(Place(locks, r, found), o) <==> HasOwner(locks, o)
    decreases locks
  {
    if locks != [] {
      var l, rest := locks[0], locks[1..];
      OwnersConcat([l], rest, o);
      assert locks == [l] + rest;
      if l.owner != r.owner {
        if found {
          OwnersConcat([r], locks, o);
          assert [] + locks == locks;
        } else {
          PlaceOwners(rest, r, false, o);
          OwnersConcat([l], Place(rest, r, false), o);
        }
      } else if l.kind == r.kind && Touch(l, r) {
        PlaceOwners(rest, Merge(r, l), true, o);
      } else {
        PlaceOwners(rest, r, true, o);
        OwnersConcat([l], Place(rest, r, true), o);
        OwnersConcat(Subtract(l, r), Place(rest, r, true), o);
      }
    }
  }

  lemma OwnersConcat(a: seq<Lock>, c: seq<Lock>, o: int)
    ensures HasOwner(a + c, o) <==> HasOwner(a, o) || HasOwner(c, o)
    ensures |a| == 1 ==> (HasOwner(a, o) <==> a[0].owner == o)
  {
    if HasOwner(a, o) {
      var x :| x in a && x.owner == o;
      assert x in a + c;
    }
    if HasOwner(c, o) {
      var x :| x in c && x.owner == o;
      assert x in a + c;
    }
  }

  /** Placing keeps every owner's locks together. */
  lemma {:induction false} PlaceGrouped(locks: seq<Lock>, r: Lock, found: bool)
    requires Grouped(locks) && Fronted(locks, r.owner, found)
    ensures Grouped(Place(locks, r, found))
    ensures Fronted(Place(locks, r, found), r.owner, found)
    decreases locks
  {
    if locks == [] {
      assert [r][1..] == [];
    } else {
      var l, rest := locks[0], locks[1..];
      if l.owner != r.owner {
        if found {
          assert ([r] + locks)[1..] == locks;
          assert [] + locks == locks;
        } else {
          PlaceGrouped(rest, r, false);
          var out := Place(rest, r, false);
          assert ([l] + out)[1..] == out;
          PlaceOwners(rest, r, false, l.owner);
        }
      } else if l.kind == r.kind && Touch(l, r) {
        PlaceGrouped(rest, Merge(r, l), true);
      } else {
        PlaceGrouped(rest, r, true);
        var out := Place(rest, r, true);
        if l.kind != r.kind && Overlap(l, r) {
          PiecesGrouped(Subtract(l, r), out, r.owner);
        } else {
          ConsGrouped(l, out);
        }
      }
    }
  }

  lemma PiecesGrouped(pieces: seq<Lock>, rest: seq<Lock>, o: int)
    requires Grouped(rest) && Fronted(rest, o, true)
    requires |pieces| <= 2 && forall p :: p in pieces ==> p.owner == o
    ensures Grouped(pieces + rest) && Fronted(pieces + rest, o, true)
  {
    if |pieces| == 2 {
      ConsGrouped(pieces[1], rest);
      ConsGrouped(pieces[0], [pieces[1]] + rest);
      assert pieces + rest == [pieces[0]] + ([pieces[1]] + rest);
    } else if |pieces| == 1 {
      ConsGrouped(pieces[0], rest);
      assert pieces == [pieces[0]];
    } else {
      assert pieces + rest == rest;
    }
  }

  lemma ConsGrouped(l: Lock, rest: seq<Lock>)
    requires Grouped(rest)
    requires HasOwner(rest, l.owner) ==> rest[0].owner == l.owner
    ensures Grouped([l] + rest)
  {
    assert ([l] + rest)[1..] == rest;
  }

  /** A lock in the result carries the requester's pid, or is a piece of an old lock and carries that one's. */
  lemma {:induction false} PlacePids(locks: seq<Lock>, r: Lock, found: bool, l: Lock)
    requires l in Place(locks, r, found)
    ensures || (l.owner == r.owner && l.kind == r.kind && l.pid == r.pid)
            || exists o :: o in locks && l == o.(start := l.start, end := l.end) && o.start <= l.start && l.end <= o.end
    decreases locks
  {
    if locks != [] {
      var first, rest := locks[0], locks[1..];
      if first.owner != r.owner {
        if !found && l != first { PlacePids(rest, r, false, l); }
      } else if first.kind == r.kind {
        if Touch(first, r) {
          PlacePids(rest, Merge(r, first), true, l);
        } else if l != first {
          PlacePids(rest, r, true, l);
        }
      } else if Overlap(first, r) {
        if l in Subtract(first, r) {
          assert first in locks;
        } else {
          PlacePids(rest, r, true, l);
        }
      } else if l != first {
        PlacePids(rest, r, true, l);
      }
    }
  }

  // ----- granting -----

  /** The test both F_SETLK and F_GETLK make against the list. */
  predicate Blocked(locks: seq<Lock>, q: Lock) {
    exists l :: l in locks && Conflict(l, q)
  }

  /** The list test for a read or write request decides the byte-level rule, both ways. */
  lemma BlockedIffBytesForbid(locks: seq<Lock>, q: Lock)
    requires forall l :: l in locks ==> ProperLock(l)
    requires ProperLock(q)
    ensures Blocked(locks, q) <==> !MayGrant(Bytes(locks), q)
  {
    if Blocked(locks, q) {
      var l :| l in locks && Conflict(l, q);
      var b := if l.start >= q.start then l.start else q.start;
      assert Holds(locks, l.owner, b, l.kind);
      assert q.Covers(b) && l.owner != q.owner && Bytes(locks)(l.owner, b) != Free;
    } else {
      forall o, b | o != q.owner && q.Covers(b)
        ensures Bytes(locks)(o, b) == Free || (Bytes(locks)(o, b) == Shared && q.kind == Read)
      {
        forall k | Holds(locks, o, b, k) && (k == Write || q.kind == Write) ensures false {
          var l :| l in locks && l.owner == o && l.Covers(b) && l.kind == k;
          assert Conflict(l, q);
        }
      }
    }
  }

  // ----- one request, as a function of the list -----

  datatype Outcome = Granted(locks: seq<Lock>) | Again

  function Acquire(locks: seq<Lock>, q: Lock): Outcome {
    if q.kind != Unlock && Blocked(locks, q) then Again else Granted(Place(locks, q, false))
  }

  /** Granted or not, exactly by the byte rule. */
  lemma AcquireGrants(locks: seq<Lock>, q: Lock)
    requires WellFormed(locks) && q.start <= q.end
    ensures Acquire(locks, q).Granted? <==> MayGrant(Bytes(locks), q)
  {
    if q.kind != Unlock {
      BlockedIffBytesForbid(locks, q);
    }
  }

  /** A granted request rewrites the byte map in the requested range of its owner, and only there. */
  lemma AcquireRefinesByteMap(locks: seq<Lock>, q: Lock, o: int, b: int)
    requires WellFormed(locks) && q.start <= q.end
    requires Acquire(locks, q).Granted?
    ensures ModeAt(Acquire(locks, q).locks, o, b) ==
            if o == q.owner && q.Covers(b) then ModeOf(q.kind) else ModeAt(locks, o, b)
  {
    PlaceHolds(locks, q, false, o, b, Read);
    PlaceHolds(locks, q, false, o, b, Write);
  }

  lemma AcquireKeepsWellFormed(locks: seq<Lock>, q: Lock)
    requires WellFormed(locks) && q.start <= q.end
    requires Acquire(locks, q).Granted?
    ensures WellFormed(Acquire(locks, q).locks)
  {
    hide Place, Grouped;
    var out := Place(locks, q, false);
    PlaceProper(locks, q, false);
    hide Coalesced;
    Unfronted(locks, q.owner);
    PlaceCoalesced(locks, q, false);
    PlaceGrouped(locks, q, false);
    forall x, y | x in out && y in out ensures !Conflict(x, y) {
      if x.owner != y.owner && Overlap(x, y) && (x.kind == Write || y.kind == Write) {
        var b := if x.start >= y.start then x.start else y.start;
        HeldBefore(locks, q, x, b);
        HeldBefore(locks, q, y, b);
      }
    }
  }

  lemma Unfronted(locks: seq<Lock>, o: int)
    ensures Fronted(locks, o, false)
  {
  }

  /** A byte of a lock in the result was asked for just now, or already held that way. */
  lemma HeldBefore(locks: seq<Lock>, q: Lock, x: Lock, b: int)
    requires WellFormed(locks) && q.start <= q.end
    requires x in Place(locks, q, false) && x.Covers(b)
    ensures if x.owner == q.owner && q.Covers(b) then x.kind == q.kind
            else exists l :: l in locks && l.owner == x.owner && l.Covers(b) && l.kind == x.kind
  {
    PlaceProper(locks, q, false);
    PlaceHolds(locks, q, false, x.owner, b, x.kind);
    assert Holds(Place(locks, q, false), x.owner, b, x.kind);
  }

  // ----- dropping every lock of one owner -----

  function Without(locks: seq<Lock>, o: int): seq<Lock> {
    if locks == [] then []
    else (if locks[0].owner == o then [] else [locks[0]]) + Without(locks[1..], o)
  }

  /** What is left is the list without the owner's locks, in its order. */
  lemma WithoutSplits(a: seq<Lock>, b: seq<Lock>, o: int)
    ensures Without(a + b, o) == Without(a, o) + Without(b, o)
    ensures (forall l :: l in a ==> l.owner != o) ==> Without(a, o) == a
    ensures (forall l :: l in a ==> l.owner == o) ==> Without(a, o) == []
  {
    hide Without;
    WithoutConcat(a, b, o);
    WithoutAll(a, o);
  }

  lemma {:induction false} WithoutConcat(a: seq<Lock>, b: seq<Lock>, o: int)
    ensures Without(a + b, o) == Without(a, o) + Without(b, o)
  {
    if a == [] {
      assert a + b == b;
    } else {
      assert (a + b)[1..] == a[1..] + b;
      WithoutConcat(a[1..], b, o);
    }
  }

  lemma {:induction false} WithoutAll(a: seq<Lock>, o: int)
    ensures (forall l :: l in a ==> l.owner != o) ==> Without(a, o) == a
    ensures (forall l :: l in a ==> l.owner == o) ==> Without(a, o) == []
  {
    if a != [] {
      var rest := a[1..];
      WithoutAll(rest, o);
      assert a[0] in a && forall l :: l in rest ==> l in a;
      assert a == [a[0]] + rest;
    }
  }

  lemma {:induction false} WithoutMembers(locks: seq<Lock>, o: int)
    ensures forall l :: l in Without(locks, o) <==> l in locks && l.owner != o
  {
    if locks != [] {
      WithoutMembers(locks[1..], o);
      assert locks == [locks[0]] + locks[1..];
    }
  }

  lemma {:induction false} WithoutKeepsWellFormed(locks: seq<Lock>, o: int)
    requires WellFormed(locks)
    ensures WellFormed(Without(locks, o))
  {
    WithoutMembers(locks, o);
    if locks != [] {
      var l, rest := locks[0], locks[1..];
      assert locks == [l] + rest;
      WithoutKeepsWellFormed(rest, o);
      WithoutMembers(rest, o);
      var out := Without(rest, o);
      if l.owner != o {
        FirstApart(locks);
        ConsCoalesced(l, out);
        if HasOwner(out, l.owner) {
          assert rest[0].owner == l.owner;
        }
        ConsGrouped(l, out);
      } else {
        assert [] + out == out;
      }
    }
  }

  lemma WithoutFreesOwner(locks: seq<Lock>, gone: int, o: int, b: int)
    ensures ModeAt(Without(locks, gone), o, b) == if o == gone then Free else ModeAt(locks, o, b)
  {
    WithoutMembers(locks, gone);
  }

  // ----- whole runs against the byte map -----

  /** F_SETLK, F_GETLK and the clean-up when an owner closes the file. */
  datatype Op = Set(q: Lock) | Test(q: Lock) | DropOwner(owner: int)

  ghost predicate ProperOp(op: Op) {
    match op
    case Set(q) => q.start <= q.end
    case Test(q) => ProperLock(q)
    case DropOwner(_) => true
  }

  function Step(locks: seq<Lock>, op: Op): (seq<Lock>, bool) {
    match op
    case Set(q) =>
      (match Acquire(locks, q)
       case Granted(next) => (next, true)
       case Again => (locks, false))
    case Test(q) => (locks, !Blocked(locks, q))
    case DropOwner(o) => (Without(locks, o), true)
  }

  function Run(locks: seq<Lock>, ops: seq<Op>): (seq<Lock>, seq<bool>)
    decreases ops
  {
    if ops == [] then (locks, [])
    else
      var (next, answer) := Step(locks, ops[0]);
      var (last, answers) := Run(next, ops[1..]);
      (last, [answer] + answers)
  }

  ghost function Assign(m: ByteMap, q: Lock): ByteMap {
    (o, b) => if o == q.owner && q.Covers(b) then ModeOf(q.kind) else m(o, b)
  }

  ghost function StepBytes(m: ByteMap, op: Op): (ByteMap, bool) {
    match op
    case Set(q) => if MayGrant(m, q) then (Assign(m, q), true) else (m, false)
    case Test(q) => (m, MayGrant(m, q))
    case DropOwner(gone) => ((o, b) => if o == gone then Free else m(o, b), true)
  }

  ghost function RunBytes(m: ByteMap, ops: seq<Op>): (ByteMap, seq<bool>)
    decreases ops
  {
    if ops == [] then (m, [])
    else
      var (next, answer) := StepBytes(m, ops[0]);
      var (last, answers) := RunBytes(next, ops[1..]);
      (last, [answer] + answers)
  }

  ghost predicate Represents(locks: seq<Lock>, m: ByteMap) {
    forall o, b :: m(o, b) == ModeAt(locks, o, b)
  }

  lemma StepRefines(locks: seq<Lock>, m: ByteMap, op: Op)
    requires WellFormed(locks) && ProperOp(op) && Represents(locks, m)
    ensures WellFormed(Step(locks, op).0)
    ensures Step(locks, op).1 == StepBytes(m, op).1
    ensures Represents(Step(locks, op).0, StepBytes(m, op).0)
  {
    match op
    case Set(q) =>
      AcquireGrants(locks, q);
      assert MayGrant(m, q) <==> MayGrant(Bytes(locks), q);
      if Acquire(locks, q).Granted? {
        AcquireKeepsWellFormed(locks, q);
        forall o, b ensures StepBytes(m, op).0(o, b) == ModeAt(Step(locks, op).0, o, b) {
          AcquireRefinesByteMap(locks, q, o, b);
        }
      }
    case Test(q) =>
      BlockedIffBytesForbid(locks, q);
      assert MayGrant(m, q) <==> MayGrant(Bytes(locks), q);
    case DropOwner(gone) =>
      WithoutKeepsWellFormed(locks, gone);
      forall o, b ensures StepBytes(m, op).0(o, b) == ModeAt(Step(locks, op).0, o, b) {
        WithoutFreesOwner(locks, gone, o, b);
      }
  }

  /** Every run of the list machine gives the byte map's answers and ends in the byte map's state. */
  lemma {:induction false} RunRefines(locks: seq<Lock>, m: ByteMap, ops: seq<Op>)
    requires WellFormed(locks) && Represents(locks, m)
    requires forall op :: op in ops ==> ProperOp(op)
    ensures WellFormed(Run(locks, ops).0)
    ensures Run(locks, ops).1 == RunBytes(m, ops).1
    ensures Represents(Run(locks, ops).0, RunBytes(m, ops).0)
    decreases ops
  {
    if ops != [] {
      StepRefines(locks, m, ops[0]);
      RunRefines(Step(locks, ops[0]).0, StepBytes(m, ops[0]).0, ops[1..]);
    }
  }

  // ----- waking blocked requests -----

  /** Does the sweep signal `posix_unlock`? */
  function Signals(locks: seq<Lock>, r: Lock, found: bool): bool {
    locks != [] &&
    if locks[0].owner != r.owner then !found && Signals(locks[1..], r, false)
    else if locks[0].kind == r.kind then
      Signals(locks[1..], if Touch(locks[0], r) then Merge(r, locks[0]) else r, true)
    else Overlap(locks[0], r) || Signals(locks[1..], r, true)
  }

  /** Growing the request by merging adds no signals. */
  lemma {:induction false} SignalsIffOverridden(locks: seq<Lock>, r: Lock, found: bool)
    requires Coalesced(locks) && Grouped(locks) && Fronted(locks, r.owner, found)
    requires r.start <= r.end
    ensures Signals(locks, r, found) <==>
            exists l :: l in locks && l.owner == r.owner && l.kind != r.kind && Overlap(l, r)
    decreases locks
  {
    if locks != [] {
      var l, rest := locks[0], locks[1..];
      assert locks == [l] + rest;
      TailFacts(locks, r.owner, found);
      FirstApart(locks);
      if l.owner != r.owner {
        SignalsIffOverridden(rest, r, false);
      } else if l.kind == r.kind && Touch(l, r) {
        SignalsIffOverridden(rest, Merge(r, l), true);
        forall x | x in rest && x.owner == r.owner && x.kind != r.kind
          ensures Overlap(x, r) <==> Overlap(x, Merge(r, l)) {
          assert Apart(l, x);
        }
      } else {
        SignalsIffOverridden(rest, r, true);
      }
    }
  }

  /** No request of another process becomes grantable without a signal. */
  lemma NewlyGrantableIsSignalled(locks: seq<Lock>, q: Lock, waiting: Lock)
    requires WellFormed(locks) && q.start <= q.end && Acquire(locks, q).Granted?
    requires ProperLock(waiting)
    requires Blocked(locks, waiting) && !Blocked(Acquire(locks, q).locks, waiting)
    ensures Signals(locks, q, false)
  {
    var next := Acquire(locks, q).locks;
    AcquireKeepsWellFormed(locks, q);
    BlockedIffBytesForbid(next, waiting);
    SignalsIffOverridden(locks, q, false);
    var l :| l in locks && Conflict(l, waiting);
    var b := if l.start >= waiting.start then l.start else waiting.start;
    assert Holds(locks, l.owner, b, l.kind);
    AcquireRefinesByteMap(locks, q, l.owner, b);
    assert l.owner != waiting.owner && waiting.Covers(b);
    assert Bytes(next)(l.owner, b) != ModeAt(locks, l.owner, b);
  }

  /** A request that closing `gone`'s file lets through; file_lock_remove_owned_by signals nobody. */
  ghost predicate LeftAsleep(locks: seq<Lock>, gone: int, waiting: Lock) {
    ProperLock(waiting) && waiting.owner != gone && Blocked(locks, waiting) && !Blocked(Without(locks, gone), waiting)
  }

  /** Nobody but `gone`, and perhaps `w`, holds byte `b`; `gone` does. */
  ghost predicate HeldByOwnerAndAtMost(locks: seq<Lock>, gone: int, w: int, b: int) {
    && w != gone
    && ModeAt(locks, gone, b) != Free
    && forall o :: o != gone && o != w ==> ModeAt(locks, o, b) == Free
  }

  /**
   Closing leaves some possible waiter asleep exactly when the closing owner holds a
   byte that at most one other owner holds.
   */
  lemma DropOwnerLeavesAsleepIff(locks: seq<Lock>, gone: int)
    requires WellFormed(locks)
    ensures (exists waiting :: LeftAsleep(locks, gone, waiting)) <==>
            exists b, w :: HeldByOwnerAndAtMost(locks, gone, w, b)
  {
    if waiting :| LeftAsleep(locks, gone, waiting) {
      var b := AsleepOverByte(locks, gone, waiting);
    }
    if b, w :| HeldByOwnerAndAtMost(locks, gone, w, b) {
      var waiting := ByteLeavesAsleep(locks, gone, w, b);
    }
  }

  /** One write lock, whose owner closes while another process waits for the byte. */
  lemma CloseLeavesAsleep(gone: int, w: int, pid: int, b: int)
    requires w != gone
    ensures LeftAsleep([Lock(b, b, Write, pid, gone)], gone, Lock(b, b, Write, pid, w))
  {
    var l := Lock(b, b, Write, pid, gone);
    assert l in [l] && Conflict(l, Lock(b, b, Write, pid, w));
    assert [l][1..] == [] && Without([l], gone) == [];
  }

  lemma AsleepOverByte(locks: seq<Lock>, gone: int, waiting: Lock) returns (b: int)
    requires WellFormed(locks) && LeftAsleep(locks, gone, waiting)
    ensures HeldByOwnerAndAtMost(locks, gone, waiting.owner, b)
  {
    WithoutMembers(locks, gone);
    var l :| l in locks && Conflict(l, waiting);
    b := if l.start >= waiting.start then l.start else waiting.start;
    assert Holds(locks, gone, b, l.kind);
    forall x | x in locks && x.owner != gone && x.owner != waiting.owner ensures !x.Covers(b) {
      assert !Conflict(x, l) && !Conflict(x, waiting);
    }
  }

  lemma ByteLeavesAsleep(locks: seq<Lock>, gone: int, w: int, b: int) returns (waiting: Lock)
    requires WellFormed(locks) && HeldByOwnerAndAtMost(locks, gone, w, b)
    ensures LeftAsleep(locks, gone, waiting)
  {
    WithoutMembers(locks, gone);
    waiting := Lock(b, b, Write, 0, w);
    var k := if Holds(locks, gone, b, Write) then Write else Read;
    var l :| l in locks && l.owner == gone && l.Covers(b) && l.kind == k;
    assert Conflict(l, waiting);
    forall x | x in Without(locks, gone) ensures !Conflict(x, waiting) {
      if x.Covers(b) {
        assert Holds(locks, x.owner, b, x.kind);
        assert ModeAt(locks, x.owner, b) != Free;
      }
    }
  }

  // ----- struct flock and byte ranges -----

  const F_RDLCK := 0
  const F_WRLCK := 1
  const F_UNLCK := 2
  const LSEEK_SET := 0
  const LSEEK_CUR := 1
  const LSEEK_END := 2
  const EBADF := -9
  const EAGAIN := -11
  const EINVAL := -22
  const OFF_T_MIN := -0x8000_0000_0000_0000
  const OFF_T_MAX := 0x7fff_ffff_ffff_ffff

  datatype Flock = Flock(kind: int, whence: int, start: int, len: int, pid: int)

  /** 64-bit two's-complement wrap-around of a sum or difference of two off_t_ values. */
  function Wrap(x: int): int {
    if x > OFF_T_MAX then x - 0x1_0000_0000_0000_0000
    else if x < OFF_T_MIN then x + 0x1_0000_0000_0000_0000
    else x
  }

  function KindOf(kind: int): Kind {
    if kind == F_RDLCK then Read else if kind == F_WRLCK then Write else Unlock
  }

  function CodeOf(k: Kind): int {
    match k
    case Read => F_RDLCK
    case Write => F_WRLCK
    case Unlock => F_UNLCK
  }

  /** What the file can say about its position and size; a negative value is an error. */
  datatype File = File(position: int, size: int)

  datatype Conversion = Range(lock: Lock) | Error(err: int)

  /** The start a flock means, before its length is applied. */
  function Base(f: Flock, file: File): int {
    if f.whence == LSEEK_SET then 0 else if f.whence == LSEEK_CUR then file.position else file.size
  }

  function FromFlock(f: Flock, file: File, owner: int, pid: int): Conversion {
    if f.whence != LSEEK_SET && f.whence != LSEEK_CUR && f.whence != LSEEK_END then Error(EINVAL)
    else if Base(f, file) < 0 then Error(Base(f, file))
    else
      var s := Wrap(f.start + Base(f, file));
      if f.len > 0 then Range(Lock(s, Wrap(s + f.len - 1), KindOf(f.kind), pid, owner))
      else if f.len < 0 then
        var e := Wrap(s - 1);
        Range(Lock(Wrap(e + f.len + 1), e, KindOf(f.kind), pid, owner))
      else Range(Lock(s, OFF_T_MAX, KindOf(f.kind), pid, owner))
  }

  function ToFlock(l: Lock): Flock {
    Flock(CodeOf(l.kind), LSEEK_SET, l.start,
          if l.end != OFF_T_MAX then Wrap(l.end - l.start + 1) else 0, l.pid)
  }

  predicate OffT(x: int) { OFF_T_MIN <= x <= OFF_T_MAX }

  /** The bytes the fcntl() page assigns to a start and a length, offsets being unbounded. */
  predicate Requested(start: int, len: int, b: int) {
    if len > 0 then start <= b < start + len
    else if len < 0 then start + len <= b < start
    else start <= b <= OFF_T_MAX
  }

  /** The bytes asked for lie within the offset type, where there are any: `p` is the start without wrap-around. */
  predicate Representable(p: int, len: int) {
    if len > 0 then p + len - 1 <= OFF_T_MAX
    else if len < 0 then OFF_T_MIN < p <= OFF_T_MAX + 1 && p + len >= OFF_T_MIN
    else p <= OFF_T_MAX
  }

  /** The offset the fcntl() page measures the start from; a negative one is an error. */
  ghost predicate MeasuredFrom(f: Flock, file: File, origin: int) {
    || (f.whence == LSEEK_SET && origin == 0)
    || (f.whence == LSEEK_CUR && origin == file.position)
    || (f.whence == LSEEK_END && origin == file.size)
  }

  /** The bytes the fcntl() page assigns to a request. */
  ghost predicate AsksFor(f: Flock, file: File, b: int) {
    exists origin :: MeasuredFrom(f, file, origin) && Requested(f.start + origin, f.len, b)
  }

  /** The request has an origin, and its bytes lie within the offset type. */
  ghost predicate Addressable(f: Flock, file: File) {
    exists origin :: MeasuredFrom(f, file, origin) && origin >= 0 && Representable(f.start + origin, f.len)
  }

  lemma OneOrigin(f: Flock, file: File, origin: int)
    requires MeasuredFrom(f, file, origin)
    ensures origin == Base(f, file)
    ensures forall b :: AsksFor(f, file, b) <==> Requested(f.start + origin, f.len, b)
    ensures Addressable(f, file) <==> origin >= 0 && Representable(f.start + origin, f.len)
  {
  }

  /** The fields of a flock are 64-bit offsets. */
  predicate Offsets(f: Flock, file: File) {
    OffT(f.start) && OffT(f.len) && OffT(file.position) && OffT(file.size)
  }

  /** The lock covers the bytes POSIX assigns to the request. */
  ghost predicate MeansPosixRange(f: Flock, file: File, l: Lock) {
    forall b :: OffT(b) ==> (l.Covers(b) <==> AsksFor(f, file, b))
  }

  /** A flock is refused for an unknown whence, and with the error of the file when its origin has one. */
  lemma FromFlockErrors(f: Flock, file: File, owner: int, pid: int)
    ensures f.whence !in {LSEEK_SET, LSEEK_CUR, LSEEK_END} ==> FromFlock(f, file, owner, pid) == Error(EINVAL)
    ensures forall origin :: MeasuredFrom(f, file, origin) ==>
              if origin < 0 then FromFlock(f, file, owner, pid) == Error(origin)
              else FromFlock(f, file, owner, pid).Range?
  {
  }

  /** A flock means exactly the bytes POSIX assigns to it if and only if those are representable. */
  lemma FromFlockMeansPosixRangeIff(f: Flock, file: File, owner: int, pid: int)
    requires Offsets(f, file) && FromFlock(f, file, owner, pid).Range?
    ensures MeansPosixRange(f, file, FromFlock(f, file, owner, pid).lock) <==> Addressable(f, file)
  {
    var p, l := f.start + Base(f, file), FromFlock(f, file, owner, pid).lock;
    assert MeasuredFrom(f, file, Base(f, file));
    OneOrigin(f, file, Base(f, file));
    if !Representable(p, f.len) {
      var b := Misunderstood(p, f.len, l);
    }
  }

  /** The lock of an addressable request covers its bytes and no others, in or out of the offset type. */
  lemma AddressableCovers(f: Flock, file: File, owner: int, pid: int)
    requires Offsets(f, file) && Addressable(f, file)
    ensures FromFlock(f, file, owner, pid).Range?
    ensures var l := FromFlock(f, file, owner, pid).lock;
            l.start <= l.end && l.owner == owner && forall b :: l.Covers(b) <==> AsksFor(f, file, b)
  {
    var origin :| MeasuredFrom(f, file, origin) && origin >= 0 && Representable(f.start + origin, f.len);
    OneOrigin(f, file, origin);
  }

  // ----- what a request does, byte by byte -----

  /** The mode that F_SETLK asks for, read off the lock type. */
  function WantedMode(kind: int): Mode {
    if kind == F_UNLCK then Free else if kind == F_RDLCK then Shared else Exclusive
  }

  /** F_SETLK may be granted: no byte asked for is held by another owner in a mode that excludes the one asked for. */
  ghost predicate Compatible(locks: seq<Lock>, f: Flock, file: File, owner: int) {
    f.kind == F_UNLCK ||
    forall o, b :: o != owner && AsksFor(f, file, b) ==>
      ModeAt(locks, o, b) == Free || (ModeAt(locks, o, b) == Shared && f.kind == F_RDLCK)
  }

  /** After F_SETLK the owner holds the bytes asked for in the mode asked for, and nothing else has changed. */
  ghost predicate Applied(before: seq<Lock>, f: Flock, file: File, owner: int, after: seq<Lock>) {
    forall o, b :: ModeAt(after, o, b) ==
      if o == owner && AsksFor(f, file, b) then WantedMode(f.kind) else ModeAt(before, o, b)
  }

  /** A request is granted exactly when POSIX allows it, and does exactly what POSIX says, byte by byte. */
  lemma RequestOnBytes(locks: seq<Lock>, f: Flock, file: File, owner: int, pid: int)
    requires WellFormed(locks) && f.kind in {F_RDLCK, F_WRLCK, F_UNLCK}
    requires Offsets(f, file) && Addressable(f, file)
    ensures FromFlock(f, file, owner, pid).Range?
    ensures var out := Acquire(locks, FromFlock(f, file, owner, pid).lock);
            && (out.Granted? <==> Compatible(locks, f, file, owner))
            && (out.Granted? ==> Applied(locks, f, file, owner, out.locks))
  {
    hide ModeAt, AsksFor, Addressable, WellFormed, Place;
    AddressableCovers(f, file, owner, pid);
    var q := FromFlock(f, file, owner, pid).lock;
    AcquireGrants(locks, q);
    GrantOnBytes(locks, f, file, q);
    if Acquire(locks, q).Granted? {
      forall o, b ensures ModeAt(Acquire(locks, q).locks, o, b) ==
          if o == owner && AsksFor(f, file, b) then WantedMode(f.kind) else ModeAt(locks, o, b)
      {
        AcquireRefinesByteMap(locks, q, o, b);
      }
    }
  }

  lemma GrantOnBytes(locks: seq<Lock>, f: Flock, file: File, q: Lock)
    requires f.kind in {F_RDLCK, F_WRLCK, F_UNLCK} && q.kind == KindOf(f.kind)
    requires forall b :: q.Covers(b) <==> AsksFor(f, file, b)
    ensures MayGrant(Bytes(locks), q) <==> Compatible(locks, f, file, q.owner)
  {
    hide ModeAt, AsksFor;
    forall o, b ensures Bytes(locks)(o, b) == ModeAt(locks, o, b) {
    }
  }

  /** A byte that an unrepresentable request and the lock made of it disagree on. */
  lemma Misunderstood(p: int, len: int, l: Lock) returns (b: int)
    requires OFF_T_MIN <= p <= 2 * OFF_T_MAX && OffT(len) && !Representable(p, len)
    requires l.start == (if len < 0 then Wrap(Wrap(Wrap(p) - 1) + len + 1) else Wrap(p))
    requires l.end == (if len > 0 then Wrap(Wrap(p) + len - 1) else if len < 0 then Wrap(Wrap(p) - 1) else OFF_T_MAX)
    ensures OffT(b) && (l.Covers(b) <==> !Requested(p, len, b))
  {
    b := if len >= 0 then (if p <= OFF_T_MAX then p else l.start)
         else if p > OFF_T_MAX then (if p + len <= OFF_T_MAX then OFF_T_MAX else l.end)
         else if p == OFF_T_MIN then l.end else p - 1;
  }

  /**
   The ways to an inverted range: past the end forwards, or past the beginning backwards, or backwards from
   beyond the end.
   */
  lemma FromFlockInvertedIff(f: Flock, file: File, owner: int, pid: int)
    requires Offsets(f, file) && FromFlock(f, file, owner, pid).Range?
    ensures forall origin :: MeasuredFrom(f, file, origin) ==>
            var p, l := f.start + origin, FromFlock(f, file, owner, pid).lock;
            l.start > l.end <==>
            || (f.len > 0 && p <= OFF_T_MAX < p + f.len - 1)
            || (f.len < 0 && OFF_T_MIN < p <= OFF_T_MAX && p + f.len < OFF_T_MIN)
            || (f.len < 0 && p > OFF_T_MAX + 1 && p + f.len <= OFF_T_MAX)
  {
  }

  /** Two bytes from the last offset on: the range ends before it starts. */
  lemma FlockInverts(file: File, owner: int, pid: int)
    ensures FromFlock(Flock(F_WRLCK, LSEEK_SET, OFF_T_MAX, 2, 0), file, owner, pid) ==
            Range(Lock(OFF_T_MAX, OFF_T_MIN, Write, pid, owner))
  {
  }

  /** What F_GETLK reports reads back as the very lock it found, if and only if its length is representable. */
  lemma FlockRoundTripIff(l: Lock, file: File)
    requires ProperLock(l) && OffT(l.start) && OffT(l.end)
    ensures FromFlock(ToFlock(l), file, l.owner, ToFlock(l).pid) == Range(l) <==>
            l.end == OFF_T_MAX || l.end - l.start + 1 <= OFF_T_MAX
  {
    var f := ToFlock(l);
    if l.end != OFF_T_MAX {
      assert f.len == Wrap(l.end - l.start + 1);
    }
  }

  // ----- inverted requests -----

  /** No lock of the owner can be merged with an inverted request beside one that the request lies in. */
  lemma TouchApart(x: Lock, l: Lock, r: Lock)
    requires ProperLock(x) && ProperLock(l) && x.owner == l.owner && Apart(x, l)
    requires r.start > r.end && Overlap(l, r)
    ensures !Touch(x, r)
  {
  }

  /** Merging an inverted request with a lock it touches gives that lock's range. */
  lemma MergeInverted(l: Lock, r: Lock)
    requires ProperLock(l) && r.start > r.end && Touch(l, r)
    ensures Merge(r, l) == r.(start := l.start, end := l.end)
  {
  }

  /** An inverted request inside a lock leaves two pieces that overlap and cover the same bytes. */
  lemma SubtractInverted(l: Lock, r: Lock)
    requires ProperLock(l) && r.start > r.end && Overlap(l, r)
    ensures Subtract(l, r) == [l.(end := r.start - 1), l.(start := r.end + 1)]
    ensures !Coalesced(Subtract(l, r))
    ensures forall o, b, k :: Holds(Subtract(l, r), o, b, k) <==> Holds([l], o, b, k)
  {
    var p, q := l.(end := r.start - 1), l.(start := r.end + 1);
    assert Subtract(l, r)[0] == p && Subtract(l, r)[1] == q && !Apart(p, q);
    forall o, b, k ensures Holds([p, q], o, b, k) <==> Holds([l], o, b, k) {
      assert p in [p, q] && q in [p, q] && l in [l];
      assert l.Covers(b) <==> p.Covers(b) || q.Covers(b);
    }
  }

  /** Whatever an inverted request does to the list, no byte changes hands. */
  lemma {:induction false} InvertedHolds(locks: seq<Lock>, r: Lock, found: bool, o: int, b: int, k: Kind)
    requires Coalesced(locks) && Grouped(locks) && Fronted(locks, r.owner, found)
    requires r.start > r.end && k != Unlock
    ensures Holds(Place(locks, r, found), o, b, k) <==> Holds(locks, o, b, k)
    decreases locks
  {
    hide Holds, Coalesced, Grouped, Fronted, Subtract, Merge;
    if locks == [] {
      HoldsNothing(o, b, k);
      HoldsCons(r, [], o, b, k);
      assert [r] + [] == [r];
    } else {
      var l, rest := locks[0], locks[1..];
      assert locks == [l] + rest;
      TailFacts(locks, r.owner, found);
      FirstApart(locks);
      HoldsCons(l, rest, o, b, k);
      if l.owner != r.owner {
        if found {
          HoldsCons(r, locks, o, b, k);
          assert [] + locks == locks;
        } else {
          InvertedHolds(rest, r, false, o, b, k);
          HoldsCons(l, Place(rest, r, false), o, b, k);
        }
      } else if l.kind == r.kind && Touch(l, r) {
        MergeInverted(l, r);
        PlaceHolds(rest, Merge(r, l), true, o, b, k);
        if l.Covers(b) { NotHeldToo(l, rest, b, k); }
      } else {
        InvertedHolds(rest, r, true, o, b, k);
        if l.kind != r.kind && Overlap(l, r) {
          SubtractInverted(l, r);
          HoldsConcat(Subtract(l, r), Place(rest, r, true), o, b, k);
          HoldsNothing(o, b, k);
          HoldsCons(l, [], o, b, k);
          assert [l] + [] == [l];
        } else {
          HoldsCons(l, Place(rest, r, true), o, b, k);
        }
      }
    }
  }

  /** What an inverted request does to the list beyond leaving it as it is. */
  ghost predicate Spoils(locks: seq<Lock>, r: Lock) {
    || (exists l :: l in locks && l.owner == r.owner && l.kind != r.kind && Overlap(l, r))
    || (r.kind != Unlock && forall l :: l in locks && l.owner == r.owner && l.kind == r.kind ==> !Touch(l, r))
  }

  /** An inverted request that merges with nothing is put into the list as it is. */
  lemma {:induction false} InvertedStays(locks: seq<Lock>, r: Lock, found: bool)
    requires r.kind != Unlock
    requires forall l :: l in locks && l.owner == r.owner && l.kind == r.kind ==> !Touch(l, r)
    ensures r in Place(locks, r, found)
    decreases locks
  {
    hide Subtract, Touch;
    if locks != [] {
      InvertedStays(locks[1..], r, locks[0].owner == r.owner);
    }
  }

  lemma CoalescedParts(a: seq<Lock>, c: seq<Lock>)
    requires Coalesced(a + c)
    ensures Coalesced(a) && Coalesced(c)
  {
    var all := a + c;
    forall i, j | 0 <= i < j < |a| ensures Apart(a[i], a[j]) {
      assert all[i] == a[i] && all[j] == a[j];
    }
    forall i, j | 0 <= i < j < |c| ensures Apart(c[i], c[j]) {
      assert all[|a| + i] == c[i] && all[|a| + j] == c[j];
    }
  }

  /** An inverted request inside a lock of another kind leaves overlapping pieces. */
  lemma {:induction false} InvertedSplits(locks: seq<Lock>, r: Lock, found: bool, l: Lock)
    requires Coalesced(locks) && Grouped(locks) && Fronted(locks, r.owner, found)
    requires r.start > r.end && l in locks && l.owner == r.owner && l.kind != r.kind && Overlap(l, r)
    ensures !Coalesced(Place(locks, r, found))
    decreases locks
  {
    hide Coalesced, Grouped, Fronted, Subtract;
    var x, rest := locks[0], locks[1..];
    assert locks == [x] + rest;
    TailFacts(locks, r.owner, found);
    FirstApart(locks);
    if x == l {
      SubtractInverted(l, r);
      if Coalesced(Place(locks, r, found)) { CoalescedParts(Subtract(l, r), Place(rest, r, true)); }
    } else {
      assert l in rest;
      var own := x.owner == r.owner;
      if own {
        ProperMember(rest, l);
        TouchApart(x, l, r);
      } else {
        NotPassed(locks, found, l);
      }
      InvertedSplits(rest, r, own, l);
      assert Place(locks, r, found) == [x] + Place(rest, r, own);
      if Coalesced(Place(locks, r, found)) { CoalescedParts([x], Place(rest, r, own)); }
    }
  }

  lemma ProperMember(locks: seq<Lock>, l: Lock)
    requires Coalesced(locks) && l in locks
    ensures ProperLock(l)
  {
  }

  lemma NotPassed(locks: seq<Lock>, found: bool, l: Lock)
    requires l in locks && Fronted(locks, l.owner, found) && locks[0].owner != l.owner
    ensures !found
  {
  }

  /** An inverted request that touches a lock of its owner and kind acts as a request for that lock again. */
  lemma {:induction false} InvertedAsLock(locks: seq<Lock>, r: Lock, found: bool, t: Lock) returns (l: Lock)
    requires Coalesced(locks) && Grouped(locks) && Fronted(locks, r.owner, found)
    requires r.start > r.end && t in locks && t.owner == r.owner && t.kind == r.kind && Touch(t, r)
    requires forall x :: x in locks && x.owner == r.owner && x.kind != r.kind ==> !Overlap(x, r)
    ensures l in locks && l.owner == r.owner && l.kind == r.kind
    ensures Place(locks, r, found) == Place(locks, r.(start := l.start, end := l.end), found)
    decreases locks
  {
    hide Coalesced, Grouped, Fronted, Subtract, Merge;
    var x, rest := locks[0], locks[1..];
    assert locks == [x] + rest;
    TailFacts(locks, r.owner, found);
    FirstApart(locks);
    if x.owner == r.owner && x.kind == r.kind && Touch(x, r) {
      l := x;
      MergeInverted(x, r);
      MergeSame(x, r.(start := x.start, end := x.end));
    } else {
      assert t in rest;
      if x.owner != r.owner { NotPassed(locks, found, t); }
      l := InvertedAsLock(rest, r, x.owner == r.owner, t);
      assert Apart(x, l);
    }
  }

  lemma MergeSame(l: Lock, r: Lock)
    requires r.start == l.start && r.end == l.end
    ensures Merge(r, l) == r
  {
  }

  /** Nothing to cut and nothing to put in. */
  lemma {:induction false} IdleUnlock(locks: seq<Lock>, r: Lock, found: bool)
    requires r.kind == Unlock && forall l :: l in locks ==> l.kind != Unlock && (l.owner == r.owner ==> !Overlap(l, r))
    ensures Place(locks, r, found) == locks
    decreases locks
  {
    if locks != [] {
      IdleUnlock(locks[1..], r, locks[0].owner == r.owner);
      assert locks == [locks[0]] + locks[1..];
    }
  }

  /** The list stays well formed under an inverted request if and only if the request does not spoil it. */
  lemma InvertedWellFormedIff(locks: seq<Lock>, r: Lock)
    requires WellFormed(locks) && r.start > r.end
    ensures WellFormed(Place(locks, r, false)) <==> !Spoils(locks, r)
  {
    hide Place, Grouped;
    Unfronted(locks, r.owner);
    if l :| l in locks && l.owner == r.owner && l.kind != r.kind && Overlap(l, r) {
      InvertedSplits(locks, r, false, l);
    } else if r.kind == Unlock {
      IdleUnlock(locks, r, false);
    } else if Spoils(locks, r) {
      InvertedStays(locks, r, false);
    } else {
      var t :| t in locks && t.owner == r.owner && t.kind == r.kind && Touch(t, r);
      var l := InvertedAsLock(locks, r, false, t);
      var q := r.(start := l.start, end := l.end);
      assert !Blocked(locks, q) by {
        forall z | z in locks ensures !Conflict(z, q) { assert !Conflict(z, l); }
      }
      AcquireKeepsWellFormed(locks, q);
    }
  }

  /** The request of FlockInverts on an empty list leaves a lock that covers no byte. */
  lemma InvertedSpoils(owner: int, pid: int)
    ensures var r := Lock(OFF_T_MAX, OFF_T_MIN, Write, pid, owner);
            WellFormed([]) && Place([], r, false) == [r] && !WellFormed(Place([], r, false))
  {
    assert WellFormed([]);
    InvertedWellFormedIff([], Lock(OFF_T_MAX, OFF_T_MIN, Write, pid, owner));
  }

  /** And no byte changes hands. */
  lemma InvertedKeepsBytes(locks: seq<Lock>, r: Lock, o: int, b: int)
    requires WellFormed(locks) && r.start > r.end
    ensures ModeAt(Place(locks, r, false), o, b) == ModeAt(locks, o, b)
  {
    hide Place, Holds;
    Unfronted(locks, r.owner);
    InvertedHolds(locks, r, false, o, b, Write);
    InvertedHolds(locks, r, false, o, b, Read);
  }

  // ----- the inode's lock list -----

  lemma Regroup<T>(a: seq<T>, b: seq<T>, c: seq<T>)
    ensures a + (b + c) == (a + b) + c
  {
  }

  /** The sweep stands at `i` with request `r`, and will end in `target`. */
  ghost predicate Sweeping(list: seq<Lock>, i: nat, r: Lock, found: bool, target: seq<Lock>) {
    i <= |list| && list[..i] + Place(list[i..], r, found) == target
  }

  ghost predicate SignalsFrom(list: seq<Lock>, i: nat, r: Lock, found: bool) {
    i <= |list| && Signals(list[i..], r, found)
  }

  lemma SweepStart(list: seq<Lock>, r: Lock)
    ensures Sweeping(list, 0, r, false, Place(list, r, false))
    ensures SignalsFrom(list, 0, r, false) == Signals(list, r, false)
  {
    hide Place, Signals;
    assert list[0..] == list && list[..0] + Place(list, r, false) == Place(list, r, false);
  }

  /** A lock of another owner before the group, or one the request does not reach, stays. */
  lemma SweepPast(list: seq<Lock>, i: nat, r: Lock, found: bool, target: seq<Lock>)
    requires i < |list| && Sweeping(list, i, r, found, target)
    requires if list[i].owner != r.owner then !found
             else if list[i].kind == r.kind then !Touch(list[i], r) else !Overlap(list[i], r)
    ensures var f := list[i].owner == r.owner;
      Sweeping(list, i + 1, r, f, target) && SignalsFrom(list, i, r, found) == SignalsFrom(list, i + 1, r, f)
  {
    var f := list[i].owner == r.owner;
    assert list[i..][0] == list[i] && list[i..][1..] == list[i + 1..];
    Regroup(list[..i], [list[i]], Place(list[i + 1..], r, f));
    assert list[..i] + [list[i]] == list[..i + 1];
  }

  lemma SweepMerge(list: seq<Lock>, i: nat, r: Lock, found: bool, target: seq<Lock>)
    requires i < |list| && Sweeping(list, i, r, found, target)
    requires list[i].owner == r.owner && list[i].kind == r.kind && Touch(list[i], r)
    ensures var next := list[..i] + list[i + 1..];
      && Sweeping(next, i, Merge(r, list[i]), true, target)
      && SignalsFrom(list, i, r, found) == SignalsFrom(next, i, Merge(r, list[i]), true)
  {
    var next := list[..i] + list[i + 1..];
    assert list[i..][0] == list[i] && list[i..][1..] == list[i + 1..];
    assert next[..i] == list[..i] && next[i..] == list[i + 1..];
  }

  lemma SweepCut(list: seq<Lock>, i: nat, r: Lock, found: bool, target: seq<Lock>)
    requires i < |list| && Sweeping(list, i, r, found, target)
    requires list[i].owner == r.owner && list[i].kind != r.kind && Overlap(list[i], r)
    ensures var cut := Subtract(list[i], r);
      Sweeping(list[..i] + cut + list[i + 1..], i + |cut|, r, true, target) && SignalsFrom(list, i, r, found)
  {
    hide Subtract;
    var cut := Subtract(list[i], r);
    var next := list[..i] + cut + list[i + 1..];
    assert list[i..][0] == list[i] && list[i..][1..] == list[i + 1..];
    assert next[..i + |cut|] == list[..i] + cut && next[i + |cut|..] == list[i + 1..];
    Regroup(list[..i], cut, Place(list[i + 1..], r, true));
  }

  /** At the end of the owner's group the request goes in, unless it only unlocks. */
  lemma SweepEnd(list: seq<Lock>, i: nat, r: Lock, found: bool, target: seq<Lock>)
    requires Sweeping(list, i, r, found, target)
    requires i == |list| || (found && list[i].owner != r.owner)
    ensures target == if r.kind == Unlock then list else list[..i] + [r] + list[i..]
    ensures !SignalsFrom(list, i, r, found)
  {
    if i < |list| { assert list[i..][0] == list[i]; }
    Regroup(list[..i], [r], list[i..]);
    assert list[..i] + list[i..] == list;
  }

  datatype FdMode = ReadOnly | WriteOnly | ReadWrite

  /** A known lock type that the descriptor's access mode allows. */
  predicate Permitted(f: Flock, mode: FdMode) {
    || (f.kind == F_RDLCK && mode != WriteOnly)
    || (f.kind == F_WRLCK && mode != ReadOnly)
    || f.kind == F_UNLCK
  }

  class InodeLocks {
    var posixLocks: seq<Lock>
    /** How often `posix_unlock` has been signalled. */
    var signals: nat

    constructor ()
      ensures posixLocks == [] && signals == 0 && WellFormed(posixLocks)
    {
      posixLocks := [];
      signals := 0;
    }

    /** file_lock_test: the first lock in the way of a request. */
    method FirstConflict(request: Lock) returns (found: bool, index: nat)
      ensures found <==> Blocked(posixLocks, request)
      ensures found ==> index < |posixLocks| && Conflict(posixLocks[index], request)
      ensures found ==> forall j :: 0 <= j < index ==> !Conflict(posixLocks[j], request)
    {
      index := 0;
      while index < |posixLocks|
        invariant index <= |posixLocks|
        invariant forall j :: 0 <= j < index ==> !Conflict(posixLocks[j], request)
      {
        if Conflict(posixLocks[index], request) {
          return true, index;
        }
        index := index + 1;
      }
      found := false;
    }

    /** Takes the bytes of `r` out of the lock at `i`; `next` is where the sweep goes on. */
    method Cut(i: nat, r: Lock) returns (next: nat)
      requires i < |posixLocks| && Overlap(posixLocks[i], r)
      modifies this`posixLocks
      ensures posixLocks == old(posixLocks[..i]) + Subtract(old(posixLocks[i]), r) + old(posixLocks[i + 1..])
      ensures next == i + |Subtract(old(posixLocks[i]), r)|
    {
      var lock := posixLocks[i];
      next := i + 1;
      if r.start > lock.start && r.end < lock.end {
        var upper := lock.(start := r.end + 1);
        posixLocks := posixLocks[..i] + [lock.(end := r.start - 1), upper] + posixLocks[i + 1..];
        next := i + 2;
      } else if r.start <= lock.start && r.end >= lock.end {
        posixLocks := posixLocks[..i] + posixLocks[i + 1..];
        next := i;
      } else if lock.start < r.start {
        assert lock.end >= r.start;
        posixLocks := posixLocks[i := lock.(end := r.start - 1)];
      } else if lock.end > r.end {
        assert lock.start <= r.end;
        posixLocks := posixLocks[i := lock.(start := r.end + 1)];
      }
    }

    /** file_lock_acquire: `grown` is what the sweep leaves in the caller's request. */
    method AcquireLock(request: Lock) returns (err: int, grown: Lock)
      modifies this
      ensures Acquire(old(posixLocks), request).Again? ==>
              err == EAGAIN && posixLocks == old(posixLocks) && signals == old(signals) && grown == request
      ensures Acquire(old(posixLocks), request).Granted? ==>
              err == 0 && posixLocks == Acquire(old(posixLocks), request).locks
      ensures Acquire(old(posixLocks), request).Granted? ==>
              (signals > old(signals) <==> Signals(old(posixLocks), request, false))
      ensures signals >= old(signals)
    {
      hide Place, Signals, Subtract, Sweeping, SignalsFrom;
      grown := request;
      if request.kind != Unlock {
        var blocked, _ := FirstConflict(request);
        if blocked {
          return EAGAIN, grown;
        }
      }
      var found := false;
      var i := 0;
      ghost var target, wanted := Place(posixLocks, request, false), Signals(posixLocks, request, false);
      SweepStart(posixLocks, request);
      while i < |posixLocks|
        invariant 0 <= i <= |posixLocks|
        invariant grown.kind == request.kind && grown.owner == request.owner
        invariant Sweeping(posixLocks, i, grown, found, target)
        invariant signals >= old(signals)
        invariant wanted <==> signals > old(signals) || SignalsFrom(posixLocks, i, grown, found)
        decreases |posixLocks| - i
      {
        var lock := posixLocks[i];
        if !found {
          if lock.owner != grown.owner {
            SweepPast(posixLocks, i, grown, found, target);
            i := i + 1;
            continue;
          }
        } else {
          if lock.owner != grown.owner {
            break;
          }
        }
        ghost var before := found;
        found := true;
        if grown.kind == lock.kind {
          if !Overlap(lock, grown) && !Adjacent(grown, lock) {
            SweepPast(posixLocks, i, grown, before, target);
            i := i + 1;
            continue;
          }
          SweepMerge(posixLocks, i, grown, before, target);
          if lock.start < grown.start {
            grown := grown.(start := lock.start);
          }
          if lock.end > grown.end {
            grown := grown.(end := lock.end);
          }
          posixLocks := posixLocks[..i] + posixLocks[i + 1..];
        } else {
          if !Overlap(lock, grown) {
            SweepPast(posixLocks, i, grown, before, target);
            i := i + 1;
            continue;
          }
          SweepCut(posixLocks, i, grown, before, target);
          signals := signals + 1;
          i := Cut(i, grown);
        }
      }
      SweepEnd(posixLocks, i, grown, found, target);
      if grown.kind != Unlock {
        posixLocks := posixLocks[..i] + [grown] + posixLocks[i..];
      }
      err := 0;
    }

    /** file_lock_remove_owned_by. */
    method RemoveOwnedBy(owner: int)
      modifies this`posixLocks
      ensures posixLocks == Without(old(posixLocks), owner)
    {
      var i := 0;
      ghost var target := Without(posixLocks, owner);
      assert posixLocks[..0] + Without(posixLocks[0..], owner) == target;
      while i < |posixLocks|
        invariant 0 <= i <= |posixLocks|
        invariant posixLocks[..i] + Without(posixLocks[i..], owner) == target
        decreases |posixLocks| - i
      {
        ghost var before, lock, after := posixLocks[..i], posixLocks[i], posixLocks[i + 1..];
        assert posixLocks[i..][1..] == after;
        if posixLocks[i].owner == owner {
          posixLocks := posixLocks[..i] + posixLocks[i + 1..];
          assert posixLocks[..i] == before && posixLocks[i..] == after;
        } else {
          assert before + ([lock] + Without(after, owner)) == posixLocks[..i + 1] + Without(after, owner);
          i := i + 1;
        }
      }
    }

    /** fcntl_getlk: the answer is written over the caller's flock. */
    method GetLk(f: Flock, file: File, owner: int, pid: int) returns (err: int, reply: Flock)
      requires WellFormed(posixLocks)
      ensures f.kind != F_RDLCK && f.kind != F_WRLCK ==> err == EINVAL
      ensures (f.kind == F_RDLCK || f.kind == F_WRLCK) && f.whence !in {LSEEK_SET, LSEEK_CUR, LSEEK_END} ==>
              err == EINVAL
      ensures forall origin :: MeasuredFrom(f, file, origin) && origin < 0 ==>
                f.kind == F_RDLCK || f.kind == F_WRLCK ==> err == origin
      ensures err != 0 ==> reply == f
      ensures (f.kind == F_RDLCK || f.kind == F_WRLCK) && Offsets(f, file) && Addressable(f, file) ==>
              err == 0 && (reply.kind == F_UNLCK <==> Compatible(posixLocks, f, file, owner))
      ensures (f.kind == F_RDLCK || f.kind == F_WRLCK) && FromFlock(f, file, owner, pid).Range? ==>
              var request := FromFlock(f, file, owner, pid).lock;
              && err == 0
              && (reply.kind == F_UNLCK <==> Acquire(posixLocks, request).Granted?)
              && (reply.kind == F_UNLCK ==> reply == f.(kind := F_UNLCK))
              && (reply.kind != F_UNLCK ==> exists l :: l in posixLocks && Conflict(l, request) && reply == ToFlock(l))
    {
      if f.kind != F_RDLCK && f.kind != F_WRLCK {
        return EINVAL, f;
      }
      hide Place, Compatible, Addressable, Applied;
      if Offsets(f, file) && Addressable(f, file) { RequestOnBytes(posixLocks, f, file, owner, pid); }
      FromFlockErrors(f, file, owner, pid);
      match FromFlock(f, file, owner, pid)
      case Error(e) => return e, f;
      case Range(request) =>
        var found, i := FirstConflict(request);
        err := 0;
        if found {
          reply := ToFlock(posixLocks[i]);
          assert posixLocks[i] in posixLocks;
        } else {
          reply := f.(kind := F_UNLCK);
        }
    }

    /** fcntl_setlk without waiting. */
    method SetLk(f: Flock, mode: FdMode, file: File, owner: int, pid: int) returns (err: int)
      requires WellFormed(posixLocks)
      modifies this
      ensures err != 0 ==> posixLocks == old(posixLocks) && signals == old(signals)
      ensures f.kind !in {F_RDLCK, F_WRLCK, F_UNLCK} ==> err == EINVAL
      ensures f.kind == F_RDLCK && mode == WriteOnly ==> err == EBADF
      ensures f.kind == F_WRLCK && mode == ReadOnly ==> err == EBADF
      ensures Permitted(f, mode) && f.whence !in {LSEEK_SET, LSEEK_CUR, LSEEK_END} ==> err == EINVAL
      ensures forall origin :: Permitted(f, mode) && MeasuredFrom(f, file, origin) && origin < 0 ==> err == origin
      ensures Permitted(f, mode) && Offsets(f, file) && Addressable(f, file) ==>
              && err == (if Compatible(old(posixLocks), f, file, owner) then 0 else EAGAIN)
              && (err == 0 ==> Applied(old(posixLocks), f, file, owner, posixLocks))
      ensures Permitted(f, mode) && FromFlock(f, file, owner, pid).Range? ==>
              var request := FromFlock(f, file, owner, pid).lock;
              && err == (if Acquire(old(posixLocks), request).Granted? then 0 else EAGAIN)
              && (err == 0 ==> posixLocks == Acquire(old(posixLocks), request).locks)
              && (err == 0 && request.start <= request.end ==> WellFormed(posixLocks))
              && (err == 0 && request.start > request.end ==>
                    && (WellFormed(posixLocks) <==> !Spoils(old(posixLocks), request))
                    && forall o, b :: ModeAt(posixLocks, o, b) == ModeAt(old(posixLocks), o, b))
    {
      if f.kind != F_RDLCK && f.kind != F_WRLCK && f.kind != F_UNLCK {
        return EINVAL;
      }
      if f.kind == F_RDLCK && mode == WriteOnly {
        return EBADF;
      }
      if f.kind == F_WRLCK && mode == ReadOnly {
        return EBADF;
      }
      hide Place, Spoils, WellFormed, ModeAt, Compatible, Addressable, Applied;
      ghost var held := posixLocks;
      if Offsets(f, file) && Addressable(f, file) { RequestOnBytes(held, f, file, owner, pid); }
      FromFlockErrors(f, file, owner, pid);
      match FromFlock(f, file, owner, pid)
      case Error(e) => return e;
      case Range(request) =>
        var e, _ := AcquireLock(request);
        if e == 0 && request.start <= request.end {
          AcquireKeepsWellFormed(held, request);
        } else if e == 0 {
          InvertedWellFormedIff(held, request);
          forall o, b ensures ModeAt(posixLocks, o, b) == ModeAt(held, o, b) {
            InvertedKeepsBytes(held, request, o, b);
          }
        }
        return e;
    }
  }
}
