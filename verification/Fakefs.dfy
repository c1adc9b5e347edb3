/**
 Inode lifetime in fakefs: the tables of fs/fake-db.c, the inode_data of fs/inode.c and the
 open files of fs/generic.c, under every interleaving of the sections that hold a lock or
 run in a transaction.
 */
module Fakefs {
  import opened FakefsPaths

  datatype Stat = Stat(mode: nat, uid: nat, gid: nat, rdev: nat)

  /**
   An fd between fakefs_open and the end of generic_openat knows its inode number only;
   afterwards it also holds a reference to the inode_data.
   */
  datatype Fd = Opening(ino: int) | Open(ino: int)

  /**
   The paths and stats tables; the reference count of every live inode_data of the mount;
   the fds; and the inodes that an unlink has yet to check.
   */
  datatype State = State(paths: map<Path, int>, stats: map<int, Stat>, inodes: map<int, nat>, fds: map<int, Fd>,
      unchecked: multiset<int>)

  // ----- the locked sections -----

  /** path_create: `row` is the id the database hands out. */
  function Create(s: State, path: Path, stat: Stat, row: int): State {
    s.(stats := s.stats[row := stat], paths := s.paths[path := row])
  }

  /** The transaction of fakefs_open; without O_CREAT and without a row there is no fd. */
  function OpenFile(s: State, fd: int, path: Path, creat: bool, stat: Stat, row: int): State {
    if path in s.paths then s.(fds := s.fds[fd := Opening(s.paths[path])])
    else if creat then Create(s, path, stat, row).(fds := s.fds[fd := Opening(row)])
    else s
  }

  /** generic_openat under inodes_lock: fstat, then inode_get_unlocked; the fd is closed if the row is gone. */
  function Acquire(s: State, fd: int): State
    requires fd in s.fds
  {
    var ino := s.fds[fd].ino;
    if ino in s.stats then
      s.(inodes := s.inodes[ino := 1 + if ino in s.inodes then s.inodes[ino] else 0], fds := s.fds[fd := Open(ino)])
    else s.(fds := s.fds - {fd})
  }

  /** try_cleanup_inode. */
  function Cleanup(s: State, ino: int): State {
    if ino in s.paths.Values then s else s.(stats := s.stats - {ino})
  }

  /** inode_release, the last reference taking the inode_data out of the hash first. */
  function Release(s: State, ino: int): State
    requires ino in s.inodes && s.inodes[ino] > 0
  {
    if s.inodes[ino] == 1 then Cleanup(s.(inodes := s.inodes - {ino}), ino)
    else s.(inodes := s.inodes[ino := s.inodes[ino] - 1])
  }

  function Close(s: State, fd: int): State
    requires fd in s.fds && (s.fds[fd].Open? ==> s.fds[fd].ino in s.inodes && s.inodes[s.fds[fd].ino] > 0)
  {
    var t := s.(fds := s.fds - {fd});
    if s.fds[fd].Open? then Release(t, s.fds[fd].ino) else t
  }

  /** The transaction of fakefs_unlink and fakefs_rmdir. */
  function Unlink(s: State, path: Path): State
    requires path in s.paths
  {
    s.(paths := s.paths - {path}, unchecked := s.unchecked + multiset{s.paths[path]})
  }

  /** inode_check_orphaned, later and under inodes_lock. */
  function CheckOrphaned(s: State, ino: int): State {
    var t := s.(unchecked := s.unchecked - multiset{ino});
    if ino in s.inodes then t else Cleanup(t, ino)
  }

  function Link(s: State, src: Path, dst: Path): State
    requires src in s.paths
  {
    s.(paths := s.paths[dst := s.paths[src]])
  }

  datatype Step =
    | DoOpen(fd: int, path: Path, creat: bool, stat: Stat, row: int)
    | DoAcquire(fd: int)
    | DoClose(fd: int)
    | DoCreate(path: Path, stat: Stat, row: int)
    | DoLink(src: Path, dst: Path)
    | DoUnlink(path: Path)
    | DoCheck(ino: int)
    | DoRename(src: Path, dst: Path, out: map<Path, int>)
    | DoSetStat(fd: int, stat: Stat)

  /**
   Row ids are new, but an id may come back after its row is deleted. A rename that the
   real file system grants has apart or equal paths. The other guards are those the code has.
   */
  ghost predicate Enabled(s: State, step: Step) {
    match step
    case DoOpen(fd, _, _, _, row) => fd !in s.fds && row !in s.stats
    case DoAcquire(fd) => fd in s.fds && s.fds[fd].Opening?
    case DoClose(fd) => fd in s.fds && (s.fds[fd].Open? ==> s.fds[fd].ino in s.inodes && s.inodes[s.fds[fd].ino] > 0)
    case DoCreate(_, _, row) => row !in s.stats
    case DoLink(src, _) => src in s.paths
    case DoUnlink(path) => path in s.paths
    case DoCheck(ino) => ino in s.unchecked
    case DoRename(src, dst, out) =>
      (Apart(src, dst) && IsRenamed(s.paths, src, dst, out)) || (src == dst && out == s.paths)
    case DoSetStat(fd, _) => fd in s.fds && s.fds[fd].Open?
  }

  function Next(s: State, step: Step): State
    requires Enabled(s, step)
  {
    match step
    case DoOpen(fd, path, creat, stat, row) => OpenFile(s, fd, path, creat, stat, row)
    case DoAcquire(fd) => Acquire(s, fd)
    case DoClose(fd) => Close(s, fd)
    case DoCreate(path, stat, row) => Create(s, path, stat, row)
    case DoLink(src, dst) => Link(s, src, dst)
    case DoUnlink(path) => Unlink(s, path)
    case DoCheck(ino) => CheckOrphaned(s, ino)
    case DoRename(_, _, out) => s.(paths := out)
    case DoSetStat(fd, stat) => if s.fds[fd].ino in s.stats then s.(stats := s.stats[s.fds[fd].ino := stat]) else s
  }

  /** fakefs_fsetattr on an inode without a stats row kills the whole emulator. */
  ghost predicate Dies(s: State, step: Step)
    requires Enabled(s, step)
  {
    step.DoSetStat? && s.fds[step.fd].ino !in s.stats
  }

  // ----- what every interleaving keeps -----

  ghost function Holders(fds: map<int, Fd>, ino: int): set<int> {
    set fd | fd in fds && fds[fd] == Open(ino)
  }

  ghost predicate Inv(s: State) {
    && (forall p :: p in s.paths ==> s.paths[p] in s.stats)
    && (forall i :: i in s.inodes ==> i in s.stats && s.inodes[i] > 0 && s.inodes[i] == |Holders(s.fds, i)|)
    && (forall fd :: fd in s.fds && s.fds[fd].Open? ==> s.fds[fd].ino in s.inodes)
  }

  lemma HoldersAdd(fds: map<int, Fd>, fd: int, ino: int, i: int)
    requires fd in fds ==> fds[fd].Opening?
    ensures |Holders(fds[fd := Open(ino)], i)| == |Holders(fds, i)| + if i == ino then 1 else 0
  {
    assert Holders(fds[fd := Open(ino)], i) == if i == ino then Holders(fds, i) + {fd} else Holders(fds, i);
    assert fd !in Holders(fds, i);
  }

  lemma HoldersSame(fds: map<int, Fd>, fd: int, ino: int, i: int)
    requires fd in fds ==> fds[fd].Opening?
    ensures Holders(fds[fd := Opening(ino)], i) == Holders(fds, i) == Holders(fds - {fd}, i)
  {
  }

  lemma HoldersRemove(fds: map<int, Fd>, fd: int, i: int)
    requires fd in fds && fds[fd].Open?
    ensures |Holders(fds - {fd}, i)| == |Holders(fds, i)| - if i == fds[fd].ino then 1 else 0
  {
    assert fd in Holders(fds, fds[fd].ino);
    assert Holders(fds - {fd}, i) == if i == fds[fd].ino then Holders(fds, i) - {fd} else Holders(fds, i);
  }

  lemma OpenKeepsInv(s: State, fd: int, path: Path, creat: bool, stat: Stat, row: int)
    requires Inv(s) && fd !in s.fds && row !in s.stats
    ensures Inv(OpenFile(s, fd, path, creat, stat, row))
  {
    forall ino, i ensures Holders(s.fds[fd := Opening(ino)], i) == Holders(s.fds, i) {
      HoldersSame(s.fds, fd, ino, i);
    }
  }

  lemma AcquireKeepsInv(s: State, fd: int)
    requires Inv(s) && fd in s.fds && s.fds[fd].Opening?
    ensures Inv(Acquire(s, fd))
  {
    var ino := s.fds[fd].ino;
    forall i ensures |Holders(s.fds[fd := Open(ino)], i)| == |Holders(s.fds, i)| + if i == ino then 1 else 0 {
      HoldersAdd(s.fds, fd, ino, i);
    }
    forall i ensures Holders(s.fds - {fd}, i) == Holders(s.fds, i) {
      HoldersSame(s.fds, fd, ino, i);
    }
    if ino !in s.inodes {
      assert forall f :: f in s.fds && s.fds[f].Open? ==> s.fds[f].ino != ino;
      assert Holders(s.fds, ino) == {};
    }
  }

  lemma CloseKeepsInv(s: State, fd: int)
    requires Inv(s) && Enabled(s, DoClose(fd))
    ensures Inv(Close(s, fd))
  {
    if s.fds[fd].Open? {
      var ino := s.fds[fd].ino;
      forall i ensures |Holders(s.fds - {fd}, i)| == |Holders(s.fds, i)| - if i == ino then 1 else 0 {
        HoldersRemove(s.fds, fd, i);
      }
      if s.inodes[ino] == 1 {
        assert Holders(s.fds - {fd}, ino) == {};
        forall f | f in s.fds - {fd} && s.fds[f].Open? ensures s.fds[f].ino != ino {
          assert f !in Holders(s.fds - {fd}, ino);
        }
      }
    } else {
      forall i ensures Holders(s.fds - {fd}, i) == Holders(s.fds, i) {
        HoldersSame(s.fds, fd, s.fds[fd].ino, i);
      }
    }
  }

  lemma NextKeepsInv(s: State, step: Step)
    requires Inv(s) && Enabled(s, step)
    ensures Inv(Next(s, step)) && !Dies(s, step)
  {
    match step
    case DoOpen(fd, path, creat, stat, row) => OpenKeepsInv(s, fd, path, creat, stat, row);
    case DoAcquire(fd) => AcquireKeepsInv(s, fd);
    case DoClose(fd) => CloseKeepsInv(s, fd);
    case DoCreate(path, stat, row) =>
    case DoLink(src, dst) =>
    case DoUnlink(path) =>
    case DoCheck(ino) =>
    case DoRename(src, dst, out) =>
      if Apart(src, dst) {
        RenameMovesSubtree(s.paths, src, dst, out);
        forall p | p in out ensures out[p] in s.stats {
          assert out[p] in out.Values;
        }
      }
    case DoSetStat(fd, stat) =>
  }

  /** No step deletes the row of an inode that a path names or that an open file holds, before or after it. */
  lemma DeletedOnlyUnused(s: State, step: Step, ino: int)
    requires Inv(s) && Enabled(s, step)
    requires ino in s.stats && ino !in Next(s, step).stats
    ensures ino !in s.paths.Values && ino !in Next(s, step).paths.Values
    ensures forall fd :: fd in Next(s, step).fds ==> Next(s, step).fds[fd] != Open(ino)
    ensures ino !in Next(s, step).inodes
  {
    NextKeepsInv(s, step);
  }

  // ----- whole runs -----

  ghost predicate IsRun(s: State, steps: seq<Step>)
    decreases steps
  {
    steps == [] || (Enabled(s, steps[0]) && IsRun(Next(s, steps[0]), steps[1..]))
  }

  ghost function After(s: State, steps: seq<Step>): State
    requires IsRun(s, steps)
    decreases steps
  {
    if steps == [] then s else After(Next(s, steps[0]), steps[1..])
  }

  /** In every reachable state an open file has its stats row, so inode_read_stat_or_die does not die. */
  lemma {:induction false} RunNeverDies(s: State, steps: seq<Step>)
    requires Inv(s) && IsRun(s, steps)
    ensures Inv(After(s, steps))
    ensures forall step :: Enabled(After(s, steps), step) ==> !Dies(After(s, steps), step)
    ensures forall p :: p in After(s, steps).paths ==> After(s, steps).paths[p] in After(s, steps).stats
    decreases steps
  {
    if steps == [] {
      forall step | Enabled(s, step) ensures !Dies(s, step) {
        NextKeepsInv(s, step);
      }
    } else {
      NextKeepsInv(s, steps[0]);
      RunNeverDies(Next(s, steps[0]), steps[1..]);
    }
  }

  /** An unlinked file stays usable until its last fd closes, and its row is gone right after. */
  lemma LastCloseFrees(s: State, fd: int)
    requires Inv(s) && Enabled(s, DoClose(fd)) && s.fds[fd].Open? && s.fds[fd].ino !in s.paths.Values
    requires forall other :: other in s.fds && other != fd ==> s.fds[other] != s.fds[fd]
    ensures s.fds[fd].ino in s.stats && s.fds[fd].ino !in Close(s, fd).stats
  {
    var ino := s.fds[fd].ino;
    assert forall f :: f in Holders(s.fds, ino) <==> f == fd;
    assert Holders(s.fds, ino) == {fd};
  }

  // ----- no row without a reason -----

  /** Every stats row is named by a path, held by an inode_data, or about to be checked. */
  ghost predicate Accounted(s: State) {
    forall i :: i in s.stats ==> i in s.paths.Values || i in s.inodes || i in s.unchecked
  }

  /** The names that a step gives to another inode. */
  ghost predicate Replaces(s: State, step: Step, p: Path) {
    match step
    case DoCreate(path, _, _) => p == path
    case DoLink(src, dst) => p == dst && src != dst
    case DoRename(src, dst, _) => src != dst && Moved(s.paths, src, dst, p)
    case _ => false
  }

  /** Every name of an inode that nothing holds and no check will look at is replaced. */
  ghost predicate OverwritesLastName(s: State, step: Step) {
    exists i :: i in s.paths.Values && i !in s.inodes && i !in s.unchecked &&
      forall p :: p in s.paths && s.paths[p] == i ==> Replaces(s, step, p)
  }

  lemma NameKept(paths: map<Path, int>, p: Path)
    requires p in paths
    ensures paths[p] in paths.Values
  {
  }

  /** An inode loses its last name exactly when all its names are replaced. */
  lemma LosesNamesIff(s: State, step: Step, i: int)
    requires Inv(s) && Enabled(s, step) && (step.DoCreate? || step.DoLink? || step.DoRename?) && i in s.paths.Values
    ensures i in Next(s, step).paths.Values <==> exists p :: p in s.paths && s.paths[p] == i && !Replaces(s, step, p)
  {
    var out := Next(s, step).paths;
    if step.DoRename? && Apart(step.src, step.dst) { RenameMovesSubtree(s.paths, step.src, step.dst, out); }
    if p :| p in s.paths && s.paths[p] == i && !Replaces(s, step, p) {
      var q := if step.DoRename? && Under(step.src, p) then NewName(step.src, step.dst, p) else p;
      if step.DoRename? && step.src == step.dst { assert q == p; }
      assert q in out && out[q] == i;
      NameKept(out, q);
    }
    if q :| q in out && out[q] == i {
      var p := if step.DoRename? && Moved(s.paths, step.src, step.dst, q) then NewName(step.dst, step.src, q)
               else if step.DoLink? && q == step.dst then step.src
               else q;
      if step.DoRename? && Moved(s.paths, step.src, step.dst, q) {
        NewNameUnder(step.dst, step.src, q);
        if step.src != step.dst { ApartSubtrees(step.src, step.dst, p); }
      }
      if step.DoCreate? { assert q != step.path; }
      assert p in s.paths && s.paths[p] == i && !Replaces(s, step, p);
    }
  }

  lemma ValuesKept(paths: map<Path, int>, path: Path, ino: int)
    ensures forall i :: i in paths.Values && (path in paths ==> i != paths[path]) ==> i in paths[path := ino].Values
    ensures ino in paths[path := ino].Values
  {
    var out := paths[path := ino];
    assert out[path] == ino && path in out;
    forall i | i in paths.Values && (path in paths ==> i != paths[path]) ensures i in out.Values {
      var p :| p in paths && paths[p] == i;
      assert p in out && out[p] == i;
    }
  }

  lemma NamingKeepsAccountedIff(s: State, step: Step)
    requires Inv(s) && Accounted(s) && Enabled(s, step) && (step.DoCreate? || step.DoLink? || step.DoRename?)
    ensures Accounted(Next(s, step)) <==> !OverwritesLastName(s, step)
  {
    var t := Next(s, step);
    if step.DoCreate? { ValuesKept(s.paths, step.path, step.row); }
    assert t.inodes == s.inodes && t.unchecked == s.unchecked;
    assert forall i :: i in s.stats ==> i in t.stats;
    forall i | i in s.paths.Values
      ensures i in s.stats
      ensures i in t.paths.Values <==> exists p :: p in s.paths && s.paths[p] == i && !Replaces(s, step, p)
    {
      var p :| p in s.paths && s.paths[p] == i;
      LosesNamesIff(s, step, i);
    }
  }

  lemma CloseKeepsAccounted(s: State, fd: int)
    requires Accounted(s) && Enabled(s, DoClose(fd))
    ensures Accounted(Close(s, fd))
  {
  }

  lemma CheckKeepsAccounted(s: State, ino: int)
    requires Accounted(s)
    ensures Accounted(CheckOrphaned(s, ino))
  {
  }

  /** No step but exactly those leaves a row behind: rename, link and create check nothing they overwrite. */
  lemma NextKeepsAccountedIff(s: State, step: Step)
    requires Inv(s) && Accounted(s) && Enabled(s, step)
    ensures Accounted(Next(s, step)) <==> !OverwritesLastName(s, step)
  {
    hide Inv, Cleanup;
    match step
    case DoOpen(fd, path, creat, stat, row) => ValuesKept(s.paths, path, row);
    case DoAcquire(fd) =>
    case DoClose(fd) => CloseKeepsAccounted(s, fd);
    case DoUnlink(path) => UnlinkKeepsValues(s.paths, path);
    case DoCheck(ino) => CheckKeepsAccounted(s, ino);
    case DoSetStat(fd, stat) =>
    case _ => NamingKeepsAccountedIff(s, step);
  }

  lemma UnlinkKeepsValues(paths: map<Path, int>, path: Path)
    requires path in paths
    ensures forall i :: i in paths.Values && i != paths[path] ==> i in (paths - {path}).Values
  {
    forall i | i in paths.Values && i != paths[path] ensures i in (paths - {path}).Values {
      var p :| p in paths && paths[p] == i;
      assert p in paths - {path} && (paths - {path})[p] == i;
    }
  }

  /** Two files, one renamed over the other: the row of the second stays until the next mount deletes such rows. */
  lemma RenameLeaksRow(stat: Stat)
    ensures var s := State(map[[97] := 1, [98] := 2], map[1 := stat, 2 := stat], map[], map[], multiset{});
      var step := DoRename([97], [98], map[[98] := 1]);
      && Inv(s) && Accounted(s) && Enabled(s, step)
      && 2 in Next(s, step).stats && 2 !in Next(s, step).paths.Values && !Accounted(Next(s, step))
  {
    var paths: map<Path, int> := map[[97] := 1, [98] := 2];
    var out: map<Path, int> := map[[98] := 1];
    var s := State(paths, map[1 := stat, 2 := stat], map[], map[], multiset{});
    assert Accounted(s) by { assert paths[[97]] in paths.Values && paths[[98]] in paths.Values; }
    var src: Path, dst: Path := [97], [98];
    assert src[0] != dst[0] && Apart(src, dst);
    forall q: Path
      ensures Moved(paths, [97], [98], q) <==> q == [98]
      ensures Under([97], q) && q in paths <==> q == [97]
    {
      if Under([98], q) {
        var n := NewName([98], [97], q);
        assert n[0] == 97;
        assert n == [97] ==> q == [98];
      }
      assert NewName([98], [97], [98]) == [97];
    }
    assert IsRenamed(paths, [97], [98], out);
    assert 2 !in out.Values;
  }

  // ----- what each step means to a program -----

  /** What stat(2) finds at a path. */
  datatype Found = Found(stat: Stat) | Nothing

  function StatOf(s: State, path: Path): Found {
    if path in s.paths && s.paths[path] in s.stats then Found(s.stats[s.paths[path]]) else Nothing
  }

  /** Nothing but the names in `changed` has changed its inode. */
  ghost predicate OtherNamesKept(s: State, t: State, changed: set<Path>) {
    forall p :: p !in changed ==> (p in t.paths <==> p in s.paths) && (p in s.paths ==> t.paths[p] == s.paths[p])
  }

  /** An unlinked path names nothing, every other path names what it did, and no row or descriptor is touched. */
  lemma UnlinkRemoves(s: State, path: Path)
    requires Enabled(s, DoUnlink(path))
    ensures var t := Next(s, DoUnlink(path));
      && StatOf(t, path) == Nothing && path !in t.paths && OtherNamesKept(s, t, {path})
      && t.stats == s.stats && t.inodes == s.inodes && t.fds == s.fds
      && s.paths[path] in t.unchecked
  {
  }

  /** A linked path names the inode of the other: stat finds the same, and every other path is as it was. */
  lemma LinkShares(s: State, src: Path, dst: Path)
    requires Inv(s) && Enabled(s, DoLink(src, dst))
    ensures var t := Next(s, DoLink(src, dst));
      && dst in t.paths && src in t.paths && t.paths[dst] == t.paths[src] == s.paths[src]
      && StatOf(t, dst) == StatOf(t, src) == StatOf(s, src) && StatOf(t, dst).Found?
      && OtherNamesKept(s, t, {dst})
      && t.stats == s.stats && t.inodes == s.inodes && t.fds == s.fds && t.unchecked == s.unchecked
  {
  }

  /** A created file has the stat it was created with, on a row of its own. */
  lemma CreateNames(s: State, path: Path, stat: Stat, row: int)
    requires Inv(s) && Enabled(s, DoCreate(path, stat, row))
    ensures var t := Next(s, DoCreate(path, stat, row));
      && StatOf(t, path) == Found(stat) && OtherNamesKept(s, t, {path})
      && (forall p :: p != path ==> StatOf(t, p) == StatOf(s, p))
      && t.inodes == s.inodes && t.fds == s.fds && t.unchecked == s.unchecked
  {
  }

  /** Opening gives a descriptor on the inode the path names, made with the given stat if there was none. */
  lemma OpenFinds(s: State, fd: int, path: Path, creat: bool, stat: Stat, row: int)
    requires Inv(s) && Enabled(s, DoOpen(fd, path, creat, stat, row))
    ensures var t := Next(s, DoOpen(fd, path, creat, stat, row));
      && (fd in t.fds <==> path in s.paths || creat)
      && (fd in t.fds ==> path in t.paths && t.fds == s.fds[fd := Opening(t.paths[path])])
      && (fd !in t.fds || path in s.paths ==> t.paths == s.paths && t.stats == s.stats)
      && (path !in s.paths && creat ==> StatOf(t, path) == Found(stat) && t.paths[path] !in s.paths.Values)
      && OtherNamesKept(s, t, {path})
      && (forall p :: p != path ==> StatOf(t, p) == StatOf(s, p))
      && t.inodes == s.inodes && t.unchecked == s.unchecked
  {
    forall p | p in s.paths ensures s.paths[p] != row {
    }
  }

  /** The second half of an open: the descriptor counts as one more holder, or goes if its row has gone. */
  lemma AcquireHolds(s: State, fd: int)
    requires Inv(s) && Enabled(s, DoAcquire(fd))
    ensures var t, ino := Next(s, DoAcquire(fd)), s.fds[fd].ino;
      && t.paths == s.paths && t.stats == s.stats && t.unchecked == s.unchecked
      && (ino in s.stats ==>
            && t.fds == s.fds[fd := Open(ino)] && ino in t.inodes
            && t.inodes[ino] == |Holders(s.fds, ino)| + 1
            && forall i :: i != ino ==>
                 (i in t.inodes <==> i in s.inodes) && (i in s.inodes ==> t.inodes[i] == s.inodes[i]))
      && (ino !in s.stats ==> t.fds == s.fds - {fd} && t.inodes == s.inodes)
  {
    var ino := s.fds[fd].ino;
    if ino !in s.inodes {
      assert forall f :: f in s.fds && s.fds[f].Open? ==> s.fds[f].ino != ino;
      assert Holders(s.fds, ino) == {};
    }
  }

  /** A stat set through a descriptor is what stat then finds at every name of its inode, and nowhere else. */
  lemma SetStatReadsBack(s: State, fd: int, stat: Stat)
    requires Inv(s) && Enabled(s, DoSetStat(fd, stat))
    ensures var t, ino := Next(s, DoSetStat(fd, stat)), s.fds[fd].ino;
      && (forall p :: p in s.paths && s.paths[p] == ino ==> StatOf(t, p) == Found(stat))
      && (forall p :: !(p in s.paths && s.paths[p] == ino) ==> StatOf(t, p) == StatOf(s, p))
      && ino in t.stats && t.stats[ino] == stat
      && t.paths == s.paths && t.inodes == s.inodes && t.fds == s.fds && t.unchecked == s.unchecked
  {
  }

  /** A rename moves what stat finds below `src` to the same names below `dst`, and leaves rows and holders alone. */
  lemma RenameMoves(s: State, src: Path, dst: Path, out: map<Path, int>)
    requires Inv(s) && Enabled(s, DoRename(src, dst, out)) && Apart(src, dst)
    ensures var t := Next(s, DoRename(src, dst, out));
      && (forall p :: p in s.paths && Under(src, p) ==> StatOf(t, NewName(src, dst, p)) == StatOf(s, p))
      && (forall p :: Under(src, p) ==> StatOf(t, p) == Nothing)
      && (forall p :: !Under(src, p) && !Under(dst, p) ==> StatOf(t, p) == StatOf(s, p))
      && t.stats == s.stats && t.inodes == s.inodes && t.fds == s.fds && t.unchecked == s.unchecked
  {
    RenameMovesSubtree(s.paths, src, dst, out);
  }

  /** A closed descriptor is gone, and no other descriptor or name with it. */
  lemma CloseForgets(s: State, fd: int)
    requires Inv(s) && Enabled(s, DoClose(fd))
    ensures var t := Next(s, DoClose(fd));
      && t.fds == s.fds - {fd} && t.paths == s.paths && t.unchecked == s.unchecked
      && (forall p :: StatOf(t, p) == StatOf(s, p))
      && (s.fds[fd].Opening? ==> t.inodes == s.inodes && t.stats == s.stats)
  {
  }

  /** A check is done once, and deletes the row of an inode that has neither name nor holder, and nothing else. */
  lemma CheckDeletes(s: State, ino: int)
    requires Enabled(s, DoCheck(ino))
    ensures var t := Next(s, DoCheck(ino));
      && t.unchecked == s.unchecked - multiset{ino}
      && t.stats == (if ino in s.paths.Values || ino in s.inodes then s.stats else s.stats - {ino})
      && t.paths == s.paths && t.inodes == s.inodes && t.fds == s.fds
  {
  }

  /** The only name of an inode. */
  ghost predicate OnlyName(s: State, path: Path, ino: int) {
    path in s.paths && s.paths[path] == ino && forall p :: p in s.paths && s.paths[p] == ino ==> p == path
  }

  ghost predicate OnlyHolder(s: State, fd: int, ino: int) {
    fd in s.fds && s.fds[fd] == Open(ino) && forall f :: f in s.fds && f != fd ==> s.fds[f] != Open(ino)
  }

  lemma UnlinkUnnames(s: State, path: Path, ino: int)
    requires Inv(s) && OnlyName(s, path, ino)
    ensures ino !in Unlink(s, path).paths.Values && ino in Unlink(s, path).unchecked
  {
    var t := Unlink(s, path);
    assert forall p :: p in t.paths ==> t.paths[p] != ino;
  }

  /** A file that nobody has open is gone after unlink and its check. */
  lemma UnlinkFrees(s: State, path: Path, ino: int)
    requires Inv(s) && OnlyName(s, path, ino) && ino !in s.inodes
    ensures var t := Next(s, DoUnlink(path));
      Enabled(t, DoCheck(ino)) && ino !in Next(t, DoCheck(ino)).stats
  {
    UnlinkUnnames(s, path, ino);
  }

  /** One that is open stays whole until the last descriptor goes, whether the check comes before or after. */
  lemma UnlinkedUntilClosed(s: State, path: Path, ino: int, fd: int)
    requires Inv(s) && OnlyName(s, path, ino) && OnlyHolder(s, fd, ino)
    ensures var t := Next(s, DoUnlink(path));
      && Enabled(t, DoCheck(ino)) && Enabled(t, DoClose(fd))
      && ino in Next(t, DoCheck(ino)).stats && Next(t, DoCheck(ino)).stats[ino] == s.stats[ino]
      && Enabled(Next(t, DoCheck(ino)), DoClose(fd)) && Enabled(Next(t, DoClose(fd)), DoCheck(ino))
      && ino !in Next(Next(t, DoCheck(ino)), DoClose(fd)).stats
      && ino !in Next(Next(t, DoClose(fd)), DoCheck(ino)).stats
  {
    var t := Next(s, DoUnlink(path));
    UnlinkUnnames(s, path, ino);
    NextKeepsInv(s, DoUnlink(path));
    NextKeepsInv(t, DoCheck(ino));
    LastCloseFrees(t, fd);
    LastCloseFrees(Next(t, DoCheck(ino)), fd);
  }

  ghost predicate NoOverwriting(s: State, steps: seq<Step>)
    requires IsRun(s, steps)
    decreases steps
  {
    steps == [] || (!OverwritesLastName(s, steps[0]) && NoOverwriting(Next(s, steps[0]), steps[1..]))
  }

  /** After any run that overwrites no last name, an inode without a name, a holder or a pending check has no row. */
  lemma {:induction false} RunFreesUnused(s: State, steps: seq<Step>, ino: int)
    requires Inv(s) && Accounted(s) && IsRun(s, steps) && NoOverwriting(s, steps)
    ensures var t := After(s, steps);
      && Accounted(t)
      && (ino in t.stats ==>
            || ino in t.paths.Values || ino in t.unchecked
            || exists fd :: fd in t.fds && t.fds[fd] == Open(ino))
    decreases steps
  {
    hide Accounted, OverwritesLastName;
    if steps == [] {
      if ino in s.stats { HeldByDescriptor(s, ino); }
    } else {
      NextKeepsInv(s, steps[0]);
      NextKeepsAccountedIff(s, steps[0]);
      RunFreesUnused(Next(s, steps[0]), steps[1..], ino);
    }
  }

  lemma HeldByDescriptor(s: State, ino: int)
    requires Inv(s) && Accounted(s) && ino in s.stats
    ensures ino in s.paths.Values || ino in s.unchecked || exists fd :: fd in s.fds && s.fds[fd] == Open(ino)
  {
    NoHolders(s.fds, ino);
  }

  lemma NoHolders(fds: map<int, Fd>, ino: int)
    ensures (forall fd :: fd in fds ==> fds[fd] != Open(ino)) ==> |Holders(fds, ino)| == 0
  {
    if forall fd :: fd in fds ==> fds[fd] != Open(ino) {
      assert Holders(fds, ino) == {};
    }
  }
}
