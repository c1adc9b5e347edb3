/**
 The code behind `Fakefs`: inode_data records in the hash chains of fs/inode.c, descriptors
 that point at them, and the transactions of fs/fake.c, refining the steps proved safe there.
 */
module FakefsInodes {
  import opened FakefsPaths
  import opened Fakefs

  /** struct inode_data; its address in memory is the number it has in `records`. The table is shared by all mounts. */
  datatype Record = Record(mount: int, number: int, refcount: nat)

  /** A struct fd before and after generic_openat has set its inode pointer. */
  datatype File = Unset(ino: int) | Set(ino: int, inode: int)

  // ----- hash chains -----

  /** The index into inodes_hash. */
  function Bucket(ino: int): nat {
    ino % 1024
  }

  function Chain(buckets: map<nat, seq<int>>, h: nat): seq<int> {
    if h in buckets then buckets[h] else []
  }

  /** A chain holds the records of its bucket, each once. */
  ghost predicate ChainOk(records: map<int, Record>, chain: seq<int>, h: nat) {
    && (forall p :: p in chain <==> p in records && Bucket(records[p].number) == h)
    && (forall i, j :: 0 <= i < j < |chain| ==> chain[i] != chain[j])
  }

  ghost predicate UniqueRecords(records: map<int, Record>) {
    forall p, q :: p in records && q in records && IsFor(records[p], records[q].mount, records[q].number) ==> p == q
  }

  ghost predicate Hashed(records: map<int, Record>, buckets: map<nat, seq<int>>, next: int) {
    && (forall h: nat :: ChainOk(records, Chain(buckets, h), h))
    && UniqueRecords(records)
    && (forall p :: p in records ==> p < next)
  }

  predicate IsFor(r: Record, mount: int, ino: int) {
    r.mount == mount && r.number == ino
  }

  ghost predicate HasRecord(records: map<int, Record>, mount: int, ino: int) {
    exists p :: p in records && IsFor(records[p], mount, ino)
  }

  /** What inode_get_unlocked does to the records: one more reference, on a new record if there was none. */
  ghost predicate Got(before: map<int, Record>, after: map<int, Record>, mount: int, ino: int, p: int) {
    && p in after && IsFor(after[p], mount, ino)
    && if p in before then
         && IsFor(before[p], mount, ino)
         && after == before[p := before[p].(refcount := before[p].refcount + 1)]
       else !HasRecord(before, mount, ino) && after == before[p := Record(mount, ino, 1)]
  }

  /** What inode_release does to them: one reference less, and the record freed with the last. */
  function Put(records: map<int, Record>, p: int): map<int, Record>
    requires p in records
  {
    if records[p].refcount <= 1 then records - {p} else records[p := records[p].(refcount := records[p].refcount - 1)]
  }

  lemma AddHashed(records: map<int, Record>, buckets: map<nat, seq<int>>, next: int, r: Record)
    requires Hashed(records, buckets, next) && !HasRecord(records, r.mount, r.number)
    ensures var h := Bucket(r.number);
      Hashed(records[next := r], buckets[h := [next] + Chain(buckets, h)], next + 1)
  {
    var h := Bucket(r.number);
    var more, links := records[next := r], buckets[h := [next] + Chain(buckets, h)];
    forall k: nat ensures ChainOk(more, Chain(links, k), k) {
      assert ChainOk(records, Chain(buckets, k), k);
      var c := Chain(buckets, k);
      assert Chain(links, k) == if k == h then [next] + c else c;
      assert next !in c && forall p :: p in [next] + c <==> p == next || p in c;
      forall i | 0 <= i < |c| ensures c[i] != next { assert c[i] in c; }
    }
    assert forall p :: p in records ==> !IsFor(records[p], r.mount, r.number);
  }

  lemma CountHashed(records: map<int, Record>, buckets: map<nat, seq<int>>, next: int, p: int, n: nat)
    requires Hashed(records, buckets, next) && p in records
    ensures Hashed(records[p := records[p].(refcount := n)], buckets, next)
  {
    var more := records[p := records[p].(refcount := n)];
    forall k: nat ensures ChainOk(more, Chain(buckets, k), k) {
      assert ChainOk(records, Chain(buckets, k), k);
    }
  }

  function Unchained(chain: seq<int>, p: int): seq<int> {
    if chain == [] then [] else if chain[0] == p then chain[1..] else [chain[0]] + Unchained(chain[1..], p)
  }

  lemma {:induction false} UnchainedMembers(chain: seq<int>, p: int)
    requires forall i, j :: 0 <= i < j < |chain| ==> chain[i] != chain[j]
    ensures forall q :: q in Unchained(chain, p) <==> q in chain && q != p
    ensures forall i, j :: 0 <= i < j < |Unchained(chain, p)| ==> Unchained(chain, p)[i] != Unchained(chain, p)[j]
  {
    if chain != [] {
      var first, rest := chain[0], chain[1..];
      assert chain == [first] + rest;
      assert forall i :: 0 <= i < |rest| ==> rest[i] == chain[i + 1];
      assert first !in rest;
      UnchainedMembers(rest, p);
      if first != p {
        var out := Unchained(rest, p);
        assert forall i :: 0 <= i < |out| ==> out[i] in out;
      }
    }
  }

  lemma RemoveHashed(records: map<int, Record>, buckets: map<nat, seq<int>>, next: int, p: int)
    requires Hashed(records, buckets, next) && p in records
    ensures var h := Bucket(records[p].number);
      Hashed(records - {p}, buckets[h := Unchained(Chain(buckets, h), p)], next)
  {
    var h := Bucket(records[p].number);
    var less, links := records - {p}, buckets[h := Unchained(Chain(buckets, h), p)];
    forall k: nat ensures ChainOk(less, Chain(links, k), k) {
      assert ChainOk(records, Chain(buckets, k), k);
      UnchainedMembers(Chain(buckets, k), p);
      assert Chain(links, k) == if k == h then Unchained(Chain(buckets, h), p) else Chain(buckets, k);
    }
  }

  // ----- refinement -----

  /** A descriptor and its abstract state; an inode pointer leads to the record of its inode. */
  ghost predicate FileOk(records: map<int, Record>, mount: int, file: File, fd: Fd) {
    match file
    case Unset(ino) => fd == Opening(ino)
    case Set(ino, p) => fd == Open(ino) && p in records && IsFor(records[p], mount, ino)
  }

  ghost predicate Refines(records: map<int, Record>, files: map<int, File>, mount: int, s: State) {
    && (forall p :: p in records && records[p].mount == mount ==>
          records[p].number in s.inodes && records[p].refcount == s.inodes[records[p].number])
    && (forall i :: i in s.inodes ==> HasRecord(records, mount, i))
    && files.Keys == s.fds.Keys
    && (forall fd :: fd in files ==> FileOk(records, mount, files[fd], s.fds[fd]))
  }

  /** A file opened in the tables only. */
  lemma OpenRefines(records: map<int, Record>, files: map<int, File>, mount: int, s: State, t: State, fd: int, ino: int)
    requires Refines(records, files, mount, s) && t.inodes == s.inodes && t.fds == s.fds[fd := Opening(ino)]
    ensures Refines(records, files[fd := Unset(ino)], mount, t)
  {
  }

  lemma DropRefines(records: map<int, Record>, files: map<int, File>, mount: int, s: State, t: State, fd: int)
    requires Refines(records, files, mount, s) && t.inodes == s.inodes && t.fds == s.fds - {fd}
    ensures Refines(records, files - {fd}, mount, t)
  {
  }

  lemma HasRecordKept(before: map<int, Record>, after: map<int, Record>, mount: int, ino: int)
    requires HasRecord(before, mount, ino)
    requires forall p :: p in before ==>
               p in after && after[p].mount == before[p].mount && after[p].number == before[p].number
    ensures HasRecord(after, mount, ino)
  {
    var p :| p in before && IsFor(before[p], mount, ino);
    assert p in after && IsFor(after[p], mount, ino);
  }

  /** Taking the inode of a file whose row exists. */
  lemma GetRefines(records: map<int, Record>, after: map<int, Record>, files: map<int, File>, mount: int, s: State,
      fd: int, p: int)
    requires Refines(records, files, mount, s) && Inv(s) && UniqueRecords(records)
    requires fd in s.fds && s.fds[fd].Opening? && s.fds[fd].ino in s.stats
    requires Got(records, after, mount, s.fds[fd].ino, p)
    ensures Refines(after, files[fd := Set(s.fds[fd].ino, p)], mount, Acquire(s, fd))
  {
    var ino, t := s.fds[fd].ino, Acquire(s, fd);
    assert ino in s.inodes <==> HasRecord(records, mount, ino) by {
      if HasRecord(records, mount, ino) {
        var q :| q in records && IsFor(records[q], mount, ino);
      }
    }
    assert p in records ==> HasRecord(records, mount, ino);
    assert forall q :: q in records && q != p ==> !IsFor(records[q], mount, ino);
    forall i | i in t.inodes ensures HasRecord(after, mount, i) {
      if i == ino {
        assert IsFor(after[p], mount, i);
      } else {
        HasRecordKept(records, after, mount, i);
      }
    }
    forall q | q in after && after[q].mount == mount
      ensures after[q].number in t.inodes && after[q].refcount == t.inodes[after[q].number]
    {
      assert q != p ==> q in records && after[q] == records[q] && after[q].number != ino;
    }
  }

  /** Releasing the inode of a descriptor that is closed. */
  lemma PutRefines(records: map<int, Record>, files: map<int, File>, mount: int, s: State, fd: int, p: int)
    requires Refines(records, files, mount, s) && Inv(s) && UniqueRecords(records)
    requires fd in files && files[fd] == Set(s.fds[fd].ino, p) && Enabled(s, DoClose(fd))
    ensures p in records && Refines(Put(records, p), files - {fd}, mount, Close(s, fd))
  {
    var ino, t, after := s.fds[fd].ino, Close(s, fd), Put(records, p);
    assert FileOk(records, mount, files[fd], s.fds[fd]);
    assert t.inodes == if s.inodes[ino] == 1 then s.inodes - {ino} else s.inodes[ino := s.inodes[ino] - 1];
    assert t.fds == s.fds - {fd};
    forall i | i in t.inodes ensures HasRecord(after, mount, i) {
      var q :| q in records && IsFor(records[q], mount, i);
      assert q in after && IsFor(after[q], mount, i);
    }
    forall q | q in after && after[q].mount == mount
      ensures after[q].number in t.inodes && after[q].refcount == t.inodes[after[q].number]
    {
      assert q in records && (q != p ==> records[q].number != ino);
    }
    forall f | f in files - {fd} ensures FileOk(after, mount, files[f], t.fds[f]) {
      assert FileOk(records, mount, files[f], s.fds[f]);
      if s.inodes[ino] == 1 { OnlyHolder(s, fd, f); }
    }
  }

  /** With one reference left, no other descriptor holds the inode. */
  lemma OnlyHolder(s: State, fd: int, f: int)
    requires Inv(s) && fd in s.fds && f in s.fds && f != fd && s.fds[fd].Open?
    requires s.fds[fd].ino in s.inodes && s.inodes[s.fds[fd].ino] == 1
    ensures s.fds[f] != s.fds[fd]
  {
    var holders := Holders(s.fds, s.fds[fd].ino);
    assert fd in holders;
    assert holders - {fd} == {} by { assert |holders - {fd}| == |holders| - 1; }
    assert f !in holders - {fd};
  }

  // ----- the code -----

  /** One fakefs mount and the inode table. Every method is one section between taking and releasing a lock. */
  class Mount {
    const id: int
    var paths: map<Path, int>
    var stats: map<int, Stat>
    var records: map<int, Record>
    var buckets: map<nat, seq<int>>
    var next: int
    var files: map<int, File>
    ghost var state: State

    ghost predicate Tables()
      reads this
    {
      paths == state.paths && stats == state.stats
    }

    ghost predicate Valid()
      reads this
    {
      Tables() && Hashed(records, buckets, next) && Refines(records, files, id, state) && Inv(state)
    }

    constructor (id: int)
      ensures Valid() && state == State(map[], map[], map[], map[], multiset{})
    {
      this.id := id;
      paths, stats, records, buckets, next, files := map[], map[], map[], map[], 0, map[];
      state := State(map[], map[], map[], map[], multiset{});
    }

    /** inode_get_data: the record of an inode, if there is one. */
    method GetData(ino: int) returns (found: bool, p: int)
      requires Hashed(records, buckets, next)
      ensures found <==> HasRecord(records, id, ino)
      ensures found ==> p in records && IsFor(records[p], id, ino)
    {
      var chain := Chain(buckets, Bucket(ino));
      assert ChainOk(records, chain, Bucket(ino));
      var i := 0;
      p := 0;
      while i < |chain|
        invariant 0 <= i <= |chain|
        invariant forall j :: 0 <= j < i ==> chain[j] in records && !IsFor(records[chain[j]], id, ino)
      {
        p := chain[i];
        assert p in chain;
        if IsFor(records[p], id, ino) { return true, p; }
        i := i + 1;
      }
      found := false;
      forall q | q in records ensures !IsFor(records[q], id, ino) {
        if Bucket(records[q].number) == Bucket(ino) { assert q in chain; }
      }
    }

    /** inode_get_unlocked: a counted reference to the one record of an inode. */
    method GetUnlocked(ino: int) returns (p: int)
      requires Hashed(records, buckets, next)
      modifies this`records, this`buckets, this`next
      ensures Hashed(records, buckets, next) && Got(old(records), records, id, ino, p)
    {
      var found;
      found, p := GetData(ino);
      if !found {
        AddHashed(records, buckets, next, Record(id, ino, 0));
        CountHashed(records[next := Record(id, ino, 0)], buckets[Bucket(ino) := [next] + Chain(buckets, Bucket(ino))],
            next + 1, next, 1);
        p := next;
        assert p !in records;
        records := records[p := Record(id, ino, 0)];
        buckets := buckets[Bucket(ino) := [p] + Chain(buckets, Bucket(ino))];
        next := next + 1;
      } else {
        CountHashed(records, buckets, next, p, records[p].refcount + 1);
      }
      records := records[p := records[p].(refcount := records[p].refcount + 1)];
    }

    /** try_cleanup_inode, on the tables. */
    method Cleanup(ino: int)
      modifies this`stats
      ensures stats == if ino in paths.Values then old(stats) else old(stats) - {ino}
    {
      if !(exists p :: p in paths && paths[p] == ino) {
        stats := stats - {ino};
      }
    }

    /** inode_release: the last reference takes the record out of its chain and looks whether its row can go. */
    method Release(p: int)
      requires Hashed(records, buckets, next) && p in records && records[p].refcount > 0
      modifies this`records, this`buckets, this`stats
      ensures Hashed(records, buckets, next) && records == Put(old(records), p)
      ensures var ino := old(records)[p].number;
        stats == if old(records)[p].refcount > 1 || ino in paths.Values then old(stats) else old(stats) - {ino}
    {
      var count, ino := records[p].refcount - 1, records[p].number;
      if count == 0 {
        RemoveHashed(records, buckets, next, p);
        records := records - {p};
        buckets := buckets[Bucket(ino) := Unchained(Chain(buckets, Bucket(ino)), p)];
        Cleanup(ino);
      } else {
        CountHashed(records, buckets, next, p, count);
        records := records[p := records[p].(refcount := count)];
      }
    }

    /** fakefs_open; `ok` is false for the ENOENT of a file without metadata. */
    method OpenPath(fd: int, path: Path, creat: bool, stat: Stat, row: int) returns (ok: bool)
      requires Valid() && fd !in files && row !in stats
      modifies this
      ensures Valid() && Enabled(old(state), DoOpen(fd, path, creat, stat, row))
      ensures state == Next(old(state), DoOpen(fd, path, creat, stat, row))
      ensures ok <==> old(path in paths) || creat
    {
      hide Inv, Hashed, Refines;
      SameFds(records, files, id, state);
      NextKeepsInv(state, DoOpen(fd, path, creat, stat, row));
      ghost var s := state;
      state := Next(state, DoOpen(fd, path, creat, stat, row));
      var found := path in paths;
      var ino := if found then paths[path] else 0;
      if creat && !found {
        stats := stats[row := stat];
        paths := paths[path := row];
        ino := row;
        found := true;
      }
      if found {
        OpenRefines(records, files, id, s, state, fd, ino);
        files := files[fd := Unset(ino)];
      }
      ok := found;
    }

    /** The part of generic_openat that holds inodes_lock: fstat, then the inode. */
    method AcquireInode(fd: int) returns (ok: bool)
      requires Valid() && fd in files && files[fd].Unset?
      modifies this
      ensures Valid() && Enabled(old(state), DoAcquire(fd)) && state == Next(old(state), DoAcquire(fd))
      ensures ok <==> old(files[fd].ino in stats)
    {
      hide Inv, Hashed, Refines, Got;
      SameFds(records, files, id, state);
      HashedUnique(records, buckets, next);
      NextKeepsInv(state, DoAcquire(fd));
      ghost var s := state;
      state := Next(state, DoAcquire(fd));
      var ino := files[fd].ino;
      ok := ino in stats;
      if ok {
        ghost var before := records;
        var p := GetUnlocked(ino);
        GetRefines(before, records, files, id, s, fd, p);
        files := files[fd := Set(ino, p)];
      } else {
        DropRefines(records, files, id, s, state, fd);
        files := files - {fd};
      }
    }

    /** fd_close of the last reference to the fd, down to inode_release. */
    method CloseFd(fd: int)
      requires Valid() && fd in files
      modifies this
      ensures Valid() && Enabled(old(state), DoClose(fd)) && state == Next(old(state), DoClose(fd))
    {
      hide Inv, Hashed, Refines;
      SameFds(records, files, id, state);
      HashedUnique(records, buckets, next);
      assert Enabled(state, DoClose(fd)) by { CloseEnabled(state, fd); }
      NextKeepsInv(state, DoClose(fd));
      ghost var s := state;
      state := Next(state, DoClose(fd));
      match files[fd]
      case Unset(_) =>
        DropRefines(records, files, id, s, state, fd);
        files := files - {fd};
      case Set(ino, p) =>
        PutRefines(records, files, id, s, fd, p);
        CountIs(records, files, id, s, fd);
        Release(p);
        files := files - {fd};
    }

    /** The transaction of fakefs_unlink and fakefs_rmdir, once the real file system has removed the file. */
    method UnlinkPath(path: Path) returns (ino: int)
      requires Valid() && path in paths
      modifies this
      ensures Valid() && state == Next(old(state), DoUnlink(path)) && ino == old(paths[path])
    {
      hide Inv, Hashed, Refines;
      NextKeepsInv(state, DoUnlink(path));
      SameRefines(records, files, id, state, Next(state, DoUnlink(path)));
      state := Next(state, DoUnlink(path));
      ino := paths[path];
      paths := paths - {path};
    }

    /** inode_check_orphaned: only an inode without a record can lose its row. */
    method CheckInode(ino: int)
      requires Valid() && ino in state.unchecked
      modifies this
      ensures Valid() && state == Next(old(state), DoCheck(ino))
    {
      hide Inv, Hashed, Refines, HasRecord;
      NextKeepsInv(state, DoCheck(ino));
      var found, p := GetData(ino);
      RecordIffInode(records, files, id, state, ino);
      SameRefines(records, files, id, state, Next(state, DoCheck(ino)));
      state := Next(state, DoCheck(ino));
      if !found {
        Cleanup(ino);
      }
    }

    /**
     fakefs_rename; `granted` is the answer of the real file system, and without it the transaction is rolled
     back.
     */
    method RenamePath(src: Path, dst: Path, granted: bool)
      requires Valid() && (granted ==> Apart(src, dst) || src == dst)
      modifies this
      ensures Valid()
      ensures !granted ==> state == old(state)
      ensures granted && Apart(src, dst) ==> IsRenamed(old(paths), src, dst, paths)
      ensures granted ==> Enabled(old(state), DoRename(src, dst, paths)) && state == Next(old(state), DoRename(src,
          dst, paths))
    {
      hide Inv, Hashed, IsRenamed, Refines;
      var before := paths;
      var out := PathRename(paths, src, dst);
      if granted {
        NextKeepsInv(state, DoRename(src, dst, out));
        SameRefines(records, files, id, state, Next(state, DoRename(src, dst, out)));
        state := Next(state, DoRename(src, dst, out));
      }
      paths := if granted then out else before;
    }

    /** fakefs_fsetattr: the row it is about to change is there. */
    method SetAttr(fd: int, stat: Stat)
      requires Valid() && fd in files && files[fd].Set?
      modifies this
      ensures old(files[fd].ino in stats)
      ensures Valid() && Enabled(old(state), DoSetStat(fd, stat)) && state == Next(old(state), DoSetStat(fd, stat))
    {
      hide Inv, Hashed, Refines;
      SameFds(records, files, id, state);
      NextKeepsInv(state, DoSetStat(fd, stat));
      ghost var s := state;
      state := Next(state, DoSetStat(fd, stat));
      stats := stats[files[fd].ino := stat];
      assert Refines(records, files, id, state) by { SameRefines(records, files, id, s, state); }
    }
  }

  lemma SameFds(records: map<int, Record>, files: map<int, File>, mount: int, s: State)
    requires Refines(records, files, mount, s)
    ensures files.Keys == s.fds.Keys
    ensures forall fd :: fd in files ==> files[fd].ino == s.fds[fd].ino && (files[fd].Unset? <==> s.fds[fd].Opening?)
  {
    forall fd | fd in files ensures files[fd].ino == s.fds[fd].ino && (files[fd].Unset? <==> s.fds[fd].Opening?) {
      assert FileOk(records, mount, files[fd], s.fds[fd]);
    }
  }

  lemma SameRefines(records: map<int, Record>, files: map<int, File>, mount: int, s: State, t: State)
    requires Refines(records, files, mount, s) && t.inodes == s.inodes && t.fds == s.fds
    ensures Refines(records, files, mount, t)
  {
  }

  lemma HashedUnique(records: map<int, Record>, buckets: map<nat, seq<int>>, next: int)
    requires Hashed(records, buckets, next)
    ensures UniqueRecords(records)
  {
  }

  lemma CloseEnabled(s: State, fd: int)
    requires Inv(s) && fd in s.fds
    ensures Enabled(s, DoClose(fd))
  {
  }

  /** The record a descriptor points at counts what the model counts. */
  lemma CountIs(records: map<int, Record>, files: map<int, File>, mount: int, s: State, fd: int)
    requires Refines(records, files, mount, s) && Enabled(s, DoClose(fd)) && fd in files && files[fd].Set?
    ensures var p := files[fd].inode;
      && p in records && records[p].number == s.fds[fd].ino && records[p].refcount == s.inodes[s.fds[fd].ino] > 0
  {
    assert FileOk(records, mount, files[fd], s.fds[fd]);
  }

  lemma RecordIffInode(records: map<int, Record>, files: map<int, File>, mount: int, s: State, ino: int)
    requires Refines(records, files, mount, s)
    ensures HasRecord(records, mount, ino) <==> ino in s.inodes
  {
    if HasRecord(records, mount, ino) {
      var p :| p in records && IsFor(records[p], mount, ino);
    }
  }
}
