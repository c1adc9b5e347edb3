/** Subtree rename in the paths table of fs/fake-db.c. Paths are blobs, compared byte by byte. */
module FakefsPaths {

  type Byte = b: nat | b < 256
  type Path = seq<Byte>

  const SLASH: Byte := 0x2f
  const ZERO: Byte := 0x30

  /** memcmp order on blobs, a proper prefix being smaller. */
  predicate Less(a: Path, b: Path) {
    b != [] && (a == [] || a[0] < b[0] || (a[0] == b[0] && Less(a[1..], b[1..])))
  }

  /** The range condition of the rename statement: src/ <= p < src0, or p is src itself. */
  predicate InRange(src: Path, p: Path) {
    (!Less(p, src + [SLASH]) && Less(p, src + [ZERO])) || p == src
  }

  /** `p` is `src` or lies below it in the tree. */
  predicate Under(src: Path, p: Path) {
    src <= p && (|p| == |src| || p[|src|] == SLASH)
  }

  lemma {:induction false} RangeIsPrefix(src: Path, p: Path)
    ensures !Less(p, src + [SLASH]) && Less(p, src + [ZERO]) <==> src + [SLASH] <= p
    decreases src
  {
    var lo, hi := src + [SLASH], src + [ZERO];
    if src == [] {
      assert lo == [SLASH] && hi == [ZERO];
      FirstByte(p);
    } else if p != [] {
      assert lo[1..] == src[1..] + [SLASH] && hi[1..] == src[1..] + [ZERO];
      RangeIsPrefix(src[1..], p[1..]);
      assert p == [p[0]] + p[1..] && lo == [src[0]] + lo[1..];
    }
  }

  lemma FirstByte(p: Path)
    ensures Less(p, [SLASH]) <==> p == [] || p[0] < SLASH
    ensures Less(p, [ZERO]) <==> p == [] || p[0] < ZERO
    ensures [SLASH] <= p <==> p != [] && p[0] == SLASH
  {
    if p != [] {
      assert [SLASH][1..] == [] && [ZERO][1..] == [];
      assert !Less(p[1..], []);
      assert p == [p[0]] + p[1..];
    }
  }

  /** Selecting by lexicographic range selects exactly the subtree. */
  lemma RangeIsSubtree(src: Path, p: Path)
    ensures InRange(src, p) <==> Under(src, p)
  {
    RangeIsPrefix(src, p);
    if src + [SLASH] <= p {
      assert p[..|src|] == (src + [SLASH])[..|src|] == src;
      assert p[|src|] == (src + [SLASH])[|src|];
    }
    if Under(src, p) && |p| != |src| {
      assert p[..|src| + 1] == src + [SLASH];
    }
    if Under(src, p) && |p| == |src| {
      assert p == src;
    }
  }

  /** The SQL function change_prefix. */
  function ChangePrefix(p: Path, start: nat, dst: Path): Path
    requires start <= |p|
  {
    dst + p[start..]
  }

  /** Where a row named `p` goes. */
  function NewName(src: Path, dst: Path, p: Path): Path
    requires Under(src, p)
  {
    ChangePrefix(p, |src|, dst)
  }

  lemma NewNameUnder(src: Path, dst: Path, p: Path)
    requires Under(src, p)
    ensures Under(dst, NewName(src, dst, p)) && NewName(dst, src, NewName(src, dst, p)) == p
  {
    var q := NewName(src, dst, p);
    assert q[..|dst|] == dst;
    assert p == src + p[|src|..];
  }

  lemma NewNameInjective(src: Path, dst: Path, p: Path, q: Path)
    requires Under(src, p) && Under(src, q) && NewName(src, dst, p) == NewName(src, dst, q)
    ensures p == q
  {
    NewNameUnder(src, dst, p);
    NewNameUnder(src, dst, q);
  }

  lemma UnderBoth(a: Path, b: Path, p: Path)
    requires Under(a, p) && Under(b, p)
    ensures Under(a, b) || Under(b, a)
  {
    if |a| <= |b| {
      assert a == p[..|a|] == p[..|b|][..|a|] == b[..|a|];
    } else {
      assert b == p[..|b|] == p[..|a|][..|b|] == a[..|b|];
    }
  }

  /** Neither path lies below the other. */
  predicate Apart(a: Path, b: Path) {
    !Under(a, b) && !Under(b, a)
  }

  lemma ApartSubtrees(a: Path, b: Path, p: Path)
    requires Apart(a, b)
    ensures !(Under(a, p) && Under(b, p))
  {
    if Under(a, p) && Under(b, p) {
      UnderBoth(a, b, p);
    }
  }

  // ----- the table after a rename -----

  /** Row `q` of the result comes from a row below `src`. */
  predicate Moved(paths: map<Path, int>, src: Path, dst: Path, q: Path) {
    Under(dst, q) && NewName(dst, src, q) in paths
  }

  /** The rows below `src` under their new names; every other row as it was, unless overwritten. */
  ghost predicate IsRenamed(paths: map<Path, int>, src: Path, dst: Path, out: map<Path, int>) {
    && (forall q :: q in out <==> Moved(paths, src, dst, q) || (q in paths && !Under(src, q)))
    && (forall q :: q in out ==> out[q] == if Moved(paths, src, dst, q) then paths[NewName(dst, src, q)] else paths[q])
  }

  /** Read from the caller's side: each suffix follows, nothing stays behind, nothing else changes. */
  lemma RenameMovesSubtree(paths: map<Path, int>, src: Path, dst: Path, out: map<Path, int>)
    requires Apart(src, dst) && IsRenamed(paths, src, dst, out)
    ensures forall p :: p in paths && Under(src, p) ==>
              NewName(src, dst, p) in out && out[NewName(src, dst, p)] == paths[p]
    ensures forall p :: p in out ==> !Under(src, p)
    ensures forall p :: p in paths && !Under(src, p) && !Under(dst, p) ==> p in out && out[p] == paths[p]
    ensures forall p :: p in out && !Under(dst, p) ==> p in paths && out[p] == paths[p]
    ensures out.Values <= paths.Values
  {
    forall p | p in paths && Under(src, p)
      ensures NewName(src, dst, p) in out && out[NewName(src, dst, p)] == paths[p]
    {
      NewNameUnder(src, dst, p);
      assert Moved(paths, src, dst, NewName(src, dst, p));
    }
    forall p | p in out ensures !Under(src, p) {
      ApartSubtrees(src, dst, p);
    }
    forall p | p in out ensures out[p] in paths.Values {
      assert Moved(paths, src, dst, p) ==> NewName(dst, src, p) in paths.Keys;
    }
  }

  /** Part of the rows, `todo`, still under their old names. */
  ghost predicate HalfRenamed(paths: map<Path, int>, src: Path, dst: Path, todo: set<Path>, out: map<Path, int>) {
    && (forall q :: q in out <==>
          (Moved(paths, src, dst, q) && NewName(dst, src, q) !in todo) || (q in paths && (Under(src, q) ==> q in todo)))
    && (forall q :: q in out ==>
          out[q] == if Moved(paths, src, dst, q) && NewName(dst, src, q) !in todo then paths[NewName(dst, src, q)]
              else paths[q])
  }

  lemma MoveRow(paths: map<Path, int>, src: Path, dst: Path, todo: set<Path>, out: map<Path, int>, p: Path)
    requires Apart(src, dst) && HalfRenamed(paths, src, dst, todo, out)
    requires p in todo && p in paths && Under(src, p)
    ensures p in out && out[p] == paths[p]
    ensures HalfRenamed(paths, src, dst, todo - {p}, (out - {p})[NewName(src, dst, p) := paths[p]])
  {
    var target, rest, next := NewName(src, dst, p), todo - {p}, (out - {p})[NewName(src, dst, p) := paths[p]];
    NewNameUnder(src, dst, p);
    assert !Under(dst, p) by { ApartSubtrees(src, dst, p); }
    assert !Under(src, target) by { ApartSubtrees(src, dst, target); }
    forall q | Moved(paths, src, dst, q) && q != target ensures NewName(dst, src, q) != p {
      if NewName(dst, src, q) == p {
        NewNameInjective(dst, src, q, target);
      }
    }
  }

  /** path_rename: the statement updates the selected rows one after the other, in any order. */
  method PathRename(paths: map<Path, int>, src: Path, dst: Path) returns (out: map<Path, int>)
    ensures Apart(src, dst) ==> IsRenamed(paths, src, dst, out)
    ensures src == dst ==> out == paths
  {
    var todo := set p | p in paths && InRange(src, p);
    forall p ensures InRange(src, p) <==> Under(src, p) {
      RangeIsSubtree(src, p);
    }
    out := paths;
    while todo != {}
      invariant forall p :: p in todo ==> p in paths && Under(src, p)
      invariant Apart(src, dst) ==> HalfRenamed(paths, src, dst, todo, out)
      invariant src == dst ==> out == paths
      decreases |todo|
    {
      var p :| p in todo;
      if p in out {
        if Apart(src, dst) {
          MoveRow(paths, src, dst, todo, out, p);
        } else if src == dst {
          assert NewName(src, dst, p) == p;
        }
        var inode := out[p];
        out := (out - {p})[ChangePrefix(p, |src|, dst) := inode];
      }
      todo := todo - {p};
    }
  }
}
