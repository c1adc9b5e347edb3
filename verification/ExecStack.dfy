/** The initial stack of a process: strings, pointer tables and the auxiliary vector (kernel/exec.c). */
module ExecStack {

  type Byte = b: nat | b < 256
  type Memory = map<nat, Byte>

  /** A string does not contain its terminator. */
  predicate IsText(s: seq<Byte>) {
    0 !in s
  }

  ghost predicate AllText(strs: seq<seq<Byte>>) {
    forall i :: 0 <= i < |strs| ==> IsText(strs[i])
  }

  /** The strings one after the other, each with its NUL. */
  function Flat(strs: seq<seq<Byte>>): seq<Byte> {
    if strs == [] then [] else strs[0] + [0] + Flat(strs[1..])
  }

  // ----- guest memory -----

  /** Memory is zero where nothing was written. */
  function Get(mem: Memory, a: nat): Byte {
    if a in mem then mem[a] else 0
  }

  function Write(mem: Memory, a: nat, s: seq<Byte>): (m: Memory)
    ensures forall x: nat :: Get(m, x) == if a <= x < a + |s| then s[x - a] else Get(mem, x)
    decreases |s|
  {
    if s == [] then mem else Write(mem[a := s[0]], a + 1, s[1..])
  }

  /** The bytes at an address. */
  ghost predicate BlockAt(mem: Memory, a: nat, s: seq<Byte>) {
    forall i :: 0 <= i < |s| ==> Get(mem, a + i) == s[i]
  }

  /** A pointer denotes a string. */
  ghost predicate StringAt(mem: Memory, a: nat, s: seq<Byte>) {
    BlockAt(mem, a, s + [0])
  }

  function FourBytes(b0: nat, b1: nat, b2: nat, b3: nat): nat {
    b0 + 256 * (b1 + 256 * (b2 + 256 * b3))
  }

  function Word(mem: Memory, a: nat): nat {
    FourBytes(Get(mem, a), Get(mem, a + 1), Get(mem, a + 2), Get(mem, a + 3))
  }

  /** A 32-bit number as it lies in memory. */
  function Little(w: nat): (s: seq<Byte>)
    requires w < 0x1_0000_0000
    ensures |s| == 4 && FourBytes(s[0], s[1], s[2], s[3]) == w
  {
    var w1 := w / 256;
    var w2 := w1 / 256;
    [w % 256, w1 % 256, w2 % 256, w2 / 256]
  }

  ghost predicate WordsAt(mem: Memory, a: nat, ws: seq<nat>) {
    forall i :: 0 <= i < |ws| ==> Word(mem, a + 4 * i) == ws[i]
  }

  ghost predicate ZeroIn(mem: Memory, lo: nat, hi: nat) {
    forall x :: lo <= x < hi ==> Get(mem, x) == 0
  }

  /** A write elsewhere leaves a block, a table and zeroes alone. */
  lemma BlockKept(mem: Memory, a: nat, s: seq<Byte>, b: nat, t: seq<Byte>)
    requires BlockAt(mem, a, s) && (b + |t| <= a || a + |s| <= b)
    ensures BlockAt(Write(mem, b, t), a, s)
  {
  }

  lemma WordsKept(mem: Memory, a: nat, ws: seq<nat>, b: nat, t: seq<Byte>)
    requires WordsAt(mem, a, ws) && a + 4 * |ws| <= b
    ensures WordsAt(Write(mem, b, t), a, ws)
  {
  }

  lemma WordsExtend(mem: Memory, a: nat, ws: seq<nat>, w: nat)
    requires WordsAt(mem, a, ws) && w < 0x1_0000_0000
    ensures WordsAt(Write(mem, a + 4 * |ws|, Little(w)), a, ws + [w])
  {
    hide Little, Write, FourBytes;
    var b := a + 4 * |ws|;
    var m := Write(mem, b, Little(w));
    WordsKept(mem, a, ws, b, Little(w));
    forall i | 0 <= i < |ws + [w]| ensures Word(m, a + 4 * i) == (ws + [w])[i] {
      if i < |ws| { assert Word(m, a + 4 * i) == ws[i]; }
    }
  }

  lemma WordsNull(mem: Memory, a: nat, ws: seq<nat>)
    requires WordsAt(mem, a, ws) && ZeroIn(mem, a + 4 * |ws|, a + 4 * |ws| + 4)
    ensures WordsAt(mem, a, ws + [0])
  {
    forall i | 0 <= i < |ws + [0]| ensures Word(mem, a + 4 * i) == (ws + [0])[i] {
      if i < |ws| { assert Word(mem, a + 4 * i) == ws[i]; }
    }
  }

  // ----- the layout -----

  /** The addresses of strings that lie one after the other. */
  function Pointers(a: nat, strs: seq<seq<Byte>>): (ps: seq<nat>)
    ensures |ps| == |strs|
    decreases |strs|
  {
    if strs == [] then [] else [a] + Pointers(a + |strs[0]| + 1, strs[1..])
  }

  /** Each pointer of the table denotes the string of its place. */
  lemma {:induction false} PointersDenote(mem: Memory, a: nat, strs: seq<seq<Byte>>, i: nat)
    requires BlockAt(mem, a, Flat(strs)) && i < |strs|
    ensures StringAt(mem, Pointers(a, strs)[i], strs[i])
    decreases |strs|
  {
    var head, rest := strs[0] + [0], strs[1..];
    assert Flat(strs) == head + Flat(rest);
    BlockSplit(mem, a, head, Flat(rest));
    if i > 0 {
      PointersDenote(mem, a + |head|, rest, i - 1);
    }
  }

  lemma BlockSplit(mem: Memory, a: nat, s: seq<Byte>, t: seq<Byte>)
    ensures BlockAt(mem, a, s + t) <==> BlockAt(mem, a, s) && BlockAt(mem, a + |s|, t)
  {
    if BlockAt(mem, a, s + t) {
      assert forall i :: 0 <= i < |s| ==> s[i] == (s + t)[i];
      forall i | 0 <= i < |t| ensures Get(mem, a + |s| + i) == t[i] {
        assert Get(mem, a + (|s| + i)) == (s + t)[|s| + i];
      }
    }
    if BlockAt(mem, a, s) && BlockAt(mem, a + |s|, t) {
      forall i | 0 <= i < |s + t| ensures Get(mem, a + i) == (s + t)[i] {
        if i >= |s| { assert Get(mem, a + |s| + (i - |s|)) == t[i - |s|]; }
      }
    }
  }

  function Align(a: nat): (r: nat)
    ensures r <= a < r + 16 && r % 16 == 0
  {
    WholeSixteens(a / 16);
    16 * (a / 16)
  }

  lemma WholeSixteens(n: nat)
    ensures (16 * n) % 16 == 0
  {
  }

  /** What the auxiliary vector takes from the executable. */
  datatype Image = Image(vdsoEntry: nat, vdso: nat, phdr: nat, phnum: nat, base: nat, entry: nat)

  ghost predicate ImageOk(im: Image) {
    && im.vdsoEntry < 0x1_0000_0000 && im.vdso < 0x1_0000_0000 && im.phdr < 0x1_0000_0000
    && im.phnum < 0x1_0000_0000 && im.base < 0x1_0000_0000 && im.entry < 0x1_0000_0000
  }

  /** The entries of the auxiliary vector: a type and a value each, and the null entry at the end. */
  function AuxEntry(im: Image, random: nat, file: nat, platform: nat, i: nat): (nat, nat) {
    if i == 0 then (32, im.vdsoEntry)
    else if i == 1 then (33, im.vdso)
    else if i == 2 then (16, 0)
    else if i == 3 then (6, 4096)
    else if i == 4 then (17, 0x64)
    else if i == 5 then (3, im.phdr)
    else if i == 6 then (4, 32)
    else if i == 7 then (5, im.phnum)
    else if i == 8 then (7, im.base)
    else if i == 9 then (8, 0)
    else if i == 10 then (9, im.entry)
    else if i == 11 then (11, 0)
    else if i == 12 then (12, 0)
    else if i == 13 then (13, 0)
    else if i == 14 then (14, 0)
    else if i == 15 then (23, 0)
    else if i == 16 then (25, random)
    else if i == 17 then (26, 0)
    else if i == 18 then (31, file)
    else if i == 19 then (15, platform)
    else (0, 0)
  }

  const AUX_ENTRIES: nat := 21

  /** The vector from entry `i` on, as words. */
  function AuxFrom(im: Image, random: nat, file: nat, platform: nat, i: nat): (ws: seq<nat>)
    requires i <= AUX_ENTRIES
    ensures |ws| == 2 * (AUX_ENTRIES - i)
    decreases AUX_ENTRIES - i
  {
    if i == AUX_ENTRIES then []
    else
      var e := AuxEntry(im, random, file, platform, i);
      [e.0, e.1] + AuxFrom(im, random, file, platform, i + 1)
  }

  function Auxv(im: Image, random: nat, file: nat, platform: nat): (ws: seq<nat>)
    ensures |ws| == 42
  {
    AuxFrom(im, random, file, platform, 0)
  }

  /** What a program finds in the auxiliary vector: the value of the first entry of a type. */
  function AuxFind(ws: seq<nat>, kind: nat): nat {
    if |ws| < 2 then 0 else if ws[0] == kind then ws[1] else AuxFind(ws[2..], kind)
  }

  lemma {:induction false} AuxFindAt(im: Image, random: nat, file: nat, platform: nat, kind: nat, k: nat, i: nat)
    requires k <= i < AUX_ENTRIES && AuxEntry(im, random, file, platform, i).0 == kind
    requires forall j :: k <= j < i ==> AuxEntry(im, random, file, platform, j).0 != kind
    ensures AuxFind(AuxFrom(im, random, file, platform, k), kind) == AuxEntry(im, random, file, platform, i).1
    decreases i - k
  {
    hide AuxEntry;
    var ws := AuxFrom(im, random, file, platform, k);
    if k < i {
      assert ws[2..] == AuxFrom(im, random, file, platform, k + 1);
      AuxFindAt(im, random, file, platform, kind, k + 1, i);
    }
  }

  /** The entries that point at the stack itself, and the ones a dynamic linker starts from. */
  lemma AuxFinds(im: Image, random: nat, file: nat, platform: nat)
    ensures var aux := Auxv(im, random, file, platform);
      && AuxFind(aux, 25) == random && AuxFind(aux, 31) == file && AuxFind(aux, 15) == platform
      && AuxFind(aux, 3) == im.phdr && AuxFind(aux, 5) == im.phnum && AuxFind(aux, 7) == im.base
      && AuxFind(aux, 9) == im.entry && AuxFind(aux, 33) == im.vdso && AuxFind(aux, 32) == im.vdsoEntry
  {
    hide AuxFind, AuxFrom;
    AuxFindAt(im, random, file, platform, 32, 0, 0);
    AuxFindAt(im, random, file, platform, 33, 0, 1);
    AuxFindAt(im, random, file, platform, 3, 0, 5);
    AuxFindAt(im, random, file, platform, 5, 0, 7);
    AuxFindAt(im, random, file, platform, 7, 0, 8);
    AuxFindAt(im, random, file, platform, 9, 0, 10);
    AuxFindAt(im, random, file, platform, 25, 0, 16);
    AuxFindAt(im, random, file, platform, 31, 0, 18);
    AuxFindAt(im, random, file, platform, 15, 0, 19);
  }

  /** The entries that are the same for every program: sizes, the clock tick, root's ids and no capabilities. */
  lemma AuxConstants(im: Image, random: nat, file: nat, platform: nat)
    ensures var aux := Auxv(im, random, file, platform);
      && AuxFind(aux, 6) == 4096 && AuxFind(aux, 4) == 32 && AuxFind(aux, 17) == 100
      && (forall kind :: kind in {8, 11, 12, 13, 14, 16, 23, 26} ==> AuxFind(aux, kind) == 0)
  {
    hide AuxFind, AuxFrom;
    AuxFindAt(im, random, file, platform, 16, 0, 2);
    AuxFindAt(im, random, file, platform, 6, 0, 3);
    AuxFindAt(im, random, file, platform, 17, 0, 4);
    AuxFindAt(im, random, file, platform, 4, 0, 6);
    AuxFindAt(im, random, file, platform, 8, 0, 9);
    AuxFindAt(im, random, file, platform, 11, 0, 11);
    AuxFindAt(im, random, file, platform, 12, 0, 12);
    AuxFindAt(im, random, file, platform, 13, 0, 13);
    AuxFindAt(im, random, file, platform, 14, 0, 14);
    AuxFindAt(im, random, file, platform, 23, 0, 15);
    AuxFindAt(im, random, file, platform, 26, 0, 17);
  }

  lemma {:induction false} AuxAt(im: Image, random: nat, file: nat, platform: nat, k: nat, i: nat)
    requires k <= i < AUX_ENTRIES
    ensures var ws := AuxFrom(im, random, file, platform, k);
      (ws[2 * (i - k)], ws[2 * (i - k) + 1]) == AuxEntry(im, random, file, platform, i)
    decreases i - k
  {
    hide AuxEntry;
    if k < i { AuxAt(im, random, file, platform, k + 1, i); }
  }

  /** The vector ends in the null entry, its only one, so a program that walks it sees all of it and no more. */
  lemma AuxEnds(im: Image, random: nat, file: nat, platform: nat)
    ensures var aux := Auxv(im, random, file, platform);
      && aux[40] == 0 && aux[41] == 0
      && forall i :: 0 <= i < 20 ==> aux[2 * i] != 0
  {
    hide AuxFrom;
    AuxAt(im, random, file, platform, 0, 20);
    forall i | 0 <= i < 20 ensures Auxv(im, random, file, platform)[2 * i] != 0 {
      AuxAt(im, random, file, platform, 0, i);
    }
  }

  const TOP := 0xffff_dff8
  const PLATFORM: seq<Byte> := [0x69, 0x36, 0x38, 0x36]

  datatype Addresses = Addresses(file: nat, envp: nat, argv: nat, platform: nat, random: nat, sp: nat)

  /** There is room for everything below the top of the stack. */
  predicate Fits(file: seq<Byte>, argv: seq<seq<Byte>>, envp: seq<seq<Byte>>) {
    |file| + |Flat(argv)| + |Flat(envp)| + 4 * (|argv| + |envp|) + 256 < TOP
  }

  function Place(file: seq<Byte>, argv: seq<seq<Byte>>, envp: seq<seq<Byte>>): (r: Addresses)
    requires Fits(file, argv, envp)
    ensures r.file + |file| + 1 == TOP
    ensures r.envp + |Flat(envp)| + 1 == r.file
    ensures r.argv + |Flat(argv)| + 1 == r.envp
    ensures r.platform + |PLATFORM| + 1 == Align(r.argv)
    ensures r.random + 16 == r.platform
    ensures 0 < r.sp && r.sp + 4 * (|argv| + |envp| + 3) + 168 <= r.random < r.sp + 4 * (|argv| + |envp| + 3) + 168 + 16
    ensures r.sp % 16 == 0
  {
    var f := TOP - (|file| + 1);
    var e := f - (|Flat(envp)| + 1);
    var a := e - (|Flat(argv)| + 1);
    var p := Align(a) - 5;
    var r := p - 16;
    Addresses(f, e, a, p, r, Align(r - 4 * (|argv| + |envp| + 3) - 168))
  }

  /** The words from the stack pointer up: argc, argv, NULL, envp, NULL, auxv. */
  function Table(r: Addresses, argv: seq<seq<Byte>>, envp: seq<seq<Byte>>, im: Image): seq<nat> {
    ArgTables(r, argv, envp) + Auxv(im, r.random, r.file, r.platform)
  }

  function ArgTables(r: Addresses, argv: seq<seq<Byte>>, envp: seq<seq<Byte>>): seq<nat> {
    [|argv|] + Pointers(r.argv, argv) + [0] + Pointers(r.envp, envp) + [0]
  }

  /** Every string and the random bytes in their place. */
  ghost predicate StringsAt(mem: Memory, r: Addresses, file: seq<Byte>, argv: seq<seq<Byte>>, envp: seq<seq<Byte>>,
      random: seq<Byte>) {
    && StringAt(mem, r.file, file)
    && BlockAt(mem, r.envp, Flat(envp) + [0])
    && BlockAt(mem, r.argv, Flat(argv) + [0])
    && StringAt(mem, r.platform, PLATFORM)
    && BlockAt(mem, r.random, random)
  }

  /** The tables and the strings together: what the psABI asks of the initial stack. */
  ghost predicate IsInitialStack(mem: Memory, sp: nat, argv: seq<seq<Byte>>, envp: seq<seq<Byte>>, aux: seq<nat>) {
    var envTable := sp + 4 + 4 * |argv| + 4;
    var auxTable := envTable + 4 * |envp| + 4;
    && sp % 16 == 0
    && Word(mem, sp) == |argv|
    && (forall i :: 0 <= i < |argv| ==> StringAt(mem, Word(mem, sp + 4 + 4 * i), argv[i]))
    && Word(mem, sp + 4 + 4 * |argv|) == 0
    && (forall i :: 0 <= i < |envp| ==> StringAt(mem, Word(mem, envTable + 4 * i), envp[i]))
    && Word(mem, envTable + 4 * |envp|) == 0
    && WordsAt(mem, auxTable, aux)
  }

  lemma WordsSplit(mem: Memory, a: nat, s: seq<nat>, t: seq<nat>)
    requires WordsAt(mem, a, s + t)
    ensures WordsAt(mem, a, s) && WordsAt(mem, a + 4 * |s|, t)
  {
    forall i | 0 <= i < |s| ensures Word(mem, a + 4 * i) == s[i] {
      assert (s + t)[i] == s[i];
    }
    forall i | 0 <= i < |t| ensures Word(mem, a + 4 * |s| + 4 * i) == t[i] {
      assert (s + t)[|s| + i] == t[i] && a + 4 * (|s| + i) == a + 4 * |s| + 4 * i;
    }
  }

  lemma PointerTable(mem: Memory, a: nat, at: nat, strs: seq<seq<Byte>>, end: seq<Byte>)
    requires WordsAt(mem, a, Pointers(at, strs)) && BlockAt(mem, at, Flat(strs) + end)
    ensures forall i :: 0 <= i < |strs| ==> StringAt(mem, Word(mem, a + 4 * i), strs[i])
  {
    hide Word, StringAt, BlockAt, Flat;
    BlockSplit(mem, at, Flat(strs), end);
    forall i | 0 <= i < |strs| ensures StringAt(mem, Word(mem, a + 4 * i), strs[i]) {
      assert Word(mem, a + 4 * i) == Pointers(at, strs)[i];
      PointersDenote(mem, at, strs, i);
    }
  }

  /** The tables lie below everything they point to, and read as the initial stack. */
  lemma StackReads(mem: Memory, file: seq<Byte>, argv: seq<seq<Byte>>, envp: seq<seq<Byte>>, im: Image,
      random: seq<Byte>)
    requires Fits(file, argv, envp)
    requires var r := Place(file, argv, envp);
      WordsAt(mem, r.sp, Table(r, argv, envp, im)) && StringsAt(mem, r, file, argv, envp, random)
    ensures var r := Place(file, argv, envp);
      && IsInitialStack(mem, r.sp, argv, envp, Auxv(im, r.random, r.file, r.platform))
      && r.sp + 4 * |Table(r, argv, envp, im)| <= r.random < r.platform < r.argv < r.envp < r.file
    ensures var r := Place(file, argv, envp);
      var aux := Auxv(im, r.random, r.file, r.platform);
      && StringAt(mem, AuxFind(aux, 31), file) && StringAt(mem, AuxFind(aux, 15), PLATFORM)
      && BlockAt(mem, AuxFind(aux, 25), random)
  {
    hide AuxFind, Word, StringAt, BlockAt, Flat, Pointers, Auxv, Align;
    var r := Place(file, argv, envp);
    AuxFinds(im, r.random, r.file, r.platform);
    var av, ev, ax := Pointers(r.argv, argv), Pointers(r.envp, envp), Auxv(im, r.random, r.file, r.platform);
    WordsSplit(mem, r.sp, [|argv|] + av + [0] + ev + [0], ax);
    WordsSplit(mem, r.sp, [|argv|] + av + [0] + ev, [0]);
    WordsSplit(mem, r.sp, [|argv|] + av + [0], ev);
    WordsSplit(mem, r.sp, [|argv|] + av, [0]);
    WordsSplit(mem, r.sp, [|argv|], av);
    OneWord(mem, r.sp, |argv|);
    OneWord(mem, r.sp + 4 + 4 * |argv|, 0);
    OneWord(mem, r.sp + 4 + 4 * |argv| + 4 + 4 * |envp|, 0);
    PointerTable(mem, r.sp + 4, r.argv, argv, [0]);
    PointerTable(mem, r.sp + 4 + 4 * |argv| + 4, r.envp, envp, [0]);
  }

  lemma OneWord(mem: Memory, a: nat, w: nat)
    requires WordsAt(mem, a, [w])
    ensures Word(mem, a) == w
  {
    assert Word(mem, a + 4 * 0) == [w][0];
  }

  ghost predicate AllWords(ws: seq<nat>) {
    forall i :: 0 <= i < |ws| ==> ws[i] < 0x1_0000_0000
  }

  /** An array of 32-bit numbers as it lies in memory. */
  function LittleAll(ws: seq<nat>): (s: seq<Byte>)
    requires AllWords(ws)
    ensures |s| == 4 * |ws|
  {
    if ws == [] then [] else Little(ws[0]) + LittleAll(ws[1..])
  }

  lemma {:induction false} WordsOfBlock(mem: Memory, a: nat, ws: seq<nat>)
    requires AllWords(ws) && BlockAt(mem, a, LittleAll(ws))
    ensures WordsAt(mem, a, ws)
    decreases |ws|
  {
    hide Little, Word, FourBytes, Get, BlockAt, WordsAt;
    if ws == [] {
      NoWords(mem, a);
    } else {
      BlockSplit(mem, a, Little(ws[0]), LittleAll(ws[1..]));
      WordOfBlock(mem, a, ws[0]);
      WordsOfBlock(mem, a + 4, ws[1..]);
      WordsCons(mem, a, ws);
    }
  }

  lemma WordOfBlock(mem: Memory, a: nat, w: nat)
    requires w < 0x1_0000_0000 && BlockAt(mem, a, Little(w))
    ensures Word(mem, a) == w
  {
    hide Little;
    assert Get(mem, a + 0) == Little(w)[0] && Get(mem, a + 1) == Little(w)[1];
  }

  lemma WordsCons(mem: Memory, a: nat, ws: seq<nat>)
    requires ws != [] && Word(mem, a) == ws[0] && WordsAt(mem, a + 4, ws[1..])
    ensures WordsAt(mem, a, ws)
  {
    hide Word;
    forall i | 0 <= i < |ws| ensures Word(mem, a + 4 * i) == ws[i] {
      if i > 0 { assert Word(mem, a + 4 + 4 * (i - 1)) == ws[1..][i - 1]; }
    }
  }

  lemma WordsJoin(mem: Memory, a: nat, s: seq<nat>, t: seq<nat>)
    requires WordsAt(mem, a, s) && WordsAt(mem, a + 4 * |s|, t)
    ensures WordsAt(mem, a, s + t)
  {
    hide Word;
    forall i | 0 <= i < |s + t| ensures Word(mem, a + 4 * i) == (s + t)[i] {
      if i >= |s| { assert Word(mem, a + 4 * |s| + 4 * (i - |s|)) == t[i - |s|]; }
    }
  }

  // ----- the code -----

  /** struct exec_args: `count` strings and one NUL more. */
  datatype ExecArgs = ExecArgs(count: nat, args: seq<Byte>)

  ghost predicate Denotes(args: ExecArgs, strs: seq<seq<Byte>>) {
    args.count == |strs| && AllText(strs) && Flat(strs) + [0] <= args.args
  }

  /** Memory differs only from `lo` to `hi`. */
  ghost predicate SameOutside(m: Memory, n: Memory, lo: nat, hi: nat) {
    forall x: nat :: x < lo || hi <= x ==> Get(n, x) == Get(m, x)
  }

  lemma BlockOutside(m: Memory, n: Memory, lo: nat, hi: nat, a: nat, s: seq<Byte>)
    requires SameOutside(m, n, lo, hi) && BlockAt(m, a, s) && hi <= a
    ensures BlockAt(n, a, s)
  {
  }

  lemma WriteOutside(m: Memory, n: Memory, lo: nat, hi: nat, a: nat, s: seq<Byte>)
    requires SameOutside(m, n, lo, hi) && lo <= a && a + |s| <= hi
    ensures SameOutside(m, Write(n, a, s), lo, hi)
  {
  }

  lemma WriteBlock(m: Memory, a: nat, s: seq<Byte>)
    ensures BlockAt(Write(m, a, s), a, s)
  {
  }

  lemma FlatRest(strs: seq<seq<Byte>>, i: nat)
    requires i < |strs|
    ensures Flat(strs[i..]) == strs[i] + [0] + Flat(strs[i + 1..])
  {
    assert strs[i..][0] == strs[i] && strs[i..][1..] == strs[i + 1..];
  }

  lemma PointersRest(a: nat, strs: seq<seq<Byte>>, i: nat)
    requires i < |strs|
    ensures Pointers(a, strs[i..]) == [a] + Pointers(a + |strs[i]| + 1, strs[i + 1..])
  {
    assert strs[i..][0] == strs[i] && strs[i..][1..] == strs[i + 1..];
  }

  /** strlen, on a string at the front of a buffer. */
  method StrLen(args: seq<Byte>, from: nat, ghost s: seq<Byte>) returns (n: nat)
    requires from <= |args| && IsText(s) && s + [0] <= args[from..]
    ensures n == |s|
  {
    n := 0;
    assert args[from..][|s|] == 0;
    while args[from + n] != 0
      invariant n <= |s|
      decreases |s| - n
    {
      assert args[from..][n] == args[from + n];
      n := n + 1;
    }
    assert args[from..][n] == args[from + n];
  }

  /** args_size. */
  method ArgsSize(a: ExecArgs, ghost strs: seq<seq<Byte>>) returns (size: nat)
    requires Denotes(a, strs)
    ensures size == |Flat(strs)| + 1
  {
    var end, i := 0, 0;
    assert a.args[0..] == a.args && strs[0..] == strs;
    while i < a.count
      invariant 0 <= i <= a.count && 0 <= end && end + |Flat(strs[i..])| == |Flat(strs)| && end <= |a.args|
      invariant Flat(strs[i..]) + [0] <= a.args[end..]
    {
      FlatRest(strs, i);
      var n := StrLen(a.args, end, strs[i]);
      assert a.args[end..][n + 1..] == a.args[end + n + 1..];
      end, i := end + n + 1, i + 1;
    }
    size := end + 1;
  }

  class Guest {
    var mem: Memory

    /** user_write_string: byte by byte up to and with the NUL. */
    method WriteString(a: nat, s: seq<Byte>)
      modifies this
      ensures mem == Write(old(mem), a, s + [0])
    {
      var text, i := s + [0], 0;
      assert text[0..] == text;
      while i < |text|
        invariant 0 <= i <= |text|
        invariant Write(mem, a + i, text[i..]) == Write(old(mem), a, text)
      {
        assert text[i..][0] == text[i] && text[i..][1..] == text[i + 1..];
        mem := mem[a + i := text[i]];
        i := i + 1;
      }
    }

    /** copy_string. */
    method CopyString(sp: nat, s: seq<Byte>) returns (r: nat)
      requires |s| + 1 <= sp
      modifies this
      ensures r == sp - (|s| + 1) && mem == Write(old(mem), r, s + [0])
    {
      r := sp - (|s| + 1);
      WriteString(r, s);
    }

    /** args_copy. */
    method ArgsCopy(sp: nat, a: ExecArgs, ghost strs: seq<seq<Byte>>) returns (r: nat)
      requires Denotes(a, strs) && |Flat(strs)| + 1 <= sp
      modifies this
      ensures r == sp - (|Flat(strs)| + 1) && mem == Write(old(mem), r, Flat(strs) + [0])
    {
      var size := ArgsSize(a, strs);
      r := sp - size;
      assert a.args[..size] == Flat(strs) + [0];
      mem := Write(mem, r, a.args[..size]);
    }

    /** user_strlen. */
    method UserStrLen(p: nat, ghost s: seq<Byte>) returns (n: nat)
      requires IsText(s) && StringAt(mem, p, s)
      ensures n == |s|
    {
      n := 0;
      ghost var t := s + [0];
      assert Get(mem, p + |s|) == t[|s|];
      var c := Get(mem, p);
      assert Get(mem, p + 0) == t[0];
      while c != 0
        invariant n <= |s| && c == Get(mem, p + n) == t[n]
        decreases |s| - n
      {
        n := n + 1;
        c := Get(mem, p + n);
        assert Get(mem, p + n) == t[n];
      }
    }

    /** user_put of a 32-bit number. */
    method Put(p: nat, w: nat)
      requires w < 0x1_0000_0000
      modifies this
      ensures mem == Write(old(mem), p, Little(w))
    {
      hide Write, Little, FourBytes, Get;
      mem := Write(mem, p, Little(w));
    }

    /** user_put of a host word, which is 64 bits wide: the upper half falls on the next place. */
    method PutWide(p: nat, w: nat)
      requires w < 0x1_0000_0000
      modifies this
      ensures mem == Write(Write(old(mem), p, Little(w)), p + 4, Little(0))
    {
      hide Write, Little, FourBytes, Get;
      mem := Write(Write(mem, p, Little(w)), p + 4, Little(0));
    }

    /** A table of pointers to strings that lie one after the other, found by walking over them. */
    method PutPointers(p0: nat, addr0: nat, count: nat, ghost strs: seq<seq<Byte>>, ghost sp: nat,
        ghost ws: seq<nat>) returns (p: nat)
      requires count == |strs| && AllText(strs)
      requires p0 == sp + 4 * |ws| && WordsAt(mem, sp, ws)
      requires BlockAt(mem, addr0, Flat(strs)) && p0 + 4 * count <= addr0 && addr0 + |Flat(strs)| <= 0x1_0000_0000
      modifies this
      ensures p == p0 + 4 * count && SameOutside(old(mem), mem, p0, p)
      ensures WordsAt(mem, sp, ws + Pointers(addr0, strs))
    {
      hide WordsAt, BlockAt, SameOutside, Flat, Pointers, Write, Little, StringAt;
      var addr, n := addr0, count;
      ghost var i, done: seq<nat> := 0, [];
      p := p0;
      assert strs[0..] == strs && ws + [] == ws && [] + Pointers(addr0, strs) == Pointers(addr0, strs);
      SameHere(mem, p0);
      while n > 0
        invariant 0 <= n <= count && i == count - n && p == p0 + 4 * i && |done| == i
        invariant addr0 <= addr && addr + |Flat(strs[i..])| == addr0 + |Flat(strs)|
        invariant done + Pointers(addr, strs[i..]) == Pointers(addr0, strs)
        invariant WordsAt(mem, sp, ws + done)
        invariant BlockAt(mem, addr, Flat(strs[i..]))
        invariant SameOutside(old(mem), mem, p0, p0 + 4 * count)
      {
        FlatRest(strs, i);
        PointersRest(addr, strs, i);
        WordsExtend(mem, sp, ws + done, addr);
        WriteOutside(old(mem), mem, p0, p0 + 4 * count, p, Little(addr));
        BlockKept(mem, addr, Flat(strs[i..]), p, Little(addr));
        assert p == sp + 4 * |ws + done|;
        Put(p, addr);
        BlockSplit(mem, addr, strs[i] + [0], Flat(strs[i + 1..]));
        assert StringAt(mem, addr, strs[i]) by { StringIs(mem, addr, strs[i]); }
        var len := UserStrLen(addr, strs[i]);
        assert ws + done + [addr] == ws + (done + [addr]);
        assert done + [addr] + Pointers(addr + len + 1, strs[i + 1..]) == done + ([addr] + Pointers(addr + len + 1,
            strs[i + 1..]));
        done, i := done + [addr], i + 1;
        addr, p, n := addr + len + 1, p + 4, n - 1;
      }
      assert strs[i..] == [];
      assert Pointers(addr, []) == [] by { NoPointers(addr); }
      assert done + [] == done;
    }

    /** The table and its null pointer, which is never written: it is there because the memory is fresh. */
    method PutTable(p0: nat, addr0: nat, count: nat, ghost strs: seq<seq<Byte>>, ghost sp: nat, ghost ws: seq<nat>,
        ghost hi: nat) returns (p: nat)
      requires count == |strs| && AllText(strs)
      requires p0 == sp + 4 * |ws| && WordsAt(mem, sp, ws) && ZeroIn(mem, p0, hi)
      requires BlockAt(mem, addr0, Flat(strs)) && addr0 + |Flat(strs)| <= 0x1_0000_0000
      requires p0 + 4 * (count + 1) <= hi <= addr0
      modifies this
      ensures p == p0 + 4 * (count + 1) && SameOutside(old(mem), mem, p0, p)
      ensures WordsAt(mem, sp, ws + Pointers(addr0, strs) + [0]) && ZeroIn(mem, p, hi)
    {
      hide WordsAt, BlockAt, SameOutside, ZeroIn, Flat, Pointers;
      p := PutPointers(p0, addr0, count, strs, sp, ws);
      ZeroPart(old(mem), p0, hi, p, hi);
      ZeroOutside(old(mem), mem, p0, p, p, hi);
      ZeroPart(mem, p, hi, p, p + 4);
      ZeroPart(mem, p, hi, p + 4, hi);
      WordsNull(mem, sp, ws + Pointers(addr0, strs));
      SameWiden(old(mem), mem, p0, p, p + 4);
      p := p + 4;
    }

    /** argc, argv, envp and the auxiliary vector, from the stack pointer up. */
    method PutTables(sp: nat, argc: nat, argAddr: nat, envc: nat, envAddr: nat, aux: seq<nat>,
        ghost av: seq<seq<Byte>>, ghost ev: seq<seq<Byte>>, ghost hi: nat)
      requires argc == |av| < 0x1_0000_0000 && envc == |ev| && AllText(av) && AllText(ev) && AllWords(aux)
      requires sp + 4 * (argc + envc + 3) + 4 * |aux| <= hi <= argAddr && ZeroIn(mem, sp, hi)
      requires BlockAt(mem, argAddr, Flat(av)) && argAddr + |Flat(av)| <= 0x1_0000_0000
      requires BlockAt(mem, envAddr, Flat(ev)) && envAddr + |Flat(ev)| <= 0x1_0000_0000 && hi <= envAddr
      modifies this
      ensures WordsAt(mem, sp, [argc] + Pointers(argAddr, av) + [0] + Pointers(envAddr, ev) + [0] + aux)
      ensures SameOutside(old(mem), mem, sp, hi)
    {
      hide WordsAt, BlockAt, SameOutside, ZeroIn, Flat, Pointers, Write, Little, LittleAll, AllText, AllWords;
      ghost var m0 := mem;
      WideWords(m0, sp, argc, hi);
      PutWide(sp, argc);
      ghost var m1 := mem;
      BlockOutside(m0, m1, sp, sp + 8, argAddr, Flat(av));
      BlockOutside(m0, m1, sp, sp + 8, envAddr, Flat(ev));
      var p := PutTable(sp + 4, argAddr, argc, av, sp, [argc], hi);
      ghost var m2 := mem;
      BlockOutside(m1, m2, sp + 4, p, envAddr, Flat(ev));
      ghost var ws := [argc] + Pointers(argAddr, av) + [0];
      ghost var p1 := p;
      p := PutTable(p, envAddr, envc, ev, sp, ws, hi);
      ghost var m3 := mem;
      ghost var words := ws + Pointers(envAddr, ev) + [0];
      mem := Write(mem, p, LittleAll(aux));
      WordsKept(m3, sp, words, p, LittleAll(aux));
      WriteBlock(m3, p, LittleAll(aux));
      WordsOfBlock(mem, p, aux);
      WordsJoin(mem, sp, words, aux);
      SameWiden(m0, m1, sp, sp + 8, hi);
      SameTrans(m0, m1, m2, sp, hi, sp + 4, p1, hi);
      SameTrans(m0, m2, m3, sp, hi, p1, p, hi);
      WriteOutside(m0, m3, sp, hi, p, LittleAll(aux));
    }

    /** The strings and the random bytes, from the top of the stack down. */
    method PutStrings(file: seq<Byte>, argv: ExecArgs, envp: ExecArgs, random: seq<Byte>, ghost av: seq<seq<Byte>>,
        ghost ev: seq<seq<Byte>>) returns (fileAddr: nat, envAddr: nat, argAddr: nat, platform: nat, rand: nat)
      requires IsText(file) && Denotes(argv, av) && Denotes(envp, ev) && Fits(file, av, ev) && |random| == 16
      requires ZeroIn(mem, 0, TOP)
      modifies this
      ensures var r := Place(file, av, ev);
        && r == Addresses(fileAddr, envAddr, argAddr, platform, rand, r.sp)
        && StringsAt(mem, r, file, av, ev, random)
        && ZeroIn(mem, 0, rand)
    {
      hide BlockAt, ZeroIn, Write, Flat, Align;
      fileAddr := CopyString(TOP, file);
      ghost var m1 := mem;
      envAddr := ArgsCopy(fileAddr, envp, ev);
      ghost var m2 := mem;
      argAddr := ArgsCopy(envAddr, argv, av);
      ghost var m3 := mem;
      platform := CopyString(Align(argAddr), PLATFORM);
      ghost var m4 := mem;
      rand := platform - 16;
      mem := Write(mem, rand, random);
      WriteBlock(old(mem), fileAddr, file + [0]);
      WriteBlock(m1, envAddr, Flat(ev) + [0]);
      WriteBlock(m2, argAddr, Flat(av) + [0]);
      WriteBlock(m3, platform, PLATFORM + [0]);
      WriteBlock(m4, rand, random);
      Kept2(m1, fileAddr, file + [0], envAddr, Flat(ev) + [0], argAddr, Flat(av) + [0]);
      BlockKept(m2, envAddr, Flat(ev) + [0], argAddr, Flat(av) + [0]);
      Kept2(m3, fileAddr, file + [0], platform, PLATFORM + [0], rand, random);
      Kept2(m3, envAddr, Flat(ev) + [0], platform, PLATFORM + [0], rand, random);
      Kept2(m3, argAddr, Flat(av) + [0], platform, PLATFORM + [0], rand, random);
      BlockKept(m4, platform, PLATFORM + [0], rand, random);
      ZeroPart(old(mem), 0, TOP, 0, rand);
      ZeroKept(old(mem), 0, rand, fileAddr, file + [0]);
      ZeroKept(m1, 0, rand, envAddr, Flat(ev) + [0]);
      ZeroKept(m2, 0, rand, argAddr, Flat(av) + [0]);
      ZeroKept(m3, 0, rand, platform, PLATFORM + [0]);
      ZeroKept(m4, 0, rand, rand, random);
    }

    /** The stack-building half of elf_exec, on a fresh stack. */
    method Build(file: seq<Byte>, argv: ExecArgs, envp: ExecArgs, im: Image, random: seq<Byte>,
        ghost av: seq<seq<Byte>>, ghost ev: seq<seq<Byte>>) returns (sp: nat)
      requires IsText(file) && Denotes(argv, av) && Denotes(envp, ev) && Fits(file, av, ev)
      requires |random| == 16 && ImageOk(im)
      requires ZeroIn(mem, 0, TOP)
      modifies this
      ensures var r := Place(file, av, ev);
        && sp == r.sp
        && WordsAt(mem, sp, Table(r, av, ev, im)) && StringsAt(mem, r, file, av, ev, random)
        && IsInitialStack(mem, sp, av, ev, Auxv(im, r.random, r.file, r.platform))
    {
      hide WordsAt, BlockAt, SameOutside, ZeroIn, Flat, Pointers, StringAt, Auxv, AllText, IsInitialStack;
      var fileAddr, envAddr, argAddr, platform, rand := PutStrings(file, argv, envp, random, av, ev);
      ghost var r := Place(file, av, ev);
      ghost var m := mem;
      var aux := Auxv(im, rand, fileAddr, platform);
      assert AllWords(aux) by { AuxvWords(im, rand, fileAddr, platform); }
      sp := rand - 4 * ((argv.count + 1) + (envp.count + 1) + 1);
      sp := sp - 4 * |aux|;
      sp := Align(sp);
      ZeroPart(mem, 0, rand, sp, rand);
      BlockSplit(mem, argAddr, Flat(av), [0]);
      BlockSplit(mem, envAddr, Flat(ev), [0]);
      PutTables(sp, argv.count, argAddr, envp.count, envAddr, aux, av, ev, rand);
      StringsOutside(m, mem, sp, rand, r, file, av, ev, random);
      StackReads(mem, file, av, ev, im, random);
    }
  }

  lemma AuxEntryWords(im: Image, random: nat, file: nat, platform: nat, i: nat)
    requires ImageOk(im) && random < 0x1_0000_0000 && file < 0x1_0000_0000 && platform < 0x1_0000_0000
    ensures AuxEntry(im, random, file, platform, i).0 < 0x1_0000_0000
    ensures AuxEntry(im, random, file, platform, i).1 < 0x1_0000_0000
  {
  }

  lemma {:induction false} AuxWords(im: Image, random: nat, file: nat, platform: nat, i: nat)
    requires ImageOk(im) && random < 0x1_0000_0000 && file < 0x1_0000_0000 && platform < 0x1_0000_0000
    requires i <= AUX_ENTRIES
    ensures AllWords(AuxFrom(im, random, file, platform, i))
    decreases AUX_ENTRIES - i
  {
    hide AuxEntry, ImageOk;
    if i < AUX_ENTRIES {
      AuxEntryWords(im, random, file, platform, i);
      AuxWords(im, random, file, platform, i + 1);
    }
  }

  lemma AuxvWords(im: Image, random: nat, file: nat, platform: nat)
    requires ImageOk(im) && random < 0x1_0000_0000 && file < 0x1_0000_0000 && platform < 0x1_0000_0000
    ensures AllWords(Auxv(im, random, file, platform))
  {
    hide AuxFrom;
    AuxWords(im, random, file, platform, 0);
  }

  lemma ZeroOutside(m: Memory, n: Memory, lo: nat, hi: nat, from: nat, to: nat)
    requires SameOutside(m, n, lo, hi) && ZeroIn(m, from, to) && hi <= from
    ensures ZeroIn(n, from, to)
  {
  }

  lemma ZeroKept(m: Memory, lo: nat, hi: nat, a: nat, s: seq<Byte>)
    requires ZeroIn(m, lo, hi) && (a + |s| <= lo || hi <= a)
    ensures ZeroIn(Write(m, a, s), lo, hi)
  {
  }

  lemma ZeroPart(m: Memory, lo: nat, hi: nat, from: nat, to: nat)
    requires ZeroIn(m, lo, hi) && lo <= from && to <= hi
    ensures ZeroIn(m, from, to)
  {
  }

  lemma NoWords(m: Memory, a: nat)
    ensures WordsAt(m, a, [])
  {
  }

  lemma StringsOutside(m: Memory, n: Memory, lo: nat, hi: nat, r: Addresses, file: seq<Byte>, argv: seq<seq<Byte>>,
      envp: seq<seq<Byte>>, random: seq<Byte>)
    requires StringsAt(m, r, file, argv, envp, random) && SameOutside(m, n, lo, hi)
    requires hi <= r.random <= r.platform <= r.argv <= r.envp <= r.file
    ensures StringsAt(n, r, file, argv, envp, random)
  {
    hide BlockAt, Flat, SameOutside;
    BlockOutside(m, n, lo, hi, r.file, file + [0]);
    BlockOutside(m, n, lo, hi, r.envp, Flat(envp) + [0]);
    BlockOutside(m, n, lo, hi, r.argv, Flat(argv) + [0]);
    BlockOutside(m, n, lo, hi, r.platform, PLATFORM + [0]);
    BlockOutside(m, n, lo, hi, r.random, random);
  }

  lemma SameTrans(m: Memory, n: Memory, o: Memory, lo: nat, hi: nat, from: nat, to: nat, top: nat)
    requires SameOutside(m, n, lo, hi) && SameOutside(n, o, from, to) && lo <= from && to <= top && hi <= top
    ensures SameOutside(m, o, lo, top)
  {
  }

  lemma SameWiden(m: Memory, n: Memory, lo: nat, hi: nat, top: nat)
    requires SameOutside(m, n, lo, hi) && hi <= top
    ensures SameOutside(m, n, lo, top)
  {
  }

  lemma LittleZero()
    ensures Little(0) == [0, 0, 0, 0]
  {
  }

  lemma WideZero(m: Memory, sp: nat, s: seq<Byte>, zeroes: seq<Byte>, hi: nat)
    requires |s| == 4 && zeroes == [0, 0, 0, 0] && ZeroIn(m, sp, hi) && sp + 8 <= hi
    ensures var n := Write(Write(m, sp, s), sp + 4, zeroes);
      ZeroIn(n, sp + 4, hi) && SameOutside(m, n, sp, sp + 8)
  {
    hide Write;
  }

  /** The 64-bit count puts argc in place and zeroes where the first pointer goes. */
  lemma WideWords(m: Memory, sp: nat, w: nat, hi: nat)
    requires w < 0x1_0000_0000 && ZeroIn(m, sp, hi) && sp + 8 <= hi
    ensures var n := Write(Write(m, sp, Little(w)), sp + 4, Little(0));
      WordsAt(n, sp, [w]) && ZeroIn(n, sp + 4, hi) && SameOutside(m, n, sp, sp + 8)
  {
    hide Little, Write, FourBytes, Word, WordsAt, Get;
    var m1 := Write(m, sp, Little(w));
    LittleZero();
    WideZero(m, sp, Little(w), Little(0), hi);
    NoWords(m, sp);
    WordsExtend(m, sp, [], w);
    assert [] + [w] == [w];
    WordsKept(m1, sp, [w], sp + 4, Little(0));
  }

  lemma SameHere(m: Memory, p: nat)
    ensures forall hi: nat :: SameOutside(m, m, p, hi)
  {
  }

  lemma StringIs(m: Memory, a: nat, s: seq<Byte>)
    requires BlockAt(m, a, s + [0])
    ensures StringAt(m, a, s)
  {
  }

  lemma NoPointers(a: nat)
    ensures Pointers(a, []) == []
  {
  }

  lemma Kept2(m: Memory, a: nat, s: seq<Byte>, b: nat, t: seq<Byte>, c: nat, u: seq<Byte>)
    requires BlockAt(m, a, s) && b + |t| <= a && c + |u| <= a
    ensures BlockAt(Write(Write(m, b, t), c, u), a, s)
  {
    BlockKept(m, a, s, b, t);
    BlockKept(Write(m, b, t), a, s, c, u);
  }
}
