/** Canonical mode of a terminal: line editing into the buffer and reading lines out of it (fs/tty.c). */
module Tty {

  const EAGAIN := -11
  const BUF_SIZE: nat := 4096

  /** A buffered character; the flag ends a line. An end-of-file is the flagged NUL. */
  datatype Cell = Cell(ch: char, flag: bool)

  const EOF_MARK := Cell('\0', true)

  /** The control characters and the input flags that canonical input looks at. */
  datatype Settings = Settings(erase: char, kill: char, eof: char, eol: char, inlcr: bool, icrnl: bool, igncr: bool)

  // ----- what a character typed means -----

  datatype Key = Ignored | Erase | Kill | Commit(ch: char) | Plain(ch: char)

  function Translated(s: Settings, ch: char): char {
    if s.inlcr && ch == '\n' then '\r' else if s.icrnl && ch == '\r' then '\n' else ch
  }

  function KeyOf(s: Settings, input: char): Key {
    var ch := Translated(s, input);
    if s.igncr && ch == '\r' then Ignored
    else if ch == '\0' then Plain(ch)
    else if ch == s.erase then Erase
    else if ch == s.kill then Kill
    else if ch == s.eof then Commit('\0')
    else if ch == '\n' || ch == s.eol then Commit(ch)
    else Plain(ch)
  }

  // ----- the line editor -----

  /** The rule: finished lines, and the line being typed, which alone can be edited. */
  datatype Editor = Editor(lines: seq<seq<Cell>>, current: string)

  function EditorStep(e: Editor, key: Key): Editor {
    match key
    case Ignored => e
    case Erase => if e.current == "" then e else e.(current := e.current[..|e.current| - 1])
    case Kill => e.(current := "")
    case Commit(ch) => Editor(e.lines + [Typed(e.current) + [Cell(ch, true)]], "")
    case Plain(ch) => e.(current := e.current + [ch])
  }

  function Typed(s: string): (cells: seq<Cell>)
    ensures |cells| == |s| && forall i :: 0 <= i < |s| ==> cells[i] == Cell(s[i], false)
  {
    seq(|s|, i requires 0 <= i < |s| => Cell(s[i], false))
  }

  function Flat(lines: seq<seq<Cell>>): seq<Cell> {
    if lines == [] then [] else Flat(lines[..|lines| - 1]) + lines[|lines| - 1]
  }

  function EditorCells(e: Editor): seq<Cell> {
    Flat(e.lines) + Typed(e.current)
  }

  // ----- editing the buffer -----

  /** The cells up to and with the last flag. */
  function KillBack(cells: seq<Cell>): (r: seq<Cell>)
    ensures r <= cells && (r != [] ==> r[|r| - 1].flag)
    ensures forall i :: |r| <= i < |cells| ==> !cells[i].flag
  {
    if cells == [] || cells[|cells| - 1].flag then cells else KillBack(cells[..|cells| - 1])
  }

  function Edit(cells: seq<Cell>, key: Key): seq<Cell> {
    match key
    case Ignored => cells
    case Erase => if cells == [] || cells[|cells| - 1].flag then cells else cells[..|cells| - 1]
    case Kill => KillBack(cells)
    case Commit(ch) => cells + [Cell(ch, true)]
    case Plain(ch) => cells + [Cell(ch, false)]
  }

  function EditAll(cells: seq<Cell>, keys: seq<Key>): seq<Cell> {
    if keys == [] then cells else Edit(EditAll(cells, keys[..|keys| - 1]), keys[|keys| - 1])
  }

  function EditorAll(keys: seq<Key>): Editor {
    if keys == [] then Editor([], "") else EditorStep(EditorAll(keys[..|keys| - 1]), keys[|keys| - 1])
  }

  /** Finished lines end in a flag, their only one. */
  ghost predicate Finished(lines: seq<seq<Cell>>) {
    forall i :: 0 <= i < |lines| ==> IsLine(lines[i])
  }

  ghost predicate IsLine(line: seq<Cell>) {
    && line != [] && line[|line| - 1].flag
    && forall i :: 0 <= i < |line| - 1 ==> !line[i].flag
  }

  lemma FlatEnds(lines: seq<seq<Cell>>)
    requires Finished(lines)
    ensures Flat(lines) != [] ==> Flat(lines)[|Flat(lines)| - 1].flag
  {
    if lines != [] { assert IsLine(lines[|lines| - 1]); }
  }

  lemma {:induction false} KillBackTo(a: seq<Cell>, b: seq<Cell>)
    requires a != [] ==> a[|a| - 1].flag
    requires forall i :: 0 <= i < |b| ==> !b[i].flag
    ensures KillBack(a + b) == a
  {
    var r := KillBack(a + b);
    assert |r| <= |a| by {
      assert forall i :: |a| <= i < |a + b| ==> (a + b)[i] == b[i - |a|];
    }
    assert |r| >= |a| by {
      if a != [] { assert (a + b)[|a| - 1] == a[|a| - 1]; }
    }
    assert r == (a + b)[..|a|];
  }

  lemma TypedExtend(s: string, ch: char)
    ensures Typed(s + [ch]) == Typed(s) + [Cell(ch, false)]
  {
  }

  lemma FlatExtend(lines: seq<seq<Cell>>, line: seq<Cell>)
    ensures Flat(lines + [line]) == Flat(lines) + line
  {
    assert (lines + [line])[..|lines|] == lines;
  }

  lemma EraseRefines(done: seq<Cell>, current: string)
    requires done != [] ==> done[|done| - 1].flag
    ensures Edit(done + Typed(current), Erase) ==
      done + Typed(if current == "" then current else current[..|current| - 1])
  {
    var cells := done + Typed(current);
    if current == "" {
      assert cells == done;
    } else {
      var shorter := current[..|current| - 1];
      assert Typed(shorter) == Typed(current)[..|current| - 1];
      assert cells[..|cells| - 1] == done + Typed(shorter);
    }
  }

  lemma EmptyTyped()
    ensures Typed("") == []
  {
  }

  lemma CommitRefines(e: Editor, ch: char)
    requires Finished(e.lines)
    ensures Finished(EditorStep(e, Commit(ch)).lines)
    ensures EditorCells(e) + [Cell(ch, true)] == EditorCells(EditorStep(e, Commit(ch)))
  {
    hide Flat, Typed;
    var line := Typed(e.current) + [Cell(ch, true)];
    FlatExtend(e.lines, line);
    EmptyTyped();
    assert IsLine(line);
    assert Flat(e.lines) + Typed(e.current) + [Cell(ch, true)] == Flat(e.lines) + line;
    assert Flat(e.lines + [line]) + [] == Flat(e.lines + [line]);
  }

  /** One key: editing the cells is editing the line being typed, and finished lines are out of reach. */
  lemma EditRefines(e: Editor, key: Key)
    requires Finished(e.lines)
    ensures Finished(EditorStep(e, key).lines)
    ensures Edit(EditorCells(e), key) == EditorCells(EditorStep(e, key))
    ensures e.lines <= EditorStep(e, key).lines
  {
    hide Flat, KillBack, Typed, IsLine;
    FlatEnds(e.lines);
    EmptyTyped();
    match key
    case Ignored =>
    case Erase =>
      EraseRefines(Flat(e.lines), e.current);
    case Kill =>
      KillBackTo(Flat(e.lines), Typed(e.current));
      assert Flat(e.lines) + [] == Flat(e.lines);
    case Commit(ch) =>
      CommitRefines(e, ch);
    case Plain(ch) =>
      TypedExtend(e.current, ch);
      assert Flat(e.lines) + (Typed(e.current) + [Cell(ch, false)]) == EditorCells(e) + [Cell(ch, false)];
  }

  /** The buffer of any input is what the line editor gives. */
  lemma {:induction false} EditAllRefines(keys: seq<Key>)
    ensures Finished(EditorAll(keys).lines)
    ensures EditAll([], keys) == EditorCells(EditorAll(keys))
  {
    if keys == [] {
      assert Typed("") == [];
    } else {
      EditAllRefines(keys[..|keys| - 1]);
      EditRefines(EditorAll(keys[..|keys| - 1]), keys[|keys| - 1]);
    }
  }

  // ----- reading -----

  /** The size of the first line, or 0 when there is none. */
  function CanonSize(cells: seq<Cell>): (n: nat)
    ensures n <= |cells|
    ensures n > 0 ==> cells[n - 1].flag && forall i :: 0 <= i < n - 1 ==> !cells[i].flag
    ensures n == 0 ==> forall i :: 0 <= i < |cells| ==> !cells[i].flag
  {
    if cells == [] then 0
    else if cells[0].flag then 1
    else if CanonSize(cells[1..]) == 0 then 0 else 1 + CanonSize(cells[1..])
  }

  /** The text of the first line: an end-of-file only ends it. */
  function TextSize(cells: seq<Cell>): nat
    requires CanonSize(cells) > 0
  {
    if cells[CanonSize(cells) - 1].ch == '\0' then CanonSize(cells) - 1 else CanonSize(cells)
  }

  function Taken(cells: seq<Cell>, size: nat): nat
    requires CanonSize(cells) > 0
  {
    if size > TextSize(cells) then TextSize(cells) else size
  }

  /** How many cells a read takes away: an end-of-file that comes to the front goes too. */
  function Gone(cells: seq<Cell>, size: nat): (g: nat)
    requires CanonSize(cells) > 0
    ensures g <= |cells|
  {
    var n := Taken(cells, size);
    if n < |cells| && cells[n] == EOF_MARK then n + 1 else n
  }

  function Chars(cells: seq<Cell>): (s: string)
    ensures |s| == |cells| && forall i :: 0 <= i < |s| ==> s[i] == cells[i].ch
  {
    seq(|cells|, i requires 0 <= i < |cells| => cells[i].ch)
  }

  // ----- runs -----

  /** The buffer; every cell reads took out of it, in order; the bytes they returned; the keys accepted. */
  datatype World = World(buffer: seq<Cell>, taken: seq<Cell>, output: string, keys: seq<Key>)

  datatype Event = Typing(key: Key) | Reading(size: nat)

  /** A character is accepted while there is room for it; a read needs a line. */
  predicate Enabled(w: World, e: Event) {
    match e
    case Typing(key) => key.Commit? || key.Plain? ==> |w.buffer| < BUF_SIZE
    case Reading(size) => size > 0 && CanonSize(w.buffer) > 0
  }

  function Next(w: World, e: Event): World
    requires Enabled(w, e)
  {
    match e
    case Typing(key) => w.(buffer := Edit(w.buffer, key), keys := w.keys + [key])
    case Reading(size) =>
      var n, g := Taken(w.buffer, size), Gone(w.buffer, size);
      World(w.buffer[g..], w.taken + w.buffer[..g], w.output + Chars(w.buffer[..n]), w.keys)
  }

  /** The bytes of cells, without the end-of-files. */
  function Bytes(cells: seq<Cell>): string {
    if cells == [] then ""
    else Bytes(cells[..|cells| - 1]) + if cells[|cells| - 1] == EOF_MARK then "" else [cells[|cells| - 1].ch]
  }

  /** Unless a line is waiting in the buffer, reads have stopped at the end of a line. */
  ghost predicate AtBoundary(w: World) {
    CanonSize(w.buffer) == 0 && w.taken != [] ==> w.taken[|w.taken| - 1].flag
  }

  ghost predicate Inv(w: World) {
    && w.taken + w.buffer == EditAll([], w.keys)
    && w.output == Bytes(w.taken)
    && AtBoundary(w)
    && |w.buffer| <= BUF_SIZE
  }

  ghost predicate NoFlags(cells: seq<Cell>) {
    forall i :: 0 <= i < |cells| ==> !cells[i].flag
  }

  /** Editing never reaches what was read: it edits the buffer alone. */
  lemma EditAcross(taken: seq<Cell>, buffer: seq<Cell>, key: Key)
    requires NoFlags(buffer) && taken != [] ==> taken[|taken| - 1].flag
    ensures Edit(taken + buffer, key) == taken + Edit(buffer, key)
    ensures NoFlags(Edit(buffer, key)) ==> NoFlags(buffer)
  {
    hide KillBack;
    var all := taken + buffer;
    match key
    case Ignored =>
    case Erase =>
      if buffer == [] {
        assert all == taken;
      } else {
        assert all[|all| - 1] == buffer[|buffer| - 1];
        assert all[..|all| - 1] == taken + buffer[..|buffer| - 1];
        assert forall i :: 0 <= i < |buffer| - 1 ==> buffer[..|buffer| - 1][i] == buffer[i];
      }
    case Kill =>
      KillAcross(taken, buffer);
    case Commit(ch) =>
      var b := buffer + [Cell(ch, true)];
      assert b[|buffer|].flag;
    case Plain(ch) =>
      var b := buffer + [Cell(ch, false)];
      assert forall i :: 0 <= i < |buffer| ==> b[i] == buffer[i];
  }

  lemma KillAcross(taken: seq<Cell>, buffer: seq<Cell>)
    requires NoFlags(buffer) && taken != [] ==> taken[|taken| - 1].flag
    ensures KillBack(taken + buffer) == taken + KillBack(buffer)
    ensures NoFlags(KillBack(buffer)) ==> NoFlags(buffer)
  {
    hide KillBack;
    var r := KillBack(buffer);
    var gone := buffer[|r|..];
    assert NoFlags(gone) && buffer == r + gone;
    KillJoined(taken, r, gone);
    if NoFlags(r) { assert r + gone == gone; }
  }

  lemma KillJoined(taken: seq<Cell>, r: seq<Cell>, gone: seq<Cell>)
    requires NoFlags(gone) && (r != [] ==> r[|r| - 1].flag)
    requires NoFlags(r + gone) && taken != [] ==> taken[|taken| - 1].flag
    ensures KillBack(taken + (r + gone)) == taken + r
  {
    hide KillBack;
    var keep := taken + r;
    assert taken + (r + gone) == keep + gone;
    if r == [] {
      assert keep == taken && r + gone == gone;
    } else {
      assert keep[|keep| - 1] == r[|r| - 1];
    }
    KillBackTo(keep, gone);
  }

  lemma {:induction false} BytesAppend(a: seq<Cell>, b: seq<Cell>)
    ensures Bytes(a + b) == Bytes(a) + Bytes(b)
  {
    if b == [] {
      assert a + b == a;
    } else {
      var n := |b| - 1;
      BytesAppend(a, b[..n]);
      assert (a + b)[..|a + b| - 1] == a + b[..n];
    }
  }

  lemma {:induction false} BytesPlain(cells: seq<Cell>)
    requires forall i :: 0 <= i < |cells| ==> cells[i] != EOF_MARK
    ensures Bytes(cells) == Chars(cells)
  {
    if cells != [] {
      BytesPlain(cells[..|cells| - 1]);
      assert Chars(cells) == Chars(cells[..|cells| - 1]) + [cells[|cells| - 1].ch];
    }
  }

  lemma CanonIsNoFlags(cells: seq<Cell>)
    ensures CanonSize(cells) == 0 <==> NoFlags(cells)
  {
  }

  /** A read takes bytes of the first line only; either it leaves that line's end, or it ends at a flag. */
  lemma TakenShape(cells: seq<Cell>, size: nat)
    requires CanonSize(cells) > 0
    ensures var c, n, g := CanonSize(cells), Taken(cells, size), Gone(cells, size);
      && n <= c && (forall i :: 0 <= i < n ==> cells[i] != EOF_MARK)
      && (g < c || (g > 0 && cells[g - 1].flag))
  {
    var c, n := CanonSize(cells), Taken(cells, size);
    assert n < c - 1 ==> !cells[n].flag;
  }

  lemma GoneBytes(cells: seq<Cell>, size: nat)
    requires CanonSize(cells) > 0
    ensures Bytes(cells[..Gone(cells, size)]) == Chars(cells[..Taken(cells, size)])
  {
    hide CanonSize, Bytes, Chars, TextSize;
    var n, g := Taken(cells, size), Gone(cells, size);
    TakenShape(cells, size);
    assert forall i :: 0 <= i < n ==> cells[..n][i] == cells[i];
    BytesPlain(cells[..n]);
    if g == n + 1 {
      assert cells[..g] == cells[..n] + [EOF_MARK];
      BytesEof(cells[..n]);
    }
  }

  lemma BytesEof(cells: seq<Cell>)
    ensures Bytes(cells + [EOF_MARK]) == Bytes(cells)
  {
    var more := cells + [EOF_MARK];
    assert more[..|more| - 1] == cells && more[|more| - 1] == EOF_MARK;
  }

  /** After a read, either a line is still waiting or the read ended at a flag. */
  lemma GoneBoundary(cells: seq<Cell>, size: nat)
    requires CanonSize(cells) > 0
    ensures var g := Gone(cells, size);
      NoFlags(cells[g..]) ==> g > 0 && cells[g - 1].flag
  {
    var c, g := CanonSize(cells), Gone(cells, size);
    TakenShape(cells, size);
    assert g < c ==> cells[g..][c - 1 - g] == cells[c - 1];
  }

  lemma TypingKeeps(w: World, key: Key)
    requires Inv(w) && Enabled(w, Typing(key))
    ensures Inv(Next(w, Typing(key)))
  {
    hide Edit, Bytes, CanonSize;
    CanonIsNoFlags(w.buffer);
    EditAcross(w.taken, w.buffer, key);
    CanonIsNoFlags(Edit(w.buffer, key));
    var keys := w.keys + [key];
    assert keys[..|keys| - 1] == w.keys;
    EditLength(w.buffer, key);
  }

  lemma ReadingKeeps(w: World, size: nat)
    requires Inv(w) && Enabled(w, Reading(size))
    ensures Inv(Next(w, Reading(size)))
  {
    hide EditAll, Bytes, CanonSize, Chars, Taken, Gone;
    var g := Gone(w.buffer, size);
    var gone, rest := w.buffer[..g], w.buffer[g..];
    GoneBytes(w.buffer, size);
    GoneBoundary(w.buffer, size);
    CanonIsNoFlags(rest);
    BytesAppend(w.taken, gone);
    assert w.taken + gone + rest == w.taken + w.buffer;
    var t := w.taken + gone;
    if g > 0 { assert t[|t| - 1] == w.buffer[g - 1]; }
  }

  lemma NextKeepsInv(w: World, e: Event)
    requires Inv(w) && Enabled(w, e)
    ensures Inv(Next(w, e))
  {
    hide Inv, Next;
    match e
    case Typing(key) => TypingKeeps(w, key);
    case Reading(size) => ReadingKeeps(w, size);
  }

  lemma EditLength(cells: seq<Cell>, key: Key)
    ensures |Edit(cells, key)| <= |cells| + 1
    ensures !(key.Commit? || key.Plain?) ==> |Edit(cells, key)| <= |cells|
  {
  }

  lemma {:induction false} EditAllLength(keys: seq<Key>)
    ensures |EditAll([], keys)| <= |keys|
  {
    if keys != [] {
      EditAllLength(keys[..|keys| - 1]);
      EditLength(EditAll([], keys[..|keys| - 1]), keys[|keys| - 1]);
    }
  }

  ghost predicate IsRun(w: World, es: seq<Event>)
    decreases |es|
  {
    es == [] || (Enabled(w, es[0]) && IsRun(Next(w, es[0]), es[1..]))
  }

  ghost function After(w: World, es: seq<Event>): World
    requires IsRun(w, es)
    decreases |es|
  {
    if es == [] then w else After(Next(w, es[0]), es[1..])
  }

  lemma {:induction false} RunKeepsInv(w: World, es: seq<Event>)
    requires Inv(w) && IsRun(w, es)
    ensures Inv(After(w, es))
    decreases |es|
  {
    hide Inv, Next;
    if es != [] {
      NextKeepsInv(w, es[0]);
      RunKeepsInv(Next(w, es[0]), es[1..]);
    }
  }

  /** The keys typed in a run. */
  function TypedIn(es: seq<Event>): seq<Key> {
    if es == [] then [] else (match es[0] case Typing(key) => [key] case Reading(_) => []) + TypedIn(es[1..])
  }

  /** The number of reads in a run. */
  function ReadsIn(es: seq<Event>): nat {
    if es == [] then 0 else (if es[0].Reading? then 1 else 0) + ReadsIn(es[1..])
  }

  /** A run accepts its keys in order, and every read of it makes progress. */
  lemma {:induction false} RunRecords(w: World, es: seq<Event>)
    requires IsRun(w, es)
    ensures After(w, es).keys == w.keys + TypedIn(es)
    ensures |After(w, es).taken| >= |w.taken| + ReadsIn(es)
    decreases |es|
  {
    hide CanonSize, Edit, Chars;
    if es != [] { RunRecords(Next(w, es[0]), es[1..]); }
  }

  /**
   Over every run of typing and reading, what was taken and what is buffered are together the
   cells the line editor makes of the keys, the bytes returned are those taken without the
   end-of-files, and the buffer stays within its size.
   */
  lemma RunConserves(es: seq<Event>)
    requires IsRun(World([], [], "", []), es)
    ensures var w := After(World([], [], "", []), es);
      && w.taken + w.buffer == EditorCells(EditorAll(TypedIn(es)))
      && w.output == Bytes(w.taken) && |w.buffer| <= BUF_SIZE
      && w.output + Bytes(w.buffer) == Bytes(EditorCells(EditorAll(TypedIn(es))))
  {
    hide Bytes, EditorCells, EditorAll, IsRun, After, TypedIn, ReadsIn;
    var w0 := World([], [], "", []);
    assert Bytes([]) == "" by { BytesPlain([]); }
    assert [] + [] == EditAll([], []);
    RunKeepsInv(w0, es);
    RunRecords(w0, es);
    var w := After(w0, es);
    assert w.keys == TypedIn(es);
    EditAllRefines(w.keys);
    BytesAppend(w.taken, w.buffer);
  }

  // ----- end-of-file -----

  /** A read takes more than the line it reads. */
  predicate LosesEof(cells: seq<Cell>, size: nat)
    requires CanonSize(cells) > 0
  {
    Gone(cells, size) > CanonSize(cells)
  }

  /**
   An end-of-file typed at the start of a line is lost to the reader exactly when it is already
   buffered behind a line that ends otherwise, and a read asks for the whole of that line.
   */
  lemma LosesEofIff(cells: seq<Cell>, size: nat)
    requires CanonSize(cells) > 0
    ensures var c := CanonSize(cells);
      LosesEof(cells, size) <==> cells[c - 1].ch != '\0' && size >= c && c < |cells| && cells[c] == EOF_MARK
  {
  }

  /** A line and then an end-of-file: the read of the line takes both, and no read returns nothing. */
  lemma EofLost()
    ensures var cells := [Cell('a', false), Cell('\n', true), EOF_MARK];
      CanonSize(cells) == 2 && LosesEof(cells, 2) && cells[Gone(cells, 2)..] == []
  {
    var cells := [Cell('a', false), Cell('\n', true), EOF_MARK];
    assert cells[1..][0] == Cell('\n', true);
    assert CanonSize(cells[1..]) == 1;
  }

  // ----- lines -----

  lemma {:induction false} FlatFront(lines: seq<seq<Cell>>)
    requires lines != []
    ensures Flat(lines) == lines[0] + Flat(lines[1..])
  {
    if |lines| == 1 {
      assert lines[..0] == [] && lines[1..] == [] && Flat([]) == [];
    } else {
      hide Flat;
      var n := |lines| - 1;
      assert lines == lines[..n] + [lines[n]] && lines[1..] == lines[1..n] + [lines[n]];
      assert lines[..n][1..] == lines[1..n];
      FlatExtend(lines[..n], lines[n]);
      FlatFront(lines[..n]);
      FlatExtend(lines[1..n], lines[n]);
    }
  }

  lemma CanonIs(cells: seq<Cell>, n: nat)
    requires 0 < n <= |cells| && IsLine(cells[..n])
    ensures CanonSize(cells) == n
  {
    assert cells[..n][n - 1] == cells[n - 1];
    assert forall i :: 0 <= i < n - 1 ==> cells[i] == cells[..n][i];
  }

  /** With finished lines waiting, a read returns the bytes of the first from its start, as many as asked for. */
  lemma ReadIsLinePrefix(lines: seq<seq<Cell>>, current: string, size: nat)
    requires lines != [] && Finished(lines)
    ensures var cells := Flat(lines) + Typed(current);
      && CanonSize(cells) == |lines[0]|
      && Chars(cells[..Taken(cells, size)]) <= Bytes(lines[0])
      && Taken(cells, size) == (if size < |Bytes(lines[0])| then size else |Bytes(lines[0])|)
      && (size >= |lines[0]| ==> Chars(cells[..Taken(cells, size)]) == Bytes(lines[0]))
  {
    hide CanonSize, Flat, Typed;
    var cells, line := Flat(lines) + Typed(current), lines[0];
    FlatFront(lines);
    assert IsLine(line) && cells[..|line|] == line;
    CanonIs(cells, |line|);
    var n, t := Taken(cells, size), TextSize(cells);
    LineBytes(line);
    assert cells[..n] == line[..n] && cells[..t] == line[..t];
    assert Chars(line[..n]) == Chars(line[..t])[..n];
  }

  /** A step of a run reads the first line waiting, from its start. */
  lemma ReadingReturns(w: World, lines: seq<seq<Cell>>, current: string, size: nat)
    requires lines != [] && Finished(lines) && size > 0
    requires w.buffer == Flat(lines) + Typed(current)
    ensures Enabled(w, Reading(size))
    ensures var line := Bytes(lines[0]);
      Next(w, Reading(size)).output == w.output + line[..if size < |line| then size else |line|]
  {
    hide CanonSize, Flat, Typed, Bytes, Gone;
    ReadIsLinePrefix(lines, current, size);
  }

  lemma LineBytes(line: seq<Cell>)
    requires IsLine(line)
    ensures var t := if line[|line| - 1].ch == '\0' then |line| - 1 else |line|;
      Bytes(line) == Chars(line[..t])
  {
    var n := |line| - 1;
    BytesPlain(line[..n]);
    assert line[..n + 1] == line;
    if line[n].ch != '\0' { BytesPlain(line); }
  }

  // ----- what the characters mean -----

  function Keys(s: Settings, input: string): (keys: seq<Key>)
    ensures |keys| == |input| && forall i :: 0 <= i < |input| ==> keys[i] == KeyOf(s, input[i])
  {
    seq(|input|, i requires 0 <= i < |input| => KeyOf(s, input[i]))
  }

  /** The line editor after a string typed into an empty terminal. */
  function AfterTyping(s: Settings, input: string): Editor {
    EditorAll(Keys(s, input))
  }

  lemma TypeOneMore(s: Settings, input: string, ch: char)
    ensures AfterTyping(s, input + [ch]) == EditorStep(AfterTyping(s, input), KeyOf(s, ch))
  {
    hide EditorStep;
    var keys := Keys(s, input + [ch]);
    assert keys[..|input|] == Keys(s, input) && keys[|input|] == KeyOf(s, ch);
  }

  /** Neither a line end nor an editing character; NUL never is one, because it stands for "none". */
  predicate Ordinary(s: Settings, ch: char) {
    ch == '\0' || ch !in {'\n', '\r', s.erase, s.kill, s.eof, s.eol}
  }

  predicate AllOrdinary(s: Settings, text: string) {
    forall i :: 0 <= i < |text| ==> Ordinary(s, text[i])
  }

  /** Ordinary characters are added to the line as they are. */
  lemma {:induction false} TypingOrdinary(s: Settings, before: string, text: string)
    requires AllOrdinary(s, text)
    ensures var e := AfterTyping(s, before); AfterTyping(s, before + text) == e.(current := e.current + text)
  {
    hide AfterTyping;
    var e := AfterTyping(s, before);
    if text == "" {
      assert before + text == before && e.current + text == e.current;
    } else {
      var n := |text| - 1;
      TypingOrdinary(s, before, text[..n]);
      assert before + text == (before + text[..n]) + [text[n]] && text == text[..n] + [text[n]];
      TypeOneMore(s, before + text[..n], text[n]);
      assert KeyOf(s, text[n]) == Plain(text[n]);
      assert e.current + text == (e.current + text[..n]) + [text[n]];
    }
  }

  /** A character that ends the line and belongs to it. */
  predicate EndsLine(s: Settings, typed: char, kept: char) {
    || (&& kept == '\n' && '\n' !in {s.erase, s.kill, s.eof}
        && ((typed == '\n' && !s.inlcr) || (typed == '\r' && s.icrnl)))
    || (typed == kept == s.eol && s.eol !in {'\0', '\n', '\r', s.erase, s.kill, s.eof})
  }

  /** A newline ends the line, and so do a carriage return under ICRNL and the end-of-line character. */
  lemma TypingLineEnd(s: Settings, before: string, typed: char, kept: char)
    requires EndsLine(s, typed, kept)
    ensures var e := AfterTyping(s, before);
      AfterTyping(s, before + [typed]) == Editor(e.lines + [Typed(e.current) + [Cell(kept, true)]], "")
  {
    hide AfterTyping;
    TypeOneMore(s, before, typed);
  }

  /** IGNCR drops a carriage return that ICRNL does not make a newline, and the one INLCR makes of a newline. */
  lemma TypingIgnored(s: Settings, before: string)
    requires s.igncr
    ensures !s.icrnl ==> AfterTyping(s, before + "\r") == AfterTyping(s, before)
    ensures s.inlcr ==> AfterTyping(s, before + "\n") == AfterTyping(s, before)
  {
    hide AfterTyping;
    TypeOneMore(s, before, '\r');
    TypeOneMore(s, before, '\n');
  }

  /** Otherwise a carriage return is a character like any other, and INLCR makes a newline one. */
  lemma TypingReturn(s: Settings, before: string)
    requires !s.igncr && '\r' !in {s.erase, s.kill, s.eof, s.eol}
    ensures var e := AfterTyping(s, before);
      && (!s.icrnl ==> AfterTyping(s, before + "\r") == e.(current := e.current + "\r"))
      && (s.inlcr ==> AfterTyping(s, before + "\n") == e.(current := e.current + "\r"))
  {
    hide AfterTyping;
    TypeOneMore(s, before, '\r');
    TypeOneMore(s, before, '\n');
  }

  /** A control character that no translation makes or unmakes. */
  predicate Control(ch: char) {
    ch !in {'\0', '\n', '\r'}
  }

  /** Erase takes back one character of the line, kill all of it, and end-of-file ends it. */
  lemma TypingControls(s: Settings, before: string)
    ensures var e := AfterTyping(s, before);
      && (Control(s.erase) ==>
            AfterTyping(s, before + [s.erase]) ==
            e.(current := if e.current == "" then "" else e.current[..|e.current| - 1]))
      && (Control(s.kill) && s.kill != s.erase ==> AfterTyping(s, before + [s.kill]) == e.(current := ""))
      && (Control(s.eof) && s.eof !in {s.erase, s.kill} ==>
            AfterTyping(s, before + [s.eof]) == Editor(e.lines + [Typed(e.current) + [EOF_MARK]], ""))
  {
    hide AfterTyping;
    TypeOneMore(s, before, s.erase);
    TypeOneMore(s, before, s.kill);
    TypeOneMore(s, before, s.eof);
  }

  lemma NothingTyped(s: Settings)
    ensures AfterTyping(s, "") == Editor([], "")
  {
    assert Keys(s, "") == [];
  }

  /** The bytes of a line that ended at `mark`. */
  lemma EndedBytes(text: string, mark: char)
    ensures IsLine(Typed(text) + [Cell(mark, true)])
    ensures Bytes(Typed(text) + [Cell(mark, true)]) == text + if mark == '\0' then "" else [mark]
  {
    hide Bytes;
    var line := Typed(text) + [Cell(mark, true)];
    LineBytes(line);
    var t := if mark == '\0' then |text| else |text| + 1;
    assert Chars(line[..t]) == text + if mark == '\0' then "" else [mark];
  }

  /** One whole line typed into an empty terminal: what a read of `size` bytes then returns, and what it leaves. */
  ghost predicate ReadsBack(s: Settings, input: string, text: string) {
    var cells := EditAll([], Keys(s, input));
    && CanonSize(cells) == |cells| > 0
    && forall size: nat :: size >= |cells| ==>
         Chars(cells[..Taken(cells, size)]) == text && cells[Gone(cells, size)..] == []
  }

  lemma OneLineReads(s: Settings, input: string, text: string, mark: char)
    requires AfterTyping(s, input) == Editor([Typed(text) + [Cell(mark, true)]], "")
    ensures ReadsBack(s, input, text + if mark == '\0' then "" else [mark])
  {
    hide Bytes, CanonSize, KeyOf, EditAll, EditorAll;
    var line := Typed(text) + [Cell(mark, true)];
    EditAllRefines(Keys(s, input));
    EmptyTyped();
    FlatOne(line);
    var cells := Flat([line]) + Typed("");
    assert cells == line && EditAll([], Keys(s, input)) == cells;
    EndedBytes(text, mark);
    forall size: nat | size >= |cells|
      ensures Chars(cells[..Taken(cells, size)]) == Bytes(line) && cells[Gone(cells, size)..] == []
    {
      ReadIsLinePrefix([line], "", size);
      WholeLineGone(cells, size);
    }
    ReadIsLinePrefix([line], "", 0);
  }

  lemma FlatOne(line: seq<Cell>)
    ensures Flat([line]) == line
  {
    FlatExtend([], line);
    assert [] + [line] == [line];
  }

  lemma WholeLineGone(cells: seq<Cell>, size: nat)
    requires CanonSize(cells) == |cells| > 0 && size >= |cells|
    ensures Gone(cells, size) == |cells|
  {
  }

  /** A line of ordinary characters and a line end reads back as typed, the line end as it is kept. */
  lemma LineReadsBack(s: Settings, text: string, typed: char, kept: char)
    requires AllOrdinary(s, text) && EndsLine(s, typed, kept)
    ensures ReadsBack(s, text + [typed], text + [kept])
  {
    hide AfterTyping, ReadsBack;
    NothingTyped(s);
    TypingOrdinary(s, "", text);
    assert "" + text == text;
    TypingLineEnd(s, text, typed, kept);
    assert [] + [Typed(text) + [Cell(kept, true)]] == [Typed(text) + [Cell(kept, true)]];
    OneLineReads(s, text + [typed], text, kept);
  }

  /** With erase typed in between, the character before it is missing; with kill, all before it. */
  lemma EditedLineReadsBack(s: Settings, text: string, rest: string, typed: char, kept: char)
    requires AllOrdinary(s, text) && AllOrdinary(s, rest) && EndsLine(s, typed, kept)
    ensures Control(s.erase) && text != "" ==>
            ReadsBack(s, text + [s.erase] + rest + [typed], text[..|text| - 1] + rest + [kept])
    ensures Control(s.kill) && s.kill != s.erase ==>
            ReadsBack(s, text + [s.kill] + rest + [typed], rest + [kept])
  {
    hide AfterTyping, ReadsBack, Typed;
    NothingTyped(s);
    TypingOrdinary(s, "", text);
    assert "" + text == text;
    TypingControls(s, text);
    TypingOrdinary(s, text + [s.erase], rest);
    TypingOrdinary(s, text + [s.kill], rest);
    if Control(s.erase) && text != "" {
      var line := text[..|text| - 1] + rest;
      TypingLineEnd(s, text + [s.erase] + rest, typed, kept);
      assert [] + [Typed(line) + [Cell(kept, true)]] == [Typed(line) + [Cell(kept, true)]];
      OneLineReads(s, text + [s.erase] + rest + [typed], line, kept);
    }
    if Control(s.kill) && s.kill != s.erase {
      assert "" + rest == rest;
      TypingLineEnd(s, text + [s.kill] + rest, typed, kept);
      assert [] + [Typed(rest) + [Cell(kept, true)]] == [Typed(rest) + [Cell(kept, true)]];
      OneLineReads(s, text + [s.kill] + rest + [typed], rest, kept);
    }
  }

  /** An end-of-file hands on the line as it is; with nothing typed before it, a read returns nothing. */
  lemma EofReadsBack(s: Settings, text: string)
    requires AllOrdinary(s, text) && Control(s.eof) && s.eof !in {s.erase, s.kill}
    ensures ReadsBack(s, text + [s.eof], text)
  {
    hide AfterTyping, ReadsBack, Typed;
    NothingTyped(s);
    TypingOrdinary(s, "", text);
    assert "" + text == text;
    TypingControls(s, text);
    assert [] + [Typed(text) + [EOF_MARK]] == [Typed(text) + [EOF_MARK]];
    OneLineReads(s, text + [s.eof], text, '\0');
    assert text + "" == text;
  }

  // ----- the code -----

  ghost function CellsOf(chars: seq<char>, flags: seq<bool>, n: nat): (cells: seq<Cell>)
    requires n <= |chars| && n <= |flags|
    ensures |cells| == n && forall i :: 0 <= i < n ==> cells[i] == Cell(chars[i], flags[i])
  {
    seq(n, i requires 0 <= i < n => Cell(chars[i], flags[i]))
  }

  /** What is left when the first `n` cells are copied out and the others moved down. */
  lemma MovedDown(chars: seq<char>, flags: seq<bool>, size: nat, n: nat, newChars: seq<char>, newFlags: seq<bool>)
    requires n <= size <= |chars| == |newChars| && |flags| == |newFlags| == |chars|
    requires forall i :: 0 <= i < size - n ==> newChars[i] == chars[i + n]
    requires forall i :: 0 <= i < size - n ==> newFlags[i] == flags[i + n]
    ensures chars[..n] == Chars(CellsOf(chars, flags, size)[..n])
    ensures CellsOf(newChars, newFlags, size - n) == CellsOf(chars, flags, size)[n..]
  {
    hide CellsOf, Chars;
  }

  /** Drop cells from the back, but no more than `count` and none from a flag on. */
  function DropBack(cells: seq<Cell>, count: nat): seq<Cell> {
    if count == 0 || cells == [] || cells[|cells| - 1].flag then cells else DropBack(cells[..|cells| - 1], count - 1)
  }

  lemma DropOne(cells: seq<Cell>, count: nat)
    requires cells != [] && count > 0
    ensures DropBack(cells, count) ==
            if cells[|cells| - 1].flag then cells else DropBack(cells[..|cells| - 1], count - 1)
  {
  }

  lemma DropNone(cells: seq<Cell>)
    ensures DropBack(cells, 0) == cells
  {
  }

  lemma {:induction false} DropAll(cells: seq<Cell>, count: nat)
    requires count >= |cells|
    ensures DropBack(cells, count) == KillBack(cells)
  {
    if cells != [] && !cells[|cells| - 1].flag { DropAll(cells[..|cells| - 1], count - 1); }
  }

  class Terminal {
    const buf: array<char>
    const flag: array<bool>
    var bufsize: nat

    ghost predicate Valid()
      reads this, buf, flag
    {
      buf.Length == BUF_SIZE && flag.Length == BUF_SIZE && bufsize <= BUF_SIZE
    }

    ghost function Contents(): seq<Cell>
      requires Valid()
      reads this, buf, flag
    {
      CellsOf(buf[..], flag[..], bufsize)
    }

    constructor ()
      ensures Valid() && Contents() == []
      ensures fresh(buf) && fresh(flag)
    {
      buf, flag, bufsize := new char[BUF_SIZE], new bool[BUF_SIZE], 0;
    }

    /** tty_push_char, not blocking. */
    method PushChar(ch: char, mark: bool) returns (err: int)
      requires Valid()
      modifies this, buf, flag
      ensures Valid()
      ensures err == if |old(Contents())| == BUF_SIZE then EAGAIN else 0
      ensures Contents() == if err == 0 then old(Contents()) + [Cell(ch, mark)] else old(Contents())
    {
      if bufsize >= BUF_SIZE { return EAGAIN; }
      buf[bufsize] := ch;
      flag[bufsize] := mark;
      bufsize := bufsize + 1;
      return 0;
    }

    /** The deleting loop: never past a flag. */
    method EraseBack(count: nat)
      requires Valid() && count <= bufsize
      modifies this
      ensures Valid() && Contents() == DropBack(old(Contents()), count)
    {
      hide DropBack, CellsOf;
      var i := 0;
      while i < count
        invariant 0 <= i <= count && count - i <= bufsize
        invariant Valid()
        invariant DropBack(Contents(), count - i) == DropBack(old(Contents()), count)
      {
        ghost var before := Contents();
        DropOne(before, count - i);
        if flag[bufsize - 1] { return; }
        bufsize := bufsize - 1;
        assert Contents() == before[..|before| - 1];
        i := i + 1;
      }
      DropNone(Contents());
    }

    /** The erase and kill characters: one character, or all there are. */
    method EraseOrKill(one: bool)
      requires Valid()
      modifies this
      ensures Valid() && Contents() == Edit(old(Contents()), if one then Erase else Kill)
    {
      ghost var cells := Contents();
      var count := bufsize;
      if one && bufsize > 0 { count := 1; }
      EraseBack(count);
      DropAll(cells, |cells|);
      assert cells != [] ==> DropBack(cells, 1) == Edit(cells, Erase);
    }

    /** One character of canonical input. */
    method TypeChar(s: Settings, input: char) returns (err: int)
      requires Valid()
      modifies this, buf, flag
      ensures Valid()
      ensures err == 0 ==> Contents() == Edit(old(Contents()), KeyOf(s, input))
      ensures err == 0 ==> Enabled(World(old(Contents()), [], "", []), Typing(KeyOf(s, input)))
      ensures err != 0 ==> err == EAGAIN && Contents() == old(Contents())
      ensures err != 0 ==> !Enabled(World(old(Contents()), [], "", []), Typing(KeyOf(s, input)))
    {
      hide CellsOf, KillBack;
      var ch := input;
      if s.inlcr && ch == '\n' { ch := '\r'; } else if s.icrnl && ch == '\r' { ch := '\n'; }
      if s.igncr && ch == '\r' { return 0; }
      if ch == '\0' {
        err := PushChar(ch, false);
      } else if ch == s.erase || ch == s.kill {
        EraseOrKill(ch == s.erase);
        err := 0;
      } else if ch == s.eof {
        err := PushChar('\0', true);
      } else if ch == '\n' || ch == s.eol {
        err := PushChar(ch, true);
      } else {
        err := PushChar(ch, false);
      }
    }

    /** The canonical branch of tty_input: take characters until one does not fit. */
    method Input(s: Settings, input: string) returns (res: int, ghost done: nat)
      requires Valid()
      modifies this, buf, flag
      ensures Valid() && done <= |input|
      ensures Contents() == EditAll(old(Contents()), Keys(s, input[..done]))
      ensures done < |input| ==> !Enabled(World(Contents(), [], "", []), Typing(KeyOf(s, input[done])))
      ensures |old(Contents())| + |input| <= BUF_SIZE ==> done == |input|
      ensures res == if done > 0 || input == "" then done else EAGAIN
    {
      hide Edit, KeyOf;
      var i, err := 0, 0;
      assert Keys(s, input[..0]) == [];
      while i < |input|
        invariant 0 <= i <= |input| && Valid()
        invariant Contents() == EditAll(old(Contents()), Keys(s, input[..i]))
        invariant err == 0 && |Contents()| <= |old(Contents())| + i
      {
        ghost var keys := Keys(s, input[..i + 1]);
        assert keys[..i] == Keys(s, input[..i]) && keys[i] == KeyOf(s, input[i]);
        EditLength(Contents(), KeyOf(s, input[i]));
        err := TypeChar(s, input[i]);
        if err < 0 { break; }
        i := i + 1;
      }
      done := i;
      res := if i > 0 then i else err;
    }

    /** tty_canon_size: 0 stands for "no line". */
    method CanonSizeOf() returns (n: nat)
      requires Valid()
      ensures n == CanonSize(Contents())
    {
      var i := 0;
      while i < bufsize
        invariant 0 <= i <= bufsize
        invariant forall j :: 0 <= j < i ==> !flag[j]
      {
        if flag[i] {
          assert IsLine(Contents()[..i + 1]);
          CanonIs(Contents(), i + 1);
          return i + 1;
        }
        i := i + 1;
      }
      return 0;
    }

    /** tty_read_into_buf: the first `n` characters, and the rest moved to the front. */
    method ReadIntoBuf(n: nat) returns (data: string)
      requires Valid() && n <= bufsize
      modifies this, buf, flag
      ensures Valid() && data == Chars(old(Contents())[..n]) && Contents() == old(Contents())[n..]
    {
      hide CellsOf, Chars;
      ghost var chars, flags, size := buf[..], flag[..], bufsize;
      data := buf[..n];
      bufsize := bufsize - n;
      forall i | 0 <= i < bufsize { buf[i] := buf[i + n]; }
      forall i | 0 <= i < bufsize { flag[i] := flag[i + n]; }
      MovedDown(chars, flags, size, n, buf[..], flag[..]);
    }

    /** How much of the first line can be read, if there is a line. */
    method LineText() returns (found: bool, n: nat)
      requires Valid()
      ensures found <==> CanonSize(Contents()) > 0
      ensures found ==> n == TextSize(Contents())
    {
      hide CanonSize;
      n := CanonSizeOf();
      found := n > 0;
      if found && buf[n - 1] == '\0' { n := n - 1; }
    }

    /** Remove an end-of-file at the front, so that the next read can succeed. */
    method DropEof()
      requires Valid()
      modifies this, buf, flag
      ensures Valid()
      ensures var was := old(Contents());
        Contents() == if was != [] && was[0] == EOF_MARK then was[1..] else was
    {
      if bufsize > 0 && buf[0] == '\0' && flag[0] {
        var _ := ReadIntoBuf(1);
      }
    }

    /** The canonical part of tty_read, not blocking. */
    method Read(size: nat) returns (res: int, data: string)
      requires Valid()
      modifies this, buf, flag
      ensures Valid()
      ensures size == 0 ==> res == 0 && data == "" && Contents() == old(Contents())
      ensures size > 0 && CanonSize(old(Contents())) == 0 ==> res == EAGAIN && Contents() == old(Contents())
      ensures size > 0 && CanonSize(old(Contents())) > 0 ==>
        && res == |data| == Taken(old(Contents()), size) && data == Chars(old(Contents())[..res])
        && Contents() == old(Contents())[Gone(old(Contents()), size)..]
    {
      hide CanonSize, CellsOf, TextSize, Chars;
      data := "";
      if size == 0 { return 0, data; }
      var found, text := LineText();
      if !found { return EAGAIN, data; }
      var k := if size > text then text else size;
      ghost var cells := Contents();
      TakenShape(cells, size);
      data := ReadIntoBuf(k);
      if k < |cells| { assert cells[k..][0] == cells[k] && cells[k..][1..] == cells[k + 1..]; }
      DropEof();
      res := k;
    }

    /** tty_input and then tty_read, for an input that fits: what was typed as one line is read back. */
    method InputThenRead(s: Settings, input: string, size: nat) returns (res: int, data: string)
      requires Valid() && Contents() == [] && 0 < |input| <= size && |input| <= BUF_SIZE
      modifies this, buf, flag
      ensures Valid()
      ensures forall text :: ReadsBack(s, input, text) ==> res == |text| && data == text && Contents() == []
    {
      hide CanonSize, CellsOf, TextSize, Chars, Taken, Gone, Keys, EditAll;
      var taken, done := Input(s, input);
      assert input[..done] == input;
      EditAllLength(Keys(s, input));
      res, data := Read(size);
    }
  }
}
