/** The vertical compression of genealogy/surface.py: a backtracking search for clear left-to-right paths,
    whose cells are then deleted column by column. */
module Compress {
  import opened Wrappers
  import opened Glyphs
  import opened Surface

  /** A cell a path may cross: blank (also beyond the end of a line) or a plain vertical channel glyph. */
  predicate Clear(g: Grid, line: int, index: int) {
    var c := CellAt(LineAt(g, line), index);
    c == None || c == Some(Middle)
  }

  /** The path surface marks `(line, index)` for removal. */
  predicate IsMark(p: Grid, line: int, index: int) {
    CellAt(LineAt(p, line), index) == Some(ToRemove)
  }

  /** A path surface holds nothing but blanks and removal marks. */
  predicate MarksOnly(p: Grid) {
    forall l, i :: 0 <= l < |p| && 0 <= i < |p[l]| ==> p[l][i] == None || p[l][i] == Some(ToRemove)
  }

  /** No line of the path surface is longer than `w`. */
  predicate Narrow(p: Grid, w: nat) {
    forall l :: 0 <= l < |p| ==> |p[l]| <= w
  }

  /** Setting a cell inside the width keeps a surface narrow. */
  lemma NarrowPut(p: Grid, w: nat, line: nat, index: nat, c: Cell)
    requires Narrow(p, w) && index < w
    ensures Narrow(PutCell(p, line, index, c), w)
  {
  }

  /** Every mark of the path surface sits on a visited position. */
  ghost predicate MarksVisited(p: Grid, visited: set<(int, int)>) {
    forall l, i :: IsMark(p, l, i) ==> (l, i) in visited
  }

  /** The columns a search covers: an all-empty surface still has its first column searched. */
  function Width(w: nat): nat {
    if w == 0 then 1 else w
  }

  /** The positions a search can visit. */
  function Positions(h: nat, w: nat): set<(int, int)> {
    set l, i | 0 <= l < h && 0 <= i < w :: (l, i)
  }

  lemma SubsetCard<T>(a: set<T>, b: set<T>)
    requires a <= b
    ensures |a| <= |b|
  {
    assert b == a + (b - a);
  }

  /** Visiting one more position shrinks what is left to visit. */
  lemma VisitShrinks(u: set<(int, int)>, visited: set<(int, int)>, later: set<(int, int)>, pos: (int, int))
    requires pos in u && pos !in visited && visited + {pos} <= later
    ensures |u - later| < |u - visited|
  {
    SubsetCard(u - later, (u - visited) - {pos});
    assert (u - visited) == ((u - visited) - {pos}) + {pos};
  }

  /** The state the search threads through its calls. */
  datatype Search = Search(found: bool, path: Grid, visited: set<(int, int)>)

  /** A mark the search added. */
  predicate NewMark(before: Grid, after: Grid, line: int, index: int) {
    IsMark(after, line, index) && !IsMark(before, line, index)
  }

  /** The search added a mark in column `index`. */
  ghost predicate Covered(before: Grid, after: Grid, index: int) {
    exists l :: NewMark(before, after, l, index)
  }

  /** What a search from column `index`, given `path` and `visited`, promises of its result `r`: the path surface
      keeps holding only marks, all of them visited; the visited set only grows; every added mark lies on a clear
      cell not visited before, in a column from `index` on, and no column gets two; a failed search leaves the marks
      as they were, a successful one adds a mark in every column from `index` to the last. */
  ghost predicate Sound(g: Grid, w: nat, index: int, path: Grid, visited: set<(int, int)>, r: Search) {
    && MarksOnly(r.path) && MarksVisited(r.path, r.visited)
    && (Narrow(path, Width(w)) ==> Narrow(r.path, Width(w)))
    && visited <= r.visited
    && |r.path| <= Max(|path|, |g|)
    && (forall l, i :: NewMark(path, r.path, l, i) ==>
          0 <= l < |g| && index <= i < Width(w) && (l, i) !in visited && Clear(g, l, i))
    && (forall l1, l2, i :: NewMark(path, r.path, l1, i) && NewMark(path, r.path, l2, i) ==> l1 == l2)
    && (forall l, i :: IsMark(path, l, i) ==> IsMark(r.path, l, i))
    && (!r.found ==> forall l, i :: IsMark(r.path, l, i) ==> IsMark(path, l, i))
    && (r.found ==> forall i :: index <= i < Width(w) ==> Covered(path, r.path, i))
  }

  /** `Surface._find_clear_path` from `(line, index)`. A position already visited, or holding a glyph other than
      a blank or a plain vertical channel, fails. Otherwise the cell is marked, and reaching the last column
      succeeds; before that, the moves are tried in turn (`Explore`). */
  function FindClearPath(g: Grid, w: nat, line: int, index: int, path: Grid, visited: set<(int, int)>): (r: Search)
    requires Rectangular(g, w) && 0 <= line < |g| && 0 <= index < Width(w)
    requires MarksOnly(path) && MarksVisited(path, visited)
    ensures Sound(g, w, index, path, visited, r)
    decreases |Positions(|g|, Width(w)) - visited|, 3
  {
    var pos := (line, index);
    if pos in visited then Search(false, path, visited)
    else if !Clear(g, line, index) then Search(false, path, visited + {pos})
    else if index >= |g[line]| - 1 then
      SoundAtEnd(g, w, line, index, path, visited);
      Search(true, PutCell(path, line, index, Some(ToRemove)), visited + {pos})
    else
      Explore(g, w, line, index, path, visited)
  }

  /** The moves from a marked clear cell that is not in the last column: first up, from a blank only. A vertical
      move that succeeds unmarks the cell it left and forgets having visited it. */
  function Explore(g: Grid, w: nat, line: nat, index: nat, path: Grid, visited: set<(int, int)>): (r: Search)
    requires Rectangular(g, w) && line < |g| && index + 1 < Width(w) && index < |g[line]| - 1
    requires (line, index) !in visited && Clear(g, line, index)
    requires MarksOnly(path) && MarksVisited(path, visited)
    ensures Sound(g, w, index, path, visited, r)
    decreases |Positions(|g|, Width(w)) - visited|, 2
  {
    var pos := (line, index);
    var seen := visited + {pos};
    var marked := PutCell(path, line, index, Some(ToRemove));
    MarkCell(path, visited, line, index);
    VisitShrinks(Positions(|g|, Width(w)), visited, seen, pos);
    var up := if line > 0 && g[line][index] == None then FindClearPath(g, w, line - 1, index, marked, seen)
              else Search(false, marked, seen);
    if up.found then
      LiftVertical(g, w, line, index, path, visited, up);
      Search(true, PutCell(up.path, line, index, None), up.visited - {pos})
    else
      AfterUp(g, w, line, index, path, visited, up)
  }

  /** Up failed: try right. */
  function AfterUp(g: Grid, w: nat, line: nat, index: nat, path: Grid, visited: set<(int, int)>, up: Search): (r: Search)
    requires Rectangular(g, w) && line < |g| && index + 1 < Width(w) && index < |g[line]| - 1
    requires (line, index) !in visited && Clear(g, line, index)
    requires MarksOnly(path) && MarksVisited(path, visited)
    requires Sound(g, w, index, PutCell(path, line, index, Some(ToRemove)), visited + {(line, index)}, up) && !up.found
    ensures Sound(g, w, index, path, visited, r)
    decreases |Positions(|g|, Width(w)) - visited|, 1
  {
    var pos := (line, index);
    VisitShrinks(Positions(|g|, Width(w)), visited, up.visited, pos);
    var right := FindClearPath(g, w, line, index + 1, up.path, up.visited);
    ComposeAfterFailure(g, w, index, index + 1, PutCell(path, line, index, Some(ToRemove)), visited + {pos}, up, right);
    if right.found then
      LiftRight(g, w, line, index, path, visited, right);
      right
    else
      AfterRight(g, w, line, index, path, visited, right)
  }

  /** Up and right failed: try down, from a blank only; a dead end unmarks the cell and fails. */
  function AfterRight(g: Grid, w: nat, line: nat, index: nat, path: Grid, visited: set<(int, int)>, right: Search): (r: Search)
    requires Rectangular(g, w) && line < |g| && index + 1 < Width(w)
    requires (line, index) !in visited && Clear(g, line, index)
    requires MarksOnly(path) && MarksVisited(path, visited)
    requires Sound(g, w, index + 1, PutCell(path, line, index, Some(ToRemove)), visited + {(line, index)}, right) && !right.found
    ensures Sound(g, w, index, path, visited, r)
    decreases |Positions(|g|, Width(w)) - visited|, 0
  {
    var pos := (line, index);
    VisitShrinks(Positions(|g|, Width(w)), visited, right.visited, pos);
    var down := if line + 1 < |g| && g[line][index] == None then FindClearPath(g, w, line + 1, index, right.path, right.visited)
                else right;
    ComposeAfterFailure(g, w, index, index, PutCell(path, line, index, Some(ToRemove)), visited + {pos}, right, down);
    if down.found then
      LiftVertical(g, w, line, index, path, visited, down);
      Search(true, PutCell(down.path, line, index, None), down.visited - {pos})
    else
      LiftFailure(g, w, line, index, path, visited, down);
      Search(false, PutCell(down.path, line, index, None), down.visited)
  }

  /** Reaching the last column: the one new mark covers it. */
  lemma SoundAtEnd(g: Grid, w: nat, line: nat, index: nat, path: Grid, visited: set<(int, int)>)
    requires Rectangular(g, w) && line < |g| && index < Width(w) && index >= |g[line]| - 1
    requires (line, index) !in visited && Clear(g, line, index)
    requires MarksOnly(path) && MarksVisited(path, visited)
    ensures Sound(g, w, index, path, visited, Search(true, PutCell(path, line, index, Some(ToRemove)), visited + {(line, index)}))
  {
    var p := PutCell(path, line, index, Some(ToRemove));
    MarkCell(path, visited, line, index);
    if Narrow(path, Width(w)) {
      NarrowPut(path, Width(w), line, index, Some(ToRemove));
    }
    assert forall l, i :: NewMark(path, p, l, i) ==> l == line && i == index;
    forall i | index <= i < Width(w) ensures Covered(path, p, i) {
      assert i == index && NewMark(path, p, line, index);
    }
  }

  /** A failed search changes no mark, so a search after it is sound relative to the state before both. */
  lemma ComposeAfterFailure(g: Grid, w: nat, i1: int, i2: int, p0: Grid, v0: set<(int, int)>, r1: Search, r2: Search)
    requires i1 <= i2
    requires Sound(g, w, i1, p0, v0, r1) && !r1.found && Sound(g, w, i2, r1.path, r1.visited, r2)
    ensures Sound(g, w, i2, p0, v0, r2)
  {
    forall i | r2.found && i2 <= i < Width(w)
      ensures Covered(p0, r2.path, i)
    {
      assert Covered(r1.path, r2.path, i);
      var l :| NewMark(r1.path, r2.path, l, i);
      assert NewMark(p0, r2.path, l, i);
    }
  }

  /** A vertical move that succeeded: blanking the cell left behind makes the child's marks the new ones. */
  lemma LiftVertical(g: Grid, w: nat, line: nat, index: nat, path: Grid, visited: set<(int, int)>, child: Search)
    requires (line, index) !in visited && Clear(g, line, index) && line < |g| && index < Width(w)
    requires MarksOnly(path) && MarksVisited(path, visited)
    requires Sound(g, w, index, PutCell(path, line, index, Some(ToRemove)), visited + {(line, index)}, child)
    requires child.found
    ensures Sound(g, w, index, path, visited, Search(true, PutCell(child.path, line, index, None), child.visited - {(line, index)}))
  {
    var marked := PutCell(path, line, index, Some(ToRemove));
    MarkCell(path, visited, line, index);
    UnmarkCell(child.path, child.visited, line, index);
    var p := PutCell(child.path, line, index, None);
    if Narrow(path, Width(w)) {
      NarrowPut(path, Width(w), line, index, Some(ToRemove));
      NarrowPut(child.path, Width(w), line, index, None);
    }
    forall l, i | NewMark(path, p, l, i)
      ensures NewMark(marked, child.path, l, i)
    {
    }
    forall i | index <= i < Width(w)
      ensures Covered(path, p, i)
    {
      assert Covered(marked, child.path, i);
      var l :| NewMark(marked, child.path, l, i);
      assert NewMark(path, p, l, i);
    }
  }

  /** A right move that succeeded: the mark left in column `index` joins the child's marks. */
  lemma LiftRight(g: Grid, w: nat, line: nat, index: nat, path: Grid, visited: set<(int, int)>, child: Search)
    requires (line, index) !in visited && Clear(g, line, index) && line < |g| && index < Width(w)
    requires MarksOnly(path) && MarksVisited(path, visited)
    requires Sound(g, w, index + 1, PutCell(path, line, index, Some(ToRemove)), visited + {(line, index)}, child)
    requires child.found
    ensures Sound(g, w, index, path, visited, child)
  {
    var marked := PutCell(path, line, index, Some(ToRemove));
    MarkCell(path, visited, line, index);
    if Narrow(path, Width(w)) {
      NarrowPut(path, Width(w), line, index, Some(ToRemove));
    }
    forall i | index <= i < Width(w)
      ensures Covered(path, child.path, i)
    {
      if i == index {
        assert NewMark(path, child.path, line, index);
      } else {
        assert Covered(marked, child.path, i);
        var l :| NewMark(marked, child.path, l, i);
        assert NewMark(path, child.path, l, i);
      }
    }
  }

  /** A dead end: blanking the cell restores the marks the search started from. */
  lemma LiftFailure(g: Grid, w: nat, line: nat, index: nat, path: Grid, visited: set<(int, int)>, child: Search)
    requires (line, index) !in visited && line < |g| && index < Width(w)
    requires MarksOnly(path) && MarksVisited(path, visited)
    requires Sound(g, w, index, PutCell(path, line, index, Some(ToRemove)), visited + {(line, index)}, child)
    requires !child.found
    ensures Sound(g, w, index, path, visited, Search(false, PutCell(child.path, line, index, None), child.visited))
  {
    MarkCell(path, visited, line, index);
    UnmarkCell(child.path, child.visited, line, index);
    if Narrow(path, Width(w)) {
      NarrowPut(path, Width(w), line, index, Some(ToRemove));
      NarrowPut(child.path, Width(w), line, index, None);
    }
  }

  /** Marking one cell adds exactly that mark. */
  lemma MarkCell(path: Grid, visited: set<(int, int)>, line: nat, index: nat)
    requires MarksOnly(path) && MarksVisited(path, visited)
    ensures var p := PutCell(path, line, index, Some(ToRemove));
      && MarksOnly(p) && MarksVisited(p, visited + {(line, index)})
      && forall l, i :: IsMark(p, l, i) <==> IsMark(path, l, i) || (l, i) == (line, index)
  {
    var p := PutCell(path, line, index, Some(ToRemove));
    forall l, i
      ensures IsMark(p, l, i) <==> IsMark(path, l, i) || (l, i) == (line, index)
    {
      if l != line {
        assert LineAt(p, l) == LineAt(path, l) || (|path| <= l && LineAt(p, l) == []);
      }
    }
  }

  /** Blanking one cell removes exactly that mark. */
  lemma UnmarkCell(path: Grid, visited: set<(int, int)>, line: nat, index: nat)
    requires MarksOnly(path) && MarksVisited(path, visited)
    ensures var p := PutCell(path, line, index, None);
      && MarksOnly(p) && MarksVisited(p, visited - {(line, index)}) && MarksVisited(p, visited)
      && forall l, i :: IsMark(p, l, i) <==> IsMark(path, l, i) && (l, i) != (line, index)
  {
    var p := PutCell(path, line, index, None);
    forall l, i
      ensures IsMark(p, l, i) <==> IsMark(path, l, i) && (l, i) != (line, index)
    {
      if l != line {
        assert LineAt(p, l) == LineAt(path, l) || (|path| <= l && LineAt(p, l) == []);
      }
    }
  }

  // ---------------------------------------------------------------------------------------------
  // Counting marks column by column

  lemma {:induction false} CountConcat(a: Line, b: Line, x: Cell)
    ensures CountIn(a + b, x) == CountIn(a, x) + CountIn(b, x)
  {
    if a != [] {
      assert (a + b)[1..] == a[1..] + b;
      CountConcat(a[1..], b, x);
    } else {
      assert a + b == b;
    }
  }

  lemma {:induction false} CountNones(n: nat, x: Cell)
    requires x.Some?
    ensures CountIn(Nones(n), x) == 0
  {
    if n > 0 {
      assert Nones(n)[1..] == Nones(n - 1);
      CountNones(n - 1, x);
    }
  }

  /** Reading a column past the last line adds only blanks. */
  lemma ColumnBeyond(p: Grid, c: int, n: nat, x: Cell)
    requires n >= |p| && x.Some?
    ensures CountIn(ColumnN(p, c, n), x) == CountIn(ColumnN(p, c, |p|), x)
  {
    assert ColumnN(p, c, n) == ColumnN(p, c, |p|) + Nones(n - |p|);
    CountConcat(ColumnN(p, c, |p|), Nones(n - |p|), x);
    CountNones(n - |p|, x);
  }

  /** Overlaying a column of marks on another, never both marked at one line, adds up their marks. */
  lemma {:induction false} CountOverlay(x: Line, y: Line, z: Line)
    requires |x| == |y| == |z|
    requires forall l :: 0 <= l < |z| ==> z[l] == (if x[l].Some? then x[l] else y[l])
    requires forall l :: 0 <= l < |x| ==> x[l] == None || x[l] == Some(ToRemove)
    requires forall l :: 0 <= l < |x| ==> !(x[l] == Some(ToRemove) && y[l] == Some(ToRemove))
    ensures CountIn(z, Some(ToRemove)) == CountIn(x, Some(ToRemove)) + CountIn(y, Some(ToRemove))
  {
    if z != [] {
      CountOverlay(x[1..], y[1..], z[1..]);
    }
  }

  /** A column with exactly one mark counts one. */
  lemma {:induction false} CountSingle(y: Line, l0: nat)
    requires l0 < |y| && y[l0] == Some(ToRemove)
    requires forall l :: 0 <= l < |y| && l != l0 ==> y[l] != Some(ToRemove)
    ensures CountIn(y, Some(ToRemove)) == 1
  {
    if l0 == 0 {
      CountNone(y[1..]);
    } else {
      CountSingle(y[1..], l0 - 1);
    }
  }

  lemma {:induction false} CountNone(y: Line)
    requires forall l :: 0 <= l < |y| ==> y[l] != Some(ToRemove)
    ensures CountIn(y, Some(ToRemove)) == 0
  {
    if y != [] {
      CountNone(y[1..]);
    }
  }

  /** The marks in column `c`. */
  function MarkCount(p: Grid, c: int): nat {
    CountIn(ColumnN(p, c, |p|), Some(ToRemove))
  }

  // ---------------------------------------------------------------------------------------------
  // The loop of compress_vertically

  /** The surface of accumulated paths: only marks, all visited, inside the width, each on a clear cell. */
  ghost predicate PathsInv(g: Grid, w: nat, p: Grid, visited: set<(int, int)>) {
    && MarksOnly(p) && MarksVisited(p, visited) && Narrow(p, Width(w))
    && forall l, i :: IsMark(p, l, i) ==> 0 <= l < |g| && 0 <= i < Width(w) && Clear(g, l, i)
  }

  /** The accumulated paths surface, the shared visited set, and the number of searches that succeeded. */
  datatype Paths = Paths(surface: Grid, visited: set<(int, int)>, found: nat)

  /** Appending an empty line changes no mark. */
  lemma AddLineKeepsMarks(g: Grid, w: nat, p: Grid, visited: set<(int, int)>)
    requires PathsInv(g, w, p, visited)
    ensures PathsInv(g, w, AddLine(p), visited)
    ensures forall c :: MarkCount(AddLine(p), c) == MarkCount(p, c)
  {
    var q := AddLine(p);
    forall l, i
      ensures IsMark(q, l, i) <==> IsMark(p, l, i)
    {
      assert LineAt(q, l) == LineAt(p, l) || (l == |p| && LineAt(q, l) == []);
    }
    forall c
      ensures MarkCount(q, c) == MarkCount(p, c)
    {
      assert ColumnN(q, c, |q|) == ColumnN(p, c, |q|) by {
        forall l | 0 <= l < |q|
          ensures CellAt(LineAt(q, l), c) == CellAt(LineAt(p, l), c)
        {
          assert LineAt(q, l) == LineAt(p, l) || (l == |p| && LineAt(q, l) == []);
        }
      }
      ColumnBeyond(p, c, |q|, Some(ToRemove));
    }
  }

  /** A cell of a merged surface, read anywhere. */
  lemma MergedCell(a: Grid, b: Grid, l: int, c: int)
    ensures CellAt(LineAt(GridMerge(a, b), l), c)
         == (if CellAt(LineAt(a, l), c).Some? then CellAt(LineAt(a, l), c) else CellAt(LineAt(b, l), c))
  {
    var m := GridMerge(a, b);
    if 0 <= l < |m| {
      assert m[l] == LineMerge(LineAt(a, l), LineAt(b, l));
    }
  }

  /** Overlaying a path whose marks are all new keeps the paths invariant. */
  lemma MergeKeepsInv(g: Grid, w: nat, p: Grid, visited: set<(int, int)>, s: Search)
    requires Rectangular(g, w)
    requires PathsInv(g, w, p, visited)
    requires Sound(g, w, 0, [], visited, s)
    ensures PathsInv(g, w, GridMerge(p, s.path), s.visited)
  {
    var m := GridMerge(p, s.path);
    assert Narrow([], Width(w));
    forall l, i
      ensures IsMark(m, l, i) <==> IsMark(p, l, i) || IsMark(s.path, l, i)
    {
      MergedCell(p, s.path, l, i);
      assert !IsMark([], l, i);
    }
    forall l, i | 0 <= l < |m| && 0 <= i < |m[l]|
      ensures m[l][i] == None || m[l][i] == Some(ToRemove)
    {
      MergedCell(p, s.path, l, i);
    }
    forall l | 0 <= l < |m|
      ensures |m[l]| <= Width(w)
    {
      assert m[l] == LineMerge(LineAt(p, l), LineAt(s.path, l));
    }
  }

  /** Column `c` of a merge of two mark surfaces, never both marked at one line, counts the marks of both. */
  lemma MergeColumn(p: Grid, q: Grid, c: int)
    requires MarksOnly(p)
    requires forall l :: !(IsMark(p, l, c) && IsMark(q, l, c))
    ensures MarkCount(GridMerge(p, q), c) == MarkCount(p, c) + MarkCount(q, c)
  {
    var m := GridMerge(p, q);
    var n := |m|;
    var x := ColumnN(p, c, n);
    var y := ColumnN(q, c, n);
    var z := ColumnN(m, c, n);
    forall l | 0 <= l < n
      ensures z[l] == (if x[l].Some? then x[l] else y[l])
    {
      MergedCell(p, q, l, c);
    }
    forall l | 0 <= l < n
      ensures !(x[l] == Some(ToRemove) && y[l] == Some(ToRemove))
    {
      assert !(IsMark(p, l, c) && IsMark(q, l, c));
    }
    CountOverlay(x, y, z);
    ColumnBeyond(p, c, n, Some(ToRemove));
    ColumnBeyond(q, c, n, Some(ToRemove));
  }

  /** A path found from an empty surface marks every column once. */
  lemma PathColumn(g: Grid, w: nat, visited: set<(int, int)>, s: Search, c: int)
    requires Sound(g, w, 0, [], visited, s) && s.found && 0 <= c < Width(w)
    ensures MarkCount(s.path, c) == 1
  {
    assert Covered([], s.path, c);
    var l0 :| NewMark([], s.path, l0, c);
    var y := ColumnN(s.path, c, |s.path|);
    assert 0 <= l0 < |s.path| && y[l0] == Some(ToRemove);
    forall l | 0 <= l < |y| && l != l0
      ensures y[l] != Some(ToRemove)
    {
      assert !IsMark([], l, c);
      if y[l] == Some(ToRemove) {
        assert NewMark([], s.path, l, c);
      }
    }
    CountSingle(y, l0);
  }

  /** Overlaying a successful path adds one mark to every column. */
  lemma MergePath(g: Grid, w: nat, p: Grid, visited: set<(int, int)>, s: Search)
    requires Rectangular(g, w)
    requires PathsInv(g, w, p, visited)
    requires Sound(g, w, 0, [], visited, s) && s.found
    ensures PathsInv(g, w, GridMerge(p, s.path), s.visited)
    ensures forall c :: 0 <= c < Width(w) ==> MarkCount(GridMerge(p, s.path), c) == MarkCount(p, c) + 1
  {
    MergeKeepsInv(g, w, p, visited, s);
    forall c | 0 <= c < Width(w)
      ensures MarkCount(GridMerge(p, s.path), c) == MarkCount(p, c) + 1
    {
      forall l
        ensures !(IsMark(p, l, c) && IsMark(s.path, l, c))
      {
        assert !IsMark([], l, c);
      }
      MergeColumn(p, s.path, c);
      PathColumn(g, w, visited, s, c);
    }
  }

  /** What holds before the loop handles line `i`: the paths surface has a line for each line handled, and
      those past the end of the surface are empty. */
  ghost predicate LoopInv(g: Grid, w: nat, i: nat, p: Grid, visited: set<(int, int)>) {
    && i <= |p| && PathsInv(g, w, p, visited)
    && forall l :: |g| <= l < |p| ==> p[l] == []
  }

  lemma AddLineStep(g: Grid, w: nat, i: nat, p: Grid, visited: set<(int, int)>)
    requires LoopInv(g, w, i, p, visited)
    ensures LoopInv(g, w, i + 1, AddLine(p), visited)
    ensures forall c :: MarkCount(AddLine(p), c) == MarkCount(p, c)
  {
    AddLineKeepsMarks(g, w, p, visited);
  }

  lemma MergeStep(g: Grid, w: nat, i: nat, p: Grid, visited: set<(int, int)>, s: Search)
    requires Rectangular(g, w)
    requires LoopInv(g, w, i, p, visited)
    requires Sound(g, w, 0, [], visited, s) && s.found
    ensures LoopInv(g, w, i, GridMerge(p, s.path), s.visited)
    ensures forall c :: 0 <= c < Width(w) ==> MarkCount(GridMerge(p, s.path), c) == MarkCount(p, c) + 1
  {
    MergePath(g, w, p, visited, s);
    assert |s.path| <= |g|;
  }

  lemma FailStep(g: Grid, w: nat, i: nat, p: Grid, visited: set<(int, int)>, s: Search)
    requires LoopInv(g, w, i, p, visited)
    requires Sound(g, w, 0, [], visited, s) && !s.found
    ensures LoopInv(g, w, i, p, s.visited)
  {
  }

  /** The loop of `compress_vertically` from line `i` on: a line is added to the paths surface for every line of
      the surface; a line that starts with a glyph is skipped, any other starts a search from its first cell, and
      a search that succeeds is overlaid on the paths surface. Every successful search adds exactly one mark to
      every column, so all columns end up with the same number of marks, each on a clear cell. */
  function CollectPaths(g: Grid, w: nat, i: nat, paths: Grid, visited: set<(int, int)>): (r: Paths)
    requires Rectangular(g, w) && i <= |g|
    requires LoopInv(g, w, i, paths, visited)
    ensures LoopInv(g, w, |g|, r.surface, r.visited)
    ensures forall c :: 0 <= c < Width(w) ==> MarkCount(r.surface, c) == MarkCount(paths, c) + r.found
    decreases |g| - i
  {
    if i == |g| then Paths(paths, visited, 0)
    else
      var lined := AddLine(paths);
      AddLineStep(g, w, i, paths, visited);
      if g[i] != [] && g[i][0] != None then
        CollectPaths(g, w, i + 1, lined, visited)
      else
        assert MarksVisited([], visited) && MarksOnly([]);
        var s := FindClearPath(g, w, i, 0, [], visited);
        if s.found then
          MergeStep(g, w, i + 1, lined, visited, s);
          var rest := CollectPaths(g, w, i + 1, GridMerge(lined, s.path), s.visited);
          Paths(rest.surface, rest.visited, rest.found + 1)
        else
          FailStep(g, w, i + 1, lined, visited, s);
          CollectPaths(g, w, i + 1, lined, s.visited)
  }

  // ---------------------------------------------------------------------------------------------
  // Overlaying the paths, removing the marks

  /** The cells a clear path never crosses: everything but blanks and plain vertical channels. */
  function Solid(l: Line): (r: Line)
    ensures |r| <= |l|
    ensures forall k :: 0 <= k < |r| ==> r[k].Some? && r[k] != Some(Middle)
  {
    if l == [] then [] else (if l[0] == None || l[0] == Some(Middle) then [] else [l[0]]) + Solid(l[1..])
  }

  lemma {:induction false} SolidConcat(a: Line, b: Line)
    ensures Solid(a + b) == Solid(a) + Solid(b)
  {
    if a != [] {
      assert (a + b)[1..] == a[1..] + b;
      SolidConcat(a[1..], b);
    } else {
      assert a + b == b;
    }
  }

  lemma {:induction false} SolidBlank(l: Line)
    requires forall k :: 0 <= k < |l| ==> l[k] == None
    ensures Solid(l) == []
  {
    if l != [] {
      SolidBlank(l[1..]);
    }
  }

  /** A surface with no removal mark on it. */
  ghost predicate NoMarks(g: Grid) {
    forall l, i :: !IsMark(g, l, i)
  }

  /** Padding changes no cell as read through `CellAt`. */
  lemma PaddedCell(g: Grid, l: int, i: int)
    requires g != []
    ensures CellAt(LineAt(PadAsNeeded(g).value, l), i) == CellAt(LineAt(g, l), i)
  {
    var p := PadAsNeeded(g).value;
    if 0 <= l < |g| && 0 <= i < |p[l]| {
      if i < |g[l]| {
        assert p[l][i] == p[l][..|g[l]|][i];
      }
    }
  }

  /** The paths that `compress_vertically` finds: the surface is padded first (`ValueError` when it is empty),
      then every line is searched from its first cell. */
  function ClearPaths(g: Grid): (r: Result<Paths>)
    ensures r.Failure? <==> g == []
    ensures r.Failure? ==> r.error == ValueError
    ensures r.Success? ==>
      && |r.value.surface| >= |g|
      && MarksOnly(r.value.surface) && Narrow(r.value.surface, Width(MaxLength(g)))
      && (forall l, i :: IsMark(r.value.surface, l, i) ==> 0 <= l < |g| && Clear(g, l, i))
      && (forall c :: 0 <= c < Width(MaxLength(g)) ==> MarkCount(r.value.surface, c) == r.value.found)
      && (MaxLength(g) == 0 ==> r.value.found > 0)
  {
    var padded :- PadAsNeeded(g);
    var w := MaxLength(g);
    assert MarksOnly([]) && MarksVisited([], {}) && Narrow([], Width(w));
    assert forall l, i :: !IsMark([], l, i);
    var paths := CollectPaths(padded, w, 0, [], {});
    assert forall c :: MarkCount([], c) == 0;
    assert forall l, i :: Clear(padded, l, i) == Clear(g, l, i) by {
      forall l, i
        ensures Clear(padded, l, i) == Clear(g, l, i)
      {
        PaddedCell(g, l, i);
      }
    }
    assert w == 0 ==> paths.found > 0 by {
      if w == 0 {
        assert padded[0] == [];
        assert FindClearPath(padded, w, 0, 0, [], {}).found;
      }
    }
    Success(paths)
  }

  /** A search only marks clear cells, so a mark never hides a mark of the surface under it. */
  lemma MarksApart(g: Grid, p: Grid, c: int)
    requires g != []
    requires forall l, i :: IsMark(p, l, i) ==> Clear(g, l, i)
    ensures forall l :: !(IsMark(p, l, c) && IsMark(PadAsNeeded(g).value, l, c))
  {
    forall l
      ensures !(IsMark(p, l, c) && IsMark(PadAsNeeded(g).value, l, c))
    {
      PaddedCell(g, l, c);
    }
  }

  /** A column of the padded surface has the marks of the original one. */
  lemma PaddedMarks(g: Grid, c: int)
    requires g != []
    ensures MarkCount(PadAsNeeded(g).value, c) == MarkCount(g, c)
  {
    var p := PadAsNeeded(g).value;
    forall l | 0 <= l < |g|
      ensures ColumnN(p, c, |p|)[l] == ColumnN(g, c, |g|)[l]
    {
      PaddedCell(g, l, c);
    }
    assert ColumnN(p, c, |p|) == ColumnN(g, c, |g|);
  }

  /** The surface `compress_vertically` hands to `_compress_from_clear_paths`: the paths surface overlaid on the
      padded surface, with the number of paths found. Every cell is the original one, or a removal mark on a clear
      cell; each column holds one mark per path on top of the removal characters already in that column. */
  function OverlayClearPaths(g: Grid): (r: Result<(Grid, nat)>)
    ensures r.Failure? <==> g == []
    ensures r.Failure? ==> r.error == ValueError
    ensures r.Success? ==> Overlaid(g, r.value.0, r.value.1)
  {
    if g == [] then Failure(ValueError)
    else
      var paths := ClearPaths(g).value;
      var m := GridMerge(paths.surface, PadAsNeeded(g).value);
      OverlayFacts(g, paths, m);
      Success((m, paths.found))
  }

  /** `m` is `g` with `k` paths of removal marks overlaid: as long, as wide (at least one column), every cell
      the original one or a mark on a clear cell, each column one mark per path on top of its own marks. */
  ghost predicate Overlaid(g: Grid, m: Grid, k: nat) {
    && |m| >= |g| && MaxLength(m) > 0 && MaxLength(m) <= Width(MaxLength(g))
    && (MaxLength(g) > 0 ==> MaxLength(m) == MaxLength(g))
    && (forall l, i :: CellAt(LineAt(m, l), i) == CellAt(LineAt(g, l), i) || (IsMark(m, l, i) && Clear(g, l, i)))
    && (forall c :: 0 <= c < MaxLength(m) ==> MarkCount(m, c) == k + MarkCount(g, c))
  }

  lemma OverlayFacts(g: Grid, paths: Paths, m: Grid)
    requires g != [] && ClearPaths(g) == Success(paths)
    requires m == GridMerge(paths.surface, PadAsNeeded(g).value)
    ensures |m| == |paths.surface| && Overlaid(g, m, paths.found)
  {
    OverlaidCells(g, paths, m);
    OverlaidWidth(g, paths, m);
    OverlaidCounts(g, paths, m);
  }

  lemma OverlaidCells(g: Grid, paths: Paths, m: Grid)
    requires g != [] && ClearPaths(g) == Success(paths)
    requires m == GridMerge(paths.surface, PadAsNeeded(g).value)
    ensures |m| == |paths.surface| >= |g|
    ensures forall l, i :: CellAt(LineAt(m, l), i) == CellAt(LineAt(g, l), i) || (IsMark(m, l, i) && Clear(g, l, i))
  {
    OverlayCells(g, paths.surface, m);
  }

  lemma OverlaidWidth(g: Grid, paths: Paths, m: Grid)
    requires g != [] && ClearPaths(g) == Success(paths)
    requires m == GridMerge(paths.surface, PadAsNeeded(g).value)
    ensures MaxLength(m) > 0 && MaxLength(m) <= Width(MaxLength(g))
    ensures MaxLength(g) > 0 ==> MaxLength(m) == MaxLength(g)
  {
    OverlayWidth(g, paths.surface, paths.found, m);
  }

  lemma OverlaidCounts(g: Grid, paths: Paths, m: Grid)
    requires g != [] && ClearPaths(g) == Success(paths)
    requires m == GridMerge(paths.surface, PadAsNeeded(g).value)
    ensures forall c :: 0 <= c < MaxLength(m) ==> MarkCount(m, c) == paths.found + MarkCount(g, c)
  {
    OverlaidWidth(g, paths, m);
    OverlayCounts(g, paths.surface, paths.found, m);
  }

  lemma OverlayCounts(g: Grid, p: Grid, k: nat, m: Grid)
    requires g != [] && m == GridMerge(p, PadAsNeeded(g).value) && |p| >= |g|
    requires MarksOnly(p) && forall l, i :: IsMark(p, l, i) ==> Clear(g, l, i)
    requires forall c :: 0 <= c < MaxLength(m) ==> MarkCount(p, c) == k
    ensures |m| == |p|
    ensures forall c :: 0 <= c < MaxLength(m) ==> MarkCount(m, c) == k + MarkCount(g, c)
  {
    forall c | 0 <= c < MaxLength(m)
      ensures MarkCount(m, c) == k + MarkCount(g, c)
    {
      MarksApart(g, p, c);
      MergeColumn(p, PadAsNeeded(g).value, c);
      PaddedMarks(g, c);
    }
  }

  lemma OverlayCells(g: Grid, p: Grid, m: Grid)
    requires g != [] && m == GridMerge(p, PadAsNeeded(g).value)
    requires MarksOnly(p) && forall l, i :: IsMark(p, l, i) ==> Clear(g, l, i)
    ensures forall l, i :: CellAt(LineAt(m, l), i) == CellAt(LineAt(g, l), i) || (IsMark(m, l, i) && Clear(g, l, i))
  {
    forall l, i
      ensures CellAt(LineAt(m, l), i) == CellAt(LineAt(g, l), i) || (IsMark(m, l, i) && Clear(g, l, i))
    {
      MergedCell(p, PadAsNeeded(g).value, l, i);
      PaddedCell(g, l, i);
      if 0 <= l < |p| && 0 <= i < |p[l]| {
        assert p[l][i] == None || p[l][i] == Some(ToRemove);
      }
    }
  }

  lemma OverlayWidth(g: Grid, p: Grid, k: nat, m: Grid)
    requires g != [] && m == GridMerge(p, PadAsNeeded(g).value)
    requires Narrow(p, Width(MaxLength(g)))
    requires MaxLength(g) == 0 ==> MarkCount(p, 0) == k && k > 0
    ensures MaxLength(m) > 0 && MaxLength(m) <= Width(MaxLength(g))
    ensures MaxLength(g) > 0 ==> MaxLength(m) == MaxLength(g)
  {
    var padded := PadAsNeeded(g).value;
    var w := MaxLength(g);
    assert Narrow(padded, Width(w)) by {
      assert Rectangular(padded, w);
    }
    MergeWidthAtMost(p, padded, Width(w));
    if w > 0 {
      MergeWidthAtLeast(p, padded, 0);
    } else {
      MarkedWidth(p, padded);
    }
  }

  /** A merge whose first surface holds a mark in the first column is not empty. */
  lemma MarkedWidth(p: Grid, q: Grid)
    requires MarkCount(p, 0) > 0
    ensures MaxLength(GridMerge(p, q)) > 0
  {
    var m := GridMerge(p, q);
    var l := MarkAt(ColumnN(p, 0, |p|));
    assert IsMark(p, l, 0);
    MergedCell(p, q, l, 0);
    assert |m[l]| > 0;
  }

  /** Merging two surfaces no wider than `n` gives one no wider than `n`. */
  lemma MergeWidthAtMost(p: Grid, q: Grid, n: nat)
    requires Narrow(p, n) && Narrow(q, n)
    ensures MaxLength(GridMerge(p, q)) <= n
  {
    var m := GridMerge(p, q);
    forall l | 0 <= l < |m| ensures |m[l]| <= n {
      assert |LineAt(p, l)| <= n && |LineAt(q, l)| <= n;
    }
    MaxLengthAtMost(m, n);
  }

  /** A merged surface is at least as wide as any line of the second surface. */
  lemma MergeWidthAtLeast(p: Grid, q: Grid, l: nat)
    requires l < |q|
    ensures MaxLength(GridMerge(p, q)) >= |q[l]|
  {
    var m := GridMerge(p, q);
    assert |m[l]| >= |LineAt(q, l)|;
  }

  /** No line longer than `n`: the longest is not longer either. */
  lemma MaxLengthAtMost(g: Grid, n: nat)
    requires forall l :: 0 <= l < |g| ==> |g[l]| <= n
    ensures MaxLength(g) <= n
  {
    if g != [] {
      var k :| 0 <= k < |g| && |g[k]| == MaxLength(g);
    }
  }

  /** A column with a mark has it at some line. */
  lemma {:induction false} MarkAt(y: Line) returns (l: nat)
    requires CountIn(y, Some(ToRemove)) > 0
    ensures l < |y| && y[l] == Some(ToRemove)
  {
    if y[0] == Some(ToRemove) {
      l := 0;
    } else {
      l := MarkAt(y[1..]);
      l := l + 1;
    }
  }

  /** `_compress_from_clear_paths`: transpose, delete every removal character, transpose back. Transposing an
      empty or all-blank surface leaves nothing, and the second transpose raises `ValueError`. Otherwise every
      column comes back with its removal characters deleted, topped up with blanks to the longest column. */
  function CompressFromClearPaths(m: Grid): (r: Result<Grid>)
    ensures r.Failure? <==> MaxLength(m) == 0
    ensures r.Failure? ==> r.error == ValueError
    ensures r.Success? ==>
      && Rectangular(r.value, MaxLength(m))
      && forall c :: 0 <= c < MaxLength(m) ==>
           var kept := RemoveFromLine(Column(m, c), ToRemove);
           |kept| <= |r.value| && Column(r.value, c) == kept + Nones(|r.value| - |kept|)
  {
    var t :- Transpose(m);
    var u := RemoveChar(t, ToRemove);
    if u == [] then Transpose(u)
    else
      TransposeColumns(u);
      Transpose(u)
  }

  /** When every column holds the same number of removal characters, the surface shrinks by that many lines and
      no column is topped up. */
  lemma CompressFromClearPathsEven(m: Grid, k: nat)
    requires MaxLength(m) > 0
    requires forall c :: 0 <= c < MaxLength(m) ==> MarkCount(m, c) == k
    ensures CompressFromClearPaths(m).Success?
    ensures |CompressFromClearPaths(m).value| == |m| - k
    ensures forall c :: 0 <= c < MaxLength(m) ==>
      Column(CompressFromClearPaths(m).value, c) == RemoveFromLine(Column(m, c), ToRemove)
  {
    var r := CompressFromClearPaths(m).value;
    var t := Transpose(m).value;
    var u := RemoveChar(t, ToRemove);
    assert |u| == MaxLength(m);
    forall c | 0 <= c < |u|
      ensures u[c] == RemoveFromLine(Column(m, c), ToRemove) && |u[c]| == |m| - k
    {
      assert t[c] == Column(m, c);
      assert MarkCount(m, c) == k;
    }
    TransposeColumns(u);
    assert |r| == |m| - k by {
      assert r == Transpose(u).value;
      assert |r| == MaxLength(u);
      assert |u[0]| == |m| - k;
    }
  }

  /** `Surface.compress_vertically`: pad, search a clear path from the first cell of every line that does not
      start with a glyph, overlay the paths, delete the marks column by column, strip. `ValueError` on an empty
      surface. */
  function CompressVertically(g: Grid): (r: Result<Grid>)
    ensures r.Failure? <==> g == []
    ensures r.Failure? ==> r.error == ValueError
    ensures r.Success? ==> Strip(r.value) == r.value
  {
    var (m, k) :- OverlayClearPaths(g);
    var x := CompressFromClearPaths(m).value;
    StripIdempotent(x);
    Success(Strip(x))
  }

  // ---------------------------------------------------------------------------------------------
  // What compression keeps

  /** Two columns that differ only where the first holds a removal mark over a clear cell of the second keep the
      same solid cells once their removal characters are gone. */
  lemma {:induction false} SolidRemove(a: Line, b: Line)
    requires |a| == |b|
    requires forall l :: 0 <= l < |a| ==> a[l] == b[l] || (a[l] == Some(ToRemove) && (b[l] == None || b[l] == Some(Middle)))
    ensures Solid(RemoveFromLine(a, ToRemove)) == Solid(RemoveFromLine(b, ToRemove))
  {
    if a != [] {
      SolidRemove(a[1..], b[1..]);
      var ha: Line := if a[0] == Some(ToRemove) then [] else [a[0]];
      var hb: Line := if b[0] == Some(ToRemove) then [] else [b[0]];
      assert RemoveFromLine(a, ToRemove) == ha + RemoveFromLine(a[1..], ToRemove);
      assert RemoveFromLine(b, ToRemove) == hb + RemoveFromLine(b[1..], ToRemove);
      SolidConcat(ha, RemoveFromLine(a[1..], ToRemove));
      SolidConcat(hb, RemoveFromLine(b[1..], ToRemove));
      assert Solid(ha) == Solid(hb);
    }
  }

  /** A column read past the last line only adds blanks. */
  lemma ColumnPastEnd(g: Grid, c: int, n: nat)
    requires n >= |g|
    ensures ColumnN(g, c, n) == Column(g, c) + Nones(n - |g|)
  {
  }

  /** Removal characters are never blanks, so blanks added at the end survive removal unchanged. */
  lemma {:induction false} RemoveNones(n: nat)
    ensures RemoveFromLine(Nones(n), ToRemove) == Nones(n)
  {
    if n > 0 {
      assert Nones(n) == [None] + Nones(n - 1);
      RemoveNones(n - 1);
    }
  }

  /** A column beyond every line is blank. */
  lemma ColumnBlank(g: Grid, c: int)
    requires c < 0 || forall l :: 0 <= l < |g| ==> |g[l]| <= c
    ensures Solid(Column(g, c)) == []
  {
    SolidBlank(Column(g, c));
  }

  /** Right-stripping changes no cell as read through `CellAt`. */
  lemma RstripCell(l: Line, c: int)
    ensures CellAt(Rstrip(l), c) == CellAt(l, c)
  {
  }

  lemma ColumnConcat(a: Grid, b: Grid, c: int)
    ensures Column(a + b, c) == Column(a, c) + Column(b, c)
  {
    var x := Column(a + b, c);
    var y := Column(a, c) + Column(b, c);
    forall l | 0 <= l < |x|
      ensures x[l] == y[l]
    {
      if l >= |a| {
        assert (a + b)[l] == b[l - |a|];
      }
    }
  }

  /** Stripping drops only blank cells, so every column keeps its solid cells. */
  lemma {:induction false} StripColumn(x: Grid, c: int)
    ensures Solid(Column(Strip(x), c)) == Solid(Column(x, c))
  {
    if x != [] {
      var l := Rstrip(x[0]);
      var head: Grid := if l == [] then [] else [l];
      var t := Strip(x[1..]);
      assert Strip(x) == head + t;
      StripColumn(x[1..], c);
      HeadSolid(x[0], c);
      ColumnConcat(head, t, c);
      SolidConcat(Column(head, c), Column(t, c));
      ColumnCons(x, c);
      SolidConcat([CellAt(x[0], c)], Column(x[1..], c));
    }
  }

  /** A right-stripped line, kept only when something is left, has the solid cell of the line at each column. */
  lemma HeadSolid(l: Line, c: int)
    ensures var h := Rstrip(l); Solid(Column(if h == [] then [] else [h], c)) == Solid([CellAt(l, c)])
  {
    var h := Rstrip(l);
    RstripCell(l, c);
    if h == [] {
      assert CellAt(l, c) == None;
      assert Column([], c) == [];
    } else {
      assert Column([h], c) == [CellAt(l, c)];
    }
  }

  /** A column starts with the first line's cell. */
  lemma ColumnCons(x: Grid, c: int)
    requires x != []
    ensures Column(x, c) == [CellAt(x[0], c)] + Column(x[1..], c)
  {
    assert x == [x[0]] + x[1..];
    ColumnConcat([x[0]], x[1..], c);
    assert Column([x[0]], c) == [CellAt(x[0], c)];
  }

  /** What `compress_vertically` does to a column, as written: its solid cells are those of the original column
      with every removal character deleted, whether a path put it there or it belonged to the surface. */
  lemma CompressColumn(g: Grid, c: int)
    requires g != []
    ensures CompressVertically(g).Success?
    ensures Solid(Column(CompressVertically(g).value, c)) == Solid(RemoveFromLine(Column(g, c), ToRemove))
  {
    var mk := OverlayClearPaths(g).value;
    var x := CompressFromClearPaths(mk.0).value;
    assert CompressVertically(g).value == Strip(x);
    StripColumn(x, c);
    CompressedColumn(g, mk.0, mk.1, c);
  }

  /** Deleting the removal characters of an overlaid surface column by column. */
  lemma CompressedColumn(g: Grid, m: Grid, k: nat, c: int)
    requires Overlaid(g, m, k)
    ensures CompressFromClearPaths(m).Success?
    ensures Solid(Column(CompressFromClearPaths(m).value, c)) == Solid(RemoveFromLine(Column(g, c), ToRemove))
  {
    var x := CompressFromClearPaths(m).value;
    if 0 <= c < MaxLength(m) {
      assert forall l :: CellAt(LineAt(m, l), c) == CellAt(LineAt(g, l), c) || (IsMark(m, l, c) && Clear(g, l, c));
      CompressedInside(g, m, c);
    } else {
      RemovedBothBlank(g, x, MaxLength(m), c);
    }
  }

  lemma CompressedInside(g: Grid, m: Grid, c: int)
    requires |m| >= |g| && 0 <= c < MaxLength(m)
    requires forall l :: CellAt(LineAt(m, l), c) == CellAt(LineAt(g, l), c) || (IsMark(m, l, c) && Clear(g, l, c))
    ensures CompressFromClearPaths(m).Success?
    ensures Solid(Column(CompressFromClearPaths(m).value, c)) == Solid(RemoveFromLine(Column(g, c), ToRemove))
  {
    InsideColumn(g, m, CompressFromClearPaths(m).value, c);
  }

  /** A column past the width of both surfaces is blank in both, removal or not. */
  lemma RemovedBothBlank(g: Grid, x: Grid, w: nat, c: int)
    requires MaxLength(g) <= w && Rectangular(x, w) && (c < 0 || c >= w)
    ensures Solid(Column(x, c)) == Solid(RemoveFromLine(Column(g, c), ToRemove))
  {
    ColumnBlank(x, c);
    RemovedBlank(g, c);
  }

  /** A column the overlaid surface reaches. */
  lemma InsideColumn(g: Grid, m: Grid, x: Grid, c: int)
    requires |m| >= |g|
    requires forall l :: CellAt(LineAt(m, l), c) == CellAt(LineAt(g, l), c) || (IsMark(m, l, c) && Clear(g, l, c))
    requires |RemoveFromLine(Column(m, c), ToRemove)| <= |x|
    requires Column(x, c) == RemoveFromLine(Column(m, c), ToRemove) + Nones(|x| - |RemoveFromLine(Column(m, c), ToRemove)|)
    ensures Solid(Column(x, c)) == Solid(RemoveFromLine(Column(g, c), ToRemove))
  {
    var kept := RemoveFromLine(Column(m, c), ToRemove);
    SolidConcat(kept, Nones(|x| - |kept|));
    SolidBlank(Nones(|x| - |kept|));
    var b := ColumnN(g, c, |m|);
    forall l | 0 <= l < |m|
      ensures Column(m, c)[l] == b[l] || (Column(m, c)[l] == Some(ToRemove) && (b[l] == None || b[l] == Some(Middle)))
    {
      assert CellAt(LineAt(m, l), c) == CellAt(LineAt(g, l), c) || (IsMark(m, l, c) && Clear(g, l, c));
    }
    SolidRemove(Column(m, c), b);
    RemovedPastEnd(g, c, |m|);
  }

  lemma RemovedPastEnd(g: Grid, c: int, n: nat)
    requires n >= |g|
    ensures Solid(RemoveFromLine(ColumnN(g, c, n), ToRemove)) == Solid(RemoveFromLine(Column(g, c), ToRemove))
  {
    ColumnPastEnd(g, c, n);
    RemoveFromLineConcat(Column(g, c), Nones(n - |g|), ToRemove);
    RemoveNones(n - |g|);
    SolidConcat(RemoveFromLine(Column(g, c), ToRemove), Nones(n - |g|));
    SolidBlank(Nones(n - |g|));
  }

  lemma RemovedBlank(g: Grid, c: int)
    requires c < 0 || c >= MaxLength(g)
    ensures Solid(RemoveFromLine(Column(g, c), ToRemove)) == []
  {
    assert Some(ToRemove) !in Column(g, c);
    SolidBlank(Column(g, c));
  }

  /** On a surface with no removal character of its own, compression deletes only blanks and plain vertical
      channel cells: every column keeps its names, arrows and channel ends, in order. */
  lemma CompressKeepsGlyphs(g: Grid, c: int)
    requires g != [] && NoMarks(g)
    ensures CompressVertically(g).Success?
    ensures Solid(Column(CompressVertically(g).value, c)) == Solid(Column(g, c))
  {
    CompressColumn(g, c);
    UnmarkedColumn(g, c);
  }

  lemma UnmarkedColumn(g: Grid, c: int)
    requires NoMarks(g)
    ensures Some(ToRemove) !in Column(g, c)
  {
    forall l | 0 <= l < |g|
      ensures Column(g, c)[l] != Some(ToRemove)
    {
      assert !IsMark(g, l, c);
    }
  }

  /** A removal character that belongs to the surface itself, such as one in a name, is deleted along with the
      path marks: a name ending in the removal character loses that character. */
  lemma CompressDropsSurfaceMarks()
    ensures var g: Grid := [[Some('A'), Some(ToRemove)]];
      && CompressVertically(g).Success?
      && Solid(Column(g, 1)) == [Some(ToRemove)]
      && Solid(Column(CompressVertically(g).value, 1)) == []
  {
    var g: Grid := [[Some('A'), Some(ToRemove)]];
    CompressColumn(g, 1);
    ExampleColumn(g);
    MarkColumn();
  }

  lemma MarkColumn()
    ensures var col: Line := [Some(ToRemove)];
      RemoveFromLine(col, ToRemove) == [] && Solid(col) == col && Solid([]) == []
  {
    var col: Line := [Some(ToRemove)];
    assert col[1..] == [];
  }

  lemma ExampleColumn(g: Grid)
    requires g == [[Some('A'), Some(ToRemove)]]
    ensures Column(g, 1) == [Some(ToRemove)]
  {
    var col := Column(g, 1);
    assert |col| == 1 && col[0] == CellAt(g[0], 1);
  }

  // ---------------------------------------------------------------------------------------------
  // Removing the paths by position

  /** The cells of `l` at the positions `marks` leaves unmarked. */
  function KeepUnmarked(l: Line, marks: Line): (r: Line)
    requires |l| == |marks|
    ensures |r| + CountIn(marks, Some(ToRemove)) == |l|
  {
    if l == [] then []
    else (if marks[0] == Some(ToRemove) then [] else [l[0]]) + KeepUnmarked(l[1..], marks[1..])
  }

  /** Deleting the marked positions of a column whose marked cells are all clear in `b`, and whose other cells
      are those of `b`, keeps the solid cells of `b`. */
  lemma {:induction false} SolidKeepUnmarked(a: Line, marks: Line, b: Line)
    requires |a| == |marks| == |b|
    requires forall l :: 0 <= l < |a| ==>
      if marks[l] == Some(ToRemove) then b[l] == None || b[l] == Some(Middle) else a[l] == b[l]
    ensures Solid(KeepUnmarked(a, marks)) == Solid(b)
  {
    if a != [] {
      SolidKeepUnmarked(a[1..], marks[1..], b[1..]);
      var h: Line := if marks[0] == Some(ToRemove) then [] else [a[0]];
      SolidConcat(h, KeepUnmarked(a[1..], marks[1..]));
      assert b == [b[0]] + b[1..];
      SolidConcat([b[0]], b[1..]);
    }
  }

  /** `_compress_from_clear_paths` removing the cells at the positions marked in `marks`, whatever they hold,
      instead of every removal character. */
  function CompressFromMarks(m: Grid, marks: Grid): (r: Result<Grid>)
    ensures r.Failure? <==> MaxLength(m) == 0
    ensures r.Failure? ==> r.error == ValueError
    ensures r.Success? ==>
      && Rectangular(r.value, MaxLength(m))
      && forall c :: 0 <= c < MaxLength(m) ==>
           var kept := KeepUnmarked(Column(m, c), ColumnN(marks, c, |m|));
           |kept| <= |r.value| && Column(r.value, c) == kept + Nones(|r.value| - |kept|)
  {
    var t :- Transpose(m);
    var u := seq(|t|, c requires 0 <= c < |t| => KeepUnmarked(t[c], ColumnN(marks, c, |m|)));
    assert forall c :: 0 <= c < |u| ==> u[c] == KeepUnmarked(Column(m, c), ColumnN(marks, c, |m|));
    if u == [] then Transpose(u)
    else
      TransposeColumns(u);
      Transpose(u)
  }

  /** With the same number of marks in every column the surface shrinks by that many lines, evenly. */
  lemma CompressFromMarksEven(m: Grid, marks: Grid, k: nat)
    requires MaxLength(m) > 0
    requires forall c :: 0 <= c < MaxLength(m) ==> CountIn(ColumnN(marks, c, |m|), Some(ToRemove)) == k
    ensures CompressFromMarks(m, marks).Success?
    ensures |CompressFromMarks(m, marks).value| == |m| - k
    ensures forall c :: 0 <= c < MaxLength(m) ==>
      Column(CompressFromMarks(m, marks).value, c) == KeepUnmarked(Column(m, c), ColumnN(marks, c, |m|))
  {
    var r := CompressFromMarks(m, marks).value;
    var t := Transpose(m).value;
    var u := seq(|t|, c requires 0 <= c < |t| => KeepUnmarked(t[c], ColumnN(marks, c, |m|)));
    forall c | 0 <= c < |u|
      ensures |u[c]| == |m| - k
    {
      assert t[c] == Column(m, c);
    }
    TransposeColumns(u);
    assert |r| == |m| - k by {
      assert r == Transpose(u).value;
      assert |r| == MaxLength(u);
      assert |u[0]| == |m| - k;
    }
  }

  /** `compress_vertically` deleting exactly the cells its paths mark. */
  function CompressVerticallyByMarks(g: Grid): (r: Result<Grid>)
    ensures r.Failure? <==> g == []
    ensures r.Failure? ==> r.error == ValueError
    ensures r.Success? ==> Strip(r.value) == r.value
  {
    var paths :- ClearPaths(g);
    var m := GridMerge(paths.surface, PadAsNeeded(g).value);
    OverlayFacts(g, paths, m);
    var x := CompressFromMarks(m, paths.surface).value;
    StripIdempotent(x);
    Success(Strip(x))
  }

  /** Deleting by position keeps every solid cell of every column, removal characters of the surface included:
      the property the as-written compression has only on surfaces without removal characters. */
  lemma CompressByMarksKeepsGlyphs(g: Grid, c: int)
    requires g != []
    ensures CompressVerticallyByMarks(g).Success?
    ensures Solid(Column(CompressVerticallyByMarks(g).value, c)) == Solid(Column(g, c))
  {
    var paths := ClearPaths(g).value;
    var p := paths.surface;
    var m := GridMerge(p, PadAsNeeded(g).value);
    OverlayFacts(g, paths, m);
    var x := CompressFromMarks(m, p).value;
    assert CompressVerticallyByMarks(g).value == Strip(x);
    StripColumn(x, c);
    assert MarksOnly(p) && forall l, i :: IsMark(p, l, i) ==> Clear(g, l, i);
    assert |m| >= |g| && MaxLength(m) > 0 && MaxLength(g) <= MaxLength(m);
    MarkedCompressedColumn(g, p, m, c);
  }

  /** Deleting the marked cells of the overlaid surface column by column keeps the solid cells of `g`. */
  lemma MarkedCompressedColumn(g: Grid, p: Grid, m: Grid, c: int)
    requires g != [] && m == GridMerge(p, PadAsNeeded(g).value) && |m| >= |g|
    requires MarksOnly(p) && forall l, i :: IsMark(p, l, i) ==> Clear(g, l, i)
    requires MaxLength(m) > 0 && MaxLength(g) <= MaxLength(m)
    ensures CompressFromMarks(m, p).Success?
    ensures Solid(Column(CompressFromMarks(m, p).value, c)) == Solid(Column(g, c))
  {
    var x := CompressFromMarks(m, p).value;
    if 0 <= c < MaxLength(m) {
      MarkedInside(g, p, m, x, c);
    } else {
      BothBlank(g, x, MaxLength(m), c);
    }
  }

  /** A column past the width of both surfaces is blank in both. */
  lemma BothBlank(g: Grid, x: Grid, w: nat, c: int)
    requires MaxLength(g) <= w && Rectangular(x, w) && (c < 0 || c >= w)
    ensures Solid(Column(x, c)) == Solid(Column(g, c))
  {
    ColumnBlank(x, c);
    ColumnBlank(g, c);
  }

  /** A column the overlaid surface reaches, with its marked cells deleted. */
  lemma MarkedInside(g: Grid, p: Grid, m: Grid, x: Grid, c: int)
    requires g != [] && m == GridMerge(p, PadAsNeeded(g).value) && |m| >= |g|
    requires MarksOnly(p) && forall l, i :: IsMark(p, l, i) ==> Clear(g, l, i)
    requires var kept := KeepUnmarked(Column(m, c), ColumnN(p, c, |m|));
      |kept| <= |x| && Column(x, c) == kept + Nones(|x| - |kept|)
    ensures Solid(Column(x, c)) == Solid(Column(g, c))
  {
    var kept := KeepUnmarked(Column(m, c), ColumnN(p, c, |m|));
    SolidPadded(kept, |x| - |kept|);
    MarkedColumn(g, p, m, c);
    ColumnPastEnd(g, c, |m|);
    SolidPadded(Column(g, c), |m| - |g|);
  }

  /** Blank cells added at the end add no solid cell. */
  lemma SolidPadded(a: Line, n: nat)
    ensures Solid(a + Nones(n)) == Solid(a)
  {
    SolidConcat(a, Nones(n));
    SolidBlank(Nones(n));
  }

  lemma MarkedColumn(g: Grid, p: Grid, m: Grid, c: int)
    requires g != [] && m == GridMerge(p, PadAsNeeded(g).value) && |m| >= |g|
    requires MarksOnly(p) && forall l, i :: IsMark(p, l, i) ==> Clear(g, l, i)
    ensures Solid(KeepUnmarked(Column(m, c), ColumnN(p, c, |m|))) == Solid(ColumnN(g, c, |m|))
  {
    var a := Column(m, c);
    var marks := ColumnN(p, c, |m|);
    var b := ColumnN(g, c, |m|);
    forall l | 0 <= l < |a|
      ensures if marks[l] == Some(ToRemove) then b[l] == None || b[l] == Some(Middle) else a[l] == b[l]
    {
      MergedCell(p, PadAsNeeded(g).value, l, c);
      PaddedCell(g, l, c);
      if 0 <= l < |p| && 0 <= c < |p[l]| {
        assert p[l][c] == None || p[l][c] == Some(ToRemove);
      }
      if marks[l] == Some(ToRemove) {
        assert IsMark(p, l, c);
      }
    }
    SolidKeepUnmarked(a, marks, b);
  }

  /** Deleting by position still removes one cell per path from every column. */
  lemma CompressByMarksEven(g: Grid)
    requires g != []
    ensures var paths := ClearPaths(g).value;
      var m := GridMerge(paths.surface, PadAsNeeded(g).value);
      && CompressFromMarks(m, paths.surface).Success?
      && |CompressFromMarks(m, paths.surface).value| == |m| - paths.found
  {
    var paths := ClearPaths(g).value;
    var m := GridMerge(paths.surface, PadAsNeeded(g).value);
    OverlayFacts(g, paths, m);
    forall c | 0 <= c < MaxLength(m)
      ensures CountIn(ColumnN(paths.surface, c, |m|), Some(ToRemove)) == paths.found
    {
      assert MarkCount(paths.surface, c) == paths.found;
    }
    CompressFromMarksEven(m, paths.surface, paths.found);
  }

  /** Deleting every removal character of a column is deleting its marked positions when the two coincide. */
  lemma {:induction false} RemoveIsKeepUnmarked(a: Line, marks: Line)
    requires |a| == |marks|
    requires forall l :: 0 <= l < |a| ==> (a[l] == Some(ToRemove) <==> marks[l] == Some(ToRemove))
    ensures RemoveFromLine(a, ToRemove) == KeepUnmarked(a, marks)
  {
    if a != [] {
      RemoveIsKeepUnmarked(a[1..], marks[1..]);
    }
  }

  /** A cell of the overlaid surface holds a removal character exactly where a path marked it, when the surface
      has none of its own. */
  lemma OverlaidMark(g: Grid, p: Grid, l: int, c: int)
    requires g != [] && NoMarks(g) && MarksOnly(p)
    ensures IsMark(GridMerge(p, PadAsNeeded(g).value), l, c) <==> IsMark(p, l, c)
  {
    MergedCell(p, PadAsNeeded(g).value, l, c);
    PaddedCell(g, l, c);
    assert !IsMark(g, l, c);
  }

  /** Deleting every removal character and deleting the marked positions agree on a surface whose removal
      characters are exactly the marked positions. */
  lemma FromMarksAgree(m: Grid, p: Grid)
    requires forall l, c :: 0 <= l < |m| ==> (IsMark(m, l, c) <==> IsMark(p, l, c))
    ensures CompressFromClearPaths(m) == CompressFromMarks(m, p)
  {
    var t := Transpose(m);
    if t.Success? {
      var u1 := RemoveChar(t.value, ToRemove);
      var u2 := seq(|t.value|, c requires 0 <= c < |t.value| => KeepUnmarked(t.value[c], ColumnN(p, c, |m|)));
      forall c | 0 <= c < |t.value|
        ensures u1[c] == u2[c]
      {
        assert t.value[c] == Column(m, c);
        forall l | 0 <= l < |m|
          ensures Column(m, c)[l] == Some(ToRemove) <==> ColumnN(p, c, |m|)[l] == Some(ToRemove)
        {
          assert IsMark(m, l, c) <==> IsMark(p, l, c);
        }
        RemoveIsKeepUnmarked(Column(m, c), ColumnN(p, c, |m|));
      }
      assert u1 == u2;
    }
  }

  /** On a surface without removal characters of its own, the compression as written and the one deleting only
      the marked positions give the same surface. */
  lemma CompressionsAgree(g: Grid)
    requires g != [] && NoMarks(g)
    ensures CompressVertically(g) == CompressVerticallyByMarks(g)
  {
    var paths := ClearPaths(g).value;
    var p := paths.surface;
    var m := GridMerge(p, PadAsNeeded(g).value);
    assert OverlayClearPaths(g) == Success((m, paths.found));
    forall l, c | 0 <= l < |m|
      ensures IsMark(m, l, c) <==> IsMark(p, l, c)
    {
      OverlaidMark(g, p, l, c);
    }
    FromMarksAgree(m, p);
  }
}
