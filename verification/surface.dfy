/** The character grid of genealogy/surface.py: drawing, merging, padding, transposing, stripping. */
module Surface {
  import opened Wrappers
  import opened Glyphs

  /** A cell holds a character or nothing (`None` renders as a blank). */
  type Cell = Option<char>
  /** A `SurfaceLine`; lines may have different lengths. */
  type Line = seq<Cell>
  /** A `Surface`. */
  type Grid = seq<Line>

  /** A `SurfacePosition`. */
  datatype Pos = Pos(line: int, index: int)

  function Nones(n: nat): (r: Line)
    ensures |r| == n && forall k :: 0 <= k < n ==> r[k] == None
  {
    seq(n, _ => None)
  }

  /** A string as the run of cells drawing it. */
  function Text(s: string): (r: Line)
    ensures |r| == |s| && forall k :: 0 <= k < |s| ==> r[k] == Some(s[k])
  {
    seq(|s|, k requires 0 <= k < |s| => Some(s[k]))
  }

  /** The cell at `k`, blank beyond the end of the line. */
  function CellAt(l: Line, k: int): Cell {
    if 0 <= k < |l| then l[k] else None
  }

  /** The line at `k`, empty beyond the end of the grid. */
  function LineAt(g: Grid, k: int): Line {
    if 0 <= k < |g| then g[k] else []
  }

  // ---------------------------------------------------------------------------------------------
  // SurfaceLine.draw and Surface.draw

  /** What a cell holds after `c` is drawn over `prev`: a plain connection never covers a glyph. */
  function Overlay(prev: Cell, c: Cell): Cell {
    if prev.Some? && c == Some(Connection) then prev else c
  }

  /** Drawing `c` over `prev` counts as overwriting. */
  predicate Overwrites(prev: Cell, c: Cell) {
    prev.Some? && c != Some(Connection)
  }

  /** The first index written: `up_to` makes `index` the end of the run instead of its start. */
  function RunStart(index: int, xs: seq<Cell>, upTo: bool): int {
    if upTo then index - |xs| else index
  }

  /** The per-character loop of `SurfaceLine.draw`, writing `xs` from `at` on. */
  function DrawCells(line: Line, at: nat, xs: seq<Cell>): (r: (Line, bool))
    requires at <= |line|
    ensures |r.0| == Max(|line|, at + |xs|)
    ensures forall k :: 0 <= k < at ==> r.0[k] == line[k]
    ensures forall k :: at <= k < at + |xs| ==> r.0[k] == Overlay(CellAt(line, k), xs[k - at])
    ensures forall k :: at + |xs| <= k < |line| ==> r.0[k] == line[k]
    ensures r.1 <==> exists k :: at <= k < at + |xs| && Overwrites(CellAt(line, k), xs[k - at])
    decreases |xs|
  {
    if xs == [] then (line, false)
    else if at == |line| then
      var rest := DrawCells(line + [xs[0]], at + 1, xs[1..]);
      assert forall k :: at + 1 <= k < at + |xs| ==> CellAt(line + [xs[0]], k) == CellAt(line, k);
      (rest.0, rest.1)
    else
      var written := Overwrites(line[at], xs[0]);
      var rest := DrawCells(line[at := Overlay(line[at], xs[0])], at + 1, xs[1..]);
      assert forall k :: at + 1 <= k < at + |xs| ==>
        CellAt(line[at := Overlay(line[at], xs[0])], k) == CellAt(line, k) && xs[1..][k - (at + 1)] == xs[k - at];
      assert written ==> Overwrites(CellAt(line, at), xs[at - at]);
      (rest.0, written || rest.1)
  }

  /** `SurfaceLine.draw`: a `DrawError` when the run would start at a negative index; otherwise the line is padded
      with blanks up to the run, each cell of the run is overlaid, and the flag tells whether a glyph other than
      a plain connection landed on an occupied cell. */
  function LineDraw(line: Line, index: int, xs: seq<Cell>, upTo: bool): (r: Result<(Line, bool)>)
    ensures r.Failure? <==> RunStart(index, xs, upTo) < 0
    ensures r.Failure? ==> r.error == DrawError
    ensures r.Success? ==>
      var at := RunStart(index, xs, upTo);
      && |r.value.0| == Max(|line|, at + |xs|)
      && (forall k :: 0 <= k < |r.value.0| && !(at <= k < at + |xs|) ==> r.value.0[k] == CellAt(line, k))
      && (forall k :: at <= k < at + |xs| ==> r.value.0[k] == Overlay(CellAt(line, k), xs[k - at]))
      && (r.value.1 <==> exists k :: at <= k < at + |xs| && Overwrites(CellAt(line, k), xs[k - at]))
  {
    var at := RunStart(index, xs, upTo);
    if at < 0 then Failure(DrawError)
    else
      var padded := if |line| < at then line + Nones(at - |line|) else line;
      assert forall k :: 0 <= k ==> CellAt(padded, k) == CellAt(line, k);
      if |padded| == at then
        Success((padded + xs, false))
      else
        Success(DrawCells(padded, at, xs))
  }

  /** `Surface.draw`: a `DrawError` on a negative line; otherwise the grid is extended with empty lines up to
      `pos.line` and that line alone is drawn on. */
  function Draw(g: Grid, pos: Pos, xs: seq<Cell>, upTo: bool): (r: Result<(Grid, bool)>)
    ensures pos.line < 0 ==> r == Failure(DrawError)
    ensures pos.line >= 0 ==> (r.Success? <==> RunStart(pos.index, xs, upTo) >= 0)
    ensures r.Success? ==>
      && |r.value.0| == Max(|g|, pos.line + 1)
      && (forall k :: 0 <= k < |r.value.0| && k != pos.line ==> r.value.0[k] == LineAt(g, k))
      && LineDraw(LineAt(g, pos.line), pos.index, xs, upTo) == Success((r.value.0[pos.line], r.value.1))
  {
    if pos.line < 0 then Failure(DrawError)
    else
      var extended := if |g| <= pos.line then g + seq(pos.line - |g| + 1, _ => []) else g;
      assert forall k :: 0 <= k < |extended| ==> extended[k] == LineAt(g, k);
      var drawn :- LineDraw(extended[pos.line], pos.index, xs, upTo);
      Success((extended[pos.line := drawn.0], drawn.1))
  }

  /** The cell at `(line, index)`, blank outside the grid. */
  function At(g: Grid, line: int, index: int): Cell {
    CellAt(LineAt(g, line), index)
  }

  /** `r` reads as `g` with the run `xs` overlaid from column `at` of line `line`, and as `g` everywhere else. */
  ghost predicate DrawnAs(g: Grid, r: Grid, line: int, at: int, xs: seq<Cell>) {
    forall l, i :: At(r, l, i) ==
      if l == line && at <= i < at + |xs| then Overlay(At(g, l, i), xs[i - at]) else At(g, l, i)
  }

  /** `Surface.draw` cell by cell: the run is overlaid on the cells it covers and every other cell, wherever it
      is, reads as before. */
  lemma DrawView(g: Grid, pos: Pos, xs: seq<Cell>, upTo: bool)
    requires Draw(g, pos, xs, upTo).Success?
    ensures DrawnAs(g, Draw(g, pos, xs, upTo).value.0, pos.line, RunStart(pos.index, xs, upTo), xs)
  {
    var r := Draw(g, pos, xs, upTo).value;
    var line := LineAt(g, pos.line);
    LineDrawView(line, pos.index, xs, upTo);
    GridDrawn(g, r.0, pos.line, line, RunStart(pos.index, xs, upTo), xs);
  }

  /** A grid that keeps every line of `g` but one, and that line drawn as `line` with `xs` overlaid from `at`. */
  lemma GridDrawn(g: Grid, r: Grid, ln: int, line: Line, at: int, xs: seq<Cell>)
    requires 0 <= ln < |r| && |r| == Max(|g|, ln + 1) && line == LineAt(g, ln)
    requires forall k :: 0 <= k < |r| && k != ln ==> r[k] == LineAt(g, k)
    requires forall i :: CellAt(r[ln], i) == if at <= i < at + |xs| then Overlay(CellAt(line, i), xs[i - at]) else CellAt(line, i)
    ensures DrawnAs(g, r, ln, at, xs)
  {
    forall l, i
      ensures At(r, l, i) == if l == ln && at <= i < at + |xs| then Overlay(At(g, l, i), xs[i - at]) else At(g, l, i)
    {
      if l != ln {
        assert LineAt(r, l) == LineAt(g, l);
      }
    }
  }

  /** `SurfaceLine.draw` cell by cell: the run is overlaid on the cells it covers and every other cell reads as
      before. */
  lemma LineDrawView(line: Line, index: int, xs: seq<Cell>, upTo: bool)
    requires LineDraw(line, index, xs, upTo).Success?
    ensures var d := LineDraw(line, index, xs, upTo).value.0; var at := RunStart(index, xs, upTo);
      forall i :: CellAt(d, i) == if at <= i < at + |xs| then Overlay(CellAt(line, i), xs[i - at]) else CellAt(line, i)
  {
    var d := LineDraw(line, index, xs, upTo).value.0;
    var at := RunStart(index, xs, upTo);
    forall i ensures CellAt(d, i) == if at <= i < at + |xs| then Overlay(CellAt(line, i), xs[i - at]) else CellAt(line, i) {
      if !(at <= i < at + |xs|) && 0 <= i < |d| {
        assert d[i] == CellAt(line, i);
      }
    }
  }

  /** The line one non-connection cell `c` is drawn at `k` on: padded with blanks and set. */
  function Put(l: Line, k: nat, c: Cell): (r: Line)
    ensures |r| == Max(|l|, k + 1)
    ensures r[k] == c && forall j :: 0 <= j < |r| && j != k ==> r[j] == CellAt(l, j)
  {
    (if |l| <= k then l + Nones(k - |l|) + [c] else l[k := c])
  }

  /** The grid one cell `c` is set in: extended with empty lines up to `line`, that line padded and set. */
  function PutCell(g: Grid, line: nat, index: nat, c: Cell): (r: Grid)
    ensures |r| == Max(|g|, line + 1)
    ensures r[line] == Put(LineAt(g, line), index, c)
    ensures forall k :: 0 <= k < |r| && k != line ==> r[k] == LineAt(g, k)
  {
    var extended := if |g| <= line then g + seq(line - |g| + 1, _ => []) else g;
    assert forall k :: 0 <= k < |extended| ==> extended[k] == LineAt(g, k);
    extended[line := Put(LineAt(g, line), index, c)]
  }

  /** Drawing one cell that is not a plain connection at a non-negative position sets exactly that cell. */
  lemma DrawOneCell(g: Grid, line: nat, index: nat, c: Cell)
    requires c != Some(Connection)
    ensures Draw(g, Pos(line, index), [c], false).Success?
    ensures Draw(g, Pos(line, index), [c], false).value.0 == PutCell(g, line, index, c)
  {
    var r := Draw(g, Pos(line, index), [c], false).value.0;
    var p := Put(LineAt(g, line), index, c);
    assert |r[line]| == |p|;
    forall k | 0 <= k < |p|
      ensures r[line][k] == p[k]
    {
      if k == index {
        assert r[line][k] == Overlay(CellAt(LineAt(g, line), k), [c][k - index]);
      }
    }
    assert r[line] == p;
    var q := PutCell(g, line, index, c);
    assert |r| == |q|;
    forall k | 0 <= k < |r|
      ensures r[k] == q[k]
    {
    }
    assert r == q;
  }

  // ---------------------------------------------------------------------------------------------
  // SurfaceLine.__add__ and Surface.__add__

  /** `SurfaceLine.__add__`: cell-wise merge over the longer length, the left cell winning unless it is blank. */
  function LineMerge(a: Line, b: Line): (r: Line)
    ensures |r| == Max(|a|, |b|)
    ensures forall k :: 0 <= k < |r| ==> r[k] == (if CellAt(a, k).Some? then CellAt(a, k) else CellAt(b, k))
  {
    if a == [] then b
    else if b == [] then a
    else
      var rest := LineMerge(a[1..], b[1..]);
      assert forall k :: 1 <= k < Max(|a|, |b|) ==> CellAt(a[1..], k - 1) == CellAt(a, k) && CellAt(b[1..], k - 1) == CellAt(b, k);
      [if a[0].Some? then a[0] else b[0]] + rest
  }

  /** `Surface.__add__`: line-wise merge over the longer grid, missing lines read as empty. */
  function GridMerge(a: Grid, b: Grid): (r: Grid)
    ensures |r| == Max(|a|, |b|)
    ensures forall k :: 0 <= k < |r| ==> r[k] == LineMerge(LineAt(a, k), LineAt(b, k))
  {
    seq(Max(|a|, |b|), k requires 0 <= k => LineMerge(LineAt(a, k), LineAt(b, k)))
  }

  /** Merging a line with itself gives it back. */
  lemma LineMergeIdempotent(a: Line)
    ensures LineMerge(a, a) == a
  {
  }

  /** Merging is associative, so surfaces can be overlaid in any grouping. */
  lemma LineMergeAssociative(a: Line, b: Line, c: Line)
    ensures LineMerge(LineMerge(a, b), c) == LineMerge(a, LineMerge(b, c))
  {
  }

  /** Merging a grid with itself gives it back. */
  lemma GridMergeIdempotent(a: Grid)
    ensures GridMerge(a, a) == a
  {
    forall k | 0 <= k < |a|
      ensures GridMerge(a, a)[k] == a[k]
    {
      LineMergeIdempotent(a[k]);
    }
  }

  /** Every glyph of the left grid survives the merge in place. */
  lemma GridMergeLeftWins(a: Grid, b: Grid, line: nat, index: nat)
    requires line < |a| && index < |a[line]| && a[line][index].Some?
    ensures line < |GridMerge(a, b)| && index < |GridMerge(a, b)[line]|
    ensures GridMerge(a, b)[line][index] == a[line][index]
  {
  }

  // ---------------------------------------------------------------------------------------------
  // pad_as_needed, transpose

  /** The length of the longest line. */
  function MaxLength(g: Grid): (r: nat)
    ensures forall k :: 0 <= k < |g| ==> |g[k]| <= r
    ensures g != [] ==> exists k :: 0 <= k < |g| && |g[k]| == r
    ensures g == [] ==> r == 0
  {
    if g == [] then 0
    else
      var rest := MaxLength(g[1..]);
      assert forall k :: 1 <= k < |g| ==> g[k] == g[1..][k - 1];
      if |g[0]| < rest then rest else |g[0]|
  }

  /** Every line has length `w`. */
  predicate Rectangular(g: Grid, w: nat) {
    forall k :: 0 <= k < |g| ==> |g[k]| == w
  }

  /** `Surface.pad_as_needed`: `max()` of an empty surface raises `ValueError`; otherwise every line is
      extended with blanks to the length of the longest one. */
  function PadAsNeeded(g: Grid): (r: Result<Grid>)
    ensures r.Failure? <==> g == []
    ensures r.Failure? ==> r.error == ValueError
    ensures r.Success? ==>
      && |r.value| == |g|
      && Rectangular(r.value, MaxLength(g))
      && forall k :: 0 <= k < |g| ==>
           r.value[k][..|g[k]|] == g[k] && forall j :: |g[k]| <= j < MaxLength(g) ==> r.value[k][j] == None
  {
    if g == [] then Failure(ValueError)
    else
      var w := MaxLength(g);
      Success(seq(|g|, k requires 0 <= k < |g| => g[k] + Nones(w - |g[k]|)))
  }

  /** Column `c` read down the first `n` lines, blank where a line is short or missing. */
  function ColumnN(g: Grid, c: int, n: nat): (r: Line)
    ensures |r| == n && forall l :: 0 <= l < n ==> r[l] == CellAt(LineAt(g, l), c)
  {
    seq(n, l => CellAt(LineAt(g, l), c))
  }

  /** Column `c` of the grid. */
  function Column(g: Grid, c: int): Line {
    ColumnN(g, c, |g|)
  }

  /** `Surface.transpose`: `ValueError` on an empty surface; otherwise line `i` of the result is column `i`,
      read top to bottom with blanks for short lines. */
  function Transpose(g: Grid): (r: Result<Grid>)
    ensures r.Failure? <==> g == []
    ensures r.Failure? ==> r.error == ValueError
    ensures r.Success? ==> |r.value| == MaxLength(g) && Rectangular(r.value, |g|)
    ensures r.Success? ==> forall i :: 0 <= i < |r.value| ==> r.value[i] == Column(g, i)
  {
    if g == [] then Failure(ValueError)
    else Success(seq(MaxLength(g), i => Column(g, i)))
  }

  /** On a non-degenerate rectangular surface transposing twice gives the surface back. */
  lemma TransposeInvolution(g: Grid, w: nat)
    requires g != [] && w > 0 && Rectangular(g, w)
    ensures Transpose(g).Success? && Transpose(Transpose(g).value) == Success(g)
  {
    var t := Transpose(g).value;
    assert |t| == w by {
      assert |g[0]| == w;
    }
    assert t != [];
    assert MaxLength(t) == |g| by {
      assert |t[0]| == |g|;
    }
    var tt := Transpose(t).value;
    assert |tt| == |g|;
    forall j | 0 <= j < |g|
      ensures tt[j] == g[j]
    {
      assert |tt[j]| == w;
      forall i | 0 <= i < w
        ensures tt[j][i] == g[j][i]
      {
        assert tt[j] == Column(t, j);
        assert tt[j][i] == CellAt(t[i], j);
      }
    }
    assert tt == g;
  }

  /** Transposing lines of different lengths: column `c` of the result is line `c`, padded with blanks to the
      length of the longest line. */
  lemma TransposeColumns(u: Grid)
    requires u != []
    ensures Transpose(u).Success?
    ensures Rectangular(Transpose(u).value, |u|)
    ensures forall c :: 0 <= c < |u| ==>
      |u[c]| <= |Transpose(u).value| && Column(Transpose(u).value, c) == u[c] + Nones(|Transpose(u).value| - |u[c]|)
  {
    var t := Transpose(u).value;
    forall c | 0 <= c < |u|
      ensures Column(t, c) == u[c] + Nones(|t| - |u[c]|)
    {
      forall j | 0 <= j < |t|
        ensures Column(t, c)[j] == (u[c] + Nones(|t| - |u[c]|))[j]
      {
        assert t[j] == Column(u, j);
      }
    }
  }

  /** Transposing swaps the coordinates of every cell of a rectangular surface. */
  lemma TransposeCell(g: Grid, w: nat, line: nat, index: nat)
    requires g != [] && Rectangular(g, w) && line < |g| && index < w
    ensures Transpose(g).Success? && index < |Transpose(g).value| && line < |Transpose(g).value[index]|
    ensures Transpose(g).value[index][line] == g[line][index]
  {
    assert MaxLength(g) == w by {
      assert |g[0]| == w;
    }
  }

  // ---------------------------------------------------------------------------------------------
  // rstrip, strip, _remove_char

  /** `SurfaceLine.rstrip`: trailing blanks removed. */
  function Rstrip(l: Line): (r: Line)
    ensures |r| <= |l| && r == l[..|r|]
    ensures r == [] || r[|r| - 1].Some?
    ensures forall k :: |r| <= k < |l| ==> l[k] == None
  {
    if l == [] || l[|l| - 1].Some? then l
    else Rstrip(l[..|l| - 1])
  }

  /** `Surface.strip`: every line right-stripped, and every line left empty by that dropped, wherever it is. */
  function Strip(g: Grid): (r: Grid)
    ensures |r| <= |g|
    ensures forall k :: 0 <= k < |r| ==> r[k] != [] && r[k][|r[k]| - 1].Some?
  {
    if g == [] then []
    else
      var l := Rstrip(g[0]);
      (if l == [] then [] else [l]) + Strip(g[1..])
  }

  /** Stripping works line by line, so it keeps the order of the kept lines and drops interior blank lines. */
  lemma {:induction false} StripConcat(a: Grid, b: Grid)
    ensures Strip(a + b) == Strip(a) + Strip(b)
  {
    if a != [] {
      var l := Rstrip(a[0]);
      var h: Grid := if l == [] then [] else [l];
      assert (a + b)[0] == a[0] && (a + b)[1..] == a[1..] + b;
      assert Strip(a + b) == h + Strip(a[1..] + b);
      StripConcat(a[1..], b);
      assert h + (Strip(a[1..]) + Strip(b)) == (h + Strip(a[1..])) + Strip(b);
    } else {
      assert a + b == b;
    }
  }

  /** A grid stripping leaves as it is has only non-empty lines ending in a non-blank cell. */
  lemma StrippedLines(g: Grid)
    requires Strip(g) == g
    ensures forall k :: 0 <= k < |g| ==> g[k] != [] && g[k][|g[k]| - 1].Some?
  {
    assert forall k :: 0 <= k < |g| ==> g[k] == Strip(g)[k];
  }

  lemma {:induction false} RstripIdempotent(l: Line)
    ensures Rstrip(Rstrip(l)) == Rstrip(l)
  {
  }

  /** Stripping twice is stripping once. */
  lemma {:induction false} StripIdempotent(g: Grid)
    ensures Strip(Strip(g)) == Strip(g)
  {
    if g != [] {
      var l := Rstrip(g[0]);
      StripIdempotent(g[1..]);
      RstripIdempotent(g[0]);
      StripConcat(if l == [] then [] else [l], Strip(g[1..]));
      if l != [] {
        assert Strip([l]) == [l] by {
          assert [l][1..] == [];
        }
      }
    }
  }

  /** The number of cells of `s` equal to `x`. */
  function CountIn(s: Line, x: Cell): (r: nat)
    ensures r <= |s|
  {
    if s == [] then 0 else (if s[0] == x then 1 else 0) + CountIn(s[1..], x)
  }

  /** A line with every `c` removed and the other cells kept in order. */
  function RemoveFromLine(l: Line, c: char): (r: Line)
    ensures |r| + CountIn(l, Some(c)) == |l|
    ensures forall k :: 0 <= k < |r| ==> r[k] != Some(c)
    ensures multiset(r) <= multiset(l)
    ensures Some(c) !in l ==> r == l
  {
    if l == [] then []
    else
      assert l == [l[0]] + l[1..];
      (if l[0] == Some(c) then [] else [l[0]]) + RemoveFromLine(l[1..], c)
  }

  /** Removal works cell by cell, so the kept cells stay in their order. */
  lemma {:induction false} RemoveFromLineConcat(a: Line, b: Line, c: char)
    ensures RemoveFromLine(a + b, c) == RemoveFromLine(a, c) + RemoveFromLine(b, c)
  {
    if a != [] {
      var t := a[1..];
      assert a == [a[0]] + t;
      assert a + b == [a[0]] + (t + b);
      RemoveFromLineCons(a[0], t, c);
      RemoveFromLineCons(a[0], t + b, c);
      RemoveFromLineConcat(t, b, c);
      SeqAssociative(if a[0] == Some(c) then [] else [a[0]], RemoveFromLine(t, c), RemoveFromLine(b, c));
    } else {
      assert a + b == b;
    }
  }

  lemma RemoveFromLineCons(h: Cell, t: Line, c: char)
    ensures RemoveFromLine([h] + t, c) == (if h == Some(c) then [] else [h]) + RemoveFromLine(t, c)
  {
    assert ([h] + t)[0] == h && ([h] + t)[1..] == t;
  }

  lemma SeqAssociative(x: Line, y: Line, z: Line)
    ensures x + (y + z) == (x + y) + z
  {
  }

  /** Exactly the occurrences of `c` go: every other cell value keeps its multiplicity. */
  lemma {:induction false} RemoveFromLineCount(l: Line, c: char)
    ensures forall x :: x != Some(c) ==> multiset(RemoveFromLine(l, c))[x] == multiset(l)[x]
  {
    if l != [] {
      RemoveFromLineCount(l[1..], c);
      assert l == [l[0]] + l[1..];
    }
  }

  /** `Surface._remove_char`: every line with the given character removed. */
  function RemoveChar(g: Grid, c: char): (r: Grid)
    ensures |r| == |g|
    ensures forall k :: 0 <= k < |g| ==> r[k] == RemoveFromLine(g[k], c)
  {
    seq(|g|, k requires 0 <= k < |g| => RemoveFromLine(g[k], c))
  }

  /** `Surface.add_line`. */
  function AddLine(g: Grid): (r: Grid)
    ensures |r| == |g| + 1 && r[..|g|] == g && r[|g|] == []
  {
    g + [[]]
  }

  /** `SurfaceLine.as_str`: blanks render as spaces. */
  function LineText(l: Line): (r: string)
    ensures |r| == |l|
    ensures forall k :: 0 <= k < |l| ==> r[k] == (if l[k].Some? then l[k].value else ' ')
  {
    seq(|l|, k requires 0 <= k < |l| => if l[k].Some? then l[k].value else ' ')
  }

  /** `Surface.as_str`: the lines joined by newlines. */
  function AsStr(g: Grid): string {
    if g == [] then ""
    else if |g| == 1 then LineText(g[0])
    else LineText(g[0]) + "\n" + AsStr(g[1..])
  }

  /** A string drawn as cells reads back as itself, and blank cells read as spaces. */
  lemma TextReadsBack(s: string, n: nat)
    ensures LineText(Text(s)) == s
    ensures LineText(Nones(n) + Text(s)) == seq(n, _ => ' ') + s
  {
  }

  /** Adding an empty line after non-empty text adds a newline at its end. */
  lemma {:induction false} AddLineText(g: Grid)
    requires g != []
    ensures AsStr(AddLine(g)) == AsStr(g) + "\n"
  {
    if |g| == 1 {
      assert AddLine(g)[1..] == [[]];
    } else {
      assert AddLine(g)[1..] == AddLine(g[1..]);
      AddLineText(g[1..]);
    }
  }
}
