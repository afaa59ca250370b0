/** The character grid of the first version of the program, surface.py: drawing with an optional guard for
    plain connections, merging, the junction table and the channel layout. */
module LegacySurface {
  import opened Wrappers
  import opened Glyphs
  import opened Surface
  import Connections

  /** `arrs["tail"]`; the other glyphs are those of genealogy/utils.py. */
  const LegacyTail: string := "╚═"

  /** `arrs_arithmetic`: (glyph already in the cell, arm being added) to junction glyph. */
  const LegacyArithmetic: map<(char, char), char> := map[
    (Start, Left) := LeftStart,
    (Start, Right) := RightStart,
    (End, Left) := LeftEnd,
    (End, Right) := RightEnd,
    (Middle, Left) := LeftMiddle,
    (Middle, Right) := RightMiddle,
    (RightStart, Left) := BothStart,
    (RightEnd, Left) := BothEnd,
    (RightMiddle, Left) := BothMiddle,
    (LeftStart, Right) := BothStart,
    (LeftEnd, Right) := BothEnd,
    (LeftMiddle, Right) := BothMiddle
  ]

  /** `arrs_arithmetic[(prev, arm)]`, a `KeyError` when the pair is not in the table. */
  function LegacyCombine(prev: char, arm: char): (r: Result<char>)
    ensures r.Success? <==> (prev, arm) in LegacyArithmetic
    ensures r.Failure? ==> r.error == KeyError
  {
    if (prev, arm) in LegacyArithmetic then Success(LegacyArithmetic[(prev, arm)]) else Failure(KeyError)
  }

  /** The table has no entry for a cell holding a plain connection. */
  lemma LegacyArithmeticNoConnection()
    ensures forall key :: key in LegacyArithmetic ==> key.0 != Connection
  {
  }

  /** Adding the two arms to a channel glyph gives the same junction in either order. */
  lemma LegacyArithmeticShape()
    ensures forall c :: IsChannelGlyph(c) ==>
      && LegacyCombine(c, Left).Success? && LegacyCombine(c, Right).Success?
      && LegacyCombine(LegacyCombine(c, Left).value, Right) == LegacyCombine(LegacyCombine(c, Right).value, Left)
      && LegacyCombine(LegacyCombine(c, Left).value, Right).Success?
  {
    forall c | IsChannelGlyph(c)
      ensures LegacyCombine(c, Left).Success? && LegacyCombine(c, Right).Success?
      ensures LegacyCombine(LegacyCombine(c, Left).value, Right) == LegacyCombine(LegacyCombine(c, Right).value, Left)
      ensures LegacyCombine(LegacyCombine(c, Left).value, Right).Success?
    {
      if c == Start {
      } else if c == End {
      } else {
      }
    }
  }

  /** The junction table of the first version is the later one without its entries for a plain connection. */
  lemma LegacyArithmeticIsLater()
    ensures forall key :: key in LegacyArithmetic <==> key in ArrowsArithmetic && key.0 != Connection
    ensures forall key :: key in LegacyArithmetic ==> LegacyArithmetic[key] == ArrowsArithmetic[key]
  {
  }

  // ---------------------------------------------------------------------------------------------
  // SurfLine.draw and Surface.draw

  /** What a cell holds after `c` is written over `prev`: with `no_overwrite`, a plain connection leaves an
      occupied cell alone; everything else overwrites. */
  function Write(prev: Cell, c: char, noOverwrite: bool): Cell {
    if prev.Some? && noOverwrite && c == Connection then prev else Some(c)
  }

  /** The per-character loop of `SurfLine.draw`, writing `xs` from `at` on; the flag tells whether any written
      position was occupied, whether or not the write then happened. */
  function WriteRun(line: Line, at: nat, xs: string, noOverwrite: bool): (r: (Line, bool))
    requires at <= |line|
    ensures |r.0| == Max(|line|, at + |xs|)
    ensures forall k :: 0 <= k < at ==> r.0[k] == line[k]
    ensures forall k :: at <= k < at + |xs| ==> r.0[k] == Write(CellAt(line, k), xs[k - at], noOverwrite)
    ensures forall k :: at + |xs| <= k < |line| ==> r.0[k] == line[k]
    ensures r.1 <==> exists k :: at <= k < at + |xs| && CellAt(line, k).Some?
    decreases |xs|
  {
    if xs == [] then (line, false)
    else if at == |line| then
      var rest := WriteRun(line + [Some(xs[0])], at + 1, xs[1..], noOverwrite);
      assert forall k :: at + 1 <= k < at + |xs| ==> CellAt(line + [Some(xs[0])], k) == CellAt(line, k);
      assert !CellAt(line, at).Some?;
      (rest.0, rest.1)
    else
      var occupied := line[at].Some?;
      var written := line[at := Write(line[at], xs[0], noOverwrite)];
      var rest := WriteRun(written, at + 1, xs[1..], noOverwrite);
      assert forall k :: at + 1 <= k < at + |xs| ==> CellAt(written, k) == CellAt(line, k) && xs[1..][k - (at + 1)] == xs[k - at];
      assert occupied ==> CellAt(line, at).Some?;
      (rest.0, occupied || rest.1)
  }

  /** `SurfLine.draw`: with `up_to` the run ends at `index`; a run starting at a negative index is a
      `DrawError`. Otherwise the line is padded with blanks up to the run and each of its characters written;
      the result tells whether any position of the run already held a character. */
  function LegacyLineDraw(line: Line, index: int, xs: string, upTo: bool, noOverwrite: bool): (r: Result<(Line, bool)>)
    ensures var at := if upTo then index - |xs| else index;
      && (r.Failure? <==> at < 0)
      && (r.Failure? ==> r.error == DrawError)
      && (r.Success? ==>
        && |r.value.0| == Max(|line|, at + |xs|)
        && (forall k :: 0 <= k < |r.value.0| && !(at <= k < at + |xs|) ==> r.value.0[k] == CellAt(line, k))
        && (forall k :: at <= k < at + |xs| ==> r.value.0[k] == Write(CellAt(line, k), xs[k - at], noOverwrite))
        && (r.value.1 <==> exists k :: at <= k < at + |xs| && CellAt(line, k).Some?))
  {
    var at := if upTo then index - |xs| else index;
    if at < 0 then Failure(DrawError)
    else
      var padded := if |line| < at then line + Nones(at - |line|) else line;
      assert forall k :: 0 <= k ==> CellAt(padded, k) == CellAt(line, k);
      if |padded| == at then
        assert forall k :: at <= k < at + |xs| ==> CellAt(line, k) == None;
        Success((padded + Text(xs), false))
      else
        Success(WriteRun(padded, at, xs, noOverwrite))
  }

  /** `Surface.draw`: a negative line is a `DrawError`; otherwise the grid is extended with empty lines up to
      `pos.line` and that line alone is drawn on. */
  function LegacyDraw(g: Grid, pos: Pos, xs: string, upTo: bool, noOverwrite: bool): (r: Result<(Grid, bool)>)
    ensures pos.line < 0 ==> r == Failure(DrawError)
    ensures r.Success? ==>
      && |r.value.0| == Max(|g|, pos.line + 1)
      && (forall k :: 0 <= k < |r.value.0| && k != pos.line ==> r.value.0[k] == LineAt(g, k))
      && LegacyLineDraw(LineAt(g, pos.line), pos.index, xs, upTo, noOverwrite) == Success((r.value.0[pos.line], r.value.1))
    ensures pos.line >= 0 ==> (r.Success? <==> LegacyLineDraw(LineAt(g, pos.line), pos.index, xs, upTo, noOverwrite).Success?)
  {
    if pos.line < 0 then Failure(DrawError)
    else
      var extended := if |g| <= pos.line then g + seq(pos.line - |g| + 1, _ => []) else g;
      assert forall k :: 0 <= k < |extended| ==> extended[k] == LineAt(g, k);
      var drawn :- LegacyLineDraw(extended[pos.line], pos.index, xs, upTo, noOverwrite);
      Success((extended[pos.line := drawn.0], drawn.1))
  }

  /** `SurfLine.drawn`: a fresh line with `xs` drawn at `index`, which is `index` blanks followed by `xs`. */
  function Drawn(index: int, xs: string): (r: Result<Line>)
    ensures r.Failure? <==> index < 0
    ensures r.Failure? ==> r.error == DrawError
    ensures r.Success? ==> r.value == Nones(index) + Text(xs)
  {
    var drawn :- LegacyLineDraw([], index, xs, false, false);
    assert drawn.0 == Nones(index) + Text(xs) by {
      assert forall k :: 0 <= k < |drawn.0| ==> drawn.0[k] == (Nones(index) + Text(xs))[k];
    }
    Success(drawn.0)
  }

  /** Drawing over an occupied cell reports the collision even when `no_overwrite` then skips the write, and
      a write is skipped only for a plain connection with `no_overwrite` set. */
  lemma CollisionReported(line: Line, index: nat, c: char, noOverwrite: bool)
    requires index < |line| && line[index].Some?
    ensures var r := LegacyLineDraw(line, index, [c], false, noOverwrite);
      && r.Success? && r.value.1
      && (r.value.0[index] == line[index] <==> (noOverwrite && c == Connection) || line[index] == Some(c))
  {
    var r := LegacyLineDraw(line, index, [c], false, noOverwrite);
    assert CellAt(line, index).Some?;
  }

  // ---------------------------------------------------------------------------------------------
  // SurfLine.__add__ and Surface.__add__

  /** `SurfLine.__add__`: the two lines walked together, padded with blanks, each cell taken from the left line
      unless it is blank there. */
  function LineAdd(a: Line, b: Line): (r: Line)
    decreases |a| + |b|
  {
    if a == [] && b == [] then []
    else
      var x := if a == [] then None else a[0];
      var y := if b == [] then None else b[0];
      [if x.Some? then x else y] + LineAdd(if a == [] then [] else a[1..], if b == [] then [] else b[1..])
  }

  /** The walk over both lines is the cell-wise merge of the later version. */
  lemma {:induction false} LineAddIsMerge(a: Line, b: Line)
    ensures LineAdd(a, b) == LineMerge(a, b)
    decreases |a| + |b|
  {
    if a == [] && b == [] {
    } else {
      var a' := if a == [] then [] else a[1..];
      var b' := if b == [] then [] else b[1..];
      LineAddIsMerge(a', b');
      var r := LineAdd(a, b);
      var m := LineMerge(a, b);
      assert |r| == 1 + |LineMerge(a', b')|;
      forall k | 0 <= k < |m| ensures r[k] == m[k] {
        if k > 0 {
          assert r[k] == LineMerge(a', b')[k - 1];
          assert CellAt(a', k - 1) == CellAt(a, k) && CellAt(b', k - 1) == CellAt(b, k);
        }
      }
    }
  }

  /** `Surface.__add__`: the lines walked together with `()` as the fill value. An empty tuple on the right
      merges as an empty line, but on the left `() + line` is a tuple concatenated with a list: a `TypeError`
      as soon as the left surface is the shorter. */
  function GridAdd(a: Grid, b: Grid): (r: Result<Grid>)
    ensures r.Failure? <==> |a| < |b|
    ensures r.Failure? ==> r.error == TypeError
    ensures r.Success? ==> |r.value| == |a| && forall k :: 0 <= k < |a| ==> r.value[k] == LineAdd(a[k], LineAt(b, k))
  {
    if |a| < |b| then Failure(TypeError)
    else Success(seq(|a|, k requires 0 <= k < |a| => LineAdd(a[k], LineAt(b, k))))
  }

  /** Where it succeeds, adding surfaces is the line-by-line merge of the later version. */
  lemma GridAddIsMerge(a: Grid, b: Grid)
    requires |a| >= |b|
    ensures GridAdd(a, b) == Success(GridMerge(a, b))
  {
    var r := GridAdd(a, b).value;
    var m := GridMerge(a, b);
    assert |r| == |m|;
    forall k | 0 <= k < |a| ensures r[k] == m[k] {
      assert r[k] == LineAdd(a[k], LineAt(b, k));
      assert m[k] == LineMerge(LineAt(a, k), LineAt(b, k));
      LineAddIsMerge(a[k], LineAt(b, k));
    }
    assert r == m;
  }

  /** A one-line surface added to an empty one fails, where merging gives the line back. */
  lemma GridAddShorterFails()
    ensures GridAdd([], [[Some(Middle)]]) == Failure(TypeError)
    ensures GridMerge([], [[Some(Middle)]]) == [[Some(Middle)]]
  {
    var m := GridMerge([], [[Some(Middle)]]);
    assert m[0] == LineMerge([], [Some(Middle)]);
  }

  // ---------------------------------------------------------------------------------------------
  // SurfPos offsets and ArrowsSurface

  const LegacyGenerationShift: int := 16
  const LegacyStartShift: int := 4
  const LegacyChannelShift: int := 2

  /** `_first_channel_shift`: the start shift plus the length of the tail glyph. */
  function FirstChannelShift(): int {
    LegacyStartShift + |LegacyTail|
  }

  /** `SurfPos.from_gen`. */
  function FromGen(line: int, generation: int): Pos {
    Pos(line, generation * LegacyGenerationShift)
  }

  /** `co_right`: the channel's column, right of a position. */
  function CoRight(p: Pos, channel: int): Pos {
    Pos(p.line, p.index + FirstChannelShift() + channel * LegacyChannelShift)
  }

  /** `co_left`: the channel's column on the parent's line, from the child generation's column. */
  function CoLeft(p: Pos, channel: int, childGeneration: int): Pos {
    Pos(p.line, FirstChannelShift() + channel * LegacyChannelShift + LegacyGenerationShift * childGeneration)
  }

  /** `co_tail`. */
  function CoTail(p: Pos): Pos {
    Pos(p.line, p.index + LegacyStartShift)
  }

  /** The offsets: the first channel is six columns right of a name, channels two apart; the tail starts four
      columns right and is two long, so it reaches the first channel exactly; a child's channel and its
      parent's arrow meet in one column. */
  lemma LegacyOffsets(p: Pos, channel: int, generation: int, parentLine: int)
    ensures FirstChannelShift() == 6
    ensures CoRight(p, channel).index == p.index + 6 + 2 * channel && CoRight(p, channel).line == p.line
    ensures CoTail(p).index + |LegacyTail| == CoRight(p, 0).index
    ensures CoRight(FromGen(parentLine, generation), channel) == CoLeft(Pos(parentLine, 0), channel, generation)
  {
  }

  /** The glyph of line `line` of a channel from `start` to `end`: the start glyph first, even when the channel
      is a single line, the end glyph last, the middle glyph between. */
  function LegacyChannelGlyph(line: int, start: int, end: int): (r: char)
    ensures line == start ==> r == Start
    ensures line != start && line == end ==> r == End
    ensures line != start && line != end ==> r == Middle
  {
    if line == start then Start else if line == end then End else Middle
  }

  /** The first version's channel glyphs agree with the later ones on every line of a channel except the single
      line of a one-line channel, where the first version opens a channel that the later one draws as a plain
      connection. */
  lemma LegacyGlyphAgrees(line: int, start: int, end: int)
    requires start <= line <= end
    ensures LegacyChannelGlyph(line, start, end) == Connections.ChannelGlyph(line, start, end) <==> start < end
    ensures start == end ==> LegacyChannelGlyph(line, start, end) == Start
  {
  }

  /** `_draw_channel` from line `line` on: a negative line or column is a `DrawError`; otherwise each line of
      the channel gets its glyph in the channel's column, overwriting what was there, and nothing else
      changes. */
  function LegacyDrawChannel(g: Grid, generation: int, channel: int, line: int, start: int, end: int): (r: Result<Grid>)
    ensures var col := CoRight(FromGen(0, generation), channel).index;
      r.Failure? <==> line <= end && (line < 0 || col < 0)
    ensures r.Failure? ==> r.error == DrawError
    ensures r.Success? ==> var col := CoRight(FromGen(0, generation), channel).index;
      forall l, i :: At(r.value, l, i) == (if line <= l <= end && i == col then Some(LegacyChannelGlyph(l, start, end)) else At(g, l, i))
    decreases end - line + 1
  {
    if line > end then Success(g)
    else
      var pos := CoRight(FromGen(line, generation), channel);
      var drawn :- LegacyDraw(g, pos, [LegacyChannelGlyph(line, start, end)], false, false);
      LegacyDrawnCell(g, pos, LegacyChannelGlyph(line, start, end));
      LegacyDrawChannel(drawn.0, generation, channel, line + 1, start, end)
  }

  /** Drawing one character writes that cell and leaves every other cell as it was. */
  lemma LegacyDrawnCell(g: Grid, pos: Pos, c: char)
    requires LegacyDraw(g, pos, [c], false, false).Success?
    ensures var r := LegacyDraw(g, pos, [c], false, false).value.0;
      forall l, i :: At(r, l, i) == (if l == pos.line && i == pos.index then Some(c) else At(g, l, i))
  {
    var r := LegacyDraw(g, pos, [c], false, false).value.0;
    forall l, i ensures At(r, l, i) == (if l == pos.line && i == pos.index then Some(c) else At(g, l, i)) {
      if l == pos.line && 0 <= l {
        assert r[l] == LegacyLineDraw(LineAt(g, pos.line), pos.index, [c], false, false).value.0;
      }
    }
  }

  /** `_co_char`: the arm itself when the cell is blank or out of range (with Python's negative indices), its
      junction with the glyph there otherwise, a `KeyError` when the table has none. */
  function CoChar(g: Grid, pos: Pos, arm: char): (r: Result<char>)
    ensures var prev := match PyAt(g, pos.line) case None => None case Some(l) => (match PyAt(l, pos.index) case None => None case Some(c) => c);
      && (prev.None? ==> r == Success(arm))
      && (prev.Some? ==> r == LegacyCombine(prev.value, arm))
  {
    var prev := match PyAt(g, pos.line) case None => None case Some(l) => (match PyAt(l, pos.index) case None => None case Some(c) => c);
    if prev.None? then Success(arm) else LegacyCombine(prev.value, arm)
  }
}
