/** The connection arrows of genealogy/surface.py: `SurfacePosition` arithmetic, `CoupleConnection` and the
    drawing methods of `ArrowsSurface`. */
module Connections {
  import opened Wrappers
  import opened Glyphs
  import opened Surface

  // ---------------------------------------------------------------------------------------------
  // SurfacePosition

  /** Columns between two generations. */
  const GenerationShift: int := 16
  /** Columns from a name to the tail of its connection. */
  const StartShift: int := 4
  /** Columns from a name to its first channel: the start shift plus the width of the tail. */
  const FirstChannelShift: int := StartShift + |Tail|
  /** Columns between two parallel channels. */
  const AdditionalChannelShift: int := 2

  lemma FirstChannelShiftValue()
    ensures FirstChannelShift == 6
  {
  }

  /** `SurfacePosition.from_generation`: the name column of a generation. */
  function FromGeneration(line: int, generation: int): (r: Pos)
    ensures r.line == line && r.index == generation * GenerationShift
  {
    Pos(line, generation * GenerationShift)
  }

  /** `connection_right`: where a child's connection meets channel `channel`. */
  function ConnectionRight(p: Pos, channel: int): (r: Pos)
    ensures r.line == p.line && r.index == p.index + FirstChannelShift + channel * AdditionalChannelShift
  {
    Pos(p.line, p.index + FirstChannelShift + channel * AdditionalChannelShift)
  }

  /** `connection_left`: where a parent's connection leaves channel `channel` of the child generation; the
      column does not depend on where the parent is. */
  function ConnectionLeft(p: Pos, channel: int, childGeneration: int): (r: Pos)
    ensures r.line == p.line
    ensures r.index == FirstChannelShift + channel * AdditionalChannelShift + GenerationShift * childGeneration
  {
    Pos(p.line, FirstChannelShift + channel * AdditionalChannelShift + GenerationShift * childGeneration)
  }

  /** `connection_tail`: where a child's connection starts. */
  function ConnectionTail(p: Pos): (r: Pos)
    ensures r.line == p.line && r.index == p.index + StartShift
  {
    Pos(p.line, p.index + StartShift)
  }

  /** `connection_head`: a parent's connection ends at the parent's name. */
  function ConnectionHead(p: Pos): (r: Pos)
    ensures r == p
  {
    p
  }

  /** The column of channel `channel` of a generation. */
  function ChannelColumn(generation: int, channel: int): int {
    generation * GenerationShift + FirstChannelShift + channel * AdditionalChannelShift
  }

  /** A child's connection, a parent's connection and the channel itself meet in the same column, wherever the
      child and the parent are on their lines. A child's connection starts four columns right of the name
      and its tail reaches exactly to the first channel; a parent's connection runs on the parent's line
      from the channel to the parent's name. */
  lemma ConnectionsMeet(line: int, generation: int, channel: int, parent: Pos, childLine: int)
    ensures ConnectionRight(FromGeneration(line, generation), channel).index == ChannelColumn(generation, channel)
    ensures ConnectionRight(FromGeneration(childLine, generation), channel).index == ChannelColumn(generation, channel)
    ensures ConnectionLeft(parent, channel, generation).index == ChannelColumn(generation, channel)
    ensures var child := FromGeneration(line, generation);
      && ConnectionTail(child) == Pos(line, ChannelColumn(generation, 0) - |Tail|)
      && ConnectionTail(child).index + |Tail| == ConnectionRight(child, 0).index
    ensures ConnectionLeft(parent, channel, generation).line == ConnectionHead(parent).line == parent.line
    ensures ConnectionHead(parent).index == parent.index
  {
  }

  /** Distinct channels of one generation are two columns apart, so parallel channels never touch. */
  lemma ChannelsApart(generation: int, c1: int, c2: int)
    requires c1 < c2
    ensures ChannelColumn(generation, c2) - ChannelColumn(generation, c1) >= AdditionalChannelShift
  {
  }

  // ---------------------------------------------------------------------------------------------
  // CoupleConnection

  /** `CoupleConnection`: the name positions of a couple of parents, the positions under their children's
      names, and the channel allocated to them, if any. */
  datatype Couple = Couple(parents: seq<Pos>, children: seq<Pos>, channel: Option<int>)

  /** `used_lines`: the parents' lines, then the children's. */
  function UsedLines(c: Couple): (r: seq<int>)
    ensures |r| == |c.parents| + |c.children|
    ensures forall k :: 0 <= k < |c.parents| ==> r[k] == c.parents[k].line
    ensures forall k :: 0 <= k < |c.children| ==> r[|c.parents| + k] == c.children[k].line
  {
    seq(|c.parents|, k requires 0 <= k < |c.parents| => c.parents[k].line)
      + seq(|c.children|, k requires 0 <= k < |c.children| => c.children[k].line)
  }

  /** The least element; `min()` of nothing raises `ValueError`. */
  function Least(s: seq<int>): (r: Result<int>)
    ensures r.Failure? <==> s == []
    ensures r.Failure? ==> r.error == ValueError
    ensures r.Success? ==> r.value in s && forall k :: 0 <= k < |s| ==> r.value <= s[k]
  {
    if s == [] then Failure(ValueError)
    else if |s| == 1 then Success(s[0])
    else
      var rest := Least(s[1..]).value;
      assert forall k :: 1 <= k < |s| ==> s[k] == s[1..][k - 1];
      Success(if s[0] <= rest then s[0] else rest)
  }

  /** The greatest element; `max()` of nothing raises `ValueError`. */
  function Greatest(s: seq<int>): (r: Result<int>)
    ensures r.Failure? <==> s == []
    ensures r.Failure? ==> r.error == ValueError
    ensures r.Success? ==> r.value in s && forall k :: 0 <= k < |s| ==> s[k] <= r.value
  {
    if s == [] then Failure(ValueError)
    else if |s| == 1 then Success(s[0])
    else
      var rest := Greatest(s[1..]).value;
      assert forall k :: 1 <= k < |s| ==> s[k] == s[1..][k - 1];
      Success(if s[0] >= rest then s[0] else rest)
  }

  /** `CoupleConnection.min`. */
  function Low(c: Couple): Result<int> {
    Least(UsedLines(c))
  }

  /** `CoupleConnection.max`. */
  function High(c: Couple): Result<int> {
    Greatest(UsedLines(c))
  }

  /** A couple's lines span from `min` to `max`: both fail together, on a couple with no positions, and
      otherwise every parent and child line lies between them. */
  lemma CoupleSpan(c: Couple)
    ensures Low(c).Success? <==> High(c).Success?
    ensures Low(c).Success? <==> c.parents != [] || c.children != []
    ensures Low(c).Success? ==> Low(c).value <= High(c).value
    ensures Low(c).Success? ==>
      && (forall k :: 0 <= k < |c.parents| ==> Low(c).value <= c.parents[k].line <= High(c).value)
      && (forall k :: 0 <= k < |c.children| ==> Low(c).value <= c.children[k].line <= High(c).value)
  {
    var u := UsedLines(c);
    if u != [] {
      assert Low(c).value <= u[0] <= High(c).value;
      assert forall k :: 0 <= k < |c.children| ==> u[|c.parents| + k] == c.children[k].line;
    }
  }

  // ---------------------------------------------------------------------------------------------
  // ArrowsSurface

  /** The cell `self[line][index]` reads, with Python's negative indices; `None` when either index is out of
      range. */
  function Read(g: Grid, pos: Pos): (r: Cell)
    ensures 0 <= pos.line && 0 <= pos.index ==> r == At(g, pos.line, pos.index)
  {
    match PyAt(g, pos.line)
    case None => None
    case Some(l) =>
      match PyAt(l, pos.index)
      case None => None
      case Some(c) => c
  }

  /** The glyph a channel cell becomes when an arm is drawn onto it: the arm itself over a blank, its
      combination with the glyph already there otherwise (`KeyError` when there is none). */
  function Join(prev: Cell, arm: char): (r: Result<char>)
    ensures prev == None ==> r == Success(arm)
    ensures prev.Some? ==> r == Combine(prev.value, arm)
  {
    if prev == None then Success(arm) else Combine(prev.value, arm)
  }

  /** `_get_connection_arrow`. */
  function GetConnectionArrow(g: Grid, pos: Pos, arm: char): (r: Result<char>)
    ensures r == Join(Read(g, pos), arm)
    ensures r.Success? ==> r.value == arm || (Read(g, pos).Some? && (Read(g, pos).value, arm) in ArrowsArithmetic)
  {
    Join(Read(g, pos), arm)
  }

  /** The glyph of line `line` of a channel running from `start` to `end`. */
  function ChannelGlyph(line: int, start: int, end: int): char {
    if line == start then (if line == end then Connection else Start)
    else if line == end then End
    else Middle
  }

  /** The channel glyphs: a one-line channel is a plain connection, a longer one opens, runs and closes. */
  lemma ChannelGlyphShape(line: int, start: int, end: int)
    requires start <= line <= end
    ensures start == end ==> ChannelGlyph(line, start, end) == Connection
    ensures start < end ==> IsChannelGlyph(ChannelGlyph(line, start, end))
    ensures start < end && line == start ==> ChannelGlyph(line, start, end) == Start
    ensures start < end && line == end ==> ChannelGlyph(line, start, end) == End
    ensures start < line < end ==> ChannelGlyph(line, start, end) == Middle
  {
  }

  /** `_draw_channel` from line `line` on: one glyph per line down to `end`, in the channel's column. A negative
      line or column is a `DrawError`; otherwise every cell of the channel gets its glyph overlaid and nothing
      else changes. */
  function DrawChannel(g: Grid, generation: int, channel: int, line: int, start: int, end: int): (r: Result<Grid>)
    ensures r.Failure? <==> line <= end && (line < 0 || ChannelColumn(generation, channel) < 0)
    ensures r.Failure? ==> r.error == DrawError
    ensures r.Success? ==>
      forall l, i :: At(r.value, l, i) ==
        (if line <= l <= end && i == ChannelColumn(generation, channel)
         then Overlay(At(g, l, i), Some(ChannelGlyph(l, start, end)))
         else At(g, l, i))
    decreases end - line + 1
  {
    if line > end then Success(g)
    else
      var pos := ConnectionRight(FromGeneration(line, generation), channel);
      var xs := Text([ChannelGlyph(line, start, end)]);
      var drawn :- Draw(g, pos, xs, false);
      DrawView(g, pos, xs, false);
      var rest := DrawChannel(drawn.0, generation, channel, line + 1, start, end);
      if rest.Failure? then rest
      else
        assert forall l, i :: At(rest.value, l, i) ==
          (if line <= l <= end && i == ChannelColumn(generation, channel)
           then Overlay(At(g, l, i), Some(ChannelGlyph(l, start, end)))
           else At(g, l, i));
        rest
  }

  /** `str * n`: `n` copies, none when `n` is not positive. */
  function Repeat(c: char, n: int): (r: string)
    ensures |r| == (if n <= 0 then 0 else n) && forall k :: 0 <= k < |r| ==> r[k] == c
  {
    if n <= 0 then [] else seq(n, _ => c)
  }

  /** Every glyph of `g` is still a glyph (perhaps another one) in `r`, and every removal character of `r` was
      already in `g`: drawing never blanks a cell and never writes the removal marker. */
  ghost predicate Keeps(g: Grid, r: Grid) {
    forall l, i :: (At(g, l, i).Some? ==> At(r, l, i).Some?) && (At(r, l, i) == Some(ToRemove) ==> At(g, l, i) == Some(ToRemove))
  }

  /** Drawing characters (never blanks, never the removal marker) keeps every cell's glyph. */
  lemma DrawKeeps(g: Grid, pos: Pos, xs: seq<Cell>)
    requires Draw(g, pos, xs, false).Success?
    requires forall k :: 0 <= k < |xs| ==> xs[k].Some? && xs[k] != Some(ToRemove)
    ensures Keeps(g, Draw(g, pos, xs, false).value.0)
  {
    DrawView(g, pos, xs, false);
  }

  lemma ArrowKeeps(g: Grid, pos: Pos, arrow: string)
    requires Draw(g, pos, Text(arrow), false).Success?
    requires ToRemove !in arrow
    ensures Keeps(g, Draw(g, pos, Text(arrow), false).value.0)
  {
    DrawKeeps(g, pos, Text(arrow));
  }

  /** A junction an arm makes is a box glyph, never the removal marker. */
  lemma JoinedNotMark(g: Grid, pos: Pos, arm: char)
    requires arm == Left || arm == Right
    requires GetConnectionArrow(g, pos, arm).Success?
    ensures GetConnectionArrow(g, pos, arm).value != ToRemove
  {
    var prev := Read(g, pos);
    if prev.Some? {
      CombineNeverMarks(prev.value, arm);
    }
  }

  /** `r` is `g` with `arrow` drawn on line `line` from column `s`: its first and last characters and its inner
      `fill` overlaid (a plain connection never covers a glyph), and nothing else changed. */
  ghost predicate ArrowOn(g: Grid, r: Grid, line: int, s: int, arrow: string, fill: char) {
    && |arrow| >= 2
    && At(r, line, s) == Overlay(At(g, line, s), Some(arrow[0]))
    && (forall i :: s < i < s + |arrow| - 1 ==> At(r, line, i) == Overlay(At(g, line, i), Some(fill)))
    && At(r, line, s + |arrow| - 1) == Overlay(At(g, line, s + |arrow| - 1), Some(arrow[|arrow| - 1]))
    && (forall l, i :: l != line || i < s || s + |arrow| <= i ==> At(r, l, i) == At(g, l, i))
  }

  /** Drawing an arrow whose inner cells are all `fill` on one line: its ends and inner cells are overlaid, and
      nothing else changes. */
  lemma ArrowDrawn(g: Grid, pos: Pos, arrow: string, fill: char)
    requires Draw(g, pos, Text(arrow), false).Success? && |arrow| >= 2
    requires forall k :: 0 < k < |arrow| - 1 ==> arrow[k] == fill
    ensures ArrowOn(g, Draw(g, pos, Text(arrow), false).value.0, pos.line, pos.index, arrow, fill)
  {
    DrawView(g, pos, Text(arrow), false);
    assert RunStart(pos.index, Text(arrow), false) == pos.index;
    ArrowView(g, Draw(g, pos, Text(arrow), false).value.0, pos.line, pos.index, arrow, fill);
  }

  /** A grid that reads as `g` with the characters of `arrow` overlaid from column `s` of one line has the arrow
      on that line. */
  lemma ArrowView(g: Grid, r: Grid, line: int, s: int, arrow: string, fill: char)
    requires |arrow| >= 2
    requires forall k :: 0 < k < |arrow| - 1 ==> arrow[k] == fill
    requires DrawnAs(g, r, line, s, Text(arrow))
    ensures ArrowOn(g, r, line, s, arrow, fill)
  {
    var xs := Text(arrow);
    var last := s + |arrow| - 1;
    assert At(r, line, s) == Overlay(At(g, line, s), xs[0]);
    assert At(r, line, last) == Overlay(At(g, line, last), xs[last - s]);
    forall i | s < i < last
      ensures At(r, line, i) == Overlay(At(g, line, i), Some(fill))
    {
      assert At(r, line, i) == Overlay(At(g, line, i), xs[i - s]);
      assert arrow[i - s] == fill;
    }
    forall l, i | l != line || i < s || s + |arrow| <= i
      ensures At(r, l, i) == At(g, l, i)
    {
    }
  }

  /** A child's arrow: the tail, plain connection up to the last cell, and the joined arm there. */
  lemma ChildArrowShape(channel: int, arm: char)
    requires channel >= 0
    ensures var a := ChildArrow(channel, arm);
      && |a| == |Tail| + 2 * channel + 1 && a[0] == Tail[0] && a[|a| - 1] == arm
      && forall k :: 0 < k < |a| - 1 ==> a[k] == Connection
  {
  }

  /** A parent's arrow: the joined arm, plain connection, and the blank of the head last. */
  lemma ParentArrowShape(gap: int, arm: char)
    ensures var a := ParentArrow(gap, arm);
      && |a| == Max(gap, |Head| + 1) && a[0] == arm && a[|a| - 1] == Head[1]
      && forall k :: 0 < k < |a| - 1 ==> a[k] == Connection
  {
  }

  /** The arrow from a child to channel `channel`: the tail, then plain connection for the `2 * channel` columns
      up to the channel, then the joined arm. */
  function ChildArrow(channel: int, arm: char): string {
    Tail + Repeat(Connection, 2 * channel) + [arm]
  }

  /** `_draw_child_connection`: the arrow runs from the child's tail position to the channel column, where the
      left arm joins whatever glyph is there. Drawing it never blanks a glyph. */
  function DrawChildConnection(g: Grid, child: Pos, channel: int): (r: Result<Grid>)
    ensures r.Failure? ==> r.error == KeyError || r.error == DrawError
    ensures r.Success? ==> Keeps(g, r.value)
  {
    var s := ConnectionTail(child);
    var e := ConnectionRight(child, channel);
    var len := e.index - s.index - |Tail|;
    var arm :- GetConnectionArrow(g, e, Left);
    assert len == 2 * channel;
    var arrow := ChildArrow(channel, arm);
    var drawn :- Draw(g, s, Text(arrow), false);
    JoinedNotMark(g, e, Left);
    ArrowKeeps(g, s, arrow);
    Success(drawn.0)
  }

  /** A child's arrow is drawn exactly when the channel column holds a glyph the left arm joins and the tail
      lies on the surface. It then runs from the tail to the channel column: the horizontal run never covers a
      glyph, the last cell is the joined glyph, and nothing else changes. */
  lemma ChildConnectionDrawn(g: Grid, child: Pos, channel: int)
    ensures var r := DrawChildConnection(g, child, channel);
      r.Success? <==>
        GetConnectionArrow(g, ConnectionRight(child, channel), Left).Success? && child.line >= 0 && child.index + StartShift >= 0
    ensures var r := DrawChildConnection(g, child, channel);
      r.Success? && channel >= 0 ==>
        var s := ConnectionTail(child).index;
        var arm := GetConnectionArrow(g, ConnectionRight(child, channel), Left).value;
        var a := ChildArrow(channel, arm);
        && s + |a| - 1 == ConnectionRight(child, channel).index
        && ArrowOn(g, r.value, child.line, s, a, Connection)
        && At(r.value, child.line, s) == Some(Tail[0])
  {
    var r := DrawChildConnection(g, child, channel);
    var s := ConnectionTail(child);
    var arm := GetConnectionArrow(g, ConnectionRight(child, channel), Left);
    if arm.Success? {
      var a := ChildArrow(channel, arm.value);
      var d := Draw(g, s, Text(a), false);
      assert r == if d.Success? then Success(d.value.0) else Failure(d.error);
      assert RunStart(s.index, Text(a), false) == s.index;
      if d.Success? && channel >= 0 {
        ChildArrowDrawn(g, s, channel, arm.value);
      }
    } else {
      assert r == Failure(arm.error);
    }
  }

  /** A child's arrow drawn from `s` to channel `channel`: the tail first, inner cells plain connection, the
      joined arm last. */
  lemma ChildArrowDrawn(g: Grid, s: Pos, channel: int, arm: char)
    requires channel >= 0 && Draw(g, s, Text(ChildArrow(channel, arm)), false).Success?
    ensures var a := ChildArrow(channel, arm);
      var r := Draw(g, s, Text(a), false).value.0;
      && |a| == |Tail| + 2 * channel + 1
      && ArrowOn(g, r, s.line, s.index, a, Connection)
      && At(r, s.line, s.index) == Some(Tail[0])
  {
    var a := ChildArrow(channel, arm);
    ChildArrowShape(channel, arm);
    ArrowDrawn(g, s, a, Connection);
  }

  /** The arrow from channel `channel` to a parent `gap` columns away: the joined arm, plain connection for the
      `gap - |Head| - 1` columns before the head, then the head. */
  function ParentArrow(gap: int, arm: char): string {
    [arm] + Repeat(Connection, gap - |Head| - 1) + Head
  }

  /** `_draw_parent_connection`: the arrow leaves the channel column of the child generation, where the right
      arm joins whatever glyph is there, and runs to the parent's name. It is drawn exactly when the channel
      column holds a glyph the right arm joins and the channel lies on the surface; it never blanks a glyph
      and spans the gap from the channel to the parent's name. */
  function DrawParentConnection(g: Grid, parent: Pos, childGeneration: int, channel: int): (r: Result<Grid>)
    ensures r.Failure? ==> r.error == KeyError || r.error == DrawError
    ensures var s := ConnectionLeft(parent, channel, childGeneration);
      r.Success? <==> GetConnectionArrow(g, s, Right).Success? && parent.line >= 0 && s.index >= 0
    ensures r.Success? ==> Keeps(g, r.value)
    ensures r.Success? ==> var s := ConnectionLeft(parent, channel, childGeneration);
      ParentArrowOn(g, r.value, parent.line, s.index, parent.index - s.index, GetConnectionArrow(g, s, Right).value)
  {
    var s := ConnectionLeft(parent, channel, childGeneration);
    var arm := GetConnectionArrow(g, s, Right);
    if arm.Failure? then Failure(arm.error)
    else
      JoinedNotMark(g, s, Right);
      DrawParentArrow(g, Pos(parent.line, s.index), parent.index - s.index, arm.value)
  }

  /** The drawing step of `_draw_parent_connection`: the parent's arrow for a gap of `gap` columns drawn from
      `s`, which fails exactly when `s` is off the surface. */
  function DrawParentArrow(g: Grid, s: Pos, gap: int, arm: char): (r: Result<Grid>)
    requires arm != ToRemove
    ensures r.Failure? <==> s.line < 0 || s.index < 0
    ensures r.Failure? ==> r.error == DrawError
    ensures r.Success? ==> Keeps(g, r.value) && ParentArrowOn(g, r.value, s.line, s.index, gap, arm)
  {
    var arrow := ParentArrow(gap, arm);
    var drawn :- Draw(g, s, Text(arrow), false);
    ArrowKeeps(g, s, arrow);
    ParentArrowDrawn(g, s, gap, arm, drawn.0);
    Success(drawn.0)
  }

  /** `r` is `g` with a parent's arrow for a gap of `gap` columns drawn on line `line` from column `s`: at least
      the arm and the head, the arm joined at the channel, plain connection that never covers a glyph, the
      head's blank last, and nothing else changed. */
  ghost predicate ParentArrowOn(g: Grid, r: Grid, line: int, s: int, gap: int, arm: char) {
    var a := ParentArrow(gap, arm);
    && |a| == Max(gap, |Head| + 1)
    && ArrowOn(g, r, line, s, a, Connection)
    && At(r, line, s + |a| - 1) == Some(Head[1])
  }

  /** A parent's arrow drawn from `s`, wherever it is drawn. */
  lemma ParentArrowDrawn(g: Grid, s: Pos, gap: int, arm: char, r: Grid)
    requires Draw(g, s, Text(ParentArrow(gap, arm)), false).Success?
    requires r == Draw(g, s, Text(ParentArrow(gap, arm)), false).value.0
    ensures ParentArrowOn(g, r, s.line, s.index, gap, arm)
  {
    ParentArrowShape(gap, arm);
    ArrowDrawn(g, s, ParentArrow(gap, arm), Connection);
    assert Head[1] != Connection;
  }

  /** A parent at least three columns right of the channel gets an arrow that ends just before the name. */
  lemma ParentArrowReachesName(parent: Pos, childGeneration: int, channel: int, arm: char)
    requires parent.index - ConnectionLeft(parent, channel, childGeneration).index >= |Head| + 1
    ensures var s := ConnectionLeft(parent, channel, childGeneration).index;
      s + |ParentArrow(parent.index - s, arm)| == parent.index
  {
  }

  /** The child arrows of a couple, drawn in order. */
  function DrawChildren(g: Grid, children: seq<Pos>, channel: int): (r: Result<Grid>)
    ensures r.Failure? ==> r.error == KeyError || r.error == DrawError
    ensures r.Success? ==> Keeps(g, r.value)
    decreases |children|
  {
    if children == [] then Success(g)
    else
      var g1 :- DrawChildConnection(g, children[0], channel);
      DrawChildren(g1, children[1..], channel)
  }

  /** The parent arrows of a couple, drawn in order. */
  function DrawParents(g: Grid, parents: seq<Pos>, generation: int, channel: int): (r: Result<Grid>)
    ensures r.Failure? ==> r.error == KeyError || r.error == DrawError
    ensures r.Success? ==> Keeps(g, r.value)
    decreases |parents|
  {
    if parents == [] then Success(g)
    else
      var g1 :- DrawParentConnection(g, parents[0], generation, channel);
      DrawParents(g1, parents[1..], generation, channel)
  }

  /** The errors drawing connections can raise. */
  predicate DrawingError(e: Error) {
    e == AssertionError || e == ValueError || e == KeyError || e == DrawError
  }

  /** One iteration of `draw_connections`: the allocated channel is asserted, then the channel is drawn from the
      couple's lowest to its highest line, then the children's arrows, then the parents'. The channel column is
      left with a glyph on every line of the couple's span. */
  function DrawCouple(g: Grid, generation: int, c: Couple): (r: Result<Grid>)
    ensures c.channel.None? ==> r == Failure(AssertionError)
    ensures c.channel.Some? && c.parents == [] && c.children == [] ==> r == Failure(ValueError)
    ensures r.Failure? && r.error == AssertionError ==> c.channel.None?
    ensures r.Failure? && r.error == ValueError ==> c.parents == [] && c.children == []
    ensures r.Failure? ==> DrawingError(r.error)
    ensures r.Success? ==>
      && c.channel.Some? && Low(c).Success? && Keeps(g, r.value)
      && forall l :: Low(c).value <= l <= High(c).value ==> At(r.value, l, ChannelColumn(generation, c.channel.value)).Some?
  {
    if c.channel.None? then Failure(AssertionError)
    else
      var ch := c.channel.value;
      CoupleSpan(c);
      var lo :- Low(c);
      var hi := High(c).value;
      var g1 :- DrawChannel(g, generation, ch, lo, lo, hi);
      var g2 :- DrawChildren(g1, c.children, ch);
      var g3 :- DrawParents(g2, c.parents, generation, ch);
      ChannelDrawn(g, generation, ch, lo, hi, g1);
      ChannelKept(g, g1, g2, g3, ChannelColumn(generation, ch), lo, hi);
      Success(g3)
  }

  /** A drawn channel keeps the glyphs and leaves one on every line of its span. */
  lemma ChannelDrawn(g: Grid, generation: int, channel: int, lo: int, hi: int, r: Grid)
    requires DrawChannel(g, generation, channel, lo, lo, hi) == Success(r)
    ensures Keeps(g, r) && forall l :: lo <= l <= hi ==> At(r, l, ChannelColumn(generation, channel)).Some?
  {
  }

  /** Glyphs kept through the later drawings stay glyphs. */
  lemma ChannelKept(g: Grid, g1: Grid, g2: Grid, g3: Grid, column: int, lo: int, hi: int)
    requires Keeps(g, g1) && Keeps(g1, g2) && Keeps(g2, g3)
    requires forall l :: lo <= l <= hi ==> At(g1, l, column).Some?
    ensures Keeps(g, g3) && forall l :: lo <= l <= hi ==> At(g3, l, column).Some?
  {
  }

  /** Some couple has no channel allocated. */
  predicate MissingChannel(couples: seq<Couple>) {
    exists k :: 0 <= k < |couples| && couples[k].channel.None?
  }

  /** Some couple has neither parents nor children, so it spans no line. */
  predicate MissingLines(couples: seq<Couple>) {
    exists k :: 0 <= k < |couples| && couples[k].parents == [] && couples[k].children == []
  }

  /** A couple's failing, or a failing among the couples after it, is a failing of the whole sequence. */
  lemma FailingExtend(couples: seq<Couple>)
    requires couples != []
    ensures couples[0].channel.None? || MissingChannel(couples[1..]) ==> MissingChannel(couples)
    ensures (couples[0].parents == [] && couples[0].children == []) || MissingLines(couples[1..]) ==> MissingLines(couples)
  {
    if MissingChannel(couples[1..]) {
      var k :| 0 <= k < |couples[1..]| && couples[1..][k].channel.None?;
      assert couples[k + 1] == couples[1..][k];
    }
    if MissingLines(couples[1..]) {
      var k :| 0 <= k < |couples[1..]| && couples[1..][k].parents == [] && couples[1..][k].children == [];
      assert couples[k + 1] == couples[1..][k];
    }
  }

  /** A sequence whose first couple is allocated and connected fails only where its tail fails. */
  lemma FailingRest(couples: seq<Couple>)
    requires couples != [] && couples[0].channel.Some? && (couples[0].parents != [] || couples[0].children != [])
    ensures MissingChannel(couples) ==> MissingChannel(couples[1..])
    ensures MissingLines(couples) ==> MissingLines(couples[1..])
  {
    if MissingChannel(couples) {
      var k :| 0 <= k < |couples| && couples[k].channel.None?;
      assert couples[1..][k - 1] == couples[k];
    }
    if MissingLines(couples) {
      var k :| 0 <= k < |couples| && couples[k].parents == [] && couples[k].children == [];
      assert couples[1..][k - 1] == couples[k];
    }
  }

  /** Couples `from` on of one generation, in the order of the generation's dictionary. */
  function DrawGeneration(g: Grid, generation: int, couples: seq<Couple>): (r: Result<Grid>)
    ensures MissingChannel(couples) ==> r.Failure?
    ensures r.Failure? && r.error == AssertionError ==> MissingChannel(couples)
    ensures r.Failure? && r.error == ValueError ==> MissingLines(couples)
    ensures r.Failure? ==> DrawingError(r.error)
    ensures r.Success? ==> Keeps(g, r.value)
    decreases |couples|
  {
    if couples == [] then Success(g)
    else
      var first := DrawCouple(g, generation, couples[0]);
      FailingExtend(couples);
      if first.Failure? then first.PropagateFailure()
      else
        FailingRest(couples);
        DrawGeneration(first.value, generation, couples[1..])
  }

  /** `ArrowsSurface.draw_connections` from generation `generation` on: the connections of each generation are
      drawn in order, with the generation's channels. A couple without an allocated channel fails the
      assertion, unless an earlier drawing failed first. */
  function DrawConnections(g: Grid, connections: seq<seq<Couple>>, generation: nat): (r: Result<Grid>)
    requires generation <= |connections|
    ensures (exists k :: generation <= k < |connections| && MissingChannel(connections[k])) ==> r.Failure?
    ensures r.Failure? && r.error == AssertionError ==> exists k :: generation <= k < |connections| && MissingChannel(connections[k])
    ensures r.Failure? && r.error == ValueError ==> exists k :: generation <= k < |connections| && MissingLines(connections[k])
    ensures r.Failure? ==> DrawingError(r.error)
    ensures r.Success? ==> Keeps(g, r.value)
    decreases |connections| - generation
  {
    if generation == |connections| then Success(g)
    else
      var g1 :- DrawGeneration(g, generation, connections[generation]);
      DrawConnections(g1, connections, generation + 1)
  }
}
