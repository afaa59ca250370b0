/** The relationship kinds and the box-drawing glyphs of genealogy/utils.py. */
module Glyphs {
  import opened Wrappers

  /** The four kinds of parent a person can have, keyed by their enum member name. */
  datatype Relationship = F | M | AF | AM

  /** The enum member name, as `Relationship.name` gives it. */
  function RelationshipName(r: Relationship): string {
    match r
    case F => "F"
    case M => "M"
    case AF => "AF"
    case AM => "AM"
  }

  /** The enum value. */
  function RelationshipValue(r: Relationship): string {
    match r
    case F => "father"
    case M => "mother"
    case AF => "adoptive father"
    case AM => "adoptive mother"
  }

  /** `Relationship[name]`: the member of that name, or a `KeyError`. */
  function RelationshipByName(name: string): (r: Result<Relationship>)
    ensures r.Failure? ==> r.error == KeyError
    ensures r.Success? ==> RelationshipName(r.value) == name
    ensures (exists k :: RelationshipName(k) == name) ==> r.Success?
  {
    if name == "F" then Success(F)
    else if name == "M" then Success(M)
    else if name == "AF" then Success(AF)
    else if name == "AM" then Success(AM)
    else Failure(KeyError)
  }

  lemma RelationshipNameRoundTrip(r: Relationship)
    ensures RelationshipByName(RelationshipName(r)) == Success(r)
  {
  }

  /** The box-drawing glyphs. `Tail` and `Head` are two-character strings, every other one is a single character. */
  const Tail: string := "╘═"
  const Head: string := "═ "
  const Connection: char := '═'
  const Right: char := '╞'
  const Left: char := '╡'
  const Middle: char := '║'
  const Start: char := '╥'
  const End: char := '╨'
  const LeftStart: char := '╗'
  const LeftEnd: char := '╝'
  const LeftMiddle: char := '╣'
  const RightStart: char := '╔'
  const RightEnd: char := '╚'
  const RightMiddle: char := '╠'
  const BothStart: char := '╦'
  const BothEnd: char := '╩'
  const BothMiddle: char := '╬'
  /** The marker the vertical compression writes on the cells it removes. */
  const ToRemove: char := '#'

  /** The `ARROWS` dictionary. */
  const Arrows: map<string, string> := map[
    "tail" := Tail,
    "head" := Head,
    "connection" := [Connection],
    "right" := [Right],
    "left" := [Left],
    "middle" := [Middle],
    "start" := [Start],
    "end" := [End],
    "left_start" := [LeftStart],
    "left_end" := [LeftEnd],
    "left_middle" := [LeftMiddle],
    "right_start" := [RightStart],
    "right_end" := [RightEnd],
    "right_middle" := [RightMiddle],
    "both_start" := [BothStart],
    "both_end" := [BothEnd],
    "both_middle" := [BothMiddle],
    "to_remove" := [ToRemove]
  ]

  /** The `ARROWS_ARITHMETIC` dictionary: (glyph already in the cell, arm being added) to junction glyph. */
  const ArrowsArithmetic: map<(char, char), char> := map[
    (Start, Left) := LeftStart,
    (Start, Right) := RightStart,
    (End, Left) := LeftEnd,
    (End, Right) := RightEnd,
    (Middle, Left) := LeftMiddle,
    (Middle, Right) := RightMiddle,
    (RightStart, Left) := BothStart,
    (RightEnd, Left) := BothEnd,
    (RightMiddle, Left) := BothMiddle,
    (LeftStart, Right) := BothStart,
    (LeftEnd, Right) := BothEnd,
    (LeftMiddle, Right) := BothMiddle,
    (Connection, Right) := Connection,
    (Connection, Left) := Connection
  ]

  /** `ARROWS_ARITHMETIC[(prev, arm)]`, a `KeyError` when the pair is not in the table. */
  function Combine(prev: char, arm: char): (r: Result<char>)
    ensures r.Success? <==> (prev, arm) in ArrowsArithmetic
    ensures r.Failure? ==> r.error == KeyError
  {
    if (prev, arm) in ArrowsArithmetic then Success(ArrowsArithmetic[(prev, arm)]) else Failure(KeyError)
  }

  /** The three plain channel glyphs. */
  predicate IsChannelGlyph(c: char) {
    c == Start || c == End || c == Middle
  }

  /** The junction carrying both arms that a channel glyph turns into. */
  function BothOf(c: char): char
    requires IsChannelGlyph(c)
  {
    if c == Start then BothStart else if c == End then BothEnd else BothMiddle
  }

  /** Adding the left arm then the right arm, or the other way round, gives the same two-armed junction. */
  lemma CombineOrderIndependent(c: char)
    requires IsChannelGlyph(c)
    ensures Combine(c, Left).Success? && Combine(c, Right).Success?
    ensures Combine(Combine(c, Left).value, Right) == Success(BothOf(c))
    ensures Combine(Combine(c, Right).value, Left) == Success(BothOf(c))
  {
  }

  /** A plain horizontal connection absorbs an arm drawn over it. */
  lemma ConnectionAbsorbsArms(arm: char)
    requires arm == Left || arm == Right
    ensures Combine(Connection, arm) == Success(Connection)
  {
  }

  /** Every key adds a left or right arm to a channel, single-arm or connection glyph: nothing combines onto a
      two-armed junction, the tail corner, the blank of the head or the removal marker. */
  lemma CombineDomain(prev: char, arm: char)
    requires (prev, arm) in ArrowsArithmetic
    ensures arm == Left || arm == Right
    ensures prev in {Start, End, Middle, LeftStart, LeftEnd, LeftMiddle, RightStart, RightEnd, RightMiddle, Connection}
    ensures prev !in {BothStart, BothEnd, BothMiddle, ToRemove, Tail[0], Head[1]}
  {
  }

  /** The table is closed over the glyph set: every result is itself a single-character entry of `Arrows`. */
  lemma CombineClosed(prev: char, arm: char)
    requires (prev, arm) in ArrowsArithmetic
    ensures exists k :: k in Arrows && Arrows[k] == [ArrowsArithmetic[(prev, arm)]]
  {
    var r := ArrowsArithmetic[(prev, arm)];
    if r == LeftStart { assert Arrows["left_start"] == [r]; }
    else if r == RightStart { assert Arrows["right_start"] == [r]; }
    else if r == LeftEnd { assert Arrows["left_end"] == [r]; }
    else if r == RightEnd { assert Arrows["right_end"] == [r]; }
    else if r == LeftMiddle { assert Arrows["left_middle"] == [r]; }
    else if r == RightMiddle { assert Arrows["right_middle"] == [r]; }
    else if r == BothStart { assert Arrows["both_start"] == [r]; }
    else if r == BothEnd { assert Arrows["both_end"] == [r]; }
    else if r == BothMiddle { assert Arrows["both_middle"] == [r]; }
    else { assert r == Connection; assert Arrows["connection"] == [r]; }
  }

  /** No junction of the table is the removal marker. */
  lemma CombineNeverMarks(prev: char, arm: char)
    requires (prev, arm) in ArrowsArithmetic
    ensures ArrowsArithmetic[(prev, arm)] != ToRemove
  {
  }

  /** All `Arrows` values are pairwise distinct; in particular the removal marker is no box glyph. */
  lemma ArrowsDistinct(k1: string, k2: string)
    requires k1 in Arrows && k2 in Arrows && k1 != k2
    ensures Arrows[k1] != Arrows[k2]
  {
  }

  /** `tail` and `head` are two characters wide and every other glyph one. */
  lemma ArrowWidths(k: string)
    requires k in Arrows
    ensures |Arrows[k]| == (if k == "tail" || k == "head" then 2 else 1)
  {
  }
}
