# genealogy, modelled in Dafny

`genealogy` draws a family tree as box-drawing text. People and their parent links are read in. A generation
is computed for every person. Each name goes on its own line, indented by generation. Children are then
connected to their parents through vertical "channels", and the picture is compressed vertically by deleting
clear horizontal paths. This project models that core with immutable values and pure functions, and proves
what each step promises.

The modules follow the program's files:

- `Glyphs` (glyphs.dfy): the `ARROWS` glyphs, the `ARROWS_ARITHMETIC` junction table and the `Relationship`
  enum of genealogy/utils.py.
- `Surface` (surface.dfy): the character grid of genealogy/surface.py. A cell is `Option<char>`, a line is a
  sequence of cells and a surface is a sequence of lines. It covers drawing, merging, padding, transposing,
  stripping and character removal.
- `Compress` (compress.dfy): `compress_vertically`. This is the backtracking clear-path search, the overlay of
  its marks, and their removal column by column. The renderer uses the compression as written, which deletes
  every `#` (see Findings). `Compress.CompressionsAgree` shows that it coincides with deleting only the marked
  positions whenever the surface has no `#` of its own.
- `Connections` (connections.dfy): `SurfacePosition` offsets, `CoupleConnection.min/max` and the connector
  drawing of `ArrowsSurface`.
- `Family` (family.dfy): `FamilyTree` of genealogy/family_tree.py.
  - People live in an arena and refer to each other by index.
  - It models the relationship wiring of `from_json` over an already decoded document, the two generation
    passes, the single pass of `_sort_topologically`, and the relationships part of `to_json`.
- `Names` (names.dfy): the `name` setter and getter of genealogy/person.py.
- `Renderer` (renderer.dfy): `FamilyTreeRenderer`. It covers name placement, connection generation, the greedy
  channel allocation and the steps of `render`.
- The first versions of the program at the repository root, modelled separately:
  - `LegacySurface` (legacy_surface.dfy): surface.py.
  - `LegacyOrder` (legacy_order.dfy): the depth-first order, the pull pass and `create_gens` shared by
    family_tree.py and genealogy.py.
  - `LegacyFamilyTree` (legacy_family_tree.dfy): `_create_people` and `draw`'s ordering in family_tree.py.
  - `LegacyGenealogy` (legacy_genealogy.dfy): the line parsing, the people loop and the two orders of the
    genealogy.py script.
- `Wrappers` (wrappers.dfy): `Option` and `Result`. Every Python exception the code can raise is a `Failure`
  that carries its kind (`DrawError`, `KeyError`, `IndexError`, `ValueError`, `TypeError`, `AssertionError`,
  or the bare `Exception` as `RelationError`).

Where the code and its own docstrings disagree, the model follows the code:

- `Surface.strip` says it removes empty lines "from the beginning and end". The code drops every line left
  empty, interior ones included (`Surface.Strip`, `Surface.StripConcat`).
- `from_json` calls `Person(id_, name)`, but the `Person` class of genealogy/person.py takes only an id and
  has list `parents`. The model gives a person its id, its name and an ordered parents dictionary, as
  genealogy/family_tree.py uses them.
- The names surface is drawn with one line between names: the k-th person goes on line 2k.
- The legacy pull pass moves a person who has no earlier child to the front of the order.

## Model

| member | source | states |
|---|---|---|
| Glyphs.RelationshipByName | genealogy/utils.py:6-10 | `Relationship[name]` succeeds exactly for the four member names F, M, AF, AM and is a `KeyError` otherwise |
| Glyphs.RelationshipNameRoundTrip | genealogy/utils.py:6-10 | looking up a member's name gives the member back, so the kind names written by `to_json` read back |
| Glyphs.Combine | genealogy/utils.py:34-49 | the junction table: defined exactly on the fourteen keys, a `KeyError` elsewhere |
| Glyphs.CombineOrderIndependent | genealogy/utils.py:35-46 | for start, end and middle, adding the left arm then the right gives the same two-armed junction as the other order |
| Glyphs.ConnectionAbsorbsArms | genealogy/utils.py:47-48 | a plain `═` combined with either arm stays `═` |
| Glyphs.CombineDomain | genealogy/utils.py:34-49 | no key starts with a two-armed junction, the tail, the head or `#`, so combining onto those is a `KeyError` |
| Glyphs.CombineClosed | genealogy/utils.py:13-49 | every junction the table yields is itself a one-character `ARROWS` glyph |
| Glyphs.ArrowsDistinct | genealogy/utils.py:13-32 | all `ARROWS` values are pairwise distinct; the removal marker `#` is no box glyph |
| Glyphs.ArrowWidths | genealogy/utils.py:14-16 | tail and head are two characters wide, every other glyph one |
| Surface.LineDraw | genealogy/surface.py:249-290 | `DrawError` exactly when the run starts at a negative index (after the `up_to` shift); otherwise cells before the run are kept and a gap is padded with blanks; the length is max(old, end of run); each run cell is overlaid, so `═` never covers a glyph; the flag is true iff some non-`═` character lands on an occupied cell |
| Surface.Draw | genealogy/surface.py:162-193 | `DrawError` on a negative line; otherwise the surface is extended with empty lines to reach the line, only that line is drawn on, and every other line is unchanged |
| Surface.DrawView | genealogy/surface.py:162-193 | cell by cell, a successful draw overlays the run on the cells it covers and leaves every other cell reading as before |
| Surface.LineDrawView | genealogy/surface.py:263-290 | the same cell-by-cell reading for one line |
| Surface.DrawOneCell | genealogy/surface.py:269-289 | drawing one non-`═` cell at a non-negative position sets exactly that cell |
| Surface.LineMerge | genealogy/surface.py:305-320 | `SurfaceLine +`: length is the max of both lengths; each cell is the left one unless it is blank, then the right one |
| Surface.GridMerge | genealogy/surface.py:198-202 | `Surface +`: as many lines as the longer surface, each the merge of the two lines, a missing line read as empty |
| Surface.LineMergeIdempotent | genealogy/surface.py:305-320 | x + x == x for lines |
| Surface.LineMergeAssociative | genealogy/surface.py:305-320 | merging lines is associative |
| Surface.GridMergeIdempotent | genealogy/surface.py:198-202 | x + x == x for surfaces |
| Surface.GridMergeLeftWins | genealogy/surface.py:198-202 | every glyph of the left surface survives the merge at its place |
| Surface.PadAsNeeded | genealogy/surface.py:82-86 | `ValueError` on an empty surface (`max` of nothing); otherwise every line has the maximum length, its old content as a prefix and blanks after it |
| Surface.Transpose | genealogy/surface.py:59-72 | `ValueError` on an empty surface; otherwise line i of the result is column i, read top to bottom with blanks for short lines, and the result is rectangular |
| Surface.TransposeInvolution | genealogy/surface.py:59-72 | transposing a non-degenerate rectangular surface twice gives it back |
| Surface.TransposeColumns | genealogy/surface.py:59-72 | for lines of different lengths, column c of the transpose is line c padded with blanks |
| Surface.TransposeCell | genealogy/surface.py:59-72 | transposing swaps the coordinates of every cell of a rectangular surface |
| Surface.Rstrip | genealogy/surface.py:292-295 | the result is a prefix of the line that is empty or ends in a glyph, and only blanks were removed |
| Surface.RstripIdempotent | genealogy/surface.py:292-295 | right-stripping twice is right-stripping once |
| Surface.Strip | genealogy/surface.py:88-95 | no line is longer than before, and no kept line is empty or ends in a blank |
| Surface.StripConcat | genealogy/surface.py:88-95 | stripping works line by line: kept lines keep their order and interior empty lines are dropped |
| Surface.StrippedLines | genealogy/surface.py:88-95 | a surface that stripping leaves unchanged has only non-empty lines ending in a glyph |
| Surface.StripIdempotent | genealogy/surface.py:88-95 | stripping twice is stripping once |
| Surface.RemoveFromLineConcat | genealogy/surface.py:97-103 | removal works cell by cell, so kept cells keep their order |
| Surface.RemoveFromLineCount | genealogy/surface.py:97-103 | `_remove_char(c)` leaves no `c`, and every other value keeps its count |
| Surface.RemoveChar | genealogy/surface.py:97-103 | every line of the surface loses its `c` cells and nothing else |
| Surface.AddLineText | genealogy/surface.py:183-185 | adding the empty line adds exactly one newline to the end of the text `as_str` gives |
| Surface.TextReadsBack | genealogy/surface.py:322-328 | a text drawn onto a line reads back as that text, and indented by n blanks it reads back after n spaces |
| Compress.VisitShrinks | genealogy/surface.py:118-120 | recording a position as visited shrinks the finite set left to visit, which is why the search ends |
| Compress.FindClearPath | genealogy/surface.py:105-160 | the search fails on a visited position or on a cell other than blank or `║`; a success reaches the last column; every new mark is on a clear cell that was not visited before; the path surface holds only marks; the visited set only grows |
| Compress.Explore | genealogy/surface.py:132-160 | the moves from a marked clear cell before the last column keep every promise of the search: marks only on clear cells not visited before, the visited set only grows |
| Compress.PathColumn | genealogy/surface.py:105-160 | a path found from an empty path surface marks every column exactly once |
| Compress.MarksApart | genealogy/surface.py:127-130 | a search marks only clear cells, so a mark never hides a `#` of the surface |
| Compress.CollectPaths | genealogy/surface.py:28-41 | the loop over the lines keeps the paths invariant (only marks, all visited, inside the width, each on a clear cell) and adds exactly one mark per column for each path found |
| Compress.ClearPaths | genealogy/surface.py:26-41 | `ValueError` on an empty surface; otherwise the paths found mark each column once per path, all on clear cells |
| Compress.OverlayClearPaths | genealogy/surface.py:26-43 | the paths laid over the padded surface: every cell is the original or a mark on a clear cell, and each column has one mark per path on top of its own `#` cells |
| Compress.CompressFromClearPaths | genealogy/surface.py:50-57 | transpose, delete `#`, transpose back: `ValueError` exactly when every line is empty; otherwise each column loses exactly its `#` cells, in order, and is topped up with blanks |
| Compress.CompressFromClearPathsEven | genealogy/surface.py:50-57 | with the same number of `#` in every column, the surface shrinks by exactly that many lines |
| Compress.CompressVertically | genealogy/surface.py:20-48 | as written: `ValueError` exactly on an empty surface; otherwise the result is stripped |
| Compress.CompressColumn | genealogy/surface.py:20-57 | as written, the solid cells (all but blanks and `║`) of each column afterwards are those of the original column with every `#` deleted |
| Compress.CompressKeepsGlyphs | genealogy/surface.py:20-57 | on a surface with no `#` of its own, compression keeps every name, arrow and channel end of every column, in order |
| Compress.CompressDropsSurfaceMarks | genealogy/surface.py:56 | a surface `#`, as in the one-line surface `A#`, is deleted along with the path marks |
| Compress.CompressVerticallyByMarks | genealogy/surface.py:20-57 | compression that deletes exactly the cells its paths mark: `ValueError` exactly on an empty surface, otherwise the result is stripped |
| Compress.CompressByMarksKeepsGlyphs | genealogy/surface.py:20-57 | deleting by position keeps every solid cell of every column, `#` cells of the surface included |
| Compress.CompressionsAgree | genealogy/surface.py:20-57 | on a surface with no `#` of its own, the compression as written and the one deleting by position give the same surface |
| Compress.CompressByMarksEven | genealogy/surface.py:50-57 | deleting by position still removes one cell per path from every column |
| Connections.FirstChannelShiftValue | genealogy/surface.py:448-451 | the first channel shift is 4 plus the tail's width, which is 6 |
| Connections.ConnectionsMeet | genealogy/surface.py:453-542 | a child's arrow and a parent's arrow meet channel c in one column on their own lines; the child's tail is two columns wide and ends where its arrow meets the first channel; a parent's arrow ends at the parent's own position |
| Connections.ChannelsApart | genealogy/surface.py:507-511 | distinct channels of one generation are at least two columns apart |
| Connections.Least | genealogy/surface.py:575-581 | `min`: `ValueError` on no lines, otherwise a member below or equal to every line |
| Connections.Greatest | genealogy/surface.py:583-589 | `max`: `ValueError` on no lines, otherwise a member above or equal to every line |
| Connections.CoupleSpan | genealogy/surface.py:575-597 | `min` and `max` fail together on a couple with no positions; otherwise min ≤ max and every parent and child line lies between them |
| Connections.Read | genealogy/surface.py:432-435 | `self[line][index]` with Python's negative indices, blank when out of range |
| Connections.GetConnectionArrow | genealogy/surface.py:421-440 | the arm itself over a blank, the table's junction over a glyph, a `KeyError` when the table has none |
| Connections.ChannelGlyphShape | genealogy/surface.py:367-377 | a one-line channel is `═`; a longer one is `╥` first, `╨` last and `║` between |
| Connections.DrawChannel | genealogy/surface.py:353-377 | `DrawError` when a line or the column is negative; otherwise each channel line gets its glyph overlaid in the channel column and nothing else changes |
| Connections.DrawKeeps | genealogy/surface.py:276-289 | drawing characters other than `#` never blanks a cell and never adds a `#` |
| Connections.DrawChildConnection | genealogy/surface.py:379-397 | fails only with `KeyError` or `DrawError`; a drawn arrow never blanks a glyph and never writes `#` |
| Connections.ChildConnectionDrawn | genealogy/surface.py:379-397 | drawn exactly when the channel cell takes the left arm and the tail is on the surface; it then runs from the tail to the channel column: tail first, `═` in between that never covers a glyph, the joined arm last, nothing else changed |
| Connections.DrawParentConnection | genealogy/surface.py:399-419 | fails only with `KeyError` or `DrawError`; drawn exactly when the channel cell takes the right arm and the line and start column are not negative; a drawn arrow is the joined arm, `═` that never covers a glyph, and the head's blank last; never blanks a glyph and never writes `#` |
| Connections.ParentArrowReachesName | genealogy/surface.py:411-419 | a parent at least three columns right of the channel gets an arrow ending just before the name |
| Connections.DrawCouple | genealogy/surface.py:339-351 | a missing channel is an `AssertionError` and a couple without positions a `ValueError`, and only then; other failures are drawing errors; a success keeps every glyph, writes no `#`, and leaves one in the channel column on every line from min to max |
| Connections.DrawConnections | genealogy/surface.py:334-351 | a couple without a channel makes the drawing fail; `AssertionError` only for such a couple and `ValueError` only for a couple without positions; every failure is a drawing error; a success keeps every glyph and writes no `#` |
| Family.Assign | genealogy/family_tree.py:27 | `parents[rel] = parent`: an existing kind keeps its place and takes the new parent, a new kind goes last; keys stay distinct |
| Family.Find | genealogy/family_tree.py:24-26 | `people_dict[id]`: the index holding the id (the only one when ids are distinct), a `KeyError` when absent |
| Family.ResolvePair | genealogy/family_tree.py:25-27 | succeeds exactly when the parent id is known and the kind names a `Relationship`, otherwise `KeyError` |
| Family.WireOne | genealogy/family_tree.py:27-28 | the child's kind is set to the parent and the child is appended to the parent's children; nothing else changes |
| Family.WireEntries | genealogy/family_tree.py:23-28 | the relationships loop: each entry's child looked up, then its pairs wired in order |
| Family.FromJson | genealogy/family_tree.py:13-30 | `KeyError` exactly when some child id, parent id or kind name is unknown; otherwise one well-formed person per people entry, ids and names kept |
| Family.SamePersonIsEntry | genealogy/person.py:38-39 | people are equal by id, and in a built family that is the same arena entry |
| Family.FromJsonParents | genealogy/family_tree.py:23-28 | each child with an entry has exactly its resolved pairs as parents, in order; everybody else has none |
| Family.FromJsonInverse | genealogy/family_tree.py:23-28 | c is among p's children exactly when p is among c's parents |
| Family.ForwardPass | genealogy/family_tree.py:62-64 | never lowers a generation and leaves people outside the order alone; each visited person ends one above every child as read then, equal to its old value or to one such child's plus one |
| Family.BackwardPass | genealogy/family_tree.py:66-72 | visiting last first, a person with parents ends exactly one below the least parent generation it reads; parentless people keep their value |
| Family.ComputeGenerations | genealogy/family_tree.py:59-72 | the forward pass then the backward pass: people outside the order keep their value; a parentless person never goes lower |
| Family.Accumulate | genealogy/family_tree.py:80-86 | the `for` loop hands each unvisited person to the traversal, then appends it; appended nodes are only extended, and every person ends visited or appended |
| Family.SortTopologically | genealogy/family_tree.py:74-88 | the `while` runs the `for` once; the new order is the appended nodes reversed; a non-empty people list gives a non-empty order |
| Family.ReverseInvolution | genealogy/family_tree.py:88 | reversing twice gives the list back |
| Family.WithParents | genealogy/family_tree.py:49-50 | exactly the people with a non-empty parents map, in order |
| Family.Written | genealogy/family_tree.py:45-48 | one entry per parent: the kind's name, which reads back as that kind, and the parent's id |
| Family.ToJsonRelationships | genealogy/family_tree.py:44-51 | one entry per person with parents, in order, each written as above |
| Family.FindListed | genealogy/family_tree.py:41-43 | every person of the family is found, by id, at their own place in the written people |
| Family.ToJsonRoundTrip | genealogy/family_tree.py:13-53 | writing the relationships and wiring them again gives every person the same parents, kind by kind and in order |
| Names.Split | genealogy/person.py:23 | `str.split()` yields only non-empty tokens without whitespace |
| Names.SplitJoin | genealogy/person.py:23-31 | splitting tokens joined by single spaces gives the tokens back |
| Names.Parse | genealogy/person.py:21-31 | `IndexError` exactly for no token, one token, or two tokens the last parenthesized; a parenthesized last token becomes the maiden name without parentheses and the token before it the last name; otherwise the last token is the last name and the maiden name is kept; first token first, the rest joined as the middle name |
| Names.Format | genealogy/person.py:12-19 | the getter starts with the first name; with no maiden name it ends with the last name, and with one it ends with " ne.e " and the maiden name |
| Names.FormatMaiden | genealogy/person.py:18-19 | a maiden name adds exactly " ne.e " and the maiden name to what the getter gives without it |
| Names.FormatPlain | genealogy/person.py:12-19 | with no maiden name: first, " middle" when present, then " last" |
| Names.FormatParse | genealogy/person.py:12-31 | two or more tokens, the last not parenthesized, no earlier maiden name: the name reads back as its tokens joined by single spaces |
| Names.ParseFormat | genealogy/person.py:12-31 | parts made of tokens, no parenthesized last name and no maiden name survive a write and a read |
| Names.MaidenNotReadBack | genealogy/person.py:12-31 | the getter's ` ne.e maiden` is not read back as a maiden name: "Ada King ne.e Byron" parses with last name "Byron" |
| Renderer.MembersOfListing | genealogy/family_tree_renderer.py:58-60 | a family tree listing everyone once gives the renderer distinct ids, and every parent id read is the id of the person listed for that parent |
| Renderer.ParentsAnchored | genealogy/family_tree_renderer.py:108-109 | in such a tree, `self._coords[parent.id]` never raises `KeyError`: each parent's coordinates are where that parent's name was drawn |
| Renderer.DrawNamesSurface | genealogy/family_tree_renderer.py:52-61 | `DrawError` exactly when some generation is negative; otherwise person k's name is on line 2k from column 16 times the generation, the lines between are empty, and each id is anchored at its last person's line and column |
| Renderer.PyIndexAt | genealogy/family_tree_renderer.py:111 | `connections[generation]` with Python's negative indices: an index from the end of the list for -n ≤ i < 0, the plain index for 0 ≤ i < n, nothing otherwise |
| Renderer.CoordsFor | genealogy/family_tree_renderer.py:109 | the parents' coordinates in order, a `KeyError` for the first missing id |
| Renderer.GenerateConnections | genealogy/family_tree_renderer.py:98-116 | one dictionary per distinct generation; fails exactly with the first failing lookup; parentless people are skipped; keys are the parent-id multisets met, distinct; every couple is unallocated, its children are the positions under its group's names, and its parents come from the group's first person |
| Renderer.GroupChildrenMembers | genealogy/family_tree_renderer.py:108-114 | a couple's children are exactly the positions one line under the names of the people of its group |
| Renderer.FreeMeans | genealogy/family_tree_renderer.py:86-91 | a channel whose recorded ranges all miss a span holds no couple overlapping it |
| Renderer.FirstFit | genealogy/family_tree_renderer.py:86-95 | the lowest channel whose ranges all miss the span, or the number of channels when none does |
| Renderer.AllocateGeneration | genealogy/family_tree_renderer.py:80-95 | `ValueError` exactly when an unallocated couple spans no line; otherwise couples keep parents and children; pre-allocated ones keep their channel and are not recorded; the rest get a channel below the number of couples; couples on one channel have disjoint spans; each channel is the first that fits |
| Renderer.AllocateChannels | genealogy/family_tree_renderer.py:69-96 | every generation allocated as above; fails exactly when some generation has a spanless couple |
| Renderer.GeneratedUnallocated | genealogy/family_tree_renderer.py:113-114 | every generated couple has a child and no channel |
| Renderer.AllocationSucceeds | genealogy/family_tree_renderer.py:80-95 | allocating generated couples never fails and gives every couple a channel |
| Renderer.DrawingAllocated | genealogy/surface.py:339-351 | drawing allocated couples never trips the channel assertion; only `KeyError` or `DrawError` remain |
| Renderer.Arrows | genealogy/family_tree_renderer.py:63-67 | the arrows surface fails only with `KeyError`, `IndexError` or `DrawError`, and is drawn from nothing without any `#` |
| Renderer.AddLineShaped | genealogy/family_tree_renderer.py:49 | a stripped surface with one empty line added has non-empty right-stripped lines followed by exactly one empty line |
| Renderer.Finish | genealogy/family_tree_renderer.py:47-50 | `compress_vertically` as written, then one empty line: fails only on an empty surface, with `ValueError`; otherwise the result is shaped as above |
| Renderer.FinishKeepsGlyphs | genealogy/family_tree_renderer.py:47-50 | on a non-empty surface without `#`, finishing succeeds and every column keeps its names, arrows and channel ends, in order |
| Renderer.RenderSurface | genealogy/family_tree_renderer.py:35-50 | names over arrows, compressed as written, one empty line added: a negative generation is a `DrawError`; every failure is one of `render`'s errors (`RenderError`: `KeyError`, `IndexError`, `DrawError`, or `ValueError` for nobody); a success is shaped |
| Renderer.RenderKeepsGlyphs | genealogy/family_tree_renderer.py:35-50 | when no name holds `#`: every name stands on the merged surface at line 2k from its generation's column, and every column of the rendered surface shows the merged column's names, arrows and channel ends, in order |
| Renderer.Render | genealogy/family_tree_renderer.py:35-50 | the text is empty, or ends with a newline |
| Renderer.RenderEmpty | genealogy/family_tree_renderer.py:35-50 | a tree with nobody fails with `ValueError` (`max` of nothing in `pad_as_needed`) |
| Renderer.ShapedText | genealogy/surface.py:240-243 | the text of a shaped surface is empty or ends with a newline |
| LegacySurface.LegacyCombine | surface.py:100-113 | `arrs_arithmetic`: the twelve keys, a `KeyError` elsewhere |
| LegacySurface.LegacyArithmeticShape | surface.py:100-113 | for start, end and middle, left then right equals right then left |
| LegacySurface.LegacyArithmeticNoConnection | surface.py:100-113 | no entry has `═` as its first glyph |
| LegacySurface.LegacyArithmeticIsLater | surface.py:100-113 | the first table is the later one without its two entries for `═` |
| LegacySurface.WriteRun | surface.py:51-63 | the flag is true iff some written position was occupied, even when the write is skipped; a write is skipped only for `═` with `no_overwrite` |
| LegacySurface.LegacyLineDraw | surface.py:38-63 | `DrawError` exactly when the run starts at a negative index after the `up_to` shift; otherwise padded with blanks, then written from the run's start, everything else unchanged |
| LegacySurface.LegacyDraw | surface.py:5-18 | `DrawError` on a negative line; otherwise extended to the line and only that line drawn on |
| LegacySurface.Drawn | surface.py:32-36 | `SurfLine.drawn(i, xs)` is i blanks followed by xs |
| LegacySurface.CollisionReported | surface.py:57-62 | drawing over an occupied cell reports the collision even when the write is then skipped |
| LegacySurface.LineAddIsMerge | surface.py:65-73 | `SurfLine +` is the left-priority cell-wise merge of `Surface.LineMerge` |
| LegacySurface.GridAdd | surface.py:20-24 | `Surface +`: a `TypeError` exactly when the left surface is the shorter; otherwise the line-wise addition |
| LegacySurface.GridAddIsMerge | surface.py:20-24 | where it succeeds, `Surface +` is `Surface.GridMerge` |
| LegacySurface.GridAddShorterFails | surface.py:20-24 | an empty surface plus a one-line surface raises `TypeError`, where merging gives the line back |
| LegacySurface.LegacyOffsets | surface.py:163-201 | channels start six columns right of a name and sit two apart; the tail starts four columns right and is two wide, so it reaches the first channel; a child's and a parent's arrow meet the channel in one column |
| LegacySurface.LegacyGlyphAgrees | surface.py:127-135 | the first version draws the same channel glyphs as genealogy/surface.py:367-377 exactly when the channel spans more than one line; a one-line channel is `╥` there instead of `═` |
| LegacySurface.LegacyDrawChannel | surface.py:127-135 | `DrawError` on a negative line or column; otherwise each line of the channel gets its glyph in the column, overwriting, and nothing else changes |
| LegacySurface.LegacyDrawnCell | surface.py:5-11 | drawing one character writes that cell and leaves every other cell as it was |
| LegacySurface.CoChar | surface.py:151-160 | the arm over a blank or out-of-range cell (negative indices counted from the end), the table's junction over a glyph, a `KeyError` when there is none |
| LegacyFamilyTree.Admit | family_tree.py:42-55 | the person already under the id, or a new one with the id's real name and empty lists, or a `KeyError` when the id has no real name |
| LegacyFamilyTree.AdmitBoth | family_tree.py:41-55 | `KeyError` exactly when the child or the parent has no real name; otherwise earlier people are kept at their places, the new ones are the triple's unseen ids, the child before the parent when both are new, and the two positions hold the child and the parent |
| LegacyFamilyTree.Wire | family_tree.py:57-60 | the parent and relation are appended to the child, the child to the parent, nothing else changes |
| LegacyFamilyTree.CreatePeople | family_tree.py:40-60 | `KeyError` exactly when some triple has an id without a real name or a relation that is no enum name; otherwise one person per mentioned id, with the parents, relations and children the triples give, in order; the keys stand in the order their ids are first met, reading each triple child then parent |
| LegacyFamilyTree.MentionOrderStep | family_tree.py:41-55 | appending a triple's unseen ids, the child before the parent, keeps the keys in the order of first mention |
| LegacyFamilyTree.BuiltCounts | family_tree.py:57-60 | parents and relations stay the same length, and a parent lists a child as often as the child lists that parent |
| LegacyFamilyTree.Arrange | family_tree.py:117-119 | `top_sort` then `create_gens`: everyone once, each generation the least one above each child placed before |
| LegacyOrder.Dfs | family_tree.py:62-70 | false and no change for a visited person; otherwise the person is marked visited and the searches only append |
| LegacyOrder.DfsAppends | family_tree.py:62-70 | a new search appends, once each, every person it visits except the one it started from |
| LegacyOrder.DfsCloses | family_tree.py:62-70 | after a new search everyone it visited has all their parents visited |
| LegacyOrder.DfsRanks | family_tree.py:62-70 | for any numbering that puts every parent below its child, everyone a search newly visits is numbered no higher than the person it started from |
| LegacyOrder.DfsParentsListed | family_tree.py:62-70 | with no loop in the ancestry, a search appends each person after all their parents that were not visited before it started |
| LegacyOrder.FirstUnvisited | family_tree.py:84-90 | the first person from a position on who is not yet visited, if any |
| LegacyOrder.TopSortFrom | family_tree.py:83-93 | the `while` loop: search from the first unvisited person and append them, until everyone is visited |
| LegacyOrder.TopSortDfsPermutes | family_tree.py:82-95 | the search phase lists every person exactly once |
| LegacyOrder.TopSortDfsOrdersParents | family_tree.py:62-95 | with no loop in the ancestry, the search phase lists every person after all of their parents |
| LegacyOrder.Move | family_tree.py:104 | `order.insert(t, order.pop(i))` moves one element and keeps the multiset |
| LegacyOrder.LastChildBefore | family_tree.py:97-102 | the nearest position before i holding a child of the person, if any |
| LegacyOrder.PullStep | family_tree.py:97-104 | a permutation in which the person at i stands right after their nearest earlier child, or at the front with none; the people it passes each move one place right, in order, and nobody outside the moved range moves |
| LegacyOrder.PulledTopSort | family_tree.py:82-104 | the reversed search order after the pull pass lists everyone exactly once |
| LegacyOrder.FirstIndex | family_tree.py:110-112 | the first position before i holding the child, if any |
| LegacyOrder.Raise | family_tree.py:108-115 | the largest of the start value and one more than each child's generation placed before |
| LegacyOrder.CreateGens | family_tree.py:106-115 | one generation per person: at least zero, above every child placed earlier, and the least such value; later children are not looked at |
| LegacyGenealogy.SplitOn | genealogy.py:28-29 | `str.split(c)`: the pieces, without `c`, that joined by `c` give the string back |
| LegacyGenealogy.SplitOnCount | genealogy.py:28-29 | one more piece than occurrences of `c` |
| LegacyGenealogy.SplitJoinOn | genealogy.py:28-29 | pieces without `c` joined by `c` split back into those pieces |
| LegacyGenealogy.StripShape | genealogy.py:25 | `str.strip()` cuts off only whitespace and leaves something that neither starts nor ends with whitespace |
| LegacyGenealogy.StripPadded | genealogy.py:30 | whitespace around a word is stripped off exactly |
| LegacyGenealogy.ParseLine | genealogy.py:24-30 | a stripped line starting with `#` gives nothing; any other line that reads gives a triple; failures are `ValueError` |
| LegacyGenealogy.ParseLineFails | genealogy.py:24-30 | a non-comment line fails exactly when it has other than one colon, or its key other than one comma |
| LegacyGenealogy.ParseLineFormat | genealogy.py:28-30 | "child,rel:parent" reads back as the three parts, stripped |
| LegacyGenealogy.ParseLines | genealogy.py:21-30 | `ValueError` exactly when some line is malformed; otherwise one triple per line that is not a comment, each what some line reads as |
| LegacyGenealogy.ParseLinesConcat | genealogy.py:24-30 | the lines are read in order: lines `a + b` give the triples of `a` followed by those of `b` |
| LegacyGenealogy.ParseLinesOne | genealogy.py:24-30 | one line gives its `ValueError`, nothing when it is a comment, or its one triple |
| LegacyGenealogy.GSamePersonIsEntry | genealogy.py:14-15 | people are equal by name, and names are the dictionary keys, so `in visited` compares positions |
| LegacyGenealogy.GAdmit | genealogy.py:36-41 | the person under the name, or a new one with that name and empty lists |
| LegacyGenealogy.GWire | genealogy.py:43-50 | F or f appends the parent to the fathers, M or m to the mothers, and the child goes to the parent's children |
| LegacyGenealogy.GAddTriple | genealogy.py:33-50 | fails exactly when the relation is neither F nor M in either case; otherwise the names become the old ones plus the triple's two |
| LegacyGenealogy.BuildPeople | genealogy.py:32-50 | the bare `Exception` exactly when some relation is wrong; otherwise one person per mentioned name, with the fathers, mothers and children the triples give, in order; the names stand in the order they are first met, child before parent |
| LegacyGenealogy.ParentGraph | genealogy.py:53-65 | `p_dfs` follows the mothers, then the fathers |
| LegacyGenealogy.Orders | genealogy.py:79-115 | the reversed parent search and the child search each list everyone once, with `create_gens` generations |
| LegacyGenealogy.OrdersParentsLater | genealogy.py:110-111 | with no loop in the ancestry, the reversed parent search lists everyone before all of their mothers and fathers |
| LegacyGenealogy.ReversedSearchOrders | genealogy.py:79-111 | reversing the search over a loop-free graph lists every node before all of its neighbours |
| LegacyGenealogy.OrdersChildrenEarlier | genealogy.py:114 | with no loop in the descent, the child search lists everyone after all of their children |
| LegacyGenealogy.Run | genealogy.py:21-115 | the script: `ValueError` for a malformed line, the bare `Exception` for a wrong relation, otherwise the people as the triples give them, in the order their names are first met |

## Left out

- JSON decoding and encoding with the `json` library (genealogy/family_tree.py:14, 53). Wiring and `to_json`
  work on already decoded dictionaries, given as ordered lists of pairs with distinct keys.
- `FamilyTree.__init__` sorts people with `sorted(people)`, but the `Person` class shown defines no
  ordering. The renderer takes the people's order and generations as parameters.
- `_relax` (genealogy/family_tree.py:90-113): a floating-point force relaxation. Also `random.seed(0)`.
- `traverse_children_depth_first` is not part of this model. `Family.SortTopologically` takes the traversal
  as a function parameter.
- `Family.ComputeGenerations`: stated per pass (`Family.ForwardPass`, `Family.BackwardPass`). There is no
  claim about the combined result beyond what each pass guarantees.
- genealogy/genealogy.py: command-line parsing and file reading and writing.
- The legacy files' I/O: `_read_data` with `random.shuffle` (family_tree.py:17-38), the module-level file
  reading of genealogy.py (18-21) and all printing (family_tree.py:117-121, genealogy.py:118-122). Parsing
  starts from the lines of the file; the shuffle is modelled by taking the triples in any order.
- `LegacyFamilyTree.Admit`: a person's name is stored as the real name given. Assigning it runs the `name`
  setter of a person.py at the repository root, which is not part of this model.
- `LegacyOrder`: family_tree.py compares people with `in` and `==` (lines 63, 86, 99, 111), which use the
  `__eq__` of that root person.py. That file is not part of this model. The model compares people by their
  place in the dictionary, which matches the code only if that `__eq__` is identity or compares ids.
- The `c_dfs` of family_tree.py, which `top_sort` never calls. genealogy.py's `c_dfs` is modelled as the same
  search over the children.
- The legacy `ArrowsSurface.draw_connections`, `_draw_child_co` and `_draw_parent_co` (surface.py:117-149).
  The later connector drawing is modelled in `Connections`.
- `DEBUG` and `replace_chars` (genealogy/surface.py:39-40, 74-80): visual debugging only.
- The tests: they compare against golden files that are not part of this model.
- `as_str` is modelled as text, with no encoding.
- `Surface.__getitem__` with slices, `__iadd__` and the `SurfacePosition` arithmetic operators are used only
  through the offsets above.
- `Renderer.RenderKeepsGlyphs`: promised only for names without `#`. A `#` in a name is deleted by the
  compression as written (see Findings).
- `LegacyOrder.DfsParentsListed`, `LegacyOrder.TopSortDfsOrdersParents`, `LegacyGenealogy.OrdersParentsLater`,
  `LegacyGenealogy.OrdersChildrenEarlier`: the order between parents and children
  is promised only for a family without loops, given as a numbering that puts every neighbour the search
  follows below the person it starts from. With a loop
  no such order exists and the searches promise only what `LegacyOrder.DfsAppends` and
  `LegacyOrder.DfsCloses` state.
- Mutation order: the `name` setter pops before it fails, so a failing assignment can leave a person half
  updated. The model returns an `IndexError` and no partial parts.

## Findings

| source | as written | input that shows it | evidently intended | confidence | as-written member | corrected member |
|---|---|---|---|---|---|---|
| genealogy/surface.py:56 | `_compress_from_clear_paths` deletes every `#` character after the paths are overlaid, including a `#` that belongs to the surface itself (a name containing `#`) | the one-line surface `A#`: compression leaves `A` | delete only the cells the paths marked; keep the surface's own characters (the renderer follows the code as written; `Compress.CompressionsAgree` shows both agree on surfaces without `#`) | not executed | Compress.CompressDropsSurfaceMarks | Compress.CompressByMarksKeepsGlyphs |
| surface.py:20-24 | `zip_longest(..., fillvalue=())` makes `() + line` when the left surface is the shorter, a tuple plus a list: `TypeError` | an empty surface plus a one-line surface | the shorter surface's missing lines read as empty lines, as in the later genealogy/surface.py:200 | not executed | LegacySurface.GridAddShorterFails | Surface.GridMerge |
