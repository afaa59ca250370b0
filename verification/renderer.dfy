/** `FamilyTreeRenderer` of genealogy/family_tree_renderer.py: names placed by line and generation, children
    bundled by their parents into couples, channels allocated to couples, and the whole rendered as text. */
module Renderer {
  import opened Wrappers
  import opened Glyphs
  import opened Surface
  import opened Connections
  import Compress
  import Family

  /** What the renderer reads of a person: id, display name, generation and the ids of its parents in the
      order of its parents dictionary. */
  datatype Member = Member(id: string, name: string, generation: int, parents: seq<string>)

  /** The people of a family tree in the tree's order, as the renderer sees them. */
  function Members(a: seq<Family.Person>, order: seq<nat>, gens: seq<int>): (r: seq<Member>)
    requires Family.WellFormed(a) && Family.Within(order, |a|) && |gens| == |a|
    ensures |r| == |order|
    ensures forall k :: 0 <= k < |order| ==>
      && r[k].id == a[order[k]].id && r[k].name == a[order[k]].name && r[k].generation == gens[order[k]]
      && |r[k].parents| == |a[order[k]].parents|
      && forall j :: 0 <= j < |r[k].parents| ==> r[k].parents[j] == a[a[order[k]].parents[j].1].id
  {
    seq(|order|, k requires 0 <= k < |order| =>
      var p := a[order[k]];
      Member(p.id, p.name, gens[order[k]], seq(|p.parents|, j requires 0 <= j < |p.parents| => a[p.parents[j].1].id)))
  }

  /** A family tree listing everyone once hands the renderer members with distinct ids, and each parent id of a
      member is the id of the member listed for that parent. */
  lemma MembersOfListing(a: seq<Family.Person>, order: seq<nat>, gens: seq<int>)
    requires Family.WellFormed(a) && Family.Listing(a, order) && |gens| == |a|
    ensures var ms := Members(a, order, gens);
      forall k, m :: 0 <= k < m < |ms| ==> ms[k].id != ms[m].id
    ensures var ms := Members(a, order, gens);
      forall k, j :: 0 <= k < |ms| && 0 <= j < |ms[k].parents| ==>
        exists m :: 0 <= m < |ms| && order[m] == a[order[k]].parents[j].1 && ms[m].id == ms[k].parents[j]
  {
    var ms := Members(a, order, gens);
    forall k, j | 0 <= k < |ms| && 0 <= j < |ms[k].parents|
      ensures exists m :: 0 <= m < |ms| && order[m] == a[order[k]].parents[j].1 && ms[m].id == ms[k].parents[j]
    {
      var x := a[order[k]].parents[j].1;
      assert x in order;
      var m :| 0 <= m < |order| && order[m] == x;
      assert ms[m].id == a[x].id;
    }
  }

  /** In a family tree listing everyone once, looking up the parents' coordinates never raises `KeyError`: each
      parent's coordinates are where that parent's name is drawn. */
  lemma ParentsAnchored(a: seq<Family.Person>, order: seq<nat>, gens: seq<int>)
    requires Family.WellFormed(a) && Family.Listing(a, order) && |gens| == |a|
    requires DrawNamesSurface(Members(a, order, gens)).Success?
    ensures var ms := Members(a, order, gens); var coords := DrawNamesSurface(ms).value.1;
      forall k :: 0 <= k < |ms| ==> CoordsFor(coords, ms[k].parents).Success?
    ensures var ms := Members(a, order, gens); var coords := DrawNamesSurface(ms).value.1;
      forall k, j :: 0 <= k < |ms| && 0 <= j < |ms[k].parents| ==>
        exists m :: 0 <= m < |ms| && order[m] == a[order[k]].parents[j].1
          && coords[ms[k].parents[j]] == Pos(2 * m, gens[order[m]] * GenerationShift)
  {
    var ms := Members(a, order, gens);
    var coords := DrawNamesSurface(ms).value.1;
    MembersOfListing(a, order, gens);
    forall k, j | 0 <= k < |ms| && 0 <= j < |ms[k].parents|
      ensures ms[k].parents[j] in coords
      ensures exists m :: (0 <= m < |ms| && order[m] == a[order[k]].parents[j].1
        && coords[ms[k].parents[j]] == Pos(2 * m, gens[order[m]] * GenerationShift))
    {
      var m :| 0 <= m < |ms| && order[m] == a[order[k]].parents[j].1 && ms[m].id == ms[k].parents[j];
      assert LastWith(ms, m, |ms|);
      assert coords[ms[m].id] == Pos(2 * m, ms[m].generation * GenerationShift);
    }
  }

  // ---------------------------------------------------------------------------------------------
  // _draw_names_surface

  /** The line a name is drawn on: blank up to the generation's column, then the name. */
  function NameLine(m: Member): (r: Line)
    requires m.generation >= 0
    ensures |r| == m.generation * GenerationShift + |m.name|
  {
    Nones(m.generation * GenerationShift) + Text(m.name)
  }

  /** The names of `ms[..i]` are drawn: the k-th on line 2k, the lines between them empty. */
  ghost predicate NamesDrawn(ms: seq<Member>, i: nat, g: Grid)
    requires i <= |ms|
  {
    && |g| == (if i == 0 then 0 else 2 * i - 1)
    && (forall k :: 0 <= k < i ==> ms[k].generation >= 0 && g[2 * k] == NameLine(ms[k]))
    && (forall k :: 0 <= k < i - 1 ==> g[2 * k + 1] == [])
  }

  /** No person after the k-th and before the i-th has the k-th's id. */
  predicate LastWith(ms: seq<Member>, k: nat, i: nat)
    requires k < i <= |ms|
  {
    forall j :: k < j < i ==> ms[j].id != ms[k].id
  }

  /** The coordinates recorded for `ms[..i]`: one per id, the anchor of the last person with it. */
  ghost predicate CoordsOf(ms: seq<Member>, i: nat, coords: map<string, Pos>)
    requires i <= |ms|
  {
    && coords.Keys == (set k | 0 <= k < i :: ms[k].id)
    && forall k :: 0 <= k < i && LastWith(ms, k, i) ==> coords[ms[k].id] == FromGeneration(2 * k, ms[k].generation)
  }

  /** The loop of `_draw_names_surface` from the i-th person on. */
  function DrawNamesFrom(ms: seq<Member>, i: nat, g: Grid, coords: map<string, Pos>): (r: Result<(Grid, map<string, Pos>)>)
    requires i <= |ms| && NamesDrawn(ms, i, g) && CoordsOf(ms, i, coords)
    ensures r.Failure? <==> exists k :: i <= k < |ms| && ms[k].generation < 0
    ensures r.Failure? ==> r.error == DrawError
    ensures r.Success? ==> NamesDrawn(ms, |ms|, r.value.0) && CoordsOf(ms, |ms|, r.value.1)
    decreases |ms| - i
  {
    if i == |ms| then Success((g, coords))
    else
      var m := ms[i];
      var pos := FromGeneration(2 * i, m.generation);
      if m.generation < 0 then
        assert Draw(g, pos, Text(m.name), false).Failure?;
        Failure(DrawError)
      else
        var drawn := Draw(g, pos, Text(m.name), false).value.0;
        NameDrawn(ms, i, g, drawn);
        NameRecorded(ms, i, coords);
        DrawNamesFrom(ms, i + 1, drawn, coords[m.id := pos])
  }

  lemma NameDrawn(ms: seq<Member>, i: nat, g: Grid, drawn: Grid)
    requires i < |ms| && NamesDrawn(ms, i, g) && ms[i].generation >= 0
    requires Draw(g, FromGeneration(2 * i, ms[i].generation), Text(ms[i].name), false).Success?
    requires drawn == Draw(g, FromGeneration(2 * i, ms[i].generation), Text(ms[i].name), false).value.0
    ensures NamesDrawn(ms, i + 1, drawn)
  {
    var m := ms[i];
    var at := m.generation * GenerationShift;
    assert LineAt(g, 2 * i) == [];
    var d := LineDraw([], at, Text(m.name), false).value.0;
    assert d == NameLine(m) by {
      assert |d| == |NameLine(m)|;
      forall k | 0 <= k < |d| ensures d[k] == NameLine(m)[k] {
        if k >= at {
          assert d[k] == Overlay(None, Text(m.name)[k - at]);
        }
      }
    }
    forall k | 0 <= k < i
      ensures drawn[2 * k] == NameLine(ms[k])
    {
      assert drawn[2 * k] == LineAt(g, 2 * k);
    }
    forall k | 0 <= k < i
      ensures drawn[2 * k + 1] == []
    {
      assert drawn[2 * k + 1] == LineAt(g, 2 * k + 1);
    }
  }

  lemma NameRecorded(ms: seq<Member>, i: nat, coords: map<string, Pos>)
    requires i < |ms| && CoordsOf(ms, i, coords)
    ensures CoordsOf(ms, i + 1, coords[ms[i].id := FromGeneration(2 * i, ms[i].generation)])
  {
    var c := coords[ms[i].id := FromGeneration(2 * i, ms[i].generation)];
    IdsExtend(ms, i);
    assert coords.Keys == (set k | 0 <= k < i :: ms[k].id);
    assert c.Keys == coords.Keys + {ms[i].id};
    forall k | 0 <= k < i + 1 && LastWith(ms, k, i + 1)
      ensures c[ms[k].id] == FromGeneration(2 * k, ms[k].generation)
    {
      if k < i {
        AnchorKept(ms, i, coords, k);
      }
    }
  }

  /** The ids of the first i + 1 people are those of the first i and the i-th's. */
  lemma IdsExtend(ms: seq<Member>, i: nat)
    requires i < |ms|
    ensures (set k | 0 <= k < i + 1 :: ms[k].id) == (set k | 0 <= k < i :: ms[k].id) + {ms[i].id}
  {
  }

  /** An earlier person who is the last with their id before the i-th and still after it keeps their
      anchor. */
  lemma AnchorKept(ms: seq<Member>, i: nat, coords: map<string, Pos>, k: nat)
    requires k < i < |ms| && CoordsOf(ms, i, coords) && LastWith(ms, k, i + 1)
    ensures ms[i].id != ms[k].id && coords[ms[k].id] == FromGeneration(2 * k, ms[k].generation)
  {
    assert ms[i].id != ms[k].id;
    assert LastWith(ms, k, i);
  }

  /** `_draw_names_surface`: the k-th person's name is drawn on line 2k from column 16·generation, the lines
      between names stay empty, and each id is anchored where its last person's name starts. A person of
      negative generation would start left of the surface: `DrawError`. */
  function DrawNamesSurface(ms: seq<Member>): (r: Result<(Grid, map<string, Pos>)>)
    ensures r.Failure? <==> exists k :: 0 <= k < |ms| && ms[k].generation < 0
    ensures r.Failure? ==> r.error == DrawError
    ensures r.Success? ==>
      var (g, coords) := r.value;
      && |g| == (if ms == [] then 0 else 2 * |ms| - 1)
      && (forall k :: 0 <= k < |ms| ==> g[2 * k] == Nones(ms[k].generation * GenerationShift) + Text(ms[k].name))
      && (forall k :: 0 <= k < |ms| - 1 ==> g[2 * k + 1] == [])
      && coords.Keys == (set k | 0 <= k < |ms| :: ms[k].id)
      && (forall k :: 0 <= k < |ms| && LastWith(ms, k, |ms|) ==> coords[ms[k].id] == Pos(2 * k, ms[k].generation * GenerationShift))
  {
    DrawNamesFrom(ms, 0, [], map[])
  }

  // ---------------------------------------------------------------------------------------------
  // _generate_connections

  /** One generation's dictionary of connections, keyed by the couple's parent ids (`tuple(sorted(ids))`
      determines and is determined by the multiset of the ids), in insertion order. */
  type Bucket = seq<(multiset<string>, Couple)>

  /** The distinct generations of the people. */
  function Generations(ms: seq<Member>): set<int> {
    set k | 0 <= k < |ms| :: ms[k].generation
  }

  /** `connections[i]` on a list of `n`: the position Python reads, negative indices counting from the end. */
  function PyIndex(i: int, n: nat): (r: Option<nat>)
    ensures r.Some? <==> -(n as int) <= i < n
    ensures r.Some? ==> r.value < n && (if i >= 0 then r.value == i else r.value == i + n)
  {
    if 0 <= i < n then Some(i) else if -(n as int) <= i < 0 then Some(i + n) else None
  }

  /** Python's index `i` into a list agrees with reading the list at `PyIndex`. */
  lemma PyIndexAt<T>(s: seq<T>, i: int)
    ensures PyAt(s, i) == if PyIndex(i, |s|).Some? then Some(s[PyIndex(i, |s|).value]) else None
  {
  }

  /** `[self._coords[id] for id in ids]`. */
  function CoordsFor(coords: map<string, Pos>, ids: seq<string>): (r: Result<seq<Pos>>)
    ensures r.Success? <==> forall j :: 0 <= j < |ids| ==> ids[j] in coords
    ensures r.Failure? ==> r.error == KeyError
    ensures r.Success? ==> |r.value| == |ids| && forall j :: 0 <= j < |ids| ==> r.value[j] == coords[ids[j]]
  {
    if ids == [] then Success([])
    else if ids[0] !in coords then Failure(KeyError)
    else
      var rest := CoordsFor(coords, ids[1..]);
      assert forall j :: 1 <= j < |ids| ==> ids[j] == ids[1..][j - 1];
      if rest.Failure? then rest else Success([coords[ids[0]]] + rest.value)
  }

  /** The error the loop body raises on a person, if any: the child's coordinates are read first, then the
      parents', then the generation's dictionary. People without parents are skipped. */
  function Trouble(m: Member, coords: map<string, Pos>, n: nat): Option<Error> {
    if m.parents == [] then None
    else if m.id !in coords then Some(KeyError)
    else if CoordsFor(coords, m.parents).Failure? then Some(KeyError)
    else if PyIndex(m.generation, n).None? then Some(IndexError)
    else None
  }

  /** Person `m` belongs to the couple keyed `key` of dictionary `b`. */
  predicate InGroup(m: Member, n: nat, b: nat, key: multiset<string>) {
    m.parents != [] && PyIndex(m.generation, n) == Some(b) && multiset(m.parents) == key
  }

  /** The position under a person's name. */
  function Below(coords: map<string, Pos>, id: string): Pos
    requires id in coords
  {
    Pos(coords[id].line + 1, coords[id].index)
  }

  /** The children of a couple: the positions under the names of the people in its group, in order. */
  function GroupChildren(ms: seq<Member>, coords: map<string, Pos>, n: nat, b: nat, key: multiset<string>): (r: seq<Pos>)
    requires forall k :: 0 <= k < |ms| ==> Trouble(ms[k], coords, n).None?
    decreases |ms|
  {
    if ms == [] then []
    else
      var init := ms[..|ms| - 1];
      var m := ms[|ms| - 1];
      assert forall k :: 0 <= k < |init| ==> init[k] == ms[k];
      assert Trouble(m, coords, n).None?;
      GroupChildren(init, coords, n, b, key) + (if InGroup(m, n, b, key) then [Below(coords, m.id)] else [])
  }

  /** The keys of a dictionary. */
  function Keys(d: Bucket): (r: seq<multiset<string>>)
    ensures |r| == |d| && forall j :: 0 <= j < |d| ==> r[j] == d[j].0
  {
    seq(|d|, j requires 0 <= j < |d| => d[j].0)
  }

  /** The position of `key` among the keys, if present. */
  function KeyIndex(d: Bucket, key: multiset<string>): (r: Option<nat>)
    ensures r.Some? <==> key in Keys(d)
    ensures r.Some? ==> r.value < |d| && d[r.value].0 == key
  {
    if d == [] then None
    else if d[0].0 == key then Some(0)
    else
      var rest := KeyIndex(d[1..], key);
      assert Keys(d) == [d[0].0] + Keys(d[1..]);
      if rest.None? then None else Some(rest.value + 1)
  }

  /** `generation_connections.setdefault(key, CoupleConnection(parents)).child_coords.append(child)`. */
  function AddChild(d: Bucket, key: multiset<string>, parents: seq<Pos>, child: Pos): (r: Bucket)
  {
    match KeyIndex(d, key)
    case Some(j) => d[j := (key, d[j].1.(children := d[j].1.children + [child]))]
    case None => d + [(key, Couple(parents, [child], None))]
  }

  /** No person of `ms[..i]` stops the loop. */
  predicate Clear(ms: seq<Member>, i: nat, coords: map<string, Pos>, n: nat)
    requires i <= |ms|
  {
    forall k :: 0 <= k < i ==> Trouble(ms[k], coords, n).None?
  }

  /** The k-th person is the first of the group. */
  predicate FirstInGroup(ms: seq<Member>, k: nat, n: nat, b: nat, key: multiset<string>)
    requires k < |ms|
  {
    InGroup(ms[k], n, b, key) && forall l :: 0 <= l < k ==> !InGroup(ms[l], n, b, key)
  }

  /** A couple of the dictionary after `ms[..i]`: unallocated, with the children of its group and the parents
      of the group's first person. */
  ghost predicate CoupleOf(ms: seq<Member>, i: nat, coords: map<string, Pos>, n: nat, b: nat, key: multiset<string>, c: Couple)
    requires i <= |ms| && Clear(ms, i, coords, n)
  {
    && c.channel.None?
    && c.children == GroupChildren(ms[..i], coords, n, b, key)
    && exists k :: 0 <= k < i && FirstInGroup(ms, k, n, b, key) && c.parents == CoordsFor(coords, ms[k].parents).value
  }

  /** Dictionary `b` after `ms[..i]`: distinct keys, exactly the keys of the groups met so far. */
  ghost predicate BucketOf(ms: seq<Member>, i: nat, coords: map<string, Pos>, n: nat, b: nat, d: Bucket)
    requires i <= |ms| && Clear(ms, i, coords, n)
  {
    && (forall x, y :: 0 <= x < y < |d| ==> d[x].0 != d[y].0)
    && (forall key :: key in Keys(d) <==> exists k :: 0 <= k < i && InGroup(ms[k], n, b, key))
    && forall j :: 0 <= j < |d| ==> CoupleOf(ms, i, coords, n, b, d[j].0, d[j].1)
  }

  /** All dictionaries after `ms[..i]`. */
  ghost predicate Grouped(ms: seq<Member>, i: nat, coords: map<string, Pos>, conns: seq<Bucket>)
    requires i <= |ms| && Clear(ms, i, coords, |conns|)
  {
    forall b :: 0 <= b < |conns| ==> BucketOf(ms, i, coords, |conns|, b, conns[b])
  }

  lemma GroupChildrenNext(ms: seq<Member>, i: nat, coords: map<string, Pos>, n: nat, b: nat, key: multiset<string>)
    requires i < |ms| && Clear(ms, i + 1, coords, n)
    ensures GroupChildren(ms[..i + 1], coords, n, b, key)
      == GroupChildren(ms[..i], coords, n, b, key) + (if InGroup(ms[i], n, b, key) then [Below(coords, ms[i].id)] else [])
  {
    assert ms[..i + 1][..i] == ms[..i];
  }

  lemma {:induction false} GroupChildrenNone(ms: seq<Member>, coords: map<string, Pos>, n: nat, b: nat, key: multiset<string>)
    requires Clear(ms, |ms|, coords, n)
    requires forall k :: 0 <= k < |ms| ==> !InGroup(ms[k], n, b, key)
    ensures GroupChildren(ms, coords, n, b, key) == []
    decreases |ms|
  {
    if ms != [] {
      var init := ms[..|ms| - 1];
      assert forall k :: 0 <= k < |init| ==> init[k] == ms[k];
      GroupChildrenNone(init, coords, n, b, key);
    }
  }

  /** A person outside dictionary `b` leaves it as it is. */
  lemma BucketPassed(ms: seq<Member>, i: nat, coords: map<string, Pos>, n: nat, b: nat, d: Bucket)
    requires i < |ms| && Clear(ms, i + 1, coords, n) && BucketOf(ms, i, coords, n, b, d)
    requires ms[i].parents == [] || PyIndex(ms[i].generation, n) != Some(b)
    ensures BucketOf(ms, i + 1, coords, n, b, d)
  {
    forall j | 0 <= j < |d| ensures CoupleOf(ms, i + 1, coords, n, b, d[j].0, d[j].1) {
      GroupChildrenNext(ms, i, coords, n, b, d[j].0);
      assert CoupleOf(ms, i, coords, n, b, d[j].0, d[j].1);
      var k :| 0 <= k < i && FirstInGroup(ms, k, n, b, d[j].0) && d[j].1.parents == CoordsFor(coords, ms[k].parents).value;
    }
    forall key ensures key in Keys(d) <==> exists k :: 0 <= k < i + 1 && InGroup(ms[k], n, b, key) {
      if exists k :: 0 <= k < i + 1 && InGroup(ms[k], n, b, key) {
        var k :| 0 <= k < i + 1 && InGroup(ms[k], n, b, key);
        assert k < i;
      }
    }
  }

  /** A person joining an existing couple of dictionary `b`. */
  lemma BucketJoined(ms: seq<Member>, i: nat, coords: map<string, Pos>, n: nat, b: nat, d: Bucket, j: nat)
    requires i < |ms| && Clear(ms, i + 1, coords, n) && BucketOf(ms, i, coords, n, b, d)
    requires InGroup(ms[i], n, b, multiset(ms[i].parents)) && j < |d| && d[j].0 == multiset(ms[i].parents)
    ensures BucketOf(ms, i + 1, coords, n, b, d[j := (d[j].0, d[j].1.(children := d[j].1.children + [Below(coords, ms[i].id)]))])
  {
    var key := d[j].0;
    var e := d[j := (key, d[j].1.(children := d[j].1.children + [Below(coords, ms[i].id)]))];
    assert Keys(e) == Keys(d);
    forall x | 0 <= x < |e| ensures CoupleOf(ms, i + 1, coords, n, b, e[x].0, e[x].1) {
      GroupChildrenNext(ms, i, coords, n, b, e[x].0);
      assert CoupleOf(ms, i, coords, n, b, d[x].0, d[x].1);
      var k :| 0 <= k < i && FirstInGroup(ms, k, n, b, d[x].0) && d[x].1.parents == CoordsFor(coords, ms[k].parents).value;
      if x != j {
        assert d[x].0 != key;
      }
    }
    forall key' ensures key' in Keys(e) <==> exists k :: 0 <= k < i + 1 && InGroup(ms[k], n, b, key') {
      if exists k :: 0 <= k < i + 1 && InGroup(ms[k], n, b, key') {
        var k :| 0 <= k < i + 1 && InGroup(ms[k], n, b, key');
        if k == i {
          assert key' == key;
          assert Keys(e)[j] == key;
        }
      }
    }
  }

  /** A person opening a new couple in dictionary `b`. */
  lemma BucketOpened(ms: seq<Member>, i: nat, coords: map<string, Pos>, n: nat, b: nat, d: Bucket)
    requires i < |ms| && Clear(ms, i + 1, coords, n) && BucketOf(ms, i, coords, n, b, d)
    requires InGroup(ms[i], n, b, multiset(ms[i].parents)) && multiset(ms[i].parents) !in Keys(d)
    ensures BucketOf(ms, i + 1, coords, n, b, d + [(multiset(ms[i].parents), Couple(CoordsFor(coords, ms[i].parents).value, [Below(coords, ms[i].id)], None))])
  {
    var key := multiset(ms[i].parents);
    var c := Couple(CoordsFor(coords, ms[i].parents).value, [Below(coords, ms[i].id)], None);
    var e := d + [(key, c)];
    assert Keys(e) == Keys(d) + [key];
    assert forall l :: 0 <= l < i ==> !InGroup(ms[l], n, b, key);
    forall x | 0 <= x < |e| ensures CoupleOf(ms, i + 1, coords, n, b, e[x].0, e[x].1) {
      if x < |d| {
        assert CoupleOf(ms, i, coords, n, b, d[x].0, d[x].1);
        CoupleKept(ms, i, coords, n, b, d[x].0, d[x].1);
      } else {
        OpenedCouple(ms, i, coords, n, b);
      }
    }
    forall x, y | 0 <= x < y < |e| ensures e[x].0 != e[y].0 {
      if y == |d| {
        assert Keys(d)[x] == e[x].0;
      }
    }
    forall key' ensures key' in Keys(e) <==> exists k :: 0 <= k < i + 1 && InGroup(ms[k], n, b, key') {
      if exists k :: 0 <= k < i + 1 && InGroup(ms[k], n, b, key') {
        var k :| 0 <= k < i + 1 && InGroup(ms[k], n, b, key');
        if k == i {
          assert key' == key;
        }
      }
      if key' == key {
        assert InGroup(ms[i], n, b, key');
      }
    }
  }

  /** A couple already in the dictionary whose group the i-th person does not join stays its group's couple. */
  lemma CoupleKept(ms: seq<Member>, i: nat, coords: map<string, Pos>, n: nat, b: nat, key: multiset<string>, c: Couple)
    requires i < |ms| && Clear(ms, i + 1, coords, n) && CoupleOf(ms, i, coords, n, b, key, c)
    requires !InGroup(ms[i], n, b, key)
    ensures CoupleOf(ms, i + 1, coords, n, b, key, c)
  {
    GroupChildrenNext(ms, i, coords, n, b, key);
    var k :| 0 <= k < i && FirstInGroup(ms, k, n, b, key) && c.parents == CoordsFor(coords, ms[k].parents).value;
  }

  /** The couple the i-th person opens, as the first of its group. */
  lemma OpenedCouple(ms: seq<Member>, i: nat, coords: map<string, Pos>, n: nat, b: nat)
    requires i < |ms| && Clear(ms, i + 1, coords, n) && InGroup(ms[i], n, b, multiset(ms[i].parents))
    requires forall l :: 0 <= l < i ==> !InGroup(ms[l], n, b, multiset(ms[i].parents))
    ensures CoupleOf(ms, i + 1, coords, n, b, multiset(ms[i].parents),
      Couple(CoordsFor(coords, ms[i].parents).value, [Below(coords, ms[i].id)], None))
  {
    var key := multiset(ms[i].parents);
    GroupChildrenNext(ms, i, coords, n, b, key);
    assert forall l :: 0 <= l < |ms[..i]| ==> ms[..i][l] == ms[l];
    GroupChildrenNone(ms[..i], coords, n, b, key);
    assert FirstInGroup(ms, i, n, b, key);
  }

  /** The body of the loop on a person whose lookups succeed: a person with parents joins the couple of its
      parents in its generation's dictionary, opening it if needed. */
  function Step(ms: seq<Member>, i: nat, coords: map<string, Pos>, conns: seq<Bucket>): (r: seq<Bucket>)
    requires i < |ms| && Trouble(ms[i], coords, |conns|).None?
    ensures |r| == |conns|
  {
    var m := ms[i];
    if m.parents == [] then conns
    else
      var b := PyIndex(m.generation, |conns|).value;
      conns[b := AddChild(conns[b], multiset(m.parents), CoordsFor(coords, m.parents).value, Below(coords, m.id))]
  }

  lemma StepGrouped(ms: seq<Member>, i: nat, coords: map<string, Pos>, conns: seq<Bucket>)
    requires i < |ms| && Clear(ms, i + 1, coords, |conns|) && Grouped(ms, i, coords, conns)
    ensures Grouped(ms, i + 1, coords, Step(ms, i, coords, conns))
  {
    var r := Step(ms, i, coords, conns);
    var n := |conns|;
    var m := ms[i];
    forall b | 0 <= b < n ensures BucketOf(ms, i + 1, coords, n, b, r[b]) {
      assert BucketOf(ms, i, coords, n, b, conns[b]);
      if m.parents == [] || PyIndex(m.generation, n) != Some(b) {
        BucketPassed(ms, i, coords, n, b, conns[b]);
      } else {
        var key := multiset(m.parents);
        match KeyIndex(conns[b], key)
        case Some(j) => BucketJoined(ms, i, coords, n, b, conns[b], j);
        case None => BucketOpened(ms, i, coords, n, b, conns[b]);
      }
    }
  }

  /** Some person from the i-th on has a failing lookup. */
  predicate Troubled(ms: seq<Member>, coords: map<string, Pos>, n: nat, i: nat) {
    exists k :: i <= k < |ms| && Trouble(ms[k], coords, n).Some?
  }

  /** The first person from the i-th on whose lookup fails fails with `e`. */
  predicate FirstTrouble(ms: seq<Member>, coords: map<string, Pos>, n: nat, i: nat, e: Error) {
    exists k :: i <= k < |ms| && Trouble(ms[k], coords, n) == Some(e) && forall l :: i <= l < k ==> Trouble(ms[l], coords, n).None?
  }

  /** The loop of `_generate_connections` from the i-th person on; the first person whose lookups fail
      raises. */
  function GenerateFrom(ms: seq<Member>, coords: map<string, Pos>, i: nat, conns: seq<Bucket>): (r: Result<seq<Bucket>>)
    requires i <= |ms| && Clear(ms, i, coords, |conns|) && Grouped(ms, i, coords, conns)
    ensures r.Failure? <==> Troubled(ms, coords, |conns|, i)
    ensures r.Failure? ==> FirstTrouble(ms, coords, |conns|, i, r.error)
    ensures r.Success? ==> |r.value| == |conns| && Grouped(ms, |ms|, coords, r.value)
    decreases |ms| - i
  {
    if i == |ms| then Success(conns)
    else
      match Trouble(ms[i], coords, |conns|)
      case Some(e) =>
        assert Trouble(ms[i], coords, |conns|) == Some(e);
        Failure(e)
      case None =>
        StepGrouped(ms, i, coords, conns);
        var r := GenerateFrom(ms, coords, i + 1, Step(ms, i, coords, conns));
        FirstTroubleBack(ms, coords, |conns|, i, r);
        r
  }

  lemma FirstTroubleBack(ms: seq<Member>, coords: map<string, Pos>, n: nat, i: nat, r: Result<seq<Bucket>>)
    requires i < |ms| && Trouble(ms[i], coords, n).None?
    requires r.Failure? <==> Troubled(ms, coords, n, i + 1)
    requires r.Failure? ==> FirstTrouble(ms, coords, n, i + 1, r.error)
    ensures r.Failure? <==> Troubled(ms, coords, n, i)
    ensures r.Failure? ==> FirstTrouble(ms, coords, n, i, r.error)
  {
    if Troubled(ms, coords, n, i) {
      var k :| i <= k < |ms| && Trouble(ms[k], coords, n).Some?;
      assert k != i;
    }
    if r.Failure? {
      var k :| i + 1 <= k < |ms| && Trouble(ms[k], coords, n) == Some(r.error)
               && forall l :: i + 1 <= l < k ==> Trouble(ms[l], coords, n).None?;
      assert forall l :: i <= l < k ==> Trouble(ms[l], coords, n).None?;
    }
  }

  /** `_generate_connections`: one dictionary per distinct generation; each person with parents is looked up
      (its own coordinates, then its parents', then its generation's dictionary, with Python's negative
      indices) and the first failing lookup raises. Otherwise dictionary `b` holds one couple per distinct
      multiset of parent ids among the people it receives, in order of first appearance: unallocated, with
      the parents' positions as the first such person lists them and the positions under the names of all
      those people, in order. */
  function GenerateConnections(ms: seq<Member>, coords: map<string, Pos>): (r: Result<seq<Bucket>>)
    ensures r.Failure? <==> Troubled(ms, coords, |Generations(ms)|, 0)
    ensures r.Failure? ==> FirstTrouble(ms, coords, |Generations(ms)|, 0, r.error)
    ensures r.Success? ==> var n := |Generations(ms)|; |r.value| == n && Clear(ms, |ms|, coords, n)
    ensures r.Success? ==> var n := |Generations(ms)|; forall b :: 0 <= b < n ==> BucketMeans(ms, coords, n, b, r.value[b])
  {
    var n := |Generations(ms)|;
    var empty: seq<Bucket> := seq(n, _ => []);
    var r := GenerateFrom(ms, coords, 0, empty);
    GeneratedMeaning(ms, coords, r);
    r
  }

  /** Dictionary `b` of `n`: one entry per distinct multiset of parent ids among the people it receives, each an
      unallocated couple whose children are the positions under those people's names and whose parents are the
      positions of the parents of the first of them. */
  ghost predicate BucketMeans(ms: seq<Member>, coords: map<string, Pos>, n: nat, b: nat, d: Bucket)
    requires Clear(ms, |ms|, coords, n)
  {
    && (forall x, y :: 0 <= x < y < |d| ==> d[x].0 != d[y].0)
    && (forall key :: key in Keys(d) <==> exists k :: 0 <= k < |ms| && InGroup(ms[k], n, b, key))
    && forall j :: 0 <= j < |d| ==>
      && d[j].1.channel.None?
      && d[j].1.children == GroupChildren(ms, coords, n, b, d[j].0)
      && exists k :: 0 <= k < |ms| && FirstInGroup(ms, k, n, b, d[j].0) && d[j].1.parents == CoordsFor(coords, ms[k].parents).value
  }

  lemma GeneratedMeaning(ms: seq<Member>, coords: map<string, Pos>, r: Result<seq<Bucket>>)
    requires r.Success? ==> var n := |r.value|; Clear(ms, |ms|, coords, n) && Grouped(ms, |ms|, coords, r.value)
    ensures r.Success? ==> var n := |r.value|; forall b :: 0 <= b < n ==> BucketMeans(ms, coords, n, b, r.value[b])
  {
    if r.Success? {
      var n := |r.value|;
      forall b | 0 <= b < n
        ensures BucketMeans(ms, coords, n, b, r.value[b])
      {
        assert BucketOf(ms, |ms|, coords, n, b, r.value[b]);
        BucketMeaning(ms, coords, n, b, r.value[b]);
      }
    }
  }

  /** A dictionary after all the people, stated without the prefix. */
  lemma BucketMeaning(ms: seq<Member>, coords: map<string, Pos>, n: nat, b: nat, d: Bucket)
    requires Clear(ms, |ms|, coords, n) && BucketOf(ms, |ms|, coords, n, b, d)
    ensures BucketMeans(ms, coords, n, b, d)
  {
    assert ms[..|ms|] == ms;
    forall j | 0 <= j < |d|
      ensures d[j].1.children == GroupChildren(ms, coords, n, b, d[j].0)
    {
      assert CoupleOf(ms, |ms|, coords, n, b, d[j].0, d[j].1);
    }
  }

  /** The children of a couple are exactly the positions under the names of the people of its group: each
      such person's position is among them, and each of them is such a position. */
  lemma {:induction false} GroupChildrenMembers(ms: seq<Member>, coords: map<string, Pos>, n: nat, b: nat, key: multiset<string>)
    requires Clear(ms, |ms|, coords, n)
    ensures forall k :: 0 <= k < |ms| && InGroup(ms[k], n, b, key) ==> Below(coords, ms[k].id) in GroupChildren(ms, coords, n, b, key)
    ensures forall p :: p in GroupChildren(ms, coords, n, b, key) ==>
      exists k :: 0 <= k < |ms| && InGroup(ms[k], n, b, key) && p == Below(coords, ms[k].id)
    decreases |ms|
  {
    if ms != [] {
      var init := ms[..|ms| - 1];
      assert forall k :: 0 <= k < |init| ==> init[k] == ms[k];
      GroupChildrenMembers(init, coords, n, b, key);
      forall p | p in GroupChildren(ms, coords, n, b, key)
        ensures exists k :: 0 <= k < |ms| && InGroup(ms[k], n, b, key) && p == Below(coords, ms[k].id)
      {
        if p in GroupChildren(init, coords, n, b, key) {
          var k :| 0 <= k < |init| && InGroup(init[k], n, b, key) && p == Below(coords, init[k].id);
          assert ms[k] == init[k];
        }
      }
    }
  }

  // ---------------------------------------------------------------------------------------------
  // _allocate_channels

  /** Two line ranges overlap: neither ends before the other starts. */
  predicate Overlap(a: (int, int), b: (int, int)) {
    !(a.1 < b.0 || b.1 < a.0)
  }

  /** The lines a couple spans, from its `min` to its `max`. */
  function Span(c: Couple): (r: (int, int))
    requires UsedLines(c) != []
    ensures r.0 <= r.1
  {
    CoupleSpan(c);
    (Low(c).value, High(c).value)
  }

  /** A channel whose recorded ranges all miss `span`. */
  predicate Free(usage: seq<(int, int)>, span: (int, int)) {
    forall k :: 0 <= k < |usage| ==> !Overlap(span, usage[k])
  }

  /** The first channel free for `span`, or the number of channels when none is. */
  function FirstFit(usages: seq<seq<(int, int)>>, span: (int, int)): (r: nat)
    ensures r <= |usages|
    ensures r < |usages| ==> Free(usages[r], span)
    ensures forall c :: 0 <= c < r ==> !Free(usages[c], span)
  {
    if usages == [] then 0
    else if Free(usages[0], span) then 0
    else
      var rest := FirstFit(usages[1..], span);
      assert forall c :: 1 <= c < |usages| ==> usages[c] == usages[1..][c - 1];
      1 + rest
  }

  /** The k-th couple is allocated by this pass (it had no channel yet). */
  predicate Fresh(cs: seq<Couple>, k: nat)
    requires k < |cs|
  {
    cs[k].channel.None?
  }

  /** Each couple of `out` keeps the parents and children of its couple in `cs`; one that had a channel keeps
      it; one that had none spans some lines and has a channel below the number of couples. */
  ghost predicate KeptFields(cs: seq<Couple>, out: seq<Couple>)
    requires |out| <= |cs|
  {
    forall k :: 0 <= k < |out| ==>
      && out[k].parents == cs[k].parents && out[k].children == cs[k].children
      && (!Fresh(cs, k) ==> out[k] == cs[k])
      && (Fresh(cs, k) ==> UsedLines(cs[k]) != [] && out[k].channel.Some? && 0 <= out[k].channel.value < |cs|)
  }

  /** The k-th couple is allocated by this pass and spans some lines. */
  predicate Spanned(cs: seq<Couple>, k: nat)
    requires k < |cs|
  {
    Fresh(cs, k) && UsedLines(cs[k]) != []
  }

  /** Couples allocated to the same channel have disjoint spans. */
  ghost predicate Disjoint(cs: seq<Couple>, out: seq<Couple>)
    requires |out| <= |cs|
  {
    forall k1, k2 :: 0 <= k1 < k2 < |out| && Spanned(cs, k1) && Spanned(cs, k2) && out[k1].channel == out[k2].channel ==>
      !Overlap(Span(cs[k2]), Span(cs[k1]))
  }

  /** Each allocated couple's channel is the first that fits: every lower channel holds an earlier couple
      whose span overlaps its own. */
  ghost predicate FirstFitted(cs: seq<Couple>, out: seq<Couple>)
    requires |out| <= |cs|
  {
    forall k, c :: 0 <= k < |out| && Spanned(cs, k) && out[k].channel.Some? && 0 <= c < out[k].channel.value ==>
      Blocked(cs, out, k, c)
  }

  /** Channel `c` holds a couple of `out` before the k-th whose span overlaps the k-th couple's span. */
  ghost predicate Blocked(cs: seq<Couple>, out: seq<Couple>, k: nat, c: nat)
    requires k < |cs| && |out| <= |cs| && UsedLines(cs[k]) != []
  {
    exists k' :: 0 <= k' < k && k' < |out| && Spanned(cs, k') && out[k'].channel == Some(c) && Overlap(Span(cs[k]), Span(cs[k']))
  }

  lemma BlockedExtend(cs: seq<Couple>, out: seq<Couple>, x: Couple, k: nat, c: nat)
    requires |out| < |cs| && k <= |out| && UsedLines(cs[k]) != [] && Blocked(cs, out, k, c)
    ensures Blocked(cs, out + [x], k, c)
  {
    var k' :| 0 <= k' < k && k' < |out| && Spanned(cs, k') && out[k'].channel == Some(c) && Overlap(Span(cs[k]), Span(cs[k']));
    assert (out + [x])[k'] == out[k'];
  }

  /** The couples `out` allocated to the first couples of `cs`. */
  ghost predicate AllocatedPrefix(cs: seq<Couple>, out: seq<Couple>)
    requires |out| <= |cs|
  {
    KeptFields(cs, out) && Disjoint(cs, out) && FirstFitted(cs, out)
  }

  /** The couples allocated to channel `c` so far. */
  predicate OnChannel(cs: seq<Couple>, out: seq<Couple>, k: nat, c: nat)
    requires k < |out| <= |cs|
  {
    Spanned(cs, k) && out[k].channel == Some(c)
  }

  /** Every recorded range of a channel is the span of a couple allocated to it. */
  ghost predicate UsagesSound(cs: seq<Couple>, out: seq<Couple>, usages: seq<seq<(int, int)>>)
    requires |out| <= |cs|
  {
    forall c, j :: 0 <= c < |usages| && 0 <= j < |usages[c]| ==> Recorded(cs, out, c, usages[c][j])
  }

  /** `s` is the span of a couple allocated to channel `c`. */
  ghost predicate Recorded(cs: seq<Couple>, out: seq<Couple>, c: nat, s: (int, int))
    requires |out| <= |cs|
  {
    exists k :: 0 <= k < |out| && OnChannel(cs, out, k, c) && s == Span(cs[k])
  }

  /** Allocating one more couple keeps every recorded span recorded. */
  lemma RecordedExtend(cs: seq<Couple>, out: seq<Couple>, x: Couple, c: nat, s: (int, int))
    requires |out| < |cs| && Recorded(cs, out, c, s)
    ensures Recorded(cs, out + [x], c, s)
  {
    var k :| 0 <= k < |out| && OnChannel(cs, out, k, c) && s == Span(cs[k]);
    assert (out + [x])[k] == out[k];
    assert OnChannel(cs, out + [x], k, c);
  }

  /** The span of every couple allocated to a channel is recorded there. */
  ghost predicate UsagesComplete(cs: seq<Couple>, out: seq<Couple>, usages: seq<seq<(int, int)>>)
    requires |out| <= |cs|
  {
    forall c, k :: 0 <= c < |usages| && 0 <= k < |out| && OnChannel(cs, out, k, c) ==> Span(cs[k]) in usages[c]
  }

  /** `channel_usages`: for each channel, the spans of the couples allocated to it so far. */
  ghost predicate UsagesOf(cs: seq<Couple>, out: seq<Couple>, usages: seq<seq<(int, int)>>)
    requires |out| <= |cs|
  {
    UsagesSound(cs, out, usages) && UsagesComplete(cs, out, usages)
  }

  predicate InRange(c: int, n: nat) {
    0 <= c < n
  }

  lemma {:induction false} RangeCard(n: nat)
    ensures |set c | 0 <= c < n && InRange(c, n)| == n
  {
    if n > 0 {
      var m := n - 1;
      RangeCard(m);
      assert (set c | 0 <= c < n && InRange(c, n)) == (set c | 0 <= c < m && InRange(c, m)) + {m};
    }
  }

  /** The channels allocated in `out`. */
  function Used(out: seq<Couple>): set<int> {
    set k | 0 <= k < |out| && out[k].channel.Some? :: out[k].channel.value
  }

  lemma {:induction false} ChannelsCard(out: seq<Couple>)
    ensures |Used(out)| <= |out|
  {
    if out != [] {
      var init := out[..|out| - 1];
      ChannelsCard(init);
      var last := out[|out| - 1];
      var more := Used(init) + (if last.channel.Some? then {last.channel.value} else {});
      assert Used(out) <= more by {
        forall x | x in Used(out) ensures x in more {
          var k :| 0 <= k < |out| && out[k].channel.Some? && x == out[k].channel.value;
          if k < |init| {
            assert init[k] == out[k];
          }
        }
      }
      Compress.SubsetCard(Used(out), more);
    }
  }

  /** A channel with recorded ranges has couples allocated to it. */
  lemma UsedChannel(cs: seq<Couple>, out: seq<Couple>, usages: seq<seq<(int, int)>>, c: nat)
    requires |out| <= |cs| && UsagesOf(cs, out, usages) && c < |usages|
    ensures usages[c] != [] ==> c in Used(out)
  {
    if usages[c] != [] {
      assert UsagesSound(cs, out, usages);
      var k :| 0 <= k < |out| && OnChannel(cs, out, k, c) && usages[c][0] == Span(cs[k]);
    }
  }

  /** There are as many channels as couples, so while some couple is left a channel is still empty. */
  lemma EmptyChannel(cs: seq<Couple>, out: seq<Couple>, usages: seq<seq<(int, int)>>) returns (c: nat)
    requires |out| < |cs| == |usages| && UsagesOf(cs, out, usages)
    ensures c < |usages| && usages[c] == []
  {
    ChannelsCard(out);
    RangeCard(|usages|);
    var all := set c | 0 <= c < |usages| && InRange(c, |usages|);
    if all <= Used(out) {
      Compress.SubsetCard(all, Used(out));
      assert false;
    }
    c :| c in all && c !in Used(out);
    UsedChannel(cs, out, usages, c);
  }


  lemma FieldsExtend(cs: seq<Couple>, out: seq<Couple>, x: Couple)
    requires |out| < |cs| && KeptFields(cs, out)
    requires x.parents == cs[|out|].parents && x.children == cs[|out|].children
    requires !Fresh(cs, |out|) ==> x == cs[|out|]
    requires Fresh(cs, |out|) ==> UsedLines(cs[|out|]) != [] && x.channel.Some? && 0 <= x.channel.value < |cs|
    ensures KeptFields(cs, out + [x])
  {
    assert forall k :: 0 <= k < |out| ==> (out + [x])[k] == out[k];
  }

  lemma DisjointExtend(cs: seq<Couple>, out: seq<Couple>, x: Couple)
    requires |out| < |cs| && Disjoint(cs, out)
    requires Spanned(cs, |out|) ==> forall k :: 0 <= k < |out| && Spanned(cs, k) && out[k].channel == x.channel ==>
      !Overlap(Span(cs[|out|]), Span(cs[k]))
    ensures Disjoint(cs, out + [x])
  {
    var o := out + [x];
    forall k1, k2 | 0 <= k1 < k2 < |o| && Spanned(cs, k1) && Spanned(cs, k2) && o[k1].channel == o[k2].channel
      ensures !Overlap(Span(cs[k2]), Span(cs[k1]))
    {
      assert o[k1] == out[k1];
      if k2 < |out| {
        assert o[k2] == out[k2];
        assert out[k1].channel == out[k2].channel;
      } else {
        assert k2 == |out| && o[k2] == x;
        assert out[k1].channel == x.channel;
      }
    }
  }

  lemma FirstFittedExtend(cs: seq<Couple>, out: seq<Couple>, x: Couple)
    requires |out| < |cs| && FirstFitted(cs, out)
    requires Spanned(cs, |out|) && x.channel.Some? ==> forall c :: 0 <= c < x.channel.value ==> Blocked(cs, out, |out|, c)
    ensures FirstFitted(cs, out + [x])
  {
    var o := out + [x];
    forall k, c | 0 <= k < |o| && Spanned(cs, k) && o[k].channel.Some? && 0 <= c < o[k].channel.value
      ensures Blocked(cs, o, k, c)
    {
      if k < |out| {
        assert o[k] == out[k];
        assert out[k].channel.Some? && 0 <= c < out[k].channel.value;
      } else {
        assert k == |out| && o[k] == x;
      }
      BlockedExtend(cs, out, x, k, c);
    }
  }

  /** A couple that already has a channel is kept and not recorded. */
  lemma UsagesKept(cs: seq<Couple>, out: seq<Couple>, usages: seq<seq<(int, int)>>)
    requires |out| < |cs| && !Fresh(cs, |out|) && UsagesOf(cs, out, usages)
    ensures UsagesOf(cs, out + [cs[|out|]], usages)
  {
    var o := out + [cs[|out|]];
    assert UsagesSound(cs, o, usages) by {
      forall c, j | 0 <= c < |usages| && 0 <= j < |usages[c]|
        ensures Recorded(cs, o, c, usages[c][j])
      {
        RecordedExtend(cs, out, cs[|out|], c, usages[c][j]);
      }
    }
    assert UsagesComplete(cs, o, usages) by {
      forall c, k | 0 <= c < |usages| && 0 <= k < |o| && OnChannel(cs, o, k, c) ensures Span(cs[k]) in usages[c] {
        assert o[k] == out[k];
        assert OnChannel(cs, out, k, c);
      }
    }
  }

  /** A couple given channel `ch` has its span recorded there. */
  lemma UsagesPlaced(cs: seq<Couple>, out: seq<Couple>, usages: seq<seq<(int, int)>>, ch: nat)
    requires |out| < |cs| && Fresh(cs, |out|) && UsedLines(cs[|out|]) != [] && ch < |usages| && UsagesOf(cs, out, usages)
    ensures UsagesOf(cs, out + [cs[|out|].(channel := Some(ch))], usages[ch := usages[ch] + [Span(cs[|out|])]])
  {
    PlacedSound(cs, out, usages, ch);
    PlacedComplete(cs, out, usages, ch);
  }

  lemma PlacedSound(cs: seq<Couple>, out: seq<Couple>, usages: seq<seq<(int, int)>>, ch: nat)
    requires |out| < |cs| && Fresh(cs, |out|) && UsedLines(cs[|out|]) != [] && ch < |usages| && UsagesSound(cs, out, usages)
    ensures UsagesSound(cs, out + [cs[|out|].(channel := Some(ch))], usages[ch := usages[ch] + [Span(cs[|out|])]])
  {
    var i := |out|;
    var x := cs[i].(channel := Some(ch));
    var o := out + [x];
    var u := usages[ch := usages[ch] + [Span(cs[i])]];
    forall c, j | 0 <= c < |u| && 0 <= j < |u[c]|
      ensures Recorded(cs, o, c, u[c][j])
    {
      if c == ch && j == |usages[ch]| {
        assert o[i] == x;
        assert OnChannel(cs, o, i, c) && u[c][j] == Span(cs[i]);
      } else {
        assert u[c][j] == usages[c][j];
        RecordedExtend(cs, out, x, c, usages[c][j]);
      }
    }
  }

  lemma PlacedComplete(cs: seq<Couple>, out: seq<Couple>, usages: seq<seq<(int, int)>>, ch: nat)
    requires |out| < |cs| && Fresh(cs, |out|) && UsedLines(cs[|out|]) != [] && ch < |usages| && UsagesComplete(cs, out, usages)
    ensures UsagesComplete(cs, out + [cs[|out|].(channel := Some(ch))], usages[ch := usages[ch] + [Span(cs[|out|])]])
  {
    var i := |out|;
    var o := out + [cs[i].(channel := Some(ch))];
    var u := usages[ch := usages[ch] + [Span(cs[i])]];
    forall c, k | 0 <= c < |u| && 0 <= k < |o| && OnChannel(cs, o, k, c) ensures Span(cs[k]) in u[c] {
      if k < i {
        assert o[k] == out[k];
        assert OnChannel(cs, out, k, c);
        assert Span(cs[k]) in usages[c];
        KeptInUsages(usages, ch, Span(cs[i]), c, Span(cs[k]));
      } else {
        assert o[k] == cs[i].(channel := Some(ch)) && c == ch;
        assert u[ch][|usages[ch]|] == Span(cs[i]);
      }
    }
  }

  /** Recording a span on one channel keeps every span recorded before. */
  lemma KeptInUsages(usages: seq<seq<(int, int)>>, ch: nat, s: (int, int), c: nat, x: (int, int))
    requires ch < |usages| && c < |usages| && x in usages[c]
    ensures x in usages[ch := usages[ch] + [s]][c]
  {
    if c == ch {
      var j :| 0 <= j < |usages[c]| && usages[c][j] == x;
      assert (usages[ch] + [s])[j] == x;
    }
  }

  /** A channel free for a span holds no couple overlapping it. */
  lemma FreeMeans(cs: seq<Couple>, out: seq<Couple>, usages: seq<seq<(int, int)>>, ch: nat, s: (int, int))
    requires |out| <= |cs| && ch < |usages| && UsagesComplete(cs, out, usages) && Free(usages[ch], s)
    ensures forall k :: 0 <= k < |out| && Spanned(cs, k) && out[k].channel == Some(ch) ==> !Overlap(s, Span(cs[k]))
  {
    forall k | 0 <= k < |out| && Spanned(cs, k) && out[k].channel == Some(ch)
      ensures !Overlap(s, Span(cs[k]))
    {
      assert OnChannel(cs, out, k, ch);
      var j :| 0 <= j < |usages[ch]| && usages[ch][j] == Span(cs[k]);
    }
  }

  /** A channel not free for a span holds a couple overlapping it. */
  lemma TakenMeans(cs: seq<Couple>, out: seq<Couple>, usages: seq<seq<(int, int)>>, c: nat, s: (int, int))
    requires |out| <= |cs| && c < |usages| && UsagesSound(cs, out, usages) && !Free(usages[c], s)
    ensures exists k :: 0 <= k < |out| && Spanned(cs, k) && out[k].channel == Some(c) && Overlap(s, Span(cs[k]))
  {
    var j :| 0 <= j < |usages[c]| && Overlap(s, usages[c][j]);
    var k :| 0 <= k < |out| && OnChannel(cs, out, k, c) && usages[c][j] == Span(cs[k]);
  }

  lemma PlacedStep(cs: seq<Couple>, out: seq<Couple>, usages: seq<seq<(int, int)>>, ch: nat)
    requires |out| < |cs| == |usages| && Fresh(cs, |out|) && UsedLines(cs[|out|]) != []
    requires AllocatedPrefix(cs, out) && UsagesOf(cs, out, usages)
    requires ch == FirstFit(usages, Span(cs[|out|])) && ch < |usages|
    ensures AllocatedPrefix(cs, out + [cs[|out|].(channel := Some(ch))])
  {
    var x := cs[|out|].(channel := Some(ch));
    FieldsExtend(cs, out, x);
    PlacedDisjoint(cs, out, usages, ch);
    PlacedFirstFitted(cs, out, usages, ch);
  }

  lemma PlacedDisjoint(cs: seq<Couple>, out: seq<Couple>, usages: seq<seq<(int, int)>>, ch: nat)
    requires |out| < |cs| == |usages| && Fresh(cs, |out|) && UsedLines(cs[|out|]) != []
    requires Disjoint(cs, out) && UsagesComplete(cs, out, usages)
    requires ch == FirstFit(usages, Span(cs[|out|])) && ch < |usages|
    ensures Disjoint(cs, out + [cs[|out|].(channel := Some(ch))])
  {
    FreeMeans(cs, out, usages, ch, Span(cs[|out|]));
    DisjointExtend(cs, out, cs[|out|].(channel := Some(ch)));
  }

  lemma PlacedFirstFitted(cs: seq<Couple>, out: seq<Couple>, usages: seq<seq<(int, int)>>, ch: nat)
    requires |out| < |cs| == |usages| && Fresh(cs, |out|) && UsedLines(cs[|out|]) != []
    requires FirstFitted(cs, out) && UsagesSound(cs, out, usages)
    requires ch == FirstFit(usages, Span(cs[|out|])) && ch < |usages|
    ensures FirstFitted(cs, out + [cs[|out|].(channel := Some(ch))])
  {
    var s := Span(cs[|out|]);
    forall c | 0 <= c < ch
      ensures Blocked(cs, out, |out|, c)
    {
      TakenMeans(cs, out, usages, c, s);
    }
    FirstFittedExtend(cs, out, cs[|out|].(channel := Some(ch)));
  }

  lemma KeptStep(cs: seq<Couple>, out: seq<Couple>, usages: seq<seq<(int, int)>>)
    requires |out| < |cs| && !Fresh(cs, |out|) && AllocatedPrefix(cs, out) && UsagesOf(cs, out, usages)
    ensures AllocatedPrefix(cs, out + [cs[|out|]]) && UsagesOf(cs, out + [cs[|out|]], usages)
  {
    var x := cs[|out|];
    FieldsExtend(cs, out, x);
    DisjointExtend(cs, out, x);
    FirstFittedExtend(cs, out, x);
    UsagesKept(cs, out, usages);
  }

  /** Some channel is free for any span while couples are left. */
  lemma FitFound(cs: seq<Couple>, out: seq<Couple>, usages: seq<seq<(int, int)>>, span: (int, int))
    requires |out| < |cs| == |usages| && UsagesOf(cs, out, usages)
    ensures FirstFit(usages, span) < |usages|
  {
    var c := EmptyChannel(cs, out, usages);
    assert Free(usages[c], span);
  }

  /** The loop of `_allocate_channels` over one generation's couples from the |out|-th on. */
  function AllocateFrom(cs: seq<Couple>, out: seq<Couple>, usages: seq<seq<(int, int)>>): (r: Result<seq<Couple>>)
    requires |out| <= |cs| == |usages| && AllocatedPrefix(cs, out) && UsagesOf(cs, out, usages)
    ensures r.Failure? <==> exists k :: |out| <= k < |cs| && Fresh(cs, k) && UsedLines(cs[k]) == []
    ensures r.Failure? ==> r.error == ValueError
    ensures r.Success? ==> |r.value| == |cs| && AllocatedPrefix(cs, r.value)
    decreases |cs| - |out|
  {
    var i := |out|;
    if i == |cs| then Success(out)
    else if !Fresh(cs, i) then
      KeptStep(cs, out, usages);
      AllocateFrom(cs, out + [cs[i]], usages)
    else if UsedLines(cs[i]) == [] then Failure(ValueError)
    else
      var s := Span(cs[i]);
      FitFound(cs, out, usages, s);
      var ch := FirstFit(usages, s);
      PlacedStep(cs, out, usages, ch);
      UsagesPlaced(cs, out, usages, ch);
      AllocateFrom(cs, out + [cs[i].(channel := Some(ch))], usages[ch := usages[ch] + [s]])
  }

  /** Some couple without a channel spans no lines, so it has no range to allocate. */
  predicate Spanless(cs: seq<Couple>) {
    exists k :: 0 <= k < |cs| && Fresh(cs, k) && UsedLines(cs[k]) == []
  }

  /** `_allocate_channels` on one generation: a greedy first-fit colouring of the couples' line spans. A couple
      that already has a channel keeps it and is not recorded; every other couple goes to the lowest channel
      none of whose earlier couples' spans overlaps its own, a channel below the number of couples. A couple
      without a channel and with no lines has no `min`: `ValueError`. */
  function AllocateGeneration(cs: seq<Couple>): (r: Result<seq<Couple>>)
    ensures r.Failure? <==> Spanless(cs)
    ensures r.Failure? ==> r.error == ValueError
    ensures r.Success? ==> |r.value| == |cs| && AllocatedPrefix(cs, r.value)
  {
    AllocateFrom(cs, [], seq(|cs|, _ => []))
  }

  /** `out` is the whole of `cs` with channels allocated. */
  ghost predicate AllocatedAs(cs: seq<Couple>, out: seq<Couple>) {
    |out| == |cs| && AllocatedPrefix(cs, out)
  }

  /** The couples of a dictionary, in order. */
  function Values(d: Bucket): (r: seq<Couple>)
    ensures |r| == |d| && forall j :: 0 <= j < |d| ==> r[j] == d[j].1
  {
    seq(|d|, j requires 0 <= j < |d| => d[j].1)
  }

  /** `_allocate_channels`: each generation allocated on its own, in order; the first failure raises. */
  function AllocateChannels(conns: seq<seq<Couple>>): (r: Result<seq<seq<Couple>>>)
    ensures r.Failure? <==> exists g :: 0 <= g < |conns| && Spanless(conns[g])
    ensures r.Failure? ==> r.error == ValueError
    ensures r.Success? ==> |r.value| == |conns|
    ensures r.Success? ==> forall g :: 0 <= g < |conns| ==> AllocatedAs(conns[g], r.value[g])
  {
    if conns == [] then Success([])
    else
      var first := AllocateGeneration(conns[0]);
      SpanlessSplit(conns);
      if first.Failure? then Failure(first.error)
      else
        var rest := AllocateChannels(conns[1..]);
        if rest.Failure? then Failure(rest.error)
        else
          AllocatedCons(conns, first.value, rest.value);
          Success([first.value] + rest.value)
  }

  /** Some generation is spanless exactly when the first one or one of the rest is. */
  lemma SpanlessSplit(conns: seq<seq<Couple>>)
    requires conns != []
    ensures (exists g :: 0 <= g < |conns| && Spanless(conns[g]))
      <==> Spanless(conns[0]) || exists g :: 0 <= g < |conns[1..]| && Spanless(conns[1..][g])
  {
    assert forall g :: 1 <= g < |conns| ==> conns[g] == conns[1..][g - 1];
  }

  lemma AllocatedCons(conns: seq<seq<Couple>>, first: seq<Couple>, rest: seq<seq<Couple>>)
    requires conns != [] && AllocatedAs(conns[0], first)
    requires |rest| == |conns| - 1 && forall g :: 0 <= g < |rest| ==> AllocatedAs(conns[1..][g], rest[g])
    ensures forall g :: 0 <= g < |conns| ==> AllocatedAs(conns[g], ([first] + rest)[g])
  {
    forall g | 0 <= g < |conns| ensures AllocatedAs(conns[g], ([first] + rest)[g]) {
      if g > 0 {
        assert conns[g] == conns[1..][g - 1] && ([first] + rest)[g] == rest[g - 1];
      }
    }
  }

  // ---------------------------------------------------------------------------------------------
  // render

  /** Every couple has a child, none has a channel yet. */
  predicate Unallocated(conns: seq<seq<Couple>>) {
    forall g, k :: 0 <= g < |conns| && 0 <= k < |conns[g]| ==> conns[g][k].channel.None? && conns[g][k].children != []
  }

  /** Every couple has a child and a channel. */
  predicate Allocated(conns: seq<seq<Couple>>) {
    forall g, k :: 0 <= g < |conns| && 0 <= k < |conns[g]| ==> conns[g][k].channel.Some? && conns[g][k].children != []
  }

  /** The couples of each generation's dictionary. */
  function Couples(conns: seq<Bucket>): (r: seq<seq<Couple>>)
    ensures |r| == |conns| && forall b :: 0 <= b < |conns| ==> r[b] == Values(conns[b])
  {
    seq(|conns|, b requires 0 <= b < |conns| => Values(conns[b]))
  }

  /** The couples `_generate_connections` makes each have a child, and none has a channel. */
  lemma GeneratedUnallocated(ms: seq<Member>, coords: map<string, Pos>)
    requires GenerateConnections(ms, coords).Success?
    ensures Unallocated(Couples(GenerateConnections(ms, coords).value))
  {
    var conns: seq<Bucket> := GenerateConnections(ms, coords).value;
    var n := |Generations(ms)|;
    forall b, j | 0 <= b < |conns| && 0 <= j < |conns[b]|
      ensures conns[b][j].1.channel.None? && conns[b][j].1.children != []
    {
      var key := conns[b][j].0;
      assert Keys(conns[b])[j] == key;
      var k :| 0 <= k < |ms| && InGroup(ms[k], n, b, key);
      GroupChildrenMembers(ms, coords, n, b, key);
    }
  }

  /** Allocating channels to couples that each have a child never fails, and gives every one a channel. */
  lemma AllocationSucceeds(conns: seq<seq<Couple>>)
    requires Unallocated(conns)
    ensures AllocateChannels(conns).Success? && Allocated(AllocateChannels(conns).value)
  {
    var r := AllocateChannels(conns);
    forall g, k | 0 <= g < |conns| && 0 <= k < |conns[g]| ensures UsedLines(conns[g][k]) != [] {
      assert |UsedLines(conns[g][k])| > 0;
    }
    forall g, k | 0 <= g < |r.value| && 0 <= k < |r.value[g]|
      ensures r.value[g][k].channel.Some? && r.value[g][k].children != []
    {
      assert KeptFields(conns[g], r.value[g]);
      assert Fresh(conns[g], k);
    }
  }

  /** Drawing couples that each have a child and a channel neither fails the assertion nor finds a couple
      without lines. */
  lemma DrawingAllocated(conns: seq<seq<Couple>>)
    requires Allocated(conns)
    ensures var r := DrawConnections([], conns, 0);
      r.Failure? ==> r.error == KeyError || r.error == DrawError
  {
  }

  /** `_draw_arrows_surface`: the connections generated from the names' coordinates, their channels allocated,
      then drawn. The channel assertion never fires and no couple lacks lines, so the only errors are a
      missing key, a generation beyond the dictionaries or a negative coordinate. */
  function Arrows(ms: seq<Member>, coords: map<string, Pos>): (r: Result<Grid>)
    ensures r.Failure? ==> r.error == KeyError || r.error == IndexError || r.error == DrawError
    ensures r.Success? ==> Compress.NoMarks(r.value)
  {
    var conns :- GenerateConnections(ms, coords);
    GeneratedUnallocated(ms, coords);
    AllocationSucceeds(Couples(conns));
    var placed := AllocateChannels(Couples(conns)).value;
    DrawingAllocated(placed);
    var r := DrawConnections([], placed, 0);
    assert r.Success? ==> Compress.NoMarks(r.value) by {
      if r.Success? { DrawnFromNothing(r.value); }
    }
    r
  }

  /** What is drawn on an empty surface without ever writing the removal character holds none. */
  lemma DrawnFromNothing(r: Grid)
    requires Keeps([], r)
    ensures Compress.NoMarks(r)
  {
    forall l, i
      ensures !Compress.IsMark(r, l, i)
    {
      assert At([], l, i) == None;
    }
  }

  /** A surface as `render` leaves it: non-empty, right-stripped lines followed by exactly one empty line. */
  predicate Shaped(g: Grid) {
    && |g| >= 1 && g[|g| - 1] == []
    && forall k :: 0 <= k < |g| - 1 ==> g[k] != [] && g[k][|g[k]| - 1].Some?
  }

  /** A stripped surface with an empty line added is shaped as `render` leaves it. */
  lemma AddLineShaped(c: Grid)
    requires Strip(c) == c
    ensures Shaped(AddLine(c))
  {
    StrippedLines(c);
    assert forall k :: 0 <= k < |c| ==> AddLine(c)[k] == c[k];
  }

  /** The end of `render`: the merged surface compressed and one empty line added. Only an empty surface
      fails, with `ValueError`. */
  function Finish(merged: Grid): (r: Result<Grid>)
    ensures r.Failure? <==> merged == []
    ensures r.Failure? ==> r.error == ValueError
    ensures r.Success? ==> Shaped(r.value)
  {
    var compressed := Compress.CompressVertically(merged);
    if compressed.Failure? then Failure(compressed.error)
    else
      AddLineShaped(compressed.value);
      Success(AddLine(compressed.value))
  }

  /** Some person has a negative generation, so their name would start left of the surface. */
  predicate Unplaceable(ms: seq<Member>) {
    exists k :: 0 <= k < |ms| && ms[k].generation < 0
  }

  /** The errors rendering can end in: a missing id (`KeyError`), a generation with no entry in the
      connections list (`IndexError`, from `connections[person.generation]`; the arrow and channel drawing
      catches its own index errors), drawing off the surface (`DrawError`), and `max()` of nothing when there
      is nobody (`ValueError`). */
  predicate RenderError(ms: seq<Member>, e: Error) {
    e == KeyError || e == IndexError || e == DrawError || (e == ValueError && ms == [])
  }

  /** `render` up to the text: the names drawn, the arrows drawn from their coordinates, the names laid over
      the arrows, then compressed with one empty line added. */
  function RenderSurface(ms: seq<Member>): (r: Result<Grid>)
    ensures Unplaceable(ms) ==> r == Failure(DrawError)
    ensures r.Failure? ==> RenderError(ms, r.error)
    ensures r.Success? ==> Shaped(r.value)
  {
    var drawn :- DrawNamesSurface(ms);
    var arrows :- Arrows(ms, drawn.1);
    assert ms != [] ==> |drawn.0| >= 1;
    Finish(GridMerge(drawn.0, arrows))
  }

  /** `render`: the text of the rendered surface. It fails as the surface does; otherwise it is empty when no
      line survives compression and ends with a newline when one does. */
  function Render(ms: seq<Member>): (r: Result<string>)
    ensures Unplaceable(ms) ==> r == Failure(DrawError)
    ensures r.Failure? ==> RenderError(ms, r.error)
    ensures r.Success? ==> r.value == [] || r.value[|r.value| - 1] == '\n'
  {
    match RenderSurface(ms)
    case Failure(e) => Failure(e)
    case Success(g) =>
      ShapedText(g);
      Success(AsStr(g))
  }

  /** When no name holds the removal character, rendering keeps what the names laid over the arrows show:
      every name is on the merged surface at its line and generation's column, and each column of the
      rendered surface reads, blanks and bare channel bars aside, as that column of the merged surface. */
  lemma RenderKeepsGlyphs(ms: seq<Member>, c: int)
    requires RenderSurface(ms).Success?
    requires forall k :: 0 <= k < |ms| ==> ToRemove !in ms[k].name
    ensures var (names, coords) := DrawNamesSurface(ms).value;
      var merged := GridMerge(names, Arrows(ms, coords).value);
      && (forall k, j :: 0 <= k < |ms| && 0 <= j < |ms[k].name| ==>
            At(merged, 2 * k, ms[k].generation * GenerationShift + j) == Some(ms[k].name[j]))
      && Compress.Solid(Column(RenderSurface(ms).value, c)) == Compress.Solid(Column(merged, c))
  {
    var (names, coords) := DrawNamesSurface(ms).value;
    var arrows := Arrows(ms, coords).value;
    var merged := GridMerge(names, arrows);
    assert RenderSurface(ms) == Finish(merged);
    NamesWin(ms, names, arrows);
    NamesUnmarked(ms, names);
    MergeUnmarked(names, arrows);
    FinishKeepsGlyphs(merged, c);
  }

  /** Names laid over the arrows show on the merged surface. */
  lemma NamesWin(ms: seq<Member>, names: Grid, arrows: Grid)
    requires forall k :: 0 <= k < |ms| ==> ms[k].generation >= 0
    requires forall k :: 0 <= k < |ms| ==> 2 * k < |names| && names[2 * k] == Nones(ms[k].generation * GenerationShift) + Text(ms[k].name)
    ensures forall k, j :: 0 <= k < |ms| && 0 <= j < |ms[k].name| ==>
      At(GridMerge(names, arrows), 2 * k, ms[k].generation * GenerationShift + j) == Some(ms[k].name[j])
  {
    forall k, j | 0 <= k < |ms| && 0 <= j < |ms[k].name|
      ensures At(GridMerge(names, arrows), 2 * k, ms[k].generation * GenerationShift + j) == Some(ms[k].name[j])
    {
      var i := ms[k].generation * GenerationShift + j;
      assert names[2 * k][i] == Some(ms[k].name[j]);
      GridMergeLeftWins(names, arrows, 2 * k, i);
    }
  }

  /** Compressing a non-empty surface without removal characters and adding the empty line keeps the solid
      cells of every column. */
  lemma FinishKeepsGlyphs(merged: Grid, c: int)
    requires merged != [] && Compress.NoMarks(merged)
    ensures Finish(merged).Success?
    ensures Compress.Solid(Column(Finish(merged).value, c)) == Compress.Solid(Column(merged, c))
  {
    var x := Compress.CompressVertically(merged).value;
    Compress.CompressKeepsGlyphs(merged, c);
    assert Finish(merged).value == AddLine(x);
    AddLineColumn(x, c);
  }

  /** The empty line added at the end shows nothing in any column. */
  lemma AddLineColumn(x: Grid, c: int)
    ensures Compress.Solid(Column(AddLine(x), c)) == Compress.Solid(Column(x, c))
  {
    Compress.ColumnConcat(x, [[]], c);
    assert Column([[]], c) == [None];
    Compress.SolidConcat(Column(x, c), [None]);
  }

  /** The names surface holds the removal character only where a name does. */
  lemma NamesUnmarked(ms: seq<Member>, g: Grid)
    requires |g| == (if ms == [] then 0 else 2 * |ms| - 1)
    requires forall k :: 0 <= k < |ms| ==> ms[k].generation >= 0
    requires forall k :: 0 <= k < |ms| ==> 2 * k < |g| && g[2 * k] == Nones(ms[k].generation * GenerationShift) + Text(ms[k].name)
    requires forall k :: 0 <= k < |ms| - 1 ==> g[2 * k + 1] == []
    requires forall k :: 0 <= k < |ms| ==> ToRemove !in ms[k].name
    ensures Compress.NoMarks(g)
  {
    forall l, i
      ensures !Compress.IsMark(g, l, i)
    {
      if 0 <= l < |g| {
        var k := l / 2;
        if l % 2 == 0 {
          assert l == 2 * k;
          var pre := ms[k].generation * GenerationShift;
          if pre <= i < |g[l]| {
            assert g[l][i] == Some(ms[k].name[i - pre]);
          }
        } else {
          assert l == 2 * k + 1;
          assert g[l] == [];
        }
      }
    }
  }

  /** Laying one surface without removal characters over another keeps it without them. */
  lemma MergeUnmarked(a: Grid, b: Grid)
    requires Compress.NoMarks(a) && Compress.NoMarks(b)
    ensures Compress.NoMarks(GridMerge(a, b))
  {
    forall l, i
      ensures !Compress.IsMark(GridMerge(a, b), l, i)
    {
      Compress.MergedCell(a, b, l, i);
      assert !Compress.IsMark(a, l, i) && !Compress.IsMark(b, l, i);
    }
  }

  /** A tree with no people leaves nothing to compress: `ValueError`. */
  lemma RenderEmpty()
    ensures Render([]) == Failure(ValueError)
  {
    var ms: seq<Member> := [];
    assert Generations(ms) == {};
    var placed := AllocateChannels(Couples(GenerateConnections(ms, map[]).value)).value;
    assert Arrows(ms, map[]) == DrawConnections([], placed, 0) == Success([]);
  }

  /** The text of a shaped surface is empty when only the empty line is left, and otherwise ends with a
      newline. */
  lemma ShapedText(g: Grid)
    requires Shaped(g)
    ensures var s := AsStr(g); s == [] || s[|s| - 1] == '\n'
  {
    if |g| > 1 {
      var c := g[..|g| - 1];
      assert g == AddLine(c);
      AddLineText(c);
    }
  }

}
