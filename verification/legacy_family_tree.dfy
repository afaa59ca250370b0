/** The people of the first version of the program, family_tree.py: `_create_people` builds them from
    (child id, relation, parent id) triples, and `top_sort` and `create_gens` order them. */
module LegacyFamilyTree {
  import opened Wrappers
  import opened Glyphs
  import Family
  import LegacyOrder

  /** One line of data: the child's id, the relation's enum name, the parent's id. */
  type Triple = (string, string, string)

  /** A person: id, name, the parents and their relations as two parallel lists, and the children, the
      people being positions in the dictionary's order. */
  datatype LegacyPerson = LegacyPerson(id: string, name: string, parents: seq<nat>, rels: seq<Relationship>, children: seq<nat>)

  /** The `people` dictionary: its keys in insertion order and the person under each. */
  datatype People = People(ids: seq<string>, persons: seq<LegacyPerson>)

  predicate Mentions(t: Triple, id: string) {
    t.0 == id || t.2 == id
  }

  predicate Mentioned(d: seq<Triple>, id: string) {
    exists k :: 0 <= k < |d| && Mentions(d[k], id)
  }

  /** The ids of the parents the triples give `id`, in order. */
  function ParentIdsOf(d: seq<Triple>, id: string): seq<string> {
    if d == [] then [] else ParentIdsOf(d[..|d| - 1], id) + (if d[|d| - 1].0 == id then [d[|d| - 1].2] else [])
  }

  /** The relation names the triples give `id`, in order. */
  function RelNamesOf(d: seq<Triple>, id: string): seq<string> {
    if d == [] then [] else RelNamesOf(d[..|d| - 1], id) + (if d[|d| - 1].0 == id then [d[|d| - 1].1] else [])
  }

  /** The ids of the children the triples give `id`, in order. */
  function ChildIdsOf(d: seq<Triple>, id: string): seq<string> {
    if d == [] then [] else ChildIdsOf(d[..|d| - 1], id) + (if d[|d| - 1].2 == id then [d[|d| - 1].0] else [])
  }

  /** A triple whose ids are missing from the real names, or whose relation is no enum name. */
  predicate Bad(t: Triple, realNames: map<string, string>) {
    t.0 !in realNames || t.2 !in realNames || RelationshipByName(t.1).Failure?
  }

  function IdsOf(ids: seq<string>, xs: seq<nat>): (r: seq<string>)
    requires LegacyOrder.Bounded(xs, |ids|)
    ensures |r| == |xs| && forall k :: 0 <= k < |xs| ==> r[k] == ids[xs[k]]
  {
    seq(|xs|, k requires 0 <= k < |xs| => ids[xs[k]])
  }

  function RelNames(rels: seq<Relationship>): (r: seq<string>)
    ensures |r| == |rels| && forall k :: 0 <= k < |rels| ==> r[k] == RelationshipName(rels[k])
  {
    seq(|rels|, k requires 0 <= k < |rels| => RelationshipName(rels[k]))
  }

  /** One person per key, under that key, with the key's real name. */
  ghost predicate Shape(p: People, realNames: map<string, string>) {
    && |p.ids| == |p.persons|
    && Family.DistinctStrings(p.ids)
    && (forall x :: 0 <= x < |p.ids| ==> p.persons[x].id == p.ids[x] && p.ids[x] in realNames && p.persons[x].name == realNames[p.ids[x]])
  }

  /** The keys are exactly the ids the triples mention. */
  ghost predicate Covers(p: People, d: seq<Triple>) {
    forall id :: id in p.ids <==> Mentioned(d, id)
  }

  /** Every list names people of the dictionary. */
  predicate Linked(p: People) {
    forall x :: 0 <= x < |p.persons| ==>
      LegacyOrder.Bounded(p.persons[x].parents, |p.ids|) && LegacyOrder.Bounded(p.persons[x].children, |p.ids|)
  }

  /** Each person's parents and relations are those the triples give them, in order. */
  predicate ParentsMatch(p: People, d: seq<Triple>)
    requires |p.ids| == |p.persons| && Linked(p)
  {
    forall x :: 0 <= x < |p.persons| ==>
      IdsOf(p.ids, p.persons[x].parents) == ParentIdsOf(d, p.ids[x]) && RelNames(p.persons[x].rels) == RelNamesOf(d, p.ids[x])
  }

  /** Each person's children are those the triples give them, in order. */
  predicate ChildrenMatch(p: People, d: seq<Triple>)
    requires |p.ids| == |p.persons| && Linked(p)
  {
    forall x :: 0 <= x < |p.persons| ==> IdsOf(p.ids, p.persons[x].children) == ChildIdsOf(d, p.ids[x])
  }

  /** Where `id` is first met when the triples are read one by one, child before parent: `2 * k` when it is the
      child of the first triple `k` that mentions it, `2 * k + 1` when it is only that triple's parent, and
      `2 * |d|` when no triple mentions it. */
  function FirstMention(d: seq<Triple>, id: string): (r: nat)
    ensures r <= 2 * |d|
  {
    if d == [] then 0
    else if d[0].0 == id then 0
    else if d[0].2 == id then 1
    else 2 + FirstMention(d[1..], id)
  }

  /** The keys stand in the order their ids are first met in the triples. */
  predicate InMentionOrder(ids: seq<string>, d: seq<Triple>) {
    forall x, y :: 0 <= x < y < |ids| ==> FirstMention(d, ids[x]) < FirstMention(d, ids[y])
  }

  /** The dictionary `_create_people` builds from the triples `d`, its keys in insertion order. */
  ghost predicate Built(p: People, d: seq<Triple>, realNames: map<string, string>) {
    && Shape(p, realNames) && Covers(p, d) && Linked(p) && ParentsMatch(p, d) && ChildrenMatch(p, d)
    && InMentionOrder(p.ids, d)
  }

  lemma {:induction false} FirstMentionMeans(d: seq<Triple>, id: string)
    ensures FirstMention(d, id) < 2 * |d| <==> Mentioned(d, id)
  {
    if d != [] {
      var e := d[1..];
      FirstMentionMeans(e, id);
      if Mentioned(e, id) {
        var k :| 0 <= k < |e| && Mentions(e[k], id);
        assert d[k + 1] == e[k];
      }
      if Mentioned(d, id) && !Mentions(d[0], id) {
        var k :| 0 <= k < |d| && Mentions(d[k], id);
        assert k > 0 && e[k - 1] == d[k];
      }
    }
  }

  /** One more triple moves no first mention that was already there, and puts a new id at that triple's
      child or parent slot. */
  lemma {:induction false} FirstMentionSnoc(d: seq<Triple>, t: Triple, id: string)
    ensures FirstMention(d + [t], id) ==
      if FirstMention(d, id) < 2 * |d| then FirstMention(d, id)
      else 2 * |d| + (if t.0 == id then 0 else if t.2 == id then 1 else 2)
  {
    if d == [] {
      assert [] + [t] == [t] && [t][1..] == [];
    } else {
      assert (d + [t])[0] == d[0] && (d + [t])[1..] == d[1..] + [t];
      FirstMentionSnoc(d[1..], t, id);
    }
  }

  /** Appending a triple's unseen ids, its child before its parent, keeps the keys in first-mention order. */
  lemma MentionOrderStep(ids: seq<string>, next: seq<string>, d: seq<Triple>, t: Triple)
    requires InMentionOrder(ids, d) && forall id :: id in ids <==> Mentioned(d, id)
    requires Family.DistinctStrings(next)
    requires |ids| <= |next| && forall x :: 0 <= x < |ids| ==> next[x] == ids[x]
    requires forall x :: |ids| <= x < |next| ==> next[x] !in ids && Mentions(t, next[x])
    requires forall x :: |ids| <= x < |next| - 1 ==> next[x] == t.0
    ensures InMentionOrder(next, d + [t])
  {
    forall x, y | 0 <= x < y < |next| ensures FirstMention(d + [t], next[x]) < FirstMention(d + [t], next[y]) {
      FirstMentionMeans(d, next[x]);
      FirstMentionMeans(d, next[y]);
      FirstMentionSnoc(d, t, next[x]);
      FirstMentionSnoc(d, t, next[y]);
      if y < |ids| {
        assert next[x] == ids[x] && next[y] == ids[y];
      } else if x < |ids| {
        assert next[x] in ids && next[y] !in ids;
      } else {
        assert next[x] == t.0 && next[y] != next[x];
      }
    }
  }

  lemma UnmentionedEmpty(d: seq<Triple>, id: string)
    requires !Mentioned(d, id)
    ensures ParentIdsOf(d, id) == [] && RelNamesOf(d, id) == [] && ChildIdsOf(d, id) == []
  {
    if d != [] {
      var e := d[..|d| - 1];
      assert !Mentioned(e, id) by {
        forall k | 0 <= k < |e| ensures !Mentions(e[k], id) {
          assert e[k] == d[k];
        }
      }
      UnmentionedEmpty(e, id);
    }
  }

  /** The person `_create_people` creates for a new id. */
  function NewPerson(id: string, realNames: map<string, string>): LegacyPerson
    requires id in realNames
  {
    LegacyPerson(id, realNames[id], [], [], [])
  }

  /** The lookup-or-create of `_create_people` for one id: the person already there, or a new one with the
      id's real name and empty lists, or a `KeyError` when the id has no real name. */
  function Admit(p: People, id: string, realNames: map<string, string>): (r: Result<(People, nat)>)
    requires |p.ids| == |p.persons| && Family.DistinctStrings(p.ids)
    ensures r.Failure? <==> id !in p.ids && id !in realNames
    ensures r.Failure? ==> r.error == KeyError
    ensures r.Success? ==>
      && r.value.1 < |r.value.0.ids| == |r.value.0.persons| && r.value.0.ids[r.value.1] == id
      && Family.DistinctStrings(r.value.0.ids)
      && (id in p.ids ==> r.value.0 == p)
      && (id !in p.ids ==> r.value.0.ids == p.ids + [id] && r.value.0.persons == p.persons + [NewPerson(id, realNames)])
  {
    match Family.Find(p.ids, id)
    case Success(x) => Success((p, x))
    case Failure(_) =>
      if id !in realNames then Failure(KeyError)
      else Success((People(p.ids + [id], p.persons + [NewPerson(id, realNames)]), |p.ids|))
  }

  /** `b` keeps the people of `p` at their places. */
  ghost predicate Keeps(p: People, b: People) {
    && |p.ids| <= |b.ids| && |p.persons| <= |b.persons|
    && (forall x :: 0 <= x < |p.ids| ==> b.ids[x] == p.ids[x])
    && (forall x :: 0 <= x < |p.persons| ==> b.persons[x] == p.persons[x])
  }

  /** The people of `b` past those of `p` are new, fresh, and mentioned by `t`. */
  ghost predicate FreshFor(p: People, b: People, t: Triple, realNames: map<string, string>)
    requires |b.ids| == |b.persons|
  {
    forall x :: |p.ids| <= x < |b.ids| ==>
      b.ids[x] !in p.ids && Mentions(t, b.ids[x]) && b.ids[x] in realNames && b.persons[x] == NewPerson(b.ids[x], realNames)
  }

  lemma AdmitShape(p: People, id: string, realNames: map<string, string>, t: Triple)
    requires Shape(p, realNames) && Admit(p, id, realNames).Success? && Mentions(t, id)
    ensures var b := Admit(p, id, realNames).value.0;
      && Shape(b, realNames) && Keeps(p, b) && FreshFor(p, b, t, realNames)
      && (forall z :: z in b.ids <==> z in p.ids || z == id)
  {
  }

  /** The lookups of a triple's child and parent, in that order: the people before are kept, the new ones are
      the triple's ids not yet there, fresh, the child before the parent when both are new, and the two
      positions are where the child and the parent stand. */
  function AdmitBoth(p: People, t: Triple, realNames: map<string, string>): (r: Result<(People, nat, nat)>)
    requires Shape(p, realNames)
    ensures r.Failure? <==> t.0 !in realNames || t.2 !in realNames
    ensures r.Failure? ==> r.error == KeyError
    ensures r.Success? ==>
      && Shape(r.value.0, realNames) && Keeps(p, r.value.0) && FreshFor(p, r.value.0, t, realNames)
      && r.value.1 < |r.value.0.ids| && r.value.2 < |r.value.0.ids|
      && r.value.0.ids[r.value.1] == t.0 && r.value.0.ids[r.value.2] == t.2
      && (forall id :: id in r.value.0.ids <==> id in p.ids || Mentions(t, id))
      && (forall x :: |p.ids| <= x < |r.value.0.ids| - 1 ==> r.value.0.ids[x] == t.0)
  {
    var c := Admit(p, t.0, realNames);
    if c.Failure? then Failure(c.error)
    else
      AdmitShape(p, t.0, realNames, t);
      var q := Admit(c.value.0, t.2, realNames);
      if q.Failure? then Failure(q.error)
      else
        AdmitShape(c.value.0, t.2, realNames, t);
        var b := q.value.0;
        assert Keeps(p, b);
        assert FreshFor(p, b, t, realNames) by {
          forall x | |p.ids| <= x < |b.ids|
            ensures b.ids[x] !in p.ids && Mentions(t, b.ids[x]) && b.ids[x] in realNames && b.persons[x] == NewPerson(b.ids[x], realNames)
          {
            if x < |c.value.0.ids| {
              assert b.ids[x] == c.value.0.ids[x] && b.persons[x] == c.value.0.persons[x];
            }
          }
        }
        assert c.value.0.ids[c.value.1] == b.ids[c.value.1];
        Success((b, c.value.1, q.value.1))
  }

  /** Appending the parent and relation to the child, and the child to the parent. */
  function Wire(p: People, c: nat, q: nat, rel: Relationship): (r: People)
    requires c < |p.persons| && q < |p.persons|
    ensures r.ids == p.ids && |r.persons| == |p.persons|
    ensures forall x :: 0 <= x < |p.persons| ==>
      && r.persons[x].id == p.persons[x].id && r.persons[x].name == p.persons[x].name
      && r.persons[x].parents == p.persons[x].parents + (if x == c then [q] else [])
      && r.persons[x].rels == p.persons[x].rels + (if x == c then [rel] else [])
      && r.persons[x].children == p.persons[x].children + (if x == q then [c] else [])
  {
    var child := p.persons[c];
    var a := p.persons[c := child.(parents := child.parents + [q], rels := child.rels + [rel])];
    var parent := a[q];
    People(p.ids, a[q := parent.(children := parent.children + [c])])
  }

  /** One triple of `_create_people`. */
  function AddTriple(p: People, t: Triple, realNames: map<string, string>): (r: Result<People>)
    requires Shape(p, realNames)
    ensures r.Failure? <==> Bad(t, realNames)
    ensures r.Failure? ==> r.error == KeyError
    ensures r.Success? ==> Shape(r.value, realNames) && (forall id :: id in r.value.ids <==> id in p.ids || Mentions(t, id))
  {
    var b := AdmitBoth(p, t, realNames);
    if b.Failure? then Failure(b.error)
    else
      var rel := RelationshipByName(t.1);
      if rel.Failure? then Failure(rel.error)
      else
        var r := Wire(b.value.0, b.value.1, b.value.2, rel.value);
        assert Shape(r, realNames);
        Success(r)
  }

  lemma SplitLast(d: seq<Triple>, t: Triple, id: string)
    ensures Mentioned(d + [t], id) <==> Mentioned(d, id) || Mentions(t, id)
  {
    if Mentioned(d, id) {
      var k :| 0 <= k < |d| && Mentions(d[k], id);
      assert (d + [t])[k] == d[k];
    }
    if Mentioned(d + [t], id) && !Mentions(t, id) {
      var k :| 0 <= k < |d| + 1 && Mentions((d + [t])[k], id);
      assert k < |d| && (d + [t])[k] == d[k];
    }
    assert Mentions((d + [t])[|d|], id) <== Mentions(t, id);
  }

  /** The lists of the triples with one more triple. */
  lemma OfSnoc(d: seq<Triple>, t: Triple, id: string)
    ensures ParentIdsOf(d + [t], id) == ParentIdsOf(d, id) + (if t.0 == id then [t.2] else [])
    ensures RelNamesOf(d + [t], id) == RelNamesOf(d, id) + (if t.0 == id then [t.1] else [])
    ensures ChildIdsOf(d + [t], id) == ChildIdsOf(d, id) + (if t.2 == id then [t.0] else [])
  {
    assert (d + [t])[..|d|] == d;
  }

  lemma AddTripleCovers(p: People, d: seq<Triple>, t: Triple, realNames: map<string, string>)
    requires Shape(p, realNames) && Covers(p, d) && AddTriple(p, t, realNames).Success?
    ensures Covers(AddTriple(p, t, realNames).value, d + [t])
  {
    var r := AddTriple(p, t, realNames).value;
    forall id ensures id in r.ids <==> Mentioned(d + [t], id) {
      SplitLast(d, t, id);
    }
  }

  /** One person's lists after a triple: the lists the triples so far give them, plus the triple's parent and
      relation when they are its child, plus its child when they are its parent. */
  lemma ListsStep(before: seq<string>, ids: seq<string>, was: LegacyPerson, now: LegacyPerson, d: seq<Triple>, t: Triple,
                  id: string, x: nat, c: nat, q: nat, rel: Relationship)
    requires |before| <= |ids| && forall y :: 0 <= y < |before| ==> ids[y] == before[y]
    requires LegacyOrder.Bounded(was.parents, |before|) && LegacyOrder.Bounded(was.children, |before|)
    requires IdsOf(before, was.parents) == ParentIdsOf(d, id) && RelNames(was.rels) == RelNamesOf(d, id)
    requires IdsOf(before, was.children) == ChildIdsOf(d, id)
    requires c < |ids| && q < |ids| && ids[c] == t.0 && ids[q] == t.2 && RelationshipName(rel) == t.1
    requires (x == c <==> id == t.0) && (x == q <==> id == t.2)
    requires now.parents == was.parents + (if x == c then [q] else [])
    requires now.rels == was.rels + (if x == c then [rel] else [])
    requires now.children == was.children + (if x == q then [c] else [])
    ensures LegacyOrder.Bounded(now.parents, |ids|) && LegacyOrder.Bounded(now.children, |ids|)
    ensures IdsOf(ids, now.parents) == ParentIdsOf(d + [t], id) && RelNames(now.rels) == RelNamesOf(d + [t], id)
    ensures IdsOf(ids, now.children) == ChildIdsOf(d + [t], id)
  {
    OfSnoc(d, t, id);
    assert IdsOf(ids, was.parents) == IdsOf(before, was.parents);
    assert IdsOf(ids, was.children) == IdsOf(before, was.children);
    assert IdsOf(ids, now.parents) == IdsOf(ids, was.parents) + (if x == c then [t.2] else []);
    assert IdsOf(ids, now.children) == IdsOf(ids, was.children) + (if x == q then [t.0] else []);
    assert RelNames(now.rels) == RelNames(was.rels) + (if x == c then [t.1] else []);
  }

  lemma LinksAt(p: People, d: seq<Triple>, t: Triple, realNames: map<string, string>, x: nat)
    requires Shape(p, realNames) && Covers(p, d) && Linked(p) && ParentsMatch(p, d) && ChildrenMatch(p, d)
    requires AddTriple(p, t, realNames).Success?
    requires x < |AddTriple(p, t, realNames).value.persons|
    ensures var r := AddTriple(p, t, realNames).value;
      && LegacyOrder.Bounded(r.persons[x].parents, |r.ids|) && LegacyOrder.Bounded(r.persons[x].children, |r.ids|)
      && IdsOf(r.ids, r.persons[x].parents) == ParentIdsOf(d + [t], r.ids[x])
      && RelNames(r.persons[x].rels) == RelNamesOf(d + [t], r.ids[x])
      && IdsOf(r.ids, r.persons[x].children) == ChildIdsOf(d + [t], r.ids[x])
  {
    var r := AddTriple(p, t, realNames).value;
    var b := AdmitBoth(p, t, realNames).value;
    var rel := RelationshipByName(t.1).value;
    assert r == Wire(b.0, b.1, b.2, rel);
    var id := r.ids[x];
    assert Family.DistinctStrings(b.0.ids);
    assert x == b.1 <==> id == t.0;
    assert x == b.2 <==> id == t.2;
    if x < |p.ids| {
      assert b.0.persons[x] == p.persons[x] && id == p.ids[x];
      ListsStep(p.ids, r.ids, p.persons[x], r.persons[x], d, t, id, x, b.1, b.2, rel);
    } else {
      assert id !in p.ids && b.0.persons[x] == NewPerson(id, realNames);
      UnmentionedEmpty(d, id);
      ListsStep(p.ids, r.ids, b.0.persons[x], r.persons[x], d, t, id, x, b.1, b.2, rel);
    }
  }

  lemma AddTripleLinks(p: People, d: seq<Triple>, t: Triple, realNames: map<string, string>)
    requires Shape(p, realNames) && Covers(p, d) && Linked(p) && ParentsMatch(p, d) && ChildrenMatch(p, d)
    requires AddTriple(p, t, realNames).Success?
    ensures var r := AddTriple(p, t, realNames).value;
      Linked(r) && ParentsMatch(r, d + [t]) && ChildrenMatch(r, d + [t])
  {
    var r := AddTriple(p, t, realNames).value;
    forall x | 0 <= x < |r.persons|
      ensures LegacyOrder.Bounded(r.persons[x].parents, |r.ids|) && LegacyOrder.Bounded(r.persons[x].children, |r.ids|)
    {
      LinksAt(p, d, t, realNames, x);
    }
    forall x | 0 <= x < |r.persons|
      ensures IdsOf(r.ids, r.persons[x].parents) == ParentIdsOf(d + [t], r.ids[x])
      ensures RelNames(r.persons[x].rels) == RelNamesOf(d + [t], r.ids[x])
      ensures IdsOf(r.ids, r.persons[x].children) == ChildIdsOf(d + [t], r.ids[x])
    {
      LinksAt(p, d, t, realNames, x);
    }
  }

  /** Some triple from `k` on is bad. */
  predicate AnyBad(data: seq<Triple>, k: nat, realNames: map<string, string>)
    decreases |data| - k
  {
    k < |data| && (Bad(data[k], realNames) || AnyBad(data, k + 1, realNames))
  }

  lemma {:induction false} AnyBadMeans(data: seq<Triple>, k: nat, realNames: map<string, string>)
    ensures AnyBad(data, k, realNames) <==> exists j :: k <= j < |data| && Bad(data[j], realNames)
    decreases |data| - k
  {
    if k < |data| {
      AnyBadMeans(data, k + 1, realNames);
    }
  }

  lemma AddTripleBuiltAt(p: People, data: seq<Triple>, k: nat, realNames: map<string, string>)
    requires k < |data| && Built(p, data[..k], realNames) && AddTriple(p, data[k], realNames).Success?
    ensures Built(AddTriple(p, data[k], realNames).value, data[..k + 1], realNames)
  {
    TakeOneMore(data, k);
    AddTripleBuilt(p, data[..k], data[k], realNames);
  }

  lemma TakeOneMore(data: seq<Triple>, k: nat)
    requires k < |data|
    ensures data[..k + 1] == data[..k] + [data[k]]
  {
  }

  lemma AddTripleBuilt(p: People, d: seq<Triple>, t: Triple, realNames: map<string, string>)
    requires Built(p, d, realNames) && AddTriple(p, t, realNames).Success?
    ensures Built(AddTriple(p, t, realNames).value, d + [t], realNames)
  {
    AddTripleCovers(p, d, t, realNames);
    AddTripleLinks(p, d, t, realNames);
    AddTripleOrder(p, d, t, realNames);
  }

  lemma AddTripleOrder(p: People, d: seq<Triple>, t: Triple, realNames: map<string, string>)
    requires Shape(p, realNames) && Covers(p, d) && InMentionOrder(p.ids, d) && AddTriple(p, t, realNames).Success?
    ensures InMentionOrder(AddTriple(p, t, realNames).value.ids, d + [t])
  {
    var b := AdmitBoth(p, t, realNames).value;
    assert AddTriple(p, t, realNames).value.ids == b.0.ids;
    MentionOrderStep(p.ids, b.0.ids, d, t);
  }

  /** `_create_people` from triple `k` on. */
  function CreateFrom(p: People, data: seq<Triple>, k: nat, realNames: map<string, string>): (r: Result<People>)
    requires k <= |data| && Built(p, data[..k], realNames)
    ensures r.Failure? <==> AnyBad(data, k, realNames)
    ensures r.Failure? ==> r.error == KeyError
    ensures r.Success? ==> Built(r.value, data, realNames)
    decreases |data| - k
  {
    if k == |data| then
      assert data[..k] == data;
      Success(p)
    else
      var next := AddTriple(p, data[k], realNames);
      if next.Failure? then Failure(next.error)
      else
        AddTripleBuiltAt(p, data, k, realNames);
        CreateFrom(next.value, data, k + 1, realNames)
  }

  /** `_create_people`: a `KeyError` exactly when some triple has an id without a real name or a relation that
      is not an enum name; otherwise one person per id the triples mention, under that id, with its real name,
      with the parents, relations and children the triples give, in the triples' order. */
  function CreatePeople(data: seq<Triple>, realNames: map<string, string>): (r: Result<People>)
    ensures r.Failure? <==> exists j :: 0 <= j < |data| && Bad(data[j], realNames)
    ensures r.Failure? ==> r.error == KeyError
    ensures r.Success? ==> Built(r.value, data, realNames)
  {
    assert data[..0] == [];
    AnyBadMeans(data, 0, realNames);
    CreateFrom(People([], []), data, 0, realNames)
  }

  /** Each person has as many relations as parents, and is listed among the children of a parent as often as
      that parent is among theirs. */
  lemma BuiltCounts(p: People, d: seq<Triple>, realNames: map<string, string>, x: nat, y: nat)
    requires Built(p, d, realNames) && x < |p.persons| && y < |p.persons|
    ensures |p.persons[x].parents| == |p.persons[x].rels|
    ensures multiset(p.persons[x].parents)[y] == multiset(p.persons[y].children)[x]
  {
    RelNamesLength(d, p.ids[x]);
    CountIds(p.ids, p.persons[x].parents, y);
    CountIds(p.ids, p.persons[y].children, x);
    PairCount(d, p.ids[x], p.ids[y]);
  }

  lemma RelNamesLength(d: seq<Triple>, id: string)
    ensures |RelNamesOf(d, id)| == |ParentIdsOf(d, id)|
  {
    if d != [] {
      RelNamesLength(d[..|d| - 1], id);
    }
  }

  /** With distinct ids, a position occurs in a list as often as its id occurs among the list's ids. */
  lemma {:induction false} CountIds(ids: seq<string>, xs: seq<nat>, y: nat)
    requires Family.DistinctStrings(ids) && LegacyOrder.Bounded(xs, |ids|) && y < |ids|
    ensures multiset(xs)[y] == multiset(IdsOf(ids, xs))[ids[y]]
  {
    if xs != [] {
      var init := xs[..|xs| - 1];
      CountIds(ids, init, y);
      assert xs == init + [xs[|xs| - 1]];
      assert IdsOf(ids, xs) == IdsOf(ids, init) + [ids[xs[|xs| - 1]]];
      assert xs[|xs| - 1] == y <==> ids[xs[|xs| - 1]] == ids[y];
    }
  }

  /** A child id occurs among the triples' parents of it as often as the parent's children name that child. */
  lemma {:induction false} PairCount(d: seq<Triple>, child: string, parent: string)
    ensures multiset(ParentIdsOf(d, child))[parent] == multiset(ChildIdsOf(d, parent))[child]
  {
    if d != [] {
      PairCount(d[..|d| - 1], child, parent);
    }
  }

  // ---------------------------------------------------------------------------------------------
  // top_sort and create_gens

  function ParentGraph(p: People): (r: LegacyOrder.Graph)
    requires |p.ids| == |p.persons| && Linked(p)
    ensures LegacyOrder.Closed(r) && |r| == |p.persons|
  {
    seq(|p.persons|, x requires 0 <= x < |p.persons| => p.persons[x].parents)
  }

  function ChildGraph(p: People): (r: LegacyOrder.Graph)
    requires |p.ids| == |p.persons| && Linked(p)
    ensures LegacyOrder.Closed(r) && |r| == |p.persons|
  {
    seq(|p.persons|, x requires 0 <= x < |p.persons| => p.persons[x].children)
  }

  /** `top_sort` followed by `create_gens`, as `draw` runs them: everyone once, each with the least generation
      above that of each of their children placed before them. */
  function Arrange(p: People): (r: (seq<nat>, seq<int>))
    requires |p.ids| == |p.persons| && Linked(p)
    ensures multiset(r.0) == multiset(LegacyOrder.Range(|p.persons|))
    ensures LegacyOrder.Bounded(r.0, |p.persons|) && |r.1| == |r.0|
    ensures forall i :: 0 <= i < |r.0| ==> LegacyOrder.GenerationAt(r.0, ChildGraph(p), r.1, i)
  {
    var order := LegacyOrder.PulledTopSort(ParentGraph(p), ChildGraph(p));
    assert LegacyOrder.Bounded(order, |p.persons|) by {
      forall k | 0 <= k < |order| ensures order[k] < |p.persons| {
        assert order[k] in multiset(LegacyOrder.Range(|p.persons|));
      }
    }
    (order, LegacyOrder.CreateGens(order, ChildGraph(p)))
  }
}
