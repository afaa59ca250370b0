/** The family tree of genealogy/family_tree.py: people wired to their parents and children, and the passes that
    give every person a generation. People live in an arena and refer to each other by index. */
module Family {
  import opened Wrappers
  import opened Glyphs

  /** A `Person`: its id, its display name, its `parents` dictionary (kind and arena index of the parent, in
      insertion order) and its `children` list (arena indices, in the order they were added). */
  datatype Person = Person(id: string, name: string, parents: seq<(Relationship, nat)>, children: seq<nat>)

  /** A dictionary never holds a key twice. */
  predicate DistinctKinds(ps: seq<(Relationship, nat)>) {
    forall i, j :: 0 <= i < j < |ps| ==> ps[i].0 != ps[j].0
  }

  /** `parents[rel] = parent`: an existing entry keeps its place and takes the new parent, a new one goes last. */
  function Assign(ps: seq<(Relationship, nat)>, rel: Relationship, parent: nat): (r: seq<(Relationship, nat)>)
    requires DistinctKinds(ps)
    ensures DistinctKinds(r)
    ensures forall k :: 0 <= k < |r| ==> r[k] == (rel, parent) || r[k] in ps
    ensures (forall k :: 0 <= k < |ps| ==> ps[k].0 != rel) ==> r == ps + [(rel, parent)]
    ensures (exists k :: 0 <= k < |ps| && ps[k].0 == rel) ==>
      |r| == |ps| && forall k :: 0 <= k < |ps| ==> r[k] == (if ps[k].0 == rel then (rel, parent) else ps[k])
  {
    var i := KindIndex(ps, rel);
    if i == |ps| then ps + [(rel, parent)] else ps[i := (rel, parent)]
  }

  /** The place of the entry for `rel`, or the length when there is none. */
  function KindIndex(ps: seq<(Relationship, nat)>, rel: Relationship): (i: nat)
    ensures i <= |ps| && forall k :: 0 <= k < i ==> ps[k].0 != rel
    ensures i < |ps| ==> ps[i].0 == rel
  {
    if ps == [] || ps[0].0 == rel then 0 else 1 + KindIndex(ps[1..], rel)
  }

  /** The ids in the people dictionary's order. */
  function Ids(people: seq<(string, string)>): (r: seq<string>)
    ensures |r| == |people| && forall k :: 0 <= k < |people| ==> r[k] == people[k].0
  {
    seq(|people|, k requires 0 <= k < |people| => people[k].0)
  }

  /** No id appears twice: the keys of a decoded dictionary. */
  predicate DistinctStrings(s: seq<string>) {
    forall i, j :: 0 <= i < j < |s| ==> s[i] != s[j]
  }

  /** `people_dict[id]`: the arena index of the person with that id, or a `KeyError`. */
  function Find(ids: seq<string>, id: string): (r: Result<nat>)
    ensures r.Success? <==> id in ids
    ensures r.Failure? ==> r.error == KeyError
    ensures r.Success? ==> r.value < |ids| && ids[r.value] == id
    ensures r.Success? && DistinctStrings(ids) ==> forall k :: 0 <= k < |ids| && ids[k] == id ==> k == r.value
  {
    if ids == [] then Failure(KeyError)
    else if ids[0] == id then Success(0)
    else
      var rest :- Find(ids[1..], id);
      Success(rest + 1)
  }

  /** The people dictionary before wiring: every person with no parents and no children. */
  function Unwired(people: seq<(string, string)>): (r: seq<Person>)
    ensures |r| == |people|
    ensures forall k :: 0 <= k < |people| ==> r[k] == Person(people[k].0, people[k].1, [], [])
  {
    seq(|people|, k requires 0 <= k < |people| => Person(people[k].0, people[k].1, [], []))
  }

  /** `Person.__eq__`: two people are equal when their ids are. */
  predicate SamePerson(a: Person, b: Person) {
    a.id == b.id
  }

  /** Every index an arena holds points into it, and every parents dictionary is a dictionary. */
  predicate WellFormed(a: seq<Person>) {
    forall x :: 0 <= x < |a| ==>
      && DistinctKinds(a[x].parents)
      && (forall k :: 0 <= k < |a[x].parents| ==> a[x].parents[k].1 < |a|)
      && (forall k :: 0 <= k < |a[x].children| ==> a[x].children[k] < |a|)
  }

  // ---------------------------------------------------------------------------------------------
  // Resolving the decoded relationships

  /** One `relationship: parent_id` pair resolved: the parent's index, then the kind, either lookup a `KeyError`. */
  function ResolvePair(ids: seq<string>, pair: (string, string)): (r: Result<(Relationship, nat)>)
    ensures r.Success? <==> pair.1 in ids && RelationshipByName(pair.0).Success?
    ensures r.Failure? ==> r.error == KeyError
    ensures r.Success? ==> r.value.1 < |ids| && ids[r.value.1] == pair.1 && RelationshipName(r.value.0) == pair.0
  {
    var p :- Find(ids, pair.1);
    var rel :- RelationshipByName(pair.0);
    Success((rel, p))
  }

  /** A child's parent pairs resolved in order. */
  function ResolvePairs(ids: seq<string>, pairs: seq<(string, string)>): (r: Result<seq<(Relationship, nat)>>)
    ensures r.Success? <==> forall j :: 0 <= j < |pairs| ==> ResolvePair(ids, pairs[j]).Success?
    ensures r.Failure? ==> r.error == KeyError
    ensures r.Success? ==> |r.value| == |pairs| && forall j :: 0 <= j < |pairs| ==> r.value[j] == ResolvePair(ids, pairs[j]).value
  {
    if pairs == [] then Success([])
    else
      var first := ResolvePair(ids, pairs[0]);
      var rest := ResolvePairs(ids, pairs[1..]);
      assert forall j :: 1 <= j < |pairs| ==> pairs[j] == pairs[1..][j - 1];
      if first.Failure? then Failure(first.error)
      else if rest.Failure? then Failure(rest.error)
      else Success([first.value] + rest.value)
  }

  /** Every relationship entry resolved: the child's index and its resolved parent pairs. */
  function ResolveEntries(ids: seq<string>, rels: seq<(string, seq<(string, string)>)>): (r: Result<seq<(nat, seq<(Relationship, nat)>)>>)
    ensures r.Success? <==> forall k :: 0 <= k < |rels| ==> rels[k].0 in ids && ResolvePairs(ids, rels[k].1).Success?
    ensures r.Failure? ==> r.error == KeyError
    ensures r.Success? ==> |r.value| == |rels| && forall k :: 0 <= k < |rels| ==>
      && r.value[k].0 == Find(ids, rels[k].0).value
      && r.value[k].1 == ResolvePairs(ids, rels[k].1).value
  {
    if rels == [] then Success([])
    else
      var c := Find(ids, rels[0].0);
      var ps := ResolvePairs(ids, rels[0].1);
      var rest := ResolveEntries(ids, rels[1..]);
      assert forall k :: 1 <= k < |rels| ==> rels[k] == rels[1..][k - 1];
      if c.Failure? then Failure(c.error)
      else if ps.Failure? then Failure(ps.error)
      else if rest.Failure? then Failure(rest.error)
      else Success([(c.value, ps.value)] + rest.value)
  }

  /** `c` once for every pair naming `x` as the parent. */
  function Copies(c: nat, rs: seq<(Relationship, nat)>, x: nat): (r: seq<nat>)
    ensures forall k :: 0 <= k < |r| ==> r[k] == c
    ensures |r| > 0 <==> exists j :: 0 <= j < |rs| && rs[j].1 == x
  {
    if rs == [] then [] else (if rs[0].1 == x then [c] else []) + Copies(c, rs[1..], x)
  }

  lemma CopiesMembers(c: nat, rs: seq<(Relationship, nat)>, x: nat)
    ensures forall d :: d in Copies(c, rs, x) <==> d == c && exists j :: 0 <= j < |rs| && rs[j].1 == x
  {
    var r := Copies(c, rs, x);
    if |r| > 0 {
      assert r[0] == c;
    }
  }

  /** The children `x` gets from the resolved entries, in order. */
  function ChildrenFrom(es: seq<(nat, seq<(Relationship, nat)>)>, x: nat): (r: seq<nat>)
    ensures forall c :: c in r <==> exists k, j :: 0 <= k < |es| && 0 <= j < |es[k].1| && es[k].0 == c && es[k].1[j].1 == x
  {
    if es == [] then []
    else
      var rest := ChildrenFrom(es[1..], x);
      assert forall k :: 1 <= k < |es| ==> es[k] == es[1..][k - 1];
      CopiesMembers(es[0].0, es[0].1, x);
      Copies(es[0].0, es[0].1, x) + rest
  }

  // ---------------------------------------------------------------------------------------------
  // Wiring

  /** No pair sets a kind the child already has, and no kind comes twice. */
  predicate FreshKinds(ps: seq<(Relationship, nat)>, rs: seq<(Relationship, nat)>) {
    && (forall i, j :: 0 <= i < j < |rs| ==> rs[i].0 != rs[j].0)
    && (forall i, j :: 0 <= i < |ps| && 0 <= j < |rs| ==> ps[i].0 != rs[j].0)
  }

  /** One wired pair: `child.parents[rel] = parent`, then the child appended to the parent's children. */
  function WireOne(a: seq<Person>, c: nat, rel: Relationship, p: nat): (r: seq<Person>)
    requires c < |a| && p < |a| && WellFormed(a)
    ensures |r| == |a| && WellFormed(r)
    ensures forall x :: 0 <= x < |a| ==> r[x].id == a[x].id && r[x].name == a[x].name
    ensures forall x :: 0 <= x < |a| && x != c ==> r[x].parents == a[x].parents
    ensures r[c].parents == Assign(a[c].parents, rel, p)
    ensures forall x :: 0 <= x < |a| ==> r[x].children == a[x].children + (if x == p then [c] else [])
  {
    var a1 := a[c := a[c].(parents := Assign(a[c].parents, rel, p))];
    var r := a1[p := a1[p].(children := a1[p].children + [c])];
    WireOneWellFormed(a, c, rel, p, r);
    WireOneFields(a, c, rel, p, r);
    r
  }

  lemma WireOneFields(a: seq<Person>, c: nat, rel: Relationship, p: nat, r: seq<Person>)
    requires c < |a| && p < |a| && DistinctKinds(a[c].parents)
    requires r == var a1 := a[c := a[c].(parents := Assign(a[c].parents, rel, p))]; a1[p := a1[p].(children := a1[p].children + [c])]
    ensures forall x :: 0 <= x < |a| ==> r[x].id == a[x].id && r[x].name == a[x].name
    ensures forall x :: 0 <= x < |a| && x != c ==> r[x].parents == a[x].parents
    ensures r[c].parents == Assign(a[c].parents, rel, p)
    ensures forall x :: 0 <= x < |a| ==> r[x].children == a[x].children + (if x == p then [c] else [])
  {
  }

  lemma WireOneWellFormed(a: seq<Person>, c: nat, rel: Relationship, p: nat, r: seq<Person>)
    requires c < |a| && p < |a| && WellFormed(a)
    requires r == var a1 := a[c := a[c].(parents := Assign(a[c].parents, rel, p))]; a1[p := a1[p].(children := a1[p].children + [c])]
    ensures WellFormed(r)
  {
    var n := |a|;
    assert |r| == n;
    forall x | 0 <= x < n
      ensures DistinctKinds(r[x].parents)
      ensures forall k :: 0 <= k < |r[x].parents| ==> r[x].parents[k].1 < n
    {
      if x == c {
        assert r[x].parents == Assign(a[c].parents, rel, p);
        AssignBounded(a[c].parents, rel, p, n);
      } else {
        assert r[x].parents == a[x].parents;
      }
    }
    forall x | 0 <= x < n
      ensures forall k :: 0 <= k < |r[x].children| ==> r[x].children[k] < n
    {
      var cs := a[x].children;
      assert forall k :: 0 <= k < |cs| ==> cs[k] < n;
      if x == p {
        assert r[x].children == cs + [c];
      } else {
        assert r[x].children == cs;
      }
    }
  }

  /** Assigning a parent below `n` keeps every parent index below `n`. */
  lemma AssignBounded(ps: seq<(Relationship, nat)>, rel: Relationship, parent: nat, n: nat)
    requires DistinctKinds(ps) && parent < n && forall k :: 0 <= k < |ps| ==> ps[k].1 < n
    ensures forall k :: 0 <= k < |Assign(ps, rel, parent)| ==> Assign(ps, rel, parent)[k].1 < n
  {
    var r := Assign(ps, rel, parent);
    forall k | 0 <= k < |r| ensures r[k].1 < n {
      if r[k] != (rel, parent) {
        var i :| 0 <= i < |ps| && ps[i] == r[k];
      }
    }
  }

  /** The inner loop of the wiring for child `c`: each pair looks the parent up, then the kind, and is wired. */
  function WirePairs(a: seq<Person>, ids: seq<string>, c: nat, pairs: seq<(string, string)>): (r: Result<seq<Person>>)
    requires |ids| == |a| && c < |a| && WellFormed(a)
    ensures r.Success? <==> ResolvePairs(ids, pairs).Success?
    ensures r.Failure? ==> r.error == KeyError
    ensures r.Success? ==> |r.value| == |a| && WellFormed(r.value) && WiredPairs(a, c, ResolvePairs(ids, pairs).value, r.value)
    decreases |pairs|
  {
    if pairs == [] then
      assert WiredPairs(a, c, [], a) by {
        assert forall x :: 0 <= x < |a| ==> Copies(c, [], x) == [];
      }
      Success(a)
    else
      var p :- Find(ids, pairs[0].1);
      var rel :- RelationshipByName(pairs[0].0);
      var a2 := WireOne(a, c, rel, p);
      var rest := WirePairs(a2, ids, c, pairs[1..]);
      assert forall j :: 1 <= j < |pairs| ==> pairs[j] == pairs[1..][j - 1];
      if rest.Failure? then rest
      else
        WirePairsStep(a, ids, c, pairs, rel, p, a2, rest.value);
        rest
  }

  /** What wiring the resolved pairs `rs` of child `c` into `a` gives: ids and names kept, nobody else's parents
      touched, the child's parents extended by `rs` when the kinds are fresh, and each parent's children
      extended by one copy of `c` per pair naming it. */
  ghost predicate WiredPairs(a: seq<Person>, c: nat, rs: seq<(Relationship, nat)>, r: seq<Person>)
    requires c < |a| && |r| == |a|
  {
    && (forall x :: 0 <= x < |a| ==> r[x].id == a[x].id && r[x].name == a[x].name)
    && (forall x :: 0 <= x < |a| && x != c ==> r[x].parents == a[x].parents)
    && (FreshKinds(a[c].parents, rs) ==> r[c].parents == a[c].parents + rs)
    && (forall x :: 0 <= x < |a| ==> r[x].children == a[x].children + Copies(c, rs, x))
  }

  lemma FreshStep(ps: seq<(Relationship, nat)>, rs: seq<(Relationship, nat)>)
    requires rs != [] && FreshKinds(ps, rs)
    ensures FreshKinds(ps + [rs[0]], rs[1..])
  {
    var ps2 := ps + [rs[0]];
    var tail := rs[1..];
    forall i, j | 0 <= i < |ps2| && 0 <= j < |tail|
      ensures ps2[i].0 != tail[j].0
    {
      assert tail[j] == rs[j + 1];
    }
    forall i, j | 0 <= i < j < |tail|
      ensures tail[i].0 != tail[j].0
    {
      assert tail[i] == rs[i + 1] && tail[j] == rs[j + 1];
    }
  }

  lemma WirePairsStep(a: seq<Person>, ids: seq<string>, c: nat, pairs: seq<(string, string)>, rel: Relationship, p: nat,
                      a2: seq<Person>, r: seq<Person>)
    requires |ids| == |a| && c < |a| && WellFormed(a) && pairs != [] && p < |a|
    requires ResolvePair(ids, pairs[0]) == Success((rel, p))
    requires a2 == WireOne(a, c, rel, p)
    requires ResolvePairs(ids, pairs[1..]).Success?
    requires |r| == |a| && WiredPairs(a2, c, ResolvePairs(ids, pairs[1..]).value, r)
    ensures ResolvePairs(ids, pairs).Success?
    ensures WiredPairs(a, c, ResolvePairs(ids, pairs).value, r)
  {
    var rs := ResolvePairs(ids, pairs).value;
    var tail := ResolvePairs(ids, pairs[1..]).value;
    assert rs == [(rel, p)] + tail by {
      assert forall j :: 1 <= j < |pairs| ==> pairs[j] == pairs[1..][j - 1];
    }
    StepParents(a, c, rel, p, a2, tail, r);
    StepChildren(a, c, rel, p, a2, tail, r);
  }

  lemma StepParents(a: seq<Person>, c: nat, rel: Relationship, p: nat, a2: seq<Person>, tail: seq<(Relationship, nat)>, r: seq<Person>)
    requires c < |a| && p < |a| && WellFormed(a) && a2 == WireOne(a, c, rel, p) && |r| == |a|
    requires FreshKinds(a2[c].parents, tail) ==> r[c].parents == a2[c].parents + tail
    ensures FreshKinds(a[c].parents, [(rel, p)] + tail) ==> r[c].parents == a[c].parents + ([(rel, p)] + tail)
  {
    var rs := [(rel, p)] + tail;
    if FreshKinds(a[c].parents, rs) {
      assert rs[0] == (rel, p);
      assert forall k :: 0 <= k < |a[c].parents| ==> a[c].parents[k].0 != rel;
      assert a2[c].parents == a[c].parents + [(rel, p)];
      FreshStep(a[c].parents, rs);
      assert rs[1..] == tail;
    }
  }

  lemma StepChildren(a: seq<Person>, c: nat, rel: Relationship, p: nat, a2: seq<Person>, tail: seq<(Relationship, nat)>, r: seq<Person>)
    requires c < |a| && p < |a| && WellFormed(a) && a2 == WireOne(a, c, rel, p) && |r| == |a|
    requires forall x :: 0 <= x < |a| ==> r[x].children == a2[x].children + Copies(c, tail, x)
    ensures forall x :: 0 <= x < |a| ==> r[x].children == a[x].children + Copies(c, [(rel, p)] + tail, x)
  {
    forall x | 0 <= x < |a|
      ensures r[x].children == a[x].children + Copies(c, [(rel, p)] + tail, x)
    {
      var one: seq<nat> := if x == p then [c] else [];
      assert ([(rel, p)] + tail)[1..] == tail;
      assert Copies(c, [(rel, p)] + tail, x) == one + Copies(c, tail, x);
      AppendStep(a[x].children, one, Copies(c, tail, x), a2[x].children, r[x].children, Copies(c, [(rel, p)] + tail, x));
    }
  }

  /** Distinct children, each of whose resolved kinds are new to it. */
  ghost predicate EntriesFresh(a: seq<Person>, es: seq<(nat, seq<(Relationship, nat)>)>) {
    && (forall k :: 0 <= k < |es| ==> es[k].0 < |a|)
    && (forall i, j :: 0 <= i < j < |es| ==> es[i].0 != es[j].0)
    && (forall k :: 0 <= k < |es| ==> FreshKinds(a[es[k].0].parents, es[k].1))
  }

  /** What wiring the resolved entries `es` into `a` gives: ids and names kept, children extended by
      `ChildrenFrom`, people with no entry keeping their parents, and, when the entries are fresh, each entry's
      child taking exactly its resolved pairs. */
  ghost predicate WiredEntries(a: seq<Person>, es: seq<(nat, seq<(Relationship, nat)>)>, r: seq<Person>)
    requires |r| == |a|
  {
    && (forall x :: 0 <= x < |a| ==> r[x].id == a[x].id && r[x].name == a[x].name)
    && (forall x :: 0 <= x < |a| ==> r[x].children == a[x].children + ChildrenFrom(es, x))
    && (forall x :: 0 <= x < |a| && (forall k :: 0 <= k < |es| ==> es[k].0 != x) ==> r[x].parents == a[x].parents)
    && (EntriesFresh(a, es) ==> forall k :: 0 <= k < |es| ==> r[es[k].0].parents == a[es[k].0].parents + es[k].1)
  }

  /** The outer loop of the wiring: each entry looks its child up, then wires the child's pairs. */
  function WireEntries(a: seq<Person>, ids: seq<string>, rels: seq<(string, seq<(string, string)>)>): (r: Result<seq<Person>>)
    requires |ids| == |a| && WellFormed(a)
    ensures r.Success? <==> ResolveEntries(ids, rels).Success?
    ensures r.Failure? ==> r.error == KeyError
    ensures r.Success? ==> |r.value| == |a| && WellFormed(r.value) && WiredEntries(a, ResolveEntries(ids, rels).value, r.value)
    decreases |rels|
  {
    if rels == [] then
      assert WiredEntries(a, [], a) by {
        assert forall x :: 0 <= x < |a| ==> ChildrenFrom([], x) == [];
      }
      Success(a)
    else
      var c :- Find(ids, rels[0].0);
      var a1 :- WirePairs(a, ids, c, rels[0].1);
      var rest := WireEntries(a1, ids, rels[1..]);
      assert forall k :: 1 <= k < |rels| ==> rels[k] == rels[1..][k - 1];
      if rest.Failure? then rest
      else
        var es := ResolveEntries(ids, rels).value;
        assert es == [(c, ResolvePairs(ids, rels[0].1).value)] + ResolveEntries(ids, rels[1..]).value;
        WireEntriesStep(a, es, a1, rest.value);
        rest
  }

  lemma WireEntriesStep(a: seq<Person>, es: seq<(nat, seq<(Relationship, nat)>)>, a1: seq<Person>, r: seq<Person>)
    requires es != [] && es[0].0 < |a| && |a1| == |a| && |r| == |a|
    requires WiredPairs(a, es[0].0, es[0].1, a1)
    requires WiredEntries(a1, es[1..], r)
    ensures WiredEntries(a, es, r)
  {
    EntriesChildrenStep(a, es, a1, r);
    EntriesUntouchedStep(a, es, a1, r);
    if EntriesFresh(a, es) {
      EntriesFreshStep(a, es, a1);
      EntriesParentsStep(a, es, a1, r);
    }
  }

  lemma EntriesChildrenStep(a: seq<Person>, es: seq<(nat, seq<(Relationship, nat)>)>, a1: seq<Person>, r: seq<Person>)
    requires es != [] && |a1| == |a| && |r| == |a|
    requires forall x :: 0 <= x < |a| ==> a1[x].children == a[x].children + Copies(es[0].0, es[0].1, x)
    requires forall x :: 0 <= x < |a| ==> r[x].children == a1[x].children + ChildrenFrom(es[1..], x)
    ensures forall x :: 0 <= x < |a| ==> r[x].children == a[x].children + ChildrenFrom(es, x)
  {
    forall x | 0 <= x < |a|
      ensures r[x].children == a[x].children + ChildrenFrom(es, x)
    {
      ChildrenFromCons(es, x);
      AppendStep(a[x].children, Copies(es[0].0, es[0].1, x), ChildrenFrom(es[1..], x), a1[x].children, r[x].children,
        ChildrenFrom(es, x));
    }
  }

  lemma AppendStep(a: seq<nat>, cp: seq<nat>, rest: seq<nat>, a1: seq<nat>, r: seq<nat>, all: seq<nat>)
    requires a1 == a + cp && r == a1 + rest && all == cp + rest
    ensures r == a + all
  {
  }

  lemma ChildrenFromCons(es: seq<(nat, seq<(Relationship, nat)>)>, x: nat)
    requires es != []
    ensures ChildrenFrom(es, x) == Copies(es[0].0, es[0].1, x) + ChildrenFrom(es[1..], x)
  {
  }

  lemma EntriesUntouchedStep(a: seq<Person>, es: seq<(nat, seq<(Relationship, nat)>)>, a1: seq<Person>, r: seq<Person>)
    requires es != [] && |a1| == |a| && |r| == |a|
    requires forall x :: 0 <= x < |a| && x != es[0].0 ==> a1[x].parents == a[x].parents
    requires forall x :: 0 <= x < |a| && (forall k :: 0 <= k < |es[1..]| ==> es[1..][k].0 != x) ==> r[x].parents == a1[x].parents
    ensures forall x :: 0 <= x < |a| && (forall k :: 0 <= k < |es| ==> es[k].0 != x) ==> r[x].parents == a[x].parents
  {
    var tail := es[1..];
    forall x | 0 <= x < |a| && (forall k :: 0 <= k < |es| ==> es[k].0 != x)
      ensures r[x].parents == a[x].parents
    {
      assert forall k :: 0 <= k < |tail| ==> tail[k].0 != x by {
        forall k | 0 <= k < |tail| ensures tail[k].0 != x {
          assert tail[k] == es[k + 1];
        }
      }
      assert es[0].0 != x;
    }
  }

  lemma EntriesParentsStep(a: seq<Person>, es: seq<(nat, seq<(Relationship, nat)>)>, a1: seq<Person>, r: seq<Person>)
    requires es != [] && es[0].0 < |a| && |a1| == |a| && |r| == |a|
    requires forall i, j :: 0 <= i < j < |es| ==> es[i].0 != es[j].0
    requires forall k :: 0 <= k < |es| ==> es[k].0 < |a|
    requires a1[es[0].0].parents == a[es[0].0].parents + es[0].1
    requires forall x :: 0 <= x < |a| && (forall k :: 0 <= k < |es[1..]| ==> es[1..][k].0 != x) ==> r[x].parents == a1[x].parents
    requires forall k :: 0 <= k < |es[1..]| ==> r[es[1..][k].0].parents == a1[es[1..][k].0].parents + es[1..][k].1
    requires forall x :: 0 <= x < |a| && x != es[0].0 ==> a1[x].parents == a[x].parents
    ensures forall k :: 0 <= k < |es| ==> r[es[k].0].parents == a[es[k].0].parents + es[k].1
  {
    var c := es[0].0;
    var tail := es[1..];
    forall k | 0 <= k < |es|
      ensures r[es[k].0].parents == a[es[k].0].parents + es[k].1
    {
      if k == 0 {
        assert forall j :: 0 <= j < |tail| ==> tail[j].0 != c by {
          forall j | 0 <= j < |tail| ensures tail[j].0 != c {
            assert tail[j] == es[j + 1];
          }
        }
      } else {
        assert es[k] == tail[k - 1];
        assert es[k].0 != c;
      }
    }
  }

  lemma EntriesFreshStep(a: seq<Person>, es: seq<(nat, seq<(Relationship, nat)>)>, a1: seq<Person>)
    requires es != [] && EntriesFresh(a, es) && |a1| == |a|
    requires forall x :: 0 <= x < |a| && x != es[0].0 ==> a1[x].parents == a[x].parents
    ensures EntriesFresh(a1, es[1..])
  {
    var tail := es[1..];
    forall k | 0 <= k < |tail|
      ensures tail[k].0 < |a1| && FreshKinds(a1[tail[k].0].parents, tail[k].1)
    {
      assert tail[k] == es[k + 1];
      assert es[0].0 != es[k + 1].0;
    }
    forall i, j | 0 <= i < j < |tail|
      ensures tail[i].0 != tail[j].0
    {
      assert tail[i] == es[i + 1] && tail[j] == es[j + 1];
    }
  }

  /** `FamilyTree.from_json` over an already decoded document: one person per entry of the people dictionary,
      then the relationships wired in order. A child id, a parent id or a kind name that is not known is a
      `KeyError`; otherwise ids and names are kept and every index points into the arena. */
  function FromJson(people: seq<(string, string)>, rels: seq<(string, seq<(string, string)>)>): (r: Result<seq<Person>>)
    ensures r.Failure? <==> exists k :: 0 <= k < |rels| && (rels[k].0 !in Ids(people) || ResolvePairs(Ids(people), rels[k].1).Failure?)
    ensures r.Failure? ==> r.error == KeyError
    ensures r.Success? ==> |r.value| == |people| && WellFormed(r.value)
    ensures r.Success? ==> forall x :: 0 <= x < |people| ==> r.value[x].id == people[x].0 && r.value[x].name == people[x].1
  {
    WireEntries(Unwired(people), Ids(people), rels)
  }

  /** What a decoded JSON document guarantees: dictionary keys are distinct, both the people ids, the child ids
      of the relationships and the kind names of each child's entry. */
  predicate Decoded(people: seq<(string, string)>, rels: seq<(string, seq<(string, string)>)>) {
    && DistinctStrings(Ids(people))
    && (forall i, j :: 0 <= i < j < |rels| ==> rels[i].0 != rels[j].0)
    && (forall k, i, j :: 0 <= k < |rels| && 0 <= i < j < |rels[k].1| ==> rels[k].1[i].0 != rels[k].1[j].0)
  }

  /** In a family built from a decoded document, two people are equal exactly when they are the same entry of the
      arena, so comparing arena indices is comparing people. */
  lemma SamePersonIsEntry(people: seq<(string, string)>, rels: seq<(string, seq<(string, string)>)>, x: nat, y: nat)
    requires Decoded(people, rels) && FromJson(people, rels).Success? && x < |people| && y < |people|
    ensures SamePerson(FromJson(people, rels).value[x], FromJson(people, rels).value[y]) <==> x == y
  {
    var ids := Ids(people);
    if x < y {
      assert ids[x] != ids[y];
    } else if y < x {
      assert ids[y] != ids[x];
    }
  }

  lemma DecodedFresh(people: seq<(string, string)>, rels: seq<(string, seq<(string, string)>)>)
    requires Decoded(people, rels) && ResolveEntries(Ids(people), rels).Success?
    ensures EntriesFresh(Unwired(people), ResolveEntries(Ids(people), rels).value)
  {
    var ids := Ids(people);
    var es := ResolveEntries(ids, rels).value;
    forall i, j | 0 <= i < j < |es|
      ensures es[i].0 != es[j].0
    {
      assert ids[es[i].0] == rels[i].0 && ids[es[j].0] == rels[j].0;
    }
    forall k | 0 <= k < |es|
      ensures FreshKinds(Unwired(people)[es[k].0].parents, es[k].1)
    {
      var rs := es[k].1;
      forall i, j | 0 <= i < j < |rs|
        ensures rs[i].0 != rs[j].0
      {
        assert RelationshipName(rs[i].0) == rels[k].1[i].0;
        assert RelationshipName(rs[j].0) == rels[k].1[j].0;
      }
    }
  }

  lemma DecodedWired(people: seq<(string, string)>, rels: seq<(string, seq<(string, string)>)>)
    requires Decoded(people, rels) && FromJson(people, rels).Success?
    ensures ResolveEntries(Ids(people), rels).Success?
    ensures var es := ResolveEntries(Ids(people), rels).value; var r := FromJson(people, rels).value;
      |r| == |people| && Linked(r, es) && forall i, j :: 0 <= i < j < |es| ==> es[i].0 != es[j].0
  {
    var es := ResolveEntries(Ids(people), rels).value;
    var a := Unwired(people);
    var r := FromJson(people, rels).value;
    assert |r| == |a| && WiredEntries(a, es, r);
    DecodedFresh(people, rels);
    WiredLinked(a, es, r);
  }

  /** Wiring fresh entries into people with no relations links them as the entries say. */
  lemma WiredLinked(a: seq<Person>, es: seq<(nat, seq<(Relationship, nat)>)>, r: seq<Person>)
    requires |r| == |a| && WiredEntries(a, es, r) && EntriesFresh(a, es)
    requires forall x :: 0 <= x < |a| ==> a[x].children == [] && a[x].parents == []
    ensures Linked(r, es)
  {
    forall x | 0 <= x < |r| ensures r[x].children == ChildrenFrom(es, x) {
      assert r[x].children == [] + ChildrenFrom(es, x);
    }
    forall k | 0 <= k < |es| && es[k].0 < |r| ensures r[es[k].0].parents == es[k].1 {
      assert r[es[k].0].parents == [] + es[k].1;
    }
  }

  /** The parents a decoded document gives: each child with an entry takes exactly its resolved pairs, in the
      entry's order, and everybody else has none. */
  lemma FromJsonParents(people: seq<(string, string)>, rels: seq<(string, seq<(string, string)>)>)
    requires Decoded(people, rels) && FromJson(people, rels).Success?
    ensures var r := FromJson(people, rels).value; var ids := Ids(people);
      && (forall k :: 0 <= k < |rels| ==> r[Find(ids, rels[k].0).value].parents == ResolvePairs(ids, rels[k].1).value)
      && (forall x :: 0 <= x < |people| && people[x].0 !in (set k | 0 <= k < |rels| :: rels[k].0) ==> r[x].parents == [])
  {
    DecodedWired(people, rels);
    NoEntryNoParents(people, rels);
  }

  lemma NoEntryNoParents(people: seq<(string, string)>, rels: seq<(string, seq<(string, string)>)>)
    requires ResolveEntries(Ids(people), rels).Success?
    ensures var es := ResolveEntries(Ids(people), rels).value;
      forall x :: 0 <= x < |people| && people[x].0 !in (set k | 0 <= k < |rels| :: rels[k].0) ==>
        forall k :: 0 <= k < |es| ==> es[k].0 != x
  {
    var ids := Ids(people);
    var es := ResolveEntries(ids, rels).value;
    forall x, k | 0 <= x < |people| && people[x].0 !in (set k | 0 <= k < |rels| :: rels[k].0) && 0 <= k < |es|
      ensures es[k].0 != x
    {
      assert ids[es[k].0] == rels[k].0;
    }
  }

  /** Wiring keeps the two directions of a relationship in step: `c` is among `p`'s children exactly when `p`
      is among `c`'s parents. */
  lemma FromJsonInverse(people: seq<(string, string)>, rels: seq<(string, seq<(string, string)>)>)
    requires Decoded(people, rels) && FromJson(people, rels).Success?
    ensures var r := FromJson(people, rels).value;
      forall p, c :: 0 <= p < |r| && 0 <= c < |r| ==>
        (c in r[p].children <==> exists j :: 0 <= j < |r[c].parents| && r[c].parents[j].1 == p)
  {
    DecodedWired(people, rels);
    EntriesInverse(FromJson(people, rels).value, ResolveEntries(Ids(people), rels).value);
  }

  /** The people `r` as the entries `es` wire them from nobody related: each one's children are the ones the
      entries give it, a child with an entry has exactly its pairs as parents and everybody else has none. */
  ghost predicate Linked(r: seq<Person>, es: seq<(nat, seq<(Relationship, nat)>)>) {
    && (forall x :: 0 <= x < |r| ==> r[x].children == ChildrenFrom(es, x))
    && (forall x :: 0 <= x < |r| && (forall k :: 0 <= k < |es| ==> es[k].0 != x) ==> r[x].parents == [])
    && (forall k :: 0 <= k < |es| && es[k].0 < |r| ==> r[es[k].0].parents == es[k].1)
  }

  lemma EntriesInverse(r: seq<Person>, es: seq<(nat, seq<(Relationship, nat)>)>)
    requires Linked(r, es)
    ensures forall p, c :: 0 <= p < |r| && 0 <= c < |r| ==>
      (c in r[p].children <==> exists j :: 0 <= j < |r[c].parents| && r[c].parents[j].1 == p)
  {
    forall p, c | 0 <= p < |r| && 0 <= c < |r|
      ensures c in r[p].children <==> exists j :: 0 <= j < |r[c].parents| && r[c].parents[j].1 == p
    {
      ParentOf(r, es, p, c);
    }
  }

  lemma ParentOf(r: seq<Person>, es: seq<(nat, seq<(Relationship, nat)>)>, p: nat, c: nat)
    requires p < |r| && c < |r|
    requires r[p].children == ChildrenFrom(es, p)
    requires (forall k :: 0 <= k < |es| ==> es[k].0 != c) ==> r[c].parents == []
    requires forall k :: 0 <= k < |es| && es[k].0 == c ==> r[c].parents == es[k].1
    ensures c in r[p].children <==> exists j :: 0 <= j < |r[c].parents| && r[c].parents[j].1 == p
  {
    if c in r[p].children {
      var k, j :| 0 <= k < |es| && 0 <= j < |es[k].1| && es[k].0 == c && es[k].1[j].1 == p;
      assert r[c].parents[j].1 == p;
    }
    if j :| 0 <= j < |r[c].parents| && r[c].parents[j].1 == p {
      var k :| 0 <= k < |es| && es[k].0 == c;
      assert es[k].1[j].1 == p;
    }
  }

  // ---------------------------------------------------------------------------------------------
  // Generations

  /** No person is listed twice. */
  predicate Distinct(order: seq<nat>) {
    forall i, j :: 0 <= i < j < |order| ==> order[i] != order[j]
  }

  /** Every entry of `order` is a person of an arena of `n`. */
  predicate Within(order: seq<nat>, n: nat) {
    forall i :: 0 <= i < |order| ==> order[i] < n
  }

  /** One visit of the forward pass: for each child in turn, `generation = max(generation, child.generation + 1)`. */
  function RaiseOver(gen: seq<int>, p: nat, cs: seq<nat>): (r: seq<int>)
    requires p < |gen| && Within(cs, |gen|)
    ensures |r| == |gen|
    ensures forall x :: 0 <= x < |gen| && x != p ==> r[x] == gen[x]
    ensures r[p] >= gen[p]
    ensures forall k :: 0 <= k < |cs| && cs[k] != p ==> r[p] >= gen[cs[k]] + 1
    ensures p !in cs ==> r[p] == gen[p] || exists k :: 0 <= k < |cs| && r[p] == gen[cs[k]] + 1
    decreases |cs|
  {
    if cs == [] then gen
    else
      var g1 := gen[p := Max(gen[p], gen[cs[0]] + 1)];
      var r := RaiseOver(g1, p, cs[1..]);
      RaiseOverStep(gen, p, cs, g1, r);
      r
  }

  lemma RaiseOverStep(gen: seq<int>, p: nat, cs: seq<nat>, g1: seq<int>, r: seq<int>)
    requires p < |gen| && Within(cs, |gen|) && cs != []
    requires g1 == gen[p := Max(gen[p], gen[cs[0]] + 1)] && |r| == |gen|
    requires forall x :: 0 <= x < |gen| && x != p ==> r[x] == g1[x]
    requires r[p] >= g1[p]
    requires forall k :: 0 <= k < |cs[1..]| && cs[1..][k] != p ==> r[p] >= g1[cs[1..][k]] + 1
    requires p !in cs[1..] ==> r[p] == g1[p] || exists k :: 0 <= k < |cs[1..]| && r[p] == g1[cs[1..][k]] + 1
    ensures forall k :: 0 <= k < |cs| && cs[k] != p ==> r[p] >= gen[cs[k]] + 1
    ensures p !in cs ==> r[p] == gen[p] || exists k :: 0 <= k < |cs| && r[p] == gen[cs[k]] + 1
  {
    assert forall k :: 1 <= k < |cs| ==> cs[k] == cs[1..][k - 1];
    if p !in cs && r[p] != gen[p] {
      if r[p] == g1[p] {
        assert r[p] == gen[cs[0]] + 1;
      } else {
        var k :| 0 <= k < |cs[1..]| && r[p] == g1[cs[1..][k]] + 1;
        assert r[p] == gen[cs[k + 1]] + 1;
      }
    }
  }

  /** The value a visit at position `i` reads for person `q`: a person still to come, or the visited one itself,
      holds its value from before the pass (`before`); one already visited holds its value after the pass. */
  function Seen(later: bool, before: seq<int>, after: seq<int>, q: nat): int
    requires q < |before| && q < |after|
  {
    if later then before[q] else after[q]
  }

  /** What the forward pass leaves for the person at position `i`: above every other child by one, counting the
      value it read from that child, and equal either to its own earlier value or to one such child value plus
      one. */
  ghost predicate RaisedAt(a: seq<Person>, order: seq<nat>, gen: seq<int>, r: seq<int>, i: nat)
    requires WellFormed(a) && |gen| == |a| && |r| == |a| && Within(order, |a|) && i < |order|
  {
    var q := order[i];
    var cs := a[q].children;
    && (forall k :: 0 <= k < |cs| && cs[k] != q ==> r[q] >= Seen(cs[k] in order[i..], gen, r, cs[k]) + 1)
    && (q !in cs ==> r[q] == gen[q] || exists k :: 0 <= k < |cs| && r[q] == Seen(cs[k] in order[i..], gen, r, cs[k]) + 1)
  }

  /** The forward pass of `_compute_generations`: every person in `order` in turn raises its generation above
      its children's. It never lowers a generation, leaves people outside `order` alone, and each visited
      person ends one above the largest value it read from a child (or keeps its own). */
  function ForwardPass(a: seq<Person>, order: seq<nat>, gen: seq<int>): (r: seq<int>)
    requires WellFormed(a) && |gen| == |a| && Within(order, |a|)
    ensures |r| == |gen|
    ensures forall x :: 0 <= x < |gen| ==> r[x] >= gen[x]
    ensures forall x :: 0 <= x < |gen| && x !in order ==> r[x] == gen[x]
    ensures Distinct(order) ==> forall i :: 0 <= i < |order| ==> RaisedAt(a, order, gen, r, i)
    decreases |order|
  {
    if order == [] then gen
    else
      var p := order[0];
      var g1 := RaiseOver(gen, p, a[p].children);
      var r := ForwardPass(a, order[1..], g1);
      assert forall k :: 1 <= k < |order| ==> order[k] == order[1..][k - 1];
      ForwardStep(a, order, gen, g1, r);
      r
  }

  lemma DistinctTail(order: seq<nat>)
    requires order != [] && Distinct(order)
    ensures Distinct(order[1..]) && order[0] !in order[1..]
  {
    assert forall j :: 0 <= j < |order[1..]| ==> order[1..][j] == order[j + 1];
  }

  lemma DistinctHead(order: seq<nat>)
    requires order != [] && Distinct(order)
    ensures Distinct(order[..|order| - 1]) && order[|order| - 1] !in order[..|order| - 1]
  {
    assert forall j :: 0 <= j < |order| - 1 ==> order[..|order| - 1][j] == order[j];
  }

  lemma ForwardStep(a: seq<Person>, order: seq<nat>, gen: seq<int>, g1: seq<int>, r: seq<int>)
    requires WellFormed(a) && |gen| == |a| && Within(order, |a|) && order != []
    requires g1 == RaiseOver(gen, order[0], a[order[0]].children)
    requires |r| == |a| && forall x :: 0 <= x < |a| && x !in order[1..] ==> r[x] == g1[x]
    requires Distinct(order[1..]) ==> forall i :: 0 <= i < |order[1..]| ==> RaisedAt(a, order[1..], g1, r, i)
    ensures Distinct(order) ==> forall i :: 0 <= i < |order| ==> RaisedAt(a, order, gen, r, i)
  {
    if Distinct(order) {
      DistinctTail(order);
      forall i | 0 <= i < |order|
        ensures RaisedAt(a, order, gen, r, i)
      {
        if i == 0 {
          RaisedFirst(a, order, gen, g1, r);
        } else {
          RaisedShift(a, order, gen, g1, r, i);
        }
      }
    }
  }

  lemma RaisedFirst(a: seq<Person>, order: seq<nat>, gen: seq<int>, g1: seq<int>, r: seq<int>)
    requires WellFormed(a) && |gen| == |a| && Within(order, |a|) && order != []
    requires g1 == RaiseOver(gen, order[0], a[order[0]].children)
    requires |r| == |a| && order[0] !in order[1..]
    requires forall x :: 0 <= x < |a| && x !in order[1..] ==> r[x] == g1[x]
    ensures RaisedAt(a, order, gen, r, 0)
  {
    var q := order[0];
    var cs := a[q].children;
    assert order[0..] == order;
    assert r[q] == g1[q];
    forall k | 0 <= k < |cs|
      ensures Seen(cs[k] in order, gen, r, cs[k]) == gen[cs[k]]
    {
      if cs[k] !in order {
        assert cs[k] !in order[1..];
      }
    }
  }

  lemma RaisedShift(a: seq<Person>, order: seq<nat>, gen: seq<int>, g1: seq<int>, r: seq<int>, i: nat)
    requires WellFormed(a) && |gen| == |a| && Within(order, |a|) && 0 < i < |order| && Distinct(order)
    requires |g1| == |a| && forall x :: 0 <= x < |a| && x != order[0] ==> g1[x] == gen[x]
    requires |r| == |a| && RaisedAt(a, order[1..], g1, r, i - 1)
    ensures RaisedAt(a, order, gen, r, i)
  {
    var q := order[i];
    var cs := a[q].children;
    assert order[1..][i - 1] == q && order[1..][i - 1..] == order[i..];
    forall k | 0 <= k < |cs| && cs[k] in order[i..]
      ensures g1[cs[k]] == gen[cs[k]]
    {
      var j :| i <= j < |order| && order[j] == cs[k];
      assert order[0] != order[j];
    }
    assert q != order[0] ==> g1[q] == gen[q];
    assert order[0] != order[i];
  }

  /** The least current generation among a non-empty list of parents. */
  function MinParents(gen: seq<int>, ps: seq<(Relationship, nat)>): (r: int)
    requires ps != [] && forall j :: 0 <= j < |ps| ==> ps[j].1 < |gen|
    ensures forall j :: 0 <= j < |ps| ==> r <= gen[ps[j].1]
    ensures exists j :: 0 <= j < |ps| && r == gen[ps[j].1]
  {
    if |ps| == 1 then gen[ps[0].1]
    else
      var rest := MinParents(gen, ps[1..]);
      assert forall j :: 1 <= j < |ps| ==> ps[j] == ps[1..][j - 1];
      if gen[ps[0].1] < rest then gen[ps[0].1] else rest
  }

  /** One visit of the backward pass: a person with parents takes one less than their least generation. */
  function LowerOne(a: seq<Person>, gen: seq<int>, p: nat): (r: seq<int>)
    requires WellFormed(a) && |gen| == |a| && p < |a|
    ensures |r| == |gen| && forall x :: 0 <= x < |gen| && x != p ==> r[x] == gen[x]
    ensures a[p].parents == [] ==> r[p] == gen[p]
    ensures a[p].parents != [] ==> r[p] == MinParents(gen, a[p].parents) - 1
  {
    if a[p].parents == [] then gen else gen[p := MinParents(gen, a[p].parents) - 1]
  }

  /** What the backward pass leaves for the person at position `i` when it has parents: one below every parent,
      counting the value it read from that parent, and one below one of them exactly. */
  ghost predicate LoweredAt(a: seq<Person>, order: seq<nat>, gen: seq<int>, r: seq<int>, i: nat)
    requires WellFormed(a) && |gen| == |a| && |r| == |a| && Within(order, |a|) && i < |order|
  {
    var q := order[i];
    var ps := a[q].parents;
    && (forall j :: 0 <= j < |ps| ==> r[q] + 1 <= Seen(ps[j].1 in order[..i + 1], gen, r, ps[j].1))
    && (ps != [] ==> exists j :: 0 <= j < |ps| && r[q] + 1 == Seen(ps[j].1 in order[..i + 1], gen, r, ps[j].1))
  }

  /** The backward pass of `_compute_generations`: every person in `order`, last first, that has parents takes
      one less than the least generation it reads from them; parentless people and people outside `order`
      keep their generation. */
  function BackwardPass(a: seq<Person>, order: seq<nat>, gen: seq<int>): (r: seq<int>)
    requires WellFormed(a) && |gen| == |a| && Within(order, |a|)
    ensures |r| == |gen|
    ensures forall x :: 0 <= x < |gen| && x !in order ==> r[x] == gen[x]
    ensures forall x :: 0 <= x < |gen| && a[x].parents == [] ==> r[x] == gen[x]
    ensures Distinct(order) ==> forall i :: 0 <= i < |order| ==> LoweredAt(a, order, gen, r, i)
    decreases |order|
  {
    if order == [] then gen
    else
      var n := |order| - 1;
      var p := order[n];
      var g1 := LowerOne(a, gen, p);
      var r := BackwardPass(a, order[..n], g1);
      assert forall k :: 0 <= k < n ==> order[k] == order[..n][k];
      BackwardStep(a, order, gen, g1, r);
      r
  }

  lemma BackwardStep(a: seq<Person>, order: seq<nat>, gen: seq<int>, g1: seq<int>, r: seq<int>)
    requires WellFormed(a) && |gen| == |a| && Within(order, |a|) && order != []
    requires g1 == LowerOne(a, gen, order[|order| - 1])
    requires |r| == |a| && forall x :: 0 <= x < |a| && x !in order[..|order| - 1] ==> r[x] == g1[x]
    requires var head := order[..|order| - 1]; Distinct(head) ==> forall i :: 0 <= i < |head| ==> LoweredAt(a, head, g1, r, i)
    ensures Distinct(order) ==> forall i :: 0 <= i < |order| ==> LoweredAt(a, order, gen, r, i)
  {
    if Distinct(order) {
      DistinctHead(order);
      forall i | 0 <= i < |order|
        ensures LoweredAt(a, order, gen, r, i)
      {
        if i == |order| - 1 {
          LoweredLast(a, order, gen, g1, r);
        } else {
          LoweredShift(a, order, gen, g1, r, i);
        }
      }
    }
  }

  lemma LoweredLast(a: seq<Person>, order: seq<nat>, gen: seq<int>, g1: seq<int>, r: seq<int>)
    requires WellFormed(a) && |gen| == |a| && Within(order, |a|) && order != []
    requires g1 == LowerOne(a, gen, order[|order| - 1])
    requires |r| == |a| && order[|order| - 1] !in order[..|order| - 1]
    requires forall x :: 0 <= x < |a| && x !in order[..|order| - 1] ==> r[x] == g1[x]
    ensures LoweredAt(a, order, gen, r, |order| - 1)
  {
    var n := |order| - 1;
    var q := order[n];
    var ps := a[q].parents;
    assert order[..n + 1] == order;
    assert r[q] == g1[q];
    forall j | 0 <= j < |ps|
      ensures Seen(ps[j].1 in order, gen, r, ps[j].1) == gen[ps[j].1]
    {
      if ps[j].1 !in order {
        assert ps[j].1 !in order[..n];
      }
    }
  }

  lemma LoweredShift(a: seq<Person>, order: seq<nat>, gen: seq<int>, g1: seq<int>, r: seq<int>, i: nat)
    requires WellFormed(a) && |gen| == |a| && Within(order, |a|) && i < |order| - 1 && Distinct(order)
    requires |g1| == |a| && forall x :: 0 <= x < |a| && x != order[|order| - 1] ==> g1[x] == gen[x]
    requires |r| == |a| && LoweredAt(a, order[..|order| - 1], g1, r, i)
    ensures LoweredAt(a, order, gen, r, i)
  {
    var n := |order| - 1;
    var q := order[i];
    var ps := a[q].parents;
    assert order[..n][i] == q && order[..n][..i + 1] == order[..i + 1];
    forall j | 0 <= j < |ps| && ps[j].1 in order[..i + 1]
      ensures g1[ps[j].1] == gen[ps[j].1]
    {
      var m :| 0 <= m < i + 1 && order[m] == ps[j].1;
      assert order[m] != order[n];
    }
  }

  /** `_compute_generations` after the topological sort: the forward pass, then the backward pass. */
  function ComputeGenerations(a: seq<Person>, order: seq<nat>, initial: seq<int>): (r: seq<int>)
    requires WellFormed(a) && |initial| == |a| && Within(order, |a|)
    ensures |r| == |a|
    ensures forall x :: 0 <= x < |a| && x !in order ==> r[x] == initial[x]
    ensures forall x :: 0 <= x < |a| && a[x].parents == [] ==> r[x] >= initial[x]
  {
    BackwardPass(a, order, ForwardPass(a, order, initial))
  }

  // ---------------------------------------------------------------------------------------------
  // Topological order

  /** The state `_sort_topologically` threads through its loop: the visited people and the nodes appended so far. */
  datatype Walk = Walk(visited: set<nat>, appended: seq<nat>)

  /** The `for` loop of `_sort_topologically` from `people[k]` on. Each person not yet visited is handed to the
      depth-first traversal, which is given as `traverse`: from the person and the visited set it yields the
      people it marks visited and the nodes it appends, in order. Then the person itself is appended. */
  function Accumulate(people: seq<nat>, traverse: (nat, set<nat>) -> (set<nat>, seq<nat>), w: Walk): (r: Walk)
    ensures w.visited <= r.visited
    ensures |w.appended| <= |r.appended| && r.appended[..|w.appended|] == w.appended
    ensures forall k :: 0 <= k < |people| ==> people[k] in r.visited || people[k] in r.appended
    decreases |people|
  {
    if people == [] then w
    else
      var node := people[0];
      var next := Visit(traverse, w, node);
      assert node in next.visited || node in next.appended;
      var r := Accumulate(people[1..], traverse, next);
      assert forall k :: 1 <= k < |people| ==> people[k] == people[1..][k - 1];
      assert r.appended[..|next.appended|] == next.appended;
      assert node in next.appended ==> node in r.appended by {
        if node in next.appended {
          var j :| 0 <= j < |next.appended| && next.appended[j] == node;
          assert r.appended[j] == node;
        }
      }
      assert r.appended[..|w.appended|] == next.appended[..|w.appended|];
      r
  }

  /** One turn of the loop: an unvisited node is traversed, then appended. */
  function Visit(traverse: (nat, set<nat>) -> (set<nat>, seq<nat>), w: Walk, node: nat): (r: Walk)
    ensures node in w.visited ==> r == w
    ensures node !in w.visited ==>
      r.visited == w.visited + traverse(node, w.visited).0 && r.appended == w.appended + traverse(node, w.visited).1 + [node]
  {
    if node in w.visited then w
    else Walk(w.visited + traverse(node, w.visited).0, w.appended + traverse(node, w.visited).1 + [node])
  }

  /** `reversed`. */
  function Reverse(s: seq<nat>): (r: seq<nat>)
    ensures |r| == |s| && forall k :: 0 <= k < |s| ==> r[k] == s[|s| - 1 - k]
  {
    if s == [] then [] else Reverse(s[1..]) + [s[0]]
  }

  lemma {:induction false} ReverseInvolution(s: seq<nat>)
    ensures Reverse(Reverse(s)) == s
  {
    var r := Reverse(s);
    assert forall k :: 0 <= k < |s| ==> Reverse(r)[k] == r[|r| - 1 - k] == s[k];
  }

  /** `_sort_topologically`: the `while True` body runs its `for` loop once and the `for`'s `else` always breaks,
      so there is exactly one pass; the new order is the appended nodes reversed. Every person ends either
      among the visited or in the order, and the last person handed to the traversal comes first. */
  function SortTopologically(people: seq<nat>, traverse: (nat, set<nat>) -> (set<nat>, seq<nat>)): (r: (set<nat>, seq<nat>))
    ensures var w := Accumulate(people, traverse, Walk({}, []));
      |r.1| == |w.appended| && forall k :: 0 <= k < |r.1| ==> r.1[k] == w.appended[|w.appended| - 1 - k]
    ensures forall k :: 0 <= k < |people| ==> people[k] in r.0 || people[k] in r.1
    ensures people != [] ==> r.1 != []
  {
    var w := Accumulate(people, traverse, Walk({}, []));
    FirstAppended(people, traverse);
    var order := Reverse(w.appended);
    assert forall k :: 0 <= k < |people| ==> (people[k] in w.appended <==> people[k] in order) by {
      forall k | 0 <= k < |people| ensures people[k] in w.appended <==> people[k] in order {
        if people[k] in w.appended {
          var j :| 0 <= j < |w.appended| && w.appended[j] == people[k];
          assert order[|w.appended| - 1 - j] == people[k];
        }
      }
    }
    (w.visited, order)
  }

  lemma FirstAppended(people: seq<nat>, traverse: (nat, set<nat>) -> (set<nat>, seq<nat>))
    ensures people != [] ==> people[0] in Accumulate(people, traverse, Walk({}, [])).appended
  {
    if people != [] {
      var n := people[0];
      var next := Visit(traverse, Walk({}, []), n);
      var w := Accumulate(people[1..], traverse, next);
      assert Accumulate(people, traverse, Walk({}, [])) == w;
      assert w.appended[..|next.appended|] == next.appended;
      assert next.appended[|next.appended| - 1] == n;
    }
  }

  // ---------------------------------------------------------------------------------------------
  // Writing relationships back

  /** The people of `order` that have parents, in order. */
  function WithParents(a: seq<Person>, order: seq<nat>): (r: seq<nat>)
    requires Within(order, |a|)
    ensures |r| <= |order| && Within(r, |a|)
    ensures forall k :: 0 <= k < |r| ==> r[k] in order && a[r[k]].parents != []
    ensures forall i :: 0 <= i < |order| && a[order[i]].parents != [] ==> order[i] in r
    decreases |order|
  {
    if order == [] then []
    else
      var rest := WithParents(a, order[1..]);
      assert forall k :: 1 <= k < |order| ==> order[k] == order[1..][k - 1];
      assert forall x :: x in order[1..] ==> x in order;
      if a[order[0]].parents == [] then rest else [order[0]] + rest
  }

  lemma {:induction false} WithParentsDistinct(a: seq<Person>, order: seq<nat>)
    requires Within(order, |a|) && Distinct(order)
    ensures Distinct(WithParents(a, order))
    decreases |order|
  {
    if order != [] {
      DistinctTail(order);
      assert Within(order[1..], |a|) by {
        assert forall k :: 1 <= k < |order| ==> order[k] == order[1..][k - 1];
      }
      WithParentsDistinct(a, order[1..]);
      var rest := WithParents(a, order[1..]);
      assert order[0] !in rest;
    }
  }

  /** The `relationships` part of `to_json`: for each person of `order` that has parents, its id with its
      parents dictionary written as kind name and parent id. */
  function ToJsonRelationships(a: seq<Person>, order: seq<nat>): (r: seq<(string, seq<(string, string)>)>)
    requires WellFormed(a) && Within(order, |a|)
    ensures var ps := WithParents(a, order); |r| == |ps| && forall k :: 0 <= k < |ps| ==> r[k] == Written(a, ps[k])
  {
    var ps := WithParents(a, order);
    seq(|ps|, k requires 0 <= k < |ps| => Written(a, ps[k]))
  }

  /** One person's relationships entry: its id, and each (kind, parent) pair as (kind name, parent id). */
  function Written(a: seq<Person>, p: nat): (r: (string, seq<(string, string)>))
    requires WellFormed(a) && p < |a|
    ensures r.0 == a[p].id && |r.1| == |a[p].parents|
    ensures forall j :: 0 <= j < |r.1| ==>
      RelationshipByName(r.1[j].0) == Success(a[p].parents[j].0) && r.1[j].1 == a[a[p].parents[j].1].id
  {
    var ps := a[p].parents;
    assert forall j :: 0 <= j < |ps| ==> RelationshipByName(RelationshipName(ps[j].0)) == Success(ps[j].0) by {
      forall j | 0 <= j < |ps| ensures RelationshipByName(RelationshipName(ps[j].0)) == Success(ps[j].0) {
        RelationshipNameRoundTrip(ps[j].0);
      }
    }
    (a[p].id, seq(|ps|, j requires 0 <= j < |ps| => (RelationshipName(ps[j].0), a[ps[j].1].id)))
  }

  /** The `people` part of `to_json`: id and name of each person of `order`. */
  function ToJsonPeople(a: seq<Person>, order: seq<nat>): (r: seq<(string, string)>)
    requires Within(order, |a|)
    ensures |r| == |order| && forall k :: 0 <= k < |order| ==> r[k] == (a[order[k]].id, a[order[k]].name)
  {
    seq(|order|, k requires 0 <= k < |order| => (a[order[k]].id, a[order[k]].name))
  }

  /** `order` lists every person of the arena exactly once, and no two people share an id. */
  predicate Listing(a: seq<Person>, order: seq<nat>) {
    && Within(order, |a|) && Distinct(order)
    && (forall x :: 0 <= x < |a| ==> x in order)
    && (forall x, y :: 0 <= x < y < |a| ==> a[x].id != a[y].id)
  }

  lemma FindListed(a: seq<Person>, order: seq<nat>, x: nat)
    requires Listing(a, order) && x < |a|
    ensures Find(Ids(ToJsonPeople(a, order)), a[x].id).Success?
    ensures var v := Find(Ids(ToJsonPeople(a, order)), a[x].id).value; v < |order| && order[v] == x
  {
    var ids := Ids(ToJsonPeople(a, order));
    assert x in order;
    var i :| 0 <= i < |order| && order[i] == x;
    assert ids[i] == a[x].id;
    var v := Find(ids, a[x].id).value;
    assert a[order[v]].id == a[x].id;
  }

  lemma NamesDistinct(ps: seq<(Relationship, nat)>)
    requires DistinctKinds(ps)
    ensures forall i, j :: 0 <= i < j < |ps| ==> RelationshipName(ps[i].0) != RelationshipName(ps[j].0)
  {
    forall i, j | 0 <= i < j < |ps|
      ensures RelationshipName(ps[i].0) != RelationshipName(ps[j].0)
    {
      RelationshipNameRoundTrip(ps[i].0);
      RelationshipNameRoundTrip(ps[j].0);
    }
  }

  lemma WrittenResolves(a: seq<Person>, order: seq<nat>, x: nat)
    requires WellFormed(a) && Listing(a, order) && x < |a|
    ensures var ids := Ids(ToJsonPeople(a, order)); var rs := ResolvePairs(ids, Written(a, x).1);
      && rs.Success? && |rs.value| == |a[x].parents|
      && forall j :: 0 <= j < |rs.value| ==> rs.value[j].0 == a[x].parents[j].0 && order[rs.value[j].1] == a[x].parents[j].1
  {
    var ids := Ids(ToJsonPeople(a, order));
    var w := Written(a, x).1;
    forall j | 0 <= j < |w|
      ensures ResolvePair(ids, w[j]).Success?
      ensures ResolvePair(ids, w[j]).value.0 == a[x].parents[j].0 && order[ResolvePair(ids, w[j]).value.1] == a[x].parents[j].1
    {
      FindListed(a, order, a[x].parents[j].1);
    }
  }

  lemma DecodedToJson(a: seq<Person>, order: seq<nat>)
    requires WellFormed(a) && Listing(a, order)
    ensures Decoded(ToJsonPeople(a, order), ToJsonRelationships(a, order))
  {
    var people := ToJsonPeople(a, order);
    var rels := ToJsonRelationships(a, order);
    var ps := WithParents(a, order);
    WithParentsDistinct(a, order);
    assert DistinctStrings(Ids(people)) by {
      forall i, j | 0 <= i < j < |people| ensures Ids(people)[i] != Ids(people)[j] {
        assert order[i] != order[j];
      }
    }
    forall i, j | 0 <= i < j < |rels|
      ensures rels[i].0 != rels[j].0
    {
      assert ps[i] != ps[j];
    }
    forall k | 0 <= k < |rels|
      ensures forall i, j :: 0 <= i < j < |rels[k].1| ==> rels[k].1[i].0 != rels[k].1[j].0
    {
      NamesDistinct(a[ps[k]].parents);
    }
  }

  /** Writing the relationships with `to_json` and wiring them again gives every person back the same parents,
      kind by kind and in the same order, the arena now numbered along `order`. */
  lemma ToJsonRoundTrip(a: seq<Person>, order: seq<nat>)
    requires WellFormed(a) && Listing(a, order)
    ensures var r := FromJson(ToJsonPeople(a, order), ToJsonRelationships(a, order));
      && r.Success? && |r.value| == |order|
      && forall k :: 0 <= k < |order| ==>
        && |r.value[k].parents| == |a[order[k]].parents|
        && forall j :: 0 <= j < |r.value[k].parents| ==>
          r.value[k].parents[j].0 == a[order[k]].parents[j].0 && order[r.value[k].parents[j].1] == a[order[k]].parents[j].1
  {
    var people := ToJsonPeople(a, order);
    var ids := Ids(people);
    var rels := ToJsonRelationships(a, order);
    var ps := WithParents(a, order);
    forall k | 0 <= k < |rels|
      ensures rels[k].0 in ids && ResolvePairs(ids, rels[k].1).Success?
    {
      FindListed(a, order, ps[k]);
      WrittenResolves(a, order, ps[k]);
    }
    assert ResolveEntries(ids, rels).Success?;
    DecodedToJson(a, order);
    FromJsonParents(people, rels);
    var r := FromJson(people, rels).value;
    forall k | 0 <= k < |order|
      ensures |r[k].parents| == |a[order[k]].parents|
      ensures forall j :: 0 <= j < |r[k].parents| ==>
        r[k].parents[j].0 == a[order[k]].parents[j].0 && order[r[k].parents[j].1] == a[order[k]].parents[j].1
    {
      RoundTripAt(a, order, k);
    }
  }

  lemma RoundTripAt(a: seq<Person>, order: seq<nat>, k: nat)
    requires WellFormed(a) && Listing(a, order) && k < |order|
    requires Decoded(ToJsonPeople(a, order), ToJsonRelationships(a, order))
    requires FromJson(ToJsonPeople(a, order), ToJsonRelationships(a, order)).Success?
    ensures var r := FromJson(ToJsonPeople(a, order), ToJsonRelationships(a, order)).value;
      && |r[k].parents| == |a[order[k]].parents|
      && forall j :: 0 <= j < |r[k].parents| ==>
        r[k].parents[j].0 == a[order[k]].parents[j].0 && order[r[k].parents[j].1] == a[order[k]].parents[j].1
  {
    ReadParentsAt(a, order, k);
    if a[order[k]].parents != [] {
      WrittenResolves(a, order, order[k]);
    }
  }

  /** The parents read back for the `k`-th person listed: the resolved written entry, or none without one. */
  lemma ReadParentsAt(a: seq<Person>, order: seq<nat>, k: nat)
    requires WellFormed(a) && Listing(a, order) && k < |order|
    requires Decoded(ToJsonPeople(a, order), ToJsonRelationships(a, order))
    requires FromJson(ToJsonPeople(a, order), ToJsonRelationships(a, order)).Success?
    ensures var r := FromJson(ToJsonPeople(a, order), ToJsonRelationships(a, order)).value;
      var ids := Ids(ToJsonPeople(a, order));
      && (a[order[k]].parents != [] ==> r[k].parents == ResolvePairs(ids, Written(a, order[k]).1).value)
      && (a[order[k]].parents == [] ==> r[k].parents == [])
  {
    var people := ToJsonPeople(a, order);
    var rels := ToJsonRelationships(a, order);
    FromJsonParents(people, rels);
    if a[order[k]].parents != [] {
      WrittenEntryAt(a, order, k);
    } else {
      NoEntryAt(a, order, k);
    }
  }

  /** A person with parents has the entry written for them, under the id found at their place in the listing. */
  lemma WrittenEntryAt(a: seq<Person>, order: seq<nat>, k: nat)
    requires WellFormed(a) && Listing(a, order) && k < |order| && a[order[k]].parents != []
    ensures var rels := ToJsonRelationships(a, order); var ids := Ids(ToJsonPeople(a, order));
      exists kk :: 0 <= kk < |rels| && rels[kk] == Written(a, order[k]) && Find(ids, rels[kk].0) == Success(k)
  {
    var ids := Ids(ToJsonPeople(a, order));
    var rels := ToJsonRelationships(a, order);
    var ps := WithParents(a, order);
    var x := order[k];
    var kk :| 0 <= kk < |ps| && ps[kk] == x;
    assert rels[kk] == Written(a, x);
    FindListed(a, order, x);
    assert Find(ids, rels[kk].0).value == k;
  }

  /** A person without parents has no entry written. */
  lemma NoEntryAt(a: seq<Person>, order: seq<nat>, k: nat)
    requires WellFormed(a) && Listing(a, order) && k < |order| && a[order[k]].parents == []
    ensures var rels := ToJsonRelationships(a, order);
      ToJsonPeople(a, order)[k].0 !in (set m | 0 <= m < |rels| :: rels[m].0)
  {
    var rels := ToJsonRelationships(a, order);
    var ps := WithParents(a, order);
    var x := order[k];
    forall m | 0 <= m < |rels| ensures rels[m].0 != a[x].id {
      assert rels[m].0 == a[ps[m]].id && a[ps[m]].parents != [];
    }
  }


}
