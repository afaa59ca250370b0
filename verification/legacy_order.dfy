/** The ordering of the first versions of the program, family_tree.py and genealogy.py: a depth-first search
    that lists everyone reached from a person after the people reached before them, the loop that starts it
    from every person in turn, the pass that pulls each person behind their nearest earlier child, and the
    generation numbers. People are numbered 0, 1, … in the order they were first met, which is the order of
    the dictionary holding them; a person is equal only to itself. */
module LegacyOrder {
  import opened Wrappers

  /** `adj[p]` lists the people the search goes on to from person `p`: their parents, or their children. */
  type Graph = seq<seq<nat>>

  predicate Bounded(s: seq<nat>, n: nat) {
    forall k :: 0 <= k < |s| ==> s[k] < n
  }

  /** Every list of the graph names people of the graph. */
  predicate Closed(adj: Graph) {
    forall p :: 0 <= p < |adj| ==> Bounded(adj[p], |adj|)
  }

  predicate Distinct(s: seq<nat>) {
    forall i, j :: 0 <= i < j < |s| ==> s[i] != s[j]
  }

  /** The people `0 .. n-1`, in order. */
  function Range(n: nat): (r: seq<nat>)
    ensures |r| == n && forall k :: 0 <= k < n ==> r[k] == k
  {
    seq(n, k requires 0 <= k => k)
  }

  function Nodes(n: nat): (r: set<nat>)
    ensures forall x: nat :: x in r <==> x < n
  {
    if n == 0 then {} else Nodes(n - 1) + {n - 1}
  }

  /** The `visited` list and the `order` list the searches share. */
  datatype Search = Search(visited: seq<nat>, order: seq<nat>)

  predicate Valid(n: nat, s: Search) {
    Distinct(s.visited) && Bounded(s.visited, n)
  }

  function Unvisited(n: nat, s: Search): set<nat> {
    Nodes(n) - set x | x in s.visited
  }

  /** Both lists of `r` start with those of `s`: the searches only ever append. */
  predicate Extends(s: Search, r: Search) {
    && |s.visited| <= |r.visited| && r.visited[..|s.visited|] == s.visited
    && |s.order| <= |r.order| && r.order[..|s.order|] == s.order
  }

  lemma ExtendsTrans(a: Search, b: Search, c: Search)
    requires Extends(a, b) && Extends(b, c)
    ensures Extends(a, c)
    ensures forall y :: y in a.visited ==> y in c.visited
  {
    assert c.visited[..|a.visited|] == c.visited[..|b.visited|][..|a.visited|];
    assert c.order[..|a.order|] == c.order[..|b.order|][..|a.order|];
    forall y | y in a.visited ensures y in c.visited {
      var i :| 0 <= i < |a.visited| && a.visited[i] == y;
      assert c.visited[i] == c.visited[..|a.visited|][i];
    }
  }

  lemma ExtendsKeeps(s: Search, r: Search)
    requires Extends(s, r)
    ensures forall y :: y in s.visited ==> y in r.visited
  {
    ExtendsTrans(s, r, r);
  }

  /** `p_dfs`: nothing happens and the answer is false for a person already visited. Otherwise the person is
      marked visited and the search runs from each of their parents in turn, appending a parent to `order`
      whenever the search from that parent was new. */
  function Dfs(adj: Graph, x: nat, s: Search): (r: (bool, Search))
    requires Closed(adj) && x < |adj| && Valid(|adj|, s)
    ensures Valid(|adj|, r.1) && Extends(s, r.1)
    ensures Unvisited(|adj|, r.1) <= Unvisited(|adj|, s)
    ensures r.0 <==> x !in s.visited
    ensures !r.0 ==> r.1 == s
    ensures x in r.1.visited
    decreases Unvisited(|adj|, s), 0, 0
  {
    if x in s.visited then (false, s)
    else
      var s' := Enter(|adj|, s, x);
      var r := DfsList(adj, adj[x], 0, s');
      ExtendsTrans(s, s', r);
      (true, r)
  }

  /** The search marking `x` visited: one person fewer is left. */
  function Enter(n: nat, s: Search, x: nat): (r: Search)
    requires Valid(n, s) && x < n && x !in s.visited
    ensures Valid(n, r) && Extends(s, r) && x in r.visited
    ensures r.visited == s.visited + [x] && r.order == s.order
    ensures Unvisited(n, r) == Unvisited(n, s) - {x} && x in Unvisited(n, s)
  {
    var r := Search(s.visited + [x], s.order);
    assert r.visited[..|s.visited|] == s.visited;
    r
  }

  /** A search from a person not yet visited is the search over their list after entering them. */
  lemma Entered(adj: Graph, x: nat, s: Search)
    requires Closed(adj) && x < |adj| && Valid(|adj|, s) && x !in s.visited
    ensures Dfs(adj, x, s).1 == DfsList(adj, adj[x], 0, Enter(|adj|, s, x))
  {
  }

  /** The loop of `p_dfs` over the parents `ps[k..]`. */
  function DfsList(adj: Graph, ps: seq<nat>, k: nat, s: Search): (r: Search)
    requires Closed(adj) && Valid(|adj|, s) && k <= |ps| && Bounded(ps, |adj|)
    ensures Valid(|adj|, r) && Extends(s, r)
    ensures Unvisited(|adj|, r) <= Unvisited(|adj|, s)
    ensures forall j :: k <= j < |ps| ==> ps[j] in r.visited
    decreases Unvisited(|adj|, s), 1, |ps| - k
  {
    if k == |ps| then s
    else
      var step := Dfs(adj, ps[k], s);
      var s2 := Note(step.0, step.1, ps[k]);
      ExtendsTrans(s, step.1, s2);
      var r := DfsList(adj, ps, k + 1, s2);
      ExtendsKeeps(s2, r);
      ExtendsTrans(s, s2, r);
      r
  }

  /** The parent appended to `order` when the search from it was new. */
  function Note(ok: bool, s: Search, p: nat): (r: Search)
    ensures Extends(s, r) && r.visited == s.visited
    ensures r.order == if ok then s.order + [p] else s.order
  {
    if ok then Search(s.visited, s.order + [p]) else s
  }

  /** The new part of a list that was only appended to. */
  lemma SliceSplit(a: seq<nat>, b: seq<nat>, c: seq<nat>)
    requires |a| <= |b| <= |c| && b[..|a|] == a && c[..|b|] == b
    ensures c[|a|..] == b[|a|..] + c[|b|..]
  {
    assert c[|a|..] == c[|a|..|b|] + c[|b|..];
    assert c[|a|..|b|] == c[..|b|][|a|..];
  }

  /** The new part of a list that was extended by `x` and then more. */
  lemma NewPart(a: seq<nat>, x: nat, c: seq<nat>)
    requires |a| + 1 <= |c| && c[..|a| + 1] == a + [x]
    ensures multiset(c[|a|..]) == multiset{x} + multiset(c[|a| + 1..])
  {
    assert c[|a|..] == [x] + c[|a| + 1..];
  }

  /** A search that was new appends, once each, every person it visited except the one it started from. */
  lemma {:induction false} DfsAppends(adj: Graph, x: nat, s: Search)
    requires Closed(adj) && x < |adj| && Valid(|adj|, s) && x !in s.visited
    ensures var r := Dfs(adj, x, s).1;
      multiset(r.order[|s.order|..]) + multiset{x} == multiset(r.visited[|s.visited|..])
    decreases Unvisited(|adj|, s), 0, 0
  {
    var s' := Enter(|adj|, s, x);
    var r := Dfs(adj, x, s).1;
    Entered(adj, x, s);
    DfsListAppends(adj, adj[x], 0, s');
    NewPart(s.visited, x, r.visited);
  }

  lemma {:induction false} DfsListAppends(adj: Graph, ps: seq<nat>, k: nat, s: Search)
    requires Closed(adj) && Valid(|adj|, s) && k <= |ps| && Bounded(ps, |adj|)
    ensures var r := DfsList(adj, ps, k, s);
      multiset(r.order[|s.order|..]) == multiset(r.visited[|s.visited|..])
    decreases Unvisited(|adj|, s), 1, |ps| - k
  {
    if k < |ps| {
      var step := Dfs(adj, ps[k], s);
      var ok, s1 := step.0, step.1;
      var s2 := Note(ok, s1, ps[k]);
      var r := DfsList(adj, ps, k + 1, s2);
      assert Extends(s1, s2);
      ExtendsTrans(s, s1, s2);
      DfsListAppends(adj, ps, k + 1, s2);
      SliceSplit(s.visited, s2.visited, r.visited);
      SliceSplit(s.order, s2.order, r.order);
      if ok {
        DfsAppends(adj, ps[k], s);
        SliceSplit(s.order, s1.order, s2.order);
        assert s2.order[|s1.order|..] == [ps[k]];
      } else {
        assert s2 == s;
      }
    }
  }

  /** Every person the graph leads to from `y` is in `vis`. */
  predicate Done(adj: Graph, vis: seq<nat>, y: nat)
    requires y < |adj|
  {
    forall k :: 0 <= k < |adj[y]| ==> adj[y][k] in vis
  }

  /** Everyone in `vis` from position `from` on has all the people the graph leads to from them in `vis`. */
  predicate DoneFrom(adj: Graph, vis: seq<nat>, from: nat)
    requires Bounded(vis, |adj|)
  {
    forall i :: from <= i < |vis| ==> Done(adj, vis, vis[i])
  }

  lemma DoneFromJoin(adj: Graph, s: Search, r: Search, from: nat)
    requires Valid(|adj|, s) && Valid(|adj|, r) && Extends(s, r)
    requires DoneFrom(adj, s.visited, from) && DoneFrom(adj, r.visited, |s.visited|)
    ensures DoneFrom(adj, r.visited, from)
  {
    ExtendsKeeps(s, r);
    forall i | from <= i < |s.visited| ensures Done(adj, r.visited, r.visited[i]) {
      assert r.visited[i] == r.visited[..|s.visited|][i] == s.visited[i];
      assert Done(adj, s.visited, s.visited[i]);
    }
  }

  /** When a new search ends, everyone it visited has all their parents visited: the search has gone up every
      line of ancestry from its starting person. */
  lemma {:induction false} DfsCloses(adj: Graph, x: nat, s: Search)
    requires Closed(adj) && x < |adj| && Valid(|adj|, s)
    ensures DoneFrom(adj, Dfs(adj, x, s).1.visited, |s.visited|)
    decreases Unvisited(|adj|, s), 0, 0
  {
    if x !in s.visited {
      var s' := Enter(|adj|, s, x);
      var r := Dfs(adj, x, s).1;
      Entered(adj, x, s);
      DfsListCloses(adj, adj[x], 0, s');
      assert r.visited[|s.visited|] == r.visited[..|s'.visited|][|s.visited|] == x;
    }
  }

  lemma {:induction false} DfsListCloses(adj: Graph, ps: seq<nat>, k: nat, s: Search)
    requires Closed(adj) && Valid(|adj|, s) && k <= |ps| && Bounded(ps, |adj|)
    ensures var r := DfsList(adj, ps, k, s);
      DoneFrom(adj, r.visited, |s.visited|)
    decreases Unvisited(|adj|, s), 1, |ps| - k
  {
    if k < |ps| {
      var step := Dfs(adj, ps[k], s);
      var ok, s1 := step.0, step.1;
      var s2 := Note(ok, s1, ps[k]);
      var r := DfsList(adj, ps, k + 1, s2);
      DfsCloses(adj, ps[k], s);
      DfsListCloses(adj, ps, k + 1, s2);
      assert Extends(s2, r);
      assert DoneFrom(adj, s2.visited, |s.visited|);
      DoneFromJoin(adj, s2, r, |s.visited|);
    }
  }

  // ---------------------------------------------------------------------------------------------
  // The order the searches append in

  /** The people can be numbered so that everyone's list holds only people numbered lower than they are: the
      graph has no loop (for parents, no one is their own ancestor). */
  predicate Ranked(adj: Graph, rank: seq<nat>) {
    && |rank| == |adj|
    && forall y, q :: 0 <= y < |adj| && q in adj[y] ==> q < |rank| && rank[q] < rank[y]
  }

  lemma RankedParent(adj: Graph, rank: seq<nat>, y: nat, q: nat)
    requires Ranked(adj, rank) && y < |adj| && q in adj[y]
    ensures q < |rank| && rank[q] < rank[y]
  {
  }

  /** Everyone in `vis` from position `from` on is numbered below `bound`. */
  predicate Below(rank: seq<nat>, vis: seq<nat>, from: nat, bound: nat) {
    forall j :: from <= j < |vis| ==> vis[j] < |rank| && rank[vis[j]] < bound
  }

  lemma BelowJoin(rank: seq<nat>, s: Search, s1: Search, r: Search, b1: nat, bound: nat)
    requires Extends(s1, r) && |s.visited| <= |s1.visited|
    requires Below(rank, s1.visited, |s.visited|, b1) && b1 <= bound && Below(rank, r.visited, |s1.visited|, bound)
    ensures Below(rank, r.visited, |s.visited|, bound)
  {
    forall j | |s.visited| <= j < |s1.visited|
      ensures r.visited[j] < |rank| && rank[r.visited[j]] < bound
    {
      assert r.visited[j] == r.visited[..|s1.visited|][j] == s1.visited[j];
    }
  }

  /** Everyone a search from `x` newly visits is numbered no higher than `x`. */
  lemma {:induction false} DfsRanks(adj: Graph, rank: seq<nat>, x: nat, s: Search)
    requires Closed(adj) && x < |adj| && Valid(|adj|, s) && Ranked(adj, rank)
    ensures Below(rank, Dfs(adj, x, s).1.visited, |s.visited|, rank[x] + 1)
    decreases Unvisited(|adj|, s), 0, 0
  {
    if x !in s.visited {
      var s' := Enter(|adj|, s, x);
      var r := Dfs(adj, x, s).1;
      Entered(adj, x, s);
      DfsListRanks(adj, rank, x, 0, s');
      assert r.visited[|s.visited|] == r.visited[..|s'.visited|][|s.visited|] == x;
      assert Extends(s', r);
    }
  }

  /** Everyone the loop over the list of `x` newly visits is numbered lower than `x`. */
  lemma {:induction false} DfsListRanks(adj: Graph, rank: seq<nat>, x: nat, k: nat, s: Search)
    requires Closed(adj) && x < |adj| && Valid(|adj|, s) && k <= |adj[x]| && Ranked(adj, rank)
    ensures Below(rank, DfsList(adj, adj[x], k, s).visited, |s.visited|, rank[x])
    decreases Unvisited(|adj|, s), 1, |adj[x]| - k
  {
    var ps := adj[x];
    if k < |ps| {
      var step := Dfs(adj, ps[k], s);
      var s1 := step.1;
      var s2 := Note(step.0, s1, ps[k]);
      var r := DfsList(adj, ps, k + 1, s2);
      DfsRanks(adj, rank, ps[k], s);
      DfsListRanks(adj, rank, x, k + 1, s2);
      assert rank[ps[k]] < rank[x];
      BelowJoin(rank, s, s2, r, rank[ps[k]] + 1, rank[x]);
    }
  }

  /** Every person appended to `order` on the way from `s` to `r` comes after each of their parents that was
      not visited before `s`. */
  ghost predicate ParentsListed(adj: Graph, s: Search, r: Search) {
    forall i, q :: |s.order| <= i < |r.order| && r.order[i] < |adj| && q in adj[r.order[i]] ==>
      q in s.visited || q in r.order[|s.order|..i]
  }

  /** Everyone visited in `r` was visited before `s` or has been appended since. */
  ghost predicate Covered(s: Search, r: Search) {
    && |s.order| <= |r.order|
    && forall q :: q in r.visited ==> q in s.visited || q in r.order[|s.order|..]
  }

  /** A person in part of a list is in every wider part. */
  lemma SliceWithin(x: seq<nat>, a: nat, b: nat, c: nat, d: nat, q: nat)
    requires c <= a <= b <= d <= |x| && q in x[a..b]
    ensures q in x[c..d]
  {
    var j :| 0 <= j < b - a && x[a..b][j] == q;
    assert x[c..d][a - c + j] == q;
  }

  /** A search from `x` that was new, followed by appending `x`, leaves everyone it visited appended. */
  lemma NoteCovers(s: Search, s1: Search, x: nat, ok: bool)
    requires Extends(s, s1)
    requires ok ==> multiset(s1.order[|s.order|..]) + multiset{x} == multiset(s1.visited[|s.visited|..])
    requires !ok ==> s1 == s
    ensures Covered(s, Note(ok, s1, x))
  {
    var s2 := Note(ok, s1, x);
    forall q | q in s2.visited && q !in s.visited
      ensures q in s2.order[|s.order|..]
    {
      forall m | 0 <= m < |s.visited|
        ensures s1.visited[m] == s.visited[m]
      {
        assert s1.visited[..|s.visited|][m] == s1.visited[m];
      }
      var j :| 0 <= j < |s1.visited| && s1.visited[j] == q;
      assert s1.visited[|s.visited|..][j - |s.visited|] == q;
      assert q in multiset(s1.visited[|s.visited|..]);
      assert s2.order[|s.order|..] == s1.order[|s.order|..] + [x];
    }
  }

  /** One appended person after a search from `x`, the append of `x` when it was new, and more appends, by
      where it was appended: during the search, as `x`, or later. */
  lemma JoinOne(adj: Graph, rank: seq<nat>, x: nat, s: Search, s1: Search, s2: Search, r: Search, i: nat, q: nat)
    requires Ranked(adj, rank) && x < |adj|
    requires Extends(s, s1) && Extends(s2, r) && s2.visited == s1.visited
    requires s2 == s1 || s2.order == s1.order + [x]
    requires s2.order == s1.order + [x] ==> forall p :: p in adj[x] ==> p in s1.visited
    requires Covered(s, s2) && ParentsListed(adj, s, s1) && ParentsListed(adj, s2, r)
    requires |s.order| <= i < |r.order| && r.order[i] < |adj| && q in adj[r.order[i]]
    ensures q in s.visited || q in r.order[|s.order|..i]
  {
    assert s2.order[..|s1.order|] == s1.order;
    var y := r.order[i];
    if i < |s1.order| {
      SamePrefix(s2.order, r.order, |s.order|, i);
      SamePrefix(s1.order, s2.order, |s.order|, i);
      assert y == s1.order[i];
    } else if i < |s2.order| {
      SamePrefix(s2.order, r.order, |s.order|, i);
      SamePrefix(s1.order, s2.order, |s.order|, i);
      assert y == x && q in s2.visited;
      if q !in s.visited {
        RankedParent(adj, rank, x, q);
        assert s2.order[|s.order|..] == s1.order[|s.order|..] + [x];
        assert s1.order[|s.order|..i] == s1.order[|s.order|..];
      }
    } else if q !in s.visited {
      if q in s2.visited {
        SamePrefix(s2.order, r.order, |s.order|, |s2.order|);
        SliceWithin(r.order, |s.order|, |s2.order|, |s.order|, i, q);
      } else {
        SliceWithin(r.order, |s2.order|, i, |s.order|, i, q);
      }
    }
  }

  /** A list that starts with `a` agrees with `a` on every part of it. */
  lemma SamePrefix(a: seq<nat>, b: seq<nat>, lo: nat, hi: nat)
    requires |a| <= |b| && b[..|a|] == a && lo <= hi <= |a|
    ensures b[lo..hi] == a[lo..hi] && (hi < |a| ==> b[hi] == a[hi])
  {
    forall m | 0 <= m < |a|
      ensures b[m] == a[m]
    {
      assert b[..|a|][m] == b[m];
    }
    assert b[lo..hi] == a[lo..hi];
  }

  /** The facts `JoinOne` needs about a search from `x` and the append of `x` when it was new. */
  lemma NoteFacts(adj: Graph, x: nat, s: Search)
    requires Closed(adj) && x < |adj| && Valid(|adj|, s)
    ensures var step := Dfs(adj, x, s); var s2 := Note(step.0, step.1, x);
      && Extends(s, step.1) && s2.visited == step.1.visited
      && (s2 == step.1 || s2.order == step.1.order + [x])
      && (s2.order == step.1.order + [x] ==> forall p :: p in adj[x] ==> p in step.1.visited)
      && Covered(s, s2)
  {
    var step := Dfs(adj, x, s);
    var s1 := step.1;
    DfsCloses(adj, x, s);
    if step.0 {
      DfsAppends(adj, x, s);
      Entered(adj, x, s);
      var s' := Enter(|adj|, s, x);
      assert s1.visited[|s.visited|] == s1.visited[..|s'.visited|][|s.visited|] == x;
      assert Done(adj, s1.visited, x);
    }
    NoteCovers(s, s1, x, step.0);
  }

  /** Without loops, a search appends each person after all their parents that were not visited before it
      started. */
  lemma {:induction false} DfsParentsListed(adj: Graph, rank: seq<nat>, x: nat, s: Search)
    requires Closed(adj) && x < |adj| && Valid(|adj|, s) && Ranked(adj, rank)
    ensures ParentsListed(adj, s, Dfs(adj, x, s).1)
    decreases Unvisited(|adj|, s), 0, 0
  {
    if x !in s.visited {
      var s' := Enter(|adj|, s, x);
      var r := Dfs(adj, x, s).1;
      Entered(adj, x, s);
      DfsListParentsListed(adj, rank, adj[x], 0, s');
      AppendedBelow(adj, rank, x, s);
      forall i, q | |s.order| <= i < |r.order| && r.order[i] < |adj| && q in adj[r.order[i]]
        ensures q in s.visited || q in r.order[|s.order|..i]
      {
        EnterOne(adj, rank, x, s, s', r, i, q);
      }
    }
  }

  /** Everyone a new search from `x` appends is numbered lower than `x`. */
  lemma AppendedBelow(adj: Graph, rank: seq<nat>, x: nat, s: Search)
    requires Closed(adj) && x < |adj| && Valid(|adj|, s) && Ranked(adj, rank) && x !in s.visited
    ensures var r := Dfs(adj, x, s).1;
      forall i :: |s.order| <= i < |r.order| ==> r.order[i] < |adj| && rank[r.order[i]] < rank[x]
  {
    var s' := Enter(|adj|, s, x);
    var r := Dfs(adj, x, s).1;
    Entered(adj, x, s);
    DfsListAppends(adj, adj[x], 0, s');
    DfsListRanks(adj, rank, x, 0, s');
    assert Below(rank, r.visited, |s'.visited|, rank[x]);
    forall i | |s.order| <= i < |r.order|
      ensures r.order[i] < |adj| && rank[r.order[i]] < rank[x]
    {
      var y := r.order[i];
      assert y == r.order[|s'.order|..][i - |s.order|];
      assert y in multiset(r.visited[|s'.visited|..]);
      var j :| 0 <= j < |r.visited[|s'.visited|..]| && r.visited[|s'.visited|..][j] == y;
      assert r.visited[|s'.visited| + j] == y;
    }
  }

  /** One appended person of a new search from `x`: a parent visited on entering is `x` itself, which cannot be
      a parent of someone numbered lower. */
  lemma EnterOne(adj: Graph, rank: seq<nat>, x: nat, s: Search, s': Search, r: Search, i: nat, q: nat)
    requires Ranked(adj, rank) && x < |adj| && s'.visited == s.visited + [x] && s'.order == s.order
    requires ParentsListed(adj, s', r)
    requires forall i :: |s.order| <= i < |r.order| ==> r.order[i] < |adj| && rank[r.order[i]] < rank[x]
    requires |s.order| <= i < |r.order| && r.order[i] < |adj| && q in adj[r.order[i]]
    ensures q in s.visited || q in r.order[|s.order|..i]
  {
    var y := r.order[i];
    RankedParent(adj, rank, y, q);
    assert rank[y] < rank[x];
    assert q in s'.visited ==> q in s.visited;
  }

  lemma {:induction false} DfsListParentsListed(adj: Graph, rank: seq<nat>, ps: seq<nat>, k: nat, s: Search)
    requires Closed(adj) && Valid(|adj|, s) && k <= |ps| && Bounded(ps, |adj|) && Ranked(adj, rank)
    ensures ParentsListed(adj, s, DfsList(adj, ps, k, s))
    decreases Unvisited(|adj|, s), 1, |ps| - k
  {
    if k < |ps| {
      var step := Dfs(adj, ps[k], s);
      var s1 := step.1;
      var s2 := Note(step.0, s1, ps[k]);
      var r := DfsList(adj, ps, k + 1, s2);
      assert r == DfsList(adj, ps, k, s);
      DfsParentsListed(adj, rank, ps[k], s);
      DfsListParentsListed(adj, rank, ps, k + 1, s2);
      NoteFacts(adj, ps[k], s);
      forall i, q | |s.order| <= i < |r.order| && r.order[i] < |adj| && q in adj[r.order[i]]
        ensures q in s.visited || q in r.order[|s.order|..i]
      {
        JoinOne(adj, rank, ps[k], s, s1, s2, r, i, q);
      }
    }
  }

  /** The first person, from `from` on, not yet visited: the `for … break` over `people.values()`. */
  function FirstUnvisited(n: nat, visited: seq<nat>, from: nat): (r: Option<nat>)
    ensures r.Some? ==> from <= r.value < n && r.value !in visited && forall y :: from <= y < r.value ==> y in visited
    ensures r.None? ==> forall y :: from <= y < n ==> y in visited
    decreases n - from
  {
    if from >= n then None
    else if from !in visited then Some(from)
    else FirstUnvisited(n, visited, from + 1)
  }

  /** The `while` loop of `top_sort`: search from the first unvisited person and append them, until everyone
      is visited. */
  function TopSortFrom(adj: Graph, s: Search): (r: Search)
    requires Closed(adj) && Valid(|adj|, s)
    ensures Valid(|adj|, r) && Extends(s, r)
    ensures forall y :: 0 <= y < |adj| ==> y in r.visited
    decreases Unvisited(|adj|, s)
  {
    match FirstUnvisited(|adj|, s.visited, 0)
    case None => s
    case Some(x) =>
      var s1 := Dfs(adj, x, s).1;
      var s2 := Search(s1.visited, s1.order + [x]);
      assert Extends(s1, s2);
      assert x in Unvisited(|adj|, s) && x !in Unvisited(|adj|, s2);
      ExtendsTrans(s, s1, s2);
      var r := TopSortFrom(adj, s2);
      ExtendsTrans(s, s2, r);
      r
  }

  lemma {:induction false} TopSortAppends(adj: Graph, s: Search)
    requires Closed(adj) && Valid(|adj|, s)
    ensures var r := TopSortFrom(adj, s);
      multiset(r.order[|s.order|..]) == multiset(r.visited[|s.visited|..])
    decreases Unvisited(|adj|, s)
  {
    match FirstUnvisited(|adj|, s.visited, 0)
    case None =>
    case Some(x) =>
      var s1 := Dfs(adj, x, s).1;
      var s2 := Search(s1.visited, s1.order + [x]);
      assert Extends(s1, s2);
      assert x in Unvisited(|adj|, s) && x !in Unvisited(|adj|, s2);
      ExtendsTrans(s, s1, s2);
      var r := TopSortFrom(adj, s2);
      TopSortAppends(adj, s2);
      DfsAppends(adj, x, s);
      SliceSplit(s.visited, s2.visited, r.visited);
      SliceSplit(s.order, s2.order, r.order);
      SliceSplit(s.order, s1.order, s2.order);
      assert s2.order[|s1.order|..] == [x];
  }

  /** Without loops, the `while` loop appends each person after all their parents that were not visited before
      it. */
  lemma {:induction false} TopSortParentsListed(adj: Graph, rank: seq<nat>, s: Search)
    requires Closed(adj) && Valid(|adj|, s) && Ranked(adj, rank)
    ensures ParentsListed(adj, s, TopSortFrom(adj, s))
    decreases Unvisited(|adj|, s)
  {
    match FirstUnvisited(|adj|, s.visited, 0)
    case None =>
    case Some(x) =>
      var step := Dfs(adj, x, s);
      var s1 := step.1;
      var s2 := Search(s1.visited, s1.order + [x]);
      assert s2 == Note(step.0, s1, x);
      assert Extends(s1, s2);
      assert x in Unvisited(|adj|, s) && x !in Unvisited(|adj|, s2);
      var r := TopSortFrom(adj, s2);
      assert r == TopSortFrom(adj, s);
      DfsParentsListed(adj, rank, x, s);
      TopSortParentsListed(adj, rank, s2);
      NoteFacts(adj, x, s);
      forall i, q | |s.order| <= i < |r.order| && r.order[i] < |adj| && q in adj[r.order[i]]
        ensures q in s.visited || q in r.order[|s.order|..i]
      {
        JoinOne(adj, rank, x, s, s1, s2, r, i, q);
      }
  }

  /** The search phase of `top_sort`, for a family with no loop in its ancestry, lists every person after all
      of their parents. */
  lemma TopSortDfsOrdersParents(adj: Graph, rank: seq<nat>)
    requires Closed(adj) && Ranked(adj, rank)
    ensures var o := TopSortDfs(adj);
      forall i :: 0 <= i < |o| ==> o[i] < |adj| && forall q :: q in adj[o[i]] ==> q in o[..i]
  {
    var s := Search([], []);
    var o := TopSortDfs(adj);
    var r := TopSortFrom(adj, s);
    TopSortParentsListed(adj, rank, s);
    assert o == r.order;
    forall i | 0 <= i < |o|
      ensures o[i] < |adj| && forall q :: q in adj[o[i]] ==> q in o[..i]
    {
      assert o[i] in multiset(Range(|adj|));
      forall q | q in adj[o[i]]
        ensures q in o[..i]
      {
        assert q in s.visited || q in r.order[|s.order|..i];
      }
    }
  }

  /** How often a list without repetitions holds each value. */
  lemma {:induction false} DistinctCount(s: seq<nat>)
    requires Distinct(s)
    ensures forall y :: multiset(s)[y] == if y in s then 1 else 0
  {
    if s != [] {
      var t := s[1..];
      assert s == [s[0]] + t;
      DistinctCount(t);
      assert s[0] !in t;
      forall y ensures multiset(s)[y] == if y in s then 1 else 0 {
        assert multiset(s) == multiset{s[0]} + multiset(t);
        assert y in s <==> y == s[0] || y in t;
      }
    }
  }

  /** A list without repetitions of exactly the people `0 .. n-1` is a permutation of them. */
  lemma DistinctCover(s: seq<nat>, n: nat)
    requires Distinct(s) && Bounded(s, n) && forall y :: 0 <= y < n ==> y in s
    ensures multiset(s) == multiset(Range(n))
  {
    DistinctCount(s);
    DistinctCount(Range(n));
    forall y: nat ensures multiset(s)[y] == multiset(Range(n))[y] {
      if y < n {
        assert Range(n)[y] == y;
      }
    }
  }

  /** `top_sort`'s search phase from empty `visited` and `order` lists. */
  function TopSortDfs(adj: Graph): (r: seq<nat>)
    requires Closed(adj)
    ensures multiset(r) == multiset(Range(|adj|))
  {
    var s := Search([], []);
    var t := TopSortFrom(adj, s);
    TopSortAppends(adj, s);
    assert t.order[0..] == t.order && t.visited[0..] == t.visited;
    DistinctCover(t.visited, |adj|);
    t.order
  }

  /** The search phase lists every person exactly once. */
  lemma TopSortDfsPermutes(adj: Graph)
    requires Closed(adj)
    ensures |TopSortDfs(adj)| == |adj|
    ensures forall y :: 0 <= y < |adj| ==> y in TopSortDfs(adj)
    ensures Distinct(TopSortDfs(adj))
  {
    var r := TopSortDfs(adj);
    assert |multiset(r)| == |multiset(Range(|adj|))|;
    forall y | 0 <= y < |adj| ensures y in r {
      assert Range(|adj|)[y] == y;
      assert y in multiset(Range(|adj|));
    }
    DistinctCount(Range(|adj|));
    forall i, j | 0 <= i < j < |r| ensures r[i] != r[j] {
      TwiceCounted(r, i, j);
    }
  }

  lemma TwiceCounted(r: seq<nat>, i: nat, j: nat)
    requires i < j < |r|
    ensures r[i] == r[j] ==> multiset(r)[r[i]] >= 2
  {
    assert r == r[..i] + [r[i]] + r[i + 1..j] + [r[j]] + r[j + 1..];
  }

  // ---------------------------------------------------------------------------------------------
  // The pull pass of family_tree.py's top_sort

  /** `order.insert(t, order.pop(i))`. */
  function Move(s: seq<nat>, i: nat, t: nat): (r: seq<nat>)
    requires t <= i < |s|
    ensures |r| == |s| && multiset(r) == multiset(s)
    ensures r[t] == s[i]
    ensures forall m :: 0 <= m < t || i < m < |s| ==> r[m] == s[m]
    ensures forall m :: t < m <= i ==> r[m] == s[m - 1]
  {
    var r := s[..t] + [s[i]] + s[t..i] + s[i + 1..];
    MoveShape(s, i, t, r);
    r
  }

  lemma MoveShape(s: seq<nat>, i: nat, t: nat, r: seq<nat>)
    requires t <= i < |s| && r == s[..t] + [s[i]] + s[t..i] + s[i + 1..]
    ensures |r| == |s| && multiset(r) == multiset(s)
    ensures r[t] == s[i]
    ensures forall m :: 0 <= m < t || i < m < |s| ==> r[m] == s[m]
    ensures forall m :: t < m <= i ==> r[m] == s[m - 1]
  {
    assert s == s[..t] + s[t..i] + [s[i]] + s[i + 1..];
    forall m | t < m <= i ensures r[m] == s[m - 1] {
      assert r[m] == s[t..i][m - t - 1];
    }
    forall m | i < m < |s| ensures r[m] == s[m] {
      assert r[m] == s[i + 1..][m - i - 1];
    }
  }

  /** The last position before `j` holding a child of `p`: the reversed scan of `order[:i]`. */
  function LastChildBefore(s: seq<nat>, children: Graph, p: nat, j: nat): (r: Option<nat>)
    requires p < |children| && j <= |s|
    ensures r.Some? ==> r.value < j && s[r.value] in children[p] && forall m :: r.value < m < j ==> s[m] !in children[p]
    ensures r.None? ==> forall m :: 0 <= m < j ==> s[m] !in children[p]
  {
    if j == 0 then None
    else if s[j - 1] in children[p] then Some(j - 1)
    else LastChildBefore(s, children, p, j - 1)
  }

  /** Step `i` of the pull pass: the person at `i` moves to just after the nearest earlier child, or to the
      front when none of their children is before them; the list stays a permutation, the moved person has a
      child (or nothing) right before them and none of their children between there and position `i`. */
  function PullStep(s: seq<nat>, children: Graph, i: nat): (r: seq<nat>)
    requires i < |s| && Bounded(s, |children|)
    ensures |r| == |s| && multiset(r) == multiset(s)
    ensures exists t :: PulledTo(s, children, i, r, t)
  {
    var t := match LastChildBefore(s, children, s[i], i) case None => 0 case Some(j) => j + 1;
    var r := Move(s, i, t);
    assert PulledTo(s, children, i, r, t);
    r
  }

  /** The person at `i` of `s` stands at `t` in `r`, with a child of theirs (or nothing) right before them and
      none of their children between there and position `i`; the people from `t` to before `i` each moved one
      place right, in order, and the people outside `t .. i` have not moved. */
  predicate PulledTo(s: seq<nat>, children: Graph, i: nat, r: seq<nat>, t: nat)
    requires i < |s| == |r| && Bounded(s, |children|)
  {
    && t <= i && r[t] == s[i]
    && (t == 0 || r[t - 1] in children[s[i]])
    && (forall m :: t < m <= i ==> r[m] == s[m - 1])
    && (forall m :: t < m <= i ==> r[m] !in children[s[i]])
    && (forall m :: 0 <= m < t ==> r[m] == s[m])
    && (forall m :: i < m < |s| ==> r[m] == s[m])
  }

  /** The pull pass from position `i` on; each step sees the list as the earlier steps left it. */
  function PullFrom(s: seq<nat>, children: Graph, i: nat): (r: seq<nat>)
    requires i <= |s| && Bounded(s, |children|)
    ensures |r| == |s| && multiset(r) == multiset(s)
    decreases |s| - i
  {
    if i == |s| then s
    else
      var next := PullStep(s, children, i);
      assert Bounded(next, |children|) by {
        forall k | 0 <= k < |next| ensures next[k] < |children| {
          assert next[k] in multiset(s);
        }
      }
      PullFrom(next, children, i + 1)
  }

  /** family_tree.py's `top_sort`: the search phase, reversed, then the pull pass; everyone once. */
  function PulledTopSort(parents: Graph, children: Graph): (r: seq<nat>)
    requires Closed(parents) && |children| == |parents|
    ensures multiset(r) == multiset(Range(|parents|))
  {
    var order := TopSortDfs(parents);
    var reversed := seq(|order|, k requires 0 <= k < |order| => order[|order| - 1 - k]);
    assert multiset(reversed) == multiset(order) by { ReverseMultiset(order); }
    assert Bounded(reversed, |children|) by {
      forall k | 0 <= k < |reversed| ensures reversed[k] < |children| {
        assert reversed[k] in multiset(Range(|parents|));
      }
    }
    PullFrom(reversed, children, 0)
  }

  lemma {:induction false} ReverseMultiset(s: seq<nat>)
    ensures multiset(seq(|s|, k requires 0 <= k < |s| => s[|s| - 1 - k])) == multiset(s)
  {
    if s != [] {
      var t := s[..|s| - 1];
      ReverseMultiset(t);
      var rs := seq(|s|, k requires 0 <= k < |s| => s[|s| - 1 - k]);
      var rt := seq(|t|, k requires 0 <= k < |t| => t[|t| - 1 - k]);
      assert rs == [s[|s| - 1]] + rt;
      assert s == t + [s[|s| - 1]];
    }
  }

  // ---------------------------------------------------------------------------------------------
  // create_gens

  /** The first position before `i` holding `x`: the forward scan of `order[:i]`. */
  function FirstIndex(s: seq<nat>, x: nat, i: nat): (r: Option<nat>)
    requires i <= |s|
    ensures r.Some? ==> r.value < i && s[r.value] == x && forall m :: 0 <= m < r.value ==> s[m] != x
    ensures r.None? ==> forall m :: 0 <= m < i ==> s[m] != x
  {
    if i == 0 then None
    else match FirstIndex(s, x, i - 1)
      case Some(j) => Some(j)
      case None => if s[i - 1] == x then Some(i - 1) else None
  }

  /** A child of the person at `i` met earlier, and that child's generation plus one. */
  predicate Raises(order: seq<nat>, gens: seq<int>, i: nat, c: nat, v: int)
    requires i <= |order| && i <= |gens|
  {
    FirstIndex(order, c, i).Some? && v == gens[FirstIndex(order, c, i).value] + 1
  }

  /** The inner loops of `create_gens` for the person at `i`, over their children `cs`, from the value `g`: the
      result is the largest of `g` and one more than the generation of each child placed before `i`. */
  function Raise(order: seq<nat>, gens: seq<int>, i: nat, cs: seq<nat>, g: int): (r: int)
    requires i <= |order| && i <= |gens|
    ensures r >= g
    ensures forall c :: c in cs && FirstIndex(order, c, i).Some? ==> r >= gens[FirstIndex(order, c, i).value] + 1
    ensures r == g || exists c :: c in cs && Raises(order, gens, i, c, r)
    decreases |cs|
  {
    if cs == [] then g
    else
      var g' := match FirstIndex(order, cs[0], i) case None => g case Some(j) => Max(g, gens[j] + 1);
      var r := Raise(order, gens, i, cs[1..], g');
      assert forall c :: c in cs[1..] ==> c in cs;
      assert r == g' ==> r == g || Raises(order, gens, i, cs[0], r);
      r
  }

  /** The generation of the person at `i`: at least zero and above every child placed before them, and the
      least such value, so either zero or one more than such a child's. */
  predicate GenerationAt(order: seq<nat>, children: Graph, gens: seq<int>, i: nat)
    requires i < |order| && i < |gens| && Bounded(order, |children|)
  {
    && gens[i] >= 0
    && (forall c :: c in children[order[i]] && FirstIndex(order, c, i).Some? ==> gens[i] >= gens[FirstIndex(order, c, i).value] + 1)
    && (gens[i] == 0 || exists c :: c in children[order[i]] && Raises(order, gens, i, c, gens[i]))
  }

  lemma GenerationKept(order: seq<nat>, children: Graph, a: seq<int>, b: seq<int>, i: nat)
    requires i < |order| && i < |a| && i < |b| && Bounded(order, |children|)
    requires a[..i + 1] == b[..i + 1]
    requires GenerationAt(order, children, a, i)
    ensures GenerationAt(order, children, b, i)
  {
    assert forall j :: 0 <= j <= i ==> a[j] == a[..i + 1][j] == b[j];
    if b[i] != 0 {
      var c :| c in children[order[i]] && Raises(order, a, i, c, a[i]);
      assert Raises(order, b, i, c, b[i]);
    }
  }

  lemma GenerationNext(order: seq<nat>, children: Graph, gens: seq<int>)
    requires |gens| < |order| && Bounded(order, |children|)
    ensures var i := |gens|;
      GenerationAt(order, children, gens + [Raise(order, gens, i, children[order[i]], 0)], i)
  {
    var i := |gens|;
    var next := gens + [Raise(order, gens, i, children[order[i]], 0)];
    assert forall j :: 0 <= j < i ==> next[j] == gens[j];
    var v := next[i];
    if v != 0 {
      var c :| c in children[order[i]] && Raises(order, gens, i, c, v);
      assert Raises(order, next, i, c, v);
    }
  }

  /** The outer loop of `create_gens` from the first person without a generation yet. */
  function GensFrom(order: seq<nat>, children: Graph, gens: seq<int>): (r: seq<int>)
    requires |gens| <= |order| && Bounded(order, |children|)
    ensures |r| == |order| && r[..|gens|] == gens
    ensures forall i :: |gens| <= i < |order| ==> GenerationAt(order, children, r, i)
    decreases |order| - |gens|
  {
    if |gens| == |order| then gens
    else
      var i := |gens|;
      var next := gens + [Raise(order, gens, i, children[order[i]], 0)];
      GenerationNext(order, children, gens);
      var r := GensFrom(order, children, next);
      assert r[..i] == next[..i + 1][..i];
      GenerationKept(order, children, next, r, i);
      r
  }

  /** `create_gens`: every person's generation is the least value that is at least zero and above that of each
      of their children placed before them; children placed after them are not looked at. */
  function CreateGens(order: seq<nat>, children: Graph): (r: seq<int>)
    requires Bounded(order, |children|)
    ensures |r| == |order|
    ensures forall i :: 0 <= i < |order| ==> GenerationAt(order, children, r, i)
  {
    GensFrom(order, children, [])
  }
}
