/** The single-script version of the program, genealogy.py: it reads `child, relation: parent` lines, builds
    people with separate father and mother lists, and orders them twice: the parent search reversed, which puts
    everyone before their parents, and the child search, which puts everyone after their children.
    People are compared by name, and the names are the dictionary's keys, so a person is equal only to
    itself. */
module LegacyGenealogy {
  import opened Wrappers
  import Names
  import Family
  import LegacyOrder
  import LegacyFamilyTree

  type Triple = LegacyFamilyTree.Triple

  // ---------------------------------------------------------------------------------------------
  // Reading the lines

  /** `"".join` of pieces with `c` between them. */
  function JoinOn(ps: seq<string>, c: char): (r: string)
    requires ps != []
    decreases |ps|
  {
    if |ps| == 1 then ps[0] else ps[0] + [c] + JoinOn(ps[1..], c)
  }

  /** `s.split(c)`: the pieces between the occurrences of `c`; joined with `c` they give `s` back. */
  function SplitOn(s: string, c: char): (r: seq<string>)
    ensures r != [] && forall k :: 0 <= k < |r| ==> c !in r[k]
    ensures JoinOn(r, c) == s
    decreases |s|
  {
    if c !in s then [s]
    else
      var i := FirstAt(s, c);
      var rest := SplitOn(s[i + 1..], c);
      assert s == s[..i] + [c] + s[i + 1..];
      var r := [s[..i]] + rest;
      assert r[1..] == rest;
      r
  }

  /** There is one more piece than there are occurrences of `c`. */
  lemma {:induction false} SplitOnCount(s: string, c: char)
    ensures |SplitOn(s, c)| == multiset(s)[c] + 1
    decreases |s|
  {
    if c in s {
      var i := FirstAt(s, c);
      var a, b := s[..i], s[i + 1..];
      SplitOnCount(b, c);
      assert SplitOn(s, c) == [a] + SplitOn(b, c);
      assert s == a + [c] + b;
      assert multiset(s) == multiset(a) + multiset{c} + multiset(b);
      assert multiset(a)[c] == 0;
    }
  }

  function FirstAt(s: string, c: char): (i: nat)
    requires c in s
    ensures i < |s| && s[i] == c && c !in s[..i]
  {
    if s[0] == c then 0 else
      var i := FirstAt(s[1..], c);
      assert s[..i + 1] == [s[0]] + s[1..][..i];
      i + 1
  }

  lemma FirstAtPiece(a: string, b: string, c: char)
    requires c !in a
    ensures FirstAt(a + [c] + b, c) == |a|
  {
    var s := a + [c] + b;
    assert s[|a|] == c;
    assert s[..|a|] == a;
  }

  /** Splitting pieces without `c` joined by `c` gives the pieces back. */
  lemma {:induction false} SplitJoinOn(ps: seq<string>, c: char)
    requires ps != [] && forall k :: 0 <= k < |ps| ==> c !in ps[k]
    ensures SplitOn(JoinOn(ps, c), c) == ps
    decreases |ps|
  {
    if |ps| > 1 {
      var rest := JoinOn(ps[1..], c);
      var s := ps[0] + [c] + rest;
      assert JoinOn(ps, c) == s;
      SplitJoinOn(ps[1..], c);
      SplitPiece(ps[0], rest, c);
      assert ps == [ps[0]] + ps[1..];
    }
  }

  lemma SplitPiece(a: string, b: string, c: char)
    requires c !in a
    ensures SplitOn(a + [c] + b, c) == [a] + SplitOn(b, c)
  {
    var s := a + [c] + b;
    assert s[|a|] == c;
    FirstAtPiece(a, b, c);
    assert s[..|a|] == a && s[|a| + 1..] == b;
  }

  /** Two pieces without `c` around one `c` split back into those two pieces. */
  lemma SplitTwo(a: string, b: string, c: char)
    requires c !in a && c !in b
    ensures SplitOn(a + [c] + b, c) == [a, b]
  {
    SplitPiece(a, b, c);
  }

  /** The number of leading whitespace characters. */
  function Lead(s: string): (n: nat)
    ensures n <= |s| && Spaces(s[..n]) && (n < |s| ==> !Names.IsSpace(s[n]))
  {
    if s != [] && Names.IsSpace(s[0]) then
      var n := Lead(s[1..]);
      assert s[..n + 1] == [s[0]] + s[1..][..n];
      n + 1
    else 0
  }

  /** The number of trailing whitespace characters. */
  function Trail(s: string): (n: nat)
    ensures n <= |s| && Spaces(s[|s| - n..]) && (n < |s| ==> !Names.IsSpace(s[|s| - 1 - n]))
  {
    if s != [] && Names.IsSpace(s[|s| - 1]) then
      var n := Trail(s[..|s| - 1]);
      TrailStep(s, n);
      n + 1
    else 0
  }

  lemma TrailStep(s: string, n: nat)
    requires s != [] && Names.IsSpace(s[|s| - 1]) && n <= |s| - 1 && Spaces(s[..|s| - 1][|s| - 1 - n..])
    ensures Spaces(s[|s| - (n + 1)..])
  {
    var t := s[|s| - (n + 1)..];
    forall k | 0 <= k < |t| ensures Names.IsSpace(t[k]) {
      if k < n {
        assert t[k] == s[..|s| - 1][|s| - 1 - n..][k];
      }
    }
  }

  /** `str.strip()`: `s` without its leading and trailing whitespace. */
  function Strip(s: string): string {
    var i := Lead(s);
    if i == |s| then [] else s[i..|s| - Trail(s[i..])]
  }

  /** What `str.strip()` cuts off is whitespace, and what it leaves neither starts nor ends with whitespace. */
  lemma StripShape(s: string)
    ensures var r := Strip(s);
      && (r == [] || (!Names.IsSpace(r[0]) && !Names.IsSpace(r[|r| - 1])))
      && (r == [] ==> Spaces(s))
      && (r != [] ==> var i := Lead(s); i + |r| <= |s| && r == s[i..i + |r|] && Spaces(s[i + |r|..]))
  {
    var i := Lead(s);
    if i == |s| {
      Uncut(s, i, Strip(s));
    } else {
      var j := Trail(s[i..]);
      Cut(s, i, j, Strip(s));
    }
  }

  /** Nothing is left of a string that is all whitespace. */
  lemma Uncut(s: string, i: nat, r: string)
    requires i == |s| && Spaces(s[..i]) && r == []
    ensures Spaces(s)
  {
    assert s[..i] == s;
  }

  /** Cutting `i` leading and `j` trailing whitespace characters off a string that has more than `i + j`. */
  lemma Cut(s: string, i: nat, j: nat, r: string)
    requires i < |s| && Spaces(s[..i]) && !Names.IsSpace(s[i])
    requires j <= |s| - i && Spaces(s[i..][|s| - i - j..]) && (j < |s| - i ==> !Names.IsSpace(s[i..][|s| - i - 1 - j]))
    requires j < |s| - i ==> r == s[i..|s| - j]
    ensures j < |s| - i
    ensures r != [] && !Names.IsSpace(r[0]) && !Names.IsSpace(r[|r| - 1])
    ensures i + |r| <= |s| && r == s[i..i + |r|] && Spaces(s[i + |r|..])
  {
    assert s[i..][0] == s[i];
    assert s[i..][|s| - i - j..] == s[|s| - j..];
  }

  predicate Spaces(s: string) {
    forall k :: 0 <= k < |s| ==> Names.IsSpace(s[k])
  }

  /** Whitespace around a word that neither starts nor ends with whitespace is stripped off exactly. */
  lemma StripPadded(pre: string, core: string, post: string)
    requires Spaces(pre) && Spaces(post)
    requires core == [] || (!Names.IsSpace(core[0]) && !Names.IsSpace(core[|core| - 1]))
    ensures Strip(pre + core + post) == core
  {
    var s := pre + core + post;
    var r := Strip(s);
    StripShape(s);
    if core != [] {
      assert s[|pre|] == core[0];
      assert s[|pre| + |core| - 1] == core[|core| - 1];
      var i := Lead(s);
      var e := i + |r|;
      assert r == s[|pre|..|pre| + |core|];
    }
  }

  /** A line that, stripped, starts with `#`. */
  predicate Comment(line: string) {
    var s := Strip(line);
    s != [] && s[0] == '#'
  }

  /** One line of the data: comments are skipped; otherwise the line must have exactly one colon, and the key
      before it exactly one comma, or unpacking the split fails with a `ValueError`; the child, relation and
      parent are the three parts, stripped. */
  function ParseLine(line: string): (r: Result<Option<Triple>>)
    ensures Comment(line) ==> r == Success(None)
    ensures r.Failure? ==> r.error == ValueError
    ensures !Comment(line) && r.Success? ==> r.value.Some?
  {
    if Comment(line) then Success(None)
    else
      var parts := SplitOn(line, ':');
      if |parts| != 2 then Failure(ValueError)
      else
        var key := SplitOn(parts[0], ',');
        if |key| != 2 then Failure(ValueError)
        else Success(Some((Strip(key[0]), Strip(key[1]), Strip(parts[1]))))
  }

  /** A line that is not a comment fails to read exactly when it has other than one colon, or its key (the part
      before the colon) other than one comma. */
  lemma ParseLineFails(line: string)
    requires !Comment(line)
    ensures ParseLine(line).Failure? <==> multiset(line)[':'] != 1 || multiset(SplitOn(line, ':')[0])[','] != 1
  {
    SplitOnCount(line, ':');
    SplitOnCount(SplitOn(line, ':')[0], ',');
  }

  /** A line written as child, comma, relation, colon, parent reads back as the three parts, stripped. */
  lemma ParseLineFormat(child: string, rel: string, parent: string)
    requires ':' !in child && ':' !in rel && ':' !in parent && ',' !in child && ',' !in rel
    requires !Comment(child + [','] + rel + [':'] + parent)
    ensures ParseLine(child + [','] + rel + [':'] + parent) == Success(Some((Strip(child), Strip(rel), Strip(parent))))
  {
    var key := child + [','] + rel;
    SplitTwo(key, parent, ':');
    SplitTwo(child, rel, ',');
  }

  /** Which lines fail to read. */
  function Malformed(lines: seq<string>): (r: seq<bool>)
    ensures |r| == |lines| && forall j :: 0 <= j < |lines| ==> r[j] == ParseLine(lines[j]).Failure?
  {
    seq(|lines|, j requires 0 <= j < |lines| => ParseLine(lines[j]).Failure?)
  }

  /** Some flag from `k` on is set. */
  predicate AnySet(flags: seq<bool>, k: nat)
    decreases |flags| - k
  {
    k < |flags| && (flags[k] || AnySet(flags, k + 1))
  }

  lemma {:induction false} AnySetMeans(flags: seq<bool>, k: nat)
    ensures AnySet(flags, k) <==> exists j :: k <= j < |flags| && flags[j]
    decreases |flags| - k
  {
    if k < |flags| {
      AnySetMeans(flags, k + 1);
    }
  }

  /** The lines from `k` on, read in order: the first line that fails stops the reading with its error;
      comment lines give nothing; every other line gives its triple. */
  function ParseFrom(lines: seq<string>, k: nat): (r: Result<seq<Triple>>)
    requires k <= |lines|
    ensures r.Failure? <==> AnySet(Malformed(lines), k)
    ensures r.Failure? ==> r.error == ValueError
    ensures r.Success? ==> |r.value| + Comments(lines, k) == |lines| - k
    ensures r.Success? ==> forall i :: 0 <= i < |r.value| ==> ReadFrom(lines, k, r.value[i])
    decreases |lines| - k
  {
    if k == |lines| then Success([])
    else
      var first := ParseLine(lines[k]);
      if first.Failure? then Failure(first.error)
      else
        var rest := ParseFrom(lines, k + 1);
        if rest.Failure? then Failure(rest.error)
        else
          var head := if first.value.Some? then [first.value.value] else [];
          assert head != [] ==> ReadIn(Readings(lines), k, head[0]);
          ReadAll(Readings(lines), k, head, rest.value);
          Success(head + rest.value)
  }

  /** What the first line reads as, followed by what the later lines read as, is read from the first line on. */
  lemma ReadAll(rs: seq<Result<Option<Triple>>>, k: nat, head: seq<Triple>, rest: seq<Triple>)
    requires k < |rs| && |head| <= 1 && (head != [] ==> ReadIn(rs, k, head[0]))
    requires forall i :: 0 <= i < |rest| ==> ReadIn(rs, k + 1, rest[i])
    ensures forall i :: 0 <= i < |head + rest| ==> ReadIn(rs, k, (head + rest)[i])
  {
    forall i | 0 <= i < |head + rest| ensures ReadIn(rs, k, (head + rest)[i]) {
      if i < |head| {
        assert (head + rest)[i] == head[0];
      } else {
        assert (head + rest)[i] == rest[i - |head|];
        var j :| k + 1 <= j < |rs| && rs[j] == Success(Some(rest[i - |head|]));
      }
    }
  }

  /** The number of comment lines from `k` on. */
  function Comments(lines: seq<string>, k: nat): nat
    requires k <= |lines|
    decreases |lines| - k
  {
    if k == |lines| then 0 else (if Comment(lines[k]) then 1 else 0) + Comments(lines, k + 1)
  }

  /** What each line reads as. */
  function Readings(lines: seq<string>): (r: seq<Result<Option<Triple>>>)
    ensures |r| == |lines| && forall j :: 0 <= j < |lines| ==> r[j] == ParseLine(lines[j])
  {
    seq(|lines|, j requires 0 <= j < |lines| => ParseLine(lines[j]))
  }

  /** `t` is some reading from `k` on. */
  predicate ReadIn(rs: seq<Result<Option<Triple>>>, k: nat, t: Triple) {
    exists j :: k <= j < |rs| && rs[j] == Success(Some(t))
  }

  /** `t` is what some line from `k` on reads as. */
  predicate ReadFrom(lines: seq<string>, k: nat, t: Triple) {
    ReadIn(Readings(lines), k, t)
  }

  /** The reading loop over the data file's lines: a `ValueError` exactly when some line is malformed;
      otherwise one triple per line that is not a comment, each what some line reads as. */
  function ParseLines(lines: seq<string>): (r: Result<seq<Triple>>)
    ensures r.Failure? <==> exists k :: 0 <= k < |lines| && ParseLine(lines[k]).Failure?
    ensures r.Failure? ==> r.error == ValueError
    ensures r.Success? ==> |r.value| + Comments(lines, 0) == |lines|
    ensures r.Success? ==> forall i :: 0 <= i < |r.value| ==> ReadFrom(lines, 0, r.value[i])
  {
    AnySetMeans(Malformed(lines), 0);
    ParseFrom(lines, 0)
  }

  /** Reading a file's lines in order: the lines of `a` then those of `b` give what `a` gives followed by what
      `b` gives. With `ParseLinesOne` this fixes the triples and their order line by line. */
  lemma ParseLinesConcat(a: seq<string>, b: seq<string>)
    requires ParseLines(a).Success? && ParseLines(b).Success?
    ensures ParseLines(a + b) == Success(ParseLines(a).value + ParseLines(b).value)
  {
    ParseFromConcat(a, b, 0);
  }

  /** A single line: its error, nothing for a comment, or its triple. */
  lemma ParseLinesOne(line: string)
    ensures ParseLines([line]) ==
      match ParseLine(line)
      case Failure(e) => Failure(e)
      case Success(None) => Success([])
      case Success(Some(t)) => Success([t])
  {
    var x := ParseLine(line);
    ParseFromGather([line], 0);
    assert Readings([line]) == [x];
    GatherOne(x);
  }

  lemma GatherOne(x: Result<Option<Triple>>)
    ensures Gather([x], 0) ==
      match x
      case Failure(e) => Failure(e)
      case Success(None) => Success([])
      case Success(Some(t)) => Success([t])
  {
    assert Gather([x], 1) == Success([]);
    if x.Success? {
      var head := if x.value.Some? then [x.value.value] else [];
      assert head + [] == head;
      assert Gather([x], 0) == Success(head);
    }
  }

  lemma {:induction false} ParseFromConcat(a: seq<string>, b: seq<string>, k: nat)
    requires k <= |a| && ParseFrom(a, k).Success? && ParseLines(b).Success?
    ensures ParseFrom(a + b, k) == Success(ParseFrom(a, k).value + ParseLines(b).value)
  {
    ReadingsConcat(a, b);
    ParseFromGather(a, k);
    ParseFromGather(b, 0);
    ParseFromGather(a + b, k);
    GatherConcat(Readings(a), Readings(b), k);
  }

  lemma ReadingsConcat(a: seq<string>, b: seq<string>)
    ensures Readings(a + b) == Readings(a) + Readings(b)
  {
    var r, ra, rb := Readings(a + b), Readings(a), Readings(b);
    forall j | 0 <= j < |r|
      ensures r[j] == (ra + rb)[j]
    {
      if j < |a| {
        assert (a + b)[j] == a[j];
        assert r[j] == ParseLine(a[j]) == ra[j];
      } else {
        assert (a + b)[j] == b[j - |a|];
        assert r[j] == ParseLine(b[j - |a|]) == rb[j - |a|];
      }
    }
  }

  /** The reading loop over the readings of the lines, one after the other. */
  function Gather(rs: seq<Result<Option<Triple>>>, k: nat): Result<seq<Triple>>
    requires k <= |rs|
    decreases |rs| - k
  {
    if k == |rs| then Success([])
    else if rs[k].Failure? then Failure(rs[k].error)
    else
      var rest := Gather(rs, k + 1);
      if rest.Failure? then rest
      else Success((if rs[k].value.Some? then [rs[k].value.value] else []) + rest.value)
  }

  lemma {:induction false} ParseFromGather(lines: seq<string>, k: nat)
    requires k <= |lines|
    ensures ParseFrom(lines, k) == Gather(Readings(lines), k)
    decreases |lines| - k
  {
    if k < |lines| {
      ParseFromGather(lines, k + 1);
      var x := ParseLine(lines[k]);
      assert Readings(lines)[k] == x;
      if x.Success? && ParseFrom(lines, k + 1).Success? {
        var head := if x.value.Some? then [x.value.value] else [];
        assert ParseFrom(lines, k) == Success(head + ParseFrom(lines, k + 1).value);
      }
    }
  }

  lemma {:induction false} GatherConcat(x: seq<Result<Option<Triple>>>, y: seq<Result<Option<Triple>>>, k: nat)
    requires k <= |x| && Gather(x, k).Success? && Gather(y, 0).Success?
    ensures Gather(x + y, k) == Success(Gather(x, k).value + Gather(y, 0).value)
    decreases |x| - k
  {
    if k == |x| {
      GatherShift(x, y, 0);
      assert [] + Gather(y, 0).value == Gather(y, 0).value;
    } else {
      assert (x + y)[k] == x[k];
      GatherConcat(x, y, k + 1);
      var head := if x[k].value.Some? then [x[k].value.value] else [];
      assert head + (Gather(x, k + 1).value + Gather(y, 0).value) == (head + Gather(x, k + 1).value) + Gather(y, 0).value;
    }
  }

  /** Gathering from a position past a prefix gathers only what follows the prefix. */
  lemma {:induction false} GatherShift(x: seq<Result<Option<Triple>>>, y: seq<Result<Option<Triple>>>, k: nat)
    requires k <= |y|
    ensures Gather(x + y, |x| + k) == Gather(y, k)
    decreases |y| - k
  {
    if k < |y| {
      assert (x + y)[|x| + k] == y[k];
      GatherShift(x, y, k + 1);
    }
  }

  // ---------------------------------------------------------------------------------------------
  // Building the people

  /** A person: the name, the fathers, the mothers and the children, as positions in the dictionary's order. */
  datatype GPerson = GPerson(name: string, fathers: seq<nat>, mothers: seq<nat>, children: seq<nat>)

  /** The `people` dictionary: its keys, the names, in insertion order, and the person under each. */
  datatype GPeople = GPeople(names: seq<string>, persons: seq<GPerson>)

  /** `rel.upper() == "F"`: only `F` and `f` upper-case to `F`, and likewise for `M`. */
  predicate IsFather(rel: string) {
    rel == "F" || rel == "f"
  }

  predicate IsMother(rel: string) {
    rel == "M" || rel == "m"
  }

  /** The ids of the fathers the triples give `id`, in order. */
  function FatherIdsOf(d: seq<Triple>, id: string): seq<string> {
    if d == [] then [] else FatherIdsOf(d[..|d| - 1], id) + (if d[|d| - 1].0 == id && IsFather(d[|d| - 1].1) then [d[|d| - 1].2] else [])
  }

  /** The ids of the mothers the triples give `id`, in order. */
  function MotherIdsOf(d: seq<Triple>, id: string): seq<string> {
    if d == [] then [] else MotherIdsOf(d[..|d| - 1], id) + (if d[|d| - 1].0 == id && IsMother(d[|d| - 1].1) then [d[|d| - 1].2] else [])
  }

  ghost predicate GShape(p: GPeople) {
    && |p.names| == |p.persons|
    && Family.DistinctStrings(p.names)
    && (forall x :: 0 <= x < |p.names| ==> p.persons[x].name == p.names[x])
  }

  ghost predicate GCovers(p: GPeople, d: seq<Triple>) {
    forall id :: id in p.names <==> LegacyFamilyTree.Mentioned(d, id)
  }

  predicate GLinked(p: GPeople) {
    forall x :: 0 <= x < |p.persons| ==>
      && LegacyOrder.Bounded(p.persons[x].fathers, |p.names|) && LegacyOrder.Bounded(p.persons[x].mothers, |p.names|)
      && LegacyOrder.Bounded(p.persons[x].children, |p.names|)
  }

  /** Each person's fathers, mothers and children are those the triples give them, in order. */
  predicate GMatch(p: GPeople, d: seq<Triple>)
    requires |p.names| == |p.persons| && GLinked(p)
  {
    forall x :: 0 <= x < |p.persons| ==>
      && LegacyFamilyTree.IdsOf(p.names, p.persons[x].fathers) == FatherIdsOf(d, p.names[x])
      && LegacyFamilyTree.IdsOf(p.names, p.persons[x].mothers) == MotherIdsOf(d, p.names[x])
      && LegacyFamilyTree.IdsOf(p.names, p.persons[x].children) == LegacyFamilyTree.ChildIdsOf(d, p.names[x])
  }

  /** The people the script builds from the triples `d`, with their lists. */
  ghost predicate GListed(p: GPeople, d: seq<Triple>) {
    GShape(p) && GCovers(p, d) && GLinked(p) && GMatch(p, d)
  }

  /** The dictionary the script builds from the triples `d`, its keys in insertion order. */
  ghost predicate GBuilt(p: GPeople, d: seq<Triple>) {
    GListed(p, d) && LegacyFamilyTree.InMentionOrder(p.names, d)
  }

  /** `Person.__eq__` of the script: two people are equal when their names are. */
  predicate GSamePerson(a: GPerson, b: GPerson) {
    a.name == b.name
  }

  /** The names are the dictionary's keys, so two people of the dictionary are equal exactly when they are the
      same entry: the searches' `person in visited` tests, which compare with `__eq__`, are tests on positions. */
  lemma GSamePersonIsEntry(p: GPeople, x: nat, y: nat)
    requires GShape(p) && x < |p.persons| && y < |p.persons|
    ensures GSamePerson(p.persons[x], p.persons[y]) <==> x == y
  {
    if x < y {
      assert p.names[x] != p.names[y];
    } else if y < x {
      assert p.names[y] != p.names[x];
    }
  }

  /** The lookup-or-create for one name; a new person has that name and empty lists. */
  function GAdmit(p: GPeople, id: string): (r: (GPeople, nat))
    requires GShape(p)
    ensures GShape(r.0) && r.1 < |r.0.names| && r.0.names[r.1] == id
    ensures |p.names| <= |r.0.names| && forall x :: 0 <= x < |p.names| ==> r.0.names[x] == p.names[x] && r.0.persons[x] == p.persons[x]
    ensures forall x :: |p.names| <= x < |r.0.names| ==> r.0.names[x] == id && id !in p.names && r.0.persons[x] == GPerson(id, [], [], [])
    ensures forall z :: z in r.0.names <==> z in p.names || z == id
  {
    match Family.Find(p.names, id)
    case Success(x) => (p, x)
    case Failure(_) => (GPeople(p.names + [id], p.persons + [GPerson(id, [], [], [])]), |p.names|)
  }

  /** Appending the parent to the child's fathers or mothers and the child to the parent's children. */
  function GWire(p: GPeople, c: nat, q: nat, father: bool): (r: GPeople)
    requires c < |p.persons| && q < |p.persons|
    ensures r.names == p.names && |r.persons| == |p.persons|
    ensures forall x :: 0 <= x < |p.persons| ==>
      && r.persons[x].name == p.persons[x].name
      && r.persons[x].fathers == p.persons[x].fathers + (if x == c && father then [q] else [])
      && r.persons[x].mothers == p.persons[x].mothers + (if x == c && !father then [q] else [])
      && r.persons[x].children == p.persons[x].children + (if x == q then [c] else [])
  {
    var child := p.persons[c];
    var a := p.persons[c := if father then child.(fathers := child.fathers + [q]) else child.(mothers := child.mothers + [q])];
    var parent := a[q];
    GPeople(p.names, a[q := parent.(children := parent.children + [c])])
  }

  /** One triple: the child and the parent are looked up or created, then a relation that is neither a
      father's nor a mother's raises the bare `Exception`. */
  function GAddTriple(p: GPeople, t: Triple): (r: Result<GPeople>)
    requires GShape(p)
    ensures r.Failure? <==> !IsFather(t.1) && !IsMother(t.1)
    ensures r.Failure? ==> r.error == RelationError
    ensures r.Success? ==> GShape(r.value) && forall id :: id in r.value.names <==> id in p.names || LegacyFamilyTree.Mentions(t, id)
  {
    var c := GAdmit(p, t.0);
    var q := GAdmit(c.0, t.2);
    if !IsFather(t.1) && !IsMother(t.1) then Failure(RelationError)
    else Success(GWire(q.0, c.1, q.1, IsFather(t.1)))
  }

  /** An id list after one step: the positions were those of `expect`, and at most one position was appended. */
  lemma ListStep(before: seq<string>, ids: seq<string>, was: seq<nat>, now: seq<nat>, wanted: seq<string>, cond: bool, at: nat, id: string)
    requires |before| <= |ids| && forall y :: 0 <= y < |before| ==> ids[y] == before[y]
    requires LegacyOrder.Bounded(was, |before|) && LegacyFamilyTree.IdsOf(before, was) == wanted
    requires at < |ids| && ids[at] == id
    requires now == was + (if cond then [at] else [])
    ensures LegacyOrder.Bounded(now, |ids|)
    ensures LegacyFamilyTree.IdsOf(ids, now) == wanted + (if cond then [id] else [])
  {
    assert LegacyFamilyTree.IdsOf(ids, was) == LegacyFamilyTree.IdsOf(before, was);
  }

  lemma GOfSnoc(d: seq<Triple>, t: Triple, id: string)
    ensures FatherIdsOf(d + [t], id) == FatherIdsOf(d, id) + (if t.0 == id && IsFather(t.1) then [t.2] else [])
    ensures MotherIdsOf(d + [t], id) == MotherIdsOf(d, id) + (if t.0 == id && IsMother(t.1) then [t.2] else [])
    ensures LegacyFamilyTree.ChildIdsOf(d + [t], id) == LegacyFamilyTree.ChildIdsOf(d, id) + (if t.2 == id then [t.0] else [])
  {
    assert (d + [t])[..|d|] == d;
  }

  lemma GUnmentioned(d: seq<Triple>, id: string)
    requires !LegacyFamilyTree.Mentioned(d, id)
    ensures FatherIdsOf(d, id) == [] && MotherIdsOf(d, id) == [] && LegacyFamilyTree.ChildIdsOf(d, id) == []
  {
    if d != [] {
      var e := d[..|d| - 1];
      assert !LegacyFamilyTree.Mentioned(e, id) by {
        forall k | 0 <= k < |e| ensures !LegacyFamilyTree.Mentions(e[k], id) {
          assert e[k] == d[k];
        }
      }
      GUnmentioned(e, id);
    }
  }

  lemma GListsAt(p: GPeople, d: seq<Triple>, t: Triple, x: nat)
    requires GListed(p, d) && GAddTriple(p, t).Success?
    requires x < |GAddTriple(p, t).value.persons|
    ensures var r := GAddTriple(p, t).value;
      && LegacyOrder.Bounded(r.persons[x].fathers, |r.names|) && LegacyOrder.Bounded(r.persons[x].mothers, |r.names|)
      && LegacyOrder.Bounded(r.persons[x].children, |r.names|)
      && LegacyFamilyTree.IdsOf(r.names, r.persons[x].fathers) == FatherIdsOf(d + [t], r.names[x])
      && LegacyFamilyTree.IdsOf(r.names, r.persons[x].mothers) == MotherIdsOf(d + [t], r.names[x])
      && LegacyFamilyTree.IdsOf(r.names, r.persons[x].children) == LegacyFamilyTree.ChildIdsOf(d + [t], r.names[x])
  {
    GFathersAt(p, d, t, x);
    GMothersAt(p, d, t, x);
    GChildrenAt(p, d, t, x);
  }

  lemma GFathersAt(p: GPeople, d: seq<Triple>, t: Triple, x: nat)
    requires GListed(p, d) && GAddTriple(p, t).Success?
    requires x < |GAddTriple(p, t).value.persons|
    ensures var r := GAddTriple(p, t).value;
      LegacyOrder.Bounded(r.persons[x].fathers, |r.names|) && LegacyFamilyTree.IdsOf(r.names, r.persons[x].fathers) == FatherIdsOf(d + [t], r.names[x])
  {
    var r := GAddTriple(p, t).value;
    var c := GAdmit(p, t.0);
    var q := GAdmit(c.0, t.2);
    assert r == GWire(q.0, c.1, q.1, IsFather(t.1));
    var id := r.names[x];
    GOfSnoc(d, t, id);
    assert c.0.names[c.1] == q.0.names[c.1];
    assert x == c.1 <==> id == t.0;
    var was := GPrior(p, d, t, x);
    ListStep(p.names, r.names, was.fathers, r.persons[x].fathers, FatherIdsOf(d, id), x == c.1 && IsFather(t.1), q.1, t.2);
  }

  lemma GMothersAt(p: GPeople, d: seq<Triple>, t: Triple, x: nat)
    requires GListed(p, d) && GAddTriple(p, t).Success?
    requires x < |GAddTriple(p, t).value.persons|
    ensures var r := GAddTriple(p, t).value;
      LegacyOrder.Bounded(r.persons[x].mothers, |r.names|) && LegacyFamilyTree.IdsOf(r.names, r.persons[x].mothers) == MotherIdsOf(d + [t], r.names[x])
  {
    var r := GAddTriple(p, t).value;
    var c := GAdmit(p, t.0);
    var q := GAdmit(c.0, t.2);
    assert r == GWire(q.0, c.1, q.1, IsFather(t.1));
    var id := r.names[x];
    GOfSnoc(d, t, id);
    assert c.0.names[c.1] == q.0.names[c.1];
    assert x == c.1 <==> id == t.0;
    var was := GPrior(p, d, t, x);
    assert IsMother(t.1) <==> !IsFather(t.1);
    ListStep(p.names, r.names, was.mothers, r.persons[x].mothers, MotherIdsOf(d, id), x == c.1 && !IsFather(t.1), q.1, t.2);
  }

  lemma GChildrenAt(p: GPeople, d: seq<Triple>, t: Triple, x: nat)
    requires GListed(p, d) && GAddTriple(p, t).Success?
    requires x < |GAddTriple(p, t).value.persons|
    ensures var r := GAddTriple(p, t).value;
      LegacyOrder.Bounded(r.persons[x].children, |r.names|)
      && LegacyFamilyTree.IdsOf(r.names, r.persons[x].children) == LegacyFamilyTree.ChildIdsOf(d + [t], r.names[x])
  {
    var r := GAddTriple(p, t).value;
    var c := GAdmit(p, t.0);
    var q := GAdmit(c.0, t.2);
    assert r == GWire(q.0, c.1, q.1, IsFather(t.1));
    var id := r.names[x];
    GOfSnoc(d, t, id);
    assert c.0.names[c.1] == q.0.names[c.1];
    assert x == q.1 <==> id == t.2;
    var was := GPrior(p, d, t, x);
    ListStep(p.names, r.names, was.children, r.persons[x].children, LegacyFamilyTree.ChildIdsOf(d, id), x == q.1, c.1, t.0);
  }

  /** The person at `x` before the triple is wired: from the earlier triples, or new and unrelated. */
  lemma GPrior(p: GPeople, d: seq<Triple>, t: Triple, x: nat) returns (was: GPerson)
    requires GListed(p, d)
    requires x < |GAdmit(GAdmit(p, t.0).0, t.2).0.names|
    ensures var q := GAdmit(GAdmit(p, t.0).0, t.2).0; var id := q.names[x];
      && q.persons[x] == was
      && LegacyOrder.Bounded(was.fathers, |p.names|) && LegacyFamilyTree.IdsOf(p.names, was.fathers) == FatherIdsOf(d, id)
      && LegacyOrder.Bounded(was.mothers, |p.names|) && LegacyFamilyTree.IdsOf(p.names, was.mothers) == MotherIdsOf(d, id)
      && LegacyOrder.Bounded(was.children, |p.names|)
      && LegacyFamilyTree.IdsOf(p.names, was.children) == LegacyFamilyTree.ChildIdsOf(d, id)
  {
    var c := GAdmit(p, t.0);
    var q := GAdmit(c.0, t.2);
    var id := q.0.names[x];
    if x < |p.names| {
      was := p.persons[x];
      assert q.0.persons[x] == p.persons[x] && id == p.names[x];
    } else {
      was := GPerson(id, [], [], []);
      if x < |c.0.names| {
        assert q.0.persons[x] == c.0.persons[x];
      }
      assert id !in p.names && q.0.persons[x] == was;
      GUnmentioned(d, id);
    }
  }

  lemma GAddTripleBuiltAt(p: GPeople, data: seq<Triple>, k: nat)
    requires k < |data| && GBuilt(p, data[..k]) && GAddTriple(p, data[k]).Success?
    ensures GBuilt(GAddTriple(p, data[k]).value, data[..k + 1])
  {
    LegacyFamilyTree.TakeOneMore(data, k);
    GAddTripleBuilt(p, data[..k], data[k]);
  }

  lemma GAddTripleBuilt(p: GPeople, d: seq<Triple>, t: Triple)
    requires GBuilt(p, d) && GAddTriple(p, t).Success?
    ensures GBuilt(GAddTriple(p, t).value, d + [t])
  {
    var r := GAddTriple(p, t).value;
    forall id ensures id in r.names <==> LegacyFamilyTree.Mentioned(d + [t], id) {
      LegacyFamilyTree.SplitLast(d, t, id);
    }
    forall x | 0 <= x < |r.persons|
      ensures LegacyOrder.Bounded(r.persons[x].fathers, |r.names|) && LegacyOrder.Bounded(r.persons[x].mothers, |r.names|)
      ensures LegacyOrder.Bounded(r.persons[x].children, |r.names|)
    {
      GListsAt(p, d, t, x);
    }
    forall x | 0 <= x < |r.persons|
      ensures LegacyFamilyTree.IdsOf(r.names, r.persons[x].fathers) == FatherIdsOf(d + [t], r.names[x])
      ensures LegacyFamilyTree.IdsOf(r.names, r.persons[x].mothers) == MotherIdsOf(d + [t], r.names[x])
      ensures LegacyFamilyTree.IdsOf(r.names, r.persons[x].children) == LegacyFamilyTree.ChildIdsOf(d + [t], r.names[x])
    {
      GListsAt(p, d, t, x);
    }
    GAddTripleOrder(p, d, t);
  }

  lemma GAddTripleOrder(p: GPeople, d: seq<Triple>, t: Triple)
    requires GShape(p) && GCovers(p, d) && LegacyFamilyTree.InMentionOrder(p.names, d) && GAddTriple(p, t).Success?
    ensures LegacyFamilyTree.InMentionOrder(GAddTriple(p, t).value.names, d + [t])
  {
    var q := GAdmit(GAdmit(p, t.0).0, t.2).0;
    assert GAddTriple(p, t).value.names == q.names;
    GAdmitChildFirst(p, t.0, t.2);
    LegacyFamilyTree.MentionOrderStep(p.names, q.names, d, t);
  }

  /** Looking up a child and then a parent: every new name but the last is the child's. */
  lemma GAdmitChildFirst(p: GPeople, child: string, parent: string)
    requires GShape(p)
    ensures var q := GAdmit(GAdmit(p, child).0, parent).0;
      forall x :: |p.names| <= x < |q.names| - 1 ==> q.names[x] == child
  {
    var q := GAdmit(GAdmit(p, child).0, parent).0;
    assert forall x :: |p.names| <= x < |q.names| - 1 ==> q.names[x] == child;
  }

  /** Some triple from `k` on has a relation that is neither a father's nor a mother's. */
  predicate AnyWrongRelation(data: seq<Triple>, k: nat)
    decreases |data| - k
  {
    k < |data| && ((!IsFather(data[k].1) && !IsMother(data[k].1)) || AnyWrongRelation(data, k + 1))
  }

  lemma {:induction false} AnyWrongRelationMeans(data: seq<Triple>, k: nat)
    ensures AnyWrongRelation(data, k) <==> exists j :: k <= j < |data| && !IsFather(data[j].1) && !IsMother(data[j].1)
    decreases |data| - k
  {
    if k < |data| {
      AnyWrongRelationMeans(data, k + 1);
    }
  }

  function BuildFrom(p: GPeople, data: seq<Triple>, k: nat): (r: Result<GPeople>)
    requires k <= |data| && GBuilt(p, data[..k])
    ensures r.Failure? <==> AnyWrongRelation(data, k)
    ensures r.Failure? ==> r.error == RelationError
    ensures r.Success? ==> GBuilt(r.value, data)
    decreases |data| - k
  {
    if k == |data| then
      assert data[..k] == data;
      Success(p)
    else
      var next := GAddTriple(p, data[k]);
      if next.Failure? then Failure(next.error)
      else
        GAddTripleBuiltAt(p, data, k);
        BuildFrom(next.value, data, k + 1)
  }

  /** The people loop: the bare `Exception` exactly when some relation is neither `F` nor `M` in either case;
      otherwise one person per name the triples mention, with the fathers, mothers and children they give, in
      order. */
  function BuildPeople(data: seq<Triple>): (r: Result<GPeople>)
    ensures r.Failure? <==> exists j :: 0 <= j < |data| && !IsFather(data[j].1) && !IsMother(data[j].1)
    ensures r.Failure? ==> r.error == RelationError
    ensures r.Success? ==> GBuilt(r.value, data)
  {
    assert data[..0] == [];
    AnyWrongRelationMeans(data, 0);
    BuildFrom(GPeople([], []), data, 0)
  }

  // ---------------------------------------------------------------------------------------------
  // The two orders

  /** `p_dfs` follows the mothers, then the fathers. */
  function ParentGraph(p: GPeople): (r: LegacyOrder.Graph)
    requires |p.names| == |p.persons| && GLinked(p)
    ensures LegacyOrder.Closed(r) && |r| == |p.persons|
  {
    seq(|p.persons|, x requires 0 <= x < |p.persons| => p.persons[x].mothers + p.persons[x].fathers)
  }

  /** `c_dfs` follows the children. */
  function ChildGraph(p: GPeople): (r: LegacyOrder.Graph)
    requires |p.names| == |p.persons| && GLinked(p)
    ensures LegacyOrder.Closed(r) && |r| == |p.persons|
  {
    seq(|p.persons|, x requires 0 <= x < |p.persons| => p.persons[x].children)
  }

  function Reverse(s: seq<nat>): (r: seq<nat>)
    ensures |r| == |s| && forall k :: 0 <= k < |s| ==> r[k] == s[|s| - 1 - k]
    ensures multiset(r) == multiset(s)
  {
    LegacyOrder.ReverseMultiset(s);
    seq(|s|, k requires 0 <= k < |s| => s[|s| - 1 - k])
  }

  /** The script's two listings: the search along the parents, reversed, and the search along the children,
      each listing everyone once, each with the generations `create_gens` gives it. Both list children before
      their parents (`OrdersParentsLater`, `OrdersChildrenEarlier`). */
  function Orders(p: GPeople): (r: (seq<nat>, seq<int>, seq<nat>, seq<int>))
    requires |p.names| == |p.persons| && GLinked(p)
    ensures multiset(r.0) == multiset(LegacyOrder.Range(|p.persons|)) && multiset(r.2) == multiset(LegacyOrder.Range(|p.persons|))
    ensures LegacyOrder.Bounded(r.0, |p.persons|) && LegacyOrder.Bounded(r.2, |p.persons|)
    ensures |r.1| == |r.0| && forall i :: 0 <= i < |r.0| ==> LegacyOrder.GenerationAt(r.0, ChildGraph(p), r.1, i)
    ensures |r.3| == |r.2| && forall i :: 0 <= i < |r.2| ==> LegacyOrder.GenerationAt(r.2, ChildGraph(p), r.3, i)
  {
    var n := |p.persons|;
    var pOrder := Reverse(LegacyOrder.TopSortDfs(ParentGraph(p)));
    var cOrder := LegacyOrder.TopSortDfs(ChildGraph(p));
    RangeBounded(pOrder, n);
    RangeBounded(cOrder, n);
    (pOrder, LegacyOrder.CreateGens(pOrder, ChildGraph(p)), cOrder, LegacyOrder.CreateGens(cOrder, ChildGraph(p)))
  }

  /** With no loop in the ancestry, the reversed parent search lists every person before all of their mothers
      and fathers. */
  lemma OrdersParentsLater(p: GPeople, rank: seq<nat>)
    requires |p.names| == |p.persons| && GLinked(p) && LegacyOrder.Ranked(ParentGraph(p), rank)
    ensures var o := Orders(p).0;
      forall i :: 0 <= i < |o| ==> o[i] < |p.persons| && forall q :: q in ParentGraph(p)[o[i]] ==> q in o[i + 1..]
  {
    assert Orders(p).0 == Reverse(LegacyOrder.TopSortDfs(ParentGraph(p)));
    ReversedSearchOrders(ParentGraph(p), rank);
  }

  /** Reversing a search over a loop-free graph lists every node before all of its neighbours. */
  lemma ReversedSearchOrders(adj: LegacyOrder.Graph, rank: seq<nat>)
    requires LegacyOrder.Closed(adj) && LegacyOrder.Ranked(adj, rank)
    ensures var o := Reverse(LegacyOrder.TopSortDfs(adj));
      forall i :: 0 <= i < |o| ==> o[i] < |adj| && forall q :: q in adj[o[i]] ==> q in o[i + 1..]
  {
    var s := LegacyOrder.TopSortDfs(adj);
    LegacyOrder.TopSortDfsOrdersParents(adj, rank);
    forall i | 0 <= i < |s|
      ensures Reverse(s)[i] < |adj| && forall q :: q in adj[Reverse(s)[i]] ==> q in Reverse(s)[i + 1..]
    {
      ReversedPosition(adj, s, i, |s| - 1 - i);
    }
  }

  /** One position of a reversed listing that had every node's neighbours before it. */
  lemma ReversedPosition(adj: LegacyOrder.Graph, s: seq<nat>, i: nat, j: nat)
    requires i + j + 1 == |s|
    requires s[j] < |adj| && forall q :: q in adj[s[j]] ==> q in s[..j]
    ensures Reverse(s)[i] < |adj| && forall q :: q in adj[Reverse(s)[i]] ==> q in Reverse(s)[i + 1..]
  {
    forall q | q in adj[Reverse(s)[i]]
      ensures q in Reverse(s)[i + 1..]
    {
      ReversedLater(s, i, q);
    }
  }

  /** What stood before position |s| - 1 - i stands after position i once reversed. */
  lemma ReversedLater(s: seq<nat>, i: nat, q: nat)
    requires i < |s| && q in s[..|s| - 1 - i]
    ensures q in Reverse(s)[i + 1..]
  {
    var j :| 0 <= j < |s| - 1 - i && s[j] == q;
    assert Reverse(s)[i + 1..][|s| - 1 - j - (i + 1)] == q;
  }

  /** With no loop in the descent, the child search lists every person after all of their children. */
  lemma OrdersChildrenEarlier(p: GPeople, rank: seq<nat>)
    requires |p.names| == |p.persons| && GLinked(p) && LegacyOrder.Ranked(ChildGraph(p), rank)
    ensures var o := Orders(p).2;
      forall i :: 0 <= i < |o| ==> o[i] < |p.persons| && forall q :: q in ChildGraph(p)[o[i]] ==> q in o[..i]
  {
    assert Orders(p).2 == LegacyOrder.TopSortDfs(ChildGraph(p));
    LegacyOrder.TopSortDfsOrdersParents(ChildGraph(p), rank);
  }

  lemma RangeBounded(s: seq<nat>, n: nat)
    requires multiset(s) == multiset(LegacyOrder.Range(n))
    ensures LegacyOrder.Bounded(s, n)
  {
    forall k | 0 <= k < |s| ensures s[k] < n {
      assert s[k] in multiset(LegacyOrder.Range(n));
      var j :| 0 <= j < n && LegacyOrder.Range(n)[j] == s[k];
    }
  }

  /** The whole script on the lines of the data file: a `ValueError` for a malformed line, the bare `Exception`
      for a wrong relation, otherwise the people and their two orders. */
  function Run(lines: seq<string>): (r: Result<(GPeople, (seq<nat>, seq<int>, seq<nat>, seq<int>))>)
    ensures r.Failure? <==>
      || (exists k :: 0 <= k < |lines| && ParseLine(lines[k]).Failure?)
      || (ParseLines(lines).Success? && BuildPeople(ParseLines(lines).value).Failure?)
    ensures r.Failure? ==> r.error == ValueError || r.error == RelationError
    ensures r.Success? ==> GBuilt(r.value.0, ParseLines(lines).value)
  {
    var data := ParseLines(lines);
    if data.Failure? then Failure(data.error)
    else
      var people := BuildPeople(data.value);
      if people.Failure? then Failure(people.error)
      else Success((people.value, Orders(people.value)))
  }
}
