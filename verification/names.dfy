/** The display name of a person of genealogy/person.py: the `name` setter splits it into first, middle, last and
    maiden names, the getter writes them back. */
module Names {
  import opened Wrappers

  /** The characters Python's `str.split()` without arguments treats as whitespace. */
  predicate IsSpace(c: char) {
    || c == ' ' || '\t' <= c <= '\r' || '\U{1C}' <= c <= '\U{1F}' || c == '\U{85}' || c == '\U{A0}' || c == '\U{1680}'
    || '\U{2000}' <= c <= '\U{200A}' || c == '\U{2028}' || c == '\U{2029}' || c == '\U{202F}' || c == '\U{205F}'
    || c == '\U{3000}'
  }

  /** A token of a split: non-empty, with no whitespace in it. */
  predicate Token(t: string) {
    t != [] && forall k :: 0 <= k < |t| ==> !IsSpace(t[k])
  }

  /** The length of the run of non-whitespace characters `s` starts with. */
  function RunLength(s: string): (n: nat)
    ensures n <= |s|
    ensures forall k :: 0 <= k < n ==> !IsSpace(s[k])
    ensures n < |s| ==> IsSpace(s[n])
  {
    if s == [] || IsSpace(s[0]) then 0 else 1 + RunLength(s[1..])
  }

  /** `str.split()`: the maximal runs of non-whitespace characters, in order. */
  function Split(s: string): (r: seq<string>)
    ensures forall k :: 0 <= k < |r| ==> Token(r[k])
    decreases |s|
  {
    if s == [] then []
    else if IsSpace(s[0]) then Split(s[1..])
    else
      var n := RunLength(s);
      [s[..n]] + Split(s[n..])
  }

  /** `" ".join(tokens)`. */
  function Join(ts: seq<string>): (r: string)
    ensures ts == [] ==> r == []
    ensures |ts| == 1 ==> r == ts[0]
  {
    if ts == [] then [] else if |ts| == 1 then ts[0] else ts[0] + " " + Join(ts[1..])
  }

  lemma {:induction false} RunOfToken(t: string, rest: string)
    requires Token(t) && (rest == [] || IsSpace(rest[0]))
    ensures RunLength(t + rest) == |t|
    decreases |t|
  {
    var s := t + rest;
    assert s[0] == t[0] && !IsSpace(t[0]);
    assert s[1..] == t[1..] + rest;
    if |t| > 1 {
      assert forall k :: 0 <= k < |t[1..]| ==> t[1..][k] == t[k + 1];
      RunOfToken(t[1..], rest);
    } else {
      assert s[1..] == rest;
    }
  }

  /** Splitting tokens joined by single spaces gives the tokens back. */
  lemma {:induction false} SplitJoin(ts: seq<string>)
    requires forall k :: 0 <= k < |ts| ==> Token(ts[k])
    ensures Split(Join(ts)) == ts
    decreases |ts|
  {
    if ts == [] {
    } else if |ts| == 1 {
      RunOfToken(ts[0], []);
      assert ts[0][..|ts[0]|] == ts[0] && ts[0][|ts[0]|..] == [];
    } else {
      var rest := Join(ts[1..]);
      var s := ts[0] + " " + rest;
      RunOfToken(ts[0], " " + rest);
      assert (ts[0] + (" " + rest)) == s;
      assert s[..|ts[0]|] == ts[0];
      assert s[|ts[0]|..] == " " + rest;
      assert (" " + rest)[1..] == rest;
      SplitJoin(ts[1..]);
    }
  }

  /** The parts the setter fills in. */
  datatype Parts = Parts(first: string, middle: string, last: string, maiden: string)

  /** A token wrapped in parentheses: `startswith("(")` and `endswith(")")`, so at least two characters. */
  predicate Parenthesized(t: string) {
    |t| >= 2 && t[0] == '(' && t[|t| - 1] == ')'
  }

  /** The `name` setter. The last token is a maiden name when parenthesized (the token before it is then the
      last name); otherwise it is the last name and the earlier maiden name `maiden` stays. The first token is
      the first name and the tokens between, joined by single spaces, the middle name. Running out of tokens
      is an `IndexError` (popping an empty list). */
  function Parse(name: string, maiden: string): (r: Result<Parts>)
    ensures var ts := Split(name);
      r.Success? <==> (|ts| >= 2 && !Parenthesized(ts[|ts| - 1])) || (|ts| >= 3 && Parenthesized(ts[|ts| - 1]))
    ensures r.Failure? ==> r.error == IndexError
    ensures r.Success? ==> var ts := Split(name); var n := |ts|;
      && r.value.first == ts[0]
      && (Parenthesized(ts[n - 1]) ==>
        && r.value.maiden == ts[n - 1][1..|ts[n - 1]| - 1]
        && r.value.last == ts[n - 2]
        && r.value.middle == Join(ts[1..n - 2]))
      && (!Parenthesized(ts[n - 1]) ==>
        && r.value.maiden == maiden
        && r.value.last == ts[n - 1]
        && r.value.middle == Join(ts[1..n - 1]))
  {
    var ts := Split(name);
    if ts == [] then Failure(IndexError)
    else
      var lastToken := ts[|ts| - 1];
      var rest := ts[..|ts| - 1];
      if Parenthesized(lastToken) then
        if rest == [] then Failure(IndexError)
        else
          var front := rest[..|rest| - 1];
          if front == [] then Failure(IndexError)
          else
            assert front[1..] == ts[1..|ts| - 2];
            Success(Parts(front[0], Join(front[1..]), rest[|rest| - 1], lastToken[1..|lastToken| - 1]))
      else if rest == [] then Failure(IndexError)
      else
        assert rest[1..] == ts[1..|ts| - 1];
        Success(Parts(rest[0], Join(rest[1..]), lastToken, maiden))
  }

  /** The `name` getter. */
  function Format(p: Parts): (r: string)
    ensures |r| >= |p.first| + 1 + |p.last| && r[..|p.first|] == p.first
    ensures p.maiden == [] ==> r[|r| - |p.last|..] == p.last
    ensures p.maiden != [] ==> |r| >= |p.first| + 1 + |p.last| + 6 + |p.maiden| && r[|r| - |p.maiden| - 6..] == " ne.e " + p.maiden
  {
    p.first + (if p.middle != [] then " " + p.middle else []) + " " + p.last + (if p.maiden != [] then " ne.e " + p.maiden else [])
  }

  /** With a maiden name the getter is the name without it, then ` ne.e ` and the maiden name. */
  lemma FormatMaiden(p: Parts)
    requires p.maiden != []
    ensures Format(p) == Format(p.(maiden := [])) + " ne.e " + p.maiden
  {
  }

  lemma {:induction false} JoinSplitOff(ts: seq<string>)
    requires |ts| >= 2
    ensures Join(ts) == Join(ts[..|ts| - 1]) + " " + ts[|ts| - 1]
    decreases |ts|
  {
    var n := |ts|;
    var last := ts[n - 1];
    if n == 2 {
      assert ts[..1] == [ts[0]];
    } else {
      var t := ts[1..];
      var init := ts[..n - 1];
      JoinSplitOff(t);
      assert t[..|t| - 1] == init[1..];
      assert t[|t| - 1] == last;
      calc {
        Join(ts);
        ts[0] + " " + Join(t);
        ts[0] + " " + (Join(init[1..]) + " " + last);
        { SeqAssoc(ts[0] + " ", Join(init[1..]), " " + last); }
        (ts[0] + " " + Join(init[1..])) + " " + last;
        Join(init) + " " + last;
      }
    }
  }

  lemma SeqAssoc(x: string, y: string, z: string)
    ensures x + (y + z) == (x + y) + z
  {
  }

  /** The getter with no maiden name: first name, the middle name after a space when there is one, then the
      last name after a space. */
  lemma FormatPlain(p: Parts)
    requires p.maiden == []
    ensures p.middle == [] ==> Format(p) == p.first + " " + p.last
    ensures p.middle != [] ==> Format(p) == p.first + " " + p.middle + " " + p.last
  {
  }

  lemma JoinTokens(ts: seq<string>)
    requires ts != [] && ts[0] != []
    ensures Join(ts) != []
  {
  }

  /** Two or more tokens written as first name, middle name and last name read as the tokens joined. */
  lemma FormatTokens(ts: seq<string>)
    requires |ts| >= 2 && forall k :: 0 <= k < |ts| ==> ts[k] != []
    ensures Format(Parts(ts[0], Join(ts[1..|ts| - 1]), ts[|ts| - 1], [])) == Join(ts)
  {
    var n := |ts|;
    var p := Parts(ts[0], Join(ts[1..n - 1]), ts[n - 1], []);
    JoinSplitOff(ts);
    FormatPlain(p);
    if n == 2 {
      assert ts[..1] == [ts[0]] && ts[1..1] == [];
    } else {
      var init := ts[..n - 1];
      assert init[1..] == ts[1..n - 1];
      JoinTokens(init[1..]);
      assert Join(init) == ts[0] + " " + Join(init[1..]);
    }
  }

  /** A name of two or more tokens, the last not in parentheses, read back after setting it with no earlier
      maiden name, is its tokens joined by single spaces. */
  lemma FormatParse(name: string)
    requires var ts := Split(name); |ts| >= 2 && !Parenthesized(ts[|ts| - 1])
    ensures Parse(name, []).Success? && Format(Parse(name, []).value) == Join(Split(name))
  {
    var ts := Split(name);
    assert Parse(name, []).value == Parts(ts[0], Join(ts[1..|ts| - 1]), ts[|ts| - 1], []);
    FormatTokens(ts);
  }

  /** Setting the name a person's parts are written as gives the parts back, as long as each part is made of
      tokens, the last name is not in parentheses and there is no maiden name. */
  lemma ParseFormat(p: Parts, middle: seq<string>)
    requires Token(p.first) && Token(p.last) && !Parenthesized(p.last) && p.maiden == []
    requires forall k :: 0 <= k < |middle| ==> Token(middle[k])
    requires p.middle == Join(middle)
    ensures Parse(Format(p), []) == Success(p)
  {
    var ts := [p.first] + middle + [p.last];
    var init := [p.first] + middle;
    assert forall k :: 0 <= k < |ts| ==> Token(ts[k]);
    assert ts[..|ts| - 1] == init && ts[|ts| - 1] == p.last;
    JoinSplitOff(ts);
    FormatPlain(p);
    if middle == [] {
      assert init == [p.first];
    } else {
      assert init[1..] == middle;
      JoinTokens(middle);
      assert Join(init) == p.first + " " + p.middle;
    }
    assert Join(ts) == Format(p);
    SplitJoin(ts);
    assert ts[1..|ts| - 1] == middle;
  }

  /** The getter writes a maiden name as ` ne.e ` followed by it, which the setter does not read back as a
      maiden name: it takes the maiden name for the last name. */
  lemma MaidenNotReadBack()
    ensures var p := Parts("Ada", [], "King", "Byron");
      Parse(Format(p), []) == Success(Parts("Ada", "King ne.e", "Byron", []))
  {
    var ts := ["Ada", "King", "ne.e", "Byron"];
    SampleJoined(ts);
    SplitJoin(ts);
    SampleMiddle(ts);
  }

  lemma SampleJoined(ts: seq<string>)
    requires ts == ["Ada", "King", "ne.e", "Byron"]
    ensures Format(Parts("Ada", [], "King", "Byron")) == Join(ts)
  {
    assert Join(ts[3..]) == "Byron";
    assert ts[2..][1..] == ts[3..];
    assert Join(ts[2..]) == "ne.e" + " " + "Byron";
    assert ts[1..][1..] == ts[2..];
    assert Join(ts[1..]) == "King" + " " + ("ne.e" + " " + "Byron");
    assert Join(ts) == "Ada" + " " + ("King" + " " + ("ne.e" + " " + "Byron"));
    assert Format(Parts("Ada", [], "King", "Byron")) == "Ada" + " " + "King" + " ne.e " + "Byron";
  }

  lemma SampleMiddle(ts: seq<string>)
    requires ts == ["Ada", "King", "ne.e", "Byron"]
    ensures Join(ts[1..3]) == "King ne.e" && !Parenthesized(ts[3])
  {
    assert ts[1..3] == ["King", "ne.e"];
  }
}
