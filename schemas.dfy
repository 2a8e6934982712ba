/** The request-schema pieces of bodhi that carry logic of their own: the
    `splitter` preparer that turns a string or list of builds into a flat list,
    the CVE id check, and the range-checked integer fields with their defaults. */
module Schemas {
  import opened Base

  // ---------------------------------------------------------------------------
  // splitter

  /** One element of the raw value a preparer receives. Any value that is
      neither a string nor None (an integer bug number, say) is an `Other`. */
  datatype Item = Text(s: string) | NoneItem | Other(n: int)

  /** The raw value: colander's null marker, a single value, or a list. */
  datatype Cstruct = ColanderNull | Scalar(x: Item) | Listed(xs: seq<Item>)

  /** `kitchen.iterutils.iterate`: a list yields its elements, anything else
      (a string included) yields itself once. */
  function Iterate(value: Cstruct): seq<Item>
  {
    match value
    case ColanderNull => []
    case Scalar(x) => [x]
    case Listed(xs) => xs
  }

  function Texts(ws: seq<string>): (r: seq<Item>)
    ensures |r| == |ws| && forall k :: 0 <= k < |ws| ==> r[k] == Text(ws[k])
  {
    seq(|ws|, k requires 0 <= k < |ws| => Text(ws[k]))
  }

  /** The tokens of one string: commas become spaces, then the string is split
      on whitespace. */
  function Tokens(s: string): seq<string>
  {
    Split(ReplaceChar(s, ',', ' '))
  }

  /** What one element adds to the output: its tokens for a string, nothing
      for None, the element itself otherwise. */
  function Contribution(x: Item): seq<Item>
  {
    match x
    case Text(s) => Texts(Tokens(s))
    case NoneItem => []
    case Other(_) => [x]
  }

  /** The contributions of the elements, concatenated in input order. */
  function Flatten(xs: seq<Item>): seq<Item>
  {
    if xs == [] then [] else Contribution(xs[0]) + Flatten(xs[1..])
  }

  /** `splitter`: None for colander's null marker, otherwise the flattened
      tokens of the value's elements. */
  method Splitter(value: Cstruct) returns (r: Option<seq<Item>>)
    ensures r.None? <==> value.ColanderNull?
    ensures r.Some? ==> r.value == Flatten(Iterate(value))
  {
    if value.ColanderNull? {
      return None;
    }
    var vs := Iterate(value);
    var items: seq<Item> := [];
    for i := 0 to |vs|
      invariant items == Flatten(vs[..i])
    {
      FlattenPrefix(vs, i);
      var v := vs[i];
      var before := items;
      match v {
        case Text(s) =>
          var words := Tokens(s);
          for j := 0 to |words|
            invariant items == before + Texts(words[..j])
          {
            assert Texts(words[..j + 1]) == Texts(words[..j]) + [Text(words[j])];
            items := items + [Text(words[j])];
          }
          assert words[..|words|] == words;
        case NoneItem =>
        case Other(_) =>
          items := items + [v];
      }
    }
    assert vs[..|vs|] == vs;
    return Some(items);
  }

  /** No token is empty or holds a comma or whitespace. */
  predicate CleanToken(t: string)
  {
    IsWord(t) && forall i :: 0 <= i < |t| ==> t[i] != ','
  }

  lemma TokensClean(s: string)
    ensures forall k :: 0 <= k < |Tokens(s)| ==> CleanToken(Tokens(s)[k])
  {
    var s' := ReplaceChar(s, ',', ' ');
    SplitGivesWords(s');
    SplitChars(s', c => c != ',');
  }

  /** Splitting is order preserving: the output for a list is the output for
      its first part followed by the output for the rest. */
  lemma {:induction false} FlattenAppend(a: seq<Item>, b: seq<Item>)
    ensures Flatten(a + b) == Flatten(a) + Flatten(b)
  {
    if a == [] {
      assert a + b == b;
    } else {
      assert (a + b)[1..] == a[1..] + b;
      FlattenAppend(a[1..], b);
    }
  }

  /** The output for one more element of a list is the output so far
      followed by that element's contribution. */
  lemma FlattenPrefix(xs: seq<Item>, i: nat)
    requires i < |xs|
    ensures Flatten(xs[..i + 1]) == Flatten(xs[..i]) + Contribution(xs[i])
  {
    assert xs[..i + 1] == xs[..i] + [xs[i]];
    FlattenAppend(xs[..i], [xs[i]]);
    assert Flatten([xs[i]]) == Contribution(xs[i]) + Flatten([]);
  }

  /** Every string in the output is a clean token; every `Other` element of the
      input reaches the output and None never does. */
  lemma {:induction false} FlattenItems(xs: seq<Item>)
    ensures forall k :: 0 <= k < |Flatten(xs)| && Flatten(xs)[k].Text? ==> CleanToken(Flatten(xs)[k].s)
    ensures NoneItem !in Flatten(xs)
    ensures forall k :: 0 <= k < |xs| && xs[k].Other? ==> xs[k] in Flatten(xs)
    decreases |xs|
  {
    if xs != [] {
      var rest := xs[1..];
      var x := xs[0];
      FlattenItems(rest);
      if x.Text? {
        TokensClean(x.s);
      }
      assert forall k :: 1 <= k < |xs| ==> xs[k] == rest[k - 1];
    }
  }

  /** A string of builds joined by single spaces comes back as that list. */
  lemma SplitterRoundTrip(builds: seq<string>)
    requires forall k :: 0 <= k < |builds| ==> CleanToken(builds[k])
    ensures Flatten(Iterate(Scalar(Text(JoinSpaced(builds))))) == Texts(builds)
  {
    var s := JoinSpaced(builds);
    JoinSpacedHasNoComma(builds);
    assert ReplaceChar(s, ',', ' ') == s;
    SplitJoinSpaced(builds);
    assert [Text(s)][1..] == [];
  }

  lemma {:induction false} JoinSpacedHasNoComma(ws: seq<string>)
    requires forall k :: 0 <= k < |ws| ==> CleanToken(ws[k])
    ensures forall i :: 0 <= i < |JoinSpaced(ws)| ==> JoinSpaced(ws)[i] != ','
  {
    if |ws| > 1 {
      JoinSpacedHasNoComma(ws[1..]);
      assert JoinSpaced(ws) == ws[0] + " " + JoinSpaced(ws[1..]);
    }
  }

  // ---------------------------------------------------------------------------
  // CVE ids

  predicate IsDigit(c: char)
  {
    '0' <= c <= '9'
  }

  predicate AllDigits(s: string)
  {
    forall i :: 0 <= i < |s| ==> IsDigit(s[i])
  }

  /** The length of the run of digits that starts at `i`. */
  function DigitRun(s: string, i: nat): (n: nat)
    requires i <= |s|
    ensures i + n <= |s| && AllDigits(s[i..i + n])
    ensures i + n == |s| || !IsDigit(s[i + n])
    decreases |s| - i
  {
    if i == |s| || !IsDigit(s[i]) then 0
    else
      var n := DigitRun(s, i + 1);
      var run := s[i + 1..i + 1 + n];
      assert AllDigits(run);
      assert s[i..i + 1 + n] == [s[i]] + run;
      1 + n
  }

  /** The end of the match of `CVE-[0-9]{4,4}-[0-9]{4,}` anchored at the start
      of `s` (a prefix match, as `re.match` performs): the greedy run of digits
      after the second hyphen is consumed whole. */
  function CveMatchEnd(s: string): (r: Option<nat>)
    ensures r.Some? <==> |s| >= 13 && s[..4] == "CVE-" && AllDigits(s[4..8]) && s[8] == '-' &&
                         AllDigits(s[9..13])
    ensures r.Some? ==> 13 <= r.value <= |s| && AllDigits(s[9..r.value]) &&
                         (r.value == |s| || !IsDigit(s[r.value]))
  {
    if |s| >= 9 && s[..4] == "CVE-" && AllDigits(s[4..8]) && s[8] == '-' then
      var n := DigitRun(s, 9);
      if n >= 4 then
        assert forall k :: 0 <= k < 4 ==> s[9..13][k] == s[9..9 + n][k];
        Some(9 + n)
      else
        assert |s| >= 13 ==> s[9..13][n] == s[9 + n] && !IsDigit(s[9 + n]);
        None
    else None
  }

  /** `CVE.deserialize`: the value itself when it is a valid CVE id, otherwise
      the invalid value reported back. */
  function DeserializeCve(value: string): (r: Result<string, string>)
    ensures r.Ok? <==> |value| >= 13 && value[..4] == "CVE-" && AllDigits(value[4..8]) &&
                       value[8] == '-' && AllDigits(value[9..13])
    ensures r.Ok? ==> r.value == value
    ensures r.Err? ==> r.error == value
  {
    if CveMatchEnd(value).Some? then Ok(value) else Err(value)
  }

  /** Only a prefix is matched: whatever follows a valid id is accepted too. */
  lemma CveSuffixIgnored(s: string, rest: string)
    requires DeserializeCve(s).Ok?
    ensures DeserializeCve(s + rest).Ok?
  {
    assert (s + rest)[..4] == s[..4] && (s + rest)[4..8] == s[4..8];
    assert (s + rest)[9..13] == s[9..13];
  }

  // ---------------------------------------------------------------------------
  // Integer fields with a range and a default

  /** `colander.Range(min, max)`: either bound may be absent. */
  datatype Range = Range(min: Option<int>, max: Option<int>)

  datatype RangeError = LessThanMinimum(value: int, min: int) | GreaterThanMaximum(value: int, max: int)

  /** An integer schema node: its range validator and its `missing` default. */
  datatype IntNode = IntNode(range: Range, missing: int)

  predicate InRange(r: Range, v: int)
  {
    (r.min.None? || r.min.value <= v) && (r.max.None? || v <= r.max.value)
  }

  /** Deserialising an integer field: an absent value takes the default (which
      colander does not validate); a present one must lie in the range, the
      minimum being checked before the maximum. */
  function Deserialize(node: IntNode, cstruct: Option<int>): (r: Result<int, RangeError>)
    ensures cstruct.None? ==> r == Ok(node.missing)
    ensures cstruct.Some? ==> (r.Ok? <==> InRange(node.range, cstruct.value))
    ensures cstruct.Some? && r.Ok? ==> r.value == cstruct.value
    ensures r.Err? && r.error.LessThanMinimum? ==> node.range.min == Some(r.error.min)
    ensures r.Err? && r.error.GreaterThanMaximum? ==>
              node.range.max == Some(r.error.max) && InRange(Range(node.range.min, None), r.error.value)
  {
    match cstruct
    case None => Ok(node.missing)
    case Some(v) =>
      if node.range.min.Some? && v < node.range.min.value then Err(LessThanMinimum(v, node.range.min.value))
      else if node.range.max.Some? && v > node.range.max.value then Err(GreaterThanMaximum(v, node.range.max.value))
      else Ok(v)
  }

  /** The karma of a bug feedback, a test-case feedback, a comment and a
      comment's critical-path karma. */
  const KarmaNode := IntNode(Range(Some(-1), Some(1)), 0)
  const PageNode := IntNode(Range(Some(1), None), 1)
  const RowsPerPageNode := IntNode(Range(Some(1), Some(100)), 20)
  const StableKarmaNode := IntNode(Range(Some(1), None), 3)
  const UnstableKarmaNode := IntNode(Range(None, Some(-1)), -3)

  function DeserializeKarma(cstruct: Option<int>): (r: Result<int, RangeError>)
    ensures r.Ok? ==> -1 <= r.value <= 1
    ensures cstruct.None? ==> r == Ok(0)
    ensures cstruct.Some? ==> (r.Ok? <==> -1 <= cstruct.value <= 1)
  {
    Deserialize(KarmaNode, cstruct)
  }

  function DeserializePage(cstruct: Option<int>): (r: Result<int, RangeError>)
    ensures r.Ok? ==> r.value >= 1
    ensures cstruct.None? ==> r == Ok(1)
    ensures cstruct.Some? ==> (r.Ok? <==> cstruct.value >= 1)
  {
    Deserialize(PageNode, cstruct)
  }

  function DeserializeRowsPerPage(cstruct: Option<int>): (r: Result<int, RangeError>)
    ensures r.Ok? ==> 1 <= r.value <= 100
    ensures cstruct.None? ==> r == Ok(20)
    ensures cstruct.Some? ==> (r.Ok? <==> 1 <= cstruct.value <= 100)
  {
    Deserialize(RowsPerPageNode, cstruct)
  }

  function DeserializeStableKarma(cstruct: Option<int>): (r: Result<int, RangeError>)
    ensures r.Ok? ==> r.value >= 1
    ensures cstruct.None? ==> r == Ok(3)
    ensures cstruct.Some? ==> (r.Ok? <==> cstruct.value >= 1)
  {
    Deserialize(StableKarmaNode, cstruct)
  }

  function DeserializeUnstableKarma(cstruct: Option<int>): (r: Result<int, RangeError>)
    ensures r.Ok? ==> r.value <= -1
    ensures cstruct.None? ==> r == Ok(-3)
    ensures cstruct.Some? ==> (r.Ok? <==> cstruct.value <= -1)
  {
    Deserialize(UnstableKarmaNode, cstruct)
  }
}
