/** Small building blocks shared by the schema and validator models: optional
    values, the "first row that matches" lookup a query's `.first()` performs,
    and Python's argument-less `str.split()`. */
module Base {

  datatype Option<+T> = None | Some(value: T)

  datatype Result<+T, +E> = Ok(value: T) | Err(error: E)

  /** The index at which a left-to-right scan of `s` first meets an element
      satisfying `p`, or None when no element does. */
  function FirstIndex<T>(s: seq<T>, p: T -> bool): (r: Option<nat>)
    ensures r.Some? ==> r.value < |s| && p(s[r.value])
    ensures r.Some? ==> forall j :: 0 <= j < r.value ==> !p(s[j])
    ensures r.None? ==> forall j :: 0 <= j < |s| ==> !p(s[j])
  {
    if s == [] then None
    else if p(s[0]) then Some(0)
    else match FirstIndex(s[1..], p)
      case None => None
      case Some(k) => Some(k + 1)
  }

  /** The position of the first hit is determined by the hit and the misses before it. */
  lemma FirstIndexAt<T>(s: seq<T>, p: T -> bool, i: nat)
    requires i < |s| && p(s[i])
    requires forall j :: 0 <= j < i ==> !p(s[j])
    ensures FirstIndex(s, p) == Some(i)
  {
  }

  /** A query's `.first()`: the first row, in table order, that satisfies the filter. */
  function First<T>(rows: seq<T>, p: T -> bool): (r: Option<T>)
    ensures r.Some? ==> r.value in rows && p(r.value)
    ensures r.None? <==> forall j :: 0 <= j < |rows| ==> !p(rows[j])
  {
    match FirstIndex(rows, p)
    case None => None
    case Some(i) => Some(rows[i])
  }

  /** The last row, in table order, that satisfies the filter: the row with the
      highest id when rows are kept in ascending id order. */
  function Last<T>(rows: seq<T>, p: T -> bool): (r: Option<T>)
    ensures r.Some? ==> r.value in rows && p(r.value)
    ensures r.None? <==> forall j :: 0 <= j < |rows| ==> !p(rows[j])
    ensures r.Some? ==> exists i :: 0 <= i < |rows| && rows[i] == r.value &&
                          forall j :: i < j < |rows| ==> !p(rows[j])
    decreases |rows|
  {
    if rows == [] then None
    else if p(rows[|rows| - 1]) then Some(rows[|rows| - 1])
    else
      var r := Last(rows[..|rows| - 1], p);
      assert forall j :: 0 <= j < |rows| - 1 ==> rows[..|rows| - 1][j] == rows[j];
      r
  }

  // ---------------------------------------------------------------------------
  // Python's str.split() without an argument: split on runs of whitespace and
  // drop empty strings.

  /** The characters Python's unicode `isspace` accepts. */
  predicate IsSpace(c: char)
  {
    ('\t' <= c <= '\r') || ('\U{1c}' <= c <= '\U{1f}') || c == ' ' || c == '\U{85}' ||
    c == '\U{a0}' || c == '\U{1680}' || c == '\U{180e}' || ('\U{2000}' <= c <= '\U{200a}') ||
    c == '\U{2028}' || c == '\U{2029}' || c == '\U{202f}' || c == '\U{205f}' || c == '\U{3000}'
  }

  /** A non-empty run of non-whitespace characters. */
  predicate IsWord(w: string)
  {
    w != [] && forall i :: 0 <= i < |w| ==> !IsSpace(w[i])
  }

  function Flush(word: string): seq<string>
  {
    if word == [] then [] else [word]
  }

  /** Splitting the rest `s` of a string when `word` has been read so far. */
  function SplitFrom(s: string, word: string): seq<string>
    decreases |s|
  {
    if s == [] then Flush(word)
    else if IsSpace(s[0]) then Flush(word) + SplitFrom(s[1..], [])
    else SplitFrom(s[1..], word + [s[0]])
  }

  function Split(s: string): seq<string>
  {
    SplitFrom(s, [])
  }

  /** `s.replace(from, to)` for single characters. */
  function ReplaceChar(s: string, from: char, to: char): (r: string)
    ensures |r| == |s|
    ensures forall i :: 0 <= i < |s| ==> r[i] == (if s[i] == from then to else s[i])
  {
    seq(|s|, i requires 0 <= i < |s| => if s[i] == from then to else s[i])
  }

  function Concat(ws: seq<string>): string
  {
    if ws == [] then [] else ws[0] + Concat(ws[1..])
  }

  /** The characters of `s` that are not whitespace, in order. */
  function NonSpace(s: string): string
  {
    if s == [] then [] else (if IsSpace(s[0]) then [] else [s[0]]) + NonSpace(s[1..])
  }

  /** Words joined by single spaces, as `" ".join(ws)` builds them. */
  function JoinSpaced(ws: seq<string>): string
  {
    if ws == [] then [] else if |ws| == 1 then ws[0] else ws[0] + " " + JoinSpaced(ws[1..])
  }

  lemma {:induction false} SplitFromWords(s: string, word: string)
    requires forall i :: 0 <= i < |word| ==> !IsSpace(word[i])
    ensures forall k :: 0 <= k < |SplitFrom(s, word)| ==> IsWord(SplitFrom(s, word)[k])
    decreases |s|
  {
    if s == [] {
    } else if IsSpace(s[0]) {
      SplitFromWords(s[1..], []);
    } else {
      SplitFromWords(s[1..], word + [s[0]]);
    }
  }

  lemma {:induction false} SplitFromChars(s: string, word: string, ok: char -> bool)
    requires forall i :: 0 <= i < |s| ==> ok(s[i]) || IsSpace(s[i])
    requires forall i :: 0 <= i < |word| ==> ok(word[i])
    ensures forall k, i :: 0 <= k < |SplitFrom(s, word)| && 0 <= i < |SplitFrom(s, word)[k]| ==>
              ok(SplitFrom(s, word)[k][i])
    decreases |s|
  {
    if s == [] {
    } else if IsSpace(s[0]) {
      SplitFromChars(s[1..], [], ok);
    } else {
      SplitFromChars(s[1..], word + [s[0]], ok);
    }
  }

  /** Every character of every piece `split()` returns is a non-whitespace
      character satisfying any property all non-whitespace input characters have. */
  lemma SplitChars(s: string, ok: char -> bool)
    requires forall i :: 0 <= i < |s| ==> ok(s[i]) || IsSpace(s[i])
    ensures forall k, i :: 0 <= k < |Split(s)| && 0 <= i < |Split(s)[k]| ==> ok(Split(s)[k][i])
  {
    SplitFromChars(s, [], ok);
  }

  /** Every piece `split()` returns is a non-empty word without whitespace. */
  lemma SplitGivesWords(s: string)
    ensures forall k :: 0 <= k < |Split(s)| ==> IsWord(Split(s)[k])
  {
    SplitFromWords(s, []);
  }

  lemma {:induction false} ConcatAppend(a: seq<string>, b: seq<string>)
    ensures Concat(a + b) == Concat(a) + Concat(b)
  {
    if a == [] {
      assert a + b == b;
    } else {
      assert (a + b)[1..] == a[1..] + b;
      ConcatAppend(a[1..], b);
    }
  }

  lemma {:induction false} SplitFromKeeps(s: string, word: string)
    ensures Concat(SplitFrom(s, word)) == word + NonSpace(s)
    decreases |s|
  {
    if s == [] {
    } else if IsSpace(s[0]) {
      SplitFromKeeps(s[1..], []);
      ConcatAppend(Flush(word), SplitFrom(s[1..], []));
    } else {
      SplitFromKeeps(s[1..], word + [s[0]]);
    }
  }

  /** `split()` loses nothing but whitespace: its pieces, concatenated, are the
      non-whitespace characters of the input in their original order. */
  lemma SplitKeepsContents(s: string)
    ensures Concat(Split(s)) == NonSpace(s)
  {
    SplitFromKeeps(s, []);
  }

  lemma {:induction false} SplitFromSkipsWord(w: string, rest: string, word: string)
    requires forall i :: 0 <= i < |w| ==> !IsSpace(w[i])
    ensures SplitFrom(w + rest, word) == SplitFrom(rest, word + w)
    decreases |w|
  {
    if w != [] {
      assert (w + rest)[0] == w[0];
      assert (w + rest)[1..] == w[1..] + rest;
      assert word + [w[0]] + w[1..] == word + w;
      SplitFromSkipsWord(w[1..], rest, word + [w[0]]);
    } else {
      assert w + rest == rest;
      assert word + w == word;
    }
  }

  /** Joining words with spaces and splitting again gives the words back. */
  lemma {:induction false} SplitJoinSpaced(ws: seq<string>)
    requires forall k :: 0 <= k < |ws| ==> IsWord(ws[k])
    ensures Split(JoinSpaced(ws)) == ws
  {
    if ws == [] {
    } else if |ws| == 1 {
      SplitFromSkipsWord(ws[0], [], []);
      assert ws[0] + [] == ws[0] && [] + ws[0] == ws[0];
      assert JoinSpaced(ws) == ws[0];
      assert [ws[0]] == ws;
    } else {
      var rest := " " + JoinSpaced(ws[1..]);
      assert JoinSpaced(ws) == ws[0] + rest;
      SplitFromSkipsWord(ws[0], rest, []);
      assert [] + ws[0] == ws[0];
      assert rest[0] == ' ' && rest[1..] == JoinSpaced(ws[1..]);
      SplitJoinSpaced(ws[1..]);
      assert SplitFrom(rest, ws[0]) == [ws[0]] + ws[1..];
    }
  }
}
