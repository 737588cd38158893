/**
  The regular expressions the front end parses with: sequences of literals, single
  characters and greedy runs, matched the way a backtracking engine does.
 */
module Regex {
  import opened Prelude

  datatype Item =
    | Lit(text: string)
    | One(cls: char -> bool)
    | Many(cls: char -> bool, min: nat)

  /** Length of the longest prefix whose characters are all in the class. */
  function Span(s: string, cls: char -> bool): (k: nat)
    ensures k <= |s|
    ensures forall i :: 0 <= i < k ==> cls(s[i])
    ensures k < |s| ==> !cls(s[k])
  {
    if s == "" || !cls(s[0]) then 0 else 1 + Span(s[1..], cls)
  }

  lemma SpanIs(s: string, cls: char -> bool, k: nat)
    requires k <= |s| && (forall i :: 0 <= i < k ==> cls(s[i])) && (k < |s| ==> !cls(s[k]))
    ensures Span(s, cls) == k
  {
  }

  lemma SpanOfTail(s: string, cls: char -> bool, k: nat, p: nat)
    requires k == Span(s, cls) && p <= k
    ensures Span(s[p..], cls) == k - p
    ensures k < |s| ==> s[p..][k - p] == s[k]
  {
    SpanIs(s[p..], cls, k - p);
  }

  /** Matches at the start of `s`; the result holds the text each item took. */
  function Match(items: seq<Item>, s: string): (r: Option<seq<string>>)
    ensures r.Some? ==> |r.value| == |items|
    decreases |items|, |s| + 1
  {
    if items == [] then Some([])
    else
      match items[0]
      case Lit(t) => if t <= s then Before(t, Match(items[1..], s[|t|..])) else None
      case One(cls) => if s != "" && cls(s[0]) then Before(s[..1], Match(items[1..], s[1..])) else None
      case Many(cls, min) => Backtrack(items[1..], s, min, Span(s, cls))
  }

  function Before(piece: string, rest: Option<seq<string>>): (r: Option<seq<string>>) {
    match rest
    case Some(pieces) => Some([piece] + pieces)
    case None => None
  }

  /** A greedy run of `k` characters, given back one at a time while the rest does not match. */
  function Backtrack(rest: seq<Item>, s: string, min: nat, k: nat): (r: Option<seq<string>>)
    requires k <= |s|
    ensures r.Some? ==> |r.value| == |rest| + 1
    decreases |rest| + 1, k
  {
    if k < min then None
    else
      var tail := Match(rest, s[k..]);
      if tail.Some? then Before(s[..k], tail)
      else if k == 0 then None
      else Backtrack(rest, s, min, k - 1)
  }

  // ----- what the engine computes -----

  ghost predicate Takes(item: Item, piece: string) {
    match item
    case Lit(t) => piece == t
    case One(cls) => |piece| == 1 && cls(piece[0])
    case Many(cls, min) => |piece| >= min && forall i :: 0 <= i < |piece| ==> cls(piece[i])
  }

  /** `s` starts with the pieces, in order, each taken by its item. */
  ghost predicate Splits(items: seq<Item>, s: string, pieces: seq<string>)
    decreases |items|
  {
    if items == [] then pieces == []
    else
      && pieces != [] && Takes(items[0], pieces[0]) && pieces[0] <= s
      && Splits(items[1..], s[|pieces[0]|..], pieces[1..])
  }

  lemma {:induction false} MatchIsSound(items: seq<Item>, s: string)
    ensures Match(items, s).Some? ==> Splits(items, s, Match(items, s).value)
    decreases |items|, |s| + 1
  {
    if items != [] {
      match items[0]
      case Lit(t) =>
        if t <= s { MatchIsSound(items[1..], s[|t|..]); }
      case One(cls) =>
        if s != "" { MatchIsSound(items[1..], s[1..]); }
      case Many(cls, min) =>
        BacktrackIsSound(items, s, cls, min, Span(s, cls));
    }
  }

  lemma {:induction false} BacktrackIsSound(items: seq<Item>, s: string, cls: char -> bool, min: nat, k: nat)
    requires items != [] && items[0] == Many(cls, min)
    requires k <= |s| && forall i :: 0 <= i < k ==> cls(s[i])
    ensures var r := Backtrack(items[1..], s, min, k); r.Some? ==> Splits(items, s, r.value)
    decreases |items|, k
  {
    if k >= min {
      MatchIsSound(items[1..], s[k..]);
      if Match(items[1..], s[k..]).None? && k > 0 {
        BacktrackIsSound(items, s, cls, min, k - 1);
      }
    }
  }

  /** The search gives up only when nothing matches. */
  lemma {:induction false} MatchIsComplete(items: seq<Item>, s: string, pieces: seq<string>)
    requires Splits(items, s, pieces)
    ensures Match(items, s).Some?
    decreases |items|
  {
    if items != [] {
      var piece := pieces[0];
      MatchIsComplete(items[1..], s[|piece|..], pieces[1..]);
      match items[0]
      case Lit(t) =>
      case One(cls) =>
      case Many(cls, min) =>
        assert forall i :: 0 <= i < |piece| ==> s[i] == piece[i];
        BacktrackFinds(items[1..], s, min, |piece|, Span(s, cls));
    }
  }

  lemma {:induction false} BacktrackFinds(rest: seq<Item>, s: string, min: nat, k: nat, from: nat)
    requires min <= k <= from <= |s| && Match(rest, s[k..]).Some?
    ensures Backtrack(rest, s, min, from).Some?
    decreases from
  {
    if k < from {
      BacktrackFinds(rest, s, min, k, from - 1);
    }
  }

  // ----- patterns with one reading -----

  /** No text can both continue the class and start the item. */
  ghost predicate Apart(cls: char -> bool, next: Item) {
    match next
    case Lit(t) => t != "" && !cls(t[0])
    case One(other) => forall c: char {:trigger cls(c)} :: !(cls(c) && other(c))
    case Many(other, min) => min >= 1 && forall c: char {:trigger cls(c)} :: !(cls(c) && other(c))
  }

  ghost predicate Separated(items: seq<Item>) {
    forall i :: 0 <= i < |items| - 1 && items[i].Many? ==> Apart(items[i].cls, items[i + 1])
  }

  /** Nothing after the last piece would lengthen a trailing run. */
  ghost predicate Stops(items: seq<Item>, s: string, pieces: seq<string>) {
    items != [] && items[|items| - 1].Many? ==>
      var used := |Concat(pieces)|;
      used < |s| ==> !items[|items| - 1].cls(s[used])
  }

  lemma {:induction false} SplitsCover(items: seq<Item>, s: string, pieces: seq<string>)
    requires Splits(items, s, pieces)
    ensures |pieces| == |items| && Concat(pieces) <= s
    ensures forall i :: 0 <= i < |items| ==> Takes(items[i], pieces[i])
    decreases |items|
  {
    if items != [] {
      SplitsCover(items[1..], s[|pieces[0]|..], pieces[1..]);
      assert forall i :: 1 <= i < |items| ==> items[i] == items[1..][i - 1] && pieces[i] == pieces[1..][i - 1];
      assert s == pieces[0] + s[|pieces[0]|..];
    }
  }

  lemma RunEndsHere(items: seq<Item>, s: string, pieces: seq<string>)
    requires Separated(items) && Splits(items, s, pieces) && Stops(items, s, pieces)
    requires items != [] && items[0].Many?
    ensures Span(s, items[0].cls) == |pieces[0]|
  {
    var cls, n := items[0].cls, |pieces[0]|;
    SplitsCover(items, s, pieces);
    assert forall i :: 0 <= i < n ==> s[i] == pieces[0][i];
    if |items| == 1 {
      assert Concat(pieces) == pieces[0];
    } else {
      assert Apart(cls, items[1]);
      assert pieces[1] <= s[n..] && Takes(items[1], pieces[1]);
      assert pieces[1][0] == s[n];
    }
  }

  lemma RestIsSeparated(items: seq<Item>)
    requires items != [] && Separated(items)
    ensures Separated(items[1..])
  {
    var rest := items[1..];
    forall i | 0 <= i < |rest| - 1 && rest[i].Many? ensures Apart(rest[i].cls, rest[i + 1]) {
      assert items[i + 1].Many?;
    }
  }

  lemma RestStops(items: seq<Item>, s: string, pieces: seq<string>)
    requires items != [] && Splits(items, s, pieces) && Stops(items, s, pieces)
    ensures Stops(items[1..], s[|pieces[0]|..], pieces[1..])
  {
    SplitsCover(items, s, pieces);
    SplitsCover(items[1..], s[|pieces[0]|..], pieces[1..]);
    if |items| > 1 {
      assert items[1..][|items| - 2] == items[|items| - 1];
    }
  }

  lemma FirstPiece(items: seq<Item>, s: string, pieces: seq<string>)
    requires items != [] && Separated(items) && Splits(items, s, pieces) && Stops(items, s, pieces)
    requires Match(items[1..], s[|pieces[0]|..]) == Some(pieces[1..])
    ensures Match(items, s) == Some(pieces)
  {
    var piece := pieces[0];
    assert [piece] + pieces[1..] == pieces;
    assert s[..|piece|] == piece;
    if items[0].Many? {
      RunEndsHere(items, s, pieces);
      assert Match(items, s) == Backtrack(items[1..], s, items[0].min, |piece|);
    }
  }

  /** For a separated pattern a reading that stops is the one the engine returns. */
  lemma {:induction false} OnlyReading(items: seq<Item>, s: string, pieces: seq<string>)
    requires Separated(items) && Splits(items, s, pieces) && Stops(items, s, pieces)
    ensures Match(items, s) == Some(pieces)
    decreases |items|
  {
    if items != [] {
      RestIsSeparated(items);
      RestStops(items, s, pieces);
      OnlyReading(items[1..], s[|pieces[0]|..], pieces[1..]);
      FirstPiece(items, s, pieces);
    }
  }

  /** The pieces, written one after the other, are split back into those pieces. */
  lemma {:induction false} WrittenSplits(items: seq<Item>, pieces: seq<string>, after: string)
    requires |pieces| == |items| && forall i :: 0 <= i < |items| ==> Takes(items[i], pieces[i])
    ensures Splits(items, Concat(pieces) + after, pieces)
    decreases |items|
  {
    if items != [] {
      var s := Concat(pieces) + after;
      assert s == pieces[0] + (Concat(pieces[1..]) + after);
      assert s[|pieces[0]|..] == Concat(pieces[1..]) + after;
      WrittenSplits(items[1..], pieces[1..], after);
    }
  }

  lemma MatchTail(items: seq<Item>, s: string)
    requires items != [] && Match(items, s).Some?
    ensures var pieces := Match(items, s).value;
            |pieces[0]| <= |s| && Match(items[1..], s[|pieces[0]|..]) == Some(pieces[1..])
  {
    if items[0].Many? {
      BacktrackRest(items[1..], s, items[0].min, Span(s, items[0].cls));
    }
  }

  lemma StopsLater(items: seq<Item>, s: string, pieces: seq<string>)
    requires |items| > 1 && |pieces| == |items| && Concat(pieces) <= s && |pieces[0]| <= |s|
    requires Stops(items[1..], s[|pieces[0]|..], pieces[1..])
    ensures Stops(items, s, pieces)
  {
    assert items[1..][|items| - 2] == items[|items| - 1];
  }

  /** The trailing run of a match is never cut short. */
  lemma {:induction false} MatchStops(items: seq<Item>, s: string)
    requires Match(items, s).Some?
    ensures Stops(items, s, Match(items, s).value)
    decreases |items|
  {
    if |items| == 1 {
      if items[0].Many? { LastRunIsWhole(items, s); }
    } else if items != [] {
      var pieces := Match(items, s).value;
      MatchTail(items, s);
      MatchStops(items[1..], s[|pieces[0]|..]);
      MatchIsSound(items, s);
      SplitsCover(items, s, pieces);
      StopsLater(items, s, pieces);
    }
  }

  lemma LastRunIsWhole(items: seq<Item>, s: string)
    requires |items| == 1 && items[0].Many? && Match(items, s).Some?
    ensures Stops(items, s, Match(items, s).value)
  {
    var k, none: seq<Item> := Span(s, items[0].cls), [];
    assert items[1..] == none;
    assert Match(none, s[k..]) == Some([]);
    assert Concat([s[..k]]) == s[..k];
    assert Match(items, s) == Backtrack(none, s, items[0].min, k);
  }

  lemma {:induction false} BacktrackRest(rest: seq<Item>, s: string, min: nat, k: nat)
    requires k <= |s| && Backtrack(rest, s, min, k).Some?
    ensures var pieces := Backtrack(rest, s, min, k).value;
            |pieces[0]| <= |s| && Match(rest, s[|pieces[0]|..]) == Some(pieces[1..])
    decreases k
  {
    if Match(rest, s[k..]).None? {
      BacktrackRest(rest, s, min, k - 1);
    }
  }

  /** Pieces of a separated pattern, written out, are read back as those pieces. */
  lemma WrittenReads(items: seq<Item>, pieces: seq<string>, after: string)
    requires Separated(items) && items != [] && |pieces| == |items|
    requires forall i :: 0 <= i < |items| ==> Takes(items[i], pieces[i])
    requires after != "" && items[|items| - 1].Many? ==> !items[|items| - 1].cls(after[0])
    ensures Match(items, Concat(pieces) + after) == Some(pieces)
  {
    WrittenSplits(items, pieces, after);
    OnlyReading(items, Concat(pieces) + after, pieces);
  }

  lemma OtherStart(items: seq<Item>, s: string)
    requires items != [] && items[0].Lit? && items[0].text != ""
    requires s == "" || s[0] != items[0].text[0]
    ensures Match(items, s).None?
  {
    var text := items[0].text;
    assert !(text <= s);
  }

  // ----- unanchored search -----

  /** Tries one position after the other, from the left. */
  function Search(items: seq<Item>, s: string): (r: Option<(nat, seq<string>)>)
    ensures r.Some? ==> r.value.0 <= |s| && Match(items, s[r.value.0..]) == Some(r.value.1)
  {
    var here := Match(items, s);
    if here.Some? then
      assert s[0..] == s;
      Some((0, here.value))
    else if s == "" then None
    else
      var later := Search(items, s[1..]);
      assert later.Some? ==> s[1..][later.value.0..] == s[later.value.0 + 1..];
      Shifted(1, later)
  }

  /** A match found in what is left after `n` characters, seen from the start. */
  function Shifted(n: nat, found: Option<(nat, seq<string>)>): Option<(nat, seq<string>)> {
    if found.Some? then Some((n + found.value.0, found.value.1)) else None
  }

  /** The pattern does not match at position `p`. */
  ghost predicate Misses(items: seq<Item>, s: string, p: nat) {
    p <= |s| && Match(items, s[p..]).None?
  }

  /** The match found is the leftmost one, and there is none only when no position matches. */
  lemma {:induction false} SearchIsLeftmost(items: seq<Item>, s: string)
    ensures var r := Search(items, s);
            forall p :: 0 <= p <= |s| && (r.Some? ==> p < r.value.0) ==> Misses(items, s, p)
  {
    assert s[0..] == s;
    if Match(items, s).None? && s != "" {
      SearchIsLeftmost(items, s[1..]);
      var r := Search(items, s);
      forall p | 0 <= p <= |s| && (r.Some? ==> p < r.value.0) ensures Misses(items, s, p) {
        if p > 0 {
          assert Misses(items, s[1..], p - 1) && s[p..] == s[1..][p - 1..];
        }
      }
    }
  }

  lemma SearchLater(items: seq<Item>, s: string)
    requires s != "" && Misses(items, s, 0)
    ensures Search(items, s) == Shifted(1, Search(items, s[1..]))
  {
    assert s[0..] == s;
  }

  lemma ShiftedTwice(a: nat, b: nat, found: Option<(nat, seq<string>)>)
    ensures Shifted(a, Shifted(b, found)) == Shifted(a + b, found)
  {
  }

  lemma MissesLater(items: seq<Item>, s: string, p: nat)
    requires p < |s| && Misses(items, s, p + 1)
    ensures Misses(items, s[1..], p)
  {
    assert s[1..][p..] == s[p + 1..];
  }

  /** Positions where nothing matches are stepped over. */
  lemma {:induction false} SearchShift(items: seq<Item>, s: string, n: nat)
    requires n <= |s| && forall p :: 0 <= p < n ==> Misses(items, s, p)
    ensures Search(items, s) == Shifted(n, Search(items, s[n..]))
  {
    if n == 0 {
      assert s[0..] == s;
    } else {
      SearchLater(items, s);
      forall p | 0 <= p < n - 1 ensures Misses(items, s[1..], p) {
        MissesLater(items, s, p);
      }
      SearchShift(items, s[1..], n - 1);
      assert s[1..][n - 1..] == s[n..];
      ShiftedTwice(1, n - 1, Search(items, s[n..]));
    }
  }

  /** Text in front, none of whose characters starts the pattern, is skipped. */
  lemma SearchSkips(items: seq<Item>, before: string, s: string)
    requires items != [] && items[0].Lit? && items[0].text != "" && items[0].text[0] !in before
    requires Match(items, s).Some?
    ensures Search(items, before + s) == Some((|before|, Match(items, s).value))
  {
    var whole := before + s;
    forall p | 0 <= p < |before| ensures Misses(items, whole, p) {
      assert whole[p..][0] == before[p];
      OtherStart(items, whole[p..]);
    }
    SearchShift(items, whole, |before|);
    assert whole[|before|..] == s && s[0..] == s;
  }

  // ----- all matches -----

  lemma MatchFits(items: seq<Item>, s: string)
    requires Match(items, s).Some?
    ensures |Concat(Match(items, s).value)| <= |s|
  {
    MatchIsSound(items, s);
    SplitsCover(items, s, Match(items, s).value);
  }

  /** Where a global search goes on after a match; an empty match moves it on by one. */
  function GoesOn(s: string, p: nat, used: nat): Option<string> {
    var next := p + if used == 0 then 1 else used;
    if next <= |s| then Some(s[next..]) else None
  }

  function Onward(s: string, found: Option<(nat, seq<string>)>): Option<(seq<string>, Option<string>)> {
    match found
    case None => None
    case Some((p, pieces)) => Some((pieces, GoesOn(s, p, |Concat(pieces)|)))
  }

  /** The next match of a global search, and the text it goes on in. */
  function NextMatch(items: seq<Item>, s: string): (r: Option<(seq<string>, Option<string>)>)
    ensures r.Some? ==> |r.value.0| == |items|
    ensures r.Some? && r.value.1.Some? ==> |r.value.1.value| < |s|
  {
    Onward(s, Search(items, s))
  }

  /** matchAll with the flag g. */
  function AllMatches(items: seq<Item>, s: string): (r: seq<seq<string>>)
    ensures forall i :: 0 <= i < |r| ==> |r[i]| == |items|
    decreases |s|
  {
    match NextMatch(items, s)
    case None => []
    case Some((pieces, None)) => [pieces]
    case Some((pieces, Some(rest))) => [pieces] + AllMatches(items, rest)
  }

  lemma NextMatchHere(items: seq<Item>, s: string, pieces: seq<string>, used: nat)
    requires Match(items, s) == Some(pieces) && |Concat(pieces)| == used > 0
    ensures used <= |s| && NextMatch(items, s) == Some((pieces, Some(s[used..])))
  {
    MatchFits(items, s);
    assert s[0..] == s;
    assert Search(items, s) == Some((0, pieces));
  }

  lemma PairInFront(items: seq<Item>, a: string, b: string, rest: string)
    requires Match(items, a + b + rest) == Some([a, b]) && a + b != ""
    ensures AllMatches(items, a + b + rest) == [[a, b]] + AllMatches(items, rest)
  {
    ConcatTwo(a, b);
    NextMatchHere(items, a + b + rest, [a, b], |a + b|);
    assert (a + b + rest)[|a + b|..] == rest;
  }

  lemma ConcatTwo(a: string, b: string)
    ensures Concat([a, b]) == a + b
  {
    assert [a, b][1..] == [b];
    assert Concat([b]) == b + Concat([]);
  }

  lemma GoesOnLater(s: string, n: nat, p: nat, used: nat)
    requires n <= |s|
    ensures GoesOn(s, n + p, used) == GoesOn(s[n..], p, used)
  {
    var next := p + if used == 0 then 1 else used;
    if next <= |s[n..]| {
      assert s[n..][next..] == s[n + next..];
    }
  }

  lemma OnwardLater(s: string, n: nat, found: Option<(nat, seq<string>)>)
    requires n <= |s|
    ensures Onward(s, Shifted(n, found)) == Onward(s[n..], found)
  {
    if found.Some? {
      GoesOnLater(s, n, found.value.0, |Concat(found.value.1)|);
    }
  }

  lemma NextMatchShift(items: seq<Item>, s: string, n: nat)
    requires n <= |s| && forall p :: 0 <= p < n ==> Misses(items, s, p)
    ensures NextMatch(items, s) == NextMatch(items, s[n..])
  {
    SearchShift(items, s, n);
    OnwardLater(s, n, Search(items, s[n..]));
  }

  lemma AllMatchesShift(items: seq<Item>, s: string, n: nat)
    requires n <= |s| && forall p :: 0 <= p < n ==> Misses(items, s, p)
    ensures AllMatches(items, s) == AllMatches(items, s[n..])
  {
    NextMatchShift(items, s, n);
  }
}
