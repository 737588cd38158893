/** `parseHnbList`: the registered HNBs in the text of `show hnb all`. */
module HnbList {
  import opened Prelude
  import opened Regex
  import opened Text

  datatype Hnb = Hnb(identity: string, remoteAddr: string,
                     mcc: nat, mnc: nat, lac: nat, rac: nat, sac: nat, cid: nat)

  predicate NotLess(c: char) { c != '<' }
  predicate NotParen(c: char) { c != ')' }
  predicate NotQuote(c: char) { c != '"' }

  /** /^HNB \(r=([^<]+)<->l=[^)]+\)\s+"([^"]*)"/ with its groups at 1 and 7. */
  const HEAD: seq<Item> := [
    Lit("HNB (r="), Many(NotLess, 1), Lit("<->l="), Many(NotParen, 1), Lit(")"),
    Many(IsSpace, 1), Lit("\""), Many(NotQuote, 0), Lit("\"")]

  const FIELDS: seq<string> := ["MCC", "MNC", "LAC", "RAC", "SAC", "CID"]

  /**
    /MCC\s+(\d+)\s+MNC\s+(\d+)\s+LAC\s+(\d+)\s+RAC\s+(\d+)\s+SAC\s+(\d+)\s+CID\s+(\d+)/:
    name k is item 4k and its number, a group, item 4k + 2.
   */
  function Detail(): seq<Item> {
    seq(23, i requires 0 <= i < 23 =>
      if i % 4 == 0 then Lit(FIELDS[i / 4]) else if i % 4 == 2 then Many(IsDigit, 1) else Many(IsSpace, 1))
  }

  lemma SpacesAndDigitsApart()
    ensures Apart(IsSpace, Many(IsDigit, 1)) && Apart(IsDigit, Many(IsSpace, 1))
  {
  }

  lemma SpacesAndLiteralsApart()
    ensures Apart(IsSpace, Lit("\""))
    ensures forall k :: 0 <= k < |FIELDS| ==> Apart(IsSpace, Lit(FIELDS[k]))
  {
  }

  lemma HeadIsSeparated()
    ensures Separated(HEAD)
  {
    SpacesAndLiteralsApart();
  }

  lemma DetailIsSeparated()
    ensures Separated(Detail())
  {
    forall i | 0 <= i < |Detail()| - 1 && Detail()[i].Many?
      ensures Apart(Detail()[i].cls, Detail()[i + 1])
    {
      if i % 4 == 3 { FieldAfterSpaces(i); } else { RunAfterRun(i); }
    }
  }

  lemma FieldAfterSpaces(i: nat)
    requires i < 22 && i % 4 == 3
    ensures Detail()[i] == Many(IsSpace, 1) && Apart(IsSpace, Detail()[i + 1])
  {
    SpacesAndLiteralsApart();
    assert Detail()[i + 1] == Lit(FIELDS[(i + 1) / 4]);
  }

  lemma RunAfterRun(i: nat)
    requires i < 22 && i % 4 != 3 && Detail()[i].Many?
    ensures Apart(Detail()[i].cls, Detail()[i + 1])
  {
    SpacesAndDigitsApart();
  }

  lemma PatternsAreSeparated()
    ensures Separated(HEAD) && Separated(Detail())
  {
    HeadIsSeparated();
    DetailIsSeparated();
  }

  ghost predicate NumbersAt(pieces: seq<string>) {
    |pieces| == 23 && AllDigits(pieces[2]) && AllDigits(pieces[6]) && AllDigits(pieces[10])
    && AllDigits(pieces[14]) && AllDigits(pieces[18]) && AllDigits(pieces[22])
  }

  lemma DetailHasNumbers(s: string, pieces: seq<string>)
    requires Splits(Detail(), s, pieces)
    ensures NumbersAt(pieces)
  {
    SplitsCover(Detail(), s, pieces);
    assert Takes(Detail()[2], pieces[2]) && Takes(Detail()[6], pieces[6]) && Takes(Detail()[10], pieces[10]);
    assert Takes(Detail()[14], pieces[14]) && Takes(Detail()[18], pieces[18]) && Takes(Detail()[22], pieces[22]);
  }

  function Assemble(head: seq<string>, detail: seq<string>): Hnb
    requires |head| == 9 && NumbersAt(detail)
  {
    Hnb(head[7], head[1], Value(detail[2]), Value(detail[6]), Value(detail[10]),
        Value(detail[14]), Value(detail[18]), Value(detail[22]))
  }

  function MatchDetail(line: string): (r: Option<seq<string>>)
    ensures r.Some? ==> NumbersAt(r.value)
  {
    var found := Search(Detail(), line);
    if found.None? then None
    else
      MatchIsSound(Detail(), line[found.value.0..]);
      DetailHasNumbers(line[found.value.0..], found.value.1);
      Some(found.value.1)
  }

  /** What one line and the line after it contribute. */
  function RecordOf(line: string, next: string): Option<Hnb> {
    var head := Match(HEAD, line);
    var detail := MatchDetail(next);
    if head.None? || detail.None? then None else Some(Assemble(head.value, detail.value))
  }

  function NextLine(lines: seq<string>, i: nat): string {
    if i + 1 < |lines| then lines[i + 1] else ""
  }

  function Records(lines: seq<string>): seq<Hnb> {
    if lines == [] then []
    else
      match RecordOf(lines[0], NextLine(lines, 0))
      case Some(hnb) => [hnb] + Records(lines[1..])
      case None => Records(lines[1..])
  }

  function ToSeq(r: Option<Hnb>): seq<Hnb> {
    match r
    case Some(hnb) => [hnb]
    case None => []
  }

  lemma RecordsCons(line: string, rest: seq<string>)
    ensures Records([line] + rest) == ToSeq(RecordOf(line, if rest == [] then "" else rest[0])) + Records(rest)
  {
    assert ([line] + rest)[1..] == rest;
  }

  /** `out` holds the records that begin on the first `i` lines. */
  ghost predicate Collected(lines: seq<string>, i: nat, out: seq<Hnb>) {
    i <= |lines| && out + Records(lines[i..]) == Records(lines)
  }

  lemma CollectOne(lines: seq<string>, i: nat, out: seq<Hnb>, found: Option<Hnb>)
    requires Collected(lines, i, out) && i < |lines| && found == RecordOf(lines[i], NextLine(lines, i))
    ensures Collected(lines, i + 1, out + ToSeq(found))
  {
    RecordsAt(lines, i);
    Regroup(out, ToSeq(found), Records(lines[i + 1..]));
  }

  lemma RecordsAt(lines: seq<string>, i: nat)
    requires i < |lines|
    ensures Records(lines[i..]) == ToSeq(RecordOf(lines[i], NextLine(lines, i))) + Records(lines[i + 1..])
  {
    RecordsCons(lines[i], lines[i + 1..]);
    assert lines[i..] == [lines[i]] + lines[i + 1..];
  }

  lemma Regroup(a: seq<Hnb>, b: seq<Hnb>, c: seq<Hnb>)
    ensures a + (b + c) == (a + b) + c
  {
  }

  method ParseHnbList(raw: string) returns (out: seq<Hnb>)
    ensures out == Records(Split(raw, '\n'))
  {
    out := [];
    var lines := Split(raw, '\n');
    var i := 0;
    assert lines[0..] == lines;
    while i < |lines|
      invariant Collected(lines, i, out)
    {
      CollectOne(lines, i, out, RecordOf(lines[i], NextLine(lines, i)));
      var head := Match(HEAD, lines[i]);
      if head.Some? {
        var detail := MatchDetail(if i + 1 < |lines| then lines[i + 1] else "");
        if detail.Some? {
          out := out + [Assemble(head.value, detail.value)];
        }
      }
      i := i + 1;
    }
  }

  // ----- what a record means, without the engine -----

  /** The line opens with the head form; the forms are unambiguous, so the pieces are too. */
  ghost predicate HeadReads(line: string, head: seq<string>) {
    Splits(HEAD, line, head)
  }

  /** `detail` is the leftmost place where the six fields stand, the last number read to its end. */
  ghost predicate DetailReads(line: string, at: nat, detail: seq<string>) {
    && at <= |line|
    && Splits(Detail(), line[at..], detail) && Stops(Detail(), line[at..], detail)
    && forall p, other :: 0 <= p < at ==> !Splits(Detail(), line[p..], other)
  }

  /** A pair of lines gives a record exactly when both forms are there, and gives that record. */
  lemma RecordIff(line: string, next: string, hnb: Hnb)
    ensures RecordOf(line, next) == Some(hnb) <==>
            exists head, at, detail :: HeadReads(line, head) && DetailReads(next, at, detail)
                                       && |head| == 9 && NumbersAt(detail) && hnb == Assemble(head, detail)
  {
    PatternsAreSeparated();
    if RecordOf(line, next) == Some(hnb) {
      var head, found := Match(HEAD, line).value, Search(Detail(), next).value;
      MatchIsSound(HEAD, line);
      MatchIsSound(Detail(), next[found.0..]);
      MatchStops(Detail(), next[found.0..]);
      SearchIsLeftmost(Detail(), next);
      DetailHasNumbers(next[found.0..], found.1);
      forall p, other | 0 <= p < found.0
        ensures !Splits(Detail(), next[p..], other)
      {
        assert Misses(Detail(), next, p);
        if Splits(Detail(), next[p..], other) {
          MatchIsComplete(Detail(), next[p..], other);
        }
      }
      assert HeadReads(line, head) && DetailReads(next, found.0, found.1);
    }
    if head, at, detail :| HeadReads(line, head) && DetailReads(next, at, detail)
                           && |head| == 9 && NumbersAt(detail) && hnb == Assemble(head, detail) {
      RecordFromForms(line, next, head, at, detail);
    }
  }

  lemma RecordFromForms(line: string, next: string, head: seq<string>, at: nat, detail: seq<string>)
    requires HeadReads(line, head) && DetailReads(next, at, detail)
    ensures |head| == 9 && NumbersAt(detail)
    ensures RecordOf(line, next) == Some(Assemble(head, detail))
  {
    PatternsAreSeparated();
    OnlyReading(HEAD, line, head);
    OnlyReading(Detail(), next[at..], detail);
    DetailHasNumbers(next[at..], detail);
    forall p | 0 <= p < at
      ensures Misses(Detail(), next, p)
    {
      MatchIsSound(Detail(), next[p..]);
    }
    SearchShift(Detail(), next, at);
    assert next[at..][0..] == next[at..];
  }
}
