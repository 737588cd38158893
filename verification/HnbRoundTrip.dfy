/** The two-line format of `show hnb all`, written out, and read back by `parseHnbList`. */
module HnbRoundTrip {
  import opened Prelude
  import opened Regex
  import opened Text
  import opened HnbList

  /** The six numbers of a detail line as they are spelled. */
  datatype Spelling = Spelling(mcc: string, mnc: string, lac: string, rac: string, sac: string, cid: string)

  /** What the parser skips: the local address, the white space, and the ends of both lines. */
  datatype Layout = Layout(local: string, headGap: string, headEnd: string,
                           indent: string, gaps: seq<string>, detailEnd: string)

  /** A record with its six numbers as they are spelled (zeros may lead), or a line of anything else. */
  datatype Block = Noise(line: string) | Registered(hnb: Hnb, numbers: Spelling, layout: Layout)

  function HeadPieces(hnb: Hnb, local: string, gap: string): seq<string> {
    ["HNB (r=", hnb.remoteAddr, "<->l=", local, ")", gap, "\"", hnb.identity, "\""]
  }

  function DetailPieces(n: Spelling, gaps: seq<string>): seq<string>
    requires |gaps| == 11
  {
    ["MCC", gaps[0], n.mcc, gaps[1], "MNC", gaps[2], n.mnc, gaps[3], "LAC", gaps[4], n.lac, gaps[5],
     "RAC", gaps[6], n.rac, gaps[7], "SAC", gaps[8], n.sac, gaps[9], "CID", gaps[10], n.cid]
  }

  predicate Spells(text: string, n: nat) {
    text != "" && AllDigits(text) && Value(text) == n
  }

  predicate SpellsNumbers(n: Spelling, hnb: Hnb) {
    && Spells(n.mcc, hnb.mcc) && Spells(n.mnc, hnb.mnc) && Spells(n.lac, hnb.lac)
    && Spells(n.rac, hnb.rac) && Spells(n.sac, hnb.sac) && Spells(n.cid, hnb.cid)
  }

  function HeadLine(hnb: Hnb, local: string, gap: string, end: string): string {
    Concat(HeadPieces(hnb, local, gap)) + end
  }

  function DetailLine(indent: string, numbers: Spelling, gaps: seq<string>, end: string): string
    requires |gaps| == 11
  {
    indent + (Concat(DetailPieces(numbers, gaps)) + end)
  }

  ghost predicate NoBreaks(lines: seq<string>) {
    forall i :: 0 <= i < |lines| ==> '\n' !in lines[i]
  }

  ghost predicate OnOneLine(s: string) {
    '\n' !in s
  }

  /** White space within a line. */
  ghost predicate Blanks(s: string) {
    forall c :: c in s ==> IsSpace(c) && c != '\n'
  }

  ghost predicate AreGaps(gaps: seq<string>) {
    |gaps| == 11 && forall i :: 0 <= i < 11 ==> gaps[i] != "" && Blanks(gaps[i])
  }

  ghost predicate IsLayout(l: Layout) {
    && l.local != "" && ')' !in l.local && OnOneLine(l.local)
    && l.headGap != "" && Blanks(l.headGap) && Blanks(l.indent) && AreGaps(l.gaps)
    && OnOneLine(l.headEnd) && OnOneLine(l.detailEnd)
    && (l.detailEnd == "" || !IsDigit(l.detailEnd[0]))
  }

  /** Identities without quotes, addresses without their delimiters, nothing with a line break. */
  ghost predicate Printable(b: Block) {
    match b
    case Noise(line) => OnOneLine(line) && Match(HEAD, line).None?
    case Registered(hnb, numbers, layout) =>
      && SpellsNumbers(numbers, hnb) && IsLayout(layout)
      && hnb.remoteAddr != "" && '<' !in hnb.remoteAddr && OnOneLine(hnb.remoteAddr)
      && '"' !in hnb.identity && OnOneLine(hnb.identity)
  }

  ghost predicate AllPrintable(doc: seq<Block>) {
    forall i :: 0 <= i < |doc| ==> Printable(doc[i])
  }

  lemma RestIsPrintable(doc: seq<Block>)
    requires AllPrintable(doc) && doc != []
    ensures Printable(doc[0]) && AllPrintable(doc[1..])
  {
  }

  function BlockLines(b: Block): seq<string>
    requires b.Registered? ==> |b.layout.gaps| == 11
  {
    match b
    case Noise(line) => [line]
    case Registered(hnb, numbers, l) =>
      [HeadLine(hnb, l.local, l.headGap, l.headEnd), DetailLine(l.indent, numbers, l.gaps, l.detailEnd)]
  }

  ghost function Lines(doc: seq<Block>): seq<string>
    requires AllPrintable(doc)
  {
    if doc == [] then []
    else
      RestIsPrintable(doc);
      BlockLines(doc[0]) + Lines(doc[1..])
  }

  function Listed(doc: seq<Block>): seq<Hnb> {
    if doc == [] then []
    else (if doc[0].Registered? then [doc[0].hnb] else []) + Listed(doc[1..])
  }

  lemma HeadPiecesFit(hnb: Hnb, l: Layout)
    requires IsLayout(l) && hnb.remoteAddr != "" && '<' !in hnb.remoteAddr && '"' !in hnb.identity
    ensures var pieces := HeadPieces(hnb, l.local, l.headGap);
            |pieces| == |HEAD| && forall i :: 0 <= i < |HEAD| ==> Takes(HEAD[i], pieces[i])
  {
    var pieces := HeadPieces(hnb, l.local, l.headGap);
    assert forall i :: 0 <= i < |l.headGap| ==> l.headGap[i] in l.headGap;
    forall i | 0 <= i < |HEAD| ensures Takes(HEAD[i], pieces[i]) {
    }
  }

  lemma HeadIsRead(hnb: Hnb, l: Layout)
    requires IsLayout(l) && hnb.remoteAddr != "" && '<' !in hnb.remoteAddr && '"' !in hnb.identity
    ensures Match(HEAD, HeadLine(hnb, l.local, l.headGap, l.headEnd)) == Some(HeadPieces(hnb, l.local, l.headGap))
  {
    HeadPiecesFit(hnb, l);
    PatternsAreSeparated();
    WrittenReads(HEAD, HeadPieces(hnb, l.local, l.headGap), l.headEnd);
  }

  ghost predicate FitsAt(items: seq<Item>, pieces: seq<string>, i: nat)
    requires i < |items| && i < |pieces|
  {
    Takes(items[i], pieces[i]) && OnOneLine(pieces[i])
  }

  lemma GapFits(n: Spelling, gaps: seq<string>, k: nat)
    requires AreGaps(gaps) && k < 11
    ensures FitsAt(Detail(), DetailPieces(n, gaps), 2 * k + 1)
  {
    var gap := gaps[k];
    assert DetailPieces(n, gaps)[2 * k + 1] == gap;
    assert forall j :: 0 <= j < |gap| ==> gap[j] in gap;
  }

  lemma NameFits(n: Spelling, gaps: seq<string>, k: nat)
    requires |gaps| == 11 && k < 6
    ensures FitsAt(Detail(), DetailPieces(n, gaps), 4 * k)
  {
    assert DetailPieces(n, gaps)[4 * k] == FIELDS[k];
  }

  lemma NumberFits(n: Spelling, hnb: Hnb, gaps: seq<string>, k: nat)
    requires SpellsNumbers(n, hnb) && |gaps| == 11 && k < 6
    ensures FitsAt(Detail(), DetailPieces(n, gaps), 4 * k + 2)
  {
    var number := DetailPieces(n, gaps)[4 * k + 2];
    assert AllDigits(number) && number != "";
  }

  /** Every piece is a name, a number or a gap. */
  lemma KindOf(i: nat) returns (k: nat)
    requires i < 23
    ensures k < 11 && (i == 2 * k + 1 || (k < 6 && (i == 4 * k || i == 4 * k + 2)))
  {
    k := if i % 2 == 1 then i / 2 else i / 4;
  }

  lemma PieceFits(n: Spelling, hnb: Hnb, gaps: seq<string>, i: nat)
    requires SpellsNumbers(n, hnb) && AreGaps(gaps) && i < 23
    ensures FitsAt(Detail(), DetailPieces(n, gaps), i)
  {
    var k := KindOf(i);
    if i == 2 * k + 1 {
      GapFits(n, gaps, k);
    } else if i == 4 * k {
      NameFits(n, gaps, k);
    } else {
      NumberFits(n, hnb, gaps, k);
    }
  }

  lemma AllFit(items: seq<Item>, pieces: seq<string>)
    requires |pieces| == |items| && forall i :: 0 <= i < |items| ==> FitsAt(items, pieces, i)
    ensures (forall i :: 0 <= i < |items| ==> Takes(items[i], pieces[i])) && NoBreaks(pieces)
  {
    forall i | 0 <= i < |items| ensures Takes(items[i], pieces[i]) && OnOneLine(pieces[i]) {
      assert FitsAt(items, pieces, i);
    }
  }

  lemma DetailPiecesFit(n: Spelling, hnb: Hnb, gaps: seq<string>)
    requires SpellsNumbers(n, hnb) && AreGaps(gaps)
    ensures |DetailPieces(n, gaps)| == |Detail()|
    ensures forall i :: 0 <= i < |Detail()| ==> Takes(Detail()[i], DetailPieces(n, gaps)[i])
    ensures NoBreaks(DetailPieces(n, gaps))
  {
    forall i | 0 <= i < 23 ensures FitsAt(Detail(), DetailPieces(n, gaps), i) {
      PieceFits(n, hnb, gaps, i);
    }
    AllFit(Detail(), DetailPieces(n, gaps));
  }

  lemma DetailIsRead(n: Spelling, hnb: Hnb, l: Layout)
    requires SpellsNumbers(n, hnb) && IsLayout(l)
    ensures MatchDetail(DetailLine(l.indent, n, l.gaps, l.detailEnd)) == Some(DetailPieces(n, l.gaps))
  {
    DetailPiecesFit(n, hnb, l.gaps);
    PatternsAreSeparated();
    DetailFitsAtEnd();
    WrittenReads(Detail(), DetailPieces(n, l.gaps), l.detailEnd);
    NoLetterIsSpace('M');
    SearchSkips(Detail(), l.indent, Concat(DetailPieces(n, l.gaps)) + l.detailEnd);
  }

  lemma NoLetterIsSpace(c: char)
    requires 'A' <= c <= 'Z'
    ensures !IsSpace(c)
  {
  }

  lemma DetailFitsAtEnd()
    ensures |Detail()| == 23 && Detail()[0] == Lit("MCC") && Detail()[22] == Many(IsDigit, 1)
  {
  }

  lemma AssembledBack(hnb: Hnb, l: Layout, n: Spelling, detail: seq<string>)
    requires SpellsNumbers(n, hnb) && |l.gaps| == 11 && detail == DetailPieces(n, l.gaps)
    ensures NumbersAt(detail) && Assemble(HeadPieces(hnb, l.local, l.headGap), detail) == hnb
  {
  }

  lemma DetailIsNoHead(n: Spelling, l: Layout)
    requires IsLayout(l)
    ensures Match(HEAD, DetailLine(l.indent, n, l.gaps, l.detailEnd)).None?
  {
    var line := DetailLine(l.indent, n, l.gaps, l.detailEnd);
    NoLetterIsSpace('H');
    assert line[0] != 'H' by {
      if l.indent == "" { assert line[0] == "MCC"[0]; } else { assert line[0] == l.indent[0]; }
    }
    OtherStart(HEAD, line);
  }

  lemma BlockIsRead(b: Block)
    requires Printable(b) && b.Registered?
    ensures RecordOf(BlockLines(b)[0], BlockLines(b)[1]) == Some(b.hnb)
  {
    HeadIsRead(b.hnb, b.layout);
    DetailIsRead(b.numbers, b.hnb, b.layout);
    AssembledBack(b.hnb, b.layout, b.numbers, DetailPieces(b.numbers, b.layout.gaps));
  }

  lemma TwoLines(head: string, detail: string, rest: seq<string>, hnb: Hnb)
    requires RecordOf(head, detail) == Some(hnb) && Match(HEAD, detail).None?
    ensures Records([head, detail] + rest) == [hnb] + Records(rest)
  {
    RecordsCons(head, [detail] + rest);
    RecordsCons(detail, rest);
    assert [head] + ([detail] + rest) == [head, detail] + rest;
  }

  lemma BlockThenRest(b: Block, rest: seq<string>)
    requires Printable(b)
    ensures Records(BlockLines(b) + rest) == (if b.Registered? then [b.hnb] else []) + Records(rest)
  {
    if b.Noise? {
      RecordsCons(b.line, rest);
    } else {
      BlockIsRead(b);
      DetailIsNoHead(b.numbers, b.layout);
      TwoLines(BlockLines(b)[0], BlockLines(b)[1], rest, b.hnb);
    }
  }

  lemma {:induction false} LinesAreRead(doc: seq<Block>)
    requires AllPrintable(doc)
    ensures Records(Lines(doc)) == Listed(doc)
  {
    if doc != [] {
      RestIsPrintable(doc);
      LinesAreRead(doc[1..]);
      BlockThenRest(doc[0], Lines(doc[1..]));
    }
  }

  // ----- line breaks -----

  lemma HeadHasNoBreak(hnb: Hnb, l: Layout)
    requires IsLayout(l) && OnOneLine(hnb.remoteAddr) && OnOneLine(hnb.identity)
    ensures OnOneLine(HeadLine(hnb, l.local, l.headGap, l.headEnd))
  {
    var head := HeadPieces(hnb, l.local, l.headGap);
    if '\n' in Concat(head) { InConcat(head, '\n'); }
  }

  lemma DetailHasNoBreak(n: Spelling, hnb: Hnb, l: Layout)
    requires SpellsNumbers(n, hnb) && IsLayout(l)
    ensures OnOneLine(DetailLine(l.indent, n, l.gaps, l.detailEnd))
  {
    var detail := DetailPieces(n, l.gaps);
    DetailPiecesFit(n, hnb, l.gaps);
    if '\n' in Concat(detail) { InConcat(detail, '\n'); }
  }

  lemma BlockHasNoBreak(b: Block)
    requires Printable(b)
    ensures NoBreaks(BlockLines(b))
  {
    if b.Registered? {
      HeadHasNoBreak(b.hnb, b.layout);
      DetailHasNoBreak(b.numbers, b.hnb, b.layout);
    }
  }

  lemma {:induction false} LinesHaveNoBreak(doc: seq<Block>)
    requires AllPrintable(doc)
    ensures NoBreaks(Lines(doc))
  {
    if doc != [] {
      RestIsPrintable(doc);
      BlockHasNoBreak(doc[0]);
      LinesHaveNoBreak(doc[1..]);
    }
  }

  /**
    Any list of HNBs, written in the documented format with any white space and with
    anything but head lines around the records, is parsed back into the same list in the same order.
   */
  lemma ParseUndoesPrint(doc: seq<Block>)
    requires AllPrintable(doc)
    ensures Records(Split(Join(Lines(doc), "\n"), '\n')) == Listed(doc)
  {
    LinesHaveNoBreak(doc);
    LinesAreRead(doc);
    RecordsOfText(Lines(doc));
  }

  lemma RecordsOfText(lines: seq<string>)
    requires NoBreaks(lines)
    ensures Records(Split(Join(lines, "\n"), '\n')) == Records(lines)
  {
    SplitUndoesJoin(lines, '\n');
    if lines == [] {
      OtherStart(HEAD, "");
      RecordsCons("", []);
      assert [""] + [] == [""];
    }
  }

  /** The plain decimal spelling is one that the round trip covers. */
  lemma DecimalSpells(n: nat)
    ensures Spells(Decimal(n), n)
  {
    DecimalReadsBack(n);
  }
}
