/** The address boxes of the BIND page (frontend/src/pages/BindPage.tsx). */
module AddressBox {
  import opened Prelude
  import opened Regex
  import opened Text

  predicate IsSeparator(c: char) {
    c == ',' || IsSpace(c)
  }

  predicate IsPlain(c: char) {
    !IsSeparator(c)
  }

  /** split(/[,\s]+/): what stands between maximal runs of separators. */
  function SplitRuns(s: string): (parts: seq<string>)
    decreases |s|
  {
    var k := Span(s, IsPlain);
    if k == |s| then [s]
    else [s[..k]] + SplitRuns(s[k + 1 + Span(s[k + 1..], IsSeparator)..])
  }

  function TrimAll(parts: seq<string>): seq<string> {
    if parts == [] then [] else [Trim(parts[0])] + TrimAll(parts[1..])
  }

  predicate NonEmpty(s: string) {
    s != ""
  }

  /** The list read from a box. */
  function Addresses(box: string): seq<string> {
    Filter(TrimAll(SplitRuns(box)), NonEmpty)
  }

  /** The text put into a box. */
  function BoxText(addresses: seq<string>): string {
    Join(addresses, ", ")
  }

  predicate AllPlain(s: string) {
    forall i :: 0 <= i < |s| ==> IsPlain(s[i])
  }

  predicate IsAddress(s: string) {
    s != "" && AllPlain(s)
  }

  lemma CutPieces(a: string, seps: string, rest: string)
    requires seps != ""
    ensures var s, k := a + seps + rest, |a|;
            && s[..k] == a && s[k] == seps[0] && s[k + 1..] == seps[1..] + rest
            && s[k + 1 + (|seps| - 1)..] == rest
  {
  }

  lemma SplitRunsStep(a: string, seps: string, rest: string)
    requires forall i :: 0 <= i < |a| ==> IsPlain(a[i])
    requires seps != "" && forall i :: 0 <= i < |seps| ==> IsSeparator(seps[i])
    requires rest == "" || IsPlain(rest[0])
    ensures SplitRuns(a + seps + rest) == [a] + SplitRuns(rest)
  {
    CutPieces(a, seps, rest);
    SpanIs(a + seps + rest, IsPlain, |a|);
    SpanIs(seps[1..] + rest, IsSeparator, |seps| - 1);
  }

  lemma {:induction false} SplitUndoesBoxText(addresses: seq<string>)
    requires forall a :: a in addresses ==> IsAddress(a)
    ensures SplitRuns(BoxText(addresses)) == if addresses == [] then [""] else addresses
    ensures addresses != [] ==> BoxText(addresses) != "" && IsPlain(BoxText(addresses)[0])
  {
    if addresses != [] {
      var first := addresses[0];
      assert first in addresses && AllPlain(first);
      if |addresses| == 1 {
        SpanIs(first, IsPlain, |first|);
      } else {
        SplitUndoesBoxText(addresses[1..]);
        SplitRunsStep(first, ", ", BoxText(addresses[1..]));
      }
    }
  }

  ghost predicate Clean(parts: seq<string>) {
    forall part :: part in parts ==> AllPlain(part)
  }

  lemma {:induction false} TrimAllClean(parts: seq<string>)
    requires Clean(parts)
    ensures TrimAll(parts) == parts
  {
    if parts != [] {
      assert AllPlain(parts[0]);
      TrimKeepsClean(parts[0]);
      TrimAllClean(parts[1..]);
    }
  }

  /** No separator is left inside a part. */
  lemma {:induction false} SplitRunsClean(s: string)
    ensures Clean(SplitRuns(s))
    decreases |s|
  {
    var k := Span(s, IsPlain);
    if k < |s| {
      var rest := s[k + 1 + Span(s[k + 1..], IsSeparator)..];
      SplitRunsClean(rest);
      assert AllPlain(s[..k]);
    }
  }

  /** A list of addresses put into the box is read back unchanged, the empty list included. */
  lemma BoxRoundTrip(addresses: seq<string>)
    requires forall a :: a in addresses ==> IsAddress(a)
    ensures Addresses(BoxText(addresses)) == addresses
  {
    SplitUndoesBoxText(addresses);
    SplitRunsClean(BoxText(addresses));
    TrimAllClean(SplitRuns(BoxText(addresses)));
    if addresses == [] {
      assert Filter([""], NonEmpty) == [];
    } else {
      FilterAll(addresses, NonEmpty);
    }
  }

  /** Whatever the user types, only non-empty texts free of commas and white space are read. */
  lemma OnlyAddressesAreRead(box: string)
    ensures forall a :: a in Addresses(box) ==> IsAddress(a)
  {
    SplitRunsClean(box);
    TrimAllClean(SplitRuns(box));
    forall a | a in Addresses(box) ensures IsAddress(a) {
      assert a in SplitRuns(box);
    }
  }

  // ----- nothing typed is lost -----

  predicate AllSeparators(s: string) {
    forall i :: 0 <= i < |s| ==> IsSeparator(s[i])
  }

  /** Each address with the separators behind it. */
  function Spaced(addresses: seq<string>, gaps: seq<string>): string
    requires |gaps| == |addresses|
  {
    if addresses == [] then "" else addresses[0] + gaps[0] + Spaced(addresses[1..], gaps[1..])
  }

  /** Separators alone, but for the last one not empty. */
  ghost predicate AreGaps(gaps: seq<string>) {
    forall i :: 0 <= i < |gaps| ==> AllSeparators(gaps[i]) && (i < |gaps| - 1 ==> gaps[i] != "")
  }

  ghost predicate AreAddresses(addresses: seq<string>) {
    forall i :: 0 <= i < |addresses| ==> IsAddress(addresses[i])
  }

  /** The box is these addresses in this order, with nothing but separators around them. */
  ghost predicate IsReading(box: string, lead: string, gaps: seq<string>, addresses: seq<string>) {
    && |gaps| == |addresses|
    && box == lead + Spaced(addresses, gaps)
    && AllSeparators(lead) && AreGaps(gaps) && AreAddresses(addresses)
  }

  function Parts(s: string): seq<string> {
    Filter(SplitRuns(s), NonEmpty)
  }

  lemma PartsStep(a: string, gap: string, rest: string)
    requires AllPlain(a) && AllSeparators(gap) && gap != "" && (rest == "" || IsPlain(rest[0]))
    ensures Parts(a + gap + rest) == (if a == "" then [] else [a]) + Parts(rest)
  {
    SplitRunsStep(a, gap, rest);
    assert ([a] + SplitRuns(rest))[1..] == SplitRuns(rest);
  }

  lemma PartsOfOne(a: string)
    requires AllPlain(a)
    ensures Parts(a) == if a == "" then [] else [a]
  {
    SpanIs(a, IsPlain, |a|);
    assert SplitRuns(a) == [a] && [a][1..] == [];
    assert Filter([a][1..], NonEmpty) == [];
  }

  lemma {:induction false} PartsOfSpaced(addresses: seq<string>, gaps: seq<string>)
    requires |gaps| == |addresses| && AreGaps(gaps) && AreAddresses(addresses)
    ensures Parts(Spaced(addresses, gaps)) == addresses
    ensures addresses != [] ==> Spaced(addresses, gaps) != "" && IsPlain(Spaced(addresses, gaps)[0])
    decreases |addresses|
  {
    if addresses == [] {
      PartsOfOne("");
    } else {
      var a, gap, rest := addresses[0], gaps[0], Spaced(addresses[1..], gaps[1..]);
      assert IsAddress(a) && AllSeparators(gap);
      PartsOfSpaced(addresses[1..], gaps[1..]);
      if gap != "" {
        PartsStep(a, gap, rest);
      } else {
        assert a + gap + rest == a;
        PartsOfOne(a);
      }
    }
  }

  lemma AddressesAreParts(box: string)
    ensures Addresses(box) == Parts(box)
  {
    SplitRunsClean(box);
    TrimAllClean(SplitRuns(box));
  }

  lemma ReadingIsAddresses(box: string, lead: string, gaps: seq<string>, addresses: seq<string>)
    requires IsReading(box, lead, gaps, addresses)
    ensures Addresses(box) == addresses
  {
    AddressesAreParts(box);
    PartsOfSpaced(addresses, gaps);
    SkipLead(lead, Spaced(addresses, gaps));
  }

  lemma SkipLead(lead: string, rest: string)
    requires AllSeparators(lead) && (rest == "" || IsPlain(rest[0]))
    ensures Parts(lead + rest) == Parts(rest)
  {
    NothingInFront(lead, rest);
    if lead != "" { PartsStep("", lead, rest); }
  }

  lemma NothingInFront(lead: string, rest: string)
    ensures "" + lead + rest == lead + rest
    ensures lead == "" ==> lead + rest == rest
  {
  }

  lemma OneMore(a: string, gap: string, addresses: seq<string>, gaps: seq<string>)
    requires |gaps| == |addresses| && AreGaps(gaps) && AreAddresses(addresses)
    requires IsAddress(a) && AllSeparators(gap) && (gaps != [] ==> gap != "")
    ensures AreGaps([gap] + gaps) && AreAddresses([a] + addresses)
    ensures Spaced([a] + addresses, [gap] + gaps) == a + gap + Spaced(addresses, gaps)
  {
    assert ([a] + addresses)[1..] == addresses && ([gap] + gaps)[1..] == gaps;
  }

  lemma CutTwice(s: string, k: nat, m: nat)
    requires k <= |s| && m <= |s[k..]|
    ensures s == s[..k] + s[k..][..m] + s[k..][m..]
  {
  }

  lemma {:induction false} EveryTextIsSpaced(s: string) returns (addresses: seq<string>, gaps: seq<string>)
    requires s == "" || IsPlain(s[0])
    ensures |gaps| == |addresses| && AreGaps(gaps) && AreAddresses(addresses) && Spaced(addresses, gaps) == s
    ensures s == "" ==> gaps == []
    decreases |s|
  {
    if s == "" {
      addresses, gaps := [], [];
    } else {
      var k := Span(s, IsPlain);
      var m := Span(s[k..], IsSeparator);
      var more, moreGaps := EveryTextIsSpaced(s[k..][m..]);
      CutTwice(s, k, m);
      OneMore(s[..k], s[k..][..m], more, moreGaps);
      addresses, gaps := [s[..k]] + more, [s[k..][..m]] + moreGaps;
    }
  }

  lemma EveryBoxReads(box: string) returns (lead: string, gaps: seq<string>)
    ensures IsReading(box, lead, gaps, Addresses(box))
  {
    var k := Span(box, IsSeparator);
    lead := box[..k];
    var addresses;
    addresses, gaps := EveryTextIsSpaced(box[k..]);
    ReadingIsAddresses(box, lead, gaps, addresses);
  }

  /** What is read from a box is the only list of addresses the box can be taken apart into. */
  lemma AddressesIff(box: string, addresses: seq<string>)
    ensures addresses == Addresses(box) <==> exists lead, gaps :: IsReading(box, lead, gaps, addresses)
  {
    if addresses == Addresses(box) {
      var lead, gaps := EveryBoxReads(box);
    } else if lead, gaps :| IsReading(box, lead, gaps, addresses) {
      ReadingIsAddresses(box, lead, gaps, addresses);
      assert false;
    }
  }

  // ----- how addresses can be typed -----

  /** The same separator behind every address but the last. */
  function Gaps(n: nat, sep: string): (gaps: seq<string>)
    ensures |gaps| == n
  {
    seq(n, i => if i < n - 1 then sep else "")
  }

  lemma {:induction false} JoinIsSpaced(addresses: seq<string>, sep: string)
    ensures Join(addresses, sep) == Spaced(addresses, Gaps(|addresses|, sep))
  {
    if |addresses| == 1 {
      assert addresses[1..] == [] && Gaps(1, sep)[1..] == [];
    } else if |addresses| > 1 {
      JoinIsSpaced(addresses[1..], sep);
      assert Gaps(|addresses|, sep)[1..] == Gaps(|addresses| - 1, sep);
    }
  }

  lemma SeparatedReadsBack(addresses: seq<string>, sep: string)
    requires AreAddresses(addresses) && AllSeparators(sep) && sep != ""
    ensures Addresses(Join(addresses, sep)) == addresses
  {
    var gaps := Gaps(|addresses|, sep);
    JoinIsSpaced(addresses, sep);
    assert "" + Spaced(addresses, gaps) == Spaced(addresses, gaps);
    ReadingIsAddresses(Join(addresses, sep), "", gaps, addresses);
  }

  const SEPARATORS: seq<string> := [",", ", ", " ", "\t", "\n", "\r\n", ",\n", " , "]

  /** Visible characters other than the comma. */
  ghost predicate IsVisible(s: string) {
    s != "" && forall i :: 0 <= i < |s| ==> '!' <= s[i] <= '~' && s[i] != ','
  }

  /** Lists with commas, blanks, tabs, or one address a line are all read. */
  lemma UsualSeparators(addresses: seq<string>, sep: string)
    requires (forall i :: 0 <= i < |addresses| ==> IsVisible(addresses[i])) && sep in SEPARATORS
    ensures Addresses(Join(addresses, sep)) == addresses
  {
    SpacesAre();
    forall i | 0 <= i < |addresses| ensures IsAddress(addresses[i]) {
      assert IsVisible(addresses[i]);
    }
    SeparatedReadsBack(addresses, sep);
  }

  /** The box shows the addresses with a comma and a blank between them. */
  lemma BoxTextIsSpaced(addresses: seq<string>)
    ensures BoxText(addresses) == Spaced(addresses, Gaps(|addresses|, ", "))
  {
    JoinIsSpaced(addresses, ", ");
  }

  // ----- saving -----

  /** /^\d{1,3}\.\d{1,3}\.\d{1,3}\.\d{1,3}$/ */
  predicate LooksLikeIpv4(s: string) {
    var parts := Split(s, '.');
    |parts| == 4 && forall i :: 0 <= i < 4 ==> 1 <= |parts[i]| <= 3 && AllDigits(parts[i])
  }

  /** The list sent to the server, or nothing when the box is refused. */
  function Saved(box: string): Option<seq<string>> {
    var list := Addresses(box);
    if list == [] || !(forall i :: 0 <= i < |list| ==> LooksLikeIpv4(list[i])) then None else Some(list)
  }

  ghost predicate IsOctet(s: string) {
    1 <= |s| <= 3 && forall i :: 0 <= i < |s| ==> '0' <= s[i] <= '9'
  }

  ghost predicate AreOctets(s: string, a: string, b: string, c: string, d: string) {
    IsOctet(a) && IsOctet(b) && IsOctet(c) && IsOctet(d) && s == a + "." + b + "." + c + "." + d
  }

  ghost predicate IsQuad(s: string) {
    exists a, b, c, d :: AreOctets(s, a, b, c, d)
  }

  ghost predicate AllQuads(list: seq<string>) {
    forall i :: 0 <= i < |list| ==> IsQuad(list[i])
  }

  lemma JoinFour(a: string, b: string, c: string, d: string)
    ensures Join([a, b, c, d], ".") == a + "." + b + "." + c + "." + d
  {
    assert [a, b, c, d][1..] == [b, c, d] && [b, c, d][1..] == [c, d] && [c, d][1..] == [d];
    assert Join([c, d], ".") == c + "." + d;
    assert Join([b, c, d], ".") == b + "." + (c + "." + d);
  }

  lemma QuadIsTaken(a: string, b: string, c: string, d: string)
    requires IsOctet(a) && IsOctet(b) && IsOctet(c) && IsOctet(d)
    ensures LooksLikeIpv4(a + "." + b + "." + c + "." + d)
  {
    var parts := [a, b, c, d];
    JoinFour(a, b, c, d);
    forall i | 0 <= i < |parts| ensures '.' !in parts[i] && 1 <= |parts[i]| <= 3 && AllDigits(parts[i]) {
      assert IsOctet(parts[i]);
    }
    SplitUndoesJoin(parts, '.');
    assert ['.'] == ".";
  }

  lemma TakenIsQuad(s: string) returns (a: string, b: string, c: string, d: string)
    requires LooksLikeIpv4(s)
    ensures AreOctets(s, a, b, c, d)
  {
    var p := Split(s, '.');
    a, b, c, d := p[0], p[1], p[2], p[3];
    JoinUndoesSplit(s, '.');
    JoinFour(a, b, c, d);
    assert p == [a, b, c, d] && ['.'] == ".";
    forall i | 0 <= i < 4 ensures IsOctet(p[i]) {
      assert AllDigits(p[i]);
    }
  }

  /** The test takes exactly four numbers of one to three digits with dots between them. */
  lemma Ipv4Iff(s: string)
    ensures LooksLikeIpv4(s) <==> IsQuad(s)
  {
    if LooksLikeIpv4(s) {
      var a, b, c, d := TakenIsQuad(s);
    }
    if a, b, c, d :| AreOctets(s, a, b, c, d) {
      QuadIsTaken(a, b, c, d);
    }
  }

  /** A list is sent exactly when it is what the box holds, is not empty, and every address is four numbers. */
  lemma SavedIff(box: string, list: seq<string>)
    ensures Saved(box) == Some(list) <==>
              list != [] && AllQuads(list) && exists lead, gaps :: IsReading(box, lead, gaps, list)
  {
    AddressesIff(box, list);
    forall i | 0 <= i < |Addresses(box)| ensures LooksLikeIpv4(Addresses(box)[i]) <==> IsQuad(Addresses(box)[i]) {
      Ipv4Iff(Addresses(box)[i]);
    }
  }

  /** Showing what was read and reading it again changes nothing, and is saved or refused alike. */
  lemma ReloadKeepsBox(box: string)
    ensures Addresses(BoxText(Addresses(box))) == Addresses(box)
    ensures Saved(BoxText(Addresses(box))) == Saved(box)
  {
    OnlyAddressesAreRead(box);
    BoxRoundTrip(Addresses(box));
  }
}
