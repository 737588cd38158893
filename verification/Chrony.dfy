/** `chronyc` ages and the list of recent clients (frontend/src/api/chrony.ts). */
module Chrony {
  import opened Prelude
  import opened Regex
  import opened Sorting
  import opened Text

  predicate IsUnit(c: char) {
    c == 'd' || c == 'h' || c == 'm' || c == 's'
  }

  function InSeconds(v: nat, unit: char): nat {
    if unit == 'd' then v * 86400 else if unit == 'h' then v * 3600 else if unit == 'm' then v * 60 else v
  }

  /** /(\d+)([dhms])/ */
  const TERM: seq<Item> := [Many(IsDigit, 1), One(IsUnit)]

  // ----- what the scan reads -----

  datatype Term = Term(digits: string, unit: char)

  predicate IsTerm(t: Term) {
    t.digits != "" && AllDigits(t.digits) && IsUnit(t.unit)
  }

  predicate AllTerms(terms: seq<Term>) {
    forall i :: 0 <= i < |terms| ==> IsTerm(terms[i])
  }

  /**
    A text read once from left to right: a run of digits is a term when a unit letter
    follows it, and everything else is skipped.
   */
  function Terms(s: string): (r: seq<Term>)
    ensures AllTerms(r)
    decreases |s|
  {
    var k := Span(s, IsDigit);
    if k == |s| then []
    else if k > 0 && IsUnit(s[k]) then [Term(s[..k], s[k])] + Terms(s[k + 1..])
    else Terms(s[k + 1..])
  }

  function Total(terms: seq<Term>): nat
    requires AllTerms(terms)
  {
    if terms == [] then 0
    else
      assert IsTerm(terms[0]);
      InSeconds(Value(terms[0].digits), terms[0].unit) + Total(terms[1..])
  }

  function Sum(s: string): nat {
    Total(Terms(s))
  }

  function PiecesOf(terms: seq<Term>): (r: seq<seq<string>>)
    ensures |r| == |terms|
    ensures forall i :: 0 <= i < |r| ==> r[i] == [terms[i].digits, [terms[i].unit]]
  {
    if terms == [] then [] else [[terms[0].digits, [terms[0].unit]]] + PiecesOf(terms[1..])
  }

  lemma CutAt(a: string, k: nat, b: string)
    requires k < |a|
    ensures a == a[..k] + [a[k]] + a[k + 1..] && a + b == a[..k] + [a[k]] + (a[k + 1..] + b)
  {
  }

  lemma WrittenTermMatches(digits: string, unit: char, after: string)
    requires digits != "" && AllDigits(digits) && IsUnit(unit)
    ensures Match(TERM, digits + [unit] + after) == Some([digits, [unit]])
  {
    var pieces := [digits, [unit]];
    ConcatTwo(digits, [unit]);
    WrittenReads(TERM, pieces, after);
  }

  lemma TermMatches(s: string, k: nat)
    requires k == Span(s, IsDigit) && 0 < k < |s| && IsUnit(s[k])
    ensures Match(TERM, s) == Some([s[..k], [s[k]]])
  {
    CutAt(s, k, "");
    WrittenTermMatches(s[..k], s[k], s[k + 1..]);
  }

  lemma TermReading(s: string, pieces: seq<string>)
    requires Splits(TERM, s, pieces)
    ensures var k := Span(s, IsDigit); 0 < k < |s| && IsUnit(s[k])
  {
    var n := |pieces[0]|;
    assert Takes(TERM[0], pieces[0]) && Splits(TERM[1..], s[n..], pieces[1..]);
    assert Takes(TERM[1], pieces[1]) && pieces[1] <= s[n..];
    assert s[n] == pieces[1][0];
    assert forall i :: 0 <= i < n ==> s[i] == pieces[0][i];
  }

  lemma NothingMatches(s: string, k: nat)
    requires k == Span(s, IsDigit) && !(0 < k < |s| && IsUnit(s[k]))
    ensures Match(TERM, s).None?
  {
    MatchIsSound(TERM, s);
    if Match(TERM, s).Some? {
      TermReading(s, Match(TERM, s).value);
    }
  }

  lemma TermShape(s: string)
    ensures var k := Span(s, IsDigit);
            Match(TERM, s) == if 0 < k < |s| && IsUnit(s[k]) then Some([s[..k], [s[k]]]) else None
  {
    var k := Span(s, IsDigit);
    if 0 < k < |s| && IsUnit(s[k]) {
      TermMatches(s, k);
    } else {
      NothingMatches(s, k);
    }
  }

  /** The digits from `p` on, up to `q`, are a whole run, and a unit letter follows them. */
  ghost predicate TermAt(s: string, p: nat, q: nat) {
    && p < q < |s| && IsUnit(s[q])
    && (forall i :: p <= i < q ==> IsDigit(s[i]))
    && (p > 0 ==> !IsDigit(s[p - 1]))
  }

  lemma MatchAtTerm(s: string, p: nat, q: nat)
    requires TermAt(s, p, q)
    ensures Match(TERM, s[p..]) == Some([s[p..q], [s[q]]])
  {
    TermShape(s[p..]);
    SpanIs(s[p..], IsDigit, q - p);
    assert s[p..][..q - p] == s[p..q];
  }

  lemma MatchInRun(s: string, p: nat)
    requires 0 < p <= |s| && IsDigit(s[p - 1]) && Match(TERM, s[p..]).Some?
    ensures Match(TERM, s[p - 1..]).Some?
  {
    TermShape(s[p..]);
    TermShape(s[p - 1..]);
    assert s[p - 1..][1..] == s[p..];
  }

  lemma NothingBefore(s: string, p: nat, q: nat)
    requires TermAt(s, p, q)
    ensures Search(TERM, s).Some? && Search(TERM, s).value.0 <= p
  {
    SearchIsLeftmost(TERM, s);
    MatchAtTerm(s, p, q);
    assert !Misses(TERM, s, p);
  }

  lemma FoundIsWhole(s: string, p: nat, pieces: seq<string>)
    requires Search(TERM, s) == Some((p, pieces))
    ensures TermAt(s, p, p + |pieces[0]|)
    ensures pieces == [s[p..p + |pieces[0]|], [s[p + |pieces[0]|]]]
  {
    FoundShape(s, p, pieces);
    if p > 0 { NoDigitBefore(s, p, pieces); }
  }

  lemma FoundShape(s: string, p: nat, pieces: seq<string>)
    requires p <= |s| && Match(TERM, s[p..]) == Some(pieces)
    ensures var q := p + |pieces[0]|;
            && p < q < |s| && IsUnit(s[q]) && (forall i :: p <= i < q ==> IsDigit(s[i]))
            && pieces == [s[p..q], [s[q]]]
  {
    TermShape(s[p..]);
    var k := |pieces[0]|;
    assert s[p..][..k] == s[p..p + k];
    forall i | p <= i < p + k ensures IsDigit(s[i]) {
      assert s[i] == s[p..][i - p];
    }
  }

  lemma NoDigitBefore(s: string, p: nat, pieces: seq<string>)
    requires Search(TERM, s) == Some((p, pieces)) && p > 0
    ensures !IsDigit(s[p - 1])
  {
    SearchIsLeftmost(TERM, s);
    assert Misses(TERM, s, p - 1);
    if IsDigit(s[p - 1]) { MatchInRun(s, p); }
  }

  /**
    What the expression finds first in a text is its first term, a whole run of digits
    with a unit letter behind it; it finds something exactly when there is a term.
   */
  lemma FirstMatchIsFirstTerm(s: string)
    ensures var r := Search(TERM, s);
            && (forall p, q :: TermAt(s, p, q) ==> r.Some? && r.value.0 <= p)
            && (r.Some? ==>
                 var p, q := r.value.0, r.value.0 + |r.value.1[0]|;
                 TermAt(s, p, q) && r.value.1 == [s[p..q], [s[q]]])
  {
    forall p, q | TermAt(s, p, q) ensures Search(TERM, s).Some? && Search(TERM, s).value.0 <= p {
      NothingBefore(s, p, q);
    }
    var r := Search(TERM, s);
    if r.Some? { FoundIsWhole(s, r.value.0, r.value.1); }
  }

  /** Inside a run of digits without a unit, and at the character that ends it, no term starts. */
  lemma NoTermInRun(s: string, k: nat, p: nat)
    requires k == Span(s, IsDigit) && !(0 < k < |s| && IsUnit(s[k])) && p <= k
    ensures Misses(TERM, s, p)
  {
    SpanOfTail(s, IsDigit, k, p);
    NothingMatches(s[p..], k - p);
  }

  lemma TermsStep(digits: string, c: char, rest: string)
    requires AllDigits(digits) && !IsDigit(c)
    ensures Terms(digits + [c] + rest) ==
            (if digits != "" && IsUnit(c) then [Term(digits, c)] else []) + Terms(rest)
  {
    var s, k := digits + [c] + rest, |digits|;
    SpanIs(s, IsDigit, k);
    assert s[..k] == digits && s[k] == c && s[k + 1..] == rest;
  }

  lemma TermFirst(digits: string, unit: char, rest: string)
    requires digits != "" && AllDigits(digits) && IsUnit(unit)
    requires AllMatches(TERM, rest) == PiecesOf(Terms(rest))
    ensures AllMatches(TERM, digits + [unit] + rest) == PiecesOf(Terms(digits + [unit] + rest))
  {
    WrittenTermMatches(digits, unit, rest);
    PairInFront(TERM, digits, [unit], rest);
    TermsStep(digits, unit, rest);
    PiecesOfCons(Term(digits, unit), Terms(rest));
  }

  lemma PiecesOfCons(t: Term, rest: seq<Term>)
    ensures PiecesOf([t] + rest) == [[t.digits, [t.unit]]] + PiecesOf(rest)
  {
  }

  lemma NoTermUpTo(s: string, k: nat)
    requires k == Span(s, IsDigit) && !(0 < k < |s| && IsUnit(s[k]))
    ensures forall p :: 0 <= p <= k ==> Misses(TERM, s, p)
  {
    forall p | 0 <= p <= k ensures Misses(TERM, s, p) {
      NoTermInRun(s, k, p);
    }
  }

  lemma NoTermInDigits(s: string)
    requires Span(s, IsDigit) == |s|
    ensures NextMatch(TERM, s) == None
  {
    SearchIsLeftmost(TERM, s);
    var r := Search(TERM, s);
    if r.Some? {
      NoTermInRun(s, |s|, r.value.0);
    }
  }

  /** The matches of the expression, one after the other, are the terms of the reading. */
  lemma {:induction false} MatchesAreTerms(s: string)
    ensures AllMatches(TERM, s) == PiecesOf(Terms(s))
    decreases |s|
  {
    var k := Span(s, IsDigit);
    if k == |s| {
      NoTermInDigits(s);
    } else {
      MatchesAreTerms(s[k + 1..]);
      if k > 0 && IsUnit(s[k]) {
        CutAt(s, k, "");
        TermFirst(s[..k], s[k], s[k + 1..]);
      } else {
        NoTermUpTo(s, k);
        AllMatchesShift(TERM, s, k + 1);
      }
    }
  }

  /** What the source returns for every text. */
  function Age(s: string): Option<nat> {
    if s == "" || s == "-" then None
    else if AllDigits(s) then Some(Value(s))
    else if Sum(s) > 0 then Some(Sum(s))
    else None
  }

  method ParseChronycAge(s: string) returns (age: Option<nat>)
    ensures age == Age(s)
  {
    if s == "" || s == "-" { return None; }
    if AllDigits(s) { return Some(Value(s)); }
    var seconds: nat := 0;
    MatchesAreTerms(s);
    var matches := AllMatches(TERM, s);
    ghost var terms := Terms(s);
    for i := 0 to |matches|
      invariant AllTerms(terms[i..]) && seconds + Total(terms[i..]) == Sum(s)
    {
      assert IsTerm(terms[i]) && terms[i..][1..] == terms[i + 1..];
      var n, unit := matches[i][0], matches[i][1][0];
      var v := Value(n);
      if unit == 'd' {
        seconds := seconds + v * 86400;
      } else if unit == 'h' {
        seconds := seconds + v * 3600;
      } else if unit == 'm' {
        seconds := seconds + v * 60;
      } else {
        seconds := seconds + v;
      }
    }
    return if seconds > 0 then Some(seconds) else None;
  }

  // ----- bare numbers, and texts that say nothing -----

  lemma {:induction false} ZerosAreWorthNothing(zeros: string, s: string)
    requires AllDigits(s) && forall i :: 0 <= i < |zeros| ==> zeros[i] == '0'
    ensures AllDigits(zeros + s) && Value(zeros + s) == Value(s)
    decreases |s|, |zeros|
  {
    var t := zeros + s;
    if s != "" {
      assert t[..|t| - 1] == zeros + s[..|s| - 1];
      ZerosAreWorthNothing(zeros, s[..|s| - 1]);
    } else if zeros != "" {
      assert t == zeros && t[..|t| - 1] == zeros[..|zeros| - 1] + "";
      ZerosAreWorthNothing(zeros[..|zeros| - 1], "");
    }
  }

  /** A bare number is that many seconds, zero included and whatever zeros lead it. */
  lemma BareNumberIsSeconds(zeros: string, n: nat)
    requires forall i :: 0 <= i < |zeros| ==> zeros[i] == '0'
    ensures Age(zeros + Decimal(n)) == Some(n)
  {
    ZerosAreWorthNothing(zeros, Decimal(n));
    DecimalReadsBack(n);
    assert IsDigit((zeros + Decimal(n))[0]);
  }

  lemma {:induction false} NoUnitNoTerm(s: string)
    requires forall i :: 0 <= i < |s| ==> s[i] != 'd' && s[i] != 'h' && s[i] != 'm' && s[i] != 's'
    ensures Terms(s) == []
    decreases |s|
  {
    var k := Span(s, IsDigit);
    if k < |s| { NoUnitNoTerm(s[k + 1..]); }
  }

  /** The empty text, the dash, and any other text with neither a unit letter nor digits alone have no age. */
  lemma OtherTextHasNoAge(s: string)
    requires forall i :: 0 <= i < |s| ==> s[i] != 'd' && s[i] != 'h' && s[i] != 'm' && s[i] != 's'
    requires s == "" || exists i :: 0 <= i < |s| && !('0' <= s[i] <= '9')
    ensures Age(s) == None && Age("") == Age("-") == None
  {
    NoUnitNoTerm(s);
  }

  // ----- laws of the reading -----

  lemma {:induction false} TotalAppend(a: seq<Term>, b: seq<Term>)
    requires AllTerms(a) && AllTerms(b)
    ensures AllTerms(a + b) && Total(a + b) == Total(a) + Total(b)
  {
    if a == [] {
      assert a + b == b;
    } else {
      assert (a + b)[1..] == a[1..] + b;
      TotalAppend(a[1..], b);
    }
  }

  /** Texts are read apart wherever the text before does not end in a digit. */
  lemma {:induction false} TermsAppend(a: string, b: string)
    requires a == "" || !IsDigit(a[|a| - 1])
    ensures Terms(a + b) == Terms(a) + Terms(b)
    decreases |a|
  {
    if a == "" {
      assert a + b == b;
    } else {
      var k := Span(a, IsDigit);
      var digits, c, rest := a[..k], a[k], a[k + 1..];
      TermsAppend(rest, b);
      TermsStep(digits, c, rest);
      TermsStep(digits, c, rest + b);
      CutAt(a, k, b);
      var head := if digits != "" && IsUnit(c) then [Term(digits, c)] else [];
      ConcatBehind(head, Terms(rest), Terms(b));
    }
  }

  lemma ConcatBehind<T>(a: seq<T>, b: seq<T>, c: seq<T>)
    ensures a + (b + c) == (a + b) + c
  {
  }

  lemma SumAppend(a: string, b: string)
    requires a == "" || !IsDigit(a[|a| - 1])
    ensures Sum(a + b) == Sum(a) + Sum(b)
  {
    TermsAppend(a, b);
    TotalAppend(Terms(a), Terms(b));
  }

  // ----- compounds -----

  function Write(terms: seq<Term>): string {
    if terms == [] then "" else terms[0].digits + [terms[0].unit] + Write(terms[1..])
  }

  lemma OneTerm(t: Term)
    requires IsTerm(t)
    ensures Terms(t.digits + [t.unit]) == [t]
  {
    TermsStep(t.digits, t.unit, "");
    assert t.digits + [t.unit] + "" == t.digits + [t.unit];
  }

  /** Terms written one after the other are read back as those terms. */
  lemma {:induction false} TermsReadBack(terms: seq<Term>)
    requires AllTerms(terms)
    ensures Terms(Write(terms)) == terms
    ensures terms != [] ==> Write(terms) != "" && IsUnit(Write(terms)[|Write(terms)| - 1])
  {
    if terms != [] {
      var t := terms[0];
      assert IsTerm(t);
      TermsReadBack(terms[1..]);
      OneTerm(t);
      TermsAppend(t.digits + [t.unit], Write(terms[1..]));
    }
  }

  /** A compound reads as its total, and as null exactly when that total is zero. */
  lemma CompoundAge(terms: seq<Term>)
    requires terms != [] && AllTerms(terms)
    ensures Age(Write(terms)) == if Total(terms) > 0 then Some(Total(terms)) else None
  {
    TermsReadBack(terms);
    var s := Write(terms);
    assert !IsDigit(s[|s| - 1]);
  }

  function Part(count: nat, unit: char): seq<Term> {
    if count == 0 then [] else [Term(Decimal(count), unit)]
  }

  /** The number of seconds `n` as days, hours, minutes and seconds, zero parts left out. */
  function Compound(n: nat): seq<Term> {
    var afterDays := n % 86400;
    var afterHours := afterDays % 3600;
    Part(n / 86400, 'd') + (Part(afterDays / 3600, 'h') + (Part(afterHours / 60, 'm') + Part(afterHours % 60, 's')))
  }

  lemma TotalOfPart(count: nat, unit: char, rest: seq<Term>)
    requires IsUnit(unit) && AllTerms(rest)
    ensures AllTerms(Part(count, unit)) && AllTerms(Part(count, unit) + rest)
    ensures Total(Part(count, unit) + rest) == InSeconds(count, unit) + Total(rest)
  {
    DecimalReadsBack(count);
    if count == 0 {
      assert Part(count, unit) + rest == rest;
    } else {
      var t := Term(Decimal(count), unit);
      assert ([t] + rest)[1..] == rest;
    }
  }

  lemma TotalOfCompound(n: nat)
    ensures AllTerms(Compound(n)) && Total(Compound(n)) == n
  {
    var afterDays := n % 86400;
    var afterHours := afterDays % 3600;
    var seconds := Part(afterHours % 60, 's');
    var minutes := Part(afterHours / 60, 'm') + seconds;
    var hours := Part(afterDays / 3600, 'h') + minutes;
    assert seconds + [] == seconds;
    TotalOfPart(afterHours % 60, 's', []);
    TotalOfPart(afterHours / 60, 'm', seconds);
    TotalOfPart(afterDays / 3600, 'h', minutes);
    TotalOfPart(n / 86400, 'd', hours);
  }

  /** Any positive age, written as chronyc writes it, is read back. */
  lemma AgeReadsBack(n: nat)
    requires n > 0
    ensures Age(Write(Compound(n))) == Some(n)
  {
    TotalOfCompound(n);
    assert Compound(n) != [];
    CompoundAge(Compound(n));
  }

  // ----- recent clients -----

  datatype Client = Client(hostname: string, ntpRequests: int, ntpDropped: int, ntpInterval: string, ntpLast: string)

  predicate IsNtpClient(c: Client) {
    c.ntpRequests > 0
  }

  predicate Within(c: Client, seconds: int) {
    Age(c.ntpLast).None? || Age(c.ntpLast).value <= seconds
  }

  function Recent(seconds: int): Client -> bool {
    c => Within(c, seconds)
  }

  function AgeKey(c: Client): int {
    match Age(c.ntpLast)
    case Some(age) => age
    case None => 0
  }

  function RecentNtpClients(clients: seq<Client>, within: int): seq<Client> {
    SortBy(Filter(Filter(clients, IsNtpClient), Recent(within)), AgeKey)
  }

  lemma RecentSameAge(clients: seq<Client>, within: int, k: int)
    ensures WithKey(RecentNtpClients(clients, within), AgeKey, k) ==
            Filter(Filter(WithKey(clients, AgeKey, k), IsNtpClient), Recent(within))
  {
    SortByKeepsKeys(Filter(Filter(clients, IsNtpClient), Recent(within)), AgeKey, k);
    WithKeyFilter(Filter(clients, IsNtpClient), AgeKey, k, Recent(within));
    WithKeyFilter(clients, AgeKey, k, IsNtpClient);
  }

  lemma RecentMembers(clients: seq<Client>, within: int, c: Client)
    ensures c in RecentNtpClients(clients, within) <==> c in clients && c.ntpRequests > 0 && Within(c, within)
  {
    var kept := Filter(Filter(clients, IsNtpClient), Recent(within));
    SortByMultiset(kept, AgeKey);
    assert c in SortBy(kept, AgeKey) <==> c in multiset(SortBy(kept, AgeKey));
    assert c in kept <==> c in multiset(kept);
  }

  /** The first client was seen no longer ago than the second; an unknown age counts as none. */
  ghost predicate SeenLater(a: Client, b: Client) {
    match (Age(a.ntpLast), Age(b.ntpLast))
    case (Some(x), Some(y)) => x <= y
    case (Some(x), None) => x == 0
    case (None, _) => true
  }

  /** Exactly the recent NTP clients, most recent first, clients of one age in listed order and as often as listed. */
  lemma RecentClientsMeaning(clients: seq<Client>, within: int)
    ensures var r := RecentNtpClients(clients, within);
            && (forall c :: c in r <==>
                  && c in clients && c.ntpRequests > 0
                  && (Age(c.ntpLast).None? || Age(c.ntpLast).value <= within))
            && (forall i, j :: 0 <= i < j < |r| ==> SeenLater(r[i], r[j]))
            && forall k ::
                 WithKey(r, AgeKey, k) == Filter(Filter(WithKey(clients, AgeKey, k), IsNtpClient), Recent(within))
  {
    var r := RecentNtpClients(clients, within);
    SortBySorted(Filter(Filter(clients, IsNtpClient), Recent(within)), AgeKey);
    forall c ensures c in r <==> c in clients && c.ntpRequests > 0 && Within(c, within) {
      RecentMembers(clients, within, c);
    }
    forall i, j | 0 <= i < j < |r| ensures SeenLater(r[i], r[j]) {
      assert AgeKey(r[i]) <= AgeKey(r[j]);
    }
    forall k ensures WithKey(r, AgeKey, k) == Filter(Filter(WithKey(clients, AgeKey, k), IsNtpClient), Recent(within)) {
      RecentSameAge(clients, within, k);
    }
  }

  /** Narrowing the window of a finished list gives the list for the narrower window. */
  lemma NarrowingTheWindow(clients: seq<Client>, narrow: int, wide: int)
    requires narrow <= wide
    ensures RecentNtpClients(RecentNtpClients(clients, wide), narrow) == RecentNtpClients(clients, narrow)
    ensures Filter(RecentNtpClients(clients, wide), Recent(narrow)) == RecentNtpClients(clients, narrow)
  {
    var near, far := Recent(narrow), Recent(wide);
    var ntp := Filter(clients, IsNtpClient);
    var all := RecentNtpClients(clients, wide);
    SortThenFilter(Filter(ntp, far), AgeKey, near);
    FilterSwap(ntp, far, near);
    FilterAll(Filter(ntp, near), far);
    forall c { RecentMembers(clients, wide, c); }
    FilterAll(all, IsNtpClient);
    SortAgain(Filter(ntp, near), AgeKey);
  }
}
