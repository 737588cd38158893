/** Characters, decimal numbers, and splitting text at a separator character. */
module Text {
  import opened Prelude

  /** JavaScript's WhiteSpace and LineTerminator: what \s matches and trim() removes. */
  predicate IsSpace(c: char) {
    || '\t' <= c <= '\r' || c == ' ' || c == '\U{00A0}' || c == '\U{1680}'
    || '\U{2000}' <= c <= '\U{200A}' || '\U{2028}' <= c <= '\U{2029}' || c == '\U{202F}'
    || c == '\U{205F}' || c == '\U{3000}' || c == '\U{FEFF}'
  }

  predicate IsDigit(c: char) {
    '0' <= c <= '9'
  }

  /** The white space of ECMAScript, character by character; nothing visible in ASCII is among it. */
  lemma SpacesAre()
    ensures forall c :: c in ['\t', '\n', '\U{000B}', '\U{000C}', '\r', ' ', '\U{00A0}', '\U{FEFF}'] ==> IsSpace(c)
    ensures forall c :: c in ['\U{1680}', '\U{2000}', '\U{200A}', '\U{202F}', '\U{205F}', '\U{3000}'] ==> IsSpace(c)
    ensures IsSpace('\U{2028}') && IsSpace('\U{2029}')
    ensures forall c :: '!' <= c <= '~' ==> !IsSpace(c)
  {
  }

  predicate AllDigits(s: string) {
    forall i :: 0 <= i < |s| ==> IsDigit(s[i])
  }

  // ----- decimal numbers -----

  function Value(s: string): nat
    requires AllDigits(s)
  {
    if s == "" then 0
    else
      assert IsDigit(s[|s| - 1]);
      10 * Value(s[..|s| - 1]) + (s[|s| - 1] as int - '0' as int)
  }

  function Decimal(n: nat): (s: string)
    ensures s != "" && AllDigits(s)
  {
    (if n < 10 then "" else Decimal(n / 10)) + [('0' as int + n % 10) as char]
  }

  lemma {:induction false} DecimalReadsBack(n: nat)
    ensures Value(Decimal(n)) == n
  {
    var s := Decimal(n);
    if n >= 10 {
      DecimalReadsBack(n / 10);
      assert s[..|s| - 1] == Decimal(n / 10);
    } else {
      assert s[..|s| - 1] == "";
    }
  }

  // ----- lines -----

  /** split('\n') and the like: always at least one part. */
  function Split(s: string, sep: char): (parts: seq<string>)
    ensures parts != []
    ensures forall i :: 0 <= i < |parts| ==> sep !in parts[i]
  {
    if s == "" then [""]
    else
      var rest := Split(s[1..], sep);
      if s[0] == sep then [""] + rest else [[s[0]] + rest[0]] + rest[1..]
  }

  function Join(parts: seq<string>, sep: string): string {
    if parts == [] then ""
    else if |parts| == 1 then parts[0]
    else parts[0] + sep + Join(parts[1..], sep)
  }

  lemma {:induction false} JoinUndoesSplit(s: string, sep: char)
    ensures Join(Split(s, sep), [sep]) == s
  {
    if s != "" {
      JoinUndoesSplit(s[1..], sep);
      var rest := Split(s[1..], sep);
      if s[0] == sep {
        assert ([""] + rest)[1..] == rest;
      } else {
        assert ([[s[0]] + rest[0]] + rest[1..])[1..] == rest[1..];
      }
    }
  }

  lemma SplitCons(c: char, s: string, sep: char)
    ensures Split([c] + s, sep) ==
            if c == sep then [""] + Split(s, sep) else [[c] + Split(s, sep)[0]] + Split(s, sep)[1..]
  {
    assert ([c] + s)[1..] == s;
  }

  lemma {:induction false} SplitPlain(s: string, sep: char)
    requires sep !in s
    ensures Split(s, sep) == [s]
  {
    if s != "" {
      SplitPlain(s[1..], sep);
      SplitCons(s[0], s[1..], sep);
      assert [s[0]] + s[1..] == s;
    }
  }

  /** The parts so far, when `b` arrives: only the last of them is split again. */
  function AppendToLast(parts: seq<string>, b: string, sep: char): (r: seq<string>)
    requires parts != []
    ensures r != []
  {
    parts[..|parts| - 1] + Split(parts[|parts| - 1] + b, sep)
  }

  /** What follows only touches the last part: splitting can go on from there. */
  lemma {:induction false} SplitAppend(a: string, b: string, sep: char)
    ensures Split(a + b, sep) == AppendToLast(Split(a, sep), b, sep)
  {
    if a == "" {
      assert a + b == b && "" + b == b;
    } else {
      var c, tail := a[0], a[1..];
      SplitAppend(tail, b, sep);
      HeadAndTail(a, b);
      SplitCons(c, tail, sep);
      SplitCons(c, tail + b, sep);
      if c == sep {
        SeparatorInFront(Split(tail, sep), b, sep);
      } else {
        CharacterInFront(c, Split(tail, sep), b, sep);
      }
    }
  }

  lemma HeadAndTail(a: string, b: string)
    requires a != ""
    ensures a == [a[0]] + a[1..] && a + b == [a[0]] + (a[1..] + b)
  {
  }

  lemma SeparatorInFront(rest: seq<string>, b: string, sep: char)
    requires rest != []
    ensures [""] + AppendToLast(rest, b, sep) == AppendToLast([""] + rest, b, sep)
  {
    assert ([""] + rest)[..|rest|] == [""] + rest[..|rest| - 1];
  }

  /** Putting a character in front of the first part leaves the later parts alone. */
  lemma CharacterInFront(c: char, rest: seq<string>, b: string, sep: char)
    requires rest != [] && c != sep
    ensures var whole := AppendToLast(rest, b, sep);
            [[c] + whole[0]] + whole[1..] == AppendToLast([[c] + rest[0]] + rest[1..], b, sep)
  {
    var m := |rest| - 1;
    if m == 0 {
      assert [c] + rest[0] + b == [c] + (rest[0] + b);
      SplitCons(c, rest[0] + b, sep);
    } else {
      PrefixFirst(c, rest[..m], [rest[m]]);
      PrefixFirst(c, rest[..m], Split(rest[m] + b, sep));
      assert rest == rest[..m] + [rest[m]];
    }
  }

  lemma PrefixFirst(c: char, init: seq<string>, tail: seq<string>)
    requires init != []
    ensures [[c] + (init + tail)[0]] + (init + tail)[1..] == ([[c] + init[0]] + init[1..]) + tail
  {
  }

  lemma {:induction false} SplitUndoesJoin(parts: seq<string>, sep: char)
    requires forall i :: 0 <= i < |parts| ==> sep !in parts[i]
    ensures Split(Join(parts, [sep]), sep) == if parts == [] then [""] else parts
    decreases |parts|
  {
    if |parts| == 1 {
      SplitPlain(parts[0], sep);
    } else if |parts| > 1 {
      SplitUndoesJoin(parts[1..], sep);
      var rest := Join(parts[1..], [sep]);
      assert parts[0] + [sep] + rest == parts[0] + ([sep] + rest);
      SplitFromSeparator(parts[0], rest, sep);
    }
  }

  lemma {:induction false} SplitFromSeparator(a: string, b: string, sep: char)
    requires sep !in a
    ensures Split(a + ([sep] + b), sep) == [a] + Split(b, sep)
  {
    SplitCons(sep, b, sep);
    if a == "" {
      assert a + ([sep] + b) == [sep] + b;
    } else {
      SplitFromSeparator(a[1..], b, sep);
      assert a + ([sep] + b) == [a[0]] + (a[1..] + ([sep] + b));
      SplitCons(a[0], a[1..] + ([sep] + b), sep);
      assert [a[0]] + a[1..] == a;
    }
  }

  // ----- trim -----

  function TrimStart(s: string): (t: string) {
    if s != "" && IsSpace(s[0]) then TrimStart(s[1..]) else s
  }

  function TrimEnd(s: string): (t: string) {
    if s != "" && IsSpace(s[|s| - 1]) then TrimEnd(s[..|s| - 1]) else s
  }

  function Trim(s: string): string {
    TrimEnd(TrimStart(s))
  }

  lemma TrimKeepsClean(s: string)
    requires s == "" || (!IsSpace(s[0]) && !IsSpace(s[|s| - 1]))
    ensures Trim(s) == s
  {
  }
}
