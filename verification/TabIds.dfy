/** Reading a tab id out of the URL fragment: `TAB_ID` and `tabFromHash`. */
module TabIds {
  import opened Prelude

  predicate IsIdChar(c: char) {
    'a' <= c <= 'z' || '0' <= c <= '9' || c == '-'
  }

  /** The whole-string test /^[a-z0-9-]{1,40}$/. */
  predicate IsTabId(s: string) {
    1 <= |s| <= 40 && forall i :: 0 <= i < |s| ==> IsIdChar(s[i])
  }

  function HexValue(c: char): (v: int)
    ensures -1 <= v < 16
  {
    if '0' <= c <= '9' then c as int - '0' as int
    else if 'a' <= c <= 'f' then c as int - 'a' as int + 10
    else if 'A' <= c <= 'F' then c as int - 'A' as int + 10
    else -1
  }

  /**
    decodeURIComponent, as far as a tab id can tell. None stands for "throws, or
    decodes some escape to a non-ASCII character": the first makes `tabFromHash`
    return null directly, the second fails its character test, so both come out
    the same.
  */
  function Decode(raw: string): Option<string> {
    if raw == "" then Some("")
    else if raw[0] != '%' then
      match Decode(raw[1..])
      case Some(rest) => Some([raw[0]] + rest)
      case None => None
    else if |raw| < 3 || HexValue(raw[1]) < 0 || HexValue(raw[2]) < 0 then None
    else
      var code := 16 * HexValue(raw[1]) + HexValue(raw[2]);
      if code >= 128 then None
      else
        match Decode(raw[3..])
        case Some(rest) => Some([code as char] + rest)
        case None => None
  }

  /** `hash` is location.hash: empty, or '#' followed by the fragment. */
  function TabFromHash(hash: string): (r: Option<string>)
    ensures r.Some? ==> IsTabId(r.value)
  {
    var raw := if hash != "" && hash[0] == '#' then hash[1..] else hash;
    if raw == "" then None
    else
      match Decode(raw)
      case Some(text) => if IsTabId(text) then Some(text) else None
      case None => None
  }

  function HexDigit(n: int, upper: bool): (c: char)
    requires 0 <= n < 16
    ensures HexValue(c) == n
  {
    if n < 10 then ('0' as int + n) as char
    else if upper then ('A' as int + n - 10) as char
    else ('a' as int + n - 10) as char
  }

  lemma HexDigitIs(n: int)
    requires 0 <= n < 16
    ensures HexDigit(n, true) == "0123456789ABCDEF"[n] && HexDigit(n, false) == "0123456789abcdef"[n]
  {
  }

  predicate AllAscii(s: string) {
    forall i :: 0 <= i < |s| ==> s[i] as int < 128
  }

  predicate AllIdChars(id: string) {
    forall i :: 0 <= i < |id| ==> IsIdChar(id[i])
  }

  /** How one character is spelled: as itself, or escaped with either case of each hex letter. */
  datatype Spelling = Plain | Escaped(upperHigh: bool, upperLow: bool)

  function Escape(code: int, upperHigh: bool, upperLow: bool): string
    requires 0 <= code < 128
  {
    ['%', HexDigit(code / 16, upperHigh), HexDigit(code % 16, upperLow)]
  }

  function SpellChar(c: char, how: Spelling): string
    requires c as int < 128
  {
    match how
    case Plain => [c]
    case Escaped(upperHigh, upperLow) => Escape(c as int, upperHigh, upperLow)
  }

  /** Writes `id` into a fragment, each character as `how` says. */
  function Spell(id: string, how: seq<Spelling>): string
    requires |how| == |id| && AllAscii(id)
  {
    if id == "" then "" else SpellChar(id[0], how[0]) + Spell(id[1..], how[1..])
  }

  lemma DecodeChar(c: char, how: Spelling, rest: string, text: string)
    requires IsIdChar(c) && Decode(rest) == Some(text)
    ensures Decode(SpellChar(c, how) + rest) == Some([c] + text)
  {
    var raw := SpellChar(c, how) + rest;
    assert raw[|SpellChar(c, how)|..] == rest;
    if how.Escaped? {
      assert 16 * (c as int / 16) + c as int % 16 == c as int;
    }
  }

  lemma {:induction false} DecodeSpell(id: string, how: seq<Spelling>)
    requires |how| == |id| && AllIdChars(id)
    ensures Decode(Spell(id, how)) == Some(id)
  {
    if id != "" {
      DecodeSpell(id[1..], how[1..]);
      DecodeChar(id[0], how[0], Spell(id[1..], how[1..]), id[1..]);
      assert [id[0]] + id[1..] == id;
    }
  }

  /** However its characters are escaped, the fragment of a tab id reads back as that id. */
  lemma SpelledIdReadsBack(id: string, how: seq<Spelling>)
    requires IsTabId(id) && |how| == |id|
    ensures TabFromHash("#" + Spell(id, how)) == Some(id)
  {
    DecodeSpell(id, how);
    assert ("#" + Spell(id, how))[1..] == Spell(id, how);
  }

  // ----- nothing else is read -----

  lemma DigitOfValue(c: char)
    requires HexValue(c) >= 0
    ensures HexDigit(HexValue(c), 'A' <= c <= 'F') == c
  {
  }

  ghost predicate SpelledAs(raw: string, id: string, how: seq<Spelling>) {
    |how| == |id| && AllAscii(id) && Spell(id, how) == raw
  }

  lemma HighAndLow(high: int, low: int)
    requires 0 <= low < 16
    ensures (16 * high + low) / 16 == high && (16 * high + low) % 16 == low
  {
  }

  lemma SpellOneMore(c: char, one: Spelling, raw: string, id: string, how: seq<Spelling>)
    requires c as int < 128 && SpelledAs(raw, id, how)
    ensures SpelledAs(SpellChar(c, one) + raw, [c] + id, [one] + how)
  {
    assert ([c] + id)[1..] == id && ([one] + how)[1..] == how;
  }

  lemma EscapeHalves(code: int, h: int, l: int, upperHigh: bool, upperLow: bool)
    requires 0 <= code < 128 && 0 <= h < 16 && 0 <= l < 16 && code == 16 * h + l
    ensures Escape(code, upperHigh, upperLow) == ['%', HexDigit(h, upperHigh), HexDigit(l, upperLow)]
  {
    HighAndLow(h, l);
  }

  lemma SpellEscape(high: char, low: char, c: char) returns (one: Spelling)
    requires HexValue(high) >= 0 && HexValue(low) >= 0 && c as int < 128
    requires c as int == 16 * HexValue(high) + HexValue(low)
    ensures SpellChar(c, one) == ['%', high, low]
  {
    one := Escaped('A' <= high <= 'F', 'A' <= low <= 'F');
    EscapeHalves(c as int, HexValue(high), HexValue(low), one.upperHigh, one.upperLow);
    DigitOfValue(high);
    DigitOfValue(low);
  }

  lemma DecodePlain(c: char, rest: string)
    requires c != '%' && Decode([c] + rest).Some?
    ensures Decode(rest).Some? && Decode([c] + rest).value == [c] + Decode(rest).value
  {
    assert ([c] + rest)[1..] == rest;
  }

  lemma DecodeEscape(high: char, low: char, rest: string)
    requires Decode(['%', high, low] + rest).Some?
    ensures HexValue(high) >= 0 && HexValue(low) >= 0 && 16 * HexValue(high) + HexValue(low) < 128
    ensures Decode(rest).Some?
    ensures Decode(['%', high, low] + rest).value ==
            [(16 * HexValue(high) + HexValue(low)) as char] + Decode(rest).value
  {
    assert (['%', high, low] + rest)[3..] == rest;
  }

  lemma FirstThree(raw: string)
    requires |raw| >= 3
    ensures raw == [raw[0], raw[1], raw[2]] + raw[3..]
  {
  }

  /** How a text that decodes to id characters was spelled. */
  lemma {:induction false} HowSpelled(raw: string, id: string) returns (how: seq<Spelling>)
    requires Decode(raw) == Some(id) && AllIdChars(id)
    ensures SpelledAs(raw, id, how)
    decreases |raw|
  {
    if raw == "" {
      how := [];
    } else if raw[0] != '%' {
      assert raw == [raw[0]] + raw[1..];
      DecodePlain(raw[0], raw[1..]);
      var rest := HowSpelled(raw[1..], id[1..]);
      SpellOneMore(raw[0], Plain, raw[1..], id[1..], rest);
      how := [Plain] + rest;
    } else {
      FirstThree(raw);
      DecodeEscape(raw[1], raw[2], raw[3..]);
      assert IsIdChar(id[0]);
      var one := SpellEscape(raw[1], raw[2], id[0]);
      var rest := HowSpelled(raw[3..], id[1..]);
      SpellOneMore(id[0], one, raw[3..], id[1..], rest);
      how := [one] + rest;
    }
  }

  /** A fragment reads as an id exactly when it is a spelling of 1 to 40 of the allowed characters. */
  lemma ReadsAsIff(raw: string, id: string)
    ensures TabFromHash("#" + raw) == Some(id) <==>
              && 1 <= |id| <= 40
              && (forall c :: c in id ==> 'a' <= c <= 'z' || '0' <= c <= '9' || c == '-')
              && exists how :: SpelledAs(raw, id, how)
  {
    assert ("#" + raw)[1..] == raw;
    if TabFromHash("#" + raw) == Some(id) {
      var how := HowSpelled(raw, id);
    }
    if 1 <= |id| <= 40 && forall c :: c in id ==> 'a' <= c <= 'z' || '0' <= c <= '9' || c == '-' {
      assert forall i :: 0 <= i < |id| ==> id[i] in id;
      if how :| SpelledAs(raw, id, how) { SpelledIdReadsBack(id, how); }
    }
  }

  lemma {:induction false} PlainSpelling(id: string, how: seq<Spelling>)
    requires |how| == |id| && AllIdChars(id) && forall i :: 0 <= i < |id| ==> how[i] == Plain
    ensures Spell(id, how) == id
  {
    if id != "" {
      PlainSpelling(id[1..], how[1..]);
    }
  }

  /** The fragment the app itself writes reads back as the id it wrote. */
  lemma WrittenIdReadsBack(id: string)
    requires IsTabId(id)
    ensures TabFromHash("#" + id) == Some(id)
  {
    var plain := seq(|id|, _ => Plain);
    PlainSpelling(id, plain);
    SpelledIdReadsBack(id, plain);
  }
}
