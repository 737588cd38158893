/** Hex strings, bytes and text (backend/tools/osmocom/utils.py). */
module HexCodec {
  import opened Prelude

  type Byte = b: int | 0 <= b < 256

  /** `ValueError` and the like; the message is not modelled. */
  datatype Outcome<+T> = Ok(value: T) | Error

  // ----- digits -----

  predicate IsHexDigit(c: char) {
    '0' <= c <= '9' || 'a' <= c <= 'f' || 'A' <= c <= 'F'
  }

  predicate AllHex(s: string) {
    s == "" || (IsHexDigit(s[0]) && AllHex(s[1..]))
  }

  lemma AllHexStep(a: char, b: char, rest: string)
    ensures AllHex([a, b] + rest) <==> IsHexDigit(a) && IsHexDigit(b) && AllHex(rest)
  {
    assert ([a, b] + rest)[1..] == [b] + rest && ([b] + rest)[1..] == rest;
  }

  function Lower(c: char): char {
    if 'A' <= c <= 'Z' then (c as int + 32) as char else c
  }

  function LowerAll(s: string): (r: string)
    ensures |r| == |s|
  {
    if s == "" then "" else [Lower(s[0])] + LowerAll(s[1..])
  }

  function Nibble(c: char): (n: int)
    requires IsHexDigit(c)
    ensures 0 <= n < 16
  {
    if '0' <= c <= '9' then c as int - 48 else if 'a' <= c <= 'f' then c as int - 87 else c as int - 55
  }

  function HexChar(n: int): (c: char)
    requires 0 <= n < 16
    ensures IsHexDigit(c) && Nibble(c) == n && Lower(c) == c
  {
    if n < 10 then (n + 48) as char else (n + 87) as char
  }

  lemma Parity(n: int)
    ensures (2 * n) % 2 == 0
  {
  }

  // ----- hexstr, h2b, b2h -----

  /** The constructor of `hexstr`: hex digits only, kept in lower case. */
  function Hexstr(s: string): Outcome<string> {
    if AllHex(s) then Ok(LowerAll(s)) else Error
  }

  predicate IsAsciiSpace(c: char) {
    c == ' ' || '\t' <= c <= '\r'
  }

  /** bytearray.fromhex: pairs of hex digits, ASCII white space allowed between pairs. */
  function H2b(s: string): (r: Outcome<seq<Byte>>)
    decreases |s|
  {
    if s == "" then Ok([])
    else if IsAsciiSpace(s[0]) then H2b(s[1..])
    else if |s| < 2 || !IsHexDigit(s[0]) || !IsHexDigit(s[1]) then Error
    else
      match H2b(s[2..])
      case Ok(rest) => Ok([16 * Nibble(s[0]) + Nibble(s[1])] + rest)
      case Error => Error
  }

  function B2h(b: seq<Byte>): (s: string)
    ensures |s| == 2 * |b|
  {
    if b == [] then "" else Pair(b[0]) + B2h(b[1..])
  }

  function Pair(b: Byte): (s: string)
    ensures |s| == 2 && IsHexDigit(s[0]) && IsHexDigit(s[1]) && 16 * Nibble(s[0]) + Nibble(s[1]) == b
  {
    [HexChar(b / 16), HexChar(b % 16)]
  }

  lemma {:induction false} B2hIsHex(b: seq<Byte>)
    ensures AllHex(B2h(b)) && LowerAll(B2h(b)) == B2h(b)
  {
    if b != [] {
      B2hIsHex(b[1..]);
      LowerStep(Pair(b[0])[0], Pair(b[0])[1], B2h(b[1..]));
      AllHexStep(Pair(b[0])[0], Pair(b[0])[1], B2h(b[1..]));
      assert Pair(b[0]) == [Pair(b[0])[0], Pair(b[0])[1]];
    }
  }

  lemma LowerStep(a: char, b: char, rest: string)
    ensures LowerAll([a, b] + rest) == [Lower(a), Lower(b)] + LowerAll(rest)
  {
    assert ([a, b] + rest)[1..] == [b] + rest && ([b] + rest)[1..] == rest;
  }

  function ToBytes(s: string): Outcome<seq<Byte>>
  {
    if |s| % 2 == 1 then Error else H2b(s)
  }

  lemma H2bStep(a: char, b: char, rest: string)
    requires IsHexDigit(a) && IsHexDigit(b)
    ensures H2b([a, b] + rest) ==
            match H2b(rest) { case Ok(bytes) => Ok([16 * Nibble(a) + Nibble(b)] + bytes) case Error => Error }
  {
    assert ([a, b] + rest)[2..] == rest;
  }

  /** Bytes written as hex are read back. */
  lemma {:induction false} H2bUndoesB2h(b: seq<Byte>)
    ensures H2b(B2h(b)) == Ok(b)
  {
    if b != [] {
      H2bUndoesB2h(b[1..]);
      H2bOfPair(b[0], B2h(b[1..]));
      assert [b[0]] + b[1..] == b;
    }
  }

  lemma H2bOfPair(b: Byte, rest: string)
    requires H2b(rest).Ok?
    ensures H2b(Pair(b) + rest) == Ok([b] + H2b(rest).value)
  {
    var p := Pair(b);
    assert p == [p[0], p[1]];
    H2bStep(p[0], p[1], rest);
  }

  /** `from_bytes` then `to_bytes`. */
  lemma ToBytesUndoesFromBytes(b: seq<Byte>)
    ensures Hexstr(B2h(b)) == Ok(B2h(b)) && ToBytes(B2h(b)) == Ok(b)
  {
    B2hIsHex(b);
    H2bUndoesB2h(b);
    Parity(|b|);
  }

  lemma HexCharOfNibble(c: char)
    requires IsHexDigit(c)
    ensures HexChar(Nibble(c)) == Lower(c)
  {
  }

  lemma HighAndLow(high: int, low: int)
    requires 0 <= low < 16
    ensures (16 * high + low) / 16 == high && (16 * high + low) % 16 == low
  {
  }

  lemma PairOfNibbles(a: char, b: char)
    requires IsHexDigit(a) && IsHexDigit(b)
    ensures Pair(16 * Nibble(a) + Nibble(b)) == [Lower(a), Lower(b)]
  {
    HighAndLow(Nibble(a), Nibble(b));
    HexCharOfNibble(a);
    HexCharOfNibble(b);
  }

  lemma {:induction false} PairsAreRead(s: string, pairs: nat, odd: bool)
    requires AllHex(s) && |s| == if odd then 2 * pairs + 1 else 2 * pairs
    ensures H2b(s) == Error <==> odd
    decreases pairs
  {
    if pairs > 0 {
      assert s == [s[0], s[1]] + s[2..];
      AllHexStep(s[0], s[1], s[2..]);
      PairsAreRead(s[2..], pairs - 1, odd);
      H2bStep(s[0], s[1], s[2..]);
    }
  }

  lemma WrittenBack(a: char, b: char, rest: string)
    requires IsHexDigit(a) && IsHexDigit(b) && H2b(rest).Ok? && B2h(H2b(rest).value) == LowerAll(rest)
    ensures H2b([a, b] + rest).Ok? && B2h(H2b([a, b] + rest).value) == LowerAll([a, b] + rest)
  {
    H2bStep(a, b, rest);
    B2hStep(16 * Nibble(a) + Nibble(b), H2b(rest).value);
    PairOfNibbles(a, b);
    LowerStep(a, b, rest);
  }

  lemma {:induction false} ReadIsWrittenBack(s: string)
    requires AllHex(s) && H2b(s).Ok?
    ensures B2h(H2b(s).value) == LowerAll(s)
    decreases |s|
  {
    if |s| >= 2 {
      assert s == [s[0], s[1]] + s[2..];
      AllHexStep(s[0], s[1], s[2..]);
      H2bStep(s[0], s[1], s[2..]);
      ReadIsWrittenBack(s[2..]);
      WrittenBack(s[0], s[1], s[2..]);
    }
  }

  /** Hex read as bytes is written back in lower case; exactly the even lengths are read. */
  lemma B2hUndoesH2b(s: string)
    requires AllHex(s)
    ensures H2b(s) == Error <==> |s| % 2 == 1
    ensures H2b(s).Ok? ==> B2h(H2b(s).value) == LowerAll(s)
  {
    PairsAreRead(s, |s| / 2, |s| % 2 == 1);
    if H2b(s).Ok? { ReadIsWrittenBack(s); }
  }

  lemma B2hStep(b: Byte, rest: seq<Byte>)
    ensures B2h([b] + rest) == Pair(b) + B2h(rest)
  {
    assert ([b] + rest)[1..] == rest;
  }

  /** i2h is b2h on a list of integers, which `bytes` refuses outside 0..255. */
  function I2h(xs: seq<int>): Outcome<string> {
    if forall i :: 0 <= i < |xs| ==> 0 <= xs[i] < 256 then Ok(B2h(xs)) else Error
  }

  function H2i(s: string): Outcome<seq<int>> {
    match H2b(s)
    case Ok(b) => Ok(b)
    case Error => Error
  }

  /** Integers survive the trip through hex exactly when they are all bytes. */
  lemma H2iUndoesI2hIff(xs: seq<int>)
    ensures (I2h(xs).Ok? && H2i(I2h(xs).value) == Ok(xs)) <==> forall x :: x in xs ==> 0 <= x < 256
  {
    if forall x :: x in xs ==> 0 <= x < 256 {
      assert forall i :: 0 <= i < |xs| ==> xs[i] in xs;
      H2bUndoesB2h(xs);
    }
  }

  // ----- is_hex -----

  /** `is_hex`; a `maxlen` of None or 0 sets no limit. */
  predicate IsHex(s: string, minlen: int, maxlen: Option<int>) {
    && s != "" && |s| >= minlen && minlen >= 2 && |s| % 2 == 0
    && (maxlen.None? || maxlen.value == 0 || |s| <= maxlen.value)
    && H2b(s).Ok?
  }

  lemma {:induction false} H2bLength(s: string)
    requires H2b(s).Ok?
    ensures 2 * |H2b(s).value| <= |s|
    ensures 2 * |H2b(s).value| == |s| <==> AllHex(s)
    decreases |s|
  {
    if s != "" {
      if IsAsciiSpace(s[0]) {
        H2bLength(s[1..]);
        assert !IsHexDigit(s[0]);
      } else {
        H2bLength(s[2..]);
        assert s == [s[0], s[1]] + s[2..];
        AllHexStep(s[0], s[1], s[2..]);
      }
    }
  }

  lemma SpacedPair()
    ensures H2b("ab  ").Ok? && !AllHex("ab  ")
  {
    assert " "[1..] == "" && H2b(" ") == Ok([]);
    assert "  "[1..] == " " && H2b("  ") == Ok([]);
    H2bStep('a', 'b', "  ");
    AllHexStep('a', 'b', "  ");
    assert ['a', 'b'] + "  " == "ab  ";
  }

  /**
    A string that passes `is_hex` need not be hex digits: white space between pairs
    passes too. It is all digits exactly when it holds a byte for every two characters.
   */
  lemma IsHexMeaning(s: string, minlen: int, maxlen: Option<int>)
    requires IsHex(s, minlen, maxlen)
    ensures Hexstr(s).Ok? <==> |s| == 2 * |H2b(s).value|
    ensures IsHex("ab  ", 2, None) && Hexstr("ab  ") == Error
  {
    H2bLength(s);
    SpacedPair();
  }

  // ----- which characters are read and written -----

  lemma HexCharIs(n: int)
    requires 0 <= n < 16
    ensures HexChar(n) == "0123456789abcdef"[n]
  {
  }

  lemma {:induction false} PairStandsAt(b: seq<Byte>, i: nat)
    requires i < |b|
    ensures B2h(b)[2 * i] == Pair(b[i])[0] && B2h(b)[2 * i + 1] == Pair(b[i])[1]
  {
    if i > 0 { PairStandsAt(b[1..], i - 1); }
  }

  /** Every byte is written as two digits in lower case, the high half first. */
  lemma B2hDigits(b: seq<Byte>, i: nat)
    requires i < |b|
    ensures B2h(b)[2 * i] == "0123456789abcdef"[b[i] / 16] && B2h(b)[2 * i + 1] == "0123456789abcdef"[b[i] % 16]
  {
    PairStandsAt(b, i);
    HexCharIs(b[i] / 16);
    HexCharIs(b[i] % 16);
  }

  lemma {:induction false} HexDigitsAre(s: string)
    ensures AllHex(s) <==>
            forall i :: 0 <= i < |s| ==> '0' <= s[i] <= '9' || 'a' <= s[i] <= 'f' || 'A' <= s[i] <= 'F'
  {
    if s != "" {
      HexDigitsAre(s[1..]);
      assert forall i :: 0 < i < |s| ==> s[i] == s[1..][i - 1];
    }
  }

  /** The same text but for the case of some letters. */
  ghost predicate SameButCase(a: string, b: string) {
    |a| == |b| && forall i :: 0 <= i < |a| ==>
      a[i] == b[i] || ('A' <= a[i] <= 'F' && b[i] as int == a[i] as int + 32)
                   || ('A' <= b[i] <= 'F' && a[i] as int == b[i] as int + 32)
  }

  lemma SameNibble(a: string, b: string, i: nat)
    requires SameButCase(a, b) && i < |a|
    ensures IsHexDigit(a[i]) <==> IsHexDigit(b[i])
    ensures IsHexDigit(a[i]) ==> Nibble(a[i]) == Nibble(b[i])
    ensures IsAsciiSpace(a[i]) <==> IsAsciiSpace(b[i])
  {
  }

  /** Upper and lower case digits are read alike. */
  lemma {:induction false} CaseDoesNotMatter(a: string, b: string)
    requires SameButCase(a, b)
    ensures H2b(a) == H2b(b)
    decreases |a|
  {
    if a != "" {
      SameNibble(a, b, 0);
      if IsAsciiSpace(a[0]) {
        CaseDoesNotMatter(a[1..], b[1..]);
      } else if |a| >= 2 {
        SameNibble(a, b, 1);
        CaseDoesNotMatter(a[2..], b[2..]);
      }
    }
  }

  lemma {:induction false} SpacesAreSkipped(space: string, rest: string)
    requires forall i :: 0 <= i < |space| ==> space[i] == ' ' || '\t' <= space[i] <= '\r'
    ensures H2b(space + rest) == H2b(rest)
  {
    if space == "" {
      assert space + rest == rest;
    } else {
      assert (space + rest)[1..] == space[1..] + rest;
      SpacesAreSkipped(space[1..], rest);
    }
  }

  /** White space between the hex of two byte strings is skipped. */
  lemma {:induction false} SpacedBytesAreRead(a: seq<Byte>, space: string, b: seq<Byte>)
    requires forall i :: 0 <= i < |space| ==> space[i] == ' ' || '\t' <= space[i] <= '\r'
    ensures H2b(B2h(a) + space + B2h(b)) == Ok(a + b)
  {
    if a == [] {
      NothingThen(space, B2h(b), b);
      SpacesAreSkipped(space, B2h(b));
      H2bUndoesB2h(b);
    } else {
      SpacedBytesAreRead(a[1..], space, b);
      H2bOfPair(a[0], B2h(a[1..]) + space + B2h(b));
      PairInFront(a, space, b);
      FirstByte(a, b);
    }
  }

  lemma NothingThen(space: string, hex: string, b: seq<Byte>)
    ensures B2h([]) + space + hex == space + hex && [] + b == b
  {
  }

  lemma FirstByte(a: seq<Byte>, b: seq<Byte>)
    requires a != []
    ensures [a[0]] + (a[1..] + b) == a + b
  {
  }

  lemma PairInFront(a: seq<Byte>, space: string, b: seq<Byte>)
    requires a != []
    ensures B2h(a) + space + B2h(b) == Pair(a[0]) + (B2h(a[1..]) + space + B2h(b))
  {
  }

  /**
    On hex digits, `is_hex` is a question of length: even, at least two and the minimum,
    at most the maximum. Odd lengths are refused even where white space would make up for them.
   */
  lemma IsHexOnDigits(s: string, minlen: int, maxlen: Option<int>)
    ensures AllHex(s) ==>
              (IsHex(s, minlen, maxlen) <==>
                && minlen >= 2 && |s| >= minlen && |s| % 2 == 0
                && (maxlen == None || maxlen == Some(0) || |s| <= maxlen.value))
    ensures |s| % 2 == 1 || s == "" ==> !IsHex(s, minlen, maxlen)
  {
    if AllHex(s) { B2hUndoesH2b(s); }
  }

  // ----- nibbles -----

  /** Each pair turned round; zip drops a last odd character. */
  function Swapped(s: string): string
    decreases |s|
  {
    if |s| < 2 then "" else [s[1], s[0]] + Swapped(s[2..])
  }

  function SwapNibbles(s: string): Outcome<string> {
    Hexstr(Swapped(s))
  }

  function SwapByte(b: Byte): Byte {
    16 * (b % 16) + b / 16
  }

  function MapSwap(b: seq<Byte>): (r: seq<Byte>)
    ensures |r| == |b|
  {
    if b == [] then [] else [SwapByte(b[0])] + MapSwap(b[1..])
  }

  lemma SwapStep(a: char, b: char, rest: string)
    ensures Swapped([a, b] + rest) == [b, a] + Swapped(rest)
  {
    assert ([a, b] + rest)[2..] == rest;
  }

  lemma SwapOfPair(b: Byte, rest: string)
    ensures Swapped(Pair(b) + rest) == Pair(SwapByte(b)) + Swapped(rest)
  {
    var p := Pair(b);
    SwapStep(p[0], p[1], rest);
    assert p == [p[0], p[1]];
    assert SwapByte(b) / 16 == b % 16 && SwapByte(b) % 16 == b / 16;
  }

  lemma {:induction false} SwappedBytes(b: seq<Byte>)
    ensures Swapped(B2h(b)) == B2h(MapSwap(b))
  {
    if b != [] {
      SwappedBytes(b[1..]);
      SwapOfPair(b[0], B2h(b[1..]));
      B2hStep(SwapByte(b[0]), MapSwap(b[1..]));
    }
  }

  /** On bytes, swapping nibbles swaps the halves of each byte. */
  lemma SwapNibblesSwapsBytes(b: seq<Byte>)
    ensures SwapNibbles(B2h(b)) == Ok(B2h(MapSwap(b)))
  {
    SwappedBytes(b);
    B2hIsHex(MapSwap(b));
  }

  /** The string without an odd last nibble. */
  function Even(s: string): string {
    s[..|s| - |s| % 2]
  }

  lemma EvenStep(a: char, b: char, rest: string)
    ensures Even([a, b] + rest) == [a, b] + Even(rest)
  {
  }

  lemma {:induction false} SwappedIsHexIff(s: string)
    ensures AllHex(Swapped(s)) <==> AllHex(Even(s))
    decreases |s|
  {
    if |s| >= 2 {
      var rest := s[2..];
      SwappedIsHexIff(rest);
      assert s == [s[0], s[1]] + rest;
      EvenStep(s[0], s[1], rest);
      AllHexStep(s[0], s[1], Even(rest));
      AllHexStep(s[1], s[0], Swapped(rest));
    }
  }

  lemma {:induction false} SwappedTwice(s: string)
    ensures Swapped(LowerAll(Swapped(s))) == LowerAll(Even(s))
    decreases |s|
  {
    if |s| >= 2 {
      var rest := s[2..];
      SwappedTwice(rest);
      assert s == [s[0], s[1]] + rest;
      LowerStep(s[1], s[0], Swapped(rest));
      SwapStep(Lower(s[1]), Lower(s[0]), LowerAll(Swapped(rest)));
      EvenStep(s[0], s[1], rest);
      LowerStep(s[0], s[1], Even(rest));
    }
  }

  lemma {:induction false} LowerIsHex(s: string)
    requires AllHex(s)
    ensures AllHex(LowerAll(s)) && LowerAll(LowerAll(s)) == LowerAll(s)
  {
    if s != "" { LowerIsHex(s[1..]); }
  }

  /**
    Swapping refuses exactly the strings whose pairs are not all hex digits; on any other
    string, swapping twice gives the string back in lower case, without an odd last nibble.
   */
  lemma SwapNibblesTwice(s: string)
    ensures match SwapNibbles(s)
            case Ok(t) => AllHex(Even(s)) && SwapNibbles(t) == Ok(LowerAll(Even(s)))
            case Error => !AllHex(Even(s))
  {
    SwappedIsHexIff(s);
    if AllHex(Even(s)) {
      SwappedTwice(s);
      LowerIsHex(Even(s));
    }
  }

  // ----- text -----

  predicate OneByteText(text: string) {
    forall i :: 0 <= i < |text| ==> text[i] as int < 256
  }

  /** One byte per character, which `bytearray` refuses above 0xFF. */
  function S2h(text: string): Outcome<string> {
    if OneByteText(text) then Ok(B2h(CodesOf(text))) else Error
  }

  function CodesOf(text: string): (r: seq<Byte>)
    requires OneByteText(text)
    ensures |r| == |text|
  {
    if text == "" then [] else [text[0] as int] + CodesOf(text[1..])
  }

  /** Pairs of nibbles as characters, pairs of value 0xff and a last odd nibble left out. */
  function H2s(s: string): (text: string)
    requires AllHex(s)
    decreases |s|
  {
    if |s| < 2 then ""
    else
      assert s == [s[0], s[1]] + s[2..];
      AllHexStep(s[0], s[1], s[2..]);
      var code := 16 * Nibble(s[0]) + Nibble(s[1]);
      (if code != 255 then [code as char] else "") + H2s(s[2..])
  }

  function Repeat(c: string, n: int): string {
    if n <= 0 then "" else c + Repeat(c, n - 1)
  }

  function Rpad(s: string, l: int, c: string := "f"): string {
    s + Repeat(c, l - |s|)
  }

  function Lpad(s: string, l: int, c: string := "f"): string {
    Repeat(c, l - |s|) + s
  }

  predicate NotFF(c: char) {
    c as int != 255
  }

  lemma {:induction false} RepeatF(n: int)
    ensures |Repeat("f", n)| == if n <= 0 then 0 else n
    ensures forall i :: 0 <= i < |Repeat("f", n)| ==> Repeat("f", n)[i] == 'f'
    decreases n
  {
    if n > 0 {
      RepeatF(n - 1);
    }
  }

  lemma {:induction false} PaddingIsSilent(f: string)
    requires forall i :: 0 <= i < |f| ==> f[i] == 'f'
    ensures AllHex(f) && H2s(f) == ""
    decreases |f|
  {
    if |f| >= 2 {
      PaddingIsSilent(f[2..]);
      assert f == [f[0], f[1]] + f[2..];
      H2sStep(f[0], f[1], f[2..]);
    } else if |f| == 1 {
      assert f[1..] == "";
    }
  }

  lemma H2sStep(a: char, b: char, rest: string)
    requires IsHexDigit(a) && IsHexDigit(b) && AllHex(rest)
    ensures AllHex([a, b] + rest)
    ensures var code := 16 * Nibble(a) + Nibble(b);
            H2s([a, b] + rest) == (if code != 255 then [code as char] else "") + H2s(rest)
  {
    AllHexStep(a, b, rest);
    assert ([a, b] + rest)[2..] == rest;
  }

  lemma H2sOfPair(b: Byte, rest: string)
    requires AllHex(rest)
    ensures AllHex(Pair(b) + rest) && H2s(Pair(b) + rest) == (if b != 255 then [b as char] else "") + H2s(rest)
  {
    var p := Pair(b);
    assert p == [p[0], p[1]];
    H2sStep(p[0], p[1], rest);
  }

  lemma OneMoreCharacter(c: char, rest: string, f: string)
    requires c as int < 256 && OneByteText(rest) && AllHex(B2h(CodesOf(rest)) + f)
    ensures OneByteText([c] + rest) && CodesOf([c] + rest) == [c as int] + CodesOf(rest)
    ensures AllHex(B2h([c as int] + CodesOf(rest)) + f)
    ensures H2s(B2h([c as int] + CodesOf(rest)) + f) == (if NotFF(c) then [c] else []) + H2s(B2h(CodesOf(rest)) + f)
  {
    assert ([c] + rest)[1..] == rest;
    WrittenStep(c as int, CodesOf(rest), f);
    H2sOfPair(c as int, B2h(CodesOf(rest)) + f);
  }

  /** Text written as hex and padded on the right by any number of f's loses only its 0xFF characters. */
  lemma {:induction false} H2sOfPadded(text: string, f: string)
    requires OneByteText(text)
    requires forall i :: 0 <= i < |f| ==> f[i] == 'f'
    ensures AllHex(B2h(CodesOf(text)) + f)
    ensures H2s(B2h(CodesOf(text)) + f) == Filter(text, NotFF)
  {
    if text == "" {
      PaddingIsSilent(f);
      assert B2h([]) + f == f;
    } else {
      H2sOfPadded(text[1..], f);
      OneMoreCharacter(text[0], text[1..], f);
      assert [text[0]] + text[1..] == text;
    }
  }

  lemma WrittenStep(b: Byte, rest: seq<Byte>, f: string)
    ensures B2h([b] + rest) + f == Pair(b) + (B2h(rest) + f)
  {
    B2hStep(b, rest);
    assert Pair(b) + B2h(rest) + f == Pair(b) + (B2h(rest) + f);
  }

  lemma {:induction false} CodesAre(text: string, i: nat)
    requires OneByteText(text) && i < |text|
    ensures CodesOf(text)[i] == text[i] as int
  {
    if i > 0 {
      assert OneByteText(text[1..]);
      CodesAre(text[1..], i - 1);
    }
  }

  /** `s2h` writes the character codes as bytes. */
  lemma S2hWritesCodes(text: string, b: seq<Byte>)
    requires |b| == |text| && forall i :: 0 <= i < |b| ==> b[i] == text[i] as int
    ensures S2h(text) == Ok(B2h(b))
  {
    forall i | 0 <= i < |b| ensures CodesOf(text)[i] == b[i] {
      CodesAre(text, i);
    }
    assert CodesOf(text) == b;
  }

  /** `h2s` reads bytes as the characters with those codes; 0xFF stands for none. */
  lemma {:induction false} H2sReadsCodes(b: seq<Byte>, i: nat)
    requires i < |b| && forall k :: 0 <= k < |b| ==> b[k] < 255
    ensures AllHex(B2h(b)) && |H2s(B2h(b))| == |b| && H2s(B2h(b))[i] as int == b[i]
    ensures AllHex("ff") && H2s("ff") == ""
  {
    B2hIsHex(b);
    PaddingIsSilent("ff");
    B2hIsHex(b[1..]);
    H2sOfPair(b[0], B2h(b[1..]));
    if |b| > 1 { H2sReadsCodes(b[1..], if i > 0 then i - 1 else 0); }
  }

  lemma {:induction false} RepeatIs(c: string, n: int, i: nat)
    requires |c| == 1 && i < |Repeat(c, n)|
    ensures Repeat(c, n)[i] == c[0]
    decreases n
  {
    if n > 0 && i > 0 { RepeatIs(c, n - 1, i - 1); }
  }

  lemma {:induction false} RepeatLength(c: string, n: int)
    requires |c| == 1
    ensures |Repeat(c, n)| == if n <= 0 then 0 else n
    decreases n
  {
    if n > 0 { RepeatLength(c, n - 1); }
  }

  /** Padding goes to the length asked for and never cuts; all of it is the padding character. */
  lemma PaddingMeaning(s: string, l: int, c: char)
    ensures var right, left := Rpad(s, l, [c]), Lpad(s, l, [c]); var n := |right| - |s|;
            && |right| == |left| == (if l <= |s| then |s| else l)
            && right[..|s|] == s && left[n..] == s
            && (forall i :: |s| <= i < |right| ==> right[i] == c)
            && (forall i :: 0 <= i < n ==> left[i] == c)
  {
    RepeatLength([c], l - |s|);
    var padding := Repeat([c], l - |s|);
    forall i | 0 <= i < |padding| ensures padding[i] == c {
      RepeatIs([c], l - |s|, i);
    }
  }

  /** s2h, rpad to any length, h2s: the characters come back without the 0xFF ones. */
  lemma TextSurvivesRpad(text: string, l: int)
    requires S2h(text).Ok?
    ensures var padded := Rpad(S2h(text).value, l);
            AllHex(padded) && H2s(padded) == Filter(text, NotFF)
  {
    var f := Repeat("f", l - |S2h(text).value|);
    RepeatF(l - |S2h(text).value|);
    H2sOfPadded(text, f);
  }

  /** Exactly the text of characters below 0xFF comes back; `s2h` refuses characters above it. */
  lemma TextSurvivesRpadIff(text: string, l: int)
    ensures (S2h(text).Ok? && AllHex(Rpad(S2h(text).value, l)) && H2s(Rpad(S2h(text).value, l)) == text)
            <==> forall c :: c in text ==> c as int < 255
  {
    assert forall i :: 0 <= i < |text| ==> text[i] in text;
    if S2h(text).Ok? {
      TextSurvivesRpad(text, l);
      if forall c :: c in text ==> c as int < 255 {
        FilterAll(text, NotFF);
      } else {
        assert forall c :: c in Filter(text, NotFF) ==> NotFF(c);
      }
    }
  }

  // ----- padding on the left -----

  ghost predicate IsPadding(f: string, n: nat) {
    |f| == n && forall i :: 0 <= i < |f| ==> f[i] == 'f'
  }

  lemma {:induction false} EvenPaddingInFront(f: string, pairs: nat, s: string)
    requires IsPadding(f, 2 * pairs) && AllHex(s)
    ensures AllHex(f + s) && H2s(f + s) == H2s(s)
    decreases pairs
  {
    if pairs == 0 {
      assert f + s == s;
    } else {
      EvenPaddingInFront(f[2..], pairs - 1, s);
      H2sStep('f', 'f', f[2..] + s);
      assert f + s == ['f', 'f'] + (f[2..] + s);
    }
  }

  lemma {:induction false} H2sIsShort(s: string)
    requires AllHex(s)
    ensures 2 * |H2s(s)| <= |s|
    decreases |s|
  {
    if |s| >= 2 {
      assert s == [s[0], s[1]] + s[2..];
      AllHexStep(s[0], s[1], s[2..]);
      H2sIsShort(s[2..]);
    }
  }

  /** One stray nibble in front shifts every pair: the first byte cannot come back. */
  lemma OddPaddingShifts(b: Byte, tail: string)
    requires b < 255 && AllHex(tail)
    ensures AllHex("f" + (Pair(b) + tail))
    ensures var t := H2s("f" + (Pair(b) + tail)); 2 * |t| < |tail| + 2 || (t != "" && t[0] as int != b)
  {
    var p := Pair(b);
    var shifted := [p[1]] + tail;
    assert shifted[1..] == tail;
    assert "f" + (p + tail) == ['f', p[0]] + shifted;
    H2sStep('f', p[0], shifted);
    H2sIsShort(shifted);
    assert Nibble('f') == 15 && Nibble(p[0]) == b / 16;
  }

  lemma OddPaddingLosesText(text: string)
    requires text != "" && forall i :: 0 <= i < |text| ==> text[i] as int < 255
    ensures AllHex("f" + B2h(CodesOf(text))) && H2s("f" + B2h(CodesOf(text))) != text
  {
    var b, rest := text[0] as int, CodesOf(text[1..]);
    B2hIsHex(rest);
    B2hStep(b, rest);
    OddPaddingShifts(b, B2h(rest));
  }

  lemma OddPaddingInFront(f: string, pairs: nat, s: string)
    requires IsPadding(f, 2 * pairs + 1) && AllHex("f" + s)
    ensures AllHex(f + s) && H2s(f + s) == H2s("f" + s)
  {
    RotatePadding(f, s);
    EvenPaddingInFront(f[1..], pairs, "f" + s);
  }

  lemma RotatePadding(f: string, s: string)
    requires f != "" && IsPadding(f, |f|)
    ensures IsPadding(f[1..], |f| - 1) && f + s == f[1..] + ("f" + s)
  {
    assert f == f[1..] + "f";
  }

  lemma PadInFront(text: string, hex: string, f: string, pairs: nat, odd: bool)
    requires AllHex(hex) && H2s(hex) == text
    requires text == "" ==> hex == ""
    requires text != "" ==> AllHex("f" + hex) && H2s("f" + hex) != text
    requires IsPadding(f, if odd then 2 * pairs + 1 else 2 * pairs)
    ensures AllHex(f + hex) && (H2s(f + hex) == text <==> text == "" || !odd)
  {
    if text == "" {
      assert f + hex == f;
      PaddingIsSilent(f);
    } else if odd {
      OddPaddingInFront(f, pairs, hex);
    } else {
      EvenPaddingInFront(f, pairs, hex);
    }
  }

  /** lpad keeps text exactly when it adds nothing, an even number of nibbles, or there is no text. */
  lemma TextSurvivesLpadIff(text: string, l: int)
    requires forall i :: 0 <= i < |text| ==> text[i] as int < 255
    ensures var padded := Lpad(B2h(CodesOf(text)), l);
            && S2h(text) == Ok(B2h(CodesOf(text))) && AllHex(padded)
            && (H2s(padded) == text <==> text == "" || l <= 2 * |text| || l % 2 == 0)
  {
    HexOfText(text);
    if text != "" { OddPaddingLosesText(text); }
    var pairs, odd := HowMuchPadding(l, |text|);
    PadText(text, B2h(CodesOf(text)), l, pairs, odd);
  }

  lemma PadText(text: string, hex: string, l: int, pairs: nat, odd: bool)
    requires AllHex(hex) && H2s(hex) == text && |hex| == 2 * |text|
    requires text != "" ==> AllHex("f" + hex) && H2s("f" + hex) != text
    requires (if l <= 2 * |text| then 0 else l - 2 * |text|) == if odd then 2 * pairs + 1 else 2 * pairs
    ensures AllHex(Lpad(hex, l)) && (H2s(Lpad(hex, l)) == text <==> text == "" || !odd)
  {
    RepeatF(l - |hex|);
    PadInFront(text, hex, Repeat("f", l - |hex|), pairs, odd);
  }

  /** The padding in pairs, and whether one nibble is left over. */
  lemma HowMuchPadding(l: int, n: nat) returns (pairs: nat, odd: bool)
    ensures (if l <= 2 * n then 0 else l - 2 * n) == if odd then 2 * pairs + 1 else 2 * pairs
    ensures !odd <==> l <= 2 * n || l % 2 == 0
  {
    var length := if l <= 2 * n then 0 else l - 2 * n;
    pairs, odd := length / 2, length % 2 == 1;
  }

  lemma HexOfText(text: string)
    requires forall i :: 0 <= i < |text| ==> text[i] as int < 255
    ensures AllHex(B2h(CodesOf(text))) && H2s(B2h(CodesOf(text))) == text
  {
    B2hIsHex(CodesOf(text));
    H2sOfPadded(text, "");
    assert B2h(CodesOf(text)) + "" == B2h(CodesOf(text));
    FilterAll(text, NotFF);
  }
}
