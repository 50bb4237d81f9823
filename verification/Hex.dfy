/** Hexadecimal text (util.c): the bounded printer __dump_hex1 and the parser str2hex, which undo each other. */
module Hex {
  import opened Bytes

  // ------------------------------------------------------------------------------------------------
  // Text
  // ------------------------------------------------------------------------------------------------

  function HexDigit(d: nat): char
    requires d < 16
  {
    "0123456789abcdef"[d]
  }

  /** The entry of the table at util.c, lines 24-42. */
  function HexByte(b: byte): (s: seq<char>)
    ensures |s| == 2
  {
    [HexDigit(b as nat / 16), HexDigit(b as nat % 16)]
  }

  /** Two digits a byte, with a blank between bytes if asked for. */
  function HexText(data: seq<byte>, blank: bool): seq<char> {
    if data == [] then []
    else if blank && |data| > 1 then HexByte(data[0]) + " " + HexText(data[1..], blank)
    else HexByte(data[0]) + HexText(data[1..], blank)
  }

  lemma {:induction false} HexTextSize(data: seq<byte>, blank: bool)
    ensures blank ==> |HexText(data, blank)| == if data == [] then 0 else 3 * |data| - 1
    ensures !blank ==> |HexText(data, blank)| == 2 * |data|
  {
    if data != [] {
      HexTextSize(data[1..], blank);
    }
  }

  /** The digits are those of ASCII, lower case. */
  lemma DigitCodes(d: nat)
    requires d < 16
    ensures HexDigit(d) as int == if d < 10 then '0' as int + d else 'a' as int + d - 10
  {
    var _ := "0123456789abcdef"[d];
  }

  /** Where byte i stands in the text, and that blanks stand between the bytes. */
  lemma {:induction false} HexTextAt(data: seq<byte>, i: nat, blank: bool)
    requires i < |data|
    ensures var at := i * (if blank then 3 else 2);
      at + 2 <= |HexText(data, blank)| && HexText(data, blank)[at..at + 2] == HexByte(data[i])
    ensures blank && i + 1 < |data| ==>
      3 * i + 2 < |HexText(data, blank)| && HexText(data, blank)[3 * i + 2] == ' '
  {
    hide HexText, HexByte;
    HexTextSize(data, blank);
    HexTextHead(data, blank);
    if i > 0 {
      var rest := HexText(data[1..], blank);
      HexTextAt(data[1..], i - 1, blank);
      HexTextSize(data[1..], blank);
      var head := HexByte(data[0]) + if blank then " " else "";
      var at := (i - 1) * (if blank then 3 else 2);
      SliceBehind(head, rest, at, at + 2);
      if blank && i + 1 < |data| {
        assert (head + rest)[3 + (at + 2)] == rest[at + 2];
      }
    }
  }

  lemma HexTextHead(data: seq<byte>, blank: bool)
    requires data != []
    ensures |data| > 1 ==>
      HexText(data, blank) == HexByte(data[0]) + (if blank then " " else "") + HexText(data[1..], blank)
    ensures |HexText(data, blank)| >= 2 && HexText(data, blank)[0..2] == HexByte(data[0])
  {
    hide HexByte;
  }

  function Gap(blank: bool, n: nat): seq<char> {
    if blank && n > 0 then " " else ""
  }

  lemma {:induction false} HexTextMore(data: seq<byte>, b: byte, blank: bool)
    ensures HexText(data + [b], blank) == HexText(data, blank) + Gap(blank, |data|) + HexByte(b)
  {
    if data == [] {
      assert (data + [b])[1..] == [];
    } else {
      assert (data + [b])[1..] == data[1..] + [b];
      HexTextMore(data[1..], b, blank);
      var head, rest, last := HexByte(data[0]), HexText(data[1..], blank), HexByte(b);
      if |data| == 1 {
        assert data[1..] == [];
        assert head + Gap(blank, 1) + last == head + (Gap(blank, 1) + last);
      } else if blank {
        assert head + " " + (rest + " " + last) == (head + " " + rest) + " " + last;
      } else {
        assert head + (rest + "" + last) == (head + rest) + "" + last;
      }
    }
  }

  lemma HexTextNext(data: seq<byte>, i: nat, blank: bool)
    requires i < |data|
    ensures HexText(data[..i + 1], blank) == HexText(data[..i], blank) + Gap(blank, i) + HexByte(data[i])
  {
    HexTextMore(data[..i], data[i], blank);
    assert data[..i + 1] == data[..i] + [data[i]];
  }

  // ------------------------------------------------------------------------------------------------
  // The printer
  // ------------------------------------------------------------------------------------------------

  /** How many bytes of the data a buffer of a given size has room for. */
  function Printed(len: nat, room: nat, blank: bool): (n: nat)
    requires room > 0
    ensures n <= len
  {
    var fit := if blank then room / 3 else (room - 1) / 2;
    if len < fit then len else fit
  }

  lemma PrintedIs(len: nat, room: nat, blank: bool, i: nat, j: nat)
    requires room > 0 && i <= len && j == (if blank then 3 * i else 2 * i)
    requires i > 0 ==> (if blank then j <= room else j + 1 <= room)
    requires i == len || j + 3 > room
    ensures i == Printed(len, room, blank)
  {
  }

  method WriteChars(output: array<char>, at: nat, s: seq<char>)
    requires at + |s| <= output.Length
    modifies output
    ensures output[..] == Splice(old(output[..]), at, s)
  {
    forall i | 0 <= i < |s| {
      output[at + i] := s[i];
    }
  }

  /** What the loop has written after i bytes, the blank behind the last one included. */
  function Begun(data: seq<byte>, i: nat, blank: bool): seq<char>
    requires i <= |data|
  {
    HexText(data[..i], blank) + Gap(blank, i)
  }

  lemma BegunSize(data: seq<byte>, i: nat, blank: bool)
    requires i <= |data|
    ensures |Begun(data, i, blank)| == if blank then 3 * i else 2 * i
    ensures Begun(data, i, blank) == HexText(data[..i], blank) + Gap(blank, i)
    ensures |HexText(data[..i], blank)| == if blank && i > 0 then 3 * i - 1 else 2 * i
    ensures |Gap(blank, i)| <= 1 && (i == 0 ==> Begun(data, i, blank) == [])
  {
    hide HexText;
    HexTextSize(data[..i], blank);
  }

  lemma BegunMore(data: seq<byte>, i: nat, blank: bool)
    requires i < |data|
    ensures Begun(data, i + 1, blank) == Begun(data, i, blank) + HexByte(data[i]) + (if blank then " " else "")
    ensures !blank ==> Begun(data, i + 1, blank) == Begun(data, i, blank) + HexByte(data[i])
  {
    hide HexText, HexByte;
    HexTextNext(data, i, blank);
  }

  /** util.c, lines 152-177, on the part of the buffer that starts at `at` and is `room` long. */
  method DumpHex1(data: seq<byte>, output: array<char>, at: nat, room: nat, blank: bool) returns (rc: int, written: nat)
    requires at + room <= output.Length
    modifies output
    ensures room == 0 ==> rc == -1 && output[..] == old(output[..])
    ensures room > 0 ==> rc == if Printed(|data|, room, blank) == |data| then 0 else 1
    ensures room > 0 ==> written == |HexText(data[..Printed(|data|, room, blank)], blank)| < room
    ensures room > 0 ==>
      output[..] == Splice(old(output[..]), at, HexText(data[..Printed(|data|, room, blank)], blank) + ['\0'])
  {
    hide HexText, HexByte, Splice, Printed, Begun, Gap;
    written := 0;
    if room == 0 {
      return -1, 0;
    }
    ghost var start := output[..];
    var i, j, k := 0, 0, 0;
    BegunSize(data, 0, blank);
    SpliceNothing(start, at);
    while i < |data| && j + 3 <= room
      invariant i <= |data| && j == (if blank then 3 * i else 2 * i) <= room && (!blank && i > 0 ==> j < room)
      invariant k == |HexText(data[..i], blank)| && j == |Begun(data, i, blank)|
      invariant output[..] == Splice(start, at, Begun(data, i, blank))
    {
      BegunMore(data, i, blank);
      BegunSize(data, i, blank);
      BegunSize(data, i + 1, blank);
      WriteChars(output, at + j, HexByte(data[i]));
      SpliceJoin(start, at, Begun(data, i, blank), HexByte(data[i]));
      j := j + 2;
      k := j;
      if blank {
        WriteChars(output, at + j, " ");
        SpliceJoin(start, at, Begun(data, i, blank) + HexByte(data[i]), " ");
        j := j + 1;
      }
      i := i + 1;
    }
    PrintedIs(|data|, room, blank, i, j);
    BegunSize(data, i, blank);
    WriteChars(output, at + k, ['\0']);
    SpliceOver(start, at, HexText(data[..i], blank), Gap(blank, i), ['\0']);
    return if i == |data| then 0 else 1, k;
  }

  // ------------------------------------------------------------------------------------------------
  // The parser
  // ------------------------------------------------------------------------------------------------

  predicate IsHex(c: char) {
    '0' <= c <= '9' || 'A' <= c <= 'F' || 'a' <= c <= 'f'
  }

  function Value(c: char): (v: nat)
    requires IsHex(c)
    ensures v < 16
  {
    if '0' <= c <= '9' then (c - '0') as nat
    else if 'A' <= c <= 'F' then (c - 'A') as nat + 10
    else (c - 'a') as nat + 10
  }

  /** What digits read as a number, the first one highest. */
  function Number(s: seq<char>): nat
    requires forall i | 0 <= i < |s| :: IsHex(s[i])
  {
    if s == [] then 0 else 16 * Number(s[..|s| - 1]) + Value(s[|s| - 1])
  }

  datatype Parsed = Good(bytes: seq<byte>) | Odd | Illegal

  function Prepend(b: seq<byte>, p: Parsed): Parsed {
    if p.Good? then Good(b + p.bytes) else p
  }

  function Pair(hi: char, lo: char): byte
    requires IsHex(hi) && IsHex(lo)
  {
    (16 * Value(hi) + Value(lo)) as byte
  }

  /** The grammar: pairs of digits with any blanks between pairs. */
  function Parse(s: seq<char>): Parsed {
    if s == [] then Good([])
    else if s[0] == ' ' then Parse(s[1..])
    else if !IsHex(s[0]) then Illegal
    else if |s| == 1 || s[1] == ' ' then Odd
    else if !IsHex(s[1]) then Illegal
    else Prepend([Pair(s[0], s[1])], Parse(s[2..]))
  }

  function Digits(s: seq<char>): nat {
    if s == [] then 0 else Digits(s[..|s| - 1]) + if IsHex(s[|s| - 1]) then 1 else 0
  }

  lemma {:induction false} DigitsGrow(s: seq<char>, i: nat, j: nat)
    requires i <= j <= |s|
    ensures Digits(s[..i]) <= Digits(s[..j])
    decreases j
  {
    if i < j {
      assert s[..j][..j - 1] == s[..j - 1];
      DigitsGrow(s, i, j - 1);
    }
  }

  lemma BlankIsNoDigit()
    ensures !IsHex(' ')
  {
  }

  lemma DigitsNone(s: seq<char>)
    ensures Digits(s[..0]) == 0
  {
  }

  lemma DigitsNext(s: seq<char>, i: nat)
    requires i < |s|
    ensures Digits(s[..i + 1]) == Digits(s[..i]) + if IsHex(s[i]) then 1 else 0
  {
    assert s[..i + 1][..i] == s[..i];
  }

  lemma ParseNone(s: seq<char>)
    ensures Parse(s[|s|..]) == Good([])
  {
  }

  /** How the parse of what is left follows from its first characters. */
  lemma ParseNext(s: seq<char>, i: nat)
    requires i < |s|
    ensures s[i] == ' ' ==> Parse(s[i..]) == Parse(s[i + 1..])
    ensures s[i] != ' ' && !IsHex(s[i]) ==> Parse(s[i..]) == Illegal
    ensures IsHex(s[i]) && (i + 1 == |s| || s[i + 1] == ' ') ==> Parse(s[i..]) == Odd
    ensures IsHex(s[i]) && i + 1 < |s| && s[i + 1] != ' ' && !IsHex(s[i + 1]) ==> Parse(s[i..]) == Illegal
    ensures IsHex(s[i]) && i + 1 < |s| && IsHex(s[i + 1]) ==>
      Parse(s[i..]) == Prepend([Pair(s[i], s[i + 1])], Parse(s[i + 2..]))
  {
    var t := s[i..];
    assert t[1..] == s[i + 1..];
    if i + 1 < |s| {
      assert t[2..] == s[i + 2..];
    }
  }

  /** The characters that a call looks at: all up to the NUL if the length is given as -1. */
  function Input(str: seq<char>, len: int): seq<char>
    requires len <= |str|
  {
    if len == -1 then CString(str) else if len < 0 then [] else str[..len]
  }

  function CString(s: seq<char>): seq<char> {
    if s == [] || s[0] == '\0' then [] else [s[0]] + CString(s[1..])
  }

  /** What the loop knows after i characters: the bytes that are complete, and the high half of the next one. */
  ghost predicate Scanned(text: seq<char>, i: nat, state: int, done: seq<byte>, last: seq<byte>) {
    i <= |text| && (state == 1 || state == 2) && |last| == state - 1 && 2 * |done| + |last| == Digits(text[..i]) &&
    (state == 1 ==> Parse(text) == Prepend(done, Parse(text[i..]))) &&
    (state == 2 ==> i > 0 && IsHex(text[i - 1]) && last[0] as nat == 16 * Value(text[i - 1])) &&
    (state == 2 ==> Parse(text) == Prepend(done, Parse(text[i - 1..])))
  }

  lemma ScanBegins(text: seq<char>)
    ensures Scanned(text, 0, 1, [], [])
  {
    DigitsNone(text);
    assert text[0..] == text;
  }

  lemma ScanBlank(text: seq<char>, i: nat, state: int, done: seq<byte>, last: seq<byte>)
    requires Scanned(text, i, state, done, last) && i < |text| && text[i] == ' '
    ensures if state == 1 then Scanned(text, i + 1, 1, done, last) else Parse(text) == Odd
  {
    hide Parse, Digits, IsHex, Value;
    BlankIsNoDigit();
    DigitsNext(text, i);
    ParseNext(text, if state == 1 then i else i - 1);
  }

  lemma ScanIllegal(text: seq<char>, i: nat, state: int, done: seq<byte>, last: seq<byte>)
    requires Scanned(text, i, state, done, last) && i < |text| && text[i] != ' ' && !IsHex(text[i])
    ensures Parse(text) == Illegal
  {
    hide Parse, Digits, IsHex, Value;
    ParseNext(text, if state == 1 then i else i - 1);
  }

  lemma ScanHigh(text: seq<char>, i: nat, done: seq<byte>, high: byte)
    requires Scanned(text, i, 1, done, []) && i < |text| && IsHex(text[i]) && high as nat == 16 * Value(text[i])
    ensures Scanned(text, i + 1, 2, done, [high])
  {
    hide Parse, Digits, IsHex, Value;
    DigitsNext(text, i);
  }

  lemma ScanLow(text: seq<char>, i: nat, done: seq<byte>, high: byte)
    requires Scanned(text, i, 2, done, [high]) && i < |text| && IsHex(text[i])
    ensures high as nat + Value(text[i]) < 256
    ensures Scanned(text, i + 1, 1, done + [high + Value(text[i]) as byte], [])
  {
    hide Parse, Digits, IsHex, Value;
    DigitsNext(text, i);
    ParseNext(text, i - 1);
  }

  lemma ScanRoom(text: seq<char>, i: nat, state: int, done: seq<byte>, last: seq<byte>)
    requires Scanned(text, i, state, done, last)
    ensures 2 * |done| + state - 1 <= Digits(text)
    ensures i < |text| && IsHex(text[i]) ==> 2 * |done| + state <= Digits(text)
  {
    hide Parse, Digits, IsHex, Value;
    assert text[..|text|] == text;
    DigitsGrow(text, i, |text|);
    if i < |text| {
      DigitsNext(text, i);
      DigitsGrow(text, i + 1, |text|);
    }
  }

  lemma ScanEnds(text: seq<char>, state: int, done: seq<byte>, last: seq<byte>)
    requires Scanned(text, |text|, state, done, last)
    ensures Parse(text) == if state == 1 then Good(done) else Odd
  {
    hide Parse, Digits, IsHex, Value;
    if state == 1 {
      ParseNone(text);
    } else {
      ParseNext(text, |text| - 1);
    }
  }

  /** util.c, lines 274-334 */
  method Str2Hex(str: seq<char>, len: int, hex: array<byte>) returns (n: int)
    requires len <= |str| && (len == -1 ==> '\0' in str)
    requires (Digits(Input(str, len)) + 1) / 2 <= hex.Length
    modifies hex
    ensures match Parse(Input(str, len))
            case Good(b) => n == |b| <= hex.Length && hex[..] == Splice(old(hex[..]), 0, b)
            case Odd => n == -1
            case Illegal => n == -2
    ensures forall k :: (Digits(Input(str, len)) + 1) / 2 <= k < hex.Length ==> hex[k] == old(hex[k])
  {
    hide Parse, Splice, Digits, Input, IsHex, Value, Scanned;
    var text := Input(str, len);
    ghost var start, done, last: seq<byte> := hex[..], [], [];
    ghost var reach := (Digits(text) + 1) / 2;
    var state, i, count := 1, 0, 0;
    ScanBegins(text);
    SpliceNothing(start, 0);
    assert done + last == [];
    while i < |text|
      invariant i <= |text| && (state == 1 || state == 2) && count == |done| && Scanned(text, i, state, done, last)
      invariant count <= hex.Length && (state == 2 ==> count < hex.Length)
      invariant last == (if state == 1 then [] else [hex[count]]) && hex[..] == Splice(start, 0, done + last)
      invariant forall k :: reach <= k < hex.Length ==> hex[k] == start[k]
    {
      var ch := text[i];
      ScanRoom(text, i, state, done, last);
      if ch == ' ' {
        ScanBlank(text, i, state, done, last);
        if state == 2 {
          return -1;
        }
        i := i + 1;
        continue;
      } else if !IsHex(ch) {
        ScanIllegal(text, i, state, done, last);
        return -2;
      }
      var val := Value(ch);
      if state == 1 {
        hex[count] := (val * 16) as byte;
        SpliceUpdate(start, done, [], hex[count]);
        ScanHigh(text, i, done, hex[count]);
        last := [hex[count]];
        state := 2;
      } else {
        ScanLow(text, i, done, hex[count]);
        hex[count] := hex[count] + val as byte;
        SpliceUpdate(start, done, last, hex[count]);
        done, last := done + [hex[count]], [];
        assert done + last == done;
        count := count + 1;
        state := 1;
      }
      i := i + 1;
    }
    ScanEnds(text, state, done, last);
    if state == 2 {
      return -1;
    }
    assert done + last == done;
    return count;
  }

  // ------------------------------------------------------------------------------------------------
  // Printing and parsing undo each other
  // ------------------------------------------------------------------------------------------------

  lemma DigitBack(d: nat)
    requires d < 16
    ensures IsHex(HexDigit(d)) && Value(HexDigit(d)) == d && HexDigit(d) != ' ' && HexDigit(d) != '\0'
  {
  }

  lemma ByteBack(b: byte)
    ensures IsHex(HexByte(b)[0]) && IsHex(HexByte(b)[1]) && Pair(HexByte(b)[0], HexByte(b)[1]) == b
    ensures HexByte(b)[0] != '\0' && HexByte(b)[1] != '\0' && HexByte(b)[0] != ' ' && HexByte(b)[1] != ' '
  {
    DigitBack(b as nat / 16);
    DigitBack(b as nat % 16);
  }

  /** A byte is printed, and a pair parsed, as the number that its two digits read. */
  lemma ByteReads(b: byte)
    ensures IsHex(HexByte(b)[0]) && IsHex(HexByte(b)[1]) && Number(HexByte(b)) == b as nat
  {
    ByteBack(b);
    PairReads(HexByte(b)[0], HexByte(b)[1]);
  }

  lemma PairReads(hi: char, lo: char)
    requires IsHex(hi) && IsHex(lo)
    ensures Number([hi, lo]) == Pair(hi, lo) as nat
  {
    assert [hi, lo][..1] == [hi] && [hi][..0] == [];
    assert Number([]) == 0 && Number([hi]) == Value(hi);
  }

  /** Parsing what was printed gives the bytes back, with or without blanks. */
  lemma {:induction false} ParsePrinted(data: seq<byte>, blank: bool)
    ensures Parse(HexText(data, blank)) == Good(data)
  {
    hide HexByte, IsHex, Pair;
    if data != [] {
      ParsePrinted(data[1..], blank);
      var s, rest := HexText(data, blank), HexText(data[1..], blank);
      assert data == [data[0]] + data[1..];
      if blank && |data| > 1 {
        assert s[2..] == " " + rest && s[2..][1..] == rest;
        ParsePair(s, data[0], " " + rest);
      } else {
        ParsePair(s, data[0], rest);
      }
    }
  }

  lemma ParsePair(s: seq<char>, b: byte, rest: seq<char>)
    requires s == HexByte(b) + rest
    ensures Parse(s) == Prepend([b], Parse(rest))
  {
    hide HexByte, IsHex, Pair;
    ByteBack(b);
    assert s[2..] == rest;
  }

  lemma {:induction false} NoNul(data: seq<byte>, blank: bool)
    ensures '\0' !in HexText(data, blank)
  {
    if data != [] {
      NoNul(data[1..], blank);
      ByteBack(data[0]);
    }
  }

  lemma {:induction false} CStringStops(s: seq<char>, rest: seq<char>)
    requires '\0' !in s
    ensures CString(s + ['\0'] + rest) == s
  {
    if s == [] {
      assert (s + ['\0'] + rest)[0] == '\0';
    } else {
      assert (s + ['\0'] + rest)[1..] == s[1..] + ['\0'] + rest;
      CStringStops(s[1..], rest);
    }
  }

  lemma PrintedFits(data: seq<byte>, room: nat, blank: bool)
    requires room > 0
    ensures |HexText(data[..Printed(|data|, room, blank)], blank)| < room
  {
    hide HexText;
    HexTextSize(data[..Printed(|data|, room, blank)], blank);
  }

  /** str2hex, given -1 for the length, reads back from the buffer exactly the bytes that the printer had
      room for, whatever the buffer held before. */
  lemma PrintThenParse(before: seq<char>, at: nat, data: seq<byte>, room: nat, blank: bool)
    requires room > 0 && at + room <= |before|
    ensures |HexText(data[..Printed(|data|, room, blank)], blank)| < room
    ensures var after := Splice(before, at, HexText(data[..Printed(|data|, room, blank)], blank) + ['\0']);
            Parse(Input(after[at..], -1)) == Good(data[..Printed(|data|, room, blank)])
  {
    hide HexText, Splice, Parse, CString, Printed;
    var kept := data[..Printed(|data|, room, blank)];
    PrintedFits(data, room, blank);
    var text := HexText(kept, blank);
    SpliceFrom(before, at, text + ['\0']);
    NoNul(kept, blank);
    CStringStops(text, before[at + |text| + 1..]);
    ParsePrinted(kept, blank);
  }

  function Lower(c: char): char {
    if 'A' <= c <= 'Z' then c + ('a' - 'A') else c
  }

  /** Blanks dropped, capitals lowered. */
  function Squeezed(s: seq<char>): seq<char> {
    if s == [] then [] else if s[0] == ' ' then Squeezed(s[1..]) else [Lower(s[0])] + Squeezed(s[1..])
  }

  /** One blank after every two characters but the last two. */
  function Spaced(s: seq<char>): seq<char> {
    if |s| <= 2 then s else s[..2] + " " + Spaced(s[2..])
  }

  lemma DigitLowered(c: char)
    requires IsHex(c)
    ensures HexDigit(Value(c)) == Lower(c)
  {
    var digits := "0123456789abcdef";
    if '0' <= c <= '9' {
      assert digits[Value(c)] == '0' + Value(c) as char;
    } else {
      assert digits[Value(c)] == 'a' + (Value(c) - 10) as char;
    }
  }

  /** Printing what was parsed gives the same text in normal form. */
  lemma {:induction false} PrintParsed(s: seq<char>)
    requires Parse(s).Good?
    ensures HexText(Parse(s).bytes, false) == Squeezed(s)
    decreases |s|
  {
    hide Lower, Value, Pair, HexByte, IsHex;
    if s == [] {
    } else if s[0] == ' ' {
      PrintParsed(s[1..]);
    } else {
      PrintParsed(s[2..]);
      SqueezedPair(s);
      PrintPair(s[0], s[1]);
      var rest := Parse(s[2..]).bytes;
      assert Parse(s).bytes == [Pair(s[0], s[1])] + rest;
      assert ([Pair(s[0], s[1])] + rest)[1..] == rest;
    }
  }

  lemma SqueezedPair(s: seq<char>)
    requires |s| >= 2 && s[0] != ' ' && s[1] != ' '
    ensures Squeezed(s) == [Lower(s[0]), Lower(s[1])] + Squeezed(s[2..])
  {
    assert s[1..][1..] == s[2..];
  }

  lemma PrintPair(hi: char, lo: char)
    requires IsHex(hi) && IsHex(lo)
    ensures HexByte(Pair(hi, lo)) == [Lower(hi), Lower(lo)]
  {
    hide HexDigit, Lower, Value, IsHex;
    DigitLowered(hi);
    DigitLowered(lo);
    HalvesOf(Value(hi), Value(lo));
  }

  lemma HalvesOf(hi: nat, lo: nat)
    requires hi < 16 && lo < 16
    ensures (16 * hi + lo) / 16 == hi && (16 * hi + lo) % 16 == lo
  {
  }

  lemma {:induction false} PrintSpaced(data: seq<byte>)
    ensures HexText(data, true) == Spaced(HexText(data, false))
  {
    if data != [] {
      PrintSpaced(data[1..]);
      HexTextSize(data, false);
      assert HexText(data, false)[2..] == HexText(data[1..], false);
      if |data| == 1 {
        assert data[1..] == [];
      }
    }
  }

  /** The same with blanks: lower case, one blank between bytes. */
  lemma PrintParsedSpaced(s: seq<char>)
    requires Parse(s).Good?
    ensures HexText(Parse(s).bytes, true) == Spaced(Squeezed(s))
  {
    PrintParsed(s);
    PrintSpaced(Parse(s).bytes);
  }

  predicate Legal(s: seq<char>) {
    forall i :: 0 <= i < |s| ==> s[i] == ' ' || IsHex(s[i])
  }

  /** An even number of digits before each blank, and in all. */
  predicate Paired(s: seq<char>) {
    Digits(s) % 2 == 0 && forall i :: 0 <= i < |s| && s[i] == ' ' ==> Digits(s[..i]) % 2 == 0
  }

  lemma {:induction false} DigitsFront(s: seq<char>)
    requires s != []
    ensures Digits(s) == Digits(s[1..]) + if IsHex(s[0]) then 1 else 0
    decreases |s|
  {
    if |s| == 1 {
      assert s[..0] == [] && s[1..] == [];
    } else {
      DigitsFront(s[..|s| - 1]);
      assert s[..|s| - 1][1..] == s[1..][..|s| - 2];
    }
  }

  /** Nothing before index n matters for what follows if there is a whole number of pairs there. */
  lemma PairedTail(s: seq<char>, n: nat)
    requires n <= |s| && Digits(s[..n]) % 2 == 0
    requires forall i :: 0 <= i < n && s[i] == ' ' ==> Digits(s[..i]) % 2 == 0
    ensures Paired(s) <==> Paired(s[n..])
  {
    hide Digits;
    DigitsSum(s, n, |s|);
    assert s[..|s|] == s && s[n..][..|s| - n] == s[n..];
    if Paired(s) {
      forall i | 0 <= i < |s[n..]| && s[n..][i] == ' ' ensures Digits(s[n..][..i]) % 2 == 0 {
        assert s[i + n] == ' ';
        DigitsSum(s, n, i + n);
      }
    } else if Paired(s[n..]) {
      forall i | n <= i < |s| && s[i] == ' ' ensures Digits(s[..i]) % 2 == 0 {
        assert s[n..][i - n] == ' ';
        DigitsSum(s, n, i);
      }
    }
  }

  lemma {:induction false} DigitsSum(s: seq<char>, n: nat, i: nat)
    requires n <= i <= |s|
    ensures Digits(s[..i]) == Digits(s[..n]) + Digits(s[n..][..i - n])
    decreases i
  {
    if i > n {
      DigitsSum(s, n, i - 1);
      DigitsNext(s, i - 1);
      DigitsNext(s[n..], i - 1 - n);
    } else {
      assert s[n..][..0] == [];
    }
  }

  lemma LegalTail(s: seq<char>, n: nat)
    requires n <= |s| && forall i :: 0 <= i < n ==> s[i] == ' ' || IsHex(s[i])
    ensures Legal(s) <==> Legal(s[n..])
  {
    hide IsHex;
    if Legal(s[n..]) {
      forall i | 0 <= i < |s| ensures s[i] == ' ' || IsHex(s[i]) {
        assert i >= n ==> s[i] == s[n..][i - n];
      }
    }
  }

  /** Exactly the texts of blanks and digits in which every run of digits is even are accepted. */
  lemma {:induction false} AcceptedExactly(s: seq<char>)
    ensures Parse(s).Good? <==> Legal(s) && Paired(s)
    decreases |s|
  {
    if s == [] {
    } else {
      hide Parse, IsHex, Pair;
      BlankIsNoDigit();
      assert s[0..] == s;
      ParseNext(s, 0);
      DigitsNone(s);
      DigitsNext(s, 0);
      if s[0] == ' ' {
        PairedTail(s, 1);
        LegalTail(s, 1);
        AcceptedExactly(s[1..]);
      } else if IsHex(s[0]) && |s| == 1 {
        assert s[..1] == s;
      } else if IsHex(s[0]) && IsHex(s[1]) {
        DigitsNext(s, 1);
        PairedTail(s, 2);
        LegalTail(s, 2);
        AcceptedExactly(s[2..]);
      }
    }
  }
}
