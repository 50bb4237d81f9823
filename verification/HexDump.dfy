/** The bounded formatter dump_hex2 (util.c): an address, up to sixteen bytes in hexadecimal and as characters
    on each line. */
module HexDump {
  import opened Bytes
  import opened Hex

  /** The rows of the table at util.c, lines 48-53, that hold more than dots. */
  function PrintableRow(r: nat): (row: string)
    requires 2 <= r < 8
    ensures |row| == 16
    ensures forall i | 0 <= i < 16 :: row[i] as int == if r == 7 && i == 15 then '.' as int else 16 * r + i
  {
    match r
    case 2 => " !\"#$%&'()*+,-./"
    case 3 => "0123456789:;<=>?"
    case 4 => "@ABCDEFGHIJKLMNO"
    case 5 => "PQRSTUVWXYZ[\\]^_"
    case 6 => "`abcdefghijklmno"
    case _ => "pqrstuvwxyz{|}~."
  }

  /** The table at util.c, lines 44-62: printable ASCII stands for itself, all else is a dot. */
  function Printable(b: byte): (c: char)
    ensures c as int == if 32 <= b as int <= 126 then b as int else '.' as int
  {
    if 2 <= b as nat / 16 < 8 then PrintableRow(b as nat / 16)[b as nat % 16] else '.'
  }

  function PrintableText(data: seq<byte>): (s: seq<char>)
    ensures |s| == |data|
  {
    seq(|data|, i requires 0 <= i < |data| => Printable(data[i]))
  }

  /** util.c, lines 69-88 */
  method ToPrintable(data: seq<byte>, output: array<char>, at: nat, room: nat) returns (rc: int, written: nat)
    requires at + room <= output.Length
    modifies output
    ensures room == 0 ==> rc == -1 && output[..] == old(output[..])
    ensures room > 0 ==> written == if |data| < room then |data| else room - 1
    ensures room > 0 ==> rc == if written == |data| then 0 else 1
    ensures room > 0 ==> output[..] == Splice(old(output[..]), at, PrintableText(data[..written]) + ['\0'])
  {
    hide Splice, Printable;
    if room == 0 {
      return -1, 0;
    }
    ghost var start := output[..];
    var i := 0;
    SpliceNothing(start, at);
    assert PrintableText(data[..0]) == [];
    while i < |data| && i < room - 1
      invariant i <= |data| && i < room
      invariant output[..] == Splice(start, at, PrintableText(data[..i]))
    {
      WriteChars(output, at + i, [Printable(data[i])]);
      SpliceJoin(start, at, PrintableText(data[..i]), [Printable(data[i])]);
      assert PrintableText(data[..i + 1]) == PrintableText(data[..i]) + [Printable(data[i])];
      i := i + 1;
    }
    WriteChars(output, at + i, ['\0']);
    SpliceJoin(start, at, PrintableText(data[..i]), ['\0']);
    return if i == |data| then 0 else 1, i;
  }

  // ------------------------------------------------------------------------------------------------
  // The address column
  // ------------------------------------------------------------------------------------------------

  /** printf's %x */
  function HexNumber(n: nat): (s: seq<char>)
    ensures |s| > 0
  {
    if n < 16 then [HexDigit(n)] else HexNumber(n / 16) + [HexDigit(n % 16)]
  }

  function Repeat(c: char, n: nat): (s: seq<char>)
    ensures |s| == n
  {
    seq(n, _ => c)
  }

  /** printf's %0*x: at least `width` digits. */
  function Padded(n: nat, width: nat): (s: seq<char>)
    ensures |s| == if |HexNumber(n)| < width then width else |HexNumber(n)|
  {
    if |HexNumber(n)| < width then Repeat('0', width - |HexNumber(n)|) + HexNumber(n) else HexNumber(n)
  }

  /** It reads n, without a leading zero. */
  lemma {:induction false} NumberReads(n: nat)
    ensures forall i | 0 <= i < |HexNumber(n)| :: IsHex(HexNumber(n)[i])
    ensures Number(HexNumber(n)) == n && (n > 0 ==> HexNumber(n)[0] != '0')
  {
    hide HexDigit, Value, IsHex;
    DigitBack(n % 16);
    DigitCodes(n % 16);
    if n >= 16 {
      NumberReads(n / 16);
      assert HexNumber(n)[..|HexNumber(n)| - 1] == HexNumber(n / 16);
    } else {
      assert HexNumber(n)[..0] == [] && Number([]) == 0;
    }
  }

  /** Zeros in front change nothing. */
  lemma PaddedReads(n: nat, width: nat)
    ensures forall i | 0 <= i < |Padded(n, width)| :: IsHex(Padded(n, width)[i])
    ensures Number(Padded(n, width)) == n
    ensures forall i | 0 <= i < |Padded(n, width)| - |HexNumber(n)| :: Padded(n, width)[i] == '0'
  {
    hide Number, HexNumber;
    NumberReads(n);
    if |HexNumber(n)| < width {
      ZerosInFront(width - |HexNumber(n)|, HexNumber(n));
    }
  }

  lemma {:induction false} ZerosInFront(k: nat, s: seq<char>)
    requires forall i | 0 <= i < |s| :: IsHex(s[i])
    ensures forall i | 0 <= i < k + |s| :: IsHex((Repeat('0', k) + s)[i])
    ensures Number(Repeat('0', k) + s) == Number(s)
    decreases k + |s|
  {
    var t := Repeat('0', k) + s;
    if s != [] {
      ZerosInFront(k, s[..|s| - 1]);
      assert t[..|t| - 1] == Repeat('0', k) + s[..|s| - 1];
    } else if k > 0 {
      ZerosInFront(k - 1, s);
      assert t[..|t| - 1] == Repeat('0', k - 1) + s;
    }
  }

  /** The number of digits of the last address, made even. */
  function Width(last: nat): nat {
    (|HexNumber(last)| + 1) / 2 * 2
  }

  lemma TwoDigitsMore(n: nat)
    requires n >= 256
    ensures Width(n) == 2 + Width(n / 256)
  {
    assert HexNumber(n) == HexNumber(n / 16) + [HexDigit(n % 16)];
    assert HexNumber(n / 16) == HexNumber(n / 16 / 16) + [HexDigit(n / 16 % 16)];
    assert n / 16 / 16 == n / 256;
  }

  lemma {:induction false} LongerNumber(m: nat, n: nat)
    requires m <= n
    ensures |HexNumber(m)| <= |HexNumber(n)|
    decreases n
  {
    if m >= 16 {
      LongerNumber(m / 16, n / 16);
    }
  }

  /** util.c, lines 193-201 */
  method AddressWidth(len: nat) returns (width: nat)
    ensures width == if len == 0 then 2 else Width(len - 1)
  {
    width := 2;
    if len > 0 {
      var i: nat := len - 1;
      TwoDigits(i);
      i := i / 256;
      while i != 0
        invariant Width(len - 1) == width + if i == 0 then 0 else Width(i)
      {
        width := width + 2;
        TwoDigits(i);
        i := i / 256;
      }
    }
  }

  lemma TwoDigits(n: nat)
    ensures Width(n) == 2 + if n / 256 == 0 then 0 else Width(n / 256)
  {
    if n >= 256 {
      TwoDigitsMore(n);
    } else if n >= 16 {
      assert n / 16 < 16 && |HexNumber(n / 16)| == 1 && |HexNumber(n)| == 2;
    } else {
      assert |HexNumber(n)| == 1;
    }
  }

  // ------------------------------------------------------------------------------------------------
  // The whole text
  // ------------------------------------------------------------------------------------------------

  function Count(len: nat, j: nat): nat
    requires j < len
  {
    if len - j > 16 then 16 else len - j
  }

  /** A line up to the column of characters. */
  function Left(chunk: seq<byte>, address: seq<char>): seq<char>
    requires |chunk| <= 16
  {
    address + HexText(chunk, true) + (Repeat(' ', 3 * (16 - |chunk|)) + "  ")
  }

  /** The line of the bytes from j on. */
  function Line(data: seq<byte>, j: nat, width: nat): seq<char>
    requires j < |data|
  {
    var chunk := data[j..j + Count(|data|, j)];
    Left(chunk, Padded(j, width) + ": ") + PrintableText(chunk) + "\n"
  }

  function Lines(data: seq<byte>, j: nat, width: nat): seq<char>
    requires j <= |data|
    decreases |data| - j
  {
    if j == |data| then [] else Line(data, j, width) + Lines(data, j + Count(|data|, j), width)
  }

  function Dump(data: seq<byte>): seq<char> {
    Lines(data, 0, if data == [] then 2 else Width(|data| - 1))
  }

  lemma LineSize(data: seq<byte>, j: nat)
    requires j < |data|
    ensures |Padded(j, Width(|data| - 1))| == Width(|data| - 1)
    ensures |Line(data, j, Width(|data| - 1))| == Width(|data| - 1) + 52 + Count(|data|, j)
  {
    LongerNumber(j, |data| - 1);
    HexTextSize(data[j..j + Count(|data|, j)], true);
  }

  /** Every line begins with an address that reads j, a colon and a blank, and ends with a newline. */
  lemma LineFrame(data: seq<byte>, j: nat)
    requires j < |data|
    ensures var w, line := Width(|data| - 1), Line(data, j, Width(|data| - 1));
      |line| == w + 52 + Count(|data|, j) && (forall p | 0 <= p < w :: IsHex(line[p])) && Number(line[..w]) == j &&
      line[w..w + 2] == ": " && line[|line| - 1] == '\n'
  {
    hide HexText, PrintableText, HexNumber, Width, Number, Line, Padded, IsHex, Spaces;
    var w := Width(|data| - 1);
    LineSize(data, j);
    PaddedReads(j, w);
    LineParts(data, j, w);
    var line := Line(data, j, w);
    SliceOfSlice(line, 0, w + 2, 0, w);
    SliceOfSlice(line, 0, w + 2, w, w + 2);
    Colon(Padded(j, w));
    assert line[|line| - 1] == line[w + 51 + Count(|data|, j)..][0];
  }

  /** Byte i of a line stands in hexadecimal at column W + 2 + 3i and as a character at column W + 51 + i. */
  lemma LineColumns(data: seq<byte>, j: nat, i: nat)
    requires j < |data| && i < Count(|data|, j)
    ensures var w, line := Width(|data| - 1), Line(data, j, Width(|data| - 1));
      |line| == w + 52 + Count(|data|, j) &&
      line[w + 2 + 3 * i..w + 4 + 3 * i] == HexByte(data[j + i]) && line[w + 51 + i] == Printable(data[j + i])
  {
    hide HexText, HexByte, Printable, HexNumber, Width, Line, Padded, Spaces;
    var w, n, chunk := Width(|data| - 1), Count(|data|, j), data[j..j + Count(|data|, j)];
    LineSize(data, j);
    HexTextAt(chunk, i, true);
    HexTextSize(chunk, true);
    LineParts(data, j, w);
    var line := Line(data, j, w);
    SliceOfSlice(line, w + 2, w + 1 + 3 * n, 3 * i, 3 * i + 2);
    assert line[w + 51 + i] == line[w + 51..w + 51 + n][i];
  }

  lemma Colon(address: seq<char>)
    ensures (address + ": ")[0..|address|] == address && (address + ": ")[|address|..|address| + 2] == ": "
  {
  }

  function Spaces(n: nat): seq<char>
    requires n <= 16
  {
    Repeat(' ', 3 * (16 - n)) + "  "
  }

  lemma LineParts(data: seq<byte>, j: nat, w: nat)
    requires j < |data| && |Padded(j, w)| == w
    ensures var n, chunk, line := Count(|data|, j), data[j..j + Count(|data|, j)], Line(data, j, w);
      |line| == w + 52 + n && line[0..w + 2] == Padded(j, w) + ": " &&
      line[w + 2..w + 1 + 3 * n] == HexText(chunk, true) && line[w + 1 + 3 * n..w + 51] == Spaces(n) &&
      line[w + 51..w + 51 + n] == PrintableText(chunk) && line[w + 51 + n..] == "\n"
  {
    hide HexText, PrintableText, Padded;
    var n, chunk := Count(|data|, j), data[j..j + Count(|data|, j)];
    HexTextSize(chunk, true);
    Pieces(Padded(j, w) + ": ", HexText(chunk, true), Spaces(n), PrintableText(chunk), "\n");
  }

  lemma Pieces<T>(a: seq<T>, b: seq<T>, c: seq<T>, d: seq<T>, e: seq<T>)
    ensures var s := a + b + c + d + e;
      s[..|a|] == a && s[|a|..|a| + |b|] == b && s[|a| + |b|..|a| + |b| + |c|] == c &&
      s[|a| + |b| + |c|..|a| + |b| + |c| + |d|] == d && s[|a| + |b| + |c| + |d|..] == e
  {
  }

  /** Every other column between address and characters is blank. */
  lemma LineBlanks(data: seq<byte>, j: nat, p: nat)
    requires j < |data| && Width(|data| - 1) + 4 <= p < Width(|data| - 1) + 51
    requires (p - Width(|data| - 1)) % 3 == 1 || p > Width(|data| - 1) + 3 * Count(|data|, j)
    ensures p < |Line(data, j, Width(|data| - 1))| && Line(data, j, Width(|data| - 1))[p] == ' '
  {
    hide HexText, HexByte, Printable, HexNumber, Width, Line, Padded;
    var w, n, chunk := Width(|data| - 1), Count(|data|, j), data[j..j + Count(|data|, j)];
    LineSize(data, j);
    LineParts(data, j, w);
    HexTextSize(chunk, true);
    if p < w + 1 + 3 * n {
      var i := (p - w - 4) / 3;
      HexTextAt(chunk, i, true);
      assert Line(data, j, w)[p] == Line(data, j, w)[w + 2..w + 1 + 3 * n][3 * i + 2];
    } else {
      assert Line(data, j, w)[p] == Line(data, j, w)[w + 1 + 3 * n..w + 51][p - (w + 1 + 3 * n)];
    }
  }

  /** Where the k-th line begins: behind k lines of sixteen bytes. */
  function LineStart(data: seq<byte>, k: nat): nat
    requires data != []
  {
    k * (Width(|data| - 1) + 68)
  }

  lemma LineStartNext(data: seq<byte>, k: nat)
    requires data != [] && k > 0
    ensures LineStart(data, k) == Width(|data| - 1) + 68 + LineStart(data, k - 1)
  {
    hide Width;
  }

  lemma {:induction false} LineAt(data: seq<byte>, j: nat, k: nat)
    requires j + 16 * k < |data|
    ensures LineStart(data, k) <= |Lines(data, j, Width(|data| - 1))|
    ensures Line(data, j + 16 * k, Width(|data| - 1)) <= Lines(data, j, Width(|data| - 1))[LineStart(data, k)..]
    decreases k
  {
    hide Line, Width, Lines;
    var w := Width(|data| - 1);
    LinesNext(data, j, w);
    if k > 0 {
      hide LineStart;
      LineAt(data, j + 16, k - 1);
      LineSize(data, j);
      LineStartNext(data, k);
      var rest := Lines(data, j + 16, w);
      SliceBehind(Line(data, j, w), rest, LineStart(data, k - 1), |rest|);
    } else {
      StartsWith(Line(data, j, w), Lines(data, j + Count(|data|, j), w));
    }
  }

  lemma LinesNext(data: seq<byte>, j: nat, w: nat)
    requires j < |data|
    ensures Lines(data, j, w) == Line(data, j, w) + Lines(data, j + Count(|data|, j), w)
  {
  }

  lemma {:induction false} LinesSize(data: seq<byte>, j: nat)
    requires j <= |data| && data != []
    ensures |Lines(data, j, Width(|data| - 1))| == (|data| - j + 15) / 16 * (Width(|data| - 1) + 52) + (|data| - j)
    decreases |data| - j
  {
    hide Line, Width;
    if j < |data| {
      LineSize(data, j);
      var next, w := j + Count(|data|, j), Width(|data| - 1) + 52;
      LinesSize(data, next);
      assert (|data| - j + 15) / 16 == 1 + (|data| - next + 15) / 16;
      assert (1 + (|data| - next + 15) / 16) * w == w + (|data| - next + 15) / 16 * w;
    }
  }

  /** The room that the text of `len` bytes takes with its NUL: on every line the address, 52 characters of
      hexadecimal and blanks, and one for each byte. */
  function Needed(len: nat): nat {
    (if len == 0 then 0 else (len + 15) / 16 * (Width(len - 1) + 52)) + len + 1
  }

  lemma DumpSize(data: seq<byte>)
    ensures |Dump(data)| + 1 == Needed(|data|)
  {
    if data != [] {
      LinesSize(data, 0);
    }
  }

  // ------------------------------------------------------------------------------------------------
  // What a buffer that is too small shows
  // ------------------------------------------------------------------------------------------------

  /** The first columns of a line: cut anywhere in the address, after a whole byte in the hexadecimal column, and
      there too if the blanks behind it do not fit. */
  function HexKept(chunk: seq<byte>, address: seq<char>, space: nat): seq<char>
    requires 0 < |chunk| <= 16 && space > 0
  {
    if |address| >= space then address[..space - 1]
    else
      var n := Printed(|chunk|, space - |address|, true);
      if n < |chunk| || space <= |Left(chunk, address)| then address + HexText(chunk[..n], true)
      else Left(chunk, address)
  }

  function LineKept(data: seq<byte>, j: nat, width: nat, space: nat): seq<char>
    requires j < |data| && space > 0
  {
    var chunk, address := data[j..j + Count(|data|, j)], Padded(j, width) + ": ";
    if space > |Line(data, j, width)| then Line(data, j, width)
    else if space > |Left(chunk, address)| then Line(data, j, width)[..space - 1]
    else HexKept(chunk, address, space)
  }

  /** Whole lines as long as they fit, and then part of one. */
  function Kept(data: seq<byte>, j: nat, width: nat, space: nat): seq<char>
    requires j <= |data| && space > 0
    decreases |data| - j
  {
    if j == |data| then []
    else if space > |Line(data, j, width)| then
      Line(data, j, width) + Kept(data, j + Count(|data|, j), width, space - |Line(data, j, width)|)
    else LineKept(data, j, width, space)
  }

  function Shown(data: seq<byte>, room: nat): seq<char>
    requires room > 0
  {
    Kept(data, 0, if data == [] then 2 else Width(|data| - 1), room)
  }

  lemma HexKeptIsBeginning(chunk: seq<byte>, address: seq<char>, space: nat)
    requires 0 < |chunk| <= 16 && space > 0
    ensures |HexKept(chunk, address, space)| < space && HexKept(chunk, address, space) <= Left(chunk, address)
  {
    hide HexText;
    var hex := address + HexText(chunk, true);
    StartsWith(hex, Repeat(' ', 3 * (16 - |chunk|)) + "  ");
    if |address| < space {
      var n := Printed(|chunk|, space - |address|, true);
      HexTextSize(chunk[..n], true);
      HexTextPrefix(chunk, n, true);
      Transitive(address + HexText(chunk[..n], true), hex, Left(chunk, address));
    } else {
      StartsWith(address, HexText(chunk, true));
      Transitive(address, hex, Left(chunk, address));
    }
  }

  lemma LineKeptIsBeginning(data: seq<byte>, j: nat, width: nat, space: nat)
    requires j < |data| && 0 < space <= |Line(data, j, width)|
    ensures |LineKept(data, j, width, space)| < space && LineKept(data, j, width, space) <= Line(data, j, width)
  {
    hide Left, HexKept, Padded, HexText, PrintableText;
    var chunk, address := data[j..j + Count(|data|, j)], Padded(j, width) + ": ";
    HexKeptIsBeginning(chunk, address, space);
    StartsWith(Left(chunk, address), PrintableText(chunk));
    StartsWith(Left(chunk, address) + PrintableText(chunk), "\n");
  }

  lemma {:induction false} KeptIsBeginning(data: seq<byte>, j: nat, width: nat, space: nat)
    requires j <= |data| && space > 0
    ensures |Kept(data, j, width, space)| < space && Kept(data, j, width, space) <= Lines(data, j, width)
    ensures Kept(data, j, width, space) == Lines(data, j, width) <==> space > |Lines(data, j, width)|
    decreases |data| - j
  {
    hide Line, LineKept;
    if j < |data| {
      if space > |Line(data, j, width)| {
        KeptIsBeginning(data, j + Count(|data|, j), width, space - |Line(data, j, width)|);
      } else {
        LineKeptIsBeginning(data, j, width, space);
        StartsWith(Line(data, j, width), Lines(data, j + Count(|data|, j), width));
      }
    }
  }

  /** Always a beginning of the text that fits with its NUL, and all of it exactly when that fits. */
  lemma ShownIsBeginning(data: seq<byte>, room: nat)
    requires room > 0
    ensures |Shown(data, room)| < room && Shown(data, room) <= Dump(data)
    ensures Shown(data, room) == Dump(data) <==> room >= Needed(|data|)
  {
    hide Lines, Kept, Needed;
    KeptIsBeginning(data, 0, if data == [] then 2 else Width(|data| - 1), room);
    DumpSize(data);
  }

  // ------------------------------------------------------------------------------------------------
  // The formatter
  // ------------------------------------------------------------------------------------------------

  /** snprintf of a given text: the text if it fits with its NUL, else as much of it as does. */
  method Snprintf(output: array<char>, at: nat, room: nat, text: seq<char>) returns (result: nat)
    requires room > 0 && at + room <= output.Length
    modifies output
    ensures result == |text|
    ensures |text| < room ==> output[..] == Splice(old(output[..]), at, text + ['\0'])
    ensures |text| >= room ==> output[..] == Splice(old(output[..]), at, text[..room - 1] + ['\0'])
  {
    WriteChars(output, at, (if |text| < room then text else text[..room - 1]) + ['\0']);
    result := |text|;
  }

  lemma {:induction false} HexTextPrefix(data: seq<byte>, n: nat, blank: bool)
    requires n <= |data|
    ensures HexText(data[..n], blank) <= HexText(data, blank)
  {
    if n > 0 {
      HexTextPrefix(data[1..], n - 1, blank);
      assert data[..n][1..] == data[1..][..n - 1];
      if n == 1 {
        assert data[..n][1..] == [];
      }
    }
  }

  lemma StartsWith<T>(a: seq<T>, b: seq<T>)
    ensures a <= a + b
  {
  }

  lemma Transitive<T>(a: seq<T>, b: seq<T>, c: seq<T>)
    requires a <= b <= c
    ensures a <= c
  {
  }

  lemma LineIs(data: seq<byte>, j: nat, width: nat, chunk: seq<byte>, address: seq<char>)
    requires j < |data| && chunk == data[j..j + Count(|data|, j)] && address == Padded(j, width) + ": "
    ensures Line(data, j, width) == Left(chunk, address) + PrintableText(chunk) + "\n"
  {
  }

  lemma PrintablePrefix(data: seq<byte>, n: nat)
    requires n <= |data|
    ensures PrintableText(data[..n]) == PrintableText(data)[..n]
    ensures PrintableText(data)[..|data|] == PrintableText(data)
  {
  }

  /** The text so far, `done` and then `part`, closed by a NUL. */
  predicate Shows(now: seq<char>, start: seq<char>, done: seq<char>, part: seq<char>) {
    |done| + |part| < |start| && now == Splice(start, 0, done + part + ['\0'])
  }

  /** Writing a piece and a NUL behind what is complete. */
  lemma PartShown(start: seq<char>, done: seq<char>, part: seq<char>)
    requires |done| + |part| < |start|
    ensures Shows(Splice(Splice(start, 0, done), |done|, part + ['\0']), start, done, part)
  {
    SpliceJoin(start, 0, done, part + ['\0']);
    assert done + (part + ['\0']) == done + part + ['\0'];
  }

  /** Writing the next piece over the closing NUL. */
  lemma Grown(now: seq<char>, start: seq<char>, done: seq<char>, part: seq<char>, more: seq<char>)
    requires Shows(now, start, done, part) && |done| + |part + more| < |start|
    ensures Shows(Splice(now, |done| + |part|, more + ['\0']), start, done, part + more)
  {
    SpliceOver(start, 0, done + part, ['\0'], more + ['\0']);
    assert done + part + (more + ['\0']) == done + (part + more) + ['\0'];
  }

  /** The same with the blanks and the NUL written one after the other. */
  lemma GrownTwice(now: seq<char>, start: seq<char>, done: seq<char>, part: seq<char>, a: seq<char>, b: seq<char>)
    requires Shows(now, start, done, part) && |done| + |part + (a + b)| < |start|
    ensures Shows(Splice(Splice(now, |done| + |part|, a), |done| + |part| + |a|, b + ['\0']),
      start, done, part + (a + b))
  {
    SpliceJoin(now, |done| + |part|, a, b + ['\0']);
    assert a + (b + ['\0']) == a + b + ['\0'];
    Grown(now, start, done, part, a + b);
  }

  lemma Ended(now: seq<char>, start: seq<char>, done: seq<char>, part: seq<char>)
    requires Shows(now, start, done, part)
    ensures Splice(now, |done| + |part|, "\n") == Splice(start, 0, done + (part + "\n"))
  {
    SpliceOver(start, 0, done + part, ['\0'], "\n");
    assert done + part + "\n" == done + (part + "\n");
  }

  /** util.c, lines 217-249: the address, the bytes in hexadecimal, and the blanks up to the next column. */
  method PutHex(chunk: seq<byte>, address: seq<char>, output: array<char>, at: nat, space: nat,
                ghost start: seq<char>, ghost done: seq<char>)
    returns (ok: bool, offset: nat, room: nat, ghost part: seq<char>)
    requires 0 < |chunk| <= 16 && space > 0 && at + space <= output.Length && |start| == output.Length
    requires |done| == at && output[..] == Splice(start, 0, done)
    modifies output
    ensures Shows(output[..], start, done, part) && |part| < space
    ensures ok <==> space > |Left(chunk, address)|
    ensures ok ==> offset == at + |part| && room == space - |part|
    ensures part == HexKept(chunk, address, space)
  {
    hide Splice, HexText, Shows;
    HexTextSize(chunk, true);
    offset, room := at, space;

    var result := Snprintf(output, offset, room, address);
    part := address[..if result >= room then room - 1 else result];
    PartShown(start, done, part);
    if result >= room {
      return false, offset, room, part;
    }
    assert part == address;
    offset, room := offset + result, room - result;

    ghost var before := output[..];
    var rc, written := DumpHex1(chunk, output, offset, room, true);
    ghost var printed := chunk[..Printed(|chunk|, room, true)];
    part := address + HexText(printed, true);
    Grown(before, start, done, address, HexText(printed, true));
    if rc != 0 {
      return false, offset, room, part;
    }
    assert printed == chunk;
    offset, room := offset + written, room - written;
    if room < (16 - |chunk|) * 3 + 3 {
      return false, offset, room, part;
    }

    before := output[..];
    WriteChars(output, offset, Repeat(' ', (16 - |chunk|) * 3));
    offset, room := offset + (16 - |chunk|) * 3, room - (16 - |chunk|) * 3;
    WriteChars(output, offset, "  " + ['\0']);
    GrownTwice(before, start, done, part, Repeat(' ', (16 - |chunk|) * 3), "  ");
    return true, offset + 2, room - 2, Left(chunk, address);
  }

  /** One turn of the loop, util.c, lines 207-266. There is always room for one character: line 213 never returns. */
  method PutLine(data: seq<byte>, j: nat, width: nat, output: array<char>, at: nat, space: nat,
                 ghost start: seq<char>, ghost done: seq<char>)
    returns (ok: bool, offset: nat, room: nat, ghost part: seq<char>)
    requires j < |data| && space > 0 && at + space <= output.Length && |start| == output.Length
    requires |done| == at && output[..] == Splice(start, 0, done) && |Padded(j, width)| == width
    modifies output
    ensures ok <==> space > |Line(data, j, width)|
    ensures part == LineKept(data, j, width, space)
    ensures ok ==> part == Line(data, j, width) && output[..] == Splice(start, 0, done + part)
    ensures ok ==> offset == at + |part| && room == space - |part|
    ensures !ok ==> |part| < space && Shows(output[..], start, done, part)
  {
    hide Splice, HexText, Padded, Line, Left, HexKept, PrintableText, Shows;
    var chunk := data[j..j + Count(|data|, j)];
    var address := Padded(j, width) + ": ";
    LineIs(data, j, width, chunk, address);
    ok, offset, room, part := PutHex(chunk, address, output, at, space, start, done);
    if !ok {
      return;
    }
    HexAllKept(chunk, address, space);
    ghost var before := output[..];
    var rc, written := ToPrintable(chunk, output, offset, room);
    Grown(before, start, done, part, PrintableText(chunk[..written]));
    part := part + PrintableText(chunk[..written]);
    PrintablePrefix(chunk, written);
    CutInText(Left(chunk, address), PrintableText(chunk), written);
    if rc != 0 {
      return false, offset, room, part;
    }
    offset, room := offset + written, room - written;
    if room < 2 {
      return false, offset, room, part;
    }
    before := output[..];
    WriteChars(output, offset, "\n");
    Ended(before, start, done, part);
    return true, offset + 1, room - 1, part + "\n";
  }

  lemma HexAllKept(chunk: seq<byte>, address: seq<char>, space: nat)
    requires 0 < |chunk| <= 16 && space > |Left(chunk, address)|
    ensures HexKept(chunk, address, space) == Left(chunk, address)
  {
    HexTextSize(chunk, true);
  }

  lemma CutInText(left: seq<char>, text: seq<char>, n: nat)
    requires n <= |text|
    ensures (left + text + "\n")[..|left| + n] == left + text[..n]
  {
  }

  lemma DumpIs(data: seq<byte>, width: nat)
    requires width == if |data| == 0 then 2 else Width(|data| - 1)
    ensures Dump(data) == Lines(data, 0, width)
  {
  }

  lemma KeptUnfolds(data: seq<byte>, j: nat, width: nat, space: nat, done: seq<char>)
    requires j < |data| && space > |Line(data, j, width)|
    ensures done + Kept(data, j, width, space) ==
      done + Line(data, j, width) + Kept(data, j + Count(|data|, j), width, space - |Line(data, j, width)|)
  {
    hide Line;
  }

  /** util.c, lines 182-272. Whatever the size of the buffer, it ends up holding what fits of the text and a NUL, and is
      otherwise untouched; the answer is 0 exactly when all of the text fits. The offset into the buffer is an
      int, so the buffer or the text must end before 2^31. */
  method DumpHex2(data: seq<byte>, output: array<char>, outputLen: nat) returns (rc: int)
    requires outputLen <= output.Length
    requires |data| < UINT32 && outputLen < UINT32 && (outputLen < 0x8000_0000 || Needed(|data|) < 0x8000_0000)
    modifies output
    ensures outputLen == 0 ==> rc == -1 && output[..] == old(output[..])
    ensures outputLen > 0 ==> rc == 0 || rc == 1
    ensures outputLen > 0 ==> (rc == 0 <==> outputLen >= Needed(|data|))
    ensures outputLen > 0 ==> |Shown(data, outputLen)| < outputLen
    ensures outputLen > 0 ==> output[..] == Splice(old(output[..]), 0, Shown(data, outputLen) + ['\0'])
  {
    hide Splice, Line, Lines, LineKept, Kept, Padded, Width, HexNumber, Dump, Needed;
    if outputLen == 0 {
      return -1;
    }
    ghost var start := output[..];
    ghost var done: seq<char> := [];
    var width := AddressWidth(|data|);
    var offset, room, j := 0, outputLen, 0;
    SpliceNothing(start, 0);
    ghost var kept := Kept(data, 0, width, outputLen);
    ShownIsBeginning(data, outputLen);
    DumpSize(data);
    DumpIs(data, width);
    assert kept == done + kept;
    while j < |data|
      invariant j <= |data| && room > 0 && offset + room == outputLen && |done| == offset
      invariant output[..] == Splice(start, 0, done) && kept == done + Kept(data, j, width, room)
      invariant outputLen > |Dump(data)| <==> room > |Lines(data, j, width)|
    {
      var ok;
      ghost var part;
      LineSize(data, j);
      ghost var space := room;
      ok, offset, room, part := PutLine(data, j, width, output, offset, room, start, done);
      LinesUnfold(data, j, width);
      if !ok {
        KeptCut(data, j, width, space);
        return 1;
      }
      KeptUnfolds(data, j, width, space, done);
      done := done + part;
      j := j + Count(|data|, j);
    }
    LinesEnd(data, width, room);
    assert done + [] == done;
    WriteChars(output, offset, ['\0']);
    SpliceJoin(start, 0, done, ['\0']);
    return 0;
  }

  lemma KeptCut(data: seq<byte>, j: nat, width: nat, space: nat)
    requires j < |data| && 0 < space <= |Line(data, j, width)|
    ensures Kept(data, j, width, space) == LineKept(data, j, width, space)
  {
    hide Line, LineKept;
  }

  lemma LinesUnfold(data: seq<byte>, j: nat, width: nat)
    requires j < |data|
    ensures |Lines(data, j, width)| == |Line(data, j, width)| + |Lines(data, j + Count(|data|, j), width)|
  {
    hide Line;
  }

  lemma LinesEnd(data: seq<byte>, width: nat, space: nat)
    requires space > 0
    ensures Lines(data, |data|, width) == [] == Kept(data, |data|, width, space)
  {
  }
}
