/** The texts of the RPMDB receipts (crates/dnfast-cache/src/rpmdb_receipt.rs): the generation
    descriptor, which must be injective, and the current receipt, which must survive print and parse. */
module ReceiptText {
  import opened Bytes
  import opened Framing

  const SPACE: Byte := 32
  const NEWLINE: Byte := 10
  const RETURN: Byte := 13
  const MINUS: Byte := 45

  const MAX_RECEIPT_BYTES := 512
  const MAX_CURRENT_RECEIPT_BYTES := 16384
  const MAX_CURRENT_STATE_BYTES := 4096

  // ---------------------------------------------------------------- decimal numbers

  function Digits(n: nat): (r: seq<Byte>)
    ensures r != [] && forall i :: 0 <= i < |r| ==> 48 <= r[i] <= 57
  {
    if n < 10 then [48 + n] else Digits(n / 10) + [48 + n % 10]
  }

  function Decimal(n: int): (r: seq<Byte>)
    ensures SPACE !in r && NEWLINE !in r
  {
    if n < 0 then [MINUS] + Digits(-n) else Digits(n)
  }

  lemma {:induction false} DigitsInjective(a: nat, b: nat)
    requires Digits(a) == Digits(b)
    ensures a == b
  {
    var d, e := Digits(a), Digits(b);
    assert d[|d| - 1] == 48 + a % 10 && e[|e| - 1] == 48 + b % 10;
    if a >= 10 && b >= 10 {
      assert d[..|d| - 1] == Digits(a / 10) && e[..|e| - 1] == Digits(b / 10);
      DigitsInjective(a / 10, b / 10);
    } else {
      assert |d| == 1;
    }
  }

  lemma DecimalInjective(a: int, b: int)
    requires Decimal(a) == Decimal(b)
    ensures a == b
  {
    assert a < 0 ==> Decimal(a)[0] == MINUS;
    assert b < 0 ==> Decimal(b)[0] == MINUS;
    if a < 0 && b < 0 {
      assert Decimal(a)[1..] == Digits(-a) && Decimal(b)[1..] == Digits(-b);
      DigitsInjective(-a, -b);
    } else if a >= 0 && b >= 0 {
      DigitsInjective(a, b);
    }
  }

  // ---------------------------------------------------------------- descriptor

  /** The measured fields of the database file. */
  datatype Stat = Stat(device: int, inode: int, size: int, mtime: int, mtimeNsec: int, ctime: int, ctimeNsec: int)

  function Fields(s: Stat): seq<int> { [s.device, s.inode, s.size, s.mtime, s.mtimeNsec, s.ctime, s.ctimeNsec] }

  function SpacedNumbers(numbers: seq<int>): seq<Byte> {
    if numbers == [] then [NEWLINE] else [SPACE] + (Decimal(numbers[0]) + SpacedNumbers(numbers[1..]))
  }

  function Descriptor(binding: seq<Byte>, stat: Stat): seq<Byte> {
    Ascii("dnfast-rpmdb-verified-generation-v1 ") + (binding + SpacedNumbers(Fields(stat)))
  }

  /** `validate_digest`: 64 lower-case hexadecimal digits. */
  predicate IsDigest(text: seq<Byte>) {
    |text| == 64 && forall i :: 0 <= i < 64 ==> 48 <= text[i] <= 57 || 97 <= text[i] <= 102
  }

  /** A word without blanks, followed by a blank, can be read back. */
  lemma WordPeel(x: seq<Byte>, y: seq<Byte>, a: seq<Byte>, b: seq<Byte>)
    requires SPACE !in x && SPACE !in y && NEWLINE !in x && NEWLINE !in y
    requires a != [] && b != [] && a[0] in {SPACE, NEWLINE} && b[0] in {SPACE, NEWLINE}
    requires x + a == y + b
    ensures x == y && a == b
  {
    assert (x + a)[|x|] == a[0] && (y + b)[|y|] == b[0];
    assert |x| == |y|;
    assert x == (x + a)[..|x|] && y == (y + b)[..|y|];
    assert a == (x + a)[|x|..] && b == (y + b)[|y|..];
  }

  lemma {:induction false} SpacedNumbersInjective(a: seq<int>, b: seq<int>)
    requires SpacedNumbers(a) == SpacedNumbers(b)
    ensures a == b
  {
    if a != [] && b != [] {
      var x, y := SpacedNumbers(a[1..]), SpacedNumbers(b[1..]);
      assert SpacedNumbers(a)[1..] == Decimal(a[0]) + x && SpacedNumbers(b)[1..] == Decimal(b[0]) + y;
      WordPeel(Decimal(a[0]), Decimal(b[0]), x, y);
      DecimalInjective(a[0], b[0]);
      SpacedNumbersInjective(a[1..], b[1..]);
      assert a == [a[0]] + a[1..] && b == [b[0]] + b[1..];
    } else {
      assert SpacedNumbers(a)[0] == SpacedNumbers(b)[0];
    }
  }

  /** The descriptor text determines the binding and every measured field. */
  lemma DescriptorInjective(b: seq<Byte>, s: Stat, c: seq<Byte>, t: Stat)
    requires IsDigest(b) && IsDigest(c)
    requires Descriptor(b, s) == Descriptor(c, t)
    ensures b == c && s == t
  {
    var head := Ascii("dnfast-rpmdb-verified-generation-v1 ");
    FixedPeel(head, head, b + SpacedNumbers(Fields(s)), c + SpacedNumbers(Fields(t)));
    FixedPeel(b, c, SpacedNumbers(Fields(s)), SpacedNumbers(Fields(t)));
    SpacedNumbersInjective(Fields(s), Fields(t));
    var f, g := Fields(s), Fields(t);
    assert f[0] == g[0] && f[1] == g[1] && f[2] == g[2] && f[3] == g[3] && f[4] == g[4] && f[5] == g[5] && f[6] == g[6];
  }

  lemma {:induction false} SpacedNumbersEnd(numbers: seq<int>)
    ensures SpacedNumbers(numbers) != [] && SpacedNumbers(numbers)[|SpacedNumbers(numbers)| - 1] == NEWLINE
  {
    if numbers != [] {
      SpacedNumbersEnd(numbers[1..]);
    }
  }

  // ---------------------------------------------------------------- hexadecimal

  function HexDigit(n: nat): Byte
    requires n < 16
  {
    if n < 10 then 48 + n else 87 + n
  }

  function HexValue(b: Byte): Option<nat> {
    if 48 <= b <= 57 then Some(b - 48)
    else if 97 <= b <= 102 then Some(b - 87)
    else if 65 <= b <= 70 then Some(b - 55)
    else None
  }

  function HexEncode(bytes: seq<Byte>): (r: seq<Byte>)
    ensures |r| == 2 * |bytes|
  {
    if bytes == [] then [] else [HexDigit(bytes[0] / 16), HexDigit(bytes[0] % 16)] + HexEncode(bytes[1..])
  }

  /** `hex::decode`: both cases of letters, an even number of digits. */
  function HexDecode(text: seq<Byte>): Option<seq<Byte>> {
    if text == [] then Some([])
    else if |text| == 1 then None
    else
      match (HexValue(text[0]), HexValue(text[1]), HexDecode(text[2..]))
      case (Some(h), Some(l), Some(rest)) => if h * 16 + l < 256 then Some([h * 16 + l] + rest) else None
      case _ => None
  }

  lemma {:induction false} HexRoundTrip(bytes: seq<Byte>)
    ensures HexDecode(HexEncode(bytes)) == Some(bytes)
    ensures NEWLINE !in HexEncode(bytes) && RETURN !in HexEncode(bytes)
  {
    if bytes != [] {
      HexRoundTrip(bytes[1..]);
      var text := HexEncode(bytes);
      assert text[2..] == HexEncode(bytes[1..]);
      assert bytes == [bytes[0]] + bytes[1..];
      assert HexValue(text[0]) == Some(bytes[0] / 16) && HexValue(text[1]) == Some(bytes[0] % 16);
    }
  }

  // ---------------------------------------------------------------- lines

  function LineLength(text: seq<Byte>): (n: nat)
    ensures n <= |text| && NEWLINE !in text[..n] && (n < |text| ==> text[n] == NEWLINE)
  {
    if text == [] || text[0] == NEWLINE then 0
    else
      var n := LineLength(text[1..]);
      assert text[..n + 1] == [text[0]] + text[1..][..n];
      n + 1
  }

  /** `str::lines`: a final newline ends the last line, and a return before a newline is dropped. */
  function Lines(text: seq<Byte>): seq<seq<Byte>> {
    if text == [] then []
    else
      var n := LineLength(text);
      if n == |text| then [text]
      else [if n > 0 && text[n - 1] == RETURN then text[..n - 1] else text[..n]] + Lines(text[n + 1..])
  }

  lemma {:induction false} LineLengthCons(line: seq<Byte>, rest: seq<Byte>)
    requires NEWLINE !in line
    ensures LineLength(line + ([NEWLINE] + rest)) == |line|
  {
    var text := line + ([NEWLINE] + rest);
    if line != [] {
      assert line[0] in line && text[0] == line[0];
      assert text[1..] == line[1..] + ([NEWLINE] + rest);
      LineLengthCons(line[1..], rest);
    }
  }

  lemma LinesCons(line: seq<Byte>, rest: seq<Byte>)
    requires NEWLINE !in line && RETURN !in line
    ensures Lines(line + ([NEWLINE] + rest)) == [line] + Lines(rest)
  {
    var text := line + ([NEWLINE] + rest);
    LineLengthCons(line, rest);
    var n := |line|;
    assert text[..n] == line && text[n + 1..] == rest;
    assert n > 0 ==> text[n - 1] == line[n - 1] && line[n - 1] in line;
  }

  function StripPrefix(text: seq<Byte>, prefix: seq<Byte>): Option<seq<Byte>> {
    if prefix <= text then Some(text[|prefix|..]) else None
  }

  // ---------------------------------------------------------------- current receipt

  function Version(): seq<Byte> { Ascii("dnfast-rpmdb-current-generation-v1") }

  /** Each line followed by a newline. */
  function Joined(lines: seq<seq<Byte>>): seq<Byte> {
    if lines == [] then [] else lines[0] + ([NEWLINE] + Joined(lines[1..]))
  }

  function PrintCurrent(binding: seq<Byte>, state: seq<Byte>, descriptor: seq<Byte>): seq<Byte> {
    Joined([Version(), Ascii("binding=") + binding, Ascii("state=") + HexEncode(state),
            Ascii("descriptor=") + HexEncode(descriptor)])
  }

  predicate IsState(state: seq<Byte>) { 0 < |state| <= MAX_CURRENT_STATE_BYTES && 0 !in state }

  predicate IsDescriptorText(text: seq<Byte>) {
    0 < |text| <= MAX_RECEIPT_BYTES && text[|text| - 1] == NEWLINE
  }

  function DecodedField(line: seq<Byte>, prefix: seq<Byte>): Option<seq<Byte>> {
    match StripPrefix(line, prefix)
    case None => None
    case Some(hex) => HexDecode(hex)
  }

  /** `parse_current_receipt`. */
  function ParseCurrent(text: seq<Byte>): Option<(seq<Byte>, seq<Byte>, seq<Byte>)> {
    var lines := Lines(text);
    if |lines| != 4 || lines[0] != Version() then None
    else
      match (StripPrefix(lines[1], Ascii("binding=")), DecodedField(lines[2], Ascii("state=")),
             DecodedField(lines[3], Ascii("descriptor=")))
      case (Some(binding), Some(state), Some(descriptor)) =>
        if IsDigest(binding) && IsState(state) && IsDescriptorText(descriptor)
        then Some((binding, state, descriptor)) else None
      case _ => None
  }

  predicate IsPrintable(text: string) { forall i :: 0 <= i < |text| ==> ' ' <= text[i] <= '~' }

  lemma PrintableIsLine(text: string)
    requires IsPrintable(text)
    ensures IsLine(Ascii(text))
  {
    var bytes := Ascii(text);
    forall b | b in bytes ensures b != NEWLINE && b != RETURN {
      var i :| 0 <= i < |bytes| && bytes[i] == b;
      assert bytes[i] == text[i] as int % 256 && ' ' <= text[i] <= '~';
    }
  }

  lemma LabelsAreLines()
    ensures IsLine(Version()) && IsLine(Ascii("binding=")) && IsLine(Ascii("state=")) && IsLine(Ascii("descriptor="))
  {
    PrintableIsLine("dnfast-rpmdb-current-generation-v1");
    PrintableIsLine("binding=");
    PrintableIsLine("state=");
    PrintableIsLine("descriptor=");
  }

  lemma LabelledLine(name: seq<Byte>, text: seq<Byte>)
    requires IsLine(name) && IsLine(text)
    ensures IsLine(name + text)
  {
  }

  lemma PrintedLines(binding: seq<Byte>, state: seq<Byte>, descriptor: seq<Byte>)
    requires IsDigest(binding)
    ensures Lines(PrintCurrent(binding, state, descriptor)) ==
            [Version(), Ascii("binding=") + binding, Ascii("state=") + HexEncode(state),
             Ascii("descriptor=") + HexEncode(descriptor)]
  {
    HexRoundTrip(state);
    HexRoundTrip(descriptor);
    LabelsAreLines();
    LabelledLine(Ascii("binding="), binding);
    LabelledLine(Ascii("state="), HexEncode(state));
    LabelledLine(Ascii("descriptor="), HexEncode(descriptor));
    LinesOfJoined([Version(), Ascii("binding=") + binding, Ascii("state=") + HexEncode(state),
                   Ascii("descriptor=") + HexEncode(descriptor)]);
  }

  predicate IsLine(line: seq<Byte>) { NEWLINE !in line && RETURN !in line }

  lemma {:induction false} LinesOfJoined(lines: seq<seq<Byte>>)
    requires forall i :: 0 <= i < |lines| ==> IsLine(lines[i])
    ensures Lines(Joined(lines)) == lines
  {
    if lines != [] {
      assert lines == [lines[0]] + lines[1..];
      LinesCons(lines[0], Joined(lines[1..]));
      LinesOfJoined(lines[1..]);
    }
  }

  lemma StripPrefixPrinted(prefix: seq<Byte>, text: seq<Byte>)
    ensures StripPrefix(prefix + text, prefix) == Some(text)
  {
    assert (prefix + text)[|prefix|..] == text;
  }

  /** Whatever `publish_current` prints, `current` reads back. */
  lemma CurrentRoundTrip(binding: seq<Byte>, state: seq<Byte>, descriptor: seq<Byte>)
    requires IsDigest(binding) && IsState(state) && IsDescriptorText(descriptor)
    ensures ParseCurrent(PrintCurrent(binding, state, descriptor)) == Some((binding, state, descriptor))
  {
    PrintedLines(binding, state, descriptor);
    StripPrefixPrinted(Ascii("binding="), binding);
    StripPrefixPrinted(Ascii("state="), HexEncode(state));
    StripPrefixPrinted(Ascii("descriptor="), HexEncode(descriptor));
    HexRoundTrip(state);
    HexRoundTrip(descriptor);
  }
}
