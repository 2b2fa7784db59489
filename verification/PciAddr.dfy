/** PCI addresses: printing and parsing of the domain:bus:device.function form. */
module PciAddrs {
  import opened Wrappers
  import opened Text
  import opened Numerals

  type U16 = n: nat | n < 0x1_0000
  type U8 = n: nat | n < 0x100

  datatype PciAddr = PciAddr(domain: U16, bus: U8, device: U8, function_: U8)

  datatype AddrError = BadNumber(part: string) | NotAnAddress(text: string)

  function Hex(n: nat, width: nat): string {
    Pad(Digits(n, 16), width)
  }

  /** The function prints in decimal, the other fields in hexadecimal. */
  function Print(a: PciAddr): string {
    Hex(a.domain, 4) + ":" + PrintShort(a)
  }

  function PrintShort(a: PciAddr): string {
    Hex(a.bus, 2) + ":" + (Hex(a.device, 2) + "." + Decimal(a.function_))
  }

  const SEPARATORS := {':', '.'}

  /** Parsing of four or three parts, every part in hexadecimal. */
  function FromParts(parts: seq<string>, text: string): Result<PciAddr, AddrError> {
    if |parts| == 4 then
      match Parse(parts[0], 16, 0xFFFF)
      case None => Err(BadNumber(parts[0]))
      case Some(d) => FromTail(d, parts[1], parts[2], parts[3])
    else if |parts| == 3 then FromTail(0, parts[0], parts[1], parts[2])
    else Err(NotAnAddress(text))
  }

  function FromTail(domain: U16, b: string, d: string, f: string): Result<PciAddr, AddrError> {
    match Parse(b, 16, 0xFF)
    case None => Err(BadNumber(b))
    case Some(bus) =>
      match Parse(d, 16, 0xFF)
      case None => Err(BadNumber(d))
      case Some(device) =>
        match Parse(f, 16, 0xFF)
        case None => Err(BadNumber(f))
        case Some(fun) => Ok(PciAddr(domain, bus, device, fun))
  }

  function FromStr(text: string): Result<PciAddr, AddrError> {
    FromParts(Split(text, SEPARATORS), text)
  }

  /** The first part that is no hexadecimal number within its bound, if any. */
  function FirstBad(parts: seq<string>): Option<string> {
    if |parts| == 4 && Parse(parts[0], 16, 0xFFFF).None? then Some(parts[0])
    else FirstBadByte(if |parts| == 4 then parts[1..] else parts)
  }

  function FirstBadByte(parts: seq<string>): Option<string> {
    if parts == [] then None
    else if Parse(parts[0], 16, 0xFF).None? then Some(parts[0])
    else FirstBadByte(parts[1..])
  }

  /** Exactly the texts of three or four good parts are addresses; another number of parts is no address
      at all, and otherwise the error is about the first bad part. */
  lemma ErrorsIff(text: string)
    ensures
      var parts, r := Split(text, SEPARATORS), FromStr(text);
      if |parts| != 3 && |parts| != 4 then r == Err(NotAnAddress(text))
      else match FirstBad(parts)
           case Some(part) => r == Err(BadNumber(part))
           case None => r.Ok?
  {
    var parts := Split(text, SEPARATORS);
    if |parts| == 4 {
      ThreeParts(parts[1..]);
    } else if |parts| == 3 {
      ThreeParts(parts);
    }
  }

  lemma ThreeParts(parts: seq<string>)
    requires |parts| == 3
    ensures FirstBadByte(parts) ==
      if Parse(parts[0], 16, 0xFF).None? then Some(parts[0])
      else if Parse(parts[1], 16, 0xFF).None? then Some(parts[1])
      else if Parse(parts[2], 16, 0xFF).None? then Some(parts[2]) else None
  {
    var second, third := parts[1..], parts[2..];
    assert second[1..] == third && third[1..] == [];
    assert FirstBadByte(third) == if Parse(parts[2], 16, 0xFF).None? then Some(parts[2]) else None;
    assert FirstBadByte(second) == if Parse(parts[1], 16, 0xFF).None? then Some(parts[1]) else FirstBadByte(third);
  }

  /** Colons and dots separate parts, either of them anywhere, and nothing else does. */
  lemma PartsAreSeparated(a: string, x: char, b: string, y: char, c: string)
    requires x in {':', '.'} && y in {':', '.'}
    requires Free(a, {':', '.'}) && Free(b, {':', '.'}) && Free(c, {':', '.'})
    ensures Split(a + [x] + (b + [y] + c), SEPARATORS) == [a, b, c]
    ensures FromStr(a + [x] + (b + [y] + c)) == FromTail(0, a, b, c)
  {
    SplitAt(a, x, b + [y] + c, SEPARATORS);
    SplitAt(b, y, c, SEPARATORS);
    SplitFree(c, SEPARATORS);
  }

  /** Upper-case digits mean the same. */
  lemma UppercaseParses(s: string, max: nat)
    requires s != "" && AllDigits(s, 16)
    ensures Parse(Uppercase(s), 16, max) == Parse(s, 16, max)
  {
    CaseIsIgnored(s, 16);
    assert DigitOf('+') == 16;
    assert Uppercase(s)[0] == Upper(s[0]);
  }

  lemma HexIsFree(n: nat, width: nat)
    ensures Free(Hex(n, width), SEPARATORS)
  {
    DigitsAreDigits(n, 16);
  }

  lemma DecimalIsFree(n: nat)
    ensures Free(Decimal(n), SEPARATORS)
  {
    DigitsAreDigits(n, 10);
  }

  lemma TailParts(bus: nat, device: nat, fun: nat)
    ensures Split(Hex(bus, 2) + ":" + (Hex(device, 2) + "." + Decimal(fun)), SEPARATORS) ==
      [Hex(bus, 2), Hex(device, 2), Decimal(fun)]
  {
    HexIsFree(bus, 2);
    HexIsFree(device, 2);
    DecimalIsFree(fun);
    SplitFree(Decimal(fun), SEPARATORS);
    SplitAt(Hex(device, 2), '.', Decimal(fun), SEPARATORS);
    SplitAt(Hex(bus, 2), ':', Hex(device, 2) + "." + Decimal(fun), SEPARATORS);
  }

  lemma PrintedParts(a: PciAddr)
    ensures Split(PrintShort(a), SEPARATORS) == [Hex(a.bus, 2), Hex(a.device, 2), Decimal(a.function_)]
    ensures Split(Print(a), SEPARATORS) == [Hex(a.domain, 4), Hex(a.bus, 2), Hex(a.device, 2), Decimal(a.function_)]
  {
    TailParts(a.bus, a.device, a.function_);
    HexIsFree(a.domain, 4);
    SplitAt(Hex(a.domain, 4), ':', PrintShort(a), SEPARATORS);
  }

  /** A byte's decimal digits, read as hexadecimal, are the byte itself only when there is one digit. */
  lemma DecimalAsHex(f: U8)
    ensures Parse(Decimal(f), 16, 0xFF) == Some(f) <==> f <= 9
  {
    DigitsAreDigits(f, 10);
    if f < 10 {
      assert Decimal(f) == Digits(f, 16);
      ParsePrinted(f, 0, 16, 0xFF);
    } else {
      var tens, last := DigitsStep(f, 10);
      HexOfDecimal(tens, last);
    }
  }

  lemma HexOfDecimal(tens: nat, last: nat)
    requires 0 < tens < 100 && last < 10
    ensures AllDigits(Decimal(tens) + [DigitChar(last)], 16)
    ensures ValueOf(Decimal(tens) + [DigitChar(last)], 16) > 10 * tens + last
  {
    DigitsAreDigits(tens, 10);
    DigitCharValue(last);
    AtLeastDecimal(tens);
    ValueOfSnoc(Decimal(tens), DigitChar(last), 16);
  }

  /** Reading decimal digits as hexadecimal never makes a number smaller. */
  lemma {:induction false} AtLeastDecimal(n: nat)
    ensures AllDigits(Decimal(n), 16) && ValueOf(Decimal(n), 16) >= n
    decreases n
  {
    if n < 10 {
      DigitCharValue(n);
      ValueOfSnoc("", DigitChar(n), 16);
      assert "" + [DigitChar(n)] == Decimal(n);
    } else {
      var front, last := DigitsStep(n, 10);
      DigitCharValue(last);
      AtLeastDecimal(front);
      ValueOfSnoc(Decimal(front), DigitChar(last), 16);
    }
  }

  /** A printed address parses back exactly when its function has one digit. */
  lemma RoundTripIff(a: PciAddr)
    ensures FromStr(Print(a)) == Ok(a) <==> a.function_ <= 9
  {
    PrintedParts(a);
    ParsePrinted(a.domain, 4, 16, 0xFFFF);
    ParsePrinted(a.bus, 2, 16, 0xFF);
    ParsePrinted(a.device, 2, 16, 0xFF);
    DecimalAsHex(a.function_);
  }

  /** The short form means domain zero: any three-part text parses as it does with the domain written out. */
  lemma ShortFormIsDomainZero(text: string)
    requires |Split(text, SEPARATORS)| == 3
    ensures FromStr("0000:" + text) == FromStr(text)
  {
    var parts := Split(text, SEPARATORS);
    assert "0000:" + text == "0000" + [':'] + text;
    SplitAt("0000", ':', text, SEPARATORS);
    ZerosParse();
    assert Split("0000:" + text, SEPARATORS) == ["0000", parts[0], parts[1], parts[2]];
  }

  lemma ZerosParse()
    ensures Parse("0000", 16, 0xFFFF) == Some(0)
  {
    assert "0000" == Hex(0, 4);
    ParsePrinted(0, 4, 16, 0xFFFF);
  }
}
