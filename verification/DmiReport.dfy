/** Memory slots as `dmidecode` prints them, and what the parser makes of them. */
module DmiReports {
  import opened Wrappers
  import opened Text
  import opened Numerals
  import opened Events
  import opened Dmi

  /** A field's line: indented, the key and the value apart. */
  function Line(indent: string, key: string, value: string): string {
    indent + (key + (": " + value))
  }

  /** A text that can be a key or a value and is read back as it stands. */
  predicate Printable(s: string) {
    s != "" && Tight(s)
  }

  lemma LineSplits(indent: string, key: string, value: string)
    requires AllSpace(indent) && Printable(key) && ':' !in key && Printable(value)
    ensures SplitOnce(Trim(Line(indent, key, value)), ": ") == Some((key, value))
    ensures Trim(key) == key && Trim(value) == value
  {
    var s := key + (": " + value);
    assert s[|s| - 1] == value[|value| - 1] && s[0] == key[0];
    TrimSkips(indent, s, "");
    assert indent + s + "" == indent + s;
    TrimTight(key);
    TrimTight(value);
    forall j | 0 <= j < |key| ensures !OccursAt(s, ": ", j) {
      OccursChar(s, ": ", j, 0);
      assert s[j] in key;
    }
    assert s[|key|..|key| + 2] == ": ";
    FindUnique(s, ": ", |key|);
    assert s[..|key|] == key && s[|key| + 2..] == value;
  }

  /** A printed line is read as its key and value. */
  lemma LineIsRead(m: MemoryModule, indent: string, key: string, value: string)
    requires AllSpace(indent) && Printable(key) && ':' !in key && Printable(value)
    ensures WithField(m, Line(indent, key, value)) == Assigned(m, key, value)
  {
    LineSplits(indent, key, value);
  }

  // ---- what each key means ----

  lemma KeysArePrintable()
    ensures
      var keys := ["Locator", "Size", "Type", "Speed", "Configured Memory Speed", "Manufacturer", "Part Number"];
      forall key | key in keys :: Printable(key) && ':' !in key
  {
  }

  /** An amount and its unit, a space apart. */
  lemma AmountReads(n: nat, unit: string)
    requires unit != "" && Spaceless(unit)
    ensures
      var v := Decimal(n) + (" " + unit);
      Printable(v) && FirstWord(v) == Some(Decimal(n)) && SecondWord(v) == Some(unit)
  {
    DigitsAreDigits(n, 10);
    TwoWords(Decimal(n), unit);
  }

  lemma TwoWords(d: string, unit: string)
    requires d != "" && Spaceless(d) && unit != "" && Spaceless(unit)
    ensures
      var v := d + (" " + unit);
      Printable(v) && FirstWord(v) == Some(d) && SecondWord(v) == Some(unit)
  {
    var v := d + (" " + unit);
    assert v[0] == d[0] && v[|v| - 1] == unit[|unit| - 1];
    FirstWordSkips("", d, " " + unit);
    assert "" + (d + (" " + unit)) == v;
    SecondWordSkips(d, " ", unit, "");
    assert d + (" " + (unit + "")) == v;
  }

  lemma AmountIsNoWord(n: nat, unit: string)
    ensures
      var v := Decimal(n) + (" " + unit);
      v != "No Module Installed" && v != "Unknown"
  {
    DigitsAreDigits(n, 10);
    var v := Decimal(n) + (" " + unit);
    assert '0' <= v[0] <= '9';
    assert "No Module Installed"[0] == 'N' && "Unknown"[0] == 'U';
  }

  /** Gigabytes are taken as they are and megabytes rounded down; other units and the two words for
      an empty slot say nothing. */
  lemma SizeReads(n: Word, unit: string)
    requires unit != "" && Spaceless(unit)
    ensures SizeOf(Decimal(n) + (" " + unit)) ==
      if unit == "GB" then Some(n) else if unit == "MB" then Some(n / 1024) else None
    ensures SizeOf("No Module Installed") == SizeOf("Unknown") == None
  {
    AmountReads(n, unit);
    AmountIsNoWord(n, unit);
    DecimalParses(n, U64 - 1);
  }

  lemma SpeedReads(n: nat, unit: string)
    requires n < U32 && unit != "" && Spaceless(unit)
    ensures SpeedOf(Decimal(n) + (" " + unit)) == Some(n)
    ensures SpeedOf("Unknown") == None
  {
    AmountReads(n, unit);
    AmountIsNoWord(n, unit);
    DecimalParses(n, U32 - 1);
  }

  /** A slot whose texts could have been printed. */
  predicate Tidy(slot: MemoryModule) {
    && Tight(slot.locator)
    && (slot.kind.Some? ==> Printable(slot.kind.value) && slot.kind.value != "Unknown")
    && (slot.speedMts.Some? ==> slot.speedMts.value < U32)
    && (slot.manufacturer.Some? ==> Printable(slot.manufacturer.value) && slot.manufacturer.value != "Unknown")
    && (slot.partNumber.Some? ==> Printable(slot.partNumber.value) && slot.partNumber.value != "Unknown")
  }

  datatype Field = Locator | Size | Kind | Speed | Maker | Part

  /** The key that a field's line has; a speed comes under either of two. */
  predicate KeyOf(f: Field, key: string) {
    match f
    case Locator => key == "Locator"
    case Size => key == "Size"
    case Kind => key == "Type"
    case Speed => key == "Speed" || key == "Configured Memory Speed"
    case Maker => key == "Manufacturer"
    case Part => key == "Part Number"
  }

  /** The value that a field's line has for this slot; a size in gigabytes, or in any number of
      megabytes that makes it. */
  ghost predicate ValueFor(slot: MemoryModule, f: Field, value: string) {
    match f
    case Locator => slot.locator != "" && value == slot.locator
    case Size => slot.sizeGb.Some? &&
      (value == Decimal(slot.sizeGb.value) + (" " + "GB") || exists n: Word :: InMegabytes(n, slot.sizeGb.value, value))
    case Kind => slot.kind == Some(value)
    case Speed => slot.speedMts.Some? && value == Decimal(slot.speedMts.value) + (" " + "MT/s")
    case Maker => slot.manufacturer == Some(value)
    case Part => slot.partNumber == Some(value)
  }

  predicate InMegabytes(n: Word, gb: Word, value: string) {
    n / 1024 == gb && value == Decimal(n) + (" " + "MB")
  }

  /** A value that says nothing about a field. */
  predicate Silent(f: Field, value: string) {
    match f
    case Locator => false
    case Size => value == "No Module Installed" || value == "Unknown"
    case _ => value == "Unknown"
  }

  /** A line of the slot: it gives one field its value. */
  ghost predicate Gives(slot: MemoryModule, f: Field, line: string) {
    exists indent, key, value :: GivesBy(slot, f, line, indent, key, value)
  }

  ghost predicate GivesBy(slot: MemoryModule, f: Field, line: string, indent: string, key: string, value: string) {
    AllSpace(indent) && KeyOf(f, key) && ValueFor(slot, f, value) && line == Line(indent, key, value)
  }

  ghost predicate SaysNothing(line: string) {
    exists indent, key, value, f :: SilentBy(line, indent, key, value, f)
  }

  predicate SilentBy(line: string, indent: string, key: string, value: string, f: Field) {
    AllSpace(indent) && KeyOf(f, key) && Silent(f, value) && line == Line(indent, key, value)
  }

  /** One field of a slot taken over into another. */
  function Taken(m: MemoryModule, slot: MemoryModule, f: Field): MemoryModule {
    match f
    case Locator => m.(locator := slot.locator)
    case Size => m.(sizeGb := slot.sizeGb)
    case Kind => m.(kind := slot.kind)
    case Speed => m.(speedMts := slot.speedMts)
    case Maker => m.(manufacturer := slot.manufacturer)
    case Part => m.(partNumber := slot.partNumber)
  }

  lemma KeyIsPrintable(f: Field, key: string)
    requires KeyOf(f, key)
    ensures Printable(key) && ':' !in key
  {
    KeysArePrintable();
  }

  lemma UnitsAreWords()
    ensures Spaceless("GB") && Spaceless("MB") && Spaceless("MT/s")
  {
  }

  lemma ValueIsPrintable(slot: MemoryModule, f: Field, value: string)
    requires Tidy(slot) && ValueFor(slot, f, value)
    ensures Printable(value)
  {
    UnitsAreWords();
    match f
    case Size =>
      if value == Decimal(slot.sizeGb.value) + (" " + "GB") {
        AmountReads(slot.sizeGb.value, "GB");
      } else {
        var n: Word :| InMegabytes(n, slot.sizeGb.value, value);
        AmountReads(n, "MB");
      }
    case Speed => AmountReads(slot.speedMts.value, "MT/s");
    case _ =>
  }

  /** A line of the slot sets its own field to the slot's value, and no other field. */
  lemma GivenFieldIsTaken(m: MemoryModule, slot: MemoryModule, f: Field, line: string)
    requires Tidy(slot) && Gives(slot, f, line)
    ensures WithField(m, line) == Taken(m, slot, f)
  {
    var indent, key, value :| GivesBy(slot, f, line, indent, key, value);
    KeyIsPrintable(f, key);
    ValueIsPrintable(slot, f, value);
    LineIsRead(m, indent, key, value);
    ValueIsTaken(m, slot, f, key, value);
  }

  lemma ValueIsTaken(m: MemoryModule, slot: MemoryModule, f: Field, key: string, value: string)
    requires Tidy(slot) && KeyOf(f, key) && ValueFor(slot, f, value)
    ensures Assigned(m, key, value) == Taken(m, slot, f)
  {
    UnitsAreWords();
    KeysDiffer();
    match f
    case Size =>
      if value == Decimal(slot.sizeGb.value) + (" " + "GB") {
        SizeReads(slot.sizeGb.value, "GB");
      } else {
        var n: Word :| InMegabytes(n, slot.sizeGb.value, value);
        SizeReads(n, "MB");
        assert "MB"[0] != "GB"[0];
      }
    case Speed => SpeedReads(slot.speedMts.value, "MT/s");
    case _ =>
  }

  lemma KeysDiffer()
    ensures var keys := ["Locator", "Size", "Type", "Configured Memory Speed", "Speed", "Manufacturer", "Part Number"];
      forall i, j :: 0 <= i < j < |keys| ==> keys[i] != keys[j]
  {
    assert "Size"[1] != "Type"[1];
    assert "Size"[0] == 'S' && "Type"[0] == 'T' && "Speed"[1] == 'p' && |"Speed"| == 5;
  }

  lemma SilentIsPrintable(f: Field, value: string)
    requires Silent(f, value)
    ensures Printable(value)
  {
  }

  lemma SilentValueIsIgnored(m: MemoryModule, f: Field, key: string, value: string)
    requires KeyOf(f, key) && Silent(f, value)
    ensures Assigned(m, key, value) == m
  {
    KeysDiffer();
    match f
    case Size => SizeReads(0, "GB");
    case Speed => SpeedReads(0, "MT/s");
    case _ =>
  }

  /** A line that says nothing changes nothing. */
  lemma SilentLineIsIgnored(m: MemoryModule, line: string)
    requires SaysNothing(line)
    ensures WithField(m, line) == m
  {
    var indent, key, value, f :| SilentBy(line, indent, key, value, f);
    KeyIsPrintable(f, key);
    SilentIsPrintable(f, value);
    SilentValueIsIgnored(m, f, key, value);
    LineIsRead(m, indent, key, value);
  }

  // ---- whole slots ----

  /** One field has its value as in the slot. */
  predicate Has(m: MemoryModule, slot: MemoryModule, f: Field) {
    Taken(m, slot, f) == m
  }

  ghost predicate GivenIn(slot: MemoryModule, f: Field, lines: seq<string>) {
    exists k :: 0 <= k < |lines| && Gives(slot, f, lines[k])
  }

  ghost predicate AboutSlot(slot: MemoryModule, line: string) {
    SaysNothing(line) || exists f :: Gives(slot, f, line)
  }

  /** Lines about a slot, in any order and any number, leave it with the fields that they give and
      those that it had. */
  lemma {:induction false} LinesGive(lines: seq<string>, slot: MemoryModule, m: MemoryModule, f: Field)
    requires Tidy(slot) && forall k :: 0 <= k < |lines| ==> AboutSlot(slot, lines[k])
    requires Has(m, slot, f) || GivenIn(slot, f, lines)
    ensures Has(ParseBlock(lines, m), slot, f)
    decreases |lines|
  {
    if lines != [] {
      var line, rest, next := lines[0], lines[1..], WithField(m, lines[0]);
      OneLineGives(line, slot, m, f);
      assert forall k :: 0 <= k < |rest| ==> rest[k] == lines[k + 1];
      if !Has(next, slot, f) {
        var k :| 0 <= k < |lines| && Gives(slot, f, lines[k]);
        assert Gives(slot, f, rest[k - 1]);
      }
      LinesGive(rest, slot, next, f);
    }
  }

  lemma TakenKeeps(m: MemoryModule, slot: MemoryModule, f: Field, g: Field)
    ensures Has(Taken(m, slot, f), slot, f)
    ensures Has(m, slot, f) ==> Has(Taken(m, slot, g), slot, f)
  {
  }

  lemma OneLineGives(line: string, slot: MemoryModule, m: MemoryModule, f: Field)
    requires Tidy(slot) && AboutSlot(slot, line)
    ensures Has(m, slot, f) || Gives(slot, f, line) ==> Has(WithField(m, line), slot, f)
  {
    if Gives(slot, f, line) {
      GivenFieldIsTaken(m, slot, f, line);
      TakenKeeps(m, slot, f, f);
    } else if SaysNothing(line) {
      SilentLineIsIgnored(m, line);
    } else {
      var g :| Gives(slot, g, line);
      GivenFieldIsTaken(m, slot, g, line);
      TakenKeeps(m, slot, f, g);
    }
  }

  /** A block of a slot's lines, in any order, that gives every field that the slot has reads back as
      exactly that slot. */
  lemma SlotReadsBack(lines: seq<string>, slot: MemoryModule)
    requires Tidy(slot) && forall k :: 0 <= k < |lines| ==> AboutSlot(slot, lines[k])
    requires forall f :: Has(EMPTY_SLOT, slot, f) || GivenIn(slot, f, lines)
    ensures ParseBlock(lines, EMPTY_SLOT) == slot
  {
    var m := ParseBlock(lines, EMPTY_SLOT);
    forall f ensures Has(m, slot, f) {
      LinesGive(lines, slot, EMPTY_SLOT, f);
    }
    assert Has(m, slot, Locator) && Has(m, slot, Size) && Has(m, slot, Kind);
    assert Has(m, slot, Speed) && Has(m, slot, Maker) && Has(m, slot, Part);
  }

  /** What a slot's line is not. */
  lemma LineIsNoHeader(slot: MemoryModule, line: string)
    requires Tidy(slot) && AboutSlot(slot, line)
    ensures !IsHeader(line)
  {
    if f :| Gives(slot, f, line) {
      var indent, key, value :| GivesBy(slot, f, line, indent, key, value);
      KeyIsPrintable(f, key);
      ValueIsPrintable(slot, f, value);
      HasColon(indent, key, value);
    } else {
      var indent, key, value, f :| SilentBy(line, indent, key, value, f);
      KeyIsPrintable(f, key);
      SilentIsPrintable(f, value);
      HasColon(indent, key, value);
    }
  }

  lemma HasColon(indent: string, key: string, value: string)
    requires AllSpace(indent) && Printable(key) && Printable(value)
    ensures !IsHeader(Line(indent, key, value))
  {
    var s := key + (": " + value);
    assert s[|s| - 1] == value[|value| - 1] && s[0] == key[0];
    TrimSkips(indent, s, "");
    assert indent + s + "" == indent + s;
    assert s[|key|] == ':';
    assert forall k :: 0 <= k < |"Memory Device"| ==> "Memory Device"[k] != ':';
  }

  lemma {:induction false} NoHeaderWithin(lines: seq<string>)
    requires forall k :: 0 <= k < |lines| ==> !IsHeader(lines[k])
    ensures NextHeader(lines) == |lines|
  {
    if lines != [] {
      NoHeaderWithin(lines[1..]);
    }
  }

  lemma HeaderReads(indent: string)
    requires AllSpace(indent)
    ensures IsHeader(indent + "Memory Device")
  {
    var header := "Memory Device";
    assert header[0] == 'M' && header[|header| - 1] == 'e';
    TrimSkips(indent, header, "");
    assert indent + header + "" == indent + header;
  }

  lemma OneBlock(header: string, lines: seq<string>)
    requires IsHeader(header) && forall k :: 0 <= k < |lines| ==> !IsHeader(lines[k])
    ensures Blocks([header] + lines) == [lines]
  {
    var all := [header] + lines;
    assert all[1..] == lines;
    BlocksFromHeader(all);
    NoHeaderWithin(lines);
    assert lines[..|lines|] == lines && lines[|lines|..] == [];
    assert Blocks([]) == [];
  }

  lemma OneSlot(block: seq<string>)
    ensures Populated([block]) == Reported(Some(ParseBlock(block, EMPTY_SLOT)))
  {
    PopulatedCons(block, []);
    assert [block] + [] == [block];
  }

  lemma ReportOfLines(header: string, lines: seq<string>)
    requires IsHeader(header) && forall k :: 0 <= k < |lines| ==> !IsHeader(lines[k])
    requires IsLine(header) && forall k :: 0 <= k < |lines| ==> IsLine(lines[k])
    ensures Parsed(Unlines([header] + lines)) == Reported(Some(ParseBlock(lines, EMPTY_SLOT)))
  {
    OneBlock(header, lines);
    OneSlot(lines);
    HeaderAndLines(header, lines);
  }

  lemma HeaderAndLines(header: string, lines: seq<string>)
    requires IsLine(header) && forall k :: 0 <= k < |lines| ==> IsLine(lines[k])
    ensures Lines(Unlines([header] + lines)) == [header] + lines
  {
    var all := [header] + lines;
    forall k | 0 <= k < |all| ensures IsLine(all[k]) {
      assert k > 0 ==> all[k] == lines[k - 1];
    }
    LinesOfUnlines(all);
  }

  lemma NoLineIsHeader(slot: MemoryModule, lines: seq<string>)
    requires Tidy(slot) && forall k :: 0 <= k < |lines| ==> AboutSlot(slot, lines[k])
    ensures forall k :: 0 <= k < |lines| ==> !IsHeader(lines[k])
  {
    forall k | 0 <= k < |lines| ensures !IsHeader(lines[k]) {
      LineIsNoHeader(slot, lines[k]);
    }
  }

  /** Lines that are all about one slot, and give every field that it has. */
  ghost predicate Describe(lines: seq<string>, slot: MemoryModule) {
    && Tidy(slot) && (forall k :: 0 <= k < |lines| ==> AboutSlot(slot, lines[k]))
    && forall f :: Has(EMPTY_SLOT, slot, f) || GivenIn(slot, f, lines)
  }

  /** One way to print a slot: a line for each field that it has. */
  function Printed(slot: MemoryModule): seq<string> {
    PrintedField(Locator, slot) + PrintedField(Size, slot) + PrintedField(Kind, slot)
    + PrintedField(Speed, slot) + PrintedField(Maker, slot) + PrintedField(Part, slot)
  }

  function PrintedField(f: Field, slot: MemoryModule): (lines: seq<string>)
    ensures |lines| <= 1
  {
    match PrintedValue(f, slot)
    case None => []
    case Some(value) => [Line("\t", PrintedKey(f), value)]
  }

  /** The value that is printed for a field, if the slot has it. */
  function PrintedValue(f: Field, slot: MemoryModule): Option<string> {
    match f
    case Locator => if slot.locator == "" then None else Some(slot.locator)
    case Size => if slot.sizeGb.None? then None else Some(Decimal(slot.sizeGb.value) + (" " + "GB"))
    case Kind => slot.kind
    case Speed => if slot.speedMts.None? then None else Some(Decimal(slot.speedMts.value) + (" " + "MT/s"))
    case Maker => slot.manufacturer
    case Part => slot.partNumber
  }

  function PrintedKey(f: Field): string {
    match f
    case Locator => "Locator"
    case Size => "Size"
    case Kind => "Type"
    case Speed => "Speed"
    case Maker => "Manufacturer"
    case Part => "Part Number"
  }

  lemma PrintedValueIsFor(f: Field, slot: MemoryModule)
    ensures Has(EMPTY_SLOT, slot, f) || PrintedValue(f, slot).Some?
    ensures PrintedValue(f, slot).Some? ==> ValueFor(slot, f, PrintedValue(f, slot).value)
  {
  }

  lemma PrintedFieldGives(f: Field, slot: MemoryModule)
    ensures Has(EMPTY_SLOT, slot, f) || PrintedField(f, slot) != []
    ensures PrintedField(f, slot) != [] ==> Gives(slot, f, PrintedField(f, slot)[0])
  {
    PrintedValueIsFor(f, slot);
    var value := PrintedValue(f, slot);
    if value.Some? {
      assert KeyOf(f, PrintedKey(f));
      assert GivesBy(slot, f, PrintedField(f, slot)[0], "\t", PrintedKey(f), value.value);
    }
  }

  lemma PrintedHolds(f: Field, slot: MemoryModule)
    ensures forall line :: line in PrintedField(f, slot) ==> line in Printed(slot)
  {
  }

  lemma PrintedIsAbout(slot: MemoryModule, line: string)
    requires line in Printed(slot)
    ensures AboutSlot(slot, line)
  {
    var f :| line in PrintedField(f, slot);
    PrintedFieldGives(f, slot);
  }

  /** Every tidy slot can be printed so that it reads back. */
  lemma PrintedSlotDescribes(slot: MemoryModule)
    requires Tidy(slot)
    ensures Describe(Printed(slot), slot)
  {
    var lines := Printed(slot);
    forall k | 0 <= k < |lines| ensures AboutSlot(slot, lines[k]) {
      PrintedIsAbout(slot, lines[k]);
    }
    forall f ensures Has(EMPTY_SLOT, slot, f) || GivenIn(slot, f, lines) {
      PrintedFieldGives(f, slot);
      PrintedHolds(f, slot);
      if PrintedField(f, slot) != [] {
        var line := PrintedField(f, slot)[0];
        assert line in lines;
        var k :| 0 <= k < |lines| && lines[k] == line;
      }
    }
  }

  lemma DescribedSlot(lines: seq<string>, slot: MemoryModule)
    requires Describe(lines, slot)
    ensures ParseBlock(lines, EMPTY_SLOT) == slot && forall k :: 0 <= k < |lines| ==> !IsHeader(lines[k])
  {
    NoLineIsHeader(slot, lines);
    SlotReadsBack(lines, slot);
  }

  /** A report of one slot: the header, however indented, and its lines. It is listed exactly when it
      has a size. */
  lemma ReportReadsBack(indent: string, lines: seq<string>, slot: MemoryModule)
    requires AllSpace(indent) && Describe(lines, slot)
    requires IsLine(indent + "Memory Device") && forall k :: 0 <= k < |lines| ==> IsLine(lines[k])
    ensures Parsed(Unlines([indent + "Memory Device"] + lines)) == if slot.sizeGb.Some? then [slot] else []
  {
    HeaderReads(indent);
    DescribedSlot(lines, slot);
    ReportOfLines(indent + "Memory Device", lines);
  }
}
