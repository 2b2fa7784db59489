/** The memory slots reported by `dmidecode --type 17`. */
module Dmi {
  import opened Wrappers
  import opened Text
  import opened Numerals
  import opened Events

  datatype MemoryModule = MemoryModule(
    locator: string,
    sizeGb: Option<Word>,
    kind: Option<string>,
    speedMts: Option<nat>,
    manufacturer: Option<string>,
    partNumber: Option<string>)

  const EMPTY_SLOT := MemoryModule("", None, None, None, None, None)

  /** The size in gigabytes; an empty slot, an unknown unit or a malformed number gives none. */
  function SizeOf(v: string): Option<Word> {
    if v == "No Module Installed" || v == "Unknown" then None
    else
      match (FirstWord(v), SecondWord(v))
      case (Some(amount), Some(unit)) =>
        (match ParseU64(amount)
         case None => None
         case Some(n) => if unit == "GB" then Some(n) else if unit == "MB" then Some(n / 1024) else None)
      case _ => None
  }

  function SpeedOf(v: string): Option<nat> {
    if v == "Unknown" then None
    else
      match FirstWord(v)
      case None => None
      case Some(w) => ParseU32(w)
  }

  /** A field line updates the slot it belongs to; a value that says nothing leaves it alone. */
  function WithField(m: MemoryModule, line: string): MemoryModule {
    match SplitOnce(Trim(line), ": ")
    case None => m
    case Some((key, value)) =>
      Assigned(m, Trim(key), Trim(value))
  }

  function Assigned(m: MemoryModule, k: string, v: string): MemoryModule {
    if k == "Locator" then m.(locator := v)
    else if k == "Size" then (if SizeOf(v).Some? then m.(sizeGb := SizeOf(v)) else m)
    else if k == "Type" then (if v != "Unknown" then m.(kind := Some(v)) else m)
    else if k == "Configured Memory Speed" || k == "Speed" then
      (if SpeedOf(v).Some? then m.(speedMts := SpeedOf(v)) else m)
    else if k == "Manufacturer" then (if v != "" && v != "Unknown" then m.(manufacturer := Some(v)) else m)
    else if k == "Part Number" then (if v != "" && v != "Unknown" then m.(partNumber := Some(v)) else m)
    else m
  }

  predicate IsHeader(line: string) {
    Trim(line) == "Memory Device"
  }

  /** A slot is reported when it is being read and has a size. */
  function Reported(current: Option<MemoryModule>): seq<MemoryModule> {
    if current.Some? && current.value.sizeGb.Some? then [current.value] else []
  }

  /** The single pass over the lines. */
  function Stream(lines: seq<string>, current: Option<MemoryModule>): seq<MemoryModule>
    decreases |lines|
  {
    if lines == [] then Reported(current)
    else if IsHeader(lines[0]) then Reported(current) + Stream(lines[1..], Some(EMPTY_SLOT))
    else Stream(lines[1..], if current.None? then None else Some(WithField(current.value, lines[0])))
  }

  method ParseDmidecodeType17(s: string) returns (out: seq<MemoryModule>)
    ensures out == Parsed(s)
  {
    out := [];
    var current: Option<MemoryModule> := None;
    var lines := Lines(s);
    assert lines[0..] == lines;
    for i := 0 to |lines|
      invariant out + Stream(lines[i..], current) == Stream(lines, None)
    {
      StreamStep(lines, i, current);
      if IsHeader(lines[i]) {
        Reassociate(out, Reported(current), Stream(lines[i + 1..], Some(EMPTY_SLOT)));
        if current.Some? && current.value.sizeGb.Some? {
          out := out + [current.value];
        }
        current := Some(EMPTY_SLOT);
        continue;
      }
      if current.None? {
        continue;
      }
      current := Some(WithField(current.value, lines[i]));
    }
    if current.Some? && current.value.sizeGb.Some? {
      out := out + [current.value];
    }
    BlockwiseParse(lines);
  }

  lemma Reassociate(out: seq<MemoryModule>, more: seq<MemoryModule>, rest: seq<MemoryModule>)
    ensures out + (more + rest) == (out + more) + rest
    ensures more == [] ==> out + more == out
  {
  }

  lemma StreamStep(lines: seq<string>, i: nat, current: Option<MemoryModule>)
    requires i < |lines|
    ensures Stream(lines[i..], current) ==
      if IsHeader(lines[i]) then Reported(current) + Stream(lines[i + 1..], Some(EMPTY_SLOT))
      else Stream(lines[i + 1..], if current.None? then None else Some(WithField(current.value, lines[i])))
  {
    assert lines[i..][1..] == lines[i + 1..];
  }

  // ---- block by block ----

  /** Position of the next header, or the end. */
  function NextHeader(lines: seq<string>): (n: nat)
    ensures n <= |lines|
  {
    if lines == [] || IsHeader(lines[0]) then 0 else 1 + NextHeader(lines[1..])
  }

  /** The lines after each header, up to the next one; what comes before the first is dropped. */
  function Blocks(lines: seq<string>): seq<seq<string>>
    decreases |lines|
  {
    var h := NextHeader(lines);
    if h == |lines| then []
    else
      var rest := lines[h + 1..];
      [rest[..NextHeader(rest)]] + Blocks(rest[NextHeader(rest)..])
  }

  /** One block, read on its own from an empty slot. */
  function ParseBlock(block: seq<string>, m: MemoryModule): MemoryModule
    decreases |block|
  {
    if block == [] then m else ParseBlock(block[1..], WithField(m, block[0]))
  }

  /** The slots of the blocks that have a size, in order. */
  function Populated(blocks: seq<seq<string>>): seq<MemoryModule> {
    if blocks == [] then [] else Reported(Some(ParseBlock(blocks[0], EMPTY_SLOT))) + Populated(blocks[1..])
  }

  function Parsed(s: string): seq<MemoryModule> {
    Populated(Blocks(Lines(s)))
  }

  /** Lines before a header belong to the slot being read, if any. */
  lemma {:induction false} StreamToHeader(lines: seq<string>, current: Option<MemoryModule>)
    ensures
      var h := NextHeader(lines);
      Stream(lines, current) ==
        Stream(lines[h..], if current.None? then None else Some(ParseBlock(lines[..h], current.value)))
    decreases |lines|
  {
    if lines != [] && !IsHeader(lines[0]) {
      var next := if current.None? then None else Some(WithField(current.value, lines[0]));
      StreamToHeader(lines[1..], next);
      var h := NextHeader(lines);
      assert lines[1..][h - 1..] == lines[h..];
      assert lines[..h][1..] == lines[1..][..h - 1];
    } else {
      assert lines[0..] == lines;
    }
  }

  lemma {:induction false} HeaderAtNext(lines: seq<string>)
    ensures NextHeader(lines) < |lines| ==> IsHeader(lines[NextHeader(lines)])
  {
    if lines != [] && !IsHeader(lines[0]) {
      HeaderAtNext(lines[1..]);
    }
  }

  /** From a header on, the stream is the blocks. */
  lemma {:induction false} StreamIsBlocks(lines: seq<string>, current: Option<MemoryModule>)
    requires lines == [] || IsHeader(lines[0])
    ensures Stream(lines, current) == Reported(current) + Populated(Blocks(lines))
    decreases |lines|
  {
    if lines != [] {
      var rest := lines[1..];
      var h := NextHeader(rest);
      StreamToHeader(rest, Some(EMPTY_SLOT));
      HeaderAtNext(rest);
      StreamIsBlocks(rest[h..], Some(ParseBlock(rest[..h], EMPTY_SLOT)));
      BlocksFromHeader(lines);
      PopulatedCons(rest[..h], Blocks(rest[h..]));
    }
  }

  lemma BlocksFromHeader(lines: seq<string>)
    requires lines != [] && IsHeader(lines[0])
    ensures
      var rest := lines[1..];
      Blocks(lines) == [rest[..NextHeader(rest)]] + Blocks(rest[NextHeader(rest)..])
  {
    assert NextHeader(lines) == 0;
  }

  lemma PopulatedCons(block: seq<string>, blocks: seq<seq<string>>)
    ensures Populated([block] + blocks) == Reported(Some(ParseBlock(block, EMPTY_SLOT))) + Populated(blocks)
  {
    assert ([block] + blocks)[1..] == blocks;
  }

  /** The single pass equals reading every block on its own: no field of one slot leaks into another. */
  lemma BlockwiseParse(lines: seq<string>)
    ensures Stream(lines, None) == Populated(Blocks(lines))
  {
    var h := NextHeader(lines);
    StreamToHeader(lines, None);
    HeaderAtNext(lines);
    StreamIsBlocks(lines[h..], None);
    assert NextHeader(lines[h..]) == 0 by {
      if h < |lines| { assert lines[h..][0] == lines[h]; }
    }
    assert h < |lines| ==> lines[h..][1..] == lines[h + 1..];
  }

  /** A header ends whatever came before it. */
  lemma {:induction false} StreamConcat(a: seq<string>, b: seq<string>, current: Option<MemoryModule>)
    requires b != [] && IsHeader(b[0])
    ensures Stream(a + b, current) == Stream(a, current) + Stream(b, None)
    decreases |a|
  {
    if a == [] {
      assert a + b == b;
    } else {
      assert (a + b)[1..] == a[1..] + b;
      StreamConcat(a[1..], b, if IsHeader(a[0]) then Some(EMPTY_SLOT)
                              else if current.None? then None else Some(WithField(current.value, a[0])));
    }
  }

  /** Reports may be read apart and together: parsing distributes over joining two texts where the
      second starts with a slot's header. */
  lemma ParseDistributes(s: string, t: string)
    requires Lines(t) != [] && IsHeader(Lines(t)[0])
    ensures Parsed(s + "\n" + t) == Parsed(s + "\n") + Parsed(t)
  {
    LinesConcat(s, t);
    BlockwiseParse(Lines(s + "\n" + t));
    BlockwiseParse(Lines(s + "\n"));
    BlockwiseParse(Lines(t));
    StreamConcat(Lines(s + "\n"), Lines(t), None);
  }

  /** Every reported slot has a size, and its text is one of the blocks. */
  lemma {:induction false} ReportedSlotsHaveSizes(blocks: seq<seq<string>>, k: nat)
    requires k < |Populated(blocks)|
    ensures Populated(blocks)[k].sizeGb.Some?
    ensures exists b :: b in blocks && Populated(blocks)[k] == ParseBlock(b, EMPTY_SLOT)
  {
    var first := Reported(Some(ParseBlock(blocks[0], EMPTY_SLOT)));
    if k >= |first| {
      ReportedSlotsHaveSizes(blocks[1..], k - |first|);
      var b :| b in blocks[1..] && Populated(blocks[1..])[k - |first|] == ParseBlock(b, EMPTY_SLOT);
      assert b in blocks;
    } else {
      assert blocks[0] in blocks;
    }
  }
}
