/** The boot snippet that carries dom0's memory and CPU sizing, and its drift refresh. */
module GrubSizing {
  import opened Wrappers
  import opened Text
  import opened Numerals
  import opened Events

  type Cpus = n: nat | n < U32

  /** Boot memory and balloon ceiling in megabytes, and the number of CPUs. */
  datatype Sizing = Sizing(memMb: Word, maxMb: Word, vcpus: Cpus)

  const KEY := "GRUB_CMDLINE_XEN_DEFAULT="

  /** The comments before the sized lines and everything after them. */
  datatype Wording = Wording(head: seq<string>, tail: string) {
    predicate Valid() {
      forall i :: 0 <= i < |head| ==> IsLine(head[i]) && (head[i] == "" || head[i][0] == '#')
    }
  }

  function MemField(z: Sizing): string {
    Decimal(z.memMb) + ("M,max:" + (Decimal(z.maxMb) + "M"))
  }

  const OPTIONS := "dom0_vcpus_pin iommu=verbose,no-igfx " + "console=vga loglvl=all guest_loglvl=all\""

  function CommandLine(z: Sizing): string {
    KEY + "\"" + "dom0_mem=" + MemField(z) + " " + ("dom0_max_vcpus=" + (Decimal(z.vcpus) + (" " + OPTIONS)))
  }

  function SizeNotes(z: Sizing): seq<string> {
    [ "# `dom0_mem=" + MemField(z) + "`: start at " + Decimal(z.memMb) + "M,",
      "# allow ballooning up to " + Decimal(z.maxMb) + "M via `xl mem-set Domain-0`." ]
  }

  function Snippet(w: Wording, z: Sizing): string {
    Unlines(w.head + SizeNotes(z) + [CommandLine(z)]) + w.tail
  }

  // ---- reading the sizing back ----

  /** `<N>M`, or `<N>G` with the 64-bit multiplication wrapping. */
  function ParseMemToken(tok: string): (r: Option<Word>) {
    if tok != "" && tok[|tok| - 1] == 'M' then
      match ParseU64(tok[..|tok| - 1])
      case None => None
      case Some(n) => Some(n)
    else if tok != "" && tok[|tok| - 1] == 'G' then
      match ParseU64(tok[..|tok| - 1])
      case None => None
      case Some(g) => Some(g * 1024 % U64)
    else None
  }

  function FirstStarting(lines: seq<string>, key: string): Option<string> {
    if lines == [] then None
    else if StartsWith(lines[0], key) then Some(lines[0])
    else FirstStarting(lines[1..], key)
  }

  /** The first word after the first occurrence of an option's name. */
  function OptionWord(line: string, name: string): Option<string> {
    match SecondPiece(line, name)
    case None => None
    case Some(piece) => FirstWord(piece)
  }

  function ParseLine(line: string): Option<Sizing> {
    match OptionWord(line, "dom0_mem=")
    case None => None
    case Some(field) =>
      match SplitOnce(field, ",max:")
      case None => None
      case Some((startTok, maxTok)) =>
        match (ParseMemToken(startTok), ParseMemToken(maxTok), OptionWord(line, "dom0_max_vcpus="))
        case (Some(mem), Some(max), Some(word)) =>
          (match ParseU32(word)
           case None => None
           case Some(n) => Some(Sizing(mem, max, n)))
        case _ => None
  }

  function ParseSizing(text: string): Option<Sizing> {
    match FirstStarting(Lines(text), KEY)
    case None => None
    case Some(line) => ParseLine(line)
  }

  /** What a refresh writes: nothing when the sizing cannot be read or nothing has drifted. */
  function Refresh(w: Wording, current: string): Option<string> {
    match ParseSizing(current)
    case None => None
    case Some(z) => if current == Snippet(w, z) then None else Some(Snippet(w, z))
  }

  // ---- round trip ----

  /** The digits of a number, as a word: no space and none of the letters of the options. */
  lemma DecimalWord(n: nat)
    ensures Spaceless(Decimal(n))
    ensures forall i :: 0 <= i < |Decimal(n)| ==> '0' <= Decimal(n)[i] <= '9'
  {
    DigitsAreDigits(n, 10);
  }

  /** An option's word is found when its name does not occur earlier and the word does not hold
      the name's first letter. */
  lemma OptionWordFound(line: string, name: string, pre: string, word: string, tail: string)
    requires line == pre + name + word + " " + tail
    requires name != "" && name[0] != ' ' && word != "" && Spaceless(word) && name[0] !in word
    requires forall j :: 0 <= j < |pre| ==> !OccursAt(line, name, j)
    ensures OptionWord(line, name) == Some(word)
  {
    NameSplits(line, name, pre, word + " " + tail);
    WordBeforeName(word + " " + tail, name, word, tail);
  }

  lemma NameSplits(line: string, name: string, pre: string, rest: string)
    requires line == pre + name + rest && forall j :: 0 <= j < |pre| ==> !OccursAt(line, name, j)
    ensures SplitOnce(line, name) == Some((pre, rest))
  {
    assert line[|pre|..|pre| + |name|] == name;
    FindUnique(line, name, |pre|);
    assert line[..|pre|] == pre && line[|pre| + |name|..] == rest;
  }

  lemma WordBeforeName(rest: string, name: string, word: string, tail: string)
    requires rest == word + " " + tail
    requires name != "" && name[0] != ' ' && word != "" && Spaceless(word) && name[0] !in word
    ensures FirstWord(match Find(rest, name) case None => rest case Some(i) => rest[..i]) == Some(word)
  {
    match Find(rest, name)
    case None =>
      WordFirst(word, tail);
    case Some(i) =>
      FindOccurs(rest, name);
      OccursChar(rest, name, i, 0);
      WordChars(word, tail, i);
      assert rest[..i] == word + " " + rest[|word| + 1..i];
      WordFirst(word, rest[|word| + 1..i]);
  }

  lemma WordChars(word: string, tail: string, i: nat)
    requires i < |word + " " + tail|
    ensures i < |word| ==> (word + " " + tail)[i] in word
    ensures i == |word| ==> (word + " " + tail)[i] == ' '
  {
  }

  lemma WordFirst(word: string, tail: string)
    requires word != "" && Spaceless(word)
    ensures FirstWord(word + " " + tail) == Some(word)
  {
    var s := word + " " + tail;
    assert s == word + (" " + tail);
    assert !IsSpace(s[0]);
    UpToSpaceAt(word, " " + tail);
  }

  lemma MaxSplits(front: string, back: string)
    requires ',' !in front
    ensures SplitOnce(front + ",max:" + back, ",max:") == Some((front, back))
  {
    var f, i := front + ",max:" + back, |front|;
    forall j | 0 <= j < i ensures !OccursAt(f, ",max:", j) {
      assert f[j] == front[j] && front[j] in front;
      OccursChar(f, ",max:", j, 0);
    }
    assert f[i..i + 5] == ",max:";
    FindUnique(f, ",max:", i);
    assert f[..i] == front && f[i + 5..] == back;
  }

  // ---- a command line with any sizes ----

  /** A memory option's suffix, and the megabytes that a number with it stands for. */
  datatype Unit = Megabytes | Gigabytes {
    function Suffix(): string {
      if Megabytes? then "M" else "G"
    }

    function InMb(n: nat): nat {
      if Megabytes? then n else n * 1024
    }
  }

  /** A number with its suffix means that many megabytes, as long as they fit. */
  lemma MemTokenParses(n: nat, unit: Unit)
    requires unit.InMb(n) < U64
    ensures ParseMemToken(Decimal(n) + unit.Suffix()) == Some(unit.InMb(n))
  {
    var tok := Decimal(n) + unit.Suffix();
    assert tok[..|tok| - 1] == Decimal(n) && tok[|tok| - 1] == unit.Suffix()[0];
    DecimalParses(n, U64 - 1);
  }

  /** Other shapes mean nothing. */
  lemma OtherTokensDoNotParse(tok: string)
    requires tok == "" || (tok[|tok| - 1] != 'M' && tok[|tok| - 1] != 'G')
    ensures ParseMemToken(tok) == None
  {
  }

  function SizeField(mem: nat, memUnit: Unit, max: nat, maxUnit: Unit): string {
    Decimal(mem) + memUnit.Suffix() + ",max:" + (Decimal(max) + maxUnit.Suffix())
  }

  /** A command line with a given memory field, and anything after the CPU option. */
  function LineWith(field: string, cpus: nat, rest: string): string {
    KEY + "\"" + "dom0_mem=" + field + " " + ("dom0_max_vcpus=" + (Decimal(cpus) + (" " + rest)))
  }

  /** A memory field is a word, and does not hold the letter that both options start with. */
  predicate FieldWord(field: string) {
    Spaceless(field) && field != "" && 'd' !in field
  }

  lemma SizeFieldIsWord(a: string, b: string)
    requires Spaceless(a) && Spaceless(b) && 'd' !in a && 'd' !in b
    ensures FieldWord(a + ",max:" + b)
  {
  }

  lemma SizeFieldSplits(mem: nat, memUnit: Unit, max: nat, maxUnit: Unit)
    ensures FieldWord(SizeField(mem, memUnit, max, maxUnit))
    ensures SplitOnce(SizeField(mem, memUnit, max, maxUnit), ",max:") ==
      Some((Decimal(mem) + memUnit.Suffix(), Decimal(max) + maxUnit.Suffix()))
  {
    DecimalWord(mem);
    DecimalWord(max);
    SizeFieldIsWord(Decimal(mem) + memUnit.Suffix(), Decimal(max) + maxUnit.Suffix());
    MaxSplits(Decimal(mem) + memUnit.Suffix(), Decimal(max) + maxUnit.Suffix());
  }

  lemma NoDInKey()
    ensures 'd' !in KEY + "\""
  {
  }

  /** In a command line, the name of neither option occurs before its own place. */
  lemma OptionPlaces(field: string, cpus: nat, rest: string)
    requires FieldWord(field)
    ensures
      var line, pre := LineWith(field, cpus, rest), KEY + "\"";
      forall j :: 0 <= j < |pre| ==> !OccursAt(line, "dom0_mem=", j) && !OccursAt(line, "dom0_max_vcpus=", j)
    ensures
      var line, pre := LineWith(field, cpus, rest), KEY + "\"" + "dom0_mem=" + field + " ";
      forall j :: 0 <= j < |pre| ==> !OccursAt(line, "dom0_max_vcpus=", j)
  {
    var line, pre := LineWith(field, cpus, rest), KEY + "\"";
    NoDInKey();
    assert line[..|pre|] == pre;
    NoneWithoutD(line, pre);
    CpuPlace(field, line, pre, pre + "dom0_mem=" + field + " ");
  }

  lemma NoneWithoutD(line: string, pre: string)
    requires pre <= line && 'd' !in pre
    ensures forall j :: 0 <= j < |pre| ==> !OccursAt(line, "dom0_mem=", j) && !OccursAt(line, "dom0_max_vcpus=", j)
  {
    forall j | 0 <= j < |pre| ensures !OccursAt(line, "dom0_mem=", j) && !OccursAt(line, "dom0_max_vcpus=", j) {
      OccursChar(line, "dom0_mem=", j, 0);
      OccursChar(line, "dom0_max_vcpus=", j, 0);
      assert line[j] == pre[j] && pre[j] in pre;
    }
  }

  lemma CpuPlace(field: string, line: string, pre: string, longer: string)
    requires FieldWord(field) && longer == pre + "dom0_mem=" + field + " " && longer <= line
    requires forall j :: 0 <= j < |pre| ==> !OccursAt(line, "dom0_max_vcpus=", j)
    ensures forall j :: 0 <= j < |longer| ==> !OccursAt(line, "dom0_max_vcpus=", j)
  {
    forall j | |pre| <= j < |longer| ensures !OccursAt(line, "dom0_max_vcpus=", j) {
      OccursChar(line, "dom0_max_vcpus=", j, 0);
      if j == |pre| {
        assert line[j + 6] == longer[j + 6] == 'e';
        OccursChar(line, "dom0_max_vcpus=", j, 6);
      } else {
        assert line[j] == longer[j] != 'd';
      }
    }
  }

  lemma MemWordFound(field: string, cpus: nat, rest: string)
    requires FieldWord(field)
    ensures OptionWord(LineWith(field, cpus, rest), "dom0_mem=") == Some(field)
  {
    OptionPlaces(field, cpus, rest);
    var back := "dom0_max_vcpus=" + (Decimal(cpus) + (" " + rest));
    OptionWordFound(LineWith(field, cpus, rest), "dom0_mem=", KEY + "\"", field, back);
  }

  lemma CpuWordFound(field: string, cpus: nat, rest: string)
    requires FieldWord(field)
    ensures OptionWord(LineWith(field, cpus, rest), "dom0_max_vcpus=") == Some(Decimal(cpus))
  {
    var line, pre := LineWith(field, cpus, rest), KEY + "\"" + "dom0_mem=" + field + " ";
    OptionPlaces(field, cpus, rest);
    DecimalWord(cpus);
    assert line == pre + "dom0_max_vcpus=" + Decimal(cpus) + " " + rest;
    OptionWordFound(line, "dom0_max_vcpus=", pre, Decimal(cpus), rest);
  }

  /** A command line whose sizes are written with either suffix, and that goes on in any way, means
      the megabytes that its numbers stand for. */
  lemma LineMeansItsMegabytes(mem: nat, memUnit: Unit, max: nat, maxUnit: Unit, cpus: Cpus, rest: string)
    requires memUnit.InMb(mem) < U64 && maxUnit.InMb(max) < U64
    ensures ParseLine(LineWith(SizeField(mem, memUnit, max, maxUnit), cpus, rest)) ==
      Some(Sizing(memUnit.InMb(mem), maxUnit.InMb(max), cpus))
  {
    var field := SizeField(mem, memUnit, max, maxUnit);
    SizeFieldSplits(mem, memUnit, max, maxUnit);
    MemWordFound(field, cpus, rest);
    CpuWordFound(field, cpus, rest);
    MemTokenParses(mem, memUnit);
    MemTokenParses(max, maxUnit);
    DecimalParses(cpus, U32 - 1);
  }

  lemma FieldInMegabytes(z: Sizing)
    ensures MemField(z) == SizeField(z.memMb, Megabytes, z.maxMb, Megabytes)
  {
    var a, b := Decimal(z.memMb), Decimal(z.maxMb);
    assert a + ("M,max:" + (b + "M")) == (a + "M") + ",max:" + (b + "M");
  }

  lemma CommandLineParses(z: Sizing)
    ensures ParseLine(CommandLine(z)) == Some(z)
  {
    FieldInMegabytes(z);
    LineMeansItsMegabytes(z.memMb, Megabytes, z.maxMb, Megabytes, z.vcpus, OPTIONS);
  }

  // ---- the whole snippet ----

  /** The first line that starts with the key is the one that counts. */
  lemma {:induction false} FirstAfterComments(comments: seq<string>, line: string, rest: seq<string>)
    requires forall i :: 0 <= i < |comments| ==> !StartsWith(comments[i], KEY)
    requires StartsWith(line, KEY)
    ensures FirstStarting(comments + [line] + rest, KEY) == Some(line)
  {
    if comments != [] {
      assert (comments + [line] + rest)[1..] == comments[1..] + [line] + rest;
      FirstAfterComments(comments[1..], line, rest);
    }
  }

  lemma CommentsDoNotStart(comments: seq<string>)
    requires forall i :: 0 <= i < |comments| ==> comments[i] == "" || comments[i][0] == '#'
    ensures forall i :: 0 <= i < |comments| ==> !StartsWith(comments[i], KEY)
  {
    assert KEY[0] == 'G';
  }

  lemma {:induction false} LinesOfHead(head: seq<string>, rest: string)
    requires forall i :: 0 <= i < |head| ==> IsLine(head[i])
    ensures Lines(Unlines(head) + rest) == head + Lines(rest)
  {
    if head == [] {
      assert Unlines(head) + rest == rest;
    } else {
      assert Unlines(head) + rest == head[0] + "\n" + (Unlines(head[1..]) + rest);
      LinesStep(head[0], Unlines(head[1..]) + rest);
      LinesOfHead(head[1..], rest);
    }
  }

  /** Text without line breaks of either kind. */
  predicate Unbroken(s: string) {
    Free(s, {'\n', '\r'})
  }

  lemma UnbrokenParts(a: string, b: string)
    requires Unbroken(a) && Unbroken(b)
    ensures Unbroken(a + b) && IsLine(a + b)
  {
  }

  lemma UnbrokenDecimal(n: nat)
    ensures Unbroken(Decimal(n))
  {
    DecimalWord(n);
  }

  lemma UnbrokenMemField(z: Sizing)
    ensures Unbroken(MemField(z))
  {
    UnbrokenDecimal(z.memMb);
    UnbrokenDecimal(z.maxMb);
    UnbrokenParts(Decimal(z.maxMb), "M");
    UnbrokenParts("M,max:", Decimal(z.maxMb) + "M");
    UnbrokenParts(Decimal(z.memMb), "M,max:" + (Decimal(z.maxMb) + "M"));
  }

  lemma SizeNotesAreLines(z: Sizing)
    ensures IsLine(SizeNotes(z)[0]) && IsLine(SizeNotes(z)[1])
  {
    UnbrokenDecimal(z.memMb);
    UnbrokenDecimal(z.maxMb);
    UnbrokenMemField(z);
    UnbrokenParts("# `dom0_mem=", MemField(z));
    UnbrokenParts("# `dom0_mem=" + MemField(z), "`: start at ");
    UnbrokenParts("# `dom0_mem=" + MemField(z) + "`: start at ", Decimal(z.memMb));
    UnbrokenParts("# `dom0_mem=" + MemField(z) + "`: start at " + Decimal(z.memMb), "M,");
    UnbrokenParts("# allow ballooning up to ", Decimal(z.maxMb));
    UnbrokenParts("# allow ballooning up to " + Decimal(z.maxMb), "M via `xl mem-set Domain-0`.");
  }

  lemma UnbrokenFront(z: Sizing)
    ensures Unbroken(KEY + "\"" + "dom0_mem=" + MemField(z) + " ")
  {
    UnbrokenMemField(z);
    UnbrokenParts(KEY + "\"" + "dom0_mem=", MemField(z));
    UnbrokenParts(KEY + "\"" + "dom0_mem=" + MemField(z), " ");
  }

  lemma UnbrokenOptions()
    ensures Unbroken(OPTIONS)
  {
    UnbrokenParts("dom0_vcpus_pin iommu=verbose,no-igfx ", "console=vga loglvl=all guest_loglvl=all\"");
  }

  lemma UnbrokenBack(z: Sizing)
    ensures Unbroken("dom0_max_vcpus=" + (Decimal(z.vcpus) + (" " + OPTIONS)))
  {
    UnbrokenDecimal(z.vcpus);
    UnbrokenOptions();
    UnbrokenParts(" ", OPTIONS);
    UnbrokenParts(Decimal(z.vcpus), " " + OPTIONS);
    UnbrokenParts("dom0_max_vcpus=", Decimal(z.vcpus) + (" " + OPTIONS));
  }

  lemma CommandLineIsLine(z: Sizing)
    ensures IsLine(CommandLine(z))
  {
    var front := KEY + "\"" + "dom0_mem=" + MemField(z) + " ";
    var back := "dom0_max_vcpus=" + (Decimal(z.vcpus) + (" " + OPTIONS));
    UnbrokenFront(z);
    UnbrokenBack(z);
    UnbrokenParts(front, back);
    assert CommandLine(z) == front + back;
  }

  /** The generated snippet reads back as exactly the sizes it was made from. */
  lemma SnippetParsesBack(w: Wording, z: Sizing)
    requires w.Valid()
    ensures ParseSizing(Snippet(w, z)) == Some(z)
  {
    var comments, line := w.head + SizeNotes(z), CommandLine(z);
    SizeNotesAreLines(z);
    CommandLineIsLine(z);
    LinesOfHead(comments + [line], w.tail);
    CommentsDoNotStart(comments);
    FirstAfterComments(comments, line, Lines(w.tail));
    CommandLineParses(z);
  }

  /** A refresh keeps the sizing of whatever text it rewrites, and what it writes does not drift:
      a second refresh leaves it alone. A text is left alone at once exactly when its sizing
      cannot be read or it is already the snippet for it. */
  lemma RefreshKeepsSizing(w: Wording, current: string)
    requires w.Valid()
    ensures Refresh(w, current).Some? ==>
      ParseSizing(Refresh(w, current).value) == ParseSizing(current) && Refresh(w, Refresh(w, current).value) == None
    ensures Refresh(w, current).None? <==>
      ParseSizing(current).None? || exists z :: current == Snippet(w, z)
  {
    match ParseSizing(current)
    case None =>
    case Some(z) => SnippetParsesBack(w, z);
    forall z | current == Snippet(w, z) ensures ParseSizing(current) == Some(z) {
      SnippetParsesBack(w, z);
    }
  }

  /** A text whose first line with the key has sizes with either suffix is refreshed to the snippet for
      the megabytes that its numbers stand for, unless it is that snippet already. */
  lemma RefreshWritesItsMegabytes(
      w: Wording, before: seq<string>, mem: nat, memUnit: Unit, max: nat, maxUnit: Unit, cpus: Cpus,
      rest: string, after: string)
    requires memUnit.InMb(mem) < U64 && maxUnit.InMb(max) < U64
    requires forall i :: 0 <= i < |before| ==> IsLine(before[i]) && !StartsWith(before[i], KEY)
    requires IsLine(LineWith(SizeField(mem, memUnit, max, maxUnit), cpus, rest))
    ensures
      var text := Unlines(before + [LineWith(SizeField(mem, memUnit, max, maxUnit), cpus, rest)]) + after;
      var z := Sizing(memUnit.InMb(mem), maxUnit.InMb(max), cpus);
      Refresh(w, text) == if text == Snippet(w, z) then None else Some(Snippet(w, z))
  {
    LineMeansItsMegabytes(mem, memUnit, max, maxUnit, cpus, rest);
    LineStarts(SizeField(mem, memUnit, max, maxUnit), cpus, rest);
    RefreshByLine(w, before, LineWith(SizeField(mem, memUnit, max, maxUnit), cpus, rest), after);
  }

  lemma LineStarts(field: string, cpus: nat, rest: string)
    ensures StartsWith(LineWith(field, cpus, rest), KEY)
  {
    assert LineWith(field, cpus, rest)[..|KEY|] == KEY;
  }

  lemma RefreshByLine(w: Wording, before: seq<string>, line: string, after: string)
    requires forall i :: 0 <= i < |before| ==> IsLine(before[i]) && !StartsWith(before[i], KEY)
    requires IsLine(line) && StartsWith(line, KEY) && ParseLine(line).Some?
    ensures
      var text, z := Unlines(before + [line]) + after, ParseLine(line).value;
      Refresh(w, text) == if text == Snippet(w, z) then None else Some(Snippet(w, z))
  {
    FirstKeyLineCounts(before, line, after);
    RefreshOf(w, Unlines(before + [line]) + after, ParseLine(line).value);
  }

  lemma FirstKeyLineCounts(before: seq<string>, line: string, after: string)
    requires forall i :: 0 <= i < |before| ==> IsLine(before[i]) && !StartsWith(before[i], KEY)
    requires IsLine(line) && StartsWith(line, KEY)
    ensures ParseSizing(Unlines(before + [line]) + after) == ParseLine(line)
  {
    LinesOfHead(before + [line], after);
    FirstAfterComments(before, line, Lines(after));
  }

  lemma RefreshOf(w: Wording, text: string, z: Sizing)
    requires ParseSizing(text) == Some(z)
    ensures Refresh(w, text) == if text == Snippet(w, z) then None else Some(Snippet(w, z))
  {
  }
}
