/** What the scanner reads off the lines of a GRUB configuration, whatever their indentation and quoting. */
module GrubLines {
  import opened Wrappers
  import opened Text
  import opened GrubPath
  import opened GrubMenus

  /** An id in quotes of either kind, or bare. */
  function Quoted(quote: Option<char>, id: string): string {
    match quote
    case Some(q) => [q] + (id + [q])
    case None => id
  }

  /** A line that opens a block: what comes before its id, the id, and what comes after. */
  function BlockLine(title: string, gap: string, quote: Option<char>, id: string, tail: string): string {
    title + ("--id" + (gap + (Quoted(quote, id) + tail)))
  }

  /** Quotes enclose any text without them; a bare id ends at white space or a brace. */
  predicate Readable(quote: Option<char>, id: string, tail: string) {
    match quote
    case Some(q) => (q == '\'' || q == '"') && q !in id
    case None =>
      && id != "" && id[0] != '\'' && id[0] != '"' && Spaceless(id) && '{' !in id
      && tail != "" && (IsSpace(tail[0]) || tail[0] == '{')
  }

  /** The option does not start earlier, not even across the title's end. */
  predicate NoOption(title: string) {
    forall j :: 0 <= j < |title| ==> !OccursAt(title + "--id", "--id", j)
  }

  lemma OptionFound(title: string, rest: string)
    requires NoOption(title)
    ensures SplitOnce(title + ("--id" + rest), "--id") == Some((title, rest))
  {
    var line, short := title + ("--id" + rest), title + "--id";
    forall j | 0 <= j < |title| ensures !OccursAt(line, "--id", j) {
      assert line[j..j + 4] == short[j..j + 4];
      assert !OccursAt(short, "--id", j);
    }
    assert line[|title|..|title| + 4] == "--id";
    FindUnique(line, "--id", |title|);
    assert line[..|title|] == title && line[|title| + 4..] == rest;
  }

  lemma ClosingQuote(q: char, id: string, tail: string)
    requires q !in id
    ensures SplitOnce(id + ([q] + tail), [q]) == Some((id, tail))
  {
    var s := id + ([q] + tail);
    forall j | 0 <= j < |id| ensures !OccursAt(s, [q], j) {
      OccursChar(s, [q], j, 0);
      assert s[j] in id;
    }
    assert s[|id|..|id| + 1] == [q];
    FindUnique(s, [q], |id|);
    assert s[..|id|] == id && s[|id| + 1..] == tail;
  }

  lemma {:induction false} BareEnd(id: string, tail: string)
    requires Spaceless(id) && '{' !in id && tail != "" && (IsSpace(tail[0]) || tail[0] == '{')
    ensures UnquotedEnd(id + tail) == Some(|id|)
  {
    if id == "" {
      assert id + tail == tail;
    } else {
      assert (id + tail)[1..] == id[1..] + tail;
      BareEnd(id[1..], tail);
    }
  }

  /** What follows the option reads as the id. */
  lemma IdReads(gap: string, quote: Option<char>, id: string, tail: string)
    requires AllSpace(gap) && Readable(quote, id, tail)
    ensures TrimStart(gap + (Quoted(quote, id) + tail)) == Quoted(quote, id) + tail
    ensures quote.Some? ==> (Quoted(quote, id) + tail)[1..] == id + ([quote.value] + tail)
  {
    var s := Quoted(quote, id) + tail;
    assert quote.Some? ==> s[0] == quote.value;
    assert quote.None? ==> s[0] == id[0];
    TrimStartSkips(gap, s);
  }

  /** The id of a block of the given kind, in any of the three ways to write it. */
  lemma BlockLineReads(title: string, kind: string, gap: string, quote: Option<char>, id: string, tail: string)
    requires NoOption(title) && StartsWith(title, kind) && AllSpace(gap) && Readable(quote, id, tail)
    ensures BlockId(BlockLine(title, gap, quote, id, tail), kind) == Some(id)
  {
    var line, rest := BlockLine(title, gap, quote, id, tail), gap + (Quoted(quote, id) + tail);
    assert line[..|title|] == title && kind <= line;
    OptionFound(title, rest);
    IdReads(gap, quote, id, tail);
    match quote
    case Some(q) => ClosingQuote(q, id, tail);
    case None =>
      BareEnd(id, tail);
      assert (id + tail)[..|id|] == id;
  }

  /** Without the option there is no id. */
  lemma NoIdWithoutOption(line: string, kind: string)
    requires forall i: nat :: !OccursAt(line, "--id", i)
    ensures BlockId(line, kind) == None
  {
    ContainsIff(line, "--id");
  }

  /** Indentation does not matter to any line. */
  lemma IndentIsIgnored(indent: string, line: string)
    requires AllSpace(indent)
    ensures TrimStart(indent + line) == TrimStart(line)
    ensures SubmenuId(indent + line) == SubmenuId(line) && XenEntryId(indent + line) == XenEntryId(line)
  {
    TrimStartSkips(indent, line);
  }

  /** One of the phrases that mark a Xen entry stands somewhere in the text. */
  ghost predicate NamesXen(t: string) {
    || (exists i: nat :: OccursAt(t, "with Xen hypervisor", i))
    || (exists i: nat :: OccursAt(t, "Xen 4", i))
    || (exists i: nat :: OccursAt(t, "xen.gz", i))
  }

  lemma NamesXenIff(t: string)
    ensures MentionsXen(t) <==> NamesXen(t)
  {
    ContainsIff(t, "with Xen hypervisor");
    ContainsIff(t, "Xen 4");
    ContainsIff(t, "xen.gz");
  }

  /** An entry's line, however indented, is a Xen entry exactly when it names Xen. */
  lemma EntryLineReads(indent: string, title: string, gap: string, quote: Option<char>, id: string, tail: string)
    requires AllSpace(indent) && AllSpace(gap) && Readable(quote, id, tail)
    requires NoOption(title) && StartsWith(title, "menuentry")
    ensures
      var line := BlockLine(title, gap, quote, id, tail);
      && SubmenuId(indent + line) == None
      && (NamesXen(line) ==> XenEntryId(indent + line) == Some(id))
      && (!NamesXen(line) ==> XenEntryId(indent + line) == None)
  {
    var line := BlockLine(title, gap, quote, id, tail);
    assert line[0] == title[0] == 'm';
    BlockLineReads(title, "menuentry", gap, quote, id, tail);
    IndentIsIgnored(indent, line);
    XenIsNoSubmenu(line);
    NamesXenIff(line);
  }

  /** And a submenu's line opens that submenu. */
  lemma SubmenuLineReads(indent: string, title: string, gap: string, quote: Option<char>, id: string, tail: string)
    requires AllSpace(indent) && AllSpace(gap) && Readable(quote, id, tail)
    requires NoOption(title) && StartsWith(title, "submenu")
    ensures SubmenuId(indent + BlockLine(title, gap, quote, id, tail)) == Some(id)
  {
    var line := BlockLine(title, gap, quote, id, tail);
    assert line[0] == title[0] == 's';
    BlockLineReads(title, "submenu", gap, quote, id, tail);
    IndentIsIgnored(indent, line);
  }

  // ---- a printed menu ----

  /** A submenu holding one Xen entry, indented. */
  function PrintedMenu(menu: string, indent: string, id: string): Config {
    Submenu(menu, Entry(indent + Header(XEN_TITLE, id), [indent + "}"], End), End)
  }

  lemma IndentedEntry(indent: string, id: string)
    requires AllSpace(indent) && PlainId(id)
    ensures
      var c := Entry(indent + Header(XEN_TITLE, id), [indent + "}"], End);
      WellFormed(c) && forall menus, first :: FirstXen(c, menus, first) == Some(Place(menus, first, id))
  {
    var header, closer := indent + Header(XEN_TITLE, id), indent + "}";
    XenHeader(id);
    CloserIsInert();
    IndentIsIgnored(indent, Header(XEN_TITLE, id));
    IndentIsIgnored(indent, "}");
    assert ([header] + [closer])[1..] == [closer];
    assert Steady([closer], 1);
  }

  /** A printed menu with its entry indented is scanned to the entry's full path. */
  lemma PrintedMenuIsFound(menu: string, indent: string, id: string)
    requires PlainId(menu) && PlainId(id) && AllSpace(indent)
    requires '\n' !in menu && '\n' !in id && '\n' !in indent
    ensures ScanFrom(START, Lines(Unlines(Flatten(PrintedMenu(menu, indent, id))))) == Some(menu + ">" + id)
  {
    var entry := Entry(indent + Header(XEN_TITLE, id), [indent + "}"], End);
    IndentedEntry(indent, id);
    SubmenuWellFormed(menu, entry, End);
    InSubmenu(menu, entry, End, [], true);
    assert [] + [menu] == [menu];
    ScanOf(Submenu(menu, entry, End), Place([menu], true, id));
    MenuLines(menu, indent, id);
    LinesOfUnlines(Flatten(PrintedMenu(menu, indent, id)));
  }

  lemma HeaderIsLine(title: string, id: string)
    requires '\n' !in title && '\n' !in id
    ensures IsLine(Header(title, id))
  {
  }

  lemma IndentedIsLine(indent: string, line: string)
    requires '\n' !in indent && IsLine(line) && line != ""
    ensures IsLine(indent + line)
  {
    var s := indent + line;
    assert s[|s| - 1] == line[|line| - 1];
    assert WithoutCr(line) == line ==> line[|line| - 1] != '\r';
    forall i | 0 <= i < |s| ensures s[i] != '\n' {
      assert i < |indent| ==> s[i] in indent;
      assert i >= |indent| ==> s[i] == line[i - |indent|];
    }
  }

  lemma MenuLines(menu: string, indent: string, id: string)
    requires '\n' !in menu && '\n' !in id && '\n' !in indent
    ensures
      var lines := Flatten(PrintedMenu(menu, indent, id));
      forall i :: 0 <= i < |lines| ==> IsLine(lines[i])
  {
    var lines := Flatten(PrintedMenu(menu, indent, id));
    var header, closer := indent + Header(XEN_TITLE, id), indent + "}";
    HeaderIsLine(SUBMENU_TITLE, menu);
    HeaderIsLine(XEN_TITLE, id);
    IndentedIsLine(indent, Header(XEN_TITLE, id));
    IndentedIsLine(indent, "}");
    assert Flatten(Entry(header, [closer], End)) == [header, closer];
    assert lines == [Header(SUBMENU_TITLE, menu)] + [header, closer] + ["}"];
  }
}
