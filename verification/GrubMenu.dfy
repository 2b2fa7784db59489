/** Menu lines as a GRUB configuration generator prints them, and configurations made of them. */
module GrubMenus {
  import opened Wrappers
  import opened Text
  import opened GrubPath

  const XEN_TITLE := "menuentry 'Ubuntu, with Xen hypervisor' "

  const SUBMENU_TITLE := "submenu 'Advanced options' "

  /** A block's first line: its title, its id in quotes, and the brace that it leaves open. */
  function Header(title: string, id: string): string {
    title + ("--id" + (" '" + (id + "' {")))
  }

  predicate PlainId(id: string) {
    forall i :: 0 <= i < |id| ==> id[i] != '\'' && id[i] != '{' && id[i] != '}'
  }

  predicate PlainTitle(title: string) {
    && title != "" && !IsSpace(title[0])
    && forall i :: 0 <= i < |title| ==> title[i] != '-' && title[i] != '{' && title[i] != '}'
  }

  /** The id of a printed header reads back. */
  lemma HeaderReads(title: string, kind: string, id: string)
    requires PlainTitle(title) && StartsWith(title, kind) && PlainId(id)
    ensures TrimStart(Header(title, id)) == Header(title, id)
    ensures BlockId(Header(title, id), kind) == Some(id)
  {
    var line, rest := Header(title, id), " '" + (id + "' {");
    assert line[..|title|] == title && kind <= line;
    OptionSplits(title, rest);
    QuotedReads(id, " {");
    QuoteFollows(id + "' {");
    assert id + "' {" == id + "'" + " {";
  }

  lemma OptionSplits(title: string, rest: string)
    requires PlainTitle(title)
    ensures SplitOnce(title + ("--id" + rest), "--id") == Some((title, rest))
  {
    var line := title + ("--id" + rest);
    forall j | 0 <= j < |title| ensures !OccursAt(line, "--id", j) {
      OccursChar(line, "--id", j, 0);
    }
    assert line[|title|..|title| + 4] == "--id";
    FindUnique(line, "--id", |title|);
    assert line[..|title|] == title && line[|title| + 4..] == rest;
  }

  lemma QuoteFollows(quoted: string)
    ensures TrimStart(" '" + quoted) == "'" + quoted && ("'" + quoted)[1..] == quoted
  {
    assert (" '" + quoted)[1..] == "'" + quoted;
  }

  /** Text up to the closing quote. */
  lemma QuotedReads(id: string, tail: string)
    requires PlainId(id)
    ensures SplitOnce(id + "'" + tail, "'") == Some((id, tail))
  {
    var s := id + "'" + tail;
    forall j | 0 <= j < |id| ensures !OccursAt(s, "'", j) {
      OccursChar(s, "'", j, 0);
    }
    assert s[|id|..|id| + 1] == "'";
    FindUnique(s, "'", |id|);
    assert s[..|id|] == id && s[|id| + 1..] == tail;
  }

  lemma {:induction false} CountConcat(a: string, b: string, c: char)
    ensures Count(a + b, c) == Count(a, c) + Count(b, c)
  {
    if a == "" {
      assert a + b == b;
    } else {
      assert (a + b)[1..] == a[1..] + b;
      CountConcat(a[1..], b, c);
    }
  }

  lemma {:induction false} CountNone(a: string, c: char)
    requires forall i :: 0 <= i < |a| ==> a[i] != c
    ensures Count(a, c) == 0
  {
    if a != "" {
      CountNone(a[1..], c);
    }
  }

  /** A printed header opens one brace. */
  lemma HeaderOpens(title: string, id: string)
    requires PlainTitle(title) && PlainId(id)
    ensures Net(Header(title, id)) == 1
  {
    var front := title + ("--id" + (" '" + (id + "' ")));
    assert Header(title, id) == front + "{";
    CountNone(front, '{');
    CountNone(front, '}');
    CountConcat(front, "{", '{');
    CountConcat(front, "{", '}');
    assert Count("{", '{') == 1 && Count("{", '}') == 0;
  }

  lemma TitleMentionsXen(rest: string)
    ensures MentionsXen(XEN_TITLE + rest)
  {
    var before, words, after := "menuentry 'Ubuntu, ", "with Xen hypervisor", "' ";
    var line := XEN_TITLE + rest;
    assert XEN_TITLE == before + words + after;
    assert line == before + (words + (after + rest));
    assert line[|before|..|before| + |words|] == words;
    FoundFrom(line, words, 0, |before|);
  }

  lemma XenIsNoSubmenu(line: string)
    requires line != "" && line[0] == 'm'
    ensures BlockId(line, "submenu").None?
  {
    assert "submenu"[0] == 's';
  }

  lemma XenHeader(id: string)
    requires PlainId(id)
    ensures SubmenuId(Header(XEN_TITLE, id)).None? && XenEntryId(Header(XEN_TITLE, id)) == Some(id)
    ensures Net(TrimStart(Header(XEN_TITLE, id))) == 1
  {
    assert XEN_TITLE[0] == 'm' && XEN_TITLE[..9] == "menuentry";
    HeaderReads(XEN_TITLE, "menuentry", id);
    HeaderOpens(XEN_TITLE, id);
    TitleMentionsXen("--id" + (" '" + (id + "' {")));
    IsXenHeader(Header(XEN_TITLE, id), id);
  }

  lemma IsXenHeader(line: string, id: string)
    requires TrimStart(line) == line && line != "" && line[0] == 'm'
    requires BlockId(line, "menuentry") == Some(id) && MentionsXen(line)
    ensures SubmenuId(line).None? && XenEntryId(line) == Some(id)
  {
    XenIsNoSubmenu(line);
  }

  lemma SubmenuHeader(id: string)
    requires PlainId(id)
    ensures SubmenuId(Header(SUBMENU_TITLE, id)) == Some(id)
    ensures Net(TrimStart(Header(SUBMENU_TITLE, id))) == 1
  {
    HeaderReads(SUBMENU_TITLE, "submenu", id);
    HeaderOpens(SUBMENU_TITLE, id);
  }

  lemma CloserIsInert()
    ensures Inert("}") && TrimStart("}") == "}" && Net("}") == -1
  {
    assert "}"[0] != "submenu"[0] && "}"[0] != "menuentry"[0];
    assert Count("}", '{') == 0 && Count("}", '}') == 1;
  }

  /** A Xen entry with nothing in it but its closing brace. */
  function XenEntry(id: string): Config {
    Entry(Header(XEN_TITLE, id), ["}"], End)
  }

  function Submenu(id: string, children: Config, next: Config): Config {
    Menu(Header(SUBMENU_TITLE, id), children, "}", next)
  }

  lemma XenEntryWellFormed(id: string)
    requires PlainId(id)
    ensures WellFormed(XenEntry(id))
  {
    var header := Header(XEN_TITLE, id);
    XenHeader(id);
    CloserIsInert();
    assert ([header] + ["}"])[1..] == ["}"];
    assert Steady(["}"], 1);
  }

  lemma SubmenuWellFormed(id: string, children: Config, next: Config)
    requires PlainId(id) && WellFormed(children) && WellFormed(next)
    ensures WellFormed(Submenu(id, children, next))
  {
    SubmenuHeader(id);
    CloserIsInert();
  }

  lemma ScanOf(c: Config, place: Place)
    requires WellFormed(c) && FirstXen(c, [], true) == Some(place)
    ensures ScanFrom(START, Flatten(c)) == Some(Label(Named(place.menus, place.first), place.id))
    ensures TruePath(c) == Some(FullPath(place.menus, place.id))
  {
    ScanTree(c, [], START, [], true);
    assert Flatten(c) + [] == Flatten(c);
  }

  lemma InSubmenu(id: string, children: Config, next: Config, menus: seq<string>, first: bool)
    requires PlainId(id)
    ensures FirstXen(Submenu(id, children, next), menus, first) ==
      var inside := FirstXen(children, menus + [id], true);
      if inside.Some? then inside else FirstXen(next, menus, false)
  {
    SubmenuHeader(id);
  }

  lemma AtEntry(id: string, menus: seq<string>, first: bool)
    requires PlainId(id)
    ensures FirstXen(XenEntry(id), menus, first) == Some(Place(menus, first, id))
  {
    XenHeader(id);
  }

  lemma PathOfOne(menu: string, id: string)
    ensures FullPath([menu], id) == menu + ">" + id
  {
    assert [menu][1..] == [];
  }

  /** An entry in a submenu in a submenu: the scanner leaves out the outer one. */
  lemma NestedSubmenuIsLost(outer: string, inner: string, id: string)
    requires PlainId(outer) && PlainId(inner) && PlainId(id)
    ensures
      var c := Submenu(outer, Submenu(inner, XenEntry(id), End), End);
      && WellFormed(c)
      && ScanFrom(START, Flatten(c)) == Some(inner + ">" + id)
      && TruePath(c) == Some(outer + ">" + (inner + ">" + id))
      && ScanFrom(START, Flatten(c)) != TruePath(c)
  {
    var menu := Submenu(inner, XenEntry(id), End);
    XenEntryWellFormed(id);
    SubmenuWellFormed(inner, XenEntry(id), End);
    SubmenuWellFormed(outer, menu, End);
    AtEntry(id, [outer, inner], true);
    InSubmenu(inner, XenEntry(id), End, [outer], true);
    InSubmenu(outer, menu, End, [], true);
    assert [] + [outer] == [outer] && [outer] + [inner] == [outer, inner];
    ScanOf(Submenu(outer, menu, End), Place([outer, inner], true, id));
    assert [outer, inner][1..] == [inner];
    PathOfOne(inner, id);
    assert |outer + ">" + (inner + ">" + id)| > |inner + ">" + id|;
  }

  /** An entry after a closed submenu in a submenu: the scanner leaves out both. */
  lemma ClosedSubmenuLosesOuter(outer: string, inner: string, id: string)
    requires PlainId(outer) && PlainId(inner) && PlainId(id)
    ensures
      var c := Submenu(outer, Submenu(inner, End, XenEntry(id)), End);
      && WellFormed(c)
      && ScanFrom(START, Flatten(c)) == Some(id)
      && TruePath(c) == Some(outer + ">" + id)
  {
    var menu := Submenu(inner, End, XenEntry(id));
    XenEntryWellFormed(id);
    SubmenuWellFormed(inner, End, XenEntry(id));
    SubmenuWellFormed(outer, menu, End);
    AtEntry(id, [outer], false);
    InSubmenu(inner, End, XenEntry(id), [outer], true);
    InSubmenu(outer, menu, End, [], true);
    assert [] + [outer] == [outer];
    ScanOf(Submenu(outer, menu, End), Place([outer], false, id));
    PathOfOne(outer, id);
  }
}
