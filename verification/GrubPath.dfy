/** Finding the Xen boot entry in a generated GRUB configuration. */
module GrubPath {
  import opened Wrappers
  import opened Text

  function Count(t: string, c: char): nat {
    if t == "" then 0 else (if t[0] == c then 1 else 0) + Count(t[1..], c)
  }

  /** Braces opened minus braces closed on a line. */
  function Net(t: string): int {
    Count(t, '{') - Count(t, '}')
  }

  /** Position of the end of an unquoted id. */
  function UnquotedEnd(s: string): (r: Option<nat>)
    ensures r.Some? ==> r.value < |s|
  {
    if s == "" then None
    else if IsSpace(s[0]) || s[0] == '{' then Some(0)
    else
      match UnquotedEnd(s[1..])
      case None => None
      case Some(n) => Some(n + 1)
  }

  /** The value of the `--id` option on a line that starts with a keyword. */
  function BlockId(line: string, kind: string): Option<string> {
    if !StartsWith(line, kind) then None
    else
      match SplitOnce(line, "--id")
      case None => None
      case Some((_, after)) =>
        var rest := TrimStart(after);
        if rest == "" then None
        else if rest[0] == '\'' || rest[0] == '"' then
          match SplitOnce(rest[1..], [rest[0]])
          case None => None
          case Some((id, _)) => Some(id)
        else
          match UnquotedEnd(rest)
          case None => None
          case Some(n) => Some(rest[..n])
  }

  predicate MentionsXen(t: string) {
    Contains(t, "with Xen hypervisor") || Contains(t, "Xen 4") || Contains(t, "xen.gz")
  }

  /** The id of a line that opens a submenu. */
  function SubmenuId(line: string): Option<string> {
    BlockId(TrimStart(line), "submenu")
  }

  /** The id of a line that opens a Xen boot entry; such a line does not open a submenu. */
  function XenEntryId(line: string): (r: Option<string>)
    ensures r.Some? ==> SubmenuId(line).None?
  {
    var t := TrimStart(line);
    match BlockId(t, "menuentry")
    case Some(id) => if SubmenuId(line).None? && MentionsXen(t) then Some(id) else None
    case None => None
  }

  /** What the scanner remembers: the brace depth, and the submenu it believes it is in with
      the depth just inside it. */
  datatype Scan = Scan(depth: int, submenu: Option<(string, int)>)

  function PathOf(submenu: Option<(string, int)>, id: string): string {
    match submenu
    case None => id
    case Some((s, _)) => s + ">" + id
  }

  /** One line that is not a Xen boot entry. */
  function Advance(st: Scan, line: string): Scan {
    var t := TrimStart(line);
    var submenu := match SubmenuId(line)
      case Some(id) => Some((id, st.depth + Net(t)))
      case None => st.submenu;
    var depth := st.depth + Net(t);
    Scan(depth, if submenu.Some? && depth < submenu.value.1 then None else submenu)
  }

  function ScanFrom(st: Scan, lines: seq<string>): Option<string>
    decreases |lines|
  {
    if lines == [] then None
    else if XenEntryId(lines[0]).Some? then Some(PathOf(st.submenu, XenEntryId(lines[0]).value))
    else ScanFrom(Advance(st, lines[0]), lines[1..])
  }

  const START := Scan(0, None)

  lemma ScanCons(st: Scan, line: string, rest: seq<string>)
    ensures ScanFrom(st, [line] + rest) ==
      if XenEntryId(line).Some? then Some(PathOf(st.submenu, XenEntryId(line).value))
      else ScanFrom(Advance(st, line), rest)
  {
    assert ([line] + rest)[1..] == rest;
  }

  lemma ScanStep(st: Scan, lines: seq<string>, i: nat)
    requires i < |lines|
    ensures ScanFrom(st, lines[i..]) ==
      if XenEntryId(lines[i]).Some? then Some(PathOf(st.submenu, XenEntryId(lines[i]).value))
      else ScanFrom(Advance(st, lines[i]), lines[i + 1..])
  {
    ScanCons(st, lines[i], lines[i + 1..]);
    assert lines[i..] == [lines[i]] + lines[i + 1..];
  }

  /** Apply one line's braces and submenu to what the scanner remembers. */
  method AdvancePast(line: string, depth: int, submenu: Option<(string, int)>)
    returns (newDepth: int, newSubmenu: Option<(string, int)>)
    ensures Scan(newDepth, newSubmenu) == Advance(Scan(depth, submenu), line)
  {
    var t := TrimStart(line);
    var opens := Count(t, '{');
    var closes := Count(t, '}');
    newSubmenu := submenu;
    var id := SubmenuId(line);
    if id.Some? {
      newSubmenu := Some((id.value, depth + opens - closes));
    }
    newDepth := depth + opens;
    newDepth := newDepth - closes;
    if newSubmenu.Some? && newDepth < newSubmenu.value.1 {
      newSubmenu := None;
    }
  }

  method FindXenGrubPath(cfg: string) returns (r: Option<string>)
    ensures r == ScanFrom(START, Lines(cfg))
  {
    var currentSubmenu: Option<(string, int)> := None;
    var depth := 0;
    var lines := Lines(cfg);
    assert lines[0..] == lines;
    for i := 0 to |lines|
      invariant ScanFrom(START, lines) == ScanFrom(Scan(depth, currentSubmenu), lines[i..])
    {
      ScanStep(Scan(depth, currentSubmenu), lines, i);
      var entryId := XenEntryId(lines[i]);
      if entryId.Some? {
        return Some(PathOf(currentSubmenu, entryId.value));
      }
      depth, currentSubmenu := AdvancePast(lines[i], depth, currentSubmenu);
    }
    r := None;
  }

  // ---- configurations as trees ----

  /** A configuration: runs of other lines, boot entries, and submenus holding a configuration. */
  datatype Config =
    | End
    | Plain(lines: seq<string>, next: Config)
    | Entry(header: string, body: seq<string>, next: Config)
    | Menu(header: string, children: Config, closer: string, next: Config)

  function Flatten(c: Config): seq<string> {
    match c
    case End => []
    case Plain(lines, next) => lines + Flatten(next)
    case Entry(header, body, next) => [header] + body + Flatten(next)
    case Menu(header, children, closer, next) => [header] + Flatten(children) + [closer] + Flatten(next)
  }

  /** A line that opens neither a submenu nor a Xen entry. */
  predicate Inert(line: string) {
    SubmenuId(line).None? && XenEntryId(line).None?
  }

  /** Lines that, entered `d` braces deep, never close more than they opened and end level. */
  predicate Steady(lines: seq<string>, d: nat) {
    if lines == [] then d == 0
    else d + Net(TrimStart(lines[0])) >= 0 && Steady(lines[1..], d + Net(TrimStart(lines[0])))
  }

  /** Braces balance, only entry headers may open a Xen entry, and every submenu carries an id
      and leaves its brace open on its own line. */
  predicate WellFormed(c: Config) {
    match c
    case End => true
    case Plain(lines, next) =>
      (forall line | line in lines :: Inert(line)) && Steady(lines, 0) && WellFormed(next)
    case Entry(header, body, next) =>
      && SubmenuId(header).None? && (forall line | line in body :: Inert(line))
      && Steady([header] + body, 0) && WellFormed(next)
    case Menu(header, children, closer, next) =>
      && SubmenuId(header).Some? && Net(TrimStart(header)) == 1
      && Inert(closer) && Net(TrimStart(closer)) == -1
      && WellFormed(children) && WellFormed(next)
  }

  /** Where the first Xen entry in document order is: the ids of the submenus around it, whether
      no other submenu precedes it in the innermost one, and its own id. */
  datatype Place = Place(menus: seq<string>, first: bool, id: string)

  function FirstXen(c: Config, menus: seq<string>, first: bool): Option<Place> {
    match c
    case End => None
    case Plain(_, next) => FirstXen(next, menus, first)
    case Entry(header, _, next) =>
      if XenEntryId(header).Some? then Some(Place(menus, first, XenEntryId(header).value))
      else FirstXen(next, menus, first)
    case Menu(header, children, _, next) =>
      var inside := FirstXen(children, menus + [SubmenuId(header).OrElse("")], true);
      if inside.Some? then inside else FirstXen(next, menus, false)
  }

  /** The full path of an entry: the ids of the submenus around it, outermost first, then its own. */
  function FullPath(menus: seq<string>, id: string): string {
    if menus == [] then id else menus[0] + ">" + FullPath(menus[1..], id)
  }

  /** The path that a boot loader would need. */
  function TruePath(c: Config): Option<string> {
    match FirstXen(c, [], true)
    case None => None
    case Some(p) => Some(FullPath(p.menus, p.id))
  }

  /** The submenu that the scanner names for a place: the innermost one, unless another submenu
      has been closed within it. */
  function Named(menus: seq<string>, first: bool): Option<string> {
    if first && menus != [] then Some(menus[|menus| - 1]) else None
  }

  function Label(submenu: Option<string>, id: string): string {
    match submenu
    case None => id
    case Some(s) => s + ">" + id
  }

  predicate HasMenu(c: Config) {
    match c
    case End => false
    case Plain(_, next) => HasMenu(next)
    case Entry(_, _, next) => HasMenu(next)
    case Menu(_, _, _, _) => true
  }

  /** The scanner's submenu is the one named for the place it has reached. */
  predicate Agrees(st: Scan, menus: seq<string>, first: bool) {
    match st.submenu
    case None => Named(menus, first).None?
    case Some((s, when)) => Named(menus, first) == Some(s) && when <= st.depth
  }

  /** Inert lines leave the scanner as it was. */
  lemma {:induction false} ScanInert(
      lines: seq<string>, rest: seq<string>, depth: int, d: nat, submenu: Option<(string, int)>)
    requires (forall line | line in lines :: Inert(line)) && Steady(lines, d)
    requires submenu.Some? ==> submenu.value.1 <= depth
    ensures ScanFrom(Scan(depth + d, submenu), lines + rest) == ScanFrom(Scan(depth, submenu), rest)
  {
    if lines == [] {
      assert lines + rest == rest;
    } else {
      var line, tail := lines[0], lines[1..];
      var next := d + Net(TrimStart(line));
      assert line in lines;
      FirstApart(lines, rest);
      ScanInertLine(line, tail + rest, lines + rest, depth, d, next, submenu);
      ScanInert(tail, rest, depth, next, submenu);
    }
  }

  lemma FirstApart(lines: seq<string>, rest: seq<string>)
    requires lines != []
    ensures lines + rest == [lines[0]] + (lines[1..] + rest)
  {
  }

  lemma ScanInertLine(
      line: string, rest: seq<string>, lines: seq<string>, depth: int, d: nat, next: nat,
      submenu: Option<(string, int)>)
    requires lines == [line] + rest && Inert(line) && next == d + Net(TrimStart(line))
    requires submenu.Some? ==> submenu.value.1 <= depth
    ensures ScanFrom(Scan(depth + d, submenu), lines) == ScanFrom(Scan(depth + next, submenu), rest)
  {
    ScanCons(Scan(depth + d, submenu), line, rest);
    AdvanceInert(depth, d, submenu, line);
  }

  lemma AdvanceInert(depth: int, d: nat, submenu: Option<(string, int)>, line: string)
    requires Inert(line) && d + Net(TrimStart(line)) >= 0
    requires submenu.Some? ==> submenu.value.1 <= depth
    ensures Advance(Scan(depth + d, submenu), line) == Scan(depth + (d + Net(TrimStart(line))), submenu)
  {
  }

  /** What the scanner makes of a tree: it reports the first Xen entry under the submenu named for
      its place, or goes on after the tree, having forgotten its submenu if it saw another one. */
  predicate Scans(c: Config, rest: seq<string>, st: Scan, menus: seq<string>, first: bool) {
    ScanFrom(st, Flatten(c) + rest) ==
      match FirstXen(c, menus, first)
      case Some(p) => Some(Label(Named(p.menus, p.first), p.id))
      case None => ScanFrom(if HasMenu(c) then Scan(st.depth, None) else st, rest)
  }

  lemma {:induction false} ScanTree(c: Config, rest: seq<string>, st: Scan, menus: seq<string>, first: bool)
    requires WellFormed(c) && Agrees(st, menus, first)
    ensures Scans(c, rest, st, menus, first)
  {
    match c
    case End =>
      assert Flatten(c) + rest == rest;
    case Plain(lines, next) =>
      ScanTree(next, rest, st, menus, first);
      ScanPlain(c, rest, st, menus, first);
    case Entry(header, body, next) =>
      ScanTree(next, rest, st, menus, first);
      ScanEntry(c, rest, st, menus, first);
    case Menu(header, children, closer, next) =>
      var id := SubmenuId(header).value;
      var inside := menus + [id];
      assert inside[|inside| - 1] == id;
      ScanTree(children, [closer] + (Flatten(next) + rest), Scan(st.depth + 1, Some((id, st.depth + 1))), inside, true);
      ScanTree(next, rest, Scan(st.depth, None), menus, false);
      ScanSubmenu(c, rest, st, menus, first);
  }

  lemma ScanPlain(c: Config, rest: seq<string>, st: Scan, menus: seq<string>, first: bool)
    requires c.Plain? && WellFormed(c) && Agrees(st, menus, first) && Scans(c.next, rest, st, menus, first)
    ensures Scans(c, rest, st, menus, first)
  {
    assert Flatten(c) + rest == c.lines + (Flatten(c.next) + rest);
    ScanInert(c.lines, Flatten(c.next) + rest, st.depth, 0, st.submenu);
  }

  lemma ScanEntry(c: Config, rest: seq<string>, st: Scan, menus: seq<string>, first: bool)
    requires c.Entry? && WellFormed(c) && Agrees(st, menus, first) && Scans(c.next, rest, st, menus, first)
    ensures Scans(c, rest, st, menus, first)
  {
    var after := Flatten(c.next) + rest;
    assert Flatten(c) + rest == [c.header] + (c.body + after);
    if XenEntryId(c.header).None? {
      ScanOtherEntry(c.header, c.body, after, st);
    } else {
      ScanCons(st, c.header, c.body + after);
    }
  }

  lemma ScanOtherEntry(header: string, body: seq<string>, after: seq<string>, st: Scan)
    requires SubmenuId(header).None? && XenEntryId(header).None? && (forall line | line in body :: Inert(line))
    requires Steady([header] + body, 0) && (st.submenu.Some? ==> st.submenu.value.1 <= st.depth)
    ensures ScanFrom(st, [header] + (body + after)) == ScanFrom(st, after)
  {
    var lines := [header] + body;
    AllInert(header, body);
    FirstApart(lines, after);
    assert lines[1..] == body;
    ScanInert(lines, after, st.depth, 0, st.submenu);
  }

  lemma AllInert(header: string, body: seq<string>)
    requires Inert(header) && forall line | line in body :: Inert(line)
    ensures forall line | line in [header] + body :: Inert(line)
  {
  }

  lemma ScanSubmenu(c: Config, rest: seq<string>, st: Scan, menus: seq<string>, first: bool)
    requires c.Menu? && WellFormed(c)
    requires
      var id := SubmenuId(c.header).value;
      var inside := Scan(st.depth + 1, Some((id, st.depth + 1)));
      Scans(c.children, [c.closer] + (Flatten(c.next) + rest), inside, menus + [id], true)
    requires Scans(c.next, rest, Scan(st.depth, None), menus, false)
    ensures Scans(c, rest, st, menus, first)
  {
    var id := SubmenuId(c.header).value;
    var found := match FirstXen(c.children, menus + [id], true)
      case Some(p) => Some(Label(Named(p.menus, p.first), p.id))
      case None => None;
    ScanMenu(c.header, Flatten(c.children), c.closer, Flatten(c.next) + rest, st, found, HasMenu(c.children));
    FlattenMenu(c, rest);
  }

  lemma FlattenMenu(c: Config, rest: seq<string>)
    requires c.Menu?
    ensures Flatten(c) + rest == [c.header] + (Flatten(c.children) + ([c.closer] + (Flatten(c.next) + rest)))
  {
  }

  lemma ScanMenu(
      header: string, inner: seq<string>, closer: string, rest: seq<string>,
      st: Scan, found: Option<string>, menuInside: bool)
    requires SubmenuId(header).Some? && Net(TrimStart(header)) == 1
    requires Inert(closer) && Net(TrimStart(closer)) == -1
    requires
      var inside := Scan(st.depth + 1, Some((SubmenuId(header).value, st.depth + 1)));
      ScanFrom(inside, inner + ([closer] + rest)) == if found.Some? then found else
        ScanFrom(if menuInside then Scan(inside.depth, None) else inside, [closer] + rest)
    ensures ScanFrom(st, [header] + (inner + ([closer] + rest))) ==
      if found.Some? then found else ScanFrom(Scan(st.depth, None), rest)
  {
    ScanHeader(header, inner + ([closer] + rest), st);
    ScanCloser(closer, rest, st.depth, if menuInside then None else Some((SubmenuId(header).value, st.depth + 1)));
  }

  lemma ScanHeader(header: string, rest: seq<string>, st: Scan)
    requires SubmenuId(header).Some? && Net(TrimStart(header)) == 1
    ensures ScanFrom(st, [header] + rest) ==
      ScanFrom(Scan(st.depth + 1, Some((SubmenuId(header).value, st.depth + 1))), rest)
  {
    ScanCons(st, header, rest);
    AdvanceHeader(header, st);
  }

  lemma AdvanceHeader(header: string, st: Scan)
    requires SubmenuId(header).Some? && Net(TrimStart(header)) == 1
    ensures Advance(st, header) == Scan(st.depth + 1, Some((SubmenuId(header).value, st.depth + 1)))
  {
  }

  lemma AdvanceCloser(closer: string, depth: int, submenu: Option<(string, int)>)
    requires Inert(closer) && Net(TrimStart(closer)) == -1
    requires submenu.Some? ==> submenu.value.1 == depth + 1
    ensures Advance(Scan(depth + 1, submenu), closer) == Scan(depth, None)
  {
  }

  lemma ScanCloser(closer: string, rest: seq<string>, depth: int, submenu: Option<(string, int)>)
    requires Inert(closer) && Net(TrimStart(closer)) == -1
    requires submenu.Some? ==> submenu.value.1 == depth + 1
    ensures ScanFrom(Scan(depth + 1, submenu), [closer] + rest) == ScanFrom(Scan(depth, None), rest)
  {
    ScanCons(Scan(depth + 1, submenu), closer, rest);
    AdvanceCloser(closer, depth, submenu);
  }

  lemma {:induction false} FullPathLength(menus: seq<string>, id: string)
    ensures |FullPath(menus, id)| >= |menus| + |id|
    ensures menus != [] ==> |FullPath(menus, id)| >= |menus| + |menus[|menus| - 1]| + |id|
  {
    if menus != [] {
      FullPathLength(menus[1..], id);
    }
  }

  /** The scanner's answer is the entry's full path exactly when the first Xen entry is outside
      all submenus, or in an outermost one with no nested submenu before it there. In particular
      it is right whenever no submenu is nested in another, and wrong for every other place. */
  lemma ScanIsTruePathIff(c: Config)
    requires WellFormed(c)
    ensures ScanFrom(START, Flatten(c)) == TruePath(c) <==>
      match FirstXen(c, [], true)
      case None => true
      case Some(p) => |p.menus| == 0 || (|p.menus| == 1 && p.first)
  {
    ScanTree(c, [], START, [], true);
    assert Flatten(c) + [] == Flatten(c);
    match FirstXen(c, [], true)
    case None =>
    case Some(p) =>
      FullPathLength(p.menus, p.id);
      if |p.menus| == 1 {
        assert FullPath(p.menus[1..], p.id) == p.id;
      }
  }

  /** No submenu inside a submenu. */
  predicate Unnested(c: Config, inside: bool) {
    match c
    case End => true
    case Plain(_, next) => Unnested(next, inside)
    case Entry(_, _, next) => Unnested(next, inside)
    case Menu(_, children, _, next) => !inside && Unnested(children, true) && Unnested(next, inside)
  }

  lemma {:induction false} UnnestedPlaces(c: Config, menus: seq<string>, first: bool)
    requires |menus| <= 1 && Unnested(c, |menus| == 1) && (|menus| == 1 ==> first)
    ensures match FirstXen(c, menus, first)
      case None => true
      case Some(p) => |p.menus| <= 1 && (|p.menus| == 1 ==> p.first)
  {
    match c
    case End =>
    case Plain(_, next) => UnnestedPlaces(next, menus, first);
    case Entry(_, _, next) => UnnestedPlaces(next, menus, first);
    case Menu(header, children, _, next) =>
      UnnestedPlaces(children, menus + [SubmenuId(header).OrElse("")], true);
      UnnestedPlaces(next, menus, false);
  }

  /** On the text of a configuration without nested submenus, the scanner finds the full path of
      the first Xen entry in document order, or reports that there is none. */
  lemma FindsTruePath(c: Config)
    requires WellFormed(c) && Unnested(c, false)
    requires forall i :: 0 <= i < |Flatten(c)| ==> IsLine(Flatten(c)[i])
    ensures ScanFrom(START, Lines(Unlines(Flatten(c)))) == TruePath(c)
  {
    LinesOfUnlines(Flatten(c));
    UnnestedPlaces(c, [], true);
    ScanIsTruePathIff(c);
  }
}