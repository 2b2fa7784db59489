/** The string operations of the source's standard library that the parsers are built from. */
module Text {
  import opened Wrappers

  /** The code points with the White_Space property. */
  predicate IsSpace(c: char) {
    || '\t' <= c <= '\r' || c == ' ' || c == '\U{0085}' || c == '\U{00A0}' || c == '\U{1680}'
    || '\U{2000}' <= c <= '\U{200A}' || c == '\U{2028}' || c == '\U{2029}'
    || c == '\U{202F}' || c == '\U{205F}' || c == '\U{3000}'
  }

  function TrimStart(s: string): string {
    if s != [] && IsSpace(s[0]) then TrimStart(s[1..]) else s
  }

  function TrimEnd(s: string): string {
    if s != [] && IsSpace(s[|s| - 1]) then TrimEnd(s[..|s| - 1]) else s
  }

  function Trim(s: string): string {
    TrimEnd(TrimStart(s))
  }

  lemma TrimTight(s: string)
    requires s == [] || (!IsSpace(s[0]) && !IsSpace(s[|s| - 1]))
    ensures Trim(s) == s
  {
  }

  predicate AllSpace(s: string) {
    forall i :: 0 <= i < |s| ==> IsSpace(s[i])
  }

  /** A text that neither starts nor ends with white space. */
  predicate Tight(s: string) {
    s == [] || (!IsSpace(s[0]) && !IsSpace(s[|s| - 1]))
  }

  /** Any amount of leading white space is dropped, and nothing else. */
  lemma {:induction false} TrimStartSkips(p: string, s: string)
    requires AllSpace(p)
    ensures TrimStart(p + s) == TrimStart(s)
    ensures s == [] || !IsSpace(s[0]) ==> TrimStart(p + s) == s
  {
    if p == [] {
      assert p + s == s;
    } else {
      assert (p + s)[1..] == p[1..] + s;
      TrimStartSkips(p[1..], s);
    }
  }

  /** And likewise at the end. */
  lemma {:induction false} TrimEndSkips(s: string, p: string)
    requires AllSpace(p)
    ensures TrimEnd(s + p) == TrimEnd(s)
    ensures s == [] || !IsSpace(s[|s| - 1]) ==> TrimEnd(s + p) == s
  {
    if p == [] {
      assert s + p == s;
    } else {
      var front := p[..|p| - 1];
      assert (s + p)[..|s + p| - 1] == s + front;
      TrimEndSkips(s, front);
    }
  }

  /** Trimming recovers a tight text from whatever white space surrounds it. */
  lemma TrimSkips(p: string, s: string, q: string)
    requires AllSpace(p) && AllSpace(q) && Tight(s)
    ensures Trim(p + s + q) == s
  {
    assert p + s + q == p + (s + q);
    if s == [] {
      TrimStartSkips(p + q, []);
      assert p + s + q == (p + q) + [];
    } else {
      TrimStartSkips(p, s + q);
      TrimEndSkips(s, q);
    }
  }

  /** Text up to the first white space, after leading white space: the first word. */
  function FirstWord(s: string): Option<string> {
    var t := TrimStart(s);
    if t == [] then None else Some(UpToSpace(t))
  }

  function UpToSpace(s: string): (r: string)
    ensures r <= s
  {
    if s == [] || IsSpace(s[0]) then "" else [s[0]] + UpToSpace(s[1..])
  }

  /** The second white-space separated word. */
  function SecondWord(s: string): Option<string> {
    var t := TrimStart(s);
    FirstWord(t[|UpToSpace(t)|..])
  }

  predicate Spaceless(s: string) {
    forall i :: 0 <= i < |s| ==> !IsSpace(s[i])
  }

  lemma {:induction false} UpToSpaceAt(word: string, rest: string)
    requires Spaceless(word) && (rest == [] || IsSpace(rest[0]))
    ensures UpToSpace(word + rest) == word
  {
    if word == [] {
      assert word + rest == rest;
    } else {
      assert (word + rest)[1..] == word[1..] + rest;
      UpToSpaceAt(word[1..], rest);
    }
  }

  predicate EndsWord(rest: string) {
    rest == [] || IsSpace(rest[0])
  }

  lemma FirstWordSkips(gap: string, word: string, rest: string)
    requires AllSpace(gap) && word != [] && Spaceless(word) && EndsWord(rest)
    ensures FirstWord(gap + (word + rest)) == Some(word)
  {
    TrimStartSkips(gap, word + rest);
    UpToSpaceAt(word, rest);
  }

  lemma SecondWordSkips(word: string, gap: string, second: string, rest: string)
    requires word != [] && Spaceless(word) && gap != [] && AllSpace(gap)
    requires second != [] && Spaceless(second) && EndsWord(rest)
    ensures SecondWord(word + (gap + (second + rest))) == Some(second)
  {
    var s := word + (gap + (second + rest));
    assert TrimStart(s) == s;
    UpToSpaceAt(word, gap + (second + rest));
    assert s[|word|..] == gap + (second + rest);
    FirstWordSkips(gap, second, rest);
  }

  // ---- searching for a substring ----

  predicate OccursAt(s: string, pat: string, i: nat) {
    i + |pat| <= |s| && s[i..i + |pat|] == pat
  }

  /** Position of the first occurrence of a pattern at or after `from`. */
  function FindFrom(s: string, pat: string, from: nat): (r: Option<nat>)
    requires from <= |s|
    ensures r.Some? ==> from <= r.value && r.value + |pat| <= |s|
    decreases |s| - from
  {
    if OccursAt(s, pat, from) then Some(from)
    else if from == |s| then None
    else FindFrom(s, pat, from + 1)
  }

  function Find(s: string, pat: string): Option<nat> {
    FindFrom(s, pat, 0)
  }

  lemma {:induction false} FindFromFirst(s: string, pat: string, from: nat, i: nat)
    requires from <= i && OccursAt(s, pat, i) && forall j :: from <= j < i ==> !OccursAt(s, pat, j)
    ensures FindFrom(s, pat, from) == Some(i)
    decreases i - from
  {
    if from < i {
      FindFromFirst(s, pat, from + 1, i);
    }
  }

  lemma {:induction false} FindFromNone(s: string, pat: string, from: nat)
    requires from <= |s| && forall j :: from <= j ==> !OccursAt(s, pat, j)
    ensures FindFrom(s, pat, from) == None
    decreases |s| - from
  {
    if from < |s| {
      FindFromNone(s, pat, from + 1);
    }
  }

  predicate Contains(s: string, pat: string) {
    Find(s, pat).Some?
  }

  predicate StartsWith(s: string, pat: string) {
    pat <= s
  }

  lemma {:induction false} FoundFrom(s: string, pat: string, from: nat, i: nat)
    requires from <= i && OccursAt(s, pat, i)
    ensures FindFrom(s, pat, from).Some?
    decreases i - from
  {
    if from < i {
      FoundFrom(s, pat, from + 1, i);
    }
  }

  lemma FindOccurs(s: string, pat: string)
    ensures Find(s, pat).Some? ==> OccursAt(s, pat, Find(s, pat).value)
  {
    FindFromOccurs(s, pat, 0);
  }

  lemma {:induction false} FindFromOccurs(s: string, pat: string, from: nat)
    requires from <= |s|
    ensures FindFrom(s, pat, from).Some? ==> OccursAt(s, pat, FindFrom(s, pat, from).value)
    decreases |s| - from
  {
    if !OccursAt(s, pat, from) && from < |s| {
      FindFromOccurs(s, pat, from + 1);
    }
  }

  lemma ContainsIff(s: string, pat: string)
    ensures Contains(s, pat) <==> exists i: nat :: OccursAt(s, pat, i)
  {
    if i: nat :| OccursAt(s, pat, i) {
      FoundFrom(s, pat, 0, i);
    } else {
      FindFromNone(s, pat, 0);
    }
  }

  lemma FindUnique(s: string, pat: string, i: nat)
    requires OccursAt(s, pat, i) && forall j :: 0 <= j < i ==> !OccursAt(s, pat, j)
    ensures Find(s, pat) == Some(i)
  {
    FindFromFirst(s, pat, 0, i);
  }

  lemma OccursChar(s: string, pat: string, i: nat, k: nat)
    requires k < |pat|
    ensures OccursAt(s, pat, i) ==> s[i + k] == pat[k]
  {
    assert OccursAt(s, pat, i) ==> s[i..i + |pat|][k] == pat[k];
  }

  /** The text before and after the first occurrence of a pattern. */
  function SplitOnce(s: string, pat: string): Option<(string, string)> {
    match Find(s, pat)
    case None => None
    case Some(i) => Some((s[..i], s[i + |pat|..]))
  }

  /** The piece between the first and the second occurrence of a pattern. */
  function SecondPiece(s: string, pat: string): Option<string> {
    match SplitOnce(s, pat)
    case None => None
    case Some((_, rest)) =>
      match Find(rest, pat)
      case None => Some(rest)
      case Some(i) => Some(rest[..i])
  }

  // ---- splitting at separator characters ----

  /** The pieces between separators; always at least one piece. */
  function Split(s: string, seps: set<char>): (r: seq<string>)
    ensures |r| >= 1
  {
    if s == [] then [""]
    else if s[0] in seps then [""] + Split(s[1..], seps)
    else
      var r := Split(s[1..], seps);
      [[s[0]] + r[0]] + r[1..]
  }

  predicate Free(s: string, seps: set<char>) {
    forall i :: 0 <= i < |s| ==> s[i] !in seps
  }

  lemma {:induction false} SplitFree(s: string, seps: set<char>)
    requires Free(s, seps)
    ensures Split(s, seps) == [s]
  {
    if s != [] {
      SplitFree(s[1..], seps);
      assert [s[0]] + s[1..] == s;
    }
  }

  lemma {:induction false} SplitAt(a: string, c: char, b: string, seps: set<char>)
    requires Free(a, seps) && c in seps
    ensures Split(a + [c] + b, seps) == [a] + Split(b, seps)
  {
    var s := a + [c] + b;
    if a == [] {
      assert s[1..] == b;
    } else {
      assert s[1..] == a[1..] + [c] + b;
      SplitAt(a[1..], c, b, seps);
      assert [a[0]] + a[1..] == a;
    }
  }

  /** What one more character in front makes of the pieces of a text. */
  function Prepended(x: char, pieces: seq<string>, seps: set<char>): seq<string>
    requires pieces != []
  {
    if x in seps then [""] + pieces else [[x] + pieces[0]] + pieces[1..]
  }

  lemma PrependedConcat(x: char, front: seq<string>, back: seq<string>, seps: set<char>)
    requires front != []
    ensures Prepended(x, front + back, seps) == Prepended(x, front, seps) + back
  {
    assert (front + back)[1..] == front[1..] + back;
  }

  lemma SplitCons(x: char, rest: string, seps: set<char>)
    ensures Split([x] + rest, seps) == Prepended(x, Split(rest, seps), seps)
  {
    assert ([x] + rest)[1..] == rest;
  }

  /** Splitting a text at one of its separators splits each half. */
  lemma {:induction false} SplitConcat(a: string, c: char, b: string, seps: set<char>)
    requires c in seps
    ensures Split(a + [c] + b, seps) == Split(a, seps) + Split(b, seps)
  {
    if a == [] {
      SplitCons(c, b, seps);
      assert a + [c] + b == [c] + b;
    } else {
      SplitConcat(a[1..], c, b, seps);
      SplitConcatStep(a[0], a[1..], c, b, seps);
      assert a == [a[0]] + a[1..];
    }
  }

  lemma SplitConcatStep(x: char, a: string, c: char, b: string, seps: set<char>)
    requires Split(a + [c] + b, seps) == Split(a, seps) + Split(b, seps)
    ensures Split([x] + a + [c] + b, seps) == Split([x] + a, seps) + Split(b, seps)
  {
    SplitCons(x, a + [c] + b, seps);
    SplitCons(x, a, seps);
    PrependedConcat(x, Split(a, seps), Split(b, seps), seps);
    assert [x] + a + [c] + b == [x] + (a + [c] + b);
  }

  // ---- lines ----

  function WithoutCr(s: string): string {
    if s != [] && s[|s| - 1] == '\r' then s[..|s| - 1] else s
  }

  function WithoutCrs(pieces: seq<string>): (r: seq<string>)
    ensures |r| == |pieces|
  {
    if pieces == [] then [] else [WithoutCr(pieces[0])] + WithoutCrs(pieces[1..])
  }

  /** The lines of a text: a final line terminator does not start another line,
      and a carriage return before a terminator belongs to it. */
  function Lines(s: string): seq<string> {
    LinesOfPieces(Split(s, {'\n'}))
  }

  function Unlines(lines: seq<string>): string {
    if lines == [] then "" else lines[0] + "\n" + Unlines(lines[1..])
  }

  predicate IsLine(s: string) {
    Free(s, {'\n'}) && WithoutCr(s) == s
  }

  lemma {:induction false} LinesStep(line: string, rest: string)
    requires IsLine(line)
    ensures Lines(line + "\n" + rest) == [line] + Lines(rest)
  {
    var tail := Split(rest, {'\n'});
    SplitAt(line, '\n', rest, {'\n'});
    var pieces := Split(line + "\n" + rest, {'\n'});
    assert line + ['\n'] + rest == line + "\n" + rest;
    assert pieces == [line] + tail;
    assert pieces[..|pieces| - 1] == [line] + tail[..|tail| - 1];
  }

  /** A carriage return before the newline is part of the terminator. */
  lemma CrLfStep(line: string, rest: string)
    requires IsLine(line)
    ensures Lines(line + "\r\n" + rest) == [line] + Lines(rest)
  {
    var tail, ended := Split(rest, {'\n'}), line + "\r";
    SplitAt(ended, '\n', rest, {'\n'});
    var pieces := Split(line + "\r\n" + rest, {'\n'});
    assert ended + ['\n'] + rest == line + "\r\n" + rest;
    assert pieces == [ended] + tail;
    assert pieces[..|pieces| - 1] == [ended] + tail[..|tail| - 1];
    assert WithoutCr(ended) == line;
  }

  /** The last line needs no terminator; a carriage return at its end is its own. */
  lemma LastLine(line: string)
    requires Free(line, {'\n'})
    ensures Lines(line) == if line == "" then [] else [line]
  {
    SplitFree(line, {'\n'});
    assert [line][..0] == [];
  }

  /** Printing lines and reading them back gives the same lines. */
  lemma {:induction false} LinesOfUnlines(lines: seq<string>)
    requires forall i :: 0 <= i < |lines| ==> IsLine(lines[i])
    ensures Lines(Unlines(lines)) == lines
  {
    if lines != [] {
      LinesStep(lines[0], Unlines(lines[1..]));
      LinesOfUnlines(lines[1..]);
    }
  }

  lemma {:induction false} WithoutCrsConcat(a: seq<string>, b: seq<string>)
    ensures WithoutCrs(a + b) == WithoutCrs(a) + WithoutCrs(b)
  {
    if a == [] {
      assert a + b == b;
    } else {
      assert (a + b)[1..] == a[1..] + b;
      WithoutCrsConcat(a[1..], b);
    }
  }

  /** Lines of two texts one after the other, the first one ending in a newline. */
  lemma LinesConcat(a: string, b: string)
    ensures Lines(a + "\n" + b) == Lines(a + "\n") + Lines(b)
  {
    var nl := {'\n'};
    var x, y := Split(a, nl), Split(b, nl);
    SplitConcat(a, '\n', b, nl);
    SplitConcat(a, '\n', "", nl);
    assert a + ['\n'] + b == a + "\n" + b && a + ['\n'] + "" == a + "\n";
    PiecesConcat(x, y);
  }

  /** The lines of pieces that were split at newlines. */
  function LinesOfPieces(pieces: seq<string>): seq<string>
    requires pieces != []
  {
    var last := |pieces| - 1;
    WithoutCrs(pieces[..last]) + if pieces[last] == "" then [] else [pieces[last]]
  }

  lemma PiecesConcat(x: seq<string>, y: seq<string>)
    requires x != [] && y != []
    ensures LinesOfPieces(x + y) == LinesOfPieces(x + [""]) + LinesOfPieces(y)
  {
    assert (x + [""])[..|x|] == x;
    assert (x + y)[..|x + y| - 1] == x + y[..|y| - 1];
    WithoutCrsConcat(x, y[..|y| - 1]);
  }
}
