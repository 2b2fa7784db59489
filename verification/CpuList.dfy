/** The kernel's CPU list format: ranges and single ids between commas. */
module CpuLists {
  import opened Wrappers
  import opened Text
  import opened Numerals

  type Cpu = n: nat | n < U32

  /** The range that a chunk stands for; malformed chunks and empty ranges stand for none. */
  function ChunkRange(chunk: string): Option<(Cpu, Cpu)> {
    var t := Trim(chunk);
    match SplitOnce(t, "-")
    case Some((a, b)) =>
      (match (ParseU32(a), ParseU32(b))
       case (Some(lo), Some(hi)) => if lo <= hi then Some((lo, hi)) else None
       case _ => None)
    case None =>
      match ParseU32(t)
      case Some(v) => Some((v, v))
      case None => None
  }

  predicate InChunk(chunk: string, v: nat) {
    ChunkRange(chunk).Some? && ChunkRange(chunk).value.0 <= v <= ChunkRange(chunk).value.1
  }

  function Chunks(s: string): seq<string> {
    Split(s, {','})
  }

  /** Some chunk covers the id. */
  predicate Listed(chunks: seq<string>, v: nat) {
    exists c | c in chunks :: InChunk(c, v)
  }

  predicate Increasing(xs: seq<nat>) {
    forall i, j :: 0 <= i < j < |xs| ==> xs[i] < xs[j]
  }

  predicate NonDecreasing(xs: seq<nat>) {
    forall i, j :: 0 <= i < j < |xs| ==> xs[i] <= xs[j]
  }

  /** What parsing promises: the ids the chunks cover, in increasing order, once each. */
  ghost predicate Denotes(xs: seq<Cpu>, chunks: seq<string>) {
    Increasing(xs) && forall v :: v in xs <==> Listed(chunks, v)
  }

  /** Putting a value after everything no greater than it keeps the order. */
  lemma Inserted(out: seq<Cpu>, k: nat, x: Cpu)
    requires NonDecreasing(out) && k <= |out|
    requires (forall j :: 0 <= j < k ==> out[j] <= x) && (k < |out| ==> x < out[k])
    ensures NonDecreasing(out[..k] + [x] + out[k..])
  {
    var r := out[..k] + [x] + out[k..];
    forall i, j | 0 <= i < j < |r| ensures r[i] <= r[j] {
      assert j > k ==> r[j] == out[j - 1] && out[k] <= out[j - 1];
      assert i < k ==> r[i] == out[i];
      assert i > k ==> r[i] == out[i - 1];
    }
  }

  lemma InsertedElements(out: seq<Cpu>, k: nat, x: Cpu)
    requires k <= |out|
    ensures forall v :: v in out[..k] + [x] + out[k..] <==> v == x || v in out
  {
    assert out == out[..k] + out[k..];
  }

  /** Sorting by insertion. */
  method Sort(xs: seq<Cpu>) returns (out: seq<Cpu>)
    ensures NonDecreasing(out)
    ensures forall v :: v in out <==> v in xs
  {
    out := [];
    for i := 0 to |xs|
      invariant NonDecreasing(out)
      invariant forall v :: v in out <==> v in xs[..i]
    {
      var k := Place(out, xs[i]);
      Inserted(out, k, xs[i]);
      InsertedElements(out, k, xs[i]);
      assert xs[..i + 1] == xs[..i] + [xs[i]];
      out := out[..k] + [xs[i]] + out[k..];
    }
    assert xs[..|xs|] == xs;
  }

  /** Position of the first element greater than a value. */
  method Place(out: seq<Cpu>, x: Cpu) returns (k: nat)
    ensures k <= |out| && (forall j :: 0 <= j < k ==> out[j] <= x) && (k < |out| ==> x < out[k])
  {
    k := 0;
    while k < |out| && out[k] <= x
      invariant 0 <= k <= |out|
      invariant forall j :: 0 <= j < k ==> out[j] <= x
    {
      k := k + 1;
    }
  }

  /** Removal of consecutive repetitions. */
  method Dedup(xs: seq<Cpu>) returns (out: seq<Cpu>)
    requires NonDecreasing(xs)
    ensures Increasing(out)
    ensures forall v :: v in out <==> v in xs
  {
    out := [];
    for i := 0 to |xs|
      invariant Increasing(out)
      invariant forall v :: v in out <==> v in xs[..i]
      invariant if i == 0 then out == [] else out != [] && out[|out| - 1] == xs[i - 1]
    {
      assert xs[..i + 1] == xs[..i] + [xs[i]];
      if out == [] || out[|out| - 1] != xs[i] {
        out := out + [xs[i]];
      }
    }
    assert xs[..|xs|] == xs;
  }

  lemma ListedSnoc(chunks: seq<string>, n: nat, v: nat)
    requires n < |chunks|
    ensures Listed(chunks[..n + 1], v) <==> Listed(chunks[..n], v) || InChunk(chunks[n], v)
  {
    assert chunks[..n + 1] == chunks[..n] + [chunks[n]];
  }

  method ParseCpulist(s: string) returns (out: seq<Cpu>)
    ensures Denotes(out, Chunks(s))
  {
    out := [];
    var chunks := Chunks(s);
    for i := 0 to |chunks|
      invariant forall v :: v in out <==> Listed(chunks[..i], v)
    {
      ghost var before := out;
      var range := ChunkRange(chunks[i]);
      if range.Some? {
        var (lo, hi) := range.value;
        for v: int := lo as int to hi as int + 1
          invariant forall w :: w in out <==> w in before || lo <= w < v
        {
          out := out + [v];
        }
      }
      forall v ensures v in out <==> Listed(chunks[..i + 1], v) {
        ListedSnoc(chunks, i, v);
      }
    }
    assert chunks[..|chunks|] == chunks;
    out := Sort(out);
    out := Dedup(out);
  }

  // ---- what the result depends on ----

  /** An increasing list is determined by its elements. */
  lemma {:induction false} IncreasingUnique(a: seq<Cpu>, b: seq<Cpu>)
    requires Increasing(a) && Increasing(b) && forall v :: v in a <==> v in b
    ensures a == b
  {
    assert |a| > 0 ==> a[0] in b;
    assert |b| > 0 ==> b[0] in a;
    if a != [] {
      assert a[0] == b[0];
      assert forall v :: v in a[1..] <==> v in a && v != a[0];
      assert forall v :: v in b[1..] <==> v in b && v != b[0];
      IncreasingUnique(a[1..], b[1..]);
    }
  }

  predicate HasChunk(chunks: seq<string>, c: string) {
    exists d | d in chunks :: Trim(d) == c
  }

  lemma ListedByTrimmed(chunks: seq<string>, other: seq<string>, v: nat)
    requires forall c :: HasChunk(chunks, c) ==> HasChunk(other, c)
    ensures Listed(chunks, v) ==> Listed(other, v)
  {
    if Listed(chunks, v) {
      var c :| c in chunks && InChunk(c, v);
      assert HasChunk(chunks, Trim(c));
      var d :| d in other && Trim(d) == Trim(c);
      SameRange(c, d);
    }
  }

  lemma SameRange(c: string, d: string)
    requires Trim(c) == Trim(d)
    ensures ChunkRange(c) == ChunkRange(d)
  {
  }

  /** The order, repetition and spacing of chunks do not matter: two texts with the same chunks
      up to white space parse to the same list. */
  lemma ChunkOrderIrrelevant(s: string, a: seq<Cpu>, t: string, b: seq<Cpu>)
    requires Denotes(a, Chunks(s)) && Denotes(b, Chunks(t))
    requires forall c :: HasChunk(Chunks(s), c) <==> HasChunk(Chunks(t), c)
    ensures a == b
  {
    forall v ensures v in a <==> v in b {
      ListedByTrimmed(Chunks(s), Chunks(t), v);
      ListedByTrimmed(Chunks(t), Chunks(s), v);
    }
    IncreasingUnique(a, b);
  }

  // ---- printing ----

  /** Length of the run of consecutive ids that a list starts with. */
  function RunLength(xs: seq<Cpu>): (k: nat)
    requires xs != []
    ensures 1 <= k <= |xs|
  {
    if |xs| == 1 || xs[1] as int != xs[0] as int + 1 then 1 else 1 + RunLength(xs[1..])
  }

  lemma {:induction false} RunIsConsecutive(xs: seq<Cpu>, i: nat)
    requires xs != [] && i < RunLength(xs)
    ensures xs[i] == xs[0] + i
  {
    if i > 0 {
      RunIsConsecutive(xs[1..], i - 1);
    }
  }

  function PrintChunk(lo: Cpu, hi: Cpu): string {
    if lo == hi then Decimal(lo) else Decimal(lo) + "-" + Decimal(hi)
  }

  type Run = (Cpu, Cpu)

  /** The maximal runs of consecutive ids, by their ends. */
  function Runs(xs: seq<Cpu>): seq<Run> {
    if xs == [] then []
    else
      var k := RunLength(xs);
      [(xs[0], xs[k - 1])] + Runs(xs[k..])
  }

  function PrintRuns(runs: seq<Run>): string {
    if runs == [] then ""
    else
      var chunk := PrintChunk(runs[0].0, runs[0].1);
      if |runs| == 1 then chunk else chunk + "," + PrintRuns(runs[1..])
  }

  /** The canonical form: maximal runs, in order. */
  function Print(xs: seq<Cpu>): string {
    PrintRuns(Runs(xs))
  }

  lemma ChunkIsTight(lo: Cpu, hi: Cpu)
    ensures Trim(PrintChunk(lo, hi)) == PrintChunk(lo, hi)
    ensures Free(PrintChunk(lo, hi), {','})
  {
    DigitsAreDigits(lo, 10);
    DigitsAreDigits(hi, 10);
    TrimTight(PrintChunk(lo, hi));
  }

  lemma NoDash(n: nat)
    ensures SplitOnce(Decimal(n), "-") == None
  {
    DigitsAreDigits(n, 10);
    forall j | 0 <= j ensures !OccursAt(Decimal(n), "-", j) {
      OccursChar(Decimal(n), "-", j, 0);
    }
    FindFromNone(Decimal(n), "-", 0);
  }

  lemma DashSplits(m: nat, n: nat)
    ensures SplitOnce(Decimal(m) + "-" + Decimal(n), "-") == Some((Decimal(m), Decimal(n)))
  {
    var a, b := Decimal(m), Decimal(n);
    var c := a + "-" + b;
    DigitsAreDigits(m, 10);
    forall j | 0 <= j < |a| ensures !OccursAt(c, "-", j) {
      assert c[j] == a[j];
      OccursChar(c, "-", j, 0);
    }
    assert c[|a|..|a| + 1] == "-";
    FindUnique(c, "-", |a|);
    assert c[..|a|] == a && c[|a| + 1..] == b;
  }

  lemma ChunkReadsBack(lo: Cpu, hi: Cpu)
    requires lo <= hi
    ensures ChunkRange(PrintChunk(lo, hi)) == Some((lo, hi))
  {
    ChunkIsTight(lo, hi);
    DecimalParses(lo, U32 - 1);
    DecimalParses(hi, U32 - 1);
    NoDash(lo);
    DashSplits(lo, hi);
  }

  /** A printed range means the ids from its first to its last, so none when they are reversed, and
      white space around it does not matter. */
  lemma RangeMeans(before: string, lo: Cpu, hi: Cpu, after: string, v: nat)
    requires AllSpace(before) && AllSpace(after)
    ensures InChunk(before + (Decimal(lo) + "-" + Decimal(hi)) + after, v) <==> lo <= v <= hi
  {
    var range := Decimal(lo) + "-" + Decimal(hi);
    DigitsAreDigits(lo, 10);
    DigitsAreDigits(hi, 10);
    assert range[0] == Decimal(lo)[0] && range[|range| - 1] == Decimal(hi)[|Decimal(hi)| - 1];
    TrimSkips(before, range, after);
    DashSplits(lo, hi);
    DecimalParses(lo, U32 - 1);
    DecimalParses(hi, U32 - 1);
  }

  /** A single number means itself. */
  lemma NumberMeans(before: string, n: Cpu, after: string, v: nat)
    requires AllSpace(before) && AllSpace(after)
    ensures InChunk(before + Decimal(n) + after, v) <==> v == n
  {
    DigitsAreDigits(n, 10);
    TrimSkips(before, Decimal(n), after);
    NoDash(n);
    DecimalParses(n, U32 - 1);
  }

  /** Anything else means nothing: here, a chunk with a character that no number or range holds. */
  lemma GarbageMeansNothing(chunk: string, i: nat, v: nat)
    requires i < |Trim(chunk)|
    requires var c := Trim(chunk)[i]; DigitOf(c) >= 10 && c != '-' && c != '+'
    ensures !InChunk(chunk, v)
  {
    var t := Trim(chunk);
    match SplitOnce(t, "-")
    case None => NoNumberWith(t, i);
    case Some((a, b)) =>
      FindIsBefore(t, i);
      if i < |a| { NoNumberWith(a, i); } else { NoNumberWith(b, i - |a| - 1); }
  }

  lemma NoNumberWith(s: string, i: nat)
    requires i < |s| && DigitOf(s[i]) >= 10 && s[i] != '+'
    ensures ParseU32(s) == None
  {
    var body := if s[0] == '+' then s[1..] else s;
    assert body[if s[0] == '+' then i - 1 else i] == s[i];
  }

  lemma FindIsBefore(t: string, i: nat)
    requires i < |t| && t[i] != '-' && SplitOnce(t, "-").Some?
    ensures
      var (a, b) := SplitOnce(t, "-").value;
      |a| != i && (i < |a| ==> a[i] == t[i]) && (i > |a| ==> i - |a| - 1 < |b| && b[i - |a| - 1] == t[i])
  {
    FindOccurs(t, "-");
    OccursChar(t, "-", Find(t, "-").value, 0);
  }

  /** The first run of a list, and what is left. */
  lemma RunCovers(xs: seq<Cpu>, v: nat)
    requires xs != []
    ensures
      var k := RunLength(xs);
      v in xs <==> xs[0] <= v <= xs[k - 1] || v in xs[k..]
  {
    var k := RunLength(xs);
    RunIsConsecutive(xs, k - 1);
    forall i | 0 <= i < k ensures xs[i] == xs[0] + i {
      RunIsConsecutive(xs, i);
    }
    if xs[0] <= v <= xs[k - 1] {
      assert xs[v - xs[0]] == v;
    }
  }

  lemma ListedCons(chunk: string, rest: seq<string>, v: nat)
    ensures Listed([chunk] + rest, v) <==> InChunk(chunk, v) || Listed(rest, v)
  {
  }

  lemma NothingListed(v: nat)
    ensures !Listed(Chunks(""), v)
  {
    FindFromNone("", "-", 0);
    assert Chunks("") == [""];
  }

  lemma FirstChunk(chunk: string, rest: string)
    requires Free(chunk, {','})
    ensures Chunks(chunk) == [chunk] && Chunks(chunk + "," + rest) == [chunk] + Chunks(rest)
  {
    SplitFree(chunk, {','});
    SplitAt(chunk, ',', rest, {','});
    assert chunk + [','] + rest == chunk + "," + rest;
  }

  lemma ChunkCovers(lo: Cpu, hi: Cpu, v: nat)
    requires lo <= hi
    ensures InChunk(PrintChunk(lo, hi), v) <==> lo <= v <= hi
  {
    ChunkReadsBack(lo, hi);
  }

  predicate Within(run: Run, v: nat) {
    run.0 <= v <= run.1
  }

  predicate Covers(runs: seq<Run>, v: nat) {
    exists i :: 0 <= i < |runs| && Within(runs[i], v)
  }

  predicate Ordered(runs: seq<Run>) {
    forall i :: 0 <= i < |runs| ==> runs[i].0 <= runs[i].1
  }

  lemma CoversCons(run: Run, runs: seq<Run>, v: nat)
    ensures Covers([run] + runs, v) <==> Within(run, v) || Covers(runs, v)
  {
    var all := [run] + runs;
    if Within(run, v) {
      assert Within(all[0], v);
    }
    if i :| 0 <= i < |runs| && Within(runs[i], v) {
      assert Within(all[i + 1], v);
    }
  }

  /** The runs of a list cover exactly its elements. */
  lemma {:induction false} RunsCover(xs: seq<Cpu>, v: nat)
    ensures Ordered(Runs(xs)) && (v in xs <==> Covers(Runs(xs), v))
    decreases |xs|
  {
    if xs != [] {
      var k := RunLength(xs);
      RunIsConsecutive(xs, k - 1);
      RunCovers(xs, v);
      RunsCover(xs[k..], v);
      FirstRunCovers((xs[0], xs[k - 1]), Runs(xs[k..]), v);
    }
  }

  lemma FirstRunCovers(run: Run, runs: seq<Run>, v: nat)
    requires Ordered(runs) && run.0 <= run.1
    ensures Ordered([run] + runs) && (Covers([run] + runs, v) <==> Within(run, v) || Covers(runs, v))
  {
    CoversCons(run, runs, v);
  }

  /** What printed runs list is what they cover. */
  lemma {:induction false} PrintedRunsList(runs: seq<Run>, v: nat)
    requires Ordered(runs)
    ensures Listed(Chunks(PrintRuns(runs)), v) <==> Covers(runs, v)
  {
    if runs == [] {
      NothingListed(v);
    } else {
      PrintedRunsList(runs[1..], v);
      FirstRunListed(runs[0], PrintChunk(runs[0].0, runs[0].1), PrintRuns(runs[1..]), v);
      assert runs == [runs[0]] + runs[1..];
      CoversCons(runs[0], runs[1..], v);
    }
  }

  lemma FirstRunListed(run: Run, chunk: string, rest: string, v: nat)
    requires run.0 <= run.1 && chunk == PrintChunk(run.0, run.1)
    ensures Listed(Chunks(chunk), v) <==> Within(run, v)
    ensures Listed(Chunks(chunk + "," + rest), v) <==> Within(run, v) || Listed(Chunks(rest), v)
  {
    ChunkIsTight(run.0, run.1);
    FirstChunk(chunk, rest);
    ChunkCovers(run.0, run.1, v);
    ListedCons(chunk, Chunks(rest), v);
    ListedCons(chunk, [], v);
    assert [chunk] + [] == [chunk];
  }

  /** The canonical form of a list covers exactly its elements. */
  lemma PrintLists(xs: seq<Cpu>, v: nat)
    ensures v in xs <==> Listed(Chunks(Print(xs)), v)
  {
    RunsCover(xs, v);
    PrintedRunsList(Runs(xs), v);
  }

  /** Whatever parsing returns for the canonical form of an increasing list is that list. */
  lemma PrintParsesBack(xs: seq<Cpu>, out: seq<Cpu>)
    requires Increasing(xs) && Denotes(out, Chunks(Print(xs)))
    ensures out == xs
  {
    forall v ensures v in out <==> v in xs {
      PrintLists(xs, v);
    }
    IncreasingUnique(out, xs);
  }
}
