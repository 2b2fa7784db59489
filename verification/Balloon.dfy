/** The balloon prompt's arithmetic: offered sizes, typed sizes, and the final check. */
module Balloons {
  import opened Wrappers
  import opened Numerals
  import opened Events

  const DOM0_FLOOR_MB: Word := 512

  function SatAdd(a: Word, b: Word): Word {
    if a + b < U64 then a + b else U64 - 1
  }

  function SatSub(a: Word, b: Word): Word {
    if a >= b then a - b else 0
  }

  function SatTriple(a: Word): Word {
    if a * 3 < U64 then a * 3 else U64 - 1
  }

  function Lower(a: Word, b: Word): Word {
    if a <= b then a else b
  }

  function Higher(a: Word, b: Word): Word {
    if a >= b then a else b
  }

  predicate Increasing(xs: seq<Word>) {
    forall i, j :: 0 <= i < j < |xs| ==> xs[i] < xs[j]
  }

  /** Insertion into an increasing list, unless already there. */
  function Insert(x: Word, xs: seq<Word>): (r: seq<Word>)
    ensures forall v :: v in r <==> v == x || v in xs
  {
    if xs == [] || x < xs[0] then [x] + xs
    else if x == xs[0] then xs
    else [xs[0]] + Insert(x, xs[1..])
  }

  lemma {:induction false} InsertIncreasing(x: Word, xs: seq<Word>)
    requires Increasing(xs)
    ensures Increasing(Insert(x, xs))
  {
    if xs != [] && x > xs[0] {
      InsertIncreasing(x, xs[1..]);
      var tail := Insert(x, xs[1..]);
      forall i | 0 <= i < |tail| ensures xs[0] < tail[i] {
        assert tail[i] in tail;
        if tail[i] in xs[1..] {
          var j :| 0 <= j < |xs[1..]| && xs[1..][j] == tail[i];
        }
      }
    }
  }

  /** The positive values, in order, once each. */
  function SortedUnique(values: seq<Word>): (r: seq<Word>)
    ensures forall v :: v in r <==> v in values && v > 0
  {
    if values == [] then []
    else if values[0] > 0 then Insert(values[0], SortedUnique(values[1..]))
    else SortedUnique(values[1..])
  }

  lemma {:induction false} SortedUniqueIncreasing(values: seq<Word>)
    ensures Increasing(SortedUnique(values))
  {
    if values != [] {
      SortedUniqueIncreasing(values[1..]);
      InsertIncreasing(values[0], SortedUnique(values[1..]));
    }
  }

  function Within(values: seq<Word>, floor: Word, cap: Word): (r: seq<Word>)
    ensures forall v :: v in r <==> v in values && floor <= v <= cap
  {
    if values == [] then []
    else (if floor <= values[0] <= cap then [values[0]] else []) + Within(values[1..], floor, cap)
  }

  function Cap(currentMb: Word, maxMb: Word): Word {
    if maxMb > 0 then maxMb else Higher(currentMb, 1)
  }

  function Floor(dom0: bool): Word {
    if dom0 then DOM0_FLOOR_MB else 1
  }

  /** The sizes offered as presets. */
  function BalloonOptions(currentMb: Word, maxMb: Word, dom0: bool): (r: seq<Word>)
    ensures r != []
  {
    var cap, floor := Cap(currentMb, maxMb), Floor(dom0);
    var values := SortedUnique(Within(
      [ floor, Higher(currentMb, floor), cap, cap / 4, cap / 2, SatTriple(cap) / 4,
        Higher(SatSub(currentMb, 256), floor), Higher(SatSub(currentMb, 512), floor),
        Lower(SatAdd(currentMb, 256), cap), Lower(SatAdd(currentMb, 512), cap) ],
      floor, cap));
    if values == [] then [Higher(currentMb, 1)] else values
  }

  datatype TargetError = Empty | NotANumber | PercentTooLarge | Zero | AboveMax | BelowFloor

  datatype BalloonEntry = Presets | ManualMb | Percentage {
    function Next(): BalloonEntry {
      match this
      case Presets => ManualMb
      case ManualMb => Percentage
      case Percentage => Presets
    }
  }

  /** A percentage of a ceiling; it rounds half up, and the product wraps at 64 bits. */
  function Share(cap: Word, pct: nat): Word {
    (cap * pct + 50) % U64 / 100
  }

  /** The size that a prompt asks for. */
  function ResolveTarget(
      entry: BalloonEntry, text: string, options: seq<Word>, idx: nat, currentMb: Word, maxMb: Word)
    : Result<Word, TargetError>
  {
    match entry
    case Presets => Ok(if idx < |options| then options[idx] else Higher(currentMb, 1))
    case ManualMb =>
      if text == "" then Err(Empty)
      else (match ParseU64(text) case None => Err(NotANumber) case Some(n) => Ok(n))
    case Percentage =>
      if text == "" then Err(Empty)
      else
        match ParseU64(text)
        case None => Err(NotANumber)
        case Some(pct) =>
          if pct > 100 then Err(PercentTooLarge)
          else Ok(Share(if maxMb > 0 then maxMb else currentMb, pct))
  }

  function ValidateTarget(targetMb: Word, maxMb: Word, dom0: bool): Result<Word, TargetError> {
    if targetMb == 0 then Err(Zero)
    else if maxMb > 0 && targetMb > maxMb then Err(AboveMax)
    else if dom0 && targetMb < DOM0_FLOOR_MB then Err(BelowFloor)
    else Ok(targetMb)
  }

  /** A size that the current one and the ceiling suggest. */
  predicate Suggested(v: Word, currentMb: Word, cap: Word, floor: Word) {
    || v == floor || v == Higher(currentMb, floor)
    || v == cap || v == cap / 4 || v == cap / 2 || v == SatTriple(cap) / 4
    || v == Higher(SatSub(currentMb, 256), floor) || v == Higher(SatSub(currentMb, 512), floor)
    || v == Lower(SatAdd(currentMb, 256), cap) || v == Lower(SatAdd(currentMb, 512), cap)
  }

  /** The presets are the suggested sizes between floor and ceiling, in increasing order; where the floor
      is above the ceiling, the current size alone. */
  lemma OfferedIff(currentMb: Word, maxMb: Word, dom0: bool, v: Word)
    ensures
      var r, cap, floor := BalloonOptions(currentMb, maxMb, dom0), Cap(currentMb, maxMb), Floor(dom0);
      && Increasing(r)
      && if floor <= cap then v in r <==> floor <= v <= cap && Suggested(v, currentMb, cap, floor)
         else r == [Higher(currentMb, 1)]
  {
    var cap, floor := Cap(currentMb, maxMb), Floor(dom0);
    var raw := [ floor, Higher(currentMb, floor), cap, cap / 4, cap / 2, SatTriple(cap) / 4,
                 Higher(SatSub(currentMb, 256), floor), Higher(SatSub(currentMb, 512), floor),
                 Lower(SatAdd(currentMb, 256), cap), Lower(SatAdd(currentMb, 512), cap) ];
    var values := SortedUnique(Within(raw, floor, cap));
    SortedUniqueIncreasing(Within(raw, floor, cap));
    assert v in raw <==> Suggested(v, currentMb, cap, floor);
    assert raw[0] in raw;
    assert floor <= cap ==> floor in values;
    assert |values| > 0 ==> values[0] in values && floor <= values[0] <= cap;
  }

  /** Presets are in increasing order and, with the default floor no higher than the ceiling, all
      of them lie between the two, both ends included. */
  lemma PresetsInRange(currentMb: Word, maxMb: Word, dom0: bool)
    ensures
      var r, cap, floor := BalloonOptions(currentMb, maxMb, dom0), Cap(currentMb, maxMb), Floor(dom0);
      && Increasing(r)
      && if floor <= cap then floor in r && cap in r && forall v :: v in r ==> floor <= v <= cap
         else r == [Higher(currentMb, 1)]
  {
    var r, cap, floor := BalloonOptions(currentMb, maxMb, dom0), Cap(currentMb, maxMb), Floor(dom0);
    OfferedIff(currentMb, maxMb, dom0, floor);
    OfferedIff(currentMb, maxMb, dom0, cap);
    forall v | floor <= cap && v in r ensures floor <= v <= cap {
      OfferedIff(currentMb, maxMb, dom0, v);
    }
  }

  /** The current size is offered when it is in range. */
  lemma CurrentIsOffered(currentMb: Word, maxMb: Word, dom0: bool)
    requires Floor(dom0) <= currentMb && (maxMb > 0 ==> currentMb <= maxMb)
    ensures currentMb in BalloonOptions(currentMb, maxMb, dom0)
  {
    OfferedIff(currentMb, maxMb, dom0, currentMb);
  }

  /** So are the quarters of the ceiling, rounded down, and the sizes 256 and 512 MB either side of the
      current one, as far as they are in range. */
  lemma StepsAreOffered(currentMb: Word, maxMb: Word, dom0: bool, v: Word)
    requires Floor(dom0) <= v <= Cap(currentMb, maxMb)
    requires
      || (exists k :: 1 <= k <= 4 && QuarterOf(v, k, Cap(currentMb, maxMb)))
      || v == currentMb + 256 || v == currentMb + 512 || v + 256 == currentMb || v + 512 == currentMb
    ensures v in BalloonOptions(currentMb, maxMb, dom0)
  {
    var cap, floor := Cap(currentMb, maxMb), Floor(dom0);
    OfferedIff(currentMb, maxMb, dom0, v);
    if k :| 1 <= k <= 4 && QuarterOf(v, k, cap) {
      QuarterIsSuggested(v, k, currentMb, cap, floor);
    }
  }

  lemma QuarterIsSuggested(v: Word, k: int, currentMb: Word, cap: Word, floor: Word)
    requires 1 <= k <= 4 && QuarterOf(v, k, cap)
    ensures Suggested(v, currentMb, cap, floor)
  {
    if k == 1 {
      assert v == cap / 4;
    } else if k == 2 {
      assert v == cap / 2;
    } else if k == 3 {
      assert v == SatTriple(cap) / 4;
    }
  }

  /** The largest whole number of megabytes in `k` quarters; three times the ceiling must fit 64 bits. */
  predicate QuarterOf(v: Word, k: int, cap: Word) {
    4 * v <= k * cap < 4 * v + 4 && (k == 3 ==> 3 * cap < U64)
  }

  /** Every preset offered passes the final check, unless the domain is dom0 with a ceiling below
      its floor; there none does. */
  lemma PresetsPassIff(currentMb: Word, maxMb: Word, dom0: bool, v: Word)
    requires v in BalloonOptions(currentMb, maxMb, dom0)
    ensures ValidateTarget(v, maxMb, dom0).Ok? <==> !dom0 || Cap(currentMb, maxMb) >= DOM0_FLOOR_MB
  {
    PresetsInRange(currentMb, maxMb, dom0);
  }

  /** A typed percentage asks for that share of the ceiling. */
  lemma PercentageResolves(pct: nat, options: seq<Word>, idx: nat, currentMb: Word, maxMb: Word)
    requires pct <= 100
    ensures
      var cap := if maxMb > 0 then maxMb else currentMb;
      ResolveTarget(Percentage, Decimal(pct), options, idx, currentMb, maxMb) == Ok(Share(cap, pct))
  {
    DecimalParses(pct, U64 - 1);
  }

  /** A share is the nearest megabyte, halves up, exactly when the product does not overflow; then
      it never exceeds the ceiling, and the whole of it is the ceiling. */
  lemma ShareIsNearestIff(cap: Word, pct: nat)
    requires pct <= 100
    ensures
      var t := Share(cap, pct);
      && (100 * t <= cap * pct + 50 < 100 * t + 100 <==> cap * pct + 50 < U64)
      && (cap * pct + 50 < U64 ==> t <= cap && (pct == 100 ==> t == cap))
  {
    ProductBelow(cap, pct);
    RoundedQuotient(cap, cap * pct, pct == 100);
  }

  /** A ceiling reported by the hypervisor is a number of kilobytes in megabytes, for which the product
      cannot overflow, so its shares are always the nearest megabyte. */
  lemma ReportedShareIsNearest(memKb: Word, pct: nat)
    requires pct <= 100
    ensures
      var cap: Word := memKb / 1024;
      var t := Share(cap, pct);
      100 * t <= cap * pct + 50 < 100 * t + 100 && t <= cap && (pct == 100 ==> t == cap)
  {
    var cap: Word := memKb / 1024;
    ProductBelow(cap, pct);
    ShareIsNearestIff(cap, pct);
  }

  lemma ProductBelow(cap: Word, pct: nat)
    requires pct <= 100
    ensures cap * pct <= 100 * cap
  {
  }

  lemma RoundedQuotient(cap: Word, product: nat, whole: bool)
    requires product <= 100 * cap && (whole ==> product == 100 * cap)
    ensures
      var t := (product + 50) % U64 / 100;
      && (100 * t <= product + 50 < 100 * t + 100 <==> product + 50 < U64)
      && (product + 50 < U64 ==> t <= cap && (whole ==> t == cap))
  {
    Quotient(product + 50);
    if product + 50 >= U64 {
      Quotient((product + 50) % U64);
      Wrapped(product + 50);
    }
  }

  lemma Quotient(x: nat)
    ensures 100 * (x / 100) <= x < 100 * (x / 100) + 100
  {
  }

  /** A wrapped value is far below the value itself. */
  lemma Wrapped(x: nat)
    requires x >= U64
    ensures x % U64 <= x - U64
  {
  }

  function Distance(a: Word, b: Word): nat {
    if a >= b then a - b else b - a
  }

  /** Index of the first option closest to a target. */
  function NearestIndex(options: seq<Word>, target: Word): (i: nat)
    ensures options != [] ==> i < |options|
  {
    if |options| <= 1 then 0
    else
      var i := 1 + NearestIndex(options[1..], target);
      if Distance(options[0], target) <= Distance(options[i], target) then 0 else i
  }

  lemma {:induction false} NearestIsFirstClosest(options: seq<Word>, target: Word, j: nat)
    requires j < |options|
    ensures
      var i := NearestIndex(options, target);
      && Distance(options[i], target) <= Distance(options[j], target)
      && (j < i ==> Distance(options[i], target) < Distance(options[j], target))
  {
    if |options| > 1 {
      NearestIsFirstClosest(options[1..], target, if j > 0 then j - 1 else 0);
    }
  }

  /** Typed digits: at most six, so a typed size is always a number. */
  lemma TypedTextParses(text: string)
    requires text != "" && |text| <= 6 && forall i :: 0 <= i < |text| ==> '0' <= text[i] <= '9'
    ensures ParseU64(text).Some? && ParseU64(text).value < 1000000
  {
    assert AllDigits(text, 10);
    ValueBelowPower(text, 6);
    assert Power10(6) == 10 * Power10(5) == 10 * (10 * Power10(4));
    assert Power10(4) == 10 * Power10(3) == 10 * (10 * Power10(2));
    assert Power10(2) == 10 * Power10(1) == 10 * (10 * Power10(0));
  }

  lemma {:induction false} ValueBelowPower(s: string, k: nat)
    requires |s| <= k && AllDigits(s, 10)
    ensures ValueOf(s, 10) < Power10(k)
    decreases k
  {
    if s != [] {
      ValueBelowPower(s[..|s| - 1], k - 1);
    } else {
      PowerPositive(k);
    }
  }

  lemma {:induction false} PowerPositive(k: nat)
    ensures Power10(k) > 0
  {
    if k > 0 {
      PowerPositive(k - 1);
    }
  }
}
