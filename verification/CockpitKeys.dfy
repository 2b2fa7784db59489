/** What whole key sequences do in the cockpit, and which single keys have which effect. */
module CockpitKeys {
  import opened Wrappers
  import opened Text
  import opened Numerals
  import opened Events
  import opened Balloons
  import opened Cockpit
  import opened CockpitRuns

  function Press(c: char): Key {
    Key(Char(c), false)
  }

  function Typed(s: string): seq<Key> {
    if s == [] then [] else [Press(s[0])] + Typed(s[1..])
  }

  /** What a key does: the state after it and the command that leaves, if any. */
  type Handler = (Ui, Key) -> (Ui, Option<Cmd>)

  function Handling(env: Surroundings): Handler {
    (ui: Ui, k: Key) => HandleKey(ui, env, k)
  }

  function Leaving(cmd: Option<Cmd>): seq<Cmd> {
    if cmd.Some? then [cmd.value] else []
  }

  /** The commands that leave while keys are pressed one after the other. */
  function RunWith(h: Handler, ui: Ui, keys: seq<Key>): (Ui, seq<Cmd>)
    decreases |keys|
  {
    if keys == [] then (ui, [])
    else
      var (next, cmd) := h(ui, keys[0]);
      var (last, cmds) := RunWith(h, next, keys[1..]);
      (last, Leaving(cmd) + cmds)
  }

  function Run(ui: Ui, env: Surroundings, keys: seq<Key>): (Ui, seq<Cmd>) {
    RunWith(Handling(env), ui, keys)
  }

  lemma RunFirst(h: Handler, ui: Ui, k: Key, rest: seq<Key>, next: Ui, cmd: Option<Cmd>)
    requires h(ui, k) == (next, cmd)
    ensures RunWith(h, ui, [k] + rest) == (RunWith(h, next, rest).0, Leaving(cmd) + RunWith(h, next, rest).1)
  {
    assert ([k] + rest)[1..] == rest;
  }

  lemma RunOne(h: Handler, ui: Ui, k: Key, next: Ui, cmd: Option<Cmd>)
    requires h(ui, k) == (next, cmd)
    ensures RunWith(h, ui, [k]) == (next, Leaving(cmd))
  {
    assert [k][1..] == [];
    assert Leaving(cmd) + [] == Leaving(cmd);
  }

  lemma RunTwo(h: Handler, ui: Ui, k1: Key, k2: Key, mid: Ui, last: Ui)
    requires h(ui, k1) == (mid, None) && h(mid, k2) == (last, None)
    ensures RunWith(h, ui, [k1, k2]) == (last, [])
  {
    RunOne(h, mid, k2, last, None);
    RunFirst(h, ui, k1, [k2], mid, None);
    assert [k1] + [k2] == [k1, k2];
    assert Leaving(None) + [] == [];
  }

  lemma {:induction false} RunConcat(h: Handler, ui: Ui, front: seq<Key>, back: seq<Key>)
    ensures
      var (mid, cmds) := RunWith(h, ui, front);
      RunWith(h, ui, front + back) == (RunWith(h, mid, back).0, cmds + RunWith(h, mid, back).1)
    decreases |front|
  {
    if front == [] {
      assert front + back == back;
      var more := RunWith(h, ui, back).1;
      assert [] + more == more;
    } else {
      var (next, cmd) := h(ui, front[0]);
      var (mid, cmds) := RunWith(h, next, front[1..]);
      assert (front + back)[1..] == front[1..] + back;
      RunConcat(h, next, front[1..], back);
      var more := RunWith(h, mid, back).1;
      assert Leaving(cmd) + (cmds + more) == (Leaving(cmd) + cmds) + more;
    }
  }

  /** Keys that send nothing, then more keys. */
  lemma RunAfter(h: Handler, ui: Ui, front: seq<Key>, back: seq<Key>, mid: Ui)
    requires RunWith(h, ui, front) == (mid, [])
    ensures RunWith(h, ui, front + back) == RunWith(h, mid, back)
  {
    RunConcat(h, ui, front, back);
    var more := RunWith(h, mid, back).1;
    assert [] + more == more;
  }

  lemma SendsAfter(h: Handler, ui: Ui, front: seq<Key>, back: seq<Key>, mid: Ui, cmds: seq<Cmd>)
    requires RunWith(h, ui, front) == (mid, []) && RunWith(h, mid, back).1 == cmds
    ensures RunWith(h, ui, front + back).1 == cmds
  {
    RunAfter(h, ui, front, back, mid);
  }

  // ---- typing ----

  function WithText(ui: Ui, s: string): Ui
    requires ui.mode.BalloonPrompt?
  {
    ui.(mode := ui.mode.(text := s))
  }

  predicate TakesDigit(h: Handler, ui: Ui, c: char) {
    ui.mode.BalloonPrompt? && ui.mode.entryMode != Presets && |ui.mode.text| < 6 && IsDigit(c) ==>
      h(ui, Press(c)) == (WithText(ui, ui.mode.text + [c]), None)
  }

  lemma DigitIsTaken(env: Surroundings, ui: Ui, c: char)
    ensures TakesDigit(Handling(env), ui, c)
  {
  }

  lemma {:induction false} DigitsAreTyped(h: Handler, ui: Ui, s: string)
    requires forall u, c :: TakesDigit(h, u, c)
    requires ui.mode.BalloonPrompt? && ui.mode.entryMode != Presets && |ui.mode.text| + |s| <= 6
    requires forall i :: 0 <= i < |s| ==> IsDigit(s[i])
    ensures RunWith(h, ui, Typed(s)) == (WithText(ui, ui.mode.text + s), [])
    decreases |s|
  {
    if s == [] {
      assert ui.mode.text + s == ui.mode.text;
    } else {
      var next := WithText(ui, ui.mode.text + [s[0]]);
      assert TakesDigit(h, ui, s[0]);
      DigitsAreTyped(h, next, s[1..]);
      RunFirst(h, ui, Press(s[0]), Typed(s[1..]), next, None);
      assert ui.mode.text + [s[0]] + s[1..] == ui.mode.text + s;
      assert Leaving(None) + [] == [];
    }
  }

  /** A seventh digit is not taken. */
  lemma SixDigitsAtMost(ui: Ui, env: Surroundings, c: char)
    requires ui.mode.BalloonPrompt? && |ui.mode.text| == 6
    requires ui.mode.entryMode != Presets
    ensures HandleKey(ui, env, Press(c)) == (ui, None)
  {
  }

  /** Deleting takes back the last digit. */
  lemma BackspaceTakesBack(ui: Ui, env: Surroundings, c: char)
    requires ui.mode.BalloonPrompt? && ui.mode.entryMode != Presets && |ui.mode.text| < 6 && IsDigit(c)
    ensures Run(ui, env, [Press(c), Key(Backspace, false)]) == (ui, [])
  {
    var next := WithText(ui, ui.mode.text + [c]);
    DigitIsTaken(env, ui, c);
    assert (ui.mode.text + [c])[..|ui.mode.text|] == ui.mode.text;
    LastDigitGoes(next, env);
    RunTwo(Handling(env), ui, Press(c), Key(Backspace, false), next, ui);
  }

  lemma LastDigitGoes(ui: Ui, env: Surroundings)
    requires ui.mode.BalloonPrompt? && ui.mode.entryMode != Presets && ui.mode.text != ""
    ensures HandleKey(ui, env, Key(Backspace, false)) == (WithText(ui, ui.mode.text[..|ui.mode.text| - 1]), None)
  {
  }

  /** A size that the final check lets through: positive, no more than a reported ceiling, and for
      the text `0` no less than 512. */
  predicate Allowed(d: DomainView, mb: nat) {
    && mb > 0 && (d.Memory().1 > 0 ==> mb <= d.Memory().1)
    && (d.handle == "0" ==> mb >= 512)
  }

  lemma AllowedIsValid(d: DomainView, mb: Word)
    ensures ValidateTarget(mb, d.Memory().1, IsDom0(d.handle)).Ok? <==> Allowed(d, mb)
    ensures Allowed(d, mb) ==> ValidateTarget(mb, d.Memory().1, IsDom0(d.handle)) == Ok(mb)
  {
  }

  function Resolved(m: Mode): Result<Word, TargetError>
    requires m.BalloonPrompt?
  {
    ResolveTarget(m.entryMode, m.text, m.optionsMb, m.selectedIdx, m.currentMb, m.maxMb)
  }

  lemma EnterInPrompt(ui: Ui, env: Surroundings, mb: Word)
    requires ui.mode.BalloonPrompt? && Resolved(ui.mode) == Ok(mb)
    ensures
      var (next, cmd) := HandleKey(ui, env, Key(Enter, false));
      var check := ValidateTarget(mb, ui.mode.maxMb, IsDom0(ui.mode.domain));
      next.mode == Normal && cmd == if check.Ok? then Some(BalloonTo(ui.mode.domain, check.value)) else None
  {
  }

  /** Enter sends what the prompt resolves to, if it is allowed, and leaves the prompt. */
  lemma EnterSends(ui: Ui, env: Surroundings, d: DomainView, mb: Word)
    requires SamePrompt(ui.mode, BalloonPromptFor(d)) && Resolved(ui.mode) == Ok(mb)
    ensures
      var (next, cmd) := HandleKey(ui, env, Key(Enter, false));
      next.mode == Normal && cmd == if Allowed(d, mb) then Some(BalloonTo(d.handle, mb)) else None
  {
    PromptShowsDomain(d, ui.mode);
    AllowedIsValid(d, mb);
    EnterInPrompt(ui, env, mb);
  }

  lemma PromptShowsDomain(d: DomainView, m: Mode)
    requires SamePrompt(m, BalloonPromptFor(d))
    ensures m.domain == d.handle && m.currentMb == d.Memory().0 && m.maxMb == d.Memory().1
  {
  }

  /** The prompt for a domain, in a given entry mode, with nothing typed. */
  function Prompt(ui: Ui, d: DomainView, entry: BalloonEntry): Ui {
    ui.(mode := BalloonPromptFor(d).(entryMode := entry, text := ""))
  }

  lemma PromptOpens(ui: Ui, env: Surroundings, d: DomainView)
    requires ui.mode == Normal && ui.Selected() == Some(d)
    ensures HandleKey(ui, env, Press('b')) == (Prompt(ui, d, Presets), None)
  {
    BalloonOpens(ui, d);
    DomainChar(ui, env, 'b');
    PromptItself(ui, d);
    NormalPress(ui, env, 'b');
  }

  lemma NormalPress(ui: Ui, env: Surroundings, c: char)
    requires ui.mode == Normal
    ensures HandleKey(ui, env, Press(c)) == NormalChar(ui, env, c)
  {
  }

  lemma PromptItself(ui: Ui, d: DomainView)
    ensures Prompt(ui, d, Presets) == ui.(mode := BalloonPromptFor(d))
  {
  }

  lemma TabSwitches(ui: Ui, env: Surroundings)
    requires ui.mode.BalloonPrompt?
    ensures HandleKey(ui, env, Key(Tab, false)) ==
      (ui.(mode := ui.mode.(entryMode := ui.mode.entryMode.Next(), text := "")), None)
  {
  }

  lemma OpenAndTab(ui: Ui, env: Surroundings, d: DomainView)
    requires ui.mode == Normal && ui.Selected() == Some(d)
    ensures RunWith(Handling(env), ui, [Press('b'), Key(Tab, false)]) == (Prompt(ui, d, ManualMb), [])
  {
    PromptOpens(ui, env, d);
    TabSwitches(Prompt(ui, d, Presets), env);
    RunTwo(Handling(env), ui, Press('b'), Key(Tab, false), Prompt(ui, d, Presets), Prompt(ui, d, ManualMb));
  }

  /** Opening the prompt, switching to megabytes, typing a number and pressing enter asks for exactly
      that size for the selected domain, if it is allowed; otherwise nothing leaves. */
  lemma TypedResizeIsSent(ui: Ui, env: Surroundings, d: DomainView, mb: nat)
    requires ui.mode == Normal && ui.Selected() == Some(d) && mb < 1000000
    ensures
      var keys := [Press('b'), Key(Tab, false)] + (Typed(Decimal(mb)) + [Key(Enter, false)]);
      Run(ui, env, keys).1 == if Allowed(d, mb) then [BalloonTo(d.handle, mb)] else []
  {
    var front, rest :| front == [Press('b'), Key(Tab, false)] && rest == Typed(Decimal(mb)) + [Key(Enter, false)];
    OpenAndTab(ui, env, d);
    PromptIsSame(ui, d, ManualMb);
    TypedNumberIsSent(Prompt(ui, d, ManualMb), env, d, mb, mb);
    SendsAfter(Handling(env), ui, front, rest, Prompt(ui, d, ManualMb),
      if Allowed(d, mb) then [BalloonTo(d.handle, mb)] else []);
  }

  lemma PromptIsSame(ui: Ui, d: DomainView, entry: BalloonEntry)
    ensures SamePrompt(Prompt(ui, d, entry).mode, BalloonPromptFor(d))
    ensures Prompt(ui, d, entry).mode.entryMode == entry && Prompt(ui, d, entry).mode.text == ""
  {
  }

  /** The same with a number typed in either typing mode, asking for what it resolves to. */
  lemma TypedNumberIsSent(ui: Ui, env: Surroundings, d: DomainView, n: nat, mb: Word)
    requires SamePrompt(ui.mode, BalloonPromptFor(d)) && ui.mode.entryMode != Presets && ui.mode.text == ""
    requires n < 1000000 && Asks(ui.mode, n, mb)
    ensures Run(ui, env, Typed(Decimal(n)) + [Key(Enter, false)]).1 ==
      if Allowed(d, mb) then [BalloonTo(d.handle, mb)] else []
  {
    var h, full := Handling(env), WithText(ui, Decimal(n));
    SixDigits(n);
    forall u, c ensures TakesDigit(h, u, c) {
      DigitIsTaken(env, u, c);
    }
    DigitsAreTyped(h, ui, Decimal(n));
    assert "" + Decimal(n) == Decimal(n);
    RunAfter(h, ui, Typed(Decimal(n)), [Key(Enter, false)], full);
    FullPromptSends(full, env, d, n, mb);
  }

  lemma FullPromptSends(ui: Ui, env: Surroundings, d: DomainView, n: nat, mb: Word)
    requires SamePrompt(ui.mode, BalloonPromptFor(d)) && ui.mode.entryMode != Presets && ui.mode.text == Decimal(n)
    requires n < 1000000 && Asks(ui.mode, n, mb)
    ensures RunWith(Handling(env), ui, [Key(Enter, false)]).1 ==
      if Allowed(d, mb) then [BalloonTo(d.handle, mb)] else []
  {
    NumberResolves(ui.mode, n, mb);
    EnterSends(ui, env, d, mb);
    var (next, cmd) := HandleKey(ui, env, Key(Enter, false));
    RunOne(Handling(env), ui, Key(Enter, false), next, cmd);
  }

  /** The size that a number typed in a prompt asks for. */
  predicate Asks(m: Mode, n: nat, mb: Word) {
    m.BalloonPrompt? &&
    if m.entryMode == ManualMb then mb == n
    else n <= 100 && mb == Share(if m.maxMb > 0 then m.maxMb else m.currentMb, n)
  }

  lemma NumberResolves(m: Mode, n: nat, mb: Word)
    requires Asks(m, n, mb) && m.entryMode != Presets && m.text == Decimal(n) && n < 1000000
    ensures Resolved(m) == Ok(mb)
  {
    DecimalParses(n, U64 - 1);
    if m.entryMode == Percentage {
      PercentageResolves(n, m.optionsMb, m.selectedIdx, m.currentMb, m.maxMb);
    }
  }

  lemma SixDigits(n: nat)
    requires n < 1000000
    ensures |Decimal(n)| <= 6 && forall i :: 0 <= i < |Decimal(n)| ==> IsDigit(Decimal(n)[i])
  {
    assert Power10(6) == 10 * (10 * (10 * Power10(3)));
    assert Power10(3) == 10 * (10 * (10 * Power10(0)));
    DecimalLength(n, 6);
    DigitsAreDigits(n, 10);
  }

  /** With one more switch the number is a percentage of the ceiling. */
  lemma TypedPercentageIsSent(ui: Ui, env: Surroundings, d: DomainView, pct: nat)
    requires ui.mode == Normal && ui.Selected() == Some(d) && pct <= 100
    ensures
      var keys := [Press('b'), Key(Tab, false)] + ([Key(Tab, false)] + (Typed(Decimal(pct)) + [Key(Enter, false)]));
      var (current, max) := d.Memory();
      var mb := Share(if max > 0 then max else current, pct);
      Run(ui, env, keys).1 == if Allowed(d, mb) then [BalloonTo(d.handle, mb)] else []
  {
    var (current, max) := d.Memory();
    var h, rest := Handling(env), Typed(Decimal(pct)) + [Key(Enter, false)];
    var manual, percent := Prompt(ui, d, ManualMb), Prompt(ui, d, Percentage);
    OpenAndTab(ui, env, d);
    RunAfter(h, ui, [Press('b'), Key(Tab, false)], [Key(Tab, false)] + rest, manual);
    TabSwitches(manual, env);
    RunOne(h, manual, Key(Tab, false), percent, None);
    RunAfter(h, manual, [Key(Tab, false)], rest, percent);
    PromptIsSame(ui, d, Percentage);
    PromptShowsDomain(d, percent.mode);
    TypedNumberIsSent(percent, env, d, pct, Share(if max > 0 then max else current, pct));
  }

  // ---- presets ----

  /** One step of an index, stopping at the ends. */
  function StepBy(i: nat, down: bool, len: nat): nat {
    if down then (if i == 0 then 0 else i - 1) else if i + 1 >= len then i else i + 1
  }

  /** An arrow moves the choice one place, stopping at the ends; the letters do the same. */
  lemma ArrowsMoveChoice(ui: Ui, env: Surroundings, k: Key)
    requires ui.mode.BalloonPrompt? && ui.mode.entryMode == Presets && ui.mode.selectedIdx < |ui.mode.optionsMb|
    requires k.code in {Left, Right, Char('h'), Char('l')}
    ensures
      var (next, cmd) := HandleKey(ui, env, k);
      var down := k.code == Left || k.code == Char('h');
      && cmd == None && next.mode.BalloonPrompt?
      && next.mode.selectedIdx == StepBy(ui.mode.selectedIdx, down, |ui.mode.optionsMb|)
      && next.mode == ui.mode.(selectedIdx := next.mode.selectedIdx)
  {
  }

  /** The preset under the cursor is what enter sends. */
  lemma PresetIsSent(ui: Ui, env: Surroundings, d: DomainView)
    requires SamePrompt(ui.mode, BalloonPromptFor(d)) && ui.mode.entryMode == Presets
    requires ui.mode.selectedIdx < |ui.mode.optionsMb|
    ensures
      var mb := ui.mode.optionsMb[ui.mode.selectedIdx];
      HandleKey(ui, env, Key(Enter, false)).1 == if Allowed(d, mb) then Some(BalloonTo(d.handle, mb)) else None
  {
    EnterSends(ui, env, d, ui.mode.optionsMb[ui.mode.selectedIdx]);
  }

  /** The prompt opens on the current size when that can be offered. */
  lemma PromptOpensAtCurrent(d: DomainView)
    ensures
      var (current, max) := d.Memory();
      var m := BalloonPromptFor(d);
      (if d.handle == "0" then 512 else 1) <= current && (max > 0 ==> current <= max) ==>
        m.selectedIdx < |m.optionsMb| && m.optionsMb[m.selectedIdx] == current
  {
    var (current, max) := d.Memory();
    var dom0 := IsDom0(d.handle);
    if Floor(dom0) <= current && (max > 0 ==> current <= max) {
      CurrentIsOffered(current, max, dom0);
      NearestHits(BalloonOptions(current, max, dom0), current);
    }
  }

  lemma NearestHits(options: seq<Word>, target: Word)
    requires target in options
    ensures NearestIndex(options, target) < |options| && options[NearestIndex(options, target)] == target
  {
    var j :| 0 <= j < |options| && options[j] == target;
    NearestIsFirstClosest(options, target, j);
  }

  // ---- the policy editor ----

  /** The editor opens on the current size as minimum, the ceiling as maximum, and half a minute. */
  lemma EditorOpensAtPresent(d: DomainView, n: nat)
    ensures
      var (current, max) := d.Memory();
      var m := PolicyEditorFor(d, n);
      && m.domid == n && m.cooldownOptions[m.cooldownIdx] == 30
      && (0 < current ==> m.minIdx < |m.minOptions| && m.minOptions[m.minIdx] == current)
      && (256 <= current || 256 <= max ==>
            m.maxIdx < |m.maxOptions| && m.maxOptions[m.maxIdx] == if max >= current then max else current)
  {
    var (current, max) := d.Memory();
    if 0 < current {
      assert Lower(current, Higher(Higher(max, current), 256)) == current;
      NearestHits(PolicyMinOptions(current, max), current);
    }
    if 256 <= current || 256 <= max {
      NearestHits(PolicyMaxOptions(current, max), Higher(max, current));
    }
  }

  /** What the editor offers: fixed sizes, half of the current one, and round sizes up to the ceiling. */
  lemma EditorOffers(current: Word, max: Word, v: Word)
    ensures Increasing(PolicyMinOptions(current, max)) && Increasing(PolicyMaxOptions(current, max))
    ensures v in {256, 512, 1024} ==> v in PolicyMinOptions(current, max)
    ensures v >= 256 && 2 * v <= current <= 2 * v + 1 ==> v in PolicyMinOptions(current, max)
    ensures v == 2048 <= max ==> v in PolicyMinOptions(current, max)
    ensures v in {1024, 2048} ==> v in PolicyMaxOptions(current, max)
    ensures v in {4096, 8192} && v <= max ==> v in PolicyMaxOptions(current, max)
    ensures current <= v == max && v >= 256 ==> v in PolicyMaxOptions(current, max)
  {
    var cap := Higher(Higher(max, current), 256);
    SortedUniqueIncreasing([256, 512, 1024, Lower(current, cap), Higher(current / 2, 256), Lower(cap, 2048)]);
    SortedUniqueIncreasing([Higher(current, 256), cap, 1024, 2048, Lower(4096, cap), Lower(8192, cap)]);
  }

  /** An arrow moves the field in focus and no other; tab and the vertical arrows move the focus. */
  lemma ArrowsMoveFocusedField(ui: Ui, env: Surroundings, k: Key)
    requires ui.mode.PolicyEditor? && k.code in {Left, Right, Char('h'), Char('l')}
    ensures
      var m, next := ui.mode, HandleKey(ui, env, k).0.mode;
      var down := k.code == Left || k.code == Char('h');
      && HandleKey(ui, env, k).1 == None && SameEditor(next, m) && next.field == m.field
      && next.minIdx == (if m.field == Min then StepBy(m.minIdx, down, |m.minOptions|) else m.minIdx)
      && next.maxIdx == (if m.field == Max then StepBy(m.maxIdx, down, |m.maxOptions|) else m.maxIdx)
      && next.cooldownIdx ==
        (if m.field == Cooldown then StepBy(m.cooldownIdx, down, |m.cooldownOptions|) else m.cooldownIdx)
  {
  }

  lemma FocusCycles(ui: Ui, env: Surroundings)
    requires ui.mode.PolicyEditor? || ui.mode.InstanceWizard?
    ensures Run(ui, env, [Key(Down, false), Key(Up, false)]) == (ui, [])
    ensures Run(ui, env, [Key(Tab, false), Key(BackTab, false)]) == (ui, [])
    ensures HandleKey(ui, env, Key(Tab, false)) == HandleKey(ui, env, Key(Down, false))
    ensures HandleKey(ui, env, Key(Tab, false)).0.mode != ui.mode
  {
    var next := HandleKey(ui, env, Key(Tab, false)).0;
    assert HandleKey(ui, env, Key(Tab, false)) == HandleKey(ui, env, Key(Down, false)) == (next, None);
    assert HandleKey(next, env, Key(Up, false)) == HandleKey(next, env, Key(BackTab, false)) == (ui, None);
    RunTwo(Handling(env), ui, Key(Down, false), Key(Up, false), next, ui);
    RunTwo(Handling(env), ui, Key(Tab, false), Key(BackTab, false), next, ui);
  }

  /** Enter sends the shown policy exactly when it makes sense, and otherwise stays. */
  lemma PolicyIsSentIff(ui: Ui, env: Surroundings)
    requires ui.mode.PolicyEditor? && Valid(ui)
    ensures
      var m := ui.mode;
      var min, max, cd := m.minOptions[m.minIdx], m.maxOptions[m.maxIdx], m.cooldownOptions[m.cooldownIdx];
      var (next, cmd) := HandleKey(ui, env, Key(Enter, false));
      if min <= max && cd >= 1 then next.mode == Normal && cmd == Some(SetPolicy(m.domid, min, max, cd))
      else next.mode == m && cmd == None
  {
  }

  // ---- the instance wizard ----

  function WithName(ui: Ui, s: string): Ui
    requires ui.mode.InstanceWizard?
  {
    ui.(mode := ui.mode.(idInput := s))
  }

  predicate TakesLetter(h: Handler, ui: Ui, c: char) {
    ui.mode.InstanceWizard? && ui.mode.focus == Id && TypableIdChar(c) ==>
      h(ui, Press(c)) == (WithName(ui, ui.mode.idInput + [c]), None)
  }

  lemma LetterIsTaken(env: Surroundings, ui: Ui, c: char)
    ensures TakesLetter(Handling(env), ui, c)
  {
  }

  lemma {:induction false} NameIsTyped(h: Handler, ui: Ui, s: string)
    requires forall u, c :: TakesLetter(h, u, c)
    requires ui.mode.InstanceWizard? && ui.mode.focus == Id
    requires forall i :: 0 <= i < |s| ==> TypableIdChar(s[i])
    ensures RunWith(h, ui, Typed(s)) == (WithName(ui, ui.mode.idInput + s), [])
    decreases |s|
  {
    if s == [] {
      assert ui.mode.idInput + s == ui.mode.idInput;
    } else {
      var next := WithName(ui, ui.mode.idInput + [s[0]]);
      assert TakesLetter(h, ui, s[0]);
      NameIsTyped(h, next, s[1..]);
      RunFirst(h, ui, Press(s[0]), Typed(s[1..]), next, None);
      assert ui.mode.idInput + [s[0]] + s[1..] == ui.mode.idInput + s;
      assert Leaving(None) + [] == [];
    }
  }

  /** Opening the wizard, typing a name and pressing enter creates that instance on the first base
      image, with 4096 MB and 2 CPUs; without a base image or a name nothing leaves. */
  lemma NamedInstanceIsCreated(ui: Ui, env: Surroundings, name: string)
    requires ui.mode == Normal && forall i :: 0 <= i < |name| ==> TypableIdChar(name[i])
    ensures Run(ui, env, [Press('n')] + (Typed(name) + [Key(Enter, false)])).1 ==
      if name == "" || env.bases == [] || env.bases[0] == "" then []
      else [CreateInstance(name, env.bases[0], 4096, 2)]
  {
    var wizard := ui.(mode := WizardFor(env.bases));
    WizardOpens(ui, env, wizard);
    WizardIsDefaulted(ui, env, wizard);
    OpenedWizardRuns(ui, env, wizard, name);
  }

  function Created(name: string, env: Surroundings): seq<Cmd> {
    if name == "" || env.bases == [] || env.bases[0] == "" then []
    else [CreateInstance(name, env.bases[0], 4096, 2)]
  }

  /** A wizard on its first base, 4096 MB and 2 CPUs, with a name typed. */
  predicate Defaulted(m: Mode, bases: seq<string>, name: string) {
    && m.InstanceWizard? && m.idInput == name && m.knownBases == bases && m.baseIdx == 0 && m.focus == Id
    && m.memoryIdx < |m.memoryOptions| && m.memoryOptions[m.memoryIdx] == 4096
    && m.vcpuIdx < |m.vcpuOptions| && m.vcpuOptions[m.vcpuIdx] == 2
  }

  lemma WizardOpens(ui: Ui, env: Surroundings, wizard: Ui)
    requires ui.mode == Normal && wizard == ui.(mode := WizardFor(env.bases))
    ensures HandleKey(ui, env, Press('n')) == (wizard, None)
  {
    NormalPress(ui, env, 'n');
  }

  lemma WizardIsDefaulted(ui: Ui, env: Surroundings, wizard: Ui)
    requires wizard == ui.(mode := WizardFor(env.bases))
    ensures Defaulted(wizard.mode, env.bases, "")
  {
    WizardDefaults();
  }

  lemma OpenedWizardRuns(ui: Ui, env: Surroundings, wizard: Ui, name: string)
    requires HandleKey(ui, env, Press('n')) == (wizard, None) && Defaulted(wizard.mode, env.bases, "")
    requires forall i :: 0 <= i < |name| ==> TypableIdChar(name[i])
    ensures Run(ui, env, [Press('n')] + (Typed(name) + [Key(Enter, false)])).1 == Created(name, env)
  {
    var front, rest :| front == [Press('n')] && rest == Typed(name) + [Key(Enter, false)];
    RunOne(Handling(env), ui, Press('n'), wizard, None);
    NamedWizardRuns(wizard, env, name);
    SendsAfter(Handling(env), ui, front, rest, wizard, Created(name, env));
  }

  lemma NamedWizardRuns(wizard: Ui, env: Surroundings, name: string)
    requires Defaulted(wizard.mode, env.bases, "") && forall i :: 0 <= i < |name| ==> TypableIdChar(name[i])
    ensures RunWith(Handling(env), wizard, Typed(name) + [Key(Enter, false)]).1 == Created(name, env)
  {
    var h := Handling(env);
    forall u, c ensures TakesLetter(h, u, c) {
      LetterIsTaken(env, u, c);
    }
    NameIsTyped(h, wizard, name);
    assert "" + name == name;
    EnterInWizard(WithName(wizard, name), env, name);
    SendsAfter(h, wizard, Typed(name), [Key(Enter, false)], WithName(wizard, name), Created(name, env));
  }

  lemma EnterInWizard(ui: Ui, env: Surroundings, name: string)
    requires Defaulted(ui.mode, env.bases, name) && forall i :: 0 <= i < |name| ==> TypableIdChar(name[i])
    ensures RunWith(Handling(env), ui, [Key(Enter, false)]).1 == Created(name, env)
  {
    IdIsTight(name);
    var (next, cmd) := HandleKey(ui, env, Key(Enter, false));
    assert Leaving(cmd) == Created(name, env);
    RunOne(Handling(env), ui, Key(Enter, false), next, cmd);
  }

  lemma WizardDefaults()
    ensures MEMORY_CHOICES[NearestIndex(MEMORY_CHOICES, DEFAULT_MEMORY_MB)] == 4096
    ensures VCPU_CHOICES[NearestIndex(VCPU_CHOICES, DEFAULT_VCPUS)] == 2
    ensures NearestIndex(MEMORY_CHOICES, DEFAULT_MEMORY_MB) < |MEMORY_CHOICES|
    ensures NearestIndex(VCPU_CHOICES, DEFAULT_VCPUS) < |VCPU_CHOICES|
  {
    assert MEMORY_CHOICES[3] == 4096 && VCPU_CHOICES[1] == 2;
    NearestHits(MEMORY_CHOICES, 4096);
    NearestHits(VCPU_CHOICES, 2);
  }

  /** The wizard offers doubling sizes, from 512 MB to 16 GB and from 1 to 16 CPUs. */
  lemma ChoicesDouble(i: nat)
    ensures |MEMORY_CHOICES| == 6 && MEMORY_CHOICES[0] == 512 && |VCPU_CHOICES| == 5 && VCPU_CHOICES[0] == 1
    ensures i + 1 < 6 ==> MEMORY_CHOICES[i + 1] == 2 * MEMORY_CHOICES[i]
    ensures i + 1 < 5 ==> VCPU_CHOICES[i + 1] == 2 * VCPU_CHOICES[i]
  {
  }

  /** What leaves the wizard is what it shows, and it leaves exactly when a name and a base are given. */
  lemma InstanceIsAsShown(ui: Ui, env: Surroundings, k: Key)
    requires ui.mode.InstanceWizard? && Valid(ui)
    ensures
      var m, cmd := ui.mode, HandleKey(ui, env, k).1;
      && (cmd.Some? <==> k.code == Enter && m.idInput != "" && m.knownBases != [] && m.knownBases[m.baseIdx] != "")
      && (cmd.Some? ==> cmd.value == CreateInstance(
            m.idInput, m.knownBases[m.baseIdx], m.memoryOptions[m.memoryIdx], m.vcpuOptions[m.vcpuIdx]))
  {
    IdIsTight(ui.mode.idInput);
  }

  /** In the wizard, the base goes round and the other choices stop at their ends; only the one in
      focus moves. */
  lemma WizardArrows(ui: Ui, env: Surroundings, k: Key)
    requires ui.mode.InstanceWizard? && Valid(ui) && k.code in {Left, Right, Char('h'), Char('l')}
    ensures
      var m, next := ui.mode, HandleKey(ui, env, k).0.mode;
      var down, n := k.code == Left || k.code == Char('h'), |m.knownBases|;
      && HandleKey(ui, env, k).1 == None && next.InstanceWizard? && next.idInput == m.idInput && next.focus == m.focus
      && next.knownBases == m.knownBases && next.memoryOptions == m.memoryOptions && next.vcpuOptions == m.vcpuOptions
      && next.baseIdx == (if m.focus != Base || n == 0 then m.baseIdx
                          else if down then (if m.baseIdx == 0 then n - 1 else m.baseIdx - 1)
                          else if m.baseIdx == n - 1 then 0 else m.baseIdx + 1)
      && next.memoryIdx ==
        (if m.focus == MemoryField then StepBy(m.memoryIdx, down, |m.memoryOptions|) else m.memoryIdx)
      && next.vcpuIdx == (if m.focus == Vcpus then StepBy(m.vcpuIdx, down, |m.vcpuOptions|) else m.vcpuIdx)
  {
    if ui.mode.knownBases != [] {
      Around(|ui.mode.knownBases|, ui.mode.baseIdx);
    }
  }

  // ---- the remaining effects ----

  /** The other commands, each with the only key that sends it. */
  lemma OtherCommandsIff(ui: Ui, env: Surroundings, k: Key)
    ensures
      var cmd := HandleKey(ui, env, k).1;
      && (cmd == Some(PromoteXenDefault) <==> ui.mode == ConfirmPromote && k.IsYes())
      && (cmd == Some(Refresh) <==> ui.mode == Normal && k.code == Char('r'))
      && (cmd == Some(CreateFromManifest) <==> ui.mode == Normal && k.code == Char('c') && !k.ctrl)
  {
    if ui.mode == Normal && k.code.Char? && !IsGlobal(k.code.c) {
      DomainChar(ui, env, k.code.c);
    }
  }

  /** The domain whose console a key asks for: the selected one, by `t` in normal mode, unless it is dom0. */
  predicate AsksConsole(ui: Ui, k: Key) {
    && ui.mode == Normal && k.code == Char('t') && ui.Selected().Some?
    && !IsDom0(ui.Selected().value.handle) && HandleToDomid(ui.Selected().value.handle).Some?
  }

  /** The boot mode changes only on yes to its confirmation, to what the toggle reports; the console
      to attach to and the end of the program come only from their keys in normal mode. */
  lemma SideEffectsIff(ui: Ui, env: Surroundings, k: Key)
    ensures
      var next := HandleKey(ui, env, k).0;
      var toggled := ui.mode.ConfirmBootMode? && k.IsYes() && env.toggled.Some?;
      && next.bootMode == (if toggled then env.toggled.value else ui.bootMode)
      && next.pendingConsole ==
        (if AsksConsole(ui, k) then HandleToDomid(ui.Selected().value.handle) else ui.pendingConsole)
      && (next.shouldQuit <==>
            || ui.shouldQuit || AsksConsole(ui, k)
            || (ui.mode == Normal && (k.code == Char('q') || (k.ctrl && k.code == Char('c')))))
  {
    if ui.mode == Normal {
      SideEffectsInNormal(ui, env, k);
    }
  }

  lemma SideEffectsInNormal(ui: Ui, env: Surroundings, k: Key)
    requires ui.mode == Normal
    ensures
      var next := NormalKey(ui, env, k).0;
      && next.bootMode == ui.bootMode
      && next.pendingConsole ==
        (if AsksConsole(ui, k) then HandleToDomid(ui.Selected().value.handle) else ui.pendingConsole)
      && (next.shouldQuit <==>
            ui.shouldQuit || AsksConsole(ui, k) || k.code == Char('q') || (k.ctrl && k.code == Char('c')))
  {
    if k.code.Char? && !IsGlobal(k.code.c) {
      DomainChar(ui, env, k.code.c);
    }
  }

  /** The confirmations and overlays that normal mode opens, each with its keys. */
  lemma OverlaysIff(ui: Ui, env: Surroundings, k: Key)
    requires ui.mode == Normal
    ensures
      var m := HandleKey(ui, env, k).0.mode;
      && (m == ConfirmPromote <==> k.code == Char('P'))
      && (m.ConfirmBootMode? <==> k.code == Char('B'))
      && (m.ConfirmBootMode? ==> m.target != ui.bootMode)
      && (m == HelpOverlay <==> k.code == Char('?') || k.code == F(1))
      && (m == HostResourcesOverlay <==> k.code == Char('H'))
      && (m.InstanceWizard? <==> k.code == Char('n'))
      && m != FirstRunWelcome
  {
    if k.code.Char? && !IsGlobal(k.code.c) {
      DomainChar(ui, env, k.code.c);
    }
  }

  /** Escape leaves every mode and does nothing else; so does any key, from an overlay or the welcome. */
  lemma EscapeCancels(ui: Ui, env: Surroundings, k: Key)
    requires k.code == Esc || ui.mode in {HelpOverlay, HostResourcesOverlay, FirstRunWelcome}
    ensures HandleKey(ui, env, k) == (ui.(mode := Normal), None)
  {
  }

  /** `L` empties the log, and three times `V` goes through all three verbosities. */
  lemma ViewKeys(ui: Ui, env: Surroundings)
    requires ui.mode == Normal
    ensures HandleKey(ui, env, Press('L')).0.events == []
    ensures
      var one := HandleKey(ui, env, Press('V')).0;
      var two := HandleKey(one, env, Press('V')).0;
      && HandleKey(two, env, Press('V')).0.verbosity == ui.verbosity
      && (ui.verbosity == All ==> one.verbosity == Important && two.verbosity == ErrorsOnly)
      && one.verbosity != ui.verbosity && two.verbosity != one.verbosity
  {
  }

  // ---- messages ----

  /** A new list keeps a selection that is still in it, and otherwise takes the last domain. */
  lemma SelectionIsKept(ui: Ui, domains: seq<DomainView>)
    ensures
      var next := Receive(ui, Snapshot(domains));
      && next.snapshot == Some(domains) && next.mode == ui.mode
      && (domains == [] ==> next.selected == None)
      && (ui.selected.Some? && ui.selected.value < |domains| ==> next.selected == ui.selected)
      && (ui.selected.Some? && 0 < |domains| <= ui.selected.value ==> next.selected == Some(|domains| - 1))
      && (ui.selected.None? && domains != [] ==> next.selected == Some(0))
  {
  }

  function ReceiveAll(ui: Ui, kinds: seq<Kind>): Ui {
    if kinds == [] then ui else Receive(ReceiveAll(ui, kinds[..|kinds| - 1]), Logged(kinds[|kinds| - 1]))
  }

  /** The log holds the latest 200 events, oldest first, and the latest one is also shown. */
  lemma {:induction false} LogKeepsLatest(ui: Ui, kinds: seq<Kind>)
    requires ui.events == []
    ensures ReceiveAll(ui, kinds).events == if |kinds| <= 200 then kinds else kinds[|kinds| - 200..]
    ensures kinds != [] ==> ReceiveAll(ui, kinds).toast == Some(kinds[|kinds| - 1])
  {
    if kinds != [] {
      var front, last := kinds[..|kinds| - 1], kinds[|kinds| - 1];
      LogKeepsLatest(ui, front);
      assert kinds == front + [last];
    }
  }
}
