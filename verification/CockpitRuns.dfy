/** What every run of the cockpit keeps, over any keys and any messages from the worker. */
module CockpitRuns {
  import opened Wrappers
  import opened Text
  import opened Numerals
  import opened Events
  import opened Balloons
  import opened Cockpit
  import opened Division

  predicate IndexIn(idx: nat, len: nat) {
    idx < len
  }

  /** Characters that a wizard id can come to hold. */
  predicate TypableIdChar(c: char) {
    IsIdChar(c) && c != 'h' && c != 'l'
  }

  predicate ValidMode(m: Mode) {
    match m
    case ConfirmKill(h) => !IsDom0(h)
    case BalloonPrompt(_, _, _, options, idx, _, text) =>
      IndexIn(idx, |options|) && |text| <= 6 && forall i :: 0 <= i < |text| ==> IsDigit(text[i])
    case PolicyEditor(_, mins, maxs, cds, i, j, k, _) =>
      IndexIn(i, |mins|) && IndexIn(j, |maxs|) && IndexIn(k, |cds|)
    case InstanceWizard(id, bases, b, mems, i, cpus, j, _) =>
      && (bases != [] ==> IndexIn(b, |bases|)) && IndexIn(i, |mems|) && IndexIn(j, |cpus|)
      && forall n :: 0 <= n < |id| ==> TypableIdChar(id[n])
    case _ => true
  }

  /** Every index is inside its list, the log is bounded, and dom0 is never up for destruction. */
  predicate Valid(ui: Ui) {
    && |ui.events| <= MAX_EVENTS
    && ValidMode(ui.mode)
    && match ui.snapshot
       case None => true
       case Some(ds) => if ds == [] then ui.selected.None? else ui.selected.Some? && IndexIn(ui.selected.value, |ds|)
  }

  /** What may leave for the worker from a given mode. */
  predicate Safe(m: Mode, cmd: Cmd) {
    match cmd
    case Start(h) => !IsDom0(h)
    case Stop(h, force) => !IsDom0(h) && (force ==> m == ConfirmKill(h))
    case BalloonTo(h, target) =>
      && m.BalloonPrompt? && m.domain == h && target > 0
      && (m.maxMb > 0 ==> target <= m.maxMb)
      && (IsDom0(h) ==> target >= DOM0_FLOOR_MB)
    case SetPolicy(_, min, max, cd) => min <= max && cd >= 1
    case CreateInstance(id, base, mem, cpus) =>
      && m.InstanceWizard? && base in m.knownBases && mem in m.memoryOptions && cpus in m.vcpuOptions
      && id != "" && forall i :: 0 <= i < |id| ==> TypableIdChar(id[i])
    case _ => true
  }

  predicate StepIsSafe(m: Mode, s: Step) {
    ValidMode(s.mode) && (s.cmd.Some? ==> Safe(m, s.cmd.value))
  }

  lemma BalloonKeySafe(m: Mode, k: Key)
    requires m.BalloonPrompt? && ValidMode(m)
    ensures StepIsSafe(m, BalloonKey(m, k))
  {
  }

  lemma PolicyKeySafe(m: Mode, k: Key)
    requires m.PolicyEditor? && ValidMode(m)
    ensures StepIsSafe(m, PolicyKey(m, k))
  {
  }

  lemma IdIsTight(id: string)
    requires forall n :: 0 <= n < |id| ==> TypableIdChar(id[n])
    ensures Trim(id) == id
  {
    TrimTight(id);
  }

  lemma WizardKeySafe(m: Mode, k: Key)
    requires m.InstanceWizard? && ValidMode(m)
    ensures StepIsSafe(m, WizardKey(m, k))
  {
    if k.code == Enter {
      IdIsTight(m.idInput);
    } else {
      ShiftWizardValid(m);
    }
  }

  lemma ShiftWizardValid(m: Mode)
    requires m.InstanceWizard? && ValidMode(m)
    ensures ValidMode(ShiftWizard(m, true)) && ValidMode(ShiftWizard(m, false))
  {
  }

  lemma PromptsAreValid(d: DomainView, domid: nat, bases: seq<string>)
    ensures ValidMode(BalloonPromptFor(d)) && ValidMode(PolicyEditorFor(d, domid)) && ValidMode(WizardFor(bases))
  {
    var (current, max) := d.Memory();
    PolicyOptionsNonempty(current, max);
  }

  lemma PolicyOptionsNonempty(current: Word, max: Word)
    ensures PolicyMinOptions(current, max) != [] && PolicyMaxOptions(current, max) != []
  {
    assert 256 in PolicyMinOptions(current, max);
    assert 1024 in PolicyMaxOptions(current, max);
  }

  predicate GoodOutcome(m: Mode, r: (Ui, Option<Cmd>)) {
    Valid(r.0) && (r.1.Some? ==> Safe(m, r.1.value))
  }

  lemma ModeChangeIsGood(ui: Ui, m: Mode)
    requires Valid(ui) && ValidMode(m)
    ensures GoodOutcome(ui.mode, (ui.(mode := m), None))
  {
  }

  lemma MoveIsGood(ui: Ui, delta: int)
    requires Valid(ui)
    ensures GoodOutcome(ui.mode, (ui.Moved(delta), None))
  {
  }

  lemma NormalKeySafe(ui: Ui, env: Surroundings, k: Key)
    requires Valid(ui) && ui.mode == Normal
    ensures GoodOutcome(ui.mode, NormalKey(ui, env, k))
  {
    match k.code
    case F(_) => ModeChangeIsGood(ui, HelpOverlay);
    case Down => MoveIsGood(ui, 1);
    case Up => MoveIsGood(ui, -1);
    case Char(c) => NormalCharSafe(ui, env, c);
    case _ =>
  }

  lemma NormalCharSafe(ui: Ui, env: Surroundings, c: char)
    requires Valid(ui) && ui.mode == Normal
    ensures GoodOutcome(ui.mode, NormalChar(ui, env, c))
  {
    if IsGlobal(c) {
      GlobalCharSafe(ui, env, c);
    } else if ui.Selected().Some? {
      OnDomainSafe(ui, ui.Selected().value, c);
      DomainChar(ui, env, c);
    } else {
      DomainChar(ui, env, c);
    }
  }

  /** Keys that do not depend on the selected domain. */
  predicate IsGlobal(c: char) {
    || c == 'q' || c == 'r' || c == '?' || c == 'H' || c == 'j' || c == 'k'
    || c == 'c' || c == 'n' || c == 'P' || c == 'B' || c == 'L' || c == 'V'
  }

  lemma DomainChar(ui: Ui, env: Surroundings, c: char)
    requires !IsGlobal(c)
    ensures NormalChar(ui, env, c) ==
      if ui.Selected().Some? then OnDomain(ui, ui.Selected().value, c) else (ui, None)
  {
  }

  lemma GlobalCharSafe(ui: Ui, env: Surroundings, c: char)
    requires Valid(ui) && ui.mode == Normal && IsGlobal(c)
    ensures GoodOutcome(ui.mode, NormalChar(ui, env, c))
  {
    MoveIsGood(ui, 1);
    MoveIsGood(ui, -1);
    PromptsAreValid(DomainView("", "", Created, None), 0, env.bases);
    ModeChangeIsGood(ui, WizardFor(env.bases));
  }

  lemma OnDomainSafe(ui: Ui, d: DomainView, c: char)
    requires Valid(ui) && ui.mode == Normal
    ensures GoodOutcome(ui.mode, OnDomain(ui, d, c))
  {
    if c == 'b' {
      OpenBalloonSafe(ui, d);
    } else if c == 'M' {
      OpenPolicySafe(ui, d);
    } else {
      OtherDomainKeySafe(ui, d, c);
    }
  }

  lemma OpeningIsSafe(ui: Ui, d: DomainView, c: char, m: Mode)
    requires Valid(ui) && ui.mode == Normal && ValidMode(m)
    requires OnDomain(ui, d, c) == (ui.(mode := m), None)
    ensures GoodOutcome(ui.mode, OnDomain(ui, d, c))
  {
    ModeChangeIsGood(ui, m);
  }

  lemma BalloonOpens(ui: Ui, d: DomainView)
    ensures OnDomain(ui, d, 'b') == (ui.(mode := BalloonPromptFor(d)), None)
  {
  }

  lemma PolicyOpens(ui: Ui, d: DomainView, domid: Option<nat>, m: Mode)
    requires domid.Some? && domid == HandleToDomid(d.handle) && m == PolicyEditorFor(d, domid.value)
    ensures OnDomain(ui, d, 'M') == (ui.(mode := m), None)
  {
  }

  lemma OpenBalloonSafe(ui: Ui, d: DomainView)
    requires Valid(ui) && ui.mode == Normal
    ensures GoodOutcome(ui.mode, OnDomain(ui, d, 'b'))
  {
    PromptsAreValid(d, 0, []);
    BalloonOpens(ui, d);
    OpeningIsSafe(ui, d, 'b', BalloonPromptFor(d));
  }

  lemma OpenPolicySafe(ui: Ui, d: DomainView)
    requires Valid(ui) && ui.mode == Normal
    ensures GoodOutcome(ui.mode, OnDomain(ui, d, 'M'))
  {
    var domid := HandleToDomid(d.handle);
    if domid.Some? {
      PromptsAreValid(d, domid.value, []);
      PolicyOpens(ui, d, domid, PolicyEditorFor(d, domid.value));
      OpeningIsSafe(ui, d, 'M', PolicyEditorFor(d, domid.value));
    }
  }

  lemma OtherDomainKeySafe(ui: Ui, d: DomainView, c: char)
    requires Valid(ui) && ui.mode == Normal && c != 'b' && c != 'M'
    ensures GoodOutcome(ui.mode, OnDomain(ui, d, c))
  {
  }

  /** One key: the state stays valid and the command, if any, is safe. */
  lemma KeySafe(ui: Ui, env: Surroundings, k: Key)
    requires Valid(ui)
    ensures GoodOutcome(ui.mode, HandleKey(ui, env, k))
  {
    match ui.mode
    case Normal => NormalKeySafe(ui, env, k);
    case BalloonPrompt(_, _, _, _, _, _, _) => BalloonKeySafe(ui.mode, k);
    case PolicyEditor(_, _, _, _, _, _, _, _) => PolicyKeySafe(ui.mode, k);
    case InstanceWizard(_, _, _, _, _, _, _, _) => WizardKeySafe(ui.mode, k);
    case _ =>
  }

  // ---- runs ----

  datatype Input = Pressed(env: Surroundings, key: Key) | Received(msg: Message)

  function React(ui: Ui, input: Input): (Ui, Option<Cmd>) {
    match input
    case Pressed(env, k) => HandleKey(ui, env, k)
    case Received(msg) => (Receive(ui, msg), None)
  }

  /** The state a session starts from. */
  predicate Initial(ui: Ui) {
    && ui.snapshot == None && ui.selected == Some(0) && ui.events == []
    && (ui.mode == Normal || ui.mode == FirstRunWelcome)
  }

  predicate StepAt(us: seq<Ui>, inputs: seq<Input>, i: nat)
    requires i < |inputs| && |us| == |inputs| + 1
  {
    us[i + 1] == React(us[i], inputs[i]).0
  }

  /** A session: the states it goes through, one more than its inputs. */
  ghost predicate Session(us: seq<Ui>, inputs: seq<Input>) {
    |us| == |inputs| + 1 && Initial(us[0]) && forall i :: 0 <= i < |inputs| ==> StepAt(us, inputs, i)
  }

  /** The command that an input gives rise to. */
  function Emitted(us: seq<Ui>, inputs: seq<Input>, i: nat): Option<Cmd>
    requires i < |inputs| && |us| == |inputs| + 1
  {
    React(us[i], inputs[i]).1
  }

  lemma {:induction false} SessionStaysValid(us: seq<Ui>, inputs: seq<Input>, n: nat)
    requires Session(us, inputs) && n <= |inputs|
    ensures Valid(us[n])
  {
    if n > 0 {
      SessionStaysValid(us, inputs, n - 1);
      assert StepAt(us, inputs, n - 1);
      ReactSafe(us[n - 1], inputs[n - 1]);
    }
  }

  lemma ReactSafe(ui: Ui, input: Input)
    requires Valid(ui)
    ensures GoodOutcome(ui.mode, React(ui, input))
  {
    match input
    case Pressed(env, k) => KeySafe(ui, env, k);
    case Received(msg) => ReceiveValid(ui, msg);
  }

  lemma ReceiveValid(ui: Ui, msg: Message)
    requires Valid(ui)
    ensures Valid(Receive(ui, msg))
  {
  }

  /** Over every session, every index stays in bounds and every command is safe for the mode it
      leaves from. */
  lemma CommandsAreSafe(us: seq<Ui>, inputs: seq<Input>, i: nat)
    requires Session(us, inputs) && i < |inputs|
    ensures Valid(us[i])
    ensures Emitted(us, inputs, i).Some? ==> Safe(us[i].mode, Emitted(us, inputs, i).value)
  {
    SessionStaysValid(us, inputs, i);
    ReactSafe(us[i], inputs[i]);
  }

  /** At `j`, in normal mode, the destruction of `h` was asked for on the domain then selected, and
      since then no key was pressed before `n`. */
  predicate AskedAt(us: seq<Ui>, inputs: seq<Input>, j: nat, n: nat, h: string)
    requires n <= |inputs| && |us| == |inputs| + 1
  {
    && j < n && inputs[j].Pressed? && inputs[j].key.code == Char('X')
    && us[j].mode == Normal && us[j].Selected().Some? && us[j].Selected().value.handle == h
    && forall i :: j < i < n ==> inputs[i].Received?
  }

  /** Only a request in normal mode leads to the confirmation, and any key leaves it. */
  lemma ConfirmationComesFromRequest(ui: Ui, env: Surroundings, k: Key, h: string)
    requires HandleKey(ui, env, k).0.mode == ConfirmKill(h)
    ensures ui.mode == Normal && k.code == Char('X')
    ensures ui.Selected().Some? && ui.Selected().value.handle == h
  {
    if ui.mode == Normal && k.code.Char? && !IsGlobal(k.code.c) {
      DomainChar(ui, env, k.code.c);
    }
  }

  /** How a step can end in the confirmation. */
  lemma StepToConfirmation(ui: Ui, input: Input, h: string)
    requires React(ui, input).0.mode == ConfirmKill(h)
    ensures if input.Received? then ui.mode == ConfirmKill(h)
      else ui.mode == Normal && input.key.code == Char('X') && ui.Selected().Some? && ui.Selected().value.handle == h
  {
    if input.Pressed? {
      ConfirmationComesFromRequest(ui, input.env, input.key, h);
    }
  }

  lemma {:induction false} ConfirmationWasAskedFor(us: seq<Ui>, inputs: seq<Input>, n: nat, h: string) returns (j: nat)
    requires Session(us, inputs) && n <= |inputs| && us[n].mode == ConfirmKill(h)
    ensures AskedAt(us, inputs, j, n, h)
  {
    assert StepAt(us, inputs, n - 1);
    StepToConfirmation(us[n - 1], inputs[n - 1], h);
    j := n - 1;
    if inputs[n - 1].Received? {
      j := ConfirmationWasAskedFor(us, inputs, n - 1, h);
    }
  }

  /** A domain is destroyed only by two keys in a row: one asking for it while that domain is
      selected, and then yes. Whatever the worker reports in between cannot redirect it. */
  lemma DestroyIsConfirmed(us: seq<Ui>, inputs: seq<Input>, i: nat, h: string)
    requires Session(us, inputs) && i < |inputs| && Emitted(us, inputs, i) == Some(Stop(h, true))
    ensures inputs[i].Pressed? && inputs[i].key.IsYes() && !IsDom0(h)
    ensures exists j: nat :: AskedAt(us, inputs, j, i, h)
  {
    CommandsAreSafe(us, inputs, i);
    var j := ConfirmationWasAskedFor(us, inputs, i, h);
    YesIsPressed(us[i], inputs[i].env, inputs[i].key, h);
  }

  lemma YesIsPressed(ui: Ui, env: Surroundings, k: Key, h: string)
    requires ui.mode == ConfirmKill(h) && HandleKey(ui, env, k).1 == Some(Stop(h, true))
    ensures k.IsYes()
  {
  }

  // ---- which key, on which domain ----

  /** A start leaves exactly for a selected guest that is not already up, a shutdown for any selected
      guest, and a destruction exactly on yes to its confirmation. */
  lemma LifecycleCommandsIff(ui: Ui, env: Surroundings, k: Key, h: string)
    ensures
      var cmd := HandleKey(ui, env, k).1;
      var asked := ui.mode == Normal && ui.Selected().Some? && ui.Selected().value.handle == h && !IsDom0(h);
      && (cmd == Some(Start(h)) <==>
            asked && k.code == Char('s') && ui.Selected().value.state != Running && ui.Selected().value.state != Idle)
      && (cmd == Some(Stop(h, false)) <==> asked && k.code == Char('x'))
      && (cmd == Some(Stop(h, true)) <==> ui.mode == ConfirmKill(h) && k.IsYes())
  {
    if ui.mode == Normal {
      LifecycleInNormal(ui, env, k, h);
    } else {
      PromptsNameNothing(ui, k, h + "0");
    }
  }

  lemma LifecycleInNormal(ui: Ui, env: Surroundings, k: Key, h: string)
    requires ui.mode == Normal
    ensures
      var cmd, asked := NormalKey(ui, env, k).1, ui.Selected().Some? && ui.Selected().value.handle == h && !IsDom0(h);
      && (cmd == Some(Start(h)) <==>
            asked && k.code == Char('s') && ui.Selected().value.state != Running && ui.Selected().value.state != Idle)
      && (cmd == Some(Stop(h, false)) <==> asked && k.code == Char('x'))
      && cmd != Some(Stop(h, true))
  {
    if k.code.Char? && !IsGlobal(k.code.c) {
      DomainChar(ui, env, k.code.c);
      if ui.Selected().Some? {
        LifecycleOnDomain(ui, ui.Selected().value, k.code.c, h);
      }
    } else {
      GlobalKeysAreHarmless(ui, env, k);
    }
  }

  lemma LifecycleOnDomain(ui: Ui, d: DomainView, c: char, h: string)
    ensures
      var cmd := OnDomain(ui, d, c).1;
      && (cmd == Some(Start(h)) <==> d.handle == h && !IsDom0(h) && c == 's' && d.state != Running && d.state != Idle)
      && (cmd == Some(Stop(h, false)) <==> d.handle == h && !IsDom0(h) && c == 'x')
      && cmd != Some(Stop(h, true))
  {
  }

  /** Keys that do not act on the selected domain start and stop nothing. */
  lemma GlobalKeysAreHarmless(ui: Ui, env: Surroundings, k: Key)
    requires k.code.Char? ==> IsGlobal(k.code.c)
    ensures k.code != Char('s') && k.code != Char('x')
    ensures
      var cmd := NormalKey(ui, env, k).1;
      cmd.Some? ==> !cmd.value.Start? && !cmd.value.Stop?
  {
  }

  /** The same prompt, up to what has been chosen or typed in it. */
  predicate SamePrompt(m: Mode, p: Mode) {
    && m.BalloonPrompt? && p.BalloonPrompt?
    && m.domain == p.domain && m.currentMb == p.currentMb && m.maxMb == p.maxMb && m.optionsMb == p.optionsMb
  }

  /** At `j`, in normal mode, the prompt was opened on the domain then selected, and it has stayed
      open up to `n`. */
  predicate PromptedAt(us: seq<Ui>, inputs: seq<Input>, j: nat, n: nat, d: DomainView)
    requires n <= |inputs| && |us| == |inputs| + 1
  {
    && j < n && inputs[j].Pressed? && inputs[j].key.code == Char('b')
    && us[j].mode == Normal && us[j].Selected() == Some(d)
    && forall i :: j < i <= n ==> SamePrompt(us[i].mode, BalloonPromptFor(d))
  }

  lemma PromptComesFromRequest(ui: Ui, env: Surroundings, k: Key)
    requires HandleKey(ui, env, k).0.mode.BalloonPrompt?
    ensures
      var m := HandleKey(ui, env, k).0.mode;
      || SamePrompt(m, ui.mode)
      || (ui.mode == Normal && k.code == Char('b') && ui.Selected().Some? && m == BalloonPromptFor(ui.Selected().value))
  {
    if ui.mode == Normal {
      PromptOpensInNormal(ui, env, k);
    }
  }

  lemma PromptOpensInNormal(ui: Ui, env: Surroundings, k: Key)
    requires ui.mode == Normal && NormalKey(ui, env, k).0.mode.BalloonPrompt?
    ensures k.code == Char('b') && ui.Selected().Some?
    ensures NormalKey(ui, env, k).0.mode == BalloonPromptFor(ui.Selected().value)
  {
    if k.code.Char? && !IsGlobal(k.code.c) {
      DomainChar(ui, env, k.code.c);
    }
  }

  /** How a step can end in a prompt: in the one already open, or by opening one. */
  lemma StepToPrompt(ui: Ui, input: Input)
    requires React(ui, input).0.mode.BalloonPrompt?
    ensures
      var m := React(ui, input).0.mode;
      || SamePrompt(m, ui.mode)
      || (input.Pressed? && ui.mode == Normal && input.key.code == Char('b') && ui.Selected().Some?
          && m == BalloonPromptFor(ui.Selected().value))
  {
    if input.Pressed? {
      PromptComesFromRequest(ui, input.env, input.key);
    }
  }

  lemma StepToPromptAt(us: seq<Ui>, inputs: seq<Input>, n: nat)
    requires Session(us, inputs) && n <= |inputs| && us[n].mode.BalloonPrompt?
    ensures n > 0
    ensures
      var ui, input := us[n - 1], inputs[n - 1];
      || SamePrompt(us[n].mode, ui.mode)
      || (input.Pressed? && ui.mode == Normal && input.key.code == Char('b') && ui.Selected().Some?
          && us[n].mode == BalloonPromptFor(ui.Selected().value))
  {
    assert StepAt(us, inputs, n - 1);
    StepToPrompt(us[n - 1], inputs[n - 1]);
  }

  lemma PromptedLonger(us: seq<Ui>, inputs: seq<Input>, j: nat, n: nat, d: DomainView)
    requires |us| == |inputs| + 1 && 0 < n <= |inputs|
    requires PromptedAt(us, inputs, j, n - 1, d) && SamePrompt(us[n].mode, us[n - 1].mode)
    ensures PromptedAt(us, inputs, j, n, d)
  {
  }

  lemma {:induction false} PromptWasAskedFor(us: seq<Ui>, inputs: seq<Input>, n: nat) returns (j: nat, d: DomainView)
    requires Session(us, inputs) && n <= |inputs| && us[n].mode.BalloonPrompt?
    ensures PromptedAt(us, inputs, j, n, d)
  {
    StepToPromptAt(us, inputs, n);
    if SamePrompt(us[n].mode, us[n - 1].mode) {
      j, d := PromptWasAskedFor(us, inputs, n - 1);
      PromptedLonger(us, inputs, j, n, d);
    } else {
      j, d := n - 1, us[n - 1].Selected().value;
    }
  }

  /** A resize reaches the domain that was selected when its prompt was opened, within the ceiling
      that the domain reported then, however the list has changed since. */
  lemma ResizeKeepsItsTarget(
      us: seq<Ui>, inputs: seq<Input>, i: nat, h: string, targetMb: Word) returns (j: nat, d: DomainView)
    requires Session(us, inputs) && i < |inputs| && Emitted(us, inputs, i) == Some(BalloonTo(h, targetMb))
    ensures PromptedAt(us, inputs, j, i, d) && d.handle == h
    ensures d.status.Some? && d.status.value.memoryMaxMb > 0 ==> targetMb <= d.status.value.memoryMaxMb
  {
    CommandsAreSafe(us, inputs, i);
    j, d := PromptWasAskedFor(us, inputs, i);
    assert SamePrompt(us[i].mode, BalloonPromptFor(d));
  }

  /** The same policy editor, up to what has been chosen in it. */
  predicate SameEditor(m: Mode, p: Mode) {
    && m.PolicyEditor? && p.PolicyEditor? && m.domid == p.domid
    && m.minOptions == p.minOptions && m.maxOptions == p.maxOptions && m.cooldownOptions == p.cooldownOptions
  }

  /** At `j`, in normal mode, the editor was opened on the domain then selected, whose number is `n`,
      and it has stayed open up to `upTo`. */
  predicate EditedAt(us: seq<Ui>, inputs: seq<Input>, j: nat, upTo: nat, d: DomainView, n: nat)
    requires upTo <= |inputs| && |us| == |inputs| + 1
  {
    && j < upTo && inputs[j].Pressed? && inputs[j].key.code == Char('M')
    && us[j].mode == Normal && us[j].Selected() == Some(d) && HandleToDomid(d.handle) == Some(n)
    && forall i :: j < i <= upTo ==> SameEditor(us[i].mode, PolicyEditorFor(d, n))
  }

  /** How a step can end in an editor: in the one already open, or by opening one. */
  predicate EditorStep(ui: Ui, input: Input, m: Mode) {
    || SameEditor(m, ui.mode)
    || (input.Pressed? && ui.mode == Normal && input.key.code == Char('M') && ui.Selected().Some?
        && HandleToDomid(ui.Selected().value.handle).Some?
        && m == PolicyEditorFor(ui.Selected().value, HandleToDomid(ui.Selected().value.handle).value))
  }

  lemma EditorOpensInNormal(ui: Ui, env: Surroundings, k: Key)
    requires ui.mode == Normal && NormalKey(ui, env, k).0.mode.PolicyEditor?
    ensures EditorStep(ui, Pressed(env, k), NormalKey(ui, env, k).0.mode)
  {
    if k.code.Char? && !IsGlobal(k.code.c) {
      DomainChar(ui, env, k.code.c);
      EditorFromDomain(ui, ui.Selected().value, k.code.c, HandleToDomid(ui.Selected().value.handle));
    }
  }

  lemma EditorFromDomain(ui: Ui, d: DomainView, c: char, domid: Option<nat>)
    requires ui.mode == Normal && OnDomain(ui, d, c).0.mode.PolicyEditor? && domid == HandleToDomid(d.handle)
    ensures c == 'M' && domid.Some? && OnDomain(ui, d, c).0.mode == PolicyEditorFor(d, domid.value)
  {
  }

  lemma StepToEditor(ui: Ui, input: Input)
    requires React(ui, input).0.mode.PolicyEditor?
    ensures EditorStep(ui, input, React(ui, input).0.mode)
  {
    if input.Pressed? && ui.mode == Normal {
      EditorOpensInNormal(ui, input.env, input.key);
    }
  }

  lemma StepToEditorAt(us: seq<Ui>, inputs: seq<Input>, n: nat)
    requires Session(us, inputs) && n <= |inputs| && us[n].mode.PolicyEditor?
    ensures n > 0 && EditorStep(us[n - 1], inputs[n - 1], us[n].mode)
  {
    assert StepAt(us, inputs, n - 1);
    StepToEditor(us[n - 1], inputs[n - 1]);
  }

  lemma SameForLonger(us: seq<Ui>, j: nat, upTo: nat, p: Mode)
    requires j + 1 < upTo < |us| && forall i :: j < i <= upTo - 1 ==> SameEditor(us[i].mode, p)
    requires SameEditor(us[upTo].mode, us[upTo - 1].mode)
    ensures forall i :: j < i <= upTo ==> SameEditor(us[i].mode, p)
  {
  }

  lemma EditedLonger(us: seq<Ui>, inputs: seq<Input>, j: nat, upTo: nat, d: DomainView, n: nat)
    requires |us| == |inputs| + 1 && 0 < upTo <= |inputs|
    requires EditedAt(us, inputs, j, upTo - 1, d, n) && SameEditor(us[upTo].mode, us[upTo - 1].mode)
    ensures EditedAt(us, inputs, j, upTo, d, n)
  {
    SameForLonger(us, j, upTo, PolicyEditorFor(d, n));
  }

  lemma {:induction false} EditorWasOpened(
      us: seq<Ui>, inputs: seq<Input>, upTo: nat) returns (j: nat, d: DomainView, n: nat)
    requires Session(us, inputs) && upTo <= |inputs| && us[upTo].mode.PolicyEditor?
    ensures EditedAt(us, inputs, j, upTo, d, n)
  {
    StepToEditorAt(us, inputs, upTo);
    if SameEditor(us[upTo].mode, us[upTo - 1].mode) {
      j, d, n := EditorWasOpened(us, inputs, upTo - 1);
      EditedLonger(us, inputs, j, upTo, d, n);
    } else {
      j := upTo - 1;
      d, n := EditorJustOpened(us, inputs, upTo);
    }
  }

  lemma EditorJustOpened(us: seq<Ui>, inputs: seq<Input>, upTo: nat) returns (d: DomainView, n: nat)
    requires |us| == |inputs| + 1 && 0 < upTo <= |inputs|
    requires EditorStep(us[upTo - 1], inputs[upTo - 1], us[upTo].mode) && !SameEditor(us[upTo].mode, us[upTo - 1].mode)
    requires us[upTo].mode.PolicyEditor?
    ensures EditedAt(us, inputs, upTo - 1, upTo, d, n)
  {
    d := us[upTo - 1].Selected().value;
    n := HandleToDomid(d.handle).value;
  }

  /** A policy leaves from the editor with what it shows: its domain, and the option at each index. */
  lemma PolicyIsAsShown(ui: Ui, env: Surroundings, k: Key, n: nat, min: Word, max: Word, cd: Word)
    requires Valid(ui) && HandleKey(ui, env, k).1 == Some(SetPolicy(n, min, max, cd))
    ensures ui.mode.PolicyEditor? && ui.mode.domid == n && k.code == Enter
    ensures min == ui.mode.minOptions[ui.mode.minIdx] && max == ui.mode.maxOptions[ui.mode.maxIdx]
    ensures cd == ui.mode.cooldownOptions[ui.mode.cooldownIdx]
  {
    if ui.mode == Normal {
      NoPolicyInNormal(ui, env, k);
    }
  }

  lemma NoPolicyInNormal(ui: Ui, env: Surroundings, k: Key)
    requires ui.mode == Normal
    ensures
      var cmd := NormalKey(ui, env, k).1;
      cmd.Some? ==> !cmd.value.SetPolicy?
  {
    if k.code.Char? && !IsGlobal(k.code.c) {
      DomainChar(ui, env, k.code.c);
    }
  }

  /** A policy reaches the domain that was selected when its editor was opened, with the values that
      the editor shows, however the list has changed since. */
  lemma PolicyKeepsItsTarget(
      us: seq<Ui>, inputs: seq<Input>, i: nat, n: nat, min: Word, max: Word, cd: Word) returns (j: nat, d: DomainView)
    requires Session(us, inputs) && i < |inputs| && Emitted(us, inputs, i) == Some(SetPolicy(n, min, max, cd))
    ensures EditedAt(us, inputs, j, i, d, n)
    ensures
      var m := us[i].mode;
      && m.PolicyEditor?
      && m.minIdx < |m.minOptions| && m.maxIdx < |m.maxOptions| && m.cooldownIdx < |m.cooldownOptions|
      && min == m.minOptions[m.minIdx] && max == m.maxOptions[m.maxIdx] && cd == m.cooldownOptions[m.cooldownIdx]
  {
    SessionStaysValid(us, inputs, i);
    PolicyIsAsShown(us[i], inputs[i].env, inputs[i].key, n, min, max, cd);
    var own: nat;
    j, d, own := EditorWasOpened(us, inputs, i);
    assert SameEditor(us[i].mode, PolicyEditorFor(d, own));
  }

  // ---- dom0 by any spelling ----

  /** A handle as the backend prints it. */
  ghost predicate Canonical(handle: string) {
    exists n: nat :: n < U32 && handle == Decimal(n)
  }

  ghost predicate CanonicalMode(m: Mode) {
    m.ConfirmKill? ==> Canonical(m.handle)
  }

  ghost predicate CanonicalUi(ui: Ui) {
    && CanonicalMode(ui.mode)
    && (ui.snapshot.Some? ==> forall i :: 0 <= i < |ui.snapshot.value| ==> Canonical(ui.snapshot.value[i].handle))
  }

  ghost predicate CanonicalInput(input: Input) {
    input.Received? && input.msg.Snapshot? ==>
      forall i :: 0 <= i < |input.msg.domains| ==> Canonical(input.msg.domains[i].handle)
  }

  /** Where the handles of commands and of the confirmation come from. */
  predicate FromUi(ui: Ui, handle: string) {
    ui.mode == ConfirmKill(handle) || (ui.Selected().Some? && ui.Selected().value.handle == handle)
  }

  /** An outcome that names no handle but the given one. */
  predicate Names(ui: Ui, handle: string, r: (Ui, Option<Cmd>)) {
    && r.0.snapshot == ui.snapshot
    && (r.0.mode.ConfirmKill? ==> r.0.mode.handle == handle)
    && (r.1.Some? && (r.1.value.Start? || r.1.value.Stop?) ==> r.1.value.handle == handle)
  }

  lemma OnDomainNames(ui: Ui, d: DomainView, c: char)
    requires ui.mode == Normal
    ensures Names(ui, d.handle, OnDomain(ui, d, c))
  {
  }

  lemma PromptsNameNothing(ui: Ui, k: Key, handle: string)
    ensures ui.mode.BalloonPrompt? ==> Names(ui, handle, WithStep(ui, BalloonKey(ui.mode, k)))
    ensures ui.mode.PolicyEditor? ==> Names(ui, handle, WithStep(ui, PolicyKey(ui.mode, k)))
    ensures ui.mode.InstanceWizard? ==> Names(ui, handle, WithStep(ui, WizardKey(ui.mode, k)))
  {
  }

  lemma NormalKeyNames(ui: Ui, env: Surroundings, k: Key)
    requires ui.mode == Normal
    ensures
      var r := NormalKey(ui, env, k);
      if ui.Selected().Some? then Names(ui, ui.Selected().value.handle, r)
      else
        && r.0.snapshot == ui.snapshot && !r.0.mode.ConfirmKill?
        && (r.1.Some? ==> !r.1.value.Start? && !r.1.value.Stop?)
  {
    if k.code.Char? && !IsGlobal(k.code.c) {
      DomainChar(ui, env, k.code.c);
      if ui.Selected().Some? {
        OnDomainNames(ui, ui.Selected().value, k.code.c);
      }
    }
  }

  lemma HandlesComeFromUi(ui: Ui, env: Surroundings, k: Key)
    ensures
      var (ui', cmd) := HandleKey(ui, env, k);
      && ui'.snapshot == ui.snapshot
      && (ui'.mode.ConfirmKill? ==> FromUi(ui, ui'.mode.handle))
      && (cmd.Some? && (cmd.value.Start? || cmd.value.Stop?) ==> FromUi(ui, cmd.value.handle))
  {
    if ui.mode == Normal {
      NormalKeyNames(ui, env, k);
    } else {
      PromptsNameNothing(ui, k, "0");
      PromptsNameNothing(ui, k, "1");
    }
  }

  lemma FromUiIsCanonical(ui: Ui, handle: string)
    requires CanonicalUi(ui) && FromUi(ui, handle)
    ensures Canonical(handle)
  {
  }

  lemma CanonicalStep(ui: Ui, input: Input)
    requires CanonicalUi(ui) && CanonicalInput(input)
    ensures CanonicalUi(React(ui, input).0)
    ensures
      var cmd := React(ui, input).1;
      cmd.Some? && (cmd.value.Start? || cmd.value.Stop?) ==> Canonical(cmd.value.handle)
  {
    if input.Pressed? {
      var (ui', cmd) := HandleKey(ui, input.env, input.key);
      HandlesComeFromUi(ui, input.env, input.key);
      if ui'.mode.ConfirmKill? {
        FromUiIsCanonical(ui, ui'.mode.handle);
      }
      if cmd.Some? && (cmd.value.Start? || cmd.value.Stop?) {
        FromUiIsCanonical(ui, cmd.value.handle);
      }
    }
  }

  lemma {:induction false} SessionStaysCanonical(us: seq<Ui>, inputs: seq<Input>, n: nat)
    requires Session(us, inputs) && n <= |inputs|
    requires forall i :: 0 <= i < |inputs| ==> CanonicalInput(inputs[i])
    ensures CanonicalUi(us[n])
  {
    if n > 0 {
      SessionStaysCanonical(us, inputs, n - 1);
      assert StepAt(us, inputs, n - 1);
      CanonicalStep(us[n - 1], inputs[n - 1]);
    }
  }

  lemma OnlyZeroIsDom0(handle: string)
    requires Canonical(handle) && !IsDom0(handle)
    ensures HandleToDomid(handle).Some? && HandleToDomid(handle) != Some(0)
  {
    var n: nat :| n < U32 && handle == Decimal(n);
    DecimalParses(n, U32 - 1);
  }

  /** When the worker reports handles as the backend prints them, no start or stop ever reaches
      domain 0, whose handle the checks compare as text. */
  lemma Dom0IsNeverStartedOrStopped(us: seq<Ui>, inputs: seq<Input>, i: nat)
    requires Session(us, inputs) && i < |inputs|
    requires forall j :: 0 <= j < |inputs| ==> CanonicalInput(inputs[j])
    ensures
      var cmd := Emitted(us, inputs, i);
      cmd.Some? && (cmd.value.Start? || cmd.value.Stop?) ==>
        HandleToDomid(cmd.value.handle).Some? && HandleToDomid(cmd.value.handle) != Some(0)
  {
    CommandsAreSafe(us, inputs, i);
    SessionStaysCanonical(us, inputs, i);
    CanonicalStep(us[i], inputs[i]);
    var cmd := Emitted(us, inputs, i);
    if cmd.Some? && (cmd.value.Start? || cmd.value.Stop?) {
      OnlyZeroIsDom0(cmd.value.handle);
    }
  }

  /** Among handles as the backend prints them, dom0's text is exactly what parses to domain 0. */
  lemma Dom0TextIff(handle: string)
    requires Canonical(handle)
    ensures IsDom0(handle) <==> HandleToDomid(handle) == Some(0)
  {
    if !IsDom0(handle) {
      OnlyZeroIsDom0(handle);
    } else {
      DecimalParses(0, U32 - 1);
    }
  }

  /** Other texts that parse to 0 would not be taken for dom0, but the backend prints none of them. */
  lemma OtherSpellingsPass()
    ensures HandleToDomid("00") == Some(0) && !IsDom0("00") && !Canonical("00")
  {
    assert "00"[..1] == "0" && "0"[..0] == "";
    assert ValueOf("0", 10) == 0;
    if Canonical("00") {
      Dom0TextIff("00");
    }
  }

  // ---- moving the selection ----

  predicate SelectedAt(ui: Ui, i: nat) {
    ui.snapshot.Some? && i < |ui.snapshot.value| && ui.selected == Some(i)
  }

  /** One step goes to the neighbour, and from either end to the other. */
  lemma OneStep(ui: Ui, i: nat)
    requires SelectedAt(ui, i)
    ensures
      var n := |ui.snapshot.value|;
      && ui.Moved(1) == ui.(selected := Some(if i + 1 == n then 0 else i + 1))
      && ui.Moved(-1) == ui.(selected := Some(if i == 0 then n - 1 else i - 1))
  {
    Around(|ui.snapshot.value|, i);
  }

  lemma Around(n: nat, i: nat)
    requires i < n
    ensures (i + 1) % n == if i + 1 == n then 0 else i + 1
    ensures (i - 1) % n == if i == 0 then n - 1 else i - 1
  {
    if i + 1 == n {
      Remainder(i + 1, n, 1, 0);
    } else {
      Remainder(i + 1, n, 0, i + 1);
    }
    if i == 0 {
      Remainder(-1, n, -1, n - 1);
    } else {
      Remainder(i - 1, n, 0, i - 1);
    }
  }

  function Stepped(ui: Ui, k: nat): Ui {
    if k == 0 then ui else Stepped(ui, k - 1).Moved(1)
  }

  lemma {:induction false} StepsWrap(ui: Ui, i: nat, k: nat)
    requires SelectedAt(ui, i) && k <= |ui.snapshot.value|
    ensures
      var n := |ui.snapshot.value|;
      Stepped(ui, k) == ui.(selected := Some(if i + k < n then i + k else i + k - n))
  {
    if k > 0 {
      StepsWrap(ui, i, k - 1);
      var n := |ui.snapshot.value|;
      OneStep(Stepped(ui, k - 1), if i + (k - 1) < n then i + (k - 1) else i + (k - 1) - n);
    }
  }

  /** A step undoes the opposite one. */
  lemma StepAndBack(ui: Ui, i: nat)
    requires SelectedAt(ui, i)
    ensures ui.Moved(1).Moved(-1) == ui && ui.Moved(-1).Moved(1) == ui
  {
    var n := |ui.snapshot.value|;
    OneStep(ui, i);
    OneStep(ui.(selected := Some(if i + 1 == n then 0 else i + 1)), if i + 1 == n then 0 else i + 1);
    OneStep(ui.(selected := Some(if i == 0 then n - 1 else i - 1)), if i == 0 then n - 1 else i - 1);
  }

  /** As many steps as there are domains lead home, and every domain can be reached on the way. */
  lemma StepsComeHome(ui: Ui, i: nat, j: nat) returns (k: nat)
    requires SelectedAt(ui, i) && j < |ui.snapshot.value|
    ensures Stepped(ui, |ui.snapshot.value|) == ui
    ensures k < |ui.snapshot.value| && Stepped(ui, k) == ui.(selected := Some(j))
  {
    var n := |ui.snapshot.value|;
    k := if i <= j then j - i else j + n - i;
    StepsWrap(ui, i, n);
    StepsWrap(ui, i, k);
  }
}
