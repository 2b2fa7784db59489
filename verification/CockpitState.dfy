/** The cockpit's state as its methods change it, field by field. */
module CockpitState {
  import opened Wrappers
  import opened Text
  import opened Balloons
  import opened Cockpit

  class State {
    var snapshot: Option<seq<DomainView>>
    var selected: Option<nat>
    var mode: Mode
    var bootMode: BootMode
    var verbosity: Verbosity
    var events: seq<Kind>
    var toast: Option<Kind>
    var pendingConsole: Option<nat>
    var shouldQuit: bool

    function View(): Ui
      reads this
    {
      Ui(snapshot, selected, mode, bootMode, verbosity, events, toast, pendingConsole, shouldQuit)
    }

    constructor (welcome: bool, boot: BootMode)
      ensures View() == Ui(None, Some(0), if welcome then FirstRunWelcome else Normal, boot, All, [], None, None, false)
    {
      snapshot, selected, mode := None, Some(0), if welcome then FirstRunWelcome else Normal;
      bootMode, verbosity, events := boot, All, [];
      toast, pendingConsole, shouldQuit := None, None, false;
    }

    method PushEvent(kind: Kind)
      modifies this
      ensures View() == old(View()).WithEvent(kind)
    {
      if |events| >= MAX_EVENTS {
        events := events[1..];
      }
      events := events + [kind];
    }

    method ShowToast(kind: Kind)
      modifies this
      ensures View() == old(View()).Toasted(kind)
    {
      toast := Some(kind);
    }

    method Apply(msg: Message)
      modifies this
      ensures View() == Receive(old(View()), msg)
    {
      match msg
      case BackendReady =>
        PushEvent(Info);
      case BackendError =>
        PushEvent(Error);
        ShowToast(Error);
      case Snapshot(domains) =>
        var last := if |domains| > 0 then |domains| - 1 else 0;
        var cur := selected.OrElse(0);
        if cur > last {
          cur := last;
        }
        if domains != [] {
          selected := Some(cur);
        } else {
          selected := None;
        }
        snapshot := Some(domains);
      case Logged(kind) =>
        ShowToast(kind);
        PushEvent(kind);
    }

    method MoveSelection(delta: int)
      modifies this
      ensures View() == old(View()).Moved(delta)
    {
      if snapshot.None? || snapshot.value == [] {
        return;
      }
      var cur := selected.OrElse(0);
      selected := Some((cur + delta) % |snapshot.value|);
    }

    method ApplyBootModeToggle(env: Surroundings)
      modifies this
      ensures View() == ToggleBoot(old(View()), env)
    {
      match env.toggled
      case Some(m) =>
        bootMode := m;
        ShowToast(Success);
        PushEvent(Success);
      case None =>
        ShowToast(Error);
        PushEvent(Error);
    }

    method BalloonPromptKey(k: Key) returns (cmd: Option<Cmd>)
      requires mode.BalloonPrompt?
      modifies this
      ensures (View(), cmd) == WithStep(old(View()), BalloonKey(old(mode), k))
    {
      cmd := None;
      var typing := mode.entryMode != Presets;
      if k.code == Tab {
        mode := mode.(entryMode := mode.entryMode.Next(), text := "");
      } else if !typing && (k.code == Left || k.code == Char('h')) {
        if mode.selectedIdx > 0 {
          mode := mode.(selectedIdx := mode.selectedIdx - 1);
        }
      } else if !typing && (k.code == Right || k.code == Char('l')) {
        if mode.selectedIdx + 1 < |mode.optionsMb| {
          mode := mode.(selectedIdx := mode.selectedIdx + 1);
        }
      } else if typing && k.code.Char? && IsDigit(k.code.c) {
        if |mode.text| < 6 {
          mode := mode.(text := mode.text + [k.code.c]);
        }
      } else if typing && k.code == Backspace {
        if mode.text != "" {
          mode := mode.(text := mode.text[..|mode.text| - 1]);
        }
      } else if k.code == Enter {
        var handle, cap := mode.domain, mode.maxMb;
        var target := ResolveTarget(mode.entryMode, mode.text, mode.optionsMb, mode.selectedIdx, mode.currentMb, cap);
        if target.Err? {
          ShowToast(Error);
          return;
        }
        mode := Normal;
        var checked := ValidateTarget(target.value, cap, IsDom0(handle));
        if checked.Err? {
          ShowToast(Error);
          return;
        }
        cmd := Some(BalloonTo(handle, checked.value));
      }
    }

    method PolicyEditorKey(k: Key) returns (cmd: Option<Cmd>)
      requires mode.PolicyEditor?
      modifies this
      ensures (View(), cmd) == WithStep(old(View()), PolicyKey(old(mode), k))
    {
      cmd := None;
      if k.code == Tab || k.code == Down {
        mode := mode.(field := mode.field.Next());
      } else if k.code == BackTab || k.code == Up {
        mode := mode.(field := mode.field.Prev());
      } else if k.code == Left || k.code == Char('h') {
        mode := ShiftPolicy(mode, true);
      } else if k.code == Right || k.code == Char('l') {
        mode := ShiftPolicy(mode, false);
      } else if k.code == Enter {
        var min, max := At(mode.minOptions, mode.minIdx), At(mode.maxOptions, mode.maxIdx);
        var cd := At(mode.cooldownOptions, mode.cooldownIdx);
        if min > max || cd < 1 {
          ShowToast(Error);
        } else {
          cmd := Some(SetPolicy(mode.domid, min, max, cd));
          mode := Normal;
        }
      }
    }

    method InstanceWizardKey(k: Key) returns (cmd: Option<Cmd>)
      requires mode.InstanceWizard?
      modifies this
      ensures (View(), cmd) == WithStep(old(View()), WizardKey(old(mode), k))
    {
      cmd := None;
      if k.code == Tab || k.code == Down {
        mode := mode.(focus := mode.focus.Next());
      } else if k.code == BackTab || k.code == Up {
        mode := mode.(focus := mode.focus.Prev());
      } else if k.code == Left || k.code == Char('h') {
        mode := ShiftWizard(mode, true);
      } else if k.code == Right || k.code == Char('l') {
        mode := ShiftWizard(mode, false);
      } else if k.code == Backspace {
        if mode.focus == Id && mode.idInput != "" {
          mode := mode.(idInput := mode.idInput[..|mode.idInput| - 1]);
        }
      } else if k.code.Char? {
        if mode.focus == Id && IsIdChar(k.code.c) {
          mode := mode.(idInput := mode.idInput + [k.code.c]);
        }
      } else if k.code == Enter {
        var id := Trim(mode.idInput);
        var base := if mode.baseIdx < |mode.knownBases| then mode.knownBases[mode.baseIdx] else "";
        if id == "" || base == "" {
          ShowToast(Error);
          return;
        }
        var memory, cpus := At(mode.memoryOptions, mode.memoryIdx), At(mode.vcpuOptions, mode.vcpuIdx);
        cmd := Some(CreateInstance(id, base, memory, cpus));
        mode := Normal;
      }
    }

    method HandleKeyNormal(env: Surroundings, k: Key) returns (cmd: Option<Cmd>)
      modifies this
      ensures (View(), cmd) == NormalKey(old(View()), env, k)
    {
      cmd := None;
      if k.ctrl && k.code == Char('c') {
        shouldQuit := true;
        return;
      }
      if k.code == F(1) {
        mode := HelpOverlay;
      } else if k.code == Down {
        MoveSelection(1);
      } else if k.code == Up {
        MoveSelection(-1);
      } else if k.code.Char? {
        cmd := HandleCharNormal(env, k.code.c);
      }
    }

    method HandleCharNormal(env: Surroundings, c: char) returns (cmd: Option<Cmd>)
      modifies this
      ensures (View(), cmd) == NormalChar(old(View()), env, c)
    {
      cmd := None;
      match c
      case 'q' => shouldQuit := true;
      case 'r' => cmd := Some(Refresh);
      case '?' => mode := HelpOverlay;
      case 'H' => mode := HostResourcesOverlay;
      case 'j' => MoveSelection(1);
      case 'k' => MoveSelection(-1);
      case 'c' => cmd := Some(CreateFromManifest);
      case 'n' => mode := WizardFor(env.bases);
      case 'P' => mode := ConfirmPromote;
      case 'B' => mode := ConfirmBootMode(bootMode.Opposite());
      case 'L' =>
        events := [];
        ShowToast(Info);
      case 'V' =>
        verbosity := verbosity.Next();
        ShowToast(Info);
      case _ =>
        var d := View().Selected();
        if d.Some? {
          cmd := HandleDomainKey(d.value, c);
        }
    }

    method HandleDomainKey(d: DomainView, c: char) returns (cmd: Option<Cmd>)
      modifies this
      ensures (View(), cmd) == OnDomain(old(View()), d, c)
    {
      cmd := None;
      var dom0 := IsDom0(d.handle);
      if c == 's' {
        if dom0 {
          ShowToast(Error);
        } else if d.state == Running || d.state == Idle {
          ShowToast(Info);
        } else {
          cmd := Some(Start(d.handle));
        }
      } else if c == 'x' {
        if dom0 {
          ShowToast(Error);
        } else {
          cmd := Some(Stop(d.handle, false));
        }
      } else if c == 'X' {
        if dom0 {
          ShowToast(Error);
        } else {
          mode := ConfirmKill(d.handle);
        }
      } else if c == 'b' {
        mode := BalloonPromptFor(d);
      } else if c == 'M' {
        var domid := HandleToDomid(d.handle);
        if domid.None? {
          ShowToast(Error);
          return;
        }
        mode := PolicyEditorFor(d, domid.value);
      } else if c == 't' {
        if dom0 {
          ShowToast(Info);
          return;
        }
        var domid := HandleToDomid(d.handle);
        if domid.None? {
          ShowToast(Error);
          return;
        }
        pendingConsole := domid;
        shouldQuit := true;
      }
    }

    method PressKey(env: Surroundings, k: Key) returns (cmd: Option<Cmd>)
      modifies this
      ensures (View(), cmd) == HandleKey(old(View()), env, k)
    {
      cmd := None;
      if k.code == Esc {
        mode := Normal;
        return;
      }
      match mode
      case HelpOverlay => mode := Normal;
      case HostResourcesOverlay => mode := Normal;
      case FirstRunWelcome => mode := Normal;
      case ConfirmKill(h) =>
        mode := Normal;
        if k.IsYes() {
          cmd := Some(Stop(h, true));
        }
      case ConfirmPromote =>
        mode := Normal;
        if k.IsYes() {
          cmd := Some(PromoteXenDefault);
        }
      case ConfirmBootMode(_) =>
        mode := Normal;
        if k.IsYes() {
          ApplyBootModeToggle(env);
        }
      case BalloonPrompt(_, _, _, _, _, _, _) => cmd := BalloonPromptKey(k);
      case PolicyEditor(_, _, _, _, _, _, _, _) => cmd := PolicyEditorKey(k);
      case InstanceWizard(_, _, _, _, _, _, _, _) => cmd := InstanceWizardKey(k);
      case Normal => cmd := HandleKeyNormal(env, k);
    }
  }
}
