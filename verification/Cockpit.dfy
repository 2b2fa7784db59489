/** The cockpit's key handling, without its rendering: what is pressed, what is shown of it in the
    state, and which command leaves for the worker. */
module Cockpit {
  import opened Wrappers
  import opened Text
  import opened Numerals
  import opened Events
  import opened Balloons

  // ---- what the cockpit knows ----

  datatype GuestState = Created | Running | Idle | Suspended | Stopped | Failed

  datatype Status = Status(memoryMb: Word, memoryMaxMb: Word)

  datatype DomainView = DomainView(handle: string, name: string, state: GuestState, status: Option<Status>) {
    function Memory(): (Word, Word) {
      if status.Some? then (status.value.memoryMb, status.value.memoryMaxMb) else (0, 0)
    }
  }

  datatype BootMode = Desktop | CockpitBoot {
    function Opposite(): BootMode {
      if Desktop? then CockpitBoot else Desktop
    }
  }

  datatype Kind = Info | Success | Error

  datatype Verbosity = All | Important | ErrorsOnly {
    function Next(): Verbosity {
      match this
      case All => Important
      case Important => ErrorsOnly
      case ErrorsOnly => All
    }
  }

  datatype PolicyField = Min | Max | Cooldown {
    function Next(): PolicyField {
      match this case Min => Max case Max => Cooldown case Cooldown => Min
    }

    function Prev(): PolicyField {
      match this case Min => Cooldown case Max => Min case Cooldown => Max
    }
  }

  datatype WizardField = Id | Base | MemoryField | Vcpus {
    function Next(): WizardField {
      match this case Id => Base case Base => MemoryField case MemoryField => Vcpus case Vcpus => Id
    }

    function Prev(): WizardField {
      match this case Id => Vcpus case Base => Id case MemoryField => Base case Vcpus => MemoryField
    }
  }

  datatype Mode =
    | Normal
    | HelpOverlay
    | HostResourcesOverlay
    | FirstRunWelcome
    | ConfirmKill(handle: string)
    | ConfirmPromote
    | ConfirmBootMode(target: BootMode)
    | BalloonPrompt(
        domain: string, currentMb: Word, maxMb: Word,
        optionsMb: seq<Word>, selectedIdx: nat, entryMode: BalloonEntry, text: string)
    | PolicyEditor(
        domid: nat, minOptions: seq<Word>, maxOptions: seq<Word>, cooldownOptions: seq<Word>,
        minIdx: nat, maxIdx: nat, cooldownIdx: nat, field: PolicyField)
    | InstanceWizard(
        idInput: string, knownBases: seq<string>, baseIdx: nat,
        memoryOptions: seq<Word>, memoryIdx: nat, vcpuOptions: seq<Word>, vcpuIdx: nat, focus: WizardField)

  datatype Cmd =
    | Refresh
    | Start(handle: string)
    | Stop(handle: string, force: bool)
    | BalloonTo(handle: string, targetMb: Word)
    | CreateFromManifest
    | CreateInstance(id: string, base: string, memoryMb: Word, vcpus: Word)
    | PromoteXenDefault
    | SetPolicy(domid: nat, minMb: Word, maxMb: Word, cooldownS: Word)

  datatype KeyCode =
    | Esc | Enter | Tab | BackTab | Up | Down | Left | Right | Backspace
    | F(n: nat) | Char(c: char) | Other

  datatype Key = Key(code: KeyCode, ctrl: bool) {
    predicate IsYes() {
      code == Char('y') || code == Char('Y')
    }
  }

  /** What the surroundings answer while a key is handled: the base images on disk, and the boot
      mode after a toggle, if the toggle succeeds. */
  datatype Surroundings = Surroundings(bases: seq<string>, toggled: Option<BootMode>)

  datatype Message =
    | BackendReady
    | BackendError
    | Snapshot(domains: seq<DomainView>)
    | Logged(kind: Kind)

  const MAX_EVENTS := 200

  datatype Ui = Ui(
    snapshot: Option<seq<DomainView>>,
    selected: Option<nat>,
    mode: Mode,
    bootMode: BootMode,
    verbosity: Verbosity,
    events: seq<Kind>,
    toast: Option<Kind>,
    pendingConsole: Option<nat>,
    shouldQuit: bool)
  {
    function Toasted(kind: Kind): Ui {
      this.(toast := Some(kind))
    }

    function WithEvent(kind: Kind): Ui {
      this.(events := (if |events| >= MAX_EVENTS then events[1..] else events) + [kind])
    }

    function Selected(): Option<DomainView> {
      if snapshot.Some? && selected.Some? && selected.value < |snapshot.value| then Some(snapshot.value[selected.value])
      else None
    }

    /** Selection wraps around in both directions. */
    function Moved(delta: int): Ui {
      if snapshot.None? || snapshot.value == [] then this
      else this.(selected := Some((selected.OrElse(0) + delta) % |snapshot.value|))
    }
  }

  predicate IsDom0(handle: string) {
    handle == "0"
  }

  function HandleToDomid(handle: string): Option<nat> {
    ParseU32(handle)
  }

  // ---- the prompts ----

  datatype Step = Step(mode: Mode, cmd: Option<Cmd>, toast: Option<Kind>)

  function Stay(mode: Mode): Step {
    Step(mode, None, None)
  }

  function Shift(idx: nat, down: bool, len: nat): nat {
    if down then (if idx > 0 then idx - 1 else idx) else if idx + 1 < len then idx + 1 else idx
  }

  predicate IsDigit(c: char) {
    '0' <= c <= '9'
  }

  function BalloonKey(m: Mode, k: Key): Step
    requires m.BalloonPrompt?
  {
    var presets := m.entryMode == Presets;
    match k.code
    case Tab => Stay(m.(entryMode := m.entryMode.Next(), text := ""))
    case Left => Stay(if presets then m.(selectedIdx := Shift(m.selectedIdx, true, |m.optionsMb|)) else m)
    case Right => Stay(if presets then m.(selectedIdx := Shift(m.selectedIdx, false, |m.optionsMb|)) else m)
    case Char(c) =>
      if presets && c == 'h' then Stay(m.(selectedIdx := Shift(m.selectedIdx, true, |m.optionsMb|)))
      else if presets && c == 'l' then Stay(m.(selectedIdx := Shift(m.selectedIdx, false, |m.optionsMb|)))
      else if !presets && IsDigit(c) && |m.text| < 6 then Stay(m.(text := m.text + [c]))
      else Stay(m)
    case Backspace => Stay(if !presets && m.text != "" then m.(text := m.text[..|m.text| - 1]) else m)
    case Enter =>
      (match ResolveTarget(m.entryMode, m.text, m.optionsMb, m.selectedIdx, m.currentMb, m.maxMb)
       case Err(_) => Step(m, None, Some(Error))
       case Ok(target) =>
         match ValidateTarget(target, m.maxMb, IsDom0(m.domain))
         case Err(_) => Step(Normal, None, Some(Error))
         case Ok(t) => Step(Normal, Some(BalloonTo(m.domain, t)), None))
    case _ => Stay(m)
  }

  function At(options: seq<Word>, idx: nat): Word {
    if idx < |options| then options[idx] else 0
  }

  function ShiftPolicy(m: Mode, down: bool): Mode
    requires m.PolicyEditor?
  {
    match m.field
    case Min => m.(minIdx := Shift(m.minIdx, down, |m.minOptions|))
    case Max => m.(maxIdx := Shift(m.maxIdx, down, |m.maxOptions|))
    case Cooldown => m.(cooldownIdx := Shift(m.cooldownIdx, down, |m.cooldownOptions|))
  }

  function PolicyKey(m: Mode, k: Key): Step
    requires m.PolicyEditor?
  {
    match k.code
    case Tab => Stay(m.(field := m.field.Next()))
    case BackTab => Stay(m.(field := m.field.Prev()))
    case Up => Stay(m.(field := m.field.Prev()))
    case Down => Stay(m.(field := m.field.Next()))
    case Left => Stay(ShiftPolicy(m, true))
    case Right => Stay(ShiftPolicy(m, false))
    case Char(c) => Stay(if c == 'h' then ShiftPolicy(m, true) else if c == 'l' then ShiftPolicy(m, false) else m)
    case Enter =>
      var min, max, cd := At(m.minOptions, m.minIdx), At(m.maxOptions, m.maxIdx), At(m.cooldownOptions, m.cooldownIdx);
      if min > max || cd < 1 then Step(m, None, Some(Error))
      else Step(Normal, Some(SetPolicy(m.domid, min, max, cd)), None)
    case _ => Stay(m)
  }

  /** Base images wrap around; the other choices stop at their ends. */
  function ShiftWizard(m: Mode, down: bool): Mode
    requires m.InstanceWizard?
  {
    match m.focus
    case Id => m
    case Base =>
      if m.knownBases == [] then m
      else if down then m.(baseIdx := if m.baseIdx == 0 then |m.knownBases| - 1 else m.baseIdx - 1)
      else m.(baseIdx := (m.baseIdx + 1) % |m.knownBases|)
    case MemoryField => m.(memoryIdx := Shift(m.memoryIdx, down, |m.memoryOptions|))
    case Vcpus => m.(vcpuIdx := Shift(m.vcpuIdx, down, |m.vcpuOptions|))
  }

  predicate IsIdChar(c: char) {
    'a' <= c <= 'z' || 'A' <= c <= 'Z' || '0' <= c <= '9' || c == '-' || c == '_'
  }

  function WizardKey(m: Mode, k: Key): Step
    requires m.InstanceWizard?
  {
    match k.code
    case Tab => Stay(m.(focus := m.focus.Next()))
    case BackTab => Stay(m.(focus := m.focus.Prev()))
    case Up => Stay(m.(focus := m.focus.Prev()))
    case Down => Stay(m.(focus := m.focus.Next()))
    case Left => Stay(ShiftWizard(m, true))
    case Right => Stay(ShiftWizard(m, false))
    case Backspace => Stay(if m.focus == Id && m.idInput != "" then m.(idInput := m.idInput[..|m.idInput| - 1]) else m)
    case Char(c) =>
      if c == 'h' then Stay(ShiftWizard(m, true))
      else if c == 'l' then Stay(ShiftWizard(m, false))
      else if m.focus == Id && IsIdChar(c) then Stay(m.(idInput := m.idInput + [c]))
      else Stay(m)
    case Enter =>
      var base := if m.baseIdx < |m.knownBases| then m.knownBases[m.baseIdx] else "";
      var id := Trim(m.idInput);
      if id == "" || base == "" then Step(m, None, Some(Error))
      else
        var memory, cpus := At(m.memoryOptions, m.memoryIdx), At(m.vcpuOptions, m.vcpuIdx);
        Step(Normal, Some(CreateInstance(id, base, memory, cpus)), None)
    case _ => Stay(m)
  }

  // ---- opening the prompts ----

  function BalloonPromptFor(d: DomainView): Mode {
    var (current, max) := d.Memory();
    var options := BalloonOptions(current, max, IsDom0(d.handle));
    BalloonPrompt(d.handle, current, max, options, NearestIndex(options, current), Presets, "")
  }

  function PolicyMinOptions(current: Word, max: Word): seq<Word> {
    var cap := Higher(Higher(max, current), 256);
    SortedUnique([256, 512, 1024, Lower(current, cap), Higher(current / 2, 256), Lower(cap, 2048)])
  }

  function PolicyMaxOptions(current: Word, max: Word): seq<Word> {
    var cap := Higher(Higher(max, current), 256);
    SortedUnique([Higher(current, 256), cap, 1024, 2048, Lower(4096, cap), Lower(8192, cap)])
  }

  function PolicyEditorFor(d: DomainView, domid: nat): Mode {
    var (current, max) := d.Memory();
    var mins, maxs := PolicyMinOptions(current, max), PolicyMaxOptions(current, max);
    PolicyEditor(domid, mins, maxs, [5, 10, 30, 60, 120],
      NearestIndex(mins, current), NearestIndex(maxs, Higher(max, current)), 2, Min)
  }

  const MEMORY_CHOICES: seq<Word> := [512, 1024, 2048, 4096, 8192, 16384]
  const VCPU_CHOICES: seq<Word> := [1, 2, 4, 8, 16]
  const DEFAULT_MEMORY_MB: Word := 4096
  const DEFAULT_VCPUS: Word := 2

  function WizardFor(bases: seq<string>): Mode {
    InstanceWizard("", bases, 0, MEMORY_CHOICES, NearestIndex(MEMORY_CHOICES, DEFAULT_MEMORY_MB),
      VCPU_CHOICES, NearestIndex(VCPU_CHOICES, DEFAULT_VCPUS), Id)
  }

  // ---- the normal mode ----

  /** The outcome of a key in normal mode. */
  function NormalKey(ui: Ui, env: Surroundings, k: Key): (Ui, Option<Cmd>) {
    if k.ctrl && k.code == Char('c') then (ui.(shouldQuit := true), None)
    else
      match k.code
      case F(n) => (if n == 1 then ui.(mode := HelpOverlay) else ui, None)
      case Down => (ui.Moved(1), None)
      case Up => (ui.Moved(-1), None)
      case Char(c) => NormalChar(ui, env, c)
      case _ => (ui, None)
  }

  function NormalChar(ui: Ui, env: Surroundings, c: char): (Ui, Option<Cmd>) {
    match c
    case 'q' => (ui.(shouldQuit := true), None)
    case 'r' => (ui, Some(Refresh))
    case '?' => (ui.(mode := HelpOverlay), None)
    case 'H' => (ui.(mode := HostResourcesOverlay), None)
    case 'j' => (ui.Moved(1), None)
    case 'k' => (ui.Moved(-1), None)
    case 'c' => (ui, Some(CreateFromManifest))
    case 'n' => (ui.(mode := WizardFor(env.bases)), None)
    case 'P' => (ui.(mode := ConfirmPromote), None)
    case 'B' => (ui.(mode := ConfirmBootMode(ui.bootMode.Opposite())), None)
    case 'L' => (ui.(events := []).Toasted(Info), None)
    case 'V' => (ui.(verbosity := ui.verbosity.Next()).Toasted(Info), None)
    case _ => if ui.Selected().Some? then OnDomain(ui, ui.Selected().value, c) else (ui, None)
  }

  /** Keys that act on the selected domain. */
  function OnDomain(ui: Ui, d: DomainView, c: char): (Ui, Option<Cmd>) {
    match c
    case 's' =>
      if IsDom0(d.handle) then (ui.Toasted(Error), None)
      else if d.state == Running || d.state == Idle then (ui.Toasted(Info), None)
      else (ui, Some(Start(d.handle)))
    case 'x' => if IsDom0(d.handle) then (ui.Toasted(Error), None) else (ui, Some(Stop(d.handle, false)))
    case 'X' => if IsDom0(d.handle) then (ui.Toasted(Error), None) else (ui.(mode := ConfirmKill(d.handle)), None)
    case 'b' => (ui.(mode := BalloonPromptFor(d)), None)
    case 'M' =>
      (match HandleToDomid(d.handle)
       case None => (ui.Toasted(Error), None)
       case Some(n) => (ui.(mode := PolicyEditorFor(d, n)), None))
    case 't' =>
      if IsDom0(d.handle) then (ui.Toasted(Info), None)
      else
        (match HandleToDomid(d.handle)
         case None => (ui.Toasted(Error), None)
         case Some(n) => (ui.(pendingConsole := Some(n), shouldQuit := true), None))
    case _ => (ui, None)
  }

  function ToggleBoot(ui: Ui, env: Surroundings): Ui {
    match env.toggled
    case Some(m) => ui.(bootMode := m).Toasted(Success).WithEvent(Success)
    case None => ui.Toasted(Error).WithEvent(Error)
  }

  function WithStep(ui: Ui, s: Step): (Ui, Option<Cmd>) {
    (ui.(mode := s.mode, toast := if s.toast.Some? then s.toast else ui.toast), s.cmd)
  }

  function HandleKey(ui: Ui, env: Surroundings, k: Key): (Ui, Option<Cmd>) {
    var back := ui.(mode := Normal);
    if k.code == Esc then (back, None)
    else
      match ui.mode
      case HelpOverlay => (back, None)
      case HostResourcesOverlay => (back, None)
      case FirstRunWelcome => (back, None)
      case ConfirmKill(h) => (back, if k.IsYes() then Some(Stop(h, true)) else None)
      case ConfirmPromote => (back, if k.IsYes() then Some(PromoteXenDefault) else None)
      case ConfirmBootMode(_) => (if k.IsYes() then ToggleBoot(back, env) else back, None)
      case BalloonPrompt(_, _, _, _, _, _, _) => WithStep(ui, BalloonKey(ui.mode, k))
      case PolicyEditor(_, _, _, _, _, _, _, _) => WithStep(ui, PolicyKey(ui.mode, k))
      case InstanceWizard(_, _, _, _, _, _, _, _) => WithStep(ui, WizardKey(ui.mode, k))
      case Normal => NormalKey(ui, env, k)
  }

  /** A message from the worker. */
  function Receive(ui: Ui, msg: Message): Ui {
    match msg
    case BackendReady => ui.WithEvent(Info)
    case BackendError => ui.WithEvent(Error).Toasted(Error)
    case Snapshot(domains) =>
      var last := if |domains| > 0 then |domains| - 1 else 0;
      var cur := if ui.selected.OrElse(0) <= last then ui.selected.OrElse(0) else last;
      ui.(selected := if domains != [] then Some(cur) else None, snapshot := Some(domains))
    case Logged(kind) => ui.Toasted(kind).WithEvent(kind)
  }
}
