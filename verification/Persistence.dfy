/** Saving the settings to flash and loading them at start-up (src/algorithm.cc, src/nvm.c). A save erases a page and
  writes a row; while either runs, the audio service goes on and runs the user interface any number of times. */
module Persistence {
  import opened UiModel
  import B = Buttons

  const MAGIC := 0xBEEFBEAC

  /** The first four words of the page. */
  datatype Flash = Flash(magic: nat, mode: nat, function0: nat, function1: nat)

  const ERASED := Flash(0xFFFFFFFF, 0xFFFFFFFF, 0xFFFFFFFF, 0xFFFFFFFF)

  /** The page is not ours, or holds what the firmware writes. */
  predicate Written(flash: Flash) {
    flash.magic == MAGIC ==> flash.mode <= SECOND && flash.function0 < FUNCTION_LAST && flash.function1 < FUNCTION_LAST
  }

  function Page(s: Settings): Flash
    requires |s.functions| == 2
  {
    Flash(MAGIC, s.editMode, s.functions[0], s.functions[1])
  }

  /** All fields after the memset, with the switches released and the processors initialised. */
  const RESET := Ui(Settings(TWIN, [FUNCTION_ENVELOPE, FUNCTION_ENVELOPE]), B.RELEASED, B.RELEASED,
                    [0, 0], [0, 0], [[0, 0, 0, 0], [0, 0, 0, 0]], [NEW_PROCESSOR, NEW_PROCESSOR], false)

  /** algorithm_init */
  function Boot(flash: Flash): (u: Ui)
    requires Written(flash)
    ensures WellFormed(u)
  {
    if flash.magic == MAGIC then
      var u := RESET.(settings := RESET.settings.(editMode := flash.mode));
      SetFunction(SetFunction(u, 0, flash.function0), 1, flash.function1)
    else RESET
  }

  function Ticks(u: Ui, inputs: seq<Input>): (r: Ui)
    requires WellFormed(u) && forall i :: i in inputs ==> LegalInput(i)
    ensures WellFormed(r)
  {
    if inputs == [] then u else Tick(Ticks(u, inputs[..|inputs| - 1]), inputs[|inputs| - 1])
  }

  datatype World = World(ui: Ui, flash: Flash)

  /** algorithm_idle, with the ticks that run during the erase and during the write. The row is written from a
    buffer filled between the two. */
  function Idle(w: World, erasing: seq<Input>, writing: seq<Input>): (r: World)
    requires WellFormed(w.ui)
    requires forall i :: i in erasing ==> LegalInput(i)
    requires forall i :: i in writing ==> LegalInput(i)
    ensures WellFormed(r.ui)
  {
    if w.ui.writeToFlash then
      var u := Ticks(w.ui.(writeToFlash := false), erasing);
      World(Ticks(u, writing), Page(u.settings))
    else w
  }

  /** What a running module does: ticks, and calls of algorithm_idle. */
  datatype Event = Service(input: Input) | Save(erasing: seq<Input>, writing: seq<Input>)

  predicate LegalEvent(e: Event) {
    match e
    case Service(input) => LegalInput(input)
    case Save(erasing, writing) =>
      (forall i :: i in erasing ==> LegalInput(i)) && (forall i :: i in writing ==> LegalInput(i))
  }

  function Apply(w: World, e: Event): (r: World)
    requires WellFormed(w.ui) && LegalEvent(e)
    ensures WellFormed(r.ui)
  {
    match e
    case Service(input) => w.(ui := Tick(w.ui, input))
    case Save(erasing, writing) => Idle(w, erasing, writing)
  }

  function Run(w: World, events: seq<Event>): (r: World)
    requires WellFormed(w.ui) && forall e :: e in events ==> LegalEvent(e)
    ensures WellFormed(r.ui)
    decreases |events|
  {
    if events == [] then w else Run(Apply(w, events[0]), events[1..])
  }

  /** In the modes that share one function, SetFunction leaves both channels with the second. */
  function Collapsed(s: Settings): Settings
    requires |s.functions| == 2
  {
    if s.editMode == TWIN || s.editMode == SPLIT then s.(functions := [s.functions[1], s.functions[1]]) else s
  }

  lemma BootConsistent(flash: Flash)
    requires Written(flash)
    ensures Consistent(Boot(flash)) && !Boot(flash).writeToFlash
  {
    assert Consistent(RESET);
    if flash.magic == MAGIC {
      var u := RESET.(settings := RESET.settings.(editMode := flash.mode));
      SetFunctionKeeps(u, 0, flash.function0);
      SetFunctionKeeps(SetFunction(u, 0, flash.function0), 1, flash.function1);
    }
  }

  lemma BootRestores(s: Settings)
    requires s.editMode <= SECOND && |s.functions| == 2
    requires forall p :: 0 <= p < 2 ==> s.functions[p] < FUNCTION_LAST
    ensures Written(Page(s)) && Boot(Page(s)).settings == Collapsed(s)
  {
  }

  /** A page that does not begin with the firmware's number leaves everything at its defaults. */
  lemma BootDefaults(flash: Flash)
    requires flash.magic != 0xBEEFBEAC
    ensures Written(flash)
    ensures var u := Boot(flash);
            && u.settings == Settings(0, [0, 0]) && !u.writeToFlash
            && u.left == B.Button(true, 0) && u.right == B.Button(true, 0)
            && u.encoders == [0, 0] && u.pots == [0, 0] && u.mirror == [[0, 0, 0, 0], [0, 0, 0, 0]]
            && forall p :: 0 <= p < 2 ==> u.processors[p] == Processor(Envelope, [Never, Never, Never, Never])
  {
  }

  /** One that does is read word by word; in the modes that share a function the last one counts. */
  lemma BootReads(mode: nat, f0: nat, f1: nat)
    requires mode <= 3 && f0 < 8 && f1 < 8
    ensures Written(Flash(0xBEEFBEAC, mode, f0, f1))
    ensures Boot(Flash(0xBEEFBEAC, mode, f0, f1)).settings == Settings(mode, [if mode <= 1 then f1 else f0, f1])
  {
  }

  /** A save writes the settings as they are once the page is erased, changes made meanwhile included; and without one
    nothing happens. */
  lemma IdleSaves(w: World, erasing: seq<Input>, writing: seq<Input>)
    requires WellFormed(w.ui) && LegalEvent(Save(erasing, writing))
    ensures !w.ui.writeToFlash ==> Idle(w, erasing, writing) == w
    ensures w.ui.writeToFlash ==>
              var u := Ticks(w.ui.(writeToFlash := false), erasing);
              Boot(Idle(w, erasing, writing).flash).settings == Collapsed(u.settings) &&
              Idle(w, erasing, writing).ui == Ticks(u, writing)
  {
    if w.ui.writeToFlash {
      BootRestores(Ticks(w.ui.(writeToFlash := false), erasing).settings);
    }
  }

  lemma {:induction false} TicksKeep(u: Ui, inputs: seq<Input>)
    requires Consistent(u) && forall i :: i in inputs ==> LegalInput(i)
    ensures Consistent(Ticks(u, inputs)) && Marks(u, Ticks(u, inputs))
    decreases |inputs|
  {
    if inputs != [] {
      var front := inputs[..|inputs| - 1];
      TicksKeep(u, front);
      TickKeeps(Ticks(u, front), inputs[|inputs| - 1]);
    }
  }

  /** The settings are saved, or marked for saving. */
  predicate Saved(w: World)
    requires WellFormed(w.ui)
  {
    Written(w.flash) && (!w.ui.writeToFlash ==> Boot(w.flash).settings == Collapsed(w.ui.settings))
  }

  lemma IdleKeeps(w: World, erasing: seq<Input>, writing: seq<Input>)
    requires Consistent(w.ui) && Saved(w) && LegalEvent(Save(erasing, writing))
    ensures Consistent(Idle(w, erasing, writing).ui) && Saved(Idle(w, erasing, writing))
  {
    if w.ui.writeToFlash {
      var v := w.ui.(writeToFlash := false);
      var u := Ticks(v, erasing);
      assert Consistent(v);
      TicksKeep(v, erasing);
      TicksKeep(u, writing);
      BootRestores(u.settings);
    }
  }

  lemma {:induction false} RunKeeps(w: World, events: seq<Event>)
    requires Consistent(w.ui) && Saved(w) && forall e :: e in events ==> LegalEvent(e)
    ensures Consistent(Run(w, events).ui) && Saved(Run(w, events))
    decreases |events|
  {
    if events != [] {
      match events[0] {
        case Service(input) => assert LegalEvent(events[0]); TickKeeps(w.ui, input);
        case Save(erasing, writing) => IdleKeeps(w, erasing, writing);
      }
      RunKeeps(Apply(w, events[0]), events[1..]);
    }
  }

  lemma BootCollapsed(flash: Flash)
    requires Written(flash)
    ensures Collapsed(Boot(flash).settings) == Boot(flash).settings
  {
  }

  /** Reboot equivalence. Whatever has been done to the module since it started, during saves too, whenever no
    save is running and none is due a reboot gives the settings in force, with both functions collapsed to
    the second where the mode shares one; so it gives them exactly if the mode does not share one or the
    functions are the same. In every state, and after the reboot, the processors run what the settings say and
    have the parameters their copies show. */
  lemma RebootEquivalence(flash: Flash, events: seq<Event>)
    requires Written(flash) && forall e :: e in events ==> LegalEvent(e)
    ensures var w := Run(World(Boot(flash), flash), events);
            && Consistent(w.ui) && Written(w.flash) && Consistent(Boot(w.flash))
            && (!w.ui.writeToFlash ==>
                  && Boot(w.flash).settings == Collapsed(w.ui.settings)
                  && (Boot(w.flash).settings == w.ui.settings <==>
                      w.ui.settings.editMode >= FIRST || w.ui.settings.functions[0] == w.ui.settings.functions[1]))
  {
    BootConsistent(flash);
    BootCollapsed(flash);
    RunKeeps(World(Boot(flash), flash), events);
    var w := Run(World(Boot(flash), flash), events);
    BootConsistent(w.flash);
    assert w.ui.settings.functions == [w.ui.settings.functions[0], w.ui.settings.functions[1]];
  }

  // ---------- How the functions come to be lost ----------

  /** The buttons pressed or not, with the knobs at rest. */
  function Hands(left: bool, right: bool): Event {
    Service(Input(!left, !right, [0, 0], [0, 0]))
  }

  function Held(e: Event, n: nat): (r: seq<Event>)
    ensures |r| == n && forall k :: 0 <= k < n ==> r[k] == e
  {
    seq(n, _ => e)
  }

  function LeftHeld(n: nat): (r: seq<Event>)
    ensures forall e :: e in r ==> LegalEvent(e)
  {
    Held(Hands(true, false), n) + [Hands(false, false)]
  }

  function RightTapped(k: nat): (r: seq<Event>)
    ensures forall e :: e in r ==> LegalEvent(e)
  {
    Held(Hands(false, true), k) + [Hands(false, false)]
  }

  predicate AtRest(u: Ui) {
    WellFormed(u) && u.left.released && u.right.released && u.pots == [0, 0]
  }

  lemma {:induction false} RunConcat(w: World, a: seq<Event>, b: seq<Event>)
    requires WellFormed(w.ui) && forall e :: e in a ==> LegalEvent(e)
    requires forall e :: e in b ==> LegalEvent(e)
    ensures Run(w, a + b) == Run(Run(w, a), b)
    decreases |a|
  {
    if a == [] {
      assert a + b == b;
    } else {
      assert (a + b)[1..] == a[1..] + b;
      RunConcat(Apply(w, a[0]), a[1..], b);
    }
  }

  lemma RunOne(w: World, e: Event)
    requires WellFormed(w.ui) && LegalEvent(e)
    ensures Run(w, [e]) == Apply(w, e)
  {
    assert [e][1..] == [];
  }

  /** With the knobs at rest and the other button released, a tick is a matter of one button. */
  lemma LeftTick(w: World, down: bool)
    requires WellFormed(w.ui) && w.ui.pots == [0, 0] && w.ui.right.released
    ensures Apply(w, Hands(down, false)) == w.(ui := LeftButton(w.ui, !down))
  {
    var u := LeftButton(w.ui, !down);
    assert u.right == w.ui.right && u.pots == [0, 0];
    assert RightButton(u, true) == u;
    KnobsAtRest(u, down, false);
  }

  lemma RightTick(w: World, down: bool)
    requires AtRest(w.ui.(right := B.RELEASED))
    ensures Apply(w, Hands(false, down)) == w.(ui := RightButton(w.ui, !down))
  {
    assert LeftButton(w.ui, true) == w.ui;
    KnobsAtRest(RightButton(w.ui, !down), false, down);
  }

  lemma KnobsAtRest(u: Ui, left: bool, right: bool)
    requires WellFormed(u) && u.pots == [0, 0]
    ensures Pots(Encoders(u, Hands(left, right).input), Hands(left, right).input) == u
  {
  }

  /** The left button has been held for a number of ticks. */
  predicate LeftDown(u: Ui, hold: nat, s: Settings) {
    WellFormed(u) && u.left == B.Button(false, hold) && u.right.released && u.pots == [0, 0] && u.settings == s
  }

  /** Except at 600 ticks, holding the left button only counts. */
  lemma {:induction false} Counting(w: World, hold: nat, n: nat)
    requires LeftDown(w.ui, hold, w.ui.settings) && (hold + n < 600 || hold >= 600)
    ensures var r := Run(w, Held(Hands(true, false), n)).ui;
            LeftDown(r, hold + n, w.ui.settings) && r.writeToFlash == w.ui.writeToFlash
    decreases n
  {
    if n > 0 {
      LeftTick(w, true);
      assert Held(Hands(true, false), n)[1..] == Held(Hands(true, false), n - 1);
      Counting(Apply(w, Hands(true, false)), hold + 1, n - 1);
    }
  }

  function Switching(s: Settings): Settings {
    s.(editMode := Switched(s.editMode))
  }

  lemma LeftPressed(w: World)
    requires AtRest(w.ui)
    ensures LeftDown(Run(w, [Hands(true, false)]).ui, 1, w.ui.settings)
  {
    LeftTick(w, true);
    RunOne(w, Hands(true, false));
  }

  lemma LeftReaches(w: World)
    requires LeftDown(w.ui, 599, w.ui.settings)
    ensures var r := Run(w, [Hands(true, false)]).ui;
            LeftDown(r, 600, Switching(w.ui.settings)) && r.writeToFlash
  {
    LeftTick(w, true);
    RunOne(w, Hands(true, false));
  }

  /** Both buttons are up, and the settings are marked for saving. */
  predicate Marked(u: Ui, s: Settings) {
    AtRest(u) && u.settings == s && u.writeToFlash
  }

  lemma LeftReleased(w: World, n: nat)
    requires LeftDown(w.ui, n, w.ui.settings) && 600 <= n && w.ui.writeToFlash
    ensures Marked(Run(w, [Hands(false, false)]).ui, w.ui.settings)
  {
    LeftTick(w, false);
    RunOne(w, Hands(false, false));
  }

  /** A run of n ticks is one, then k, then one, then the rest. */
  lemma HeldSplits(e: Event, up: Event, n: nat, k: nat)
    requires k + 2 <= n
    ensures Held(e, n) + [up] == [e] + (Held(e, k) + ([e] + (Held(e, n - k - 2) + [up])))
  {
  }

  /** Held for 600 ticks or more and let go, the left button goes between the pairs of modes. */
  lemma LeftHeldSwitches(w: World, n: nat)
    requires AtRest(w.ui) && 600 <= n
    ensures Marked(Run(w, LeftHeld(n)).ui, Switching(w.ui.settings))
  {
    var down, up, k := Hands(true, false), Hands(false, false), B.HOLD - 2;
    HeldSplits(down, up, n, k);
    RunConcat(w, [down], Held(down, k) + ([down] + (Held(down, n - k - 2) + [up])));
    LeftPressed(w);
    LeftHolds(Run(w, [down]), n, k);
  }

  lemma LeftHolds(w: World, n: nat, k: nat)
    requires LeftDown(w.ui, 1, w.ui.settings) && 600 <= n && k == B.HOLD - 2
    ensures Marked(Run(w, Held(Hands(true, false), k) + ([Hands(true, false)] +
                          (Held(Hands(true, false), n - k - 2) + [Hands(false, false)]))).ui,
                   Switching(w.ui.settings))
  {
    var down, up := Hands(true, false), Hands(false, false);
    RunConcat(w, Held(down, k), [down] + (Held(down, n - k - 2) + [up]));
    Counting(w, 1, k);
    LeftStays(Run(w, Held(down, k)), n - k - 2);
  }

  lemma LeftStays(w: World, more: nat)
    requires LeftDown(w.ui, 599, w.ui.settings)
    ensures Marked(Run(w, [Hands(true, false)] + (Held(Hands(true, false), more) + [Hands(false, false)])).ui,
                   Switching(w.ui.settings))
  {
    var down, up := Hands(true, false), Hands(false, false);
    RunConcat(w, [down], Held(down, more) + [up]);
    LeftReaches(w);
    LeftLetGo(Run(w, [down]), more);
  }

  lemma LeftLetGo(w: World, more: nat)
    requires LeftDown(w.ui, 600, w.ui.settings) && w.ui.writeToFlash
    ensures Marked(Run(w, Held(Hands(true, false), more) + [Hands(false, false)]).ui, w.ui.settings)
  {
    RunConcat(w, Held(Hands(true, false), more), [Hands(false, false)]);
    Counting(w, 600, more);
    LeftReleased(Run(w, Held(Hands(true, false), more)), 600 + more);
  }

  predicate RightDown(u: Ui, hold: nat, s: Settings) {
    AtRest(u.(right := B.RELEASED)) && u.right == B.Button(false, hold) && u.settings == s
  }

  lemma {:induction false} RightCounting(w: World, hold: nat, k: nat)
    requires RightDown(w.ui, hold, w.ui.settings) && hold + k < 600
    ensures RightDown(Run(w, Held(Hands(false, true), k)).ui, hold + k, w.ui.settings)
    decreases k
  {
    if k > 0 {
      RightTick(w, true);
      assert Held(Hands(false, true), k)[1..] == Held(Hands(false, true), k - 1);
      RightCounting(Apply(w, Hands(false, true)), hold + 1, k - 1);
    }
  }

  lemma RightPressed(w: World)
    requires AtRest(w.ui)
    ensures RightDown(Run(w, [Hands(false, true)]).ui, 1, w.ui.settings)
  {
    RightTick(w, true);
    RunOne(w, Hands(false, true));
  }

  function Advanced(s: Settings): Settings
    requires |s.functions| == 2
  {
    Settings(FIRST, s.functions[0 := NextFunction(s.functions[0])])
  }

  lemma RightReleased(w: World, k: nat)
    requires RightDown(w.ui, k, w.ui.settings) && k < 600 && w.ui.settings.editMode == FIRST
    ensures Marked(Run(w, [Hands(false, false)]).ui, Advanced(w.ui.settings))
  {
    RightTick(w, false);
    RunOne(w, Hands(false, false));
  }

  /** Pressed for less than 600 ticks, the right button advances the first channel's function. */
  lemma RightTappedAdvances(w: World, k: nat)
    requires AtRest(w.ui) && w.ui.settings.editMode == FIRST && 0 < k < 600
    ensures Marked(Run(w, RightTapped(k)).ui, Advanced(w.ui.settings))
  {
    var down, up := Hands(false, true), Hands(false, false);
    assert RightTapped(k) == [down] + (Held(down, k - 1) + [up]);
    RunConcat(w, [down], Held(down, k - 1) + [up]);
    RightPressed(w);
    RightLetGo(Run(w, [down]), k);
  }

  lemma RightLetGo(w: World, k: nat)
    requires RightDown(w.ui, 1, w.ui.settings) && w.ui.settings.editMode == FIRST && 0 < k < 600
    ensures Marked(Run(w, Held(Hands(false, true), k - 1) + [Hands(false, false)]).ui, Advanced(w.ui.settings))
  {
    RunConcat(w, Held(Hands(false, true), k - 1), [Hands(false, false)]);
    RightCounting(w, 1, k - 1);
    RightReleased(Run(w, Held(Hands(false, true), k - 1)), k);
  }

  function LosingEvents(n: nat, k: nat): (r: seq<Event>)
    ensures forall e :: e in r ==> LegalEvent(e)
  {
    LeftHeld(n) + (RightTapped(k) + (LeftHeld(n) + [Save([], [])]))
  }

  lemma SettingsOnTheWay()
    ensures Switching(Settings(TWIN, [0, 0])) == Settings(FIRST, [0, 0])
    ensures Advanced(Settings(FIRST, [0, 0])) == Settings(FIRST, [1, 0])
    ensures Switching(Settings(FIRST, [1, 0])) == Settings(TWIN, [1, 0])
  {
    assert [0, 0][0 := NextFunction(0)] == [1, 0];
  }

  lemma LosingRun(w: World, n: nat, k: nat)
    requires AtRest(w.ui) && w.ui.settings == Settings(TWIN, [0, 0]) && 0 < k < 600 <= n
    ensures var r := Run(w, LosingEvents(n, k));
            !r.ui.writeToFlash && r.ui.settings == Settings(TWIN, [1, 0]) && r.flash == Page(r.ui.settings)
  {
    RunConcat(w, LeftHeld(n), RightTapped(k) + (LeftHeld(n) + [Save([], [])]));
    LeftHeldSwitches(w, n);
    SettingsOnTheWay();
    TapAndBack(Run(w, LeftHeld(n)), n, k);
  }

  lemma TapAndBack(w: World, n: nat, k: nat)
    requires AtRest(w.ui) && w.ui.settings == Settings(FIRST, [0, 0]) && 0 < k < 600 <= n
    ensures var r := Run(w, RightTapped(k) + (LeftHeld(n) + [Save([], [])]));
            !r.ui.writeToFlash && r.ui.settings == Settings(TWIN, [1, 0]) && r.flash == Page(r.ui.settings)
  {
    RunConcat(w, RightTapped(k), LeftHeld(n) + [Save([], [])]);
    RightTappedAdvances(w, k);
    SettingsOnTheWay();
    BackAndSave(Run(w, RightTapped(k)), n);
  }

  lemma BackAndSave(w: World, n: nat)
    requires AtRest(w.ui) && w.ui.settings == Settings(FIRST, [1, 0]) && 600 <= n
    ensures var r := Run(w, LeftHeld(n) + [Save([], [])]);
            !r.ui.writeToFlash && r.ui.settings == Settings(TWIN, [1, 0]) && r.flash == Page(r.ui.settings)
  {
    RunConcat(w, LeftHeld(n), [Save([], [])]);
    LeftHeldSwitches(w, n);
    SettingsOnTheWay();
    SavedQuietly(Run(w, LeftHeld(n)));
  }

  lemma SavedQuietly(w: World)
    requires WellFormed(w.ui) && w.ui.writeToFlash
    ensures Run(w, [Save([], [])]) == World(w.ui.(writeToFlash := false), Page(w.ui.settings))
  {
    RunOne(w, Save([], []));
  }

  /** On a new module: hold the left button to edit the first channel, tap the right one, hold the left one to go
    back. Everything is saved, and yet a reboot changes the first channel's function. */
  lemma RebootForgets(flash: Flash, n: nat, k: nat)
    requires flash.magic != 0xBEEFBEAC && 0 < k < 600 <= n
    ensures var w := Run(World(Boot(flash), flash), LosingEvents(n, k));
            && !w.ui.writeToFlash && w.ui.settings == Settings(TWIN, [1, 0])
            && Written(w.flash) && Boot(w.flash).settings == Settings(TWIN, [0, 0])
  {
    LosingRun(World(Boot(flash), flash), n, k);
    BootRestores(Settings(TWIN, [1, 0]));
  }
}
