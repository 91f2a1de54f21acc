/** The main window as a whole: the navigator and the egg counter side by side,
    driven by the events its widgets and the main loop deliver. */
module Window {
  import opened Outcomes
  import Templates
  import Navigator
  import EasterEgg

  datatype Win = Win(nav: Navigator.NavState, egg: EasterEgg.Egg)

  /** One user action or main-loop dispatch. */
  datatype Event =
    | PickTemplate(index: int)  // a template card on the picker
    | DoneButton                // "✓ Done!" on the step page
    | BackButton                // "← Back" on the step page
    | RestartButton             // "Do something else" on the done page
    | IconClick                 // the app icon in the header bar
    | EggTimeout(id: nat)       // the main loop dispatches a pending timeout

  function Initial(): (w: Win)
    ensures Valid(w)
  {
    Win(Navigator.Initial(), EasterEgg.Initial())
  }

  predicate Valid(w: Win) {
    Navigator.Valid(w.nav) && EasterEgg.Inv(w.egg)
  }

  /** Whether the event can happen: a button can only be pressed while the page
      holding it is visible, the picker has one card per template (indices
      0..3), the header icon is always there, and only a pending timeout is
      dispatched. */
  predicate Enabled(w: Win, ev: Event) {
    match ev
    case PickTemplate(i) => w.nav.page == Navigator.Picker && 0 <= i < |Templates.All()|
    case DoneButton => w.nav.page == Navigator.Steps
    case BackButton => w.nav.page == Navigator.Steps
    case RestartButton => w.nav.page == Navigator.Done
    case IconClick => true
    case EggTimeout(id) => id in w.egg.loop.pending
  }

  /** The handler connected to the event. A Python exception in a handler is
      reported by the bindings and the main loop goes on, so it is returned here
      and the caller keeps the window as it was. */
  function Handle(w: Win, ev: Event): (r: Result<Win>)
    requires Valid(w)
    ensures r.Ok? ==> Valid(r.value)
    ensures Enabled(w, ev) ==> r.Ok?
    ensures ev.IconClick? || ev.EggTimeout? ==> r.Ok? && r.value.nav == w.nav
    ensures !(ev.IconClick? || ev.EggTimeout?) && r.Ok? ==> r.value.egg == w.egg
  {
    match ev
    case PickTemplate(i) =>
      (match Navigator.StartTask(w.nav, i)
       case Ok(n) => Ok(w.(nav := n))
       case Err(e) => Err(e))
    case DoneButton =>
      (match Navigator.NextStep(w.nav)
       case Ok(n) => Ok(w.(nav := n))
       case Err(e) => Err(e))
    case BackButton => Ok(w.(nav := Navigator.ShowPicker(w.nav)))
    case RestartButton => Ok(w.(nav := Navigator.ShowPicker(w.nav)))
    case IconClick => Ok(w.(egg := EasterEgg.Click(w.egg)))
    case EggTimeout(id) => Ok(w.(egg := EasterEgg.Expire(w.egg, id)))
  }

  /** Deliver the events in order; events that cannot happen in the current
      state are dropped, and a handler that raises leaves the window unchanged. */
  function Run(w: Win, evs: seq<Event>): (r: Win)
    requires Valid(w)
    ensures Valid(r)
    decreases |evs|
  {
    if evs == [] then w
    else
      var next := if Enabled(w, evs[0]) then Handle(w, evs[0]) else Ok(w);
      Run(if next.Ok? then next.value else w, evs[1..])
  }

  /** Every handler the widgets can actually reach succeeds: "Done!" never finds
      the task missing and a template card never indexes past the table. */
  lemma {:induction false} ReachableNeverRaises(evs: seq<Event>, ev: Event)
    ensures Enabled(Run(Initial(), evs), ev) ==> Handle(Run(Initial(), evs), ev).Ok?
  {
  }

  /** Whatever the user does, the step page is showing only while a task is
      selected, its step index stays in range, and the egg counter stays in
      [0, 6] with at most one timeout pending. */
  lemma AlwaysValid(evs: seq<Event>)
    ensures var w := Run(Initial(), evs);
            && (w.nav.page != Navigator.Picker ==> w.nav.task.Some?)
            && (w.nav.task.Some? ==> w.nav.step < |w.nav.task.value.steps|)
            && w.egg.clicks < EasterEgg.Threshold
            && |w.egg.loop.pending| <= 1
  {
  }

  /** Back and "Do something else" keep the task and step, but that position is
      never resumed: from the picker every possible event either leaves the
      picker showing or opens the step page afresh at step 0. */
  lemma PickerResumesAtStart(w: Win, ev: Event)
    requires Valid(w) && w.nav.page == Navigator.Picker && Enabled(w, ev)
    ensures var r := Handle(w, ev).value;
            || r.nav.page == Navigator.Picker
            || (r.nav.page == Navigator.Steps && r.nav.step == 0)
  {
  }

  /** The end-to-end walk through "Brush Teeth": starting it shows "Step 1 of 6"
      at progress 1/6, and five presses of "Done!" later the last step is
      current; the sixth shows the done page with step index 5. */
  lemma BrushTeethScenario(w: Win)
    requires Valid(w) && w.nav.page == Navigator.Picker
    ensures var s1 := Handle(w, PickTemplate(0)).value;
            && s1.nav.task.value.name == "Brush Teeth"
            && s1.nav.shown.value.number == 1 && s1.nav.shown.value.count == 6
            && s1.nav.shown.value.progress == Navigator.Fraction(1, 6)
            && Run(s1, [DoneButton, DoneButton, DoneButton, DoneButton, DoneButton]).nav.step == 5
            && Run(s1, [DoneButton, DoneButton, DoneButton, DoneButton, DoneButton]).nav.page == Navigator.Steps
            && Run(s1, [DoneButton, DoneButton, DoneButton, DoneButton, DoneButton, DoneButton]).nav.page == Navigator.Done
  {
  }
}
