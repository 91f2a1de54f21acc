/** The task step navigator of the main window: which template is running, which
    step is current, which page of the stack is visible, and what the step page
    displays. */
module Navigator {
  import opened Outcomes
  import opened Templates

  /** The three children of the window's stack. */
  datatype Page = Picker | Steps | Done

  /** A progress-bar fraction kept as an exact integer pair `num / den`. */
  datatype Fraction = Fraction(num: nat, den: nat)

  /** `a < b` as rationals, by cross-multiplication (both denominators positive). */
  predicate Below(a: Fraction, b: Fraction) {
    a.num * b.den < b.num * a.den
  }

  /** The contents of the step page's labels and progress bar. */
  datatype StepView = StepView(icon: string, number: nat, count: nat, text: string, progress: Fraction)

  /** The navigator's part of the window. `shown` is what the step page last
      displayed, `None` before any task was started. */
  datatype NavState = NavState(task: Option<Template>, step: nat, page: Page, shown: Option<StepView>)

  /** The window as constructed: no task, step 0, the picker (the stack's first child) visible. */
  function Initial(): (s: NavState)
    ensures Valid(s) && s.page == Picker && s.task.None?
  {
    NavState(None, 0, Picker, None)
  }

  /** What the step page shows for step `i` of `t`: "Step i+1 of n", the step's
      text, and progress (i+1)/n. */
  function ViewOf(t: Template, i: nat): (v: StepView)
    requires i < |t.steps|
    ensures v.number == i + 1
    ensures v.number == v.progress.num && v.count == v.progress.den == |t.steps|
    ensures 0 < v.progress.num <= v.progress.den
    ensures v.text == t.steps[v.number - 1] && v.icon == t.icon
    ensures v.progress.num == v.progress.den <==> i == |t.steps| - 1
  {
    StepView(t.icon, i + 1, |t.steps|, t.steps[i], Fraction(i + 1, |t.steps|))
  }

  /** The states the window can be in: a running task is one of the built-in
      templates, its step index is in range and the step page is not stale; with
      no task the picker is showing and nothing has been displayed. */
  predicate Valid(s: NavState) {
    match s.task
    case None => s.step == 0 && s.page == Picker && s.shown.None?
    case Some(t) =>
      && t in All()
      && s.step < |t.steps|
      && s.shown == Some(ViewOf(t, s.step))
  }

  /** `_update_step`: redraw the step page from the current task and step. */
  function UpdateStep(s: NavState): (r: NavState)
    requires s.task.Some? && s.step < |s.task.value.steps|
    ensures r.task == s.task && r.step == s.step && r.page == s.page
    ensures r.shown.Some? && r.shown.value.progress.num == s.step + 1
    ensures r.shown.value.number == s.step + 1
    ensures r.shown.value.text == s.task.value.steps[s.step]
    ensures r.shown.value.icon == s.task.value.icon
    ensures r.shown.value.count == r.shown.value.progress.den == |s.task.value.steps|
  {
    s.(shown := Some(ViewOf(s.task.value, s.step)))
  }

  /** `_start_task(index)`: select `TEMPLATES[index]`, go to its first step and
      show the step page, discarding whatever was running before. */
  function StartTask(s: NavState, index: int): (r: Result<NavState>)
    ensures r.Err? <==> !(-|All()| <= index < |All()|)
    ensures r.Err? ==> r.error == IndexError
    ensures r.Ok? ==> && r.value.task == Some(All()[index % |All()|])
                      && r.value.step == 0
                      && r.value.page == Steps
                      && Valid(r.value)
  {
    match Lookup(index)
    case Err(e) => Err(e)
    case Ok(t) => Ok(UpdateStep(s.(task := Some(t), step := 0)).(page := Steps))
  }

  /** `_next_step`, the "Done!" button: advance to the next step, or on the last
      step show the done page. With no task, subscripting `None` raises. */
  function NextStep(s: NavState): (r: Result<NavState>)
    ensures r.Err? <==> s.task.None?
    ensures r.Err? ==> r.error == TypeError
    ensures r.Ok? ==> r.value.task == s.task
    ensures r.Ok? && s.step + 1 < |s.task.value.steps| ==>
              r.value.step == s.step + 1 && r.value.page == s.page
    ensures r.Ok? && s.step + 1 >= |s.task.value.steps| ==>
              r.value.step == s.step && r.value.page == Done && r.value.shown == s.shown
    ensures Valid(s) && r.Ok? ==> Valid(r.value)
  {
    match s.task
    case None => Err(TypeError)
    case Some(t) =>
      if s.step < |t.steps| - 1 then Ok(UpdateStep(s.(step := s.step + 1)))
      else Ok(s.(page := Done))
  }

  /** The "← Back" button of the step page and the "Do something else" button of
      the done page: both only bring the picker to the front. */
  function ShowPicker(s: NavState): (r: NavState)
    ensures r.page == Picker
    ensures r.task == s.task && r.step == s.step && r.shown == s.shown
    ensures Valid(s) ==> Valid(r)
  {
    s.(page := Picker)
  }

  /** `k` presses of "Done!" in a row on a running task. */
  function NextSteps(s: NavState, k: nat): (r: NavState)
    requires s.task.Some?
    ensures r.task == s.task
    ensures Valid(s) ==> Valid(r)
    decreases k
  {
    if k == 0 then s else NextSteps(NextStep(s).value, k - 1)
  }

  function Min(a: int, b: int): int {
    if a <= b then a else b
  }

  /** From a valid running state, `k` presses of "Done!" reach step
      min(i+k, n-1); the done page appears exactly when i+k reaches n, and
      otherwise the visible page is left alone. */
  lemma {:induction false} NextStepsReach(s: NavState, k: nat)
    requires s.task.Some? && s.step < |s.task.value.steps|
    ensures NextSteps(s, k).step == Min(s.step + k, |s.task.value.steps| - 1)
    ensures NextSteps(s, k).page == if s.step + k >= |s.task.value.steps| then Done else s.page
    decreases k
  {
    if k > 0 {
      var s' := NextStep(s).value;
      assert s'.task == s.task && s'.step < |s.task.value.steps|;
      NextStepsReach(s', k - 1);
    }
  }

  /** After starting a task with n steps, n-1 presses of "Done!" reach the last
      step on the step page, the n-th shows the done page, and any further
      presses keep the last step and the done page. */
  lemma TaskWalkthrough(prior: NavState, index: int, k: nat)
    requires 0 <= index < |All()|
    ensures var n := |All()[index].steps|;
            var r := NextSteps(StartTask(prior, index).value, k);
            && (k < n ==> r.step == k && r.page == Steps)
            && (k >= n ==> r.step == n - 1 && r.page == Done)
  {
    NextStepsReach(StartTask(prior, index).value, k);
  }

  /** The displayed progress of a running task is in (0, 1] and is exactly 1 on
      the last step. */
  lemma ProgressBounds(s: NavState)
    requires Valid(s) && s.task.Some?
    ensures var p := s.shown.value.progress;
            && 0 < p.num <= p.den
            && (p.num == p.den <==> s.step == |s.task.value.steps| - 1)
  {
  }

  /** A press of "Done!" that advances strictly increases the displayed progress;
      one that does not advance leaves it as it was. */
  lemma ProgressIncreases(s: NavState)
    requires Valid(s) && s.task.Some?
    ensures var r := NextStep(s).value;
            if s.step + 1 < |s.task.value.steps|
            then Below(s.shown.value.progress, r.shown.value.progress)
            else r.shown == s.shown
  {
    var n := |s.task.value.steps|;
    if s.step + 1 < n {
      MulLt(s.step + 1, s.step + 2, n);
    }
  }

  /** Progress never goes back while "Done!" is pressed: after more presses it is
      at least as large. */
  lemma {:induction false} ProgressMonotone(s: NavState, j: nat, k: nat)
    requires Valid(s) && s.task.Some? && j <= k
    ensures !Below(NextSteps(s, k).shown.value.progress, NextSteps(s, j).shown.value.progress)
  {
    NextStepsReach(s, j);
    NextStepsReach(s, k);
    var a := NextSteps(s, j);
    var b := NextSteps(s, k);
    SameDenominator(a.shown.value.progress, b.shown.value.progress);
  }

  /** Two fractions over the same denominator compare like their numerators. */
  lemma SameDenominator(a: Fraction, b: Fraction)
    requires a.den == b.den > 0 && a.num <= b.num
    ensures !Below(b, a)
  {
    assert a.num * b.den <= b.num * a.den by {
      MulLe(a.num, b.num, a.den);
    }
  }

  lemma MulLt(x: nat, y: nat, z: nat)
    requires x < y && z > 0
    ensures x * z < y * z
  {
  }

  lemma MulLe(x: nat, y: nat, z: nat)
    requires x <= y
    ensures x * z <= y * z
  {
  }
}
