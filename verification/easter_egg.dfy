/** The hidden seven-click counter on the header bar's app icon, with GLib's
    one-shot timeouts reduced to a set of pending source ids and an explicit
    expiry event. */
module EasterEgg {
  import opened Outcomes

  /** Clicks needed to set the easter egg off. */
  const Threshold: nat := 7

  /** The egg timeouts attached to the main loop, and the id the next
      `timeout_add` hands out. GLib source ids start at 1 and are not reused while the
      source is attached; here they are unbounded and never reused. */
  datatype MainLoop = MainLoop(pending: set<nat>, nextId: nat)

  /** `GLib.timeout_add`: attach a new one-shot source; returns the loop and its id. */
  function TimeoutAdd(l: MainLoop): (r: (MainLoop, nat))
    requires l.nextId >= 1 && forall p :: p in l.pending ==> 1 <= p < l.nextId
    ensures r.1 >= 1 && r.1 !in l.pending
    ensures r.0.pending == l.pending + {r.1}
    ensures r.0.nextId >= 1 && forall p :: p in r.0.pending ==> 1 <= p < r.0.nextId
  {
    (MainLoop(l.pending + {l.nextId}, l.nextId + 1), l.nextId)
  }

  /** `GLib.source_remove(id)`: detach a source; the flag says whether there was
      one to detach (GLib reports an error when there was not). */
  function SourceRemove(l: MainLoop, id: nat): (r: (MainLoop, bool))
    ensures r.1 <==> id in l.pending
    ensures r.0.pending == l.pending - {id} && r.0.nextId == l.nextId
  {
    (l.(pending := l.pending - {id}), id in l.pending)
  }

  /** `_egg_clicks`, `_egg_timer`, how many times `_trigger_easter_egg` ran, and the main loop. */
  datatype Egg = Egg(clicks: nat, timer: Option<nat>, fired: nat, loop: MainLoop)

  /** The window as constructed: no clicks, no timer. */
  function Initial(): (e: Egg)
    ensures Inv(e) && e.clicks == 0 && e.timer.None? && e.fired == 0
  {
    Egg(0, None, 0, MainLoop({}, 1))
  }

  /** The counter stays in [0, 6], source ids are the positive ones handed out so
      far, and the only pending egg timeout is the one `_egg_timer` holds. */
  predicate Inv(e: Egg) {
    && e.clicks < Threshold
    && e.loop.nextId >= 1
    && (forall p :: p in e.loop.pending ==> 1 <= p < e.loop.nextId)
    && e.loop.pending == (match e.timer case None => {} case Some(h) => {h})
  }

  /** Python truthiness of `_egg_timer`: `None` and the id 0 are false. */
  predicate TimerSet(e: Egg) {
    e.timer.Some? && e.timer.value != 0
  }

  /** `_on_icon_clicked`: count the click, replace any pending reset timeout by a
      fresh one, and at the threshold set the egg off and zero the counter (the
      fresh timeout stays pending). */
  function Click(e: Egg): (r: Egg)
    requires e.loop.nextId >= 1 && forall p :: p in e.loop.pending ==> 1 <= p < e.loop.nextId
    ensures r.clicks < Threshold
    ensures r.fired == e.fired + (if e.clicks + 1 >= Threshold then 1 else 0)
    ensures r.fired == e.fired ==> r.clicks == e.clicks + 1
    ensures r.fired > e.fired ==> r.clicks == 0
    ensures r.timer.Some? && r.timer.value !in e.loop.pending
    ensures Inv(e) ==> Inv(r) && r.loop.pending == {r.timer.value}
  {
    var clicks := e.clicks + 1;
    var loop := if TimerSet(e) then SourceRemove(e.loop, e.timer.value).0 else e.loop;
    var (loop', id) := TimeoutAdd(loop);
    if clicks >= Threshold then Egg(0, Some(id), e.fired + 1, loop')
    else Egg(clicks, Some(id), e.fired, loop')
  }

  /** In a valid state, a click only ever removes a source that is still pending. */
  lemma ClickRemovesLiveTimer(e: Egg)
    requires Inv(e) && TimerSet(e)
    ensures SourceRemove(e.loop, e.timer.value).1
  {
  }

  /** The main loop dispatches timeout `id`. If it is pending, `_reset_egg` runs:
      the counter and `_egg_timer` are cleared, and returning `False` detaches
      the source. An id that is not pending dispatches nothing. */
  function Expire(e: Egg, id: nat): (r: Egg)
    ensures id in e.loop.pending ==> r.clicks == 0 && r.timer.None? && id !in r.loop.pending
    ensures id !in e.loop.pending ==> r == e
    ensures r.fired == e.fired
    ensures Inv(e) ==> Inv(r)
  {
    if id in e.loop.pending then
      Egg(0, None, e.fired, e.loop.(pending := e.loop.pending - {id}))
    else e
  }

  /** `k` clicks with no timeout dispatched between them. */
  function Clicks(e: Egg, k: nat): (r: Egg)
    requires Inv(e)
    ensures Inv(r)
    decreases k
  {
    if k == 0 then e else Clicks(Click(e), k - 1)
  }

  /** A burst of `k` clicks from counter `c` sets the egg off once for every
      seven clicks counted and leaves the remainder on the counter. */
  lemma {:induction false} BurstCounts(e: Egg, k: nat)
    requires Inv(e)
    ensures Clicks(e, k).fired == e.fired + (e.clicks + k) / Threshold
    ensures Clicks(e, k).clicks == (e.clicks + k) % Threshold
    decreases k
  {
    if k > 0 {
      var e' := Click(e);
      BurstCounts(e', k - 1);
      if e.clicks + 1 >= Threshold {
        assert e.clicks == 6;
        assert e'.clicks + (k - 1) == e.clicks + k - Threshold;
      }
    }
  }

  /** The click that sets the egg off is exactly every seventh one of a burst. */
  lemma FiresOnSeventh(e: Egg, k: nat)
    requires Inv(e)
    ensures var before := Clicks(e, k);
            Click(before).fired == before.fired + (if (e.clicks + k + 1) % Threshold == 0 then 1 else 0)
  {
    BurstCounts(e, k);
  }

  /** Seven quick clicks from rest set the egg off exactly once and leave the
      counter at 0. */
  lemma SevenClicksFireOnce(e: Egg)
    requires Inv(e) && e.clicks == 0
    ensures Clicks(e, 7).fired == e.fired + 1 && Clicks(e, 7).clicks == 0
  {
    BurstCounts(e, 7);
  }

  /** Six quick clicks followed by the reset timeout leave the counter at 0
      without setting the egg off, and the next click counts from 1. */
  lemma PauseForgetsBurst(e: Egg)
    requires Inv(e) && e.clicks == 0
    ensures var six := Clicks(e, 6);
            var rested := Expire(six, six.timer.value);
            && rested.clicks == 0 && rested.fired == e.fired
            && rested.timer.None? && rested.loop.pending == {}
            && Click(rested).clicks == 1
  {
    BurstCounts(e, 6);
    BurstCounts(e, 5);
  }

  /** Whenever the reset timeout is dispatched, the next click counts from 1. */
  lemma ExpiryRestartsCount(e: Egg)
    requires Inv(e) && e.timer.Some?
    ensures Click(Expire(e, e.timer.value)).clicks == 1
    ensures Expire(e, e.timer.value).loop.pending == {}
  {
  }

  /** The click that sets the egg off leaves its fresh reset timeout pending;
      when that fires it finds the counter already at 0. */
  lemma FiringLeavesTimerPending(e: Egg)
    requires Inv(e) && e.clicks == Threshold - 1
    ensures var r := Click(e);
            && r.fired == e.fired + 1 && r.clicks == 0 && r.timer.Some?
            && r.timer.value in r.loop.pending
            && Expire(r, r.timer.value).clicks == 0
  {
  }
}
