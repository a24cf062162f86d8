/**
 * The spin controller: an explicit record of the page's state and the two
 * atomic steps of a spin.  `RequestSpin` is the click handler `onSpin`;
 * `CompleteSpin` is the one-shot `transitionend` handler `handleEnd`, which
 * exists only while a spin is pending.
 */
module Controller {
  import opened Wrappers
  import opened Utils
  import opened Topics
  import opened Planner

  /** The status line's messages. */
  datatype Status = Blank | ClickToSpin | PleaseWait | AllSelected | Selected(name: string)

  /** What the registered completion handler will commit: the chosen topic and where the wheel lands. */
  datatype PendingSpin = PendingSpin(name: string, finalRotation: real)

  datatype Wheel = Wheel(
    topics: seq<Topic>,          // the registry, in slice and legend order
    history: seq<string>,        // `selectedTopics`: chosen names, in order
    rotation: real,              // `currentRotation`
    transform: real,             // the rotation the wheel element is drawn at
    spinning: bool,
    buttonDisabled: bool,
    status: Status,
    pending: Option<PendingSpin>) // the registered `transitionend` handler, if any

  /** One random draw of `Math.random()` for the index and one for the turn count. */
  datatype Draw = Draw(index: real, turns: real)

  predicate ValidDraw(d: Draw) {
    0.0 <= d.index < 1.0 && 0.0 <= d.turns < 1.0
  }

  /** The state-relevant part of `renderWheel`: the button and the initial status line. */
  function Render(w: Wheel): (r: Wheel)
    ensures r.buttonDisabled <==> |Active(w.topics)| == 0
    ensures |Active(w.topics)| == 0 ==> r.status == AllSelected
    ensures |Active(w.topics)| > 0 && |w.history| == 0 ==> r.status == ClickToSpin
    ensures |Active(w.topics)| > 0 && |w.history| > 0 ==> r.status == w.status
    ensures r.topics == w.topics && r.history == w.history && r.rotation == w.rotation
    ensures r.transform == w.transform && r.spinning == w.spinning && r.pending == w.pending
  {
    var noneLeft := |Active(w.topics)| == 0;
    w.(buttonDisabled := noneLeft,
       status := if noneLeft then AllSelected else if |w.history| == 0 then ClickToSpin else w.status)
  }

  /** `init`: the first render of a fresh wheel resting at 0 degrees. */
  function Init(ts: seq<Topic>): (w: Wheel)
    ensures w.topics == ts && w.history == [] && w.rotation == 0.0 && w.transform == 0.0
    ensures !w.spinning && w.pending.None?
    ensures w.buttonDisabled <==> |Active(ts)| == 0
    ensures w.status == if |Active(ts)| == 0 then AllSelected else ClickToSpin
  {
    Render(Wheel(ts, [], 0.0, 0.0, false, false, Blank, None))
  }

  /**
   * `onSpin`: rejected while a spin is in flight or when no topic is left;
   * otherwise it picks an active slice, plans the rotation, starts the
   * animation and registers the pending commit.
   */
  function RequestSpin(w: Wheel, d: Draw): (r: Wheel)
    requires ValidDraw(d)
    // A request while spinning changes nothing but the status line.
    ensures w.spinning ==>
      r == w.(status := PleaseWait)
    // A request with nothing left changes nothing but the status line and keeps the button disabled.
    ensures !w.spinning && |Active(w.topics)| == 0 ==>
      r == w.(status := AllSelected, buttonDisabled := true)
    // An accepted request leaves the registry, history and stored rotation alone until completion.
    ensures !w.spinning && |Active(w.topics)| > 0 ==>
      && r.spinning && r.buttonDisabled && r.status == w.status
      && r.topics == w.topics && r.history == w.history && r.rotation == w.rotation
      && r.pending.Some? && r.transform == r.pending.value.finalRotation
      && r.pending.value.finalRotation > w.rotation
      && IsActiveName(w.topics, r.pending.value.name)
    // The planned rotation puts the drawn slice under the pointer.
    ensures !w.spinning && |Active(w.topics)| > 0 ==>
      var n := |Active(w.topics)|;
      var idx := ChooseRandomIndex(n, d.index);
      && 0 <= idx < n
      && r.pending.Some?
      && r.pending.value.name == Active(w.topics)[idx].name
      && SliceUnderPointer(n, r.pending.value.finalRotation) == idx
    // The net turn is fixed by the drawn number of extra turns.
    ensures !w.spinning && |Active(w.topics)| > 0 ==>
      var k := ExtraSpins(d.turns);
      && r.pending.Some?
      && (k - 2) as real * FullTurn + PointerOffset < r.pending.value.finalRotation - w.rotation
      && r.pending.value.finalRotation - w.rotation < k as real * FullTurn + PointerOffset
    // The drawn slice's centre lands exactly at the pointer, in turn k counted from the current whole turn.
    ensures !w.spinning && |Active(w.topics)| > 0 ==>
      var n := |Active(w.topics)|;
      var idx := ChooseRandomIndex(n, d.index);
      var k := ExtraSpins(d.turns);
      var base := w.rotation - Modulo(w.rotation, FullTurn);
      && 0 <= idx < n
      && r.pending.Some?
      && Modulo(r.pending.value.finalRotation, FullTurn) == Modulo(PointerOffset - CenterAngle(n, idx), FullTurn)
      && k as real * FullTurn - 270.0 < r.pending.value.finalRotation - base
      && r.pending.value.finalRotation - base < k as real * FullTurn + PointerOffset
  {
    var active := Active(w.topics);
    if w.spinning then
      w.(status := PleaseWait)
    else if |active| == 0 then
      w.(status := AllSelected, buttonDisabled := true)
    else
      var n := |active|;
      var idx := ChooseRandomIndex(n, d.index);
      var plan := PlanSpin(n, idx, w.rotation, ExtraSpins(d.turns));
      ActiveMembers(w.topics);
      assert active[idx] in w.topics;
      w.(spinning := true,
         buttonDisabled := true,
         transform := plan.finalRotation,
         pending := Some(PendingSpin(active[idx].name, plan.finalRotation)))
  }

  /**
   * `handleEnd`: renormalise the rotation, flag the chosen topic, append it
   * to the history, re-render, and go idle with the button enabled only if
   * topics remain.
   */
  function CompleteSpin(w: Wheel): (r: Wheel)
    requires w.pending.Some?
    ensures r.history == w.history + [w.pending.value.name]
    ensures |r.topics| == |w.topics|
    ensures forall i :: 0 <= i < |w.topics| ==> r.topics[i].name == w.topics[i].name
    ensures UniqueNames(w.topics) ==> forall i :: 0 <= i < |w.topics| ==>
      r.topics[i].removed == (w.topics[i].removed || w.topics[i].name == w.pending.value.name)
    ensures UniqueNames(w.topics) && IsActiveName(w.topics, w.pending.value.name) ==>
      |Active(r.topics)| == |Active(w.topics)| - 1
    // The stored rotation is renormalised without moving the wheel visibly.
    ensures 0.0 <= r.rotation < FullTurn && r.transform == r.rotation
    ensures Modulo(r.rotation, FullTurn) == Modulo(w.pending.value.finalRotation, FullTurn)
    ensures !r.spinning && r.pending.None?
    ensures r.buttonDisabled <==> |Active(r.topics)| == 0
    ensures r.status == if |Active(r.topics)| > 0 then Selected(w.pending.value.name) else AllSelected
  {
    var p := w.pending.value;
    var rot := Modulo(p.finalRotation, FullTurn);
    ModuloIdempotent(p.finalRotation);
    MarkRemovedUnique(w.topics, p.name);
    assert UniqueNames(w.topics) && IsActiveName(w.topics, p.name) ==>
      |Active(MarkRemoved(w.topics, p.name))| == |Active(w.topics)| - 1 by {
      if UniqueNames(w.topics) && IsActiveName(w.topics, p.name) {
        MarkRemovedActiveCount(w.topics, p.name);
      }
    }
    var committed := w.(
      rotation := rot,
      transform := rot,
      topics := MarkRemoved(w.topics, p.name),
      history := w.history + [p.name],
      status := Selected(p.name));
    var rendered := Render(committed);
    var anyLeft := |Active(rendered.topics)| > 0;
    rendered.(
      spinning := false,
      pending := None,
      buttonDisabled := !anyLeft,
      status := if anyLeft then rendered.status else AllSelected)
  }

  /** The events the page reacts to: a click, the end of the spin animation, a window resize. */
  datatype Event = Click(draw: Draw) | TransitionEnd | Resize

  predicate ValidEvent(e: Event) {
    e.Click? ==> ValidDraw(e.draw)
  }

  /**
   * One event.  A click on a disabled button is never dispatched, so it
   * does nothing.  A `transitionend` with no pending spin finds no handler
   * registered (it was added with `{ once: true }`), so it does nothing.
   * A resize re-renders the wheel, at any time, even during a spin.
   */
  function Step(w: Wheel, e: Event): (r: Wheel)
    requires ValidEvent(e)
    // A click never commits: the registry and the history wait for the animation's end.
    ensures e.Click? ==> r.topics == w.topics && r.history == w.history && r.rotation == w.rotation
    ensures e.Click? && w.buttonDisabled ==> r == w
    ensures e.Click? && !w.buttonDisabled && w.spinning ==> r == w.(status := PleaseWait)
    // The completion handler fires once per spin and then is gone.
    ensures e.TransitionEnd? && w.pending.None? ==> r == w
    ensures e.TransitionEnd? && w.pending.Some? ==>
      r.pending.None? && !r.spinning && r.history == w.history + [w.pending.value.name]
    // A resize touches nothing but the button and the status line.
    ensures e.Resize? ==> r == w.(buttonDisabled := r.buttonDisabled, status := r.status)
    ensures e.Resize? ==> (r.buttonDisabled <==> |Active(w.topics)| == 0)
  {
    match e
    case Click(d) => if w.buttonDisabled then w else RequestSpin(w, d)
    case TransitionEnd => if w.pending.Some? then CompleteSpin(w) else w
    case Resize => Render(w)
  }

  predicate ValidEvents(es: seq<Event>) {
    forall k :: 0 <= k < |es| ==> ValidEvent(es[k])
  }

  /** The events in order, each on the state the previous one left. */
  function Run(w: Wheel, es: seq<Event>): (r: Wheel)
    requires ValidEvents(es)
    ensures |es| == 0 ==> r == w
    ensures |es| == 1 ==> r == Step(w, es[0])
    decreases |es|
  {
    if |es| == 0 then w else Run(Step(w, es[0]), es[1..])
  }

  /** Replaying two runs back to back is replaying their concatenation. */
  lemma {:induction false} RunConcat(w: Wheel, a: seq<Event>, b: seq<Event>)
    requires ValidEvents(a) && ValidEvents(b)
    ensures ValidEvents(a + b)
    ensures Run(w, a + b) == Run(Run(w, a), b)
    decreases |a|
  {
    ValidEventsConcat(a, b);
    if |a| == 0 {
      assert a + b == b;
    } else {
      assert ValidEvents(a[1..]);
      assert (a + b)[1..] == a[1..] + b;
      RunConcat(Step(w, a[0]), a[1..], b);
    }
  }

  lemma ValidEventsConcat(a: seq<Event>, b: seq<Event>)
    requires ValidEvents(a) && ValidEvents(b)
    ensures ValidEvents(a + b)
  {
    forall k | 0 <= k < |a + b|
      ensures ValidEvent((a + b)[k])
    {
      if k < |a| {
        assert (a + b)[k] == a[k];
      } else {
        assert (a + b)[k] == b[k - |a|];
      }
    }
  }

  /** No name occurs twice. */
  predicate Distinct(xs: seq<string>) {
    forall i, j :: 0 <= i < j < |xs| ==> xs[i] != xs[j]
  }

  /**
   * What holds between any two events: names are unique; the history lists
   * each removed topic once; the stored rotation is normalised; a spin is in
   * flight exactly when a commit is pending, and then the pending topic is
   * still active and the wheel is drawn at its target; when idle the wheel is
   * drawn at the stored rotation and the button is disabled exactly when
   * nothing is left.  The button is not part of the invariant during a spin:
   * a resize re-renders it enabled, and only the `spinning` flag keeps a
   * second spin out.
   */
  predicate Inv(w: Wheel) {
    && UniqueNames(w.topics)
    && Distinct(w.history)
    && (forall k :: 0 <= k < |w.history| ==> IsRemovedName(w.topics, w.history[k]))
    && (forall i :: 0 <= i < |w.topics| && w.topics[i].removed ==> w.topics[i].name in w.history)
    && |w.history| == |w.topics| - |Active(w.topics)|
    && 0.0 <= w.rotation < FullTurn
    && (w.spinning <==> w.pending.Some?)
    && (w.pending.Some? ==>
          && IsActiveName(w.topics, w.pending.value.name)
          && w.transform == w.pending.value.finalRotation)
    && (w.pending.None? ==>
          && w.transform == w.rotation
          && (w.buttonDisabled <==> |Active(w.topics)| == 0))
  }

  /** A fresh registry with unique names and nothing removed starts in a consistent state. */
  lemma InitInv(ts: seq<Topic>)
    requires UniqueNames(ts)
    requires forall i :: 0 <= i < |ts| ==> !ts[i].removed
    ensures Inv(Init(ts))
  {
    ActiveEmpty(ts);
    ActiveMembers(ts);
    if |ts| > 0 {
      assert ts[0] in Active(ts);
    }
    AllActive(ts);
  }

  /** The click handler keeps the state consistent, whether it accepts or rejects the request. */
  lemma RequestSpinInv(w: Wheel, d: Draw)
    requires Inv(w) && ValidDraw(d)
    ensures Inv(RequestSpin(w, d))
  {
  }

  /** The history cannot yet hold the name of a topic that is still active. */
  lemma ActiveNameNotInHistory(w: Wheel, name: string)
    requires Inv(w) && IsActiveName(w.topics, name)
    ensures name !in w.history
  {
  }

  /** The completion handler commits the pending topic and leaves a consistent, idle state. */
  lemma CompleteSpinInv(w: Wheel)
    requires Inv(w) && w.pending.Some?
    ensures Inv(CompleteSpin(w))
  {
  }

  /** Every event keeps the state consistent. */
  lemma StepInv(w: Wheel, e: Event)
    requires Inv(w) && ValidEvent(e)
    ensures Inv(Step(w, e))
    ensures w.history <= Step(w, e).history
    ensures |Step(w, e).topics| == |w.topics|
    ensures forall i :: 0 <= i < |w.topics| ==>
      Step(w, e).topics[i].name == w.topics[i].name && (w.topics[i].removed ==> Step(w, e).topics[i].removed)
  {
    match e
    case Click(d) => RequestSpinInv(w, d);
    case TransitionEnd => if w.pending.Some? { CompleteSpinInv(w); }
    case Resize => RenderInv(w);
  }

  /** A re-render on resize keeps the state consistent. */
  lemma RenderInv(w: Wheel)
    requires Inv(w)
    ensures Inv(Render(w))
  {
  }

  /**
   * Over any sequence of events the state stays consistent, the history only
   * grows at its end, names never change and a removed topic stays removed.
   */
  lemma {:induction false} RunInv(w: Wheel, es: seq<Event>)
    requires Inv(w) && ValidEvents(es)
    ensures Inv(Run(w, es))
    ensures w.history <= Run(w, es).history
    ensures |Run(w, es).topics| == |w.topics|
    ensures forall i :: 0 <= i < |w.topics| ==>
      Run(w, es).topics[i].name == w.topics[i].name && (w.topics[i].removed ==> Run(w, es).topics[i].removed)
    decreases |es|
  {
    if |es| > 0 {
      StepInv(w, es[0]);
      RunInv(Step(w, es[0]), es[1..]);
    }
  }

  /** A second `transitionend` after a commit finds no handler: a spin commits once. */
  lemma CompletionIsOneShot(w: Wheel)
    ensures Step(Step(w, TransitionEnd), TransitionEnd) == Step(w, TransitionEnd)
  {
  }

  /**
   * A resize during a spin re-enables the button, since the pending topic is
   * still active; a click then is turned away by the `spinning` flag alone,
   * changing nothing but the status line.
   */
  lemma ResizeDuringSpin(w: Wheel, d: Draw)
    requires Inv(w) && w.spinning && ValidDraw(d)
    ensures !Step(w, Resize).buttonDisabled
    ensures Step(w, Resize).pending == w.pending
    ensures Step(Step(w, Resize), Click(d)) == Step(w, Resize).(status := PleaseWait)
  {
    var i :| 0 <= i < |w.topics| && w.topics[i].name == w.pending.value.name && !w.topics[i].removed;
    ActiveMembers(w.topics);
    assert w.topics[i] in Active(w.topics);
  }

  /**
   * One full round from idle: a click followed by its completion removes
   * exactly one active topic and appends exactly its name to the history.
   */
  lemma SpinRound(w: Wheel, d: Draw)
    requires Inv(w) && !w.spinning && ValidDraw(d)
    requires |Active(w.topics)| > 0
    ensures var w' := Step(Step(w, Click(d)), TransitionEnd);
      && Inv(w') && !w'.spinning
      && |Active(w'.topics)| == |Active(w.topics)| - 1
      && |w'.history| == |w.history| + 1
      && w'.history[..|w.history|] == w.history
      && IsActiveName(w.topics, w'.history[|w.history|])
  {
    assert !w.buttonDisabled;
    RequestSpinInv(w, d);
    CompleteSpinInv(RequestSpin(w, d));
  }

  /** A session: each click is followed by its completion. */
  function Rounds(draws: seq<Draw>): (es: seq<Event>)
    ensures |es| == 2 * |draws|
    ensures (forall k :: 0 <= k < |draws| ==> ValidDraw(draws[k])) ==> ValidEvents(es)
  {
    if |draws| == 0 then [] else [Click(draws[0]), TransitionEnd] + Rounds(draws[1..])
  }

  /** Running a click and its completion, then the rest. */
  lemma RunRound(w: Wheel, d: Draw, rest: seq<Event>)
    requires ValidDraw(d) && ValidEvents(rest)
    ensures ValidEvents([Click(d), TransitionEnd] + rest)
    ensures Run(w, [Click(d), TransitionEnd] + rest) == Run(Step(Step(w, Click(d)), TransitionEnd), rest)
  {
  }

  /** After as many rounds as there are active topics, none is left. */
  lemma {:induction false} RoundsExhaust(w: Wheel, draws: seq<Draw>)
    requires Inv(w) && !w.spinning
    requires forall k :: 0 <= k < |draws| ==> ValidDraw(draws[k])
    requires |draws| == |Active(w.topics)|
    ensures ValidEvents(Rounds(draws))
    ensures Inv(Run(w, Rounds(draws)))
    ensures |Active(Run(w, Rounds(draws)).topics)| == 0
    ensures !Run(w, Rounds(draws)).spinning
    decreases |draws|
  {
    if |draws| > 0 {
      var rest := Rounds(draws[1..]);
      assert Rounds(draws) == [Click(draws[0]), TransitionEnd] + rest;
      SpinRound(w, draws[0]);
      var w2 := Step(Step(w, Click(draws[0])), TransitionEnd);
      RoundsExhaust(w2, draws[1..]);
      RunRound(w, draws[0], rest);
      assert Run(w, Rounds(draws)) == Run(w2, rest);
    }
  }

  /** In a consistent state with nothing left, the history names every topic exactly once. */
  lemma ExhaustedHistory(w: Wheel)
    requires Inv(w) && |Active(w.topics)| == 0
    ensures Distinct(w.history) && |w.history| == |w.topics|
    ensures forall i :: 0 <= i < |w.topics| ==> w.topics[i].removed && w.topics[i].name in w.history
  {
    ActiveEmpty(w.topics);
  }

  /**
   * A whole session from start-up: one round per topic leaves every topic
   * removed and a history that names each of them exactly once.
   */
  lemma FullSession(draws: seq<Draw>)
    requires forall k :: 0 <= k < |draws| ==> ValidDraw(draws[k])
    requires |draws| == |InitialTopics|
    ensures ValidEvents(Rounds(draws))
    ensures var w := Run(Init(InitialTopics), Rounds(draws));
      && |w.topics| == |InitialTopics|
      && Distinct(w.history) && |w.history| == |InitialTopics|
      && (forall i :: 0 <= i < |InitialTopics| ==> w.topics[i].removed && InitialTopics[i].name in w.history)
      && w.buttonDisabled && !w.spinning
  {
    var w0 := Init(InitialTopics);
    assert UniqueNames(InitialTopics);
    InitInv(InitialTopics);
    assert |Active(InitialTopics)| == |InitialTopics| by {
      AllActive(InitialTopics);
    }
    RoundsExhaust(w0, draws);
    RunInv(w0, Rounds(draws));
    var w := Run(w0, Rounds(draws));
    ExhaustedHistory(w);
  }
}
