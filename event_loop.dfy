/** The dispatch of the main loop of messinator over a finite prefix of the
    event stream: an input event is handed to `process_events`, a tick runs
    the idle hook (which changes nothing) and then ends the loop if the quit
    flag is up. Rendering between events reads the state and is not modelled
    here. */
module EventLoop {
  import opened AppModel
  import AppProperties

  /** The two kinds of event the event source delivers. */
  datatype Event = Input(key: Key) | Tick

  /** Where the loop stands after a prefix of the event stream: it has
      broken out after consuming `consumed` events, or it is still waiting
      for the next event. */
  datatype Outcome = Exited(state: AppState, consumed: nat) | Waiting(state: AppState)

  /** `process_events` causes no panic on the events the loop reads.
      Events after the loop has exited are never read. The render between
      events is not modelled here; its one index lookup is `ChatTitle`. */
  predicate AdmissibleEvents(s: AppState, evs: seq<Event>)
    decreases |evs|
  {
    evs == [] ||
    match evs[0]
    case Input(k) => Admissible(s, k) && AdmissibleEvents(Step(s, k), evs[1..])
    case Tick => s.shouldQuit || AdmissibleEvents(s, evs[1..])
  }

  /** One more event was consumed before the loop exited. */
  function Later(o: Outcome): (r: Outcome)
  {
    match o
    case Exited(t, n) => Exited(t, n + 1)
    case Waiting(t) => Waiting(t)
  }

  /** The loop run on `evs`. The idle hook `advance` is the identity on the
      state, so a tick only consults the quit flag. */
  function Loop(s: AppState, evs: seq<Event>): (o: Outcome)
    requires AdmissibleEvents(s, evs)
    ensures o.Exited? ==>
              0 < o.consumed <= |evs| && evs[o.consumed - 1] == Tick && o.state.shouldQuit
    ensures o.Waiting? && s.shouldQuit ==> Tick !in evs && o.state.shouldQuit
    ensures s.messages <= o.state.messages
    ensures ValidState(s) ==> ValidState(o.state)
    decreases |evs|
  {
    if evs == [] then Waiting(s)
    else
      match evs[0]
      case Input(k) => Later(Loop(Step(s, k), evs[1..]))
      case Tick => if s.shouldQuit then Exited(s, 1) else Later(Loop(s, evs[1..]))
  }

  /** The input events that deliver the keys `ks`. */
  function Inputs(ks: seq<Key>): (evs: seq<Event>)
  {
    seq(|ks|, i requires 0 <= i < |ks| => Input(ks[i]))
  }

  /** Without ticks the loop never exits, and its state is that of the
      keys processed in order. */
  lemma {:induction false} InputsOnly(s: AppState, ks: seq<Key>)
    requires AdmissibleRun(s, ks)
    ensures AdmissibleEvents(s, Inputs(ks))
    ensures Loop(s, Inputs(ks)) == Waiting(Run(s, ks))
    decreases |ks|
  {
    if ks != [] {
      assert Inputs(ks)[1..] == Inputs(ks[1..]);
      InputsOnly(Step(s, ks[0]), ks[1..]);
    }
  }

  /** Once the keys have raised the quit flag, the next tick ends the loop,
      whatever events would have followed it. */
  lemma {:induction false} NextTickExits(s: AppState, ks: seq<Key>, rest: seq<Event>)
    requires AdmissibleRun(s, ks) && Run(s, ks).shouldQuit
    ensures AdmissibleEvents(s, Inputs(ks) + [Tick] + rest)
    ensures Loop(s, Inputs(ks) + [Tick] + rest) == Exited(Run(s, ks), |ks| + 1)
    decreases |ks|
  {
    var evs := Inputs(ks) + [Tick] + rest;
    if ks == [] {
      assert evs[0] == Tick;
    } else {
      assert evs[0] == Input(ks[0]);
      assert evs[1..] == Inputs(ks[1..]) + [Tick] + rest;
      NextTickExits(Step(s, ks[0]), ks[1..], rest);
    }
  }

  /** The first tick that finds the quit flag up ends the loop: whenever the
      loop is still waiting with the flag up after `p`, one more tick exits
      with that same state, whatever events would have followed it. */
  lemma {:induction false} FirstQuitTickExits(s: AppState, p: seq<Event>, rest: seq<Event>)
    requires AdmissibleEvents(s, p)
    requires Loop(s, p).Waiting? && Loop(s, p).state.shouldQuit
    ensures AdmissibleEvents(s, p + [Tick] + rest)
    ensures Loop(s, p + [Tick] + rest) == Exited(Loop(s, p).state, |p| + 1)
    decreases |p|
  {
    var evs := p + [Tick] + rest;
    if p == [] {
      assert evs[0] == Tick;
    } else {
      assert evs[0] == p[0];
      assert evs[1..] == p[1..] + [Tick] + rest;
      match p[0]
      case Input(k) =>
        FirstQuitTickExits(Step(s, k), p[1..], rest);
      case Tick =>
        FirstQuitTickExits(s, p[1..], rest);
    }
  }

  /** Esc in the list view does not end the loop by itself: the state has
      the flag up and the loop waits; the following tick ends it. */
  lemma QuitWaitsForTick(s: AppState, rest: seq<Event>)
    requires s.view.List?
    ensures Loop(s, [Input(Esc)]) == Waiting(s.(shouldQuit := true))
    ensures AdmissibleEvents(s, [Input(Esc), Tick] + rest)
    ensures Loop(s, [Input(Esc), Tick] + rest) == Exited(s.(shouldQuit := true), 2)
  {
    assert Inputs([Esc]) == [Input(Esc)];
    assert Run(s, [Esc]) == s.(shouldQuit := true);
    NextTickExits(s, [Esc], rest);
  }

  /** A tick with the flag down changes nothing and the loop goes on. */
  lemma TickWithoutQuit(s: AppState)
    requires !s.shouldQuit
    ensures Loop(s, [Tick]) == Waiting(s)
  {
  }

  /** From a valid state (such as that of `App::new`) the loop never panics
      on any finite event stream, and the state it ends or waits in is
      valid. */
  lemma {:induction false} LoopFromValid(s: AppState, evs: seq<Event>)
    requires ValidState(s)
    ensures AdmissibleEvents(s, evs)
    ensures ValidState(Loop(s, evs).state)
    decreases |evs|
  {
    if evs != [] {
      match evs[0]
      case Input(k) =>
        AppProperties.ValidAdmitsEveryKey(s, k);
        LoopFromValid(Step(s, k), evs[1..]);
      case Tick =>
        LoopFromValid(s, evs[1..]);
    }
  }
}
