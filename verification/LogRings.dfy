/** The logger with its real queues: one ring buffer per logging thread, whose pushes and the
    background thread's pops are split into their atomic steps, interleaved arbitrarily, with stale
    loads. It refines the drain protocol, in which queue calls are atomic. */
module LogRings {
  import opened Machine
  import opened LogFile
  import opened LogDrain
  import Q = SpscProtocol

  type Ring = Q.State<LogMessage>

  type Rings = Logger<Ring>

  datatype RingAction =
    | Controls(control: LogDrain.Action)
    | Registers(thread: u32)
    | Produces(producer: u32, push: Q.Action<LogMessage>) // a step of a push by a logging thread
    | Consumes(pop: Q.Action<LogMessage>)                 // a step of a pop of the queue being polled
    | EndsPass

  predicate IsPush(a: Q.Action<LogMessage>) {
    a.PushLoadsOwn? || a.PushLoadsOther? || a.PushWrites? || a.PushStores?
  }

  predicate RingEnabled(s: Rings, a: RingAction) {
    match a
    case Controls(c) => IsControl(c) && ControlEnabled(s, c)
    case Registers(_) => true
    case Produces(t, push) =>
      && t in s.channels && IsPush(push) && Q.Enabled(s.channels[t], push)
      && (push.PushLoadsOwn? ==> push.item.threadId == t && |push.item.line| <= MAX_LINE)
    case Consumes(pop) =>
      && s.drain.AtPoll? && s.drain.next < |s.active| && IsPolling(s, s.active[s.drain.next])
      && !IsPush(pop) && Q.Enabled(s.channels[s.active[s.drain.next]], pop)
    case EndsPass => s.drain.AtPoll? && s.drain.next >= |s.active|
  }

  function NewRing(t: u32): Ring {
    Q.State(QUEUE_CAPACITY, seq(QUEUE_CAPACITY, _ => LogMessage(t, [])), [0], [0], Q.PIdle, Q.CIdle, 0, 0, [], [])
  }

  /** A pop that has taken a message is followed by writing it; one that gives up ends the poll. */
  function RingStep(s: Rings, a: RingAction): Rings
    requires RingEnabled(s, a)
  {
    match a
    case Controls(c) => ControlStep(s, c)
    case Registers(t) => Registering(s, t, NewRing(t))
    case Produces(t, push) => s.(channels := s.channels[t := Q.Step(s.channels[t], push)])
    case Consumes(pop) =>
      var t := s.active[s.drain.next];
      var ring := s.channels[t];
      var ring' := Q.Step(ring, pop);
      var s' := s.(channels := s.channels[t := ring']);
      if pop.PopStores? then
        s'.(written := s.written + [ring.cons.item], file := Written(s.file, ring.cons.item.line), idle := false)
      else if ring'.cons.CIdle? then s'.(drain := AtPoll(s.drain.next + 1))
      else s'
    case EndsPass => s.(drain := AtCheck)
  }

  ghost predicate RingsReach(s: Rings, actions: seq<RingAction>, t: Rings)
    decreases |actions|
  {
    if actions == [] then s == t
    else RingEnabled(s, actions[0]) && RingsReach(RingStep(s, actions[0]), actions[1..], t)
  }

  function StartRings(mmapSize: nat): Rings {
    Logger([], map[], true, AtLoop, [], false, [], Image([], mmapSize))
  }

  // ------------------------------------------------------------------ refinement

  ghost predicate RingOk(t: u32, ring: Ring) {
    && Q.Inv(ring) && ring.cap == QUEUE_CAPACITY
    && (!ring.prod.PIdle? ==> ring.prod.item.threadId == t && |ring.prod.item.line| <= MAX_LINE)
  }

  ghost predicate RingsOk(rings: map<u32, Ring>) {
    forall t :: t in rings ==> RingOk(t, rings[t])
  }

  ghost function AsChannel(ring: Ring): Channel {
    if Q.Counts(ring) then Channel(Q.Queued(ring), ring.pushed) else Channel([], [])
  }

  ghost function AsChannels(rings: map<u32, Ring>): map<u32, Channel> {
    map t | t in rings :: AsChannel(rings[t])
  }

  /** The drain protocol's state: the items in each ring as a sequence. */
  ghost function Abstract(s: Rings): LogDrain.State {
    Logger(s.registered, AsChannels(s.channels), s.running, s.drain, s.active, s.idle, s.written, s.file)
  }

  /** The steps of the drain protocol that a step on the rings amounts to. */
  ghost function AbstractSteps(s: Rings, a: RingAction): seq<LogDrain.Action>
    requires RingsOk(s.channels) && RingEnabled(s, a)
  {
    match a
    case Controls(c) => [c]
    case Registers(t) => [Register(t)]
    case Produces(t, push) => if push.PushStores? then [Push(s.channels[t].prod.item)] else []
    case Consumes(pop) =>
      var ring := s.channels[s.active[s.drain.next]];
      if pop.PopStores? then [Polls(true)]
      else if Q.Step(ring, pop).cons.CIdle? then [Polls(Q.Queued(ring) == [])]
      else []
    case EndsPass => [Polls(true)]
  }

  lemma RingStepOk(t: u32, ring: Ring, a: Q.Action<LogMessage>)
    requires RingOk(t, ring) && Q.Enabled(ring, a)
    requires a.PushLoadsOwn? ==> a.item.threadId == t && |a.item.line| <= MAX_LINE
    ensures RingOk(t, Q.Step(ring, a))
    ensures var c := AsChannel(ring);
            AsChannel(Q.Step(ring, a)) ==
            if a.PushStores? then Channel(c.queue + [ring.prod.item], c.pushed + [ring.prod.item])
            else if a.PopStores? then c.(queue := c.queue[1..])
            else c
    ensures a.PushStores? ==> |AsChannel(ring).queue| < QUEUE_CAPACITY - 1
    ensures a.PopStores? ==> |AsChannel(ring).queue| > 0 && AsChannel(ring).queue[0] == ring.cons.item
  {
    Q.StepRefinesQueue(ring, a);
    hide Q.Histories, Q.Contents, Q.Threads, Q.Queued;
  }

  lemma OneStep(s: LogDrain.State, a: LogDrain.Action)
    requires LogDrain.Enabled(s, a)
    ensures LogDrain.Reaches(s, [a], LogDrain.Step(s, a))
  {
    assert [a][1..] == [];
  }

  lemma RingChanged(rings: map<u32, Ring>, t: u32, ring: Ring)
    requires RingsOk(rings) && RingOk(t, ring)
    ensures RingsOk(rings[t := ring])
    ensures AsChannels(rings[t := ring]) == AsChannels(rings)[t := AsChannel(ring)]
  {
    hide RingOk, AsChannel;
  }

  lemma ChannelKept(rings: map<u32, Ring>, t: u32)
    requires t in rings
    ensures t in AsChannels(rings) && AsChannels(rings)[t] == AsChannel(rings[t])
    ensures AsChannels(rings)[t := AsChannel(rings[t])] == AsChannels(rings)
  {
    hide AsChannel;
  }

  lemma NewRingOk(t: u32)
    ensures RingOk(t, NewRing(t)) && AsChannel(NewRing(t)) == Channel([], [])
  {
  }

  lemma RegistersRefines(s: Rings, t: u32)
    requires RingsOk(s.channels)
    ensures RingsOk(RingStep(s, Registers(t)).channels)
    ensures LogDrain.Reaches(Abstract(s), [Register(t)], Abstract(RingStep(s, Registers(t))))
  {
    NewRingOk(t);
    RingChanged(s.channels, t, NewRing(t));
    hide NewRing, RingOk, RingsOk, AsChannel, AsChannels;
    OneStep(Abstract(s), Register(t));
  }

  lemma ProducesRefines(s: Rings, t: u32, push: Q.Action<LogMessage>)
    requires RingsOk(s.channels) && RingEnabled(s, Produces(t, push))
    ensures RingsOk(RingStep(s, Produces(t, push)).channels)
    ensures LogDrain.Reaches(Abstract(s), AbstractSteps(s, Produces(t, push)), Abstract(RingStep(s, Produces(t, push))))
  {
    var ring := s.channels[t];
    RingStepOk(t, ring, push);
    RingChanged(s.channels, t, Q.Step(ring, push));
    ChannelKept(s.channels, t);
    if push.PushStores? {
      PushedItem(t, ring, push);
    }
    hide RingsOk, RingOk, AsChannel, AsChannels, Q.Step, Q.Enabled, LogDrain.Reaches;
    if push.PushStores? {
      OneStep(Abstract(s), Push(ring.prod.item));
    } else {
      NoStep(Abstract(s));
    }
  }

  lemma PushedItem(t: u32, ring: Ring, push: Q.Action<LogMessage>)
    requires RingOk(t, ring) && Q.Enabled(ring, push) && push.PushStores?
    ensures ring.prod.item.threadId == t && |ring.prod.item.line| <= MAX_LINE
  {
  }

  lemma NoStep(s: LogDrain.State)
    ensures LogDrain.Reaches(s, [], s)
  {
  }

  /** A poll's effect on the abstract channel, given what it did to the ring. */
  lemma PollRefines(s: Rings, ring': Ring, takes: bool)
    requires s.drain.AtPoll? && s.drain.next < |s.active| && IsPolling(s, s.active[s.drain.next])
    requires var t := s.active[s.drain.next];
             var c, c' := AsChannel(s.channels[t]), AsChannel(ring');
             && AsChannels(s.channels[t := ring']) == AsChannels(s.channels)[t := c']
             && t in AsChannels(s.channels) && AsChannels(s.channels)[t] == c
             && if takes then c.queue != [] && c' == c.(queue := c.queue[1..]) else c' == c
    ensures var t := s.active[s.drain.next];
            var c := AsChannel(s.channels[t]);
            var s' := s.(channels := s.channels[t := ring']);
            LogDrain.Reaches(
              Abstract(s), [Polls(takes || c.queue == [])],
              if takes then
                Abstract(s'.(written := s.written + [c.queue[0]], file := Written(s.file, c.queue[0].line),
                             idle := false))
              else Abstract(s'.(drain := AtPoll(s.drain.next + 1))))
  {
    var t := s.active[s.drain.next];
    var c := AsChannel(s.channels[t]);
    hide AsChannel, AsChannels, Written, LogDrain.Reaches;
    assert AsChannels(s.channels)[t := c] == AsChannels(s.channels);
    OneStep(Abstract(s), Polls(takes || c.queue == []));
  }

  /** What a step of a pop does to the ring being polled, and to nothing else. */
  lemma ConsumedRing(rings: map<u32, Ring>, t: u32, pop: Q.Action<LogMessage>)
    requires RingsOk(rings) && t in rings && !IsPush(pop) && Q.Enabled(rings[t], pop)
    ensures var ring, ring' := rings[t], Q.Step(rings[t], pop);
            var c, c' := AsChannel(ring), AsChannel(ring');
            && Q.Counts(ring) && Q.Queued(ring) == c.queue
            && RingsOk(rings[t := ring'])
            && AsChannels(rings[t := ring']) == AsChannels(rings)[t := c']
            && t in AsChannels(rings) && AsChannels(rings)[t] == c && AsChannels(rings)[t := c] == AsChannels(rings)
            && (if pop.PopStores? then
                  c.queue != [] && c.queue[0] == ring.cons.item && c' == c.(queue := c.queue[1..])
                else c' == c)
  {
    var ring := rings[t];
    assert RingOk(t, ring) && Q.Queued(ring) == AsChannel(ring).queue;
    hide RingsOk, RingOk, AsChannel, AsChannels, Q.Step, Q.Enabled, Q.Queued;
    RingStepOk(t, ring, pop);
    RingChanged(rings, t, Q.Step(ring, pop));
    ChannelKept(rings, t);
  }

  lemma ConsumesRefines(s: Rings, pop: Q.Action<LogMessage>)
    requires RingsOk(s.channels) && RingEnabled(s, Consumes(pop))
    ensures RingsOk(RingStep(s, Consumes(pop)).channels)
    ensures LogDrain.Reaches(Abstract(s), AbstractSteps(s, Consumes(pop)), Abstract(RingStep(s, Consumes(pop))))
  {
    hide RingsOk, RingOk, AsChannel, AsChannels, Q.Step, Q.Enabled, Q.Queued, Q.Counts, Written, LogDrain.Reaches;
    var t := s.active[s.drain.next];
    var ring' := Q.Step(s.channels[t], pop);
    ConsumedRing(s.channels, t, pop);
    if pop.PopStores? {
      PollRefines(s, ring', true);
    } else if ring'.cons.CIdle? {
      PollRefines(s, ring', false);
    } else {
      NoStep(Abstract(s));
    }
  }

  /** Each step on the rings is a step of the drain protocol, or invisible to it. */
  lemma StepRefines(s: Rings, a: RingAction)
    requires RingsOk(s.channels) && RingEnabled(s, a)
    ensures RingsOk(RingStep(s, a).channels)
    ensures LogDrain.Reaches(Abstract(s), AbstractSteps(s, a), Abstract(RingStep(s, a)))
  {
    match a
    case Controls(c) => OneStep(Abstract(s), c);
    case Registers(t) => RegistersRefines(s, t);
    case Produces(t, push) => ProducesRefines(s, t, push);
    case Consumes(pop) => ConsumesRefines(s, pop);
    case EndsPass => OneStep(Abstract(s), Polls(true));
  }

  lemma {:induction false} ReachesAppend(s: LogDrain.State, first: seq<LogDrain.Action>, t: LogDrain.State,
                                         second: seq<LogDrain.Action>, u: LogDrain.State)
    requires LogDrain.Reaches(s, first, t) && LogDrain.Reaches(t, second, u)
    ensures LogDrain.Reaches(s, first + second, u)
    decreases |first|
  {
    hide LogDrain.Step, LogDrain.Enabled;
    if first == [] {
      assert first + second == second;
    } else {
      assert (first + second)[1..] == first[1..] + second;
      ReachesAppend(LogDrain.Step(s, first[0]), first[1..], t, second, u);
    }
  }

  /** The run of the drain protocol that a run on the rings amounts to. */
  ghost function AmountsTo(s: Rings, actions: seq<RingAction>): seq<LogDrain.Action>
    decreases |actions|
  {
    if actions == [] || !RingsOk(s.channels) || !RingEnabled(s, actions[0]) then []
    else AbstractSteps(s, actions[0]) + AmountsTo(RingStep(s, actions[0]), actions[1..])
  }

  /** Every interleaving of the rings' atomic steps is a run of the drain protocol. */
  lemma {:induction false} RunRefines(s: Rings, actions: seq<RingAction>, t: Rings)
    requires RingsOk(s.channels) && RingsReach(s, actions, t)
    ensures RingsOk(t.channels) && LogDrain.Reaches(Abstract(s), AmountsTo(s, actions), Abstract(t))
    decreases |actions|
  {
    hide RingsOk, RingStep, RingEnabled, Abstract, AbstractSteps;
    if actions != [] {
      var s' := RingStep(s, actions[0]);
      StepRefines(s, actions[0]);
      RunRefines(s', actions[1..], t);
      ReachesAppend(Abstract(s), AbstractSteps(s, actions[0]), Abstract(s'), AmountsTo(s', actions[1..]), Abstract(t));
    }
  }

  /** The log is faithful in every interleaving of the atomic steps of any number of logging threads'
      pushes with those of the drain loop, stale loads included: the file is a concatenation of whole
      lines within the mapping, and each thread's lines followed by what lies in its ring are what it
      pushed, in order. */
  lemma RingsAreFaithful(mmapSize: nat, actions: seq<RingAction>, s: Rings)
    requires MAX_LINE <= mmapSize && RingsReach(StartRings(mmapSize), actions, s)
    ensures s.file.content == Concat(Lines(s.written)) && |s.file.content| <= s.file.size
    ensures forall t :: t in s.registered ==>
              && t in s.channels && Q.Counts(s.channels[t])
              && OfThread(s.written, t) + Q.Queued(s.channels[t]) == s.channels[t].pushed
    ensures forall i :: 0 <= i < |s.written| ==> s.written[i].threadId in s.registered
  {
    assert Abstract(StartRings(mmapSize)) == Start(mmapSize);
    RunRefines(StartRings(mmapSize), actions, s);
    LogIsFaithful(mmapSize, AmountsTo(StartRings(mmapSize), actions), Abstract(s));
    forall t | t in s.registered
      ensures t in s.channels && Q.Counts(s.channels[t])
      ensures OfThread(s.written, t) + Q.Queued(s.channels[t]) == s.channels[t].pushed
    {
      assert t in Abstract(s).channels && RingOk(t, s.channels[t]);
    }
  }

  // ------------------------------------------------------------------ when the loop is left

  lemma {:induction false} RingsRunUntilShutdown(s: Rings, actions: seq<RingAction>, e: Rings)
    requires RingsReach(s, actions, e) && (s.drain == Left ==> !s.running)
    ensures e.running <==> s.running && Controls(Shutdown) !in actions
    ensures e.drain == Left ==> !e.running
    decreases |actions|
  {
    if actions != [] {
      assert actions == [actions[0]] + actions[1..];
      RingControl(s, actions[0]);
      hide RingStep, RingEnabled;
      RingsRunUntilShutdown(RingStep(s, actions[0]), actions[1..], e);
    }
  }

  lemma RingControl(s: Rings, a: RingAction)
    requires RingEnabled(s, a) && (s.drain == Left ==> !s.running)
    ensures var s' := RingStep(s, a);
            && (s'.running <==> s.running && a != Controls(Shutdown)) && (s'.drain == Left ==> !s'.running)
  {
    hide Q.Step, Q.Enabled, Written;
  }

  /** Over the rings too, in every run from the start the loop has been left only if the logger has been
      shut down before. */
  lemma RingsLeftOnlyAfterShutdown(mmapSize: nat, actions: seq<RingAction>, s: Rings)
    requires RingsReach(StartRings(mmapSize), actions, s)
    ensures s.running <==> Controls(Shutdown) !in actions
    ensures s.drain == Left ==> !s.running && Controls(Shutdown) in actions
  {
    RingsRunUntilShutdown(StartRings(mmapSize), actions, s);
  }

  // ------------------------------------------------------------------ what shutdown leaves in the rings

  /** A push by thread `t` completes. */
  predicate Completes(a: RingAction, t: u32) {
    a.Produces? && a.producer == t && a.push.PushStores?
  }

  /** Thread `t` completes no push. */
  predicate RingSilent(actions: seq<RingAction>, t: u32) {
    forall i :: 0 <= i < |actions| ==> !Completes(actions[i], t)
  }

  /** A pop from the ring of `t` gives up. */
  predicate GivesUp(s: Rings, a: RingAction, t: u32)
    requires RingEnabled(s, a)
  {
    a.Consumes? && IsPolling(s, t) && a.pop.PopLoadsOther? && Q.Step(s.channels[t], a.pop).cons.CIdle?
  }

  /** The ring of `t` holds nothing. */
  ghost predicate IsEmpty(s: Rings, t: u32)
    requires t in s.channels
  {
    AsChannel(s.channels[t]).queue == []
  }

  /** Some pop from the ring of `t` gives up on an empty ring, and `t` completes no push from there on. */
  ghost predicate GaveUpEmpty(s: Rings, actions: seq<RingAction>, t: u32)
    decreases |actions|
  {
    && actions != [] && RingEnabled(s, actions[0])
    && ((GivesUp(s, actions[0], t) && IsEmpty(s, t) && RingSilent(actions[1..], t))
        || GaveUpEmpty(RingStep(s, actions[0]), actions[1..], t))
  }

  /** No pop from the ring of `t` gives up while something lies in it, as one with a stale index does. */
  ghost predicate NeverStale(s: Rings, actions: seq<RingAction>, t: u32)
    decreases |actions|
  {
    actions != [] && RingEnabled(s, actions[0]) ==>
      (GivesUp(s, actions[0], t) ==> IsEmpty(s, t)) && NeverStale(RingStep(s, actions[0]), actions[1..], t)
  }

  lemma OnePush(x: LogDrain.Action, t: u32)
    ensures Silent([x], t) <==> !PushesFor(x, t)
  {
    assert [x][0] == x;
  }

  /** A step on the rings shows in the drain protocol as a push, or a failing poll, of the queue of `t`
      exactly if it completes a push by `t`, or is a pop from its ring that gives up. */
  lemma StepShows(s: Rings, a: RingAction, t: u32)
    requires RingsOk(s.channels) && RingEnabled(s, a)
    ensures |AbstractSteps(s, a)| <= 1
    ensures Completes(a, t) <==> !Silent(AbstractSteps(s, a), t)
    ensures GivesUp(s, a, t) <==> AbstractSteps(s, a) != [] && PollFails(Abstract(s), AbstractSteps(s, a)[0], t)
    ensures GivesUp(s, a, t) ==> t in Abstract(s).channels && (IsEmpty(s, t) <==> Abstract(s).channels[t].queue == [])
  {
    match a
    case Produces(producer, push) => ProducesShows(s, producer, push, t);
    case Consumes(pop) => ConsumesShows(s, pop, t);
    case Controls(c) => OnePush(c, t);
    case Registers(u) => OnePush(Register(u), t);
    case EndsPass => OnePush(Polls(true), t);
  }

  lemma ProducesShows(s: Rings, producer: u32, push: Q.Action<LogMessage>, t: u32)
    requires RingsOk(s.channels) && RingEnabled(s, Produces(producer, push))
    ensures var steps := AbstractSteps(s, Produces(producer, push));
            && |steps| <= 1 && (steps != [] ==> steps[0].Push?)
            && (Completes(Produces(producer, push), t) <==> !Silent(steps, t))
  {
    if push.PushStores? {
      PushedItem(producer, s.channels[producer], push);
      hide RingsOk, RingOk, Q.Enabled;
      OnePush(Push(s.channels[producer].prod.item), t);
    }
  }

  lemma ConsumesShows(s: Rings, pop: Q.Action<LogMessage>, t: u32)
    requires RingsOk(s.channels) && RingEnabled(s, Consumes(pop))
    ensures var a := Consumes(pop);
            var steps := AbstractSteps(s, a);
            && |steps| <= 1 && Silent(steps, t)
            && (GivesUp(s, a, t) <==> steps != [] && PollFails(Abstract(s), steps[0], t))
            && (GivesUp(s, a, t) ==>
                  t in Abstract(s).channels && (IsEmpty(s, t) <==> Abstract(s).channels[t].queue == []))
  {
    var u := s.active[s.drain.next];
    var ring := s.channels[u];
    PolledQueue(s.channels, u, pop);
    ChannelKept(s.channels, u);
    if !pop.PopStores? && Q.Step(ring, pop).cons.CIdle? {
      GiveUpLoads(ring, pop);
    }
    hide RingsOk, RingOk, AsChannel, AsChannels, Q.Step, Q.Enabled, Q.Queued, Q.Counts;
    if t == u {
      assert IsPolling(s, t) && IsPolling(Abstract(s), t);
    } else {
      assert !IsPolling(s, t) && !IsPolling(Abstract(s), t);
    }
  }

  lemma PolledQueue(rings: map<u32, Ring>, u: u32, pop: Q.Action<LogMessage>)
    requires RingsOk(rings) && u in rings && !IsPush(pop) && Q.Enabled(rings[u], pop)
    ensures Q.Counts(rings[u]) && Q.Queued(rings[u]) == AsChannel(rings[u]).queue
    ensures pop.PopStores? ==> AsChannel(rings[u]).queue != []
  {
    hide Q.Step;
    ConsumedRing(rings, u, pop);
  }

  /** A pop ends its call without storing only when it has loaded the other index. */
  lemma GiveUpLoads(ring: Ring, pop: Q.Action<LogMessage>)
    requires Q.Enabled(ring, pop) && !IsPush(pop) && !pop.PopStores? && Q.Step(ring, pop).cons.CIdle?
    ensures pop.PopLoadsOther?
  {
  }

  lemma SilentAppend(first: seq<LogDrain.Action>, second: seq<LogDrain.Action>, t: u32)
    ensures Silent(first + second, t) <==> Silent(first, t) && Silent(second, t)
  {
    hide PushesFor;
    if Silent(first + second, t) {
      forall i | 0 <= i < |first| ensures !PushesFor(first[i], t) {
        assert (first + second)[i] == first[i];
      }
      forall i | 0 <= i < |second| ensures !PushesFor(second[i], t) {
        assert (first + second)[|first| + i] == second[i];
      }
    }
  }

  /** A run of the drain protocol after one step of it, or none. */
  lemma Prepended(s: LogDrain.State, steps: seq<LogDrain.Action>, s': LogDrain.State, rest: seq<LogDrain.Action>,
                  t: u32)
    requires |steps| <= 1 && LogDrain.Reaches(s, steps, s')
    ensures FoundEmpty(s, steps + rest, t) <==>
              (steps != [] && PollFails(s, steps[0], t) && s.channels[t].queue == [] && Silent(rest, t))
              || FoundEmpty(s', rest, t)
    ensures NeverMisses(s, steps + rest, t) <==>
              (steps != [] ==> !Misses(s, steps[0], t)) && NeverMisses(s', rest, t)
  {
    hide LogDrain.Step, LogDrain.Enabled, Silent;
    if steps == [] {
      assert steps + rest == rest;
    } else {
      assert steps[1..] == [] && (steps + rest)[1..] == rest;
    }
  }

  /** The conditions on a run, at its first step. */
  lemma FirstShows(s: Rings, a: RingAction, rest: seq<LogDrain.Action>, t: u32)
    requires RingsOk(s.channels) && RingEnabled(s, a)
    ensures var all := AbstractSteps(s, a) + rest;
            && (Silent(all, t) <==> !Completes(a, t) && Silent(rest, t))
            && (FoundEmpty(Abstract(s), all, t) <==>
                (GivesUp(s, a, t) && IsEmpty(s, t) && Silent(rest, t))
                || FoundEmpty(Abstract(RingStep(s, a)), rest, t))
            && (NeverMisses(Abstract(s), all, t) <==>
                (GivesUp(s, a, t) ==> IsEmpty(s, t)) && NeverMisses(Abstract(RingStep(s, a)), rest, t))
  {
    hide RingsOk, RingStep, RingEnabled, Abstract, AbstractSteps, PollFails, GivesUp, IsEmpty, Completes, Silent,
         LogDrain.Reaches, FoundEmpty, NeverMisses;
    var steps := AbstractSteps(s, a);
    StepRefines(s, a);
    StepShows(s, a, t);
    Prepended(Abstract(s), steps, Abstract(RingStep(s, a)), rest, t);
    SilentAppend(steps, rest, t);
  }

  lemma FirstSilent(actions: seq<RingAction>, t: u32)
    requires actions != []
    ensures RingSilent(actions, t) <==> !Completes(actions[0], t) && RingSilent(actions[1..], t)
  {
  }

  /** The conditions on a run of the drain protocol, read off the run on the rings. */
  lemma {:induction false} RunShows(s: Rings, actions: seq<RingAction>, e: Rings, t: u32)
    requires RingsOk(s.channels) && RingsReach(s, actions, e)
    ensures Silent(AmountsTo(s, actions), t) <==> RingSilent(actions, t)
    ensures FoundEmpty(Abstract(s), AmountsTo(s, actions), t) <==> GaveUpEmpty(s, actions, t)
    ensures NeverMisses(Abstract(s), AmountsTo(s, actions), t) <==> NeverStale(s, actions, t)
    decreases |actions|
  {
    if actions == [] {
      assert AmountsTo(s, actions) == [];
    } else {
      hide RingsOk, RingStep, RingEnabled, Abstract, AbstractSteps, GivesUp, IsEmpty, Completes, Silent, RingSilent,
           LogDrain.Reaches, FoundEmpty, NeverMisses;
      var s' := RingStep(s, actions[0]);
      StepRefines(s, actions[0]);
      RunShows(s', actions[1..], e, t);
      FirstShows(s, actions[0], AmountsTo(s', actions[1..]), t);
      FirstSilent(actions, t);
    }
  }

  /** What shutdown leaves behind in the rings. Once the loop has been left, what is missing of a thread's
      messages in the file lies in its ring. Nothing is missing exactly if the thread never completed a
      push, or some pop gave up on its empty ring after its last completed push. */
  lemma MissingInRings(mmapSize: nat, actions: seq<RingAction>, s: Rings, t: u32)
    requires MAX_LINE <= mmapSize && RingsReach(StartRings(mmapSize), actions, s)
    requires s.drain.Left? && t in s.registered
    ensures t in s.channels && Q.Counts(s.channels[t])
    ensures s.channels[t].pushed == OfThread(s.written, t) + Q.Queued(s.channels[t])
    ensures OfThread(s.written, t) == s.channels[t].pushed <==>
              RingSilent(actions, t) || GaveUpEmpty(StartRings(mmapSize), actions, t)
  {
    var start := StartRings(mmapSize);
    assert Abstract(start) == Start(mmapSize);
    RingsAreFaithful(mmapSize, actions, s);
    RunRefines(start, actions, s);
    RunShows(start, actions, s, t);
    MissingAfterShutdown(mmapSize, AmountsTo(start, actions), Abstract(s), t);
    ChannelKept(s.channels, t);
  }

  /** What a logging thread can rely on: if it is registered and completes no push from the moment a pass of
      the loop is entered, and no pop from its ring gives up on a stale index while something lies in it,
      then by the time the loop is left all its messages are in the file. */
  lemma RingDrainedByLaterPass(mmapSize: nat, before: seq<RingAction>, entered: Rings, after: seq<RingAction>, s: Rings,
                               t: u32)
    requires MAX_LINE <= mmapSize && RingsReach(StartRings(mmapSize), before, entered)
    requires RingsReach(entered, after, s)
    requires entered.drain.AtRefresh? && t in entered.registered
    requires RingSilent(after, t) && NeverStale(entered, after, t) && s.drain.Left?
    ensures t in s.channels && OfThread(s.written, t) == s.channels[t].pushed
  {
    var start := StartRings(mmapSize);
    assert Abstract(start) == Start(mmapSize);
    RunRefines(start, before, entered);
    RunRefines(entered, after, s);
    RunShows(entered, after, s, t);
    DrainedByLaterPass(mmapSize, AmountsTo(start, before), Abstract(entered), AmountsTo(entered, after), Abstract(s),
                       t);
    assert t in s.channels;
    assert RingOk(t, s.channels[t]);
    ChannelKept(s.channels, t);
  }
}
