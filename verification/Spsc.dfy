/** The single-producer single-consumer ring buffer as a protocol: both threads split into their
    atomic steps, interleaved arbitrarily, with acquire loads that may return stale indices. */
module SpscProtocol {
  import opened Machine
  import opened Probing

  /** The ring index after `k` increments modulo the capacity. */
  function RingSlot(k: nat, cap: nat): (i: nat)
    requires cap > 0
    ensures i < cap
  {
    ProbeIndex(0, k, cap)
  }

  lemma {:induction false} SlotOffset(k: nat, d: nat, cap: nat)
    requires 0 < cap && d <= cap
    ensures var i := RingSlot(k, cap) + d;
            RingSlot(k + d, cap) == if i < cap then i else i - cap
  {
    if d > 0 {
      SlotOffset(k, d - 1, cap);
      WrapStep(RingSlot(k + d - 1, cap), cap);
    }
  }

  lemma NextSlot(k: nat, cap: nat)
    requires cap > 0
    ensures RingSlot(k + 1, cap) == (RingSlot(k, cap) + 1) % cap
  {
  }

  /** Counts less than a capacity apart have different slots. */
  lemma SlotsApart(j: nat, k: nat, cap: nat)
    requires 0 < cap && j <= k <= j + cap
    ensures RingSlot(j, cap) == RingSlot(k, cap) <==> j == k || k == j + cap
  {
    SlotOffset(j, k - j, cap);
  }

  // ------------------------------------------------------------------ states and steps

  /** Where `push(item)` stands. */
  datatype Producer<T> =
    | PIdle
    | PLoaded(item: T, current: nat)    // has loaded write_index_
    | PChecked(item: T, current: nat)   // has seen that the queue is not full
    | PWritten(item: T, current: nat)   // has written the slot

  /** Where `pop` stands. */
  datatype Consumer<T> =
    | CIdle
    | CLoaded(current: nat)             // has loaded read_index_
    | CChecked(current: nat)            // has seen that the queue is not empty
    | CRead(current: nat, item: T)      // has read the slot

  /** `writeLog` and `readLog` are all values ever stored to write_index_ and read_index_, oldest first.
      `seenRead` is the position in `readLog` of the newest value the producer has loaded, and
      `seenWrite` likewise for the consumer: later loads return no older value. `pushed` and
      `popped` are the items of completed successful calls. */
  datatype State<T> = State(
    cap: nat, data: seq<T>, writeLog: seq<nat>, readLog: seq<nat>,
    prod: Producer<T>, cons: Consumer<T>, seenRead: nat, seenWrite: nat,
    pushed: seq<T>, popped: seq<T>)

  /** A load of the other thread's index names the value of its history that it returns. */
  datatype Action<T> =
    | PushLoadsOwn(item: T) | PushLoadsOther(position: nat) | PushWrites | PushStores
    | PopLoadsOwn | PopLoadsOther(position: nat) | PopReads | PopStores

  predicate Enabled<T(!new)>(s: State<T>, a: Action<T>) {
    && s.cap > 0 && |s.data| == s.cap && s.writeLog != [] && s.readLog != []
    && match a
       case PushLoadsOwn(_) => s.prod.PIdle?
       case PushLoadsOther(k) => s.prod.PLoaded? && s.seenRead <= k < |s.readLog|
       case PushWrites => s.prod.PChecked? && s.prod.current < s.cap
       case PushStores => s.prod.PWritten?
       case PopLoadsOwn => s.cons.CIdle?
       case PopLoadsOther(k) => s.cons.CLoaded? && s.seenWrite <= k < |s.writeLog|
       case PopReads => s.cons.CChecked? && s.cons.current < s.cap
       case PopStores => s.cons.CRead?
  }

  function Step<T(!new)>(s: State<T>, a: Action<T>): State<T>
    requires Enabled(s, a)
  {
    match a
    case PushLoadsOwn(item) =>
      s.(prod := PLoaded(item, s.writeLog[|s.writeLog| - 1]))
    case PushLoadsOther(k) =>
      var next := (s.prod.current + 1) % s.cap;
      s.(seenRead := k, prod := if next == s.readLog[k] then PIdle else PChecked(s.prod.item, s.prod.current))
    case PushWrites =>
      s.(data := s.data[s.prod.current := s.prod.item], prod := PWritten(s.prod.item, s.prod.current))
    case PushStores =>
      s.(writeLog := s.writeLog + [(s.prod.current + 1) % s.cap], pushed := s.pushed + [s.prod.item], prod := PIdle)
    case PopLoadsOwn =>
      s.(cons := CLoaded(s.readLog[|s.readLog| - 1]))
    case PopLoadsOther(k) =>
      s.(seenWrite := k, cons := if s.cons.current == s.writeLog[k] then CIdle else CChecked(s.cons.current))
    case PopReads =>
      s.(cons := CRead(s.cons.current, s.data[s.cons.current]))
    case PopStores =>
      s.(readLog := s.readLog + [(s.cons.current + 1) % s.cap], popped := s.popped + [s.cons.item], cons := CIdle)
  }

  ghost predicate Init<T(!new)>(s: State<T>) {
    && s.cap > 1 && |s.data| == s.cap && s.writeLog == [0] && s.readLog == [0]
    && s.prod.PIdle? && s.cons.CIdle? && s.seenRead == 0 && s.seenWrite == 0
    && s.pushed == [] && s.popped == []
  }

  /** `t` is reached from `s` by the actions, each enabled where it is taken. */
  ghost predicate Reaches<T(!new)>(s: State<T>, actions: seq<Action<T>>, t: State<T>)
    decreases |actions|
  {
    if actions == [] then s == t
    else Enabled(s, actions[0]) && Reaches(Step(s, actions[0]), actions[1..], t)
  }

  // ------------------------------------------------------------------ invariant

  /** Completed stores to the two indices. */
  function Written<T>(s: State<T>): int {
    |s.writeLog| - 1
  }

  function Read<T>(s: State<T>): int {
    |s.readLog| - 1
  }

  ghost predicate Counts<T(!new)>(s: State<T>) {
    && s.cap > 1 && |s.data| == s.cap
    && 0 <= s.seenRead <= Read(s) <= s.seenWrite <= Written(s) <= s.seenRead + s.cap - 1
    && |s.pushed| == Written(s) && |s.popped| == Read(s)
  }

  ghost predicate Histories<T(!new)>(s: State<T>)
    requires s.cap > 0
  {
    && (forall k :: 0 <= k < |s.writeLog| ==> s.writeLog[k] == RingSlot(k, s.cap))
    && (forall k :: 0 <= k < |s.readLog| ==> s.readLog[k] == RingSlot(k, s.cap))
  }

  ghost predicate Contents<T(!new)>(s: State<T>)
    requires Counts(s)
  {
    && s.popped == s.pushed[..Read(s)]
    && forall k :: Read(s) <= k < Written(s) ==> s.data[RingSlot(k, s.cap)] == s.pushed[k]
  }

  ghost predicate Threads<T(!new)>(s: State<T>)
    requires Counts(s)
  {
    && (!s.prod.PIdle? ==> s.prod.current == RingSlot(Written(s), s.cap))
    && (s.prod.PChecked? || s.prod.PWritten? ==> Written(s) < s.seenRead + s.cap - 1)
    && (s.prod.PWritten? ==> s.data[s.prod.current] == s.prod.item)
    && (!s.cons.CIdle? ==> s.cons.current == RingSlot(Read(s), s.cap))
    && (s.cons.CChecked? || s.cons.CRead? ==> Read(s) < s.seenWrite)
    && (s.cons.CRead? ==> s.cons.item == s.pushed[Read(s)])
  }

  ghost predicate Inv<T(!new)>(s: State<T>) {
    Counts(s) && Histories(s) && Contents(s) && Threads(s)
  }

  /** A full check on any admissible value of read_index_ is exact about that value. */
  lemma FullCheck<T(!new)>(s: State<T>, k: nat)
    requires Inv(s) && s.prod.PLoaded? && s.seenRead <= k < |s.readLog|
    ensures (s.prod.current + 1) % s.cap == s.readLog[k] <==> Written(s) - k == s.cap - 1
  {
    SlotsApart(k, Written(s) + 1, s.cap);
    NextSlot(Written(s), s.cap);
    hide RingSlot, Contents;
  }

  /** An empty check on any admissible value of write_index_ is exact about that value. */
  lemma EmptyCheck<T(!new)>(s: State<T>, k: nat)
    requires Inv(s) && s.cons.CLoaded? && s.seenWrite <= k < |s.writeLog|
    ensures s.cons.current == s.writeLog[k] <==> k == Read(s)
  {
    SlotsApart(Read(s), k, s.cap);
  }

  /** The slot about to be written holds no item that the producer has not seen to be read. */
  lemma WriteIsApart<T(!new)>(s: State<T>)
    requires Inv(s) && (s.prod.PChecked? || s.prod.PWritten?)
    ensures forall k :: s.seenRead <= k < Written(s) ==> RingSlot(k, s.cap) != s.prod.current
  {
    forall k | s.seenRead <= k < Written(s) ensures RingSlot(k, s.cap) != s.prod.current {
      SlotsApart(k, Written(s), s.cap);
    }
  }

  lemma PushStepKeepsInv<T(!new)>(s: State<T>, a: Action<T>)
    requires Inv(s) && Enabled(s, a) && (a.PushLoadsOwn? || a.PushLoadsOther?)
    ensures Inv(Step(s, a))
  {
    if a.PushLoadsOther? {
      FullCheck(s, a.position);
    }
  }

  lemma PushWritesKeepsInv<T(!new)>(s: State<T>)
    requires Inv(s) && Enabled(s, PushWrites)
    ensures Inv(Step(s, PushWrites))
  {
    WriteIsApart(s);
  }

  lemma PushStoresKeepsInv<T(!new)>(s: State<T>)
    requires Inv(s) && Enabled(s, PushStores)
    ensures Inv(Step(s, PushStores))
  {
    var t := Step(s, PushStores);
    assert t.writeLog[Written(t)] == RingSlot(Written(t), s.cap);
    hide RingSlot;
    assert t.pushed[..Read(s)] == s.pushed[..Read(s)];
    assert Contents(t);
    assert Histories(t) && Threads(t);
  }

  lemma PopLoadsKeepsInv<T(!new)>(s: State<T>, a: Action<T>)
    requires Inv(s) && Enabled(s, a) && (a.PopLoadsOwn? || a.PopLoadsOther?)
    ensures Inv(Step(s, a))
  {
    if a.PopLoadsOther? {
      EmptyCheck(s, a.position);
    }
    hide RingSlot;
  }

  lemma PopReadsKeepsInv<T(!new)>(s: State<T>)
    requires Inv(s) && Enabled(s, PopReads)
    ensures Inv(Step(s, PopReads))
  {
    hide RingSlot;
  }

  lemma PopStoresKeepsInv<T(!new)>(s: State<T>)
    requires Inv(s) && Enabled(s, PopStores)
    ensures Inv(Step(s, PopStores))
  {
    var t := Step(s, PopStores);
    assert t.readLog[Read(t)] == RingSlot(Read(t), s.cap);
    hide RingSlot;
    assert t.pushed[..Read(t)] == s.pushed[..Read(s)] + [s.pushed[Read(s)]];
    assert Contents(t);
    assert Histories(t) && Threads(t);
  }

  lemma StepKeepsInv<T(!new)>(s: State<T>, a: Action<T>)
    requires Inv(s) && Enabled(s, a)
    ensures Inv(Step(s, a))
  {
    hide Inv, Step;
    match a
    case PushLoadsOwn(_) => PushStepKeepsInv(s, a);
    case PushLoadsOther(_) => PushStepKeepsInv(s, a);
    case PushWrites => PushWritesKeepsInv(s);
    case PushStores => PushStoresKeepsInv(s);
    case PopLoadsOwn => PopLoadsKeepsInv(s, a);
    case PopLoadsOther(_) => PopLoadsKeepsInv(s, a);
    case PopReads => PopReadsKeepsInv(s);
    case PopStores => PopStoresKeepsInv(s);
  }

  lemma {:induction false} ReachableInv<T(!new)>(s: State<T>, actions: seq<Action<T>>, t: State<T>)
    requires Inv(s) && Reaches(s, actions, t)
    ensures Inv(t)
    decreases |actions|
  {
    if actions != [] {
      StepKeepsInv(s, actions[0]);
      ReachableInv(Step(s, actions[0]), actions[1..], t);
    }
  }

  // ------------------------------------------------------------------ theorems

  /** The items still queued, as they lie in the ring. */
  ghost function Queued<T(!new)>(s: State<T>): seq<T>
    requires Counts(s)
  {
    seq(Written(s) - Read(s), i requires 0 <= i < Written(s) - Read(s) => s.data[RingSlot(Read(s) + i, s.cap)])
  }

  /** In every interleaving, with any admissible stale loads: what was popped, followed by what
      lies in the ring, is what was pushed, in order, and at most capacity - 1 items lie in it. */
  lemma QueueIsFifo<T(!new)>(s: State<T>, actions: seq<Action<T>>, t: State<T>)
    requires Init(s) && Reaches(s, actions, t)
    ensures Counts(t)
    ensures t.popped + Queued(t) == t.pushed
    ensures |Queued(t)| <= t.cap - 1
  {
    ReachableInv(s, actions, t);
    assert t.pushed == t.pushed[..Read(t)] + t.pushed[Read(t)..];
    assert Queued(t) == t.pushed[Read(t)..];
  }

  /** In every interleaving: when the producer is about to write its slot or has just written it, that
      slot is none of those whose reads it has not acquired, so none of the unread ones, and not the one
      the consumer is about to read or has just read; and when the consumer is about to read a slot,
      the item there has been published, and the consumer has acquired its publication. */
  lemma SlotsAreExclusive<T(!new)>(s: State<T>, actions: seq<Action<T>>, t: State<T>)
    requires Init(s) && Reaches(s, actions, t)
    ensures Counts(t)
    ensures t.prod.PChecked? || t.prod.PWritten? ==>
              forall k :: t.seenRead <= k < Written(t) ==> RingSlot(k, t.cap) != t.prod.current
    ensures t.seenRead <= Read(t) && Read(t) <= t.seenWrite <= Written(t)
    ensures (t.prod.PChecked? || t.prod.PWritten?) && (t.cons.CChecked? || t.cons.CRead?) ==>
              t.prod.current != t.cons.current
    ensures t.cons.CChecked? ==>
              && Read(t) < t.seenWrite <= Written(t)
              && t.cons.current == RingSlot(Read(t), t.cap) && t.data[t.cons.current] == t.pushed[Read(t)]
  {
    ReachableInv(s, actions, t);
    if t.prod.PChecked? || t.prod.PWritten? {
      WriteIsApart(t);
    }
  }

  /** A push gives up exactly when the value of read_index_ it acquired leaves no room, a pop
      exactly when the value of write_index_ it acquired leaves no item; with the newest values,
      exactly when the queue is full or empty. */
  lemma FailsExactlyWhen<T(!new)>(s: State<T>, actions: seq<Action<T>>, t: State<T>, k: nat)
    requires Init(s) && Reaches(s, actions, t)
    ensures Counts(t)
    ensures t.prod.PLoaded? && t.seenRead <= k < |t.readLog| ==>
              && (Step(t, PushLoadsOther(k)).prod.PIdle? <==> Written(t) - k == t.cap - 1)
              && (Step(t, PushLoadsOther(Read(t))).prod.PIdle? <==> |Queued(t)| == t.cap - 1)
    ensures t.cons.CLoaded? && t.seenWrite <= k < |t.writeLog| ==>
              && (Step(t, PopLoadsOther(k)).cons.CIdle? <==> k == Read(t))
              && (Step(t, PopLoadsOther(Written(t))).cons.CIdle? <==> |Queued(t)| == 0)
  {
    ReachableInv(s, actions, t);
    if t.prod.PLoaded? && t.seenRead <= k < |t.readLog| {
      FullCheck(t, k);
      FullCheck(t, Read(t));
    }
    if t.cons.CLoaded? && t.seenWrite <= k < |t.writeLog| {
      EmptyCheck(t, k);
      EmptyCheck(t, Written(t));
    }
  }

  lemma QueuedIsSuffix<T(!new)>(s: State<T>)
    requires Inv(s)
    ensures Queued(s) == s.pushed[Read(s)..]
  {
  }

  /** To those who look at the queue as a whole, each call takes effect at one of its steps: a push
      when it stores write_index_, and then there is room; a pop when it stores read_index_, and then
      it takes the oldest item. No other step changes anything, so a pop that gives up is one that
      finds the queue empty or misses what is in it. */
  lemma StepRefinesQueue<T(!new)>(s: State<T>, a: Action<T>)
    requires Inv(s) && Enabled(s, a)
    ensures Inv(Step(s, a))
    ensures a.PushStores? ==> |Queued(s)| < s.cap - 1 && Queued(Step(s, a)) == Queued(s) + [s.prod.item]
    ensures a.PopStores? ==> Queued(s) == [s.cons.item] + Queued(Step(s, a))
    ensures !a.PushStores? && !a.PopStores? ==> Queued(Step(s, a)) == Queued(s)
    ensures Step(s, a).pushed == s.pushed + if a.PushStores? then [s.prod.item] else []
    ensures Step(s, a).popped == s.popped + if a.PopStores? then [s.cons.item] else []
  {
    StepKeepsInv(s, a);
    QueuedIsSuffix(s);
    QueuedIsSuffix(Step(s, a));
    StepCounts(s, a);
    hide Inv, Queued, Step, Enabled;
    if a.PushStores? {
      assert Step(s, a).pushed[Read(s)..] == s.pushed[Read(s)..] + [s.prod.item];
    } else if a.PopStores? {
      assert s.pushed[Read(s)..] == [s.pushed[Read(s)]] + s.pushed[Read(s) + 1..];
    }
  }

  /** Which counts and logs a step changes. */
  lemma StepCounts<T(!new)>(s: State<T>, a: Action<T>)
    requires Inv(s) && Enabled(s, a)
    ensures Written(Step(s, a)) == Written(s) + if a.PushStores? then 1 else 0
    ensures Read(Step(s, a)) == Read(s) + if a.PopStores? then 1 else 0
    ensures Step(s, a).pushed == s.pushed + if a.PushStores? then [s.prod.item] else []
    ensures Step(s, a).popped == s.popped + if a.PopStores? then [s.cons.item] else []
    ensures a.PushStores? ==> Written(s) - Read(s) < s.cap - 1
    ensures a.PopStores? ==> Read(s) < Written(s) && s.cons.item == s.pushed[Read(s)]
    ensures |s.pushed| == Written(s) && 0 <= Read(s) <= Written(s) && |Queued(s)| == Written(s) - Read(s)
  {
    hide Histories, Contents, RingSlot;
  }

  // ------------------------------------------------------------------ uninterrupted calls

  ghost predicate Idle<T(!new)>(s: State<T>) {
    Inv(s) && s.prod.PIdle? && s.cons.CIdle?
  }

  /** The state after a push with no other thread in between, and the steps that lead there. */
  ghost function AfterPush<T(!new)>(s: State<T>, item: T): State<T>
    requires Idle(s)
  {
    var current := RingSlot(Written(s), s.cap);
    if Written(s) - Read(s) == s.cap - 1 then s.(seenRead := Read(s))
    else s.(seenRead := Read(s), data := s.data[current := item],
            writeLog := s.writeLog + [(current + 1) % s.cap], pushed := s.pushed + [item])
  }

  ghost function PushSteps<T(!new)>(s: State<T>, item: T): seq<Action<T>>
    requires Idle(s)
  {
    [PushLoadsOwn(item)] + ([PushLoadsOther(Read(s))] +
                            if Written(s) - Read(s) == s.cap - 1 then [] else [PushWrites] + [PushStores])
  }

  lemma Cons<T(!new)>(s: State<T>, a: Action<T>, rest: seq<Action<T>>, t: State<T>)
    requires Enabled(s, a) && Reaches(Step(s, a), rest, t)
    ensures Reaches(s, [a] + rest, t)
  {
    assert ([a] + rest)[1..] == rest;
  }

  lemma PushReaches<T(!new)>(s: State<T>, item: T)
    requires Idle(s)
    ensures Reaches(s, PushSteps(s, item), AfterPush(s, item))
  {
    var own: Action<T>, other: Action<T> := PushLoadsOwn(item), PushLoadsOther(Read(s));
    var s1, t := Step(s, own), AfterPush(s, item);
    StepKeepsInv(s, own);
    FullCheck(s1, Read(s));
    var s2 := Step(s1, other);
    hide Inv;
    if Written(s) - Read(s) == s.cap - 1 {
      assert s2 == t;
      Cons(s1, other, [], t);
      Cons(s, own, [other] + [], t);
    } else {
      var s3 := Step(s2, PushWrites);
      assert Step(s3, PushStores) == t;
      assert Reaches(s3, [PushStores], t);
      Cons(s2, PushWrites, [PushStores], t);
      Cons(s1, other, [PushWrites] + [PushStores], t);
      Cons(s, own, [other] + ([PushWrites] + [PushStores]), t);
    }
  }

  lemma PushEffects<T(!new)>(s: State<T>, item: T)
    requires Idle(s)
    ensures var t := AfterPush(s, item);
            var full := |Queued(s)| == s.cap - 1;
            && t.cap == s.cap && Read(t) == Read(s) && Written(t) == Written(s) + (if full then 0 else 1)
            && |Queued(s)| == Written(s) - Read(s) <= s.cap - 1
            && t.data == if full then s.data else s.data[RingSlot(Written(s), s.cap) := item]
  {
    hide Histories, Contents, RingSlot;
  }

  /** A push alone appends its item unless the ring holds capacity - 1 already. */
  lemma PushAlone<T(!new)>(s: State<T>, item: T)
    requires Idle(s)
    ensures Idle(AfterPush(s, item))
    ensures Queued(AfterPush(s, item)) == if |Queued(s)| < s.cap - 1 then Queued(s) + [item] else Queued(s)
  {
    PushReaches(s, item);
    ReachableInv(s, PushSteps(s, item), AfterPush(s, item));
    QueuedIsSuffix(s);
    QueuedIsSuffix(AfterPush(s, item));
    hide Reaches, Contents, Threads, Histories;
  }

  ghost function AfterPop<T(!new)>(s: State<T>): State<T>
    requires Idle(s)
  {
    if Read(s) == Written(s) then s.(seenWrite := Written(s))
    else s.(seenWrite := Written(s), readLog := s.readLog + [(RingSlot(Read(s), s.cap) + 1) % s.cap],
            popped := s.popped + [s.data[RingSlot(Read(s), s.cap)]])
  }

  ghost function PopSteps<T(!new)>(s: State<T>): seq<Action<T>>
    requires Idle(s)
  {
    [PopLoadsOwn] + ([PopLoadsOther(Written(s))] + if Read(s) == Written(s) then [] else [PopReads] + [PopStores])
  }

  lemma PopReaches<T(!new)>(s: State<T>)
    requires Idle(s)
    ensures Reaches(s, PopSteps(s), AfterPop(s))
  {
    var own: Action<T>, other: Action<T> := PopLoadsOwn, PopLoadsOther(Written(s));
    var s1, t := Step(s, own), AfterPop(s);
    StepKeepsInv(s, own);
    EmptyCheck(s1, Written(s));
    var s2 := Step(s1, other);
    hide Inv;
    if Read(s) == Written(s) {
      assert s2 == t;
      Cons(s1, other, [], t);
      Cons(s, own, [other] + [], t);
    } else {
      var s3 := Step(s2, PopReads);
      assert Step(s3, PopStores) == t;
      assert Reaches(s3, [PopStores], t);
      Cons(s2, PopReads, [PopStores], t);
      Cons(s1, other, [PopReads] + [PopStores], t);
      Cons(s, own, [other] + ([PopReads] + [PopStores]), t);
    }
  }

  /** A pop alone takes the oldest item, if there is one. */
  lemma PopAlone<T(!new)>(s: State<T>)
    requires Idle(s)
    ensures Idle(AfterPop(s))
    ensures Queued(s) == [] ==> Queued(AfterPop(s)) == []
    ensures Queued(s) != [] ==> Queued(s) == [s.data[RingSlot(Read(s), s.cap)]] + Queued(AfterPop(s))
  {
    PopReaches(s);
    ReachableInv(s, PopSteps(s), AfterPop(s));
    QueuedIsSuffix(s);
    QueuedIsSuffix(AfterPop(s));
    hide Reaches, Threads, Histories;
  }

  /** What a push alone looks at and writes. */
  lemma PushPlan<T(!new)>(s: State<T>, item: T)
    requires Idle(s)
    ensures var t := AfterPush(s, item);
            var write, next := RingSlot(Written(s), s.cap), (RingSlot(Written(s), s.cap) + 1) % s.cap;
            var full := |Queued(s)| >= s.cap - 1;
            && Idle(t) && t.cap == s.cap && s.cap > 1 && |s.data| == s.cap
            && (full <==> next == RingSlot(Read(s), s.cap))
            && RingSlot(Read(t), t.cap) == RingSlot(Read(s), s.cap)
            && RingSlot(Written(t), t.cap) == (if full then write else next)
            && t.data == (if full then s.data else s.data[write := item])
            && Queued(t) == if full then Queued(s) else Queued(s) + [item]
  {
    PushAlone(s, item);
    PushEffects(s, item);
    NextSlot(Written(s), s.cap);
    SlotsApart(Read(s), Written(s) + 1, s.cap);
    hide Queued, RingSlot, AfterPush, Histories, Contents, Threads;
  }

  lemma PopEffects<T(!new)>(s: State<T>)
    requires Idle(s)
    ensures var t := AfterPop(s);
            var empty := Queued(s) == [];
            && t.cap == s.cap && Written(t) == Written(s) && Read(t) == Read(s) + (if empty then 0 else 1)
            && |Queued(s)| == Written(s) - Read(s) <= s.cap - 1 && t.data == s.data
  {
    hide Histories, Contents, RingSlot;
  }

  /** What a pop alone looks at and writes. */
  lemma PopPlan<T(!new)>(s: State<T>)
    requires Idle(s)
    ensures var t := AfterPop(s);
            var read, next := RingSlot(Read(s), s.cap), (RingSlot(Read(s), s.cap) + 1) % s.cap;
            var empty := Queued(s) == [];
            && Idle(t) && t.cap == s.cap && s.cap > 1 && |s.data| == s.cap
            && (empty <==> read == RingSlot(Written(s), s.cap))
            && RingSlot(Written(t), t.cap) == RingSlot(Written(s), s.cap)
            && RingSlot(Read(t), t.cap) == (if empty then read else next)
            && t.data == s.data
            && Queued(s) == if empty then Queued(t) else [s.data[read]] + Queued(t)
  {
    PopAlone(s);
    PopEffects(s);
    NextSlot(Read(s), s.cap);
    SlotsApart(Read(s), Written(s), s.cap);
    hide Queued, RingSlot, AfterPop, Histories, Contents, Threads;
  }

  /** The queue object. Its methods are the two calls' atomic steps in program order, here with
      no other thread in between; `state` is the protocol state they lead through. */
  class SpscQueue<T(0, !new)> {
    const data: array<T>
    var writeIndex: nat
    var readIndex: nat
    ghost var state: State<T>

    ghost predicate Valid()
      reads this, data
    {
      && Idle(state) && data.Length == state.cap && data[..] == state.data
      && writeIndex == RingSlot(Written(state), state.cap) && readIndex == RingSlot(Read(state), state.cap)
    }

    constructor (capacity: nat)
      requires capacity > 1
      ensures Valid() && fresh(data) && data.Length == capacity && Queued(state) == []
    {
      data := new T[capacity];
      writeIndex, readIndex := 0, 0;
      new;
      state := State(capacity, data[..], [0], [0], PIdle, CIdle, 0, 0, [], []);
    }

    method Push(item: T) returns (ok: bool)
      requires Valid()
      modifies this, data
      ensures Valid()
      ensures state == AfterPush(old(state), item)
      ensures ok <==> |old(Queued(state))| < data.Length - 1
      ensures Queued(state) == if ok then old(Queued(state)) + [item] else old(Queued(state))
    {
      hide Inv, Idle, Queued, RingSlot, AfterPush, Written, Read;
      ghost var before := state;
      PushPlan(state, item);
      var currentWrite := writeIndex;
      var nextWrite := (currentWrite + 1) % data.Length;
      if nextWrite == readIndex {
        state := AfterPush(before, item);
        return false;
      }
      data[currentWrite] := item;
      writeIndex := nextWrite;
      state := AfterPush(before, item);
      assert data[..] == state.data;
      return true;
    }

    method Pop() returns (item: Option<T>)
      requires Valid()
      modifies this
      ensures Valid()
      ensures state == AfterPop(old(state))
      ensures item.None? <==> old(Queued(state)) == []
      ensures old(Queued(state)) == (if item.Some? then [item.value] else []) + Queued(state)
    {
      hide Inv, Idle, Queued, RingSlot, AfterPop, Written, Read;
      PopPlan(state);
      var currentRead := readIndex;
      if currentRead == writeIndex {
        state := AfterPop(state);
        return None;
      }
      item := Some(data[currentRead]);
      var nextRead := (currentRead + 1) % data.Length;
      readIndex := nextRead;
      state := AfterPop(state);
    }
  }
}
