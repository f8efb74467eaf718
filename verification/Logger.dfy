/** The asynchronous logger's output: a memory-mapped file that grows by doubling. */
module LogFile {
  import opened Machine

  /** The longest formatted line: 20 digits of timestamp, 10 of thread id, 7 characters of level,
      239 of payload, and 12 of punctuation and line end. */
  const MAX_LINE: nat := 288

  function Concat(lines: seq<bytes>): bytes {
    if lines == [] then [] else Concat(lines[..|lines| - 1]) + lines[|lines| - 1]
  }

  lemma ConcatAppend(lines: seq<bytes>, line: bytes)
    ensures Concat(lines + [line]) == Concat(lines) + line
  {
    assert (lines + [line])[..|lines|] == lines;
  }

  datatype Image = Image(content: bytes, size: nat)

  /** What `writeToFile` does to the mapped file when the operating system lets it grow. */
  function Written(f: Image, line: bytes): Image {
    var size := if |f.content| + |line| > f.size then 2 * f.size else f.size;
    Image(if |f.content| + |line| <= size then f.content + line else f.content, size)
  }

  /** One doubling makes room for any line that the initial mapping could hold: no line is dropped. */
  lemma DoublingSuffices(f: Image, line: bytes)
    requires |f.content| <= f.size && |line| <= f.size
    ensures Written(f, line).content == f.content + line
    ensures |Written(f, line).content| <= Written(f, line).size
    ensures Written(f, line).size == if |f.content| + |line| <= f.size then f.size else 2 * f.size
  {
  }

  class MappedFile {
    var mapped: array<u8>
    var currentOffset: nat
    /** The lines in the file, whole and in order. */
    ghost var lines: seq<bytes>

    ghost predicate Valid()
      reads this, mapped
    {
      currentOffset <= mapped.Length && mapped[..currentOffset] == Concat(lines)
    }

    ghost function Contents(): Image
      requires Valid()
      reads this, mapped
    {
      Image(mapped[..currentOffset], mapped.Length)
    }

    constructor (mmapSize: nat)
      ensures Valid() && fresh(mapped) && mapped.Length == mmapSize && lines == []
    {
      mapped := new u8[mmapSize];
      currentOffset := 0;
      lines := [];
    }

    /** `granted` is whether both system calls succeed; if not, nothing changes. */
    method ResizeMmap(granted: bool)
      requires Valid()
      modifies this
      ensures Valid() && lines == old(lines) && currentOffset == old(currentOffset)
      ensures if granted then fresh(mapped) && mapped.Length == 2 * old(mapped.Length) else mapped == old(mapped)
      ensures mapped[..currentOffset] == old(mapped[..currentOffset])
    {
      if !granted {
        return;
      }
      var newSize := mapped.Length * 2;
      var moved := new u8[newSize];
      forall i | 0 <= i < mapped.Length {
        moved[i] := mapped[i];
      }
      assert moved[..currentOffset] == mapped[..currentOffset];
      mapped := moved;
    }

    /** Appends the whole line or nothing; nothing only if it does not fit even after the one
        doubling that was granted or refused. */
    method WriteToFile(line: bytes, granted: bool)
      requires Valid()
      modifies this, mapped
      ensures Valid() && (fresh(mapped) || mapped == old(mapped))
      ensures granted ==> Contents() == Written(old(Contents()), line)
      ensures !granted ==> mapped.Length == old(mapped.Length)
      ensures lines == old(lines) + if old(currentOffset) + |line| <= mapped.Length then [line] else []
    {
      if currentOffset + |line| > mapped.Length {
        ResizeMmap(granted);
      }
      if currentOffset + |line| <= mapped.Length {
        ghost var before := mapped[..currentOffset];
        forall i | 0 <= i < |line| {
          mapped[currentOffset + i] := line[i];
        }
        assert mapped[..currentOffset + |line|] == before + line;
        currentOffset := currentOffset + |line|;
        ConcatAppend(lines, line);
        lines := lines + [line];
      }
    }
  }
}

/** Any number of logging threads, each with a queue of its own, and the background thread that
    drains the queues into the file, interleaved call by call; queue calls are atomic here, as the
    queue's protocol allows, and a failing poll may miss what has just been pushed. */
module LogDrain {
  import opened Machine
  import opened LogFile

  /** `line` is the message as it will be formatted. */
  datatype LogMessage = LogMessage(threadId: u32, line: bytes)

  const QUEUE_CAPACITY: nat := 1024

  /** Where the background thread's loop stands. */
  datatype Drain = AtLoop | AtRefresh | AtPoll(next: nat) | AtCheck | Left

  /** A thread's queue, with all it ever pushed. */
  datatype Channel = Channel(queue: seq<LogMessage>, pushed: seq<LogMessage>)

  /** The logger over queues of some kind. `registered` is its list of threads, `active` the background
      thread's copy of it; `written` is all popped messages. */
  datatype Logger<C> = Logger(registered: seq<u32>, channels: map<u32, C>, running: bool, drain: Drain,
                              active: seq<u32>, idle: bool, written: seq<LogMessage>, file: Image)

  type State = Logger<Channel>

  datatype Action =
    | Register(thread: u32)
    | Push(message: LogMessage)
    | Shutdown
    | TestsLoop | Refreshes | Polls(sees: bool) | Checks

  /** The steps that look at no queue. */
  predicate IsControl(a: Action) {
    a.Shutdown? || a.TestsLoop? || a.Refreshes? || a.Checks?
  }

  predicate ControlEnabled<C(!new)>(s: Logger<C>, a: Action)
    requires IsControl(a)
  {
    match a
    case Shutdown => true
    case TestsLoop => s.drain.AtLoop?
    case Refreshes => s.drain.AtRefresh?
    case Checks => s.drain.AtCheck?
  }

  function ControlStep<C(!new)>(s: Logger<C>, a: Action): Logger<C>
    requires IsControl(a)
  {
    match a
    case Shutdown =>
      s.(running := false)
    case TestsLoop =>
      if s.running || s.active != [] then s.(drain := AtRefresh, idle := true) else s.(drain := Left)
    case Refreshes =>
      s.(active := if |s.active| != |s.registered| then s.registered else s.active, drain := AtPoll(0))
    case Checks =>
      if !s.running && s.idle then s.(drain := Left) else s.(drain := AtLoop)
  }

  /** Registering a thread, with a new queue unless it has one. */
  function Registering<C(!new)>(s: Logger<C>, t: u32, queue: C): Logger<C> {
    if t in s.registered then s
    else s.(registered := s.registered + [t], channels := s.channels[t := queue])
  }

  /** The drain loop is at the queue of thread `t`. */
  predicate IsPolling<C(!new)>(s: Logger<C>, t: u32) {
    s.drain.AtPoll? && s.drain.next < |s.active| && s.active[s.drain.next] == t && t in s.channels
  }

  predicate Enabled(s: State, a: Action) {
    match a
    case Register(t) => true
    case Push(m) =>
      m.threadId in s.channels && |s.channels[m.threadId].queue| < QUEUE_CAPACITY - 1 && |m.line| <= MAX_LINE
    case Polls(_) => s.drain.AtPoll? && (s.drain.next < |s.active| ==> s.active[s.drain.next] in s.channels)
    case _ => ControlEnabled(s, a)
  }

  function Step(s: State, a: Action): State
    requires Enabled(s, a)
  {
    match a
    case Register(t) => Registering(s, t, Channel([], []))
    case Push(m) =>
      var c := s.channels[m.threadId];
      s.(channels := s.channels[m.threadId := Channel(c.queue + [m], c.pushed + [m])])
    case Polls(sees) =>
      if s.drain.next >= |s.active| then s.(drain := AtCheck)
      else
        var t := s.active[s.drain.next];
        var c := s.channels[t];
        if sees && c.queue != [] then
          s.(channels := s.channels[t := c.(queue := c.queue[1..])], written := s.written + [c.queue[0]],
             file := Written(s.file, c.queue[0].line), idle := false)
        else
          s.(drain := AtPoll(s.drain.next + 1))
    case _ => ControlStep(s, a)
  }

  ghost predicate Reaches(s: State, actions: seq<Action>, t: State)
    decreases |actions|
  {
    if actions == [] then s == t
    else Enabled(s, actions[0]) && Reaches(Step(s, actions[0]), actions[1..], t)
  }

  /** After `init`: the file mapped and empty, the background thread about to start. */
  function Start(mmapSize: nat): State {
    Logger([], map[], true, AtLoop, [], false, [], Image([], mmapSize))
  }

  // ------------------------------------------------------------------ what each step does

  /** The drain loop's control, for queues of any kind. A pass is entered, idle so far, while the logger runs or
      queues are known; it starts with the list of threads as it is then; after it the loop is left only
      if the logger has been shut down and the pass took nothing. */
  lemma ControlMeans<C(!new)>(s: Logger<C>, a: Action)
    requires IsControl(a) && ControlEnabled(s, a)
    ensures var s' := ControlStep(s, a);
            && s'.registered == s.registered && s'.channels == s.channels
            && s'.written == s.written && s'.file == s.file
            && (s'.running <==> s.running && a != Shutdown)
            && (a != Refreshes ==> s'.active == s.active)
            && match a
               case Shutdown => s'.drain == s.drain && s'.idle == s.idle
               case TestsLoop =>
                 if s.running || |s.active| > 0 then s'.drain == AtRefresh && s'.idle else s'.drain == Left
               case Refreshes =>
                 && s'.drain == AtPoll(0) && s'.idle == s.idle
                 && s'.active == if |s.active| == |s.registered| then s.active else s.registered
               case Checks =>
                 && s'.idle == s.idle
                 && s'.drain == if !s.running && s.idle then Left else AtLoop
  {
  }

  /** Registration adds a thread once, with an empty queue, and leaves all others alone. */
  lemma RegisterMeans(s: State, t: u32)
    requires Registered(s)
    ensures var s' := Step(s, Register(t));
            && t in s'.registered && t in s'.channels
            && (t in s.registered ==> s' == s)
            && (t !in s.registered ==>
                  && s'.registered == s.registered + [t] && s'.channels[t].queue == [] && s'.channels[t].pushed == []
                  && (forall u :: u in s'.channels <==> u in s.channels || u == t)
                  && (forall u :: u in s.channels ==> s'.channels[u] == s.channels[u])
                  && s'.running == s.running && s'.drain == s.drain && s'.active == s.active && s'.idle == s.idle
                  && s'.written == s.written && s'.file == s.file)
  {
  }

  /** A push adds its message to its own thread's queue, and is possible exactly while that holds fewer
      than 1023 messages. */
  lemma PushMeans(s: State, m: LogMessage)
    requires |m.line| <= 288
    ensures Enabled(s, Push(m)) <==> m.threadId in s.channels && |s.channels[m.threadId].queue| < 1023
    ensures Enabled(s, Push(m)) ==>
              var s' := Step(s, Push(m));
              && (forall u :: u in s'.channels <==> u in s.channels)
              && (forall u :: u in s.channels && u != m.threadId ==> s'.channels[u] == s.channels[u])
              && s'.channels[m.threadId].queue == s.channels[m.threadId].queue + [m]
              && s'.channels[m.threadId].pushed == s.channels[m.threadId].pushed + [m]
              && s'.registered == s.registered && s'.running == s.running && s'.drain == s.drain
              && s'.active == s.active && s'.idle == s.idle && s'.written == s.written && s'.file == s.file
  {
  }

  /** A poll that sees a message takes the oldest one of the queue at hand into the file and stays at that
      queue, and the pass is not idle; one that sees none goes on to the next queue, and after the last
      queue the pass ends. */
  lemma PollMeans(s: State, sees: bool)
    requires Enabled(s, Polls(sees))
    ensures var s' := Step(s, Polls(sees));
            && s'.registered == s.registered && s'.running == s.running && s'.active == s.active
            && (s.drain.next >= |s.active| ==> s' == s.(drain := AtCheck))
            && (s.drain.next < |s.active| ==>
                  var t := s.active[s.drain.next];
                  if sees && s.channels[t].queue != [] then
                    && s'.written == s.written + [s.channels[t].queue[0]] && !s'.idle && s'.drain == s.drain
                    && s'.channels == s.channels[t := Channel(s.channels[t].queue[1..], s.channels[t].pushed)]
                    && (|s.file.content| + |s.channels[t].queue[0].line| <= s.file.size ==>
                          s'.file == Image(s.file.content + s.channels[t].queue[0].line, s.file.size))
                  else s' == s.(drain := AtPoll(s.drain.next + 1)))
  {
  }

  // ------------------------------------------------------------------ invariant

  /** The messages of one thread, in order. */
  function OfThread(messages: seq<LogMessage>, t: u32): seq<LogMessage> {
    if messages == [] then []
    else OfThread(messages[..|messages| - 1], t)
         + if messages[|messages| - 1].threadId == t then [messages[|messages| - 1]] else []
  }

  lemma OfThreadAppend(messages: seq<LogMessage>, m: LogMessage, t: u32)
    ensures OfThread(messages + [m], t) == OfThread(messages, t) + if m.threadId == t then [m] else []
  {
    assert (messages + [m])[..|messages|] == messages;
  }

  function Lines(messages: seq<LogMessage>): (lines: seq<bytes>)
    ensures |lines| == |messages| && forall i :: 0 <= i < |messages| ==> lines[i] == messages[i].line
  {
    seq(|messages|, i requires 0 <= i < |messages| => messages[i].line)
  }

  /** The background thread's copy is a prefix of the list, which names each thread once. */
  ghost predicate Registered(s: State) {
    && (forall t :: t in s.channels <==> t in s.registered)
    && NoDup(s.registered)
    && |s.active| <= |s.registered|
    && forall i :: 0 <= i < |s.active| ==> s.active[i] == s.registered[i]
  }

  /** What is written of a thread's messages, then what is queued, is what it pushed. */
  ghost predicate ChannelOk(written: seq<LogMessage>, t: u32, c: Channel) {
    && OfThread(written, t) + c.queue == c.pushed
    && |c.queue| < QUEUE_CAPACITY
    && forall i :: 0 <= i < |c.queue| ==> c.queue[i].threadId == t && |c.queue[i].line| <= MAX_LINE
  }

  ghost predicate ChannelsOk(written: seq<LogMessage>, channels: map<u32, Channel>) {
    forall t :: t in channels ==> ChannelOk(written, t, channels[t])
  }

  ghost predicate InOrder(s: State) {
    && ChannelsOk(s.written, s.channels)
    && (forall i :: 0 <= i < |s.written| ==> s.written[i].threadId in s.channels)
  }

  /** The file is the written lines, within the mapping, which can hold any line. */
  ghost predicate FileOk(s: State) {
    && s.file.content == Concat(Lines(s.written))
    && |s.file.content| <= s.file.size && MAX_LINE <= s.file.size
  }

  predicate PollInRange(s: State) {
    s.drain.AtPoll? ==> s.drain.next <= |s.active|
  }

  ghost predicate Inv(s: State) {
    Registered(s) && InOrder(s) && FileOk(s) && PollInRange(s)
  }

  lemma WriteKeepsFile(s: State, m: LogMessage)
    requires FileOk(s) && |m.line| <= MAX_LINE
    ensures FileOk(s.(written := s.written + [m], file := Written(s.file, m.line)))
  {
    DoublingSuffices(s.file, m.line);
    assert Lines(s.written + [m]) == Lines(s.written) + [m.line];
    ConcatAppend(Lines(s.written), m.line);
  }

  lemma StepKeepsRegistered(s: State, a: Action)
    requires Registered(s) && Enabled(s, a)
    ensures Registered(Step(s, a))
  {
  }

  lemma StepKeepsOrder(s: State, a: Action)
    requires Registered(s) && InOrder(s) && Enabled(s, a)
    ensures InOrder(Step(s, a))
  {
    match a
    case Register(t) =>
      RegisterKeepsOrder(s, t);
    case Push(m) =>
      PushKeepsOrder(s, m);
    case Polls(sees) =>
      PollKeepsOrder(s, sees);
    case _ =>
  }

  lemma RegisterKeepsOrder(s: State, t: u32)
    requires Registered(s) && InOrder(s)
    ensures InOrder(Step(s, Register(t)))
  {
    if t !in s.registered {
      NothingOf(s.written, t);
    }
  }

  lemma PushKeepsOrder(s: State, m: LogMessage)
    requires InOrder(s) && Enabled(s, Push(m))
    ensures InOrder(Step(s, Push(m)))
  {
    assert ChannelOk(s.written, m.threadId, s.channels[m.threadId]);
  }

  lemma PollKeepsOrder(s: State, sees: bool)
    requires InOrder(s) && Enabled(s, Polls(sees))
    ensures InOrder(Step(s, Polls(sees)))
  {
    if s.drain.next < |s.active| {
      var t := s.active[s.drain.next];
      assert ChannelOk(s.written, t, s.channels[t]);
      if sees && s.channels[t].queue != [] {
        PopKeepsOrder(s, t);
      }
    }
  }

  lemma PopKeepsOrder(s: State, t: u32)
    requires InOrder(s) && t in s.channels && s.channels[t].queue != []
    ensures var c := s.channels[t];
            InOrder(s.(channels := s.channels[t := c.(queue := c.queue[1..])], written := s.written + [c.queue[0]]))
  {
    assert ChannelOk(s.written, t, s.channels[t]);
    PopKeepsChannels(s.written, s.channels, t);
    hide ChannelsOk;
  }

  lemma PopKeepsChannels(written: seq<LogMessage>, channels: map<u32, Channel>, t: u32)
    requires ChannelsOk(written, channels) && t in channels && channels[t].queue != []
    ensures var c := channels[t];
            ChannelsOk(written + [c.queue[0]], channels[t := c.(queue := c.queue[1..])])
  {
    hide ChannelOk;
    var c := channels[t];
    var channels' := channels[t := c.(queue := c.queue[1..])];
    forall u | u in channels' ensures ChannelOk(written + [c.queue[0]], u, channels'[u]) {
      PopKeepsChannel(written, t, c, u, channels[u]);
    }
  }

  /** Writing a message of thread `t` concerns that thread's channel alone. */
  lemma PopKeepsChannel(written: seq<LogMessage>, t: u32, c: Channel, u: u32, d: Channel)
    requires ChannelOk(written, t, c) && c.queue != [] && ChannelOk(written, u, d) && (u == t ==> d == c)
    ensures ChannelOk(written + [c.queue[0]], u, if u == t then c.(queue := c.queue[1..]) else d)
  {
    OfThreadAppend(written, c.queue[0], u);
    if u == t {
      assert c.queue == [c.queue[0]] + c.queue[1..];
    }
    hide OfThread;
  }

  lemma {:induction false} NothingOf(messages: seq<LogMessage>, t: u32)
    requires forall i :: 0 <= i < |messages| ==> messages[i].threadId != t
    ensures OfThread(messages, t) == []
  {
    if messages != [] {
      NothingOf(messages[..|messages| - 1], t);
    }
  }

  lemma StepKeepsFile(s: State, a: Action)
    requires InOrder(s) && FileOk(s) && Enabled(s, a)
    ensures FileOk(Step(s, a))
  {
    if a.Polls? && s.drain.next < |s.active| {
      var t := s.active[s.drain.next];
      assert ChannelOk(s.written, t, s.channels[t]);
      if a.sees && s.channels[t].queue != [] {
        WriteKeepsFile(s, s.channels[t].queue[0]);
      }
    }
  }

  lemma StepKeepsInv(s: State, a: Action)
    requires Inv(s) && Enabled(s, a)
    ensures Inv(Step(s, a))
  {
    StepKeepsRegistered(s, a);
    StepKeepsOrder(s, a);
    StepKeepsFile(s, a);
    StepKeepsPoll(s, a);
    hide Registered, InOrder, FileOk, PollInRange, Step, Enabled;
  }

  lemma StepKeepsPoll(s: State, a: Action)
    requires PollInRange(s) && Enabled(s, a)
    ensures PollInRange(Step(s, a))
  {
    hide Written;
  }

  lemma StartInv(mmapSize: nat)
    requires MAX_LINE <= mmapSize
    ensures Inv(Start(mmapSize))
  {
  }

  lemma {:induction false} ReachableInv(s: State, actions: seq<Action>, t: State)
    requires Inv(s) && Reaches(s, actions, t)
    ensures Inv(t)
    decreases |actions|
  {
    hide Inv, Step, Enabled;
    if actions != [] {
      StepKeepsInv(s, actions[0]);
      ReachableInv(Step(s, actions[0]), actions[1..], t);
    }
  }

  // ------------------------------------------------------------------ theorems

  /** In every interleaving of any number of threads with the drain loop, when the mapping can hold
      the longest line and system calls succeed: the file is a concatenation of whole lines within
      the mapping; and each thread's lines are in it in order, none twice and none skipped, as far
      as the messages its queue still holds. */
  lemma LogIsFaithful(mmapSize: nat, actions: seq<Action>, s: State)
    requires MAX_LINE <= mmapSize && Reaches(Start(mmapSize), actions, s)
    ensures s.file.content == Concat(Lines(s.written)) && |s.file.content| <= s.file.size
    ensures forall t :: t in s.registered ==>
              t in s.channels && OfThread(s.written, t) + s.channels[t].queue == s.channels[t].pushed
    ensures forall t :: t in s.registered ==> |s.channels[t].queue| <= 1023
    ensures forall i :: 0 <= i < |s.written| ==> s.written[i].threadId in s.registered
  {
    StartInv(mmapSize);
    ReachableInv(Start(mmapSize), actions, s);
  }

  // ------------------------------------------------------------------ when the loop is left

  /** The logger runs until it is shut down, and its loop is left only then. */
  lemma {:induction false} RunsUntilShutdown(s: State, actions: seq<Action>, e: State)
    requires Reaches(s, actions, e) && s.running && s.drain != Left
    ensures e.running <==> Shutdown !in actions
    ensures e.drain == Left ==> Shutdown in actions
    decreases |actions|
  {
    if actions != [] {
      assert actions == [actions[0]] + actions[1..];
      if actions[0].Shutdown? {
        StaysDown(Step(s, actions[0]), actions[1..], e);
      } else {
        RunsUntilShutdown(Step(s, actions[0]), actions[1..], e);
      }
    }
  }

  lemma {:induction false} StaysDown(s: State, actions: seq<Action>, e: State)
    requires Reaches(s, actions, e) && !s.running
    ensures !e.running
    decreases |actions|
  {
    if actions != [] {
      StaysDown(Step(s, actions[0]), actions[1..], e);
    }
  }

  /** In every run from the start, the background thread has left its loop only if the logger has been
      shut down before. */
  lemma LeftOnlyAfterShutdown(mmapSize: nat, actions: seq<Action>, s: State)
    requires Reaches(Start(mmapSize), actions, s)
    ensures s.running <==> Shutdown !in actions
    ensures s.drain == Left ==> !s.running && Shutdown in actions
  {
    RunsUntilShutdown(Start(mmapSize), actions, s);
  }

  /** Some poll of the run takes a message. */
  predicate TakesSome(s: State, actions: seq<Action>)
    decreases |actions|
  {
    && actions != [] && Enabled(s, actions[0])
    && (|Step(s, actions[0]).written| > |s.written| || TakesSome(Step(s, actions[0]), actions[1..]))
  }

  lemma {:induction false} IdleUntilTaken(s: State, actions: seq<Action>, e: State)
    requires Reaches(s, actions, e) && (s.drain.AtRefresh? || s.drain.AtPoll? || s.drain.AtCheck?)
    requires forall i :: 0 <= i < |actions| ==> !actions[i].Checks?
    ensures e.idle <==> s.idle && !TakesSome(s, actions)
    ensures e.drain.AtRefresh? || e.drain.AtPoll? || e.drain.AtCheck?
    decreases |actions|
  {
    if actions != [] {
      assert !actions[0].Checks?;
      IdleStep(s, actions[0]);
      hide Step, Enabled;
      assert forall i :: 0 <= i < |actions[1..]| ==> actions[1..][i] == actions[i + 1];
      IdleUntilTaken(Step(s, actions[0]), actions[1..], e);
    }
  }

  lemma IdleStep(s: State, a: Action)
    requires Enabled(s, a) && (s.drain.AtRefresh? || s.drain.AtPoll? || s.drain.AtCheck?) && !a.Checks?
    ensures var s' := Step(s, a);
            && (s'.idle <==> s.idle && |s'.written| <= |s.written|)
            && (s'.drain.AtRefresh? || s'.drain.AtPoll? || s'.drain.AtCheck?)
  {
  }

  /** A pass of the loop, from where it is entered to where it ends: then the loop is left if and only if
      the logger has been shut down by now and no poll of the pass took a message. */
  lemma PassLeavesWhen(s: State, actions: seq<Action>, e: State)
    requires s.drain.AtLoop? && (s.running || s.active != []) && Reaches(Step(s, TestsLoop), actions, e)
    requires e.drain.AtCheck? && forall i :: 0 <= i < |actions| ==> !actions[i].Checks?
    ensures Step(e, Checks).drain == if !e.running && !TakesSome(Step(s, TestsLoop), actions) then Left else AtLoop
  {
    IdleUntilTaken(Step(s, TestsLoop), actions, e);
  }

  // ------------------------------------------------------------------ what shutdown leaves behind

  predicate PushesFor(a: Action, t: u32) {
    a.Push? && a.message.threadId == t
  }

  /** Thread `t` pushes nothing. */
  predicate Silent(actions: seq<Action>, t: u32) {
    forall i :: 0 <= i < |actions| ==> !PushesFor(actions[i], t)
  }

  /** A poll of the queue of `t` takes nothing: it finds the queue empty or misses what is in it. */
  predicate PollFails(s: State, a: Action, t: u32) {
    a.Polls? && IsPolling(s, t) && !(a.sees && s.channels[t].queue != [])
  }

  /** What no poll of the queue of `t` has seen, from `unseen` on. */
  function Observe(s: State, a: Action, t: u32, unseen: seq<LogMessage>): seq<LogMessage> {
    if PushesFor(a, t) then unseen + [a.message]
    else if PollFails(s, a, t) then s.channels[t].queue
    else unseen
  }

  /** The messages of `t` that its last failing poll in the run missed and those pushed after it. */
  function Unseen(s: State, actions: seq<Action>, t: u32, unseen: seq<LogMessage>): seq<LogMessage>
    decreases |actions|
  {
    if actions == [] || !Enabled(s, actions[0]) then unseen
    else Unseen(Step(s, actions[0]), actions[1..], t, Observe(s, actions[0], t, unseen))
  }

  /** How many of the active queues the current pass has found empty-handed, if it is idle so far. */
  function Passed(s: State): nat {
    match s.drain
    case AtPoll(next) => if s.idle then next else 0
    case AtCheck => if s.idle then |s.active| else 0
    case Left => |s.registered|
    case _ => 0
  }

  /** If the queue of `t` is not copied yet, or the pass has gone by it, it holds what no poll has seen. */
  ghost predicate Leftover(s: State, t: u32, unseen: seq<LogMessage>) {
    && (t !in s.channels ==> unseen == [])
    && (t in s.channels ==> |s.channels[t].queue| <= |unseen|)
    && forall i :: 0 <= i < |s.registered| && (i < Passed(s) || i >= |s.active|) ==>
                     s.registered[i] == t && t in s.channels ==> s.channels[t].queue == unseen
  }

  lemma PollKeepsLeftover(s: State, sees: bool, t: u32, unseen: seq<LogMessage>)
    requires Registered(s) && Leftover(s, t, unseen) && Enabled(s, Polls(sees))
    ensures Leftover(Step(s, Polls(sees)), t, Observe(s, Polls(sees), t, unseen))
  {
    hide Written;
  }

  lemma StepKeepsLeftover(s: State, a: Action, t: u32, unseen: seq<LogMessage>)
    requires Registered(s) && PollInRange(s) && Leftover(s, t, unseen) && Enabled(s, a)
    ensures Leftover(Step(s, a), t, Observe(s, a, t, unseen))
  {
    if a.Polls? {
      PollKeepsLeftover(s, a.sees, t, unseen);
    }
  }

  lemma {:induction false} RunKeepsLeftover(s: State, actions: seq<Action>, e: State, t: u32, unseen: seq<LogMessage>)
    requires Inv(s) && Reaches(s, actions, e) && Leftover(s, t, unseen)
    ensures Leftover(e, t, Unseen(s, actions, t, unseen))
    decreases |actions|
  {
    hide Registered, InOrder, FileOk, PollInRange, Leftover, Observe, Step, Enabled;
    if actions != [] {
      StepKeepsInv(s, actions[0]);
      StepKeepsLeftover(s, actions[0], t, unseen);
      RunKeepsLeftover(Step(s, actions[0]), actions[1..], e, t, Observe(s, actions[0], t, unseen));
    }
  }

  /** Some poll of the queue of `t` finds it empty, and `t` pushes nothing from there on. */
  predicate FoundEmpty(s: State, actions: seq<Action>, t: u32)
    decreases |actions|
  {
    && actions != [] && Enabled(s, actions[0])
    && ((PollFails(s, actions[0], t) && s.channels[t].queue == [] && Silent(actions[1..], t))
        || FoundEmpty(Step(s, actions[0]), actions[1..], t))
  }

  lemma {:induction false} UnseenWhen(s: State, actions: seq<Action>, e: State, t: u32, unseen: seq<LogMessage>)
    requires Inv(s) && Reaches(s, actions, e) && Leftover(s, t, unseen)
    ensures Unseen(s, actions, t, unseen) == [] <==> FoundEmpty(s, actions, t) || (Silent(actions, t) && unseen == [])
    decreases |actions|
  {
    if actions != [] {
      StepKeepsInv(s, actions[0]);
      StepKeepsLeftover(s, actions[0], t, unseen);
      UnseenWhen(Step(s, actions[0]), actions[1..], e, t, Observe(s, actions[0], t, unseen));
      hide Inv, Step, Enabled, Reaches;
      assert Silent(actions, t) <==> !PushesFor(actions[0], t) && Silent(actions[1..], t);
    }
  }

  /** Shutdown does not drain everything. Once the background thread has left its loop, what is
      missing of a thread's messages in the file is what the last failing poll of its queue missed
      and what it pushed after that. Nothing is missing exactly if it never pushed, or some poll found
      its queue empty after its last push. */
  lemma MissingAfterShutdown(mmapSize: nat, actions: seq<Action>, s: State, t: u32)
    requires MAX_LINE <= mmapSize && Reaches(Start(mmapSize), actions, s)
    requires s.drain.Left? && t in s.registered
    ensures t in s.channels
    ensures s.channels[t].pushed == OfThread(s.written, t) + Unseen(Start(mmapSize), actions, t, [])
    ensures OfThread(s.written, t) == s.channels[t].pushed <==>
              Silent(actions, t) || FoundEmpty(Start(mmapSize), actions, t)
  {
    var unseen := Unseen(Start(mmapSize), actions, t, []);
    StartInv(mmapSize);
    ReachableInv(Start(mmapSize), actions, s);
    RunKeepsLeftover(Start(mmapSize), actions, s, t, []);
    UnseenWhen(Start(mmapSize), actions, s, t, []);
    hide Reaches, FileOk, Unseen, FoundEmpty, Silent;
    var i :| 0 <= i < |s.registered| && s.registered[i] == t;
    assert ChannelOk(s.written, t, s.channels[t]);
    assert s.channels[t].queue == unseen;
  }

  /** The polls of the pass under way that are still to come include one of the queue of `t`, or
      there is nothing to find. */
  ghost predicate WillDrain(s: State, t: u32) {
    && t in s.registered && t in s.channels
    && (s.drain.AtRefresh?
        || (s.drain.AtPoll? && exists i :: s.drain.next <= i < |s.active| && s.active[i] == t)
        || s.channels[t].queue == [])
  }

  lemma RefreshWillDrain(s: State, t: u32)
    requires Registered(s) && s.drain.AtRefresh? && WillDrain(s, t)
    ensures WillDrain(Step(s, Refreshes), t)
  {
    hide NoDup;
    var i :| 0 <= i < |s.registered| && s.registered[i] == t;
    assert Step(s, Refreshes).active[i] == t;
  }

  /** A poll of the queue of `t` misses what is in it. */
  predicate Misses(s: State, a: Action, t: u32) {
    PollFails(s, a, t) && s.channels[t].queue != []
  }

  /** No poll of the queue of `t` misses what is in it. */
  predicate NeverMisses(s: State, actions: seq<Action>, t: u32)
    decreases |actions|
  {
    actions != [] && Enabled(s, actions[0]) ==>
      !Misses(s, actions[0], t) && NeverMisses(Step(s, actions[0]), actions[1..], t)
  }

  lemma PollWillDrain(s: State, sees: bool, t: u32)
    requires Enabled(s, Polls(sees)) && WillDrain(s, t) && !Misses(s, Polls(sees), t)
    ensures WillDrain(Step(s, Polls(sees)), t)
  {
    hide Written;
    if s.channels[t].queue != [] {
      var i :| s.drain.next <= i < |s.active| && s.active[i] == t;
      assert Step(s, Polls(sees)).active[i] == t;
    }
  }

  lemma StepWillDrain(s: State, a: Action, t: u32)
    requires Registered(s) && Enabled(s, a) && WillDrain(s, t)
    requires !PushesFor(a, t) && !Misses(s, a, t)
    ensures WillDrain(Step(s, a), t)
  {
    if a.Refreshes? {
      RefreshWillDrain(s, t);
    } else if a.Polls? {
      PollWillDrain(s, a.sees, t);
    } else {
      hide Registered;
    }
  }

  lemma {:induction false} RunWillDrain(s: State, actions: seq<Action>, e: State, t: u32)
    requires Inv(s) && Reaches(s, actions, e) && WillDrain(s, t)
    requires Silent(actions, t) && NeverMisses(s, actions, t)
    ensures WillDrain(e, t)
    decreases |actions|
  {
    hide WillDrain, Misses;
    if actions != [] {
      StepKeepsInv(s, actions[0]);
      assert !PushesFor(actions[0], t);
      StepWillDrain(s, actions[0], t);
      hide Inv, Step, Enabled;
      assert forall i :: 0 <= i < |actions[1..]| ==> actions[1..][i] == actions[i + 1];
      RunWillDrain(Step(s, actions[0]), actions[1..], e, t);
    }
  }

  /** What a thread can rely on: if it is registered and pushes nothing more from the moment a pass of
      the loop is entered, and polls of its queue see what was pushed, then by the time the loop is left
      all its messages are in the file. */
  lemma DrainedByLaterPass(mmapSize: nat, before: seq<Action>, entered: State, after: seq<Action>, s: State, t: u32)
    requires MAX_LINE <= mmapSize && Reaches(Start(mmapSize), before, entered) && Reaches(entered, after, s)
    requires entered.drain.AtRefresh? && t in entered.registered
    requires Silent(after, t) && NeverMisses(entered, after, t)
    requires s.drain.Left?
    ensures t in s.channels && OfThread(s.written, t) == s.channels[t].pushed
  {
    StartInv(mmapSize);
    ReachableInv(Start(mmapSize), before, entered);
    ReachableInv(entered, after, s);
    assert WillDrain(entered, t) by {
      hide InOrder, FileOk;
    }
    RunWillDrain(entered, after, s, t);
    hide Reaches, Registered, FileOk, Silent, NeverMisses;
    assert ChannelOk(s.written, t, s.channels[t]);
  }

  /** A way to lose a message: shutdown before the loop has started. */
  lemma LostBeforeStart(m: LogMessage, mmapSize: nat) returns (actions: seq<Action>, s: State)
    requires |m.line| <= MAX_LINE
    ensures Reaches(Start(mmapSize), actions, s) && s.drain.Left? && Lost(s, m)
  {
    var s0 := Start(mmapSize);
    var s1 := Step(s0, Register(m.threadId));
    var s2 := Step(s1, Push(m));
    var s3 := Step(s2, Shutdown);
    s := Step(s3, TestsLoop);
    assert s.channels[m.threadId].pushed[0] == m;
    Append(s0, [], s0, Register(m.threadId));
    Append(s0, [] + [Register(m.threadId)], s1, Push(m));
    Append(s0, [] + [Register(m.threadId)] + [Push(m)], s2, Shutdown);
    Append(s0, [] + [Register(m.threadId)] + [Push(m)] + [Shutdown], s3, TestsLoop);
    actions := [] + [Register(m.threadId)] + [Push(m)] + [Shutdown] + [TestsLoop];
  }

  /** Another: a push after an idle pass over its queue, with shutdown before the next pass. */
  lemma LostAfterIdlePass(m: LogMessage, mmapSize: nat) returns (actions: seq<Action>, s: State)
    requires |m.line| <= MAX_LINE
    ensures Reaches(Start(mmapSize), actions, s) && s.drain.Left? && Lost(s, m) && s.active == [m.threadId]
  {
    var t := m.threadId;
    var s5 := Logger([t], map[t := Channel([], [])], true, AtCheck, [t], true, [], Image([], mmapSize));
    var first := IdlePass(t, mmapSize, s5);
    var s6 := Step(s5, Push(m));
    var s7 := Step(s6, Shutdown);
    s := Step(s7, Checks);
    assert s.channels[t].pushed[0] == m;
    Append(Start(mmapSize), first, s5, Push(m));
    Append(Start(mmapSize), first + [Push(m)], s6, Shutdown);
    Append(Start(mmapSize), first + [Push(m)] + [Shutdown], s7, Checks);
    actions := first + [Push(m)] + [Shutdown] + [Checks];
  }

  lemma IdlePass(t: u32, mmapSize: nat, end: State) returns (actions: seq<Action>)
    requires end == Logger([t], map[t := Channel([], [])], true, AtCheck, [t], true, [], Image([], mmapSize))
    ensures Reaches(Start(mmapSize), actions, end)
  {
    var s0 := Start(mmapSize);
    var s1 := Step(s0, Register(t));
    var s2 := Step(s1, TestsLoop);
    var s3 := Step(s2, Refreshes);
    var s4 := Step(s3, Polls(true));
    assert s4.channels == end.channels && Step(s4, Polls(true)) == end;
    Append(s0, [], s0, Register(t));
    Append(s0, [] + [Register(t)], s1, TestsLoop);
    Append(s0, [] + [Register(t)] + [TestsLoop], s2, Refreshes);
    Append(s0, [] + [Register(t)] + [TestsLoop] + [Refreshes], s3, Polls(true));
    Append(s0, [] + [Register(t)] + [TestsLoop] + [Refreshes] + [Polls(true)], s4, Polls(true));
    actions := [] + [Register(t)] + [TestsLoop] + [Refreshes] + [Polls(true)] + [Polls(true)];
  }

  predicate Lost(s: State, m: LogMessage) {
    m.threadId in s.channels && m in s.channels[m.threadId].pushed && m !in s.written
  }

  lemma {:induction false} Append(s: State, actions: seq<Action>, t: State, a: Action)
    requires Reaches(s, actions, t) && Enabled(t, a)
    ensures Reaches(s, actions + [a], Step(t, a))
    decreases |actions|
  {
    if actions == [] {
      assert actions + [a] == [a] && [a][1..] == [];
    } else {
      assert (actions + [a])[1..] == actions[1..] + [a];
      Append(Step(s, actions[0]), actions[1..], t, a);
    }
  }
}
