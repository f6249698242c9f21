/** The asynchronous logger (logger.c) as interleaved atomic steps.

    Any number of threads call log_printf and log_shutdown while one writer thread runs
    log_thread. A step takes or releases one mutex, or runs the straight-line code
    that one mutex protects. mxRun is used as a signal: a thread that does not own it unlocks it. */
module Logger {
  import opened Wrappers

  type Addr = nat

  /** tLogItem: the message and the link to the next item. */
  datatype Node = Node(msg: string, n: Option<Addr>)

  datatype LogState = Normal | Shutting | Dead

  /** Where a calling thread stands. `last` says that log_shutdown made the call. */
  datatype Caller =
    | Idle
    | Linking(item: Addr, last: bool)        // passed the state check, wants mxChain
    | Chained(item: Addr, last: bool)        // owns mxChain, has not touched the queue
    | Linked(trigger: bool, last: bool)      // appended, still owns mxChain
    | Triggering(last: bool)                 // will unlock mxRun: the queue was empty
    | Marking                                // log_shutdown: will set SHUTTING
    | Signalling                             // log_shutdown: will unlock mxRun

  /** Where the writer thread stands. */
  datatype Writer =
    | Waiting                // blocked on mxRun
    | Looping                // wants mxChain
    | Looking                // owns mxChain, has not looked at the queue
    | Leaving                // found the queue empty, still owns mxChain
    | Deciding               // will read the state
    | Dying                  // read SHUTTING, will set DEAD
    | Taken(item: Addr)      // unlinked the first item, still owns mxChain
    | Writing(item: Addr)    // will write and free it
    | Finished

  datatype Owner = Free | ByWriter | ByCaller(t: nat)

  /** What happened so far; no step reads it. `who` tells which thread logged each accepted message, and
      `checked` is the number of items accepted when the writer last found the queue empty. */
  datatype History = History(queue: seq<Addr>, accepted: seq<string>, who: seq<nat>, consumed: seq<string>, checked: nat)

  datatype State = State(
    nodes: map<Addr, Node>,
    start: Option<Addr>,
    end: Option<Addr>,
    chain: Owner,
    runLocked: bool,
    log: LogState,
    writer: Writer,
    callers: seq<Caller>,
    past: History)

  datatype Event =
    | Call(t: nat, msg: string, last: bool, at: Addr)
    | LockChain(t: nat)
    | Append(t: nat)
    | UnlockChain(t: nat)
    | Trigger(t: nat)
    | Mark(t: nat)
    | Signal(t: nat)
    | WriterLockRun
    | WriterLockChain
    | WriterLook
    | WriterUnlockEmpty
    | WriterDecide
    | WriterDie
    | WriterUnlockTaken
    | WriterWrite

  /** log_init for an asynchronous log: mxRun starts locked. */
  function Init(threads: nat): State {
    State(map[], None, None, Free, true, Normal, Waiting, seq(threads, _ => Idle), History([], [], [], [], 0))
  }

  predicate Enabled(s: State, e: Event) {
    match e
    case Call(t, _, _, at) => t < |s.callers| && s.callers[t].Idle? && at !in s.nodes
    case LockChain(t) => t < |s.callers| && s.callers[t].Linking? && s.chain.Free?
    case Append(t) => t < |s.callers| && s.callers[t].Chained?
    case UnlockChain(t) => t < |s.callers| && s.callers[t].Linked?
    case Trigger(t) => t < |s.callers| && s.callers[t].Triggering?
    case Mark(t) => t < |s.callers| && s.callers[t].Marking?
    case Signal(t) => t < |s.callers| && s.callers[t].Signalling?
    case WriterLockRun => s.writer.Waiting? && !s.runLocked
    case WriterLockChain => s.writer.Looping? && s.chain.Free?
    case WriterLook => s.writer.Looking?
    case WriterUnlockEmpty => s.writer.Leaving?
    case WriterDecide => s.writer.Deciding?
    case WriterDie => s.writer.Dying?
    case WriterUnlockTaken => s.writer.Taken?
    case WriterWrite => s.writer.Writing?
  }

  /** Store to the `n` field of an item. */
  function SetNext(nodes: map<Addr, Node>, a: Option<Addr>, n: Option<Addr>): map<Addr, Node> {
    if a.Some? && a.value in nodes then nodes[a.value := nodes[a.value].(n := n)] else nodes
  }

  function AfterPrintf(last: bool): Caller {
    if last then Marking else Idle
  }

  function Step(s: State, e: Event): State
    requires Enabled(s, e)
  {
    match e
    case Call(t, msg, last, at) =>
      if s.log.Normal? then
        s.(nodes := s.nodes[at := Node(msg, None)], callers := s.callers[t := Linking(at, last)])
      else
        s.(callers := s.callers[t := AfterPrintf(last)])
    case LockChain(t) =>
      s.(chain := ByCaller(t), callers := s.callers[t := Chained(s.callers[t].item, s.callers[t].last)])
    case Append(t) =>
      var item := s.callers[t].item;
      s.(nodes := SetNext(SetNext(s.nodes, s.end, Some(item)), Some(item), None),
         end := Some(item),
         start := if s.start.None? then Some(item) else s.start,
         callers := s.callers[t := Linked(s.start.None?, s.callers[t].last)],
         past := s.past.(queue := s.past.queue + [item],
                         accepted := s.past.accepted + [if item in s.nodes then s.nodes[item].msg else ""],
                         who := s.past.who + [t]))
    case UnlockChain(t) =>
      var c := s.callers[t];
      s.(chain := Free, callers := s.callers[t := if c.trigger then Triggering(c.last) else AfterPrintf(c.last)])
    case Trigger(t) =>
      s.(runLocked := false, callers := s.callers[t := AfterPrintf(s.callers[t].last)])
    case Mark(t) =>
      s.(log := Shutting, callers := s.callers[t := Signalling])
    case Signal(t) =>
      s.(runLocked := false, callers := s.callers[t := Idle])
    case WriterLockRun => s.(runLocked := true, writer := Looping)
    case WriterLockChain => s.(chain := ByWriter, writer := Looking)
    case WriterLook =>
      if s.start.None? then
        s.(writer := Leaving, past := s.past.(checked := |s.past.accepted|))
      else
        var rest := if s.start.value in s.nodes then s.nodes[s.start.value].n else None;
        s.(start := rest, end := if rest.None? then None else s.end, writer := Taken(s.start.value),
           past := s.past.(queue := if s.past.queue == [] then [] else s.past.queue[1..]))
    case WriterUnlockEmpty => s.(chain := Free, writer := Deciding)
    case WriterDecide => s.(writer := if s.log.Shutting? then Dying else Waiting)
    case WriterDie => s.(log := Dead, writer := Finished)
    case WriterUnlockTaken => s.(chain := Free, writer := Writing(s.writer.item))
    case WriterWrite =>
      var item := s.writer.item;
      s.(nodes := s.nodes - {item}, writer := Looping,
         past := s.past.(consumed := s.past.consumed + [if item in s.nodes then s.nodes[item].msg else ""]))
  }

  predicate CanRun(s: State, es: seq<Event>)
    decreases es
  {
    es == [] || (Enabled(s, es[0]) && CanRun(Step(s, es[0]), es[1..]))
  }

  function Run(s: State, es: seq<Event>): State
    requires CanRun(s, es)
    decreases es
  {
    if es == [] then s else Run(Step(s, es[0]), es[1..])
  }

  // ---------------------------------------------------------------- the invariant

  /** The item the writer has unlinked and not yet written. */
  function Hand(w: Writer): seq<Addr> {
    if w.Taken? || w.Writing? then [w.item] else []
  }

  predicate Owns(c: Caller) {
    c.Chained? || c.Linked?
  }

  predicate WriterOwns(w: Writer) {
    w.Looking? || w.Leaving? || w.Taken?
  }

  predicate HoldsItem(c: Caller) {
    c.Linking? || c.Chained?
  }

  /** The pointers spell the queue `q`: first item, last item, each `n` the successor. */
  predicate Spells(nodes: map<Addr, Node>, start: Option<Addr>, end: Option<Addr>, q: seq<Addr>) {
    && (forall i, j :: 0 <= i < j < |q| ==> q[i] != q[j])
    && (forall i :: 0 <= i < |q| ==> q[i] in nodes)
    && (forall i :: 0 <= i < |q| - 1 ==> nodes[q[i]].n == Some(q[i + 1]))
    && (q == [] ==> start.None? && end.None?)
    && (q != [] ==> start == Some(q[0]) && end == Some(q[|q| - 1]) && nodes[q[|q| - 1]].n == None)
  }

  predicate QueueSpelled(s: State) {
    Spells(s.nodes, s.start, s.end, s.past.queue)
  }

  /** Every item is in one place: the queue, the writer's hand, or one caller. */
  predicate Apart(s: State) {
    && (forall t :: 0 <= t < |s.callers| && HoldsItem(s.callers[t]) ==>
          s.callers[t].item in s.nodes && s.callers[t].item !in s.past.queue && s.callers[t].item !in Hand(s.writer))
    && (forall t, u :: 0 <= t < u < |s.callers| && HoldsItem(s.callers[t]) && HoldsItem(s.callers[u]) ==>
          s.callers[t].item != s.callers[u].item)
    && (forall a :: a in Hand(s.writer) ==> a in s.nodes && a !in s.past.queue)
  }

  predicate Exclusive(s: State) {
    && (forall t :: 0 <= t < |s.callers| ==> (Owns(s.callers[t]) <==> s.chain == ByCaller(t)))
    && (WriterOwns(s.writer) <==> s.chain == ByWriter)
    && (s.chain.ByCaller? ==> s.chain.t < |s.callers|)
  }

  function Messages(nodes: map<Addr, Node>, q: seq<Addr>): (r: seq<string>)
    ensures |r| == |q|
  {
    seq(|q|, i requires 0 <= i < |q| => if q[i] in nodes then nodes[q[i]].msg else "")
  }

  predicate Conserved(s: State) {
    s.past.accepted == s.past.consumed + Messages(s.nodes, Hand(s.writer)) + Messages(s.nodes, s.past.queue)
  }

  /** A thread that is on its way to unlock mxRun. */
  predicate WillWake(c: Caller) {
    c.Triggering? || c.Signalling? || (c.Linked? && c.trigger)
  }

  predicate Awake(s: State) {
    !s.runLocked || exists t :: 0 <= t < |s.callers| && WillWake(s.callers[t])
  }

  predicate InLoop(w: Writer) {
    w.Looping? || w.Looking? || w.Taken? || w.Writing?
  }

  predicate NoLostWakeup(s: State) {
    && (s.past.queue != [] && (s.writer.Waiting? || s.writer.Deciding?) ==> Awake(s))
    && (s.log.Shutting? && s.writer.Waiting? ==> Awake(s))
    && (s.writer.Leaving? ==> s.past.queue == [])
  }

  predicate LastLook(s: State) {
    && s.past.checked <= |s.past.accepted|
    && (s.writer.Leaving? || s.writer.Deciding? || s.writer.Dying? || s.writer.Finished? ==>
          s.past.consumed == s.past.accepted[..s.past.checked])
    && (s.log.Dead? ==> s.writer.Finished?)
    && (s.writer.Dying? || s.writer.Finished? ==> !s.log.Normal?)
  }

  predicate Inv(s: State) {
    QueueSpelled(s) && Apart(s) && Exclusive(s) && Conserved(s) && NoLostWakeup(s) && LastLook(s)
  }

  // ---------------------------------------------------------------- every step keeps it

  lemma AppendSpells(nodes: map<Addr, Node>, start: Option<Addr>, end: Option<Addr>, q: seq<Addr>, a: Addr)
    requires Spells(nodes, start, end, q) && a in nodes && a !in q
    ensures Spells(SetNext(SetNext(nodes, end, Some(a)), Some(a), None),
                   if start.None? then Some(a) else start, Some(a), q + [a])
  {
    var nodes', q' := SetNext(SetNext(nodes, end, Some(a)), Some(a), None), q + [a];
    forall i | 0 <= i < |q'| - 1
      ensures nodes'[q'[i]].n == Some(q'[i + 1])
    {
      assert q'[i] == q[i] != a;
    }
  }

  lemma TakeSpells(nodes: map<Addr, Node>, start: Option<Addr>, end: Option<Addr>, q: seq<Addr>)
    requires Spells(nodes, start, end, q) && q != []
    ensures Spells(nodes, nodes[q[0]].n, if nodes[q[0]].n.None? then None else end, q[1..])
  {
    var q' := q[1..];
    assert forall i :: 0 <= i < |q'| ==> q'[i] == q[i + 1];
  }

  lemma SpellsKept(s: State, e: Event)
    requires Inv(s) && Enabled(s, e)
    ensures QueueSpelled(Step(s, e))
  {
    match e
    case Append(t) => AppendSpells(s.nodes, s.start, s.end, s.past.queue, s.callers[t].item);
    case WriterLook =>
      if s.past.queue != [] {
        TakeSpells(s.nodes, s.start, s.end, s.past.queue);
      }
    case Call(t, msg, last, at) =>
    case WriterWrite =>
    case _ =>
      assert Step(s, e).nodes == s.nodes && Step(s, e).past.queue == s.past.queue;
  }

  /** Steps that leave the items and the queue alone. */
  predicate Quiet(e: Event) {
    !e.Call? && !e.Append? && !e.WriterLook? && !e.WriterWrite?
  }

  predicate SameItems(s: State, s': State) {
    && s'.nodes == s.nodes && s'.past.queue == s.past.queue && s'.past.accepted == s.past.accepted
    && s'.past.consumed == s.past.consumed && Hand(s'.writer) == Hand(s.writer) && |s'.callers| == |s.callers|
    && forall u :: 0 <= u < |s.callers| && HoldsItem(s'.callers[u]) ==>
        HoldsItem(s.callers[u]) && s'.callers[u].item == s.callers[u].item
  }

  predicate ByTheWriter(e: Event) {
    || e.WriterLockRun? || e.WriterLockChain? || e.WriterLook? || e.WriterUnlockEmpty?
    || e.WriterDecide? || e.WriterDie? || e.WriterUnlockTaken? || e.WriterWrite?
  }

  lemma QuietWriterStep(s: State, e: Event)
    requires Enabled(s, e) && Quiet(e) && ByTheWriter(e)
    ensures SameItems(s, Step(s, e))
  {
  }

  lemma QuietCallerStep(s: State, e: Event)
    requires Enabled(s, e) && Quiet(e) && !ByTheWriter(e)
    ensures SameItems(s, Step(s, e))
  {
  }

  lemma QuietStep(s: State, e: Event)
    requires Enabled(s, e) && Quiet(e)
    ensures SameItems(s, Step(s, e))
  {
    if ByTheWriter(e) {
      QuietWriterStep(s, e);
    } else {
      QuietCallerStep(s, e);
    }
  }

  lemma ApartCall(s: State, e: Event)
    requires Inv(s) && Enabled(s, e) && e.Call?
    ensures Apart(Step(s, e))
  {
  }

  lemma ApartAppend(s: State, e: Event)
    requires Inv(s) && Enabled(s, e) && e.Append?
    ensures Apart(Step(s, e))
  {
    assert Step(s, e).nodes.Keys == s.nodes.Keys;
  }

  lemma ApartLook(s: State, e: Event)
    requires Inv(s) && Enabled(s, e) && e.WriterLook?
    ensures Apart(Step(s, e))
  {
    if s.past.queue != [] {
      assert s.past.queue == [s.past.queue[0]] + s.past.queue[1..];
    }
  }

  lemma ApartKept(s: State, e: Event)
    requires Inv(s) && Enabled(s, e)
    ensures Apart(Step(s, e))
  {
    if Quiet(e) {
      QuietStep(s, e);
    } else if e.Call? {
      ApartCall(s, e);
    } else if e.Append? {
      ApartAppend(s, e);
    } else if e.WriterLook? {
      ApartLook(s, e);
    }
  }

  lemma ExclusiveKept(s: State, e: Event)
    requires Inv(s) && Enabled(s, e)
    ensures Exclusive(Step(s, e))
  {
  }

  /** The messages on `q` depend only on the messages of its items. */
  lemma SameMessages(nodes: map<Addr, Node>, nodes': map<Addr, Node>, q: seq<Addr>)
    requires forall a :: a in q && a in nodes ==> a in nodes' && nodes'[a].msg == nodes[a].msg
    requires forall a :: a in q ==> a in nodes
    ensures Messages(nodes', q) == Messages(nodes, q)
  {
  }

  lemma ConservedAppend(s: State, e: Event)
    requires Inv(s) && Enabled(s, e) && e.Append?
    ensures Conserved(Step(s, e))
  {
    var s', item := Step(s, e), s.callers[e.t].item;
    SameMessages(s.nodes, s'.nodes, s.past.queue);
    SameMessages(s.nodes, s'.nodes, Hand(s.writer));
    assert Messages(s'.nodes, s'.past.queue) == Messages(s'.nodes, s.past.queue) + [s.nodes[item].msg];
  }

  lemma ConservedLook(s: State, e: Event)
    requires Inv(s) && Enabled(s, e) && e.WriterLook?
    ensures Conserved(Step(s, e))
  {
    var q := s.past.queue;
    if q != [] {
      assert Messages(s.nodes, q) == Messages(s.nodes, [q[0]]) + Messages(s.nodes, q[1..]);
    }
  }

  lemma ConservedWrite(s: State, e: Event)
    requires Inv(s) && Enabled(s, e) && e.WriterWrite?
    ensures Conserved(Step(s, e))
  {
    SameMessages(s.nodes, Step(s, e).nodes, s.past.queue);
    assert Messages(s.nodes, Hand(s.writer)) == [s.nodes[s.writer.item].msg];
  }

  lemma ConservedCall(s: State, e: Event)
    requires Inv(s) && Enabled(s, e) && e.Call?
    ensures Conserved(Step(s, e))
  {
    SameMessages(s.nodes, Step(s, e).nodes, s.past.queue);
    SameMessages(s.nodes, Step(s, e).nodes, Hand(s.writer));
  }

  lemma ConservedKept(s: State, e: Event)
    requires Inv(s) && Enabled(s, e)
    ensures Conserved(Step(s, e))
  {
    if Quiet(e) {
      QuietStep(s, e);
    } else if e.Call? {
      ConservedCall(s, e);
    } else if e.Append? {
      ConservedAppend(s, e);
    } else if e.WriterLook? {
      ConservedLook(s, e);
    } else {
      ConservedWrite(s, e);
    }
  }

  lemma NoLostWakeupKept(s: State, e: Event)
    requires Inv(s) && Enabled(s, e)
    ensures NoLostWakeup(Step(s, e))
  {
    var s' := Step(s, e);
    if s.runLocked && Awake(s) && s'.runLocked {
      var t :| 0 <= t < |s.callers| && WillWake(s.callers[t]);
      assert WillWake(s'.callers[t]);
    }
    match e
    case Append(t) => assert s.past.queue == [] ==> WillWake(s'.callers[t]);
    case Mark(t) => assert WillWake(s'.callers[t]);
    case _ =>
  }

  lemma LastLookKept(s: State, e: Event)
    requires Inv(s) && Enabled(s, e)
    ensures LastLook(Step(s, e))
  {
    if e.WriterLook? && s.start.None? {
      assert Messages(s.nodes, Hand(s.writer)) == [] && Messages(s.nodes, s.past.queue) == [];
    }
  }

  lemma StepKeepsInv(s: State, e: Event)
    requires Inv(s) && Enabled(s, e)
    ensures Inv(Step(s, e))
  {
    SpellsKept(s, e);
    ApartKept(s, e);
    ExclusiveKept(s, e);
    ConservedKept(s, e);
    NoLostWakeupKept(s, e);
    LastLookKept(s, e);
  }

  lemma {:induction false} RunKeepsInv(s: State, es: seq<Event>)
    requires Inv(s) && CanRun(s, es)
    ensures Inv(Run(s, es))
    decreases es
  {
    if es != [] {
      StepKeepsInv(s, es[0]);
      RunKeepsInv(Step(s, es[0]), es[1..]);
    }
  }

  // ---------------------------------------------------------------- results over every run

  /** Some interleaving of some number of threads leads to `s`. */
  ghost predicate Reachable(s: State) {
    exists threads: nat, es: seq<Event> :: CanRun(Init(threads), es) && Run(Init(threads), es) == s
  }

  lemma ReachableInv(s: State)
    requires Reachable(s)
    ensures Inv(s)
  {
    var threads: nat, es: seq<Event> :| CanRun(Init(threads), es) && Run(Init(threads), es) == s;
    RunKeepsInv(Init(threads), es);
  }

  /** Whatever the interleaving, the accepted messages are the consumed ones, the one in the
      writer's hand and the queued ones, in order and once each. The queue is what the
      pointers spell, and its first pointer is NULL exactly when its last one is. */
  lemma Conservation(s: State)
    requires Reachable(s)
    ensures s.past.accepted == s.past.consumed + Messages(s.nodes, Hand(s.writer)) + Messages(s.nodes, s.past.queue)
    ensures QueueSpelled(s)
    ensures s.start.None? <==> s.end.None?
  {
    ReachableInv(s);
  }

  // ---------------------------------------------------------------- what was logged is accepted

  /** The state of the log behind an event. */
  function StateBehind(log: LogState, e: Event): LogState {
    if e.Mark? then Shutting else if e.WriterDie? then Dead else log
  }

  /** The messages that the thread `t` logs while the state is NORMAL, in its order; the events alone tell them. */
  function LoggedBy(log: LogState, es: seq<Event>, t: nat): seq<string>
    decreases es
  {
    if es == [] then []
    else (if es[0].Call? && es[0].t == t && log.Normal? then [es[0].msg] else []) + LoggedBy(StateBehind(log, es[0]), es[1..], t)
  }

  /** How often the message `m` is logged by any thread while the state is NORMAL. */
  function TimesLogged(log: LogState, es: seq<Event>, m: string): nat
    decreases es
  {
    if es == [] then 0
    else (if es[0].Call? && log.Normal? && es[0].msg == m then 1 else 0) + TimesLogged(StateBehind(log, es[0]), es[1..], m)
  }

  /** The messages that the thread `t` logged, of `messages`, which the threads `who` logged. */
  function OfThread(messages: seq<string>, who: seq<nat>, t: nat): seq<string>
    requires |messages| == |who|
  {
    if who == [] then []
    else OfThread(messages[..|who| - 1], who[..|who| - 1], t) + (if who[|who| - 1] == t then [messages[|who| - 1]] else [])
  }

  /** The message that a caller holds on its way into the queue. */
  function MessageOf(nodes: map<Addr, Node>, c: Caller): seq<string> {
    if HoldsItem(c) && c.item in nodes then [nodes[c.item].msg] else []
  }

  function Held(s: State, t: nat): seq<string> {
    if t < |s.callers| then MessageOf(s.nodes, s.callers[t]) else []
  }

  function TimesHeld(nodes: map<Addr, Node>, cs: seq<Caller>, m: string): nat {
    if cs == [] then 0 else Times(MessageOf(nodes, cs[0]), m) + TimesHeld(nodes, cs[1..], m)
  }

  function Times(messages: seq<string>, m: string): nat {
    multiset(messages)[m]
  }

  /** What the thread has brought: accepted, or still in its hands. */
  function Brought(s: State, t: nat): seq<string>
    requires |s.past.accepted| == |s.past.who|
  {
    OfThread(s.past.accepted, s.past.who, t) + Held(s, t)
  }

  lemma OfThreadSnoc(messages: seq<string>, who: seq<nat>, t: nat, msg: string, u: nat)
    requires |messages| == |who|
    ensures OfThread(messages + [msg], who + [u], t) == OfThread(messages, who, t) + if u == t then [msg] else []
  {
    assert (messages + [msg])[..|who|] == messages && (who + [u])[..|who|] == who;
  }

  /** What a caller holds after a step. */
  function HeldBehind(s: State, e: Event, u: nat): seq<string>
    requires u < |s.callers|
  {
    if e.Call? && e.t == u && s.log.Normal? then [e.msg]
    else if e.Append? && e.t == u then []
    else MessageOf(s.nodes, s.callers[u])
  }

  lemma HeldStep(s: State, e: Event, u: nat)
    requires Inv(s) && Enabled(s, e) && u < |s.callers|
    ensures |Step(s, e).callers| == |s.callers| && MessageOf(Step(s, e).nodes, Step(s, e).callers[u]) == HeldBehind(s, e, u)
  {
    if ByTheWriter(e) {
      HeldWriterStep(s, e, u);
    } else if Quiet(e) {
      HeldQuietStep(s, e, u);
    }
  }

  lemma HeldWriterStep(s: State, e: Event, u: nat)
    requires Inv(s) && Enabled(s, e) && u < |s.callers| && ByTheWriter(e)
    ensures Step(s, e).callers == s.callers && MessageOf(Step(s, e).nodes, s.callers[u]) == MessageOf(s.nodes, s.callers[u])
  {
  }

  lemma HeldQuietStep(s: State, e: Event, u: nat)
    requires Inv(s) && Enabled(s, e) && u < |s.callers| && Quiet(e) && !ByTheWriter(e)
    ensures |Step(s, e).callers| == |s.callers|
    ensures MessageOf(Step(s, e).nodes, Step(s, e).callers[u]) == MessageOf(s.nodes, s.callers[u])
  {
  }

  /** What is accepted by a step. */
  lemma AcceptedStep(s: State, e: Event)
    requires Inv(s) && Enabled(s, e)
    ensures var s' := Step(s, e);
      if e.Append? then MessageOf(s.nodes, s.callers[e.t]) == [s.nodes[s.callers[e.t].item].msg]
                        && s'.past.accepted == s.past.accepted + MessageOf(s.nodes, s.callers[e.t]) && s'.past.who == s.past.who + [e.t]
      else s'.past.accepted == s.past.accepted && s'.past.who == s.past.who
  {
  }

  lemma BroughtStep(s: State, e: Event, t: nat)
    requires Inv(s) && Enabled(s, e) && |s.past.accepted| == |s.past.who|
    ensures var s' := Step(s, e);
      |s'.past.accepted| == |s'.past.who| && Brought(s', t) == Brought(s, t) + LoggedBy(s.log, [e], t)
  {
    assert [e][1..] == [];
    AcceptedStep(s, e);
    if t < |s.callers| {
      HeldStep(s, e, t);
    } else if !ByTheWriter(e) {
      HeldStep(s, e, e.t);
    }
    if e.Append? {
      OfThreadSnoc(s.past.accepted, s.past.who, t, s.nodes[s.callers[e.t].item].msg, e.t);
    }
  }

  /** What is logged by the first event, and behind it. */
  lemma LoggedByFirst(log: LogState, es: seq<Event>, t: nat)
    requires es != []
    ensures LoggedBy(log, es, t) == LoggedBy(log, [es[0]], t) + LoggedBy(StateBehind(log, es[0]), es[1..], t)
  {
    assert [es[0]][1..] == [];
    assert LoggedBy(StateBehind(log, es[0]), [], t) == [];
  }

  lemma {:induction false} BroughtRun(s: State, es: seq<Event>, t: nat)
    requires Inv(s) && CanRun(s, es) && |s.past.accepted| == |s.past.who|
    ensures var s' := Run(s, es);
      |s'.past.accepted| == |s'.past.who| && Brought(s', t) == Brought(s, t) + LoggedBy(s.log, es, t)
    decreases es
  {
    if es == [] {
      assert LoggedBy(s.log, es, t) == [];
    } else {
      var s1 := Step(s, es[0]);
      StepKeepsInv(s, es[0]);
      LogStep(s, es[0]);
      BroughtStep(s, es[0], t);
      BroughtRun(s1, es[1..], t);
      LoggedByFirst(s.log, es, t);
      Joined(Brought(s, t), LoggedBy(s.log, [es[0]], t), LoggedBy(s1.log, es[1..], t));
    }
  }

  lemma Joined(a: seq<string>, b: seq<string>, c: seq<string>)
    ensures (a + b) + c == a + (b + c)
  {
  }

  /** In every reachable state what a thread logged in state NORMAL is, in its order, what was accepted from it,
      and behind that the message that it still holds. */
  lemma ThreadsAreHeard(threads: nat, es: seq<Event>, t: nat)
    requires CanRun(Init(threads), es)
    ensures var s := Run(Init(threads), es);
      |s.past.accepted| == |s.past.who| && OfThread(s.past.accepted, s.past.who, t) + Held(s, t) == LoggedBy(Normal, es, t)
  {
    var s0 := Init(threads);
    InitBrings(threads, t);
    BroughtRun(s0, es, t);
    assert Brought(s0, t) + LoggedBy(Normal, es, t) == LoggedBy(Normal, es, t);
  }

  lemma InitBrings(threads: nat, t: nat)
    ensures Inv(Init(threads)) && |Init(threads).past.accepted| == |Init(threads).past.who| && Brought(Init(threads), t) == []
  {
  }

  /** One caller holds something else, the others what they held. */
  lemma {:induction false} TimesHeldUpdate(nodes: map<Addr, Node>, cs: seq<Caller>, nodes': map<Addr, Node>, cs': seq<Caller>, t: nat, m: string)
    requires |cs| == |cs'| && forall u :: 0 <= u < |cs| && u != t ==> MessageOf(nodes', cs'[u]) == MessageOf(nodes, cs[u])
    ensures TimesHeld(nodes', cs', m) - TimesHeld(nodes, cs, m) ==
              if t < |cs| then Times(MessageOf(nodes', cs'[t]), m) - Times(MessageOf(nodes, cs[t]), m) else 0
    decreases |cs|
  {
    if cs != [] {
      TimesHeldUpdate(nodes, cs[1..], nodes', cs'[1..], if t > 0 then t - 1 else |cs|, m);
    }
  }

  lemma AllBroughtStep(s: State, e: Event, m: string)
    requires Inv(s) && Enabled(s, e)
    ensures var s' := Step(s, e);
      Times(s'.past.accepted, m) + TimesHeld(s'.nodes, s'.callers, m)
      == Times(s.past.accepted, m) + TimesHeld(s.nodes, s.callers, m) + TimesLogged(s.log, [e], m)
  {
    var s' := Step(s, e);
    assert [e][1..] == [];
    AcceptedStep(s, e);
    var t := if ByTheWriter(e) then |s.callers| else e.t;
    SameCallers(s, e);
    forall u | 0 <= u < |s.callers| && u != t ensures MessageOf(s'.nodes, s'.callers[u]) == MessageOf(s.nodes, s.callers[u]) {
      HeldStep(s, e, u);
    }
    TimesHeldUpdate(s.nodes, s.callers, s'.nodes, s'.callers, t, m);
    if t < |s.callers| {
      HeldStep(s, e, t);
    }
  }

  lemma SameCallers(s: State, e: Event)
    requires Enabled(s, e)
    ensures |Step(s, e).callers| == |s.callers|
  {
  }

  lemma {:induction false} AllBroughtRun(s: State, es: seq<Event>, m: string)
    requires Inv(s) && CanRun(s, es)
    ensures var s' := Run(s, es);
      Times(s'.past.accepted, m) + TimesHeld(s'.nodes, s'.callers, m)
      == Times(s.past.accepted, m) + TimesHeld(s.nodes, s.callers, m) + TimesLogged(s.log, es, m)
    decreases es
  {
    if es != [] {
      StepKeepsInv(s, es[0]);
      LogStep(s, es[0]);
      AllBroughtStep(s, es[0], m);
      AllBroughtRun(Step(s, es[0]), es[1..], m);
      assert [es[0]][1..] == [];
    }
  }

  lemma LogStep(s: State, e: Event)
    requires Enabled(s, e)
    ensures Step(s, e).log == StateBehind(s.log, e)
  {
  }

  lemma {:induction false} NothingHeld(nodes: map<Addr, Node>, cs: seq<Caller>, m: string)
    requires forall t :: 0 <= t < |cs| ==> !HoldsItem(cs[t])
    ensures TimesHeld(nodes, cs, m) == 0
  {
    if cs != [] {
      NothingHeld(nodes, cs[1..], m);
    }
  }

  /** In every reachable state each message was logged in state NORMAL as often as it was accepted or is still
      held by a thread. */
  lemma EverythingIsHeard(threads: nat, es: seq<Event>, m: string)
    requires CanRun(Init(threads), es)
    ensures var s := Run(Init(threads), es);
      Times(s.past.accepted, m) + TimesHeld(s.nodes, s.callers, m) == TimesLogged(Normal, es, m)
  {
    AllBroughtRun(Init(threads), es, m);
    NothingHeld(map[], Init(threads).callers, m);
  }

  /** A nonempty queue never waits for a writer that nobody will wake: the writer is inside its inner
      loop, or mxRun is free, or some thread is on its way to unlock it. */
  lemma WriterIsWoken(s: State)
    requires Reachable(s) && s.past.queue != [] && !s.writer.Dying? && !s.writer.Finished?
    ensures InLoop(s.writer) || Awake(s)
  {
    ReachableInv(s);
  }

  /** Only one thread at a time is between the lock and the unlock of mxChain. */
  lemma ChainIsExclusive(s: State, t: nat, u: nat)
    requires Reachable(s) && t < |s.callers| && u < |s.callers| && Owns(s.callers[t])
    ensures !WriterOwns(s.writer) && (Owns(s.callers[u]) ==> t == u)
  {
    ReachableInv(s);
  }

  /** Once the state is not NORMAL and no caller is past its state check, nothing is ever accepted again. */
  predicate Closed(s: State) {
    !s.log.Normal? && forall t :: 0 <= t < |s.callers| ==> !HoldsItem(s.callers[t])
  }

  lemma {:induction false} ClosedStaysClosed(s: State, es: seq<Event>)
    requires Inv(s) && Closed(s) && CanRun(s, es)
    ensures Closed(Run(s, es)) && Run(s, es).past.accepted == s.past.accepted
    decreases es
  {
    if es != [] {
      StepKeepsInv(s, es[0]);
      assert !es[0].Append?;
      assert Closed(Step(s, es[0]));
      ClosedStaysClosed(Step(s, es[0]), es[1..]);
    }
  }

  /** What the writer of `s'` has written begins with everything that was accepted in `s`. */
  predicate AllWritten(s: State, s': State) {
    |s.past.accepted| <= |s'.past.consumed| && s'.past.consumed[..|s.past.accepted|] == s.past.accepted
  }

  /** The first messages accepted are `waiting`, and a writer that leaves its inner loop has written them. */
  predicate Covers(s: State, waiting: seq<string>) {
    && |waiting| <= |s.past.accepted| && s.past.accepted[..|waiting|] == waiting
    && (s.writer.Leaving? || s.writer.Deciding? || s.writer.Dying? || s.writer.Finished? ==> |waiting| <= s.past.checked)
  }

  lemma {:induction false} RunCovers(s: State, es: seq<Event>, waiting: seq<string>)
    requires Inv(s) && Covers(s, waiting) && CanRun(s, es)
    ensures Inv(Run(s, es)) && Covers(Run(s, es), waiting)
    decreases es
  {
    if es != [] {
      StepKeepsInv(s, es[0]);
      RunCovers(Step(s, es[0]), es[1..], waiting);
    }
  }

  /** The writer has left its inner loop, and the queue is no longer empty as it was then. */
  predicate OverlookedAt(s: State) {
    s.writer.Deciding? && s.past.queue != []
  }

  /** Where the writer left its inner loop and nothing waits, all that was accepted is written. */
  lemma MarkCovers(s: State, t: nat)
    requires Inv(s) && s.log.Normal? && Enabled(s, Mark(t)) && !OverlookedAt(s)
    ensures Inv(Step(s, Mark(t))) && Covers(Step(s, Mark(t)), s.past.accepted)
  {
    StepKeepsInv(s, Mark(t));
    if s.writer.Leaving? || s.writer.Deciding? {
      assert Messages(s.nodes, Hand(s.writer)) == [] && Messages(s.nodes, s.past.queue) == [];
    }
  }

  /** Otherwise the writer can end at once and leave the queue as it is. */
  lemma OverlookedIsLost(s: State, t: nat) returns (es: seq<Event>)
    requires Inv(s) && s.log.Normal? && Enabled(s, Mark(t)) && OverlookedAt(s)
    ensures CanRun(Step(s, Mark(t)), es)
    ensures Run(Step(s, Mark(t)), es).writer.Finished? && !AllWritten(s, Run(Step(s, Mark(t)), es))
  {
    var s1 := Step(s, Mark(t));
    var s2 := Step(s1, WriterDecide);
    es := [WriterDecide, WriterDie];
    assert es[0] == WriterDecide && es[1..] == [WriterDie];
    assert Run(s2, [WriterDie]) == Step(s2, WriterDie) && CanRun(s2, [WriterDie]);
    assert Run(s1, es) == Step(s2, WriterDie) && CanRun(s1, es);
    assert Step(s2, WriterDie).past == s.past;
    assert Messages(s.nodes, Hand(s.writer)) == [];
    assert |s.past.accepted| == |s.past.consumed| + |s.past.queue|;
  }

  /** The documentation says that a shutdown writes all waiting messages. At the moment when log_shutdown sets
      SHUTTING this holds of every continuation if and only if the writer does not stand between its inner
      loop and its look at the state while something is in the queue. */
  lemma WhatShutdownWrites(s: State, t: nat)
    requires Reachable(s) && s.log.Normal? && Enabled(s, Mark(t))
    ensures !OverlookedAt(s) <==>
      forall es :: CanRun(Step(s, Mark(t)), es) && Run(Step(s, Mark(t)), es).writer.Finished? ==>
        AllWritten(s, Run(Step(s, Mark(t)), es))
  {
    ReachableInv(s);
    var s1 := Step(s, Mark(t));
    if OverlookedAt(s) {
      var es := OverlookedIsLost(s, t);
      assert CanRun(s1, es) && !AllWritten(s, Run(s1, es));
    } else {
      MarkCovers(s, t);
      forall es | CanRun(s1, es) && Run(s1, es).writer.Finished?
        ensures AllWritten(s, Run(s1, es))
      {
        RunCovers(s1, es, s.past.accepted);
      }
    }
  }

  /** When the writer has finished, everything that was ever accepted is written if and only if the queue is
      empty; otherwise the last messages are missing, those still in the queue. */
  lemma WhatIsLeft(s: State)
    requires Reachable(s) && s.writer.Finished?
    ensures s.past.accepted == s.past.consumed + Messages(s.nodes, s.past.queue)
    ensures s.past.consumed == s.past.accepted <==> s.start.None?
  {
    ReachableInv(s);
    assert Messages(s.nodes, Hand(s.writer)) == [];
  }

  /** One more event at the end of a run. */
  lemma {:induction false} RunSnoc(s: State, es: seq<Event>, e: Event)
    requires CanRun(s, es) && Enabled(Run(s, es), e)
    ensures CanRun(s, es + [e]) && Run(s, es + [e]) == Step(Run(s, es), e)
    decreases es
  {
    if es == [] {
      assert [e][1..] == [];
    } else {
      RunSnoc(Step(s, es[0]), es[1..], e);
      assert (es + [e])[1..] == es[1..] + [e];
    }
  }

  lemma Extend(s0: State, es: seq<Event>, s: State, e: Event) returns (es': seq<Event>, s': State)
    requires CanRun(s0, es) && Run(s0, es) == s && Enabled(s, e)
    ensures CanRun(s0, es') && Run(s0, es') == s' && s' == Step(s, e)
  {
    RunSnoc(s0, es, e);
    es', s' := es + [e], Step(s, e);
  }

  /** One thread logs one message. */
  lemma LogOne(first: string) returns (es: seq<Event>)
    ensures CanRun(Init(1), es)
    ensures Run(Init(1), es) ==
      State(map[0 := Node(first, None)], Some(0), Some(0), Free, false, Normal, Waiting, [Idle], History([0], [first], [0], [], 0))
  {
    var s0 := Init(1);
    var s;
    es, s := Extend(s0, [], s0, Call(0, first, false, 0));
    es, s := Extend(s0, es, s, LockChain(0));
    es, s := Extend(s0, es, s, Append(0));
    es, s := Extend(s0, es, s, UnlockChain(0));
    es, s := Extend(s0, es, s, Trigger(0));
  }

  /** The writer writes it, and then finds the queue empty. */
  lemma WriteOne(first: string) returns (es: seq<Event>)
    ensures CanRun(Init(1), es)
    ensures Run(Init(1), es) == State(map[], None, None, Free, true, Normal, Deciding, [Idle], History([], [first], [0], [first], 1))
  {
    var s0 := Init(1);
    es := LogOne(first);
    var s := Run(s0, es);
    es, s := Extend(s0, es, s, WriterLockRun);
    es, s := Extend(s0, es, s, WriterLockChain);
    es, s := Extend(s0, es, s, WriterLook);
    es, s := Extend(s0, es, s, WriterUnlockTaken);
    es, s := Extend(s0, es, s, WriterWrite);
    assert s.nodes == map[];
    es, s := Extend(s0, es, s, WriterLockChain);
    es, s := Extend(s0, es, s, WriterLook);
    es, s := Extend(s0, es, s, WriterUnlockEmpty);
  }

  /** Then the thread shuts the log down, and its message is queued before the writer reads the state. */
  lemma LogLast(first: string, last: string) returns (es: seq<Event>)
    ensures CanRun(Init(1), es)
    ensures Run(Init(1), es) ==
      State(map[1 := Node(last, None)], Some(1), Some(1), Free, false, Normal, Deciding, [Marking], History([1], [first, last], [0, 0], [first], 1))
  {
    var s0 := Init(1);
    es := WriteOne(first);
    var s := Run(s0, es);
    es, s := Extend(s0, es, s, Call(0, last, true, 1));
    es, s := Extend(s0, es, s, LockChain(0));
    es, s := Extend(s0, es, s, Append(0));
    es, s := Extend(s0, es, s, UnlockChain(0));
    es, s := Extend(s0, es, s, Trigger(0));
  }

  /** The documentation says that a shutdown writes all waiting messages. One thread and the writer can
      end with the shutdown message accepted, every call returned, the writer finished, and the
      message still in the queue: the writer finds the queue empty, the thread appends and sets
      SHUTTING, and only then does the writer read the state. */
  lemma ShutdownCanLoseMessages(first: string, last: string)
    ensures exists s :: Reachable(s) && s.writer.Finished? && s.callers == [Idle]
                        && s.past.accepted == [first, last] && s.past.consumed == [first]
  {
    var s0 := Init(1);
    var es := LogLast(first, last);
    var s := Run(s0, es);
    es, s := Extend(s0, es, s, Mark(0));
    es, s := Extend(s0, es, s, Signal(0));
    es, s := Extend(s0, es, s, WriterDecide);
    es, s := Extend(s0, es, s, WriterDie);
    assert Reachable(s);
  }

  // ---------------------------------------------------------------- every burst of work ends

  function CallerWork(c: Caller): nat {
    match c
    case Idle => 0
    case Signalling => 7
    case Marking => 8
    case Triggering(last) => 7 + (if last then 8 else 0)
    case Linked(trigger, last) => 1 + (if trigger then 7 else 0) + (if last then 8 else 0)
    case Chained(_, last) => 13 + (if last then 8 else 0)
    case Linking(_, last) => 14 + (if last then 8 else 0)
  }

  function WriterWork(w: Writer): nat {
    match w
    case Waiting => 0
    case Finished => 0
    case Dying => 1
    case Deciding => 2
    case Leaving => 3
    case Looking => 4
    case Looping => 5
    case Writing(_) => 6
    case Taken(_) => 7
  }

  function CallersWork(cs: seq<Caller>): nat {
    if cs == [] then 0 else CallerWork(cs[0]) + CallersWork(cs[1..])
  }

  /** Steps still to come if nobody calls the logger again; an upper bound. */
  function Work(s: State): nat {
    CallersWork(s.callers) + 4 * |s.past.queue| + WriterWork(s.writer) + (if s.runLocked then 0 else 6)
  }

  lemma {:induction false} CallersWorkUpdate(cs: seq<Caller>, t: nat, c: Caller)
    requires t < |cs|
    ensures CallersWork(cs[t := c]) == CallersWork(cs) - CallerWork(cs[t]) + CallerWork(c)
  {
    if t > 0 {
      CallersWorkUpdate(cs[1..], t - 1, c);
      assert cs[t := c][1..] == cs[1..][t - 1 := c];
    } else {
      assert cs[t := c][1..] == cs[1..];
    }
  }

  lemma CallerStepLessensWork(s: State, e: Event)
    requires Inv(s) && Enabled(s, e) && !e.Call? && !ByTheWriter(e)
    ensures Work(Step(s, e)) < Work(s)
  {
    CallersWorkUpdate(s.callers, e.t, Step(s, e).callers[e.t]);
  }

  lemma WriterStepLessensWork(s: State, e: Event)
    requires Inv(s) && Enabled(s, e) && ByTheWriter(e)
    ensures Work(Step(s, e)) < Work(s)
  {
  }

  /** Without new calls, no interleaving is longer than `Work` of its first state. */
  lemma {:induction false} BurstsEnd(s: State, es: seq<Event>)
    requires Inv(s) && CanRun(s, es) && forall e :: e in es ==> !e.Call?
    ensures |es| + Work(Run(s, es)) <= Work(s)
    decreases es
  {
    if es != [] {
      StepKeepsInv(s, es[0]);
      if ByTheWriter(es[0]) {
        WriterStepLessensWork(s, es[0]);
      } else {
        CallerStepLessensWork(s, es[0]);
      }
      BurstsEnd(Step(s, es[0]), es[1..]);
    }
  }

  /** No thread can move unless somebody calls the logger. */
  ghost predicate Still(s: State) {
    forall e: Event :: !e.Call? ==> !Enabled(s, e)
  }

  lemma StillIsUnlocked(s: State)
    requires Inv(s) && Still(s)
    ensures s.chain.Free?
  {
    assert !Enabled(s, WriterLook) && !Enabled(s, WriterUnlockEmpty) && !Enabled(s, WriterUnlockTaken);
    forall t | 0 <= t < |s.callers|
      ensures !Owns(s.callers[t])
    {
      assert !Enabled(s, Append(t)) && !Enabled(s, UnlockChain(t));
    }
  }

  lemma StillIsSettled(s: State)
    requires Inv(s) && Still(s)
    ensures Settled(s)
  {
    StillIsUnlocked(s);
    forall t | 0 <= t < |s.callers|
      ensures s.callers[t].Idle?
    {
      assert !Enabled(s, LockChain(t)) && !Enabled(s, Trigger(t)) && !Enabled(s, Mark(t)) && !Enabled(s, Signal(t));
    }
    assert !Enabled(s, WriterLockRun) && !Enabled(s, WriterLockChain) && !Enabled(s, WriterDecide)
        && !Enabled(s, WriterDie) && !Enabled(s, WriterWrite);
    if s.writer.Waiting? {
      assert !Awake(s) && s.past.queue == [];
      assert Messages(s.nodes, []) == [];
    }
  }

  /** Every call has returned, and the writer either has finished or sleeps in state NORMAL with
      everything accepted already consumed. */
  predicate Settled(s: State) {
    && (forall t :: 0 <= t < |s.callers| ==> s.callers[t].Idle?)
    && (s.writer.Finished? || (s.writer.Waiting? && s.runLocked && s.log.Normal? && s.past.consumed == s.past.accepted))
  }

  /** There is no deadlock: when nothing can move, everything is settled. */
  lemma StillMeansSettled(s: State)
    requires Reachable(s) && Still(s)
    ensures Settled(s)
  {
    ReachableInv(s);
    StillIsSettled(s);
  }

  /** When nothing can move and the state is NORMAL, exactly the messages that were logged have been written, those
      of each thread in its order. */
  lemma StillHasWritten(threads: nat, es: seq<Event>, t: nat, m: string)
    requires CanRun(Init(threads), es) && Still(Run(Init(threads), es)) && Run(Init(threads), es).log.Normal?
    ensures var s := Run(Init(threads), es);
      && Times(s.past.consumed, m) == TimesLogged(Normal, es, m)
      && |s.past.consumed| == |s.past.who| && OfThread(s.past.consumed, s.past.who, t) == LoggedBy(Normal, es, t)
  {
    var s := Run(Init(threads), es);
    assert Reachable(s);
    ReachableInv(s);
    StillIsSettled(s);
    EverythingIsHeard(threads, es, m);
    NothingHeld(s.nodes, s.callers, m);
    ThreadsAreHeard(threads, es, t);
  }
}
