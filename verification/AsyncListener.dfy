/**
  A listener that hands received items to a worker thread over a ring buffer. Every step between two
  lock operations is atomic; a run is any interleaving of the steps of the receivers, of the threads that
  set and remove the listener, of the destructor, and of the worker.
 */
module AsyncListener {
  import opened Bytes
  import opened CircularQueue

  /** Where the worker is. It keeps the buffer lock from taking an item until that item is dealt with. */
  datatype Worker<T> = LoopTop | Waiting | Awake | Taking | Holding(item: T) | Finished

  /** What happened to items, in the order it happened. */
  datatype Entry<T> = Accepted(item: T) | Dropped(item: T) | Taken(item: T)

  datatype State<T, L> = State(
    queue: seq<T>, capacity: nat, listener: Option<L>, stopFlag: bool, worker: Worker<T>,
    log: seq<Entry<T>>, handed: seq<(T, Option<L>)>)

  datatype Event<T, L> =
    | Receive(item: T)
    | SetListener(listener: Option<L>)
    | RemoveListener
    | Stop
    | CheckStop
    | WakeUp
    | CheckAgain
    | Take
    | Forward

  function Initial<T, L>(capacity: nat): State<T, L> {
    State([], capacity, None, false, LoopTop, [], [])
  }

  /** One atomic step; a step that is blocked, or not where its thread is, leaves the state alone. */
  function Step<T, L>(s: State<T, L>, e: Event<T, L>): State<T, L> {
    match e
    case Receive(x) =>
      if s.worker.Holding? then s
      else if |s.queue| == s.capacity then s.(log := s.log + [Dropped(x)])
      else s.(queue := s.queue + [x], log := s.log + [Accepted(x)])
    case SetListener(l) => if l.None? then s else s.(listener := l)
    case RemoveListener => s.(listener := None)
    case Stop => s.(stopFlag := true)
    case CheckStop =>
      if s.worker.LoopTop? then s.(worker := if s.stopFlag then Finished else Waiting) else s
    case WakeUp =>
      if s.worker.Waiting? && (s.stopFlag || s.queue != []) then s.(worker := Awake) else s
    case CheckAgain =>
      if s.worker.Awake? then s.(worker := if s.stopFlag then Finished else Taking) else s
    case Take =>
      if !s.worker.Taking? then s
      else if s.queue == [] then s.(worker := LoopTop)
      else s.(queue := s.queue[1..], worker := Holding(s.queue[0]), log := s.log + [Taken(s.queue[0])])
    case Forward =>
      if !s.worker.Holding? then s
      else s.(worker := LoopTop, handed := s.handed + [(s.worker.item, s.listener)])
  }

  function Run<T, L>(s: State<T, L>, events: seq<Event<T, L>>): State<T, L> {
    if events == [] then s else Step(Run(s, events[..|events| - 1]), events[|events| - 1])
  }

  // ---------- what the log says ----------

  function Accepts<T>(log: seq<Entry<T>>): seq<T> {
    if log == [] then []
    else
      var before, last := Accepts(log[..|log| - 1]), log[|log| - 1];
      if last.Accepted? then before + [last.item] else before
  }

  function Takes<T>(log: seq<Entry<T>>): seq<T> {
    if log == [] then []
    else
      var before, last := Takes(log[..|log| - 1]), log[|log| - 1];
      if last.Taken? then before + [last.item] else before
  }

  /** An item is dropped only when as many accepted items as the ring holds are still to be taken. */
  ghost predicate DropsOnlyWhenFull<T>(log: seq<Entry<T>>, capacity: nat) {
    forall k :: 0 <= k < |log| && log[k].Dropped? ==>
      |Accepts(log[..k])| == |Takes(log[..k])| + capacity
  }

  ghost predicate Inv<T, L>(s: State<T, L>) {
    && |s.queue| <= s.capacity
    // First in, first out: what was accepted is what was taken, and then what is in the ring.
    && Accepts(s.log) == Takes(s.log) + s.queue
    && DropsOnlyWhenFull(s.log, s.capacity)
    // Each taken item is handed over once, in order; the one being held is the last one taken.
    && Takes(s.log) == Items(s.handed) + (if s.worker.Holding? then [s.worker.item] else [])
    && (s.worker.Awake? ==> s.stopFlag || s.queue != [])
    && (s.worker.Taking? ==> s.queue != [])
  }

  function Items<T, L>(handed: seq<(T, Option<L>)>): seq<T> {
    if handed == [] then [] else Items(handed[..|handed| - 1]) + [handed[|handed| - 1].0]
  }

  lemma LogGrows<T>(log: seq<Entry<T>>, e: Entry<T>, capacity: nat)
    ensures Accepts(log + [e]) == Accepts(log) + (if e.Accepted? then [e.item] else [])
    ensures Takes(log + [e]) == Takes(log) + (if e.Taken? then [e.item] else [])
    ensures DropsOnlyWhenFull(log, capacity) && (e.Dropped? ==> |Accepts(log)| == |Takes(log)| + capacity)
            ==> DropsOnlyWhenFull(log + [e], capacity)
  {
    var all := log + [e];
    assert all[..|all| - 1] == log;
    assert forall k :: 0 <= k <= |log| ==> all[..k] == log[..k];
  }

  lemma HandedGrows<T, L>(handed: seq<(T, Option<L>)>, h: (T, Option<L>))
    ensures Items(handed + [h]) == Items(handed) + [h.0]
  {
    assert (handed + [h])[..|handed|] == handed;
  }

  lemma ReceiveKeepsInv<T, L>(s: State<T, L>, x: T)
    requires Inv(s)
    ensures Inv(Step(s, Receive(x)))
  {
    LogGrows(s.log, Dropped(x), s.capacity);
    LogGrows(s.log, Accepted(x), s.capacity);
    assert Takes(s.log) + (s.queue + [x]) == Takes(s.log) + s.queue + [x];
  }

  lemma TakeKeepsInv<T, L>(s: State<T, L>)
    requires Inv(s)
    ensures Inv(Step(s, Take))
  {
    if s.worker.Taking? {
      var x, rest := s.queue[0], s.queue[1..];
      LogGrows(s.log, Taken(x), s.capacity);
      assert Takes(s.log) + s.queue == Takes(s.log) + [x] + rest;
    }
  }

  lemma ForwardKeepsInv<T, L>(s: State<T, L>)
    requires Inv(s)
    ensures Inv(Step(s, Forward))
  {
    if s.worker.Holding? {
      HandedGrows(s.handed, (s.worker.item, s.listener));
    }
  }

  lemma StepKeepsInv<T, L>(s: State<T, L>, e: Event<T, L>)
    requires Inv(s)
    ensures Inv(Step(s, e))
  {
    match e
    case Receive(x) => ReceiveKeepsInv(s, x);
    case Take => TakeKeepsInv(s);
    case Forward => ForwardKeepsInv(s);
    case _ =>
  }

  /** Every state of every run. */
  lemma {:induction false} RunKeepsInv<T, L>(capacity: nat, events: seq<Event<T, L>>)
    ensures Inv(Run(Initial<T, L>(capacity), events))
  {
    if events != [] {
      var init := events[..|events| - 1];
      RunKeepsInv(capacity, init);
      StepKeepsInv(Run(Initial<T, L>(capacity), init), events[|events| - 1]);
    }
  }

  // ---------- the received items as a merge ----------

  function Received<T>(log: seq<Entry<T>>): seq<T> {
    if log == [] then []
    else
      var before, last := Received(log[..|log| - 1]), log[|log| - 1];
      if last.Taken? then before else before + [last.item]
  }

  function Drops<T>(log: seq<Entry<T>>): seq<T> {
    if log == [] then []
    else
      var before, last := Drops(log[..|log| - 1]), log[|log| - 1];
      if last.Dropped? then before + [last.item] else before
  }

  /** zs is xs and ys shuffled, each in its own order. */
  ghost predicate Merge<T>(xs: seq<T>, ys: seq<T>, zs: seq<T>)
    decreases |zs|
  {
    if zs == [] then xs == [] && ys == []
    else
      var z, front := zs[|zs| - 1], zs[..|zs| - 1];
      || (xs != [] && xs[|xs| - 1] == z && Merge(xs[..|xs| - 1], ys, front))
      || (ys != [] && ys[|ys| - 1] == z && Merge(xs, ys[..|ys| - 1], front))
  }

  lemma {:induction false} LogIsMerge<T>(log: seq<Entry<T>>)
    ensures Merge(Drops(log), Accepts(log), Received(log))
  {
    if log != [] {
      var init, last := log[..|log| - 1], log[|log| - 1];
      LogIsMerge(init);
      if !last.Taken? {
        var zs := Received(init) + [last.item];
        assert zs[..|zs| - 1] == Received(init);
        if last.Dropped? {
          var xs := Drops(init) + [last.item];
          assert xs[..|xs| - 1] == Drops(init);
        } else {
          var ys := Accepts(init) + [last.item];
          assert ys[..|ys| - 1] == Accepts(init);
        }
      }
    }
  }

  /**
    In every run the received items are a merge of those dropped, each while the ring was full, and of
    those that the worker has handed over, holds, or will find in the ring, in this order.
   */
  lemma ReceivedIsMerge<T, L>(capacity: nat, events: seq<Event<T, L>>)
    ensures var s := Run(Initial<T, L>(capacity), events);
            var held := if s.worker.Holding? then [s.worker.item] else [];
            && Merge(Drops(s.log), Items(s.handed) + held + s.queue, Received(s.log))
            && DropsOnlyWhenFull(s.log, s.capacity) && s.capacity == capacity
  {
    var s := Run(Initial<T, L>(capacity), events);
    RunKeepsInv(capacity, events);
    LogIsMerge(s.log);
    CapacityIsFixed(capacity, events);
  }

  lemma {:induction false} CapacityIsFixed<T, L>(capacity: nat, events: seq<Event<T, L>>)
    ensures Run(Initial<T, L>(capacity), events).capacity == capacity
  {
    if events != [] {
      CapacityIsFixed(capacity, events[..|events| - 1]);
    }
  }

  // ---------- stopping, and taking the listener away ----------

  /** Items the worker may still hand over once it has been told to stop: the one it is about. */
  function StillToCome<T, L>(s: State<T, L>): nat {
    if s.worker.Taking? || s.worker.Holding? then 1 else 0
  }

  /** After the stop flag is set at most one more item is handed over, whatever arrives. */
  lemma {:induction false} AtMostOneAfterStop<T, L>(s: State<T, L>, events: seq<Event<T, L>>)
    requires s.stopFlag
    ensures var t := Run(s, events);
            t.stopFlag && |t.handed| + StillToCome(t) <= |s.handed| + StillToCome(s) <= |s.handed| + 1
  {
    if events != [] {
      AtMostOneAfterStop(s, events[..|events| - 1]);
    }
  }

  /** With no listener set and none being set, everything taken is let go. */
  lemma {:induction false} NothingForwardedWithoutListener<T, L>(s: State<T, L>, events: seq<Event<T, L>>)
    requires s.listener == None && forall e :: e in events ==> !e.SetListener?
    ensures var t := Run(s, events);
            && t.listener == None && |s.handed| <= |t.handed| && t.handed[..|s.handed|] == s.handed
            && forall k :: |s.handed| <= k < |t.handed| ==> t.handed[k].1 == None
  {
    if events != [] {
      var init := events[..|events| - 1];
      assert forall e :: e in init ==> e in events;
      NothingForwardedWithoutListener(s, init);
      assert events[|events| - 1] in events;
    }
  }

  /** In every run an item that arrives while no item is held is received: into the ring if there is room. */
  lemma ArrivalIsReceived<T, L>(capacity: nat, events: seq<Event<T, L>>, x: T)
    requires !Run(Initial<T, L>(capacity), events).worker.Holding?
    ensures var s, t := Run(Initial<T, L>(capacity), events), Run(Initial<T, L>(capacity), events + [Receive(x)]);
      && Received(t.log) == Received(s.log) + [x]
      && t.queue == s.queue + (if |s.queue| < capacity then [x] else []) && t.worker == s.worker
  {
    var s := Run(Initial<T, L>(capacity), events);
    RunOne(Initial<T, L>(capacity), events, Receive(x));
    RunKeepsInv(capacity, events);
    CapacityIsFixed(capacity, events);
    var accepted, dropped := s.log + [Accepted(x)], s.log + [Dropped(x)];
    assert accepted[..|s.log|] == s.log && dropped[..|s.log|] == s.log;
  }

  // ---------- who gets what is forwarded ----------

  /** The listener set last and not removed since, as the events alone tell it; setting null is nothing. */
  function LastSet<T, L>(events: seq<Event<T, L>>): Option<L> {
    if events == [] then None
    else
      match events[|events| - 1]
      case SetListener(Some(l)) => Some(l)
      case RemoveListener => None
      case _ => LastSet(events[..|events| - 1])
  }

  lemma {:induction false} ListenerIsLastSet<T, L>(capacity: nat, events: seq<Event<T, L>>)
    ensures Run(Initial<T, L>(capacity), events).listener == LastSet(events)
  {
    if events != [] {
      ListenerIsLastSet(capacity, events[..|events| - 1]);
    }
  }

  /** In every run the worker hands the item it holds to the listener set last, if it is still set. */
  lemma ForwardReachesListener<T, L>(capacity: nat, events: seq<Event<T, L>>)
    requires Run(Initial<T, L>(capacity), events).worker.Holding?
    ensures var s, t := Run(Initial<T, L>(capacity), events), Run(Initial<T, L>(capacity), events + [Forward]);
      t.handed == s.handed + [(s.worker.item, LastSet(events))] && t.worker.LoopTop?
  {
    RunOne(Initial<T, L>(capacity), events, Forward);
    ListenerIsLastSet(capacity, events);
  }

  /** One turn of the worker's loop. */
  function Turn<T, L>(): seq<Event<T, L>> {
    [CheckStop, WakeUp, CheckAgain, Take, Forward]
  }

  function Turns<T, L>(k: nat): seq<Event<T, L>> {
    if k == 0 then [] else Turns(k - 1) + Turn()
  }

  lemma {:induction false} RunConcat<T, L>(s: State<T, L>, first: seq<Event<T, L>>, more: seq<Event<T, L>>)
    ensures Run(s, first + more) == Run(Run(s, first), more)
    decreases |more|
  {
    var all := first + more;
    if more == [] {
      assert all == first;
    } else {
      RunConcat(s, first, more[..|more| - 1]);
      assert all[..|all| - 1] == first + more[..|more| - 1];
    }
  }

  lemma RunFive<T, L>(s: State<T, L>, a: Event<T, L>, b: Event<T, L>, c: Event<T, L>, d: Event<T, L>, e: Event<T, L>)
    ensures Run(s, [a, b, c, d, e]) == Step(Step(Step(Step(Step(s, a), b), c), d), e)
  {
    hide Step, Run;
    RunOne(s, [], a);
    RunOne(s, [a], b);
    RunOne(s, [a, b], c);
    RunOne(s, [a, b, c], d);
    RunOne(s, [a, b, c, d], e);
    RunNone(s);
    assert [] + [a] == [a] && [a] + [b] == [a, b] && [a, b] + [c] == [a, b, c];
    assert [a, b, c] + [d] == [a, b, c, d] && [a, b, c, d] + [e] == [a, b, c, d, e];
  }

  lemma RunNone<T, L>(s: State<T, L>)
    ensures Run(s, []) == s
  {
  }

  lemma RunOne<T, L>(s: State<T, L>, events: seq<Event<T, L>>, e: Event<T, L>)
    ensures Run(s, events + [e]) == Step(Run(s, events), e)
  {
    assert (events + [e])[..|events|] == events;
  }

  ghost function AllTo<T, L>(items: seq<T>, listener: Option<L>): (r: seq<(T, Option<L>)>)
    ensures |r| == |items|
  {
    seq(|items|, i requires 0 <= i < |items| => (items[i], listener))
  }

  /** Left alone and not told to stop, the worker hands over what is in the ring, oldest first, one a turn. */
  lemma {:induction false} TurnsDrainRing<T, L>(s: State<T, L>, k: nat)
    requires s.worker.LoopTop? && !s.stopFlag && k <= |s.queue|
    ensures var t := Run(s, Turns(k));
      && t.worker.LoopTop? && !t.stopFlag && t.listener == s.listener
      && t.queue == s.queue[k..] && t.handed == s.handed + AllTo(s.queue[..k], s.listener)
  {
    if k > 0 {
      TurnsDrainRing(s, k - 1);
      var t := Run(s, Turns(k - 1));
      RunConcat(s, Turns(k - 1), Turn());
      RunFive(t, CheckStop, WakeUp, CheckAgain, Take, Forward);
      assert AllTo(s.queue[..k], s.listener) == AllTo(s.queue[..k - 1], s.listener) + [(s.queue[k - 1], s.listener)];
    }
  }

  /** Told to stop, the worker ends with its own next steps, wherever it was, and then stays ended. */
  lemma StopEndsWorker<T, L>(s: State<T, L>, more: seq<Event<T, L>>)
    requires s.stopFlag
    ensures Run(s, [Take, Forward, CheckStop, WakeUp, CheckAgain] + more).worker.Finished?
  {
    RunConcat(s, [Take, Forward, CheckStop, WakeUp, CheckAgain], more);
    RunFive(s, Take, Forward, CheckStop, WakeUp, CheckAgain);
    FinishedStays(Run(s, [Take, Forward, CheckStop, WakeUp, CheckAgain]), more);
  }

  lemma {:induction false} FinishedStays<T, L>(s: State<T, L>, events: seq<Event<T, L>>)
    requires s.worker.Finished?
    ensures Run(s, events).worker.Finished? && Run(s, events).handed == s.handed
  {
    if events != [] {
      FinishedStays(s, events[..|events| - 1]);
    }
  }

  // ---------- the object the threads share ----------

  /** Each method is one step of one thread, so `RunKeepsInv` speaks of every sequence of calls. */
  class Listener<T(0), L> {
    const queue: Queue<T>
    var listener: Option<L>
    var stopFlag: bool
    var worker: Worker<T>
    ghost var log: seq<Entry<T>>
    /** What the worker has handed over, and to which listener, if one was set. */
    var handed: seq<(T, Option<L>)>

    ghost predicate Valid()
      reads this, queue
    {
      queue.Valid()
    }

    ghost function Now(): State<T, L>
      requires queue.Valid()
      reads this, queue, queue.buff
    {
      State(queue.Contents(), queue.buff.Length, listener, stopFlag, worker, log, handed)
    }

    constructor (size: nat)
      requires size > 0
      ensures Valid() && fresh(queue) && fresh(queue.buff) && Now() == Initial(size)
    {
      queue := new Queue<T>(size);
      listener, stopFlag, worker, log, handed := None, false, LoopTop, [], [];
    }

    method SetRecvListener(l: Option<L>)
      requires Valid()
      modifies this
      ensures Valid() && Now() == Step(old(Now()), SetListener(l))
    {
      if l.None? {
        return;
      }
      listener := l;
    }

    method RemoveRecvListener()
      requires Valid()
      modifies this
      ensures Valid() && Now() == Step(old(Now()), RemoveListener)
    {
      listener := None;
    }

    /** The destructor tells the worker to stop; what it does after detaching the thread is left out. */
    method Destroy()
      requires Valid()
      modifies this
      ensures Valid() && Now() == Step(old(Now()), Stop)
    {
      stopFlag := true;
    }

    /** The caller has the buffer lock, so the worker is not holding an item. */
    method HandleRecv(data: T)
      requires Valid() && !worker.Holding?
      modifies this, queue, queue.buff
      ensures Valid() && Now() == Step(old(Now()), Receive(data))
    {
      var full := queue.IsFull();
      if full {
        log := log + [Dropped(data)];
        return;
      }
      var _ := queue.PushBack(data);
      log := log + [Accepted(data)];
    }

    method WorkerCheckStop()
      requires Valid() && worker.LoopTop?
      modifies this
      ensures Valid() && Now() == Step(old(Now()), CheckStop)
    {
      worker := if stopFlag then Finished else Waiting;
    }

    /** The wait: its predicate looks at the flag and, under the buffer lock, at the ring. */
    method WorkerWakeUp()
      requires Valid() && worker.Waiting?
      modifies this
      ensures Valid() && Now() == Step(old(Now()), WakeUp)
    {
      var empty := queue.IsEmpty();
      if stopFlag || !empty {
        worker := Awake;
      }
    }

    method WorkerCheckAgain()
      requires Valid() && worker.Awake?
      modifies this
      ensures Valid() && Now() == Step(old(Now()), CheckAgain)
    {
      worker := if stopFlag then Finished else Taking;
    }

    method WorkerTake()
      requires Valid() && worker.Taking?
      modifies this, queue
      ensures Valid() && Now() == Step(old(Now()), Take)
    {
      var empty := queue.IsEmpty();
      if empty {
        worker := LoopTop;
        return;
      }
      var front := queue.Front();
      var _ := queue.PopFront();
      worker := Holding(front.value);
      log := log + [Taken(front.value)];
    }

    method WorkerForward()
      requires Valid() && worker.Holding?
      modifies this
      ensures Valid() && Now() == Step(old(Now()), Forward)
    {
      handed := handed + [(worker.item, listener)];
      worker := LoopTop;
    }
  }
}
