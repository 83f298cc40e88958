/**
  Client runs of the scheduler, proved from the operations' contracts
  alone: what a caller of setTimeout, setInterval, clearTimeout and the
  host-driven runTick can rely on.
*/
module Scenarios {
  import opened TimerEntries
  import opened StableTimers

  /**
    A one-shot cancelled before it is due never fires, neither at its due
    time nor on a later pass, and cancelling the only entry disarms the tick.
  */
  method CancelBeforeDue() returns (fired: seq<Entry>, calls: seq<Call>, later: seq<Entry>, tickAfterCancel: Tick)
    ensures tickAfterCancel == Disarmed
    ensures fired == [] && calls == []
    ensures later == []
  {
    var s := new Scheduler();
    var id := s.SetTimeout(Callback(1), Number(1000), [], 0, 7);
    s.ClearTimeout(id);
    tickAfterCancel := s.tick;
    fired, calls := s.RunTick(1000);
    var laterCalls;
    later, laterCalls := s.RunTick(5000);
  }

  /**
    An interval fires once and is gone: the firing pass removes it like a
    one-shot, so a later pass finds nothing to fire and the tick is off.
    Its callback is called with itself first, then the user argument.
  */
  method IntervalFiresOnce() returns (first: seq<Entry>, calls: seq<Call>, second: seq<Entry>, tickAfter: Tick)
    ensures |first| == 1 && first[0].keepGoing && first[0].id == 0
    ensures calls == [Call(Callback(1), [FunctionValue(Callback(1)), OtherValue(5)])]
    ensures second == []
    ensures tickAfter == Disarmed
  {
    var s := new Scheduler();
    var id := s.SetInterval(Callback(1), Number(10), [OtherValue(5)], 0, 7);
    ghost var e := s.queue[0];
    first, calls := s.RunTick(10);
    assert s.queue == [];
    assert first == [e];
    assert Slots(e)[3..] == [FunctionValue(Callback(1)), OtherValue(5)];
    var later;
    second, later := s.RunTick(20);
    tickAfter := s.tick;
  }

  // The four entries RegisterFour creates at time 100.
  const T0 := Entry(105, 0, false, Callback(1), [])
  const T1 := Entry(105, 1, true, Callback(2), [])
  const T2 := Entry(50, 2, false, Callback(3), [])
  const T3 := Entry(100, 3, false, Callback(4), [])

  lemma FiringOrderUniqueIds()
    ensures UniqueIds([T0, T1, T2, T3])
  {
  }

  lemma FiringOrderStrictlySorted()
    ensures StrictlySorted([T2, T3, T0, T1])
  {
  }

  /**
    Firing order is (ts, id) only: the queue RegisterFour builds sorts to
    the negative delay, the NaN delay, then the two entries due at 105 in
    registration order, whatever their repeat flag.
  */
  lemma FiringOrderSorted()
    ensures SortQueue([T0, T1, T2, T3]) == [T2, T3, T0, T1]
  {
    FiringOrderUniqueIds();
    FiringOrderStrictlySorted();
    assert multiset([T2, T3, T0, T1]) == multiset([T0, T1, T2, T3]);
    SortIsDetermined([T0, T1, T2, T3], [T2, T3, T0, T1]);
  }

  /** A pass at 104 over that queue fires the first two entries of the sorted queue. */
  lemma FiringOrderDue()
    ensures DueCount([T2, T3, T0, T1], 104) == 2
  {
    DueCountIs([T2, T3, T0, T1], 2, 104);
  }

  /**
    At time 100: a timeout and an interval of 5 ms, a timeout of -50 ms and
    one whose delay is NaN, getting ids 0 to 3.
  */
  method RegisterFour() returns (s: Scheduler)
    ensures fresh(s) && s.Valid()
    ensures s.queue == [T0, T1, T2, T3]
  {
    s := new Scheduler();
    var a := s.SetTimeout(Callback(1), Number(5), [], 100, 7);
    var b := s.SetInterval(Callback(2), Number(5), [], 100, 8);
    var c := s.SetTimeout(Callback(3), Number(-50), [], 100, 9);
    var d := s.SetTimeout(Callback(4), NotANumber, [], 100, 10);
  }

  // Two timeouts due at the same time 10: TA asked for 10 ms at time 0,
  // TB for 5 ms at time 5.
  const TA := Entry(10, 0, false, Callback(1), [])
  const TB := Entry(10, 1, false, Callback(2), [])

  /**
    The requested interval plays no part in ties: whatever order the two
    entries are in, the one with the longer interval sorts first because its
    id is lower.
  */
  lemma TieIgnoresInterval()
    ensures SortQueue([TB, TA]) == [TA, TB]
    ensures SortQueue([TA, TB]) == [TA, TB]
  {
  }

  /**
    Registered as above and fired at 10, the longer interval fires first and
    the shorter one second.
  */
  method TieFiresById() returns (fired: seq<Entry>)
    ensures fired == [TA, TB]
  {
    var s := new Scheduler();
    var a := s.SetTimeout(Callback(1), Number(10), [], 0, 7);
    var b := s.SetTimeout(Callback(2), Number(5), [], 5, 7);
    TieIgnoresInterval();
    DueCountIs([TA, TB], 2, 10);
    var calls;
    fired, calls := s.RunTick(10);
  }
}
