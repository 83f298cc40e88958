/**
  The coalescing scheduler of stable-timers: one shared queue of timer
  entries, one id counter and one host "tick" that drives the firing pass.

  The clock is an explicit `now` parameter. The host's repeating timer is
  represented by its handle: the handle the host would return when asked to
  arm is a parameter of the operations that may arm it.
*/
module StableTimers {
  import opened TimerEntries

  /**
    A delay argument after the unary plus of `+interval`: either a number
    (a whole number of milliseconds) or NaN.
  */
  datatype Delay = Number(ms: int) | NotANumber

  /**
    `+interval || 0`: the default 0 is taken exactly when the number is falsy
    (NaN or zero); every other number, negative ones included, is kept.
  */
  function EffectiveDelay(d: Delay): (ms: int)
    ensures d.Number? ==> ms == d.ms
    ensures ms == 0 <==> d == NotANumber || d == Number(0)
  {
    if d.Number? then d.ms else 0
  }

  /** The host tick: either no repeating host timer, or one armed with a handle. */
  datatype Tick = Disarmed | Armed(handle: nat)

  /**
    The position of the first entry whose id equals `id`, or |q| when there
    is none.
  */
  function FirstIndexOf(q: seq<Entry>, id: int): (k: nat)
    ensures k <= |q|
    ensures forall j :: 0 <= j < k ==> q[j].id != id
    ensures k < |q| ==> q[k].id == id
  {
    if q == [] then 0
    else if q[0].id == id then 0
    else 1 + FirstIndexOf(q[1..], id)
  }

  /**
    The queue after clearTimeout(id): the first entry with that id spliced
    out. At most one entry goes, one goes exactly when some entry carries the
    id, and every entry with another id stays.
  */
  function Cancelled(q: seq<Entry>, id: int): (r: seq<Entry>)
    ensures |r| == |q| - 1 || |r| == |q|
    ensures |r| < |q| <==> exists e :: e in q && e.id == id
    ensures forall e :: e in r ==> e in q
    ensures forall e :: e in q && e.id != id ==> e in r
  {
    var k := FirstIndexOf(q, id);
    if k < |q| then
      RemoveAt(q, k);
      q[..k] + q[k + 1..]
    else q
  }

  /** Splicing out position k shifts the later entries down by one and drops just q[k]. */
  lemma RemoveAt(q: seq<Entry>, k: nat)
    requires k < |q|
    ensures |q[..k] + q[k + 1..]| == |q| - 1
    ensures forall j :: 0 <= j < |q| - 1 ==> (q[..k] + q[k + 1..])[j] == if j < k then q[j] else q[j + 1]
    ensures multiset(q[..k] + q[k + 1..]) + multiset{q[k]} == multiset(q)
  {
    assert q == q[..k] + [q[k]] + q[k + 1..];
  }

  /** Cancelling an id no entry carries leaves the queue as it is. */
  lemma CancelUnknown(q: seq<Entry>, id: int)
    requires forall e :: e in q ==> e.id != id
    ensures Cancelled(q, id) == q
  {
  }

  /**
    Cancelling an id some entry carries splices out exactly one entry, the
    first with that id.
  */
  lemma CancelKnown(q: seq<Entry>, id: int)
    requires exists e :: e in q && e.id == id
    ensures var k := FirstIndexOf(q, id);
            && k < |q| && q[k].id == id
            && (forall j :: 0 <= j < k ==> q[j].id != id)
            && Cancelled(q, id) == q[..k] + q[k + 1..]
  {
    var k := FirstIndexOf(q, id);
    var e :| e in q && e.id == id;
    var m :| 0 <= m < |q| && q[m] == e;
    assert k <= m;
  }

  /**
    Cancelling an id whose first match is at position k keeps every other
    entry in its order: the entries before k stay in place, the later ones
    move down by one, and only q[k] leaves the multiset.
  */
  lemma CancelKeepsOrder(q: seq<Entry>, id: int, k: nat)
    requires k < |q| && q[k].id == id
    requires forall j :: 0 <= j < k ==> q[j].id != id
    ensures |Cancelled(q, id)| == |q| - 1
    ensures forall j :: 0 <= j < |q| - 1 ==> Cancelled(q, id)[j] == if j < k then q[j] else q[j + 1]
    ensures multiset(Cancelled(q, id)) + multiset{q[k]} == multiset(q)
  {
    var r := Cancelled(q, id);
    assert r == q[..k] + q[k + 1..] by {
      assert FirstIndexOf(q, id) == k;
    }
    RemoveAt(q, k);
  }

  /**
    With unique ids, cancelling keeps the ids unique, and afterwards the
    queue holds exactly the entries it held before whose id differs.
  */
  lemma CancelUnique(q: seq<Entry>, id: int)
    requires UniqueIds(q)
    ensures UniqueIds(Cancelled(q, id))
    ensures forall e :: e in Cancelled(q, id) <==> e in q && e.id != id
  {
  }

  /**
    How many entries at the head of a sorted queue are due at `now`: the
    length of the longest prefix whose timestamps are all at most `now`.
  */
  function DueCount(s: seq<Entry>, now: int): (k: nat)
    ensures k <= |s|
    ensures forall j :: 0 <= j < k ==> s[j].ts <= now
    ensures k < |s| ==> s[k].ts > now
  {
    if s == [] || s[0].ts > now then 0
    else 1 + DueCount(s[1..], now)
  }

  /** The due prefix length is the one length that the characterisation allows. */
  lemma DueCountIs(s: seq<Entry>, k: nat, now: int)
    requires k <= |s|
    requires forall j :: 0 <= j < k ==> s[j].ts <= now
    requires k < |s| ==> s[k].ts > now
    ensures DueCount(s, now) == k
  {
  }

  /** In a sorted sequence, both sides of the due prefix are sorted and everything after it is not due. */
  lemma SortedSplit(s: seq<Entry>, now: int)
    requires StrictlySorted(s)
    ensures var k := DueCount(s, now);
            && (forall e :: e in s[k..] ==> e.ts > now)
            && StrictlySorted(s[..k]) && StrictlySorted(s[k..])
  {
  }

  /** Cutting a sequence in two keeps its elements. */
  lemma MultisetSplit(s: seq<Entry>, k: nat)
    requires k <= |s|
    ensures multiset(s[..k]) + multiset(s[k..]) == multiset(s)
  {
    assert s == s[..k] + s[k..];
  }

  /**
    When s is a permutation of q whose first k entries are due and whose
    remaining entries are not, the first k entries are exactly the due
    entries of q.
  */
  lemma DuePrefixMembers(q: seq<Entry>, s: seq<Entry>, k: nat, now: int)
    requires multiset(s) == multiset(q) && k <= |s|
    requires forall j :: 0 <= j < k ==> s[j].ts <= now
    requires forall e :: e in s[k..] ==> e.ts > now
    ensures forall e :: e in s[..k] <==> e in q && e.ts <= now
  {
    assert s == s[..k] + s[k..];
    forall e ensures e in s[..k] <==> e in q && e.ts <= now {
      if e in s[..k] {
        assert e in s;
        assert e in multiset(s);
      }
      if e in q && e.ts <= now {
        assert e in multiset(s);
        assert e !in s[k..];
      }
    }
  }

  /** With unique ids, no id occurs both before and after a cut. */
  lemma CutIdsDisjoint(s: seq<Entry>, k: nat)
    requires UniqueIds(s) && k <= |s|
    ensures forall e, r :: e in s[..k] && r in s[k..] ==> e.id != r.id
  {
  }

  /** Every element of a suffix of a permutation of q is in q. */
  lemma SuffixMembers(q: seq<Entry>, s: seq<Entry>, k: nat)
    requires multiset(s) == multiset(q) && k <= |s|
    ensures forall r :: r in s[k..] ==> r in q
  {
    forall r | r in s[k..] ensures r in q {
      assert r in s;
      assert r in multiset(s);
    }
  }

  /**
    No id of a fired entry is left in the queue after the pass, and every
    entry left in the queue was in it before.
  */
  lemma FiredNotRequeued(q: seq<Entry>, now: int)
    requires UniqueIds(q)
    ensures var s := SortQueue(q);
            var k := DueCount(s, now);
            && (forall e, r :: e in s[..k] && r in s[k..] ==> e.id != r.id)
            && (forall r :: r in s[k..] ==> r in q)
  {
    var s := SortQueue(q);
    var k := DueCount(s, now);
    SortQueueSorted(q);
    CutIdsDisjoint(s, k);
    SuffixMembers(q, s, k);
  }

  /**
    What one firing pass at `now` does with a queue of unique ids: after
    sorting, the due prefix holds exactly the entries with ts <= now, in
    ascending (ts, id) order, and the rest is sorted with every ts > now;
    the two parts together are a permutation of the queue.
  */
  lemma FiringPassSplit(q: seq<Entry>, now: int)
    requires UniqueIds(q)
    ensures var s := SortQueue(q);
            var k := DueCount(s, now);
            && (forall e :: e in s[..k] <==> e in q && e.ts <= now)
            && (forall e :: e in s[k..] ==> e.ts > now)
            && StrictlySorted(s[..k]) && StrictlySorted(s[k..])
            && UniqueIds(s[k..])
            && multiset(s[..k]) + multiset(s[k..]) == multiset(q)
  {
    var s := SortQueue(q);
    var k := DueCount(s, now);
    SortQueueSorted(q);
    SortedSplit(s, now);
    UniqueIdsSuffix(s, k);
    DuePrefixMembers(q, s, k, now);
    MultisetSplit(s, k);
  }

  /**
    The module state of index.js: the queue, the tick handle and the id
    counter, initially empty, disarmed and 0.
  */
  class Scheduler {
    var queue: seq<Entry>
    var tick: Tick
    var counter: nat

    /**
      The invariant the operations keep: the tick is armed exactly when the
      queue is non-empty, ids in the queue are unique, and every id in the
      queue was handed out before the current counter value.
    */
    ghost predicate Valid()
      reads this
    {
      && (tick.Armed? <==> |queue| > 0)
      && UniqueIds(queue)
      && (forall e :: e in queue ==> e.id < counter)
    }

    constructor ()
      ensures Valid()
      ensures queue == [] && tick == Disarmed && counter == 0
    {
      queue := [];
      tick := Disarmed;
      counter := 0;
    }

    /**
      setTimer: appends one entry due at now + delay, hands out the current
      counter value as its id and advances the counter by exactly one, and
      arms the tick with the host's handle only when it is not armed yet.
    */
    method SetTimer(keepGoing: bool, callback: Callback, interval: Delay, args: seq<Value>,
                    now: int, hostHandle: nat) returns (id: nat)
      requires Valid()
      modifies this
      ensures Valid()
      ensures id == old(counter) && counter == old(counter) + 1
      ensures forall e :: e in old(queue) ==> e.id < id
      ensures queue == old(queue) + [Entry(now + EffectiveDelay(interval), id, keepGoing, callback, args)]
      ensures tick == if old(tick).Armed? then old(tick) else Armed(hostHandle)
    {
      var ts := now + EffectiveDelay(interval);
      id := counter;
      counter := counter + 1;
      queue := queue + [Entry(ts, id, keepGoing, callback, args)];
      if !tick.Armed? {
        tick := Armed(hostHandle);
      }
    }

    /** setTimeout: a one-shot registration (keepGoing false). */
    method SetTimeout(fn: Callback, delay: Delay, args: seq<Value>, now: int, hostHandle: nat)
      returns (id: nat)
      requires Valid()
      modifies this
      ensures Valid()
      ensures id == old(counter) && counter == old(counter) + 1
      ensures queue == old(queue) + [Entry(now + EffectiveDelay(delay), id, false, fn, args)]
      ensures tick == if old(tick).Armed? then old(tick) else Armed(hostHandle)
    {
      id := SetTimer(false, fn, delay, args, now, hostHandle);
    }

    /** setInterval: a registration flagged as repeating (keepGoing true). */
    method SetInterval(fn: Callback, delay: Delay, args: seq<Value>, now: int, hostHandle: nat)
      returns (id: nat)
      requires Valid()
      modifies this
      ensures Valid()
      ensures id == old(counter) && counter == old(counter) + 1
      ensures queue == old(queue) + [Entry(now + EffectiveDelay(delay), id, true, fn, args)]
      ensures tick == if old(tick).Armed? then old(tick) else Armed(hostHandle)
    {
      id := SetTimer(true, fn, delay, args, now, hostHandle);
    }

    /**
      clearTimeout (and clearInterval, the same function): splices out the
      first entry whose id matches, whatever its keepGoing flag, and disarms
      the tick when the queue is then empty.
    */
    method ClearTimeout(id: int)
      requires Valid()
      modifies this
      ensures Valid()
      ensures queue == Cancelled(old(queue), id)
      ensures tick == if |queue| == 0 then Disarmed else old(tick)
      ensures counter == old(counter)
    {
      var i := 0;
      while i < |queue|
        invariant 0 <= i <= |queue|
        invariant queue == old(queue) && tick == old(tick) && counter == old(counter)
        invariant forall j :: 0 <= j < i ==> queue[j].id != id
      {
        if queue[i].id == id {
          queue := queue[..i] + queue[i + 1..];
          break;
        }
        i := i + 1;
      }
      if |queue| == 0 {
        tick := Disarmed;
      }
      CancelUnique(old(queue), id);
      assert forall e :: e in queue ==> e in old(queue);
    }

    /**
      The loop of runTick: while the head of the queue is due at `now`, fire
      it and shift it off. `fired` lists the removed entries in order and
      `calls` the invocations made, one per fired entry.
    */
    method FireDue(now: int) returns (fired: seq<Entry>, calls: seq<Call>)
      modifies this
      ensures fired == old(queue)[..DueCount(old(queue), now)]
      ensures queue == old(queue)[DueCount(old(queue), now)..]
      ensures |calls| == |fired|
      ensures forall j :: 0 <= j < |fired| ==> calls[j] == CallOf(fired[j])
      ensures tick == old(tick) && counter == old(counter)
    {
      fired, calls := [], [];
      while |queue| > 0
        invariant |fired| <= |old(queue)|
        invariant fired == old(queue)[..|fired|] && queue == old(queue)[|fired|..]
        invariant forall j :: 0 <= j < |fired| ==> fired[j].ts <= now
        invariant |calls| == |fired|
        invariant forall j :: 0 <= j < |fired| ==> calls[j] == CallOf(fired[j])
        invariant tick == old(tick) && counter == old(counter)
      {
        if queue[0].ts <= now {
          calls := calls + [CallOf(queue[0])];
          fired := fired + [queue[0]];
          queue := queue[1..];
        } else {
          break;
        }
      }
      DueCountIs(old(queue), |fired|, now);
    }

    /**
      runTick at time `now`: sorts the queue, then fires and removes the head
      while its ts is at most `now`, and disarms the tick when the queue is
      then empty. Repeating entries are removed like one-shot ones and are
      not put back.
    */
    method RunTick(now: int) returns (fired: seq<Entry>, calls: seq<Call>)
      requires Valid()
      modifies this
      ensures Valid()
      ensures fired == SortQueue(old(queue))[..DueCount(SortQueue(old(queue)), now)]
      ensures queue == SortQueue(old(queue))[DueCount(SortQueue(old(queue)), now)..]
      ensures forall e :: e in fired <==> e in old(queue) && e.ts <= now
      ensures forall e :: e in queue ==> e.ts > now
      ensures StrictlySorted(fired) && StrictlySorted(queue)
      ensures multiset(fired) + multiset(queue) == multiset(old(queue))
      ensures forall e, r :: e in fired && r in queue ==> e.id != r.id
      ensures |calls| == |fired|
      ensures forall j :: 0 <= j < |fired| ==> calls[j] == CallOf(fired[j])
      ensures tick == if |queue| == 0 then Disarmed else old(tick)
      ensures counter == old(counter)
    {
      queue := SortQueue(queue);
      fired, calls := FireDue(now);
      if |queue| == 0 {
        tick := Disarmed;
      }
      FiringPassSplit(old(queue), now);
      FiredNotRequeued(old(queue), now);
    }
  }
}
