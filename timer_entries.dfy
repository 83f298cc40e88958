/**
  Entries of the coalescing timer queue of stable-timers and the order in
  which the firing pass visits them.

  In index.js an entry is the array [ts, id, keepGoing, callback, ...args];
  here it is the record Entry. Callbacks and the values passed to them are
  opaque: the scheduler stores them and hands them back unchanged.
*/
module TimerEntries {

  /** An opaque callback function object. */
  datatype Callback = Callback(ref: nat)

  /**
    A value held in an entry's array or handed to a callback: a number, a
    boolean, a function object or any other value.
  */
  datatype Value = NumberValue(n: int) | BoolValue(b: bool) | FunctionValue(fn: Callback) | OtherValue(ref: nat)

  /** One queue entry: due timestamp, id, repeat flag, callback and user arguments. */
  datatype Entry = Entry(ts: int, id: nat, keepGoing: bool, callback: Callback, args: seq<Value>)

  /** One invocation of a callback with an argument list. */
  datatype Call = Call(fn: Callback, arguments: seq<Value>)

  /**
    The array an entry is in index.js: the user arguments with ts, id,
    keepGoing and callback put in front of them by `unshift`.
  */
  function Slots(e: Entry): seq<Value>
  {
    [NumberValue(e.ts), NumberValue(e.id), BoolValue(e.keepGoing), FunctionValue(e.callback)] + e.args
  }

  /**
    The invocation the firing pass performs for an entry: the callback in
    slot 3 applied to the array with its first three slots cut off, so the
    callback itself comes first, followed by the user arguments.
  */
  function CallOf(e: Entry): (c: Call)
    ensures c.fn == e.callback
    ensures |c.arguments| == |e.args| + 1
    ensures c.arguments[0] == FunctionValue(e.callback) && c.arguments[1..] == e.args
  {
    Call(e.callback, Slots(e)[3..])
  }

  /** Lexicographic order on (ts, id): the firing order the comparator is meant to give. */
  predicate KeyBefore(a: Entry, b: Entry)
  {
    a.ts < b.ts || (a.ts == b.ts && a.id < b.id)
  }

  /**
    The comparator sortTimers handed to queue.sort. It never answers 0, and it
    answers -1 exactly when its first argument precedes its second on (ts, id).
  */
  function SortTimers(t1: Entry, t2: Entry): (r: int)
    ensures r == -1 || r == 1
    ensures r == -1 <==> KeyBefore(t1, t2)
  {
    if t1.ts < t2.ts then -1
    else if t1.ts > t2.ts then 1
    else if t1.id < t2.id then -1
    else 1
  }

  /** On entries with distinct ids the comparator is antisymmetric. */
  lemma SortTimersAntisymmetric(a: Entry, b: Entry)
    requires a.id != b.id
    ensures SortTimers(a, b) == -SortTimers(b, a)
  {
  }

  /** "before" according to the comparator is transitive. */
  lemma SortTimersTransitive(a: Entry, b: Entry, c: Entry)
    requires SortTimers(a, b) == -1 && SortTimers(b, c) == -1
    ensures SortTimers(a, c) == -1
  {
  }

  /**
    When two entries carry the same ts and the same id, the comparator says 1
    both ways: it is consistent only because ids are unique in the queue.
  */
  lemma SortTimersSameKey(a: Entry, b: Entry)
    requires a.ts == b.ts && a.id == b.id
    ensures SortTimers(a, b) == 1 && SortTimers(b, a) == 1
  {
  }

  /** Every two positions are in comparator order (and so in (ts, id) order). */
  predicate StrictlySorted(s: seq<Entry>)
  {
    forall i, j :: 0 <= i < j < |s| ==> SortTimers(s[i], s[j]) == -1
  }

  /** No two positions carry the same id. */
  predicate UniqueIds(s: seq<Entry>)
  {
    forall i, j :: 0 <= i < j < |s| ==> s[i].id != s[j].id
  }

  /** Inserts e in front of the first element it precedes. */
  function Insert(e: Entry, s: seq<Entry>): (r: seq<Entry>)
    ensures |r| == |s| + 1
    ensures multiset(r) == multiset(s) + multiset{e}
  {
    if s == [] then [e]
    else if SortTimers(e, s[0]) == -1 then [e] + s
    else
      assert s == [s[0]] + s[1..];
      [s[0]] + Insert(e, s[1..])
  }

  /**
    The effect of queue.sort(sortTimers): the queue as a permutation in
    comparator order. The host's sorting algorithm is not part of the
    model; SortIsDetermined shows that, with unique ids, every algorithm
    that returns a sorted permutation returns this sequence.
  */
  function SortQueue(s: seq<Entry>): (r: seq<Entry>)
    ensures |r| == |s|
    ensures multiset(r) == multiset(s)
  {
    if s == [] then []
    else
      assert s == [s[0]] + s[1..];
      Insert(s[0], SortQueue(s[1..]))
  }

  /** A suffix of a sorted sequence is sorted. */
  lemma SortedSuffix(s: seq<Entry>, k: nat)
    requires StrictlySorted(s) && k <= |s|
    ensures StrictlySorted(s[k..])
  {
  }

  /** A suffix of a sequence with unique ids has unique ids. */
  lemma UniqueIdsSuffix(s: seq<Entry>, k: nat)
    requires UniqueIds(s) && k <= |s|
    ensures UniqueIds(s[k..])
  {
  }

  /** Putting an entry that precedes every element in front of a sorted sequence keeps it sorted. */
  lemma SortedCons(x: Entry, s: seq<Entry>)
    requires StrictlySorted(s)
    requires forall y :: y in s ==> SortTimers(x, y) == -1
    ensures StrictlySorted([x] + s)
  {
  }

  /** Putting an entry with a fresh id in front of a sequence with unique ids keeps them unique. */
  lemma UniqueIdsCons(x: Entry, s: seq<Entry>)
    requires UniqueIds(s)
    requires forall y :: y in s ==> y.id != x.id
    ensures UniqueIds([x] + s)
  {
  }

  /** The elements of Insert(e, s) are e and the elements of s. */
  lemma InsertMembers(e: Entry, s: seq<Entry>)
    ensures forall x :: x in Insert(e, s) <==> x == e || x in s
  {
  }

  lemma {:induction false} InsertSorted(e: Entry, s: seq<Entry>)
    requires StrictlySorted(s)
    requires forall x :: x in s ==> x.id != e.id
    ensures StrictlySorted(Insert(e, s))
  {
    if s == [] {
    } else if SortTimers(e, s[0]) == -1 {
      forall y | y in s ensures SortTimers(e, y) == -1 {
        var j :| 0 <= j < |s| && s[j] == y;
        if j > 0 {
          SortTimersTransitive(e, s[0], y);
        }
      }
      SortedCons(e, s);
    } else {
      var t := s[1..];
      SortedSuffix(s, 1);
      InsertSorted(e, t);
      InsertMembers(e, t);
      SortTimersAntisymmetric(e, s[0]);
      forall y | y in Insert(e, t) ensures SortTimers(s[0], y) == -1 {
        if y != e {
          var m :| 0 <= m < |t| && t[m] == y;
          assert s[m + 1] == y;
        }
      }
      SortedCons(s[0], Insert(e, t));
    }
  }

  lemma {:induction false} InsertUniqueIds(e: Entry, s: seq<Entry>)
    requires UniqueIds(s)
    requires forall x :: x in s ==> x.id != e.id
    ensures UniqueIds(Insert(e, s))
  {
    if s == [] {
    } else if SortTimers(e, s[0]) == -1 {
      UniqueIdsCons(e, s);
    } else {
      var t := s[1..];
      UniqueIdsSuffix(s, 1);
      InsertUniqueIds(e, t);
      InsertMembers(e, t);
      forall y | y in Insert(e, t) ensures y.id != s[0].id {
        if y != e {
          var m :| 0 <= m < |t| && t[m] == y;
          assert s[m + 1] == y;
        }
      }
      UniqueIdsCons(s[0], Insert(e, t));
    }
  }

  /** With unique ids, sorting yields the ids still unique and in strict (ts, id) order. */
  lemma {:induction false} SortQueueSorted(s: seq<Entry>)
    requires UniqueIds(s)
    ensures StrictlySorted(SortQueue(s))
    ensures UniqueIds(SortQueue(s))
  {
    if s != [] {
      var t := s[1..];
      UniqueIdsSuffix(s, 1);
      SortQueueSorted(t);
      var st := SortQueue(t);
      forall x | x in st ensures x.id != s[0].id {
        assert x in multiset(st);
        var m :| 0 <= m < |t| && t[m] == x;
        assert s[m + 1] == x;
      }
      InsertSorted(s[0], st);
      InsertUniqueIds(s[0], st);
    }
  }

  /** Two strictly sorted sequences with the same elements are equal. */
  lemma {:induction false} SortedPermutationUnique(a: seq<Entry>, b: seq<Entry>)
    requires multiset(a) == multiset(b)
    requires StrictlySorted(a) && StrictlySorted(b)
    ensures a == b
  {
    if a == [] {
      assert |b| == |multiset(b)| == 0;
    } else {
      assert a[0] in multiset(b);
      assert b[0] in multiset(a);
      assert a[0] == b[0];
      assert a == [a[0]] + a[1..];
      assert b == [b[0]] + b[1..];
      assert multiset(a[1..]) == multiset(a) - multiset{a[0]};
      assert multiset(b[1..]) == multiset(b) - multiset{b[0]};
      SortedSuffix(a, 1);
      SortedSuffix(b, 1);
      SortedPermutationUnique(a[1..], b[1..]);
    }
  }

  /**
    The result of sorting a queue with unique ids is determined: every
    strictly sorted permutation of it is SortQueue's result.
  */
  lemma SortIsDetermined(q: seq<Entry>, r: seq<Entry>)
    requires UniqueIds(q)
    requires multiset(r) == multiset(q)
    requires StrictlySorted(r)
    ensures r == SortQueue(q)
  {
    SortQueueSorted(q);
    SortedPermutationUnique(r, SortQueue(q));
  }
}
