# stable-timers: the coalescing timer queue

stable-timers replaces `setTimeout`, `setInterval`, `clearTimeout` and
`clearInterval` with versions that share one queue of entries and one
host repeating timer, the "tick". Every tick runs a firing pass. It sorts
the queue by due time and id. Then it fires and removes every entry at the
head that is due at the time taken when the pass began. It stops the tick
once the queue is empty.

This project models that core of `index.js` in Dafny and proves what it
does:

- `timer_entries.dfy` (module `TimerEntries`) holds the queue entry
  `[ts, id, keepGoing, callback, ...args]` as the record `Entry`. It holds
  the comparator `sortTimers` as `SortTimers`, and the effect of
  `queue.sort(sortTimers)` as `SortQueue`. A lemma shows that, when ids
  are unique, every sorted permutation of the queue is the same sequence.
  So, provided the host's sort returns a sorted permutation, modelling it
  by one particular algorithm loses nothing (see "Left out" for when that
  proviso holds).
- `stable_timers.dfy` (module `StableTimers`) holds the module state
  `queue`, `tick` and `counter` as the fields of class `Scheduler`. Its
  methods are `setTimer`, `setTimeout`, `setInterval`, `clearTimeout`
  (which is also `clearInterval`) and `runTick`. The specification
  functions `Cancelled`, `FirstIndexOf` and `DueCount` describe their
  results, and lemmas prove what those results mean. `Valid()` is the
  invariant every operation keeps: the tick is armed exactly when the queue
  is non-empty, ids in the queue are unique, and each id is below the
  counter.
- `scenarios.dfy` (module `Scenarios`) holds client runs proved from the
  contracts alone: a cancelled timeout never fires, an interval fires only
  once, and a concrete firing order.

How the model represents the outside world:

- The clock `Date.now()` is the parameter `now`.
- The host's `_setInterval(runTick, 4)` is represented by the handle it
  would return. That handle is the `hostHandle` parameter of the
  registration methods, and `tick` is either `Disarmed` (the source's
  `null`) or `Armed(handle)`.
- Callbacks and their arguments are opaque values (`Callback`, `Value`).
  The array an entry is in the source is `Slots`: ts, id, keepGoing and
  the callback, followed by the user arguments.
  A firing is recorded as a `Call` in the `calls` result of `RunTick`.
- The delay argument is given after the unary plus: a whole number of
  milliseconds or NaN (`Delay`).

What the code leaves out or does in a surprising way (the model follows
the code):

- Ties on the due time are broken by id alone. Nothing looks at the
  requested interval.
- Delays are not clamped. `+interval || 0` turns NaN and 0 into 0, but a
  negative delay is kept, so the entry is due in the past.
- Repeating entries are never put back into the queue. The `keepGoing`
  flag is written and never read, so an interval fires at most once
  (unless its callback throws, see "Left out").
- There is no one-shot adjusting tick. `_setTimeout` is captured and never
  used. The tick, once armed, is never re-armed until the queue empties.
- A callback is called with the argument list `entry.slice(3)`. That list
  is the callback itself followed by the user arguments.

## Model

| member | source | states |
|---|---|---|
| TimerEntries.CallOf | index.js:76 | the call made for an entry goes to its callback, and `slice(3)` of the entry's array (built by the `unshift` at index.js:52) is the callback itself followed by exactly the user arguments |
| TimerEntries.SortTimers | index.js:60-67 | the comparator never returns 0; it returns -1 exactly when the first entry precedes the second on (ts, id), ts first |
| TimerEntries.SortTimersAntisymmetric | index.js:60-67 | for entries with distinct ids, cmp(a, b) = -cmp(b, a) |
| TimerEntries.SortTimersTransitive | index.js:60-67 | "before" by the comparator is transitive |
| TimerEntries.SortTimersSameKey | index.js:63-66 | with equal ts and equal id the comparator answers 1 both ways, so it is consistent only on distinct ids |
| TimerEntries.SortQueue | index.js:72 | the sorted queue is a permutation of the queue (same length, same multiset) |
| TimerEntries.SortQueueSorted | index.js:72 | with unique ids the sorted queue is strictly ordered by the comparator and keeps unique ids |
| TimerEntries.SortedPermutationUnique | index.js:72 | two strictly sorted permutations of the same entries are equal |
| TimerEntries.SortIsDetermined | index.js:72 | with unique ids, every sorted permutation the host's sort may return is SortQueue's result |
| StableTimers.EffectiveDelay | index.js:49 | the unary plus with 0 as the logical-or default: a number is kept as it is (negatives included), and the result is 0 exactly when the number is NaN or zero |
| StableTimers.Cancelled | index.js:23-29 | the queue after cancelling: at most one entry is removed, one is removed exactly when some entry carries the id, nothing new appears, and every entry with another id stays |
| StableTimers.FirstIndexOf | index.js:24-25 | the position of the first entry with the given id (or the length when there is none): no earlier entry matches, and the entry there does |
| StableTimers.CancelUnknown | index.js:23-29 | cancelling an id that no entry carries leaves the queue unchanged |
| StableTimers.CancelKnown | index.js:23-29 | cancelling an id that some entry carries splices out exactly one entry, the first with that id: the match is in the queue and no earlier entry has the id |
| StableTimers.CancelKeepsOrder | index.js:24-27 | when the first entry with the id is at position k, cancelling shortens the queue by one, keeps the entries before k in place, moves the later ones down by one in their order, and drops only that entry from the multiset |
| StableTimers.RemoveAt | index.js:26 | the splice shortens the queue by one, keeps the entries before the position in place and shifts the later ones down in order, and drops exactly that one entry from the multiset |
| StableTimers.CancelUnique | index.js:23-29 | with unique ids, after cancelling no entry carries the id, every other entry is still there, and the ids stay unique |
| StableTimers.DueCount | index.js:74-80 | the number of head entries the loop fires: all of them have ts <= now, and the next one (if any) has ts > now |
| StableTimers.SortedSplit | index.js:74-80 | in a sorted queue everything after the due prefix has ts > now, and both parts are sorted |
| StableTimers.FiringPassSplit | index.js:70-80 | a pass fires exactly the entries with ts <= now, in ascending (ts, id) order; what remains is sorted, not due, has unique ids, and together with the fired entries is a permutation of the queue |
| StableTimers.FiredNotRequeued | index.js:74-80 | no fired entry's id is left in the queue (repeating entries included), and what is left was there before |
| StableTimers.Scheduler.constructor | index.js:9 | the initial state: empty queue, no tick, counter 0, and the invariant holds |
| StableTimers.Scheduler.SetTimer | index.js:48-58 | returns the old counter and adds exactly 1 to it; the id is above every id already queued; appends exactly one entry with ts = now + delay (NaN gives 0, negatives kept) and leaves the others in place; arms the tick only when it was disarmed; keeps the invariant |
| StableTimers.Scheduler.SetTimeout | index.js:13-21 | setTimer with keepGoing false |
| StableTimers.Scheduler.SetInterval | index.js:37-44 | setTimer with keepGoing true |
| StableTimers.Scheduler.ClearTimeout | index.js:23-35 | the queue becomes Cancelled(queue, id), whatever keepGoing is; the tick is disarmed when the queue is empty and unchanged otherwise; the counter is unchanged; keeps the invariant |
| StableTimers.Scheduler.FireDue | index.js:74-80 | the loop removes the due prefix of the queue, returns it in order, and makes one call per fired entry with [callback, ...args] |
| StableTimers.Scheduler.RunTick | index.js:69-86 | the fired entries are the due prefix of the sorted queue and the rest is the new queue; fired are exactly the old entries with ts <= now, in ascending (ts, id) order; the rest is sorted with ts > now; fired plus rest is a permutation of the old queue; no fired id remains; each call passes [callback, ...args]; the tick is disarmed exactly when the queue is empty; keeps the invariant |
| Scenarios.CancelBeforeDue | index.js:23-35 | a timeout cancelled before it is due fires neither at its due time nor on a later pass, and cancelling the only entry disarms the tick |
| Scenarios.IntervalFiresOnce | index.js:74-80 | an interval fires once, receives its callback and then its argument, and is gone afterwards; the tick is off |
| Scenarios.RegisterFour | index.js:48-53 | four registrations at time 100 build the entries with ids 0 to 3, a negative delay kept and a NaN delay read as 0 |
| Scenarios.FiringOrderSorted | index.js:60-72 | those entries sort by ts, and ties by id regardless of the repeat flag |
| Scenarios.FiringOrderDue | index.js:74-80 | a pass at 104 over that sorted queue fires its first two entries |
| Scenarios.TieIgnoresInterval | index.js:60-72 | two entries due at the same time, one asked for 10 ms and one for 5 ms, sort by id in either starting order, so the longer interval goes first |
| Scenarios.TieFiresById | index.js:69-80 | registered at times 0 and 5 with delays 10 and 5 and fired at 10, the longer interval fires first |

## Left out

- Host timer primitives: `_setInterval` and `_clearInterval` are foreign calls. Arming is represented by the handle the host returns, and cancelling by the tick going back to `Disarmed`. The unused `_setTimeout` and `_clearTimeout` are not modelled.
- The default tick period (`default_interval = 4`) matters only to the host. Timing precision and real time are out of scope.
- `Date.now()`: the clock is the `now` parameter of each operation.
- `console.log` in `setTimeout`: output is not modelled.
- The global lookup through `Function("return this")()` and the overwriting of the global timer functions are glue. The operations are methods of `Scheduler` instead.
- `clearInterval` is assigned the very same function as `clearTimeout` (index.js:46). `ClearTimeout` models both, so there is no separate member.
- Callbacks are assumed not to touch the queue. A callback that calls `setTimeout` or `clearTimeout` during a pass, and so changes the queue before the `shift`, is not modelled.
- Callbacks are assumed to be callable and to return normally. A callback that throws stops the source's pass before the `shift`, so its entry stays in the queue and stays due. In a host that keeps running after an uncaught exception (browsers, or Node with an `uncaughtException` handler), as long as that entry keeps throwing and is not cleared, each later pass calls it again, and the only entries that fire are those that sort ahead of it: a later registration with a negative delay, or one made after the clock stepped back. Nothing behind it fires, and the tick stays armed. A `clearTimeout` of its id still removes it. A callback that throws once and then returns normally is called again on the next pass, so its entry fires twice. A non-callable handler, such as the string handler browsers accept, throws at `.apply` (index.js:76) in the same way; the `Callback` type rules it out. None of this is modelled.
- The `this` value passed to callbacks by `apply` is not modelled.
- The delay is given after the unary plus. Conversion of strings and other values to a number is left to the caller. Fractional and infinite delays are not modelled, since time is a whole number of milliseconds here.
- `clearTimeout`'s `queue[i] &&` guard is always true, because every entry is an array, and arrays are truthy. The id comparison `===` is modelled for integer ids only. A non-number argument matches no entry, just like an unknown id.
- The `!tick` test assumes the host handle is truthy. This holds for Node's timer objects and for browsers' positive ids.
- `counter` is an unbounded integer. The source's number stops producing distinct ids beyond 2^53.
- The host's sorting algorithm is not modelled. `SortQueue` is one algorithm, and `SortIsDetermined` shows that any sort returning a sorted permutation gives the same result when ids are unique.
- SortQueue: the model assumes that `queue.sort(sortTimers)` returns a sorted permutation whenever the comparator is a strict order on the distinct entries it is given. ECMA-262, in its definition of `Array.prototype.sort`, promises a sorted result only for a consistent comparator, which must answer 0 when an element is compared with itself; `sortTimers` answers 1 there (index.js:65, `SortTimersSameKey`). So by the language's rules the order is implementation-defined, though still a permutation. Mainstream engines never compare an element with itself, and on distinct entries with unique ids the comparator is consistent, so `RunTick`'s firing order holds under that assumption only.
- test.js calls `StableTimers.replaceGlobals()` and `StableTimers.setTimeout`, which index.js does not export. It is not part of this model.
