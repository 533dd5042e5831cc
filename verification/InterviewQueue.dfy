/** The queue of nodes waiting for their interview, its one shared timer, and the events posted to
    the monitoring process. Times are in milliseconds. */
module InterviewQueue {
  import opened Wrappers
  import opened Text

  const INTERVIEW_DELAY := 10000

  datatype Pending = Pending(node: nat, due: nat)

  datatype Event = SetTimer(delay: nat) | TimerExpired

  /** `timer` is the deadline of the armed timer; `None` is what `etimer_expired` reports. */
  datatype Queue = Queue(pending: seq<Pending>, timer: Option<nat>, events: seq<Event>)

  function Nodes(pending: seq<Pending>): (r: seq<nat>)
    ensures |r| == |pending|
    ensures forall i :: 0 <= i < |r| ==> r[i] == pending[i].node
  {
    if pending == [] then [] else [pending[0].node] + Nodes(pending[1..])
  }

  /** The element at `i`, if there is one, erased. */
  function Erase<T>(xs: seq<T>, i: nat): seq<T> {
    if i < |xs| then xs[..i] + xs[i + 1..] else xs
  }

  function Post(q: Queue, event: Event): Queue {
    q.(events := q.events + [event])
  }

  /** Milliseconds until `due`, as the removal code computes it. */
  function Remaining(now: nat, due: nat): nat {
    if now < due then due - now else 0
  }

  /** Milliseconds until `due`, as the interview code computes it: the operands are the other way
      round, so the unsigned difference wraps. */
  function WrappedRemaining(now: nat, due: nat): nat {
    if now < due then (now - due) % UINT64 else 0
  }

  function Enqueue(q: Queue, now: nat, node: nat): Queue {
    var q' := q.(pending := q.pending + [Pending(node, now + INTERVIEW_DELAY)]);
    if |q'.pending| == 1 || q.timer.None? then Post(q', SetTimer(INTERVIEW_DELAY)) else q'
  }

  function Remove(q: Queue, now: nat, node: nat): Queue {
    var i := Position(Nodes(q.pending), node);
    var q' := q.(pending := Erase(q.pending, i));
    if i == 0 && |q.pending| > 1 then Post(q', SetTimer(Remaining(now, q.pending[1].due))) else q'
  }

  /** The queue after its first node's interview was started. */
  function TakeFirst(q: Queue, now: nat): Queue {
    if q.pending == [] then q
    else
      var q' := q.(pending := q.pending[1..]);
      if q'.pending == [] then q' else Post(q', SetTimer(WrappedRemaining(now, q'.pending[0].due)))
  }

  /** The timer fires: it is no longer armed and its event is posted. */
  function Expire(q: Queue, now: nat): Queue {
    if q.timer.Some? && q.timer.value <= now then Post(q.(timer := None), TimerExpired) else q
  }

  function HandleEvent(q: Queue, now: nat): Queue {
    if q.events == [] then q
    else
      var q' := q.(events := q.events[1..]);
      match q.events[0]
      case SetTimer(delay) => q'.(timer := Some(now + delay))
      case TimerExpired => TakeFirst(q', now)
  }

  // ---------- order ----------

  /** Entries are in order of their due time, which is never further off than the delay. */
  ghost predicate Ordered(q: Queue, now: nat) {
    && (forall i, j :: 0 <= i < j < |q.pending| ==> q.pending[i].due <= q.pending[j].due)
    && (forall i :: 0 <= i < |q.pending| ==> q.pending[i].due <= now + INTERVIEW_DELAY)
  }

  ghost predicate Distinct(xs: seq<nat>) {
    forall i, j :: 0 <= i < j < |xs| ==> xs[i] != xs[j]
  }

  lemma EraseKeeps<T>(xs: seq<T>, i: nat)
    ensures forall k :: 0 <= k < |Erase(xs, i)| ==> Erase(xs, i)[k] == xs[if k < i then k else k + 1]
    ensures forall x :: x in Erase(xs, i) ==> x in xs
  {}

  lemma ErasedNodes(pending: seq<Pending>, i: nat)
    ensures Nodes(Erase(pending, i)) == Erase(Nodes(pending), i)
  {}

  lemma AppendedNodes(pending: seq<Pending>, p: Pending)
    ensures Nodes(pending + [p]) == Nodes(pending) + [p.node]
  {}

  lemma AppendDistinct(xs: seq<nat>, x: nat)
    requires Distinct(xs) && x !in xs
    ensures Distinct(xs + [x])
  {}

  lemma EraseDistinct(xs: seq<nat>, x: nat)
    requires Distinct(xs)
    ensures Distinct(Erase(xs, Position(xs, x)))
    ensures forall y :: y in Erase(xs, Position(xs, x)) <==> y in xs && y != x
  {
    var i := Position(xs, x);
    EraseKeeps(xs, i);
    var r := Erase(xs, i);
    forall k | 0 <= k < |xs| && xs[k] != x
      ensures xs[k] in r
    {
      assert r[if k < i then k else k - 1] == xs[k];
    }
    if i < |xs| {
      assert forall k :: 0 <= k < |xs| && k != i ==> xs[k] != xs[i];
      assert forall k :: 0 <= k < |r| ==> r[k] != x;
    }
  }

  lemma EnqueueOrdered(q: Queue, now: nat, node: nat)
    requires Ordered(q, now) && Distinct(Nodes(q.pending)) && node !in Nodes(q.pending)
    ensures Ordered(Enqueue(q, now, node), now)
    ensures Nodes(Enqueue(q, now, node).pending) == Nodes(q.pending) + [node]
    ensures Distinct(Nodes(q.pending) + [node])
  {
    AppendedNodes(q.pending, Pending(node, now + INTERVIEW_DELAY));
    AppendDistinct(Nodes(q.pending), node);
    AppendOrdered(q, now, node);
  }

  lemma AppendOrdered(q: Queue, now: nat, node: nat)
    requires Ordered(q, now)
    ensures Ordered(q.(pending := q.pending + [Pending(node, now + INTERVIEW_DELAY)]), now)
  {}

  lemma RemoveOrdered(q: Queue, now: nat, node: nat)
    requires Ordered(q, now) && Distinct(Nodes(q.pending))
    ensures Ordered(Remove(q, now, node), now)
    ensures Distinct(Nodes(Remove(q, now, node).pending))
    ensures forall n :: n in Nodes(Remove(q, now, node).pending) <==> n in Nodes(q.pending) && n != node
    ensures forall p :: p in Remove(q, now, node).pending ==> p in q.pending
  {
    var i := Position(Nodes(q.pending), node);
    ErasedNodes(q.pending, i);
    EraseDistinct(Nodes(q.pending), node);
    EraseOrdered(q, now, i);
  }

  lemma RemoveHead(q: Queue, now: nat)
    requires |q.pending| > 1
    ensures Remove(q, now, q.pending[0].node)
      == Queue(q.pending[1..], q.timer, q.events + [SetTimer(Remaining(now, q.pending[1].due))])
  {
    assert Nodes(q.pending)[0] == q.pending[0].node;
  }

  lemma EraseOrdered(q: Queue, now: nat, i: nat)
    requires Ordered(q, now)
    ensures Ordered(q.(pending := Erase(q.pending, i)), now)
    ensures forall p :: p in Erase(q.pending, i) ==> p in q.pending
  {
    EraseKeeps(q.pending, i);
  }

  lemma TakeFirstOrdered(q: Queue, now: nat)
    requires Ordered(q, now) && Distinct(Nodes(q.pending)) && q.pending != []
    ensures Ordered(TakeFirst(q, now), now)
    ensures Nodes(TakeFirst(q, now).pending) == Nodes(q.pending)[1..]
    ensures Distinct(Nodes(TakeFirst(q, now).pending))
    ensures forall n :: n in Nodes(TakeFirst(q, now).pending) <==> n in Nodes(q.pending) && n != q.pending[0].node
    ensures forall p :: p in TakeFirst(q, now).pending ==> p in q.pending
  {
    var nodes := Nodes(q.pending);
    assert nodes == [nodes[0]] + nodes[1..];
  }

  // ---------- wake-ups ----------

  /** A waiting entry always has a wake-up: the timer is armed or an event is still queued. */
  ghost predicate Awake(q: Queue) {
    q.pending != [] ==> q.timer.Some? || q.events != []
  }

  /** When the timer will fire once every queued event has been handled. */
  function NextWake(q: Queue, now: nat): Option<nat>
    requires TimerExpired !in q.events
  {
    if q.events == [] then q.timer else Some(now + q.events[|q.events| - 1].delay)
  }

  /** How many expiries wait to be handled. */
  function Expiries(q: Queue): nat {
    multiset(q.events)[TimerExpired]
  }

  /** The first `k` entries are due. */
  ghost predicate FirstDue(pending: seq<Pending>, k: nat, now: nat) {
    forall i :: 0 <= i < k && i < |pending| ==> pending[i].due <= now
  }

  /** Every waiting expiry finds a due entry to start, and without one the next wake-up does not come
      before the first entry is due. */
  ghost predicate OnTime(q: Queue, now: nat) {
    && FirstDue(q.pending, Expiries(q), now)
    && (TimerExpired !in q.events && q.pending != [] ==>
          NextWake(q, now).Some? && q.pending[0].due <= NextWake(q, now).value)
  }

  lemma PostedWake(q: Queue, delay: nat, now: nat)
    ensures Expiries(Post(q, SetTimer(delay))) == Expiries(q)
    ensures TimerExpired in Post(q, SetTimer(delay)).events <==> TimerExpired in q.events
    ensures TimerExpired !in q.events ==> NextWake(Post(q, SetTimer(delay)), now) == Some(now + delay)
  {}

  /** Queueing a node keeps the wake-ups on time exactly when each waiting expiry has an older entry to
      start: otherwise it would start the new one. */
  lemma EnqueueOnTime(q: Queue, now: nat, node: nat)
    requires Ordered(q, now) && OnTime(q, now)
    ensures OnTime(Enqueue(q, now, node), now) <==> Expiries(q) <= |q.pending|
  {
    var q' := q.(pending := q.pending + [Pending(node, now + INTERVIEW_DELAY)]);
    PostedWake(q', INTERVIEW_DELAY, now);
    assert Expiries(Enqueue(q, now, node)) == Expiries(q);
    assert q'.pending[|q.pending|].due > now;
  }

  lemma EraseDue(pending: seq<Pending>, i: nat, k: nat, now: nat)
    requires FirstDue(pending, k, now)
    ensures FirstDue(Erase(pending, i), k, now) <==> k <= i || |pending| <= k || pending[k].due <= now
  {
    var rest := Erase(pending, i);
    EraseKeeps(pending, i);
    if i < k < |pending| {
      assert rest[k - 1] == pending[k];
    }
  }

  lemma RemovePosts(q: Queue, now: nat, node: nat)
    ensures var q' := Remove(q, now, node);
      && q'.pending == Erase(q.pending, Position(Nodes(q.pending), node)) && q'.timer == q.timer
      && Expiries(q') == Expiries(q) && (TimerExpired in q'.events <==> TimerExpired in q.events)
  {
    if |q.pending| > 1 {
      var i := Position(Nodes(q.pending), node);
      PostedWake(q.(pending := Erase(q.pending, i)), Remaining(now, q.pending[1].due), now);
    }
  }

  lemma RemoveWakesInTime(q: Queue, now: nat, node: nat)
    requires OnTime(q, now) && TimerExpired !in q.events
    ensures OnTime(Remove(q, now, node), now)
  {
    var i := Position(Nodes(q.pending), node);
    if i == 0 && |q.pending| > 1 {
      RemoveHead(q, now);
      PostedWake(q.(pending := q.pending[1..]), Remaining(now, q.pending[1].due), now);
    } else {
      RemovePosts(q, now, node);
      assert i > 0 && q.pending != [] ==> Erase(q.pending, i)[0] == q.pending[0];
    }
  }

  /** Removing one keeps them on time unless a waiting expiry loses its entry to one not yet due. */
  lemma RemoveOnTime(q: Queue, now: nat, node: nat)
    requires OnTime(q, now)
    ensures var i, k := Position(Nodes(q.pending), node), Expiries(q);
      OnTime(Remove(q, now, node), now) <==> k <= i || |q.pending| <= k || q.pending[k].due <= now
  {
    if TimerExpired in q.events {
      RemovePosts(q, now, node);
      EraseDue(q.pending, Position(Nodes(q.pending), node), Expiries(q), now);
    } else {
      RemoveWakesInTime(q, now, node);
    }
  }

  /** The timer fires on time exactly when it finds an entry that is due, after those that the waiting
      expiries will start, or none at all. */
  lemma ExpireOnTime(q: Queue, now: nat)
    requires OnTime(q, now)
    ensures OnTime(Expire(q, now), now)
      <==> q.timer.None? || now < q.timer.value || |q.pending| <= Expiries(q) || q.pending[Expiries(q)].due <= now
  {
    if q.timer.Some? && q.timer.value <= now {
      var q' := Expire(q, now);
      assert Expiries(q') == Expiries(q) + 1 && TimerExpired in q'.events;
    }
  }

  /** When the first entry is removed, the timer setting posted for the new first entry ends exactly
      when that is due, or at once if it already is; without a waiting expiry it is the next wake-up. */
  lemma RemovalWakesExactly(q: Queue, now: nat)
    requires |q.pending| > 1
    ensures var q' := Remove(q, now, q.pending[0].node);
      var due, wake := q.pending[1].due, q'.events[|q'.events| - 1];
      && q'.events == q.events + [wake] && wake.SetTimer?
      && now + wake.delay == (if now < due then due else now)
      && (TimerExpired !in q.events ==>
            TimerExpired !in q'.events && NextWake(q', now) == Some(now + wake.delay))
  {
    RemoveHead(q, now);
    if TimerExpired !in q.events {
      PostedWake(q.(pending := q.pending[1..]), Remaining(now, q.pending[1].due), now);
    }
  }

  /** After an interview starts, the next entry is woken at once if it is due already. */
  lemma DueNextIsWokenAtOnce(q: Queue, now: nat)
    requires |q.pending| > 1 && q.pending[1].due <= now
    ensures TakeFirst(q, now) == Queue(q.pending[1..], q.timer, q.events + [SetTimer(0)])
  {}

  /** The wrapped difference is at least as long as the right one. */
  lemma WrappedOnlyDelays(now: nat, due: nat)
    requires due <= now + INTERVIEW_DELAY
    ensures due <= now + WrappedRemaining(now, due)
    ensures now < due ==> WrappedRemaining(now, due) == UINT64 - (due - now)
  {
    if now < due {
      assert (now - due) % UINT64 == UINT64 - (due - now);
    }
  }

  /** The two computations of the remaining time agree exactly when nothing remains. */
  lemma WrappedIsRightIffDue(now: nat, due: nat)
    requires due <= now + INTERVIEW_DELAY
    ensures WrappedRemaining(now, due) == Remaining(now, due) <==> due <= now
  {
    WrappedOnlyDelays(now, due);
  }

  lemma HandleOnTime(q: Queue, now: nat)
    requires Ordered(q, now) && OnTime(q, now)
    ensures OnTime(HandleEvent(q, now), now)
  {
    if q.events != [] {
      var q' := q.(events := q.events[1..]);
      assert q.events == [q.events[0]] + q.events[1..];
      if q.events[0].TimerExpired? {
        assert Expiries(q') == Expiries(q) - 1;
        if |q.pending| > 1 {
          WrappedOnlyDelays(now, q.pending[1].due);
          PostedWake(q'.(pending := q.pending[1..]), WrappedRemaining(now, q.pending[1].due), now);
        }
      } else {
        assert Expiries(q') == Expiries(q);
      }
    }
  }
}
