/** The timers of the nodes of a block: a schedule ordered by trigger time, and an index into it.
    Both are kept in step, and so is the next trigger time, except for the one value of it
    that stands for none. */
module NodeTimers {

  datatype Position = Position(x: int, y: int, z: int)

  datatype Timer = Timer(timeout: real, elapsed: real, position: Position)

  /** An entry of the schedule; the identity stands for an iterator to it. */
  datatype Entry = Entry(trigger: real, id: nat, timer: Timer)

  /** The next trigger time of an empty schedule. */
  const NEVER: real := -1.0

  const NO_TIMER := Timer(0.0, 0.0, Position(0, 0, 0))

  // ---------------------------------------------------------------------------
  // The schedule and its index as values
  // ---------------------------------------------------------------------------

  ghost predicate Ordered(timers: seq<Entry>) {
    forall i, j :: 0 <= i < j < |timers| ==> timers[i].trigger <= timers[j].trigger
  }

  ghost predicate DistinctIds(timers: seq<Entry>) {
    forall i, j :: 0 <= i < j < |timers| ==> timers[i].id != timers[j].id
  }

  /** The entry is the one its position leads to. */
  ghost predicate IsIndexed(entry: Entry, iterators: map<Position, nat>, nextId: nat) {
    entry.id < nextId && entry.timer.position in iterators && iterators[entry.timer.position] == entry.id
  }

  ghost predicate HasEntry(timers: seq<Entry>, p: Position, id: nat) {
    exists i :: 0 <= i < |timers| && timers[i].id == id && timers[i].timer.position == p
  }

  /** Schedule and index describe the same set of timers. */
  ghost predicate Indexed(timers: seq<Entry>, iterators: map<Position, nat>, nextId: nat) {
    && DistinctIds(timers)
    && (forall i :: 0 <= i < |timers| ==> IsIndexed(timers[i], iterators, nextId))
    && (forall p :: p in iterators ==> HasEntry(timers, p, iterators[p]))
  }

  /** There is one timer per position. */
  lemma OnePerPosition(timers: seq<Entry>, iterators: map<Position, nat>, nextId: nat, i: nat, j: nat)
    requires Indexed(timers, iterators, nextId) && i < |timers| && j < |timers|
    requires timers[i].timer.position == timers[j].timer.position
    ensures i == j
  {
    assert IsIndexed(timers[i], iterators, nextId) && IsIndexed(timers[j], iterators, nextId);
    assert timers[i].id == timers[j].id;
  }

  lemma DifferentPositions(timers: seq<Entry>, iterators: map<Position, nat>, nextId: nat, i: nat, j: nat)
    requires Indexed(timers, iterators, nextId) && i < |timers| && j < |timers| && i != j
    ensures timers[i].timer.position != timers[j].timer.position
  {
    assert IsIndexed(timers[i], iterators, nextId) && IsIndexed(timers[j], iterators, nextId);
    assert timers[i].id != timers[j].id;
  }

  function IndexOf(timers: seq<Entry>, id: nat): (i: nat)
    ensures i <= |timers| && (i < |timers| ==> timers[i].id == id)
    ensures forall j :: 0 <= j < i ==> timers[j].id != id
  {
    if timers == [] || timers[0].id == id then 0 else 1 + IndexOf(timers[1..], id)
  }

  function Without(timers: seq<Entry>, i: nat): seq<Entry>
    requires i < |timers|
  {
    timers[..i] + timers[i + 1..]
  }

  /** Behind all entries that trigger no later. */
  function UpperBound(timers: seq<Entry>, trigger: real): (i: nat)
    ensures i <= |timers| && (i < |timers| ==> trigger < timers[i].trigger)
    ensures forall j :: 0 <= j < i ==> timers[j].trigger <= trigger
  {
    if timers == [] || trigger < timers[0].trigger then 0 else 1 + UpperBound(timers[1..], trigger)
  }

  function With(timers: seq<Entry>, entry: Entry): seq<Entry> {
    var i := UpperBound(timers, entry.trigger);
    timers[..i] + [entry] + timers[i..]
  }

  lemma WithoutArranged(timers: seq<Entry>, i: nat)
    requires i < |timers|
    ensures Ordered(timers) ==> Ordered(Without(timers, i))
    ensures DistinctIds(timers) ==> DistinctIds(Without(timers, i))
  {
  }

  lemma WithoutIndexed(timers: seq<Entry>, iterators: map<Position, nat>, nextId: nat, i: nat, k: nat)
    requires Indexed(timers, iterators, nextId) && i < |timers| && k < |timers| - 1
    ensures IsIndexed(Without(timers, i)[k], iterators - {timers[i].timer.position}, nextId)
  {
    var was := if k < i then k else k + 1;
    assert Without(timers, i)[k] == timers[was];
    assert IsIndexed(timers[was], iterators, nextId);
    DifferentPositions(timers, iterators, nextId, i, was);
  }

  lemma WithoutHasEntry(timers: seq<Entry>, i: nat, q: Position, id: nat)
    requires HasEntry(timers, q, id) && i < |timers| && timers[i].timer.position != q
    ensures HasEntry(Without(timers, i), q, id)
  {
    var k :| 0 <= k < |timers| && timers[k].id == id && timers[k].timer.position == q;
    assert Without(timers, i)[if k < i then k else k - 1] == timers[k];
  }

  lemma WithoutKeeps(timers: seq<Entry>, iterators: map<Position, nat>, nextId: nat, i: nat)
    requires Indexed(timers, iterators, nextId) && i < |timers|
    ensures Indexed(Without(timers, i), iterators - {timers[i].timer.position}, nextId)
    ensures Ordered(timers) ==> Ordered(Without(timers, i))
  {
    hide IsIndexed;
    hide HasEntry;
    hide Ordered;
    hide DistinctIds;
    WithoutArranged(timers, i);
    var timers', iterators' := Without(timers, i), iterators - {timers[i].timer.position};
    forall k | 0 <= k < |timers'| ensures IsIndexed(timers'[k], iterators', nextId) {
      WithoutIndexed(timers, iterators, nextId, i, k);
    }
    forall q | q in iterators' ensures HasEntry(timers', q, iterators'[q]) {
      WithoutHasEntry(timers, i, q, iterators[q]);
    }
  }

  lemma WithOrdered(timers: seq<Entry>, entry: Entry)
    requires Ordered(timers)
    ensures Ordered(With(timers, entry))
  {
  }

  lemma WithDistinct(timers: seq<Entry>, entry: Entry)
    requires DistinctIds(timers) && forall i :: 0 <= i < |timers| ==> timers[i].id != entry.id
    ensures DistinctIds(With(timers, entry))
  {
  }

  lemma WithArranged(timers: seq<Entry>, entry: Entry)
    ensures Ordered(timers) ==> Ordered(With(timers, entry))
    ensures DistinctIds(timers) && (forall i :: 0 <= i < |timers| ==> timers[i].id != entry.id) ==>
      DistinctIds(With(timers, entry))
  {
    hide Ordered;
    hide DistinctIds;
    hide With;
    if Ordered(timers) {
      WithOrdered(timers, entry);
    }
    if DistinctIds(timers) && forall i :: 0 <= i < |timers| ==> timers[i].id != entry.id {
      WithDistinct(timers, entry);
    }
  }

  lemma WithHasEntry(timers: seq<Entry>, entry: Entry, q: Position, id: nat)
    requires HasEntry(timers, q, id) || (entry.timer.position == q && entry.id == id)
    ensures HasEntry(With(timers, entry), q, id)
  {
    var i := UpperBound(timers, entry.trigger);
    var timers' := With(timers, entry);
    assert timers'[i] == entry;
    if HasEntry(timers, q, id) {
      var k :| 0 <= k < |timers| && timers[k].id == id && timers[k].timer.position == q;
      assert timers'[if k < i then k else k + 1] == timers[k];
    }
  }

  lemma WithIndexed(timers: seq<Entry>, iterators: map<Position, nat>, nextId: nat, entry: Entry, k: nat)
    requires Indexed(timers, iterators, nextId) && entry.id == nextId && entry.timer.position !in iterators
    requires k <= |timers|
    ensures IsIndexed(With(timers, entry)[k], iterators[entry.timer.position := nextId], nextId + 1)
  {
    var i := UpperBound(timers, entry.trigger);
    if k != i {
      var was := if k < i then k else k - 1;
      assert With(timers, entry)[k] == timers[was];
      assert IsIndexed(timers[was], iterators, nextId);
    }
  }

  lemma WithKeeps(timers: seq<Entry>, iterators: map<Position, nat>, nextId: nat, entry: Entry)
    requires Indexed(timers, iterators, nextId) && entry.id == nextId && entry.timer.position !in iterators
    ensures Indexed(With(timers, entry), iterators[entry.timer.position := nextId], nextId + 1)
    ensures Ordered(timers) ==> Ordered(With(timers, entry))
  {
    assert forall i :: 0 <= i < |timers| ==> IsIndexed(timers[i], iterators, nextId) && timers[i].id != nextId;
    hide IsIndexed;
    hide HasEntry;
    hide Ordered;
    hide DistinctIds;
    WithArranged(timers, entry);
    var timers', iterators' := With(timers, entry), iterators[entry.timer.position := nextId];
    forall k | 0 <= k < |timers'| ensures IsIndexed(timers'[k], iterators', nextId + 1) {
      WithIndexed(timers, iterators, nextId, entry, k);
    }
    forall q | q in iterators' ensures HasEntry(timers', q, iterators'[q]) {
      WithHasEntry(timers, entry, q, iterators'[q]);
    }
  }

  /** The same entries but for those at one position. */
  ghost predicate SameElsewhere(a: seq<Entry>, b: seq<Entry>, p: Position) {
    forall e: Entry :: e.timer.position != p ==> (e in a <==> e in b)
  }

  lemma WithoutElsewhere(timers: seq<Entry>, i: nat)
    requires i < |timers|
    ensures SameElsewhere(timers, Without(timers, i), timers[i].timer.position)
  {
    assert timers == timers[..i] + [timers[i]] + timers[i + 1..];
  }

  lemma WithElsewhere(timers: seq<Entry>, entry: Entry)
    ensures SameElsewhere(timers, With(timers, entry), entry.timer.position) && entry in With(timers, entry)
  {
    var i := UpperBound(timers, entry.trigger);
    assert timers == timers[..i] + timers[i..];
    assert With(timers, entry)[i] == entry;
  }

  lemma SameElsewhereTrans(a: seq<Entry>, b: seq<Entry>, c: seq<Entry>, p: Position)
    requires SameElsewhere(a, b, p) && SameElsewhere(b, c, p)
    ensures SameElsewhere(a, c, p)
  {
  }

  /** Without the entries at a position. */
  function Dropped(timers: seq<Entry>, p: Position): seq<Entry> {
    if timers == [] then []
    else (if timers[0].timer.position == p then [] else [timers[0]]) + Dropped(timers[1..], p)
  }

  lemma {:induction false} DroppedNothing(timers: seq<Entry>, p: Position)
    requires forall i :: 0 <= i < |timers| ==> timers[i].timer.position != p
    ensures Dropped(timers, p) == timers
  {
    if timers != [] {
      DroppedNothing(timers[1..], p);
    }
  }

  lemma {:induction false} DroppedOne(timers: seq<Entry>, i: nat)
    requires i < |timers|
    requires forall j :: 0 <= j < |timers| && j != i ==> timers[j].timer.position != timers[i].timer.position
    ensures Dropped(timers, timers[i].timer.position) == Without(timers, i)
  {
    if i == 0 {
      DroppedNothing(timers[1..], timers[0].timer.position);
    } else {
      DroppedOne(timers[1..], i - 1);
      assert Without(timers, i) == [timers[0]] + Without(timers[1..], i - 1);
    }
  }

  /** The index leads to the only entry at a position. */
  lemma DroppedAt(timers: seq<Entry>, iterators: map<Position, nat>, nextId: nat, p: Position)
    requires Indexed(timers, iterators, nextId)
    ensures p !in iterators ==> Dropped(timers, p) == timers
    ensures p in iterators ==>
      var i := IndexOf(timers, iterators[p]);
      i < |timers| && timers[i].timer.position == p && Dropped(timers, p) == Without(timers, i)
  {
    hide Dropped;
    if p in iterators {
      var i := IndexOf(timers, iterators[p]);
      forall j | 0 <= j < |timers| && j != i ensures timers[j].timer.position != timers[i].timer.position {
        DifferentPositions(timers, iterators, nextId, i, j);
      }
      DroppedOne(timers, i);
    } else {
      assert forall j :: 0 <= j < |timers| ==> IsIndexed(timers[j], iterators, nextId);
      DroppedNothing(timers, p);
    }
  }

  /** The soonest trigger time, or never. */
  function Soonest(timers: seq<Entry>): real {
    if timers == [] then NEVER else timers[0].trigger
  }

  /** No trigger time is mistaken for never. */
  ghost predicate NoneIsNever(timers: seq<Entry>) {
    forall i :: 0 <= i < |timers| ==> timers[i].trigger != NEVER
  }

  // ---------------------------------------------------------------------------
  // The list
  // ---------------------------------------------------------------------------

  class NodeTimerList {
    var timers: seq<Entry>
    var iterators: map<Position, nat>
    var nextTriggerTime: real
    var time: real
    var nextId: nat

    ghost predicate Valid()
      reads this
    {
      Ordered(timers) && Indexed(timers, iterators, nextId)
    }

    /** The next trigger time is that of the first timer. */
    ghost predicate Armed()
      reads this
    {
      nextTriggerTime == Soonest(timers) && NoneIsNever(timers)
    }

    constructor ()
      ensures Valid() && Armed() && timers == [] && time == 0.0 && nextId == 0
    {
      timers, iterators := [], map[];
      nextTriggerTime, time, nextId := NEVER, 0.0, 0;
    }

    /** The timer at a position as it stands now. */
    method Get(p: Position) returns (t: Timer)
      requires Valid()
      ensures p !in iterators ==> t == NO_TIMER
      ensures p in iterators ==> exists i ::
        && 0 <= i < |timers| && timers[i].timer.position == p
        && t == timers[i].timer.(elapsed := timers[i].timer.timeout - (timers[i].trigger - time))
    {
      if p !in iterators {
        return NO_TIMER;
      }
      var i := IndexOf(timers, iterators[p]);
      assert HasEntry(timers, p, iterators[p]);
      t := timers[i].timer;
      t := t.(elapsed := t.timeout - (timers[i].trigger - time));
    }

    method Remove(p: Position)
      requires Valid()
      modifies this`timers, this`iterators, this`nextTriggerTime
      ensures Valid() && iterators == old(iterators) - {p}
      ensures p !in old(iterators) ==> timers == old(timers) && nextTriggerTime == old(nextTriggerTime)
      ensures p in old(iterators) ==>
        var i := IndexOf(old(timers), old(iterators)[p]);
        i < |old(timers)| && old(timers)[i].timer.position == p && timers == Without(old(timers), i)
      ensures timers == Dropped(old(timers), p) && SameElsewhere(old(timers), timers, p)
      ensures old(Armed()) ==> Armed()
    {
      hide Ordered;
      hide Indexed;
      hide NoneIsNever;
      hide SameElsewhere;
      hide Dropped;
      SameEverywhere(timers, p);
      DroppedAt(timers, iterators, nextId, p);
      if p in iterators {
        var i := IndexOf(timers, iterators[p]);
        WithoutKeeps(timers, iterators, nextId, i);
        WithoutElsewhere(timers, i);
        WithoutSoonest(timers, i);
        var removedTime := timers[i].trigger;
        timers := Without(timers, i);
        iterators := iterators - {p};
        if removedTime == nextTriggerTime {
          nextTriggerTime := Soonest(timers);
        }
      }
    }

    /** Adds a timer where there is none. */
    method Insert(timer: Timer)
      requires Valid() && timer.position !in iterators
      modifies this`timers, this`iterators, this`nextTriggerTime, this`nextId
      ensures var trigger := time + (timer.timeout - timer.elapsed);
        && Valid() && timers == With(old(timers), Entry(trigger, old(nextId), timer))
        && iterators == old(iterators)[timer.position := old(nextId)] && nextId == old(nextId) + 1
        && (old(Armed()) && trigger != NEVER ==> Armed())
        && nextTriggerTime == Rearmed(old(nextTriggerTime), trigger)
    {
      hide Indexed;
      hide NoneIsNever;
      hide With;
      var triggerTime := time + (timer.timeout - timer.elapsed);
      ghost var entry := Entry(triggerTime, nextId, timer);
      WithKeeps(timers, iterators, nextId, entry);
      RearmedIsSoonest(timers, entry);
      WithSoonest(timers, entry);
      NoneIsNeverFirst(timers);
      timers := With(timers, Entry(triggerTime, nextId, timer));
      iterators := iterators[timer.position := nextId];
      nextId := nextId + 1;
      if nextTriggerTime == NEVER || triggerTime < nextTriggerTime {
        nextTriggerTime := triggerTime;
      }
    }

    /** Replaces the timer at a position. */
    method Set(timer: Timer)
      requires Valid()
      modifies this`timers, this`iterators, this`nextTriggerTime, this`nextId
      ensures Valid() && iterators.Keys == old(iterators).Keys + {timer.position}
      ensures timers == With(Dropped(old(timers), timer.position),
                             Entry(time + (timer.timeout - timer.elapsed), old(nextId), timer))
      ensures Entry(time + (timer.timeout - timer.elapsed), iterators[timer.position], timer) in timers
      ensures SameElsewhere(old(timers), timers, timer.position)
      ensures old(Armed()) && time + (timer.timeout - timer.elapsed) != NEVER ==> Armed()
    {
      hide Ordered;
      hide Indexed;
      hide NoneIsNever;
      hide With;
      hide SameElsewhere;
      ghost var before := timers;
      Remove(timer.position);
      ghost var mid := timers;
      Insert(timer);
      WithElsewhere(mid, Entry(time + (timer.timeout - timer.elapsed), iterators[timer.position], timer));
      SameElsewhereTrans(before, mid, timers, timer.position);
    }

    method Clear()
      modifies this`timers, this`iterators, this`nextTriggerTime
      ensures Valid() && Armed() && timers == [] && iterators == map[]
    {
      timers, iterators := [], map[];
      nextTriggerTime := NEVER;
    }

    /** Moves forward in time and returns timers that elapsed, in the order of their trigger times,
        each with the time since it was started.  These are all that are due if and only if none
        is due or the next trigger time is reached and does not stand for none. */
    method Step(dtime: real) returns (elapsed: seq<Timer>)
      requires Valid()
      modifies this`timers, this`iterators, this`nextTriggerTime, this`time
      ensures Valid() && time == old(time) + dtime
      ensures |elapsed| <= |old(timers)| && timers == old(timers)[|elapsed|..]
      ensures forall i :: 0 <= i < |elapsed| ==>
        && old(timers)[i].trigger <= time
        && elapsed[i] == Fired(old(timers)[i], time) && elapsed[i].elapsed >= elapsed[i].timeout
      ensures DueUpTo(old(timers), |elapsed|, time)
         <==> NoneDue(old(timers), time) || Reached(old(nextTriggerTime), time)
      ensures nextTriggerTime == if Reached(old(nextTriggerTime), time) then Soonest(timers) else old(nextTriggerTime)
      ensures old(Armed()) ==> Armed() && DueUpTo(old(timers), |elapsed|, time)
    {
      hide Ordered;
      hide Indexed;
      hide NoneIsNever;
      NoneIsNeverFirst(timers);
      elapsed := [];
      time := time + dtime;
      assert timers[0..] == timers;
      ArmedIsEnough(timers, nextTriggerTime, time);
      if nextTriggerTime == NEVER || time < nextTriggerTime {
        return;
      }
      var i := 0;
      while i < |timers| && timers[i].trigger <= time
        invariant 0 <= i <= |timers| && |elapsed| == i && timers == old(timers) && time == old(time) + dtime
        invariant forall k :: 0 <= k < i ==> timers[k].trigger <= time && elapsed[k] == Fired(timers[k], time)
        invariant Indexed(timers[i..], iterators, nextId)
      {
        var t := timers[i].timer;
        t := t.(elapsed := t.timeout + (time - timers[i].trigger));
        elapsed := elapsed + [t];
        FirstDropped(timers, i, iterators, nextId);
        iterators := iterators - {t.position};
        i := i + 1;
      }
      AfterDue(timers, i, time);
      timers := timers[i..];
      nextTriggerTime := Soonest(timers);
    }

    /** One step of a block: the timers that elapse fire, and those whose callback asks for it start
        again from the beginning; the others are gone. */
    method StepAndRearm(dtime: real, again: Position -> bool) returns (elapsed: seq<Timer>)
      requires Valid()
      modifies this
      ensures Valid() && time == old(time) + dtime
      ensures |elapsed| <= |old(timers)|
      ensures DueUpTo(old(timers), |elapsed|, time)
         <==> NoneDue(old(timers), time) || Reached(old(nextTriggerTime), time)
      ensures forall i :: 0 <= i < |elapsed| ==> elapsed[i] == Fired(old(timers)[i], time)
      ensures Rearming(elapsed, again, |elapsed|, timers, iterators, time)
      ensures Retained(old(timers)[|elapsed|..], timers)
      ensures NothingElse(old(timers)[|elapsed|..], elapsed, again, |elapsed|, timers, time)
      ensures old(Armed()) && (forall i :: 0 <= i < |elapsed| ==> time + elapsed[i].timeout != NEVER) ==> Armed()
    {
      hide Ordered;
      hide Indexed;
      hide NoneIsNever;
      hide Scheduled;
      hide SameElsewhere;
      hide FiredAndGone;
      hide Rearming;
      hide Retained;
      hide NothingElse;
      hide DueUpTo;
      hide NoneDue;
      hide With;
      hide Dropped;
      ghost var before, index := timers, iterators;
      elapsed := Step(dtime);
      FiredAreGone(before, index, elapsed, time, timers, iterators, nextId);
      RearmNone(elapsed, again, timers, iterators, time);
      ghost var rest, restIndex, nextIdThen := timers, iterators, nextId;
      RetainedAll(rest);
      NothingElseYet(rest, elapsed, again, time);
      for i := 0 to |elapsed|
        invariant Valid() && time == old(time) + dtime
        invariant Rearming(elapsed, again, i, timers, iterators, time) && Retained(rest, timers)
        invariant NothingElse(rest, elapsed, again, i, timers, time)
        invariant old(Armed()) && (forall i :: 0 <= i < |elapsed| ==> time + elapsed[i].timeout != NEVER) ==> Armed()
      {
        ghost var mid, midIndex, id := timers, iterators, nextId;
        if again(elapsed[i].position) {
          RetainedMore(rest, restIndex, nextIdThen, elapsed, i);
          Set(Timer(elapsed[i].timeout, 0.0, elapsed[i].position));
          RetainedStep(rest, mid, timers, elapsed[i].position);
        }
        RearmOne(elapsed, again, i, mid, midIndex, time, timers, iterators);
        NothingElseOne(rest, elapsed, again, i, mid, timers, time, id);
      }
    }
  }

  /** A timer is scheduled for a time. */
  ghost predicate Scheduled(timers: seq<Entry>, trigger: real, timer: Timer) {
    exists e :: e in timers && e.trigger == trigger && e.timer == timer
  }

  /** The timers that fired sat at different positions, and those positions are free now. */
  ghost predicate FiredAndGone(elapsed: seq<Timer>, iterators: map<Position, nat>, from: nat) {
    && (forall i, j :: 0 <= i < j < |elapsed| ==> elapsed[i].position != elapsed[j].position)
    && (forall i :: from <= i < |elapsed| ==> elapsed[i].position !in iterators)
  }

  lemma FiredAreGone(before: seq<Entry>, iterators: map<Position, nat>, elapsed: seq<Timer>, now: real,
                     timers: seq<Entry>, iterators': map<Position, nat>, nextId: nat)
    requires Indexed(before, iterators, nextId) && Indexed(timers, iterators', nextId)
    requires |elapsed| <= |before| && timers == before[|elapsed|..]
    requires forall i :: 0 <= i < |elapsed| ==> elapsed[i] == Fired(before[i], now)
    ensures FiredAndGone(elapsed, iterators', 0)
  {
    forall i, j | 0 <= i < |elapsed| && i < j < |before|
      ensures before[i].timer.position != before[j].timer.position
    {
      DifferentPositions(before, iterators, nextId, i, j);
    }
    forall i | 0 <= i < |elapsed| ensures elapsed[i].position !in iterators' {
      forall k | 0 <= k < |timers| ensures timers[k].timer.position != elapsed[i].position {
        assert timers[k] == before[|elapsed| + k];
        DifferentPositions(before, iterators, nextId, i, |elapsed| + k);
      }
      assert forall id :: !HasEntry(timers, elapsed[i].position, id);
    }
  }

  /** What re-arming has done for the first n timers that fired. */
  ghost predicate Rearming(elapsed: seq<Timer>, again: Position -> bool, n: nat, timers: seq<Entry>,
                           iterators: map<Position, nat>, now: real)
  {
    && n <= |elapsed| && FiredAndGone(elapsed, iterators, n)
    && forall i :: 0 <= i < n ==>
         if again(elapsed[i].position) then Scheduled(timers, now + elapsed[i].timeout, elapsed[i].(elapsed := 0.0))
         else elapsed[i].position !in iterators
  }

  lemma RearmNone(elapsed: seq<Timer>, again: Position -> bool, timers: seq<Entry>, iterators: map<Position, nat>,
                  now: real)
    requires FiredAndGone(elapsed, iterators, 0)
    ensures Rearming(elapsed, again, 0, timers, iterators, now)
  {
  }

  /** The entries are all still there. */
  ghost predicate Retained(rest: seq<Entry>, timers: seq<Entry>) {
    forall i :: 0 <= i < |rest| ==> rest[i] in timers
  }

  lemma RetainedAll(rest: seq<Entry>)
    ensures Retained(rest, rest)
  {
  }

  /** An entry is that of one of the first n timers that fired and that start again. */
  ghost predicate IsRearmed(e: Entry, elapsed: seq<Timer>, again: Position -> bool, n: nat, now: real) {
    exists i :: 0 <= i < n && i < |elapsed| && again(elapsed[i].position)
      && e.trigger == now + elapsed[i].timeout && e.timer == elapsed[i].(elapsed := 0.0)
  }

  /** Every entry is a retained one or that of a timer started again. */
  ghost predicate NothingElse(rest: seq<Entry>, elapsed: seq<Timer>, again: Position -> bool, n: nat,
                              timers: seq<Entry>, now: real)
  {
    forall e :: e in timers ==> e in rest || IsRearmed(e, elapsed, again, n, now)
  }

  lemma NothingElseYet(rest: seq<Entry>, elapsed: seq<Timer>, again: Position -> bool, now: real)
    ensures NothingElse(rest, elapsed, again, 0, rest, now)
  {
  }

  lemma NothingElseOne(rest: seq<Entry>, elapsed: seq<Timer>, again: Position -> bool, n: nat,
                       timers: seq<Entry>, timers': seq<Entry>, now: real, id: nat)
    requires NothingElse(rest, elapsed, again, n, timers, now) && n < |elapsed|
    requires var t := elapsed[n];
      if again(t.position) then
        timers' == With(Dropped(timers, t.position), Entry(now + t.timeout, id, t.(elapsed := 0.0)))
      else timers' == timers
    ensures NothingElse(rest, elapsed, again, n + 1, timers', now)
  {
    hide With;
    hide Dropped;
    var t := elapsed[n];
    forall e | e in timers' ensures e in rest || IsRearmed(e, elapsed, again, n + 1, now) {
      if again(t.position) {
        WithMembers(Dropped(timers, t.position), Entry(now + t.timeout, id, t.(elapsed := 0.0)));
        DroppedMembers(timers, t.position);
      }
      if IsRearmed(e, elapsed, again, n, now) {
        var i :| 0 <= i < n && i < |elapsed| && again(elapsed[i].position)
          && e.trigger == now + elapsed[i].timeout && e.timer == elapsed[i].(elapsed := 0.0);
      }
    }
  }

  lemma WithMembers(timers: seq<Entry>, entry: Entry)
    ensures forall e :: e in With(timers, entry) ==> e in timers || e == entry
  {
  }

  lemma {:induction false} DroppedMembers(timers: seq<Entry>, p: Position)
    ensures forall e :: e in Dropped(timers, p) ==> e in timers
  {
    if timers != [] {
      DroppedMembers(timers[1..], p);
    }
  }

  lemma RetainedMore(rest: seq<Entry>, iterators: map<Position, nat>, nextId: nat, elapsed: seq<Timer>, i: nat)
    requires Indexed(rest, iterators, nextId) && FiredAndGone(elapsed, iterators, 0) && i < |elapsed|
    ensures forall k :: 0 <= k < |rest| ==> rest[k].timer.position != elapsed[i].position
  {
    assert forall k :: 0 <= k < |rest| ==> IsIndexed(rest[k], iterators, nextId);
  }

  lemma RetainedStep(rest: seq<Entry>, timers: seq<Entry>, timers': seq<Entry>, p: Position)
    requires Retained(rest, timers) && SameElsewhere(timers, timers', p)
    requires forall k :: 0 <= k < |rest| ==> rest[k].timer.position != p
    ensures Retained(rest, timers')
  {
  }

  lemma RearmOne(elapsed: seq<Timer>, again: Position -> bool, n: nat, timers: seq<Entry>,
                 iterators: map<Position, nat>,
                 now: real, timers': seq<Entry>, iterators': map<Position, nat>)
    requires Rearming(elapsed, again, n, timers, iterators, now) && n < |elapsed|
    requires var t := elapsed[n];
      if again(t.position) then
        && iterators'.Keys == iterators.Keys + {t.position} && SameElsewhere(timers, timers', t.position)
        && Scheduled(timers', now + t.timeout, t.(elapsed := 0.0))
      else timers' == timers && iterators' == iterators
    ensures Rearming(elapsed, again, n + 1, timers', iterators', now)
  {
    forall i | 0 <= i < n && again(elapsed[i].position)
      ensures Scheduled(timers', now + elapsed[i].timeout, elapsed[i].(elapsed := 0.0))
    {
      assert elapsed[i].position != elapsed[n].position;
    }
  }

  /** Exactly the first n are due by now. */
  ghost predicate DueUpTo(timers: seq<Entry>, n: nat, now: real) {
    && n <= |timers|
    && (forall i :: 0 <= i < n ==> timers[i].trigger <= now)
    && (forall i :: n <= i < |timers| ==> timers[i].trigger > now)
  }

  ghost predicate NoneDue(timers: seq<Entry>, now: real) {
    forall i :: 0 <= i < |timers| ==> timers[i].trigger > now
  }

  /** What a step looks at before it looks at the timers. */
  predicate Reached(next: real, now: real) {
    next != NEVER && next <= now
  }

  /** A next trigger time that is that of the first timer does not keep due timers waiting. */
  lemma ArmedIsEnough(timers: seq<Entry>, next: real, now: real)
    requires Ordered(timers)
    ensures DueUpTo(timers, 0, now) <==> NoneDue(timers, now)
    ensures next == Soonest(timers) && NoneIsNever(timers) ==> NoneDue(timers, now) || Reached(next, now)
  {
  }

  lemma SameEverywhere(timers: seq<Entry>, p: Position)
    ensures SameElsewhere(timers, timers, p)
  {
  }

  lemma NoneIsNeverFirst(timers: seq<Entry>)
    ensures NoneIsNever(timers) && timers != [] ==> timers[0].trigger != NEVER
  {
  }

  lemma WithoutSoonest(timers: seq<Entry>, i: nat)
    requires i < |timers| && Ordered(timers)
    ensures NoneIsNever(timers) ==> NoneIsNever(Without(timers, i))
    ensures timers[i].trigger != timers[0].trigger ==> Soonest(Without(timers, i)) == Soonest(timers)
  {
  }

  lemma FirstDropped(timers: seq<Entry>, i: nat, iterators: map<Position, nat>, nextId: nat)
    requires i < |timers| && Indexed(timers[i..], iterators, nextId)
    ensures Indexed(timers[i + 1..], iterators - {timers[i].timer.position}, nextId)
  {
    hide Indexed;
    hide Ordered;
    WithoutKeeps(timers[i..], iterators, nextId, 0);
    assert Without(timers[i..], 0) == timers[i + 1..];
  }

  lemma AfterDue(timers: seq<Entry>, i: nat, now: real)
    requires i <= |timers| && Ordered(timers) && (i < |timers| ==> timers[i].trigger > now)
    ensures Ordered(timers[i..]) && (NoneIsNever(timers) ==> NoneIsNever(timers[i..]))
    ensures forall k :: i <= k < |timers| ==> timers[k].trigger > now
  {
    assert forall k :: 0 <= k < |timers[i..]| ==> timers[i..][k] == timers[i + k];
  }

  /** A timer as it is reported when it fires. */
  function Fired(entry: Entry, now: real): Timer {
    entry.timer.(elapsed := entry.timer.timeout + (now - entry.trigger))
  }

  /** How the next trigger time is kept when a timer is added. */
  function Rearmed(next: real, trigger: real): real {
    if next == NEVER || trigger < next then trigger else next
  }

  /** It stays that of the first timer exactly if no first timer is mistaken for none. */
  lemma RearmedIsSoonest(timers: seq<Entry>, entry: Entry)
    requires Ordered(timers)
    ensures Rearmed(Soonest(timers), entry.trigger) == Soonest(With(timers, entry))
      <==> timers == [] || timers[0].trigger != NEVER || entry.trigger <= NEVER
  {
  }

  /** A timer that is set at time zero, one second beyond its timeout, is due at once, but its
      trigger time stands for none. */
  lemma TimerOverlooked(p: Position, now: real)
    requires now >= 0.0
    ensures var timer := Timer(1.0, 2.0, p);
      var entry := Entry(0.0 + (timer.timeout - timer.elapsed), 0, timer);
      var timers := With([], entry);
      && Rearmed(NEVER, entry.trigger) == Soonest(timers)
      && !NoneDue(timers, now) && !Reached(Rearmed(NEVER, entry.trigger), now)
  {
    var entry := Entry(NEVER, 0, Timer(1.0, 2.0, p));
    assert With([], entry) == [entry];
    assert [entry][0].trigger <= now;
  }

  /** In a list of its own that timer is never returned, however long one waits. */
  method DueTimerIsMissed(p: Position, dtime: real) returns (list: NodeTimerList, elapsed: seq<Timer>)
    requires dtime >= 0.0
    ensures fresh(list) && list.time == dtime && elapsed == []
    ensures list.timers == [Entry(NEVER, 0, Timer(1.0, 2.0, p))]
    ensures list.timers[0].trigger <= list.time
  {
    list := new NodeTimerList();
    list.Insert(Timer(1.0, 2.0, p));
    TimerOverlooked(p, dtime);
    assert list.timers == [Entry(NEVER, 0, Timer(1.0, 2.0, p))];
    elapsed := list.Step(dtime);
  }

  lemma WithSoonest(timers: seq<Entry>, entry: Entry)
    requires Ordered(timers)
    ensures Soonest(With(timers, entry))
         == if timers == [] || entry.trigger < timers[0].trigger then entry.trigger else timers[0].trigger
    ensures NoneIsNever(timers) && entry.trigger != NEVER ==> NoneIsNever(With(timers, entry))
  {
  }
}
