/** Whole uses of a timer list, in which a timer that is left alone fires exactly once. */
module NodeTimerRuns {
  import opened NodeTimers

  datatype Command =
    | SetTimer(timer: Timer)
    | RemoveTimer(position: Position)
    | ClearTimers
    | Advance(dtime: real)

  /** The schedule and the time between two commands. */
  datatype Moment = Moment(timers: seq<Entry>, time: real)

  // ---------------------------------------------------------------------------
  // One command
  // ---------------------------------------------------------------------------

  /** What a command does to the schedule and the time, and what it reports. */
  ghost predicate Does(command: Command, before: Moment, after: Moment, output: seq<Timer>) {
    match command
    case SetTimer(timer) =>
      && after.time == before.time && output == []
      && exists id :: after.timers == With(Dropped(before.timers, timer.position), EntryFor(timer, before.time, id))
    case RemoveTimer(p) =>
      after.time == before.time && output == [] && after.timers == Dropped(before.timers, p)
    case ClearTimers =>
      after.time == before.time && output == [] && after.timers == []
    case Advance(dtime) =>
      && after.time == before.time + dtime
      && DueUpTo(before.timers, |output|, after.time) && after.timers == before.timers[|output|..]
      && forall i :: 0 <= i < |output| ==> output[i] == Fired(before.timers[i], after.time)
  }

  function EntryFor(timer: Timer, now: real, id: nat): Entry {
    Entry(now + (timer.timeout - timer.elapsed), id, timer)
  }

  /** There is at most one timer at each position. */
  ghost predicate OneEach(timers: seq<Entry>) {
    forall i, j :: 0 <= i < j < |timers| ==> timers[i].timer.position != timers[j].timer.position
  }

  ghost predicate NoneAt(timers: seq<Entry>, p: Position) {
    forall i :: 0 <= i < |timers| ==> timers[i].timer.position != p
  }

  lemma {:induction false} DroppedKeeps(timers: seq<Entry>, p: Position)
    ensures NoneAt(Dropped(timers, p), p)
    ensures forall e :: e in Dropped(timers, p) <==> e in timers && e.timer.position != p
    ensures OneEach(timers) ==> OneEach(Dropped(timers, p))
  {
    if timers != [] {
      var tail := Dropped(timers[1..], p);
      DroppedKeeps(timers[1..], p);
      assert timers == [timers[0]] + timers[1..];
      if OneEach(timers) {
        assert forall i :: 0 <= i < |tail| ==> tail[i] in timers[1..];
      }
    }
  }

  lemma WithKeepsOneEach(timers: seq<Entry>, entry: Entry)
    requires OneEach(timers) && NoneAt(timers, entry.timer.position)
    ensures OneEach(With(timers, entry))
  {
  }

  lemma SuffixKeeps(timers: seq<Entry>, n: nat)
    requires OneEach(timers) && n <= |timers|
    ensures OneEach(timers[n..])
    ensures forall i :: 0 <= i < n ==> NoneAt(timers[n..], timers[i].timer.position)
  {
  }

  lemma DoesKeepsOneEach(command: Command, before: Moment, after: Moment, output: seq<Timer>)
    requires Does(command, before, after, output) && OneEach(before.timers)
    ensures OneEach(after.timers)
  {
    hide OneEach;
    match command
    case SetTimer(timer) =>
      DroppedKeeps(before.timers, timer.position);
      var id :| after.timers == With(Dropped(before.timers, timer.position), EntryFor(timer, before.time, id));
      hide With;
      WithKeepsOneEach(Dropped(before.timers, timer.position), EntryFor(timer, before.time, id));
    case RemoveTimer(p) =>
      DroppedKeeps(before.timers, p);
    case ClearTimers =>
      NothingIsOneEach();
    case Advance(_) =>
      SuffixKeeps(before.timers, |output|);
  }

  lemma NothingIsOneEach()
    ensures OneEach([])
  {
  }

  predicate Touches(command: Command, p: Position) {
    match command
    case SetTimer(timer) => timer.position == p
    case RemoveTimer(position) => position == p
    case ClearTimers => true
    case Advance(_) => false
  }

  /** A command reaches a trigger time. */
  predicate Reaches(command: Command, after: Moment, trigger: real) {
    command.Advance? && trigger <= after.time
  }

  /** How often a position is reported. */
  function ReportsAt(output: seq<Timer>, p: Position): nat {
    if output == [] then 0 else ReportsAt(output[1..], p) + if output[0].position == p then 1 else 0
  }

  lemma {:induction false} ReportsNone(output: seq<Timer>, p: Position)
    requires forall i :: 0 <= i < |output| ==> output[i].position != p
    ensures ReportsAt(output, p) == 0
  {
    if output != [] {
      ReportsNone(output[1..], p);
    }
  }

  lemma {:induction false} ReportsOne(output: seq<Timer>, i: nat)
    requires i < |output|
    requires forall j :: 0 <= j < |output| && j != i ==> output[j].position != output[i].position
    ensures ReportsAt(output, output[i].position) == 1
  {
    if i == 0 {
      ReportsNone(output[1..], output[0].position);
    } else {
      ReportsOne(output[1..], i - 1);
    }
  }

  /** What a command does to a timer at a position it does not touch: it stays, or it is reported
      once and is gone. */
  lemma CommandFate(command: Command, before: Moment, after: Moment, output: seq<Timer>, e: Entry)
    requires Does(command, before, after, output) && OneEach(before.timers)
    requires e in before.timers && !Touches(command, e.timer.position)
    ensures if Reaches(command, after, e.trigger) then
        && ReportsAt(output, e.timer.position) == 1 && Fired(e, after.time) in output
        && NoneAt(after.timers, e.timer.position)
      else ReportsAt(output, e.timer.position) == 0 && e in after.timers
  {
    match command
    case SetTimer(timer) =>
      DroppedKeeps(before.timers, timer.position);
      var id :| after.timers == With(Dropped(before.timers, timer.position), EntryFor(timer, before.time, id));
      WithElsewhere(Dropped(before.timers, timer.position), EntryFor(timer, before.time, id));
    case RemoveTimer(p) =>
      DroppedKeeps(before.timers, p);
    case ClearTimers =>
    case Advance(dtime) =>
      AdvanceFate(before, after, output, e);
  }

  lemma AdvanceFate(before: Moment, after: Moment, output: seq<Timer>, e: Entry)
    requires DueUpTo(before.timers, |output|, after.time) && after.timers == before.timers[|output|..]
    requires forall i :: 0 <= i < |output| ==> output[i] == Fired(before.timers[i], after.time)
    requires OneEach(before.timers) && e in before.timers
    ensures if e.trigger <= after.time then
        && ReportsAt(output, e.timer.position) == 1 && Fired(e, after.time) in output
        && NoneAt(after.timers, e.timer.position)
      else ReportsAt(output, e.timer.position) == 0 && e in after.timers
  {
    var i :| 0 <= i < |before.timers| && before.timers[i] == e;
    SuffixKeeps(before.timers, |output|);
    if i < |output| {
      assert output[i] == Fired(e, after.time);
      ReportsOne(output, i);
    } else {
      assert after.timers[i - |output|] == e;
      ReportsNone(output, e.timer.position);
    }
  }

  /** Nothing is reported for a position without a timer. */
  lemma NothingFate(command: Command, before: Moment, after: Moment, output: seq<Timer>, p: Position)
    requires Does(command, before, after, output) && NoneAt(before.timers, p) && !Touches(command, p)
    ensures ReportsAt(output, p) == 0 && NoneAt(after.timers, p)
  {
    hide NoneAt;
    hide Dropped;
    hide With;
    match command
    case SetTimer(timer) =>
      var dropped := Dropped(before.timers, timer.position);
      DroppedNone(before.timers, timer.position, p);
      var id :| after.timers == With(dropped, EntryFor(timer, before.time, id));
      WithNone(dropped, EntryFor(timer, before.time, id), p);
    case RemoveTimer(q) =>
      DroppedNone(before.timers, q, p);
    case ClearTimers =>
    case Advance(_) =>
      NoneReported(before, after, output, p);
  }

  lemma DroppedNone(timers: seq<Entry>, q: Position, p: Position)
    requires NoneAt(timers, p)
    ensures NoneAt(Dropped(timers, q), p)
  {
    DroppedKeeps(timers, q);
    hide Dropped;
    var dropped := Dropped(timers, q);
    forall i | 0 <= i < |dropped| ensures dropped[i].timer.position != p {
      assert dropped[i] in timers;
    }
  }

  lemma WithNone(timers: seq<Entry>, entry: Entry, p: Position)
    requires NoneAt(timers, p) && entry.timer.position != p
    ensures NoneAt(With(timers, entry), p)
  {
  }

  lemma NoneReported(before: Moment, after: Moment, output: seq<Timer>, p: Position)
    requires |output| <= |before.timers| && after.timers == before.timers[|output|..] && NoneAt(before.timers, p)
    requires forall i :: 0 <= i < |output| ==> output[i] == Fired(before.timers[i], after.time)
    ensures ReportsAt(output, p) == 0 && NoneAt(after.timers, p)
  {
    ReportsNone(output, p);
  }

  // ---------------------------------------------------------------------------
  // Runs
  // ---------------------------------------------------------------------------

  ghost predicate IsTimerRun(moments: seq<Moment>, commands: seq<Command>, outputs: seq<seq<Timer>>) {
    && |moments| == |commands| + 1 && |outputs| == |commands|
    && OneEach(moments[0].timers)
    && forall k :: 0 <= k < |commands| ==> Does(commands[k], moments[k], moments[k + 1], outputs[k])
  }

  /** At every moment there is at most one timer at each position. */
  lemma {:induction false} RunKeepsOneEach(moments: seq<Moment>, commands: seq<Command>, outputs: seq<seq<Timer>>,
                                           k: nat)
    requires IsTimerRun(moments, commands, outputs) && k < |moments|
    ensures OneEach(moments[k].timers)
  {
    hide Does;
    hide OneEach;
    if k > 0 {
      RunKeepsOneEach(moments, commands, outputs, k - 1);
      DoesKeepsOneEach(commands[k - 1], moments[k - 1], moments[k], outputs[k - 1]);
    }
  }

  /** No command from i up to but not including n sets or removes a timer at the position. */
  ghost predicate LeftAlone(commands: seq<Command>, i: nat, n: nat, p: Position) {
    n <= |commands| && forall k :: i <= k < n ==> !Touches(commands[k], p)
  }

  /** A step from the i-th command up to but not including the n-th reaches the trigger time. */
  ghost predicate ReachedBetween(moments: seq<Moment>, commands: seq<Command>, i: nat, n: nat, trigger: real) {
    && n <= |commands| < |moments|
    && exists k :: i <= k < n && Reaches(commands[k], moments[k + 1], trigger)
  }

  /** A timer that is left alone is there until a step reaches its trigger time, and not after. */
  lemma {:induction false} EntryFate(moments: seq<Moment>, commands: seq<Command>, outputs: seq<seq<Timer>>,
                                     i: nat, n: nat, e: Entry)
    requires IsTimerRun(moments, commands, outputs) && i <= n <= |commands|
    requires e in moments[i].timers && LeftAlone(commands, i, n, e.timer.position)
    ensures if ReachedBetween(moments, commands, i, n, e.trigger) then NoneAt(moments[n].timers, e.timer.position)
      else e in moments[n].timers
    decreases n
  {
    hide Does;
    hide OneEach;
    hide NoneAt;
    if i < n {
      var k := n - 1;
      EntryFate(moments, commands, outputs, i, k, e);
      RunKeepsOneEach(moments, commands, outputs, k);
      if ReachedBetween(moments, commands, i, k, e.trigger) {
        NothingFate(commands[k], moments[k], moments[n], outputs[k], e.timer.position);
      } else {
        CommandFate(commands[k], moments[k], moments[n], outputs[k], e);
      }
    }
  }

  /** What each command reports of a timer that is left alone: the first step that reaches its
      trigger time reports it once, with at least its timeout elapsed, and no other does. */
  lemma ReportFate(moments: seq<Moment>, commands: seq<Command>, outputs: seq<seq<Timer>>, i: nat, j: nat, e: Entry)
    requires IsTimerRun(moments, commands, outputs) && i <= j < |commands|
    requires e in moments[i].timers && LeftAlone(commands, i, j + 1, e.timer.position)
    ensures var reaches := Reaches(commands[j], moments[j + 1], e.trigger);
      var first := reaches && !ReachedBetween(moments, commands, i, j, e.trigger);
      && ReportsAt(outputs[j], e.timer.position) == (if first then 1 else 0)
      && (first ==>
            var fired := Fired(e, moments[j + 1].time);
            fired in outputs[j] && fired.elapsed >= fired.timeout)
  {
    hide Does;
    hide OneEach;
    hide NoneAt;
    EntryFate(moments, commands, outputs, i, j, e);
    RunKeepsOneEach(moments, commands, outputs, j);
    if ReachedBetween(moments, commands, i, j, e.trigger) {
      NothingFate(commands[j], moments[j], moments[j + 1], outputs[j], e.timer.position);
    } else {
      CommandFate(commands[j], moments[j], moments[j + 1], outputs[j], e);
    }
  }

  /** In any run, a timer that is neither reset nor removed is reported by exactly one command,
      the first step that reaches its trigger time, exactly once; if no step reaches it, it is
      never reported and is still there. */
  lemma FiresExactlyOnce(moments: seq<Moment>, commands: seq<Command>, outputs: seq<seq<Timer>>, i: nat, n: nat,
                         e: Entry)
    requires IsTimerRun(moments, commands, outputs) && i <= n <= |commands|
    requires e in moments[i].timers && LeftAlone(commands, i, n, e.timer.position)
    ensures ReachedBetween(moments, commands, i, n, e.trigger) ==> exists k ::
      && i <= k < n && Reaches(commands[k], moments[k + 1], e.trigger)
      && Fired(e, moments[k + 1].time) in outputs[k] && Fired(e, moments[k + 1].time).elapsed >= e.timer.timeout
      && (forall j :: i <= j < k ==> !Reaches(commands[j], moments[j + 1], e.trigger))
      && (forall j :: i <= j < n ==> ReportsAt(outputs[j], e.timer.position) == if j == k then 1 else 0)
    ensures !ReachedBetween(moments, commands, i, n, e.trigger) ==>
      && e in moments[n].timers
      && forall j :: i <= j < n ==> ReportsAt(outputs[j], e.timer.position) == 0
  {
    hide IsTimerRun;
    RunShape(moments, commands, outputs);
    EntryFate(moments, commands, outputs, i, n, e);
    forall j | i <= j < n
      ensures ReportsAt(outputs[j], e.timer.position)
           == if Reaches(commands[j], moments[j + 1], e.trigger) && !ReachedBetween(moments, commands, i, j, e.trigger)
              then 1 else 0
    {
      ReportFate(moments, commands, outputs, i, j, e);
    }
    if ReachedBetween(moments, commands, i, n, e.trigger) {
      var k := FirstReach(moments, commands, i, n, e.trigger);
      ReportFate(moments, commands, outputs, i, k, e);
    }
  }

  /** How long a timer has been elapsing, by the time it was set with and what has passed since. */
  function ElapsedBy(timer: Timer, whenSet: Moment, now: Moment): real {
    timer.elapsed + (now.time - whenSet.time)
  }

  /** A step from the i-th command up to but not including the n-th finds the timer's timeout elapsed. */
  ghost predicate TimedOut(moments: seq<Moment>, commands: seq<Command>, timer: Timer, whenSet: Moment,
                           i: nat, n: nat) {
    && n <= |commands| < |moments|
    && exists k :: i <= k < n && commands[k].Advance? && ElapsedBy(timer, whenSet, moments[k + 1]) >= timer.timeout
  }

  /** A timer that is set and then left alone is reported by the first step at which its timeout
      has elapsed since it was set, with the time it has been elapsing, and at no other time. */
  lemma SetFiresInTime(moments: seq<Moment>, commands: seq<Command>, outputs: seq<seq<Timer>>, i: nat, k: nat)
    requires IsTimerRun(moments, commands, outputs) && i < k < |commands| && commands[i].SetTimer?
    requires LeftAlone(commands, i + 1, k + 1, commands[i].timer.position)
    ensures var timer := commands[i].timer;
      var elapsed := ElapsedBy(timer, moments[i], moments[k + 1]);
      if commands[k].Advance? && elapsed >= timer.timeout
         && !TimedOut(moments, commands, timer, moments[i], i + 1, k)
      then ReportsAt(outputs[k], timer.position) == 1 && timer.(elapsed := elapsed) in outputs[k]
      else ReportsAt(outputs[k], timer.position) == 0
  {
    var timer := commands[i].timer;
    var e := SetEntry(timer, moments[i], moments[i + 1], outputs[i]);
    hide IsTimerRun;
    hide LeftAlone;
    hide ReportsAt;
    RunShape(moments, commands, outputs);
    ReportFate(moments, commands, outputs, i + 1, k, e);
    assert forall j :: 0 <= j < |commands| ==>
      (Reaches(commands[j], moments[j + 1], e.trigger)
       <==> commands[j].Advance? && ElapsedBy(timer, moments[i], moments[j + 1]) >= timer.timeout);
    assert Fired(e, moments[k + 1].time) == timer.(elapsed := ElapsedBy(timer, moments[i], moments[k + 1]));
  }

  lemma SetEntry(timer: Timer, before: Moment, after: Moment, output: seq<Timer>) returns (e: Entry)
    requires Does(SetTimer(timer), before, after, output)
    ensures e in after.timers && e.timer == timer && e.trigger == before.time + (timer.timeout - timer.elapsed)
  {
    var id :| after.timers == With(Dropped(before.timers, timer.position), EntryFor(timer, before.time, id));
    e := EntryFor(timer, before.time, id);
    hide Dropped;
  }

  lemma RunShape(moments: seq<Moment>, commands: seq<Command>, outputs: seq<seq<Timer>>)
    requires IsTimerRun(moments, commands, outputs)
    ensures |moments| == |commands| + 1 && |outputs| == |commands|
  {
  }

  lemma {:induction false} FirstReach(moments: seq<Moment>, commands: seq<Command>, i: nat, n: nat, trigger: real)
      returns (k: nat)
    requires ReachedBetween(moments, commands, i, n, trigger)
    ensures i <= k < n <= |commands| < |moments| && Reaches(commands[k], moments[k + 1], trigger)
    ensures !ReachedBetween(moments, commands, i, k, trigger)
    decreases n
  {
    k :| i <= k < n && Reaches(commands[k], moments[k + 1], trigger);
    if ReachedBetween(moments, commands, i, k, trigger) {
      k := FirstReach(moments, commands, i, k, trigger);
    }
  }

  // ---------------------------------------------------------------------------
  // The list in use
  // ---------------------------------------------------------------------------

  /** The time after some commands. */
  function TimeAfter(commands: seq<Command>, time: real): real {
    if commands == [] then time
    else
      var last := commands[|commands| - 1];
      TimeAfter(commands[..|commands| - 1], time) + if last.Advance? then last.dtime else 0.0
  }

  /** A timer is set whose trigger time stands for none. */
  predicate Mistaken(command: Command, time: real) {
    command.SetTimer? && EntryFor(command.timer, time, 0).trigger == NEVER
  }

  ghost predicate NeverMistaken(commands: seq<Command>, time: real) {
    forall k :: 0 <= k < |commands| ==> !Mistaken(commands[k], TimeAfter(commands[..k], time))
  }

  /** A step finds nothing due, or the next trigger time lets it look. */
  ghost predicate Sees(command: Command, before: Moment, after: Moment, next: real) {
    command.Advance? ==> NoneDue(before.timers, after.time) || Reached(next, after.time)
  }

  /** The same for every step, given the next trigger times before each command. */
  ghost predicate SeesAll(moments: seq<Moment>, commands: seq<Command>, nexts: seq<real>) {
    && |moments| == |nexts| == |commands| + 1
    && forall k :: 0 <= k < |commands| ==> Sees(commands[k], moments[k], moments[k + 1], nexts[k])
  }

  /** One command on the list does what it does in a run exactly if it is no step that overlooks
      a timer. */
  method Execute(list: NodeTimerList, command: Command) returns (output: seq<Timer>)
    requires list.Valid()
    modifies list
    ensures list.Valid() && list.time == TimeAfter([command], old(list.time))
    ensures Does(command, old(Moment(list.timers, list.time)), Moment(list.timers, list.time), output)
       <==> Sees(command, old(Moment(list.timers, list.time)), Moment(list.timers, list.time),
                 old(list.nextTriggerTime))
    ensures old(list.Armed()) && !Mistaken(command, old(list.time)) ==>
      && list.Armed()
      && Does(command, old(Moment(list.timers, list.time)), Moment(list.timers, list.time), output)
  {
    hide Ordered;
    hide Indexed;
    hide NoneIsNever;
    hide Dropped;
    hide With;
    hide SameElsewhere;
    hide DueUpTo;
    hide NoneDue;
    output := [];
    assert [command][..0] == [];
    match command {
      case SetTimer(timer) =>
        ghost var entry := EntryFor(timer, list.time, list.nextId);
        list.Set(timer);
      case RemoveTimer(position) =>
        list.Remove(position);
      case ClearTimers =>
        list.Clear();
      case Advance(dtime) =>
        output := list.Step(dtime);
    }
  }

  /** Any sequence of commands is a run, to which the above applies at every moment, exactly if no
      step overlooks a timer; and none does if the next trigger time was that of the first timer
      and no timer is mistaken. */
  method ExecuteAll(list: NodeTimerList, commands: seq<Command>)
    returns (outputs: seq<seq<Timer>>, ghost moments: seq<Moment>, ghost nexts: seq<real>)
    requires list.Valid()
    modifies list
    ensures list.Valid() && list.time == TimeAfter(commands, old(list.time))
    ensures |outputs| == |commands| && |moments| == |nexts| == |commands| + 1
    ensures moments[0] == old(Moment(list.timers, list.time)) && moments[|commands|] == Moment(list.timers, list.time)
    ensures nexts[0] == old(list.nextTriggerTime) && nexts[|commands|] == list.nextTriggerTime
    ensures IsTimerRun(moments, commands, outputs) <==> SeesAll(moments, commands, nexts)
    ensures old(list.Armed()) && NeverMistaken(commands, old(list.time)) ==>
      list.Armed() && IsTimerRun(moments, commands, outputs)
  {
    hide Does;
    hide Sees;
    hide Mistaken;
    hide IsTimerRun;
    hide SeesAll;
    hide OneEach;
    outputs, moments, nexts := [], [Moment(list.timers, list.time)], [list.nextTriggerTime];
    RunStarts(moments[0], nexts[0]);
    assert commands[..0] == [];
    for k := 0 to |commands|
      invariant list.Valid() && list.time == TimeAfter(commands[..k], old(list.time))
      invariant |outputs| == k && |moments| == |nexts| == k + 1
      invariant moments[0] == old(Moment(list.timers, list.time)) && moments[k] == Moment(list.timers, list.time)
      invariant nexts[0] == old(list.nextTriggerTime) && nexts[k] == list.nextTriggerTime
      invariant IsTimerRun(moments, commands[..k], outputs) <==> SeesAll(moments, commands[..k], nexts)
      invariant old(list.Armed()) && NeverMistaken(commands, old(list.time)) ==>
        list.Armed() && IsTimerRun(moments, commands[..k], outputs)
    {
      var output := Execute(list, commands[k]);
      ghost var after := Moment(list.timers, list.time);
      RunSnoc(moments, commands[..k], outputs, commands[k], after, output);
      SeesSnoc(moments, commands[..k], nexts, commands[k], after, list.nextTriggerTime);
      assert commands[..k + 1] == commands[..k] + [commands[k]];
      outputs := outputs + [output];
      moments := moments + [after];
      nexts := nexts + [list.nextTriggerTime];
    }
    assert commands[..|commands|] == commands;
  }

  lemma RunStarts(start: Moment, next: real)
    requires OneEach(start.timers)
    ensures IsTimerRun([start], [], []) && SeesAll([start], [], [next])
  {
  }

  lemma RunSnoc(moments: seq<Moment>, commands: seq<Command>, outputs: seq<seq<Timer>>,
                command: Command, after: Moment, output: seq<Timer>)
    requires |moments| == |commands| + 1 && |outputs| == |commands|
    ensures IsTimerRun(moments + [after], commands + [command], outputs + [output])
       <==> IsTimerRun(moments, commands, outputs) && Does(command, moments[|commands|], after, output)
  {
    hide Does;
    hide OneEach;
    var moments', commands', outputs' := moments + [after], commands + [command], outputs + [output];
    if IsTimerRun(moments', commands', outputs') {
      var n := |commands|;
      assert Does(commands'[n], moments'[n], moments'[n + 1], outputs'[n]);
      forall k | 0 <= k < n ensures Does(commands[k], moments[k], moments[k + 1], outputs[k]) {
        assert Does(commands'[k], moments'[k], moments'[k + 1], outputs'[k]);
      }
    }
  }

  lemma SeesSnoc(moments: seq<Moment>, commands: seq<Command>, nexts: seq<real>, command: Command, after: Moment,
                 next: real)
    requires |moments| == |nexts| == |commands| + 1
    ensures SeesAll(moments + [after], commands + [command], nexts + [next])
       <==> SeesAll(moments, commands, nexts) && Sees(command, moments[|commands|], after, nexts[|commands|])
  {
    hide Sees;
    var moments', commands', nexts' := moments + [after], commands + [command], nexts + [next];
    if SeesAll(moments', commands', nexts') {
      var n := |commands|;
      assert Sees(commands'[n], moments'[n], moments'[n + 1], nexts'[n]);
      forall k | 0 <= k < n ensures Sees(commands[k], moments[k], moments[k + 1], nexts[k]) {
        assert Sees(commands'[k], moments'[k], moments'[k + 1], nexts'[k]);
      }
    }
  }
}
