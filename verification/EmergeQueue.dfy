/** The emerge queue as a state machine whose steps run under the queue mutex. */
module EmergeQueue {

  datatype Pos = Pos(x: int, y: int, z: int)

  type Peer = p: int | 0 <= p < 0x1_0000

  /** Requests for active blocks do not belong to a peer. */
  const PEER_ID_INEXISTENT: Peer := 0

  const MAX_LIMIT_BP := 31007 / 16

  predicate OverMaxLimit(p: Pos) {
    p.x < -MAX_LIMIT_BP || p.x > MAX_LIMIT_BP || p.y < -MAX_LIMIT_BP || p.y > MAX_LIMIT_BP
    || p.z < -MAX_LIMIT_BP || p.z > MAX_LIMIT_BP
  }

  datatype Flags = Flags(allowGen: bool, forceQueue: bool) {
    function Or(other: Flags): Flags {
      Flags(allowGen || other.allowGen, forceQueue || other.forceQueue)
    }
  }

  datatype Action = Cancelled | Errored | FromMemory | FromDisk | Generated

  /** A callback together with its parameter. */
  type Callback = nat

  /** A callback with the position it was handed in for. */
  datatype Call = Call(callback: Callback, pos: Pos)

  datatype Entry = Entry(peer: Peer, flags: Flags, callbacks: seq<Callback>)

  /** A callback that has run, with what it was told. */
  datatype Completion = Completion(callback: Callback, pos: Pos, action: Action)

  /** What a worker is busy with between popping a block and running its callbacks. */
  datatype Work = Idle | Busy(pos: Pos, entry: Entry)

  datatype Limits = Limits(total: nat, diskonly: nat, generate: nat)

  datatype State = State(
    blocks: map<Pos, Entry>,
    counts: map<Peer, nat>,
    queues: seq<seq<Pos>>,
    work: seq<Work>,
    log: seq<Completion>,
    accepted: multiset<Call>,
    lost: multiset<Call>)

  datatype Event =
    | Enqueue(pos: Pos, peer: Peer, flags: Flags, callbacks: seq<Callback>)
    | Pop(worker: nat)
    | Finish(worker: nat, action: Action)
    | Throw(worker: nat)
    | Cancel(worker: nat)

  function Calls(pos: Pos, callbacks: seq<Callback>): (r: seq<Call>)
    ensures |r| == |callbacks| && forall i :: 0 <= i < |r| ==> r[i] == Call(callbacks[i], pos)
  {
    seq(|callbacks|, i requires 0 <= i < |callbacks| => Call(callbacks[i], pos))
  }

  function CountOf(counts: map<Peer, nat>, peer: Peer): nat {
    if peer in counts then counts[peer] else 0
  }

  // ---------------------------------------------------------------------------
  // Enqueueing
  // ---------------------------------------------------------------------------

  predicate Admitted(limits: Limits, size: nat, count: nat, peer: Peer, flags: Flags) {
    flags.forceQueue ||
    (size < limits.total &&
     (if peer != PEER_ID_INEXISTENT then count < (if flags.allowGen then limits.generate else limits.diskonly)
      else count * 2 < limits.total))
  }

  /** The first of the shortest queues. */
  function OptimalThread(queues: seq<seq<Pos>>): (best: nat)
    requires queues != []
    ensures best < |queues|
    ensures forall i :: 0 <= i < |queues| ==> |queues[best]| <= |queues[i]|
    ensures forall i :: 0 <= i < best ==> |queues[best]| < |queues[i]|
  {
    if |queues| == 1 then 0
    else
      var n := |queues| - 1;
      var best := OptimalThread(queues[..n]);
      if |queues[n]| < |queues[best]| then n else best
  }

  /** The number of callbacks a request carries is at most one; a request without a callback
      is the empty list. */
  function EnqueueStep(limits: Limits, s: State, pos: Pos, peer: Peer, flags: Flags, callbacks: seq<Callback>): State
    requires s.queues != []
  {
    var count := CountOf(s.counts, peer);
    if !Admitted(limits, |s.blocks|, count, peer, flags) then
      s.(counts := s.counts[peer := count])
    else if pos in s.blocks then
      var entry := s.blocks[pos];
      s.(blocks := s.blocks[pos := Entry(entry.peer, entry.flags.Or(flags), entry.callbacks + callbacks)],
         counts := s.counts[peer := count],
         accepted := s.accepted + multiset(Calls(pos, callbacks)))
    else
      var t := OptimalThread(s.queues);
      s.(blocks := s.blocks[pos := Entry(peer, flags, callbacks)],
         counts := s.counts[peer := count + 1],
         queues := s.queues[t := s.queues[t] + [pos]],
         accepted := s.accepted + multiset(Calls(pos, callbacks)))
  }

  // ---------------------------------------------------------------------------
  // Workers
  // ---------------------------------------------------------------------------

  function Completions(pos: Pos, action: Action, callbacks: seq<Callback>): (r: seq<Completion>)
    ensures |r| == |callbacks| && forall i :: 0 <= i < |r| ==> r[i] == Completion(callbacks[i], pos, action)
  {
    seq(|callbacks|, i requires 0 <= i < |callbacks| => Completion(callbacks[i], pos, action))
  }

  const NO_ENTRY := Entry(PEER_ID_INEXISTENT, Flags(false, false), [])

  function EntryAt(blocks: map<Pos, Entry>, pos: Pos): Entry {
    if pos in blocks then blocks[pos] else NO_ENTRY
  }

  /** An entry can be removed if it is there and its peer has a counter. */
  predicate Removable(blocks: map<Pos, Entry>, counts: map<Peer, nat>, pos: Pos) {
    pos in blocks && blocks[pos].peer in counts
  }

  function Erased(blocks: map<Pos, Entry>, counts: map<Peer, nat>, pos: Pos): map<Pos, Entry> {
    if Removable(blocks, counts, pos) then blocks - {pos} else blocks
  }

  /** A counter of zero would violate an assertion. */
  function Uncount(blocks: map<Pos, Entry>, counts: map<Peer, nat>, pos: Pos): map<Peer, nat> {
    if Removable(blocks, counts, pos) && counts[blocks[pos].peer] > 0
    then counts[blocks[pos].peer := counts[blocks[pos].peer] - 1] else counts
  }

  /** Taking the front of a worker's queue off, together with its entry. */
  function TakeFront(s: State, worker: nat): State
    requires worker < |s.queues| && s.queues[worker] != []
  {
    var pos := s.queues[worker][0];
    s.(blocks := Erased(s.blocks, s.counts, pos),
       counts := Uncount(s.blocks, s.counts, pos),
       queues := s.queues[worker := s.queues[worker][1..]])
  }

  /** A worker takes the block at the front of its queue.  A position beyond the map limit is
      dropped on the spot, without running its callbacks. */
  function PopStep(s: State, worker: nat): State
    requires worker < |s.queues| == |s.work|
  {
    if s.queues[worker] == [] then s
    else
      var pos := s.queues[worker][0];
      var entry := EntryAt(s.blocks, pos);
      var s' := TakeFront(s, worker);
      if OverMaxLimit(pos) then s'.(lost := s'.lost + multiset(Calls(pos, entry.callbacks)))
      else s'.(work := s'.work[worker := Busy(pos, entry)])
  }

  /** The worker is done with its block and runs the callbacks. */
  function FinishStep(s: State, worker: nat, action: Action): State
    requires worker < |s.work| && s.work[worker].Busy?
  {
    var job := s.work[worker];
    s.(work := s.work[worker := Idle], log := s.log + Completions(job.pos, action, job.entry.callbacks))
  }

  /** An exception makes the worker leave its loop before the callbacks run. */
  function ThrowStep(s: State, worker: nat): State
    requires worker < |s.work| && s.work[worker].Busy?
  {
    var job := s.work[worker];
    s.(work := s.work[worker := Idle], lost := s.lost + multiset(Calls(job.pos, job.entry.callbacks)))
  }

  /** One round of cancelling: the front of the queue is removed and its callbacks run. */
  function CancelFront(s: State, worker: nat): State
    requires worker < |s.queues| && s.queues[worker] != []
  {
    var pos := s.queues[worker][0];
    var s' := TakeFront(s, worker);
    s'.(log := s'.log + Completions(pos, Cancelled, EntryAt(s.blocks, pos).callbacks))
  }

  // ---------------------------------------------------------------------------
  // The invariant
  // ---------------------------------------------------------------------------

  ghost function Queued(queues: seq<seq<Pos>>): multiset<Pos> {
    if queues == [] then multiset{}
    else Queued(queues[..|queues| - 1]) + multiset(queues[|queues| - 1])
  }

  ghost function EntriesOf(blocks: map<Pos, Entry>, peer: Peer): set<Pos> {
    set pos | pos in blocks && blocks[pos].peer == peer
  }

  /** Each enqueued position lies in exactly one worker queue, exactly once. */
  ghost predicate QueuedOnce(s: State) {
    Queued(s.queues) == multiset(s.blocks.Keys)
  }

  /** The counter of each peer is the number of entries recorded for it. */
  ghost predicate CountsExact(s: State) {
    forall peer: Peer :: CountOf(s.counts, peer) == |EntriesOf(s.blocks, peer)|
  }

  ghost function Pending(blocks: map<Pos, Entry>): multiset<Call> {
    if blocks == map[] then multiset{}
    else
      var pos :| pos in blocks;
      PendingAt(blocks, pos) + Pending(blocks - {pos})
  }

  ghost function PendingAt(blocks: map<Pos, Entry>, pos: Pos): multiset<Call>
    requires pos in blocks
  {
    multiset(Calls(pos, blocks[pos].callbacks))
  }

  ghost function Held(work: seq<Work>): multiset<Call> {
    if work == [] then multiset{}
    else Held(work[..|work| - 1]) + HeldBy(work[|work| - 1])
  }

  ghost function HeldBy(job: Work): multiset<Call> {
    if job.Idle? then multiset{} else multiset(Calls(job.pos, job.entry.callbacks))
  }

  ghost function CallsOf(log: seq<Completion>): (r: seq<Call>)
    ensures |r| == |log| && forall i :: 0 <= i < |r| ==> r[i] == Call(log[i].callback, log[i].pos)
  {
    seq(|log|, i requires 0 <= i < |log| => Call(log[i].callback, log[i].pos))
  }

  ghost function Run(log: seq<Completion>): multiset<Call> {
    multiset(CallsOf(log))
  }

  /** Every callback of an accepted request is pending in one entry, held by one worker, has
      run once, or was lost, each time for the position it was handed in for. */
  ghost predicate CallbacksConserved(s: State) {
    s.accepted == Pending(s.blocks) + Held(s.work) + Run(s.log) + s.lost
  }

  /** There are workers, and each has its queue. */
  ghost predicate Formed(s: State) {
    s.queues != [] && |s.queues| == |s.work|
  }

  ghost predicate Inv(s: State) {
    && Formed(s)
    && QueuedOnce(s) && CountsExact(s) && CallbacksConserved(s)
  }

  // ---------------------------------------------------------------------------
  // Laws of the sums
  // ---------------------------------------------------------------------------

  lemma AddLast<T>(a: multiset<T>, b: multiset<T>, c: multiset<T>, d: multiset<T>, x: multiset<T>)
    requires a + b == c + d
    ensures (a + x) + b == (c + x) + d
  {
    assert (a + x) + b == (a + b) + x && (c + x) + d == (c + d) + x;
  }

  lemma SwapLast<T>(a: multiset<T>, x: multiset<T>, y: multiset<T>)
    ensures (a + x) + y == (a + y) + x
  {
  }

  lemma {:induction false} QueuedUpdate(queues: seq<seq<Pos>>, t: nat, q: seq<Pos>)
    requires t < |queues|
    ensures Queued(queues[t := q]) + multiset(queues[t]) == Queued(queues) + multiset(q)
  {
    var n := |queues| - 1;
    if t == n {
      assert queues[t := q][..n] == queues[..n];
      SwapLast(Queued(queues[..n]), multiset(q), multiset(queues[n]));
    } else {
      QueuedUpdate(queues[..n], t, q);
      assert queues[t := q][..n] == queues[..n][t := q];
      AddLast(Queued(queues[..n][t := q]), multiset(queues[t]), Queued(queues[..n]), multiset(q), multiset(queues[n]));
    }
  }

  lemma {:induction false} QueuedMember(queues: seq<seq<Pos>>, t: nat)
    requires t < |queues|
    ensures multiset(queues[t]) <= Queued(queues)
  {
    var n := |queues| - 1;
    if t < n {
      QueuedMember(queues[..n], t);
    }
  }

  lemma {:induction false} PendingRemove(blocks: map<Pos, Entry>, pos: Pos)
    requires pos in blocks
    ensures Pending(blocks) == PendingAt(blocks, pos) + Pending(blocks - {pos})
    decreases |blocks|
  {
    var x :| x in blocks && Pending(blocks) == PendingAt(blocks, x) + Pending(blocks - {x});
    if x != pos {
      hide Pending;
      hide Calls;
      PendingRemove(blocks - {x}, pos);
      PendingRemove(blocks - {pos}, x);
      assert blocks - {x} - {pos} == blocks - {pos} - {x};
      SwapFirst(PendingAt(blocks, x), PendingAt(blocks, pos), Pending(blocks - {x} - {pos}));
    }
  }

  lemma SwapFirst<T>(x: multiset<T>, y: multiset<T>, a: multiset<T>)
    ensures x + (y + a) == y + (x + a)
  {
  }

  lemma CallsConcat(pos: Pos, a: seq<Callback>, b: seq<Callback>)
    ensures multiset(Calls(pos, a + b)) == multiset(Calls(pos, a)) + multiset(Calls(pos, b))
  {
    assert Calls(pos, a + b) == Calls(pos, a) + Calls(pos, b);
  }

  lemma {:induction false} HeldUpdate(work: seq<Work>, w: nat, job: Work)
    requires w < |work|
    ensures Held(work[w := job]) + HeldBy(work[w]) == Held(work) + HeldBy(job)
  {
    hide HeldBy;
    var n := |work| - 1;
    if w == n {
      assert work[w := job][..n] == work[..n];
      SwapLast(Held(work[..n]), HeldBy(job), HeldBy(work[n]));
    } else {
      HeldUpdate(work[..n], w, job);
      assert work[w := job][..n] == work[..n][w := job];
      AddLast(Held(work[..n][w := job]), HeldBy(work[w]), Held(work[..n]), HeldBy(job), HeldBy(work[n]));
    }
  }

  lemma RunAppend(log: seq<Completion>, pos: Pos, action: Action, callbacks: seq<Callback>)
    ensures Run(log + Completions(pos, action, callbacks)) == Run(log) + multiset(Calls(pos, callbacks))
  {
    assert CallsOf(log + Completions(pos, action, callbacks)) == CallsOf(log) + Calls(pos, callbacks);
  }

  // ---------------------------------------------------------------------------
  // Every step keeps the invariant
  // ---------------------------------------------------------------------------

  /** The front of a queue is an entry, so removing it cannot fail, and its peer's counter is
      not zero. */
  lemma FrontIsEnqueued(s: State, worker: nat)
    requires Inv(s) && worker < |s.queues| && s.queues[worker] != []
    ensures s.queues[worker][0] in s.blocks
    ensures CountOf(s.counts, s.blocks[s.queues[worker][0]].peer) > 0
    ensures Removable(s.blocks, s.counts, s.queues[worker][0])
  {
    var pos := s.queues[worker][0];
    QueuedMember(s.queues, worker);
    assert pos in multiset(s.queues[worker]);
    assert pos in Queued(s.queues);
    var entries := EntriesOf(s.blocks, s.blocks[pos].peer);
    assert entries == (entries - {pos}) + {pos};
  }

  lemma EntriesUpdate(blocks: map<Pos, Entry>, pos: Pos, entry: Entry, peer: Peer)
    requires pos in blocks ==> blocks[pos].peer == entry.peer
    ensures |EntriesOf(blocks[pos := entry], peer)|
         == |EntriesOf(blocks, peer)| + if pos !in blocks && entry.peer == peer then 1 else 0
  {
    if pos !in blocks && entry.peer == peer {
      assert EntriesOf(blocks[pos := entry], peer) == EntriesOf(blocks, peer) + {pos};
    } else {
      assert EntriesOf(blocks[pos := entry], peer) == EntriesOf(blocks, peer);
    }
  }

  lemma EntriesRemove(blocks: map<Pos, Entry>, pos: Pos, peer: Peer)
    requires pos in blocks
    ensures |EntriesOf(blocks, peer)| == |EntriesOf(blocks - {pos}, peer)| + if blocks[pos].peer == peer then 1 else 0
  {
    if blocks[pos].peer == peer {
      assert EntriesOf(blocks, peer) == EntriesOf(blocks - {pos}, peer) + {pos};
    } else {
      assert EntriesOf(blocks, peer) == EntriesOf(blocks - {pos}, peer);
    }
  }

  lemma PendingUpdate(blocks: map<Pos, Entry>, pos: Pos, entry: Entry)
    ensures Pending(blocks[pos := entry]) == multiset(Calls(pos, entry.callbacks)) + Pending(blocks - {pos})
  {
    PendingRemove(blocks[pos := entry], pos);
    assert blocks[pos := entry] - {pos} == blocks - {pos};
  }

  lemma PendingAbsent(blocks: map<Pos, Entry>, pos: Pos)
    ensures pos !in blocks ==> blocks - {pos} == blocks
  {
  }

  lemma CancelCommon<T>(a: multiset<T>, b: multiset<T>, c: multiset<T>, x: multiset<T>)
    requires a + x == b + (x + c)
    ensures a == b + c
  {
    forall e ensures a[e] == (b + c)[e] {
      assert (a + x)[e] == (b + (x + c))[e];
    }
  }

  lemma EnqueueKeepsQueues(limits: Limits, s: State, pos: Pos, peer: Peer, flags: Flags, callbacks: seq<Callback>)
    requires s.queues != [] && QueuedOnce(s)
    ensures QueuedOnce(EnqueueStep(limits, s, pos, peer, flags, callbacks))
  {
    hide Admitted;
    hide OptimalThread;
    hide Queued;
    hide CountOf;
    var s' := EnqueueStep(limits, s, pos, peer, flags, callbacks);
    if s'.queues == s.queues {
      assert s'.blocks.Keys == s.blocks.Keys;
    } else {
      var t := OptimalThread(s.queues);
      QueueOneMore(s.queues, t, pos);
      assert s'.blocks.Keys == s.blocks.Keys + {pos};
    }
  }

  lemma QueueOneMore(queues: seq<seq<Pos>>, t: nat, pos: Pos)
    requires t < |queues|
    ensures Queued(queues[t := queues[t] + [pos]]) == Queued(queues) + multiset{pos}
  {
    hide Queued;
    QueuedUpdate(queues, t, queues[t] + [pos]);
    assert multiset(queues[t] + [pos]) == multiset(queues[t]) + multiset{pos};
    CancelCommon(Queued(queues[t := queues[t] + [pos]]), Queued(queues), multiset{pos}, multiset(queues[t]));
  }

  lemma EnqueueKeepsCounts(limits: Limits, s: State, pos: Pos, peer: Peer, flags: Flags, callbacks: seq<Callback>)
    requires s.queues != [] && CountsExact(s)
    ensures CountsExact(EnqueueStep(limits, s, pos, peer, flags, callbacks))
  {
    var s' := EnqueueStep(limits, s, pos, peer, flags, callbacks);
    hide Admitted;
    forall p: Peer ensures CountOf(s'.counts, p) == |EntriesOf(s'.blocks, p)| {
      if s'.blocks != s.blocks {
        EntriesUpdate(s.blocks, pos, s'.blocks[pos], p);
      }
    }
  }

  lemma EnqueueKeepsCallbacks(limits: Limits, s: State, pos: Pos, peer: Peer, flags: Flags, callbacks: seq<Callback>)
    requires s.queues != [] && CallbacksConserved(s)
    ensures CallbacksConserved(EnqueueStep(limits, s, pos, peer, flags, callbacks))
  {
    hide Admitted;
    hide Pending;
    hide Held;
    hide Run;
    hide Calls;
    hide OptimalThread;
    hide CountOf;
    var s' := EnqueueStep(limits, s, pos, peer, flags, callbacks);
    if s'.accepted != s.accepted || s'.blocks != s.blocks {
      MergedPending(s.blocks, pos, s'.blocks[pos], callbacks);
      PendingGrows(Pending(s.blocks), Held(s.work), Run(s.log), s.lost, multiset(Calls(pos, callbacks)));
    }
  }

  /** A new entry, or one that has been added to, is pending with what was handed in. */
  lemma MergedPending(blocks: map<Pos, Entry>, pos: Pos, entry: Entry, callbacks: seq<Callback>)
    requires entry.callbacks == (if pos in blocks then blocks[pos].callbacks else []) + callbacks
    ensures Pending(blocks[pos := entry]) == Pending(blocks) + multiset(Calls(pos, callbacks))
  {
    hide Pending;
    hide Calls;
    PendingUpdate(blocks, pos, entry);
    var rest, more := Pending(blocks - {pos}), multiset(Calls(pos, callbacks));
    if pos in blocks {
      PendingRemove(blocks, pos);
      CallsConcat(pos, blocks[pos].callbacks, callbacks);
      assert (PendingAt(blocks, pos) + more) + rest == (PendingAt(blocks, pos) + rest) + more;
    } else {
      PendingAbsent(blocks, pos);
      assert [] + callbacks == callbacks;
      assert more + rest == rest + more;
    }
  }

  lemma PendingGrows<T>(a: multiset<T>, b: multiset<T>, c: multiset<T>, d: multiset<T>, x: multiset<T>)
    ensures (a + b + c + d) + x == (a + x) + b + c + d
  {
  }

  lemma EnqueueKeepsInv(limits: Limits, s: State, pos: Pos, peer: Peer, flags: Flags, callbacks: seq<Callback>)
    requires Inv(s)
    ensures Inv(EnqueueStep(limits, s, pos, peer, flags, callbacks))
  {
    EnqueueKeepsQueues(limits, s, pos, peer, flags, callbacks);
    EnqueueKeepsCounts(limits, s, pos, peer, flags, callbacks);
    EnqueueKeepsCallbacks(limits, s, pos, peer, flags, callbacks);
    hide QueuedOnce;
    hide CountsExact;
    hide CallbacksConserved;
  }

  /** What removing the front of a queue does to the three parts of the invariant. */
  lemma TakeFrontEffect(s: State, worker: nat)
    requires Inv(s) && worker < |s.queues| && s.queues[worker] != []
    ensures s.queues[worker][0] in s.blocks
    ensures var s' := TakeFront(s, worker);
      && QueuedOnce(s') && CountsExact(s')
      && s'.blocks == s.blocks - {s.queues[worker][0]}
      && Pending(s.blocks) == PendingAt(s.blocks, s.queues[worker][0]) + Pending(s'.blocks)
  {
    FrontIsEnqueued(s, worker);
    TakeFrontKeepsQueues(s, worker);
    TakeFrontKeepsCounts(s, worker);
    PendingRemove(s.blocks, s.queues[worker][0]);
  }

  lemma TakeFrontKeepsQueues(s: State, worker: nat)
    requires QueuedOnce(s) && worker < |s.queues| && s.queues[worker] != []
    requires Removable(s.blocks, s.counts, s.queues[worker][0])
    ensures QueuedOnce(TakeFront(s, worker))
  {
    var q := s.queues[worker];
    var s' := TakeFront(s, worker);
    QueuedUpdate(s.queues, worker, q[1..]);
    hide Queued;
    assert q == [q[0]] + q[1..];
    assert multiset(q) == multiset(q[1..]) + multiset{q[0]};
    CancelCommon(Queued(s.queues), Queued(s'.queues), multiset{q[0]}, multiset(q[1..]));
    assert s.blocks.Keys == s'.blocks.Keys + {q[0]};
    assert multiset(s.blocks.Keys) == multiset(s'.blocks.Keys) + multiset{q[0]};
    CancelCommon(Queued(s'.queues), multiset(s'.blocks.Keys), multiset{}, multiset{q[0]});
  }

  lemma TakeFrontKeepsCounts(s: State, worker: nat)
    requires CountsExact(s) && worker < |s.queues| && s.queues[worker] != []
    requires Removable(s.blocks, s.counts, s.queues[worker][0])
    ensures CountsExact(TakeFront(s, worker))
  {
    var s' := TakeFront(s, worker);
    forall p: Peer ensures CountOf(s'.counts, p) == |EntriesOf(s'.blocks, p)| {
      EntriesRemove(s.blocks, s.queues[worker][0], p);
    }
  }

  /** Moving callbacks from the pending ones to a worker, the log or the lost ones. */
  lemma MoveCallbacks<T>(p: multiset<T>, h: multiset<T>, r: multiset<T>, l: multiset<T>, x: multiset<T>)
    ensures (x + p) + h + r + l == p + h + r + (l + x)
    ensures (x + p) + h + r + l == p + h + (r + x) + l
    ensures (x + p) + h + r + l == p + (h + x) + r + l
    ensures p + (h + x) + r + l == p + h + (r + x) + l
    ensures p + (h + x) + r + l == p + h + r + (l + x)
  {
  }

  lemma StartWork(work: seq<Work>, worker: nat, pos: Pos, entry: Entry)
    requires worker < |work| && work[worker].Idle?
    ensures Held(work[worker := Busy(pos, entry)]) == Held(work) + multiset(Calls(pos, entry.callbacks))
  {
    HeldUpdate(work, worker, Busy(pos, entry));
  }

  lemma EndWork(work: seq<Work>, worker: nat)
    requires worker < |work| && work[worker].Busy?
    ensures Held(work) == Held(work[worker := Idle]) + multiset(Calls(work[worker].pos, work[worker].entry.callbacks))
  {
    HeldUpdate(work, worker, Idle);
  }

  lemma PopKeepsInv(s: State, worker: nat)
    requires Inv(s) && worker < |s.queues| && s.work[worker].Idle?
    ensures s.queues[worker] != [] ==> s.queues[worker][0] in s.blocks
    ensures Inv(PopStep(s, worker))
  {
    if s.queues[worker] != [] {
      TakeFrontEffect(s, worker);
      var entry, s' := s.blocks[s.queues[worker][0]], TakeFront(s, worker);
      StartWork(s.work, worker, s.queues[worker][0], entry);
      MoveCallbacks(Pending(s'.blocks), Held(s.work), Run(s.log), s.lost, PendingAt(s.blocks, s.queues[worker][0]));
      hide Queued;
      hide CountsExact;
      hide Pending;
      hide Held;
      hide Run;
      hide OverMaxLimit;
    }
  }

  lemma CancelFrontKeepsInv(s: State, worker: nat)
    requires Inv(s) && worker < |s.queues| && s.queues[worker] != []
    ensures s.queues[worker][0] in s.blocks
    ensures Inv(CancelFront(s, worker))
  {
    TakeFrontEffect(s, worker);
    var pos := s.queues[worker][0];
    var entry, s' := s.blocks[pos], TakeFront(s, worker);
    RunAppend(s.log, pos, Cancelled, entry.callbacks);
    MoveCallbacks(Pending(s'.blocks), Held(s.work), Run(s.log), s.lost, PendingAt(s.blocks, pos));
    hide Queued;
    hide CountsExact;
    hide Pending;
    hide Held;
    hide Run;
  }

  lemma FinishKeepsInv(s: State, worker: nat, action: Action)
    requires Inv(s) && worker < |s.work| && s.work[worker].Busy?
    ensures Inv(FinishStep(s, worker, action)) && Inv(ThrowStep(s, worker))
  {
    var job := s.work[worker];
    EndWork(s.work, worker);
    RunAppend(s.log, job.pos, action, job.entry.callbacks);
    MoveCallbacks(Pending(s.blocks), Held(s.work[worker := Idle]), Run(s.log), s.lost, HeldBy(job));
    hide Queued;
    hide CountsExact;
    hide Pending;
    hide Held;
    hide Run;
  }

  /** Only entries were removed. */
  ghost predicate Within(small: map<Pos, Entry>, large: map<Pos, Entry>) {
    forall pos :: pos in small ==> pos in large && small[pos] == large[pos]
  }

  /** Cancelling everything a worker has left in its queue. */
  ghost function CancelStep(s: State, worker: nat): (r: State)
    requires worker < |s.queues|
    ensures |r.queues| == |s.queues| && r.queues[worker] == []
    ensures forall i :: 0 <= i < |s.queues| && i != worker ==> r.queues[i] == s.queues[i]
    ensures r.work == s.work && r.accepted == s.accepted && r.lost == s.lost
    ensures Within(r.blocks, s.blocks)
    decreases |s.queues[worker]|
  {
    if s.queues[worker] == [] then s else CancelStep(CancelFront(s, worker), worker)
  }

  lemma {:induction false} CancelKeepsInv(s: State, worker: nat)
    requires Inv(s) && worker < |s.queues|
    ensures Inv(CancelStep(s, worker))
    decreases |s.queues[worker]|
  {
    hide Inv;
    if s.queues[worker] != [] {
      CancelFrontKeepsInv(s, worker);
      CancelKeepsInv(CancelFront(s, worker), worker);
    }
  }

  // ---------------------------------------------------------------------------
  // Runs: any interleaving of steps
  // ---------------------------------------------------------------------------

  /** Which steps are possible: a worker pops or cancels between blocks, and finishes the
      block it holds. */
  ghost predicate Enabled(s: State, e: Event) {
    match e
    case Enqueue(_, _, _, callbacks) => |callbacks| <= 1
    case Pop(w) => w < |s.work| && s.work[w].Idle?
    case Finish(w, _) => w < |s.work| && s.work[w].Busy?
    case Throw(w) => w < |s.work| && s.work[w].Busy?
    case Cancel(w) => w < |s.work| && s.work[w].Idle?
  }

  /** What happens, whatever the state. */
  ghost function Step(limits: Limits, s: State, e: Event): (r: State)
    requires Formed(s) && Enabled(s, e)
    ensures Formed(r) && |r.queues| == |s.queues|
  {
    match e
    case Enqueue(pos, peer, flags, callbacks) => EnqueueStep(limits, s, pos, peer, flags, callbacks)
    case Pop(w) => PopStep(s, w)
    case Finish(w, action) => FinishStep(s, w, action)
    case Throw(w) => ThrowStep(s, w)
    case Cancel(w) => CancelStep(s, w)
  }

  lemma StepKeepsInv(limits: Limits, s: State, e: Event)
    requires Inv(s) && Enabled(s, e)
    ensures Inv(Step(limits, s, e))
  {
    hide QueuedOnce;
    hide CountsExact;
    hide CallbacksConserved;
    match e
    case Enqueue(pos, peer, flags, callbacks) => EnqueueKeepsInv(limits, s, pos, peer, flags, callbacks);
    case Pop(w) => PopKeepsInv(s, w);
    case Finish(w, action) => FinishKeepsInv(s, w, action);
    case Throw(w) => FinishKeepsInv(s, w, Errored);
    case Cancel(w) => CancelKeepsInv(s, w);
  }

  /** trace is a run: it begins in a good state, and every event takes one state to the next. */
  ghost predicate IsRun(limits: Limits, trace: seq<State>, events: seq<Event>) {
    && |trace| == |events| + 1
    && Inv(trace[0])
    && forall i :: 0 <= i < |events| ==> Follows(limits, trace[i], events[i], trace[i + 1])
  }

  ghost predicate Follows(limits: Limits, s: State, e: Event, t: State) {
    Formed(s) && Enabled(s, e) && t == Step(limits, s, e)
  }

  ghost function Initial(workers: nat): State {
    State(map[], map[], seq(workers, _ => []), seq(workers, _ => Idle), [], multiset{}, multiset{})
  }

  lemma {:induction false} NothingQueued(workers: nat)
    ensures Queued(seq(workers, _ => [])) == multiset{}
    ensures Held(seq(workers, _ => Idle)) == multiset{}
  {
    if workers > 0 {
      NothingQueued(workers - 1);
      var q: seq<seq<Pos>> := seq(workers, _ => []);
      assert q[..workers - 1] == seq(workers - 1, _ => []);
      var w: seq<Work> := seq(workers, _ => Idle);
      assert w[..workers - 1] == seq(workers - 1, _ => Idle);
    }
  }

  lemma InitialInv(workers: nat)
    requires workers > 0
    ensures Inv(Initial(workers))
  {
    NothingQueued(workers);
    assert multiset(Initial(workers).blocks.Keys) == multiset{};
  }

  lemma RunStep(limits: Limits, trace: seq<State>, events: seq<Event>, k: nat)
    requires IsRun(limits, trace, events) && k < |events|
    ensures |trace| == |events| + 1 && Follows(limits, trace[k], events[k], trace[k + 1])
  {
    hide Follows;
    hide Inv;
  }

  lemma FollowingKeepsInv(limits: Limits, s: State, e: Event, t: State)
    requires Follows(limits, s, e, t) && Inv(s)
    ensures Inv(t) && |t.queues| == |s.queues|
  {
    StepKeepsInv(limits, s, e);
    hide Inv;
  }

  /** The invariant holds at every moment of every run. */
  lemma {:induction false} RunKeepsInv(limits: Limits, trace: seq<State>, events: seq<Event>, k: nat)
    requires IsRun(limits, trace, events) && k < |trace|
    ensures Inv(trace[k]) && |trace[k].queues| == |trace[0].queues|
  {
    hide Inv;
    hide Follows;
    if k > 0 {
      RunKeepsInv(limits, trace, events, k - 1);
      RunStep(limits, trace, events, k - 1);
      FollowingKeepsInv(limits, trace[k - 1], events[k - 1], trace[k]);
    }
  }

  // ---------------------------------------------------------------------------
  // Quotas
  // ---------------------------------------------------------------------------

  /** What the quotas leave for a request that is not forced, by the entries there are. */
  ghost predicate RoomFor(limits: Limits, blocks: map<Pos, Entry>, peer: Peer, flags: Flags) {
    var mine := |EntriesOf(blocks, peer)|;
    && |blocks| < limits.total
    && (peer == PEER_ID_INEXISTENT ==> mine + mine < limits.total)
    && (peer != PEER_ID_INEXISTENT && flags.allowGen ==> mine < limits.generate)
    && (peer != PEER_ID_INEXISTENT && !flags.allowGen ==> mine < limits.diskonly)
  }

  /** The entry of a position after one more request for it was taken: a new entry belongs to the
      peer that asked, and a later request adds its callbacks and its flags. */
  ghost predicate Requested(before: map<Pos, Entry>, entry: Entry, pos: Pos, peer: Peer, flags: Flags,
                            callbacks: seq<Callback>) {
    if pos !in before then entry == Entry(peer, flags, callbacks)
    else
      && entry.peer == before[pos].peer && entry.callbacks == before[pos].callbacks + callbacks
      && (entry.flags.allowGen <==> before[pos].flags.allowGen || flags.allowGen)
      && (entry.flags.forceQueue <==> before[pos].flags.forceQueue || flags.forceQueue)
  }

  ghost predicate Recorded(before: map<Pos, Entry>, after: map<Pos, Entry>, pos: Pos, peer: Peer, flags: Flags,
                           callbacks: seq<Callback>) {
    && after.Keys == before.Keys + {pos}
    && Requested(before, after[pos], pos, peer, flags, callbacks)
    && forall p :: p in before && p != pos ==> after[p] == before[p]
  }

  /** A request is taken exactly if it is forced or the quotas leave room for it; a new position
      then goes to the end of the first of the shortest queues.  One that is not taken changes no
      entry, no queue and no counter. */
  lemma TakenExactly(limits: Limits, s: State, pos: Pos, peer: Peer, flags: Flags, callbacks: seq<Callback>)
    requires Inv(s)
    ensures var t := EnqueueStep(limits, s, pos, peer, flags, callbacks);
      if flags.forceQueue || RoomFor(limits, s.blocks, peer, flags) then
        && Recorded(s.blocks, t.blocks, pos, peer, flags, callbacks)
        && t.accepted == s.accepted + multiset(Calls(pos, callbacks))
        && (if pos in s.blocks then t.queues == s.queues else AddedToShortest(s.queues, t.queues, pos))
        && t.work == s.work && t.log == s.log && t.lost == s.lost
      else
        && t == s.(counts := t.counts)
        && forall p: Peer :: CountOf(t.counts, p) == CountOf(s.counts, p)
  {
    EnqueueStepFields(limits, s, pos, peer, flags, callbacks);
    AdmittedIs(limits, s, peer, flags);
    hide Inv;
    hide EnqueueStep;
    hide Admitted;
    hide Merged;
    hide RoomFor;
    hide Recorded;
    hide OptimalThread;
    hide AddedToShortest;
    MergedIs(s.blocks, true, pos, peer, flags, callbacks);
    MergedIs(s.blocks, false, pos, peer, flags, callbacks);
    OptimalIsShortest(s.queues, pos);
  }

  ghost predicate AddedToShortest(before: seq<seq<Pos>>, after: seq<seq<Pos>>, pos: Pos) {
    exists w :: 0 <= w < |before| && after == before[w := before[w] + [pos]]
                && (forall i :: 0 <= i < |before| ==> |before[w]| <= |before[i]|)
                && (forall i :: 0 <= i < w ==> |before[w]| < |before[i]|)
  }

  lemma OptimalIsShortest(queues: seq<seq<Pos>>, pos: Pos)
    requires queues != []
    ensures var w := OptimalThread(queues); AddedToShortest(queues, queues[w := queues[w] + [pos]], pos)
  {
  }

  /** With exact counters the test made is that of the quotas. */
  lemma AdmittedIs(limits: Limits, s: State, peer: Peer, flags: Flags)
    requires Inv(s)
    ensures Admitted(limits, |s.blocks|, CountOf(s.counts, peer), peer, flags)
       <==> flags.forceQueue || RoomFor(limits, s.blocks, peer, flags)
  {
    hide QueuedOnce;
    hide CallbacksConserved;
    hide Formed;
  }

  lemma MergedIs(blocks: map<Pos, Entry>, ok: bool, pos: Pos, peer: Peer, flags: Flags, callbacks: seq<Callback>)
    ensures var merged := Merged(blocks, ok, pos, peer, flags, callbacks);
      if ok then Recorded(blocks, merged, pos, peer, flags, callbacks) else merged == blocks
  {
  }

  /** A request adds to the entries of the peer that asks for a new position, and to no other's. */
  lemma EntriesAfter(limits: Limits, s: State, pos: Pos, peer: Peer, flags: Flags, callbacks: seq<Callback>, p: Peer)
    requires Inv(s)
    ensures var t := EnqueueStep(limits, s, pos, peer, flags, callbacks);
      EntriesOf(t.blocks, p) == EntriesOf(s.blocks, p) +
        if (flags.forceQueue || RoomFor(limits, s.blocks, peer, flags)) && pos !in s.blocks && p == peer
        then {pos} else {}
  {
    var t := EnqueueStep(limits, s, pos, peer, flags, callbacks);
    TakenExactly(limits, s, pos, peer, flags, callbacks);
    hide EnqueueStep;
    hide Inv;
    hide Formed;
    hide RoomFor;
    NewEntry(s.blocks, t.blocks, pos, peer, flags, callbacks, p,
             flags.forceQueue || RoomFor(limits, s.blocks, peer, flags));
  }

  lemma NewEntry(before: map<Pos, Entry>, after: map<Pos, Entry>, pos: Pos, peer: Peer, flags: Flags,
                 callbacks: seq<Callback>, p: Peer, taken: bool)
    requires if taken then Recorded(before, after, pos, peer, flags, callbacks) else after == before
    ensures EntriesOf(after, p) == EntriesOf(before, p) + if taken && pos !in before && p == peer then {pos} else {}
  {
  }

  /** None of a peer's requests is forced, and either all of them allow generation or none does. */
  ghost predicate AlwaysAsks(events: seq<Event>, peer: Peer, allowGen: bool) {
    forall i :: 0 <= i < |events| ==> Asks(events[i], peer, allowGen)
  }

  ghost predicate Asks(e: Event, peer: Peer, allowGen: bool) {
    e.Enqueue? && e.peer == peer ==> !e.flags.forceQueue && e.flags.allowGen == allowGen
  }

  lemma StepKeepsQuotaOf(limits: Limits, s: State, e: Event, peer: Peer, allowGen: bool)
    requires Inv(s) && Enabled(s, e) && Asks(e, peer, allowGen) && peer != PEER_ID_INEXISTENT
    requires |EntriesOf(s.blocks, peer)| <= if allowGen then limits.generate else limits.diskonly
    ensures |EntriesOf(Step(limits, s, e).blocks, peer)| <= if allowGen then limits.generate else limits.diskonly
  {
    if e.Enqueue? {
      EntriesAfter(limits, s, e.pos, e.peer, e.flags, e.callbacks, peer);
      hide EnqueueStep;
      hide Inv;
    } else {
      StepRemoves(limits, s, e);
      hide Step;
      SubsetSize(EntriesOf(Step(limits, s, e).blocks, peer), EntriesOf(s.blocks, peer));
    }
  }

  /** While all requests of a peer allow generation, its entries stay within the limit for those;
      while none does, within the limit for the others.  What other peers ask for, forced or not,
      makes no difference. */
  lemma {:induction false} RunKeepsQuotaOf(limits: Limits, trace: seq<State>, events: seq<Event>, peer: Peer,
                                           allowGen: bool, k: nat)
    requires IsRun(limits, trace, events) && k < |trace|
    requires AlwaysAsks(events, peer, allowGen) && peer != PEER_ID_INEXISTENT
    requires |EntriesOf(trace[0].blocks, peer)| <= if allowGen then limits.generate else limits.diskonly
    ensures |EntriesOf(trace[k].blocks, peer)| <= if allowGen then limits.generate else limits.diskonly
  {
    hide Inv;
    hide Enabled;
    hide Step;
    if k > 0 {
      RunKeepsQuotaOf(limits, trace, events, peer, allowGen, k - 1);
      RunKeepsInv(limits, trace, events, k - 1);
      assert Follows(limits, trace[k - 1], events[k - 1], trace[k - 1 + 1]);
      StepKeepsQuotaOf(limits, trace[k - 1], events[k - 1], peer, allowGen);
    }
  }

  ghost predicate QuotasHold(limits: Limits, s: State) {
    && |s.blocks| <= limits.total
    && (forall peer: Peer :: peer != PEER_ID_INEXISTENT ==>
          CountOf(s.counts, peer) <= if limits.generate > limits.diskonly then limits.generate else limits.diskonly)
    && CountOf(s.counts, PEER_ID_INEXISTENT) <= (limits.total + 1) / 2
  }

  lemma WithinKeepsQuotas(limits: Limits, s: State, t: State)
    requires CountsExact(s) && CountsExact(t) && QuotasHold(limits, s) && Within(t.blocks, s.blocks)
    ensures QuotasHold(limits, t)
  {
    SubsetSize(t.blocks.Keys, s.blocks.Keys);
    forall peer: Peer ensures CountOf(t.counts, peer) <= CountOf(s.counts, peer) {
      SubsetSize(EntriesOf(t.blocks, peer), EntriesOf(s.blocks, peer));
    }
  }

  lemma SubsetSize<T>(a: set<T>, b: set<T>)
    requires a <= b
    ensures |a| <= |b|
  {
    assert b == a + (b - a);
  }

  lemma EnqueueKeepsQuotas(limits: Limits, s: State, pos: Pos, peer: Peer, flags: Flags, callbacks: seq<Callback>)
    requires Inv(s) && QuotasHold(limits, s) && !flags.forceQueue
    ensures QuotasHold(limits, EnqueueStep(limits, s, pos, peer, flags, callbacks))
  {
    EnqueueStepFields(limits, s, pos, peer, flags, callbacks);
    hide Inv;
    hide EnqueueStep;
    hide Merged;
    var s' := EnqueueStep(limits, s, pos, peer, flags, callbacks);
    var ok := Admitted(limits, |s.blocks|, CountOf(s.counts, peer), peer, flags);
    MergedSize(s.blocks, ok, pos, peer, flags, callbacks);
    forall p: Peer
      ensures p == PEER_ID_INEXISTENT ==> CountOf(s'.counts, p) <= (limits.total + 1) / 2
      ensures p != PEER_ID_INEXISTENT ==>
        CountOf(s'.counts, p) <= if limits.generate > limits.diskonly then limits.generate else limits.diskonly
    {
      assert p != peer ==> CountOf(s'.counts, p) == CountOf(s.counts, p);
    }
  }

  lemma MergedSize(blocks: map<Pos, Entry>, ok: bool, pos: Pos, peer: Peer, flags: Flags, callbacks: seq<Callback>)
    ensures |Merged(blocks, ok, pos, peer, flags, callbacks)| == |blocks| + if ok && pos !in blocks then 1 else 0
  {
    var merged := Merged(blocks, ok, pos, peer, flags, callbacks);
    assert |merged| == |merged.Keys| && |blocks| == |blocks.Keys|;
    assert merged.Keys == if ok then blocks.Keys + {pos} else blocks.Keys;
  }

  /** A step that forces nothing into the queue keeps the quotas. */
  lemma StepKeepsQuotas(limits: Limits, s: State, e: Event)
    requires Inv(s) && Enabled(s, e) && QuotasHold(limits, s)
    requires e.Enqueue? ==> !e.flags.forceQueue
    ensures QuotasHold(limits, Step(limits, s, e))
  {
    if e.Enqueue? {
      EnqueueKeepsQuotas(limits, s, e.pos, e.peer, e.flags, e.callbacks);
    } else {
      var t := Step(limits, s, e);
      StepRemoves(limits, s, e);
      StepKeepsInv(limits, s, e);
      hide *;
      WithinKeepsQuotas(limits, s, t);
    }
  }

  /** No step but enqueueing adds or changes an entry. */
  lemma StepRemoves(limits: Limits, s: State, e: Event)
    requires Formed(s) && Enabled(s, e) && !e.Enqueue?
    ensures Within(Step(limits, s, e).blocks, s.blocks)
    ensures Step(limits, s, e).accepted == s.accepted
  {
    hide OverMaxLimit;
    hide Uncount;
    hide EntryAt;
  }

  ghost predicate NothingForced(events: seq<Event>) {
    forall i :: 0 <= i < |events| && events[i].Enqueue? ==> !events[i].flags.forceQueue
  }

  /** In a run that forces nothing into the queue, the quotas hold at every moment. */
  lemma {:induction false} RunKeepsQuotas(limits: Limits, trace: seq<State>, events: seq<Event>, k: nat)
    requires IsRun(limits, trace, events) && k < |trace| && NothingForced(events)
    requires QuotasHold(limits, trace[0])
    ensures QuotasHold(limits, trace[k])
  {
    hide Inv;
    hide Enabled;
    hide Step;
    hide QuotasHold;
    if k > 0 {
      RunKeepsQuotas(limits, trace, events, k - 1);
      RunKeepsInv(limits, trace, events, k - 1);
      assert Follows(limits, trace[k - 1], events[k - 1], trace[k - 1 + 1]);
      StepKeepsQuotas(limits, trace[k - 1], events[k - 1]);
    }
  }

  // ---------------------------------------------------------------------------
  // Lost callbacks, and shutting down
  // ---------------------------------------------------------------------------

  ghost predicate InsideLimit(s: State) {
    forall pos <- s.blocks :: !OverMaxLimit(pos)
  }

  ghost predicate Harmless(e: Event) {
    !e.Throw? && (e.Enqueue? ==> !OverMaxLimit(e.pos))
  }

  lemma StepLosesNothing(limits: Limits, s: State, e: Event)
    requires Inv(s) && Enabled(s, e) && InsideLimit(s) && Harmless(e)
    ensures InsideLimit(Step(limits, s, e)) && Step(limits, s, e).lost == s.lost
  {
    hide OverMaxLimit;
    hide QueuedOnce;
    hide CountsExact;
    hide CallbacksConserved;
    hide Admitted;
    hide OptimalThread;
    hide Uncount;
    if !e.Enqueue? {
      StepRemoves(limits, s, e);
    }
    if e.Pop? && s.queues[e.worker] != [] {
      PopStepFields(s, e.worker);
    }
  }

  /** Callbacks are lost only to positions beyond the map limit and to exceptions. */
  lemma {:induction false} RunLosesNothing(limits: Limits, trace: seq<State>, events: seq<Event>, k: nat)
    requires IsRun(limits, trace, events) && k < |trace|
    requires InsideLimit(trace[0]) && forall i :: 0 <= i < |events| ==> Harmless(events[i])
    ensures InsideLimit(trace[k]) && trace[k].lost == trace[0].lost
  {
    hide Inv;
    hide Enabled;
    hide Step;
    hide InsideLimit;
    hide Harmless;
    if k > 0 {
      RunLosesNothing(limits, trace, events, k - 1);
      RunKeepsInv(limits, trace, events, k - 1);
      assert Follows(limits, trace[k - 1], events[k - 1], trace[k - 1 + 1]);
      StepLosesNothing(limits, trace[k - 1], events[k - 1]);
    }
  }

  /** What takes callbacks away unrun: a position beyond the limit at the front of the queue that is
      popped, and an exception while a worker holds a block. */
  ghost predicate Drops(s: State, e: Event) {
    match e
    case Pop(w) =>
      w < |s.queues| && s.queues[w] != [] && OverMaxLimit(s.queues[w][0])
      && EntryAt(s.blocks, s.queues[w][0]).callbacks != []
    case Throw(w) => w < |s.work| && s.work[w].Busy? && s.work[w].entry.callbacks != []
    case _ => false
  }

  lemma NoCalls(pos: Pos, callbacks: seq<Callback>)
    ensures multiset(Calls(pos, callbacks)) == multiset{} <==> callbacks == []
  {
    if callbacks != [] {
      assert Calls(pos, callbacks)[0] in multiset(Calls(pos, callbacks));
    }
  }

  /** One step never gives a lost callback back, and loses one exactly if it drops some. */
  lemma StepLoses(limits: Limits, s: State, e: Event)
    requires Formed(s) && Enabled(s, e)
    ensures s.lost <= Step(limits, s, e).lost
    ensures Step(limits, s, e).lost == s.lost <==> !Drops(s, e)
  {
    hide OverMaxLimit;
    hide Admitted;
    hide Uncount;
    hide Erased;
    hide Calls;
    match e
    case Pop(w) =>
      if s.queues[w] != [] {
        var pos := s.queues[w][0];
        NoCalls(pos, EntryAt(s.blocks, pos).callbacks);
        MoreLost(s.lost, multiset(Calls(pos, EntryAt(s.blocks, pos).callbacks)));
      }
    case Throw(w) =>
      NoCalls(s.work[w].pos, s.work[w].entry.callbacks);
      MoreLost(s.lost, multiset(Calls(s.work[w].pos, s.work[w].entry.callbacks)));
    case _ =>
  }

  lemma MoreLost<T>(lost: multiset<T>, more: multiset<T>)
    ensures lost + more == lost <==> more == multiset{}
  {
    if lost + more == lost {
      forall x ensures more[x] == 0 { assert (lost + more)[x] == lost[x] + more[x]; }
    }
  }

  ghost predicate NothingDropped(trace: seq<State>, events: seq<Event>, k: nat) {
    forall i :: 0 <= i < k && i < |trace| && i < |events| ==> !Drops(trace[i], events[i])
  }

  /** What is lost stays lost, and callbacks are lost exactly by the steps that drop some. */
  lemma {:induction false} RunLosesExactly(limits: Limits, trace: seq<State>, events: seq<Event>, k: nat)
    requires IsRun(limits, trace, events) && k < |trace|
    ensures trace[0].lost <= trace[k].lost
    ensures trace[k].lost == trace[0].lost <==> NothingDropped(trace, events, k)
  {
    hide Inv;
    hide Enabled;
    hide Step;
    hide Drops;
    if k > 0 {
      RunLosesExactly(limits, trace, events, k - 1);
      assert Follows(limits, trace[k - 1], events[k - 1], trace[k - 1 + 1]);
      StepLoses(limits, trace[k - 1], events[k - 1]);
    }
  }

  /** A single worker that was asked for a single block. */
  ghost function OneRequest(pos: Pos, callback: Callback): State {
    State(map[pos := Entry(PEER_ID_INEXISTENT, Flags(false, false), [callback])], map[PEER_ID_INEXISTENT := 1],
          [[pos]], [Idle], [], multiset{Call(callback, pos)}, multiset{})
  }

  lemma OneRequestIs(limits: Limits, pos: Pos, callback: Callback)
    requires limits.total > 0
    ensures Step(limits, Initial(1), Enqueue(pos, PEER_ID_INEXISTENT, Flags(false, false), [callback]))
         == OneRequest(pos, callback)
  {
    hide OverMaxLimit;
    assert Calls(pos, [callback]) == [Call(callback, pos)];
    var s := Initial(1);
    assert s.queues == [[]] && s.work == [Idle];
    assert s.queues[0] + [pos] == [pos];
    assert s.queues[0 := [pos]] == [[pos]];
  }

  /** A single request: its callback is lost once its block is taken exactly if the position lies
      more than 1937 blocks from the origin in some direction, for example 1938. */
  lemma FarPositionLosesCallback(limits: Limits, pos: Pos, callback: Callback)
    requires limits.total > 0
    ensures var s := Step(limits, Initial(1), Enqueue(pos, PEER_ID_INEXISTENT, Flags(false, false), [callback]));
      var far := !(-1937 <= pos.x <= 1937 && -1937 <= pos.y <= 1937 && -1937 <= pos.z <= 1937);
      && Enabled(s, Pop(0)) && (Drops(s, Pop(0)) <==> far)
      && var t := Step(limits, s, Pop(0));
         && t.accepted == multiset{Call(callback, pos)} && t.log == []
         && t.lost == if far then multiset{Call(callback, pos)} else multiset{}
  {
    OneRequestIs(limits, pos, callback);
    hide EnqueueStep;
    assert Calls(pos, [callback]) == [Call(callback, pos)];
  }

  /** So does an exception while the worker holds a block within the limit. */
  lemma ExceptionLosesCallback(limits: Limits, callback: Callback)
    requires limits.total > 0
    ensures var pos := Pos(0, 0, 0);
      var s := Step(limits, Initial(1), Enqueue(pos, PEER_ID_INEXISTENT, Flags(false, false), [callback]));
      && Enabled(s, Pop(0))
      && var t := Step(limits, s, Pop(0));
         && Enabled(t, Throw(0)) && Drops(t, Throw(0))
         && var u := Step(limits, t, Throw(0));
            u.accepted == u.lost == multiset{Call(callback, pos)} && u.log == []
  {
    var pos := Pos(0, 0, 0);
    OneRequestIs(limits, pos, callback);
    PopOneRequest(limits, pos, callback);
    hide EnqueueStep;
    hide PopStep;
    assert Calls(pos, [callback]) == [Call(callback, pos)];
  }

  lemma PopOneRequest(limits: Limits, pos: Pos, callback: Callback)
    requires !OverMaxLimit(pos)
    ensures var s := OneRequest(pos, callback);
      Step(limits, s, Pop(0))
        == State(map[], map[PEER_ID_INEXISTENT := 0], [[]], [Busy(pos, s.blocks[pos])], [], s.accepted, multiset{})
  {
    hide OverMaxLimit;
    hide EnqueueStep;
    var s := OneRequest(pos, callback);
    assert s.blocks - {pos} == map[] && s.queues[0][1..] == [];
    assert s.queues[0 := []] == [[]];
    assert s.work[0 := Busy(pos, s.blocks[pos])] == [Busy(pos, s.blocks[pos])];
    assert s.counts[PEER_ID_INEXISTENT := 0] == map[PEER_ID_INEXISTENT := 0];
  }

  ghost predicate NoEnqueue(events: seq<Event>) {
    forall i :: 0 <= i < |events| ==> !events[i].Enqueue?
  }

  ghost predicate Drained(s: State, w: nat) {
    w < |s.queues| && w < |s.work| && s.queues[w] == [] && s.work[w].Idle?
  }

  lemma StepKeepsDrained(limits: Limits, s: State, e: Event, w: nat)
    requires Formed(s) && Enabled(s, e) && !e.Enqueue? && w < |s.queues|
    requires Drained(s, w) || e == Cancel(w)
    ensures Drained(Step(limits, s, e), w)
  {
    hide OverMaxLimit;
    hide Uncount;
    hide EntryAt;
    hide Erased;
  }

  /** From the moment a worker cancels, if nothing is enqueued any more, its queue stays empty. */
  lemma {:induction false} RunKeepsDrained(limits: Limits, trace: seq<State>, events: seq<Event>, w: nat, i: nat,
                                           k: nat)
    requires IsRun(limits, trace, events) && i < k < |trace|
    requires NoEnqueue(events)
    requires |events| == |trace| - 1 && w < |trace[0].queues| && events[i] == Cancel(w)
    ensures Drained(trace[k], w)
  {
    hide *;
    RunKeepsInv(limits, trace, events, k - 1);
    RunStep(limits, trace, events, k - 1);
    if i < k - 1 {
      RunKeepsDrained(limits, trace, events, w, i, k - 1);
    }
    NthIsNoEnqueue(events, k - 1);
    FollowingKeepsDrained(limits, trace[k - 1], events[k - 1], trace[k], w);
  }

  lemma NthIsNoEnqueue(events: seq<Event>, k: nat)
    requires NoEnqueue(events) && k < |events|
    ensures !events[k].Enqueue?
  {
  }

  lemma FollowingKeepsDrained(limits: Limits, s: State, e: Event, t: State, w: nat)
    requires Follows(limits, s, e, t) && !e.Enqueue? && w < |s.queues|
    requires Drained(s, w) || e == Cancel(w)
    ensures Drained(t, w)
  {
    StepKeepsDrained(limits, s, e, w);
  }

  lemma {:induction false} AllDrained(queues: seq<seq<Pos>>, work: seq<Work>)
    requires |queues| == |work|
    requires forall w :: 0 <= w < |queues| ==> queues[w] == [] && work[w].Idle?
    ensures Queued(queues) == multiset{} && Held(work) == multiset{}
  {
    if queues != [] {
      AllDrained(queues[..|queues| - 1], work[..|work| - 1]);
    }
  }

  lemma DrainedState(s: State)
    requires Inv(s) && forall w: nat :: w < |s.queues| ==> Drained(s, w)
    ensures s.blocks == map[] && s.accepted == Run(s.log) + s.lost
    ensures forall peer: Peer :: CountOf(s.counts, peer) == 0
  {
    forall w | 0 <= w < |s.queues| ensures s.queues[w] == [] && s.work[w].Idle? {
      assert Drained(s, w);
    }
    AllDrained(s.queues, s.work);
    assert multiset(s.blocks.Keys) == multiset{};
    forall pos ensures pos !in s.blocks { assert pos !in multiset(s.blocks.Keys); }
    assert s.blocks == map[];
    forall peer: Peer ensures CountOf(s.counts, peer) == 0 {
      assert EntriesOf(s.blocks, peer) == {};
    }
  }

  /** Once every worker has cancelled and nobody enqueues, all queues are empty, all counters
      are zero, and every accepted callback has run exactly once or was lost. */
  lemma ShutdownDrains(limits: Limits, trace: seq<State>, events: seq<Event>)
    requires IsRun(limits, trace, events)
    requires NoEnqueue(events)
    requires forall w: nat :: w < |trace[0].queues| ==> Cancel(w) in events
    ensures var end := trace[|events|];
      && (forall w: nat :: w < |end.queues| ==> end.queues[w] == [])
      && end.blocks == map[]
      && (forall peer: Peer :: CountOf(end.counts, peer) == 0)
      && end.accepted == Run(end.log) + end.lost
  {
    var end := trace[|events|];
    RunKeepsInv(limits, trace, events, |events|);
    hide Inv;
    forall w: nat | w < |end.queues| ensures Drained(end, w) {
      var i :| 0 <= i < |events| && events[i] == Cancel(w);
      RunKeepsDrained(limits, trace, events, w, i, |events|);
    }
    DrainedState(end);
    forall w: nat | w < |end.queues| ensures end.queues[w] == [] {
      assert Drained(end, w);
    }
  }

  /** What remains of a run is a run. */
  lemma TailIsRun(limits: Limits, trace: seq<State>, events: seq<Event>, m: nat)
    requires IsRun(limits, trace, events) && m <= |events|
    ensures |trace| == |events| + 1 && IsRun(limits, trace[m..], events[m..])
    ensures |trace[m].queues| == |trace[0].queues|
  {
    hide Inv;
    hide Follows;
    RunKeepsInv(limits, trace, events, m);
    forall i | 0 <= i < |events[m..]| ensures Follows(limits, trace[m..][i], events[m..][i], trace[m..][i + 1]) {
      RunStep(limits, trace, events, m + i);
    }
  }

  /** A run that begins with nothing lost and ends with every worker cancelling, nothing being
      enqueued any more, has run every callback it accepted if and only if no step dropped any;
      a harmless run has. */
  lemma ShutdownRunsAll(limits: Limits, trace: seq<State>, events: seq<Event>, m: nat)
    requires IsRun(limits, trace, events) && trace[0].lost == multiset{}
    requires m <= |events| && NoEnqueue(events[m..])
    requires forall w: nat :: w < |trace[0].queues| ==> Cancel(w) in events[m..]
    ensures |trace| == |events| + 1
    ensures trace[|events|].accepted == Run(trace[|events|].log) <==> NothingDropped(trace, events, |events|)
    ensures InsideLimit(trace[0]) && (forall i :: 0 <= i < |events| ==> Harmless(events[i])) ==>
      trace[|events|].accepted == Run(trace[|events|].log)
  {
    hide Inv;
    hide Run;
    hide Follows;
    hide InsideLimit;
    hide Harmless;
    hide NothingDropped;
    TailIsRun(limits, trace, events, m);
    var end := trace[|events|];
    assert trace[m..][|events[m..]|] == end;
    ShutdownDrains(limits, trace[m..], events[m..]);
    RunLosesExactly(limits, trace, events, |events|);
    MoreLost(Run(end.log), end.lost);
    if InsideLimit(trace[0]) && forall i :: 0 <= i < |events| ==> Harmless(events[i]) {
      RunLosesNothing(limits, trace, events, |events|);
    }
  }

  // ---------------------------------------------------------------------------
  // The steps field by field
  // ---------------------------------------------------------------------------

  lemma PopStepEmpty(s: State, worker: nat)
    requires Inv(s) && worker < |s.work|
    ensures |s.queues| == |s.work| && (s.queues[worker] == [] ==> PopStep(s, worker) == s)
  {
  }

  lemma PopStepFields(s: State, worker: nat)
    requires Inv(s) && worker < |s.queues| && s.queues[worker] != []
    ensures var pos := s.queues[worker][0];
      var entry := EntryAt(s.blocks, pos);
      && |s.queues| == |s.work| && Removable(s.blocks, s.counts, pos) && s.counts[s.blocks[pos].peer] > 0
      && PopStep(s, worker) == State(s.blocks - {pos}, Uncount(s.blocks, s.counts, pos),
           s.queues[worker := s.queues[worker][1..]],
           if OverMaxLimit(pos) then s.work else s.work[worker := Busy(pos, entry)], s.log, s.accepted,
           if OverMaxLimit(pos) then s.lost + multiset(Calls(pos, entry.callbacks)) else s.lost)
      && CancelFront(s, worker) == State(s.blocks - {pos}, Uncount(s.blocks, s.counts, pos),
           s.queues[worker := s.queues[worker][1..]], s.work,
           s.log + Completions(pos, Cancelled, entry.callbacks), s.accepted, s.lost)
  {
    FrontIsEnqueued(s, worker);
  }

  lemma EnqueueStepFields(limits: Limits, s: State, pos: Pos, peer: Peer, flags: Flags, callbacks: seq<Callback>)
    requires Inv(s)
    ensures var count := CountOf(s.counts, peer);
      var s' := EnqueueStep(limits, s, pos, peer, flags, callbacks);
      var ok := Admitted(limits, |s.blocks|, count, peer, flags);
      && s.queues != []
      && s' == State(Merged(s.blocks, ok, pos, peer, flags, callbacks),
           s.counts[peer := if ok && pos !in s.blocks then count + 1 else count],
           if ok && pos !in s.blocks then s.queues[OptimalThread(s.queues) := s.queues[OptimalThread(s.queues)] + [pos]]
           else s.queues,
           s.work, s.log, if ok then s.accepted + multiset(Calls(pos, callbacks)) else s.accepted, s.lost)
  {
    hide QueuedOnce;
    hide CountsExact;
    hide CallbacksConserved;
    hide OptimalThread;
    hide Admitted;
    hide CountOf;
  }

  /** The entries after a request was admitted or not. */
  function Merged(blocks: map<Pos, Entry>, ok: bool, pos: Pos, peer: Peer, flags: Flags,
                  callbacks: seq<Callback>): map<Pos, Entry> {
    if !ok then blocks
    else if pos in blocks then
      blocks[pos := Entry(blocks[pos].peer, blocks[pos].flags.Or(flags), blocks[pos].callbacks + callbacks)]
    else blocks[pos := Entry(peer, flags, callbacks)]
  }
}
