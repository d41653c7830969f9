/** The emerge manager and its workers: each method is one critical section, and one step of the queue. */
module EmergeManager {
  import opened EmergeQueue

  datatype MaybeCallback = NoCallback | SomeCallback(callback: Callback) {
    function AsList(): (r: seq<Callback>)
      ensures |r| <= 1
    {
      if NoCallback? then [] else [callback]
    }
  }

  class Manager {
    const limits: Limits
    var blocksEnqueued: map<Pos, Entry>
    var peerQueueCount: map<Peer, nat>
    /** The queue of each worker, and the block each worker is busy with. */
    var queues: seq<seq<Pos>>
    var work: seq<Work>
    /** The callbacks made so far, in order. */
    var log: seq<Completion>
    ghost var accepted: multiset<Call>
    ghost var lost: multiset<Call>

    ghost function View(): State
      reads this
    {
      State(blocksEnqueued, peerQueueCount, queues, work, log, accepted, lost)
    }

    ghost predicate Valid()
      reads this
    {
      Inv(View())
    }

    constructor (limits: Limits, workers: nat)
      requires workers > 0
      ensures this.limits == limits && Valid() && View() == Initial(workers)
    {
      this.limits := limits;
      blocksEnqueued, peerQueueCount := map[], map[];
      queues, work := seq(workers, _ => []), seq(workers, _ => Idle);
      log, accepted, lost := [], multiset{}, multiset{};
      new;
      InitialInv(workers);
    }

    method GetOptimalThread() returns (index: nat)
      requires queues != []
      ensures index == OptimalThread(queues)
    {
      index := 0;
      var lowest := |queues[0]|;
      for i := 1 to |queues|
        invariant index == OptimalThread(queues[..i]) && lowest == |queues[index]|
      {
        assert queues[..i + 1][..i] == queues[..i];
        var items := |queues[i]|;
        if items < lowest {
          index := i;
          lowest := items;
        }
      }
      assert queues[..|queues|] == queues;
    }

    /** Admission, quotas and merging of a request into an existing entry. */
    method PushBlockEmergeData(pos: Pos, peer: Peer, flags: Flags, callback: MaybeCallback)
      returns (ok: bool, existed: bool)
      modifies `blocksEnqueued, `peerQueueCount
      ensures var count := CountOf(old(peerQueueCount), peer);
        && ok == Admitted(limits, |old(blocksEnqueued)|, count, peer, flags)
        && (ok ==> existed == (pos in old(blocksEnqueued)))
        && peerQueueCount == old(peerQueueCount)[peer := if ok && !existed then count + 1 else count]
        && blocksEnqueued == Merged(old(blocksEnqueued), ok, pos, peer, flags, callback.AsList())
      // With exact counters, in terms of the entries there are
      ensures CountOf(old(peerQueueCount), peer) == |EntriesOf(old(blocksEnqueued), peer)| ==>
        (ok <==> flags.forceQueue || RoomFor(limits, old(blocksEnqueued), peer, flags))
      ensures if ok then Recorded(old(blocksEnqueued), blocksEnqueued, pos, peer, flags, callback.AsList())
              else blocksEnqueued == old(blocksEnqueued)
    {
      existed := false;
      // operator[] creates a missing counter
      if peer !in peerQueueCount {
        peerQueueCount := peerQueueCount[peer := 0];
      }
      var count := peerQueueCount[peer];
      assert peerQueueCount == old(peerQueueCount)[peer := CountOf(old(peerQueueCount), peer)];
      if !flags.forceQueue {
        if |blocksEnqueued| >= limits.total {
          return false, existed;
        }
        if peer != PEER_ID_INEXISTENT {
          var limit := if flags.allowGen then limits.generate else limits.diskonly;
          if count >= limit {
            return false, existed;
          }
        } else if count * 2 >= limits.total {
          // half of the total for active blocks
          return false, existed;
        }
      }
      ok := true;
      existed := pos in blocksEnqueued;
      var entry := if existed then blocksEnqueued[pos] else Entry(peer, flags, []);
      assert entry.callbacks + [] == entry.callbacks && [] + callback.AsList() == callback.AsList();
      if callback.SomeCallback? {
        entry := entry.(callbacks := entry.callbacks + [callback.callback]);
      }
      if existed {
        entry := entry.(flags := entry.flags.Or(flags));
      } else {
        peerQueueCount := peerQueueCount[peer := count + 1];
        assert peerQueueCount == old(peerQueueCount)[peer := count + 1];
      }
      blocksEnqueued := blocksEnqueued[pos := entry];
    }

    method EnqueueBlockEmergeEx(pos: Pos, peer: Peer, flags: Flags, callback: MaybeCallback) returns (ok: bool)
      requires Valid()
      modifies this
      ensures Valid() && View() == EnqueueStep(limits, old(View()), pos, peer, flags, callback.AsList())
      ensures ok == Admitted(limits, |old(blocksEnqueued)|, CountOf(old(peerQueueCount), peer), peer, flags)
      ensures ok <==> flags.forceQueue || RoomFor(limits, old(blocksEnqueued), peer, flags)
    {
      hide Inv;
      hide EnqueueStep;
      hide Admitted;
      hide OptimalThread;
      hide Merged;
      hide CountOf;
      hide EntriesOf;
      hide RoomFor;
      hide Recorded;
      AdmittedIs(limits, View(), peer, flags);
      EnqueueKeepsInv(limits, View(), pos, peer, flags, callback.AsList());
      EnqueueStepFields(limits, View(), pos, peer, flags, callback.AsList());
      var existed;
      ok, existed := PushBlockEmergeData(pos, peer, flags, callback);
      if !ok {
        return;
      }
      accepted := accepted + multiset(Calls(pos, callback.AsList()));
      if existed {
        return;
      }
      var thread := GetOptimalThread();
      queues := queues[thread := queues[thread] + [pos]];
    }

    /** Removes an entry and lowers its peer's counter, which must not be zero. */
    method PopBlockEmergeData(pos: Pos) returns (ok: bool, entry: Entry)
      requires Removable(blocksEnqueued, peerQueueCount, pos) ==> peerQueueCount[blocksEnqueued[pos].peer] > 0
      modifies `blocksEnqueued, `peerQueueCount
      ensures ok == old(Removable(blocksEnqueued, peerQueueCount, pos)) && entry == EntryAt(old(blocksEnqueued), pos)
      ensures blocksEnqueued == Erased(old(blocksEnqueued), old(peerQueueCount), pos)
      ensures peerQueueCount == Uncount(old(blocksEnqueued), old(peerQueueCount), pos)
    {
      entry := NO_ENTRY;
      if pos !in blocksEnqueued {
        return false, entry;
      }
      entry := blocksEnqueued[pos];
      if entry.peer !in peerQueueCount {
        return false, entry;
      }
      assert peerQueueCount[entry.peer] != 0;
      peerQueueCount := peerQueueCount[entry.peer := peerQueueCount[entry.peer] - 1];
      blocksEnqueued := blocksEnqueued - {pos};
      ok := true;
    }

    method RunCompletionCallbacks(pos: Pos, action: Action, callbacks: seq<Callback>)
      modifies `log
      ensures log == old(log) + Completions(pos, action, callbacks)
    {
      for i := 0 to |callbacks|
        invariant log == old(log) + Completions(pos, action, callbacks[..i])
      {
        assert callbacks[..i + 1] == callbacks[..i] + [callbacks[i]];
        CompletionsSnoc(pos, action, callbacks[..i], callbacks[i]);
        log := log + [Completion(callbacks[i], pos, action)];
      }
      assert callbacks[..|callbacks|] == callbacks;
    }

    /** One round of a worker's loop up to the point where it starts on the block. */
    method PopBlockEmerge(worker: nat) returns (ok: bool)
      requires Valid() && worker < |work| && work[worker].Idle?
      modifies this
      ensures Valid() && View() == PopStep(old(View()), worker)
      ensures ok == (old(queues)[worker] != [])
    {
      hide Inv;
      hide PopStep;
      hide CancelFront;
      hide OverMaxLimit;
      hide Uncount;
      hide EntryAt;
      hide CountOf;
      PopStepEmpty(View(), worker);
      PopKeepsInv(View(), worker);
      if queues[worker] == [] {
        return false;
      }
      PopStepFields(View(), worker);
      var pos := queues[worker][0];
      queues := queues[worker := queues[worker][1..]];
      var entry;
      ok, entry := PopBlockEmergeData(pos);
      if OverMaxLimit(pos) {
        lost := lost + multiset(Calls(pos, entry.callbacks));
        return;
      }
      work := work[worker := Busy(pos, entry)];
    }

    /** The end of a round: whatever became of the block, its callbacks run. */
    method FinishBlock(worker: nat, action: Action)
      requires Valid() && worker < |work| && work[worker].Busy?
      modifies this
      ensures Valid() && View() == FinishStep(old(View()), worker, action)
    {
      FinishKeepsInv(View(), worker, action);
      hide Inv;
      var job := work[worker];
      work := work[worker := Idle];
      RunCompletionCallbacks(job.pos, action, job.entry.callbacks);
    }

    /** After its loop a worker cancels everything left in its queue. */
    method CancelPendingItems(worker: nat)
      requires Valid() && worker < |work|
      modifies this
      ensures Valid() && View() == CancelStep(old(View()), worker)
      ensures queues[worker] == []
    {
      ghost var s := View();
      while queues[worker] != []
        invariant Valid() && worker < |queues| && CancelStep(View(), worker) == CancelStep(s, worker)
        decreases |queues[worker]|
      {
        CancelOnce(worker);
      }
    }

    /** One round of the cancelling loop. */
    method CancelOnce(worker: nat)
      requires Valid() && worker < |queues| && queues[worker] != []
      modifies this
      ensures Valid() && View() == CancelFront(old(View()), worker)
    {
      hide Inv;
      hide PopStep;
      hide CancelFront;
      hide OverMaxLimit;
      hide Uncount;
      hide EntryAt;
      hide CountOf;
      CancelFrontKeepsInv(View(), worker);
      PopStepFields(View(), worker);
      var pos := queues[worker][0];
      queues := queues[worker := queues[worker][1..]];
      var ok, entry := PopBlockEmergeData(pos);
      RunCompletionCallbacks(pos, Cancelled, entry.callbacks);
    }
  }

  lemma CompletionsSnoc(pos: Pos, action: Action, callbacks: seq<Callback>, c: Callback)
    ensures Completions(pos, action, callbacks + [c])
         == Completions(pos, action, callbacks) + [Completion(c, pos, action)]
  {
  }
}
