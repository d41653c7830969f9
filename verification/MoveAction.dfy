/** Applying a player's move of a stack: who is asked, how much may move, and when stacks swap. */
module MoveActions {
  import opened Integers
  import opened Stacks
  import opened InventoryOps
  import opened InventoryLists

  /** One end of a move. */
  datatype Endpoint = Endpoint(inv: string, list: string, i: int)

  /** A question to the callbacks that limit moves. */
  datatype Question =
    | AskMove(from: Endpoint, to: Endpoint, number: nat)
    | AskPut(from: Endpoint, to: Endpoint, stack: ItemStack)
    | AskTake(from: Endpoint, to: Endpoint, stack: ItemStack)
  {
    function Count(): nat {
      if AskMove? then number else stack.count
    }
  }

  /** The answer to the k-th question; any callbacks at all. */
  type Answers = nat -> nat

  /** What a move in one direction asks: once within an inventory, both ends across two. */
  function Questions(from: Endpoint, to: Endpoint, stack: ItemStack): seq<Question> {
    if from.inv == to.inv then [AskMove(from, to, stack.count)]
    else [AskPut(from, to, stack), AskTake(from, to, stack)]
  }

  /** Every question from the k-th on was answered with at least the count asked for. */
  ghost predicate AllAllowed(questions: seq<Question>, answers: Answers, k: nat) {
    forall m :: k <= m < k + |questions| ==> questions[m - k].Count() <= answers(m)
  }

  ghost function Limited(questions: seq<Question>, answers: Answers, k: nat, n: nat): nat {
    if questions == [] then n else Limited(questions[1..], answers, k + 1, Min(n, answers(k)))
  }

  datatype Decision = Decision(questions: seq<Question>, moved: nat, swap: bool)

  /** The stack asked for: a count of zero means everything. */
  function Wanted(src: ItemStack, count: u16): ItemStack {
    if 0 < count < src.count then src.(count := count) else src
  }

  /** What a move between two different slots should do: as much of the wanted stack as fits and
      as every answer allows; if nothing fits at all, the whole stacks swap, provided that
      both directions allow it and this is not one step of a move to anywhere. */
  ghost function Decide(src: ItemStack, dst: ItemStack, count: u16, somewhere: bool, from: Endpoint, to: Endpoint,
                        answers: Answers, k: nat, maxOf: StackMax): Decision
  {
    var fitting := Fitting(dst, Wanted(src, count), maxOf);
    if src.Empty() || (somewhere && fitting == 0) then Decision([], 0, false)
    else if fitting > 0 then
      var asked := Questions(from, to, src.(count := fitting));
      Decision(asked, Limited(asked, answers, k, fitting), false)
    else
      var there, back := Questions(from, to, src), Questions(to, from, dst);
      if !AllAllowed(there, answers, k) then Decision(there, 0, false)
      else if !AllAllowed(back, answers, k + |there|) then Decision(there + back, 0, false)
      else Decision(there + back, src.count, true)
  }

  /** No more is moved than was wanted, than fits, or than any answer allows; a swap has been
      allowed both ways for the whole stacks, and only happens when nothing fits. */
  lemma DecisionIsAllowed(src: ItemStack, dst: ItemStack, count: u16, somewhere: bool, from: Endpoint, to: Endpoint,
                          answers: Answers, k: nat, maxOf: StackMax)
    ensures var d := Decide(src, dst, count, somewhere, from, to, answers, k, maxOf);
      && d.moved <= src.count
      && (!d.swap ==> d.moved <= Fitting(dst, Wanted(src, count), maxOf) <= Wanted(src, count).count)
      && (!d.swap ==> forall m :: k <= m < k + |d.questions| ==> d.moved <= answers(m))
      && (d.swap <==>
            && !src.Empty() && !somewhere && Fitting(dst, Wanted(src, count), maxOf) == 0
            && AllAllowed(Questions(from, to, src) + Questions(to, from, dst), answers, k))
  {
    var there, back := Questions(from, to, src), Questions(to, from, dst);
    AllAllowedBoth(there, back, answers, k);
    var fitting := Fitting(dst, Wanted(src, count), maxOf);
    LimitedBounds(Questions(from, to, src.(count := fitting)), answers, k, fitting);
  }

  /** What was asked, how much moves and whether the stacks swap, by the two stacks, the two ends
      and the answers from the k-th on.  What is wanted and fits is asked about once within an
      inventory, and as a put and a take across two; it moves up to the smallest answer.  If
      nothing fits, each direction of a swap is asked about for its whole stack, the second only
      if the first was allowed. */
  ghost predicate Settled(src: ItemStack, dst: ItemStack, count: u16, somewhere: bool, from: Endpoint, to: Endpoint,
                          answers: Answers, k: nat, maxOf: StackMax, asked: seq<Question>, moved: nat, swap: bool)
  {
    var wanted := if 0 < count < src.count then count else src.count;
    var fitting := if dst.Empty() then wanted
                   else if dst.name != src.name || dst.meta != src.meta then 0
                   else Min(wanted, Max(0, maxOf(dst.name) - dst.count));
    if fitting > 0 then
      && !swap
      && asked == (if from.inv == to.inv then [AskMove(from, to, fitting)]
                   else [AskPut(from, to, src.(count := fitting)), AskTake(from, to, src.(count := fitting))])
      && moved <= fitting && (forall m :: k <= m < k + |asked| ==> moved <= answers(m))
      && (moved == fitting || exists m :: k <= m < k + |asked| && moved == answers(m))
    else if somewhere then asked == [] && moved == 0 && !swap
    else if from.inv == to.inv then
      var there, back := src.count <= answers(k), dst.count <= answers(k + 1);
      && asked == [AskMove(from, to, src.count)] + (if there then [AskMove(to, from, dst.count)] else [])
      && swap == (there && back) && moved == if swap then src.count else 0
    else
      var there := src.count <= answers(k) && src.count <= answers(k + 1);
      var back := dst.count <= answers(k + 2) && dst.count <= answers(k + 3);
      && asked == [AskPut(from, to, src), AskTake(from, to, src)]
                  + (if there then [AskPut(to, from, dst), AskTake(to, from, dst)] else [])
      && swap == (there && back) && moved == if swap then src.count else 0
  }

  function Max(a: int, b: int): int {
    if a < b then b else a
  }

  lemma DecisionSettled(src: ItemStack, dst: ItemStack, count: u16, somewhere: bool, from: Endpoint, to: Endpoint,
                        answers: Answers, k: nat, maxOf: StackMax)
    requires !src.Empty()
    ensures var d := Decide(src, dst, count, somewhere, from, to, answers, k, maxOf);
      Settled(src, dst, count, somewhere, from, to, answers, k, maxOf, d.questions, d.moved, d.swap)
  {
    var fitting := Fitting(dst, Wanted(src, count), maxOf);
    var asked := Questions(from, to, src.(count := fitting));
    LimitedBounds(asked, answers, k, fitting);
    AllowedWhen(Questions(from, to, src), answers, k);
    AllowedWhen(Questions(to, from, dst), answers, k + |Questions(from, to, src)|);
    hide Limited;
    hide AllAllowed;
  }

  lemma AllowedWhen(questions: seq<Question>, answers: Answers, k: nat)
    requires 1 <= |questions| <= 2
    ensures AllAllowed(questions, answers, k)
       <==> questions[0].Count() <= answers(k) && (|questions| == 2 ==> questions[1].Count() <= answers(k + 1))
  {
    assert |questions| == 2 ==> questions[k + 1 - k] == questions[1];
    assert questions[k - k] == questions[0];
  }

  lemma AllAllowedBoth(there: seq<Question>, back: seq<Question>, answers: Answers, k: nat)
    ensures AllAllowed(there + back, answers, k)
       <==> AllAllowed(there, answers, k) && AllAllowed(back, answers, k + |there|)
  {
    var all := there + back;
    forall m | k <= m < k + |all|
      ensures all[m - k].Count() <= answers(m)
        <==> (if m < k + |there| then there[m - k] else back[m - (k + |there|)]).Count() <= answers(m)
    {
    }
  }

  lemma {:induction false} LimitedBounds(questions: seq<Question>, answers: Answers, k: nat, n: nat)
    ensures Limited(questions, answers, k, n) <= n
    ensures forall m :: k <= m < k + |questions| ==> Limited(questions, answers, k, n) <= answers(m)
    ensures Limited(questions, answers, k, n) == n
      || exists m :: k <= m < k + |questions| && Limited(questions, answers, k, n) == answers(m)
  {
    if questions != [] {
      LimitedBounds(questions[1..], answers, k + 1, Min(n, answers(k)));
    }
  }

  lemma {:induction false} LimitedByTwo(questions: seq<Question>, answers: Answers, k: nat, n: nat)
    requires 1 <= |questions| <= 2
    ensures Limited(questions, answers, k, n) == Min(answers(k + |questions| - 1), Min(answers(k), n))
  {
    if |questions| == 2 { LimitedByTwo(questions[1..], answers, k + 1, Min(n, answers(k))); }
  }

  /** The lists after a decided move: what is moved leaves one slot and arrives in the other, or
      the two stacks change places, and no other slot is touched. */
  ghost predicate Carried(source: Items, target: Items, sameList: bool, i: nat, j: nat, d: Decision,
                          source': Items, target': Items)
  {
    && i < |source| == |source'| && j < |target| == |target'|
    && source' == WithSlot(if sameList then WithSlot(source, j, target'[j]) else source, i, source'[i])
    && target' == WithSlot(if sameList then WithSlot(target, i, source'[i]) else target, j, target'[j])
    && (d.swap ==> source'[i] == target[j] && target'[j] == source[i])
    && (!d.swap && d.moved == 0 ==> source' == source && target' == target)
    && (!d.swap && d.moved > 0 ==>
          && source'[i].count == source[i].count - d.moved && target'[j].count == target[j].count + d.moved
          && target'[j].Stackable(source[i]) && (!source'[i].Empty() ==> source'[i].Stackable(source[i]))
          && target'[j].wear == (if target[j].Empty() then source[i].wear else target[j].wear)
          && (if source'[i].Empty() then source'[i] == NONE else source'[i].wear == source[i].wear))
  }

  lemma NothingCarried(source: Items, target: Items, sameList: bool, i: nat, j: nat, d: Decision)
    requires AllProper(source) && AllProper(target) && (sameList ==> source == target)
    requires i < |source| && j < |target| && d.moved == 0 && !d.swap
    ensures Carried(source, target, sameList, i, j, d, source, target)
    ensures ListsConserved(source, target, sameList, source, target)
  {
  }

  /** Moving the settled number of items carries the decision out. */
  lemma DecisionCarried(source: Items, target: Items, sameList: bool, i: nat, j: nat, count: u16, somewhere: bool,
                        from: Endpoint, to: Endpoint, answers: Answers, k: nat, n: nat, maxOf: StackMax)
    requires AllProper(source) && AllProper(target) && (sameList ==> source == target)
    requires i < |source| && j < |target| && !SameSlot(sameList, i, j)
    requires var d := Decide(source[i], target[j], count, somewhere, from, to, answers, k, maxOf);
      if d.swap then 0 < n <= d.moved else 0 < n == d.moved
    ensures var d := Decide(source[i], target[j], count, somewhere, from, to, answers, k, maxOf);
      var m := MoveStacks(source[i], target[j], true, n, d.swap, maxOf);
      var (source', target') := MovedBetween(source, target, sameList, i, j, m);
      && m.didSwap == d.swap && m.moved.count == d.moved
      && Carried(source, target, sameList, i, j, d, source', target')
  {
    var d := Decide(source[i], target[j], count, somewhere, from, to, answers, k, maxOf);
    DecisionIsAllowed(source[i], target[j], count, somewhere, from, to, answers, k, maxOf);
    MoveStacksMoves(source[i], target[j], true, n, d.swap, maxOf);
    MoveStacksKeepKind(source[i], target[j], n, d.swap, maxOf);
    SwapTakesAll(source[i], target[j], count, somewhere, from, to, answers, k, maxOf);
    hide Decide;
    hide MoveStacks;
    var m := MoveStacks(source[i], target[j], true, n, d.swap, maxOf);
    var (source', target') := MovedBetween(source, target, sameList, i, j, m);
  }

  lemma SwapTakesAll(src: ItemStack, dst: ItemStack, count: u16, somewhere: bool, from: Endpoint, to: Endpoint,
                     answers: Answers, k: nat, maxOf: StackMax)
    ensures var d := Decide(src, dst, count, somewhere, from, to, answers, k, maxOf); d.swap ==> d.moved == src.count
  {
  }

  lemma MoveStacksKeepKind(source: ItemStack, target: ItemStack, n: nat, swap: bool, maxOf: StackMax)
    requires 0 < n <= source.count
    ensures var m := MoveStacks(source, target, true, n, swap, maxOf);
      !m.didSwap && !m.moved.Empty() ==>
        && m.target.Stackable(source) && (!m.source.Empty() ==> m.source.Stackable(source))
        && m.target.wear == (if target.Empty() then source.wear else target.wear)
        && (!m.source.Empty() ==> m.source.wear == source.wear)
  {
    TakenMoves(source, n);
  }

  class MoveAction {
    var fromInv: string
    var fromList: string
    var fromI: int
    var toInv: string
    var toList: string
    var toI: int
    const count: u16
    const causedByMoveSomewhere: bool
    /** How many items were moved at the end. */
    var moveCount: nat
    /** The callbacks, and what they have been asked so far. */
    const answers: Answers
    var asked: seq<Question>

    function From(): Endpoint
      reads this`fromInv, this`fromList, this`fromI
    {
      Endpoint(fromInv, fromList, fromI)
    }

    function To(): Endpoint
      reads this`toInv, this`toList, this`toI
    {
      Endpoint(toInv, toList, toI)
    }

    constructor (from: Endpoint, to: Endpoint, count: u16, causedByMoveSomewhere: bool, answers: Answers)
      ensures From() == from && To() == to && this.count == count && moveCount == 0
      ensures this.causedByMoveSomewhere == causedByMoveSomewhere && this.answers == answers && asked == []
    {
      fromInv, fromList, fromI := from.inv, from.list, from.i;
      toInv, toList, toI := to.inv, to.list, to.i;
      this.count := count;
      this.causedByMoveSomewhere := causedByMoveSomewhere;
      moveCount := 0;
      this.answers := answers;
      asked := [];
    }

    method SwapDirections()
      modifies this
      ensures From() == old(To()) && To() == old(From()) && moveCount == old(moveCount) && asked == old(asked)
    {
      fromInv, toInv := toInv, fromInv;
      fromList, toList := toList, fromList;
      fromI, toI := toI, fromI;
    }

    method Ask(question: Question) returns (limit: nat)
      modifies this`asked
      ensures asked == old(asked) + [question] && limit == answers(|old(asked)|)
    {
      limit := answers(|asked|);
      asked := asked + [question];
    }

    /** The limits for one direction, as they stand: the same question serves both ends within
        an inventory. */
    method AskLimits(stack: ItemStack) returns (take: nat, put: nat)
      modifies this`asked
      ensures From() == old(From()) && To() == old(To())
      ensures asked == old(asked) + Questions(From(), To(), stack)
      ensures AllAllowed(Questions(From(), To(), stack), answers, |old(asked)|)
         <==> stack.count <= take && stack.count <= put
      ensures forall n: nat ::
        Limited(Questions(From(), To(), stack), answers, |old(asked)|, n) == Min(take, Min(put, n))
    {
      ghost var k, questions := |asked|, Questions(From(), To(), stack);
      forall n: nat ensures Limited(questions, answers, k, n)
        == Min(answers(k + |questions| - 1), Min(answers(k), n))
      {
        LimitedByTwo(questions, answers, k, n);
      }
      if fromInv == toInv {
        take := Ask(AskMove(From(), To(), stack.count));
        put := take;
      } else {
        put := Ask(AskPut(From(), To(), stack));
        take := Ask(AskTake(From(), To(), stack));
      }
    }

    /** Applies the move between the two lists, which may be one list or missing. */
    method Apply(listFrom: InventoryList?, listTo: InventoryList?) returns (didSwap: bool)
      requires listFrom != null && listTo != null ==>
        listFrom.maxOf == listTo.maxOf && AllProper(listFrom.items) && AllProper(listTo.items)
      modifies this, listFrom, listTo
      ensures From() == old(From()) && To() == old(To())
      ensures !old(Possible(listFrom, listTo)) ==>
        && asked == old(asked) && moveCount == old(moveCount) && !didSwap
        && (listFrom != null ==> listFrom.items == old(listFrom.items))
        && (listTo != null ==> listTo.items == old(listTo.items))
      ensures old(Possible(listFrom, listTo)) ==>
        && old(asked) <= asked
        && Settled(old(listFrom.items[fromI]), old(listTo.items[toI]), count, causedByMoveSomewhere, From(), To(),
                   answers, |old(asked)|, listFrom.maxOf, asked[|old(asked)|..], moveCount, didSwap)
      ensures old(Possible(listFrom, listTo)) ==>
        var d := Decide(old(listFrom.items[fromI]), old(listTo.items[toI]), count, causedByMoveSomewhere,
                        From(), To(), answers, |old(asked)|, listFrom.maxOf);
        && asked == old(asked) + d.questions && moveCount == d.moved && didSwap == d.swap
        && Carried(old(listFrom.items), old(listTo.items), listFrom == listTo, fromI, toI, d,
                   listFrom.items, listTo.items)
        && ListsConserved(old(listFrom.items), old(listTo.items), listFrom == listTo, listFrom.items, listTo.items)
    {
      hide Settled;
      hide Carried;
      hide Decide;
      hide MoveStacks;
      hide MovedBetween;
      hide Fitting;
      hide AllAllowed;
      hide Questions;
      didSwap := false;
      if listFrom == null || listTo == null {
        return;
      }
      if fromI < 0 || |listFrom.items| <= fromI {
        return;
      }
      if toI < 0 || |listTo.items| <= toI {
        return;
      }
      if listFrom == listTo && fromI == toI {
        return;
      }
      ghost var source, target, k := listFrom.items, listTo.items, |asked|;
      if listFrom.items[fromI].Empty() {
        return;
      }
      DecisionIsAllowed(source[fromI], target[toI], count, causedByMoveSomewhere, From(), To(), answers, k,
                        listFrom.maxOf);
      DecisionSettled(source[fromI], target[toI], count, causedByMoveSomewhere, From(), To(), answers, k,
                      listFrom.maxOf);
      var allowSwap := Negotiate(listFrom.items[fromI], listTo.items[toI], listFrom.maxOf);
      ghost var d := Decide(source[fromI], target[toI], count, causedByMoveSomewhere, From(), To(), answers, k,
                            listFrom.maxOf);
      if moveCount == 0 {
        NothingCarried(source, target, listFrom == listTo, fromI, toI, d);
        return;
      }
      DecisionCarried(source, target, listFrom == listTo, fromI, toI, count, causedByMoveSomewhere, From(), To(),
                      answers, k, moveCount, listFrom.maxOf);
      var srcItem;
      srcItem, didSwap := listFrom.MoveItem(fromI, listTo, toI, moveCount, allowSwap);
      moveCount := srcItem.count;
      assert allowSwap == didSwap;
    }

    /** A swap also asks for the other direction, for the whole stack. */
    method AskBack(dstItem: ItemStack) returns (allowed: bool, limit: nat)
      modifies this
      ensures From() == old(From()) && To() == old(To()) && moveCount == old(moveCount)
      ensures asked == old(asked) + Questions(To(), From(), dstItem)
      ensures allowed <==> AllAllowed(Questions(To(), From(), dstItem), answers, |old(asked)|)
      ensures allowed ==> dstItem.count <= limit
    {
      SwapDirections();
      var srcCanTake, dstCanPut := AskLimits(dstItem);
      allowed := srcCanTake >= dstItem.count && dstCanPut >= dstItem.count;
      limit := srcCanTake;
      SwapDirections();
    }

    /** Asks for the move, and settles how many items to move and whether the stacks may swap. */
    method Negotiate(src: ItemStack, dst: ItemStack, maxOf: StackMax) returns (allowSwap: bool)
      requires !src.Empty()
      modifies this
      ensures From() == old(From()) && To() == old(To())
      ensures var d := Decide(src, dst, count, causedByMoveSomewhere,
                              From(), To(), answers, |old(asked)|, maxOf);
        && asked == old(asked) + d.questions && allowSwap == d.swap
        && (if allowSwap then 0 < moveCount <= d.moved else moveCount == d.moved)
    {
      hide Fitting;
      hide ItemFits;
      hide Questions;
      hide AllAllowed;
      hide Limited;
      hide From;
      hide To;
      ItemFitsPredicts(dst, Wanted(src, count), maxOf);
      allowSwap := false;
      var srcItem := src;
      if 0 < count < srcItem.count {
        srcItem := srcItem.(count := count);
      }
      var (fits, restItem) := ItemFits(dst, srcItem, maxOf);
      allowSwap := !fits && restItem.count == srcItem.count && !causedByMoveSomewhere;
      var moving: nat := srcItem.count - restItem.count;
      if causedByMoveSomewhere && moving == 0 {
        moveCount := 0;
        return;
      }
      if allowSwap {
        srcItem := src;
        moving := srcItem.count;
      }
      srcItem := src.(count := moving);

      var swapExpected := allowSwap;
      var srcCanTake, dstCanPut := AskLimits(srcItem);
      allowSwap := allowSwap && srcCanTake >= srcItem.count && dstCanPut >= srcItem.count;
      if allowSwap {
        var backLimit;
        allowSwap, backLimit := AskBack(dst);
        if fromInv == toInv {
          dstCanPut := backLimit;
        }
      }
      if swapExpected != allowSwap {
        srcCanTake, dstCanPut := 0, 0;
      }

      moving := Min(srcCanTake, moving);
      moving := Min(dstCanPut, moving);
      moveCount := Min(moving, src.count);
    }

    /** Both lists are there, both slots exist and differ, and there is something to move. */
    predicate Possible(listFrom: InventoryList?, listTo: InventoryList?)
      reads this, listFrom, listTo
    {
      && listFrom != null && listTo != null
      && 0 <= fromI < |listFrom.items| && 0 <= toI < |listTo.items|
      && !(listFrom == listTo && fromI == toI)
      && !listFrom.items[fromI].Empty()
    }
  }
}
