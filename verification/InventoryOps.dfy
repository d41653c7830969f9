/** What the list operations of an inventory do, on lists of stacks as values. */
module InventoryOps {
  import opened Stacks

  type Items = seq<ItemStack>

  ghost function Total(items: Items, kind: Kind): nat {
    if items == [] then 0 else Total(items[..|items| - 1], kind) + items[|items| - 1].OfKind(kind)
  }

  ghost predicate AllProper(items: Items) {
    forall i :: 0 <= i < |items| ==> items[i].Proper()
  }

  lemma {:induction false} TotalUpdate(items: Items, i: nat, stack: ItemStack, kind: Kind)
    requires i < |items|
    ensures Total(items[i := stack], kind) == Total(items, kind) - items[i].OfKind(kind) + stack.OfKind(kind)
  {
    var n := |items| - 1;
    if i == n {
      assert items[i := stack][..n] == items[..n];
    } else {
      TotalUpdate(items[..n], i, stack, kind);
      assert items[i := stack][..n] == items[..n][i := stack];
    }
  }

  /** Slot i, or nothing when i is out of range. */
  function Slot(items: Items, i: nat): ItemStack {
    if i < |items| then items[i] else NONE
  }

  /** Writing a slot; out of range nothing happens. */
  function WithSlot(items: Items, i: nat, stack: ItemStack): Items {
    if i < |items| then items[i := stack] else items
  }

  // ---------------------------------------------------------------------------
  // Adding to the whole list
  // ---------------------------------------------------------------------------

  /** Walks the slots from k on, adding to those that are empty or not, as asked. */
  function Fill(items: Items, k: nat, item: ItemStack, intoEmpty: bool, maxOf: StackMax): (Items, ItemStack)
    requires k <= |items|
    decreases |items| - k
  {
    if k == |items| || item.Empty() then (items, item)
    else if items[k].Empty() != intoEmpty then Fill(items, k + 1, item, intoEmpty, maxOf)
    else
      var (stack, rest) := AddItem(items[k], item, maxOf);
      Fill(items[k := stack], k + 1, rest, intoEmpty, maxOf)
  }

  /** First the slots in use, then the empty ones. */
  function Added(items: Items, item: ItemStack, maxOf: StackMax): (Items, ItemStack) {
    var (items', rest) := Fill(items, 0, item, false, maxOf);
    Fill(items', 0, rest, true, maxOf)
  }

  /** What filling does to the items and to what is left over. */
  ghost predicate FillEffect(items: Items, item: ItemStack, items': Items, rest: ItemStack) {
    && |items'| == |items| && rest.count <= item.count
    && (!rest.Empty() ==> rest == item.(count := rest.count))
    && (rest.Empty() && !item.Empty() ==> rest == NONE)
    && (item.Proper() ==> rest.Proper())
    && (AllProper(items) && item.Proper() ==> AllProper(items'))
    && (forall kind :: Total(items', kind) + rest.OfKind(kind) == Total(items, kind) + item.OfKind(kind))
    && (forall i :: 0 <= i < |items| && !items[i].Empty() ==>
          && items'[i].Stackable(items[i]) && items'[i].wear == items[i].wear
          && 0 <= items'[i].count - items[i].count <= item.count - rest.count)
  }

  lemma FillOne(items: Items, k: nat, item: ItemStack, maxOf: StackMax)
    requires k < |items|
    ensures var (stack, rest) := AddItem(items[k], item, maxOf); FillEffect(items, item, items[k := stack], rest)
  {
    AddItemMoves(items[k], item, maxOf);
    AddItemProperIf(items[k], item, maxOf);
    var (stack, rest) := AddItem(items[k], item, maxOf);
    hide AddItem;
    forall kind ensures Total(items[k := stack], kind) + rest.OfKind(kind) == Total(items, kind) + item.OfKind(kind) {
      TotalUpdate(items, k, stack, kind);
    }
  }

  lemma AddItemProperIf(stack: ItemStack, item: ItemStack, maxOf: StackMax)
    ensures item.Proper() ==> AddItem(stack, item, maxOf).1.Proper()
    ensures item.Proper() && stack.Proper() ==> AddItem(stack, item, maxOf).0.Proper()
  {
  }

  lemma FillEffectTrans(a: Items, x: ItemStack, b: Items, y: ItemStack, c: Items, z: ItemStack)
    requires FillEffect(a, x, b, y) && FillEffect(b, y, c, z)
    ensures FillEffect(a, x, c, z)
  {
  }

  lemma FillEffectRefl(a: Items, x: ItemStack)
    ensures FillEffect(a, x, a, x)
  {
  }

  lemma {:induction false} FillMoves(items: Items, k: nat, item: ItemStack, intoEmpty: bool, maxOf: StackMax)
    requires k <= |items|
    ensures var (items', rest) := Fill(items, k, item, intoEmpty, maxOf); FillEffect(items, item, items', rest)
    decreases |items| - k
  {
    hide FillEffect;
    if k == |items| || item.Empty() {
      FillEffectRefl(items, item);
    } else if items[k].Empty() != intoEmpty {
      FillMoves(items, k + 1, item, intoEmpty, maxOf);
    } else {
      var (stack, rest) := AddItem(items[k], item, maxOf);
      FillOne(items, k, item, maxOf);
      FillMoves(items[k := stack], k + 1, rest, intoEmpty, maxOf);
      var (items', rest') := Fill(items[k := stack], k + 1, rest, intoEmpty, maxOf);
      FillEffectTrans(items, item, items[k := stack], rest, items', rest');
    }
  }

  /** Adding to a list keeps every item in the list or in the leftover, changes no stack in use
      but by growing it, and keeps stacks proper. */
  lemma AddedMoves(items: Items, item: ItemStack, maxOf: StackMax)
    ensures var (items', rest) := Added(items, item, maxOf); FillEffect(items, item, items', rest)
  {
    hide FillEffect;
    var (mid, rest) := Fill(items, 0, item, false, maxOf);
    FillMoves(items, 0, item, false, maxOf);
    FillMoves(mid, 0, rest, true, maxOf);
    var (items', rest') := Fill(mid, 0, rest, true, maxOf);
    FillEffectTrans(items, item, mid, rest, items', rest');
  }

  // ---------------------------------------------------------------------------
  // The room query
  // ---------------------------------------------------------------------------

  /** Walks the slots in order, on a copy of the item. */
  function Room(items: Items, k: nat, item: ItemStack, maxOf: StackMax): bool
    requires k <= |items|
    decreases |items| - k
  {
    if k == |items| then false
    else
      var (fits, rest) := ItemFits(items[k], item, maxOf);
      fits || Room(items, k + 1, rest, maxOf)
  }

  /** The space the stacks in use have for an item, from slot k on. */
  ghost function SpaceFrom(items: Items, k: nat, item: ItemStack, maxOf: StackMax): nat
    requires k <= |items|
    decreases |items| - k
  {
    if k == |items| then 0
    else
      SpaceIn(items[k], item, maxOf) + SpaceFrom(items, k + 1, item, maxOf)
  }

  ghost predicate EmptySlotFrom(items: Items, k: nat) {
    exists i :: k <= i < |items| && items[i].Empty()
  }

  lemma {:induction false} SpaceSameKind(items: Items, k: nat, a: ItemStack, b: ItemStack, maxOf: StackMax)
    requires k <= |items| && a.Stackable(b)
    ensures SpaceFrom(items, k, a, maxOf) == SpaceFrom(items, k, b, maxOf)
    decreases |items| - k
  {
    if k < |items| {
      SpaceSameKind(items, k + 1, a, b, maxOf);
    }
  }

  lemma {:induction false} SpaceUpdate(items: Items, k: nat, j: nat, stack: ItemStack, item: ItemStack, maxOf: StackMax)
    requires j < k <= |items|
    ensures SpaceFrom(items[j := stack], k, item, maxOf) == SpaceFrom(items, k, item, maxOf)
    decreases |items| - k
  {
    if k < |items| {
      SpaceUpdate(items, k + 1, j, stack, item, maxOf);
    }
  }

  /** The query finds room exactly when there is an empty slot or enough space in stacks. */
  lemma {:induction false} RoomMeans(items: Items, k: nat, item: ItemStack, maxOf: StackMax)
    requires k <= |items| && !item.Empty()
    ensures Room(items, k, item, maxOf) <==> EmptySlotFrom(items, k) || item.count <= SpaceFrom(items, k, item, maxOf)
    decreases |items| - k
  {
    if k < |items| {
      var (fits, rest) := ItemFits(items[k], item, maxOf);
      assert EmptySlotFrom(items, k) <==> items[k].Empty() || EmptySlotFrom(items, k + 1);
      hide EmptySlotFrom;
      if !fits {
        RoomMeans(items, k + 1, rest, maxOf);
        SpaceSameKind(items, k + 1, rest, item, maxOf);
      }
    }
  }

  /** The space a stack in use has for an item. */
  ghost function SpaceIn(stack: ItemStack, item: ItemStack, maxOf: StackMax): nat {
    if !stack.Empty() && stack.Stackable(item) then stack.FreeSpace(maxOf) else 0
  }

  lemma UsedLeaves(stack: ItemStack, item: ItemStack, maxOf: StackMax)
    requires !stack.Empty() && !item.Empty()
    ensures var rest := AddItem(stack, item, maxOf).1;
      && rest.count == item.count - Min(item.count, SpaceIn(stack, item, maxOf))
      && (!rest.Empty() ==> rest.Stackable(item))
  {
    AddItemMoves(stack, item, maxOf);
  }

  lemma FillNoMore(items: Items, k: nat, item: ItemStack, intoEmpty: bool, maxOf: StackMax)
    requires k <= |items| && item.Empty()
    ensures Fill(items, k, item, intoEmpty, maxOf) == (items, item)
  {
  }

  /** Filling the stacks in use leaves over what exceeds their space. */
  lemma {:induction false} FillUsedLeaves(items: Items, k: nat, item: ItemStack, maxOf: StackMax)
    requires k <= |items| && !item.Empty()
    ensures Fill(items, k, item, false, maxOf).1.count == item.count - Min(item.count, SpaceFrom(items, k, item, maxOf))
    decreases |items| - k
  {
    hide AddItem;
    hide SpaceIn;
    if k < |items| {
      if items[k].Empty() {
        FillUsedLeaves(items, k + 1, item, maxOf);
        assert SpaceIn(items[k], item, maxOf) == 0 by { NoSpaceInEmpty(items[k], item, maxOf); }
      } else {
        var (stack, rest) := AddItem(items[k], item, maxOf);
        UsedLeaves(items[k], item, maxOf);
        if rest.Empty() {
          FillNoMore(items[k := stack], k + 1, rest, false, maxOf);
        } else {
          FillUsedLeaves(items[k := stack], k + 1, rest, maxOf);
          SpaceUpdate(items, k + 1, k, stack, rest, maxOf);
          SpaceSameKind(items, k + 1, rest, item, maxOf);
        }
      }
    }
  }

  lemma NoSpaceInEmpty(stack: ItemStack, item: ItemStack, maxOf: StackMax)
    requires stack.Empty()
    ensures SpaceIn(stack, item, maxOf) == 0
  {
  }

  /** It fills no empty slot and empties none. */
  lemma {:induction false} FillUsedKeepsEmpty(items: Items, k: nat, item: ItemStack, maxOf: StackMax)
    requires k <= |items|
    ensures var items' := Fill(items, k, item, false, maxOf).0;
      |items'| == |items| && (forall i :: 0 <= i < |items| ==> (items'[i].Empty() <==> items[i].Empty()))
    decreases |items| - k
  {
    if k < |items| && !item.Empty() {
      if items[k].Empty() {
        FillUsedKeepsEmpty(items, k + 1, item, maxOf);
      } else {
        var (stack, rest) := AddItem(items[k], item, maxOf);
        AddItemMoves(items[k], item, maxOf);
        FillUsedKeepsEmpty(items[k := stack], k + 1, rest, maxOf);
        hide AddItem;
      }
    }
  }

  /** Filling empty slots takes everything exactly when there is one. */
  lemma {:induction false} FillEmptyMeans(items: Items, k: nat, item: ItemStack, maxOf: StackMax)
    requires k <= |items| && !item.Empty()
    ensures Fill(items, k, item, true, maxOf).1.Empty() <==> EmptySlotFrom(items, k)
    decreases |items| - k
  {
    if k < |items| {
      assert EmptySlotFrom(items, k) <==> items[k].Empty() || EmptySlotFrom(items, k + 1);
      if items[k].Empty() {
        assert Fill(items[k := item], k + 1, NONE, true, maxOf) == (items[k := item], NONE);
      } else {
        FillEmptyMeans(items, k + 1, item, maxOf);
      }
    }
  }

  /** The query agrees with the update, although the two visit slots in different orders. */
  lemma RoomAgreesWithAdding(items: Items, item: ItemStack, maxOf: StackMax)
    requires !item.Empty()
    ensures Room(items, 0, item, maxOf) <==> Added(items, item, maxOf).1.Empty()
  {
    RoomMeans(items, 0, item, maxOf);
    FillUsedLeaves(items, 0, item, maxOf);
    FillUsedKeepsEmpty(items, 0, item, maxOf);
    var (items', rest) := Fill(items, 0, item, false, maxOf);
    assert EmptySlotFrom(items, 0) <==> EmptySlotFrom(items', 0);
    if !rest.Empty() {
      FillEmptyMeans(items', 0, rest, maxOf);
    }
  }

  /** How many of an item a list has room for: all if a slot is empty. */
  ghost function RoomFor(items: Items, item: ItemStack, maxOf: StackMax): nat {
    if EmptySlotFrom(items, 0) then item.count else SpaceFrom(items, 0, item, maxOf)
  }

  /** Adding leaves over exactly what exceeds the room. */
  lemma AddedLeaves(items: Items, item: ItemStack, maxOf: StackMax)
    ensures Added(items, item, maxOf).1.count == item.count - Min(item.count, RoomFor(items, item, maxOf))
  {
    if !item.Empty() {
      RoomAgreesWithAdding(items, item, maxOf);
      RoomMeans(items, 0, item, maxOf);
      FillUsedLeaves(items, 0, item, maxOf);
    FillUsedKeepsEmpty(items, 0, item, maxOf);
      var (items', rest) := Fill(items, 0, item, false, maxOf);
      if !EmptySlotFrom(items, 0) {
        FillNoneEmpty(items', 0, rest, maxOf);
      }
    }
  }

  // ---------------------------------------------------------------------------
  // Where added items go
  // ---------------------------------------------------------------------------

  ghost predicate NoSpaceBefore(items: Items, items': Items, item: ItemStack, k: nat, n: nat, maxOf: StackMax) {
    |items| == |items'| && forall j :: k <= j < n && j < |items| && !items[j].Empty() ==>
      SpaceIn(items'[j], item, maxOf) == 0
  }

  /** A stack in use that changed: it matches and grew, up to the stack limit at most. */
  ghost predicate Grew(stack: ItemStack, stack': ItemStack, item: ItemStack, maxOf: StackMax) {
    stack.Stackable(item) && stack' == stack.(count := stack'.count) && stack.count < stack'.count <= maxOf(stack.name)
  }

  /** A stack in use changes only by growing, and only once none of those before it has space
      left.  An empty slot changes only if it is the first, and only once no stack in use has
      space left; it gets exactly what exceeds the space there was. */
  ghost predicate FilledInOrder(items: Items, item: ItemStack, items': Items, maxOf: StackMax) {
    && |items'| == |items|
    && (forall i :: 0 <= i < |items| && items'[i] != items[i] && !items[i].Empty() ==>
          Grew(items[i], items'[i], item, maxOf) && NoSpaceBefore(items, items', item, 0, i, maxOf))
    && (forall i :: 0 <= i < |items| && items'[i] != items[i] && items[i].Empty() ==>
          && (forall j :: 0 <= j < i ==> !items[j].Empty())
          && NoSpaceBefore(items, items', item, 0, |items|, maxOf)
          && SpaceFrom(items, 0, item, maxOf) < item.count
          && items'[i] == item.(count := item.count - SpaceFrom(items, 0, item, maxOf)))
  }

  lemma UsedGrows(stack: ItemStack, item: ItemStack, maxOf: StackMax)
    requires !stack.Empty() && !item.Empty()
    ensures var (stack', rest) := AddItem(stack, item, maxOf);
      && (stack' != stack ==> Grew(stack, stack', item, maxOf))
      && (!rest.Empty() ==> SpaceIn(stack', item, maxOf) == 0 && rest == item.(count := rest.count))
  {
  }

  /** The pass over the stacks in use, from slot k on. */
  lemma {:induction false} FillUsedInOrder(items: Items, k: nat, item: ItemStack, maxOf: StackMax)
    requires k <= |items|
    ensures var (items', rest) := Fill(items, k, item, false, maxOf);
      && |items'| == |items|
      && (forall i :: 0 <= i < |items| && items'[i] != items[i] ==>
            && k <= i && !items[i].Empty() && Grew(items[i], items'[i], item, maxOf)
            && NoSpaceBefore(items, items', item, k, i, maxOf))
      && (!rest.Empty() ==>
            rest == item.(count := rest.count) && NoSpaceBefore(items, items', item, k, |items|, maxOf))
    decreases |items| - k
  {
    if k < |items| && !item.Empty() {
      if items[k].Empty() {
        FillUsedInOrder(items, k + 1, item, maxOf);
        hide AddItem;
        hide Grew;
        hide SpaceIn;
      } else {
        var (stack, rest) := AddItem(items[k], item, maxOf);
        UsedGrows(items[k], item, maxOf);
        if rest.Empty() {
          FillNoMore(items[k := stack], k + 1, rest, false, maxOf);
        } else {
          FillUsedInOrder(items[k := stack], k + 1, rest, maxOf);
          hide AddItem;
        }
      }
    }
  }

  /** The pass over the empty slots. */
  lemma {:induction false} FillFirstEmpty(items: Items, k: nat, item: ItemStack, maxOf: StackMax)
    requires k <= |items|
    ensures var (items', rest) := Fill(items, k, item, true, maxOf);
      && |items'| == |items|
      && (forall i :: 0 <= i < |items| && items'[i] != items[i] ==>
            && k <= i && items[i].Empty() && items'[i] == item && !item.Empty()
            && (forall j :: k <= j < i ==> !items[j].Empty()))
    decreases |items| - k
  {
    if k < |items| && !item.Empty() {
      if items[k].Empty() {
        FillNoMore(items[k := item], k + 1, NONE, true, maxOf);
      } else {
        FillFirstEmpty(items, k + 1, item, maxOf);
      }
    }
  }

  lemma AddedInOrder(items: Items, item: ItemStack, maxOf: StackMax)
    ensures FilledInOrder(items, item, Added(items, item, maxOf).0, maxOf)
  {
    var (mid, rest) := Fill(items, 0, item, false, maxOf);
    FillUsedInOrder(items, 0, item, maxOf);
    FillUsedKeepsEmpty(items, 0, item, maxOf);
    FillFirstEmpty(mid, 0, rest, maxOf);
    if !item.Empty() {
      FillUsedLeaves(items, 0, item, maxOf);
    }
    hide Fill;
    hide Grew;
    hide SpaceIn;
    hide SpaceFrom;
  }

  lemma {:induction false} FillNoneEmpty(items: Items, k: nat, item: ItemStack, maxOf: StackMax)
    requires k <= |items| && !EmptySlotFrom(items, k)
    ensures Fill(items, k, item, true, maxOf) == (items, item)
    decreases |items| - k
  {
    if k < |items| && !item.Empty() {
      assert !EmptySlotFrom(items, k + 1);
      FillNoneEmpty(items, k + 1, item, maxOf);
    }
  }

  /** Where nothing is put down nothing changes. */
  lemma {:induction false} FillNothing(items: Items, k: nat, item: ItemStack, intoEmpty: bool, maxOf: StackMax)
    requires k <= |items| && Fill(items, k, item, intoEmpty, maxOf).1.count == item.count
    ensures Fill(items, k, item, intoEmpty, maxOf) == (items, item)
    decreases |items| - k
  {
    if k < |items| && !item.Empty() {
      if items[k].Empty() != intoEmpty {
        FillNothing(items, k + 1, item, intoEmpty, maxOf);
      } else {
        var (stack, rest) := AddItem(items[k], item, maxOf);
        AddItemMoves(items[k], item, maxOf);
        FillLeavesNoMore(items[k := stack], k + 1, rest, intoEmpty, maxOf);
        assert rest == item && stack == items[k] && items[k := stack] == items;
        FillNothing(items, k + 1, item, intoEmpty, maxOf);
      }
    }
  }

  lemma FillLeavesNoMore(items: Items, k: nat, item: ItemStack, intoEmpty: bool, maxOf: StackMax)
    requires k <= |items|
    ensures Fill(items, k, item, intoEmpty, maxOf).1.count <= item.count
  {
    FillMoves(items, k, item, intoEmpty, maxOf);
  }

  lemma AddedNothing(items: Items, item: ItemStack, maxOf: StackMax)
    requires Added(items, item, maxOf).1.count == item.count
    ensures Added(items, item, maxOf) == (items, item)
  {
    var (mid, rest) := Fill(items, 0, item, false, maxOf);
    FillLeavesNoMore(items, 0, item, false, maxOf);
    FillLeavesNoMore(mid, 0, rest, true, maxOf);
    FillNothing(items, 0, item, false, maxOf);
    FillNothing(mid, 0, rest, true, maxOf);
  }

  /** Nothing fits into any slot, but a list without slots has no room even for that. */
  lemma RoomForNothing(items: Items, item: ItemStack, maxOf: StackMax)
    requires item.Empty()
    ensures Room(items, 0, item, maxOf) <==> items != []
  {
    if items != [] {
      var (fits, rest) := ItemFits(items[0], item, maxOf);
      assert fits;
    }
  }

  // ---------------------------------------------------------------------------
  // Removing by name
  // ---------------------------------------------------------------------------

  /** The items with a given name, whatever their metadata. */
  ghost function Named(items: Items, name: string): nat {
    if items == [] then 0
    else Named(items[..|items| - 1], name) + if items[|items| - 1].name == name then items[|items| - 1].count else 0
  }

  /** The items of one kind, or of one name if metadata does not matter. */
  ghost function Matching(items: Items, item: ItemStack, matchMeta: bool): nat {
    if items == [] then 0
    else
      var last := items[|items| - 1];
      Matching(items[..|items| - 1], item, matchMeta)
      + if last.name == item.name && (!matchMeta || last.meta == item.meta) then last.count else 0
  }

  /** The list after taking k items of the name, from the back. */
  function Removed(items: Items, name: string, k: nat): Items {
    if items == [] then []
    else
      var init, last := items[..|items| - 1], items[|items| - 1];
      if last.name != name then Removed(init, name, k) + [last]
      else Removed(init, name, k - Min(k, last.count)) + [TakeItem(last, k).0]
  }

  lemma {:induction false} RemovedNothing(items: Items, name: string)
    ensures Removed(items, name, 0) == items
  {
    if items != [] {
      RemovedNothing(items[..|items| - 1], name);
    }
  }

  /** How a slot may change when items of a name are removed: not at all if it has another
      name, else by losing some or all of its items. */
  ghost predicate Lessened(before: ItemStack, after: ItemStack, name: string) {
    after == before
    || (before.name == name
        && (after == NONE || (after.count < before.count && after == before.(count := after.count))))
  }

  function NameCount(stack: ItemStack, name: string): nat {
    if stack.name == name then stack.count else 0
  }

  lemma RemoveFromOne(stack: ItemStack, k: nat)
    ensures var after := TakeItem(stack, k).0;
      Lessened(stack, after, stack.name) && NameCount(after, stack.name) == stack.count - Min(k, stack.count)
  {
  }

  /** What removing does to a list. */
  ghost predicate RemovedEffect(items: Items, name: string, k: nat, r: Items) {
    && |r| == |items|
    && Named(r, name) == Named(items, name) - Min(k, Named(items, name))
    && forall i :: 0 <= i < |items| ==> Lessened(items[i], r[i], name)
  }

  lemma Untouched(stack: ItemStack, name: string)
    ensures Lessened(stack, stack, name)
  {
  }

  lemma RemovedFromNothing(name: string, k: nat)
    ensures RemovedEffect([], name, k, [])
  {
  }

  lemma NamedSnoc(items: Items, stack: ItemStack, name: string)
    ensures Named(items + [stack], name) == Named(items, name) + NameCount(stack, name)
  {
    assert (items + [stack])[..|items|] == items;
  }

  lemma RemovedOneMore(init: Items, last: ItemStack, name: string, k: nat, taken: nat, r: Items, after: ItemStack)
    requires taken == Min(k, NameCount(last, name)) && NameCount(after, name) == NameCount(last, name) - taken
    requires RemovedEffect(init, name, k - taken, r) && Lessened(last, after, name)
    ensures RemovedEffect(init + [last], name, k, r + [after])
  {
    NamedSnoc(init, last, name);
    NamedSnoc(r, after, name);
    hide Named;
    hide NameCount;
    hide Lessened;
  }

  /** One more slot from the back, seen from the slots still to be visited. */
  lemma RemovedRound(before: Items, i: nat, name: string, k: nat, tail: Items)
    requires 0 < i <= |before|
    ensures var last := before[i - 1];
      var taken := Min(k, NameCount(last, name));
      var after := if last.name == name then TakeItem(last, k).0 else last;
      && Removed(before[..i], name, k) + tail == Removed(before[..i - 1], name, k - taken) + ([after] + tail)
      && Named(before[..i], name) == Named(before[..i - 1], name) + NameCount(last, name)
  {
    assert before[..i][..i - 1] == before[..i - 1];
  }

  /** Collecting what was taken into one stack, which may grow beyond its limit. */
  lemma CollectTaken(removed: ItemStack, taken: ItemStack, maxOf: StackMax, name: string)
    requires removed.count + taken.count < 0x1_0000
    requires !removed.Empty() ==> removed.name == name
    requires !taken.Empty() ==> taken.name == name
    ensures var (more, leftover) := AddItem(removed, taken, maxOf);
      var r := more.Add(leftover.count);
      r.count == removed.count + taken.count && (!r.Empty() ==> r.name == name)
  {
  }

  /** Removing takes min(k, total) items of the name and touches nothing else. */
  lemma {:induction false} RemovedTakes(items: Items, name: string, k: nat)
    ensures RemovedEffect(items, name, k, Removed(items, name, k))
  {
    hide Lessened;
    hide TakeItem;
    hide RemovedEffect;
    hide Named;
    if items == [] {
      RemovedFromNothing(name, k);
    } else {
      var init, last := items[..|items| - 1], items[|items| - 1];
      assert items == init + [last];
      var taken := Min(k, NameCount(last, name));
      var after := if last.name == name then TakeItem(last, k).0 else last;
      if last.name == name {
        RemoveFromOne(last, k);
      } else {
        Untouched(last, name);
      }
      RemovedTakes(init, name, k - taken);
      RemovedOneMore(init, last, name, k, taken, Removed(init, name, k - taken), after);
    }
  }

  /** Items are taken from the back: a stack loses some only if those of the name behind it are
      emptied. */
  ghost predicate FromBack(items: Items, name: string, r: Items) {
    |r| == |items| && forall i, j :: 0 <= i < j < |items| && r[i] != items[i] && items[j].name == name ==> r[j].Empty()
  }

  lemma {:induction false} RemovedFromBack(items: Items, name: string, k: nat)
    ensures FromBack(items, name, Removed(items, name, k))
  {
    if items != [] {
      var init, last := items[..|items| - 1], items[|items| - 1];
      var left := if last.name == name then k - Min(k, last.count) else k;
      RemovedFromBack(init, name, left);
      if left == 0 {
        RemovedNothing(init, name);
      }
      hide Removed;
      assert forall i :: 0 <= i < |init| ==> init[i] == items[i];
    }
  }

  /** Metadata ignored, the items that count are those of the name. */
  lemma {:induction false} MatchingNamed(items: Items, item: ItemStack)
    ensures Matching(items, item, false) == Named(items, item.name)
  {
    if items != [] {
      MatchingNamed(items[..|items| - 1], item);
    }
  }

  /** The query on names agrees with the removal: it holds exactly when the removal takes the full count. */
  lemma ContainsMeansRemovable(items: Items, item: ItemStack)
    ensures item.count <= Matching(items, item, false)
      <==> Named(items, item.name) - Named(Removed(items, item.name, item.count), item.name) == item.count
  {
    MatchingNamed(items, item);
    RemovedTakes(items, item.name, item.count);
    hide Removed;
    hide Named;
  }

  lemma {:induction false} MatchingKind(items: Items, item: ItemStack)
    ensures Matching(items, item, true) == Total(items, Kind(item.name, item.meta))
  {
    if items != [] {
      MatchingKind(items[..|items| - 1], item);
    }
  }

  // ---------------------------------------------------------------------------
  // Moving between two slots
  // ---------------------------------------------------------------------------

  /** What a move leaves behind, what it puts down, what it moved and whether it swapped. */
  datatype Moved = Moved(source: ItemStack, target: ItemStack, moved: ItemStack, didSwap: bool)

  /** Taking a count, or everything if the count is zero. */
  function Taken(stack: ItemStack, count: nat): (ItemStack, ItemStack) {
    if count == 0 then (NONE, stack) else TakeItem(stack, count)
  }

  /** A move from one slot to a different one.  A target out of range accepts nothing and
      keeps nothing. */
  function MoveStacks(source: ItemStack, target: ItemStack, targetInRange: bool, count: nat, swap: bool,
                      maxOf: StackMax): Moved {
    var (kept, taken) := Taken(source, count);
    var (target', rest) := if targetInRange then AddItem(target, taken, maxOf) else (target, taken);
    PutDown(kept, target', taken, rest, targetInRange, swap)
  }

  /** What happens to the rest that did not fit. */
  function PutDown(kept: ItemStack, target': ItemStack, taken: ItemStack, rest: ItemStack, targetInRange: bool,
                   swap: bool): Moved {
    if rest.Empty() then Moved(kept, target', taken, false)
    else
      var moved := if rest.count <= taken.count then taken.Remove(rest.count) else NONE;
      var source' := rest.Add(kept.count);
      if moved.Empty() && swap then
        if targetInRange then Moved(target', source', source', true) else Moved(source', target', source', true)
      else Moved(source', target', moved, false)
  }

  lemma TakenMoves(stack: ItemStack, count: nat)
    ensures var (kept, taken) := Taken(stack, count);
      && kept.count + taken.count == stack.count
      && (forall kind :: kept.OfKind(kind) + taken.OfKind(kind) == stack.OfKind(kind))
      && (!taken.Empty() ==> taken == stack.(count := taken.count))
      && (!kept.Empty() ==> kept == stack.(count := kept.count))
      && (stack.Proper() ==> kept.Proper() && taken.Proper())
  {
    TakeItemMoves(stack, count);
  }

  /** A leftover put back never wraps around: the source gets back what was not added. */
  lemma PutBack(source: ItemStack, count: nat, rest: ItemStack)
    requires var (kept, taken) := Taken(source, count);
      0 < rest.count <= taken.count && rest == taken.(count := rest.count)
    ensures var (kept, taken) := Taken(source, count);
      rest.Add(kept.count) == source.(count := kept.count + rest.count)
  {
    TakenMoves(source, count);
  }

  /** A move keeps every kind over the two slots, moves at most what was asked unless it swaps,
      and swaps exactly when asked to and nothing fits. */
  lemma MoveStacksMoves(source: ItemStack, target: ItemStack, targetInRange: bool, count: nat, swap: bool,
                        maxOf: StackMax)
    requires source.Proper() && target.Proper()
    ensures var m := MoveStacks(source, target, targetInRange, count, swap, maxOf);
      var asked := if count == 0 then source.count else Min(count, source.count);
      var fitting := if targetInRange then Fitting(target, source.(count := asked), maxOf) else 0;
      && m.source.Proper() && m.target.Proper() && m.moved.Proper()
      && (forall kind :: m.source.OfKind(kind) + m.target.OfKind(kind) == source.OfKind(kind) + target.OfKind(kind))
      && (m.didSwap <==> swap && source.count > 0 && fitting == 0)
      && (!m.didSwap ==> m.moved.count == fitting)
      && (!m.didSwap ==> m.source.count == source.count - fitting && m.target.count == target.count + fitting)
      && (!m.didSwap && fitting == 0 ==> m.source == source && m.target == target)
      && (m.didSwap ==> m.moved == source)
      && (m.didSwap && targetInRange ==> m.source == target && m.target == source)
      && (m.didSwap && !targetInRange ==> m.source == source && m.target == target)
  {
    var (kept, taken) := Taken(source, count);
    TakenMoves(source, count);
    AddItemMoves(target, taken, maxOf);
    var (target', rest) := if targetInRange then AddItem(target, taken, maxOf) else (target, taken);
    if !rest.Empty() {
      PutBack(source, count, rest);
    }
    var asked := if count == 0 then source.count else Min(count, source.count);
    TakeItemMoves(source, count);
    assert taken.count == asked;
    assert Fitting(target, source.(count := asked), maxOf) == Fitting(target, taken, maxOf);
  }

  // ---------------------------------------------------------------------------
  // Moving into a whole list
  // ---------------------------------------------------------------------------

  /** The source and the target list after taking a count from slot i of the source, adding it
      to the target wherever it fits, and putting the leftover back into slot i. */
  function MovedSomewhere(source: Items, target: Items, sameList: bool, i: nat, count: nat,
                          maxOf: StackMax): (Items, Items) {
    var (kept, taken) := Taken(Slot(source, i), count);
    var source1 := WithSlot(source, i, kept);
    var (target1, rest) := Added(if sameList then source1 else target, taken, maxOf);
    var source2 := if sameList then target1 else source1;
    var source3 := if rest.Empty() then source2 else WithSlot(source2, i, rest.Add(Slot(source2, i).count));
    (source3, if sameList then source3 else target1)
  }

  lemma TotalWithSlot(items: Items, i: nat, stack: ItemStack, kind: Kind)
    ensures Total(WithSlot(items, i, stack), kind)
         == Total(items, kind) + if i < |items| then stack.OfKind(kind) - items[i].OfKind(kind) else 0
  {
    if i < |items| { TotalUpdate(items, i, stack, kind); }
  }

  /** No kind gains or loses an item over the two lists, which may be the same list, and stacks
      stay proper. */
  ghost predicate ListsConserved(source: Items, target: Items, sameList: bool, source': Items, target': Items) {
    && |source'| == |source| && |target'| == |target| && (sameList ==> source' == target')
    && AllProper(source') && AllProper(target')
    && forall kind :: KindOver(source', target', sameList, kind) == KindOver(source, target, sameList, kind)
  }

  lemma NothingMovedConserves(items: Items)
    requires AllProper(items)
    ensures ListsConserved(items, items, true, items, items)
  {
  }

  ghost function KindOver(source: Items, target: Items, sameList: bool, kind: Kind): nat {
    Total(source, kind) + if sameList then 0 else Total(target, kind)
  }

  /** A leftover means that no slot was empty. */
  lemma LeftoverMeansFull(items: Items, item: ItemStack, maxOf: StackMax)
    requires !Added(items, item, maxOf).1.Empty()
    ensures !EmptySlotFrom(items, 0)
  {
    if !item.Empty() {
      RoomAgreesWithAdding(items, item, maxOf);
      RoomMeans(items, 0, item, maxOf);
    }
  }

  /** What is in slot i of the source once the rest is put back on top of it. */
  lemma PutBackSomewhere(source: Items, target: Items, sameList: bool, i: nat, count: nat, maxOf: StackMax)
    requires AllProper(source) && (sameList ==> source == target)
    ensures var (kept, taken) := Taken(Slot(source, i), count);
      var source1 := WithSlot(source, i, kept);
      var (target1, rest) := Added(if sameList then source1 else target, taken, maxOf);
      var there := Slot(if sameList then target1 else source1, i);
      !rest.Empty() ==>
        && i < |source| && (there.Empty() || there.Stackable(rest))
        && rest.count + there.count <= source[i].count
  {
    var stack := Slot(source, i);
    var (kept, taken) := Taken(stack, count);
    TakenMoves(stack, count);
    var source1 := WithSlot(source, i, kept);
    var before := if sameList then source1 else target;
    AddedMoves(before, taken, maxOf);
    var (target1, rest) := Added(before, taken, maxOf);
    if !rest.Empty() {
      LeftoverMeansFull(before, taken, maxOf);
      assert i < |source|;
      assert sameList ==> !source1[i].Empty();
    }
  }

  lemma AddOfKind(rest: ItemStack, there: ItemStack, kind: Kind)
    requires there.Empty() || there.Stackable(rest)
    requires rest.count + there.count < 0x1_0000
    ensures rest.Add(there.count).OfKind(kind) == rest.OfKind(kind) + there.OfKind(kind)
  {
  }

  lemma MovedSomewhereConserves(source: Items, target: Items, sameList: bool, i: nat, count: nat, maxOf: StackMax)
    requires AllProper(source) && AllProper(target) && (sameList ==> source == target)
    ensures var (source', target') := MovedSomewhere(source, target, sameList, i, count, maxOf);
      ListsConserved(source, target, sameList, source', target')
  {
    var stack := Slot(source, i);
    var (kept, taken) := Taken(stack, count);
    TakenMoves(stack, count);
    var source1 := WithSlot(source, i, kept);
    var before := if sameList then source1 else target;
    AddedMoves(before, taken, maxOf);
    var (target1, rest) := Added(before, taken, maxOf);
    hide Added;
    hide Taken;
    assert AllProper(source1);
    var source2 := if sameList then target1 else source1;
    forall kind ensures Total(source1, kind) + taken.OfKind(kind) == Total(source, kind) {
      TotalWithSlot(source, i, kept, kind);
    }
    PutBackSomewhere(source, target, sameList, i, count, maxOf);
    if !rest.Empty() {
      var back := rest.Add(Slot(source2, i).count);
      forall kind ensures Total(WithSlot(source2, i, back), kind) == Total(source2, kind) + rest.OfKind(kind) {
        TotalWithSlot(source2, i, back, kind);
        AddOfKind(rest, source2[i], kind);
      }
    }
  }

  /** A move to anywhere moves the smaller of what was asked for, everything for a count of zero,
      and the room found; if that is nothing it changes nothing. */
  lemma MovedSomewhereMoves(source: Items, target: Items, sameList: bool, i: nat, count: nat, maxOf: StackMax)
    requires AllProper(source) && AllProper(target) && (sameList ==> source == target)
    ensures var stack := Slot(source, i);
      var (kept, taken) := Taken(stack, count);
      var room := RoomFor(if sameList then WithSlot(source, i, kept) else target, taken, maxOf);
      var moved := Min(taken.count, room);
      var (source', target') := MovedSomewhere(source, target, sameList, i, count, maxOf);
      && taken.count == (if count == 0 then stack.count else Min(count, stack.count))
      && (moved == 0 ==> source' == source && target' == target)
      && (!sameList ==>
            && Slot(source', i).count == stack.count - moved
            && (forall k :: 0 <= k < |source| && k != i ==> k < |source'| && source'[k] == source[k])
            && (forall kind :: Total(target', kind) == Total(target, kind) + stack.(count := moved).OfKind(kind))
            && FilledInOrder(target, taken, target', maxOf))
  {
    var stack := Slot(source, i);
    var (kept, taken) := Taken(stack, count);
    TakenMoves(stack, count);
    var before := if sameList then WithSlot(source, i, kept) else target;
    AddedLeaves(before, taken, maxOf);
    if Added(before, taken, maxOf).1.count == taken.count {
      NothingMovedSomewhere(source, target, sameList, i, count, maxOf);
    }
    if !sameList {
      MovedToOther(source, target, i, count, maxOf);
      AddedInOrder(target, taken, maxOf);
    }
    hide FilledInOrder;
    hide Added;
    hide MovedSomewhere;
    hide RoomFor;
  }

  /** Between two lists only the slot and what arrives change. */
  lemma MovedToOther(source: Items, target: Items, i: nat, count: nat, maxOf: StackMax)
    requires AllProper(source)
    ensures var stack := Slot(source, i);
      var taken := Taken(stack, count).1;
      var rest := Added(target, taken, maxOf).1;
      var (source', target') := MovedSomewhere(source, target, false, i, count, maxOf);
      && rest.count <= taken.count <= stack.count
      && Slot(source', i).count == stack.count - (taken.count - rest.count)
      && |source'| == |source| && (forall k :: 0 <= k < |source| && k != i ==> source'[k] == source[k])
      && target' == Added(target, taken, maxOf).0
      && (forall kind ::
            Total(target', kind) == Total(target, kind) + stack.(count := taken.count - rest.count).OfKind(kind))
  {
    var stack := Slot(source, i);
    TakenMoves(stack, count);
    AddedMoves(target, Taken(stack, count).1, maxOf);
    PutBackSomewhere(source, target, false, i, count, maxOf);
    hide Added;
    hide Taken;
  }

  lemma NothingMovedSomewhere(source: Items, target: Items, sameList: bool, i: nat, count: nat, maxOf: StackMax)
    requires AllProper(source) && (sameList ==> source == target)
    requires var (kept, taken) := Taken(Slot(source, i), count);
      Added(if sameList then WithSlot(source, i, kept) else target, taken, maxOf).1.count == taken.count
    ensures MovedSomewhere(source, target, sameList, i, count, maxOf) == (source, target)
  {
    var stack := Slot(source, i);
    var (kept, taken) := Taken(stack, count);
    TakenMoves(stack, count);
    var source1 := WithSlot(source, i, kept);
    AddedNothing(if sameList then source1 else target, taken, maxOf);
    hide Added;
    hide Taken;
    if taken.Empty() {
      assert source1 == source;
    } else {
      assert WithSlot(source1, i, taken.Add(kept.count)) == source;
    }
  }

  // ---------------------------------------------------------------------------
  // Moving between two slots of lists
  // ---------------------------------------------------------------------------

  /** The lists after a move between slot i of the source and slot j of the target. */
  ghost function MovedBetween(source: Items, target: Items, sameList: bool, i: nat, j: nat, m: Moved): (Items, Items) {
    var source' := WithSlot(source, i, m.source);
    if sameList then
      var both := WithSlot(source', j, m.target);
      (both, both)
    else (source', WithSlot(target, j, m.target))
  }

  /** Whether two slots are one. */
  predicate SameSlot(sameList: bool, i: nat, j: nat) {
    sameList && i == j
  }

  lemma MovedBetweenConserves(source: Items, target: Items, sameList: bool, i: nat, j: nat,
                              count: nat, swap: bool, maxOf: StackMax)
    requires AllProper(source) && AllProper(target) && (sameList ==> source == target)
    requires !SameSlot(sameList, i, j)
    ensures var m := MoveStacks(Slot(source, i), Slot(target, j), j < |target|, count, swap, maxOf);
      var (source', target') := MovedBetween(source, target, sameList, i, j, m);
      && ListsConserved(source, target, sameList, source', target')
      && (m.moved.Empty() ==> source' == source && target' == target)
      && (m.didSwap ==> source' == WithSlot(source', i, Slot(target, j)) || j >= |target|)
  {
    var m := MoveStacks(Slot(source, i), Slot(target, j), j < |target|, count, swap, maxOf);
    MoveStacksMoves(Slot(source, i), Slot(target, j), j < |target|, count, swap, maxOf);
    hide MoveStacks;
    hide Total;
    var source1 := WithSlot(source, i, m.source);
    var before := if sameList then source1 else target;
    assert Slot(before, j) == Slot(target, j);
    forall kind
      ensures KindOver(MovedBetween(source, target, sameList, i, j, m).0,
                       MovedBetween(source, target, sameList, i, j, m).1, sameList, kind)
           == KindOver(source, target, sameList, kind)
    {
      assert m.source.OfKind(kind) + m.target.OfKind(kind)
           == Slot(source, i).OfKind(kind) + Slot(target, j).OfKind(kind);
      TotalWithSlot(source, i, m.source, kind);
      TotalWithSlot(before, j, m.target, kind);
    }
  }
}
