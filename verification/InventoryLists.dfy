/** Inventory lists as the game holds them: slots that are overwritten in place, and moves
    between two lists or within one. */
module InventoryLists {
  import opened Stacks
  import opened InventoryOps

  class InventoryList {
    var items: Items
    const maxOf: StackMax

    constructor (size: nat, maxOf: StackMax)
      ensures this.maxOf == maxOf && |items| == size && AllProper(items)
      ensures forall i :: 0 <= i < size ==> items[i] == NONE
    {
      items := seq(size, _ => NONE);
      this.maxOf := maxOf;
    }

    /** Overwrites a slot and returns what was there; out of range the new item comes back. */
    method ChangeItem(i: nat, newItem: ItemStack) returns (oldItem: ItemStack)
      modifies this
      ensures items == WithSlot(old(items), i, newItem)
      ensures oldItem == if i < |old(items)| then old(items)[i] else newItem
    {
      if i >= |items| {
        return newItem;
      }
      oldItem := items[i];
      if oldItem != newItem {
        items := items[i := newItem];
      }
    }

    /** Adds to one slot. */
    method AddItemAt(i: nat, newItem: ItemStack) returns (leftover: ItemStack)
      modifies this
      ensures i < |old(items)| ==>
        var (stack, rest) := AddItem(old(items)[i], newItem, maxOf); items == old(items)[i := stack] && leftover == rest
      ensures i >= |old(items)| ==> items == old(items) && leftover == newItem
    {
      if i >= |items| {
        return newItem;
      }
      var (stack, rest) := AddItem(items[i], newItem, maxOf);
      items := items[i := stack];
      leftover := rest;
    }

    /** Adds wherever there is room, first to the slots in use. */
    method AddItemAnywhere(newItem: ItemStack) returns (leftover: ItemStack)
      modifies this
      ensures Added(old(items), newItem, maxOf) == (items, leftover)
      ensures FillEffect(old(items), newItem, items, leftover)
      ensures FilledInOrder(old(items), newItem, items, maxOf)
      ensures leftover.count == newItem.count - Min(newItem.count, RoomFor(old(items), newItem, maxOf))
    {
      AddedMoves(items, newItem, maxOf);
      AddedInOrder(items, newItem, maxOf);
      AddedLeaves(items, newItem, maxOf);
      hide FilledInOrder;
      hide FillEffect;
      hide RoomFor;
      leftover := FillLoop(newItem, false);
      leftover := FillLoop(leftover, true);
    }

    /** One pass over the slots: those in use, or the empty ones. */
    method FillLoop(newItem: ItemStack, intoEmpty: bool) returns (leftover: ItemStack)
      modifies this
      ensures Fill(old(items), 0, newItem, intoEmpty, maxOf) == (items, leftover)
    {
      leftover := newItem;
      if leftover.Empty() {
        return;
      }
      var i := 0;
      while i < |items|
        invariant 0 <= i <= |items| && !leftover.Empty()
        invariant Fill(items, i, leftover, intoEmpty, maxOf) == Fill(old(items), 0, newItem, intoEmpty, maxOf)
      {
        if items[i].Empty() == intoEmpty {
          leftover := AddItemAt(i, leftover);
          if leftover.Empty() {
            return;
          }
        }
        i := i + 1;
      }
    }

    /** Whether all of the item would find room. */
    method RoomForItem(item: ItemStack) returns (room: bool)
      ensures !item.Empty() ==> (room <==> Added(items, item, maxOf).1.Empty())
      ensures item.Empty() ==> (room <==> items != [])
    {
      if item.Empty() {
        RoomForNothing(items, item, maxOf);
      } else {
        RoomAgreesWithAdding(items, item, maxOf);
      }
      var rest := item;
      var i := 0;
      while i < |items|
        invariant 0 <= i <= |items|
        invariant Room(items, i, rest, maxOf) == Room(items, 0, item, maxOf)
      {
        var (fits, leftover) := ItemFits(items[i], rest, maxOf);
        if fits {
          return true;
        }
        rest := leftover;
        i := i + 1;
      }
      return false;
    }

    /** Whether the list holds as many items of the name, or of the name and metadata. */
    method ContainsItem(item: ItemStack, matchMeta: bool) returns (contains: bool)
      ensures contains <==> item.count <= Matching(items, item, matchMeta)
    {
      var count: nat := item.count;
      if count == 0 {
        return true;
      }
      var i := |items|;
      assert items[..i] == items;
      while i > 0
        invariant 0 <= i <= |items| && count > 0
        invariant item.count <= Matching(items, item, matchMeta) <==> count <= Matching(items[..i], item, matchMeta)
      {
        var stack := items[i - 1];
        assert items[..i][..i - 1] == items[..i - 1];
        if stack.name == item.name && (!matchMeta || stack.meta == item.meta) {
          if stack.count >= count {
            return true;
          }
          count := count - stack.count;
        }
        i := i - 1;
      }
      return false;
    }

    /** Takes items off one slot. */
    method TakeItemAt(i: nat, takeCount: nat) returns (taken: ItemStack)
      modifies this
      ensures TakeItem(Slot(old(items), i), takeCount) == (Slot(items, i), taken)
      ensures items == WithSlot(old(items), i, Slot(items, i))
    {
      if i >= |items| {
        return NONE;
      }
      var (stack, t) := TakeItem(items[i], takeCount);
      items := items[i := stack];
      taken := t;
    }

    /** Takes a count from a slot, or all of it for a count of zero. */
    method TakeForMove(i: nat, count: nat) returns (taken: ItemStack)
      modifies this
      ensures Taken(Slot(old(items), i), count) == (Slot(items, i), taken)
      ensures items == WithSlot(old(items), i, Slot(items, i))
    {
      if count == 0 {
        taken := ChangeItem(i, NONE);
      } else {
        taken := TakeItemAt(i, count);
      }
    }

    /** Removes items by name, from the back, and returns what was removed as one stack. */
    method RemoveItem(item: ItemStack) returns (removed: ItemStack)
      modifies this
      ensures items == Removed(old(items), item.name, item.count)
      ensures RemovedEffect(old(items), item.name, item.count, items) && FromBack(old(items), item.name, items)
      ensures removed.count == Min(item.count, Named(old(items), item.name))
      ensures !removed.Empty() ==> removed.name == item.name
    {
      hide Removing;
      hide RemovedEffect;
      hide Named;
      hide Removed;
      hide TakeItem;
      hide AddItem;
      hide AllProper;
      hide FromBack;
      RemovedTakes(items, item.name, item.count);
      RemovedFromBack(items, item.name, item.count);
      ghost var before := items;
      RemovingStarts(before, item);
      removed := NONE;
      var i := |items|;
      while i > 0
        invariant 0 <= i <= |items| == |before|
        invariant Removing(before, items, i, item, removed)
      {
        RemovingStep(before, items, i, item, removed, maxOf);
        if items[i - 1].name == item.name {
          var (stack, taken) := TakeItem(items[i - 1], item.count - removed.count);
          items := items[i - 1 := stack];
          var (more, leftover) := AddItem(removed, taken, maxOf);
          // what does not fit by the limit is collected all the same
          removed := more.Add(leftover.count);
          if removed.count == item.count {
            RemovingEnds(before, items, i - 1, item, removed);
            return;
          }
        }
        i := i - 1;
      }
      RemovingEnds(before, items, i, item, removed);
    }

    /** Moves a count, or everything for a count of zero, onto one slot of a list, which may be
        this one; what does not fit goes back, and if nothing fits the two stacks may swap. */
    method MoveItem(i: nat, dest: InventoryList, destI: nat, count: nat, swapIfNeeded: bool)
        returns (moved: ItemStack, didSwap: bool)
      requires dest.maxOf == maxOf
      modifies this, dest
      ensures SameSlot(this == dest, i, destI) ==> items == old(items) && moved == NONE && !didSwap
      ensures !SameSlot(this == dest, i, destI) ==>
        var m := MoveStacks(Slot(old(items), i), Slot(old(dest.items), destI), destI < |old(dest.items)|,
                            count, swapIfNeeded, maxOf);
        && MovedBetween(old(items), old(dest.items), this == dest, i, destI, m) == (items, dest.items)
        && moved == m.moved && didSwap == m.didSwap
      ensures AllProper(old(items)) && AllProper(old(dest.items)) ==>
        ListsConserved(old(items), old(dest.items), this == dest, items, dest.items)
    {
      hide ListsConserved;
      hide AllProper;
      hide PutDown;
      hide AddItem;
      hide Taken;
      if this == dest && i == destI {
        if AllProper(items) { NothingMovedConserves(items); }
        return NONE, false;
      }
      ghost var source, target := items, dest.items;
      if AllProper(source) && AllProper(target) {
        MovedBetweenConserves(source, target, this == dest, i, destI, count, swapIfNeeded, maxOf);
      }
      TakenMoves(Slot(source, i), count);
      var taken := TakeForMove(i, count);
      AddItemMoves(Slot(target, destI), taken, maxOf);
      var leftover := dest.AddItemAt(destI, taken);
      ghost var m := PutDown(Slot(items, i), Slot(dest.items, destI), taken, leftover, destI < |dest.items|,
                             swapIfNeeded);
      moved, didSwap := PutRestBack(i, dest, destI, taken, leftover, swapIfNeeded);
      assert items == MovedBetween(source, target, this == dest, i, destI, m).0;
      assert dest.items == MovedBetween(source, target, this == dest, i, destI, m).1;
    }

    /** The end of a move: what was not added goes back on top of what stayed, or swaps. */
    method PutRestBack(i: nat, dest: InventoryList, destI: nat, taken: ItemStack, rest: ItemStack, swapIfNeeded: bool)
        returns (moved: ItemStack, didSwap: bool)
      requires rest.count <= taken.count && !SameSlot(this == dest, i, destI)
      requires taken.Empty() || i < |items|
      modifies this, dest
      ensures var m := PutDown(Slot(old(items), i), Slot(old(dest.items), destI), taken, rest,
                               destI < |old(dest.items)|, swapIfNeeded);
        && MovedBetween(old(items), old(dest.items), this == dest, i, destI, m) == (items, dest.items)
        && moved == m.moved && didSwap == m.didSwap
    {
      moved, didSwap := taken, false;
      var leftover := rest;
      if !leftover.Empty() {
        moved := moved.Remove(leftover.count);
        leftover := leftover.Add((if i < |items| then items[i] else NONE).count);
        var _ := ChangeItem(i, leftover);
        if moved.Empty() && swapIfNeeded {
          didSwap := true;
          moved := ChangeItem(i, NONE);
          var item2 := dest.ChangeItem(destI, moved);
          var _ := ChangeItem(i, item2);
        }
      }
      ghost var m := PutDown(old(Slot(items, i)), old(Slot(dest.items, destI)), taken, rest,
                             destI < |old(dest.items)|, swapIfNeeded);
      assert items == MovedBetween(old(items), old(dest.items), this == dest, i, destI, m).0;
      assert dest.items == MovedBetween(old(items), old(dest.items), this == dest, i, destI, m).1;
    }

    /** Moves a count, or everything for a count of zero, to wherever a list, which may be this
        one, has room; what does not fit goes back. */
    method MoveItemSomewhere(i: nat, dest: InventoryList, count: nat)
      requires dest.maxOf == maxOf
      modifies this, dest
      ensures MovedSomewhere(old(items), old(dest.items), this == dest, i, count, maxOf) == (items, dest.items)
      ensures AllProper(old(items)) && AllProper(old(dest.items)) ==>
        ListsConserved(old(items), old(dest.items), this == dest, items, dest.items)
    {
      if AllProper(items) && AllProper(dest.items) {
        MovedSomewhereConserves(items, dest.items, this == dest, i, count, maxOf);
      }
      hide ListsConserved;
      hide AllProper;
      hide FillEffect;
      var item1 := TakeForMove(i, count);
      if item1.Empty() {
        return;
      }
      var leftover := dest.AddItemAnywhere(item1);
      if !leftover.Empty() {
        leftover := leftover.Add((if i < |items| then items[i] else NONE).count);
        var _ := ChangeItem(i, leftover);
      }
    }
  }

  /** Where the removal loop stands: the first i slots are untouched, the rest is as it will be. */
  ghost predicate Removing(before: Items, items: Items, i: nat, item: ItemStack, removed: ItemStack) {
    && i <= |items| == |before| && items[..i] == before[..i]
    && removed.count <= item.count && (!removed.Empty() ==> removed.name == item.name)
    && Removed(before[..i], item.name, item.count - removed.count) + items[i..]
         == Removed(before, item.name, item.count)
    && removed.count + Min(item.count - removed.count, Named(before[..i], item.name))
         == Min(item.count, Named(before, item.name))
  }

  lemma RemovingStarts(before: Items, item: ItemStack)
    ensures Removing(before, before, |before|, item, NONE)
  {
    assert before[..|before|] == before;
  }

  lemma RemovingStep(before: Items, items: Items, i: nat, item: ItemStack, removed: ItemStack, maxOf: StackMax)
    requires Removing(before, items, i, item, removed) && i > 0
    ensures removed.count <= item.count
    ensures items[i - 1].name != item.name ==> Removing(before, items, i - 1, item, removed)
    ensures items[i - 1].name == item.name ==>
      var (stack, taken) := TakeItem(items[i - 1], item.count - removed.count);
      var (more, leftover) := AddItem(removed, taken, maxOf);
      Removing(before, items[i - 1 := stack], i - 1, item, more.Add(leftover.count))
  {
    hide Removed;
    hide Named;
    hide TakeItem;
    hide AddItem;
    var k := item.count - removed.count;
    RemovedRound(before, i, item.name, k, items[i..]);
    assert items[i - 1] == items[..i][i - 1] == before[..i][i - 1];
    assert before[..i][..i - 1] == before[..i - 1] && items[..i][..i - 1] == items[..i - 1];
    if items[i - 1].name == item.name {
      var (stack, taken) := TakeItem(items[i - 1], k);
      TakeItemMoves(items[i - 1], k);
      CollectTaken(removed, taken, maxOf, item.name);
      var next := items[i - 1 := stack];
      assert next[i - 1..] == [stack] + items[i..];
      assert next[..i - 1] == before[..i - 1];
    } else {
      assert items[i - 1..] == [items[i - 1]] + items[i..];
    }
  }

  lemma RemovingEnds(before: Items, items: Items, i: nat, item: ItemStack, removed: ItemStack)
    requires Removing(before, items, i, item, removed) && (i == 0 || removed.count == item.count)
    ensures items == Removed(before, item.name, item.count)
    ensures removed.count == Min(item.count, Named(before, item.name))
    ensures !removed.Empty() ==> removed.name == item.name
  {
    if removed.count == item.count {
      RemovedNothing(before[..i], item.name);
      assert items == items[..i] + items[i..];
    } else {
      assert before[..i] == [];
      assert items[i..] == items;
    }
  }
}
