/** Item stacks: a counted name with wear and metadata, and the operations on a single stack,
    whose counts have sixteen bits. */
module Stacks {
  import opened Integers

  type Metadata = map<string, string>

  datatype Kind = Kind(name: string, meta: Metadata)

  /** The largest stack an item's definition allows; stacks may nevertheless be larger. */
  type StackMax = string -> u16

  datatype ItemStack = ItemStack(name: string, count: u16, wear: u16, meta: Metadata)
  {
    predicate Empty() {
      count == 0
    }

    /** Sixteen-bit addition, which would wrap around. */
    function Add(n: u16): ItemStack {
      this.(count := (count + n) % 0x1_0000)
    }

    /** An emptied stack forgets name, wear and metadata. */
    function Remove(n: u16): ItemStack
      requires n <= count
    {
      if count == n then NONE else this.(count := count - n)
    }

    function FreeSpace(maxOf: StackMax): u16 {
      if count >= maxOf(name) then 0 else maxOf(name) - count
    }

    predicate Stackable(other: ItemStack) {
      name == other.name && meta == other.meta
    }

    function OfKind(kind: Kind): nat {
      if name == kind.name && meta == kind.meta then count else 0
    }

    /** A stack without items is the empty stack. */
    predicate Proper() {
      Empty() ==> this == NONE
    }
  }

  const NONE := ItemStack("", 0, 0, map[])

  function Min(a: int, b: int): int {
    if a < b then a else b
  }

  /** How many of the items would go onto the stack. */
  function Fitting(stack: ItemStack, item: ItemStack, maxOf: StackMax): nat {
    if stack.Empty() then item.count
    else if !stack.Stackable(item) then 0
    else Min(item.count, stack.FreeSpace(maxOf))
  }

  /** Adding items to a stack: the new stack and what is left over. */
  function AddItem(stack: ItemStack, item: ItemStack, maxOf: StackMax): (ItemStack, ItemStack) {
    if item.Empty() then (stack, item)
    else if stack.Empty() then (item, NONE)
    else if !stack.Stackable(item) then (stack, item)
    else if item.count <= stack.FreeSpace(maxOf) then (stack.Add(item.count), NONE)
    else
      var free := stack.FreeSpace(maxOf);
      (stack.Add(free), item.Remove(free))
  }

  /** Whether all items would fit, and what would be left over. */
  function ItemFits(stack: ItemStack, item: ItemStack, maxOf: StackMax): (bool, ItemStack) {
    var rest :=
      if item.Empty() then item
      else if stack.Empty() then NONE
      else if !stack.Stackable(item) then item
      else if item.count <= stack.FreeSpace(maxOf) then NONE
      else item.Remove(stack.FreeSpace(maxOf));
    (rest.Empty(), rest)
  }

  /** Taking items off a stack: the new stack and what was taken. */
  function TakeItem(stack: ItemStack, takeCount: nat): (ItemStack, ItemStack) {
    if takeCount == 0 || stack.count == 0 then (stack, NONE)
    else if takeCount >= stack.count then (NONE, stack)
    else (stack.Remove(takeCount), stack.(count := takeCount))
  }

  /** Adding moves items without losing or creating any, never wraps around, and keeps the
      stack's limit unless the stack was beyond it or empty. */
  lemma AddItemMoves(stack: ItemStack, item: ItemStack, maxOf: StackMax)
    ensures var (stack', rest) := AddItem(stack, item, maxOf);
      && stack'.count == stack.count + Fitting(stack, item, maxOf)
      && rest.count == item.count - Fitting(stack, item, maxOf)
      && (forall kind :: stack'.OfKind(kind) + rest.OfKind(kind) == stack.OfKind(kind) + item.OfKind(kind))
      && (!stack.Empty() ==> stack'.Stackable(stack) && stack'.wear == stack.wear)
      && (!rest.Empty() ==> rest == item.(count := rest.count))
      && (rest.Empty() && !item.Empty() ==> rest == NONE)
      && (!stack.Empty() ==> stack'.count <= stack.count || stack'.count <= maxOf(stack.name))
  {
  }

  /** The query predicts the update. */
  lemma ItemFitsPredicts(stack: ItemStack, item: ItemStack, maxOf: StackMax)
    ensures ItemFits(stack, item, maxOf).1 == AddItem(stack, item, maxOf).1
    ensures ItemFits(stack, item, maxOf).1.count == item.count - Fitting(stack, item, maxOf)
    ensures ItemFits(stack, item, maxOf).0 <==> Fitting(stack, item, maxOf) == item.count
    ensures stack.Empty() ==> Fitting(stack, item, maxOf) == item.count
  {
  }

  lemma TakeItemMoves(stack: ItemStack, takeCount: nat)
    ensures var (stack', taken) := TakeItem(stack, takeCount);
      && taken.count == Min(takeCount, stack.count)
      && stack'.count == stack.count - taken.count
      && (forall kind :: stack'.OfKind(kind) + taken.OfKind(kind) == stack.OfKind(kind))
      && (!taken.Empty() ==> taken == stack.(count := taken.count))
      && (!stack'.Empty() ==> stack' == stack.(count := stack'.count))
      && (stack.Proper() ==> stack'.Proper() && taken.Proper())
  {
  }
}
