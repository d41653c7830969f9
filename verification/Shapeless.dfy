/** The shapeless check: a sorted-merge prefilter for plain slots, then a perfect-matching test for groups. */
module Shapeless {
  import opened Names
  import opened Recipes
  import Matching = BipartiteMatching

  // ---------------------------------------------------------------------------
  // Pairings of bags of names
  // ---------------------------------------------------------------------------

  /** A list of items, each with the slot it is handed out to. */
  datatype Pairing = Done | Give(item: string, slot: string, rest: Pairing)

  ghost function Items(ps: Pairing): seq<string> {
    if ps.Done? then [] else [ps.item] + Items(ps.rest)
  }

  ghost function Slots(ps: Pairing): seq<string> {
    if ps.Done? then [] else [ps.slot] + Slots(ps.rest)
  }

  ghost predicate AllMatch(defs: ItemDefs, ps: Pairing) {
    ps.Give? ==> Matches(defs, ps.item, ps.slot) && AllMatch(defs, ps.rest)
  }

  /** The items can be handed out to the slots, each item to a slot it satisfies. */
  ghost predicate Pairable(defs: ItemDefs, items: multiset<string>, slots: multiset<string>) {
    exists ps :: PairsUp(defs, ps, items, slots)
  }

  ghost predicate PairsUp(defs: ItemDefs, ps: Pairing, items: multiset<string>, slots: multiset<string>) {
    AllMatch(defs, ps) && multiset(Items(ps)) == items && multiset(Slots(ps)) == slots
  }

  ghost function Zip(a: seq<string>, b: seq<string>): (ps: Pairing)
    requires |a| == |b|
    ensures Items(ps) == a && Slots(ps) == b
  {
    if a == [] then Done else Give(a[0], b[0], Zip(a[1..], b[1..]))
  }

  lemma {:induction false} ZipMatches(defs: ItemDefs, a: seq<string>, b: seq<string>)
    requires |a| == |b| && forall i :: 0 <= i < |a| ==> Matches(defs, a[i], b[i])
    ensures AllMatch(defs, Zip(a, b))
  {
    if a != [] {
      ZipMatches(defs, a[1..], b[1..]);
    }
  }

  lemma {:induction false} PairingMatches(defs: ItemDefs, ps: Pairing)
    requires AllMatch(defs, ps)
    ensures |Items(ps)| == |Slots(ps)|
    ensures forall i :: 0 <= i < |Items(ps)| ==> Matches(defs, Items(ps)[i], Slots(ps)[i])
  {
    if ps.Give? {
      PairingMatches(defs, ps.rest);
    }
  }

  lemma AssignableIsPairable(defs: ItemDefs, items: seq<string>, slots: seq<string>)
    requires Assignable(defs, items, slots)
    ensures Pairable(defs, multiset(items), multiset(slots))
  {
    var p :| Assignment(defs, items, slots, p);
    var r := Reordered(slots, p);
    ReorderedSameContents(slots, p);
    ZipMatches(defs, items, r);
    assert PairsUp(defs, Zip(items, r), multiset(items), multiset(slots));
  }

  lemma PairableIsAssignable(defs: ItemDefs, items: seq<string>, slots: seq<string>)
    requires Pairable(defs, multiset(items), multiset(slots))
    ensures Assignable(defs, items, slots)
  {
    var ps :| PairsUp(defs, ps, multiset(items), multiset(slots));
    PairingMatches(defs, ps);
    var q := SameContentsReordered(items, Items(ps));
    var r := Reordered(Slots(ps), q);
    ReorderedSameContents(Slots(ps), q);
    var p := SameContentsReordered(r, slots);
    forall i | 0 <= i < |items| ensures Matches(defs, items[i], slots[p[i]]) {
      assert items[i] == Items(ps)[q[i]] && slots[p[i]] == Slots(ps)[q[i]];
    }
    assert Assignment(defs, items, slots, p);
  }

  // ---------------------------------------------------------------------------
  // The prefilter never changes the verdict
  // ---------------------------------------------------------------------------

  /** The pairs whose slot is a group. */
  ghost function GroupPairs(ps: Pairing): Pairing {
    if ps.Done? then Done
    else if IsGroup(ps.slot) then Give(ps.item, ps.slot, GroupPairs(ps.rest))
    else GroupPairs(ps.rest)
  }

  /** The slots that are no group. */
  ghost function PlainSlots(ps: Pairing): multiset<string> {
    if ps.Done? then multiset{}
    else if IsGroup(ps.slot) then PlainSlots(ps.rest)
    else multiset{ps.slot} + PlainSlots(ps.rest)
  }

  lemma {:induction false} SplitKinds(ps: Pairing)
    ensures forall x <- PlainSlots(ps) :: !IsGroup(x)
    ensures forall x <- Slots(GroupPairs(ps)) :: IsGroup(x)
  {
    hide IsGroup;
    if ps.Give? {
      SplitKinds(ps.rest);
    }
  }

  lemma {:induction false} SplitMatches(defs: ItemDefs, ps: Pairing)
    requires AllMatch(defs, ps)
    ensures AllMatch(defs, GroupPairs(ps))
  {
    hide IsGroup;
    hide Matches;
    if ps.Give? {
      SplitMatches(defs, ps.rest);
    }
  }

  lemma BagLaws<T>(x: T, a: multiset<T>, b: multiset<T>)
    ensures multiset{x} + (a + b) == (multiset{x} + a) + b == a + (multiset{x} + b)
  {
  }

  lemma {:induction false} SplitContents(defs: ItemDefs, ps: Pairing)
    requires AllMatch(defs, ps)
    ensures multiset(Items(ps)) == PlainSlots(ps) + multiset(Items(GroupPairs(ps)))
    ensures multiset(Slots(ps)) == PlainSlots(ps) + multiset(Slots(GroupPairs(ps)))
  {
    if ps.Give? {
      SplitContents(defs, ps.rest);
      if !IsGroup(ps.slot) { PlainSlot(defs, ps.item, ps.slot); }
      hide IsGroup;
      hide Matches;
      hide AllMatch;
      var plain, groups := PlainSlots(ps.rest), GroupPairs(ps.rest);
      BagLaws(ps.item, plain, multiset(Items(groups)));
      BagLaws(ps.slot, plain, multiset(Slots(groups)));
      assert multiset(Items(ps)) == multiset{ps.item} + multiset(Items(ps.rest));
      assert multiset(Slots(ps)) == multiset{ps.slot} + multiset(Slots(ps.rest));
    }
  }

  /** A bag splits in only one way into names that are groups and names that are not. */
  lemma SplitUnique(a: multiset<string>, b: multiset<string>, c: multiset<string>, d: multiset<string>)
    requires a + b == c + d
    requires forall x <- a :: !IsGroup(x)
    requires forall x <- c :: !IsGroup(x)
    requires forall x <- b :: IsGroup(x)
    requires forall x <- d :: IsGroup(x)
    ensures a == c && b == d
  {
    forall x ensures a[x] == c[x] && b[x] == d[x] {
      assert (a + b)[x] == (c + d)[x];
      if IsGroup(x) { assert x !in a && x !in c; } else { assert x !in b && x !in d; }
    }
  }

  /** Every name handed to the slot of the same name, in front of another pairing. */
  lemma {:induction false} WithNamed(defs: ItemDefs, plain: seq<string>, rest: Pairing) returns (ps: Pairing)
    requires AllMatch(defs, rest)
    ensures AllMatch(defs, ps)
    ensures multiset(Items(ps)) == multiset(plain) + multiset(Items(rest))
    ensures multiset(Slots(ps)) == multiset(plain) + multiset(Slots(rest))
  {
    if plain == [] {
      ps := rest;
    } else {
      ps := WithNamed(defs, plain[1..], rest);
      ps := Give(plain[0], plain[0], ps);
      TailContents(plain);
    }
  }

  lemma PairableTogether(defs: ItemDefs, items: multiset<string>, plain: seq<string>, groups: multiset<string>)
    requires multiset(plain) <= items && Pairable(defs, items - multiset(plain), groups)
    ensures Pairable(defs, items, multiset(plain) + groups)
  {
    var rest :| PairsUp(defs, rest, items - multiset(plain), groups);
    var ps := WithNamed(defs, plain, rest);
    PairsUpExists(defs, ps);
    assert multiset(Items(rest)) == items - multiset(plain) && multiset(Slots(rest)) == groups;
    hide *;
    TakeThenAdd(multiset(plain), items);
  }

  lemma PairableApart(defs: ItemDefs, items: multiset<string>, plain: multiset<string>, groups: multiset<string>)
    requires forall x <- plain :: !IsGroup(x)
    requires forall x <- groups :: IsGroup(x)
    requires Pairable(defs, items, plain + groups)
    ensures plain <= items && Pairable(defs, items - plain, groups)
  {
    var ps :| PairsUp(defs, ps, items, plain + groups);
    assert multiset(Items(ps)) == items && multiset(Slots(ps)) == plain + groups;
    SplitContents(defs, ps);
    SplitMatches(defs, ps);
    SplitKinds(ps);
    var named, rest := PlainSlots(ps), GroupPairs(ps);
    PairsUpExists(defs, rest);
    hide *;
    SplitUnique(named, multiset(Slots(rest)), plain, groups);
    AddThenTake(plain, multiset(Items(rest)));
  }

  lemma AddThenTake<T>(a: multiset<T>, b: multiset<T>)
    ensures a <= a + b && (a + b) - a == b
  {
  }

  lemma TakeThenAdd<T>(a: multiset<T>, b: multiset<T>)
    requires a <= b
    ensures a + (b - a) == b
  {
  }

  lemma PairsUpExists(defs: ItemDefs, ps: Pairing)
    requires AllMatch(defs, ps)
    ensures Pairable(defs, multiset(Items(ps)), multiset(Slots(ps)))
  {
    assert PairsUp(defs, ps, multiset(Items(ps)), multiset(Slots(ps)));
  }

  /** Handing out items to plain and group slots together succeeds exactly when every plain
      slot finds the item it names and the remaining items can be handed out to the groups. */
  lemma PrefilterIsExact(defs: ItemDefs, items: multiset<string>, plain: seq<string>, groups: multiset<string>)
    requires forall x <- plain :: !IsGroup(x)
    requires forall x <- groups :: IsGroup(x)
    ensures Pairable(defs, items, multiset(plain) + groups)
       <==> multiset(plain) <= items && Pairable(defs, items - multiset(plain), groups)
  {
    hide Pairable;
    hide IsGroup;
    if Pairable(defs, items, multiset(plain) + groups) {
      PairableApart(defs, items, multiset(plain), groups);
    }
    if multiset(plain) <= items && Pairable(defs, items - multiset(plain), groups) {
      PairableTogether(defs, items, plain, groups);
    }
  }

  // ---------------------------------------------------------------------------
  // The graph of remaining items and group slots
  // ---------------------------------------------------------------------------

  /** g[i] lists the slots item i satisfies. */
  ghost predicate GraphOf(defs: ItemDefs, items: seq<string>, slots: seq<string>, g: Matching.Graph) {
    && |g| == |items| == |slots|
    && (forall i, k :: 0 <= i < |g| && 0 <= k < |g[i]| ==> g[i][k] < |slots|)
    && (forall i: nat, j: nat :: i < |g| && j < |slots| ==> (j in g[i] <==> Matches(defs, items[i], slots[j])))
  }

  lemma GraphMatchingIsAssignment(defs: ItemDefs, items: seq<string>, slots: seq<string>, g: Matching.Graph)
    requires GraphOf(defs, items, slots, g)
    ensures Matching.CanMatchAll(g) <==> Assignable(defs, items, slots)
  {
    if Matching.CanMatchAll(g) {
      var p :| Matching.PerfectMatching(g, p);
      assert Assignment(defs, items, slots, p);
    }
    if Assignable(defs, items, slots) {
      var p :| Assignment(defs, items, slots, p);
      assert Matching.PerfectMatching(g, p);
    }
  }

  method BuildGraph(defs: ItemDefs, items: seq<string>, slots: seq<string>) returns (g: Matching.Graph)
    requires |items| == |slots|
    ensures GraphOf(defs, items, slots, g)
  {
    g := [];
    for i := 0 to |items|
      invariant |g| == i
      invariant forall m, k :: 0 <= m < i && 0 <= k < |g[m]| ==> g[m][k] < |slots|
      invariant forall m: nat, j: nat :: m < i && j < |slots| ==> (j in g[m] <==> Matches(defs, items[m], slots[j]))
    {
      var neighbours: seq<nat> := [];
      for j := 0 to |slots|
        invariant forall k :: 0 <= k < |neighbours| ==> neighbours[k] < j
        invariant forall m: nat :: m < j ==> (m in neighbours <==> Matches(defs, items[i], slots[m]))
      {
        var matches := InputItemMatchesRecipe(defs, items[i], slots[j]);
        if matches {
          neighbours := neighbours + [j];
        }
      }
      g := g + [neighbours];
    }
  }

  // ---------------------------------------------------------------------------
  // Deciding it
  // ---------------------------------------------------------------------------

  function Groups(slots: seq<string>): seq<string> {
    if slots == [] then []
    else if IsGroup(slots[0]) then [slots[0]] + Groups(slots[1..])
    else Groups(slots[1..])
  }

  function Plains(slots: seq<string>): seq<string> {
    if slots == [] then []
    else if IsGroup(slots[0]) then Plains(slots[1..])
    else [slots[0]] + Plains(slots[1..])
  }

  lemma {:induction false} PartitionAppend(s: seq<string>, x: string)
    ensures Groups(s + [x]) == if IsGroup(x) then Groups(s) + [x] else Groups(s)
    ensures Plains(s + [x]) == if IsGroup(x) then Plains(s) else Plains(s) + [x]
  {
    hide IsGroup;
    if s == [] {
      assert s + [x] == [x];
    } else {
      PartitionAppend(s[1..], x);
      assert (s + [x])[1..] == s[1..] + [x];
    }
  }

  lemma {:induction false} PartitionContents(s: seq<string>)
    ensures multiset(s) == multiset(Plains(s)) + multiset(Groups(s))
    ensures forall x <- Plains(s) :: !IsGroup(x)
    ensures forall x <- Groups(s) :: IsGroup(x)
  {
    hide IsGroup;
    if s != [] {
      PartitionContents(s[1..]);
      TailContents(s);
      BagLaws(s[0], multiset(Plains(s[1..])), multiset(Groups(s[1..])));
    }
  }

  lemma {:induction false} PlainsSorted(s: seq<string>)
    requires IsSorted(s)
    ensures IsSorted(Plains(s))
  {
    hide IsGroup;
    hide Le;
    if s != [] {
      PlainsSorted(s[1..]);
      PartitionContents(s[1..]);
      forall x | x in Plains(s[1..]) ensures Le(s[0], x) {
        assert x in multiset(s[1..]);
      }
    }
  }

  /** Splits the recipe into group and non-group slots, in order. */
  method PartitionSlots(slots: seq<string>) returns (groups: seq<string>, plain: seq<string>)
    ensures groups == Groups(slots) && plain == Plains(slots)
  {
    groups, plain := [], [];
    for i := 0 to |slots|
      invariant groups == Groups(slots[..i]) && plain == Plains(slots[..i])
    {
      PartitionAppend(slots[..i], slots[i]);
      assert slots[..i + 1] == slots[..i] + [slots[i]];
      if IsGroup(slots[i]) {
        groups := groups + [slots[i]];
      } else {
        plain := plain + [slots[i]];
      }
    }
    assert slots[..|slots|] == slots;
  }

  function NonEmpty(names: seq<string>): (r: seq<string>)
    ensures forall x <- r :: x != ""
  {
    if names == [] then []
    else if names[0] == "" then NonEmpty(names[1..])
    else [names[0]] + NonEmpty(names[1..])
  }

  /** Whether the non-empty input items can be handed out to the recipe's slots, one each. */
  ghost predicate Accepts(defs: ItemDefs, input: seq<string>, recipe: seq<string>) {
    Assignable(defs, NonEmpty(input), recipe)
  }

  /** The order in which items and slots are listed is irrelevant. */
  lemma OrderIrrelevant(defs: ItemDefs, items: seq<string>, items': seq<string>, slots: seq<string>,
                        slots': seq<string>)
    requires multiset(items) == multiset(items') && multiset(slots) == multiset(slots')
    ensures Assignable(defs, items, slots) <==> Assignable(defs, items', slots')
  {
    if Assignable(defs, items, slots) {
      AssignableIsPairable(defs, items, slots);
      PairableIsAssignable(defs, items', slots');
    }
    if Assignable(defs, items', slots') {
      AssignableIsPairable(defs, items', slots');
      PairableIsAssignable(defs, items, slots);
    }
  }

  /** The prefilter step in terms of lists: what it leaves can be assigned to the group slots
      exactly when everything can be assigned to the whole recipe. */
  lemma PrefilterVerdict(defs: ItemDefs, items: seq<string>, recipe: seq<string>,
                         plain: seq<string>, groups: seq<string>, rest: seq<string>)
    requires |items| == |recipe|
    requires multiset(recipe) == multiset(plain) + multiset(groups)
    requires forall x <- plain :: !IsGroup(x)
    requires forall x <- groups :: IsGroup(x)
    requires multiset(rest) == multiset(items) - multiset(plain)
    ensures |items| - |rest| == |plain| ==> |rest| == |groups|
    ensures Assignable(defs, items, recipe) <==> |items| - |rest| == |plain| && Assignable(defs, rest, groups)
  {
    var i, n := multiset(items), multiset(plain);
    assert |multiset(recipe)| == |n| + |multiset(groups)|;
    assert |i| == |i - n| + |i * n| by { assert i == (i - n) + (i * n); }
    assert n == i * n + (n - i);
    assert |items| - |rest| == |plain| <==> n <= i by {
      assert |i * n| + |n - i| == |n|;
      if |n - i| == 0 { assert n - i == multiset{}; }
    }
    PrefilterIsExact(defs, i, plain, multiset(groups));
    if Assignable(defs, items, recipe) {
      AssignableIsPairable(defs, items, recipe);
      PairableIsAssignable(defs, rest, groups);
    }
    if n <= i && Assignable(defs, rest, groups) {
      AssignableIsPairable(defs, rest, groups);
      PairableIsAssignable(defs, items, recipe);
    }
  }

  /** The body of the shapeless check, on the names of the input stacks and the sorted names
      of the recipe. */
  method CheckShapeless(defs: ItemDefs, input: seq<string>, recipe: seq<string>) returns (ok: bool)
    requires IsSorted(recipe)
    ensures ok <==> |Groups(recipe)| <= 30000 && Accepts(defs, input, recipe)
  {
    // empty cells do not count
    var filtered := [];
    for i := 0 to |input|
      invariant filtered == NonEmpty(input[..i])
    {
      NonEmptyAppend(input[..i], input[i]);
      assert input[..i + 1] == input[..i] + [input[i]];
      if input[i] != "" {
        filtered := filtered + [input[i]];
      }
    }
    assert input[..|input|] == input;
    if |filtered| != |recipe| {
      return false;
    }
    var sorted := Sort(filtered);
    SortLength(filtered);
    OrderIrrelevant(defs, filtered, sorted, recipe, recipe);
    var groups, plain := PartitionSlots(recipe);
    PartitionContents(recipe);
    PlainsSorted(recipe);
    var rest := SetDifference(sorted, plain);
    PrefilterVerdict(defs, sorted, recipe, plain, groups, rest);
    // the rest of the items is left to the groups
    if |sorted| - |rest| != |plain| {
      return false;
    }
    assert |groups| == |rest|;
    if |groups| > Matching.SHAPELESS_GROUPS_MAX {
      return false;
    }
    var graph := BuildGraph(defs, rest, groups);
    GraphMatchingIsAssignment(defs, rest, groups, graph);
    ok := Matching.HopcroftKarpCanMatchAll(graph);
  }

  lemma {:induction false} NonEmptyAppend(s: seq<string>, x: string)
    ensures NonEmpty(s + [x]) == if x == "" then NonEmpty(s) else NonEmpty(s) + [x]
  {
    if s == [] {
      assert s + [x] == [x];
    } else {
      NonEmptyAppend(s[1..], x);
      assert (s + [x])[1..] == s[1..] + [x];
    }
  }
}
