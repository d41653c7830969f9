/** Renumbering the content ids of a block for storage, and restoring them through their names.
    Ids are numbered in the order in which they first occur, and the names are stored beside the
    numbers; on loading, a name leads to the id it has by then. */
module BlockIds {

  type Content = x: int | 0 <= x < 0x1_0000

  const CONTENT_MAX: nat := 0xFFFF
  const CONTENT_IGNORE: Content := 127
  const UNMAPPED: Content := 0xFFFF
  const NODE_COUNT: nat := 4096

  type Names = map<Content, string>

  // ---------------------------------------------------------------------------
  // Numbering
  // ---------------------------------------------------------------------------

  /** The ids of a block in the order in which they first occur. */
  function Distinct(nodes: seq<Content>): (r: seq<Content>)
    ensures |r| <= |nodes| && (forall c :: c in r <==> c in nodes)
    ensures forall i, j :: 0 <= i < j < |r| ==> r[i] != r[j]
  {
    if nodes == [] then []
    else
      var d := Distinct(nodes[..|nodes| - 1]);
      assert nodes == nodes[..|nodes| - 1] + [nodes[|nodes| - 1]];
      if nodes[|nodes| - 1] in d then d else d + [nodes[|nodes| - 1]]
  }

  function NumberOf(ids: seq<Content>, id: Content): (n: nat)
    ensures n <= |ids| && (n < |ids| ==> ids[n] == id) && (n < |ids| <==> id in ids)
  {
    if ids == [] || ids[0] == id then 0 else 1 + NumberOf(ids[1..], id)
  }

  lemma {:induction false} NumberKept(ids: seq<Content>, more: seq<Content>, id: Content)
    requires id in ids
    ensures NumberOf(ids + more, id) == NumberOf(ids, id)
  {
    if ids[0] != id {
      assert (ids + more)[1..] == ids[1..] + more;
      NumberKept(ids[1..], more, id);
    }
  }

  function NameAll(ids: seq<Content>, nameOf: Content -> string): Names
    requires |ids| <= NODE_COUNT
  {
    map k: Content | k < |ids| :: nameOf(ids[k])
  }

  lemma NameOneMore(ids: seq<Content>, id: Content, nameOf: Content -> string)
    requires |ids| < NODE_COUNT
    ensures NameAll(ids + [id], nameOf) == NameAll(ids, nameOf)[|ids| as Content := nameOf(id)]
  {
  }

  /** Where the numbering stands after i nodes. */
  ghost predicate Numbering(was: seq<Content>, nodes: seq<Content>, i: nat, mapping: seq<Content>, idCounter: nat,
                            nimap: Names, nameOf: Content -> string)
  {
    && i <= |was| == |nodes| <= NODE_COUNT && |mapping| == CONTENT_MAX + 1
    && idCounter == |Distinct(was[..i])|
    && nimap == NameAll(Distinct(was[..i]), nameOf)
    && (forall k :: 0 <= k < i ==> nodes[k] == NumberOf(Distinct(was[..i]), was[k]))
    && (forall k :: i <= k < |was| ==> nodes[k] == was[k])
    && (forall c: Content :: mapping[c]
          == if c in was[..i] then NumberOf(Distinct(was[..i]), c) as Content else UNMAPPED)
  }

  lemma DistinctStep(was: seq<Content>, i: nat)
    requires i < |was|
    ensures var d := Distinct(was[..i]);
      Distinct(was[..i + 1]) == if was[i] in d then d else d + [was[i]]
    ensures forall c :: c in was[..i + 1] <==> c in was[..i] || c == was[i]
  {
    assert was[..i + 1][..i] == was[..i];
    assert was[..i + 1] == was[..i] + [was[i]];
  }

  /** One node: its id has a number already, or it gets the next one. */
  lemma NumberOne(was: seq<Content>, nodes: seq<Content>, i: nat, mapping: seq<Content>, idCounter: nat,
                  nimap: Names, nameOf: Content -> string)
    requires Numbering(was, nodes, i, mapping, idCounter, nimap, nameOf) && i < |was|
    ensures idCounter < NODE_COUNT && nodes[i] == was[i]
    ensures var g := was[i];
      var known := mapping[g] != UNMAPPED;
      var id: Content := if known then mapping[g] else idCounter;
      Numbering(was, nodes[i := id], i + 1, if known then mapping else mapping[g := id],
                if known then idCounter else idCounter + 1, if known then nimap else nimap[id := nameOf(g)], nameOf)
  {
    hide Distinct;
    hide NameAll;
    hide NumberOf;
    var g := was[i];
    var d := Distinct(was[..i]);
    DistinctStep(was, i);
    var d' := Distinct(was[..i + 1]);
    if mapping[g] == UNMAPPED {
      assert g !in was[..i];
      forall c | c in d ensures NumberOf(d', c) == NumberOf(d, c) {
        NumberKept(d, [g], c);
      }
      NameOneMore(d, g, nameOf);
    }
    forall k | 0 <= k < i ensures was[k] in d && NumberOf(d', was[k]) == NumberOf(d, was[k]) {
      assert was[k] in was[..i];
    }
  }

  /** The block with its ids replaced by their numbers. */
  function Numbered(nodes: seq<Content>): seq<Content>
    requires |nodes| <= NODE_COUNT
  {
    seq(|nodes|, i requires 0 <= i < |nodes| => NumberOf(Distinct(nodes), nodes[i]))
  }

  lemma {:induction false} DistinctPrefix(nodes: seq<Content>, i: nat)
    requires i <= |nodes|
    ensures Distinct(nodes[..i]) <= Distinct(nodes)
    decreases |nodes|
  {
    if i == |nodes| {
      assert nodes[..i] == nodes;
    } else {
      var init := nodes[..|nodes| - 1];
      DistinctPrefix(init, i);
      assert init[..i] == nodes[..i];
    }
  }

  /** Equal ids get equal numbers, different ids different ones, and an id that occurs for the
      first time gets the next free number. */
  lemma NumbersInOrder(nodes: seq<Content>, i: nat, j: nat)
    requires i < |nodes| <= NODE_COUNT && j < |nodes|
    ensures Numbered(nodes)[i] == Numbered(nodes)[j] <==> nodes[i] == nodes[j]
    ensures nodes[i] !in nodes[..i] ==> Numbered(nodes)[i] == |Distinct(nodes[..i])|
  {
    var d, n := Distinct(nodes), |Distinct(nodes[..i])|;
    assert NumberOf(d, nodes[i]) < |d| && NumberOf(d, nodes[j]) < |d|;
    if nodes[i] !in nodes[..i] {
      DistinctStep(nodes, i);
      DistinctPrefix(nodes, i + 1);
      assert d[n] == Distinct(nodes[..i + 1])[n] == nodes[i];
      hide Distinct;
    }
  }

  /** Renumbers the ids of a block in the order of first occurrence, and lists their names. */
  method GetBlockNodeIdMapping(nodes: array<Content>, nameOf: Content -> string) returns (nimap: Names)
    requires nodes.Length <= NODE_COUNT
    modifies nodes
    ensures nodes[..] == Numbered(old(nodes[..]))
    ensures nimap == NameAll(Distinct(old(nodes[..])), nameOf)
  {
    hide Numbering;
    var mapping := new Content[CONTENT_MAX + 1](_ => UNMAPPED);
    ghost var was := nodes[..];
    nimap := map[];
    var idCounter := 0;
    var i := 0;
    NumberingStarts(was, mapping[..], nameOf);
    while i < nodes.Length
      invariant 0 <= i <= nodes.Length && |was| == nodes.Length
      invariant Numbering(was, nodes[..], i, mapping[..], idCounter, nimap, nameOf)
    {
      NumberOne(was, nodes[..], i, mapping[..], idCounter, nimap, nameOf);
      ghost var before, mapped := nodes[..], mapping[..];
      var globalId := nodes[i];
      var id: Content;
      if mapping[globalId] != UNMAPPED {
        id := mapping[globalId];
      } else {
        id := idCounter;
        idCounter := idCounter + 1;
        mapping[globalId] := id;
        assert mapping[..] == mapped[globalId := id];
        nimap := nimap[id := nameOf(globalId)];
      }
      nodes[i] := id;
      assert nodes[..] == before[i := id];
      i := i + 1;
    }
    NumberingEnds(was, nodes[..], mapping[..], idCounter, nimap, nameOf);
  }

  lemma NumberingStarts(was: seq<Content>, mapping: seq<Content>, nameOf: Content -> string)
    requires |was| <= NODE_COUNT && |mapping| == CONTENT_MAX + 1 && forall c: Content :: mapping[c] == UNMAPPED
    ensures Numbering(was, was, 0, mapping, 0, map[], nameOf)
  {
    assert was[..0] == [];
  }

  lemma NumberingEnds(was: seq<Content>, nodes: seq<Content>, mapping: seq<Content>, idCounter: nat, nimap: Names,
                      nameOf: Content -> string)
    requires Numbering(was, nodes, |was|, mapping, idCounter, nimap, nameOf)
    ensures nodes == Numbered(was) && nimap == NameAll(Distinct(was), nameOf)
  {
    assert was[..|was|] == was;
  }

  // ---------------------------------------------------------------------------
  // Correcting
  // ---------------------------------------------------------------------------

  /** The ids of names, and those still to be handed out to unknown names. */
  datatype Registry = Registry(ids: map<string, Content>, free: seq<Content>)

  /** The id of a name; unknown names get a new one while there are any, which is never the one
      that stands for failure. */
  function Resolve(reg: Registry, name: string): (Content, Registry) {
    if name in reg.ids then (reg.ids[name], reg)
    else if reg.free == [] || reg.free[0] == CONTENT_IGNORE then (CONTENT_IGNORE, reg)
    else (reg.free[0], Registry(reg.ids[name := reg.free[0]], reg.free[1..]))
  }

  /** One node by itself: looked up by name, left alone if that fails. */
  function CorrectOne(node: Content, nimap: Names, reg: Registry): (Content, Registry) {
    if node !in nimap then (node, reg)
    else
      var (id, reg') := Resolve(reg, nimap[node]);
      if nimap[node] !in reg.ids && id == CONTENT_IGNORE then (node, reg') else (id, reg')
  }

  /** Every node by itself, in order. */
  function CorrectAll(nodes: seq<Content>, nimap: Names, reg: Registry): (seq<Content>, Registry) {
    if nodes == [] then ([], reg)
    else
      var (before, reg1) := CorrectAll(nodes[..|nodes| - 1], nimap, reg);
      var (last, reg2) := CorrectOne(nodes[|nodes| - 1], nimap, reg1);
      (before + [last], reg2)
  }

  lemma CorrectStep(nodes: seq<Content>, i: nat, nimap: Names, reg: Registry)
    requires i < |nodes|
    ensures var (before, reg1) := CorrectAll(nodes[..i], nimap, reg);
      var (last, reg2) := CorrectOne(nodes[i], nimap, reg1);
      CorrectAll(nodes[..i + 1], nimap, reg) == (before + [last], reg2)
  {
    assert nodes[..i + 1][..i] == nodes[..i];
  }

  /** What the registry has become: ids that were there are kept, and k new names have got one of
      the first k free ids each. */
  ghost predicate Grown(reg: Registry, reg': Registry, k: nat) {
    && k <= |reg.free| && reg'.free == reg.free[k..] && |reg'.ids| == |reg.ids| + k
    && (forall name :: name in reg.ids ==> name in reg'.ids && reg'.ids[name] == reg.ids[name])
    && (forall name :: name in reg'.ids && name !in reg.ids ==>
          reg'.ids[name] in reg.free[..k] && reg'.ids[name] != CONTENT_IGNORE)
  }

  predicate Exhausted(reg: Registry) {
    reg.free == [] || reg.free[0] == CONTENT_IGNORE
  }

  /** The content a node should have in the end: the id of its name; without a name, or if the
      ids ran out before its name got one, the one it had. */
  ghost predicate Corrected(node: Content, nimap: Names, reg: Registry, after: Content) {
    if node in nimap && nimap[node] in reg.ids then after == reg.ids[nimap[node]]
    else after == node && (node in nimap ==> Exhausted(reg))
  }

  ghost predicate AllCorrected(nodes: seq<Content>, nimap: Names, reg: Registry, after: seq<Content>) {
    |after| == |nodes| && forall i :: 0 <= i < |nodes| ==> Corrected(nodes[i], nimap, reg, after[i])
  }

  /** Only names of nodes of the block are new. */
  ghost predicate NewAreNamed(nodes: seq<Content>, nimap: Names, reg: Registry, reg': Registry) {
    forall name :: name in reg'.ids && name !in reg.ids ==>
      exists i :: 0 <= i < |nodes| && nodes[i] in nimap && nimap[nodes[i]] == name
  }

  /** Every node whose id has a name ends up with the id of that name, also if the name was
      unknown, as long as there are ids to hand out. */
  lemma {:induction false} CorrectedByName(nodes: seq<Content>, nimap: Names, reg: Registry) returns (k: nat)
    ensures var (after, reg') := CorrectAll(nodes, nimap, reg);
      Grown(reg, reg', k) && AllCorrected(nodes, nimap, reg', after) && NewAreNamed(nodes, nimap, reg, reg')
  {
    hide *;
    k := 0;
    if nodes == [] {
      NothingCorrected(nimap, reg);
    } else {
      var init, last := nodes[..|nodes| - 1], nodes[|nodes| - 1];
      var (before, reg1) := CorrectAll(init, nimap, reg);
      var (c, reg2) := CorrectOne(last, nimap, reg1);
      k := CorrectedByName(init, nimap, reg);
      var more := CorrectedOne(last, nimap, reg1);
      assert nodes == init + [last];
      CorrectSnoc(init, last, nimap, reg);
      AllCorrectedSnoc(init, last, nimap, reg1, reg2, before, c, more);
      NewAreNamedSnoc(init, last, nimap, reg, reg1, reg2);
      GrownTrans(reg, reg1, reg2, k, more);
      k := k + more;
    }
  }

  lemma NothingCorrected(nimap: Names, reg: Registry)
    ensures CorrectAll([], nimap, reg) == ([], reg)
    ensures Grown(reg, reg, 0) && AllCorrected([], nimap, reg, []) && NewAreNamed([], nimap, reg, reg)
  {
  }

  lemma CorrectSnoc(init: seq<Content>, last: Content, nimap: Names, reg: Registry)
    ensures var (before, reg1) := CorrectAll(init, nimap, reg);
      var (c, reg2) := CorrectOne(last, nimap, reg1);
      CorrectAll(init + [last], nimap, reg) == (before + [c], reg2)
  {
    assert (init + [last])[..|init|] == init;
  }

  lemma CorrectedOne(node: Content, nimap: Names, reg: Registry) returns (k: nat)
    ensures var (after, reg') := CorrectOne(node, nimap, reg);
      && Grown(reg, reg', k) && Corrected(node, nimap, reg', after)
      && (Exhausted(reg) ==> reg' == reg)
      && (forall name :: name in reg'.ids && name !in reg.ids ==> node in nimap && nimap[node] == name)
  {
    k := if CorrectOne(node, nimap, reg).1 == reg then 0 else 1;
  }

  lemma AllCorrectedSnoc(init: seq<Content>, last: Content, nimap: Names, reg1: Registry, reg2: Registry,
                         before: seq<Content>, c: Content, more: nat)
    requires AllCorrected(init, nimap, reg1, before) && Corrected(last, nimap, reg2, c)
    requires Grown(reg1, reg2, more) && (Exhausted(reg1) ==> reg2 == reg1)
    ensures AllCorrected(init + [last], nimap, reg2, before + [c])
  {
    hide Exhausted;
    forall i | 0 <= i < |init| ensures Corrected(init[i], nimap, reg2, before[i]) {
      assert Corrected(init[i], nimap, reg1, before[i]);
    }
  }

  lemma NewAreNamedSnoc(init: seq<Content>, last: Content, nimap: Names, reg: Registry, reg1: Registry, reg2: Registry)
    requires NewAreNamed(init, nimap, reg, reg1)
    requires forall name :: name in reg2.ids && name !in reg1.ids ==> last in nimap && nimap[last] == name
    ensures NewAreNamed(init + [last], nimap, reg, reg2)
  {
    var nodes := init + [last];
    forall name | name in reg2.ids && name !in reg.ids
      ensures exists i :: 0 <= i < |nodes| && nodes[i] in nimap && nimap[nodes[i]] == name
    {
      if name in reg1.ids {
        var i :| 0 <= i < |init| && init[i] in nimap && nimap[init[i]] == name;
        assert nodes[i] == init[i];
      } else {
        assert nodes[|init|] == last;
      }
    }
  }

  lemma GrownTrans(a: Registry, b: Registry, c: Registry, k: nat, n: nat)
    requires Grown(a, b, k) && Grown(b, c, n)
    ensures Grown(a, c, k + n)
  {
    assert b.free[n..] == a.free[k + n..];
    assert b.free[..n] == a.free[k..k + n];
    assert a.free[..k + n] == a.free[..k] + a.free[k..k + n];
  }

  class GameDef {
    var registry: Registry

    constructor (registry: Registry)
      ensures this.registry == registry
    {
      this.registry := registry;
    }

    /** A new id for an unknown name. */
    method AllocateUnknownNodeId(name: string) returns (id: Content)
      requires name !in registry.ids
      modifies this
      ensures (id, registry) == Resolve(old(registry), name)
    {
      if registry.free == [] || registry.free[0] == CONTENT_IGNORE {
        return CONTENT_IGNORE;
      }
      id := registry.free[0];
      registry := Registry(registry.ids[name := id], registry.free[1..]);
    }
  }

  /** Replaces the ids of a block by those its names have now.  Remembering the last result gives
      what looking up every node by itself would, even where unknown names get new ids. */
  method CorrectBlockNodeIds(nimap: Names, nodes: array<Content>, gamedef: GameDef)
    modifies nodes, gamedef
    ensures CorrectAll(old(nodes[..]), nimap, old(gamedef.registry)) == (nodes[..], gamedef.registry)
  {
    hide CorrectAll;
    hide Grown;
    hide AllCorrected;
    hide NewAreNamed;
    ghost var was, reg := nodes[..], gamedef.registry;
    NothingCorrected(nimap, reg);
    var previousExists := false;
    var previousLocalId, previousGlobalId := CONTENT_IGNORE, CONTENT_IGNORE;
    var i := 0;
    while i < nodes.Length
      invariant 0 <= i <= nodes.Length == |was|
      invariant CorrectAll(was[..i], nimap, reg) == (nodes[..i], gamedef.registry)
      invariant nodes[i..] == was[i..]
      invariant previousExists ==>
        && previousLocalId in nimap && nimap[previousLocalId] in gamedef.registry.ids
        && gamedef.registry.ids[nimap[previousLocalId]] == previousGlobalId
    {
      CorrectStep(was, i, nimap, reg);
      ghost var before := nodes[..];
      assert before == nodes[..i] + nodes[i..];
      var localId := nodes[i];
      assert localId == nodes[i..][0] == was[i];
      if previousExists && localId == previousLocalId {
        nodes[i] := previousGlobalId;
      } else if localId !in nimap {
        previousExists := false;
      } else {
        var name := nimap[localId];
        var globalId, known := CONTENT_IGNORE, name in gamedef.registry.ids;
        if known {
          globalId := gamedef.registry.ids[name];
        } else {
          globalId := gamedef.AllocateUnknownNodeId(name);
        }
        if !known && globalId == CONTENT_IGNORE {
          previousExists := false;
        } else {
          nodes[i] := globalId;
          previousLocalId := localId;
          previousGlobalId := globalId;
          previousExists := true;
        }
      }
      assert nodes[..i + 1] == before[..i] + [nodes[i]];
      assert nodes[i + 1..] == before[i..][1..];
      i := i + 1;
    }
    assert was[..i] == was && nodes[..i] == nodes[..];
  }

  // ---------------------------------------------------------------------------
  // Round trip
  // ---------------------------------------------------------------------------

  /** The name of every id of the block is known. */
  ghost predicate NamesKnown(nodes: seq<Content>, nameOf: Content -> string, reg: Registry) {
    forall i :: 0 <= i < |nodes| ==> nameOf(nodes[i]) in reg.ids
  }

  /** Every id of the block is the one its name leads to. */
  ghost predicate NamesLeadBack(nodes: seq<Content>, nameOf: Content -> string, reg: Registry) {
    forall i :: 0 <= i < |nodes| ==> nameOf(nodes[i]) in reg.ids && reg.ids[nameOf(nodes[i])] == nodes[i]
  }

  lemma {:induction false} CorrectKnown(nodes: seq<Content>, nimap: Names, reg: Registry)
    requires forall i :: 0 <= i < |nodes| ==> nodes[i] in nimap && nimap[nodes[i]] in reg.ids
    ensures var (after, reg') := CorrectAll(nodes, nimap, reg);
      reg' == reg && |after| == |nodes| && forall i :: 0 <= i < |nodes| ==> after[i] == reg.ids[nimap[nodes[i]]]
  {
    if nodes != [] {
      CorrectKnown(nodes[..|nodes| - 1], nimap, reg);
    }
  }

  lemma NumberedLength(nodes: seq<Content>)
    requires |nodes| <= NODE_COUNT
    ensures |Numbered(nodes)| == |nodes|
  {
  }

  lemma NumbersAreNamed(nodes: seq<Content>, nameOf: Content -> string, i: nat)
    requires i < |nodes| <= NODE_COUNT
    ensures Numbered(nodes)[i] in NameAll(Distinct(nodes), nameOf)
    ensures NameAll(Distinct(nodes), nameOf)[Numbered(nodes)[i]] == nameOf(nodes[i])
    ensures Numbered(nodes)[i] < |Distinct(nodes)|
  {
  }

  /** With known names, a block that is numbered and corrected again is the same block exactly if
      the names lead back to the ids they were taken from; nothing new is registered. */
  lemma RoundTrip(nodes: seq<Content>, nameOf: Content -> string, reg: Registry)
    requires |nodes| <= NODE_COUNT && NamesKnown(nodes, nameOf, reg)
    ensures var (after, reg') := CorrectAll(Numbered(nodes), NameAll(Distinct(nodes), nameOf), reg);
      reg' == reg && (after == nodes <==> NamesLeadBack(nodes, nameOf, reg))
  {
    hide Numbered;
    hide NameAll;
    hide CorrectAll;
    var numbered, nimap := Numbered(nodes), NameAll(Distinct(nodes), nameOf);
    NumberedLength(nodes);
    forall i | 0 <= i < |nodes| ensures numbered[i] in nimap && nimap[numbered[i]] == nameOf(nodes[i]) {
      NumbersAreNamed(nodes, nameOf, i);
    }
    CorrectKnown(numbered, nimap, reg);
    var (after, reg') := CorrectAll(numbered, nimap, reg);
    assert forall i :: 0 <= i < |nodes| ==> after[i] == reg.ids[nameOf(nodes[i])];
    if NamesLeadBack(nodes, nameOf, reg) {
      assert after == nodes;
    }
  }

  /** Storing a block and loading it again. */
  method StoreAndLoad(nodes: array<Content>, nameOf: Content -> string, gamedef: GameDef)
    requires nodes.Length <= NODE_COUNT && NamesLeadBack(nodes[..], nameOf, gamedef.registry)
    modifies nodes, gamedef
    ensures nodes[..] == old(nodes[..]) && gamedef.registry == old(gamedef.registry)
  {
    RoundTrip(nodes[..], nameOf, gamedef.registry);
    var nimap := GetBlockNodeIdMapping(nodes, nameOf);
    CorrectBlockNodeIds(nimap, nodes, gamedef);
  }
}
