/** Normalising file system paths by rewriting them in place, and comparing them. */
module Paths {

  predicate IsDelimiter(c: char) {
    c == '/'
  }

  const DELIMITER := "/"

  // ---------------------------------------------------------------------------
  // The components of a path
  // ---------------------------------------------------------------------------

  /** Skips delimiters backwards. */
  function SkipDelimiters(s: string, n: nat): (r: nat)
    requires n <= |s|
    ensures r <= n && (forall i :: r <= i < n ==> IsDelimiter(s[i])) && (r == 0 || !IsDelimiter(s[r - 1]))
  {
    if n == 0 || !IsDelimiter(s[n - 1]) then n else SkipDelimiters(s, n - 1)
  }

  /** Skips a name backwards. */
  function SkipName(s: string, n: nat): (r: nat)
    requires n <= |s|
    ensures r <= n && (forall i :: r <= i < n ==> !IsDelimiter(s[i])) && (r == 0 || IsDelimiter(s[r - 1]))
  {
    if n == 0 || IsDelimiter(s[n - 1]) then n else SkipName(s, n - 1)
  }

  /** The names between the delimiters. */
  function Components(s: string): seq<string> {
    var end := SkipDelimiters(s, |s|);
    if end == 0 then []
    else
      var start := SkipName(s, end);
      Components(s[..start]) + [s[start..end]]
  }

  lemma SkipDelimitersIs(s: string, n: nat, r: nat)
    requires r <= n <= |s|
    requires (forall i :: r <= i < n ==> IsDelimiter(s[i])) && (r == 0 || !IsDelimiter(s[r - 1]))
    ensures SkipDelimiters(s, n) == r
  {
  }

  lemma SkipNameIs(s: string, n: nat, r: nat)
    requires r <= n <= |s|
    requires (forall i :: r <= i < n ==> !IsDelimiter(s[i])) && (r == 0 || IsDelimiter(s[r - 1]))
    ensures SkipName(s, n) == r
  {
  }

  /** Names do not run on from a into b. */
  predicate Boundary(a: string, b: string) {
    a == "" || b == "" || IsDelimiter(a[|a| - 1]) || IsDelimiter(b[0])
  }

  lemma ComponentsNone(s: string)
    requires forall i :: 0 <= i < |s| ==> IsDelimiter(s[i])
    ensures Components(s) == []
  {
    SkipDelimitersIs(s, |s|, 0);
  }

  lemma ComponentsLast(s: string, start: nat, end: nat)
    requires start < end <= |s|
    requires (forall i :: end <= i < |s| ==> IsDelimiter(s[i])) && (forall i :: start <= i < end ==> !IsDelimiter(s[i]))
    requires start == 0 || IsDelimiter(s[start - 1])
    ensures Components(s) == Components(s[..start]) + [s[start..end]]
  {
    SkipDelimitersIs(s, |s|, end);
    SkipNameIs(s, end, start);
  }

  lemma {:induction false} ComponentsConcat(a: string, b: string)
    requires Boundary(a, b)
    ensures Components(a + b) == Components(a) + Components(b)
    decreases |b|
  {
    hide Components;
    var s := a + b;
    var end := SkipDelimiters(b, |b|);
    if b == "" {
      assert s == a;
      ComponentsNone(b);
    } else if end == 0 {
      ComponentsNone(b);
      var e := SkipDelimiters(a, |a|);
      if e > 0 {
        var start := SkipName(a, e);
        ComponentsLast(a, start, e);
        ComponentsLast(s, start, e);
        assert s[..start] == a[..start] && s[start..e] == a[start..e];
      } else {
        ComponentsNone(a);
        ComponentsNone(s);
      }
    } else {
      var start := SkipName(b, end);
      ComponentsLast(b, start, end);
      assert forall i :: 0 <= i < |b| ==> s[|a| + i] == b[i];
      ConcatLast(a, b, start, end);
      ComponentsConcat(a, b[..start]);
      assert (Components(a) + Components(b[..start])) + [b[start..end]]
           == Components(a) + (Components(b[..start]) + [b[start..end]]);
    }
  }

  lemma ConcatLast(a: string, b: string, start: nat, end: nat)
    requires start < end <= |b| && Boundary(a, b)
    requires (forall i :: end <= i < |b| ==> IsDelimiter(b[i])) && (forall i :: start <= i < end ==> !IsDelimiter(b[i]))
    requires start == 0 || IsDelimiter(b[start - 1])
    ensures Components(a + b) == Components(a + b[..start]) + [b[start..end]]
    ensures Boundary(a, b[..start])
  {
    hide Components;
    var s, n := a + b, |a|;
    assert s[..n + start] == a + b[..start] && s[n + start..n + end] == b[start..end];
    ComponentsLast(s, n + start, n + end);
  }

  /** A name alone, and delimiters alone; together with the concatenation this is all there is
      to components. */
  lemma ComponentsOfOne(s: string)
    ensures s != "" && (forall i :: 0 <= i < |s| ==> !IsDelimiter(s[i])) ==> Components(s) == [s]
    ensures (forall i :: 0 <= i < |s| ==> IsDelimiter(s[i])) ==> Components(s) == []
  {
    if s != "" && forall i :: 0 <= i < |s| ==> !IsDelimiter(s[i]) {
      SkipDelimitersIs(s, |s|, |s|);
      SkipNameIs(s, |s|, 0);
      assert s[0..|s|] == s;
    }
    if forall i :: 0 <= i < |s| ==> IsDelimiter(s[i]) {
      SkipDelimitersIs(s, |s|, 0);
    }
  }

  // ---------------------------------------------------------------------------
  // Walking a path, forwards with a stack and backwards with a counter
  // ---------------------------------------------------------------------------

  datatype Option<T> = None | Some(value: T)

  /** Where the components lead: a dot stays, two dots go up, which fails at the start. */
  function Walk(components: seq<string>): Option<seq<string>> {
    if components == [] then Some([])
    else
      var before := Walk(components[..|components| - 1]);
      var name := components[|components| - 1];
      if before.None? then None
      else if name == "." then before
      else if name == ".." then
        if before.value == [] then None else Some(before.value[..|before.value| - 1])
      else Some(before.value + [name])
  }

  /** From the right: the names kept, and how many names are still to be dropped. */
  function Back(components: seq<string>, dotdots: nat, kept: seq<string>): (seq<string>, nat) {
    if components == [] then (kept, dotdots)
    else
      var init, name := components[..|components| - 1], components[|components| - 1];
      if name == "." then Back(init, dotdots, kept)
      else if name == ".." then Back(init, dotdots + 1, kept)
      else if dotdots > 0 then Back(init, dotdots - 1, kept)
      else Back(init, 0, [name] + kept)
  }

  /** Both walks agree. */
  lemma {:induction false} BackIsWalk(components: seq<string>, dotdots: nat, kept: seq<string>)
    ensures var (names, left) := Back(components, dotdots, kept);
      match Walk(components)
      case None => left > 0
      case Some(stack) =>
        if dotdots <= |stack| then left == 0 && names == stack[..|stack| - dotdots] + kept
        else left > 0
  {
    if components != [] {
      var init, name := components[..|components| - 1], components[|components| - 1];
      if name == "." {
        BackIsWalk(init, dotdots, kept);
      } else if name == ".." {
        BackIsWalk(init, dotdots + 1, kept);
      } else if dotdots > 0 {
        BackIsWalk(init, dotdots - 1, kept);
      } else {
        BackIsWalk(init, 0, [name] + kept);
      }
    }
  }

  /** Neither a dot nor two dots. */
  predicate NoDots(components: seq<string>) {
    forall i :: 0 <= i < |components| ==> components[i] != "." && components[i] != ".."
  }

  lemma {:induction false} WalkHasNoDots(components: seq<string>)
    ensures Walk(components).Some? ==> NoDots(Walk(components).value)
    ensures NoDots(components) ==> Walk(components) == Some(components)
  {
    if components != [] {
      var init, name := components[..|components| - 1], components[|components| - 1];
      WalkHasNoDots(init);
      assert components == init + [name];
      assert NoDots(components) ==> NoDots(init) && name != "." && name != "..";
    }
  }

  /** Begins with a delimiter, or is empty. */
  predicate Rooted(s: string) {
    s == "" || IsDelimiter(s[0])
  }

  /** Without the delimiters at the end. */
  function Trimmed(s: string): string {
    s[..SkipDelimiters(s, |s|)]
  }

  lemma TrimmedComponents(s: string)
    ensures Components(Trimmed(s)) == Components(s)
    ensures Trimmed(Trimmed(s)) == Trimmed(s)
    ensures Components(s) == [] <==> Trimmed(s) == ""
    ensures Trimmed(s) != "" ==> (Rooted(Trimmed(s)) <==> Rooted(s))
  {
    var end := SkipDelimiters(s, |s|);
    assert s == s[..end] + s[end..];
    ComponentsConcat(s[..end], s[end..]);
    ComponentsOfOne(s[end..]);
    SkipDelimitersIs(Trimmed(s), end, end);
    assert Trimmed(s)[..end] == Trimmed(s);
  }

  // ---------------------------------------------------------------------------
  // Where a path leads, delimiters included
  // ---------------------------------------------------------------------------

  /** A component with the delimiters before it. */
  datatype Piece = Piece(delims: string, name: string)

  ghost predicate Delimiters(s: string) {
    forall i :: 0 <= i < |s| ==> IsDelimiter(s[i])
  }

  predicate Begins(s: string) {
    s != "" && IsDelimiter(s[0])
  }

  predicate Dots(name: string) {
    name == "." || name == ".."
  }

  /** The delimiters at the end. */
  function Tail(s: string): string {
    s[SkipDelimiters(s, |s|)..]
  }

  function Pieces(s: string): seq<Piece> {
    var end := SkipDelimiters(s, |s|);
    if end == 0 then []
    else
      var start := SkipName(s, end);
      Pieces(s[..start]) + [Piece(Tail(s[..start]), s[start..end])]
  }

  function Render(pieces: seq<Piece>): string {
    if pieces == [] then ""
    else
      var last := pieces[|pieces| - 1];
      Render(pieces[..|pieces| - 1]) + last.delims + last.name
  }

  /** The delimiters before what follows some pieces, of which the stack is left: its own if it
      follows a component that stays, or nothing; else a single one, unless it comes first in a
      path that does not begin with one. */
  function Before(pieces: seq<Piece>, delims: string, stack: seq<Piece>, begins: bool): string {
    if pieces == [] || !Dots(pieces[|pieces| - 1].name) then delims
    else if stack == [] && !begins then "" else DELIMITER
  }

  /** Walking the pieces with a stack. */
  function Resolve(pieces: seq<Piece>, begins: bool): Option<seq<Piece>> {
    if pieces == [] then Some([])
    else
      var init, last := pieces[..|pieces| - 1], pieces[|pieces| - 1];
      var before := Resolve(init, begins);
      if before.None? then None
      else if last.name == "." then before
      else if last.name == ".." then
        if before.value == [] then None else Some(before.value[..|before.value| - 1])
      else Some(before.value + [Piece(Before(init, last.delims, before.value, begins), last.name)])
  }

  /** The path without dots, character by character. */
  function Resolved(s: string): string {
    match Resolve(Pieces(s), Begins(s))
    case None => ""
    case Some(stack) => Render(stack)
  }

  lemma PiecesLast(s: string, start: nat, end: nat)
    requires start < end <= |s|
    requires (forall i :: end <= i < |s| ==> IsDelimiter(s[i])) && (forall i :: start <= i < end ==> !IsDelimiter(s[i]))
    requires start == 0 || IsDelimiter(s[start - 1])
    ensures Pieces(s) == Pieces(s[..start]) + [Piece(Tail(s[..start]), s[start..end])]
  {
    SkipDelimitersIs(s, |s|, end);
    SkipNameIs(s, end, start);
  }

  lemma PiecesNone(s: string)
    requires Delimiters(s)
    ensures Pieces(s) == [] && Tail(s) == s
  {
    SkipDelimitersIs(s, |s|, 0);
  }

  lemma TailTrail(a: string, d: string)
    requires Delimiters(d)
    ensures Tail(a + d) == Tail(a) + d && SkipDelimiters(a + d, |a + d|) == SkipDelimiters(a, |a|)
  {
    SkipDelimitersIs(a + d, |a + d|, SkipDelimiters(a, |a|));
  }

  /** Delimiters at the end belong to no piece. */
  lemma PiecesTrail(a: string, d: string)
    requires Delimiters(d)
    ensures Pieces(a + d) == Pieces(a) && Tail(a + d) == Tail(a) + d
  {
    hide Pieces;
    TailTrail(a, d);
    var end := SkipDelimiters(a, |a|);
    hide Tail;
    if end == 0 {
      PiecesNone(a);
      PiecesNone(a + d);
    } else {
      var start := SkipName(a, end);
      PiecesLast(a, start, end);
      PiecesLast(a + d, start, end);
      assert (a + d)[..start] == a[..start] && (a + d)[start..end] == a[start..end];
    }
  }

  lemma WalkSnoc(init: seq<string>, name: string)
    ensures Walk(init + [name]) ==
      match Walk(init)
      case None => None
      case Some(stack) =>
        if name == "." then Some(stack)
        else if name == ".." then (if stack == [] then None else Some(stack[..|stack| - 1]))
        else Some(stack + [name])
  {
    assert (init + [name])[..|init|] == init;
  }

  /** The names of the pieces are the components, and resolving walks them. */
  lemma {:induction false} ResolveIsWalk(s: string, begins: bool)
    ensures Walk(Components(s)) ==
      match Resolve(Pieces(s), begins)
      case None => None
      case Some(stack) => Some(NamesOf(stack))
    decreases |s|
  {
    hide Pieces;
    hide Components;
    hide Walk;
    hide Resolve;
    hide Before;
    var end := SkipDelimiters(s, |s|);
    if end == 0 {
      PiecesNone(s);
      ComponentsNone(s);
      ResolveNothing(begins);
    } else {
      var start := SkipName(s, end);
      ResolveIsWalk(s[..start], begins);
      PiecesLast(s, start, end);
      ComponentsLast(s, start, end);
      ResolveSnoc(Pieces(s[..start]), Piece(Tail(s[..start]), s[start..end]), begins);
      WalkSnoc(Components(s[..start]), s[start..end]);
      var before := Resolve(Pieces(s[..start]), begins);
      if before.Some? {
        NamesLast(before.value, Piece(Before(Pieces(s[..start]), Tail(s[..start]), before.value, begins),
                                      s[start..end]));
      }
    }
  }

  lemma NamesLast(stack: seq<Piece>, x: Piece)
    ensures NamesOf(stack + [x]) == NamesOf(stack) + [x.name]
    ensures stack != [] ==> NamesOf(stack[..|stack| - 1]) == NamesOf(stack)[..|stack| - 1]
  {
  }

  lemma ResolveNothing(begins: bool)
    ensures Resolve([], begins) == Some([]) && Walk([]) == Some([]) && NamesOf([]) == []
  {
  }

  function NamesOf(pieces: seq<Piece>): (r: seq<string>)
    ensures |r| == |pieces| && forall i :: 0 <= i < |r| ==> r[i] == pieces[i].name
  {
    seq(|pieces|, i requires 0 <= i < |pieces| => pieces[i].name)
  }

  // ---------------------------------------------------------------------------
  // What is still to come of a path that is being rewritten
  // ---------------------------------------------------------------------------

  /** The result when the pieces are still to be rewritten, so many names are to be dropped, and
      what follows is settled. */
  ghost function Outcome(pieces: seq<Piece>, tail: string, dotdots: nat, kept: string, begins: bool): string {
    Settled(Resolve(pieces, begins), dotdots == 0 && (pieces == [] || !Dots(pieces[|pieces| - 1].name)),
            tail, dotdots, kept, begins)
  }

  /** The same once the pieces are walked; what follows keeps the delimiters before it or gets
      others. */
  ghost function Settled(walked: Option<seq<Piece>>, own: bool, tail: string, dotdots: nat, kept: string,
                         begins: bool): string {
    match walked
    case None => ""
    case Some(stack) =>
      if |stack| < dotdots then ""
      else
        var left := stack[..|stack| - dotdots];
        Trimmed(Render(left) + (if own then tail else if left == [] && !begins then "" else DELIMITER) + kept)
  }

  lemma ResolveSnoc(init: seq<Piece>, x: Piece, begins: bool)
    ensures Resolve(init + [x], begins) ==
      match Resolve(init, begins)
      case None => None
      case Some(stack) =>
        if x.name == "." then Some(stack)
        else if x.name == ".." then (if stack == [] then None else Some(stack[..|stack| - 1]))
        else Some(stack + [Piece(Before(init, x.delims, stack, begins), x.name)])
  {
    assert (init + [x])[..|init|] == init;
  }

  lemma RenderSnoc(init: seq<Piece>, x: Piece)
    ensures Render(init + [x]) == Render(init) + x.delims + x.name
  {
    assert (init + [x])[..|init|] == init;
  }

  lemma OutcomeKeep(init: seq<Piece>, x: Piece, tail: string, kept: string, begins: bool)
    requires !Dots(x.name)
    ensures Outcome(init + [x], tail, 0, kept, begins) == Outcome(init, x.delims, 0, x.name + tail + kept, begins)
  {
    hide Trimmed;
    ResolveSnoc(init, x, begins);
    hide Resolve;
    if Resolve(init, begins).Some? {
      var stack := Resolve(init, begins).value;
      var sep := Before(init, x.delims, stack, begins);
      RenderSnoc(stack, Piece(sep, x.name));
      hide Render;
      assert stack[..|stack|] == stack;
      assert (stack + [Piece(sep, x.name)])[..|stack| + 1] == stack + [Piece(sep, x.name)];
      assert (Render(stack) + sep + x.name) + tail + kept == Render(stack) + sep + (x.name + tail + kept);
    }
  }

  /** Counting the components that go up. */
  function Counted(name: string, dotdots: nat): nat {
    if name == "." then dotdots else if name == ".." then dotdots + 1 else if dotdots > 0 then dotdots - 1 else 0
  }

  /** Dropping the last piece: a delimiter comes before what follows, unless nothing is left and
      the path does not begin with one. */
  lemma OutcomeRemove(init: seq<Piece>, x: Piece, tail: string, dotdots: nat, kept: string, begins: bool)
    requires Dots(x.name) || dotdots > 0
    ensures Outcome(init + [x], tail, dotdots, kept, begins)
         == if init == []
            then Outcome([], "", Counted(x.name, dotdots), (if begins then DELIMITER else "") + kept, begins)
            else Outcome(init, DELIMITER, Counted(x.name, dotdots), kept, begins)
  {
    if init == [] {
      assert init + [x] == [x];
      OutcomeRemoveFirst(x, tail, dotdots, kept, begins);
    } else {
      ResolveSnoc(init, x, begins);
      if Resolve(init, begins).Some? {
        LastStays(init, begins);
        SettledDrop(Resolve(init, begins).value, x, Before(init, x.delims, Resolve(init, begins).value, begins),
                    tail, dotdots, kept, begins);
      }
      hide Resolve;
      hide Render;
      hide Trimmed;
    }
  }

  lemma SettledDrop(stack: seq<Piece>, x: Piece, delims: string, tail: string, dotdots: nat, kept: string, begins: bool)
    requires Dots(x.name) || dotdots > 0
    ensures Settled(if x.name == "." then Some(stack)
                    else if x.name == ".." then (if stack == [] then None else Some(stack[..|stack| - 1]))
                    else Some(stack + [Piece(delims, x.name)]), false, tail, dotdots, kept, begins)
         == Settled(Some(stack), false, DELIMITER, Counted(x.name, dotdots), kept, begins)
  {
    hide Render;
    hide Trimmed;
    DropFromStack(stack, Piece(delims, x.name), dotdots);
  }

  lemma DropFromStack(stack: seq<Piece>, x: Piece, dotdots: nat)
    ensures dotdots > 0 && dotdots <= |stack| + 1 ==>
      (stack + [x])[..|stack| + 1 - dotdots] == stack[..|stack| - (dotdots - 1)]
    ensures stack != [] && dotdots < |stack| ==>
      stack[..|stack| - 1][..|stack| - 1 - dotdots] == stack[..|stack| - (dotdots + 1)]
  {
  }

  /** A name at the end stays on the stack. */
  lemma LastStays(pieces: seq<Piece>, begins: bool)
    requires pieces != [] && Resolve(pieces, begins).Some?
    ensures !Dots(pieces[|pieces| - 1].name) ==> Resolve(pieces, begins).value != []
  {
  }

  lemma OutcomeRemoveFirst(x: Piece, tail: string, dotdots: nat, kept: string, begins: bool)
    requires Dots(x.name) || dotdots > 0
    ensures Outcome([x], tail, dotdots, kept, begins)
         == Outcome([], "", Counted(x.name, dotdots), (if begins then DELIMITER else "") + kept, begins)
  {
    hide Trimmed;
    ResolveSnoc([], x, begins);
    assert [] + [x] == [x];
    assert "" + (DELIMITER + kept) == "" + DELIMITER + kept && "" + "" + kept == "" + kept == kept;
  }

  // ---------------------------------------------------------------------------
  // The rewriting loop
  // ---------------------------------------------------------------------------

  /** No two delimiters stand side by side. */
  predicate SingleDelimiters(s: string) {
    forall i :: 0 < i < |s| ==> !(IsDelimiter(s[i]) && IsDelimiter(s[i - 1]))
  }

  /** A path with single delimiters and none at the end is determined by its components and by
      whether it begins with a delimiter. */
  lemma {:induction false} Canonical(s: string, t: string)
    requires SingleDelimiters(s) && SingleDelimiters(t) && Trimmed(s) == s && Trimmed(t) == t
    requires Components(s) == Components(t) && (Rooted(s) <==> Rooted(t))
    ensures s == t
    decreases |s|
  {
    hide Components;
    hide SingleDelimiters;
    TrimmedComponents(s);
    TrimmedComponents(t);
    if s != "" {
      var i, s' := LastComponent(s);
      var j, t' := LastComponent(t);
      SameLast(Components(s'), s[i..], Components(t'), t[j..]);
      TrimmedComponents(s');
      TrimmedComponents(t');
      Canonical(s', t');
    }
  }

  lemma SameLast(a: seq<string>, x: string, b: seq<string>, y: string)
    requires a + [x] == b + [y]
    ensures a == b && x == y
  {
    assert a == (a + [x])[..|a|] && b == (b + [y])[..|b|];
    assert (a + [x])[|a|] == x && (b + [y])[|b|] == y;
    assert |a + [x]| == |b + [y]|;
  }

  /** A canonical path taken apart before its last component. */
  lemma LastComponent(s: string) returns (start: nat, s': string)
    requires s != "" && SingleDelimiters(s) && Trimmed(s) == s
    ensures start < |s| && Components(s) == Components(s') + [s[start..]]
    ensures s' == if start > 1 then s[..start - 1] else ""
    ensures SingleDelimiters(s') && Trimmed(s') == s'
    ensures start > 1 ==> s' != "" && (Rooted(s') <==> Rooted(s))
    ensures s == (if start > 0 then s' + DELIMITER else "") + s[start..]
    ensures start == 0 <==> !Rooted(s) && Components(s') == []
    ensures start == 1 ==> Rooted(s)
  {
    hide Components;
    start := SkipName(s, |s|);
    s' := if start > 1 then s[..start - 1] else "";
    assert !IsDelimiter(s[|s| - 1]);
    ComponentsLast(s, start, |s|);
    assert s[start..|s|] == s[start..];
    ComponentsNone("");
    ComponentsNone(DELIMITER);
    if start == 0 {
      assert s[..0] == "";
    } else {
      assert s[..start] == s[..start - 1] + DELIMITER;
      ComponentsConcat(s[..start - 1], DELIMITER);
      if start > 1 {
        SkipDelimitersIs(s', |s'|, |s'|);
        TrimmedComponents(s');
      }
    }
  }

  /** Where the rewriting stands: the part from pos on holds the names kept so far. */
  ghost predicate Rewriting(original: string, path: string, pos: nat, dotdots: nat) {
    && pos <= |path| && Boundary(path[..pos], path[pos..])
    && (0 < pos < |path| ==> !IsDelimiter(path[pos]))
    && (dotdots > 0 && pos > 0 ==> SkipDelimiters(path, pos) > 0)
    && Back(Components(path[..pos]), dotdots, Components(path[pos..])) == Back(Components(original), 0, [])
    && (Rooted(original) && original != "" ==> Rooted(path) && path != "")
    && (!Rooted(original) ==> path == "" || !Rooted(path))
    && (NoDots(Components(original)) ==> path == original && dotdots == 0)
    && (SingleDelimiters(original) ==> SingleDelimiters(path))
  }

  lemma RewritingStarts(original: string)
    ensures Rewriting(original, original, |original|, 0)
  {
    assert original[..|original|] == original && original[|original|..] == "";
    ComponentsNone("");
  }

  /** The last component before pos, and what it leaves. */
  lemma Unfold(path: string, pos: nat)
    requires pos <= |path| && SkipDelimiters(path, pos) > 0
    ensures var end := SkipDelimiters(path, pos);
      var start := SkipName(path, end);
      && start < end && Components(path[..pos]) == Components(path[..start]) + [path[start..end]]
  {
    hide Components;
    var end := SkipDelimiters(path, pos);
    var start := SkipName(path, end);
    ComponentsLast(path[..pos], start, end);
    assert path[..pos][..start] == path[..start] && path[..pos][start..end] == path[start..end];
  }

  /** A component that stays. */
  lemma KeepOne(original: string, path: string, pos: nat)
    requires Rewriting(original, path, pos, 0) && pos > 0
    requires var end := SkipDelimiters(path, pos);
      var start := SkipName(path, end);
      path[start..end] != "." && path[start..end] != ".."
    ensures Rewriting(original, path, SkipName(path, SkipDelimiters(path, pos)), 0)
  {
    hide Components;
    var end := SkipDelimiters(path, pos);
    var start := SkipName(path, end);
    if end == 0 {
      ComponentsNone(path[..pos]);
      ComponentsNone(path[..0]);
      assert path[0..] == path[..pos] + path[pos..];
      ComponentsConcat(path[..pos], path[pos..]);
      assert [] + Components(path[pos..]) == Components(path[pos..]);
      assert path[..0] == "";
    } else {
      Unfold(path, pos);
      BackOne(Components(path[..start]), path[start..end], 0, Components(path[pos..]));
      NameInFront(path, start, end, pos);
    }
  }

  /** A name and the delimiters behind it in front of what is kept. */
  lemma NameInFront(path: string, start: nat, end: nat, pos: nat)
    requires start < end <= pos <= |path| && (start == 0 || IsDelimiter(path[start - 1]))
    requires forall i :: start <= i < end ==> !IsDelimiter(path[i])
    requires forall i :: end <= i < pos ==> IsDelimiter(path[i])
    requires Boundary(path[..pos], path[pos..])
    ensures Components(path[start..]) == [path[start..end]] + Components(path[pos..])
    ensures Boundary(path[..start], path[start..])
  {
    hide Components;
    var name, delims, kept := path[start..end], path[end..pos], Components(path[pos..]);
    assert path[start..] == name + delims + path[pos..];
    ComponentsOfOne(name);
    ComponentsOfOne(delims);
    ComponentsConcat(name, delims);
    ComponentsConcat(name + delims, path[pos..]);
    assert [name] + [] + kept == [name] + kept;
  }

  lemma BackOne(init: seq<string>, name: string, dotdots: nat, kept: seq<string>)
    ensures Back(init + [name], dotdots, kept)
         == if name == "." then Back(init, dotdots, kept)
            else if name == ".." then Back(init, dotdots + 1, kept)
            else if dotdots > 0 then Back(init, dotdots - 1, kept)
            else Back(init, 0, [name] + kept)
  {
    assert (init + [name])[..|init|] == init;
  }

  /** A component that goes, with the delimiters around it; a single delimiter takes its place
      unless it was the first. */
  lemma RemoveOne(original: string, path: string, pos: nat, dotdots: nat)
    requires Rewriting(original, path, pos, dotdots) && pos > 0
    requires var end := SkipDelimiters(path, pos);
      var name := path[SkipName(path, end)..end];
      name == "." || name == ".." || dotdots > 0
    ensures var end := SkipDelimiters(path, pos);
      var start := SkipName(path, end);
      var dotdots' := Counted(path[start..end], dotdots);
      var p := SkipDelimiters(path, start);
      if start == 0 then Rewriting(original, path[pos..], 0, dotdots')
      else p + 1 < pos && Rewriting(original, path[..p] + DELIMITER + path[pos..], if p > 0 then p + 1 else 0, dotdots')
  {
    hide Components;
    hide Back;
    hide NoDots;
    hide SingleDelimiters;
    var end := SkipDelimiters(path, pos);
    var start := SkipName(path, end);
    var name := path[start..end];
    var dotdots' := Counted(name, dotdots);
    Unfold(path, pos);
    BackOne(Components(path[..start]), name, dotdots, Components(path[pos..]));
    NotAllPlain(path, pos, start, end);
    if start == 0 {
      assert path[pos..][0..] == path[pos..] && path[pos..][..0] == path[..0] == "";
      SingleTail(path, pos);
    } else {
      var p := SkipDelimiters(path, start);
      RemoveMiddle(original, path, pos, start, p, dotdots');
    }
  }

  lemma SingleTail(path: string, pos: nat)
    requires pos <= |path|
    ensures SingleDelimiters(path) ==> SingleDelimiters(path[pos..])
  {
  }

  /** A path without dots has no dots at its components. */
  lemma NotAllPlain(path: string, pos: nat, start: nat, end: nat)
    requires start < end <= pos <= |path| && Boundary(path[..pos], path[pos..])
    requires Components(path[..pos]) == Components(path[..start]) + [path[start..end]]
    ensures NoDots(Components(path)) ==> path[start..end] != "." && path[start..end] != ".."
  {
    hide Components;
    ComponentsConcat(path[..pos], path[pos..]);
    assert path == path[..pos] + path[pos..];
    var n := |Components(path[..start])|;
    assert Components(path)[n] == path[start..end];
  }

  lemma RemoveMiddle(original: string, path: string, pos: nat, start: nat, p: nat, dotdots: nat)
    requires 0 < start < pos <= |path| && IsDelimiter(path[start - 1]) && p == SkipDelimiters(path, start)
    requires pos < |path| ==> !IsDelimiter(path[pos])
    requires Back(Components(path[..start]), dotdots, Components(path[pos..])) == Back(Components(original), 0, [])
    requires Rooted(original) && original != "" ==> Rooted(path)
    requires !Rooted(original) ==> !Rooted(path)
    requires !NoDots(Components(original)) && (SingleDelimiters(original) ==> SingleDelimiters(path))
    ensures p + 1 < pos
    ensures Rewriting(original, path[..p] + DELIMITER + path[pos..], if p > 0 then p + 1 else 0, dotdots)
  {
    hide Components;
    hide Back;
    hide NoDots;
    hide SingleDelimiters;
    var path' := path[..p] + DELIMITER + path[pos..];
    assert path[..start] == path[..p] + path[p..start];
    ComponentsConcat(path[..p], path[p..start]);
    ComponentsNone(path[p..start]);
    assert Components(path[..p]) + [] == Components(path[..p]);
    MiddleSingle(path, p, pos);
    if p > 0 {
      MiddleAfterName(path, p, pos);
    } else {
      MiddleAtStart(path, pos);
    }
  }

  lemma MiddleSingle(path: string, p: nat, pos: nat)
    requires p <= pos <= |path| && (p > 0 ==> !IsDelimiter(path[p - 1])) && (pos < |path| ==> !IsDelimiter(path[pos]))
    ensures SingleDelimiters(path) ==> SingleDelimiters(path[..p] + DELIMITER + path[pos..])
  {
  }

  lemma MiddleAfterName(path: string, p: nat, pos: nat)
    requires 0 < p < pos <= |path| && !IsDelimiter(path[p - 1])
    ensures var path' := path[..p] + DELIMITER + path[pos..];
      && Components(path'[..p + 1]) == Components(path[..p]) && path'[p + 1..] == path[pos..]
      && SkipDelimiters(path', p + 1) == p && Boundary(path'[..p + 1], path'[p + 1..])
  {
    hide Components;
    var path' := path[..p] + DELIMITER + path[pos..];
    assert path'[..p + 1] == path[..p] + DELIMITER && path'[p + 1..] == path[pos..];
    ComponentsConcat(path[..p], DELIMITER);
    ComponentsNone(DELIMITER);
    assert Components(path[..p]) + [] == Components(path[..p]);
    SkipDelimitersIs(path', p + 1, p);
  }

  lemma MiddleAtStart(path: string, pos: nat)
    requires pos <= |path|
    ensures var path' := path[..0] + DELIMITER + path[pos..];
      path'[..0] == path[..0] == "" && Components(path'[0..]) == Components(path[pos..])
  {
    hide Components;
    var path' := path[..0] + DELIMITER + path[pos..];
    assert path'[0..] == DELIMITER + path[pos..];
    ComponentsConcat(DELIMITER, path[pos..]);
    ComponentsNone(DELIMITER);
    assert [] + Components(path[pos..]) == Components(path[pos..]);
  }

  lemma RewritingBounds(original: string, path: string, pos: nat, dotdots: nat)
    requires Rewriting(original, path, pos, dotdots)
    ensures pos <= |path|
  {
  }

  /** What the rewriting comes to. */
  lemma RewritingEnds(original: string, path: string, dotdots: nat)
    requires Rewriting(original, path, 0, dotdots)
    ensures match Walk(Components(original))
      case None => dotdots > 0
      case Some(stack) => dotdots == 0 && Components(path) == stack && NoDots(stack)
    ensures Trimmed(path) != "" ==> (Rooted(Trimmed(path)) <==> Rooted(original))
    ensures Components(Trimmed(path)) == Components(path) && Trimmed(Trimmed(path)) == Trimmed(path)
    ensures Components(path) == [] <==> Trimmed(path) == ""
    ensures NoDots(Components(original)) ==> path == original && dotdots == 0
    ensures SingleDelimiters(original) ==> SingleDelimiters(Trimmed(path))
    ensures SingleDelimiters("")
    ensures Components("") == [] && NoDots([]) && Trimmed("") == ""
  {
    assert path[..0] == "" && path[0..] == path;
    ComponentsNone("");
    BackIsWalk(Components(original), 0, []);
    WalkHasNoDots(Components(original));
    TrimmedComponents(path);
  }

  /** Where the rewriting stands: what is still to come leads to the resolved path. */
  ghost predicate Resolving(original: string, path: string, pos: nat, dotdots: nat) {
    && pos <= |path| && (dotdots > 0 && pos > 0 ==> SkipDelimiters(path, pos) > 0)
    && (pos > 0 ==> (Begins(path) <==> Begins(original)))
    && Outcome(Pieces(path[..pos]), Tail(path[..pos]), dotdots, path[pos..], Begins(original)) == Resolved(original)
  }

  /** Names without delimiters between runs of delimiters. */
  ghost predicate WellFormed(pieces: seq<Piece>) {
    forall i :: 0 <= i < |pieces| ==>
      Delimiters(pieces[i].delims) && pieces[i].name != "" && forall c <- pieces[i].name :: !IsDelimiter(c)
  }

  lemma {:induction false} PiecesWellFormed(s: string)
    ensures WellFormed(Pieces(s))
    decreases |s|
  {
    hide Pieces;
    var end := SkipDelimiters(s, |s|);
    if end == 0 {
      PiecesNone(s);
    } else {
      var start := SkipName(s, end);
      PiecesLast(s, start, end);
      PiecesWellFormed(s[..start]);
    }
  }

  lemma {:induction false} ResolveWellFormed(pieces: seq<Piece>, begins: bool)
    requires WellFormed(pieces)
    ensures Resolve(pieces, begins).Some? ==> WellFormed(Resolve(pieces, begins).value)
  {
    if pieces != [] {
      var init, last := pieces[..|pieces| - 1], pieces[|pieces| - 1];
      assert last.name != "" && Delimiters(last.delims);
      ResolveWellFormed(init, begins);
    }
  }

  /** Delimiters behind the last name are trimmed, and nothing else is. */
  lemma RenderTrimmed(pieces: seq<Piece>, d: string)
    requires WellFormed(pieces) && Delimiters(d)
    ensures Trimmed(Render(pieces) + d) == Render(pieces)
  {
    var s := Render(pieces);
    if pieces == [] {
      SkipDelimitersIs(s + d, |s + d|, 0);
    } else {
      var last := pieces[|pieces| - 1];
      assert last.name[|last.name| - 1] in last.name;
      assert s[|s| - 1] == last.name[|last.name| - 1];
      SkipDelimitersIs(s + d, |s + d|, |s|);
    }
  }

  lemma ResolvingStarts(original: string)
    ensures Resolving(original, original, |original|, 0)
  {
    var begins, pieces, tail := Begins(original), Pieces(original), Tail(original);
    PiecesWellFormed(original);
    ResolveWellFormed(pieces, begins);
    hide Pieces;
    hide Resolve;
    hide Trimmed;
    hide WellFormed;
    assert original[..|original|] == original && original[|original|..] == "";
    if Resolve(pieces, begins).Some? {
      var stack := Resolve(pieces, begins).value;
      assert stack[..|stack|] == stack;
      forall d | Delimiters(d) ensures Trimmed(Render(stack) + d + "") == Render(stack) {
        RenderTrimmed(stack, d);
        assert Render(stack) + d + "" == Render(stack) + d;
      }
      assert Delimiters(tail) && Delimiters(DELIMITER) && Delimiters("");
    }
  }

  lemma ResolvingKeep(original: string, path: string, pos: nat)
    requires Resolving(original, path, pos, 0) && pos > 0
    requires var end := SkipDelimiters(path, pos);
      var start := SkipName(path, end);
      path[start..end] != "." && path[start..end] != ".."
    ensures Resolving(original, path, SkipName(path, SkipDelimiters(path, pos)), 0)
  {
    hide Pieces;
    hide Outcome;
    hide Resolved;
    hide SkipDelimiters;
    hide SkipName;
    hide Tail;
    if SkipDelimiters(path, pos) == 0 {
      OutcomeOfLeading(path, pos, Begins(original));
    } else {
      OutcomeOfKeeping(path, pos, Begins(original));
    }
  }

  lemma OutcomeOfLeading(path: string, pos: nat, begins: bool)
    requires pos <= |path| && SkipDelimiters(path, pos) == 0
    ensures SkipName(path, 0) == 0
    ensures Outcome(Pieces(path[..pos]), Tail(path[..pos]), 0, path[pos..], begins)
         == Outcome(Pieces(path[..0]), Tail(path[..0]), 0, path[0..], begins)
  {
    hide Pieces;
    hide Outcome;
    hide Tail;
    PiecesNone(path[..pos]);
    PiecesNone(path[..0]);
    assert path[0..] == path == path[..pos] + path[pos..] && path[..0] == "";
    OutcomeLeading(path[..pos], path[pos..], begins);
  }

  lemma OutcomeOfKeeping(path: string, pos: nat, begins: bool)
    requires pos <= |path| && SkipDelimiters(path, pos) > 0
    requires var end := SkipDelimiters(path, pos);
      !Dots(path[SkipName(path, end)..end])
    ensures var start := SkipName(path, SkipDelimiters(path, pos));
      Outcome(Pieces(path[..pos]), Tail(path[..pos]), 0, path[pos..], begins)
        == Outcome(Pieces(path[..start]), Tail(path[..start]), 0, path[start..], begins)
  {
    hide *;
    UnfoldPieces(path, pos);
    var end := SkipDelimiters(path, pos);
    var start := SkipName(path, end);
    var name, tail := path[start..end], path[end..pos];
    OutcomeKeep(Pieces(path[..start]), Piece(Tail(path[..start]), name), tail, path[pos..], begins);
    assert path[start..] == name + tail + path[pos..];
  }

  lemma OutcomeLeading(delims: string, kept: string, begins: bool)
    ensures Outcome([], delims, 0, kept, begins) == Outcome([], "", 0, delims + kept, begins)
  {
    assert "" + delims + kept == "" + "" + (delims + kept);
  }

  lemma TailUpTo(path: string, pos: nat)
    requires pos <= |path|
    ensures SkipDelimiters(path, pos) <= pos && Tail(path[..pos]) == path[SkipDelimiters(path, pos)..pos]
  {
    SkipDelimitersIs(path[..pos], pos, SkipDelimiters(path, pos));
  }

  /** The last piece before pos, and the delimiters behind it. */
  lemma UnfoldPieces(path: string, pos: nat)
    requires pos <= |path| && SkipDelimiters(path, pos) > 0
    ensures var end := SkipDelimiters(path, pos);
      var start := SkipName(path, end);
      && start < end <= pos && Tail(path[..pos]) == path[end..pos]
      && Pieces(path[..pos]) == Pieces(path[..start]) + [Piece(Tail(path[..start]), path[start..end])]
  {
    hide Pieces;
    hide Tail;
    var end := SkipDelimiters(path, pos);
    var start := SkipName(path, end);
    TailUpTo(path, pos);
    PiecesLast(path[..pos], start, end);
    assert path[..pos][..start] == path[..start] && path[..pos][start..end] == path[start..end];
  }

  /** A component goes: what is still to come afterwards. */
  lemma OutcomeOfRemoving(path: string, pos: nat, dotdots: nat, begins: bool)
    requires pos <= |path| && SkipDelimiters(path, pos) > 0
    requires var end := SkipDelimiters(path, pos);
      Dots(path[SkipName(path, end)..end]) || dotdots > 0
    ensures var end := SkipDelimiters(path, pos);
      var start := SkipName(path, end);
      var dotdots' := Counted(path[start..end], dotdots);
      Outcome(Pieces(path[..pos]), Tail(path[..pos]), dotdots, path[pos..], begins)
        == if Pieces(path[..start]) == []
           then Outcome([], "", dotdots', (if begins then DELIMITER else "") + path[pos..], begins)
           else Outcome(Pieces(path[..start]), DELIMITER, dotdots', path[pos..], begins)
  {
    hide *;
    UnfoldPieces(path, pos);
    var end := SkipDelimiters(path, pos);
    var start := SkipName(path, end);
    OutcomeRemove(Pieces(path[..start]), Piece(Tail(path[..start]), path[start..end]), Tail(path[..pos]),
                  dotdots, path[pos..], begins);
  }

  lemma ResolvingRemove(original: string, path: string, pos: nat, dotdots: nat)
    requires Resolving(original, path, pos, dotdots) && pos > 0
    requires var end := SkipDelimiters(path, pos);
      var name := path[SkipName(path, end)..end];
      Dots(name) || dotdots > 0
    ensures var end := SkipDelimiters(path, pos);
      var start := SkipName(path, end);
      var dotdots' := Counted(path[start..end], dotdots);
      var p := SkipDelimiters(path, start);
      if start == 0 then Resolving(original, path[pos..], 0, dotdots')
      else Resolving(original, path[..p] + DELIMITER + path[pos..], if p > 0 then p + 1 else 0, dotdots')
  {
    hide Pieces;
    hide Outcome;
    hide Resolved;
    hide SkipDelimiters;
    hide SkipName;
    hide Counted;
    hide Tail;
    var end := SkipDelimiters(path, pos);
    var start := SkipName(path, end);
    var p := SkipDelimiters(path, start);
    assert dotdots == 0 ==> |path[start..end]| > 0;
    OutcomeOfRemoving(path, pos, dotdots, Begins(original));
    if p == 0 {
      NothingBefore(path, start, Begins(original), path[pos..]);
    } else {
      RestAfterName(path, start, p, path[pos..]);
    }
  }

  lemma NothingBefore(path: string, start: nat, begins: bool, kept: string)
    requires start < |path| && SkipDelimiters(path, start) == 0 && (start == 0 ==> !IsDelimiter(path[0]))
    requires Begins(path) <==> begins
    ensures Pieces(path[..start]) == [] == Pieces("") && Tail("") == ""
    ensures var rest := if start == 0 then kept else path[..0] + DELIMITER + kept;
      rest[..0] == "" && rest[0..] == rest == (if begins then DELIMITER else "") + kept
  {
    hide Pieces;
    hide Tail;
    assert start > 0 ==> IsDelimiter(path[0]);
    PiecesNone(path[..start]);
    PiecesNone("");
  }

  lemma RestAfterName(path: string, start: nat, p: nat, kept: string)
    requires start <= |path| && p == SkipDelimiters(path, start) > 0
    ensures var rest := path[..p] + DELIMITER + kept;
      && rest[p + 1..] == kept && (Begins(rest) <==> Begins(path)) && SkipDelimiters(rest, p + 1) == p
      && Pieces(rest[..p + 1]) == Pieces(path[..start]) != [] && Tail(rest[..p + 1]) == DELIMITER
  {
    hide Pieces;
    hide Tail;
    hide SkipDelimiters;
    var rest := path[..p] + DELIMITER + kept;
    assert rest[..p + 1] == path[..p] + DELIMITER;
    PiecesUpTo(path, start, p);
    SkipDelimitersIs(rest, p + 1, p);
  }

  /** The pieces up to a component, whichever delimiters follow them. */
  lemma PiecesUpTo(path: string, start: nat, p: nat)
    requires start <= |path| && p == SkipDelimiters(path, start) > 0
    ensures Pieces(path[..p] + DELIMITER) == Pieces(path[..start]) != [] && Tail(path[..p] + DELIMITER) == DELIMITER
  {
    hide Pieces;
    hide SkipDelimiters;
    assert path[..start] == path[..p] + path[p..start];
    PiecesTrail(path[..p], path[p..start]);
    PiecesTrail(path[..p], DELIMITER);
    SkipDelimitersIs(path[..p], p, p);
    UnfoldPieces(path, start);
  }

  lemma ResolvingEnds(original: string, path: string, dotdots: nat)
    requires Resolving(original, path, 0, dotdots)
    ensures Resolved(original) == if dotdots > 0 then "" else Trimmed(path)
  {
    hide Resolved;
    hide Trimmed;
    assert path[..0] == "" && path[0..] == path;
    PiecesNone("");
    ResolveNothing(Begins(original));
    assert "" + "" + path == path;
  }

  method BeforeDelimiters(path: string, end: nat) returns (pos: nat)
    requires end <= |path|
    ensures pos == SkipDelimiters(path, end)
  {
    pos := end;
    while pos != 0 && IsDelimiter(path[pos - 1])
      invariant pos <= end && SkipDelimiters(path, pos) == SkipDelimiters(path, end)
    {
      pos := pos - 1;
    }
  }

  method BeforeName(path: string, end: nat) returns (pos: nat)
    requires end <= |path|
    ensures pos == SkipName(path, end)
  {
    pos := end;
    while pos != 0 && !IsDelimiter(path[pos - 1])
      invariant pos <= end && SkipName(path, pos) == SkipName(path, end)
    {
      pos := pos - 1;
    }
  }

  /** Rewrites the path from the right, dropping dots and as many names as there are two dots. */
  method RemoveRelativePathComponents(original: string) returns (r: string)
    ensures match Walk(Components(original))
      case None => r == ""
      case Some(stack) => Components(r) == stack && (r == "" <==> stack == [])
    ensures Trimmed(r) == r && NoDots(Components(r))
    ensures r != "" ==> (Rooted(r) <==> Rooted(original))
    ensures NoDots(Components(original)) ==> r == Trimmed(original)
    ensures SingleDelimiters(original) ==> SingleDelimiters(r)
    ensures r == Resolved(original)
  {
    hide Resolving;
    hide Resolved;
    hide Components;
    hide Rewriting;
    hide Back;
    hide Walk;
    hide NoDots;
    hide IsDelimiter;
    hide SkipDelimiters;
    hide SkipName;
    RewritingStarts(original);
    ResolvingStarts(original);
    var path := original;
    var pos: nat := |path|;
    var dotdotCount: nat := 0;
    while pos != 0
      invariant Rewriting(original, path, pos, dotdotCount) && Resolving(original, path, pos, dotdotCount)
      decreases pos
    {
      RewritingBounds(original, path, pos, dotdotCount);
      ghost var before, k := path, dotdotCount;
      var componentWithDelimEnd := pos;
      pos := BeforeDelimiters(path, pos);
      var componentEnd := pos;
      pos := BeforeName(path, pos);
      var componentStart := pos;
      var component := path[componentStart..componentEnd];
      var removeThisComponent := false;
      if component == "." {
        removeThisComponent := true;
      } else if component == ".." {
        removeThisComponent := true;
        dotdotCount := dotdotCount + 1;
      } else if dotdotCount != 0 {
        removeThisComponent := true;
        dotdotCount := dotdotCount - 1;
      }
      if removeThisComponent {
        RemoveOne(original, path, componentWithDelimEnd, k);
        ResolvingRemove(original, path, componentWithDelimEnd, k);
        pos := BeforeDelimiters(path, pos);
        if componentStart == 0 {
          path := path[componentWithDelimEnd..];
        } else {
          path := path[..pos] + DELIMITER + path[componentWithDelimEnd..];
        }
        if pos > 0 {
          pos := pos + 1;
        }
      } else {
        KeepOne(original, path, componentWithDelimEnd);
        ResolvingKeep(original, path, componentWithDelimEnd);
      }
    }
    RewritingEnds(original, path, dotdotCount);
    ResolvingEnds(original, path, dotdotCount);
    if dotdotCount > 0 {
      return "";
    }
    pos := |path|;
    pos := BeforeDelimiters(path, pos);
    return path[..pos];
  }

  /** Normalising a normalised path changes nothing. */
  method NormaliseTwice(path: string) returns (once: string, twice: string)
    ensures once == twice
  {
    once := RemoveRelativePathComponents(path);
    twice := RemoveRelativePathComponents(once);
  }
}
