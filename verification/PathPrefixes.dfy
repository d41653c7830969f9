/** Whether one path lies within another: both begin with a delimiter or neither does, and the
    components of the one come first in the other. */
module PathPrefixes {
  import opened Paths

  // ---------------------------------------------------------------------------
  // Prefixes
  // ---------------------------------------------------------------------------

  /** Both begin with a delimiter or neither does, and the prefix's components come first. */
  ghost predicate Within(path: string, prefix: string) {
    (Rooted(path) <==> Rooted(prefix)) && Components(prefix) <= Components(path)
  }

  /** Skips delimiters forwards. */
  function AfterDelimiters(s: string, n: nat): (r: nat)
    requires n <= |s|
    ensures n <= r <= |s| && (forall i :: n <= i < r ==> IsDelimiter(s[i])) && (r == |s| || !IsDelimiter(s[r]))
    decreases |s| - n
  {
    if n == |s| || !IsDelimiter(s[n]) then n else AfterDelimiters(s, n + 1)
  }

  lemma DropDelimiters(s: string, n: nat)
    requires n <= |s|
    ensures Components(s[AfterDelimiters(s, n)..]) == Components(s[n..])
  {
    hide Components;
    var r := AfterDelimiters(s, n);
    assert s[n..] == s[n..r] + s[r..];
    ComponentsNone(s[n..r]);
    ComponentsConcat(s[n..r], s[r..]);
    assert [] + Components(s[r..]) == Components(s[r..]);
  }

  /** The name at the front. */
  lemma FirstComponent(s: string, n: nat, len: nat)
    requires 0 < len && n + len <= |s| && Rooted(s[n + len..])
    requires forall i :: n <= i < n + len ==> !IsDelimiter(s[i])
    ensures Components(s[n..]) == [s[n..n + len]] + Components(s[n + len..])
  {
    hide Components;
    var name := s[n..n + len];
    assert s[n..] == name + s[n + len..];
    forall i | 0 <= i < |name| ensures !IsDelimiter(name[i]) {}
    ComponentsOfOne(name);
    ComponentsConcat(name, s[n + len..]);
  }

  /** A name that is longer in one path than in the other. */
  lemma FirstComponentLonger(s: string, n: nat, len: nat)
    requires 0 < len && n + len < |s| && (forall i :: n <= i <= n + len ==> !IsDelimiter(s[i]))
    ensures Components(s[n..]) != [] && |Components(s[n..])[0]| > len
    decreases |s| - n - len
  {
    if n + len + 1 == |s| || IsDelimiter(s[n + len + 1]) {
      FirstComponent(s, n, len + 1);
    } else {
      FirstComponentLonger(s, n, len + 1);
    }
  }

  /** Equal stretches of two names can be skipped if a name ends behind one of them. */
  lemma SkipEqual(path: string, i: nat, prefix: string, j: nat, len: nat)
    requires 0 < len && i + len <= |path| && j + len <= |prefix|
    requires path[i..i + len] == prefix[j..j + len]
    requires forall k :: i <= k < i + len ==> !IsDelimiter(path[k])
    requires forall k :: j <= k < j + len ==> !IsDelimiter(prefix[k])
    requires Rooted(path[i + len..]) || Rooted(prefix[j + len..])
    ensures Within(path[i..], prefix[j..]) <==> Within(path[i + len..], prefix[j + len..])
  {
    hide Components;
    if !Rooted(path[i + len..]) {
      FirstComponentLonger(path, i, len);
      FirstComponent(prefix, j, len);
    } else if !Rooted(prefix[j + len..]) {
      FirstComponentLonger(prefix, j, len);
      FirstComponent(path, i, len);
    } else {
      FirstComponent(path, i, len);
      FirstComponent(prefix, j, len);
      PrefixOfRest(path[i..i + len], Components(path[i + len..]), Components(prefix[j + len..]));
    }
  }

  lemma PrefixOfRest(name: string, a: seq<string>, b: seq<string>)
    ensures [name] + b <= [name] + a <==> b <= a
  {
    if [name] + b <= [name] + a {
      assert forall k :: 0 <= k < |b| ==> b[k] == ([name] + b)[k + 1] == ([name] + a)[k + 1] == a[k];
    }
  }

  lemma DifferentNames(path: string, i: nat, prefix: string, j: nat, len: nat)
    requires i + len < |path| && j + len < |prefix|
    requires forall k :: i <= k <= i + len ==> !IsDelimiter(path[k])
    requires forall k :: j <= k <= j + len ==> !IsDelimiter(prefix[k])
    requires path[i + len] != prefix[j + len]
    ensures !Within(path[i..], prefix[j..])
  {
    hide Components;
    var a := FirstName(path, i, len);
    var b := FirstName(prefix, j, len);
    assert Components(path[i..])[0][len] != Components(prefix[j..])[0][len];
  }

  lemma FirstName(s: string, n: nat, len: nat) returns (end: nat)
    requires n + len < |s| && forall k :: n <= k <= n + len ==> !IsDelimiter(s[k])
    ensures n + len < end <= |s| && Components(s[n..]) != [] && Components(s[n..])[0] == s[n..end]
    decreases |s| - n - len
  {
    if n + len + 1 == |s| || IsDelimiter(s[n + len + 1]) {
      FirstComponent(s, n, len + 1);
      end := n + len + 1;
    } else {
      end := FirstName(s, n, len + 1);
    }
  }

  method SkipForward(s: string, start: nat) returns (pos: nat)
    requires start <= |s|
    ensures pos == AfterDelimiters(s, start)
  {
    pos := start;
    while pos < |s| && IsDelimiter(s[pos])
      invariant pos <= |s| && AfterDelimiters(s, pos) == AfterDelimiters(s, start)
    {
      pos := pos + 1;
    }
  }

  /** Compares two names up to where one of them ends. */
  method CompareNames(path: string, i: nat, prefix: string, j: nat) returns (same: bool, len: nat)
    requires i < |path| && j < |prefix| && !IsDelimiter(path[i]) && !IsDelimiter(prefix[j])
    ensures !same ==> !Within(path[i..], prefix[j..])
    ensures same ==>
      && 0 < len && i + len <= |path| && j + len <= |prefix|
      && (Within(path[i..], prefix[j..]) <==> Within(path[i + len..], prefix[j + len..]))
  {
    hide Within;
    len := 0;
    while true
      invariant i + len < |path| && j + len < |prefix|
      invariant path[i..i + len] == prefix[j..j + len]
      invariant forall k :: i <= k <= i + len ==> !IsDelimiter(path[k])
      invariant forall k :: j <= k <= j + len ==> !IsDelimiter(prefix[k])
      decreases |path| - len
    {
      if path[i + len] != prefix[j + len] {
        DifferentNames(path, i, prefix, j, len);
        return false, len;
      }
      assert path[i..i + len + 1] == path[i..i + len] + [path[i + len]];
      assert prefix[j..j + len + 1] == prefix[j..j + len] + [prefix[j + len]];
      len := len + 1;
      if !(i + len < |path| && !IsDelimiter(path[i + len]) && j + len < |prefix| && !IsDelimiter(prefix[j + len])) {
        SkipEqual(path, i, prefix, j, len);
        return true, len;
      }
    }
  }

  lemma SkipDelimitersInBoth(path: string, i: nat, prefix: string, j: nat)
    requires i <= |path| && j <= |prefix| && Rooted(path[i..]) && Rooted(prefix[j..])
    ensures var i', j' := AfterDelimiters(path, i), AfterDelimiters(prefix, j);
      && (j' == |prefix| ==> Within(path[i..], prefix[j..]))
      && (j' < |prefix| && i' == |path| ==> !Within(path[i..], prefix[j..]))
      && (j' < |prefix| && i' < |path| ==> (Within(path[i..], prefix[j..]) <==> Within(path[i'..], prefix[j'..])))
  {
    hide Components;
    DropDelimiters(path, i);
    DropDelimiters(prefix, j);
    var i', j' := AfterDelimiters(path, i), AfterDelimiters(prefix, j);
    ComponentsNone("");
    assert path[|path|..] == "" && prefix[|prefix|..] == "";
    if j' < |prefix| {
      FirstComponentExists(prefix, j');
    }
  }

  lemma FirstComponentExists(s: string, n: nat)
    requires n < |s| && !IsDelimiter(s[n])
    ensures Components(s[n..]) != []
  {
    var end := FirstName(s, n, 0);
  }

  /** Whether a path lies within another; only the empty path lies within the empty one. */
  method PathStartsWith(path: string, prefix: string) returns (starts: bool)
    ensures starts <==> if prefix == "" then path == "" else Within(path, prefix)
  {
    hide Within;
    if prefix == "" {
      return path == "";
    }
    var pathPos: nat, prefixPos: nat := 0, 0;
    assert path[0..] == path && prefix[0..] == prefix;
    while true
      invariant pathPos <= |path| && prefixPos <= |prefix|
      invariant Within(path, prefix) <==> Within(path[pathPos..], prefix[prefixPos..])
      decreases |prefix| - prefixPos
    {
      var delim1 := pathPos == |path| || IsDelimiter(path[pathPos]);
      var delim2 := prefixPos == |prefix| || IsDelimiter(prefix[prefixPos]);
      if delim1 != delim2 {
        RootedDiffers(path[pathPos..], prefix[prefixPos..]);
        return false;
      }
      if delim1 {
        SkipDelimitersInBoth(path, pathPos, prefix, prefixPos);
        pathPos := SkipForward(path, pathPos);
        prefixPos := SkipForward(prefix, prefixPos);
        if prefixPos == |prefix| {
          return true;
        }
        if pathPos == |path| {
          return false;
        }
      } else {
        var same, len := CompareNames(path, pathPos, prefix, prefixPos);
        if !same {
          return false;
        }
        pathPos := pathPos + len;
        prefixPos := prefixPos + len;
      }
    }
  }

  lemma RootedDiffers(path: string, prefix: string)
    requires Rooted(path) != Rooted(prefix)
    ensures !Within(path, prefix)
  {
  }
}
