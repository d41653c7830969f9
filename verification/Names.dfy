/** Item names as the crafting code handles them: the order std::sort uses, the sorted merge
    of std::set_difference, and re-orderings of lists of names.  A sorted list is determined by
    its contents, so sorting is a function of the bag of names. */
module Names {

  // ---------------------------------------------------------------------------
  // Lexicographic order
  // ---------------------------------------------------------------------------

  predicate Le(a: string, b: string) {
    if a == [] then true
    else if b == [] then false
    else a[0] < b[0] || (a[0] == b[0] && Le(a[1..], b[1..]))
  }

  predicate Less(a: string, b: string) {
    Le(a, b) && a != b
  }

  lemma {:induction false} LeReflexive(a: string)
    ensures Le(a, a)
  {
    if a != [] { LeReflexive(a[1..]); }
  }

  lemma {:induction false} LeTotal(a: string, b: string)
    ensures Le(a, b) || Le(b, a)
  {
    if a != [] && b != [] { LeTotal(a[1..], b[1..]); }
  }

  lemma {:induction false} LeAntisymmetric(a: string, b: string)
    requires Le(a, b) && Le(b, a)
    ensures a == b
  {
    if a != [] && b != [] {
      LeAntisymmetric(a[1..], b[1..]);
      assert a == [a[0]] + a[1..] && b == [b[0]] + b[1..];
    }
  }

  lemma {:induction false} LeTransitive(a: string, b: string, c: string)
    requires Le(a, b) && Le(b, c)
    ensures Le(a, c)
  {
    if a != [] && b != [] && c != [] && a[0] == b[0] == c[0] {
      LeTransitive(a[1..], b[1..], c[1..]);
    }
  }

  // ---------------------------------------------------------------------------
  // Sorted lists
  // ---------------------------------------------------------------------------

  ghost predicate IsSorted(s: seq<string>) {
    forall i, j :: 0 <= i < j < |s| ==> Le(s[i], s[j])
  }

  function Insert(x: string, s: seq<string>): (r: seq<string>)
    ensures multiset(r) == multiset(s) + multiset{x}
  {
    if s == [] then [x]
    else if Le(x, s[0]) then [x] + s
    else
      assert s == [s[0]] + s[1..];
      [s[0]] + Insert(x, s[1..])
  }

  lemma {:induction false} InsertSorted(x: string, s: seq<string>)
    requires IsSorted(s)
    ensures IsSorted(Insert(x, s))
  {
    if s == [] {
    } else if Le(x, s[0]) {
      forall j | 0 <= j < |s| ensures Le(x, s[j]) {
        if j > 0 { LeTransitive(x, s[0], s[j]); }
      }
    } else {
      LeTotal(x, s[0]);
      InsertSorted(x, s[1..]);
      var r := Insert(x, s[1..]);
      forall j | 0 <= j < |r| ensures Le(s[0], r[j]) {
        assert r[j] in multiset(s[1..]) + multiset{x};
        LeReflexive(x);
      }
    }
  }

  /** std::sort on a list of names. */
  function Sort(s: seq<string>): (r: seq<string>)
    ensures IsSorted(r) && multiset(r) == multiset(s)
  {
    if s == [] then []
    else
      InsertSorted(s[0], Sort(s[1..]));
      assert s == [s[0]] + s[1..];
      Insert(s[0], Sort(s[1..]))
  }

  lemma SortLength(s: seq<string>)
    ensures |Sort(s)| == |s|
  {
    assert |multiset(Sort(s))| == |multiset(s)|;
  }

  lemma TailContents<T>(s: seq<T>)
    requires s != []
    ensures multiset(s) == multiset{s[0]} + multiset(s[1..])
  {
    assert s == [s[0]] + s[1..];
  }

  lemma Cancel<T>(x: T, a: multiset<T>, b: multiset<T>)
    requires multiset{x} + a == multiset{x} + b
    ensures a == b
  {
    forall e ensures a[e] == b[e] {
      assert (multiset{x} + a)[e] == (multiset{x} + b)[e];
    }
  }

  lemma DifferenceLaws<T>(x: T, a: multiset<T>, b: multiset<T>)
    ensures (multiset{x} + a) - (multiset{x} + b) == a - b
    ensures x !in b ==> (multiset{x} + a) - b == multiset{x} + (a - b)
    ensures x !in a ==> a - (multiset{x} + b) == a - b
  {
  }

  lemma FirstIsLeast(a: seq<string>, x: string)
    requires IsSorted(a) && a != [] && x in multiset(a)
    ensures Le(a[0], x)
  {
    var j :| 0 <= j < |a| && a[j] == x;
    LeReflexive(a[0]);
  }

  /** A sorted list is determined by what it contains. */
  lemma {:induction false} SortedUnique(a: seq<string>, b: seq<string>)
    requires IsSorted(a) && IsSorted(b) && multiset(a) == multiset(b)
    ensures a == b
  {
    assert |multiset(a)| == |a| && |multiset(b)| == |b|;
    if a != [] {
      FirstIsLeast(a, b[0]);
      FirstIsLeast(b, a[0]);
      LeAntisymmetric(a[0], b[0]);
      TailContents(a);
      TailContents(b);
      Cancel(a[0], multiset(a[1..]), multiset(b[1..]));
      hide Le;
      SortedUnique(a[1..], b[1..]);
      assert a == [a[0]] + a[1..] && b == [b[0]] + b[1..];
    }
  }

  // ---------------------------------------------------------------------------
  // std::set_difference
  // ---------------------------------------------------------------------------

  /** What is left of a difference of two lists after looking at their heads. */
  lemma DifferenceStep(a: seq<string>, b: seq<string>)
    requires IsSorted(a) && IsSorted(b) && a != [] && b != []
    ensures Less(a[0], b[0]) ==> multiset(a) - multiset(b) == multiset{a[0]} + (multiset(a[1..]) - multiset(b))
    ensures a[0] == b[0] ==> multiset(a) - multiset(b) == multiset(a[1..]) - multiset(b[1..])
    ensures Less(b[0], a[0]) ==> multiset(a) - multiset(b) == multiset(a) - multiset(b[1..])
    ensures Less(a[0], b[0]) || a[0] == b[0] || Less(b[0], a[0])
  {
    LeTotal(a[0], b[0]);
    if Le(a[0], b[0]) && Le(b[0], a[0]) {
      LeAntisymmetric(a[0], b[0]);
    }
    TailContents(a);
    TailContents(b);
    if a[0] == b[0] {
      DifferenceLaws(a[0], multiset(a[1..]), multiset(b[1..]));
    } else if Less(a[0], b[0]) {
      DifferenceLaws(a[0], multiset(a[1..]), multiset(b));
    } else if Less(b[0], a[0]) {
      DifferenceLaws(b[0], multiset(a), multiset(b[1..]));
    }
  }

  /** The merge of two sorted ranges that copies what the first has in excess. */
  method SetDifference(a: seq<string>, b: seq<string>) returns (r: seq<string>)
    requires IsSorted(a) && IsSorted(b)
    ensures multiset(r) == multiset(a) - multiset(b)
  {
    r := [];
    var i, j := 0, 0;
    while i < |a| && j < |b|
      invariant 0 <= i <= |a| && 0 <= j <= |b|
      invariant multiset(r) + (multiset(a[i..]) - multiset(b[j..])) == multiset(a) - multiset(b)
      decreases |a| - i + |b| - j
    {
      DifferenceStep(a[i..], b[j..]);
      hide Le;
      if Less(a[i], b[j]) {
        r := r + [a[i]];
        i := i + 1;
      } else {
        if !Less(b[j], a[i]) {
          i := i + 1;
        }
        j := j + 1;
      }
    }
    r := r + a[i..];
  }

  // ---------------------------------------------------------------------------
  // Re-orderings
  // ---------------------------------------------------------------------------

  /** p lists every index below n exactly once. */
  ghost predicate Permutation(p: seq<nat>, n: nat) {
    && |p| == n
    && (forall i :: 0 <= i < n ==> p[i] < n)
    && (forall i, j :: 0 <= i < j < n ==> p[i] != p[j])
  }

  ghost function Reordered<T>(s: seq<T>, p: seq<nat>): (r: seq<T>)
    requires forall i :: 0 <= i < |p| ==> p[i] < |s|
    ensures |r| == |p| && forall i :: 0 <= i < |p| ==> r[i] == s[p[i]]
  {
    seq(|p|, i requires 0 <= i < |p| => s[p[i]])
  }

  ghost function Without<T>(s: seq<T>, j: nat): (r: seq<T>)
    requires j < |s|
    ensures multiset(s) == multiset{s[j]} + multiset(r)
    ensures |r| == |s| - 1
    ensures forall i :: 0 <= i < |r| ==> r[i] == if i < j then s[i] else s[i + 1]
  {
    assert s == s[..j] + [s[j]] + s[j + 1..];
    s[..j] + s[j + 1..]
  }

  /** A permutation without its last index j; the indices above j close the gap. */
  ghost function WithoutLast(p: seq<nat>): (q: seq<nat>)
    requires p != [] && Permutation(p, |p|)
    ensures |q| == |p| - 1
    ensures forall i :: 0 <= i < |q| ==> q[i] == if p[i] < p[|p| - 1] then p[i] else p[i] - 1
  {
    var n := |p| - 1;
    seq(n, i requires 0 <= i < n => if p[i] < p[n] then p[i] else if p[i] > 0 then p[i] - 1 else 0)
  }

  lemma WithoutLastPermutes<T>(s: seq<T>, p: seq<nat>)
    requires p != [] && Permutation(p, |s|)
    ensures Permutation(WithoutLast(p), |s| - 1)
    ensures Reordered(s, p) == Reordered(Without(s, p[|p| - 1]), WithoutLast(p)) + [s[p[|p| - 1]]]
  {
    var n := |s| - 1;
    var j, q := p[n], WithoutLast(p);
    forall i | 0 <= i < n ensures p[i] != j && q[i] < n {}
  }

  lemma {:induction false} ReorderedSameContents<T>(s: seq<T>, p: seq<nat>)
    requires Permutation(p, |s|)
    ensures multiset(Reordered(s, p)) == multiset(s)
  {
    if s != [] {
      var n := |s| - 1;
      var j := p[n];
      var q := WithoutLast(p);
      WithoutLastPermutes(s, p);
      hide Permutation;
      ReorderedSameContents(Without(s, j), q);
    }
  }

  /** Puts index j behind a permutation of the other indices. */
  ghost function WithLast(q: seq<nat>, j: nat): (p: seq<nat>)
    ensures |p| == |q| + 1 && p[|q|] == j
    ensures forall i :: 0 <= i < |q| ==> p[i] == if q[i] < j then q[i] else q[i] + 1
  {
    seq(|q|, i requires 0 <= i < |q| => if q[i] < j then q[i] else q[i] + 1) + [j]
  }

  lemma WithLastPermutes<T>(s: seq<T>, q: seq<nat>, j: nat)
    requires j < |s| && Permutation(q, |s| - 1)
    ensures Permutation(WithLast(q, j), |s|)
    ensures Reordered(s, WithLast(q, j)) == Reordered(Without(s, j), q) + [s[j]]
  {
  }

  lemma SameContentsWithout<T>(r: seq<T>, i: nat, s: seq<T>, j: nat)
    requires multiset(r) == multiset(s) && i < |r| && j < |s| && r[i] == s[j]
    ensures multiset(Without(r, i)) == multiset(Without(s, j))
    ensures i == |r| - 1 ==> r == Without(r, i) + [s[j]]
  {
    Cancel(r[i], multiset(Without(r, i)), multiset(Without(s, j)));
  }

  lemma {:induction false} SameContentsReordered<T>(r: seq<T>, s: seq<T>) returns (p: seq<nat>)
    requires multiset(r) == multiset(s)
    ensures Permutation(p, |s|) && r == Reordered(s, p)
  {
    assert |multiset(r)| == |multiset(s)|;
    if r == [] {
      p := [];
    } else {
      var x := r[|r| - 1];
      assert x in multiset(s);
      var j :| 0 <= j < |s| && s[j] == x;
      SameContentsWithout(r, |r| - 1, s, j);
      var q := SameContentsReordered(Without(r, |r| - 1), Without(s, j));
      WithLastPermutes(s, q, j);
      p := WithLast(q, j);
    }
  }
}
