/** Small shared vocabulary: results, permutations, random choices, and sums over maps. */
module Common {

  datatype Option<+T> = None | Some(value: T)

  datatype StatusCode =
    | Ok | InvalidArgument | NotFound | AlreadyExists | ResourceExhausted
    | FailedPrecondition | Internal | Unimplemented | Unknown

  // ----- random choices -----

  /** A uniform draw from [lo, hi), and lo when that range is empty; `pick` is the random source. */
  function UniformHalfOpen(lo: int, hi: int, pick: nat): (r: int)
    ensures lo < hi ==> lo <= r < hi
    ensures lo >= hi ==> r == lo
  {
    if lo < hi then lo + pick % (hi - lo) else lo
  }

  lemma PickInRange(pick: nat, width: nat)
    requires pick < width
    ensures pick % width == pick
  {
  }

  /** A uniform draw from [lo, hi], and lo when that range is empty. */
  function UniformClosed(lo: int, hi: int, pick: nat): (r: int)
    ensures lo <= hi ==> lo <= r <= hi
    ensures lo > hi ==> r == lo
  {
    UniformHalfOpen(lo, hi + 1, pick)
  }

  function Max(a: int, b: int): int
  {
    if a > b then a else b
  }

  // ----- permutations -----

  predicate Permutation<T(==)>(a: seq<T>, b: seq<T>)
  {
    multiset(a) == multiset(b)
  }

  lemma PermutationMembers<T>(a: seq<T>, b: seq<T>)
    requires Permutation(a, b)
    ensures |a| == |b|
    ensures forall x :: x in a <==> x in b
  {
    assert |multiset(a)| == |a| && |multiset(b)| == |b|;
    forall x ensures x in a <==> x in b {
      assert x in a <==> x in multiset(a);
      assert x in b <==> x in multiset(b);
    }
  }

  /** Removing the same element from two permutations leaves permutations. */
  lemma PermutationRemove<T>(a: seq<T>, b: seq<T>, i: nat, j: nat)
    requires Permutation(a, b)
    requires i < |a| && j < |b| && a[i] == b[j]
    ensures Permutation(a[..i] + a[i + 1..], b[..j] + b[j + 1..])
  {
    RemoveAt(a, i);
    RemoveAt(b, j);
  }

  lemma RemoveAt<T>(a: seq<T>, i: nat)
    requires i < |a|
    ensures multiset(a[..i] + a[i + 1..]) == multiset(a) - multiset{a[i]}
    ensures a[i] in multiset(a)
  {
    assert a == a[..i] + [a[i]] + a[i + 1..];
    assert multiset(a) == multiset(a[..i]) + multiset([a[i]]) + multiset(a[i + 1..]);
  }

  /** Where the head of one permutation sits in the other, and that the rests are permutations. */
  lemma PermutationStep<T>(a: seq<T>, b: seq<T>) returns (j: nat)
    requires Permutation(a, b) && a != []
    ensures j < |b| && b[j] == a[0] && Permutation(a[1..], b[..j] + b[j + 1..])
  {
    PermutationMembers(a, b);
    assert a[0] in b;
    j :| 0 <= j < |b| && b[j] == a[0];
    PermutationRemove(a, b, 0, j);
    assert a[..0] + a[1..] == a[1..];
  }

  /** The elements that satisfy f, in order. */
  function Filter<T>(f: T -> bool, xs: seq<T>): seq<T>
  {
    if xs == [] then []
    else (if f(xs[0]) then [xs[0]] else []) + Filter(f, xs[1..])
  }

  lemma {:induction false} FilterMultiset<T>(f: T -> bool, xs: seq<T>, x: T)
    ensures multiset(Filter(f, xs))[x] == if f(x) then multiset(xs)[x] else 0
  {
    if xs != [] {
      FilterMultiset(f, xs[1..], x);
      assert xs == [xs[0]] + xs[1..];
      assert multiset(xs) == multiset{xs[0]} + multiset(xs[1..]);
    }
  }

  lemma {:induction false} FilterPermutes<T>(f: T -> bool, a: seq<T>, b: seq<T>)
    requires Permutation(a, b)
    ensures Permutation(Filter(f, a), Filter(f, b))
    decreases |a|
  {
    if a == [] {
      assert |multiset(b)| == 0;
    } else {
      var j := PermutationStep(a, b);
      FilterPermutes(f, a[1..], b[..j] + b[j + 1..]);
      FilterWithout(f, b, j);
    }
  }

  lemma FilterHead<T>(f: T -> bool, x: T, xs: seq<T>)
    ensures Filter(f, [x] + xs) == (if f(x) then [x] else []) + Filter(f, xs)
  {
  }

  lemma FilterPair<T>(f: T -> bool, x: T, y: T)
    ensures Filter(f, [x, y]) == (if f(x) then [x] else []) + (if f(y) then [y] else [])
  {
    assert [x, y] == [x] + [y] && [y] == [y] + [];
    FilterHead(f, x, [y]);
    FilterHead(f, y, []);
  }

  lemma FilterWithout<T>(f: T -> bool, xs: seq<T>, j: nat)
    requires j < |xs|
    ensures multiset(Filter(f, xs))
            == multiset(Filter(f, xs[..j] + xs[j + 1..])) + (if f(xs[j]) then multiset{xs[j]} else multiset{})
  {
    var a, x, b := xs[..j], xs[j], xs[j + 1..];
    assert xs == a + ([x] + b);
    FilterConcat(f, a, [x] + b);
    FilterConcat(f, a, b);
    FilterHead(f, x, b);
    MiddleElements(Filter(f, a), if f(x) then [x] else [], Filter(f, b));
  }

  lemma MiddleElements<T>(a: seq<T>, b: seq<T>, c: seq<T>)
    ensures multiset(a + (b + c)) == multiset(a + c) + multiset(b)
  {
  }

  lemma FilterMembers<T>(f: T -> bool, xs: seq<T>)
    ensures forall x :: x in Filter(f, xs) <==> x in xs && f(x)
  {
    forall x ensures x in Filter(f, xs) <==> x in xs && f(x) {
      FilterMultiset(f, xs, x);
      assert x in Filter(f, xs) <==> x in multiset(Filter(f, xs));
      assert x in xs <==> x in multiset(xs);
    }
  }

  lemma {:induction false} FilterConcat<T>(f: T -> bool, a: seq<T>, b: seq<T>)
    ensures Filter(f, a + b) == Filter(f, a) + Filter(f, b)
  {
    if a == [] {
      assert a + b == b;
    } else {
      var x, rest := a[0], a[1..];
      FilterConcat(f, rest, b);
      assert a == [x] + rest;
      Associates([x], rest, b);
      FilterHead(f, x, rest);
      FilterHead(f, x, rest + b);
      Associates(if f(x) then [x] else [], Filter(f, rest), Filter(f, b));
    }
  }

  lemma Associates<T>(a: seq<T>, b: seq<T>, c: seq<T>)
    ensures a + b + c == a + (b + c)
  {
  }

  /** A filter of a filter. */
  lemma {:induction false} FilterBoth<T>(f: T -> bool, g: T -> bool, h: T -> bool, xs: seq<T>)
    requires forall x :: h(x) <==> f(x) && g(x)
    ensures Filter(f, Filter(g, xs)) == Filter(h, xs)
  {
    if xs != [] {
      var rest := Filter(g, xs[1..]);
      FilterBoth(f, g, h, xs[1..]);
      if g(xs[0]) {
        assert Filter(g, xs) == [xs[0]] + rest;
        FilterHead(f, xs[0], rest);
      } else {
        assert Filter(g, xs) == rest;
      }
    }
  }

  function Positions<T>(f: T -> bool, xs: seq<T>): set<nat>
  {
    set i | 0 <= i < |xs| && f(xs[i])
  }

  /** How many elements a filter keeps, by their positions. */
  lemma {:induction false} FilterCount<T>(f: T -> bool, xs: seq<T>)
    ensures |Filter(f, xs)| == |Positions(f, xs)|
  {
    if xs == [] {
      assert Positions(f, xs) == {};
    } else {
      var n := |xs| - 1;
      var init, last := xs[..n], xs[n];
      FilterCount(f, init);
      assert xs == init + [last];
      FilterSnoc(f, init, last);
      LastPosition(f, init, last);
    }
  }

  lemma FilterLast<T>(f: T -> bool, x: T)
    ensures Filter(f, [x]) == if f(x) then [x] else []
  {
    assert [x] == [x] + [];
    FilterHead(f, x, []);
  }

  lemma FilterSnoc<T>(f: T -> bool, init: seq<T>, last: T)
    ensures Filter(f, init + [last]) == Filter(f, init) + (if f(last) then [last] else [])
  {
    FilterConcat(f, init, [last]);
    FilterLast(f, last);
  }

  lemma LastPosition<T>(f: T -> bool, init: seq<T>, last: T)
    ensures |Positions(f, init + [last])| == |Positions(f, init)| + (if f(last) then 1 else 0)
  {
    var n := |init|;
    assert Positions(f, init + [last]) == Positions(f, init) + (if f(last) then {n} else {});
  }

  lemma {:induction false} FilterAll<T>(f: T -> bool, xs: seq<T>)
    ensures (forall x :: x in xs ==> f(x)) ==> Filter(f, xs) == xs
    ensures (forall x :: x in xs ==> !f(x)) ==> Filter(f, xs) == []
  {
    if xs != [] {
      FilterAll(f, xs[1..]);
      assert xs[0] in xs && forall x :: x in xs[1..] ==> x in xs;
    }
  }

  function MapSeq<A, B>(f: A -> B, xs: seq<A>): (ys: seq<B>)
    ensures |ys| == |xs| && forall i :: 0 <= i < |xs| ==> ys[i] == f(xs[i])
  {
    seq(|xs|, i requires 0 <= i < |xs| => f(xs[i]))
  }

  lemma {:induction false} MapPermutes<A, B>(f: A -> B, a: seq<A>, b: seq<A>)
    requires Permutation(a, b)
    ensures Permutation(MapSeq(f, a), MapSeq(f, b))
    decreases |a|
  {
    if a == [] {
      assert |multiset(b)| == 0;
    } else {
      var j := PermutationStep(a, b);
      var b' := b[..j] + b[j + 1..];
      MapPermutes(f, a[1..], b');
      var zs := MapSeq(f, b');
      assert MapSeq(f, a) == [f(a[0])] + MapSeq(f, a[1..]);
      assert MapSeq(f, b) == zs[..j] + [f(a[0])] + zs[j..];
      InsertedAt(zs, j, f(a[0]));
    }
  }

  lemma InsertedAt<T>(xs: seq<T>, j: nat, x: T)
    requires j <= |xs|
    ensures multiset(xs[..j] + [x] + xs[j..]) == multiset(xs) + multiset{x}
    ensures j == 0 ==> xs[..j] + [x] + xs[j..] == [x] + xs
  {
    assert xs == xs[..j] + xs[j..];
  }

  // ----- multiplicity -----

  /** An element that stands at one position only. */
  lemma OnceInMultiset<T>(s: seq<T>, i: nat)
    requires i < |s| && forall j :: 0 <= j < |s| && j != i ==> s[j] != s[i]
    ensures multiset(s)[s[i]] == 1
  {
    assert s == s[..i] + [s[i]] + s[i + 1..];
    assert s[i] !in s[..i] && s[i] !in s[i + 1..];
  }

  lemma TwiceInMultiset<T>(s: seq<T>, i: nat, j: nat)
    requires i < j < |s| && s[i] == s[j]
    ensures multiset(s)[s[i]] >= 2
  {
    assert s == s[..j] + s[j..];
    assert s[i] in s[..j] && s[j] in s[j..];
  }

  // ----- sums and maxima over maps -----

  method PickElement<T>(s: set<T>) returns (x: T)
    requires s != {}
    ensures x in s
  {
    x :| x in s;
  }

  ghost function SumOver<K, V>(m: map<K, V>, f: V -> int): int
    decreases |m|
  {
    if m == map[] then 0
    else
      var k :| k in m;
      f(m[k]) + SumOver(m - {k}, f)
  }

  lemma PickKey<K, V>(m: map<K, V>) returns (k: K)
    requires m != map[]
    ensures k in m
  {
    k :| k in m;
  }

  lemma {:induction false} SumRemove<K, V>(m: map<K, V>, f: V -> int, k: K)
    requires k in m
    ensures SumOver(m, f) == f(m[k]) + SumOver(m - {k}, f)
    decreases |m|
  {
    var p :| p in m && SumOver(m, f) == f(m[p]) + SumOver(m - {p}, f);
    if p != k {
      SumRemove(m - {p}, f, k);
      assert m - {p} - {k} == m - {k} - {p};
      SumRemove(m - {k}, f, p);
    }
  }

  lemma {:induction false} SumOfZeros<K, V>(m: map<K, V>, f: V -> int)
    requires forall k :: k in m ==> f(m[k]) == 0
    ensures SumOver(m, f) == 0
    decreases |m|
  {
    if m != map[] {
      var p :| p in m && SumOver(m, f) == f(m[p]) + SumOver(m - {p}, f);
      SumOfZeros(m - {p}, f);
    }
  }

  lemma SumUpdate<K, V>(m: map<K, V>, f: V -> int, k: K, v: V)
    ensures SumOver(m[k := v], f) == SumOver(m - {k}, f) + f(v)
  {
    SumRemove(m[k := v], f, k);
    assert m[k := v] - {k} == m - {k};
  }

  lemma RemoveAbsent<K, V>(m: map<K, V>, k: K)
    requires k !in m
    ensures m - {k} == m
  {
  }

  lemma SizeRemove<K, V>(m: map<K, V>, k: K)
    requires k in m
    ensures |m - {k}| == |m| - 1
  {
  }

  /** The largest value of f over a map, and 0 for the empty map. */
  ghost function MaxOver<K, V>(m: map<K, V>, f: V -> int): int
    decreases |m|
  {
    if m == map[] then 0
    else
      var k :| k in m;
      Max(f(m[k]), MaxOver(m - {k}, f))
  }

  lemma MaxPick<K, V>(m: map<K, V>, f: V -> int) returns (p: K)
    requires m != map[]
    ensures p in m && MaxOver(m, f) == Max(f(m[p]), MaxOver(m - {p}, f))
  {
    p :| p in m && MaxOver(m, f) == Max(f(m[p]), MaxOver(m - {p}, f));
  }

  lemma {:induction false} MaxRemove<K, V>(m: map<K, V>, f: V -> int, k: K)
    requires k in m
    ensures MaxOver(m, f) == Max(f(m[k]), MaxOver(m - {k}, f))
    decreases |m|
  {
    var p := MaxPick(m, f);
    if p != k {
      MaxRemove(m - {p}, f, k);
      assert m - {p} - {k} == m - {k} - {p};
      MaxRemove(m - {k}, f, p);
      assert (m - {p})[k] == m[k] && (m - {k})[p] == m[p];
    }
  }

  lemma MaxUpdate<K, V>(m: map<K, V>, f: V -> int, k: K, v: V)
    ensures MaxOver(m[k := v], f) == Max(f(v), MaxOver(m - {k}, f))
  {
    MaxRemove(m[k := v], f, k);
    assert m[k := v] - {k} == m - {k};
  }

  lemma {:induction false} MaxIsLargest<K, V>(m: map<K, V>, f: V -> int)
    ensures forall k :: k in m ==> f(m[k]) <= MaxOver(m, f)
    ensures MaxOver(m, f) == 0 || exists k :: k in m && f(m[k]) == MaxOver(m, f)
    decreases |m|
  {
    if m != map[] {
      var p := MaxPick(m, f);
      MaxIsLargest(m - {p}, f);
      var rest := m - {p};
      forall k | k in m ensures f(m[k]) <= MaxOver(m, f) {
        if k != p { assert k in rest && rest[k] == m[k]; }
      }
      if MaxOver(m, f) != 0 && f(m[p]) != MaxOver(m, f) {
        var k :| k in rest && f(rest[k]) == MaxOver(rest, f);
        assert f(m[k]) == MaxOver(m, f);
      }
    }
  }
}
