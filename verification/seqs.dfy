/** Sequence helpers used by the ordered dictionaries, the preset order and
    the compilers: duplicate-freedom and the two `Array.prototype.filter`
    shapes the source uses (keep members of a list, drop one value). */
module Seqs {

  /** No element occurs twice. */
  ghost predicate Distinct<T>(s: seq<T>) {
    forall i, j :: 0 <= i < j < |s| ==> s[i] != s[j]
  }

  /** `s.filter(x => allowed.includes(x))`: keeps, in order, the elements of
      `s` that occur in `allowed`. */
  function KeepIn<T(==,!new)>(s: seq<T>, allowed: seq<T>): (r: seq<T>)
    ensures forall x :: x in r <==> x in s && x in allowed
    ensures |r| <= |s|
  {
    if s == [] then []
    else (if s[0] in allowed then [s[0]] else []) + KeepIn(s[1..], allowed)
  }

  /** `s.filter(y => y !== x)`: drops every occurrence of `x`. */
  function Without<T(==,!new)>(s: seq<T>, x: T): (r: seq<T>)
    ensures forall y :: y in r <==> y in s && y != x
    ensures x !in s ==> r == s
    ensures |r| <= |s|
  {
    if s == [] then []
    else (if s[0] == x then [] else [s[0]]) + Without(s[1..], x)
  }

  lemma DistinctCons<T>(x: T, t: seq<T>)
    ensures Distinct([x] + t) <==> x !in t && Distinct(t)
  {
    var s := [x] + t;
    if x !in t && Distinct(t) {
      forall i, j | 0 <= i < j < |s| ensures s[i] != s[j] {
        if i == 0 {
          assert s[j] == t[j - 1];
        } else {
          assert s[i] == t[i - 1] && s[j] == t[j - 1];
        }
      }
    }
    if Distinct(s) {
      forall k | 0 <= k < |t| ensures t[k] != x {
        assert s[0] == x && s[k + 1] == t[k];
      }
      forall i, j | 0 <= i < j < |t| ensures t[i] != t[j] {
        assert t[i] == s[i + 1] && t[j] == s[j + 1];
      }
    }
  }

  /** Concatenation is associative; stated once so that callers need not
      rediscover it element by element. */
  lemma ConcatAssoc<T>(a: seq<T>, b: seq<T>, c: seq<T>)
    ensures (a + b) + c == a + (b + c)
  {
  }

  lemma DistinctTail<T>(s: seq<T>)
    requires s != [] && Distinct(s)
    ensures s[0] !in s[1..] && Distinct(s[1..])
  {
    assert s == [s[0]] + s[1..];
    DistinctCons(s[0], s[1..]);
  }

  lemma DistinctSnoc<T>(t: seq<T>, x: T)
    requires Distinct(t) && x !in t
    ensures Distinct(t + [x])
  {
    var s := t + [x];
    forall i, j | 0 <= i < j < |s| ensures s[i] != s[j] {
      if j == |t| {
        assert s[i] == t[i];
      } else {
        assert s[i] == t[i] && s[j] == t[j];
      }
    }
  }

  lemma {:induction false} KeepInDistinct<T(!new)>(s: seq<T>, allowed: seq<T>)
    requires Distinct(s)
    ensures Distinct(KeepIn(s, allowed))
  {
    if s != [] {
      assert s == [s[0]] + s[1..];
      DistinctCons(s[0], s[1..]);
      KeepInDistinct(s[1..], allowed);
      if s[0] in allowed {
        DistinctCons(s[0], KeepIn(s[1..], allowed));
      }
    }
  }

  lemma {:induction false} KeepInConcat<T(!new)>(a: seq<T>, b: seq<T>, allowed: seq<T>)
    ensures KeepIn(a + b, allowed) == KeepIn(a, allowed) + KeepIn(b, allowed)
  {
    if a == [] {
      assert a + b == b;
    } else {
      assert (a + b)[1..] == a[1..] + b;
      KeepInConcat(a[1..], b, allowed);
    }
  }

  lemma {:induction false} KeepInAll<T(!new)>(s: seq<T>, allowed: seq<T>)
    requires forall x :: x in s ==> x in allowed
    ensures KeepIn(s, allowed) == s
  {
    if s != [] {
      KeepInAll(s[1..], allowed);
      assert s == [s[0]] + s[1..];
    }
  }

  lemma {:induction false} WithoutDistinct<T(!new)>(s: seq<T>, x: T)
    requires Distinct(s)
    ensures Distinct(Without(s, x))
  {
    if s != [] {
      assert s == [s[0]] + s[1..];
      DistinctCons(s[0], s[1..]);
      WithoutDistinct(s[1..], x);
      if s[0] != x {
        DistinctCons(s[0], Without(s[1..], x));
      }
    }
  }

  lemma {:induction false} WithoutConcat<T(!new)>(a: seq<T>, b: seq<T>, x: T)
    ensures Without(a + b, x) == Without(a, x) + Without(b, x)
  {
    if a == [] {
      assert a + b == b;
    } else {
      assert (a + b)[1..] == a[1..] + b;
      WithoutConcat(a[1..], b, x);
    }
  }

  lemma WithoutHead<T(!new)>(x: T, b: seq<T>)
    ensures Without([x] + b, x) == Without(b, x)
  {
    assert ([x] + b)[1..] == b;
  }

  /** Taking out an element that occurs once closes the gap it leaves and
      keeps everything else in order. */
  lemma WithoutMiddle<T(!new)>(a: seq<T>, x: T, b: seq<T>)
    requires x !in a && x !in b
    ensures Without(a + ([x] + b), x) == a + b
  {
    WithoutConcat(a, [x] + b, x);
    WithoutHead(x, b);
  }

  lemma WithoutAt<T(!new)>(s: seq<T>, x: T, i: nat)
    requires i < |s| && s[i] == x && x !in s[..i] && x !in s[i + 1..]
    ensures Without(s, x) == s[..i] + s[i + 1..]
  {
    var a, b := s[..i], s[i + 1..];
    WithoutMiddle(a, x, b);
    assert s[i..] == [x] + b;
    assert s == a + s[i..];
  }

  lemma WithoutOnce<T(!new)>(s: seq<T>, x: T)
    ensures forall i :: 0 <= i < |s| && s[i] == x && x !in s[..i] && x !in s[i + 1..] ==>
              Without(s, x) == s[..i] + s[i + 1..]
  {
    forall i | 0 <= i < |s| && s[i] == x && x !in s[..i] && x !in s[i + 1..]
      ensures Without(s, x) == s[..i] + s[i + 1..]
    {
      WithoutAt(s, x, i);
    }
  }

  /** In a duplicate-free sequence every member occurs exactly once. */
  lemma {:induction false} DistinctMultiplicity<T>(s: seq<T>, x: T)
    requires Distinct(s)
    ensures multiset(s)[x] == if x in s then 1 else 0
  {
    if s != [] {
      assert s == [s[0]] + s[1..];
      DistinctCons(s[0], s[1..]);
      DistinctMultiplicity(s[1..], x);
    }
  }

  /** Two duplicate-free sequences with the same members are permutations
      of each other. */
  lemma SameMembersPermutation<T>(a: seq<T>, b: seq<T>)
    requires Distinct(a) && Distinct(b)
    requires forall x :: x in a <==> x in b
    ensures multiset(a) == multiset(b)
  {
    forall x ensures multiset(a)[x] == multiset(b)[x] {
      DistinctMultiplicity(a, x);
      DistinctMultiplicity(b, x);
    }
  }

  /** A permutation of a duplicate-free sequence is duplicate-free. */
  lemma PermutationDistinct<T>(a: seq<T>, b: seq<T>)
    requires Distinct(a) && multiset(a) == multiset(b)
    ensures Distinct(b)
  {
    forall i, j | 0 <= i < j < |b| ensures b[i] != b[j] {
      if b[i] == b[j] {
        var x := b[i];
        assert b == b[..j] + b[j..];
        assert x in b[..j] && x in b[j..] by {
          assert b[..j][i] == x && b[j..][0] == x;
        }
        assert multiset(b)[x] == multiset(b[..j])[x] + multiset(b[j..])[x];
        DistinctMultiplicity(a, x);
        assert false;
      }
    }
  }
}
