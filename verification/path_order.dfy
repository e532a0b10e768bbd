/** The order in which both plugin compilers visit the style table:
    `Object.entries(styles).sort(([a], [b]) => b.length - a.length)`.
    ECMAScript's sort is stable, so paths of equal length keep the table's
    iteration order. Length is JavaScript's `.length`, counted in UTF-16
    code units. */
module PathOrder {

  /** `s.length`: one UTF-16 code unit per character of the Basic
      Multilingual Plane, two (a surrogate pair) for any other character. */
  function JsLength(s: string): (n: nat)
    ensures n >= |s|
    ensures n <= 2 * |s|
  {
    if s == [] then 0 else (if s[0] as int >= 0x1_0000 then 2 else 1) + JsLength(s[1..])
  }

  lemma {:induction false} JsLengthConcat(a: string, b: string)
    ensures JsLength(a + b) == JsLength(a) + JsLength(b)
  {
    if a == [] {
      assert a + b == b;
    } else {
      assert (a + b)[1..] == a[1..] + b;
      JsLengthConcat(a[1..], b);
    }
  }

  /** A path below `a` is longer than `a` by at least the separator. */
  lemma NestedLonger(a: string, d: string)
    requires a + "/" <= d
    ensures JsLength(a) < JsLength(d)
  {
    var rest := d[|a + "/"|..];
    assert d == (a + "/") + rest;
    JsLengthConcat(a + "/", rest);
    JsLengthConcat(a, "/");
    assert JsLength("/") == 1 by { assert "/"[1..] == []; }
  }

  /** Non-increasing path length. */
  ghost predicate LongestFirst(s: seq<string>) {
    forall i, j :: 0 <= i < j < |s| ==> JsLength(s[i]) >= JsLength(s[j])
  }

  /** The paths of length `n`, in the order of `s`. */
  function LengthClass(s: seq<string>, n: nat): seq<string> {
    if s == [] then []
    else (if JsLength(s[0]) == n then [s[0]] else []) + LengthClass(s[1..], n)
  }

  /** Inserts `x` before the first element that is not longer than it. */
  function Insert(x: string, s: seq<string>): (r: seq<string>)
    ensures forall y :: y in r <==> y == x || y in s
  {
    if s == [] || JsLength(s[0]) <= JsLength(x) then [x] + s
    else [s[0]] + Insert(x, s[1..])
  }

  function SortByLengthDesc(s: seq<string>): seq<string> {
    if s == [] then [] else Insert(s[0], SortByLengthDesc(s[1..]))
  }

  lemma {:induction false} InsertPermutes(x: string, s: seq<string>)
    ensures multiset(Insert(x, s)) == multiset([x] + s)
  {
    if !(s == [] || JsLength(s[0]) <= JsLength(x)) {
      InsertPermutes(x, s[1..]);
      assert s == [s[0]] + s[1..];
    }
  }

  /** A sorted list may grow at the front by an element no shorter than
      any of its members. */
  lemma LongestFirstCons(x: string, t: seq<string>)
    requires LongestFirst(t)
    requires forall k :: 0 <= k < |t| ==> JsLength(t[k]) <= JsLength(x)
    ensures LongestFirst([x] + t)
  {
    var r := [x] + t;
    forall i, j | 0 <= i < j < |r| ensures JsLength(r[i]) >= JsLength(r[j]) {
      if i == 0 {
        assert r[i] == x && r[j] == t[j - 1];
      } else {
        assert r[i] == t[i - 1] && r[j] == t[j - 1];
      }
    }
  }

  /** The head of a sorted list is at least as long as all the rest, and
      the rest is sorted. */
  lemma LongestFirstTail(s: seq<string>)
    requires LongestFirst(s) && s != []
    ensures forall y :: y in s[1..] ==> JsLength(y) <= JsLength(s[0])
    ensures LongestFirst(s[1..])
  {
    forall y | y in s[1..] ensures JsLength(y) <= JsLength(s[0]) {
      var k :| 0 <= k < |s[1..]| && s[1..][k] == y;
      assert s[k + 1] == y;
    }
    forall i, j | 0 <= i < j < |s[1..]| ensures JsLength(s[1..][i]) >= JsLength(s[1..][j]) {
      assert s[1..][i] == s[i + 1] && s[1..][j] == s[j + 1];
    }
  }

  lemma {:induction false} InsertLongestFirst(x: string, s: seq<string>)
    requires LongestFirst(s)
    ensures LongestFirst(Insert(x, s))
  {
    if s == [] || JsLength(s[0]) <= JsLength(x) {
      LongestFirstCons(x, s);
    } else {
      LongestFirstTail(s);
      InsertLongestFirst(x, s[1..]);
      var u := Insert(x, s[1..]);
      forall k | 0 <= k < |u| ensures JsLength(u[k]) <= JsLength(s[0]) {
        assert u[k] in u;
      }
      LongestFirstCons(s[0], u);
    }
  }

  lemma {:induction false} LengthClassCons(x: string, s: seq<string>, n: nat)
    ensures LengthClass([x] + s, n) == (if JsLength(x) == n then [x] else []) + LengthClass(s, n)
  {
    assert ([x] + s)[1..] == s;
  }

  lemma {:induction false} InsertKeepsClasses(x: string, s: seq<string>, n: nat)
    requires LongestFirst(s)
    ensures LengthClass(Insert(x, s), n) == LengthClass([x] + s, n)
  {
    if !(s == [] || JsLength(s[0]) <= JsLength(x)) {
      var s0, rest := s[0], s[1..];
      assert s == [s0] + rest;
      InsertKeepsClasses(x, rest, n);
      LengthClassCons(s0, Insert(x, rest), n);
      LengthClassCons(x, rest, n);
      LengthClassCons(x, s, n);
      LengthClassCons(s0, rest, n);
    }
  }

  /** The sort is a permutation, longest paths first, and stable: the paths
      of any one length keep their relative order. */
  lemma {:induction false} SortByLengthDescCorrect(s: seq<string>)
    ensures multiset(SortByLengthDesc(s)) == multiset(s)
    ensures LongestFirst(SortByLengthDesc(s))
    ensures forall n: nat :: LengthClass(SortByLengthDesc(s), n) == LengthClass(s, n)
  {
    if s != [] {
      var t := SortByLengthDesc(s[1..]);
      SortByLengthDescCorrect(s[1..]);
      InsertPermutes(s[0], t);
      InsertLongestFirst(s[0], t);
      assert s == [s[0]] + s[1..];
      forall n: nat ensures LengthClass(SortByLengthDesc(s), n) == LengthClass(s, n) {
        InsertKeepsClasses(s[0], t, n);
        LengthClassCons(s[0], t, n);
        LengthClassCons(s[0], s[1..], n);
      }
    }
  }

  /** A path with a character outside the Basic Multilingual Plane counts
      that character twice: "📁a" and "abc" both have length 3, so the
      stable sort keeps their table order. */
  lemma SurrogatePairCountsTwice()
    ensures JsLength("\U{1F4C1}a") == 3 && |"\U{1F4C1}a"| == 2
    ensures SortByLengthDesc(["\U{1F4C1}a", "abc"]) == ["\U{1F4C1}a", "abc"]
  {
    var folder: string, abc: string := "\U{1F4C1}a", "abc";
    assert folder[1..] == "a" && "a"[1..] == [];
    assert JsLength(folder) == 3;
    assert abc[1..] == "bc" && "bc"[1..] == "c" && "c"[1..] == [];
    assert JsLength(abc) == 3;
    assert [folder, abc][1..] == [abc];
    var one: seq<string> := [abc];
    assert one[1..] == [];
    assert SortByLengthDesc(one) == one;
  }
}
