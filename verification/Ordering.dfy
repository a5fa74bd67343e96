/** Lexicographic order, and the elements of a set in the order of their ranks. */
module Ordering {
  import opened Bytes

  /** `a` is a prefix of `b`, or smaller at the first place where they differ. */
  ghost predicate NotAfter(a: seq<int>, b: seq<int>) {
    a <= b || exists n: nat :: FirstDifference(a, b, n) && a[n] < b[n]
  }

  predicate FirstDifference(a: seq<int>, b: seq<int>, n: nat) {
    n < |a| && n < |b| && a[..n] == b[..n] && a[n] != b[n]
  }

  /** The comparison, element by element. */
  predicate LexLe(a: seq<int>, b: seq<int>)
  {
    a == [] || (b != [] && (a[0] < b[0] || (a[0] == b[0] && LexLe(a[1..], b[1..]))))
  }

  /** Comparing element by element decides the lexicographic order. */
  lemma {:induction false} LexLeDecides(a: seq<int>, b: seq<int>)
    ensures LexLe(a, b) <==> NotAfter(a, b)
  {
    if a != [] && b != [] {
      if a[0] == b[0] {
        LexLeDecides(a[1..], b[1..]);
        SameFirst(a, b);
        hide NotAfter;
      } else {
        OtherFirst(a, b);
        hide NotAfter;
      }
    }
  }

  lemma OtherFirst(a: seq<int>, b: seq<int>)
    requires a != [] && b != [] && a[0] != b[0]
    ensures NotAfter(a, b) <==> a[0] < b[0]
  {
    assert FirstDifference(a, b, 0);
    forall n: nat | FirstDifference(a, b, n) ensures n > 0 ==> a[0] == b[0] {
      SameBefore(a, b, n);
    }
  }

  lemma SameBefore(a: seq<int>, b: seq<int>, n: nat)
    requires FirstDifference(a, b, n)
    ensures n > 0 ==> a[0] == b[0]
  {
    if n > 0 { assert a[..n][0] == b[..n][0]; }
  }

  lemma SameFirst(a: seq<int>, b: seq<int>)
    requires a != [] && b != [] && a[0] == b[0]
    ensures NotAfter(a, b) <==> NotAfter(a[1..], b[1..])
  {
    var x, y := a[1..], b[1..];
    assert a == [a[0]] + x && b == [b[0]] + y;
    forall n: nat ensures FirstDifference(x, y, n) <==> FirstDifference(a, b, n + 1) {
      SameShift(a, b, n);
    }
    if a <= b { assert a[1..] == b[..|a|][1..]; }
    if x <= y { assert a == [b[0]] + y[..|x|] == b[..|a|]; }
    if n: nat :| FirstDifference(a, b, n) && a[n] < b[n] {
      assert a[..n] == b[..n] && FirstDifference(x, y, n - 1);
    }
    if n: nat :| FirstDifference(x, y, n) && x[n] < y[n] {
      assert FirstDifference(a, b, n + 1) && a[n + 1] < b[n + 1];
    }
  }

  lemma SameShift(a: seq<int>, b: seq<int>, n: nat)
    requires a != [] && b != [] && a[0] == b[0]
    ensures FirstDifference(a[1..], b[1..], n) <==> FirstDifference(a, b, n + 1)
  {
    var x, y := a[1..], b[1..];
    if n < |x| && n < |y| {
      assert a[..n + 1] == [a[0]] + x[..n] && b[..n + 1] == [b[0]] + y[..n];
      assert x[..n] == a[..n + 1][1..] && y[..n] == b[..n + 1][1..];
    }
  }

  lemma LexTotal(a: seq<int>, b: seq<int>)
    ensures NotAfter(a, b) || NotAfter(b, a)
  {
    hide NotAfter;
    LexLeDecides(a, b);
    LexLeDecides(b, a);
    ComparesTotally(a, b);
  }

  lemma LexTransitive(a: seq<int>, b: seq<int>, c: seq<int>)
    requires NotAfter(a, b) && NotAfter(b, c)
    ensures NotAfter(a, c)
  {
    hide NotAfter;
    LexLeDecides(a, b);
    LexLeDecides(b, c);
    LexLeDecides(a, c);
    ComparesTransitively(a, b, c);
  }

  lemma LexAntisymmetric(a: seq<int>, b: seq<int>)
    requires NotAfter(a, b) && NotAfter(b, a)
    ensures a == b
  {
    hide NotAfter;
    LexLeDecides(a, b);
    LexLeDecides(b, a);
    ComparesExactly(a, b);
  }

  lemma {:induction false} ComparesTotally(a: seq<int>, b: seq<int>)
    ensures LexLe(a, b) || LexLe(b, a)
  {
    if a != [] && b != [] { ComparesTotally(a[1..], b[1..]); }
  }

  lemma {:induction false} ComparesTransitively(a: seq<int>, b: seq<int>, c: seq<int>)
    requires LexLe(a, b) && LexLe(b, c)
    ensures LexLe(a, c)
  {
    if a != [] && a[0] == b[0] == c[0] { ComparesTransitively(a[1..], b[1..], c[1..]); }
  }

  lemma {:induction false} ComparesExactly(a: seq<int>, b: seq<int>)
    requires LexLe(a, b) && LexLe(b, a)
    ensures a == b
  {
    if a != [] {
      ComparesExactly(a[1..], b[1..]);
      assert a == [a[0]] + a[1..] && b == [b[0]] + b[1..];
    }
  }

  type Rank = bytes -> seq<int>

  ghost predicate IsLeast(k: bytes, keys: set<bytes>, rank: Rank) {
    k in keys && forall x :: x in keys ==> NotAfter(rank(k), rank(x))
  }

  lemma {:induction false} LeastExists(keys: set<bytes>, rank: Rank)
    requires keys != {}
    ensures exists k :: IsLeast(k, keys, rank)
    decreases |keys|
  {
    var k :| k in keys;
    var others := keys - {k};
    LexTotal(rank(k), rank(k));
    if others == {} {
      assert keys == {k};
      assert IsLeast(k, keys, rank);
    } else {
      LeastExists(others, rank);
      var m :| IsLeast(m, others, rank);
      LexTotal(rank(k), rank(m));
      var least := if NotAfter(rank(k), rank(m)) then k else m;
      forall x | x in keys ensures NotAfter(rank(least), rank(x)) {
        if x != k && least == k { LexTransitive(rank(k), rank(m), rank(x)); }
      }
      assert IsLeast(least, keys, rank);
    }
  }

  /** The keys from the least rank up. */
  ghost function Sorted(keys: set<bytes>, rank: Rank): (s: seq<bytes>)
    decreases |keys|
  {
    if keys == {} then []
    else
      LeastExists(keys, rank);
      var k :| IsLeast(k, keys, rank);
      [k] + Sorted(keys - {k}, rank)
  }

  ghost predicate NoRepeats(s: seq<bytes>) {
    forall i, j :: 0 <= i < j < |s| ==> s[i] != s[j]
  }

  ghost predicate Ascending(s: seq<bytes>, rank: Rank) {
    forall i, j :: 0 <= i < j < |s| ==> NotAfter(rank(s[i]), rank(s[j]))
  }

  /** Sorting lists every key once, in ascending order. */
  lemma {:induction false} SortedIsSorted(keys: set<bytes>, rank: Rank)
    ensures NoRepeats(Sorted(keys, rank)) && Ascending(Sorted(keys, rank), rank)
    ensures forall k :: k in Sorted(keys, rank) <==> k in keys
    ensures |Sorted(keys, rank)| == |keys|
    decreases |keys|
  {
    hide *;
    if keys == {} {
      NothingSorted(rank);
    } else {
      var k := LeastFirst(keys, rank);
      SortedIsSorted(keys - {k}, rank);
      ConsSorted(k, Sorted(keys - {k}, rank), keys, rank);
    }
  }

  lemma NothingSorted(rank: Rank)
    ensures Sorted({}, rank) == [] && NoRepeats([]) && Ascending([], rank)
  {
  }

  lemma {:induction false} LeastFirst(keys: set<bytes>, rank: Rank) returns (k: bytes)
    requires keys != {}
    ensures IsLeast(k, keys, rank) && k in keys && Sorted(keys, rank) == [k] + Sorted(keys - {k}, rank)
  {
    hide NotAfter;
    LeastExists(keys, rank);
    k := Sorted(keys, rank)[0];
  }

  lemma ConsSorted(k: bytes, rest: seq<bytes>, keys: set<bytes>, rank: Rank)
    requires IsLeast(k, keys, rank) && NoRepeats(rest) && Ascending(rest, rank)
    requires (forall x :: x in rest <==> x in keys - {k}) && |rest| == |keys - {k}|
    ensures NoRepeats([k] + rest) && Ascending([k] + rest, rank)
    ensures forall x :: x in [k] + rest <==> x in keys
    ensures |[k] + rest| == |keys|
  {
    hide NotAfter;
    var s := [k] + rest;
    forall i, j | 0 <= i < j < |s| ensures s[i] != s[j] && NotAfter(rank(s[i]), rank(s[j])) {
      assert s[j] == rest[j - 1] && rest[j - 1] in rest;
    }
  }

  /** Where ranks tell keys apart, the ascending list of a set is unique. */
  lemma {:induction false} SortedUnique(s: seq<bytes>, keys: set<bytes>, rank: Rank)
    requires NoRepeats(s) && Ascending(s, rank) && forall k :: k in s <==> k in keys
    requires forall k, l :: k in keys && l in keys && rank(k) == rank(l) ==> k == l
    ensures s == Sorted(keys, rank)
    decreases |keys|
  {
    hide *;
    if keys == {} {
      NothingSorted(rank);
      FirstElement(s);
    } else {
      var k := LeastFirst(keys, rank);
      var first, rest := FirstIsLeast(s, keys, rank, k);
      SortedUnique(rest, keys - {k}, rank);
    }
  }

  lemma FirstElement(s: seq<bytes>)
    ensures s == [] || s[0] in s
  {
  }

  lemma {:induction false} FirstIsLeast(s: seq<bytes>, keys: set<bytes>, rank: Rank, k: bytes)
    returns (first: bytes, rest: seq<bytes>)
    requires NoRepeats(s) && Ascending(s, rank) && forall x :: x in s <==> x in keys
    requires forall x, y :: x in keys && y in keys && rank(x) == rank(y) ==> x == y
    requires IsLeast(k, keys, rank)
    ensures first == k && s == [k] + rest && NoRepeats(rest) && Ascending(rest, rank)
    ensures forall x :: x in rest <==> x in keys - {k}
  {
    AscendingFirst(s, k, rank);
    first, rest := s[0], s[1..];
    assert NotAfter(rank(first), rank(k)) && NotAfter(rank(k), rank(first));
    LexAntisymmetric(rank(first), rank(k));
    hide *;
    RestOf(s, rank);
  }

  lemma AscendingFirst(s: seq<bytes>, k: bytes, rank: Rank)
    requires Ascending(s, rank) && k in s
    ensures s[0] in s && NotAfter(rank(s[0]), rank(k))
  {
    hide NotAfter;
    var i :| 0 <= i < |s| && s[i] == k;
    LexTotal(rank(k), rank(k));
  }

  lemma RestOf(s: seq<bytes>, rank: Rank)
    requires s != [] && NoRepeats(s) && Ascending(s, rank)
    ensures s == [s[0]] + s[1..] && NoRepeats(s[1..]) && Ascending(s[1..], rank)
    ensures forall x :: x in s[1..] <==> x in s && x != s[0]
  {
    hide NotAfter;
    var rest := s[1..];
    assert forall j :: 0 <= j < |rest| ==> rest[j] == s[j + 1];
    forall x | x in s && x != s[0] ensures x in rest {
      var j :| 0 <= j < |s| && s[j] == x;
      assert rest[j - 1] == x;
    }
    assert s == [s[0]] + rest;
  }
}
