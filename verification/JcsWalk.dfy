/**
 Where the producer's rule looks: the walk lists exactly the places of a value that hold
 an offending integer, each once, in the order of its sorted keys and indices, and the
 reported path locates the place.
 */
module JcsWalk {
  import opened Bytes
  import opened BundleDecode
  import opened BundleEncode
  import opened BundleSlots
  import opened JcsScan
  import opened JcsUnsafe
  import Numbers
  import Ordering

  // ----- Places -----

  /** The dotted path of a place, below `root`. */
  function Dotted(root: bytes, place: Path): bytes
    decreases |place|
  {
    if place == [] then root
    else Dotted(root, place[..|place| - 1]) + StepText(place[|place| - 1])
  }

  function StepText(step: Step): bytes {
    if step.Key? then Ascii(".") + step.name else Ascii("[") + Numbers.Digits(step.i) + Ascii("]")
  }

  /** The literal of an integer beyond the limit. */
  function Offender(w: Any): Option<bytes> {
    match w
    case ANumber(lit) => if Flagged(lit, 9_007_199_254_740_991) then Some(lit) else None
    case AInt(i) =>
      if i < -9_007_199_254_740_991 || i > 9_007_199_254_740_991 then Some(Numbers.IntLiteral(i)) else None
    case _ => None
  }

  /** An offending integer stands at `place` and is what `x` reports. */
  ghost predicate Reports(root: bytes, v: Any, place: Path, x: Unsafe) {
    x.path == Dotted(root, place) && exists w :: AnyReaches(v, place, w) && Offender(w) == Some(x.lit)
  }

  /** Places in the order of the walk: where they part, the smaller key in byte order, or
      the smaller index. */
  predicate SameStart(p: Path, q: Path, n: nat) {
    n < |p| && n < |q| && p[..n] == q[..n]
  }

  ghost predicate StepBefore(a: Step, b: Step) {
    if a.Key? && b.Key? then a != b && Ordering.NotAfter(a.name, b.name) else a.Index? && b.Index? && a.i < b.i
  }

  ghost predicate Earlier(p: Path, q: Path) {
    exists n: nat :: SameStart(p, q, n) && StepBefore(p[n], q[n])
  }

  // ----- What the walk visits -----

  function Under(step: Step, places: seq<Path>): (r: seq<Path>)
    ensures |r| == |places|
  {
    seq(|places|, (k: int) requires 0 <= k < |places| => [step] + places[k])
  }

  ghost function Places(v: Any): seq<Path>
    decreases v, 1, 0
  {
    match v
    case AMap(m) =>
      Ordering.SortedIsSorted(m.Keys, ByteRank);
      PlacesOfMembers(v, SortedKeys(m.Keys))
    case ASlice(items) => PlacesOfItems(items, 0)
    case _ => if Offender(v).Some? then [[]] else []
  }

  ghost function PlacesOfItems(items: seq<Any>, i: nat): seq<Path>
    decreases items, 0, 0
  {
    if items == [] then [] else Under(Index(i), Places(items[0])) + PlacesOfItems(items[1..], i + 1)
  }

  ghost function PlacesOfMembers(v: Any, keys: seq<bytes>): seq<Path>
    requires v.AMap? && forall k :: k in keys ==> k in v.m
    decreases v, 0, |keys|
  {
    if keys == [] then [] else Under(Key(keys[0]), Places(v.m[keys[0]])) + PlacesOfMembers(v, keys[1..])
  }

  // ----- Paths -----

  /** The path the walk passes on to what `step` leads to. */
  function StepPath(path: bytes, step: Step): bytes {
    if step.Key? then KeyPath(path, step.name) else IndexPath(path, step.i)
  }

  lemma {:induction false} DottedFirst(root: bytes, step: Step, place: Path)
    ensures Dotted(root, [step] + place) == Dotted(StepPath(root, step), place)
    decreases |place|
  {
    hide StepText, StepPath;
    var all := [step] + place;
    if place == [] {
      assert all == [step];
      OneDotted(root, step);
    } else {
      assert all[..|all| - 1] == [step] + place[..|place| - 1] && all[|all| - 1] == place[|place| - 1];
      DottedFirst(root, step, place[..|place| - 1]);
    }
  }

  lemma OneDotted(root: bytes, step: Step)
    ensures Dotted(root, [step]) == StepPath(root, step) && Dotted(StepPath(root, step), []) == StepPath(root, step)
  {
    hide Numbers.Digits, Ascii;
    assert [step][..0] == [] && Dotted(root, []) == root;
    Marks();
    if step.Index? { Associate(root, Ascii("["), Numbers.Digits(step.i) + Ascii("]")); }
  }

  lemma Marks()
    ensures Ascii(".") == [0x2E] && Ascii("[") == [0x5B] && Ascii("]") == [0x5D]
  {
  }

  // ----- What is listed -----

  /** `found` reports `places`, one by one. */
  ghost predicate Lists(root: bytes, v: Any, found: seq<Unsafe>, places: seq<Path>) {
    |found| == |places| && forall k :: 0 <= k < |places| ==> Reports(root, v, places[k], found[k])
  }

  /** What is listed under a step is listed of the whole. */
  lemma ListsUnder(root: bytes, v: Any, step: Step, w: Any, found: seq<Unsafe>, places: seq<Path>)
    requires Lists(StepPath(root, step), w, found, places)
    requires forall p, x :: AnyReaches(w, p, x) ==> AnyReaches(v, [step] + p, x)
    ensures Lists(root, v, found, Under(step, places))
  {
    hide AnyReaches, Offender, Dotted, StepPath;
    forall k | 0 <= k < |places| ensures Reports(root, v, Under(step, places)[k], found[k]) {
      DottedFirst(root, step, places[k]);
      assert Reports(StepPath(root, step), w, places[k], found[k]);
      var x :| AnyReaches(w, places[k], x) && Offender(x) == Some(found[k].lit);
      assert AnyReaches(v, [step] + places[k], x);
    }
  }

  lemma ListsJoin(root: bytes, v: Any, a: seq<Unsafe>, p: seq<Path>, b: seq<Unsafe>, q: seq<Path>)
    requires Lists(root, v, a, p) && Lists(root, v, b, q)
    ensures Lists(root, v, a + b, p + q)
  {
    hide Reports;
  }

  lemma KeyReaches(v: Any, key: bytes)
    requires v.AMap? && key in v.m
    ensures forall p, x :: AnyReaches(v.m[key], p, x) <==> AnyReaches(v, [Key(key)] + p, x)
  {
    forall p, x ensures AnyReaches(v.m[key], p, x) <==> AnyReaches(v, [Key(key)] + p, x) {
      assert ([Key(key)] + p)[1..] == p;
    }
  }

  lemma IndexReaches(v: Any, i: nat)
    requires v.ASlice? && i < |v.items|
    ensures forall p, x :: AnyReaches(v.items[i], p, x) <==> AnyReaches(v, [Index(i)] + p, x)
  {
    forall p, x ensures AnyReaches(v.items[i], p, x) <==> AnyReaches(v, [Index(i)] + p, x) {
      assert ([Index(i)] + p)[1..] == p;
    }
  }

  lemma {:induction false} WalkLists(root: bytes, v: Any)
    ensures Lists(root, v, UnsafeIntegers(root, v), Places(v))
    decreases v, 1, 0
  {
    hide *;
    if v.AMap? {
      WalkMap(root, v);
      PlacesOfMap(v);
      MembersList(root, v, SortedKeys(v.m.Keys));
    } else if v.ASlice? {
      WalkSlice(root, v);
      PlacesOfSlice(v);
      assert v.items[0..] == v.items;
      ItemsList(root, v, 0);
    } else {
      LeafLists(root, v);
    }
  }

  lemma PlacesOfMap(v: Any)
    requires v.AMap?
    ensures forall k :: k in SortedKeys(v.m.Keys) <==> k in v.m
    ensures Places(v) == PlacesOfMembers(v, SortedKeys(v.m.Keys))
  {
    hide PlacesOfItems, Ordering.Sorted;
    Ordering.SortedIsSorted(v.m.Keys, ByteRank);
  }

  lemma PlacesOfSlice(v: Any)
    requires v.ASlice?
    ensures Places(v) == PlacesOfItems(v.items, 0)
  {
    hide PlacesOfMembers, SortedKeys;
  }

  lemma LeafLists(root: bytes, v: Any)
    requires !v.AMap? && !v.ASlice?
    ensures Lists(root, v, UnsafeIntegers(root, v), Places(v))
  {
    hide Flagged, Numbers.IntLiteral;
    if Offender(v).Some? {
      assert AnyReaches(v, [], v) && Dotted(root, []) == root;
    }
  }

  lemma {:induction false} MembersList(root: bytes, v: Any, keys: seq<bytes>)
    requires v.AMap? && forall k :: k in keys ==> k in v.m
    ensures Lists(root, v, UnsafeMembers(root, v, keys), PlacesOfMembers(v, keys))
    decreases v, 0, |keys|
  {
    hide *;
    if keys == [] {
      NoMembers(root, v);
    } else {
      MembersUnfold(root, v, keys);
      WalkLists(KeyPath(root, keys[0]), v.m[keys[0]]);
      KeyReaches(v, keys[0]);
      KeyStep(root, keys[0]);
      ListsUnder(root, v, Key(keys[0]), v.m[keys[0]], UnsafeIntegers(KeyPath(root, keys[0]), v.m[keys[0]]),
                 Places(v.m[keys[0]]));
      MembersList(root, v, keys[1..]);
      ListsJoin(root, v,
                UnsafeIntegers(KeyPath(root, keys[0]), v.m[keys[0]]), Under(Key(keys[0]), Places(v.m[keys[0]])),
                UnsafeMembers(root, v, keys[1..]), PlacesOfMembers(v, keys[1..]));
    }
  }

  lemma NoMembers(root: bytes, v: Any)
    requires v.AMap?
    ensures Lists(root, v, UnsafeMembers(root, v, []), PlacesOfMembers(v, []))
  {
  }

  lemma KeyStep(root: bytes, key: bytes)
    ensures StepPath(root, Key(key)) == KeyPath(root, key)
  {
  }

  lemma IndexStep(root: bytes, i: nat)
    ensures StepPath(root, Index(i)) == IndexPath(root, i)
  {
  }

  lemma MembersUnfold(root: bytes, v: Any, keys: seq<bytes>)
    requires v.AMap? && keys != [] && forall k :: k in keys ==> k in v.m
    ensures keys[0] in v.m && forall k :: k in keys[1..] ==> k in v.m
    ensures UnsafeMembers(root, v, keys) ==
            UnsafeIntegers(KeyPath(root, keys[0]), v.m[keys[0]]) + UnsafeMembers(root, v, keys[1..])
    ensures PlacesOfMembers(v, keys) == Under(Key(keys[0]), Places(v.m[keys[0]])) + PlacesOfMembers(v, keys[1..])
  {
    hide UnsafeIntegers, Places, KeyPath, Under;
    assert keys[0] in keys;
  }

  lemma {:induction false} ItemsList(root: bytes, v: Any, i: nat)
    requires v.ASlice? && i <= |v.items|
    ensures Lists(root, v, UnsafeItems(root, v.items[i..], i), PlacesOfItems(v.items[i..], i))
    decreases v, 0, |v.items| - i
  {
    hide *;
    if i == |v.items| {
      NoItems(root, v, v.items[i..], i);
    } else {
      ItemsUnfold(root, v.items, i);
      WalkLists(IndexPath(root, i), v.items[i]);
      IndexReaches(v, i);
      IndexStep(root, i);
      ListsUnder(root, v, Index(i), v.items[i], UnsafeIntegers(IndexPath(root, i), v.items[i]), Places(v.items[i]));
      ItemsList(root, v, i + 1);
      ListsJoin(root, v, UnsafeIntegers(IndexPath(root, i), v.items[i]), Under(Index(i), Places(v.items[i])),
                UnsafeItems(root, v.items[i + 1..], i + 1), PlacesOfItems(v.items[i + 1..], i + 1));
    }
  }

  lemma NoItems(root: bytes, v: Any, items: seq<Any>, i: nat)
    requires items == []
    ensures Lists(root, v, UnsafeItems(root, items, i), PlacesOfItems(items, i))
  {
  }

  lemma ItemsUnfold(root: bytes, items: seq<Any>, i: nat)
    requires i < |items|
    ensures UnsafeItems(root, items[i..], i) ==
            UnsafeIntegers(IndexPath(root, i), items[i]) + UnsafeItems(root, items[i + 1..], i + 1)
    ensures PlacesOfItems(items[i..], i) == Under(Index(i), Places(items[i])) + PlacesOfItems(items[i + 1..], i + 1)
  {
    hide UnsafeIntegers, Places, IndexPath, Under;
    assert items[i..][0] == items[i] && items[i..][1..] == items[i + 1..];
  }

  // ----- Nothing is missed -----

  /** Every place of an offending integer is visited. */
  lemma {:induction false} WalkFinds(v: Any, place: Path, w: Any)
    requires AnyReaches(v, place, w) && Offender(w).Some?
    ensures place in Places(v)
    decreases v, 1, 0
  {
    hide *;
    if v.AMap? {
      MapReach(v, place, w);
      PlacesOfMap(v);
      MembersFind(v, SortedKeys(v.m.Keys), place, w);
    } else if v.ASlice? {
      SliceReach(v, place, w);
      PlacesOfSlice(v);
      assert v.items[0..] == v.items;
      ItemsFind(v, 0, place, w);
    } else {
      LeafFinds(v, place, w);
    }
  }

  lemma MapReach(v: Any, place: Path, w: Any)
    requires v.AMap? && AnyReaches(v, place, w) && Offender(w).Some?
    ensures place != [] && place[0].Key? && place[0].name in v.m && AnyReaches(v.m[place[0].name], place[1..], w)
  {
  }

  lemma SliceReach(v: Any, place: Path, w: Any)
    requires v.ASlice? && AnyReaches(v, place, w) && Offender(w).Some?
    ensures place != [] && place[0].Index? && place[0].i < |v.items| && AnyReaches(v.items[place[0].i], place[1..], w)
  {
  }

  lemma LeafFinds(v: Any, place: Path, w: Any)
    requires !v.AMap? && !v.ASlice? && AnyReaches(v, place, w) && Offender(w).Some?
    ensures place in Places(v)
  {
    hide Offender;
  }

  lemma InUnder(step: Step, places: seq<Path>, place: Path)
    requires place != [] && place[0] == step && place[1..] in places
    ensures place in Under(step, places)
  {
    var k :| 0 <= k < |places| && places[k] == place[1..];
    assert place == [step] + place[1..] == Under(step, places)[k];
  }

  lemma {:induction false} MembersFind(v: Any, keys: seq<bytes>, place: Path, w: Any)
    requires v.AMap? && (forall k :: k in keys ==> k in v.m) && Offender(w).Some?
    requires place != [] && place[0].Key? && place[0].name in keys && AnyReaches(v.m[place[0].name], place[1..], w)
    ensures place in PlacesOfMembers(v, keys)
    decreases v, 0, |keys|
  {
    hide *;
    SomeMember(keys, place[0].name);
    MembersUnfold([], v, keys);
    if place[0].name == keys[0] {
      WalkFinds(v.m[keys[0]], place[1..], w);
      InUnder(Key(keys[0]), Places(v.m[keys[0]]), place);
    } else {
      MembersFind(v, keys[1..], place, w);
    }
  }

  lemma SomeMember<T>(keys: seq<T>, k: T)
    requires k in keys
    ensures keys != [] && (k == keys[0] || k in keys[1..])
  {
    if k != keys[0] {
      var i :| 0 <= i < |keys| && keys[i] == k;
      assert keys[1..][i - 1] == k;
    }
  }

  lemma {:induction false} ItemsFind(v: Any, i: nat, place: Path, w: Any)
    requires v.ASlice? && i <= |v.items| && Offender(w).Some?
    requires place != [] && place[0].Index? && i <= place[0].i < |v.items|
    requires AnyReaches(v.items[place[0].i], place[1..], w)
    ensures place in PlacesOfItems(v.items[i..], i)
    decreases v, 0, |v.items| - i
  {
    hide *;
    ItemsUnfold([], v.items, i);
    if place[0].i == i {
      WalkFinds(v.items[i], place[1..], w);
      InUnder(Index(i), Places(v.items[i]), place);
    } else {
      ItemsFind(v, i + 1, place, w);
    }
  }

  // ----- In order, each once -----

  ghost predicate PlacesAscend(places: seq<Path>) {
    forall i, k :: 0 <= i < k < |places| ==> Earlier(places[i], places[k])
  }

  lemma UnderAscends(step: Step, places: seq<Path>)
    requires PlacesAscend(places)
    ensures PlacesAscend(Under(step, places))
  {
    forall i, k | 0 <= i < k < |places| ensures Earlier(Under(step, places)[i], Under(step, places)[k]) {
      LaterStep(step, places[i], places[k]);
    }
  }

  lemma LaterStep(step: Step, p: Path, q: Path)
    requires Earlier(p, q)
    ensures Earlier([step] + p, [step] + q)
  {
    hide StepBefore;
    var n: nat :| SameStart(p, q, n) && StepBefore(p[n], q[n]);
    var a, b := [step] + p, [step] + q;
    assert a[..n + 1] == [step] + p[..n] && b[..n + 1] == [step] + q[..n];
    assert SameStart(a, b, n + 1) && StepBefore(a[n + 1], b[n + 1]);
  }

  /** Every place starts with a step that comes after `step`. */
  ghost predicate AllAfter(step: Step, places: seq<Path>) {
    forall k :: 0 <= k < |places| ==> places[k] != [] && StepBefore(step, places[k][0])
  }

  lemma JoinAscends(step: Step, a: seq<Path>, b: seq<Path>)
    requires PlacesAscend(a) && PlacesAscend(b) && AllAfter(step, b)
    ensures PlacesAscend(Under(step, a) + b)
  {
    hide StepBefore, Earlier;
    UnderAscends(step, a);
    var u := Under(step, a);
    forall i, k | 0 <= i < |u| && 0 <= k < |b| ensures Earlier(u[i], b[k]) {
      FirstStepDecides(u[i], b[k]);
    }
    forall i, k | 0 <= i < k < |u + b| ensures Earlier((u + b)[i], (u + b)[k]) {
      if k < |u| {
        assert Earlier(u[i], u[k]);
      } else if i >= |u| {
        assert Earlier(b[i - |u|], b[k - |u|]);
      }
    }
  }

  lemma FirstStepDecides(p: Path, q: Path)
    requires p != [] && q != [] && StepBefore(p[0], q[0])
    ensures Earlier(p, q)
  {
    assert SameStart(p, q, 0);
  }

  lemma {:induction false} WalkAscends(v: Any)
    ensures PlacesAscend(Places(v))
    decreases v, 1, 0
  {
    hide *;
    if v.AMap? {
      PlacesOfMap(v);
      SortedKeysAscend(v.m.Keys);
      MembersAscend(v, SortedKeys(v.m.Keys));
    } else if v.ASlice? {
      PlacesOfSlice(v);
      assert v.items[0..] == v.items;
      ItemsAscend(v, 0);
    } else {
      LeafAscends(v);
    }
  }

  lemma SortedKeysAscend(keys: set<bytes>)
    ensures Ordering.NoRepeats(SortedKeys(keys)) && Ordering.Ascending(SortedKeys(keys), ByteRank)
  {
    Ordering.SortedIsSorted(keys, ByteRank);
  }

  lemma LeafAscends(v: Any)
    requires !v.AMap? && !v.ASlice?
    ensures PlacesAscend(Places(v))
  {
    hide Offender;
  }

  lemma {:induction false} MembersAscend(v: Any, keys: seq<bytes>)
    requires v.AMap? && (forall k :: k in keys ==> k in v.m)
    requires Ordering.NoRepeats(keys) && Ordering.Ascending(keys, ByteRank)
    ensures PlacesAscend(PlacesOfMembers(v, keys))
    decreases v, 0, |keys|
  {
    hide *;
    if keys == [] {
      NoMembersAscend(v);
    } else {
      MembersUnfold([], v, keys);
      Ordering.RestOf(keys, ByteRank);
      WalkAscends(v.m[keys[0]]);
      MembersAscend(v, keys[1..]);
      KeysAfter(keys);
      MembersAfter(v, keys[0], keys[1..]);
      JoinAscends(Key(keys[0]), Places(v.m[keys[0]]), PlacesOfMembers(v, keys[1..]));
    }
  }

  lemma NoMembersAscend(v: Any)
    requires v.AMap?
    ensures PlacesAscend(PlacesOfMembers(v, []))
  {
  }

  lemma KeysAfter(keys: seq<bytes>)
    requires keys != [] && Ordering.NoRepeats(keys) && Ordering.Ascending(keys, ByteRank)
    ensures forall k :: k in keys[1..] ==> StepBefore(Key(keys[0]), Key(k))
  {
    hide Ordering.NotAfter;
    forall k | k in keys[1..] ensures StepBefore(Key(keys[0]), Key(k)) {
      var i :| 0 <= i < |keys[1..]| && keys[1..][i] == k;
      assert keys[i + 1] == k && Ordering.NotAfter(ByteRank(keys[0]), ByteRank(keys[i + 1]));
    }
  }

  lemma {:induction false} MembersAfter(v: Any, first: bytes, keys: seq<bytes>)
    requires v.AMap? && forall k :: k in keys ==> k in v.m
    requires forall k :: k in keys ==> StepBefore(Key(first), Key(k))
    ensures AllAfter(Key(first), PlacesOfMembers(v, keys))
    decreases |keys|
  {
    hide StepBefore, Places;
    if keys != [] {
      MembersUnfold([], v, keys);
      assert keys[0] in keys;
      MembersAfter(v, first, keys[1..]);
    }
  }

  lemma {:induction false} ItemsAscend(v: Any, i: nat)
    requires v.ASlice? && i <= |v.items|
    ensures PlacesAscend(PlacesOfItems(v.items[i..], i))
    decreases v, 0, |v.items| - i
  {
    hide *;
    if i == |v.items| {
      NoItemsAscend(v.items[i..], i);
    } else {
      ItemsUnfold([], v.items, i);
      WalkAscends(v.items[i]);
      ItemsAscend(v, i + 1);
      ItemsAfter(v.items[i + 1..], i, i + 1);
      JoinAscends(Index(i), Places(v.items[i]), PlacesOfItems(v.items[i + 1..], i + 1));
    }
  }

  lemma NoItemsAscend(items: seq<Any>, i: nat)
    requires items == []
    ensures PlacesAscend(PlacesOfItems(items, i))
  {
  }

  lemma {:induction false} ItemsAfter(items: seq<Any>, first: nat, i: nat)
    requires first < i
    ensures AllAfter(Index(first), PlacesOfItems(items, i))
    decreases |items|
  {
    hide Places;
    if items != [] { ItemsAfter(items[1..], first, i + 1); }
  }

  /** The walk lists the places of offending integers: every one of them, once, in order,
      and nothing else; each entry has the literal that stands there and the path that
      leads there. */
  lemma WalkListing(root: bytes, v: Any) returns (places: seq<Path>)
    ensures |UnsafeIntegers(root, v)| == |places|
    ensures forall k :: 0 <= k < |places| ==> Reports(root, v, places[k], UnsafeIntegers(root, v)[k])
    ensures forall i, k :: 0 <= i < k < |places| ==> Earlier(places[i], places[k])
    ensures forall place, w :: AnyReaches(v, place, w) && Offender(w).Some? ==> place in places
  {
    hide *;
    WalkLists(root, v);
    WalkAscends(v);
    places := Places(v);
    forall place, w | AnyReaches(v, place, w) && Offender(w).Some? ensures place in places {
      WalkFinds(v, place, w);
    }
    Listed(root, v, UnsafeIntegers(root, v), places);
  }

  lemma Listed(root: bytes, v: Any, found: seq<Unsafe>, places: seq<Path>)
    requires Lists(root, v, found, places) && PlacesAscend(places)
    ensures |found| == |places| && forall k :: 0 <= k < |places| ==> Reports(root, v, places[k], found[k])
    ensures forall i, k :: 0 <= i < k < |places| ==> Earlier(places[i], places[k])
  {
  }
}
