/**
 The conversion of a bundle by path: what every scalar in it becomes, and exactly which
 values make it refused.
 */
module BundlePaths {
  import opened Bytes
  import opened JsonTree
  import opened BundleValue
  import opened BundleDecode
  import opened BundleGuarantees
  import opened BundleSlots
  import Numbers
  import TextEncodings
  import Utf8

  predicate IsLeaf(w: Value) {
    !w.VList? && !w.VMap? && !w.VTag?
  }

  /** What a leaf is written as at `path`, where it is not refused. */
  function Written(fm: FloatFormat, path: Path, w: Value): Json {
    match w
    case VInt(i) => JNum(Numbers.IntLiteral(i))
    case VBytes(b) =>
      if IsBase64Path(path) then JStr(TextEncodings.Base64(b))
      else if IsTextPath(path) then JNull
      else JStr(TextEncodings.Hex(b))
    case VText(t) => JStr(Utf8.Repaired(t, false))
    case VFloat(x) => if Finite(x) then JNum(fm.literal(x)) else JNull
    case _ => if w == VSimple(20) then JBool(false) else if w == VSimple(21) then JBool(true) else JNull
  }

  /** What has no JSON counterpart, and therefore no place in a preimage: byte strings,
      tags, undefined and other simple values, infinities and NaN, text that is not UTF-8. */
  predicate NotJson(w: Value) {
    match w
    case VBytes(_) => true
    case VTag(_, _) => true
    case VSimple(n) => n < 20 || n > 22
    case VFloat(x) => !Finite(x)
    case VText(t) => !Utf8.Valid(t)
    case _ => false
  }

  function Name(key: Value): bytes {
    if key.VText? then Utf8.Repaired(key.t, false) else []
  }

  /** Keys and values alternate, keys are text, UTF-8 where `exact`, and their emitted
      names differ. */
  ghost predicate KeysFine(items: seq<Value>, exact: bool) {
    && |items| % 2 == 0
    && (forall m :: 0 <= m < |items| && m % 2 == 0 ==> items[m].VText? && (exact ==> Utf8.Valid(items[m].t)))
    && forall m, n :: 0 <= m < n < |items| && m % 2 == 0 && n % 2 == 0 ==> Name(items[m]) != Name(items[n])
  }

  /** A value that is refused where it stands: not JSON inside a preimage, or a map whose
      keys are not fine. */
  ghost predicate Refused(path: Path, w: Value) {
    || (InPreimage(path) && NotJson(w))
    || (w.VMap? && !KeysFine(w.items, InPreimage(path)))
  }

  // ----- Leaves -----

  lemma {:induction false} LeafInRole(fm: FloatFormat, w: Value, r: Role)
    requires IsLeaf(w)
    ensures Convert(fm, w, r) ==
            if r == Hashed && NotJson(w) then None
            else if w.VBytes? && r == Base64Slot then Some(JStr(TextEncodings.Base64(w.b)))
            else if w.VBytes? && r == TextSlot then Some(JNull)
            else Some(Written(fm, [], w))
  {
    hide Finite, TextEncodings.Base64, TextEncodings.Hex, Numbers.IntLiteral, Utf8.Valid, Utf8.Repaired;
    RootIsNoSlot();
    if w.VText? { Utf8.RepairedIsIdentity(w.t); }
    hide IsBase64Path, IsTextPath;
  }

  lemma RootIsNoSlot()
    ensures !IsBase64Path([]) && !IsTextPath([])
  {
    hide Named;
  }

  lemma LeafByPath(fm: FloatFormat, path: Path, w: Value)
    requires IsLeaf(w)
    ensures Convert(fm, w, RoleAlong(Bundle, path)) ==
            if Refused(path, w) then None else Some(Written(fm, path, w))
  {
    hide *;
    SlotPositions(path);
    PreimagePositions(path);
    LeafInRole(fm, w, RoleAlong(Bundle, path));
    RootIsNoSlot();
    LeafWritten(fm, path, w, RoleAlong(Bundle, path));
  }

  lemma LeafWritten(fm: FloatFormat, path: Path, w: Value, r: Role)
    requires IsLeaf(w) && Slotted(path, r) && (r == Hashed <==> InPreimage(path))
    requires !IsBase64Path([]) && !IsTextPath([])
    ensures Refused(path, w) <==> r == Hashed && NotJson(w)
    ensures Written(fm, path, w) ==
            if w.VBytes? && r == Base64Slot then JStr(TextEncodings.Base64(w.b))
            else if w.VBytes? && r == TextSlot then JNull
            else Written(fm, [], w)
  {
    hide InPreimage, IsBase64Path, IsTextPath, IsHexPath, IsEntry, IsEntryList, NotJson, Finite, Utf8.Valid,
      TextEncodings.Hex, TextEncodings.Base64, Numbers.IntLiteral, Utf8.Repaired;
  }

  /** Every scalar of an accepted bundle is written as its path says. */
  lemma {:induction false} LeavesByPath(fm: FloatFormat, v: Value, path: Path, w: Value)
    requires Convert(fm, v, Bundle).Some? && Reaches(v, path, w) && IsLeaf(w)
    ensures !Refused(path, w)
    ensures JsonReaches(Convert(fm, v, Bundle).value, path, Written(fm, path, w))
  {
    hide *;
    RoleDiscipline(fm, v, Bundle, path, w);
    LeafByPath(fm, path, w);
  }

  // ----- Refusals -----

  /** The same by role. */
  ghost predicate Stuck(w: Value, r: Role) {
    (r == Hashed && NotJson(w)) || (w.VMap? && !KeysFine(w.items, r == Hashed))
  }

  lemma {:induction false} StuckRefuses(fm: FloatFormat, w: Value, r: Role)
    requires Stuck(w, r)
    ensures Convert(fm, w, r).None?
  {
    hide NotJson, KeysFine, Written;
    if IsLeaf(w) {
      LeafInRole(fm, w, r);
    } else if w.VMap? {
      NoMapOutside(w);
      if ConvertPairs(fm, w.items, r, {}).Some? { PairsFine(fm, w.items, r, {}); }
    } else {
      ContainersAreJson(w);
    }
  }

  lemma NoMapOutside(w: Value)
    requires w.VMap?
    ensures !NotJson(w)
  {
  }

  lemma ContainersAreJson(w: Value)
    ensures w.VList? ==> !NotJson(w)
  {
  }

  ghost predicate NotSeen(items: seq<Value>, seen: set<bytes>) {
    forall m :: 0 <= m < |items| && m % 2 == 0 ==> Name(items[m]) !in seen
  }

  lemma TextOfName(t: bytes, r: Role)
    ensures TextOf(t, r) == if r == Hashed && !Utf8.Valid(t) then None else Some(Utf8.Repaired(t, false))
  {
    hide Utf8.Valid, Utf8.Repaired;
    Utf8.RepairedIsIdentity(t);
  }

  /** Taking off the first pair. */
  lemma KeysFineStep(items: seq<Value>, exact: bool, seen: set<bytes>)
    requires |items| >= 2
    ensures KeysFine(items, exact) && NotSeen(items, seen) <==>
            && items[0].VText? && (exact ==> Utf8.Valid(items[0].t)) && Name(items[0]) !in seen
            && KeysFine(items[2..], exact) && NotSeen(items[2..], seen + {Name(items[0])})
  {
    hide Utf8.Valid, Name;
    var more := items[2..];
    assert forall m :: 0 <= m < |more| ==> more[m] == items[m + 2];
    assert forall m :: 2 <= m < |items| ==> items[m] == more[m - 2];
    if KeysFine(items, exact) && NotSeen(items, seen) {
      KeysFineTail(items, exact, seen);
    }
    if items[0].VText? && (exact ==> Utf8.Valid(items[0].t)) && Name(items[0]) !in seen
       && KeysFine(more, exact) && NotSeen(more, seen + {Name(items[0])}) {
      KeysFineCons(items, exact, seen);
    }
  }

  lemma KeysFineTail(items: seq<Value>, exact: bool, seen: set<bytes>)
    requires |items| >= 2 && KeysFine(items, exact) && NotSeen(items, seen)
    ensures KeysFine(items[2..], exact) && NotSeen(items[2..], seen + {Name(items[0])})
    ensures items[0].VText? && (exact ==> Utf8.Valid(items[0].t)) && Name(items[0]) !in seen
  {
    hide Utf8.Valid, Name;
    var more := items[2..];
    forall m | 0 <= m < |more| && m % 2 == 0
      ensures more[m].VText? && (exact ==> Utf8.Valid(more[m].t)) && Name(more[m]) !in seen + {Name(items[0])}
    {
      assert more[m] == items[m + 2] && (m + 2) % 2 == 0;
    }
    forall m, n | 0 <= m < n < |more| && m % 2 == 0 && n % 2 == 0 ensures Name(more[m]) != Name(more[n]) {
      assert more[m] == items[m + 2] && more[n] == items[n + 2] && (m + 2) % 2 == 0 && (n + 2) % 2 == 0;
    }
  }

  lemma KeysFineCons(items: seq<Value>, exact: bool, seen: set<bytes>)
    requires |items| >= 2 && items[0].VText? && (exact ==> Utf8.Valid(items[0].t)) && Name(items[0]) !in seen
    requires KeysFine(items[2..], exact) && NotSeen(items[2..], seen + {Name(items[0])})
    ensures KeysFine(items, exact) && NotSeen(items, seen)
  {
    hide Utf8.Valid, Name;
    var more := items[2..];
    forall m | 0 <= m < |items| && m % 2 == 0
      ensures items[m].VText? && (exact ==> Utf8.Valid(items[m].t)) && Name(items[m]) !in seen
    {
      if m > 0 { assert items[m] == more[m - 2] && (m - 2) % 2 == 0; }
    }
    forall m, n | 0 <= m < n < |items| && m % 2 == 0 && n % 2 == 0 ensures Name(items[m]) != Name(items[n]) {
      assert items[n] == more[n - 2] && (n - 2) % 2 == 0;
      if m > 0 { assert items[m] == more[m - 2] && (m - 2) % 2 == 0; }
    }
  }

  lemma NoKeys(exact: bool, seen: set<bytes>)
    ensures KeysFine([], exact) && NotSeen([], seen)
  {
  }

  /** Pairs that are converted have fine keys. */
  lemma {:induction false} PairsFine(fm: FloatFormat, vs: seq<Value>, r: Role, seen: set<bytes>)
    requires ConvertPairs(fm, vs, r, seen).Some?
    ensures KeysFine(vs, r == Hashed) && NotSeen(vs, seen)
    decreases |vs|
  {
    hide Convert, KeysFine, NotSeen, ChildRole, TextOf, Utf8.Valid, Utf8.Repaired;
    if vs == [] {
      NoKeys(r == Hashed, seen);
    } else {
      TextOfName(vs[0].t, r);
      PairsFine(fm, vs[2..], r, seen + {Name(vs[0])});
      KeysFineStep(vs, r == Hashed, seen);
    }
  }

  /** Fine keys with values that are converted are converted. */
  lemma {:induction false} FinePairs(fm: FloatFormat, vs: seq<Value>, r: Role, seen: set<bytes>)
    requires KeysFine(vs, r == Hashed) && NotSeen(vs, seen)
    requires forall m :: 0 <= m < |vs| - 1 && m % 2 == 0 ==> Convert(fm, vs[m + 1], ChildRole(r, Name(vs[m]))).Some?
    ensures ConvertPairs(fm, vs, r, seen).Some?
    decreases |vs|
  {
    hide Convert, NotSeen, ChildRole, TextOf, Utf8.Valid, Utf8.Repaired;
    if vs != [] {
      assert |vs| >= 2;
      hide KeysFine;
      KeysFineStep(vs, r == Hashed, seen);
      TextOfName(vs[0].t, r);
      assert Convert(fm, vs[0 + 1], ChildRole(r, Name(vs[0]))).Some?;
      var more := vs[2..];
      forall m | 0 <= m < |more| - 1 && m % 2 == 0 ensures Convert(fm, more[m + 1], ChildRole(r, Name(more[m]))).Some? {
        assert more[m] == vs[m + 2] && more[m + 1] == vs[m + 2 + 1] && (m + 2) % 2 == 0;
      }
      FinePairs(fm, more, r, seen + {Name(vs[0])});
    }
  }

  lemma {:induction false} StuckSomewhere(fm: FloatFormat, v: Value, r: Role) returns (path: Path, w: Value)
    requires Convert(fm, v, r).None?
    ensures Reaches(v, path, w) && Stuck(w, RoleAlong(r, path))
    decreases v
  {
    hide Convert, ConvertItems, ConvertPairs, ChildRole, ElementRole, KeysFine, NotJson, Utf8.Valid, Utf8.Repaired;
    ConvertShape(fm, v, r);
    if v.VList? {
      var i := RefusedElement(fm, v.items, ElementRole(r));
      var rest, x := StuckSomewhere(fm, v.items[i], ElementRole(r));
      path, w := [Index(i)] + rest, x;
      assert path[1..] == rest;
    } else if v.VMap? && KeysFine(v.items, r == Hashed) {
      var m := RefusedMember(fm, v.items, r);
      var rest, x := StuckSomewhere(fm, v.items[m + 1], ChildRole(r, Name(v.items[m])));
      path, w := [Key(Name(v.items[m]))] + rest, x;
      assert path[1..] == rest && KeyIsAt(v.items, m, path[0].name);
    } else if v.VTag? && r != Hashed {
      path, w := StuckSomewhere(fm, v.value, r);
    } else {
      path, w := [], v;
      NothingBelow(v, r);
    }
  }

  lemma NothingBelow(v: Value, r: Role)
    ensures RoleAlong(r, []) == r && Reaches(v, [], v)
  {
  }

  lemma {:induction false} ConvertShape(fm: FloatFormat, v: Value, r: Role)
    requires Convert(fm, v, r).None?
    ensures v.VList? ==> ConvertItems(fm, v.items, ElementRole(r)).None?
    ensures v.VMap? ==> ConvertPairs(fm, v.items, r, {}).None?
    ensures v.VTag? ==> if r == Hashed then NotJson(v) else Convert(fm, v.value, r).None?
    ensures IsLeaf(v) ==> r == Hashed && NotJson(v)
  {
    if IsLeaf(v) { LeafInRole(fm, v, r); }
    hide ConvertItems, ConvertPairs;
  }

  lemma {:induction false} RefusedElement(fm: FloatFormat, vs: seq<Value>, er: Role) returns (i: nat)
    requires ConvertItems(fm, vs, er).None?
    ensures i < |vs| && Convert(fm, vs[i], er).None?
    decreases |vs|
  {
    hide Convert;
    if Convert(fm, vs[0], er).None? {
      i := 0;
    } else {
      var j := RefusedElement(fm, vs[1..], er);
      i := j + 1;
    }
  }

  lemma RefusedMember(fm: FloatFormat, vs: seq<Value>, r: Role) returns (m: nat)
    requires ConvertPairs(fm, vs, r, {}).None? && KeysFine(vs, r == Hashed)
    ensures m < |vs| - 1 && m % 2 == 0 && vs[m].VText? && Convert(fm, vs[m + 1], ChildRole(r, Name(vs[m]))).None?
  {
    hide Convert, ConvertPairs, ChildRole, Name;
    if forall m :: 0 <= m < |vs| - 1 && m % 2 == 0 ==> Convert(fm, vs[m + 1], ChildRole(r, Name(vs[m]))).Some? {
      FinePairs(fm, vs, r, {});
    }
    var k: nat :| k < |vs| - 1 && k % 2 == 0 && Convert(fm, vs[k + 1], ChildRole(r, Name(vs[k]))).None?;
    m := k;
  }

  /** A bundle's value is refused if and only if somewhere in it stands a value that is
      refused there. */
  lemma {:induction false} RefusedExactly(fm: FloatFormat, v: Value)
    ensures Convert(fm, v, Bundle).None? <==> exists path, w :: Reaches(v, path, w) && Refused(path, w)
  {
    hide *;
    if Convert(fm, v, Bundle).None? {
      var path, w := StuckSomewhere(fm, v, Bundle);
      StuckIsRefused(path, w);
    }
    forall path, w | Reaches(v, path, w) && Refused(path, w) ensures Convert(fm, v, Bundle).None? {
      StuckIsRefused(path, w);
      StuckRefuses(fm, w, RoleAlong(Bundle, path));
      if Convert(fm, v, Bundle).Some? { RoleDiscipline(fm, v, Bundle, path, w); }
    }
  }

  lemma StuckIsRefused(path: Path, w: Value)
    ensures Stuck(w, RoleAlong(Bundle, path)) <==> Refused(path, w)
  {
    hide InPreimage, RoleAlong, NotJson, KeysFine;
    PreimagePositions(path);
  }
}
