/**
 Canonical item order for payload hashes and secret bundles. sort.Slice is not stable: all it
 promises is some arrangement of the same items in non-decreasing key order.
 */
module CanonicalForms {
  import opened Ordering
  import opened Text

  predicate SortedBy<T(!new)>(xs: seq<T>, key: T -> Key) {
    forall i, j :: 0 <= i < j < |xs| ==> !Less(key(xs[j]), key(xs[i]))
  }

  /** Every arrangement sort.Slice may leave behind. */
  ghost predicate SortResult<T(!new)>(xs: seq<T>, ys: seq<T>, key: T -> Key) {
    multiset(ys) == multiset(xs) && SortedBy(ys, key)
  }

  /** Equal keys only on equal items. */
  ghost predicate KeysSeparate<T(!new)>(xs: seq<T>, key: T -> Key) {
    forall x, y :: x in xs && y in xs && key(x) == key(y) ==> x == y
  }

  /** sort.Slice: callers learn only that the result is one of the possible arrangements. */
  method SortSlice<T(!new)>(xs: seq<T>, key: T -> Key) returns (ys: seq<T>)
    ensures SortResult(xs, ys, key)
  {
    ys := [];
    for n := 0 to |xs|
      invariant SortResult(xs[..n], ys, key)
    {
      ys := InsertSorted(ys, xs[n], key);
      assert xs[..n + 1] == xs[..n] + [xs[n]];
    }
    assert xs[..|xs|] == xs;
  }

  method InsertSorted<T(!new)>(ys: seq<T>, x: T, key: T -> Key) returns (zs: seq<T>)
    requires SortedBy(ys, key)
    ensures SortedBy(zs, key) && multiset(zs) == multiset(ys) + multiset{x}
  {
    var i := |ys|;
    while i > 0 && Less(key(x), key(ys[i - 1]))
      invariant 0 <= i <= |ys|
      invariant forall j :: i <= j < |ys| ==> Less(key(x), key(ys[j]))
    {
      i := i - 1;
    }
    InsertKeepsSorted(ys, i, x, key);
    assert ys == ys[..i] + ys[i..];
    zs := ys[..i] + [x] + ys[i..];
  }

  lemma InsertKeepsSorted<T(!new)>(ys: seq<T>, i: nat, x: T, key: T -> Key)
    requires i <= |ys| && SortedBy(ys, key)
    requires i > 0 ==> !Less(key(x), key(ys[i - 1]))
    requires forall j :: i <= j < |ys| ==> Less(key(x), key(ys[j]))
    ensures SortedBy(ys[..i] + [x] + ys[i..], key)
  {
    forall j | i <= j < |ys| ensures !Less(key(ys[j]), key(x)) {
      LessAsymmetric(key(x), key(ys[j]));
    }
    forall j | 0 <= j < i ensures !Less(key(x), key(ys[j])) {
      if j < i - 1 {
        NotLessTransitive(key(ys[j]), key(ys[i - 1]), key(x));
      }
    }
  }

  lemma NotLessTransitive(a: Key, b: Key, c: Key)
    requires !Less(b, a) && !Less(c, b)
    ensures !Less(c, a)
  {
    if Less(c, a) {
      LessTrichotomy(a, b);
      if Less(a, b) { LessTransitive(c, a, b); }
    }
  }

  /** When keys separate the items, every ordering of the input sorts to one list. */
  lemma {:induction false} SortResultUnique<T(!new)>(ys: seq<T>, zs: seq<T>, key: T -> Key)
    requires multiset(ys) == multiset(zs) && SortedBy(ys, key) && SortedBy(zs, key) && KeysSeparate(ys, key)
    ensures ys == zs
    decreases |ys|
  {
    SameMembers(ys, zs);
    if ys != [] {
      SameHead(ys, zs, key);
      SameTails(ys, zs);
      assert forall x :: x in ys[1..] ==> x in ys;
      SortResultUnique(ys[1..], zs[1..], key);
    }
  }

  lemma SameTails<T(!new)>(ys: seq<T>, zs: seq<T>)
    requires ys != [] && zs != [] && ys[0] == zs[0] && multiset(ys) == multiset(zs)
    ensures multiset(ys[1..]) == multiset(zs[1..])
    ensures ys[1..] == zs[1..] ==> ys == zs
  {
    assert ys == [ys[0]] + ys[1..] && zs == [zs[0]] + zs[1..];
    assert multiset(ys[1..]) == multiset(ys) - multiset{ys[0]};
    assert multiset(zs[1..]) == multiset(zs) - multiset{zs[0]};
  }

  lemma SameHead<T(!new)>(ys: seq<T>, zs: seq<T>, key: T -> Key)
    requires multiset(ys) == multiset(zs) && SortedBy(ys, key) && SortedBy(zs, key) && KeysSeparate(ys, key)
    requires ys != [] && zs != []
    ensures ys[0] == zs[0]
  {
    SameMembers(ys, zs);
    assert ys[0] in zs && zs[0] in ys;
    LessIrreflexive(key(ys[0]));
    LessTrichotomy(key(ys[0]), key(zs[0]));
  }

  /** The canonical list is well defined exactly when no two different items share a key. */
  lemma CanonicalExactlyWhenKeysSeparate<T(!new)>(xs: seq<T>, key: T -> Key, ys: seq<T>)
    requires SortResult(xs, ys, key)
    ensures KeysSeparate(xs, key) <==> forall zs :: SortResult(xs, zs, key) ==> zs == ys
  {
    SameMembers(xs, ys);
    if KeysSeparate(xs, key) {
      forall zs | SortResult(xs, zs, key) ensures zs == ys {
        SortResultUnique(ys, zs, key);
      }
    } else {
      var x, y :| x in xs && y in xs && key(x) == key(y) && x != y;
      var zs := SwapEquals(ys, key, x, y);
      assert SortResult(xs, zs, key);
    }
  }

  /** Two items with one key may trade places. */
  lemma SwapEquals<T(!new)>(ys: seq<T>, key: T -> Key, x: T, y: T) returns (zs: seq<T>)
    requires SortedBy(ys, key) && x in ys && y in ys && key(x) == key(y) && x != y
    ensures multiset(zs) == multiset(ys) && SortedBy(zs, key) && zs != ys
  {
    var i :| 0 <= i < |ys| && ys[i] == x;
    var j :| 0 <= j < |ys| && ys[j] == y;
    zs := ys[i := y][j := x];
    assert forall m :: 0 <= m < |ys| ==> key(zs[m]) == key(ys[m]);
    assert zs[i] != ys[i];
  }

  lemma SameMembers<T(!new)>(xs: seq<T>, ys: seq<T>)
    requires multiset(xs) == multiset(ys)
    ensures |xs| == |ys| && forall x :: x in xs <==> x in ys
  {
    assert |xs| == |multiset(xs)| == |multiset(ys)| == |ys|;
    forall x ensures x in xs <==> x in ys {
      assert x in xs <==> x in multiset(xs);
      assert x in ys <==> x in multiset(ys);
    }
  }

  // ----- Secret bundles

  datatype SecretMaterial = SecretMaterial(ref: string, value: string)

  function RefKey(m: SecretMaterial): Key {
    Codes(m.ref)
  }

  predicate Complete(m: SecretMaterial, validBase64: string -> bool) {
    TrimSpace(m.ref) != "" && TrimSpace(m.value) != "" && validBase64(m.value)
  }

  ghost predicate Acceptable(materials: seq<SecretMaterial>, validBase64: string -> bool) {
    (forall i :: 0 <= i < |materials| ==> Complete(materials[i], validBase64))
    && forall i, j :: 0 <= i < j < |materials| ==> materials[i].ref != materials[j].ref
  }

  ghost predicate IncreasingRefs(ms: seq<SecretMaterial>) {
    forall i, j :: 0 <= i < j < |ms| ==> TextLess(ms[i].ref, ms[j].ref)
  }

  /** canonicalSecretMaterials: sort a copy, then scan it. */
  method CanonicalSecretMaterials(materials: seq<SecretMaterial>, validBase64: string -> bool)
    returns (r: Option<seq<SecretMaterial>>)
    ensures r.Some? <==> Acceptable(materials, validBase64)
    ensures r.Some? ==> multiset(r.value) == multiset(materials) && IncreasingRefs(r.value)
  {
    var canonical := SortSlice(materials, RefKey);
    var accepted := ScanSorted(canonical, validBase64);
    AcceptableIsOrderFree(materials, canonical, validBase64);
    return if accepted then Some(canonical) else None;
  }

  method ScanSorted(canonical: seq<SecretMaterial>, validBase64: string -> bool) returns (accepted: bool)
    requires SortedBy(canonical, RefKey)
    ensures accepted <==> Acceptable(canonical, validBase64)
    ensures accepted ==> IncreasingRefs(canonical)
  {
    for index := 0 to |canonical|
      invariant forall i :: 0 <= i < index ==> Complete(canonical[i], validBase64)
      invariant forall i :: 0 < i < index ==> canonical[i - 1].ref != canonical[i].ref
    {
      if TrimSpace(canonical[index].ref) == "" || TrimSpace(canonical[index].value) == "" {
        return false;
      }
      if index > 0 && canonical[index - 1].ref == canonical[index].ref {
        return false;
      }
      if !validBase64(canonical[index].value) {
        return false;
      }
    }
    NeighboursSuffice(canonical);
    return true;
  }

  /** Neighbours that differ make a sorted list strictly increasing, hence free of duplicates. */
  lemma NeighboursSuffice(ms: seq<SecretMaterial>)
    requires SortedBy(ms, RefKey) && forall i :: 0 < i < |ms| ==> ms[i - 1].ref != ms[i].ref
    ensures IncreasingRefs(ms) && forall i, j :: 0 <= i < j < |ms| ==> ms[i].ref != ms[j].ref
  {
    forall i, j | 0 <= i < j < |ms| ensures TextLess(ms[i].ref, ms[j].ref) && ms[i].ref != ms[j].ref {
      NeighbourChain(ms, i, j);
      LessIrreflexive(Codes(ms[i].ref));
    }
  }

  lemma {:induction false} NeighbourChain(ms: seq<SecretMaterial>, i: nat, j: nat)
    requires SortedBy(ms, RefKey) && forall k :: 0 < k < |ms| ==> ms[k - 1].ref != ms[k].ref
    requires i < j < |ms|
    ensures TextLess(ms[i].ref, ms[j].ref)
    decreases j - i
  {
    LessTrichotomy(RefKey(ms[j - 1]), RefKey(ms[j]));
    if RefKey(ms[j - 1]) == RefKey(ms[j]) {
      CodesInjective(ms[j - 1].ref, ms[j].ref);
    }
    if i < j - 1 {
      NeighbourChain(ms, i, j - 1);
      LessTransitive(Codes(ms[i].ref), Codes(ms[j - 1].ref), Codes(ms[j].ref));
    }
  }

  lemma AcceptableIsOrderFree(xs: seq<SecretMaterial>, ys: seq<SecretMaterial>, validBase64: string -> bool)
    requires multiset(xs) == multiset(ys)
    ensures Acceptable(xs, validBase64) <==> Acceptable(ys, validBase64)
  {
    if Acceptable(xs, validBase64) { AcceptableCarries(xs, ys, validBase64); }
    if Acceptable(ys, validBase64) { AcceptableCarries(ys, xs, validBase64); }
  }

  lemma AcceptableCarries(xs: seq<SecretMaterial>, ys: seq<SecretMaterial>, validBase64: string -> bool)
    requires multiset(xs) == multiset(ys) && Acceptable(xs, validBase64)
    ensures Acceptable(ys, validBase64)
  {
    SameMembers(xs, ys);
    forall i | 0 <= i < |ys| ensures Complete(ys[i], validBase64) {
      assert ys[i] in xs;
    }
    forall i, j | 0 <= i < j < |ys| ensures ys[i].ref != ys[j].ref {
      if ys[i].ref == ys[j].ref {
        assert ys[i] in xs && ys[j] in xs;
        var a :| 0 <= a < |xs| && xs[a] == ys[i];
        var b :| 0 <= b < |xs| && xs[b] == ys[j];
        assert a == b && ys[i] == ys[j];
        TwiceInSeq(ys, i, j);
        OnceInSeq(xs, a);
      }
    }
  }

  lemma TwiceInSeq<T>(ys: seq<T>, i: nat, j: nat)
    requires i < j < |ys| && ys[i] == ys[j]
    ensures multiset(ys)[ys[i]] >= 2
  {
    assert ys == ys[..i] + [ys[i]] + ys[i + 1..j] + [ys[j]] + ys[j + 1..];
  }

  lemma OnceInSeq<T(!new)>(xs: seq<T>, a: nat)
    requires a < |xs| && forall i :: 0 <= i < |xs| && i != a ==> xs[i] != xs[a]
    ensures multiset(xs)[xs[a]] == 1
  {
    assert xs == xs[..a] + [xs[a]] + xs[a + 1..];
    assert xs[a] !in xs[..a] && xs[a] !in xs[a + 1..];
  }

  /** One bundle has one canonical list: accepted results agree on every ordering of the input. */
  lemma SecretCanonicalFormUnique(xs: seq<SecretMaterial>, ys: seq<SecretMaterial>, a: seq<SecretMaterial>,
      b: seq<SecretMaterial>)
    requires multiset(xs) == multiset(ys)
    requires multiset(a) == multiset(xs) && IncreasingRefs(a)
    requires multiset(b) == multiset(ys) && IncreasingRefs(b)
    ensures a == b
  {
    IncreasingIsSorted(a);
    IncreasingIsSorted(b);
    SortResultUnique(a, b, RefKey);
  }

  lemma IncreasingIsSorted(a: seq<SecretMaterial>)
    requires IncreasingRefs(a)
    ensures SortedBy(a, RefKey) && KeysSeparate(a, RefKey)
  {
    forall i, j | 0 <= i < j < |a| ensures !Less(RefKey(a[j]), RefKey(a[i])) && RefKey(a[i]) != RefKey(a[j]) {
      assert TextLess(a[i].ref, a[j].ref);
      LessAsymmetric(Codes(a[i].ref), Codes(a[j].ref));
    }
    forall x, y | x in a && y in a && RefKey(x) == RefKey(y) ensures x == y {
      var i :| 0 <= i < |a| && a[i] == x;
      var j :| 0 <= j < |a| && a[j] == y;
    }
  }
}
