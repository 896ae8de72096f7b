/**
 Lexicographic order on sequences of integers, used for every ordering the agent relies on:
 SQLite's binary text order and composite primary-key order, and Go's string and struct
 comparators.
 */
module Ordering {

  type Key = seq<int>

  predicate Less(a: Key, b: Key)
    decreases |a|
  {
    |b| != 0 && (|a| == 0 || a[0] < b[0] || (a[0] == b[0] && Less(a[1..], b[1..])))
  }

  /** The code units of a text, in order. */
  function Codes(s: string): (k: Key)
    ensures |k| == |s| && forall i :: 0 <= i < |s| ==> k[i] == s[i] as int
  {
    seq(|s|, i requires 0 <= i < |s| => s[i] as int)
  }

  predicate TextLess(a: string, b: string) {
    Less(Codes(a), Codes(b))
  }

  lemma CodesInjective(a: string, b: string)
    requires Codes(a) == Codes(b)
    ensures a == b
  {
    forall i | 0 <= i < |a| ensures a[i] == b[i] {
      assert Codes(a)[i] == Codes(b)[i];
    }
  }

  lemma {:induction false} LessIrreflexive(a: Key)
    ensures !Less(a, a)
  {
    if a != [] {
      LessIrreflexive(a[1..]);
    }
  }

  lemma {:induction false} LessTransitive(a: Key, b: Key, c: Key)
    requires Less(a, b) && Less(b, c)
    ensures Less(a, c)
    decreases |a|
  {
    if a != [] && a[0] == b[0] == c[0] {
      LessTransitive(a[1..], b[1..], c[1..]);
    }
  }

  lemma {:induction false} LessTrichotomy(a: Key, b: Key)
    ensures Less(a, b) || a == b || Less(b, a)
    decreases |a|
  {
    if a != [] && b != [] && a[0] == b[0] {
      LessTrichotomy(a[1..], b[1..]);
      if a[1..] == b[1..] {
        assert a == [a[0]] + a[1..] && b == [b[0]] + b[1..];
      }
    }
  }

  lemma LessAsymmetric(a: Key, b: Key)
    requires Less(a, b)
    ensures !Less(b, a) && a != b
  {
    LessIrreflexive(a);
    if Less(b, a) {
      LessTransitive(a, b, a);
    }
  }

  /** Two blocks of one width decide the order before whatever follows them. */
  lemma {:induction false} LessBlocks(a: Key, b: Key, x: Key, y: Key)
    requires |a| == |b|
    ensures Less(a + x, b + y) <==> Less(a, b) || (a == b && Less(x, y))
    decreases |a|
  {
    if a == [] {
      assert a + x == x && b + y == y;
    } else {
      LessBlocks(a[1..], b[1..], x, y);
      assert (a + x)[1..] == a[1..] + x && (b + y)[1..] == b[1..] + y;
      assert a == [a[0]] + a[1..] && b == [b[0]] + b[1..];
    }
  }

  // ----- ORDER BY over a column that tells the rows apart

  ghost predicate Separates<T(!new)>(s: set<T>, key: T -> Key) {
    forall x, y :: x in s && y in s && key(x) == key(y) ==> x == y
  }

  predicate Increasing<T>(r: seq<T>, key: T -> Key) {
    forall i, j :: 0 <= i < j < |r| ==> Less(key(r[i]), key(r[j]))
  }

  ghost predicate IsLeast<T(!new)>(x: T, s: set<T>, key: T -> Key) {
    x in s && forall y :: y in s ==> y == x || Less(key(x), key(y))
  }

  lemma {:induction false} LeastExists<T(!new)>(s: set<T>, key: T -> Key)
    requires s != {} && Separates(s, key)
    ensures exists x :: IsLeast(x, s, key)
  {
    var y :| y in s;
    var rest := s - {y};
    if rest == {} {
      assert forall x :: x in s ==> x == y || x in rest;
      assert IsLeast(y, s, key);
    } else {
      LeastExists(rest, key);
      var m :| IsLeast(m, rest, key);
      LessTrichotomy(key(m), key(y));
      var k := if Less(key(m), key(y)) then m else y;
      forall x | x in s ensures x == k || Less(key(k), key(x)) {
        if x != y && x != k && k == y {
          if x != m { LessTransitive(key(y), key(m), key(x)); }
        }
      }
      assert IsLeast(k, s, key);
    }
  }

  lemma LeastUnique<T(!new)>(s: set<T>, key: T -> Key, p: T, q: T)
    requires IsLeast(p, s, key) && IsLeast(q, s, key)
    ensures p == q
  {
    if p != q { LessAsymmetric(key(p), key(q)); }
  }

  ghost function Least<T(!new)>(s: set<T>, key: T -> Key): (x: T)
    requires s != {} && Separates(s, key)
    ensures IsLeast(x, s, key)
  {
    LeastExists(s, key);
    var x :| IsLeast(x, s, key);
    x
  }

  /** The elements of `s` in increasing key order. */
  ghost function OrderedBy<T(!new)>(s: set<T>, key: T -> Key): seq<T>
    requires Separates(s, key)
  {
    if s == {} then [] else
      var x := Least(s, key);
      [x] + OrderedBy(s - {x}, key)
  }

  lemma {:induction false} OrderedByCorrect<T(!new)>(s: set<T>, key: T -> Key)
    requires Separates(s, key)
    ensures Increasing(OrderedBy(s, key), key) && |OrderedBy(s, key)| == |s|
    ensures forall x :: x in OrderedBy(s, key) <==> x in s
  {
    if s != {} {
      var x := Least(s, key);
      OrderedByCorrect(s - {x}, key);
      var rest := OrderedBy(s - {x}, key);
      forall i | 0 <= i < |rest| ensures Less(key(x), key(rest[i])) {
        assert rest[i] in rest;
      }
    }
  }

  lemma OrderedStep<T(!new)>(s: set<T>, key: T -> Key, x: T)
    requires Separates(s, key) && IsLeast(x, s, key)
    ensures Separates(s - {x}, key) && OrderedBy(s, key) == [x] + OrderedBy(s - {x}, key)
  {
    LeastUnique(s, key, x, Least(s, key));
  }

  method NextRow<T(==,!new)>(s: set<T>, key: T -> Key) returns (x: T)
    requires s != {} && Separates(s, key)
    ensures IsLeast(x, s, key)
  {
    LeastExists(s, key);
    x :| x in s && forall y :: y in s ==> y == x || Less(key(x), key(y));
  }

  /** Reading the rows out in order, least key first. */
  method SelectOrdered<T(==,!new)>(s: set<T>, key: T -> Key) returns (r: seq<T>)
    requires Separates(s, key)
    ensures r == OrderedBy(s, key)
  {
    r := [];
    var rest := s;
    while rest != {}
      invariant Separates(rest, key)
      invariant r + OrderedBy(rest, key) == OrderedBy(s, key)
    {
      var x := NextRow(rest, key);
      ghost var tail := OrderedBy(rest - {x}, key);
      OrderedStep(rest, key, x);
      assert r + ([x] + tail) == (r + [x]) + tail;
      r := r + [x];
      rest := rest - {x};
    }
  }

  lemma CodesSeparate(texts: set<string>)
    ensures Separates(texts, Codes)
  {
    forall x, y | x in texts && y in texts && Codes(x) == Codes(y) ensures x == y {
      CodesInjective(x, y);
    }
  }
}
