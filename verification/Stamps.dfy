/**
 Timestamps as the state database stores and compares them: RFC 3339 text in UTC with the
 fraction's trailing zeros removed (Go's time.RFC3339Nano), ordered as text by SQLite.
 */
module Stamps {
  import opened Ordering

  const NANOS_PER_SECOND := 1_000_000_000

  predicate LeapYear(y: nat) {
    y % 4 == 0 && (y % 100 != 0 || y % 400 == 0)
  }

  function DaysInMonth(y: nat, m: nat): (d: nat)
    ensures 28 <= d <= 31
  {
    if m == 2 then (if LeapYear(y) then 29 else 28) else if m in {4, 6, 9, 11} then 30 else 31
  }

  function DaysBeforeMonth(y: nat, m: nat): nat {
    if m <= 1 then 0 else DaysBeforeMonth(y, m - 1) + DaysInMonth(y, m - 1)
  }

  function DaysBeforeYear(y: nat): nat {
    if y == 0 then 0 else DaysBeforeYear(y - 1) + DaysBeforeMonth(y - 1, 13)
  }

  /** A UTC time with a four-digit year, by its calendar and clock fields. */
  datatype CivilTime = CivilTime(year: nat, month: nat, day: nat, hour: nat, minute: nat, second: nat, nanos: nat) {
    predicate Valid() {
      year <= 9999 && 1 <= month <= 12 && 1 <= day <= DaysInMonth(year, month)
      && hour < 24 && minute < 60 && second < 60 && nanos < NANOS_PER_SECOND
    }

    function DayNumber(): int {
      DaysBeforeYear(year) + DaysBeforeMonth(year, month) + day
    }

    function SecondOfDay(): int {
      (hour * 60 + minute) * 60 + second
    }

    /** Whole seconds since 1 January of year 1, Go's zero time. */
    function Seconds(): int {
      (DayNumber() - ZERO_DAY) * 86400 + SecondOfDay()
    }

    /** Nanoseconds since Go's zero time; IsZero is `Instant() == 0`. */
    function Instant(): int {
      Seconds() * NANOS_PER_SECOND + nanos
    }

    predicate SameSecond(other: CivilTime) {
      this.(nanos := 0) == other.(nanos := 0)
    }
  }

  const ZERO_DAY := DaysBeforeYear(1) + 1

  type Stamp = t: CivilTime | t.Valid() witness CivilTime(1, 1, 1, 0, 0, 0, 0)

  /** `n` in exactly `width` decimal digits, as character codes. */
  function Digits(n: nat, width: nat): (k: Key)
    ensures |k| == width && forall i :: 0 <= i < width ==> 48 <= k[i] <= 57
  {
    if width == 0 then [] else Digits(n / 10, width - 1) + [48 + n % 10]
  }

  /** How many of the first `n` codes are left once trailing zeros are dropped. */
  function KeptLength(k: Key, n: nat): nat
    requires n <= |k|
    ensures KeptLength(k, n) <= n
  {
    if n > 0 && k[n - 1] == 48 then KeptLength(k, n - 1) else n
  }

  function TrimZeros(k: Key): Key {
    k[..KeptLength(k, |k|)]
  }

  /** The fraction's digits with trailing zeros removed; empty on a whole second. */
  function Fraction(t: Stamp): Key {
    TrimZeros(Digits(t.nanos, 9))
  }

  function DateTime(t: Stamp): Key {
    Digits(t.year, 4) + ([45] + Digits(t.month, 2)) + ([45] + Digits(t.day, 2))
    + ([84] + Digits(t.hour, 2)) + ([58] + Digits(t.minute, 2)) + ([58] + Digits(t.second, 2))
  }

  /** The stored text: 2006-01-02T15:04:05[.fraction]Z as character codes. */
  function Text(t: Stamp): Key {
    DateTime(t) + Tail(Fraction(t))
  }

  function Tail(fraction: Key): Key {
    if fraction == [] then [90] else [46] + fraction + [90]
  }

  predicate TextBefore(a: Stamp, b: Stamp) {
    Less(Text(a), Text(b))
  }

  predicate ProperPrefix(a: Key, b: Key) {
    |a| < |b| && a == b[..|a|]
  }

  /** The pairs SQLite orders against time: one second, one trimmed fraction beginning the other. */
  predicate Reversed(a: Stamp, b: Stamp) {
    a.SameSecond(b) && (ProperPrefix(Fraction(a), Fraction(b)) || ProperPrefix(Fraction(b), Fraction(a)))
  }

  // ----- Digits and fractions

  function Power10(w: nat): nat {
    if w == 0 then 1 else 10 * Power10(w - 1)
  }

  lemma Power10Values()
    ensures Power10(2) == 100 && Power10(4) == 10000
    ensures Power10(9) == NANOS_PER_SECOND
  {
    assert Power10(3) == 1000;
    assert Power10(5) == 100000;
    assert Power10(6) == 1000000;
  }

  lemma {:induction false} DigitsOrder(m: nat, n: nat, w: nat)
    requires m < Power10(w) && n < Power10(w)
    ensures Less(Digits(m, w), Digits(n, w)) <==> m < n
    ensures Digits(m, w) == Digits(n, w) <==> m == n
  {
    if w > 0 {
      DigitsOrder(m / 10, n / 10, w - 1);
      var x, y := [48 + m % 10], [48 + n % 10];
      LessBlocks(Digits(m / 10, w - 1), Digits(n / 10, w - 1), x, y);
      assert Less(x, y) <==> m % 10 < n % 10;
      assert Digits(m, w)[w - 1] == 48 + m % 10 && Digits(m, w)[..w - 1] == Digits(m / 10, w - 1);
      assert Digits(n, w)[w - 1] == 48 + n % 10 && Digits(n, w)[..w - 1] == Digits(n / 10, w - 1);
    }
  }

  predicate AllDigitCodes(k: Key) {
    forall i :: 0 <= i < |k| ==> 48 <= k[i] <= 57
  }

  /** The zeros that trimming removes. */
  function Zeros(n: nat): (k: Key)
    ensures |k| == n && forall i :: 0 <= i < n ==> k[i] == 48
  {
    seq(n, _ => 48)
  }

  lemma {:induction false} KeptLengthShape(k: Key, n: nat)
    requires n <= |k|
    ensures var m := KeptLength(k, n);
            (m > 0 ==> k[m - 1] != 48) && forall i :: m <= i < n ==> k[i] == 48
  {
    if n > 0 && k[n - 1] == 48 {
      KeptLengthShape(k, n - 1);
    }
  }

  lemma TrimZerosShape(k: Key)
    ensures var r := TrimZeros(k); |r| <= |k| && k == r + Zeros(|k| - |r|) && (r != [] ==> r[|r| - 1] != 48)
  {
    KeptLengthShape(k, |k|);
  }

  lemma TrimmedDigits(k: Key)
    requires AllDigitCodes(k)
    ensures AllDigitCodes(TrimZeros(k))
  {
    TrimZerosShape(k);
    assert forall i :: 0 <= i < |TrimZeros(k)| ==> TrimZeros(k)[i] == k[i];
  }

  /** Fractions of different lengths still order as the padded digits they stand for. */
  lemma TrimZerosOrder(x: Key, y: Key)
    requires |x| == |y| && AllDigitCodes(x) && AllDigitCodes(y)
    ensures Less(TrimZeros(x), TrimZeros(y)) <==> Less(x, y)
    ensures TrimZeros(x) == TrimZeros(y) <==> x == y
  {
    TrimZerosShape(x);
    TrimZerosShape(y);
    TrimmedDigits(x);
    TrimmedDigits(y);
    PaddedOrder(TrimZeros(x), |x| - |TrimZeros(x)|, TrimZeros(y), |y| - |TrimZeros(y)|);
  }

  predicate IsTrimmed(k: Key) {
    AllDigitCodes(k) && (k != [] ==> k[|k| - 1] != 48)
  }

  lemma PaddedOrder(a: Key, m: nat, b: Key, n: nat)
    requires |a| + m == |b| + n && IsTrimmed(a) && IsTrimmed(b)
    ensures Less(a, b) <==> Less(a + Zeros(m), b + Zeros(n))
    ensures a == b <==> a + Zeros(m) == b + Zeros(n)
  {
    if |a| <= |b| {
      ShorterOrder(a, m, b, n);
    } else {
      ShorterOrder(b, n, a, m);
    }
  }

  lemma ShorterOrder(a: Key, m: nat, b: Key, n: nat)
    requires |a| <= |b| && |a| + m == |b| + n && IsTrimmed(b)
    ensures Less(a, b) <==> Less(a + Zeros(m), b + Zeros(n))
    ensures Less(b, a) <==> Less(b + Zeros(n), a + Zeros(m))
    ensures a == b <==> a + Zeros(m) == b + Zeros(n)
  {
    var q, w := b[..|a|], b[|a|..];
    assert b == q + w;
    assert b + Zeros(n) == q + (w + Zeros(n));
    if w == [] {
      assert Zeros(m) == w + Zeros(n);
    } else {
      ZerosLess(Zeros(m), w + Zeros(n), |w| - 1);
    }
    BlockTails(a, q, Zeros(m), w + Zeros(n), w);
  }

  lemma BlockTails(p: Key, q: Key, u: Key, v: Key, w: Key)
    requires |p| == |q| && |u| == |v|
    requires if w == [] then u == v else Less(u, v)
    ensures Less(p, q + w) <==> Less(p + u, q + v)
    ensures Less(q + w, p) <==> Less(q + v, p + u)
    ensures p == q + w <==> p + u == q + v
  {
    LessBlocks(p, q, u, v);
    LessBlocks(q, p, v, u);
    LessBlocks(p, q, [], w);
    LessBlocks(q, p, w, []);
    assert p + [] == p;
    LessIrreflexive(u);
    if w != [] {
      LessAsymmetric(u, v);
    }
    assert (p + u)[..|p|] == p && (q + v)[..|q|] == q && (p + u)[|p|..] == u && (q + v)[|q|..] == v;
  }

  lemma {:induction false} ZerosLess(x: Key, y: Key, i: nat)
    requires |x| == |y| && i < |y| && AllDigitCodes(y)
    requires forall j :: 0 <= j < |x| ==> x[j] == 48
    requires y[i] != 48
    ensures Less(x, y) && x != y
    decreases |x|
  {
    if i > 0 && y[0] == 48 {
      ZerosLess(x[1..], y[1..], i - 1);
    }
  }

  lemma FractionOrder(a: Stamp, b: Stamp)
    ensures Less(Fraction(a), Fraction(b)) <==> a.nanos < b.nanos
    ensures Fraction(a) == Fraction(b) <==> a.nanos == b.nanos
    ensures AllDigitCodes(Fraction(a)) && AllDigitCodes(Fraction(b))
  {
    Power10Values();
    DigitsOrder(a.nanos, b.nanos, 9);
    TrimZerosOrder(Digits(a.nanos, 9), Digits(b.nanos, 9));
    TrimmedDigits(Digits(a.nanos, 9));
    TrimmedDigits(Digits(b.nanos, 9));
  }

  /** 'Z' sorts above every digit and above '.', so only prefix-related fractions turn around. */
  lemma TailOrder(x: Key, y: Key)
    requires AllDigitCodes(x) && AllDigitCodes(y) && x != y
    ensures Less(Tail(x), Tail(y)) <==>
              if ProperPrefix(x, y) || ProperPrefix(y, x) then Less(y, x) else Less(x, y)
  {
    ZTailOrder(x, y);
    if x != [] && y != [] {
      LessBlocks([46], [46], x + [90], y + [90]);
      assert Tail(x) == [46] + (x + [90]) && Tail(y) == [46] + (y + [90]);
    }
  }

  lemma {:induction false} ZTailOrder(x: Key, y: Key)
    requires AllDigitCodes(x) && AllDigitCodes(y) && x != y
    ensures Less(x + [90], y + [90]) <==>
              if ProperPrefix(x, y) || ProperPrefix(y, x) then Less(y, x) else Less(x, y)
    decreases |x|
  {
    if x != [] && y != [] {
      assert (x + [90])[1..] == x[1..] + [90] && (y + [90])[1..] == y[1..] + [90];
      assert x == [x[0]] + x[1..] && y == [y[0]] + y[1..];
      if x[0] == y[0] {
        ZTailOrder(x[1..], y[1..]);
        PrefixOfTails(x, y);
        PrefixOfTails(y, x);
      }
    }
  }

  lemma PrefixOfTails(x: Key, y: Key)
    requires x != [] && y != [] && x[0] == y[0]
    ensures ProperPrefix(x, y) <==> ProperPrefix(x[1..], y[1..])
  {
    if |x| < |y| {
      assert y[..|x|] == [y[0]] + y[1..][..|x| - 1];
      assert x == [x[0]] + x[1..];
    }
  }

  // ----- The calendar

  predicate FieldsBefore(a: CivilTime, b: CivilTime) {
    a.year < b.year || (a.year == b.year &&
    (a.month < b.month || (a.month == b.month &&
    (a.day < b.day || (a.day == b.day &&
    (a.hour < b.hour || (a.hour == b.hour &&
    (a.minute < b.minute || (a.minute == b.minute && a.second < b.second)))))))))
  }

  lemma {:induction false} MonthsGrow(y: nat, m: nat, n: nat)
    requires 1 <= m < n
    ensures DaysBeforeMonth(y, m) + DaysInMonth(y, m) <= DaysBeforeMonth(y, n)
  {
    if m + 1 < n {
      MonthsGrow(y, m, n - 1);
    }
  }

  lemma {:induction false} YearsGrow(x: nat, y: nat)
    requires x < y
    ensures DaysBeforeYear(x) + DaysBeforeMonth(x, 13) <= DaysBeforeYear(y)
  {
    if x + 1 < y {
      YearsGrow(x, y - 1);
    }
  }

  lemma DayOrder(a: Stamp, b: Stamp)
    ensures a.year < b.year ==> a.DayNumber() < b.DayNumber()
    ensures a.year == b.year && a.month < b.month ==> a.DayNumber() < b.DayNumber()
  {
    if a.year < b.year {
      YearsGrow(a.year, b.year);
      MonthsGrow(a.year, a.month, 13);
    } else if a.year == b.year && a.month < b.month {
      MonthsGrow(a.year, a.month, b.month);
    }
  }

  lemma SecondsOrder(a: Stamp, b: Stamp)
    ensures FieldsBefore(a, b) ==> a.Seconds() < b.Seconds()
    ensures a.Seconds() == b.Seconds() <==> a.SameSecond(b)
    ensures FieldsBefore(a, b) || FieldsBefore(b, a) || a.SameSecond(b)
  {
    DayOrder(a, b);
    DayOrder(b, a);
  }

  lemma DateTimeOrder(a: Stamp, b: Stamp)
    ensures Less(DateTime(a), DateTime(b)) <==> a.Seconds() < b.Seconds()
    ensures DateTime(a) == DateTime(b) <==> a.SameSecond(b)
  {
    Power10Values();
    DigitsOrder(a.year, b.year, 4);
    FieldOrder(Digits(a.year, 4), Digits(b.year, 4), 45, a.month, b.month);
    var a1, b1 := Digits(a.year, 4) + ([45] + Digits(a.month, 2)), Digits(b.year, 4) + ([45] + Digits(b.month, 2));
    FieldOrder(a1, b1, 45, a.day, b.day);
    var a2, b2 := a1 + ([45] + Digits(a.day, 2)), b1 + ([45] + Digits(b.day, 2));
    FieldOrder(a2, b2, 84, a.hour, b.hour);
    var a3, b3 := a2 + ([84] + Digits(a.hour, 2)), b2 + ([84] + Digits(b.hour, 2));
    FieldOrder(a3, b3, 58, a.minute, b.minute);
    var a4, b4 := a3 + ([58] + Digits(a.minute, 2)), b3 + ([58] + Digits(b.minute, 2));
    FieldOrder(a4, b4, 58, a.second, b.second);
    SecondsOrder(a, b);
    SecondsOrder(b, a);
  }

  lemma FieldOrder(p: Key, q: Key, separator: int, m: nat, n: nat)
    requires |p| == |q| && m < 100 && n < 100
    ensures Less(p + ([separator] + Digits(m, 2)), q + ([separator] + Digits(n, 2))) <==>
              Less(p, q) || (p == q && m < n)
    ensures p + ([separator] + Digits(m, 2)) == q + ([separator] + Digits(n, 2)) <==> p == q && m == n
  {
    Power10Values();
    var x, y := [separator] + Digits(m, 2), [separator] + Digits(n, 2);
    LessBlocks(p, q, x, y);
    LessBlocks([separator], [separator], Digits(m, 2), Digits(n, 2));
    DigitsOrder(m, n, 2);
    assert !Less([separator], [separator]);
    assert (p + x)[..|p|] == p && (q + y)[..|q|] == q && (p + x)[|p|..] == x && (q + y)[|q|..] == y;
    assert x[1..] == Digits(m, 2) && y[1..] == Digits(n, 2);
  }

  // ----- Text order against time order

  lemma InstantOrder(a: Stamp, b: Stamp)
    ensures a.Instant() < b.Instant() <==>
              a.Seconds() < b.Seconds() || (a.Seconds() == b.Seconds() && a.nanos < b.nanos)
    ensures a.Instant() == b.Instant() <==> a == b
  {
    SecondsOrder(a, b);
  }

  /** SQLite's order on stored stamps is time order, except on exactly the reversed pairs. */
  lemma TextOrder(a: Stamp, b: Stamp)
    ensures TextBefore(a, b) <==> if Reversed(a, b) then b.Instant() < a.Instant() else a.Instant() < b.Instant()
    ensures Text(a) == Text(b) <==> a == b
    ensures a == b <==> a.Instant() == b.Instant()
  {
    var x, y := Fraction(a), Fraction(b);
    assert Text(a)[..19] == DateTime(a) && Text(a)[19..] == Tail(x);
    assert Text(b)[..19] == DateTime(b) && Text(b)[19..] == Tail(y);
    LessBlocks(DateTime(a), DateTime(b), Tail(x), Tail(y));
    DateTimeOrder(a, b);
    FractionOrder(a, b);
    FractionOrder(b, a);
    InstantOrder(a, b);
    InstantOrder(b, a);
    SecondsOrder(a, b);
    if x == y {
      LessIrreflexive(Tail(x));
    } else {
      TailOrder(x, y);
      LessTrichotomy(x, y);
      if Tail(x) == Tail(y) {
        LessIrreflexive(Tail(x));
        TailOrder(y, x);
      }
    }
  }

  /** Stamps written with one fraction width, as RFC 3339 section 5.1 asks, are never reversed. */
  lemma EqualWidthsOrderByTime(a: Stamp, b: Stamp)
    requires |Fraction(a)| == |Fraction(b)|
    ensures TextBefore(a, b) <==> a.Instant() < b.Instant()
  {
    TextOrder(a, b);
  }

  /** The family that goes wrong most often: a whole second sorts after every fraction of itself. */
  lemma WholeSecondSortsLast(t: Stamp)
    requires t.nanos > 0
    ensures var whole := t.(nanos := 0);
            Reversed(t, whole) && whole.Instant() < t.Instant() && TextBefore(t, whole)
  {
    var whole: Stamp := t.(nanos := 0);
    ZeroDigits(9);
    KeptLengthShape(Digits(0, 9), 9);
    assert Fraction(whole) == [];
    FractionOrder(whole, t);
    assert ProperPrefix(Fraction(whole), Fraction(t));
    InstantOrder(whole, t);
    SecondsOrder(whole, t);
    TextOrder(t, whole);
  }

  lemma {:induction false} ZeroDigits(w: nat)
    ensures forall i :: 0 <= i < w ==> Digits(0, w)[i] == 48
  {
    if w > 0 {
      ZeroDigits(w - 1);
    }
  }

  // ----- Times as the database columns hold them

  /** A stored time: the text SQLite compares and the instant (nanoseconds since Go's zero time) it parses back to. */
  datatype StoredTime = StoredTime(text: Key, instant: int)

  function Stored(t: Stamp): StoredTime {
    StoredTime(Text(t), t.Instant())
  }

  /** SQLite's scalar MIN and MAX on two text values. */
  function TextMin(a: StoredTime, b: StoredTime): StoredTime {
    if Less(b.text, a.text) then b else a
  }

  function TextMax(a: StoredTime, b: StoredTime): StoredTime {
    if Less(a.text, b.text) then b else a
  }

  /** The time is one of them, and none has a smaller text. */
  ghost predicate IsTextMin(t: StoredTime, times: set<StoredTime>) {
    t in times && forall u :: u in times ==> !Less(u.text, t.text)
  }

  ghost predicate IsTextMax(t: StoredTime, times: set<StoredTime>) {
    t in times && forall u :: u in times ==> !Less(t.text, u.text)
  }

  lemma TextMinMoves(t: StoredTime, u: StoredTime, times: set<StoredTime>)
    requires IsTextMin(t, times)
    ensures IsTextMin(TextMin(t, u), times + {u})
  {
    LessIrreflexive(u.text);
    forall v | v in times + {u} ensures !Less(v.text, TextMin(t, u).text) {
      if v in times && Less(v.text, u.text) && Less(u.text, t.text) {
        LessTransitive(v.text, u.text, t.text);
      }
    }
  }

  lemma TextMaxMoves(t: StoredTime, u: StoredTime, times: set<StoredTime>)
    requires IsTextMax(t, times)
    ensures IsTextMax(TextMax(t, u), times + {u})
  {
    LessIrreflexive(u.text);
    forall v | v in times + {u} ensures !Less(TextMax(t, u).text, v.text) {
      if v in times && Less(t.text, u.text) && Less(u.text, v.text) {
        LessTransitive(t.text, u.text, v.text);
      }
    }
  }

  lemma OnlyTime(t: StoredTime)
    ensures IsTextMin(t, {t}) && IsTextMax(t, {t})
  {
    LessIrreflexive(t.text);
  }

  /** Text order turned against time order. */
  predicate OutOfOrder(a: StoredTime, b: StoredTime) {
    (Less(a.text, b.text) && b.instant < a.instant) || (Less(b.text, a.text) && a.instant < b.instant)
  }

  /** Text order agrees with time order or is turned against it, and equal texts are equal times. */
  predicate Comparable(a: StoredTime, b: StoredTime) {
    && (a.text == b.text <==> a == b) && (a.instant == b.instant <==> a == b)
    && (OutOfOrder(a, b) || (Less(a.text, b.text) <==> a.instant < b.instant))
  }

  /** Stored stamps are always comparable, and out of order exactly when the two are a reversed pair. */
  lemma StoredOrder(a: Stamp, b: Stamp)
    ensures Comparable(Stored(a), Stored(b))
    ensures OutOfOrder(Stored(a), Stored(b)) <==> Reversed(a, b)
  {
    TextOrder(a, b);
    TextOrder(b, a);
    LessIrreflexive(Text(a));
    LessTrichotomy(Text(a), Text(b));
  }

  /** The interval a drain reports: the rows' extremes, one second long when they do not span any time. */
  function IntervalStart(first: int, last: int): int {
    if first == 0 || last <= first then last - NANOS_PER_SECOND else first
  }
}
