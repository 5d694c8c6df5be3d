/** Ids of queued messages: the clock reading, a dash, and the sequence number padded to six digits. */
module MessageIds {
  import opened Utf16

  const ZERO: CodeUnit := 48
  const DASH: CodeUnit := 45
  const WIDTH: nat := 6

  function Decimal(n: nat): JsString {
    if n < 10 then [ZERO + n as CodeUnit] else Decimal(n / 10) + [ZERO + (n % 10) as CodeUnit]
  }

  function Zeros(n: nat): JsString {
    if n == 0 then [] else [ZERO] + Zeros(n - 1)
  }

  function PadStart(s: JsString): JsString {
    if |s| < WIDTH then Zeros(WIDTH - |s|) + s else s
  }

  function Id(ts: nat, serial: nat): JsString {
    Decimal(ts) + [DASH] + PadStart(Decimal(serial))
  }

  // ---------------------------------------------------------------- reading ids back

  predicate Digits(s: JsString) {
    forall i :: 0 <= i < |s| ==> ZERO <= s[i] < ZERO + 10
  }

  function ValueOf(s: JsString): int {
    if s == [] then 0 else 10 * ValueOf(s[..|s| - 1]) + (s[|s| - 1] as int - ZERO as int)
  }

  lemma ValueOfAdded(s: JsString, d: CodeUnit)
    ensures ValueOf(s + [d]) == 10 * ValueOf(s) + (d as int - ZERO as int)
  {
    assert (s + [d])[..|s|] == s;
  }

  lemma {:induction false} ReadDecimal(n: nat)
    ensures ValueOf(Decimal(n)) == n && Digits(Decimal(n)) && Decimal(n) != []
  {
    if n >= 10 {
      ReadDecimal(n / 10);
      ValueOfAdded(Decimal(n / 10), ZERO + (n % 10) as CodeUnit);
    } else {
      ValueOfAdded([], ZERO + n as CodeUnit);
      assert [] + Decimal(n) == Decimal(n);
    }
  }

  lemma {:induction false} ReadZeros(k: nat, s: JsString)
    requires Digits(s)
    ensures ValueOf(Zeros(k) + s) == ValueOf(s) && Digits(Zeros(k) + s) && |Zeros(k)| == k
  {
    if k == 0 {
      assert Zeros(0) + s == s;
    } else {
      ReadZeros(k - 1, s);
      assert Zeros(k) + s == [ZERO] + (Zeros(k - 1) + s);
      ReadZero(Zeros(k - 1) + s);
    }
  }

  lemma {:induction false} ReadZero(s: JsString)
    ensures ValueOf([ZERO] + s) == ValueOf(s)
  {
    if s == [] {
      ValueOfAdded([], ZERO);
      assert [] + [ZERO] == [ZERO] + s;
    } else {
      var n := |s| - 1;
      ReadZero(s[..n]);
      ValueOfAdded([ZERO] + s[..n], s[n]);
      assert [ZERO] + s == ([ZERO] + s[..n]) + [s[n]];
    }
  }

  lemma ReadPadded(n: nat)
    ensures ValueOf(PadStart(Decimal(n))) == n && Digits(PadStart(Decimal(n)))
  {
    ReadDecimal(n);
    var s := Decimal(n);
    if |s| < WIDTH {
      ReadZeros(WIDTH - |s|, s);
    }
  }

  /** The dash is where the digits before it end. */
  lemma DashIsUnique(a: JsString, s: JsString, b: JsString, t: JsString)
    requires Digits(a) && Digits(b) && a + [DASH] + s == b + [DASH] + t
    ensures a == b && s == t
  {
    var left, right := a + [DASH] + s, b + [DASH] + t;
    assert left[|a|] == DASH && right[|b|] == DASH;
    assert forall i :: 0 <= i < |a| ==> left[i] != DASH;
    assert forall i :: 0 <= i < |b| ==> right[i] != DASH;
    assert |a| == |b|;
    assert a == left[..|a|] && b == right[..|b|];
    assert s == left[|a| + 1..] && t == right[|b| + 1..];
  }

  /** Different messages have different ids, whatever the clock says. */
  lemma IdsDiffer(t1: nat, n1: nat, t2: nat, n2: nat)
    ensures Id(t1, n1) == Id(t2, n2) <==> t1 == t2 && n1 == n2
  {
    hide Decimal, PadStart, ValueOf, Digits;
    if Id(t1, n1) == Id(t2, n2) {
      ReadDecimal(t1);
      ReadDecimal(t2);
      ReadPadded(n1);
      ReadPadded(n2);
      DashIsUnique(Decimal(t1), PadStart(Decimal(n1)), Decimal(t2), PadStart(Decimal(n2)));
    }
  }

  // ---------------------------------------------------------------- their order

  lemma {:induction false} LeqByParts(a: JsString, s: JsString, b: JsString, t: JsString)
    requires |a| == |b|
    ensures Leq(a + s, b + t) <==> Less(a, b) || (a == b && Leq(s, t))
  {
    if a == [] {
      assert a + s == s && b + t == t;
    } else {
      LeqByParts(a[1..], s, b[1..], t);
      assert (a + s)[1..] == a[1..] + s && (b + t)[1..] == b[1..] + t;
      assert a == [a[0]] + a[1..] && b == [b[0]] + b[1..];
    }
  }

  lemma LessByParts(a: JsString, s: JsString, b: JsString, t: JsString)
    requires |a| == |b|
    ensures Less(a + s, b + t) <==> Less(a, b) || (a == b && Less(s, t))
  {
    LeqByParts(a, s, b, t);
    hide Leq;
    assert (a + s)[..|a|] == a && (b + t)[..|a|] == b;
    assert (a + s)[|a|..] == s && (b + t)[|a|..] == t;
  }

  /** Digit strings of one width are ordered as the numbers they write. */
  lemma {:induction false} DigitOrder(a: JsString, b: JsString)
    requires Digits(a) && Digits(b) && |a| == |b|
    ensures Less(a, b) <==> ValueOf(a) < ValueOf(b)
    ensures a == b <==> ValueOf(a) == ValueOf(b)
  {
    if a != [] {
      var n := |a| - 1;
      DigitOrder(a[..n], b[..n]);
      LessByParts(a[..n], [a[n]], b[..n], [b[n]]);
      assert a == a[..n] + [a[n]] && b == b[..n] + [b[n]];
      assert Less([a[n]], [b[n]]) <==> a[n] < b[n];
      hide Less, Leq;
    }
  }

  function Pow10(k: nat): nat {
    if k == 0 then 1 else 10 * Pow10(k - 1)
  }

  lemma {:induction false} DecimalWidth(n: nat, k: nat)
    requires n < Pow10(k) && k >= 1
    ensures |Decimal(n)| <= k
  {
    if n >= 10 {
      DecimalWidth(n / 10, k - 1);
    }
  }

  lemma PaddedWidth(n: nat)
    requires n < 1_000_000
    ensures |PadStart(Decimal(n))| == WIDTH
  {
    assert Pow10(3) == 1000;
    assert Pow10(6) == 1_000_000;
    DecimalWidth(n, 6);
    hide Pow10, Decimal;
    ReadDecimal(n);
    ReadZeros(WIDTH - |Decimal(n)|, Decimal(n));
  }

  /** n without its last k digits. */
  function Leading(n: nat, k: nat): nat {
    if k == 0 then n else Leading(n / 10, k - 1)
  }

  /** Of m written with v digits and n written with w digits, which comes first in a dictionary: the leading
      digits that both have decide, and after equal ones the shorter comes first. */
  predicate WrittenBefore(m: nat, v: nat, n: nat, w: nat) {
    if v <= w then m < Leading(n, w - v) || (m == Leading(n, w - v) && v < w)
    else Leading(m, v - w) < n
  }

  lemma {:induction false} ValueIsNatural(s: JsString)
    requires Digits(s)
    ensures ValueOf(s) >= 0
  {
    if s != [] {
      ValueIsNatural(s[..|s| - 1]);
    }
  }

  lemma {:induction false} LeadingValue(s: JsString, k: nat)
    requires Digits(s) && k <= |s|
    ensures ValueOf(s) >= 0 && Digits(s[..|s| - k]) && ValueOf(s[..|s| - k]) == Leading(ValueOf(s), k)
  {
    ValueIsNatural(s);
    if k == 0 {
      assert s[..|s|] == s;
    } else {
      var init := s[..|s| - 1];
      LeadingValue(init, k - 1);
      assert ValueOf(s) / 10 == ValueOf(init);
      assert init[..|init| - (k - 1)] == s[..|s| - k];
    }
  }

  lemma LessThanNothing(a: JsString, b: JsString)
    requires a == [] || b == []
    ensures Less(a, b) <==> |a| < |b|
  {
  }

  /** The order of digit strings of any widths. */
  lemma DigitStringOrder(a: JsString, b: JsString)
    requires Digits(a) && Digits(b)
    ensures ValueOf(a) >= 0 && ValueOf(b) >= 0
    ensures Less(a, b) <==> WrittenBefore(ValueOf(a), |a|, ValueOf(b), |b|)
  {
    hide Less, Leq, ValueOf, Digits;
    ValueIsNatural(a);
    ValueIsNatural(b);
    assert Leading(ValueOf(a), 0) == ValueOf(a) && Leading(ValueOf(b), 0) == ValueOf(b);
    hide Leading;
    var c := if |a| <= |b| then |a| else |b|;
    var p, q := a[..c], b[..c];
    LeadingValue(a, |a| - c);
    LeadingValue(b, |b| - c);
    assert a == p + a[c..] && b == q + b[c..];
    LessThanNothing(a[c..], b[c..]);
    LessByParts(p, a[c..], q, b[c..]);
    DigitOrder(p, q);
  }

  function SerialWidth(n: nat): nat {
    |PadStart(Decimal(n))|
  }

  /** Which of two ids comes first, by clock readings and sequence numbers. */
  predicate IdBefore(t1: nat, n1: nat, t2: nat, n2: nat) {
    if t1 == t2 then WrittenBefore(n1, SerialWidth(n1), n2, SerialWidth(n2))
    else WrittenBefore(t1, |Decimal(t1)|, t2, |Decimal(t2)|)
  }

  /** The order of ids, for all clock readings and sequence numbers. */
  lemma {:induction false} IdOrder(t1: nat, n1: nat, t2: nat, n2: nat)
    ensures Less(Id(t1, n1), Id(t2, n2)) <==> IdBefore(t1, n1, t2, n2)
  {
    hide Decimal, PadStart, Less, Leq, ValueOf, Digits, WrittenBefore;
    var p1, p2 := PadStart(Decimal(n1)), PadStart(Decimal(n2));
    if t1 == t2 {
      ReadPadded(n1);
      ReadPadded(n2);
      DigitStringOrder(p1, p2);
      LessIsStrict(Decimal(t1) + [DASH]);
      LessByParts(Decimal(t1) + [DASH], p1, Decimal(t1) + [DASH], p2);
    } else {
      ReadDecimal(t1);
      ReadDecimal(t2);
      DigitStringOrder(Decimal(t1), Decimal(t2));
      ReadingsDecide(Decimal(t1), p1, Decimal(t2), p2);
    }
  }

  /** A dash comes before every digit, so it does not disturb the order of different readings. */
  lemma ReadingsDecide(a: JsString, s: JsString, b: JsString, t: JsString)
    requires Digits(a) && Digits(b) && a != b
    ensures Less(a + [DASH] + s, b + [DASH] + t) <==> Less(a, b)
  {
    var c := if |a| <= |b| then |a| else |b|;
    var p, q := a[..c], b[..c];
    var x, y := a[c..] + [DASH] + s, b[c..] + [DASH] + t;
    assert a == p + a[c..] && b == q + b[c..];
    assert a + [DASH] + s == p + x && b + [DASH] + t == q + y;
    assert p == q ==> |a| != |b|;
    assert |a| < |b| ==> x[0] == DASH && y[0] == b[c] && Less(x, y) && Less(a[c..], b[c..]);
    assert |b| < |a| ==> y[0] == DASH && x[0] == a[c] && !Less(x, y) && !Less(a[c..], b[c..]);
    hide Less, Digits;
    LessByParts(p, x, q, y);
    LessByParts(p, a[c..], q, b[c..]);
  }

  /** With readings of one width, and padded numbers of one width where the readings agree, that is the order of
      the readings and then of the numbers. */
  lemma EqualWidthsOrder(t1: nat, n1: nat, t2: nat, n2: nat)
    requires |Decimal(t1)| == |Decimal(t2)| && (t1 == t2 ==> SerialWidth(n1) == SerialWidth(n2))
    ensures IdBefore(t1, n1, t2, n2) <==> t1 < t2 || (t1 == t2 && n1 < n2)
  {
    hide Decimal, PadStart;
  }

  lemma LessIsStrict(a: JsString)
    ensures !Less(a, a)
  {
  }

  /** The millionth message and the one sent just before it, in the same instant, are the wrong way round. */
  lemma MillionthOvertakes(ts: nat)
    ensures !IdBefore(ts, 999_999, ts, 1_000_000)
    ensures Less(Id(ts, 1_000_000), Id(ts, 999_999))
  {
    PaddedWidth(999_999);
    assert Decimal(1_000_000) == [49, 48, 48, 48, 48, 48, 48] by {
      assert Decimal(1000) == [49, 48, 48, 48];
    }
    assert Leading(1_000_000, 1) == 100_000;
    hide Decimal, Id;
    IdOrder(ts, 1_000_000, ts, 999_999);
  }
}
