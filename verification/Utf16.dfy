/** Strings of UTF-16 code units and their lexicographic order, the order of string keys in IndexedDB. */
module Utf16 {
  newtype CodeUnit = n: int | 0 <= n < 0x1_0000

  type JsString = seq<CodeUnit>

  predicate Leq(a: JsString, b: JsString) {
    a == [] || (b != [] && (a[0] < b[0] || (a[0] == b[0] && Leq(a[1..], b[1..]))))
  }

  predicate Less(a: JsString, b: JsString) {
    Leq(a, b) && a != b
  }

  lemma {:induction false} LeqTotal(a: JsString, b: JsString)
    ensures Leq(a, b) || Leq(b, a)
    ensures Leq(a, b) && Leq(b, a) ==> a == b
    ensures Leq(a, a)
  {
    if a != [] {
      LeqTotal(a[1..], if b == [] then [] else b[1..]);
      if b != [] && a[1..] == b[1..] && a[0] == b[0] {
        assert a == [a[0]] + a[1..] && b == [b[0]] + b[1..];
      }
    }
  }

  lemma {:induction false} LeqTransitive(a: JsString, b: JsString, c: JsString)
    requires Leq(a, b) && Leq(b, c)
    ensures Leq(a, c)
  {
    if a != [] && a[0] == b[0] == c[0] {
      LeqTransitive(a[1..], b[1..], c[1..]);
    }
  }

  /** Do the strings first differ at k, the first with the smaller unit there? */
  ghost predicate SmallerAt(a: JsString, b: JsString, k: nat) {
    k < |a| && k < |b| && a[..k] == b[..k] && a[k] < b[k]
  }

  lemma SmallerAtFirst(a: JsString, b: JsString, k: nat)
    requires SmallerAt(a, b, k)
    ensures k == 0 || a[0] == b[0]
  {
    assert k > 0 ==> a[..k][0] == a[0] && b[..k][0] == b[0];
  }

  /** The first string begins the second, or has the smaller unit where they first differ. */
  lemma {:induction false} LeqExactlyWhen(a: JsString, b: JsString)
    ensures Leq(a, b) <==> a <= b || exists k: nat :: SmallerAt(a, b, k)
  {
    if a != [] && b != [] {
      if a[0] == b[0] {
        LeqExactlyWhen(a[1..], b[1..]);
        assert a == [a[0]] + a[1..] && b == [b[0]] + b[1..];
        if k: nat :| SmallerAt(a[1..], b[1..], k) {
          assert a[..k + 1] == [a[0]] + a[1..][..k] && b[..k + 1] == [b[0]] + b[1..][..k];
          assert SmallerAt(a, b, k + 1);
        }
        if k: nat :| SmallerAt(a, b, k) {
          assert k > 0;
          assert a[1..][..k - 1] == a[..k][1..] && b[1..][..k - 1] == b[..k][1..];
          assert SmallerAt(a[1..], b[1..], k - 1);
        }
      } else {
        assert a[0] < b[0] ==> SmallerAt(a, b, 0);
        if k: nat :| SmallerAt(a, b, k) {
          SmallerAtFirst(a, b, k);
        }
      }
    }
  }

  /** A common beginning does not matter for the order. */
  lemma {:induction false} LeqAfterPrefix(p: JsString, a: JsString, b: JsString)
    ensures Leq(p + a, p + b) <==> Leq(a, b)
  {
    if p == [] {
      assert p + a == a && p + b == b;
    } else {
      LeqAfterPrefix(p[1..], a, b);
      assert (p + a)[1..] == p[1..] + a && (p + b)[1..] == p[1..] + b;
    }
  }

  /** Whatever lies between two strings with a common beginning shares that beginning. */
  lemma {:induction false} BetweenSharesPrefix(p: JsString, a: JsString, s: JsString, b: JsString)
    requires Leq(p + a, s) && Leq(s, p + b)
    ensures p <= s
  {
    if p != [] {
      assert (p + a)[1..] == p[1..] + a && (p + b)[1..] == p[1..] + b;
      BetweenSharesPrefix(p[1..], a, s[1..], b);
      assert s == [s[0]] + s[1..];
    }
  }

  ghost predicate IsLeast(s: set<JsString>, k: JsString) {
    k in s && forall x :: x in s ==> Leq(k, x)
  }

  /** A non-empty set of strings has a least one. */
  lemma {:induction false} Least(s: set<JsString>) returns (k: JsString)
    requires s != {}
    ensures IsLeast(s, k)
    decreases |s|
  {
    hide Leq;
    var a :| a in s;
    var rest := s - {a};
    LeqTotal(a, a);
    k := a;
    if rest != {} {
      var m := Least(rest);
      LeqTotal(a, m);
      if !Leq(a, m) {
        k := m;
      }
      forall x | x in rest
        ensures Leq(k, x)
      {
        if k == a {
          LeqTransitive(a, m, x);
        }
      }
    }
    assert forall x :: x in s ==> x == a || x in rest;
  }
}
