/** Serialized keys of the key-value store, and the range that a prefix query scans. */
module KvKeys {
  import opened Options
  import opened Utf16

  const SEP: CodeUnit := 0
  const TOP: CodeUnit := 0xFFFF

  type Key = seq<JsString>

  predicate Separable(key: Key) {
    forall i :: 0 <= i < |key| ==> SEP !in key[i]
  }

  function Join(key: Key): JsString {
    if key == [] then []
    else if |key| == 1 then key[0]
    else key[0] + [SEP] + Join(key[1..])
  }

  /** The serialized key, unless a part contains the separator. */
  function BuildKey(key: Key): Option<JsString> {
    if Separable(key) then Some(Join(key)) else None
  }

  /** Splits at every separator, so the result is never empty. */
  function ExtractKey(s: JsString): (key: Key)
    ensures key != [] && Separable(key)
  {
    if s == [] then [[]]
    else
      var rest := ExtractKey(s[1..]);
      if s[0] == SEP then [[]] + rest else [[s[0]] + rest[0]] + rest[1..]
  }

  lemma {:induction false} ExtractPart(part: JsString, rest: JsString)
    requires SEP !in part
    ensures ExtractKey(part + [SEP] + rest) == [part] + ExtractKey(rest)
    ensures ExtractKey(part) == [part]
  {
    if part == [] {
      assert part + [SEP] + rest == [SEP] + rest;
      assert ([SEP] + rest)[1..] == rest;
    } else {
      ExtractPart(part[1..], rest);
      assert (part + [SEP] + rest)[1..] == part[1..] + [SEP] + rest;
      assert part == [part[0]] + part[1..];
    }
  }

  /** Extracting undoes building, on every key but the empty one. */
  lemma {:induction false} ExtractUndoesBuild(key: Key)
    requires Separable(key)
    ensures ExtractKey(Join(key)) == if key == [] then [[]] else key
  {
    if key != [] {
      ExtractPart(key[0], Join(key[1..]));
      if |key| > 1 {
        ExtractUndoesBuild(key[1..]);
        assert key == [key[0]] + key[1..];
      } else {
        assert key == [key[0]];
      }
    }
  }

  lemma {:induction false} BuildUndoesExtract(s: JsString)
    ensures Join(ExtractKey(s)) == s
  {
    if s != [] {
      var rest := ExtractKey(s[1..]);
      BuildUndoesExtract(s[1..]);
      assert s == [s[0]] + s[1..];
      if s[0] == SEP {
        assert ([[]] + rest)[1..] == rest;
      } else {
        var key := [[s[0]] + rest[0]] + rest[1..];
        assert key[1..] == rest[1..] && key[0] == [s[0]] + rest[0];
        if |rest| > 1 {
          assert Join(key) == [s[0]] + (rest[0] + [SEP] + Join(rest[1..]));
        }
      }
    }
  }

  // ---------------------------------------------------------------- the range

  function LowerBound(prefix: Key): JsString {
    Join(prefix + [[]])
  }

  function UpperBound(prefix: Key): JsString {
    Join(prefix + [[TOP]])
  }

  predicate InRange(s: JsString, prefix: Key) {
    Leq(LowerBound(prefix), s) && Leq(s, UpperBound(prefix))
  }

  /** The key has the parts of the prefix and at least one more. */
  predicate StrictlyExtends(key: Key, prefix: Key) {
    |prefix| < |key| && key[..|prefix|] == prefix
  }

  /** The first part after n does not reach past U+FFFF: it does not start with it, or it is all that follows. */
  predicate BelowTop(key: Key, n: nat)
    requires n < |key|
  {
    key[n] == [] || key[n][0] != TOP || (key[n] == [TOP] && n + 1 == |key|)
  }

  lemma JoinCons(part: JsString, key: Key)
    requires key != []
    ensures Join([part] + key) == part + [SEP] + Join(key)
  {
    assert ([part] + key)[1..] == key;
  }

  lemma SepIsUnique(p: JsString, t: JsString, k: JsString, u: JsString)
    requires SEP !in p && SEP !in k
    ensures p + [SEP] + t == k + [SEP] + u <==> p == k && t == u
    ensures p + [SEP] + t != k
  {
    ExtractPart(p, t);
    ExtractPart(k, u);
    BuildUndoesExtract(t);
    BuildUndoesExtract(u);
    assert ([p] + ExtractKey(t))[1..] == ExtractKey(t) && ([k] + ExtractKey(u))[1..] == ExtractKey(u);
    assert (p + [SEP] + t)[|p|] == SEP;
  }

  lemma RangeOfNoPrefix(key: Key)
    requires key != [] && Separable(key)
    ensures InRange(Join(key), []) <==> BelowTop(key, 0)
  {
    var none: Key := [];
    assert none + [[]] == [[]] && none + [[TOP]] == [[TOP]];
    assert LowerBound([]) == [] && UpperBound([]) == [TOP];
    var s := Join(key);
    assert Leq(s, [TOP]) <==> s == [] || s[0] != TOP || s[1..] == [];
    if |key| > 1 {
      assert s == key[0] + ([SEP] + Join(key[1..]));
      if key[0] != [] {
        assert s[0] == key[0][0] && |s| >= 2;
      }
    } else if key[0] != [] && key[0][0] == TOP {
      assert s[1..] == [] <==> key[0] == [TOP];
    }
  }

  lemma BoundsCons(part: JsString, prefix: Key)
    ensures LowerBound([part] + prefix) == part + [SEP] + LowerBound(prefix)
    ensures UpperBound([part] + prefix) == part + [SEP] + UpperBound(prefix)
  {
    assert [part] + prefix + [[]] == [part] + (prefix + [[]]);
    assert [part] + prefix + [[TOP]] == [part] + (prefix + [[TOP]]);
    JoinCons(part, prefix + [[]]);
    JoinCons(part, prefix + [[TOP]]);
  }

  /** One part of the prefix: a serialized key is in the range exactly when it starts with that part
      and the rest of it is in the range of the rest. */
  lemma {:induction false} RangeStep(part: JsString, prefix: Key, key: Key)
    requires SEP !in part && key != [] && Separable(key)
    ensures InRange(Join(key), [part] + prefix) <==>
            |key| > 1 && key[0] == part && InRange(Join(key[1..]), prefix)
  {
    BoundsCons(part, prefix);
    hide LowerBound, UpperBound, Leq, Join;
    if |key| > 1 && key[0] == part {
      PartCancels(part, key, LowerBound(prefix), UpperBound(prefix));
    } else if InRange(Join(key), [part] + prefix) {
      PartIsShared(part, key, LowerBound(prefix), UpperBound(prefix));
    }
  }

  lemma PartCancels(part: JsString, key: Key, lo: JsString, hi: JsString)
    requires |key| > 1 && key[0] == part
    ensures Leq(part + [SEP] + lo, Join(key)) <==> Leq(lo, Join(key[1..]))
    ensures Leq(Join(key), part + [SEP] + hi) <==> Leq(Join(key[1..]), hi)
  {
    assert Join(key) == part + [SEP] + Join(key[1..]);
    hide *;
    LeqAfterPrefix(part + [SEP], lo, Join(key[1..]));
    LeqAfterPrefix(part + [SEP], Join(key[1..]), hi);
  }

  lemma {:induction false} PartIsShared(part: JsString, key: Key, lo: JsString, hi: JsString)
    requires SEP !in part && key != [] && Separable(key)
    requires Leq(part + [SEP] + lo, Join(key)) && Leq(Join(key), part + [SEP] + hi)
    ensures |key| > 1 && key[0] == part
  {
    var rest := if |key| > 1 then Join(key[1..]) else [];
    assert Join(key) == if |key| > 1 then key[0] + [SEP] + rest else key[0];
    assert SEP !in key[0];
    hide *;
    BetweenSharesPrefix(part + [SEP], lo, Join(key), hi);
    var t := Join(key)[|part + [SEP]|..];
    assert Join(key) == part + [SEP] + t;
    SepIsUnique(part, t, key[0], rest);
  }

  /** The string range is the structural prefix query, but for keys that reach past U+FFFF. */
  lemma {:induction false} RangeIsPrefixQuery(key: Key, prefix: Key)
    requires key != [] && Separable(key) && Separable(prefix)
    ensures InRange(Join(key), prefix) <==> StrictlyExtends(key, prefix) && BelowTop(key, |prefix|)
    decreases |prefix|
  {
    if prefix == [] {
      RangeOfNoPrefix(key);
    } else {
      assert prefix == [prefix[0]] + prefix[1..];
      RangeStep(prefix[0], prefix[1..], key);
      if |key| > 1 {
        RangeIsPrefixQuery(key[1..], prefix[1..]);
        hide Join, InRange;
        assert key == [key[0]] + key[1..];
        assert |key| >= |prefix| ==> key[..|prefix|] == [key[0]] + key[1..][..|prefix| - 1];
      }
    }
  }

  /** Keys that a prefix query should and does not find: one that goes past U+FFFF. */
  lemma PastTopIsMissed(prefix: Key)
    requires Separable(prefix)
    ensures StrictlyExtends(prefix + [[TOP, 65]], prefix) && !InRange(Join(prefix + [[TOP, 65]]), prefix)
  {
    var key := prefix + [[TOP, 65]];
    assert key[|prefix|] == [TOP, 65] && key[..|prefix|] == prefix;
    hide Join, InRange;
    assert Separable(key);
    RangeIsPrefixQuery(key, prefix);
  }

  /** And the key equal to the prefix is not in the range. */
  lemma PrefixIsMissed(prefix: Key)
    requires Separable(prefix) && prefix != []
    ensures !InRange(Join(prefix), prefix)
  {
    RangeIsPrefixQuery(prefix, prefix);
  }

  /** No part contains the separator or U+FFFF. */
  predicate Plain(key: Key) {
    forall i :: 0 <= i < |key| ==> SEP !in key[i] && TOP !in key[i]
  }

  lemma RangeIsPrefixQueryOnPlainKeys(key: Key, prefix: Key)
    requires key != [] && Plain(key) && Separable(prefix)
    ensures InRange(Join(key), prefix) <==> StrictlyExtends(key, prefix)
  {
    RangeIsPrefixQuery(key, prefix);
    hide Join;
    if StrictlyExtends(key, prefix) && key[|prefix|] != [] {
      assert key[|prefix|][0] in key[|prefix|];
    }
  }
}
