/**
 * Grouping (key, value) pairs into a dictionary of lists, the way Python's
 * `defaultdict(list)` and the JavaScript idiom `if (!m[k]) m[k] = []; m[k].push(v)` do it:
 * each key is inserted where it first occurs, and each key's list holds its values in the
 * order they were pushed.
 */
module Grouping {
  import opened Common

  /** The dictionary's keys in insertion order: each key where it first occurs. */
  function KeyOrder(es: seq<(string, string)>): seq<string> {
    if es == [] then []
    else
      var ko := KeyOrder(Init(es));
      if Last(es).0 in ko then ko else ko + [Last(es).0]
  }

  lemma KeyOrderAppend(es: seq<(string, string)>, e: (string, string))
    ensures KeyOrder(es + [e]) == if e.0 in KeyOrder(es) then KeyOrder(es) else KeyOrder(es) + [e.0]
  {
    assert Init(es + [e]) == es;
  }

  lemma ValuesForAppend(es: seq<(string, string)>, e: (string, string), k: string)
    ensures ValuesFor(es + [e], k) == ValuesFor(es, k) + (if e.0 == k then [e.1] else [])
  {
    assert Init(es + [e]) == es;
  }

  /** The list the dictionary holds under `k`: one value per occurrence of `k`, in pushing order. */
  function ValuesFor(es: seq<(string, string)>, k: string): seq<string> {
    if es == [] then []
    else ValuesFor(Init(es), k) + (if Last(es).0 == k then [Last(es).1] else [])
  }

  /** The keys of the pairs, in order. */
  function KeysOf(es: seq<(string, string)>): (r: seq<string>)
    ensures |r| == |es|
    ensures forall i :: 0 <= i < |es| ==> r[i] == es[i].0
  {
    seq(|es|, i requires 0 <= i < |es| => es[i].0)
  }

  /** The keys in insertion order are distinct and are exactly the keys that occur. */
  lemma {:induction false} KeyOrderCoversKeys(es: seq<(string, string)>)
    ensures Distinct(KeyOrder(es))
    ensures forall k :: k in KeyOrder(es) <==> k in KeysOf(es)
    decreases |es|
  {
    if es != [] {
      KeyOrderCoversKeys(Init(es));
      assert KeysOf(es) == KeysOf(Init(es)) + [Last(es).0];
    }
  }

  /** A key has values exactly when it is one of the dictionary's keys. */
  lemma {:induction false} ValuesForEmptyIffAbsent(es: seq<(string, string)>, k: string)
    ensures ValuesFor(es, k) == [] <==> k !in KeyOrder(es)
    decreases |es|
  {
    if es != [] {
      ValuesForEmptyIffAbsent(Init(es), k);
    }
  }

  /** Every key of the dictionary holds a non-empty list. */
  lemma KeysHaveValues(es: seq<(string, string)>)
    ensures forall k :: k in KeyOrder(es) ==> ValuesFor(es, k) != []
  {
    forall k | k in KeyOrder(es) ensures ValuesFor(es, k) != [] {
      ValuesForEmptyIffAbsent(es, k);
    }
  }

  /** A value is in `k`'s list exactly when the pair (k, value) was pushed. */
  lemma {:induction false} ValuesForHoldsThePairs(es: seq<(string, string)>, k: string)
    ensures forall v :: v in ValuesFor(es, k) <==> (k, v) in es
    decreases |es|
  {
    if es != [] {
      ValuesForHoldsThePairs(Init(es), k);
      assert es == Init(es) + [Last(es)];
    }
  }

  /** The dictionary itself: every key that occurs, mapped to its list. */
  function Grouped(es: seq<(string, string)>): (m: map<string, seq<string>>)
    ensures forall k :: k in m <==> k in KeyOrder(es)
    ensures forall k :: k in m ==> m[k] == ValuesFor(es, k) && m[k] != []
  {
    KeyOrderCoversKeys(es);
    KeysHaveValues(es);
    map k | k in KeyOrder(es) :: ValuesFor(es, k)
  }

  /** Pushing one more pair puts its value last in its key's list and leaves the other keys alone. */
  lemma GroupedAppend(es: seq<(string, string)>, e: (string, string))
    ensures Grouped(es + [e]) == Grouped(es)[e.0 := ValuesFor(es, e.0) + [e.1]]
  {
    var after, before := Grouped(es + [e]), Grouped(es);
    var expected := before[e.0 := ValuesFor(es, e.0) + [e.1]];
    KeyOrderAppend(es, e);
    forall k | k in after ensures k in expected && after[k] == expected[k] {
      ValuesForAppend(es, e, k);
    }
    forall k | k in expected ensures k in after {
    }
    assert after == expected;
  }
}
