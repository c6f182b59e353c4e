/** Small shared vocabulary: optional values, handler outcomes and sequence helpers. */
module Common {

  /** An optional value: a missing dictionary key, a nullable column, an undecodable payload. */
  datatype Option<+T> = None | Some(value: T) {
    /** The value, or `default` when absent (Python's `dict.get(key, default)`). */
    function GetOr(default: T): T {
      match this
      case Some(v) => v
      case None => default
    }
  }

  /** Outcome of a backend handler: its value, or the HTTP 404 it raises. */
  datatype Result<+T> = Ok(value: T) | NotFound

  function Last<T>(s: seq<T>): T
    requires |s| > 0
  {
    s[|s| - 1]
  }

  function Init<T>(s: seq<T>): seq<T>
    requires |s| > 0
  {
    s[..|s| - 1]
  }

  predicate Distinct<T(==)>(s: seq<T>) {
    forall i, j :: 0 <= i < j < |s| ==> s[i] != s[j]
  }

  /** `xs.filter(y => y !== x)`: every element except `x`, in order. */
  function Without<T(==,!new)>(s: seq<T>, x: T): (r: seq<T>)
    ensures forall y :: y in r <==> y in s && y != x
    ensures |r| <= |s|
    ensures x !in s ==> r == s
  {
    if s == [] then []
    else (if s[0] == x then [] else [s[0]]) + Without(s[1..], x)
  }

  /** Dropping an element just appended, and absent before, gives back the very sequence. */
  lemma {:induction false} WithoutAppended<T(!new)>(s: seq<T>, x: T)
    requires x !in s
    ensures Without(s + [x], x) == s
    decreases |s|
  {
    if s != [] {
      assert (s + [x])[1..] == s[1..] + [x];
      WithoutAppended(s[1..], x);
      assert s == [s[0]] + s[1..];
    } else {
      assert [x][1..] == [];
    }
  }

  /** Number of occurrences of `x` in `s`. */
  function Count<T(==)>(s: seq<T>, x: T): (n: nat)
    ensures n <= |s|
    ensures n == 0 <==> x !in s
  {
    if s == [] then 0
    else (if s[0] == x then 1 else 0) + Count(s[1..], x)
  }

  function Repeat<T>(x: T, n: nat): (r: seq<T>)
    ensures |r| == n
    ensures forall i :: 0 <= i < n ==> r[i] == x
  {
    if n == 0 then [] else [x] + Repeat(x, n - 1)
  }

  lemma {:induction false} WithoutPreservesDistinct<T(!new)>(s: seq<T>, x: T)
    ensures Distinct(s) ==> Distinct(Without(s, x))
  {
    if s != [] && Distinct(s) {
      WithoutPreservesDistinct(s[1..], x);
      assert s[0] !in s[1..];
    }
  }

  lemma {:induction false} CountOfDistinct<T>(s: seq<T>, x: T)
    requires Distinct(s)
    ensures Count(s, x) <= 1
  {
    if s != [] {
      CountOfDistinct(s[1..], x);
      assert s[0] !in s[1..];
    }
  }

  /**
   * `set.add(x)` on a JavaScript `Set`, held as its elements in insertion order: an element
   * already present stays where it is, a new one goes last.
   */
  function SetAdd<T(==,!new)>(s: seq<T>, x: T): (r: seq<T>)
    ensures forall y :: y in r <==> y in s || y == x
    ensures Distinct(s) ==> Distinct(r)
  {
    if x in s then s else s + [x]
  }

  /** A sequence has no repeated element exactly when its multiset holds each element at most once. */
  lemma {:induction false} DistinctMultiset<T>(s: seq<T>)
    ensures Distinct(s) <==> forall x :: multiset(s)[x] <= 1
    decreases |s|
  {
    if s != [] {
      var t, y := Init(s), Last(s);
      DistinctMultiset(t);
      assert s == t + [y];
      assert multiset(s) == multiset(t) + multiset{y};
      if Distinct(s) {
        assert Distinct(t) by {
          forall i, j | 0 <= i < j < |t| ensures t[i] != t[j] { assert t[i] == s[i] && t[j] == s[j]; }
        }
        forall m | 0 <= m < |t| ensures t[m] != y { assert t[m] == s[m]; }
        assert multiset(t)[y] == 0;
      } else if forall x :: multiset(t)[x] <= 1 {
        var i, j :| 0 <= i < j < |s| && s[i] == s[j];
        if j == |t| {
          assert t[i] == y && t[i] in multiset(t);
          assert multiset(s)[y] == multiset(t)[y] + 1;
        }
      } else {
        var x :| multiset(t)[x] > 1;
        assert multiset(s)[x] >= multiset(t)[x];
      }
    }
  }

  /** Position of the first element satisfying `p`: the row a query's `.first()` returns. */
  function FindFirst<T>(s: seq<T>, p: T -> bool): (r: Option<nat>)
    ensures r.Some? ==> r.value < |s| && p(s[r.value]) && forall j :: 0 <= j < r.value ==> !p(s[j])
    ensures r.None? ==> forall j :: 0 <= j < |s| ==> !p(s[j])
  {
    if s == [] then None
    else if p(s[0]) then Some(0)
    else match FindFirst(s[1..], p)
      case None => None
      case Some(k) => Some(k + 1)
  }

  /** The elements satisfying `p`, in their original order: a query's `.filter(...).all()`. */
  function Filter<T(!new)>(s: seq<T>, p: T -> bool): (r: seq<T>)
    ensures forall x :: x in r <==> x in s && p(x)
    ensures |r| <= |s|
  {
    if s == [] then [] else (if p(s[0]) then [s[0]] else []) + Filter(s[1..], p)
  }

  /** `s` without its element at `k`. */
  function RemoveAt<T>(s: seq<T>, k: nat): (r: seq<T>)
    requires k < |s|
    ensures |r| == |s| - 1
    ensures forall i :: 0 <= i < k ==> r[i] == s[i]
    ensures forall i :: k <= i < |r| ==> r[i] == s[i + 1]
  {
    s[..k] + s[k + 1..]
  }

  /** The positions of the elements satisfying `p`, in increasing order. */
  function Positions<T>(s: seq<T>, p: T -> bool): seq<nat> {
    if s == [] then [] else Positions(Init(s), p) + (if p(Last(s)) then [|s| - 1] else [])
  }

  /** The positions are increasing, and are exactly the positions of the elements satisfying `p`. */
  lemma {:induction false} PositionsAreExactlyTheMatches<T>(s: seq<T>, p: T -> bool)
    ensures var c := Positions(s, p);
            && |c| <= |s|
            && (forall a, b :: 0 <= a < b < |c| ==> c[a] < c[b])
            && (forall j :: 0 <= j < |c| ==> c[j] < |s| && p(s[c[j]]))
            && (forall i :: 0 <= i < |s| && p(s[i]) ==> i in c)
  {
    if s != [] {
      var t := Init(s);
      PositionsAreExactlyTheMatches(t, p);
      var c0 := Positions(t, p);
      var c := Positions(s, p);
      forall j | 0 <= j < |c0| ensures c[j] == c0[j] && s[c0[j]] == t[c0[j]] {
      }
      forall i | 0 <= i < |s| && p(s[i]) ensures i in c {
        if i < |t| {
          assert t[i] == s[i];
          assert i in c0;
        } else {
          assert c[|c| - 1] == i;
        }
      }
    }
  }
}
