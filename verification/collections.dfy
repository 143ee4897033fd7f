/**
  Small value-level helpers shared by the workflow graph model: optional and
  failure-carrying results, the element set of a sequence, duplicate freedom,
  and insertion-ordered association lists (the model of a Python dict whose
  iteration order matters).
 */
module Collections {

  datatype Option<+T> = None | Some(value: T)

  datatype Result<+T, +E> = Success(value: T) | Failure(error: E)

  /** The set of elements of a sequence. */
  function Elems<T>(s: seq<T>): set<T>
  {
    set x | x in s
  }

  /** No element occurs twice. */
  predicate NoDup<T(==)>(s: seq<T>)
  {
    forall i, j :: 0 <= i < j < |s| ==> s[i] != s[j]
  }

  /** `a` is obtained from `b` by deleting elements, keeping the order of the rest. */
  ghost predicate IsSubsequence<T>(a: seq<T>, b: seq<T>)
    decreases |b|
  {
    if a == [] then true
    else if b == [] then false
    else (a[0] == b[0] && IsSubsequence(a[1..], b[1..])) || IsSubsequence(a, b[1..])
  }

  /** Elements of `s` in first-occurrence order, each kept once. */
  function Dedup<T(==)>(s: seq<T>): (d: seq<T>)
    ensures NoDup(d)
    ensures Elems(d) == Elems(s)
  {
    if s == [] then []
    else
      var d := Dedup(s[..|s| - 1]);
      assert s == s[..|s| - 1] + [s[|s| - 1]];
      assert Elems(s) == Elems(s[..|s| - 1]) + {s[|s| - 1]};
      if s[|s| - 1] in d then d else d + [s[|s| - 1]]
  }

  lemma AppendAssoc<T>(a: seq<T>, b: seq<T>, c: seq<T>)
    ensures (a + b) + c == a + (b + c)
  { }

  lemma DedupSnoc<T>(s: seq<T>, x: T)
    ensures Dedup(s + [x]) == if x in Dedup(s) then Dedup(s) else Dedup(s) + [x]
  {
    assert (s + [x])[..|s + [x]| - 1] == s;
  }

  lemma NoDupAppend<T>(s: seq<T>, x: T)
    requires NoDup(s) && x !in s
    ensures NoDup(s + [x])
  {
  }

  lemma SubsetCard<T>(a: set<T>, b: set<T>)
    requires a <= b
    ensures |a| <= |b|
  {
    assert b == a + (b - a);
  }

  lemma ProperSubsetCard<T>(a: set<T>, b: set<T>)
    requires a < b
    ensures |a| < |b|
  {
    assert b == a + (b - a);
    var x :| x in b - a;
  }

  // ---------------------------------------------------------------------------
  // Association lists: sequences of (key, value) pairs, used where the source
  // iterates a dict and therefore depends on its insertion order.

  /** The keys of an association list, in insertion order. */
  function Keys<K, V>(a: seq<(K, V)>): (ks: seq<K>)
    ensures |ks| == |a|
    ensures forall i :: 0 <= i < |a| ==> ks[i] == a[i].0
  {
    seq(|a|, i requires 0 <= i < |a| => a[i].0)
  }

  /** Position of key `k` (its first occurrence). */
  function IndexOf<K(==), V>(a: seq<(K, V)>, k: K): (i: nat)
    requires k in Keys(a)
    ensures i < |a| && a[i].0 == k
    ensures forall j :: 0 <= j < i ==> a[j].0 != k
  {
    if a[0].0 == k then 0
    else
      assert Keys(a) == [a[0].0] + Keys(a[1..]);
      1 + IndexOf(a[1..], k)
  }

  /** dict[k] = v: overwrite in place when `k` is present, otherwise append. */
  function Put<K(==), V>(a: seq<(K, V)>, k: K, v: V): (r: seq<(K, V)>)
    ensures k in Keys(a) ==>
              && |r| == |a| && r[IndexOf(a, k)] == (k, v)
              && forall j :: 0 <= j < |a| && j != IndexOf(a, k) ==> r[j] == a[j]
    ensures k !in Keys(a) ==> r == a + [(k, v)]
  {
    if k in Keys(a) then a[IndexOf(a, k) := (k, v)] else a + [(k, v)]
  }

  /** dict.get(k, d). */
  function GetOr<K(==), V>(a: seq<(K, V)>, k: K, d: V): V
  {
    if k in Keys(a) then a[IndexOf(a, k)].1 else d
  }

  lemma SameKeysSameIndex<K, V, W>(a: seq<(K, V)>, b: seq<(K, W)>, k: K)
    requires Keys(a) == Keys(b) && k in Keys(a)
    ensures IndexOf(a, k) == IndexOf(b, k)
  {
    var i, j := IndexOf(a, k), IndexOf(b, k);
    assert Keys(a)[i] == k && Keys(b)[j] == k;
  }

  lemma PutKeys<K, V>(a: seq<(K, V)>, k: K, v: V)
    ensures Keys(Put(a, k, v)) == if k in Keys(a) then Keys(a) else Keys(a) + [k]
  {
  }

  lemma PutGet<K, V>(a: seq<(K, V)>, k: K, v: V, k': K, d: V)
    ensures GetOr(Put(a, k, v), k', d) == if k' == k then v else GetOr(a, k', d)
  {
    var r := Put(a, k, v);
    PutKeys(a, k, v);
    if k in Keys(a) {
      if k' in Keys(a) {
        SameKeysSameIndex(r, a, k');
      }
    } else {
      if k' in Keys(a) {
        var i := IndexOf(a, k');
        assert r[..|a|] == a;
        assert forall j :: 0 <= j < i ==> r[j].0 != k';
      }
      if k' == k {
        assert r[|a|] == (k, v);
        assert forall j :: 0 <= j < |a| ==> r[j].0 == a[j].0;
      }
    }
  }

  lemma PutNoDup<K, V>(a: seq<(K, V)>, k: K, v: V)
    requires NoDup(Keys(a))
    ensures NoDup(Keys(Put(a, k, v)))
  {
    PutKeys(a, k, v);
  }

  /** With distinct keys, looking up an entry's key finds that entry. */
  lemma GetEntry<K, V>(a: seq<(K, V)>, i: nat, d: V)
    requires NoDup(Keys(a)) && i < |a|
    ensures a[i].0 in Keys(a) && GetOr(a, a[i].0, d) == a[i].1
  {
    assert Keys(a)[i] == a[i].0;
    var j := IndexOf(a, a[i].0);
    assert Keys(a)[j] == Keys(a)[i];
  }

  lemma TwoDistinctMembers<T>(s: seq<T>, x: T, y: T)
    requires x in s && y in s && x != y
    ensures |s| >= 2
  {
  }
}
