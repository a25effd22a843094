/**
 * A table of hash buckets as a finite map: each entry sits in the bucket of
 * its own key and no two entries have the same key.
 */
module HashBuckets {

  ghost predicate Refines<K, E>(t: seq<seq<E>>, m: map<K, E>, key: E -> K, hash: K -> nat) {
    && (forall b, i :: 0 <= b < |t| && 0 <= i < |t[b]| ==>
          hash(key(t[b][i])) == b && key(t[b][i]) in m && m[key(t[b][i])] == t[b][i])
    && (forall b, i, j :: 0 <= b < |t| && 0 <= i < j < |t[b]| ==> key(t[b][i]) != key(t[b][j]))
    && (forall k :: k in m ==> hash(k) < |t| && key(m[k]) == k && m[k] in t[hash(k)])
  }

  lemma EmptyRefines<K, E>(t: seq<seq<E>>, key: E -> K, hash: K -> nat)
    requires forall b :: 0 <= b < |t| ==> t[b] == []
    ensures Refines(t, map[], key, hash)
  {
  }

  /** A key with no entry in its own bucket is not in the map. */
  lemma Absent<K, E>(t: seq<seq<E>>, m: map<K, E>, key: E -> K, hash: K -> nat, k: K)
    requires Refines(t, m, key, hash) && hash(k) < |t|
    requires forall i :: 0 <= i < |t[hash(k)]| ==> key(t[hash(k)][i]) != k
    ensures k !in m
  {
  }

  lemma KeysMatch<K, E>(t: seq<seq<E>>, m: map<K, E>, key: E -> K, hash: K -> nat)
    requires Refines(t, m, key, hash)
    ensures forall k :: k in m ==> key(m[k]) == k
  {
  }

  /** Insertion at the head of the bucket. */
  lemma Inserted<K, E>(t: seq<seq<E>>, m: map<K, E>, key: E -> K, hash: K -> nat, e: E)
    requires Refines(t, m, key, hash) && hash(key(e)) < |t| && key(e) !in m
    ensures Refines(t[hash(key(e)) := [e] + t[hash(key(e))]], m[key(e) := e], key, hash)
  {
    var h := hash(key(e));
    var t', m' := t[h := [e] + t[h]], m[key(e) := e];
    forall k | k in m'
      ensures hash(k) < |t'| && key(m'[k]) == k && m'[k] in t'[hash(k)]
    {
      if k == key(e) {
        assert t'[h][0] == e;
      } else {
        assert m[k] in t[hash(k)];
      }
    }
    forall b, i | 0 <= b < |t'| && 0 <= i < |t'[b]|
      ensures hash(key(t'[b][i])) == b && key(t'[b][i]) in m' && m'[key(t'[b][i])] == t'[b][i]
    {
      if b == h && i > 0 { assert t'[b][i] == t[b][i - 1]; }
    }
    forall b, i, j | 0 <= b < |t'| && 0 <= i < j < |t'[b]|
      ensures key(t'[b][i]) != key(t'[b][j])
    {
      if b == h { assert t'[b][j] == t[b][j - 1]; }
    }
  }

  function Cut<E>(s: seq<E>, i: nat): (r: seq<E>)
    requires i < |s|
    ensures |r| == |s| - 1
    ensures forall j :: 0 <= j < i ==> r[j] == s[j]
    ensures forall j :: i <= j < |s| - 1 ==> r[j] == s[j + 1]
  {
    s[..i] + s[i + 1..]
  }

  /** A bucket by itself: one entry fewer, the others still there. */
  lemma CutKeeps<K, E>(s: seq<E>, i: nat, key: E -> K)
    requires i < |s| && forall j, l :: 0 <= j < l < |s| ==> key(s[j]) != key(s[l])
    ensures forall e :: e in Cut(s, i) ==> e in s && key(e) != key(s[i])
    ensures forall e :: e in s && key(e) != key(s[i]) ==> e in Cut(s, i)
    ensures forall j, l :: 0 <= j < l < |Cut(s, i)| ==> key(Cut(s, i)[j]) != key(Cut(s, i)[l])
  {
    var r := Cut(s, i);
    forall e | e in s && key(e) != key(s[i])
      ensures e in r
    {
      var j :| 0 <= j < |s| && s[j] == e;
      assert r[if j < i then j else j - 1] == e;
    }
  }

  /** Removal of the entry at place `i` of bucket `b`. */
  lemma Removed<K, E>(t: seq<seq<E>>, m: map<K, E>, key: E -> K, hash: K -> nat, b: nat, i: nat)
    requires Refines(t, m, key, hash) && b < |t| && i < |t[b]|
    ensures Refines(t[b := Cut(t[b], i)], m - {key(t[b][i])}, key, hash)
  {
    hide Cut;
    var k0 := key(t[b][i]);
    var t', m' := t[b := Cut(t[b], i)], m - {k0};
    CutKeeps(t[b], i, key);
    forall c, j | 0 <= c < |t'| && 0 <= j < |t'[c]|
      ensures hash(key(t'[c][j])) == c && key(t'[c][j]) in m' && m'[key(t'[c][j])] == t'[c][j]
    {
      var e := t'[c][j];
      assert e in t[c];
      var l :| 0 <= l < |t[c]| && t[c][l] == e;
    }
  }

  /** An entry replaced by one with the same key. */
  lemma Replaced<K, E>(t: seq<seq<E>>, m: map<K, E>, key: E -> K, hash: K -> nat, b: nat, i: nat, e: E)
    requires Refines(t, m, key, hash) && b < |t| && i < |t[b]| && key(e) == key(t[b][i])
    ensures Refines(t[b := t[b][i := e]], m[key(e) := e], key, hash)
  {
    var t', m' := t[b := t[b][i := e]], m[key(e) := e];
    forall k | k in m'
      ensures hash(k) < |t'| && key(m'[k]) == k && m'[k] in t'[hash(k)]
    {
      if k == key(e) {
        assert t'[b][i] == e;
      } else {
        var j :| 0 <= j < |t[hash(k)]| && t[hash(k)][j] == m[k];
        assert t'[hash(k)][j] == m[k];
      }
    }
  }

  // ---- Walking all buckets ----

  /** The entries in the order of a walk over all buckets. */
  function Walk<E>(t: seq<seq<E>>): seq<E> {
    if t == [] then [] else Walk(t[..|t| - 1]) + t[|t| - 1]
  }

  lemma WalkSnoc<E>(t: seq<seq<E>>, b: nat)
    requires b < |t|
    ensures Walk(t[..b + 1]) == Walk(t[..b]) + t[b]
  {
    assert t[..b + 1][..b] == t[..b];
  }

  /** A sequence that names every entry of a map once. */
  ghost predicate Lists<K, E>(s: seq<E>, m: map<K, E>, key: E -> K) {
    && (forall i :: 0 <= i < |s| ==> key(s[i]) in m && m[key(s[i])] == s[i])
    && DistinctKeys(s, key)
    && (forall k :: k in m ==> m[k] in s && key(m[k]) == k)
  }

  lemma {:induction false} WalkPrefix<K, E>(t: seq<seq<E>>, n: nat, key: E -> K, hash: K -> nat)
    requires n <= |t|
    requires forall b, i :: 0 <= b < |t| && 0 <= i < |t[b]| ==> hash(key(t[b][i])) == b
    requires forall b, i, j :: 0 <= b < |t| && 0 <= i < j < |t[b]| ==> key(t[b][i]) != key(t[b][j])
    ensures forall e :: e in Walk(t[..n]) ==> hash(key(e)) < n && e in t[hash(key(e))]
    ensures forall b, i :: 0 <= b < n && 0 <= i < |t[b]| ==> t[b][i] in Walk(t[..n])
    ensures DistinctKeys(Walk(t[..n]), key)
  {
    if n > 0 {
      WalkPrefix(t, n - 1, key, hash);
      assert t[..n][..n - 1] == t[..n - 1];
      forall e, f | e in Walk(t[..n - 1]) && f in t[n - 1]
        ensures key(e) != key(f)
      {
      }
      DistinctAppend(Walk(t[..n - 1]), t[n - 1], key);
    }
  }

  ghost predicate DistinctKeys<K, E>(s: seq<E>, key: E -> K) {
    forall i, j :: 0 <= i < j < |s| ==> key(s[i]) != key(s[j])
  }

  lemma DistinctAppend<K, E>(s: seq<E>, t: seq<E>, key: E -> K)
    requires DistinctKeys(s, key) && DistinctKeys(t, key)
    requires forall e, f :: e in s && f in t ==> key(e) != key(f)
    ensures DistinctKeys(s + t, key)
  {
    var w := s + t;
    forall i, j | 0 <= i < j < |w|
      ensures key(w[i]) != key(w[j])
    {
      if i < |s| <= j {
        assert w[i] == s[i] && s[i] in s && w[j] == t[j - |s|] && t[j - |s|] in t;
      }
    }
  }

  lemma WalkLists<K, E>(t: seq<seq<E>>, m: map<K, E>, key: E -> K, hash: K -> nat)
    requires Refines(t, m, key, hash)
    ensures Lists(Walk(t), m, key)
  {
    WalkPrefix(t, |t|, key, hash);
    assert t[..|t|] == t;
    var w := Walk(t);
    forall i | 0 <= i < |w|
      ensures key(w[i]) in m && m[key(w[i])] == w[i]
    {
      assert w[i] in w;
    }
  }

  /** The map an entry-by-entry construction ends with. */
  function MapOf<K, E>(s: seq<E>, key: E -> K): map<K, E> {
    if s == [] then map[] else MapOf(s[..|s| - 1], key)[key(s[|s| - 1]) := s[|s| - 1]]
  }

  lemma {:induction false} MapOfFacts<K, E>(s: seq<E>, key: E -> K)
    ensures forall k :: k in MapOf(s, key) ==> MapOf(s, key)[k] in s && key(MapOf(s, key)[k]) == k
    ensures forall e :: e in s ==> key(e) in MapOf(s, key)
  {
    if s != [] {
      MapOfFacts(s[..|s| - 1], key);
      assert s == s[..|s| - 1] + [s[|s| - 1]];
    }
  }

  lemma MapOfSnoc<K, E>(s: seq<E>, key: E -> K, e: E)
    ensures MapOf(s + [e], key) == MapOf(s, key)[key(e) := e]
  {
    assert (s + [e])[..|s|] == s;
  }

  /** A listing rebuilds the map it lists. */
  lemma ListingRebuilds<K, E>(s: seq<E>, m: map<K, E>, key: E -> K)
    requires Lists(s, m, key)
    ensures MapOf(s, key) == m
  {
    hide MapOf;
    MapOfFacts(s, key);
    var r := MapOf(s, key);
    forall k | k in r
      ensures k in m && r[k] == m[k]
    {
      var i :| 0 <= i < |s| && s[i] == r[k];
    }
    forall k | k in m
      ensures k in r
    {
      assert m[k] in s;
    }
  }

  // ---- Counting entries ----

  ghost function Count<K, E>(m: map<K, E>, p: E -> bool): nat {
    |set k | k in m && p(m[k])|
  }

  lemma CountInserted<K, E>(m: map<K, E>, k: K, e: E, p: E -> bool)
    requires k !in m
    ensures Count(m[k := e], p) == Count(m, p) + if p(e) then 1 else 0
  {
    var s := set x | x in m && p(m[x]);
    var m' := m[k := e];
    assert (set x | x in m' && p(m'[x])) == if p(e) then s + {k} else s;
  }

  lemma CountSome<K, E>(m: map<K, E>, k: K, p: E -> bool)
    requires k in m && p(m[k])
    ensures Count(m, p) > 0
  {
    CountRemoved(m, k, p);
  }

  lemma CountRemoved<K, E>(m: map<K, E>, k: K, p: E -> bool)
    requires k in m
    ensures Count(m - {k}, p) == Count(m, p) - if p(m[k]) then 1 else 0
  {
    var m' := m - {k};
    var s := set x | x in m && p(m[x]);
    assert (set x | x in m' && p(m'[x])) == if p(m[k]) then s - {k} else s;
  }

  lemma CountReplaced<K, E>(m: map<K, E>, k: K, e: E, p: E -> bool)
    requires k in m && p(e) == p(m[k])
    ensures Count(m[k := e], p) == Count(m, p)
  {
    var m' := m[k := e];
    assert (set x | x in m' && p(m'[x])) == (set x | x in m && p(m[x]));
  }
}
