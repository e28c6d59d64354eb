/** The insertion-ordered map that a waiter keeps its pending items in.

    A map is represented by its entries in insertion order, one pair
    (key, value) per key. The operations below model the ones the waiter
    uses on its map: `has`, `get`, `set` (which appends a new key and
    overwrites an existing one where it stands), `delete`, `size` and
    `values` (which yields the values in insertion order). */
module OrderedMap {
  import opened Wrappers

  /** `k` is one of the keys of `s`. */
  predicate HasKey<K(==), V>(s: seq<(K, V)>, k: K) {
    exists i :: 0 <= i < |s| && s[i].0 == k
  }

  /** No key occurs twice: what every map satisfies. */
  predicate DistinctKeys<K(==), V>(s: seq<(K, V)>) {
    forall i, j :: 0 <= i < j < |s| ==> s[i].0 != s[j].0
  }

  /** The position of the first entry whose key is `k`. */
  function IndexOf<K(==), V>(s: seq<(K, V)>, k: K): (i: nat)
    requires HasKey(s, k)
    ensures i < |s| && s[i].0 == k
    ensures forall j :: 0 <= j < i ==> s[j].0 != k
  {
    if s[0].0 == k then 0
    else
      assert HasKey(s[1..], k) by {
        var j :| 0 <= j < |s| && s[j].0 == k;
        assert s[1..][j - 1].0 == k;
      }
      1 + IndexOf(s[1..], k)
  }

  /** `m.get(k)`: the value stored under `k`, if any. */
  function Get<K(==), V>(s: seq<(K, V)>, k: K): (r: Option<V>)
    ensures r.Some? <==> HasKey(s, k)
    ensures r.Some? ==> r.value == s[IndexOf(s, k)].1
  {
    if s == [] then None
    else if s[0].0 == k then Some(s[0].1)
    else
      var r := Get(s[1..], k);
      assert HasKey(s, k) ==> HasKey(s[1..], k) by {
        if HasKey(s, k) {
          var j :| 0 <= j < |s| && s[j].0 == k;
          assert s[1..][j - 1].0 == k;
        }
      }
      assert HasKey(s[1..], k) ==> HasKey(s, k) by {
        if HasKey(s[1..], k) {
          var j :| 0 <= j < |s[1..]| && s[1..][j].0 == k;
          assert s[j + 1].0 == k;
        }
      }
      r
  }

  /** `m.set(k, v)`. A new key is appended at the end; an existing key keeps
      its position and only its value changes. */
  function Set<K(==), V>(s: seq<(K, V)>, k: K, v: V): (r: seq<(K, V)>)
    ensures !HasKey(s, k) ==> r == s + [(k, v)]
    ensures HasKey(s, k) ==> r == s[IndexOf(s, k) := (k, v)]
  {
    if s == [] then [(k, v)]
    else if s[0].0 == k then [(k, v)] + s[1..]
    else [s[0]] + Set(s[1..], k, v)
  }

  /** `m.delete(k)`: the entry for `k` goes, every other entry stays where it
      was; an absent key leaves the map as it is. */
  function Delete<K(==), V>(s: seq<(K, V)>, k: K): (r: seq<(K, V)>)
    ensures !HasKey(s, k) ==> r == s
    ensures HasKey(s, k) ==> r == s[..IndexOf(s, k)] + s[IndexOf(s, k) + 1..]
  {
    if s == [] then []
    else if s[0].0 == k then s[1..]
    else [s[0]] + Delete(s[1..], k)
  }

  /** `[...m.values()]`: the values, in insertion order of their keys. */
  function Values<K, V>(s: seq<(K, V)>): (r: seq<V>)
    ensures |r| == |s|
    ensures forall i :: 0 <= i < |s| ==> r[i] == s[i].1
  {
    if s == [] then [] else [s[0].1] + Values(s[1..])
  }

  /** A map is empty exactly when no key is in it. */
  lemma NoKeysIffEmpty<K, V>(s: seq<(K, V)>)
    ensures (forall k :: !HasKey(s, k)) <==> s == []
  {
    if s != [] {
      assert HasKey(s, s[0].0);
    }
  }

  /** A key of a non-empty map is its first key or a key of the rest. */
  lemma HasKeyUnfold<K, V>(s: seq<(K, V)>, k: K)
    requires s != []
    ensures HasKey(s, k) <==> s[0].0 == k || HasKey(s[1..], k)
  {
  }

  /** The keys after the first entry of a map are distinct too. */
  lemma DistinctTail<K, V>(s: seq<(K, V)>)
    requires s != [] && DistinctKeys(s)
    ensures DistinctKeys(s[1..])
    ensures !HasKey(s[1..], s[0].0)
  {
  }

  /** The keys of `Set(s, k, v)` are those of `s` together with `k`. */
  lemma {:induction false} SetKeys<K, V>(s: seq<(K, V)>, k: K, v: V, k': K)
    ensures HasKey(Set(s, k, v), k') <==> k' == k || HasKey(s, k')
  {
    var r := Set(s, k, v);
    if s == [] {
      assert r[0].0 == k;
    } else {
      HasKeyUnfold(s, k');
      HasKeyUnfold(r, k');
      if s[0].0 != k {
        SetKeys(s[1..], k, v, k');
        assert r[1..] == Set(s[1..], k, v);
      } else {
        assert r[1..] == s[1..];
      }
    }
  }

  /** After `set(k, v)`, `k` maps to `v`. */
  lemma {:induction false} SetGetSame<K, V>(s: seq<(K, V)>, k: K, v: V)
    ensures Get(Set(s, k, v), k) == Some(v)
  {
    if s != [] && s[0].0 != k {
      SetGetSame(s[1..], k, v);
      assert Set(s, k, v)[1..] == Set(s[1..], k, v);
    }
  }

  /** `set(k, v)` leaves the value of every other key as it was. */
  lemma {:induction false} SetGetOther<K, V>(s: seq<(K, V)>, k: K, v: V, k': K)
    requires k' != k
    ensures Get(Set(s, k, v), k') == Get(s, k')
  {
    if s != [] && s[0].0 != k {
      SetGetOther(s[1..], k, v, k');
      assert Set(s, k, v)[1..] == Set(s[1..], k, v);
    } else if s != [] {
      assert Set(s, k, v)[1..] == s[1..];
    }
  }

  /** `set` keeps the keys of a map distinct. */
  lemma SetDistinct<K, V>(s: seq<(K, V)>, k: K, v: V)
    requires DistinctKeys(s)
    ensures DistinctKeys(Set(s, k, v))
  {
  }

  /** The size of the map grows by one exactly when `set` adds a new key. */
  lemma SetSize<K, V>(s: seq<(K, V)>, k: K, v: V)
    ensures |Set(s, k, v)| == if HasKey(s, k) then |s| else |s| + 1
  {
  }

  /** The keys of `Delete(s, k)` are among those of `s`, and in a map `k` is
      no longer one of them. */
  lemma {:induction false} DeleteKeys<K, V>(s: seq<(K, V)>, k: K, k': K)
    requires DistinctKeys(s)
    ensures HasKey(Delete(s, k), k') <==> k' != k && HasKey(s, k')
  {
    if s != [] {
      DistinctTail(s);
      HasKeyUnfold(s, k');
      if s[0].0 != k {
        var r := Delete(s, k);
        DeleteKeys(s[1..], k, k');
        HasKeyUnfold(r, k');
        assert r[1..] == Delete(s[1..], k);
      }
    }
  }

  /** After `delete(k)`, `k` is absent. */
  lemma DeleteGetSame<K, V>(s: seq<(K, V)>, k: K)
    requires DistinctKeys(s)
    ensures Get(Delete(s, k), k) == None
  {
    DeleteKeys(s, k, k);
  }

  /** `delete(k)` leaves the value of every other key as it was. */
  lemma {:induction false} DeleteGetOther<K, V>(s: seq<(K, V)>, k: K, k': K)
    requires k' != k
    ensures Get(Delete(s, k), k') == Get(s, k')
  {
    if s != [] && s[0].0 != k {
      DeleteGetOther(s[1..], k, k');
      assert Delete(s, k)[1..] == Delete(s[1..], k);
    }
  }

  /** `delete` keeps the keys of a map distinct. */
  lemma DeleteDistinct<K, V>(s: seq<(K, V)>, k: K)
    requires DistinctKeys(s)
    ensures DistinctKeys(Delete(s, k))
  {
  }

  /** The size of the map drops by one exactly when `delete` finds its key. */
  lemma DeleteSize<K, V>(s: seq<(K, V)>, k: K)
    ensures |Delete(s, k)| == if HasKey(s, k) then |s| - 1 else |s|
  {
  }

  /** Setting a new key and then deleting it gives back the map before. */
  lemma SetThenDelete<K, V>(s: seq<(K, V)>, k: K, v: V)
    requires !HasKey(s, k)
    ensures Delete(Set(s, k, v), k) == s
  {
    var r := Set(s, k, v);
    assert HasKey(r, k) by { assert r[|s|].0 == k; }
    assert r[..IndexOf(r, k)] == s;
  }

  /** Setting a key twice leaves the value of the second call, at the
      position the key first took: the last write wins. */
  lemma {:induction false} SetOverwrites<K, V>(s: seq<(K, V)>, k: K, v1: V, v2: V)
    ensures Set(Set(s, k, v1), k, v2) == Set(s, k, v2)
  {
    if s != [] && s[0].0 != k {
      SetOverwrites(s[1..], k, v1, v2);
      var r := Set(s, k, v1);
      assert r[0] == s[0] && r[1..] == Set(s[1..], k, v1);
    }
  }
}
