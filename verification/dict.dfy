/**
  Python dictionaries as the sequence of their items in insertion order, so that
  iteration order (which the plug-in's output depends on) is part of the model.
  A dictionary of lists (`{name: [value, ...]}`) is the ordered multimap used for
  query strings and form bodies.
*/
module Dict {
  import opened Wrappers

  /** The keys in iteration order. */
  function Keys<K, V>(d: seq<(K, V)>): (r: seq<K>)
    ensures |r| == |d|
  {
    if |d| == 0 then [] else [d[0].0] + Keys(d[1..])
  }

  predicate NoDup<T(==)>(s: seq<T>) {
    forall i, j :: 0 <= i < j < |s| ==> s[i] != s[j]
  }

  /** A sequence with a new head has no duplicates when its tail has none and lacks the head. */
  lemma NoDupCons<T>(x: T, s: seq<T>)
    ensures NoDup([x] + s) <==> x !in s && NoDup(s)
  {
    var t := [x] + s;
    assert forall i :: 0 <= i < |s| ==> t[i + 1] == s[i];
    if NoDup(t) {
      forall i | 0 <= i < |s|
        ensures s[i] != x
      {
        assert t[0] != t[i + 1];
      }
    }
  }

  /** `d.get(k)`: the value of the first item whose key is `k`. */
  function Get<K(==,!new), V>(d: seq<(K, V)>, k: K): (r: Option<V>)
    ensures r.None? <==> k !in Keys(d)
  {
    if |d| == 0 then None
    else if d[0].0 == k then Some(d[0].1)
    else Get(d[1..], k)
  }

  /**
    `d[k] = v`: an existing key keeps its position and takes the new value,
    a new key goes to the end; every other key keeps its value.
  */
  function Set<K(==,!new), V>(d: seq<(K, V)>, k: K, v: V): (r: seq<(K, V)>)
    ensures Get(r, k) == Some(v)
    ensures forall k' :: k' != k ==> Get(r, k') == Get(d, k')
    ensures Keys(r) == if k in Keys(d) then Keys(d) else Keys(d) + [k]
    ensures NoDup(Keys(d)) ==> NoDup(Keys(r))
  {
    if |d| == 0 then [(k, v)]
    else if d[0].0 == k then [(k, v)] + d[1..]
    else
      var rest := Set(d[1..], k, v);
      assert ([d[0]] + rest)[1..] == rest;
      assert Keys([d[0]] + rest) == [d[0].0] + Keys(rest);
      NoDupCons(d[0].0, Keys(d[1..]));
      NoDupCons(d[0].0, Keys(rest));
      [d[0]] + rest
  }

  /** The value of the last pair for `k` in a list of pairs. */
  function LastFor<K(==,!new), V>(ps: seq<(K, V)>, k: K): Option<V> {
    if |ps| == 0 then None
    else if ps[|ps| - 1].0 == k then Some(ps[|ps| - 1].1)
    else LastFor(ps[..|ps| - 1], k)
  }

  /**
    `d.update(ps)`, and `dict(ps)` when `d` is empty: the pairs are assigned in order, so
    the last pair for a key wins and keys already in `d` stay where they were.
  */
  function Update<K(==,!new), V>(d: seq<(K, V)>, ps: seq<(K, V)>): (r: seq<(K, V)>)
    ensures forall k :: Get(r, k) == if LastFor(ps, k).Some? then LastFor(ps, k) else Get(d, k)
    ensures |Keys(d)| <= |Keys(r)| && Keys(r)[..|Keys(d)|] == Keys(d)
    ensures NoDup(Keys(d)) ==> NoDup(Keys(r))
    decreases |ps|
  {
    if |ps| == 0 then d
    else
      var last := ps[|ps| - 1];
      var prev := Update(d, ps[..|ps| - 1]);
      var r := Set(prev, last.0, last.1);
      assert Keys(r)[..|Keys(prev)|] == Keys(prev);
      r
  }

  /** Append `v` to the list stored under `k`, starting a new list for a new key. */
  function AppendValue<K(==,!new), V>(d: seq<(K, seq<V>)>, k: K, v: V): (r: seq<(K, seq<V>)>)
    ensures Get(r, k) == Some(Get(d, k).GetOr([]) + [v])
    ensures forall k' :: k' != k ==> Get(r, k') == Get(d, k')
    ensures Keys(r) == if k in Keys(d) then Keys(d) else Keys(d) + [k]
  {
    Set(d, k, Get(d, k).GetOr([]) + [v])
  }

  /** The values of the pairs for `k`, in order. */
  function ValuesFor<K(==), V>(ps: seq<(K, V)>, k: K): (r: seq<V>)
    ensures |r| <= |ps|
  {
    if |ps| == 0 then []
    else
      var last := ps[|ps| - 1];
      ValuesFor(ps[..|ps| - 1], k) + (if last.0 == k then [last.1] else [])
  }

  /** Append each pair's value under its key, in order: `setdefault(k, []).append(v)` for each pair. */
  function AppendAll<K(==,!new), V>(d: seq<(K, seq<V>)>, ps: seq<(K, V)>): (r: seq<(K, seq<V>)>)
    decreases |ps|
  {
    if |ps| == 0 then d
    else
      var last := ps[|ps| - 1];
      AppendValue(AppendAll(d, ps[..|ps| - 1]), last.0, last.1)
  }

  /** A key's list grows by exactly the values paired with it, in order. */
  lemma {:induction false} AppendAllValues<K(!new), V>(d: seq<(K, seq<V>)>, ps: seq<(K, V)>, k: K)
    ensures Get(AppendAll(d, ps), k).GetOr([]) == Get(d, k).GetOr([]) + ValuesFor(ps, k)
    decreases |ps|
  {
    if |ps| == 0 {
      assert Get(d, k).GetOr([]) + [] == Get(d, k).GetOr([]);
    } else {
      var last := ps[|ps| - 1];
      var front := ValuesFor(ps[..|ps| - 1], k);
      AppendAllValues(d, ps[..|ps| - 1], k);
      if k == last.0 {
        assert Get(d, k).GetOr([]) + front + [last.1] == Get(d, k).GetOr([]) + (front + [last.1]);
      } else {
        assert front + [] == front;
      }
    }
  }

  /** A key is present afterwards exactly when it was before or some pair names it. */
  lemma {:induction false} AppendAllPresent<K(!new), V>(d: seq<(K, seq<V>)>, ps: seq<(K, V)>, k: K)
    ensures Get(AppendAll(d, ps), k).None? <==> Get(d, k).None? && ValuesFor(ps, k) == []
    decreases |ps|
  {
    if |ps| > 0 {
      var last := ps[|ps| - 1];
      AppendAllPresent(d, ps[..|ps| - 1], k);
      if k == last.0 {
        assert |ValuesFor(ps, k)| > 0;
      } else {
        assert ValuesFor(ps, k) == ValuesFor(ps[..|ps| - 1], k) + [];
      }
    }
  }

  /** Keys keep their positions; new keys go to the end. */
  lemma {:induction false} AppendAllKeys<K(!new), V>(d: seq<(K, seq<V>)>, ps: seq<(K, V)>)
    ensures |Keys(d)| <= |Keys(AppendAll(d, ps))| && Keys(AppendAll(d, ps))[..|Keys(d)|] == Keys(d)
    decreases |ps|
  {
    if |ps| > 0 {
      var prev := AppendAll(d, ps[..|ps| - 1]);
      AppendAllKeys(d, ps[..|ps| - 1]);
      var r := AppendAll(d, ps);
      assert Keys(r)[..|Keys(prev)|] == Keys(prev);
      assert Keys(r)[..|Keys(d)|] == Keys(prev)[..|Keys(d)|];
    }
  }

  /** A dictionary made of one pair has that pair's value for its key and nothing for any other. */
  lemma UpdateOne<K(!new), V>(k: K, v: V, q: K)
    ensures Get(Update([], [(k, v)]), q) == if k == q then Some(v) else None
  {
    assert [(k, v)][..0] == [];
  }

  /** The last pair for a key decides, whether it comes from the front or the back. */
  lemma {:induction false} LastForAppend<K(!new), V>(a: seq<(K, V)>, b: seq<(K, V)>, k: K)
    ensures LastFor(a + b, k) == if LastFor(b, k).Some? then LastFor(b, k) else LastFor(a, k)
    decreases |b|
  {
    if |b| == 0 {
      assert a + b == a;
    } else {
      assert (a + b)[..|a + b| - 1] == a + b[..|b| - 1];
      LastForAppend(a, b[..|b| - 1], k);
    }
  }

  /** In a dictionary, where every key appears once, the last pair for a key is the only one. */
  lemma {:induction false} LastForOfDict<K(!new), V>(d: seq<(K, V)>, k: K)
    requires NoDup(Keys(d))
    ensures LastFor(d, k) == Get(d, k)
    decreases |d|
  {
    if |d| > 0 {
      var n := |d| - 1;
      KeysPrefix(d, n);
      if d[n].0 == k {
        assert Keys(d)[n] == k;
        assert forall i :: 0 <= i < n ==> Keys(d)[i] != k;
        GetAfterAbsentPrefix(d, n, k);
      } else {
        LastForOfDict(d[..n], k);
        GetOfPrefix(d, n, k);
      }
    }
  }

  lemma {:induction false} KeysPrefix<K, V>(d: seq<(K, V)>, n: nat)
    requires n <= |d|
    ensures Keys(d[..n]) == Keys(d)[..n]
    ensures forall i :: 0 <= i < |d| ==> Keys(d)[i] == d[i].0
    decreases |d|
  {
    if |d| > 0 {
      KeysPrefix(d[1..], if n > 0 then n - 1 else 0);
      if n > 0 {
        assert d[..n][1..] == d[1..][..n - 1];
      }
    }
  }

  /** `Get` skips a prefix whose keys all differ from `k`. */
  lemma {:induction false} GetAfterAbsentPrefix<K(!new), V>(d: seq<(K, V)>, n: nat, k: K)
    requires n < |d| && d[n].0 == k
    requires forall i :: 0 <= i < n ==> d[i].0 != k
    ensures Get(d, k) == Some(d[n].1)
    decreases n
  {
    if n > 0 {
      GetAfterAbsentPrefix(d[1..], n - 1, k);
    }
  }

  /** `Get` on a dictionary agrees with `Get` on a prefix when the key is not the last one. */
  lemma {:induction false} GetOfPrefix<K(!new), V>(d: seq<(K, V)>, n: nat, k: K)
    requires n == |d| - 1 && d[n].0 != k
    ensures Get(d, k) == Get(d[..n], k)
    decreases |d|
  {
    if n > 0 {
      assert d[..n][1..] == d[1..][..n - 1];
      GetOfPrefix(d[1..], n - 1, k);
    }
  }
}
