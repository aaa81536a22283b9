/** The helpers the readers and the store take from `libs/misc.py`, whose bodies are
    not part of this model: each is specified by what its name and its callers promise.
    Also Python's `zip` and the dictionary that a sequence of assignments builds. */
module Misc {
  import opened Options
  import opened Numbers

  /** `take(xs, by=2)`: the consecutive pairs of a sequence of even length. */
  function Take2<T>(xs: seq<T>): (r: seq<(T, T)>)
    requires |xs| % 2 == 0
    ensures |r| == |xs| / 2
    ensures forall i :: 0 <= i < |r| ==> r[i] == (xs[2 * i], xs[2 * i + 1])
  {
    if |xs| == 0 then [] else [(xs[0], xs[1])] + Take2(xs[2..])
  }

  function Min(a: nat, b: nat): nat {
    if a <= b then a else b
  }

  /** `zip(a, b)`: pairs up to the length of the shorter sequence. */
  function Zip<A, B>(a: seq<A>, b: seq<B>): seq<(A, B)>
  {
    var n := Min(|a|, |b|);
    seq(n, i requires 0 <= i < n => (a[i], b[i]))
  }

  /** `zip(a, b, c)`. */
  function Zip3<A, B, C>(a: seq<A>, b: seq<B>, c: seq<C>): seq<(A, B, C)>
  {
    var n := Min(Min(|a|, |b|), |c|);
    seq(n, i requires 0 <= i < n => (a[i], b[i], c[i]))
  }

  /** The dictionary that results from assigning `d[k] = v` for each entry `Some((k, v))`
      in order, starting from `{}`; `None` entries are rows that assign nothing. */
  function DictOf<K(==), V>(entries: seq<Option<(K, V)>>): map<K, V>
  {
    if |entries| == 0 then map[]
    else
      var d := DictOf(entries[..|entries| - 1]);
      match entries[|entries| - 1]
      case None => d
      case Some(kv) => d[kv.0 := kv.1]
  }

  predicate EntryFor<K(==), V>(entries: seq<Option<(K, V)>>, i: int, k: K) {
    0 <= i < |entries| && entries[i].Some? && entries[i].value.0 == k
  }

  /** Entry `i` is the last one that assigns key `k`. */
  predicate LastEntryFor<K(==), V>(entries: seq<Option<(K, V)>>, i: int, k: K) {
    EntryFor(entries, i, k) && forall j :: i < j < |entries| ==> !EntryFor(entries, j, k)
  }

  /** A key is in the dictionary exactly when some entry assigns it. */
  lemma {:induction false} DictOfKeys<K, V>(entries: seq<Option<(K, V)>>, k: K)
    ensures k in DictOf(entries) <==> exists i :: EntryFor(entries, i, k)
  {
    var n := |entries|;
    if n > 0 {
      var p := entries[..n - 1];
      DictOfKeys(p, k);
      if k in DictOf(entries) && !EntryFor(entries, n - 1, k) {
        var i :| EntryFor(p, i, k);
        assert EntryFor(entries, i, k);
      }
      if !(k in DictOf(entries)) {
        forall i | 0 <= i < n ensures !EntryFor(entries, i, k) {
          if i < n - 1 {
            assert !EntryFor(p, i, k);
          }
        }
      }
    }
  }

  /** The key holds the value of the last entry that assigns it: the later row wins. */
  lemma {:induction false} DictOfLast<K, V>(entries: seq<Option<(K, V)>>, i: int, k: K)
    requires LastEntryFor(entries, i, k)
    ensures k in DictOf(entries) && DictOf(entries)[k] == entries[i].value.1
  {
    var n := |entries|;
    if i < n - 1 {
      var p := entries[..n - 1];
      assert !EntryFor(entries, n - 1, k);
      forall j | i < j < n - 1 ensures !EntryFor(p, j, k) {
        assert p[j] == entries[j] && !EntryFor(entries, j, k);
      }
      assert LastEntryFor(p, i, k);
      DictOfLast(p, i, k);
    }
  }

  /** Every key of the dictionary has a last entry, and holds its value. */
  lemma {:induction false} DictOfHasLast<K, V>(entries: seq<Option<(K, V)>>, k: K)
    requires k in DictOf(entries)
    ensures exists i :: LastEntryFor(entries, i, k) && DictOf(entries)[k] == entries[i].value.1
  {
    var n := |entries|;
    if EntryFor(entries, n - 1, k) {
      DictOfLast(entries, n - 1, k);
    } else {
      var p := entries[..n - 1];
      assert k in DictOf(p);
      DictOfHasLast(p, k);
      var i :| LastEntryFor(p, i, k) && DictOf(p)[k] == p[i].value.1;
      forall j | i < j < n ensures !EntryFor(entries, j, k) {
        if j < n - 1 {
          assert p[j] == entries[j] && !EntryFor(p, j, k);
        }
      }
      assert LastEntryFor(entries, i, k);
    }
  }

  /** Entries that assign the same keys in the same rows, where the second's values
      extend the first's, build dictionaries with the same keys whose values extend the
      same way. */
  lemma {:induction false} DictOfExtended<K, V, W>(e: seq<Option<(K, V)>>, f: seq<Option<(K, (V, W))>>)
    requires |e| == |f|
    requires forall i :: 0 <= i < |e| ==> (e[i].Some? <==> f[i].Some?)
    requires forall i :: 0 <= i < |e| && e[i].Some? && f[i].Some? ==>
      f[i].value.0 == e[i].value.0 && f[i].value.1.0 == e[i].value.1
    ensures DictOf(f).Keys == DictOf(e).Keys
    ensures forall k :: k in DictOf(e) ==> DictOf(f)[k].0 == DictOf(e)[k]
  {
    var n := |e|;
    if n > 0 {
      DictOfExtended(e[..n - 1], f[..n - 1]);
    }
  }

  /** Dropping the last element of a sequence removes one occurrence of it. */
  lemma MultisetDropLast<T>(xs: seq<T>)
    requires |xs| > 0
    ensures xs[|xs| - 1] in multiset(xs)
    ensures multiset(xs[..|xs| - 1]) == multiset(xs) - multiset{xs[|xs| - 1]}
  {
    assert xs == xs[..|xs| - 1] + [xs[|xs| - 1]];
  }

  /** Dropping the element at `j` removes one occurrence of it. */
  lemma MultisetDropAt<T>(xs: seq<T>, j: int)
    requires 0 <= j < |xs|
    ensures multiset(xs[..j] + xs[j + 1..]) == multiset(xs) - multiset{xs[j]}
  {
    assert xs == xs[..j] + [xs[j]] + xs[j + 1..];
  }

  /** `invert_dict(d)`: a dictionary from each value of `d` back to a key that holds it.
      Which key wins when several hold the same value is not specified. */
  predicate Inverts<K, V>(inv: map<V, K>, d: map<K, V>) {
    inv.Keys == d.Values && forall v :: v in inv ==> inv[v] in d && d[inv[v]] == v
  }

  method InvertDict<K(==), V(==)>(d: map<K, V>) returns (inv: map<V, K>)
    ensures Inverts(inv, d)
  {
    inv := map[];
    var rest := d.Keys;
    while rest != {}
      invariant rest <= d.Keys
      invariant forall v :: v in inv <==> exists k :: k in d && k !in rest && d[k] == v
      invariant forall v :: v in inv ==> inv[v] in d && d[inv[v]] == v
      decreases rest
    {
      var k :| k in rest;
      inv := inv[d[k] := k];
      rest := rest - {k};
    }
  }

  /** The integer a key stands for, `int(key)`; 0 for a key that `int()` rejects. */
  function NumericKey(s: string): int {
    match IntOfString(s)
    case Some(v) => v
    case None => 0
  }

  /** Every key is accepted by `int()`; otherwise sorting by it raises `ValueError`. */
  predicate AllNumeric(keys: set<string>) {
    forall k :: k in keys ==> IntOfString(k).Some?
  }

  predicate IsMinKey(k: string, keys: set<string>) {
    forall j :: j in keys ==> NumericKey(k) <= NumericKey(j)
  }

  /** `ks` lists every key of `keys` once, in ascending order of the integers they stand
      for; keys that stand for the same integer ("7", "07") may come in either order. */
  ghost predicate IsNumericOrder(ks: seq<string>, keys: set<string>) {
    && (forall i :: 0 <= i < |ks| ==> ks[i] in keys)
    && (forall k :: k in keys ==> k in ks)
    && (forall i, j :: 0 <= i < j < |ks| ==> ks[i] != ks[j])
    && (forall i, j :: 0 <= i < j < |ks| ==> NumericKey(ks[i]) <= NumericKey(ks[j]))
  }

  function KeysOf<K, V>(pairs: seq<(K, V)>): seq<K> {
    seq(|pairs|, i requires 0 <= i < |pairs| => pairs[i].0)
  }

  /** `sort_dict_keys_numerically(d)`: the (key, value) items of `d`, ascending by `int(key)`. */
  ghost predicate IsSortedItems<V>(pairs: seq<(string, V)>, d: map<string, V>) {
    && IsNumericOrder(KeysOf(pairs), d.Keys)
    && forall i :: 0 <= i < |pairs| ==> pairs[i].0 in d && d[pairs[i].0] == pairs[i].1
  }

  lemma {:induction false} MinKeyExists(keys: set<string>)
    requires keys != {}
    ensures exists k :: k in keys && IsMinKey(k, keys)
    decreases keys
  {
    var x :| x in keys;
    if keys != {x} {
      MinKeyExists(keys - {x});
      var m :| m in keys - {x} && IsMinKey(m, keys - {x});
      if NumericKey(x) <= NumericKey(m) {
        assert IsMinKey(x, keys);
      } else {
        assert IsMinKey(m, keys);
      }
    } else {
      assert IsMinKey(x, keys);
    }
  }

  /** A smallest key followed by a numeric order of the other keys is a numeric order. */
  lemma PrependMinKey(k: string, rest: seq<string>, keys: set<string>)
    requires k in keys && IsMinKey(k, keys)
    requires IsNumericOrder(rest, keys - {k})
    ensures IsNumericOrder([k] + rest, keys)
  {
  }

  /** One numeric ordering of a set of keys, chosen by repeatedly taking a smallest key. */
  ghost function SortedKeys(keys: set<string>): (ks: seq<string>)
    ensures IsNumericOrder(ks, keys)
    decreases keys
  {
    if keys == {} then []
    else
      MinKeyExists(keys);
      var k :| k in keys && IsMinKey(k, keys);
      var rest := SortedKeys(keys - {k});
      PrependMinKey(k, rest, keys);
      [k] + rest
  }

  /** The result of `sort_dict_keys_numerically(d)` as a value, for the readers that are
      expressions; the order among keys standing for the same integer is the one
      `SortedKeys` picks. */
  ghost function SortedItems<V>(d: map<string, V>): (pairs: seq<(string, V)>)
    ensures IsSortedItems(pairs, d)
    ensures KeysOf(pairs) == SortedKeys(d.Keys)
  {
    var ks := SortedKeys(d.Keys);
    var pairs := seq(|ks|, i requires 0 <= i < |ks| => (ks[i], d[ks[i]]));
    assert KeysOf(pairs) == ks;
    pairs
  }

  /** A numeric order of some keys, followed by a key no smaller than any of them, is a
      numeric order of all of them. */
  lemma AppendMaxKey(ks: seq<string>, k: string, done: set<string>)
    requires IsNumericOrder(ks, done) && k !in done
    requires forall x :: x in done ==> NumericKey(x) <= NumericKey(k)
    ensures IsNumericOrder(ks + [k], done + {k})
  {
  }

  /** One step of the selection sort: appending a smallest remaining key keeps the
      sorted prefix a numeric order of the keys taken so far. */
  lemma SelectMinKey<V>(pairs: seq<(string, V)>, d: map<string, V>, rest: set<string>, k: string)
    requires rest <= d.Keys && k in rest && IsMinKey(k, rest)
    requires IsNumericOrder(KeysOf(pairs), d.Keys - rest)
    requires forall x, y :: x in d.Keys - rest && y in rest ==> NumericKey(x) <= NumericKey(y)
    ensures IsNumericOrder(KeysOf(pairs + [(k, d[k])]), d.Keys - (rest - {k}))
    ensures forall x, y :: x in d.Keys - (rest - {k}) && y in rest - {k} ==> NumericKey(x) <= NumericKey(y)
  {
    AppendMaxKey(KeysOf(pairs), k, d.Keys - rest);
    assert KeysOf(pairs + [(k, d[k])]) == KeysOf(pairs) + [k];
    assert d.Keys - (rest - {k}) == (d.Keys - rest) + {k};
  }

  /** `sort_dict_keys_numerically(d)` as the readers and the store call it: a selection
      sort that repeatedly takes a smallest remaining key. */
  method SortDictKeysNumerically<V>(d: map<string, V>) returns (pairs: seq<(string, V)>)
    requires AllNumeric(d.Keys)
    ensures IsSortedItems(pairs, d)
  {
    pairs := [];
    var rest := d.Keys;
    while rest != {}
      invariant rest <= d.Keys
      invariant IsNumericOrder(KeysOf(pairs), d.Keys - rest)
      invariant forall i :: 0 <= i < |pairs| ==> pairs[i].0 in d && d[pairs[i].0] == pairs[i].1
      invariant forall x, y :: x in d.Keys - rest && y in rest ==> NumericKey(x) <= NumericKey(y)
      decreases rest
    {
      MinKeyExists(rest);
      var k :| k in rest && IsMinKey(k, rest);
      SelectMinKey(pairs, d, rest, k);
      pairs := pairs + [(k, d[k])];
      rest := rest - {k};
    }
  }

  /** The first key of a numeric order is a smallest key. */
  lemma HeadIsMinKey(ks: seq<string>, keys: set<string>)
    requires IsNumericOrder(ks, keys) && |ks| > 0
    ensures ks[0] in keys && IsMinKey(ks[0], keys)
  {
  }

  /** Dropping the first key of a numeric order leaves a numeric order of the other keys. */
  lemma TailIsNumericOrder(ks: seq<string>, keys: set<string>)
    requires IsNumericOrder(ks, keys) && |ks| > 0
    ensures IsNumericOrder(ks[1..], keys - {ks[0]})
  {
  }

  /** When no two keys stand for the same integer there is only one numeric order. */
  lemma {:induction false} NumericOrderUnique(a: seq<string>, b: seq<string>, keys: set<string>)
    requires IsNumericOrder(a, keys) && IsNumericOrder(b, keys)
    requires forall k, l :: k in keys && l in keys && NumericKey(k) == NumericKey(l) ==> k == l
    ensures a == b
    decreases |a|
  {
    if |a| > 0 {
      assert a[0] in b;
      HeadIsMinKey(a, keys);
      HeadIsMinKey(b, keys);
      assert NumericKey(a[0]) == NumericKey(b[0]);
      TailIsNumericOrder(a, keys);
      TailIsNumericOrder(b, keys);
      NumericOrderUnique(a[1..], b[1..], keys - {a[0]});
      forall i | 0 <= i < |a| ensures a[i] == b[i] {
        if i > 0 {
          assert a[i] == a[1..][i - 1] && b[i] == b[1..][i - 1];
        }
      }
    }
  }
}
