/** Python's `dict`: a map that remembers the order in which its keys were
    first inserted. Iteration (`items()`, `for k in d`) follows that order, and
    assigning to a key that is already present keeps its position. */
module OrderedDict {

  datatype Dict<K, V> = Dict(keys: seq<K>, values: map<K, V>) {

    /** `keys` lists every key of `values` exactly once. */
    ghost predicate Valid() {
      && (forall i, j | 0 <= i < j < |keys| :: keys[i] != keys[j])
      && (forall i | 0 <= i < |keys| :: keys[i] in values)
      && (forall k | k in values :: k in keys)
    }

    /** `d[k] = v`: a new key goes to the end, an existing key keeps its place. */
    function Put(k: K, v: V): (d: Dict<K, V>)
      ensures d.values == values[k := v]
      ensures k in values ==> d.keys == keys
      ensures k !in values ==> d.keys == keys + [k]
      ensures Valid() ==> d.Valid()
    {
      if k in values then Dict(keys, values[k := v]) else Dict(keys + [k], values[k := v])
    }

    /** `list(d.items())`: the pairs in insertion order. */
    function Items(): (items: seq<(K, V)>)
      requires Valid()
      ensures |items| == |keys|
      ensures forall i | 0 <= i < |keys| :: items[i] == (keys[i], values[keys[i]])
    {
      seq(|keys|, i requires 0 <= i < |keys| && Valid() => (keys[i], values[keys[i]]))
    }
  }

  function Empty<K, V>(): (d: Dict<K, V>)
    ensures d.Valid() && d.values == map[] && d.keys == []
  {
    Dict([], map[])
  }

  /** Some item has key `k`. */
  predicate HasKey<T, K(==)>(items: seq<T>, key: T -> K, k: K) {
    exists i | 0 <= i < |items| :: key(items[i]) == k
  }

  /** `for x in items: d[key(x)] = value(x)` on an empty dict. */
  function FromItems<T, K(!new), V>(items: seq<T>, key: T -> K, value: T -> V): (d: Dict<K, V>)
    ensures d.Valid()
    ensures |d.keys| <= |items|
    ensures forall k :: k in d.values <==> HasKey(items, key, k)
    decreases |items|
  {
    if |items| == 0 then Empty()
    else
      var pre := items[..|items| - 1];
      var x := items[|items| - 1];
      var d := FromItems(pre, key, value);
      assert forall k :: HasKey(items, key, k) <==> HasKey(pre, key, k) || key(x) == k by {
        assert forall i | 0 <= i < |pre| :: pre[i] == items[i];
      }
      d.Put(key(x), value(x))
  }

  /** Later items overwrite earlier ones: a key holds the value of the last
      item that has it. */
  lemma {:induction false} FromItemsLastWins<T, K(!new), V>(items: seq<T>, key: T -> K, value: T -> V, i: nat)
    requires i < |items|
    requires forall j | i < j < |items| :: key(items[j]) != key(items[i])
    ensures key(items[i]) in FromItems(items, key, value).values
    ensures FromItems(items, key, value).values[key(items[i])] == value(items[i])
    decreases |items|
  {
    var last := |items| - 1;
    var pre := items[..last];
    assert FromItems(items, key, value) == FromItems(pre, key, value).Put(key(items[last]), value(items[last]));
    if i < last {
      assert pre[i] == items[i];
      assert forall j | i < j < |pre| :: key(pre[j]) != key(pre[i]) by {
        assert forall j | i < j < |pre| :: pre[j] == items[j];
      }
      FromItemsLastWins(pre, key, value, i);
    }
  }

  /** The position of the last item with key `k`. */
  lemma {:induction false} LastWithKey<T, K>(items: seq<T>, key: T -> K, k: K) returns (i: nat)
    requires HasKey(items, key, k)
    ensures i < |items| && key(items[i]) == k
    ensures forall j | i < j < |items| :: key(items[j]) != k
    decreases |items|
  {
    var last := |items| - 1;
    if key(items[last]) == k {
      i := last;
    } else {
      var pre := items[..last];
      assert HasKey(pre, key, k) by {
        var i0 :| 0 <= i0 < |items| && key(items[i0]) == k;
        assert pre[i0] == items[i0];
      }
      i := LastWithKey(pre, key, k);
      assert items[i] == pre[i];
      assert forall j | i < j < last :: items[j] == pre[j];
    }
  }

  /** Every item's key is present, and every present key holds the value of
      an item with that key. */
  lemma FromItemsReports<T, K(!new), V>(items: seq<T>, key: T -> K, value: T -> V)
    ensures forall x | x in items :: key(x) in FromItems(items, key, value).values
    ensures forall k | k in FromItems(items, key, value).values ::
      exists x | x in items :: key(x) == k && FromItems(items, key, value).values[k] == value(x)
  {
    var d := FromItems(items, key, value);
    forall x | x in items ensures key(x) in d.values {
      var i :| 0 <= i < |items| && items[i] == x;
      assert HasKey(items, key, key(x));
    }
    forall k | k in d.values ensures exists x | x in items :: key(x) == k && d.values[k] == value(x) {
      var i := LastWithKey(items, key, k);
      FromItemsLastWins(items, key, value, i);
      assert items[i] in items;
    }
  }

  /** `pos` lists positions below `bound`, in strictly increasing order. */
  predicate Increasing(pos: seq<nat>, bound: nat) {
    && (forall i | 0 <= i < |pos| :: pos[i] < bound)
    && (forall i, j | 0 <= i < j < |pos| :: pos[i] < pos[j])
  }

  /** `keys[i]` first occurs among the items, by `key`, at position `pos[i]`,
      and the positions increase. */
  predicate FirstPositions<T, K(==)>(items: seq<T>, key: T -> K, keys: seq<K>, pos: seq<nat>) {
    && |pos| == |keys| && Increasing(pos, |items|)
    && (forall i | 0 <= i < |pos| :: key(items[pos[i]]) == keys[i])
    && (forall i, j | 0 <= i < |pos| && 0 <= j < pos[i] :: key(items[j]) != keys[i])
  }

  /** The keys are listed in the order in which they first occur among the
      items. */
  lemma {:induction false} FromItemsFirstPositions<T, K(!new), V>(items: seq<T>, key: T -> K, value: T -> V)
    returns (pos: seq<nat>)
    ensures FirstPositions(items, key, FromItems(items, key, value).keys, pos)
    decreases |items|
  {
    if |items| == 0 {
      pos := [];
    } else {
      var last := |items| - 1;
      var pre := items[..last];
      var x := items[last];
      var dp := FromItems(pre, key, value);
      assert FromItems(items, key, value) == dp.Put(key(x), value(x));
      var pp := FromItemsFirstPositions(pre, key, value);
      if key(x) in dp.values {
        pos := pp;
        FirstPositionsKeep(items, key, dp.keys, pp);
      } else {
        assert !HasKey(pre, key, key(x));
        pos := pp + [last];
        FirstPositionsGrow(items, key, dp.keys, pp);
      }
    }
  }

  /** A last item whose key occurred before adds no key. */
  lemma FirstPositionsKeep<T, K>(items: seq<T>, key: T -> K, keys: seq<K>, pos: seq<nat>)
    requires |items| > 0 && FirstPositions(items[..|items| - 1], key, keys, pos)
    ensures FirstPositions(items, key, keys, pos)
  {
    assert forall j | 0 <= j < |items| - 1 :: items[..|items| - 1][j] == items[j];
  }

  /** A last item with a new key adds that key, at the last position. */
  lemma FirstPositionsGrow<T, K>(items: seq<T>, key: T -> K, keys: seq<K>, pos: seq<nat>)
    requires |items| > 0 && FirstPositions(items[..|items| - 1], key, keys, pos)
    requires !HasKey(items[..|items| - 1], key, key(items[|items| - 1]))
    ensures FirstPositions(items, key, keys + [key(items[|items| - 1])], pos + [|items| - 1])
  {
    var last := |items| - 1;
    var pre := items[..last];
    assert forall j | 0 <= j < last :: pre[j] == items[j];
    assert forall j | 0 <= j < last :: key(items[j]) != key(items[last]) by {
      forall j | 0 <= j < last ensures key(items[j]) != key(items[last]) {
        assert key(pre[j]) != key(items[last]);
      }
    }
  }

  /** Picking positions of positions: the composition still increases. */
  lemma ComposeIncreasing(outer: seq<nat>, inner: seq<nat>, bound: nat) returns (pos: seq<nat>)
    requires Increasing(inner, |outer|) && Increasing(outer, bound)
    ensures |pos| == |inner| && Increasing(pos, bound)
    ensures forall i | 0 <= i < |inner| :: pos[i] == outer[inner[i]]
  {
    pos := seq(|inner|, i requires 0 <= i < |inner| => outer[inner[i]]);
  }

  /** `sub` lists the elements of `s` at the increasing positions `pos`. */
  predicate PicksAt<T(==)>(s: seq<T>, sub: seq<T>, pos: seq<nat>) {
    && |pos| == |sub| && Increasing(pos, |s|)
    && (forall i | 0 <= i < |pos| :: sub[i] == s[pos[i]])
  }

  /** Picks from a prefix are picks from the whole. */
  lemma PicksAtExtend<T>(s: seq<T>, sub: seq<T>, pos: seq<nat>)
    requires |s| > 0 && PicksAt(s[..|s| - 1], sub, pos)
    ensures PicksAt(s, sub, pos)
  {
    assert forall k | 0 <= k < |s| - 1 :: s[..|s| - 1][k] == s[k];
  }

  /** Picking the last element as well. */
  lemma PicksAtLast<T>(s: seq<T>, sub: seq<T>, pos: seq<nat>)
    requires |s| > 0 && PicksAt(s[..|s| - 1], sub, pos)
    ensures PicksAt(s, sub + [s[|s| - 1]], pos + [|s| - 1])
  {
    var last := |s| - 1;
    assert forall k | 0 <= k < last :: s[..last][k] == s[k];
    var sub' := sub + [s[last]];
    var pos' := pos + [last];
    forall i | 0 <= i < |pos'| ensures sub'[i] == s[pos'[i]] {
      if i < |pos| { assert sub'[i] == sub[i] && pos'[i] == pos[i]; }
    }
  }
}
