/** `LogSequenceCollection` (common/analytics.py): the table of log sequences
    and the two per-key occurrence counters that pair the k-th start of a key
    with the k-th end of the same key.

    A sequence key is `"<source>_<event_id>"`; the n-th end seen for a key
    creates the sequence `"<n>_<key>"`. Timestamps are microseconds, durations
    seconds. */
module LogSequenceCollection {
  import opened Wrappers
  import opened Text
  import opened OrderedDict

  /** An instant, in microseconds. */
  type Timestamp = int

  /** One entry of the sequence table: its `end` always, its `start` once a
      start hit was paired with it, its `duration` in seconds when known. */
  datatype Sequence = Sequence(end: Timestamp, start: Option<Timestamp>, duration: Option<real>)

  /** `endIds[key]` / `startIds[key]` hold the ordinal of the last end / the
      last successfully paired start seen for `key`. */
  datatype Collection = Collection(
    endIds: map<string, nat>,
    startIds: map<string, nat>,
    sequences: Dict<string, Sequence>)

  /** Python truthiness of an optional float: `None` and `0.0` are false. */
  predicate Truthy(d: Option<real>) {
    d.Some? && d.value != 0.0
  }

  /** Number of ends recorded for `key`. */
  function EndCount(c: Collection, key: string): nat {
    if key in c.endIds then c.endIds[key] + 1 else 0
  }

  /** Number of starts paired for `key`. */
  function StartCount(c: Collection, key: string): nat {
    if key in c.startIds then c.startIds[key] + 1 else 0
  }

  /** Reads `"<n>_<key>"` back: the digits before the first `_` and the rest. */
  function ParseUniqueId(id: string): Option<(nat, string)> {
    var p := Partition(id, '_');
    if p.found && |p.before| > 0 && AllDigits(p.before) then Some((ParseDigits(p.before), p.after))
    else None
  }

  /** `"{}_{}".format(n, key)`. */
  function UniqueId(n: nat, key: string): string {
    NatToString(n) + "_" + key
  }

  /** The id reads back as the pair it was made from. */
  lemma UniqueIdRoundTrip(n: nat, key: string)
    ensures ParseUniqueId(UniqueId(n, key)) == Some((n, key))
  {
    var digits := NatToString(n);
    var id := UniqueId(n, key);
    var p := Partition(id, '_');
    assert id[|digits|] == '_';
    assert |p.before| == |digits|;
    assert p.before == digits;
    assert p.after == key;
  }

  /** Distinct `(n, key)` pairs give distinct ids, so sequences never collide. */
  lemma UniqueIdInjective(n: nat, key: string, n': nat, key': string)
    ensures UniqueId(n, key) == UniqueId(n', key') ==> n == n' && key == key'
  {
    UniqueIdRoundTrip(n, key);
    UniqueIdRoundTrip(n', key');
  }

  /** `id` is `"<n>_<key>"` for an end already recorded. */
  ghost predicate Issued(c: Collection, id: string) {
    exists key, n: nat | n < EndCount(c, key) :: id == UniqueId(n, key)
  }

  /** What every collection built from the empty one by the operations below
      satisfies: the table holds exactly the issued ids, and no key has more
      paired starts than ends. */
  ghost predicate Valid(c: Collection) {
    && c.sequences.Valid()
    && (forall key | key in c.startIds :: c.startIds[key] < EndCount(c, key))
    && (forall key, n: nat | n < EndCount(c, key) :: UniqueId(n, key) in c.sequences.values)
    && (forall id | id in c.sequences.values :: Issued(c, id))
  }

  /** `LogSequenceCollection()`: no sequences, no counters. */
  function Empty(): (c: Collection)
    ensures Valid(c)
    ensures forall key :: EndCount(c, key) == 0 && StartCount(c, key) == 0
    ensures c.sequences.values == map[]
  {
    Collection(map[], map[], OrderedDict.Empty())
  }

  /** `add_sequence_end`: the n-th end for `key` (from 0) creates the
      sequence `"<n>_<key>"` holding `end`, and `duration` only when truthy. */
  function AddSequenceEnd(c: Collection, key: string, end: Timestamp, duration: Option<real>): (r: (Collection, string))
    ensures r.1 == UniqueId(EndCount(c, key), key)
    ensures EndCount(r.0, key) == EndCount(c, key) + 1
    ensures forall k | k != key :: EndCount(r.0, k) == EndCount(c, k)
    ensures r.0.startIds == c.startIds
    ensures r.1 in r.0.sequences.values
    ensures r.0.sequences.values[r.1].end == end && r.0.sequences.values[r.1].start == None
    ensures r.0.sequences.values[r.1].duration.Some? <==> Truthy(duration)
    ensures Truthy(duration) ==> r.0.sequences.values[r.1].duration == duration
    ensures r.0.sequences.values.Keys == c.sequences.values.Keys + {r.1}
    ensures forall id | id in c.sequences.values && id != r.1 :: r.0.sequences.values[id] == c.sequences.values[id]
  {
    var n: nat := if key in c.endIds then c.endIds[key] + 1 else 0;
    var id := UniqueId(n, key);
    var s := if Truthy(duration) then Sequence(end, None, duration) else Sequence(end, None, None);
    (Collection(c.endIds[key := n], c.startIds, c.sequences.Put(id, s)), id)
  }

  /** Ids stay issued as long as no end counter goes down. */
  lemma IssuedKept(c: Collection, c': Collection, id: string)
    requires Issued(c, id)
    requires forall key :: EndCount(c, key) <= EndCount(c', key)
    ensures Issued(c', id)
  {
    var k, n: nat :| n < EndCount(c, k) && id == UniqueId(n, k);
    assert n < EndCount(c', k);
  }

  /** No sequence exists for an ordinal that its key has not reached. */
  lemma NotIssuedBeyond(c: Collection, n: nat, key: string)
    requires forall id | id in c.sequences.values :: Issued(c, id)
    requires n >= EndCount(c, key)
    ensures UniqueId(n, key) !in c.sequences.values
  {
    if UniqueId(n, key) in c.sequences.values {
      assert Issued(c, UniqueId(n, key));
      var k, m: nat :| m < EndCount(c, k) && UniqueId(n, key) == UniqueId(m, k);
      UniqueIdInjective(n, key, m, k);
    }
  }

  /** Recording an end keeps the invariant, and its id is new: no earlier
      sequence is overwritten, the new one goes last in the table. */
  lemma AddSequenceEndValid(c: Collection, key: string, end: Timestamp, duration: Option<real>)
    requires Valid(c)
    ensures var r := AddSequenceEnd(c, key, end, duration);
      && Valid(r.0)
      && r.1 !in c.sequences.values
      && r.0.sequences.keys == c.sequences.keys + [r.1]
  {
    var r := AddSequenceEnd(c, key, end, duration);
    var c' := r.0;
    NotIssuedBeyond(c, EndCount(c, key), key);
    forall k, n: nat | n < EndCount(c', k)
      ensures UniqueId(n, k) in c'.sequences.values
    {
      if k != key || n < EndCount(c, k) {
        assert UniqueId(n, k) in c.sequences.values;
      }
    }
    forall id | id in c'.sequences.values
      ensures Issued(c', id)
    {
      if id == r.1 {
        assert EndCount(c, key) < EndCount(c', key);
      } else {
        IssuedKept(c, c', id);
      }
    }
  }

  /** `add_sequence_start`. A key without ends yields `None`. Otherwise the
      start takes the next start ordinal of its key and is paired with the
      sequence of the same ordinal; when that sequence does not exist the
      result is `None` and nothing changes, not even the start counter. */
  function AddSequenceStart(c: Collection, key: string, start: Timestamp): (r: (Collection, Option<string>))
    ensures key !in c.endIds ==> r == (c, None)
    ensures r.1.None? ==> r.0 == c
    ensures r.1.Some? <==> key in c.endIds && UniqueId(StartCount(c, key), key) in c.sequences.values
    ensures r.1.Some? ==> r.1 == Some(UniqueId(StartCount(c, key), key))
    ensures r.0.endIds == c.endIds
    ensures r.0.sequences.keys == c.sequences.keys
    ensures r.1.Some? ==> StartCount(r.0, key) == StartCount(c, key) + 1
    ensures forall k | k != key :: StartCount(r.0, k) == StartCount(c, k)
    ensures r.1.Some? ==> r.0.sequences.values == c.sequences.values[r.1.value := c.sequences.values[r.1.value].(start := Some(start))]
  {
    if key !in c.endIds then (c, None)
    else
      var last: int := if key in c.startIds then c.startIds[key] else -1;
      var n: nat := if last >= 0 then last + 1 else 0;
      var id := UniqueId(n, key);
      if id !in c.sequences.values then (c, None)
      else
        var s := c.sequences.values[id];
        (Collection(c.endIds, c.startIds[key := n], c.sequences.Put(id, s.(start := Some(start)))), Some(id))
  }

  /** A start succeeds exactly when its key has an unpaired end left; once a
      key's ends are used up, every further start for it fails and changes
      nothing. */
  lemma AddSequenceStartOutcome(c: Collection, key: string, start: Timestamp)
    requires Valid(c)
    ensures var r := AddSequenceStart(c, key, start);
      && (r.1.Some? <==> StartCount(c, key) < EndCount(c, key))
      && (StartCount(c, key) >= EndCount(c, key) ==> r == (c, None))
  {
    var n := StartCount(c, key);
    if n >= EndCount(c, key) {
      NotIssuedBeyond(c, n, key);
    }
  }

  /** A change that keeps the end counters and the set of ids, and keeps
      every start counter below its end counter, keeps the invariant. */
  lemma ValidSameTable(c: Collection, c': Collection)
    requires Valid(c)
    requires c'.endIds == c.endIds
    requires c'.sequences.Valid()
    requires c'.sequences.values.Keys == c.sequences.values.Keys
    requires forall key | key in c'.startIds :: c'.startIds[key] < EndCount(c', key)
    ensures Valid(c')
  {
    assert forall key :: EndCount(c', key) == EndCount(c, key);
    forall id | id in c'.sequences.values
      ensures Issued(c', id)
    {
      IssuedKept(c, c', id);
    }
  }

  /** Pairing a start keeps the invariant, so no key ever has more paired
      starts than ends. */
  lemma AddSequenceStartValid(c: Collection, key: string, start: Timestamp)
    requires Valid(c)
    ensures Valid(AddSequenceStart(c, key, start).0)
  {
    AddSequenceStartOutcome(c, key, start);
    var r := AddSequenceStart(c, key, start);
    if r.1.Some? {
      var c' := r.0;
      assert c'.sequences.Valid() && c'.sequences.values.Keys == c.sequences.values.Keys;
      assert forall k | k in c'.startIds :: c'.startIds[k] < EndCount(c', k) by {
        assert c'.startIds == c.startIds[key := StartCount(c, key)];
        assert forall k :: EndCount(c', k) == EndCount(c, k);
      }
      ValidSameTable(c, c');
    }
  }

  /** `update_sequence(unique_key, "duration", value)`. */
  function UpdateSequence(c: Collection, id: string, duration: real): (r: Collection)
    requires id in c.sequences.values
    ensures Valid(c) ==> Valid(r)
    ensures r.endIds == c.endIds && r.startIds == c.startIds && r.sequences.keys == c.sequences.keys
    ensures r.sequences.values == c.sequences.values[id := c.sequences.values[id].(duration := Some(duration))]
  {
    var r := c.(sequences := c.sequences.Put(id, c.sequences.values[id].(duration := Some(duration))));
    assert forall key :: EndCount(r, key) == EndCount(c, key);
    r
  }

  /** `get_sequence`: `None` stands for the `KeyError` of a missing id. */
  function GetSequence(c: Collection, id: string): (r: Option<Sequence>)
    ensures r.Some? <==> id in c.sequences.values
    ensures r.Some? ==> r.value == c.sequences.values[id]
  {
    if id in c.sequences.values then Some(c.sequences.values[id]) else None
  }

  /** The sequences of `table` listed in `keys` that have a start, collected
      in the order of `keys`. */
  function CollectComplete(keys: seq<string>, table: map<string, Sequence>): (d: Dict<string, Sequence>)
    requires forall i | 0 <= i < |keys| :: keys[i] in table
    ensures d.Valid()
    ensures forall id :: id in d.values <==> id in keys && table[id].start.Some?
    ensures forall id | id in d.values :: d.values[id] == table[id]
    decreases |keys|
  {
    if |keys| == 0 then OrderedDict.Empty()
    else
      var d := CollectComplete(keys[..|keys| - 1], table);
      var id := keys[|keys| - 1];
      assert forall k :: k in keys <==> k in keys[..|keys| - 1] || k == id;
      if table[id].start.Some? then d.Put(id, table[id]) else d
  }

  /** `complete_sequences`: exactly the sequences that have a start, with or
      without a duration. */
  function CompleteSequences(c: Collection): (d: Dict<string, Sequence>)
    requires c.sequences.Valid()
    ensures d.Valid()
    ensures forall id :: id in d.values <==> id in c.sequences.values && c.sequences.values[id].start.Some?
    ensures forall id | id in d.values :: d.values[id] == c.sequences.values[id]
  {
    CollectComplete(c.sequences.keys, c.sequences.values)
  }

  /** `CollectComplete` keeps the order of `keys`: its i-th key is the one at
      position `pos[i]`, and the positions increase. */
  lemma {:induction false} CollectCompleteInOrder(keys: seq<string>, table: map<string, Sequence>)
    returns (pos: seq<nat>)
    requires forall i | 0 <= i < |keys| :: keys[i] in table
    ensures PicksAt(keys, CollectComplete(keys, table).keys, pos)
    decreases |keys|
  {
    if |keys| == 0 {
      pos := [];
    } else {
      var last := |keys| - 1;
      var pre := keys[..last];
      assert forall i | 0 <= i < |pre| :: pre[i] in table by {
        assert forall i | 0 <= i < |pre| :: pre[i] == keys[i];
      }
      var d := CollectComplete(pre, table);
      var pp := CollectCompleteInOrder(pre, table);
      var id := keys[last];
      if table[id].start.Some? && id !in d.values {
        assert CollectComplete(keys, table).keys == d.keys + [id];
        PicksAtLast(keys, d.keys, pp);
        pos := pp + [last];
      } else {
        assert CollectComplete(keys, table).keys == d.keys;
        PicksAtExtend(keys, d.keys, pp);
        pos := pp;
      }
    }
  }

  /** `complete_sequences` lists its ids in table order. With the membership
      stated by `CompleteSequences`, this fixes its key sequence exactly. */
  lemma CompleteSequencesInOrder(c: Collection) returns (pos: seq<nat>)
    requires c.sequences.Valid()
    ensures |pos| == |CompleteSequences(c).keys| && Increasing(pos, |c.sequences.keys|)
    ensures forall i | 0 <= i < |pos| :: CompleteSequences(c).keys[i] == c.sequences.keys[pos[i]]
  {
    pos := CollectCompleteInOrder(c.sequences.keys, c.sequences.values);
    assert PicksAt(c.sequences.keys, CompleteSequences(c).keys, pos);
  }

  /** Whether some sequence listed in `keys` has a start. */
  function AnyStarted(keys: seq<string>, table: map<string, Sequence>): (b: bool)
    requires forall i | 0 <= i < |keys| :: keys[i] in table
    ensures b <==> exists i | 0 <= i < |keys| :: table[keys[i]].start.Some?
  {
    if |keys| == 0 then false
    else if table[keys[0]].start.Some? then true
    else
      var b := AnyStarted(keys[1..], table);
      assert forall i | 1 <= i < |keys| :: keys[i] == keys[1..][i - 1];
      b
  }

  lemma AnyStartedIffComplete(c: Collection)
    requires c.sequences.Valid()
    ensures AnyStarted(c.sequences.keys, c.sequences.values) <==> CompleteSequences(c).values != map[]
  {
    var d := CompleteSequences(c);
    if AnyStarted(c.sequences.keys, c.sequences.values) {
      var i :| 0 <= i < |c.sequences.keys| && c.sequences.values[c.sequences.keys[i]].start.Some?;
      assert c.sequences.keys[i] in d.values;
    }
  }

  /** `has_complete_sequences`: true iff `complete_sequences` is not empty. */
  function HasCompleteSequences(c: Collection): (b: bool)
    requires c.sequences.Valid()
    ensures b <==> CompleteSequences(c).values != map[]
  {
    AnyStartedIffComplete(c);
    AnyStarted(c.sequences.keys, c.sequences.values)
  }
}
