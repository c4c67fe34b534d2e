/** `LogSequenceBase.get_sequences` (common/analytics.py): feeds every end hit,
    then every start hit, into a `LogSequenceCollection`, and derives each
    paired sequence's duration.

    The search results are given as two sequences of hits, already reduced to
    the source's base name, the event id, the timestamp and, for end hits, the
    optional duration the log line itself carries. */
module LogSequenceBase {
  import opened Wrappers
  import opened LogSequenceCollection

  /** One search result: `source` is the base name of the file it came from. */
  datatype Hit = Hit(source: string, eventId: string, time: Timestamp, duration: Option<real>)

  /** `"{}_{}".format(os.path.basename(result.source), event_id)`. */
  function SequenceKey(h: Hit): string {
    h.source + "_" + h.eventId
  }

  /** `timedelta.total_seconds()` of a span given in microseconds. */
  function Seconds(us: int): real {
    us as real / 1000000.0
  }

  /** The end-phase loop body. */
  function RecordEnd(c: Collection, h: Hit): Collection {
    AddSequenceEnd(c, SequenceKey(h), h.time, h.duration).0
  }

  /** The end-phase loop, over the hits in search order. */
  function RecordEnds(c: Collection, hits: seq<Hit>): Collection
    decreases |hits|
  {
    if |hits| == 0 then c else RecordEnd(RecordEnds(c, hits[..|hits| - 1]), hits[|hits| - 1])
  }

  /** The start-phase loop body: pair the start, then store the end hit's own
      duration, or `end - start` unless that is negative. */
  function RecordStart(c: Collection, h: Hit): Collection {
    var r := AddSequenceStart(c, SequenceKey(h), h.time);
    match r.1
    case None => r.0
    case Some(id) =>
      var s := r.0.sequences.values[id];
      match s.duration
      case Some(d) => UpdateSequence(r.0, id, d)
      case None =>
        var etime := s.end - h.time;
        if etime < 0 then r.0 else UpdateSequence(r.0, id, Seconds(etime))
  }

  /** The start-phase loop, over the hits in search order. */
  function RecordStarts(c: Collection, hits: seq<Hit>): Collection
    decreases |hits|
  {
    if |hits| == 0 then c else RecordStart(RecordStarts(c, hits[..|hits| - 1]), hits[|hits| - 1])
  }

  /** `get_sequences` on a fresh collection: all ends first, then all starts. */
  function GetSequences(ends: seq<Hit>, starts: seq<Hit>): Collection {
    RecordStarts(RecordEnds(Empty(), ends), starts)
  }

  // ---------------------------------------------------------------------
  // A reference description of the outcome, key by key.

  /** The hits of `key`, in search order. */
  function HitsFor(hits: seq<Hit>, key: string): seq<Hit>
    decreases |hits|
  {
    if |hits| == 0 then []
    else
      var h := hits[|hits| - 1];
      HitsFor(hits[..|hits| - 1], key) + (if SequenceKey(h) == key then [h] else [])
  }

  /** The sequence an end hit creates. */
  function Seed(h: Hit): Sequence {
    Sequence(h.time, None, if Truthy(h.duration) then h.duration else None)
  }

  /** A sequence once a start at `start` is paired with it: the end hit's own
      duration is kept even when it disagrees with `end - start`; otherwise the
      duration is `end - start`, and none at all when that is negative. */
  function Paired(s: Sequence, start: Timestamp): (r: Sequence)
    ensures r.end == s.end && r.start == Some(start)
    ensures s.duration.Some? ==> r.duration == s.duration
    ensures s.duration.None? && start <= s.end ==> r.duration == Some(Seconds(s.end - start))
    ensures s.duration.None? && start > s.end ==> r.duration == None
  {
    var d := if s.duration.Some? then s.duration
             else if s.end - start < 0 then None
             else Some(Seconds(s.end - start));
    Sequence(s.end, Some(start), d)
  }

  /** What sequence `"<k>_<key>"` should hold: the k-th end hit of `key`,
      paired with the k-th start hit of `key` when there is one. */
  function Expected(ends: seq<Hit>, starts: seq<Hit>, key: string, k: nat): Sequence
    requires k < |HitsFor(ends, key)|
  {
    var seed := Seed(HitsFor(ends, key)[k]);
    var ss := HitsFor(starts, key);
    if k < |ss| then Paired(seed, ss[k].time) else seed
  }

  function Min(a: nat, b: nat): nat {
    if a <= b then a else b
  }

  // ---------------------------------------------------------------------
  // The two phases.

  lemma HitsForSnoc(pre: seq<Hit>, h: Hit, key: string)
    ensures HitsFor(pre + [h], key) == HitsFor(pre, key) + (if SequenceKey(h) == key then [h] else [])
  {
    assert (pre + [h])[..|pre|] == pre;
  }

  /** The collection after the end hits `hits`. */
  ghost predicate EndState(c: Collection, hits: seq<Hit>) {
    && c.startIds == map[]
    && (forall key :: EndCount(c, key) == |HitsFor(hits, key)|)
    && (forall key, k: nat | k < |HitsFor(hits, key)| ::
          UniqueId(k, key) in c.sequences.values && c.sequences.values[UniqueId(k, key)] == Seed(HitsFor(hits, key)[k]))
  }

  /** One sequence after one more end hit. */
  lemma EndStepAt(c: Collection, pre: seq<Hit>, h: Hit, key: string, k: nat)
    requires EndCount(c, SequenceKey(h)) == |HitsFor(pre, SequenceKey(h))|
    requires k < |HitsFor(pre, key)| ==>
      UniqueId(k, key) in c.sequences.values && c.sequences.values[UniqueId(k, key)] == Seed(HitsFor(pre, key)[k])
    requires k < |HitsFor(pre + [h], key)|
    ensures var c' := RecordEnd(c, h);
      UniqueId(k, key) in c'.sequences.values && c'.sequences.values[UniqueId(k, key)] == Seed(HitsFor(pre + [h], key)[k])
  {
    var K := SequenceKey(h);
    var r := AddSequenceEnd(c, K, h.time, h.duration);
    var id := UniqueId(k, key);
    var hs := HitsFor(pre, key);
    var hs' := HitsFor(pre + [h], key);
    HitsForSnoc(pre, h, key);
    if key == K && k == |hs| {
      assert r.1 == id;
      assert hs' == hs + [h];
      assert hs'[k] == h;
    } else {
      assert k < |hs|;
      assert hs'[k] == hs[k];
      UniqueIdInjective(k, key, EndCount(c, K), K);
      assert id != r.1;
    }
  }

  lemma EndStep(c: Collection, pre: seq<Hit>, h: Hit)
    requires EndState(c, pre)
    ensures EndState(RecordEnd(c, h), pre + [h])
  {
    var hits := pre + [h];
    var c' := RecordEnd(c, h);
    forall key ensures EndCount(c', key) == |HitsFor(hits, key)| {
      HitsForSnoc(pre, h, key);
    }
    forall key, k: nat | k < |HitsFor(hits, key)|
      ensures UniqueId(k, key) in c'.sequences.values && c'.sequences.values[UniqueId(k, key)] == Seed(HitsFor(hits, key)[k])
    {
      EndStepAt(c, pre, h, key, k);
    }
  }

  /** After the end phase: one sequence per end hit, numbered per key in
      search order, none of them started. */
  lemma {:induction false} EndPhase(hits: seq<Hit>)
    ensures EndState(RecordEnds(Empty(), hits), hits)
    decreases |hits|
  {
    if |hits| == 0 {
      assert hits == [];
      EndStateEmpty();
    } else {
      var pre := hits[..|hits| - 1];
      var h := hits[|hits| - 1];
      assert pre + [h] == hits;
      assert RecordEnds(Empty(), hits) == RecordEnd(RecordEnds(Empty(), pre), h);
      EndPhase(pre);
      EndStep(RecordEnds(Empty(), pre), pre, h);
    }
  }

  lemma EndStateEmpty()
    ensures EndState(Empty(), [])
  {
    assert forall key :: HitsFor([], key) == [];
  }

  /** The collection after the start hits `hits`, starting from `c0`. */
  ghost predicate StartState(c0: Collection, c: Collection, hits: seq<Hit>) {
    && c.endIds == c0.endIds
    && c.sequences.values.Keys == c0.sequences.values.Keys
    && (forall key :: StartCount(c, key) == Min(|HitsFor(hits, key)|, EndCount(c0, key)))
    && (forall key, k: nat | k < EndCount(c0, key) ::
          && UniqueId(k, key) in c0.sequences.values
          && c.sequences.values[UniqueId(k, key)] ==
               if k < Min(|HitsFor(hits, key)|, EndCount(c0, key))
               then Paired(c0.sequences.values[UniqueId(k, key)], HitsFor(hits, key)[k].time)
               else c0.sequences.values[UniqueId(k, key)])
  }

  /** Both phases keep the collection invariant. */
  lemma {:induction false} RecordEndsValid(c: Collection, hits: seq<Hit>)
    requires Valid(c)
    ensures Valid(RecordEnds(c, hits))
    decreases |hits|
  {
    if |hits| > 0 {
      var h := hits[|hits| - 1];
      RecordEndsValid(c, hits[..|hits| - 1]);
      AddSequenceEndValid(RecordEnds(c, hits[..|hits| - 1]), SequenceKey(h), h.time, h.duration);
    }
  }

  lemma RecordStartValid(c: Collection, h: Hit)
    requires Valid(c)
    ensures Valid(RecordStart(c, h))
  {
    AddSequenceStartValid(c, SequenceKey(h), h.time);
  }

  lemma {:induction false} RecordStartsValid(c: Collection, hits: seq<Hit>)
    requires Valid(c)
    ensures Valid(RecordStarts(c, hits))
    decreases |hits|
  {
    if |hits| > 0 {
      RecordStartsValid(c, hits[..|hits| - 1]);
      RecordStartValid(RecordStarts(c, hits[..|hits| - 1]), hits[|hits| - 1]);
    }
  }

  /** A start hit whose sequence exists is paired with it, and nothing else
      changes but the start counter of its key. */
  lemma RecordStartPairs(c: Collection, h: Hit)
    requires SequenceKey(h) in c.endIds
    requires UniqueId(StartCount(c, SequenceKey(h)), SequenceKey(h)) in c.sequences.values
    ensures var c' := RecordStart(c, h);
      var id := UniqueId(StartCount(c, SequenceKey(h)), SequenceKey(h));
      && c'.endIds == c.endIds
      && c'.sequences.values == c.sequences.values[id := Paired(c.sequences.values[id], h.time)]
      && StartCount(c', SequenceKey(h)) == StartCount(c, SequenceKey(h)) + 1
      && (forall key | key != SequenceKey(h) :: StartCount(c', key) == StartCount(c, key))
  {
    var K := SequenceKey(h);
    var id := UniqueId(StartCount(c, K), K);
    var r := AddSequenceStart(c, K, h.time);
    assert r.1 == Some(id);
    var s1 := c.sequences.values[id].(start := Some(h.time));
    assert r.0.sequences.values == c.sequences.values[id := s1];
  }

  /** One sequence after one more paired start hit. */
  lemma StartStepAt(c0: Collection, c: Collection, pre: seq<Hit>, h: Hit, key: string, k: nat)
    requires StartCount(c, SequenceKey(h)) == |HitsFor(pre, SequenceKey(h))| < EndCount(c0, SequenceKey(h))
    requires SequenceKey(h) in c.endIds
    requires UniqueId(StartCount(c, SequenceKey(h)), SequenceKey(h)) in c.sequences.values
    requires k < EndCount(c0, key)
    requires UniqueId(k, key) in c0.sequences.values && UniqueId(k, key) in c.sequences.values
    requires c.sequences.values[UniqueId(k, key)] ==
      if k < Min(|HitsFor(pre, key)|, EndCount(c0, key))
      then Paired(c0.sequences.values[UniqueId(k, key)], HitsFor(pre, key)[k].time)
      else c0.sequences.values[UniqueId(k, key)]
    ensures UniqueId(k, key) in RecordStart(c, h).sequences.values
    ensures RecordStart(c, h).sequences.values[UniqueId(k, key)] ==
      if k < Min(|HitsFor(pre + [h], key)|, EndCount(c0, key))
      then Paired(c0.sequences.values[UniqueId(k, key)], HitsFor(pre + [h], key)[k].time)
      else c0.sequences.values[UniqueId(k, key)]
  {
    var K := SequenceKey(h);
    var n := StartCount(c, K);
    var hs := HitsFor(pre, key);
    var hs' := HitsFor(pre + [h], key);
    HitsForSnoc(pre, h, key);
    RecordStartPairs(c, h);
    UniqueIdInjective(k, key, n, K);
    if key == K && k == n {
      assert hs' == hs + [h];
      assert hs'[k] == h;
    } else if k < Min(|hs|, EndCount(c0, key)) {
      assert hs'[k] == hs[k];
    }
  }

  /** A start hit whose key has an unpaired end left. */
  lemma StartStepPaired(c0: Collection, c: Collection, pre: seq<Hit>, h: Hit)
    requires StartState(c0, c, pre)
    requires StartCount(c, SequenceKey(h)) < EndCount(c0, SequenceKey(h))
    ensures StartState(c0, RecordStart(c, h), pre + [h])
  {
    var hits := pre + [h];
    var K := SequenceKey(h);
    var n := StartCount(c, K);
    assert n == |HitsFor(pre, K)|;
    assert UniqueId(n, K) in c.sequences.values;
    RecordStartPairs(c, h);
    var c' := RecordStart(c, h);
    forall key ensures StartCount(c', key) == Min(|HitsFor(hits, key)|, EndCount(c0, key)) {
      HitsForSnoc(pre, h, key);
    }
    forall key, k: nat | k < EndCount(c0, key)
      ensures c'.sequences.values[UniqueId(k, key)] ==
        if k < Min(|HitsFor(hits, key)|, EndCount(c0, key))
        then Paired(c0.sequences.values[UniqueId(k, key)], HitsFor(hits, key)[k].time)
        else c0.sequences.values[UniqueId(k, key)]
    {
      StartStepAt(c0, c, pre, h, key, k);
    }
  }

  /** A start hit whose key has no unpaired end left: dropped. */
  lemma StartStepDropped(c0: Collection, c: Collection, pre: seq<Hit>, h: Hit)
    requires Valid(c) && StartState(c0, c, pre)
    requires StartCount(c, SequenceKey(h)) >= EndCount(c0, SequenceKey(h))
    ensures StartState(c0, RecordStart(c, h), pre + [h])
  {
    var hits := pre + [h];
    AddSequenceStartOutcome(c, SequenceKey(h), h.time);
    assert RecordStart(c, h) == c;
    forall key ensures Min(|HitsFor(hits, key)|, EndCount(c0, key)) == Min(|HitsFor(pre, key)|, EndCount(c0, key)) {
      HitsForSnoc(pre, h, key);
    }
    forall key, k: nat | k < Min(|HitsFor(pre, key)|, EndCount(c0, key))
      ensures HitsFor(hits, key)[k] == HitsFor(pre, key)[k]
    {
      HitsForSnoc(pre, h, key);
    }
  }

  /** After the start phase: the k-th start hit of a key is paired with the
      k-th sequence of that key, for as many starts as there are ends. */
  lemma {:induction false} StartPhase(c0: Collection, hits: seq<Hit>)
    requires Valid(c0) && c0.startIds == map[]
    ensures StartState(c0, RecordStarts(c0, hits), hits)
    decreases |hits|
  {
    if |hits| > 0 {
      var pre := hits[..|hits| - 1];
      var h := hits[|hits| - 1];
      var c := RecordStarts(c0, pre);
      assert pre + [h] == hits;
      assert RecordStarts(c0, hits) == RecordStart(c, h);
      StartPhase(c0, pre);
      RecordStartsValid(c0, pre);
      if StartCount(c, SequenceKey(h)) < EndCount(c0, SequenceKey(h)) {
        StartStepPaired(c0, c, pre, h);
      } else {
        StartStepDropped(c0, c, pre, h);
      }
    }
  }

  /** Reading one sequence off the two phase descriptions. */
  lemma ExpectedAt(ends: seq<Hit>, starts: seq<Hit>, c0: Collection, c: Collection, key: string, k: nat)
    requires EndState(c0, ends) && StartState(c0, c, starts)
    requires k < |HitsFor(ends, key)|
    ensures UniqueId(k, key) in c.sequences.values
    ensures c.sequences.values[UniqueId(k, key)] == Expected(ends, starts, key, k)
  {
    assert EndCount(c0, key) == |HitsFor(ends, key)|;
    assert c0.sequences.values[UniqueId(k, key)] == Seed(HitsFor(ends, key)[k]);
  }

  /** `get_sequences` leaves a well-formed collection. */
  lemma GetSequencesValid(ends: seq<Hit>, starts: seq<Hit>)
    ensures Valid(GetSequences(ends, starts))
  {
    RecordEndsValid(Empty(), ends);
    RecordStartsValid(RecordEnds(Empty(), ends), starts);
  }

  /** `get_sequences` pairs by ordinal position: sequence `"<k>_<key>"` exists
      exactly for the first `|HitsFor(ends, key)|` ordinals, holds the k-th end
      hit of `key`, and is complete exactly when `key` has a k-th start hit,
      which it then holds. Starts beyond the ends of their key are dropped. */
  lemma GetSequencesPairsByOrdinal(ends: seq<Hit>, starts: seq<Hit>)
    ensures forall key :: EndCount(GetSequences(ends, starts), key) == |HitsFor(ends, key)|
    ensures forall key :: StartCount(GetSequences(ends, starts), key) == Min(|HitsFor(starts, key)|, |HitsFor(ends, key)|)
    ensures forall key, k: nat | k < |HitsFor(ends, key)| ::
      && UniqueId(k, key) in GetSequences(ends, starts).sequences.values
      && GetSequences(ends, starts).sequences.values[UniqueId(k, key)] == Expected(ends, starts, key, k)
  {
    var c0 := RecordEnds(Empty(), ends);
    var c := GetSequences(ends, starts);
    EndPhase(ends);
    StartPhaseAfterEnds(ends, starts);
    forall key, k: nat | k < |HitsFor(ends, key)|
      ensures UniqueId(k, key) in c.sequences.values && c.sequences.values[UniqueId(k, key)] == Expected(ends, starts, key, k)
    {
      ExpectedAt(ends, starts, c0, c, key, k);
    }
  }

  lemma StartPhaseAfterEnds(ends: seq<Hit>, starts: seq<Hit>)
    ensures StartState(RecordEnds(Empty(), ends), GetSequences(ends, starts), starts)
  {
    var c0 := RecordEnds(Empty(), ends);
    EndPhase(ends);
    RecordEndsValid(Empty(), ends);
    StartPhase(c0, starts);
  }
}
