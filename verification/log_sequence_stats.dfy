/** `LogSequenceStats` (common/analytics.py): ranking and summary statistics
    over the complete sequences of a collection.

    Sorting keys are reals: timestamps (microseconds) are converted exactly, so
    the order between two keys of the same field is the order of the source's
    datetimes or floats. */
module LogSequenceStats {
  import opened Wrappers
  import opened Text
  import opened OrderedDict
  import opened LogSequenceCollection
  import opened Sorting
  import opened Statistics

  /** The keys of a sequence record that `sort_by_key` and `get_stats` name. */
  datatype Field = StartField | EndField | DurationField

  /** One `(unique_key, sequence)` item of a sequence table. */
  type Entry = (string, Sequence)

  /** Python truthiness of `v.get(field)`: a datetime is always true, a
      duration is false when missing or zero. */
  predicate FieldTruthy(s: Sequence, f: Field) {
    match f
    case StartField => s.start.Some?
    case EndField => true
    case DurationField => Truthy(s.duration)
  }

  /** `v.get(field, 0)`, as a number. */
  function SortKey(s: Sequence, f: Field): real {
    match f
    case StartField => s.start.GetOr(0) as real
    case EndField => s.end as real
    case DurationField => s.duration.GetOr(0.0)
  }

  /** The sorting key of an item. */
  function KeyOf(f: Field): Entry -> real {
    (e: Entry) => SortKey(e.1, f)
  }

  /** The items whose `field` is truthy, in their order. */
  function FilterTruthy(items: seq<Entry>, f: Field): (r: seq<Entry>)
    ensures forall e :: e in r <==> e in items && FieldTruthy(e.1, f)
    ensures |r| <= |items|
    decreases |items|
  {
    if |items| == 0 then []
    else
      var e := items[|items| - 1];
      var r := FilterTruthy(items[..|items| - 1], f);
      assert forall y :: y in items <==> y in items[..|items| - 1] || y == e;
      if FieldTruthy(e.1, f) then r + [e] else r
  }

  /** `r` holds the items at the increasing positions `pos`, and every item
      with a truthy `f` is among them. */
  predicate FilteredAt(items: seq<Entry>, f: Field, r: seq<Entry>, pos: seq<nat>) {
    && |pos| == |r| && Increasing(pos, |items|)
    && (forall i | 0 <= i < |pos| :: r[i] == items[pos[i]])
    && (forall k | 0 <= k < |items| && FieldTruthy(items[k].1, f) :: k in pos)
  }

  /** `FilterTruthy` keeps its input's order and drops only falsy items. */
  lemma {:induction false} FilterTruthyPositions(items: seq<Entry>, f: Field) returns (pos: seq<nat>)
    ensures FilteredAt(items, f, FilterTruthy(items, f), pos)
    decreases |items|
  {
    if |items| == 0 {
      pos := [];
    } else {
      var last := |items| - 1;
      var pre := items[..last];
      var rp := FilterTruthy(pre, f);
      var pp := FilterTruthyPositions(pre, f);
      if FieldTruthy(items[last].1, f) {
        assert FilterTruthy(items, f) == rp + [items[last]];
        FilteredAtTake(items, f, rp, pp);
        pos := pp + [last];
      } else {
        assert FilterTruthy(items, f) == rp;
        FilteredAtSkip(items, f, rp, pp);
        pos := pp;
      }
    }
  }

  /** A falsy last item is dropped. */
  lemma FilteredAtSkip(items: seq<Entry>, f: Field, r: seq<Entry>, pos: seq<nat>)
    requires |items| > 0 && FilteredAt(items[..|items| - 1], f, r, pos)
    requires !FieldTruthy(items[|items| - 1].1, f)
    ensures FilteredAt(items, f, r, pos)
  {
    assert forall k | 0 <= k < |items| - 1 :: items[..|items| - 1][k] == items[k];
  }

  /** A truthy last item is kept, at the last position. */
  lemma FilteredAtTake(items: seq<Entry>, f: Field, r: seq<Entry>, pos: seq<nat>)
    requires |items| > 0 && FilteredAt(items[..|items| - 1], f, r, pos)
    requires FieldTruthy(items[|items| - 1].1, f)
    ensures FilteredAt(items, f, r + [items[|items| - 1]], pos + [|items| - 1])
  {
    var last := |items| - 1;
    assert forall k | 0 <= k < last :: items[..last][k] == items[k];
    var r' := r + [items[last]];
    var pos' := pos + [last];
    forall i | 0 <= i < |pos'| ensures r'[i] == items[pos'[i]] {
      if i < |pos| { assert r'[i] == r[i] && pos'[i] == pos[i]; }
    }
  }

  /** The first `max` items; none when `max <= 0` (the loop's `count >= max`
      test comes before the first item is taken). */
  function Take(s: seq<Entry>, max: int): (r: seq<Entry>)
    ensures |r| == if max <= 0 then 0 else if max < |s| then max else |s|
    ensures r == s[..|r|]
  {
    if max <= 0 then [] else if max < |s| then s[..max] else s
  }

  /** `valid_sequences`: the complete sequences with a truthy `field`. */
  function ValidEntries(c: Collection, f: Field): (r: seq<Entry>)
    requires c.sequences.Valid()
    ensures forall e :: e in r <==>
      && e.0 in c.sequences.values && c.sequences.values[e.0] == e.1
      && e.1.start.Some? && FieldTruthy(e.1, f)
  {
    var d := CompleteSequences(c);
    var items := d.Items();
    assert forall e: Entry :: e in items <==> e.0 in d.values && d.values[e.0] == e.1 by {
      forall e: Entry | e.0 in d.values && d.values[e.0] == e.1 ensures e in items {
        var i :| 0 <= i < |d.keys| && d.keys[i] == e.0;
        assert items[i] == e;
      }
    }
    FilterTruthy(items, f)
  }

  /** `valid_sequences` follows table order, so each complete sequence
      appears in it once: the i-th entry is the sequence at table position
      `pos[i]`, and the positions increase. */
  lemma ValidEntriesInTableOrder(c: Collection, f: Field) returns (pos: seq<nat>)
    requires c.sequences.Valid()
    ensures var r := ValidEntries(c, f);
      && |pos| == |r| && Increasing(pos, |c.sequences.keys|)
      && (forall i | 0 <= i < |r| :: r[i].0 == c.sequences.keys[pos[i]])
    ensures var r := ValidEntries(c, f);
      forall i, j | 0 <= i < j < |r| :: r[i].0 != r[j].0
  {
    var d := CompleteSequences(c);
    var items := d.Items();
    var r := ValidEntries(c, f);
    assert r == FilterTruthy(items, f);
    var tp := CompleteSequencesInOrder(c);
    var fp := FilterTruthyPositions(items, f);
    pos := ComposeIncreasing(tp, fp, |c.sequences.keys|);
    forall i | 0 <= i < |r| ensures r[i].0 == c.sequences.keys[pos[i]] {
      assert r[i] == items[fp[i]];
    }
    forall i, j | 0 <= i < j < |r| ensures r[i].0 != r[j].0 {
      assert pos[i] < pos[j];
    }
  }

  /** `top_n` before re-keying: the first `max` valid sequences in `field`
      order. */
  function SelectTop(c: Collection, max: int, f: Field, reverse: bool): (top: seq<Entry>)
    requires c.sequences.Valid()
  {
    Take(Sort(ValidEntries(c, f), KeyOf(f), reverse), max)
  }

  /** The selection holds `max` valid sequences, or all of them when there are
      fewer; and nothing left out ranks ahead of anything selected. */
  lemma SelectTopIsExtreme(c: Collection, max: int, f: Field, reverse: bool)
    requires c.sequences.Valid()
    ensures var valid := ValidEntries(c, f);
      var top := SelectTop(c, max, f, reverse);
      && |top| == (if max <= 0 then 0 else if max < |valid| then max else |valid|)
      && (forall e | e in top :: e in valid)
      && (forall x, y | x in valid && x !in top && y in top ::
            InOrder(SortKey(y.1, f), SortKey(x.1, f), reverse))
  {
    var valid := ValidEntries(c, f);
    var ss := Sort(valid, KeyOf(f), reverse);
    var top := SelectTop(c, max, f, reverse);
    PermutationMembers(ss, valid);
    PrefixOfSortedIsExtreme(valid, KeyOf(f), reverse, |top|);
    assert forall e :: KeyOf(f)(e) == SortKey(e.1, f);
  }

  /** What `top_n_sorted` keeps of a sequence: `start` and `end`, and
      `duration` only when truthy. */
  function Summary(s: Sequence): (r: Sequence)
    ensures r.start == s.start && r.end == s.end
    ensures r.duration.Some? <==> Truthy(s.duration)
    ensures r.duration.Some? ==> r.duration == s.duration
  {
    Sequence(s.end, s.start, if Truthy(s.duration) then s.duration else None)
  }

  /** `k.rpartition('_')[2].partition('_')[0]`. */
  function TopKey(id: string): string {
    Partition(AfterLast(id, '_'), '_').before
  }

  /** The second partition never cuts anything: the key is the text after
      the last `_`. */
  lemma TopKeyIsLastSegment(id: string)
    ensures TopKey(id) == AfterLast(id, '_')
    ensures '_' !in TopKey(id)
  {
  }

  /** On a sequence id `"<n>_<source>_<event_id>"` the key is the last
      `_`-separated segment of the event id, whatever the ordinal and file. */
  lemma TopKeyOfUniqueId(n: nat, source: string, eventId: string)
    ensures TopKey(UniqueId(n, source + "_" + eventId)) == AfterLast(eventId, '_')
  {
    var prefix := NatToString(n) + "_" + source;
    assert UniqueId(n, source + "_" + eventId) == prefix + ['_'] + eventId;
    AfterLastSkipsPrefix(prefix, '_', eventId);
    TopKeyIsLastSegment(UniqueId(n, source + "_" + eventId));
  }

  /** The dictionary key and the reported value of an item. */
  const EntryTopKey: Entry -> string := (e: Entry) => TopKey(e.0)
  const EntrySummary: Entry -> Sequence := (e: Entry) => Summary(e.1)

  /** `get_top_sequences(max, sort_by_key, reverse)`: the selected sequences,
      ordered by start (descending when `reverse`), stored under their keys. */
  function GetTopSequences(c: Collection, max: int, f: Field, reverse: bool): (d: Dict<string, Sequence>)
    requires c.sequences.Valid()
    ensures d.Valid()
  {
    FromItems(Sort(SelectTop(c, max, f, reverse), KeyOf(StartField), reverse), EntryTopKey, EntrySummary)
  }

  /** Ordering the selection by start and re-keying it reports exactly the
      keys of the selection, each with the summary of a selected sequence. */
  lemma ReportOfSelection(top: seq<Entry>, reverse: bool)
    ensures var d := FromItems(Sort(top, KeyOf(StartField), reverse), EntryTopKey, EntrySummary);
      && |d.keys| <= |top|
      && (forall e | e in top :: EntryTopKey(e) in d.values)
      && (forall k | k in d.values :: exists e | e in top :: EntryTopKey(e) == k && d.values[k] == EntrySummary(e))
  {
    var ss := Sort(top, KeyOf(StartField), reverse);
    PermutationMembers(ss, top);
    FromItemsReports(ss, EntryTopKey, EntrySummary);
    forall e | e in top ensures e in ss {
      assert e in multiset(top);
    }
    forall e | e in ss ensures e in top {
      assert e in multiset(ss);
    }
  }

  /** Every reported key comes from a selected sequence, whose summary it
      holds; every selected sequence's key is reported; there are at most
      `max` keys. */
  lemma GetTopSequencesReports(c: Collection, max: int, f: Field, reverse: bool)
    requires c.sequences.Valid()
    ensures var top := SelectTop(c, max, f, reverse);
      var d := GetTopSequences(c, max, f, reverse);
      && |d.keys| <= |top|
      && (max >= 0 ==> |d.keys| <= max)
      && (forall e | e in top :: TopKey(e.0) in d.values)
      && (forall k | k in d.values :: exists e | e in top :: TopKey(e.0) == k && d.values[k] == Summary(e.1))
  {
    var top := SelectTop(c, max, f, reverse);
    SelectTopIsExtreme(c, max, f, reverse);
    ReportOfSelection(top, reverse);
  }

  /** Keys collide when two selected ids end in the same segment: the one
      placed later in start order overwrites the earlier. */
  lemma GetTopSequencesLastWins(c: Collection, max: int, f: Field, reverse: bool, i: nat)
    requires c.sequences.Valid()
    requires var ordered := Sort(SelectTop(c, max, f, reverse), KeyOf(StartField), reverse);
      && i < |ordered|
      && forall j | i < j < |ordered| :: TopKey(ordered[j].0) != TopKey(ordered[i].0)
    ensures var ordered := Sort(SelectTop(c, max, f, reverse), KeyOf(StartField), reverse);
      var d := GetTopSequences(c, max, f, reverse);
      TopKey(ordered[i].0) in d.values && d.values[TopKey(ordered[i].0)] == Summary(ordered[i].1)
  {
    var ordered := Sort(SelectTop(c, max, f, reverse), KeyOf(StartField), reverse);
    FromItemsLastWins(ordered, EntryTopKey, EntrySummary, i);
  }

  /** The report lists its keys in start order (descending when `reverse`)
      of the first selected sequence, in that order, that has each key:
      `firsts[i]` is that sequence for the i-th key, and no selected sequence
      with the same key comes ahead of it. */
  lemma GetTopSequencesKeyOrder(c: Collection, max: int, f: Field, reverse: bool) returns (firsts: seq<Entry>)
    requires c.sequences.Valid()
    ensures var d := GetTopSequences(c, max, f, reverse);
      && |firsts| == |d.keys|
      && (forall i | 0 <= i < |firsts| :: firsts[i] in SelectTop(c, max, f, reverse) && TopKey(firsts[i].0) == d.keys[i])
    ensures forall i, j | 0 <= i < j < |firsts| ::
      InOrder(SortKey(firsts[i].1, StartField), SortKey(firsts[j].1, StartField), reverse)
    ensures forall i, e | 0 <= i < |firsts| && e in SelectTop(c, max, f, reverse) && TopKey(e.0) == TopKey(firsts[i].0) ::
      InOrder(SortKey(firsts[i].1, StartField), SortKey(e.1, StartField), reverse)
  {
    firsts := SelectionKeyOrder(SelectTop(c, max, f, reverse), reverse);
  }

  /** Ordering a selection by start and re-keying it lists each key at the
      place of its first item in start order. */
  lemma SelectionKeyOrder(top: seq<Entry>, reverse: bool) returns (firsts: seq<Entry>)
    ensures var d := FromItems(Sort(top, KeyOf(StartField), reverse), EntryTopKey, EntrySummary);
      && |firsts| == |d.keys|
      && (forall i | 0 <= i < |firsts| :: firsts[i] in top && TopKey(firsts[i].0) == d.keys[i])
    ensures forall i, j | 0 <= i < j < |firsts| ::
      InOrder(SortKey(firsts[i].1, StartField), SortKey(firsts[j].1, StartField), reverse)
    ensures forall i, e | 0 <= i < |firsts| && e in top && TopKey(e.0) == TopKey(firsts[i].0) ::
      InOrder(SortKey(firsts[i].1, StartField), SortKey(e.1, StartField), reverse)
  {
    var ordered := Sort(top, KeyOf(StartField), reverse);
    var pos := FromItemsFirstPositions(ordered, EntryTopKey, EntrySummary);
    firsts := FirstsOfSorted(ordered, reverse, FromItems(ordered, EntryTopKey, EntrySummary).keys, pos);
    PermutationMembers(ordered, top);
  }

  /** In a sequence sorted by start, the first item with each key ranks no
      later than any other item with that key, and the first items of keys
      listed in order of first occurrence are in start order. */
  lemma FirstsOfSorted(ordered: seq<Entry>, reverse: bool, keys: seq<string>, pos: seq<nat>) returns (firsts: seq<Entry>)
    requires SortedBy(ordered, KeyOf(StartField), reverse)
    requires FirstPositions(ordered, EntryTopKey, keys, pos)
    ensures |firsts| == |keys|
    ensures forall i | 0 <= i < |firsts| :: firsts[i] in ordered && TopKey(firsts[i].0) == keys[i]
    ensures forall i, j | 0 <= i < j < |firsts| ::
      InOrder(SortKey(firsts[i].1, StartField), SortKey(firsts[j].1, StartField), reverse)
    ensures forall i, e | 0 <= i < |firsts| && e in ordered && TopKey(e.0) == TopKey(firsts[i].0) ::
      InOrder(SortKey(firsts[i].1, StartField), SortKey(e.1, StartField), reverse)
  {
    firsts := seq(|pos|, i requires 0 <= i < |pos| && pos[i] < |ordered| => ordered[pos[i]]);
    assert forall e :: KeyOf(StartField)(e) == SortKey(e.1, StartField);
    forall i | 0 <= i < |firsts| ensures firsts[i] in ordered && TopKey(firsts[i].0) == keys[i] {
      assert EntryTopKey(ordered[pos[i]]) == keys[i];
    }
    forall i, j | 0 <= i < j < |firsts| ensures InOrder(SortKey(firsts[i].1, StartField), SortKey(firsts[j].1, StartField), reverse) {
      assert pos[i] < pos[j];
    }
    forall i, e | 0 <= i < |firsts| && e in ordered && TopKey(e.0) == TopKey(firsts[i].0)
      ensures InOrder(SortKey(firsts[i].1, StartField), SortKey(e.1, StartField), reverse)
    {
      var m :| 0 <= m < |ordered| && ordered[m] == e;
      assert EntryTopKey(ordered[m]) == keys[i];
      if m != pos[i] {
        assert m > pos[i];
      }
    }
  }

  /** When no two selected sequences share a report key, the reported values
      themselves are in start order (descending when `reverse`). */
  lemma GetTopSequencesByStart(c: Collection, max: int, f: Field, reverse: bool)
    requires c.sequences.Valid()
    requires forall x, y | x in SelectTop(c, max, f, reverse) && y in SelectTop(c, max, f, reverse) && TopKey(x.0) == TopKey(y.0) :: x == y
    ensures var d := GetTopSequences(c, max, f, reverse);
      forall i, j | 0 <= i < j < |d.keys| ::
        InOrder(SortKey(d.values[d.keys[i]], StartField), SortKey(d.values[d.keys[j]], StartField), reverse)
  {
    var top := SelectTop(c, max, f, reverse);
    var d := GetTopSequences(c, max, f, reverse);
    var firsts := GetTopSequencesKeyOrder(c, max, f, reverse);
    GetTopSequencesReports(c, max, f, reverse);
    forall i | 0 <= i < |d.keys| ensures SortKey(d.values[d.keys[i]], StartField) == SortKey(firsts[i].1, StartField) {
      var e :| e in top && TopKey(e.0) == d.keys[i] && d.values[d.keys[i]] == Summary(e.1);
      assert e == firsts[i];
    }
  }

  /** `get_top_n_sorted(max)`: the `max` longest sequences, by duration. */
  function GetTopNSorted(c: Collection, max: int): (d: Dict<string, Sequence>)
    requires c.sequences.Valid()
  {
    GetTopSequences(c, max, DurationField, true)
  }

  /** Every sequence `get_top_n_sorted` reports has a start and a non-zero
      duration, and there are at most `max`. */
  lemma GetTopNSortedReportsDurations(c: Collection, max: int)
    requires c.sequences.Valid()
    ensures var d := GetTopNSorted(c, max);
      && (max >= 0 ==> |d.keys| <= max)
      && (forall k | k in d.values :: d.values[k].start.Some? && Truthy(d.values[k].duration))
  {
    var d := GetTopNSorted(c, max);
    var top := SelectTop(c, max, DurationField, true);
    assert forall e | e in top :: e.1.start.Some? && Truthy(e.1.duration) by {
      SelectTopIsExtreme(c, max, DurationField, true);
    }
    assert forall k | k in d.values :: exists e | e in top :: TopKey(e.0) == k && d.values[k] == Summary(e.1) by {
      GetTopSequencesReports(c, max, DurationField, true);
    }
    assert max >= 0 ==> |d.keys| <= max by {
      GetTopSequencesReports(c, max, DurationField, true);
    }
    forall k | k in d.values ensures d.values[k].start.Some? && Truthy(d.values[k].duration) {
      var e :| e in top && TopKey(e.0) == k && d.values[k] == Summary(e.1);
    }
  }

  // ---------------------------------------------------------------------
  // get_stats

  /** `complete_sequences.values()`, in table order. */
  function CompleteValues(c: Collection): (ss: seq<Sequence>)
    requires c.sequences.Valid()
    ensures |ss| == |CompleteSequences(c).keys|
    ensures forall i | 0 <= i < |ss| :: ss[i] == CompleteSequences(c).values[CompleteSequences(c).keys[i]]
    ensures forall s :: s in ss <==> exists id | id in c.sequences.values :: c.sequences.values[id] == s && s.start.Some?
  {
    var d := CompleteSequences(c);
    var ss := seq(|d.keys|, i requires 0 <= i < |d.keys| => d.values[d.keys[i]]);
    assert forall s :: s in ss <==> exists id | id in d.values :: d.values[id] == s by {
      forall s, id | id in d.values && d.values[id] == s ensures s in ss {
        var i :| 0 <= i < |d.keys| && d.keys[i] == id;
        assert ss[i] == s;
      }
    }
    ss
  }

  /** `[s.get("duration") for s in sequences if s.get("duration") is not None]`:
      a zero duration is a sample. */
  function Samples(ss: seq<Sequence>): (xs: seq<real>)
    ensures |xs| <= |ss|
    ensures forall i | 0 <= i < |ss| && ss[i].duration.Some? :: ss[i].duration.value in xs
    ensures forall x | x in xs :: exists i | 0 <= i < |ss| :: ss[i].duration == Some(x)
    ensures (forall i | 0 <= i < |ss| :: ss[i].duration.Some?) ==> |xs| == |ss|
    ensures (forall i | 0 <= i < |ss| :: ss[i].duration.None?) ==> xs == []
    decreases |ss|
  {
    if |ss| == 0 then []
    else
      var pre := ss[..|ss| - 1];
      var s := ss[|ss| - 1];
      var xs := Samples(pre);
      assert forall i | 0 <= i < |pre| :: pre[i] == ss[i];
      if s.duration.Some? then xs + [s.duration.value] else xs
  }

  /** `xs` holds the durations at the increasing positions `pos`, and every
      sequence that has a duration is among them. */
  predicate SampledAt(ss: seq<Sequence>, xs: seq<real>, pos: seq<nat>) {
    && |pos| == |xs| && Increasing(pos, |ss|)
    && (forall i | 0 <= i < |pos| :: ss[pos[i]].duration == Some(xs[i]))
    && (forall k | 0 <= k < |ss| && ss[k].duration.Some? :: k in pos)
  }

  /** The samples are exactly the present durations, in order: one sample
      per sequence that has a duration. */
  lemma {:induction false} SamplesPositions(ss: seq<Sequence>) returns (pos: seq<nat>)
    ensures SampledAt(ss, Samples(ss), pos)
    decreases |ss|
  {
    if |ss| == 0 {
      pos := [];
    } else {
      var last := |ss| - 1;
      var pre := ss[..last];
      var xp := Samples(pre);
      var pp := SamplesPositions(pre);
      if ss[last].duration.Some? {
        assert Samples(ss) == xp + [ss[last].duration.value];
        SampledAtTake(ss, xp, pp);
        pos := pp + [last];
      } else {
        assert Samples(ss) == xp;
        SampledAtSkip(ss, xp, pp);
        pos := pp;
      }
    }
  }

  /** A last sequence without a duration adds no sample. */
  lemma SampledAtSkip(ss: seq<Sequence>, xs: seq<real>, pos: seq<nat>)
    requires |ss| > 0 && SampledAt(ss[..|ss| - 1], xs, pos)
    requires ss[|ss| - 1].duration.None?
    ensures SampledAt(ss, xs, pos)
  {
    assert forall k | 0 <= k < |ss| - 1 :: ss[..|ss| - 1][k] == ss[k];
  }

  /** A last sequence with a duration adds it as the last sample. */
  lemma SampledAtTake(ss: seq<Sequence>, xs: seq<real>, pos: seq<nat>)
    requires |ss| > 0 && SampledAt(ss[..|ss| - 1], xs, pos)
    requires ss[|ss| - 1].duration.Some?
    ensures SampledAt(ss, xs + [ss[|ss| - 1].duration.value], pos + [|ss| - 1])
  {
    var last := |ss| - 1;
    assert forall k | 0 <= k < last :: ss[..last][k] == ss[k];
    var xs' := xs + [ss[last].duration.value];
    var pos' := pos + [last];
    forall i | 0 <= i < |pos'| ensures ss[pos'[i]].duration == Some(xs'[i]) {
      if i < |pos| { assert xs'[i] == xs[i] && pos'[i] == pos[i]; }
    }
  }

  /** A zero duration is a sample like any other. */
  lemma ZeroDurationIsASample(end: Timestamp, start: Timestamp)
    ensures Samples([Sequence(end, Some(start), Some(0.0)), Sequence(end, Some(start), None)]) == [0.0]
  {
    var ss := [Sequence(end, Some(start), Some(0.0)), Sequence(end, Some(start), None)];
    assert ss[..1] == [ss[0]];
    assert [ss[0]][..0] == [];
  }

  /** The dictionary `get_stats` returns, before rounding to two places and
      with the variance in place of its square root. */
  datatype Stats = Stats(min: real, max: real, variance: real, avg: real, samples: nat)

  /** `EmptySample` is the `ValueError` of `min([])`; `NotNumeric` the
      `TypeError` of `statistics` on datetimes. */
  datatype StatsError = EmptySample | NotNumeric

  /** The statistics of a non-empty sample. */
  function StatsOf(xs: seq<real>): (r: Stats)
    requires |xs| > 0
    ensures r.samples == |xs|
    ensures r.min in xs && r.max in xs
    ensures forall x | x in xs :: r.min <= x <= r.max
    ensures r.min <= r.avg <= r.max
    ensures r.avg == Sum(xs) / |xs| as real
    ensures r.variance == SquaredDeviations(xs, r.avg) / |xs| as real
    ensures r.variance >= 0.0
  {
    var avg, variance := Mean(xs), Variance(xs);
    assert MinOf(xs) <= avg <= MaxOf(xs) by { MeanBetweenExtremes(xs); }
    assert variance >= 0.0 by { VarianceNonNegative(xs); }
    Stats(MinOf(xs), MaxOf(xs), variance, avg, |xs|)
  }

  /** Samples 1, 2 and 3: minimum 1, maximum 3, mean 2 and population
      variance 2/3. */
  lemma StatsOfExample()
    ensures StatsOf([1.0, 2.0, 3.0]) == Stats(1.0, 3.0, 2.0 / 3.0, 2.0, 3)
  {
    var xs := [1.0, 2.0, 3.0];
    var r := StatsOf(xs);
    assert xs[1..] == [2.0, 3.0];
    assert xs[1..][1..] == [3.0];
    assert xs[1..][1..][1..] == [];
    assert Sum(xs) == 6.0;
    assert r.avg == 2.0;
    assert SquaredDeviations(xs, 2.0) == 2.0;
    assert r.min == 1.0 by {
      assert r.min in xs && r.min <= xs[0];
    }
    assert r.max == 3.0 by {
      assert r.max in xs && xs[2] <= r.max;
    }
  }

  /** The durations of the complete sequences. */
  function DurationSamples(c: Collection): seq<real>
    requires c.sequences.Valid()
  {
    Samples(CompleteValues(c))
  }

  /** `get_stats(field)`. Every complete sequence has a start and an end, so
      for those fields every sequence is a sample, and the datetimes reach
      `statistics.pstdev`, which rejects them. */
  function GetStats(c: Collection, f: Field): (r: Result<Stats, StatsError>)
    requires c.sequences.Valid()
    ensures r.Success? <==> f == DurationField && DurationSamples(c) != []
    ensures r.Success? ==> r.value == StatsOf(DurationSamples(c))
    ensures r == Failure(EmptySample) <==>
      if f == DurationField then DurationSamples(c) == [] else CompleteValues(c) == []
    ensures r == Failure(NotNumeric) <==> f != DurationField && CompleteValues(c) != []
  {
    match f
    case DurationField =>
      var xs := DurationSamples(c);
      if |xs| == 0 then Failure(EmptySample) else Success(StatsOf(xs))
    case _ =>
      if |CompleteValues(c)| == 0 then Failure(EmptySample) else Failure(NotNumeric)
  }

  /** `get_stats("duration")` counts one sample per complete sequence that
      has a duration: `ids` lists those sequences once each, and the samples
      are their durations. */
  lemma GetStatsCountsDurations(c: Collection) returns (ids: seq<string>)
    requires c.sequences.Valid()
    ensures forall i, j | 0 <= i < j < |ids| :: ids[i] != ids[j]
    ensures forall id :: id in ids <==>
      id in c.sequences.values && c.sequences.values[id].start.Some? && c.sequences.values[id].duration.Some?
    ensures |DurationSamples(c)| == |ids|
    ensures forall i | 0 <= i < |ids| ::
      ids[i] in c.sequences.values && c.sequences.values[ids[i]].duration == Some(DurationSamples(c)[i])
    ensures GetStats(c, DurationField).Success? <==> |ids| > 0
    ensures GetStats(c, DurationField).Success? ==> GetStats(c, DurationField).value.samples == |ids|
  {
    var d := CompleteSequences(c);
    var vs := CompleteValues(c);
    var pos := SamplesPositions(vs);
    ids := DurationIds(d, vs, DurationSamples(c), pos);
  }

  /** The ids of a table whose values, listed in key order, have the
      durations `xs` at positions `pos`. */
  lemma DurationIds(d: Dict<string, Sequence>, vs: seq<Sequence>, xs: seq<real>, pos: seq<nat>)
    returns (ids: seq<string>)
    requires d.Valid() && |vs| == |d.keys|
    requires forall i | 0 <= i < |vs| :: vs[i] == d.values[d.keys[i]]
    requires SampledAt(vs, xs, pos)
    ensures forall i, j | 0 <= i < j < |ids| :: ids[i] != ids[j]
    ensures forall id :: id in ids <==> id in d.values && d.values[id].duration.Some?
    ensures |xs| == |ids|
    ensures forall i | 0 <= i < |ids| :: ids[i] in d.values && d.values[ids[i]].duration == Some(xs[i])
  {
    ids := seq(|pos|, i requires 0 <= i < |pos| && pos[i] < |d.keys| => d.keys[pos[i]]);
    forall i | 0 <= i < |ids| ensures ids[i] in d.values && d.values[ids[i]].duration == Some(xs[i]) {
      assert vs[pos[i]] == d.values[ids[i]];
    }
    forall i, j | 0 <= i < j < |ids| ensures ids[i] != ids[j] {
      assert pos[i] < pos[j];
    }
    forall id | id in d.values && d.values[id].duration.Some? ensures id in ids {
      var k :| 0 <= k < |d.keys| && d.keys[k] == id;
      assert vs[k].duration.Some?;
      var i :| 0 <= i < |pos| && pos[i] == k;
      assert ids[i] == id;
    }
  }
}
