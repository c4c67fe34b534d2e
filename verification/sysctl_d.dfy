/** `SystemChecks._get_sysctl_d` and `_get_charm_sysctl_d`
    (plugins/system/pyparts/checks.py): the settings of several sysctl
    configuration files merged into one table. For each key the file with the
    greatest name (string order) wins; between files of the same name the one
    read first wins, because a key is only replaced by a strictly greater name. */
module SysctlD {
  import opened Wrappers
  import opened Text
  import opened OrderedDict
  import opened SysctlConf

  /** A directory entry: its name, and its lines when it is a regular file. */
  datatype Entry = Entry(name: string, content: Option<seq<string>>)

  /** A file name with the settings `_sysctl_conf` reads from it. */
  datatype ConfFile = ConfFile(name: string, settings: Dict<string, string>)

  /** `self._sysctl_conf(os.path.join(path, conf))` for one entry. */
  function Read(e: Entry): (f: ConfFile)
    ensures f.name == e.name && f.settings.Valid()
    ensures f.settings == SysctlConfOf(e.content)
  {
    ConfFile(e.name, SysctlConfOf(e.content))
  }

  /** Every entry of a listing, read. */
  function ReadAll(entries: seq<Entry>): (files: seq<ConfFile>)
    ensures |files| == |entries|
    ensures forall m | 0 <= m < |entries| :: files[m] == Read(entries[m])
    ensures Readable(files)
  {
    seq(|entries|, m requires 0 <= m < |entries| => Read(entries[m]))
  }

  /** Every file's settings are a well-formed table, as `_sysctl_conf`
      returns them. */
  ghost predicate Readable(files: seq<ConfFile>) {
    forall m | 0 <= m < |files| :: files[m].settings.Valid()
  }

  /** The setting kept for a key and the file it came from. */
  datatype Assignment = Assignment(conf: string, value: string)

  /** One setting of one file, in the order the merge meets it. */
  datatype Candidate = Candidate(conf: string, key: string, value: string)

  /** The table keeps both the winning value and the name of the file it came
      from (`sysctl_key_values` and `sysctl_key_priorities` together). */
  type Table = Dict<string, Assignment>

  predicate Defines(f: ConfFile, k: string) {
    k in f.settings.values
  }

  /** `parsed.items()` of one file, tagged with the file's name. */
  function FileCandidates(f: ConfFile): (cs: seq<Candidate>)
    requires f.settings.Valid()
    ensures forall c: Candidate :: c in cs <==> c.conf == f.name && Defines(f, c.key) && c.value == f.settings.values[c.key]
    ensures forall i, j | 0 <= i < j < |cs| :: cs[i].key != cs[j].key
  {
    var d := f.settings;
    var cs := seq(|d.keys|, i requires 0 <= i < |d.keys| => Candidate(f.name, d.keys[i], d.values[d.keys[i]]));
    assert forall c: Candidate | c.conf == f.name && Defines(f, c.key) && c.value == d.values[c.key] :: c in cs by {
      forall c: Candidate | c.conf == f.name && Defines(f, c.key) && c.value == d.values[c.key] ensures c in cs {
        var i :| 0 <= i < |d.keys| && d.keys[i] == c.key;
        assert cs[i] == c;
      }
    }
    cs
  }

  /** The concatenation of `ss`. */
  function Flatten<T>(ss: seq<seq<T>>): seq<T>
    decreases |ss|
  {
    if |ss| == 0 then [] else Flatten(ss[..|ss| - 1]) + ss[|ss| - 1]
  }

  /** An element of the concatenation is an element of one of the parts. */
  lemma {:induction false} FlattenMembers<T>(ss: seq<seq<T>>, x: T)
    ensures x in Flatten(ss) <==> exists m | 0 <= m < |ss| :: x in ss[m]
    decreases |ss|
  {
    if |ss| > 0 {
      var pre := ss[..|ss| - 1];
      assert forall m | 0 <= m < |pre| :: pre[m] == ss[m];
      FlattenMembers(pre, x);
    }
  }

  lemma {:induction false} FlattenAppend<T>(a: seq<seq<T>>, b: seq<seq<T>>)
    ensures Flatten(a + b) == Flatten(a) + Flatten(b)
    decreases |b|
  {
    if |b| > 0 {
      var pre := b[..|b| - 1];
      assert (a + b)[..|a + b| - 1] == a + pre;
      FlattenAppend(a, pre);
    } else {
      assert a + b == a;
    }
  }

  function FileCandidateLists(files: seq<ConfFile>): (ss: seq<seq<Candidate>>)
    requires Readable(files)
    ensures |ss| == |files|
    ensures forall m | 0 <= m < |files| :: ss[m] == FileCandidates(files[m])
  {
    seq(|files|, m requires 0 <= m < |files| => FileCandidates(files[m]))
  }

  /** Every setting of every file, file after file. */
  function Candidates(files: seq<ConfFile>): (cs: seq<Candidate>)
    requires Readable(files)
  {
    Flatten(FileCandidateLists(files))
  }

  /** A candidate is a setting of one of the files. */
  lemma CandidatesMembers(files: seq<ConfFile>, c: Candidate)
    requires Readable(files)
    ensures c in Candidates(files) <==> exists m | 0 <= m < |files| :: c in FileCandidates(files[m])
  {
    var ss := FileCandidateLists(files);
    FlattenMembers(ss, c);
    assert forall m | 0 <= m < |files| :: ss[m] == FileCandidates(files[m]);
  }

  /** Each candidate comes from a file that defines its key. */
  lemma CandidateFromFile(files: seq<ConfFile>, j: int) returns (m: int)
    requires Readable(files) && 0 <= j < |Candidates(files)|
    ensures 0 <= m < |files|
    ensures var c := Candidates(files)[j];
      c.conf == files[m].name && Defines(files[m], c.key) && c.value == files[m].settings.values[c.key]
  {
    var c := Candidates(files)[j];
    CandidatesMembers(files, c);
    m :| 0 <= m < |files| && c in FileCandidates(files[m]);
  }

  /** Each setting of each file is a candidate. */
  lemma FileSettingIsCandidate(files: seq<ConfFile>, m: int, k: string) returns (j: int)
    requires Readable(files) && 0 <= m < |files| && Defines(files[m], k)
    ensures 0 <= j < |Candidates(files)|
    ensures Candidates(files)[j] == Candidate(files[m].name, k, files[m].settings.values[k])
  {
    var c := Candidate(files[m].name, k, files[m].settings.values[k]);
    assert c in FileCandidates(files[m]);
    CandidatesMembers(files, c);
    j :| 0 <= j < |Candidates(files)| && Candidates(files)[j] == c;
  }

  /** A key has candidates exactly when some file defines it. */
  lemma CandidateKeys(files: seq<ConfFile>, k: string)
    requires Readable(files)
    ensures (exists j | 0 <= j < |Candidates(files)| :: Candidates(files)[j].key == k) <==>
            (exists m | 0 <= m < |files| :: Defines(files[m], k))
  {
    var cs := Candidates(files);
    if j :| 0 <= j < |cs| && cs[j].key == k {
      var m := CandidateFromFile(files, j);
    }
    if m :| 0 <= m < |files| && Defines(files[m], k) {
      var j := FileSettingIsCandidate(files, m, k);
    }
  }

  lemma CandidatesAppend(a: seq<ConfFile>, b: seq<ConfFile>)
    requires Readable(a) && Readable(b)
    ensures Candidates(a + b) == Candidates(a) + Candidates(b)
  {
    assert FileCandidateLists(a + b) == FileCandidateLists(a) + FileCandidateLists(b);
    FlattenAppend(FileCandidateLists(a), FileCandidateLists(b));
  }

  /** One step of the loop: the key is (re)assigned unless it already came
      from a file whose name is not smaller (`priorities[key] >= conf`). */
  function Offer(d: Table, c: Candidate): (r: Table)
    ensures d.Valid() ==> r.Valid()
    ensures forall k | k != c.key :: k in r.values <==> k in d.values
    ensures c.key in r.values
    ensures c.key in d.values && LexLe(c.conf, d.values[c.key].conf) ==> r == d
    ensures !(c.key in d.values && LexLe(c.conf, d.values[c.key].conf)) ==>
      r.values == d.values[c.key := Assignment(c.conf, c.value)]
    ensures c.key in d.values ==> r.keys == d.keys
    ensures c.key !in d.values ==> r.keys == d.keys + [c.key]
  {
    if c.key in d.values && LexLe(c.conf, d.values[c.key].conf) then d
    else d.Put(c.key, Assignment(c.conf, c.value))
  }

  function OfferAll(d: Table, cs: seq<Candidate>): (r: Table)
    ensures d.Valid() ==> r.Valid()
    ensures forall k :: k in r.values <==> k in d.values || exists j | 0 <= j < |cs| :: cs[j].key == k
    decreases |cs|
  {
    if |cs| == 0 then d
    else
      var pre := cs[..|cs| - 1];
      assert forall j | 0 <= j < |pre| :: pre[j] == cs[j];
      Offer(OfferAll(d, pre), cs[|cs| - 1])
  }

  /** Merges the files in order into `d`. */
  function MergeFiles(d: Table, files: seq<ConfFile>): (r: Table)
    requires Readable(files)
    ensures d.Valid() ==> r.Valid()
    ensures forall k :: k in r.values <==> k in d.values || exists m | 0 <= m < |files| :: Defines(files[m], k)
  {
    var cs := Candidates(files);
    forall k ensures k in OfferAll(d, cs).values <==> k in d.values || exists m | 0 <= m < |files| :: Defines(files[m], k) {
      CandidateKeys(files, k);
    }
    OfferAll(d, cs)
  }

  // ---------------------------------------------------------------------
  // Which candidate wins

  /** `cs[i]` is the first of the candidates for its key with the greatest
      file name. */
  predicate Top(cs: seq<Candidate>, i: int) {
    && 0 <= i < |cs|
    && forall j | 0 <= j < |cs| && cs[j].key == cs[i].key ::
         LexLe(cs[j].conf, cs[i].conf) && (j < i ==> cs[j].conf != cs[i].conf)
  }

  /** The candidate replaces what the starting table holds for its key. */
  predicate Beats(m: map<string, Assignment>, c: Candidate) {
    c.key !in m || !LexLe(c.conf, m[c.key].conf)
  }

  /** The starting table's entry for `k` withstands every candidate. */
  predicate Holds(m: map<string, Assignment>, cs: seq<Candidate>, k: string) {
    k in m && forall j | 0 <= j < |cs| && cs[j].key == k :: LexLe(cs[j].conf, m[k].conf)
  }

  /** `b` is strictly greater than `a`: `b <= a` fails exactly then. */
  lemma NotLeIsGreater(a: string, b: string)
    requires !LexLe(b, a)
    ensures LexLe(a, b) && a != b
  {
    LexLeTotal(a, b);
  }

  lemma {:induction false} OfferAllHolds(d: Table, cs: seq<Candidate>, k: string)
    requires Holds(d.values, cs, k)
    ensures k in OfferAll(d, cs).values && OfferAll(d, cs).values[k] == d.values[k]
    decreases |cs|
  {
    if |cs| > 0 {
      var pre := cs[..|cs| - 1];
      assert forall j | 0 <= j < |pre| :: pre[j] == cs[j];
      OfferAllHolds(d, pre, k);
    }
  }

  /** A candidate with a strictly greater name than the entry replaces it. */
  lemma OfferReplaces(d: Table, c: Candidate)
    requires c.key in d.values ==> !LexLe(c.conf, d.values[c.key].conf)
    ensures Offer(d, c).values[c.key] == Assignment(c.conf, c.value)
  {
  }

  /** Any other candidate leaves the entry alone. */
  lemma OfferKeeps(d: Table, c: Candidate, k: string)
    requires k in d.values
    requires k == c.key ==> LexLe(c.conf, d.values[k].conf)
    ensures Offer(d, c).values[k] == d.values[k]
  {
  }

  /** A top candidate has a strictly greater name than any earlier candidate
      for its key. */
  lemma LastTopExceedsEarlier(cs: seq<Candidate>, j: int)
    requires Top(cs, |cs| - 1)
    requires 0 <= j < |cs| - 1 && cs[j].key == cs[|cs| - 1].key
    ensures !LexLe(cs[|cs| - 1].conf, cs[j].conf)
  {
    var c := cs[|cs| - 1];
    assert LexLe(cs[j].conf, c.conf) && cs[j].conf != c.conf;
    if LexLe(c.conf, cs[j].conf) {
      LexLeAntisymmetric(c.conf, cs[j].conf);
    }
  }

  lemma {:induction false} OfferAllTop(d: Table, cs: seq<Candidate>, i: int)
    requires Top(cs, i) && Beats(d.values, cs[i])
    ensures OfferAll(d, cs).values[cs[i].key] == Assignment(cs[i].conf, cs[i].value)
    decreases |cs|, 1
  {
    var n := |cs| - 1;
    if i == n {
      OfferAllTopLast(d, cs);
    } else {
      var pre := cs[..n];
      var c := cs[n];
      var k := cs[i].key;
      var r' := OfferAll(d, pre);
      assert OfferAll(d, cs) == Offer(r', c);
      assert Top(pre, i) by {
        assert forall j | 0 <= j < n :: pre[j] == cs[j];
      }
      OfferAllTop(d, pre, i);
      assert LexLe(c.conf, cs[i].conf) || c.key != k;
      OfferKeeps(r', c, k);
    }
  }

  /** The last candidate, when top, replaces whatever came before it. */
  lemma {:induction false} OfferAllTopLast(d: Table, cs: seq<Candidate>)
    requires |cs| > 0 && Top(cs, |cs| - 1) && Beats(d.values, cs[|cs| - 1])
    ensures OfferAll(d, cs).values[cs[|cs| - 1].key] == Assignment(cs[|cs| - 1].conf, cs[|cs| - 1].value)
    decreases |cs|, 0
  {
    var n := |cs| - 1;
    var pre := cs[..n];
    var c := cs[n];
    var k := c.key;
    var r' := OfferAll(d, pre);
    assert OfferAll(d, cs) == Offer(r', c);
    if k in r'.values {
      var held, j := OfferAllCases(d, pre, k);
      if held {
        OfferAllHolds(d, pre, k);
      } else {
        OfferAllTop(d, pre, j);
        assert pre[j] == cs[j];
        LastTopExceedsEarlier(cs, j);
      }
    }
    OfferReplaces(r', c);
  }

  /** A key met for the first time: its candidate is the top one. */
  lemma FirstCandidateIsTop(m: map<string, Assignment>, cs: seq<Candidate>)
    requires |cs| > 0 && cs[|cs| - 1].key !in m
    requires forall j | 0 <= j < |cs| - 1 :: cs[j].key != cs[|cs| - 1].key
    ensures Top(cs, |cs| - 1) && Beats(m, cs[|cs| - 1])
  {
    LexLeReflexive(cs[|cs| - 1].conf);
  }

  /** After the starting entry has withstood the earlier candidates, the next
      one either fails against it too or becomes the top candidate. */
  lemma NextAfterHeld(m: map<string, Assignment>, cs: seq<Candidate>) returns (held: bool)
    requires |cs| > 0
    requires Holds(m, cs[..|cs| - 1], cs[|cs| - 1].key)
    ensures held <==> LexLe(cs[|cs| - 1].conf, m[cs[|cs| - 1].key].conf)
    ensures held ==> Holds(m, cs, cs[|cs| - 1].key)
    ensures !held ==> Top(cs, |cs| - 1) && Beats(m, cs[|cs| - 1])
  {
    var n := |cs| - 1;
    var c := cs[n];
    var w := m[c.key].conf;
    assert forall j | 0 <= j < n :: cs[..n][j] == cs[j];
    held := LexLe(c.conf, w);
    LexLeReflexive(c.conf);
    if !held {
      NotLeIsGreater(w, c.conf);
      forall j | 0 <= j < n && cs[j].key == c.key
        ensures LexLe(cs[j].conf, c.conf) && cs[j].conf != c.conf
      {
        assert LexLe(cs[j].conf, w);
        LexLeTransitive(cs[j].conf, w, c.conf);
        if cs[j].conf == c.conf {
          LexLeAntisymmetric(w, c.conf);
        }
      }
    }
  }

  /** After `cs[i]` was the top candidate of the earlier ones, it stays top
      unless the next one has a strictly greater name, which then replaces it. */
  lemma NextAfterTop(m: map<string, Assignment>, cs: seq<Candidate>, i: int)
    requires |cs| > 0 && Top(cs[..|cs| - 1], i) && Beats(m, cs[i])
    requires cs[i].key == cs[|cs| - 1].key
    ensures LexLe(cs[|cs| - 1].conf, cs[i].conf) ==> Top(cs, i)
    ensures !LexLe(cs[|cs| - 1].conf, cs[i].conf) ==> Top(cs, |cs| - 1) && Beats(m, cs[|cs| - 1])
  {
    var n := |cs| - 1;
    var c := cs[n];
    var w := cs[i].conf;
    assert forall j | 0 <= j < n :: cs[..n][j] == cs[j];
    LexLeReflexive(c.conf);
    if !LexLe(c.conf, w) {
      NotLeIsGreater(w, c.conf);
      forall j | 0 <= j < n && cs[j].key == c.key
        ensures LexLe(cs[j].conf, c.conf) && cs[j].conf != c.conf
      {
        assert LexLe(cs[j].conf, w);
        LexLeTransitive(cs[j].conf, w, c.conf);
        if cs[j].conf == c.conf {
          LexLeAntisymmetric(w, c.conf);
        }
      }
      if c.key in m && LexLe(c.conf, m[c.key].conf) {
        LexLeTransitive(w, c.conf, m[c.key].conf);
      }
    }
  }

  /** A candidate for another key leaves the top candidate in place. */
  lemma OtherKeyKeepsTop(cs: seq<Candidate>, i: int)
    requires |cs| > 0 && Top(cs[..|cs| - 1], i)
    requires cs[|cs| - 1].key != cs[i].key
    ensures Top(cs, i)
  {
    assert forall j | 0 <= j < |cs| - 1 :: cs[..|cs| - 1][j] == cs[j];
  }

  /** Whatever the result holds for a key is the starting entry, which
      withstood every candidate, or comes from the top candidate `cs[i]`. */
  lemma {:induction false} OfferAllCases(d: Table, cs: seq<Candidate>, k: string) returns (held: bool, i: int)
    requires k in OfferAll(d, cs).values
    ensures held ==> Holds(d.values, cs, k)
    ensures !held ==> Top(cs, i) && Beats(d.values, cs[i]) && cs[i].key == k
    decreases |cs|
  {
    if |cs| == 0 {
      return true, 0;
    }
    var pre := cs[..|cs| - 1];
    if k !in OfferAll(d, pre).values {
      NewKeyIsTop(d, cs, k);
      return false, |cs| - 1;
    }
    var before, j := OfferAllCases(d, pre, k);
    held, i := CasesStep(d.values, cs, k, before, j);
  }

  /** A key first met in the last candidate comes from it. */
  lemma NewKeyIsTop(d: Table, cs: seq<Candidate>, k: string)
    requires |cs| > 0 && k in OfferAll(d, cs).values && k !in OfferAll(d, cs[..|cs| - 1]).values
    ensures Top(cs, |cs| - 1) && Beats(d.values, cs[|cs| - 1]) && cs[|cs| - 1].key == k
  {
    var n := |cs| - 1;
    assert cs[n].key == k;
    assert forall j | 0 <= j < n :: cs[..n][j] == cs[j];
    FirstCandidateIsTop(d.values, cs);
  }

  /** One more candidate, given the cases for the ones before it. */
  lemma CasesStep(m: map<string, Assignment>, cs: seq<Candidate>, k: string, before: bool, j: int) returns (held: bool, i: int)
    requires |cs| > 0
    requires before ==> Holds(m, cs[..|cs| - 1], k)
    requires !before ==> Top(cs[..|cs| - 1], j) && Beats(m, cs[j]) && cs[j].key == k
    ensures held ==> Holds(m, cs, k)
    ensures !held ==> Top(cs, i) && Beats(m, cs[i]) && cs[i].key == k
  {
    var n := |cs| - 1;
    var c := cs[n];
    if c.key != k {
      held, i := before, j;
      if before {
        assert forall j | 0 <= j < n :: cs[..n][j] == cs[j];
      } else {
        OtherKeyKeepsTop(cs, j);
      }
    } else if before {
      held := NextAfterHeld(m, cs);
      i := n;
    } else {
      assert cs[..n][j] == cs[j];
      NextAfterTop(m, cs, j);
      held := false;
      i := if LexLe(c.conf, cs[j].conf) then j else n;
    }
  }

  // ---------------------------------------------------------------------
  // Which file wins

  lemma {:induction false} OfferAllAppend(d: Table, a: seq<Candidate>, b: seq<Candidate>)
    ensures OfferAll(d, a + b) == OfferAll(OfferAll(d, a), b)
    decreases |b|
  {
    if |b| == 0 {
      assert a + b == a;
    } else {
      var pre := b[..|b| - 1];
      assert (a + b)[..|a + b| - 1] == a + pre;
      assert (a + b)[|a + b| - 1] == b[|b| - 1];
      OfferAllAppend(d, a, pre);
    }
  }

  /** Merging one listing after another is merging their concatenation. */
  lemma MergeFilesAppend(d: Table, a: seq<ConfFile>, b: seq<ConfFile>)
    requires Readable(a) && Readable(b)
    ensures Readable(a + b)
    ensures MergeFiles(MergeFiles(d, a), b) == MergeFiles(d, a + b)
  {
    assert forall m | 0 <= m < |a + b| :: (a + b)[m] == if m < |a| then a[m] else b[m - |a|];
    CandidatesAppend(a, b);
    OfferAllAppend(d, Candidates(a), Candidates(b));
  }

  lemma ReadableParts(files: seq<ConfFile>, n: int)
    requires Readable(files) && 0 <= n < |files|
    ensures Readable(files[..n]) && Readable([files[n]]) && Readable(files[n + 1..])
    ensures Readable(files[..n] + [files[n]])
  {
    assert forall m | 0 <= m < n :: files[..n][m] == files[m];
    assert forall m | 0 <= m <= n :: (files[..n] + [files[n]])[m] == files[m];
    assert forall m | n + 1 <= m < |files| :: files[n + 1..][m - n - 1] == files[m];
  }

  /** The candidates of `files[n]` follow those of the files before it. */
  lemma CandidatesAround(files: seq<ConfFile>, n: int)
    requires Readable(files) && 0 <= n < |files|
    ensures Readable(files[..n]) && Readable(files[n + 1..])
    ensures Candidates(files) == Candidates(files[..n]) + FileCandidates(files[n]) + Candidates(files[n + 1..])
  {
    var a, f, b := files[..n], files[n], files[n + 1..];
    ReadableParts(files, n);
    assert Candidates(files) == Candidates(a + [f]) + Candidates(b) by {
      assert files == a + [f] + b;
      CandidatesAppend(a + [f], b);
    }
    assert Candidates(a + [f]) == Candidates(a) + FileCandidates(f) by {
      CandidatesAppend(a, [f]);
      assert FileCandidateLists([f]) == [FileCandidates(f)];
      assert Flatten([FileCandidates(f)]) == Flatten([]) + FileCandidates(f);
    }
  }

  /** The setting of `k` in `files[n]` is the top candidate when no file has
      a greater name for `k` and no earlier file has the same name. */
  lemma TopOfFile(files: seq<ConfFile>, n: int, k: string) returns (i: int)
    requires Readable(files) && 0 <= n < |files| && Defines(files[n], k)
    requires forall m | 0 <= m < |files| && Defines(files[m], k) :: LexLe(files[m].name, files[n].name)
    requires forall m | 0 <= m < n && Defines(files[m], k) :: files[m].name != files[n].name
    ensures Top(Candidates(files), i)
    ensures Candidates(files)[i] == Candidate(files[n].name, k, files[n].settings.values[k])
  {
    var f := files[n];
    var cs := Candidates(files);
    CandidatesAround(files, n);
    var before := Candidates(files[..n]);
    var own := FileCandidates(f);
    var c := Candidate(f.name, k, f.settings.values[k]);
    assert c in own;
    var p :| 0 <= p < |own| && own[p] == c;
    i := |before| + p;
    assert cs[i] == c;
    forall j | 0 <= j < |cs| && cs[j].key == k
      ensures LexLe(cs[j].conf, c.conf) && (j < i ==> cs[j].conf != c.conf)
    {
      var m := CandidateFromFile(files, j);
      if j < |before| {
        assert cs[j] == before[j];
        var m' := CandidateFromFile(files[..n], j);
        assert files[..n][m'] == files[m'];
      }
    }
  }

  /** The general rule: for a key defined by some file, the value comes from
      the first file with the greatest name, unless the starting table's
      entry has a name at least as great. */
  lemma MergeFilesWinner(d: Table, files: seq<ConfFile>, n: int, k: string)
    requires Readable(files) && 0 <= n < |files| && Defines(files[n], k)
    requires forall m | 0 <= m < |files| && Defines(files[m], k) :: LexLe(files[m].name, files[n].name)
    requires forall m | 0 <= m < n && Defines(files[m], k) :: files[m].name != files[n].name
    requires k in d.values ==> !LexLe(files[n].name, d.values[k].conf)
    ensures k in MergeFiles(d, files).values
    ensures MergeFiles(d, files).values[k] == Assignment(files[n].name, files[n].settings.values[k])
  {
    var i := TopOfFile(files, n, k);
    OfferAllTop(d, Candidates(files), i);
  }

  /** An entry of the starting table whose name no file exceeds stays. */
  lemma MergeFilesKeeps(d: Table, files: seq<ConfFile>, k: string)
    requires Readable(files) && k in d.values
    requires forall m | 0 <= m < |files| && Defines(files[m], k) :: LexLe(files[m].name, d.values[k].conf)
    ensures MergeFiles(d, files).values[k] == d.values[k]
  {
    var cs := Candidates(files);
    forall j | 0 <= j < |cs| && cs[j].key == k ensures LexLe(cs[j].conf, d.values[k].conf) {
      var m := CandidateFromFile(files, j);
    }
    OfferAllHolds(d, cs, k);
  }

  /** Every entry of the result is the starting one, unexceeded by any file,
      or the setting of a file with the greatest name that exceeds it. */
  lemma MergeFilesCases(d: Table, files: seq<ConfFile>, k: string) returns (held: bool, n: int)
    requires Readable(files) && k in MergeFiles(d, files).values
    ensures held ==> k in d.values
    ensures held ==> forall m | 0 <= m < |files| && Defines(files[m], k) :: LexLe(files[m].name, d.values[k].conf)
    ensures !held ==> 0 <= n < |files| && Defines(files[n], k)
    ensures !held ==> forall m | 0 <= m < |files| && Defines(files[m], k) :: LexLe(files[m].name, files[n].name)
    ensures !held ==> (k in d.values ==> !LexLe(files[n].name, d.values[k].conf))
  {
    var cs := Candidates(files);
    var i;
    held, i := OfferAllCases(d, cs, k);
    n := 0;
    if held {
      forall m | 0 <= m < |files| && Defines(files[m], k) ensures LexLe(files[m].name, d.values[k].conf) {
        var j := FileSettingIsCandidate(files, m, k);
      }
    } else {
      n := CandidateFromFile(files, i);
      forall m | 0 <= m < |files| && Defines(files[m], k) ensures LexLe(files[m].name, files[n].name) {
        var j := FileSettingIsCandidate(files, m, k);
      }
    }
  }

  /** `os.listdir` names each entry once. */
  predicate DistinctNames(files: seq<ConfFile>) {
    forall m, m' | 0 <= m < m' < |files| :: files[m].name != files[m'].name
  }

  /** The listing order of a directory does not matter for one key. */
  lemma MergeFilesOrderFreeAt(d: Table, d': Table, a: seq<ConfFile>, b: seq<ConfFile>, k: string)
    requires Readable(a) && Readable(b)
    requires DistinctNames(a) && DistinctNames(b)
    requires forall f :: f in a <==> f in b
    requires d.values == d'.values
    requires k in MergeFiles(d, a).values
    ensures k in MergeFiles(d', b).values && MergeFiles(d', b).values[k] == MergeFiles(d, a).values[k]
  {
    var held, n := MergeFilesCases(d, a, k);
    if held {
      forall m | 0 <= m < |b| && Defines(b[m], k) ensures LexLe(b[m].name, d.values[k].conf) {
        assert b[m] in a;
      }
      MergeFilesKeeps(d, a, k);
      MergeFilesKeeps(d', b, k);
    } else {
      var f := a[n];
      assert f in b;
      var n' :| 0 <= n' < |b| && b[n'] == f;
      forall m | 0 <= m < |b| && Defines(b[m], k) ensures LexLe(b[m].name, f.name) {
        assert b[m] in a;
      }
      MergeFilesWinner(d, a, n, k);
      MergeFilesWinner(d', b, n', k);
    }
  }

  /** The listing order of a directory does not matter: merging the same
      files in another order into equal tables gives equal tables. */
  lemma MergeFilesOrderFree(d: Table, d': Table, a: seq<ConfFile>, b: seq<ConfFile>)
    requires Readable(a) && Readable(b)
    requires DistinctNames(a) && DistinctNames(b)
    requires forall f :: f in a <==> f in b
    requires d.values == d'.values
    ensures MergeFiles(d, a).values == MergeFiles(d', b).values
  {
    forall k | k in MergeFiles(d, a).values
      ensures k in MergeFiles(d', b).values && MergeFiles(d', b).values[k] == MergeFiles(d, a).values[k]
    {
      MergeFilesOrderFreeAt(d, d', a, b, k);
    }
    forall k | k in MergeFiles(d', b).values ensures k in MergeFiles(d, a).values {
      MergeFilesOrderFreeAt(d', d, b, a, k);
    }
  }

  // ---------------------------------------------------------------------
  // _get_sysctl_d

  /** The files of a location; none when the directory is missing. */
  function Listing(dir: Option<seq<Entry>>): (files: seq<ConfFile>)
    ensures Readable(files)
    ensures dir.None? ==> files == []
    ensures dir.Some? ==> files == ReadAll(dir.value)
  {
    match dir
    case None => []
    case Some(entries) => ReadAll(entries)
  }

  /** `etc/sysctl.d`, `usr/lib/sysctl.d` and `run/sysctl.d` under the data
      root, in the order they are searched. */
  datatype Locations = Locations(etc: Option<seq<Entry>>, usrLib: Option<seq<Entry>>, run: Option<seq<Entry>>)

  /** Every file of every present location, in search order. */
  function AllFiles(loc: Locations): (files: seq<ConfFile>)
    ensures Readable(files)
  {
    var a, b, c := Listing(loc.etc), Listing(loc.usrLib), Listing(loc.run);
    ReadableAppend(a, b);
    ReadableAppend(a + b, c);
    a + b + c
  }

  lemma ReadableAppend(a: seq<ConfFile>, b: seq<ConfFile>)
    requires Readable(a) && Readable(b)
    ensures Readable(a + b)
  {
    assert forall m | 0 <= m < |a + b| :: (a + b)[m] == if m < |a| then a[m] else b[m - |a|];
  }

  /** The loop of `_get_sysctl_d`, location after location. */
  function SysctlDTable(loc: Locations): (t: Table)
    ensures t.Valid()
  {
    MergeFiles(MergeFiles(MergeFiles(Empty(), Listing(loc.etc)), Listing(loc.usrLib)), Listing(loc.run))
  }

  /** Searching the locations one after another is one merge of all their
      files in search order. */
  lemma SysctlDTableIsOneMerge(loc: Locations)
    ensures SysctlDTable(loc) == MergeFiles(Empty(), AllFiles(loc))
  {
    var a, b, c := Listing(loc.etc), Listing(loc.usrLib), Listing(loc.run);
    MergeFilesAppend(Empty(), a, b);
    MergeFilesAppend(Empty(), a + b, c);
  }

  /** The values of a table, without the file names. */
  function Values(t: Table): (d: Dict<string, string>)
    requires t.Valid()
    ensures d.Valid() && d.keys == t.keys
    ensures forall k :: k in d.values <==> k in t.values
    ensures forall k | k in t.values :: d.values[k] == t.values[k].value
  {
    Dict(t.keys, map k | k in t.values :: t.values[k].value)
  }

  /** `_get_sysctl_d()`. */
  function GetSysctlD(loc: Locations): (d: Dict<string, string>)
    ensures d.Valid()
  {
    Values(SysctlDTable(loc))
  }

  /** The keys are those some file of some location sets. */
  lemma GetSysctlDKeys(loc: Locations, k: string)
    ensures k in GetSysctlD(loc).values <==> exists m | 0 <= m < |AllFiles(loc)| :: Defines(AllFiles(loc)[m], k)
  {
    SysctlDTableIsOneMerge(loc);
  }

  /** A key's value comes from the file with the greatest name that sets it;
      among files of that name, from the one in the earliest location. */
  lemma GetSysctlDWinner(loc: Locations, n: int, k: string)
    requires var files := AllFiles(loc);
      && 0 <= n < |files| && Defines(files[n], k)
      && (forall m | 0 <= m < |files| && Defines(files[m], k) :: LexLe(files[m].name, files[n].name))
      && (forall m | 0 <= m < n && Defines(files[m], k) :: files[m].name != files[n].name)
    ensures k in GetSysctlD(loc).values
    ensures GetSysctlD(loc).values[k] == AllFiles(loc)[n].settings.values[k]
  {
    SysctlDTableIsOneMerge(loc);
    MergeFilesWinner(Empty(), AllFiles(loc), n, k);
  }

  predicate DistinctEntryNames(entries: seq<Entry>) {
    forall m, m' | 0 <= m < m' < |entries| :: entries[m].name != entries[m'].name
  }

  /** Two listings of the same directory: both missing, or the same entries,
      each name once, in any order. */
  ghost predicate SameDirectory(a: Option<seq<Entry>>, b: Option<seq<Entry>>) {
    || (a.None? && b.None?)
    || (&& a.Some? && b.Some?
        && DistinctEntryNames(a.value) && DistinctEntryNames(b.value)
        && forall e :: e in a.value <==> e in b.value)
  }

  lemma SameDirectoryFiles(a: Option<seq<Entry>>, b: Option<seq<Entry>>)
    requires SameDirectory(a, b)
    ensures DistinctNames(Listing(a)) && DistinctNames(Listing(b))
    ensures forall f :: f in Listing(a) <==> f in Listing(b)
  {
    if a.Some? {
      var fa, fb := Listing(a), Listing(b);
      forall f | f in fa ensures f in fb {
        var m :| 0 <= m < |fa| && fa[m] == f;
        assert a.value[m] in b.value;
        var m' :| 0 <= m' < |b.value| && b.value[m'] == a.value[m];
        assert fb[m'] == f;
      }
      forall f | f in fb ensures f in fa {
        var m :| 0 <= m < |fb| && fb[m] == f;
        assert b.value[m] in a.value;
        var m' :| 0 <= m' < |a.value| && a.value[m'] == b.value[m];
        assert fa[m'] == f;
      }
    }
  }

  /** The order in which `os.listdir` lists each location does not change
      the result. */
  lemma GetSysctlDOrderFree(loc: Locations, loc': Locations)
    requires SameDirectory(loc.etc, loc'.etc)
    requires SameDirectory(loc.usrLib, loc'.usrLib)
    requires SameDirectory(loc.run, loc'.run)
    ensures GetSysctlD(loc).values == GetSysctlD(loc').values
  {
    SameDirectoryFiles(loc.etc, loc'.etc);
    SameDirectoryFiles(loc.usrLib, loc'.usrLib);
    SameDirectoryFiles(loc.run, loc'.run);
    var t1 := MergeFiles(Empty(), Listing(loc.etc));
    var t1' := MergeFiles(Empty(), Listing(loc'.etc));
    MergeFilesOrderFree(Empty(), Empty(), Listing(loc.etc), Listing(loc'.etc));
    var t2 := MergeFiles(t1, Listing(loc.usrLib));
    var t2' := MergeFiles(t1', Listing(loc'.usrLib));
    MergeFilesOrderFree(t1, t1', Listing(loc.usrLib), Listing(loc'.usrLib));
    MergeFilesOrderFree(t2, t2', Listing(loc.run), Listing(loc'.run));
  }

  // ---------------------------------------------------------------------
  // _get_charm_sysctl_d

  /** The files charms write under `etc/sysctl.d`, in the order read. */
  const CharmConfs: seq<string> := [
    "50-ceph-osd-charm.conf",
    "50-nova-compute.conf",
    "50-openvswitch.conf",
    "50-swift-storage-charm.conf",
    "50-quantum-gateway.conf"
  ]

  /** The content of the entry called `name`; none when there is no such
      entry. */
  function Lookup(entries: seq<Entry>, name: string): (content: Option<seq<string>>)
    ensures content.Some? ==> exists e | e in entries :: e.name == name && e.content == content
    ensures (forall e | e in entries :: e.name != name) ==> content.None?
  {
    if |entries| == 0 then None
    else if entries[0].name == name then entries[0].content
    else Lookup(entries[1..], name)
  }

  /** The charm files read from the directory; a missing one has no
      settings. */
  function CharmFiles(entries: seq<Entry>): (files: seq<ConfFile>)
    ensures |files| == |CharmConfs| && Readable(files)
    ensures forall m | 0 <= m < |files| :: files[m] == Read(Entry(CharmConfs[m], Lookup(entries, CharmConfs[m])))
  {
    seq(|CharmConfs|, m requires 0 <= m < |CharmConfs| => Read(Entry(CharmConfs[m], Lookup(entries, CharmConfs[m]))))
  }

  /** `_get_charm_sysctl_d()`: nothing when `etc/sysctl.d` is missing;
      otherwise each key with its value and the charm file it came from. */
  function GetCharmSysctlD(etc: Option<seq<Entry>>): (r: Option<Table>)
    ensures r.None? <==> etc.None?
    ensures r.Some? ==> r.value.Valid()
  {
    match etc
    case None => None
    case Some(entries) => Some(MergeFiles(Empty(), CharmFiles(entries)))
  }

  lemma CharmNamesDistinct(entries: seq<Entry>)
    ensures DistinctNames(CharmFiles(entries))
  {
    var files := CharmFiles(entries);
    forall m, m' | 0 <= m < m' < |files| ensures files[m].name != files[m'].name {
      assert files[m].name == CharmConfs[m] && files[m'].name == CharmConfs[m'];
    }
  }

  /** Among the charm files that set a key, the one with the greatest name
      decides it, whatever its place in the list. */
  lemma CharmGreatestNameWins(entries: seq<Entry>, n: int, k: string)
    requires var files := CharmFiles(entries);
      && 0 <= n < |files| && Defines(files[n], k)
      && forall m | 0 <= m < |files| && Defines(files[m], k) :: LexLe(CharmConfs[m], CharmConfs[n])
    ensures var t := GetCharmSysctlD(Some(entries)).value;
      k in t.values && t.values[k] == Assignment(CharmConfs[n], CharmFiles(entries)[n].settings.values[k])
  {
    CharmNamesDistinct(entries);
    MergeFilesWinner(Empty(), CharmFiles(entries), n, k);
  }

  /** Strings that agree up to a point and then differ are ordered by the
      first differing character. */
  lemma {:induction false} LexLeAtFirstDifference(p: string, a: string, b: string)
    requires |a| > 0 && |b| > 0 && a[0] < b[0]
    ensures LexLe(p + a, p + b)
    decreases |p|
  {
    if |p| > 0 {
      assert (p + a)[1..] == p[1..] + a;
      assert (p + b)[1..] == p[1..] + b;
      LexLeAtFirstDifference(p[1..], a, b);
    } else {
      assert p + a == a && p + b == b;
    }
  }

  /** `50-swift-storage-charm.conf` has the greatest name of the charm files,
      though `50-quantum-gateway.conf` is read after it. */
  lemma SwiftNameIsGreatest()
    ensures forall m | 0 <= m < |CharmConfs| :: LexLe(CharmConfs[m], CharmConfs[3])
  {
    forall m | 0 <= m < |CharmConfs| ensures LexLe(CharmConfs[m], CharmConfs[3]) {
      CharmNameAtMostSwift(m);
    }
  }

  lemma CharmNameAtMostSwift(m: int)
    requires 0 <= m < |CharmConfs|
    ensures LexLe(CharmConfs[m], CharmConfs[3])
  {
    var swift := CharmConfs[3];
    if m == 3 {
      LexLeReflexive(swift);
    } else {
      var name := CharmConfs[m];
      assert swift == "50-" + swift[3..];
      assert name == "50-" + name[3..];
      assert name[3] < swift[3];
      LexLeAtFirstDifference("50-", name[3..], swift[3..]);
    }
  }

  /** A key set by the swift storage charm takes that charm's value, even
      when the quantum gateway charm, read later, sets it too. */
  lemma SwiftBeatsQuantum(entries: seq<Entry>, k: string)
    requires Defines(CharmFiles(entries)[3], k)
    ensures var t := GetCharmSysctlD(Some(entries)).value;
      k in t.values && t.values[k] == Assignment(CharmConfs[3], CharmFiles(entries)[3].settings.values[k])
  {
    SwiftNameIsGreatest();
    CharmGreatestNameWins(entries, 3, k);
  }
}
