/** `SystemChecks.sysctl_checks` (plugins/system/pyparts/checks.py): compare
    the kernel's live settings with what the sysctl configuration files ask
    for, and report the keys that differ. */
module SysctlChecks {
  import opened Wrappers
  import opened Text
  import opened OrderedDict
  import opened SysctlD

  // ---------------------------------------------------------------------
  // The live settings (`sysctl -a`)

  /** The key of one `sysctl -a` line: the text before the first `=`,
      stripped. A line without `=` is all key. */
  function ActualKey(line: string): (k: string)
    ensures Stripped(k)
  {
    Strip(Partition(line, '=').before)
  }

  /** The value of one line: the text after the first `=`, with runs of
      whitespace collapsed to one space. */
  function ActualValue(line: string): (v: string)
    ensures Normalised(v)
    ensures Words(v) == Words(Partition(line, '=').after)
  {
    var after := Partition(line, '=').after;
    var v := Collapse(Strip(after));
    assert Words(Strip(after)) == Words(after) by {
      StripKeepsWords(after);
    }
    v
  }

  /** Stripping removes no word. */
  lemma StripKeepsWords(s: string)
    ensures Words(Strip(s)) == Words(s)
  {
    TrimStartKeepsWords(s);
    TrimEndKeepsWords(TrimStart(s));
  }

  lemma {:induction false} TrimStartKeepsWords(s: string)
    ensures Words(TrimStart(s)) == Words(s)
    decreases |s|
  {
    if |s| > 0 && IsSpace(s[0]) {
      TrimStartKeepsWords(s[1..]);
    }
  }

  lemma {:induction false} TrimEndKeepsWords(s: string)
    ensures Words(TrimEnd(s)) == Words(s)
    decreases |s|
  {
    if |s| > 0 && IsSpace(s[|s| - 1]) {
      var t := s[..|s| - 1];
      TrimEndKeepsWords(t);
      WordsOfTrailingSpace(t, s[|s| - 1]);
      assert s == t + [s[|s| - 1]];
    }
  }

  /** A trailing whitespace character adds no word. */
  lemma {:induction false} WordsOfTrailingSpace(t: string, c: char)
    requires IsSpace(c)
    ensures Words(t + [c]) == Words(t)
    decreases |t|
  {
    var s := t + [c];
    if |t| == 0 {
      assert s[1..] == [];
    } else if IsSpace(t[0]) {
      assert s[1..] == t[1..] + [c];
      WordsOfTrailingSpace(t[1..], c);
    } else {
      var n := WordLength(t);
      assert WordLength(s) == n by {
        WordLengthOfExtension(t, c);
      }
      assert s[..n] == t[..n];
      assert s[n..] == t[n..] + [c];
      WordsOfTrailingSpace(t[n..], c);
    }
  }

  lemma {:induction false} WordLengthOfExtension(t: string, c: char)
    requires IsSpace(c)
    ensures WordLength(t + [c]) == WordLength(t)
    decreases |t|
  {
    var s := t + [c];
    if |t| > 0 && !IsSpace(t[0]) {
      assert s[1..] == t[1..] + [c];
      WordLengthOfExtension(t[1..], c);
    }
  }

  /** Each line's key and value. */
  function Pairs(lines: seq<string>): (ps: seq<(string, string)>)
    ensures |ps| == |lines|
    ensures forall i | 0 <= i < |lines| :: ps[i] == (ActualKey(lines[i]), ActualValue(lines[i]))
  {
    seq(|lines|, i requires 0 <= i < |lines| => (ActualKey(lines[i]), ActualValue(lines[i])))
  }

  function PairKey(p: (string, string)): string { p.0 }

  function PairValue(p: (string, string)): string { p.1 }

  /** The live settings: every line's key with the collapsed value of the
      last line for that key. */
  function ParseActuals(lines: seq<string>): (actuals: map<string, string>)
    ensures forall k :: k in actuals <==> exists i | 0 <= i < |lines| :: ActualKey(lines[i]) == k
    ensures forall k | k in actuals :: Normalised(actuals[k])
  {
    ActualKeys(lines);
    ActualValues(lines);
    FromItems(Pairs(lines), PairKey, PairValue).values
  }

  lemma ActualKeys(lines: seq<string>)
    ensures forall k :: k in FromItems(Pairs(lines), PairKey, PairValue).values <==>
      exists i | 0 <= i < |lines| :: ActualKey(lines[i]) == k
  {
    forall k ensures HasKey(Pairs(lines), PairKey, k) <==> exists i | 0 <= i < |lines| :: ActualKey(lines[i]) == k {
      ActualKeyAt(lines, k);
    }
  }

  lemma ActualKeyAt(lines: seq<string>, k: string)
    ensures HasKey(Pairs(lines), PairKey, k) <==> exists i | 0 <= i < |lines| :: ActualKey(lines[i]) == k
  {
    var ps := Pairs(lines);
    if HasKey(ps, PairKey, k) {
      assert exists i | 0 <= i < |lines| :: ActualKey(lines[i]) == k by {
        var i :| 0 <= i < |ps| && PairKey(ps[i]) == k;
        assert ActualKey(lines[i]) == k;
      }
    } else {
      assert forall i | 0 <= i < |lines| :: ActualKey(lines[i]) != k by {
        forall i | 0 <= i < |lines| ensures ActualKey(lines[i]) != k {
          assert PairKey(ps[i]) != k;
        }
      }
    }
  }

  lemma ActualValues(lines: seq<string>)
    ensures forall k | k in FromItems(Pairs(lines), PairKey, PairValue).values ::
      Normalised(FromItems(Pairs(lines), PairKey, PairValue).values[k])
  {
    var ps := Pairs(lines);
    var d := FromItems(ps, PairKey, PairValue);
    forall k | k in d.values ensures Normalised(d.values[k]) {
      var i := LastWithKey(ps, PairKey, k);
      FromItemsLastWins(ps, PairKey, PairValue, i);
      assert d.values[k] == ActualValue(lines[i]);
    }
  }

  /** The last line for a key decides its value. */
  lemma ParseActualsLastWins(lines: seq<string>, i: nat)
    requires i < |lines|
    requires forall j | i < j < |lines| :: ActualKey(lines[j]) != ActualKey(lines[i])
    ensures ParseActuals(lines)[ActualKey(lines[i])] == ActualValue(lines[i])
  {
    var ps := Pairs(lines);
    assert forall j | i < j < |ps| :: PairKey(ps[j]) != PairKey(ps[i]);
    FromItemsLastWins(ps, PairKey, PairValue, i);
  }

  // ---------------------------------------------------------------------
  // Comparison

  /** A key whose live value differs from the configured one. */
  datatype Mismatch = Mismatch(actual: string, expected: string)

  /** `actuals.get(key, default)`. */
  function Get(actuals: map<string, string>, key: string, default: string): (v: string)
    ensures key in actuals ==> v == actuals[key]
    ensures key !in actuals ==> v == default
  {
    if key in actuals then actuals[key] else default
  }

  /** The comparison loop over `keys` of the configured table: a key missing
      from the live settings cannot be read and is passed over. */
  function MismatchesOver(keys: seq<string>, expected: map<string, string>, actuals: map<string, string>): (r: Dict<string, Mismatch>)
    requires forall k | k in keys :: k in expected
    ensures r.Valid()
    ensures forall k :: k in r.values <==> k in keys && k in actuals && actuals[k] != expected[k]
    ensures forall k | k in r.values :: r.values[k] == Mismatch(actuals[k], expected[k])
    decreases |keys|
  {
    if |keys| == 0 then Empty()
    else
      var pre := keys[..|keys| - 1];
      var key := keys[|keys| - 1];
      assert forall k :: k in keys <==> k in pre || k == key by {
        assert keys == pre + [key];
      }
      var r := MismatchesOver(pre, expected, actuals);
      var value := expected[key];
      if value != Get(actuals, key, value) then r.Put(key, Mismatch(actuals[key], value)) else r
  }

  /** `mismatch`: the keys whose live value differs from the configured one,
      in configuration order. */
  function Mismatches(expected: Dict<string, string>, actuals: map<string, string>): (r: Dict<string, Mismatch>)
    requires expected.Valid()
    ensures r.Valid()
    ensures forall k :: k in r.values <==> k in expected.values && k in actuals && actuals[k] != expected.values[k]
    ensures forall k | k in r.values :: r.values[k] == Mismatch(actuals[k], expected.values[k])
  {
    MismatchesOver(expected.keys, expected.values, actuals)
  }

  /** A charm key whose live value differs from the charm's. */
  datatype CharmMismatch = CharmMismatch(conf: string, actual: string, expected: string)

  /** The charm comparison loop over `keys`. It reads `actuals[key]` without a
      default, so the first key missing from the live settings ends the whole
      check with a `KeyError`, reported here as that key. */
  function CharmMismatchesOver(keys: seq<string>, charm: map<string, Assignment>, actuals: map<string, string>): (r: Result<Dict<string, CharmMismatch>, string>)
    requires forall k | k in keys :: k in charm
    ensures r.Success? <==> forall k | k in keys :: k in actuals
    ensures r.Failure? ==> r.error in keys && r.error !in actuals
    ensures r.Success? ==> r.value.Valid()
    ensures r.Success? ==> forall k :: k in r.value.values <==> k in keys && actuals[k] != charm[k].value
    ensures r.Success? ==> forall k | k in r.value.values ::
      r.value.values[k] == CharmMismatch(charm[k].conf, actuals[k], charm[k].value)
    decreases |keys|
  {
    if |keys| == 0 then Success(Empty())
    else
      var pre := keys[..|keys| - 1];
      var key := keys[|keys| - 1];
      assert forall k :: k in keys <==> k in pre || k == key by {
        assert keys == pre + [key];
      }
      match CharmMismatchesOver(pre, charm, actuals)
      case Failure(missing) => Failure(missing)
      case Success(r) =>
        if key !in actuals then Failure(key)
        else if charm[key].value != actuals[key] then
          Success(r.Put(key, CharmMismatch(charm[key].conf, actuals[key], charm[key].value)))
        else Success(r)
  }

  /** The key reported is the first one, in loop order, that the live
      settings lack. */
  lemma {:induction false} CharmMismatchesFirstMissing(keys: seq<string>, charm: map<string, Assignment>, actuals: map<string, string>)
    requires forall k | k in keys :: k in charm
    requires CharmMismatchesOver(keys, charm, actuals).Failure?
    ensures var missing := CharmMismatchesOver(keys, charm, actuals).error;
      exists i | 0 <= i < |keys| :: keys[i] == missing && (forall k | k in keys[..i] :: k in actuals)
    decreases |keys|
  {
    var pre := keys[..|keys| - 1];
    var missing := CharmMismatchesOver(keys, charm, actuals).error;
    assert keys == pre + [keys[|keys| - 1]];
    if CharmMismatchesOver(pre, charm, actuals).Failure? {
      CharmMismatchesFirstMissing(pre, charm, actuals);
      var i :| 0 <= i < |pre| && pre[i] == missing && (forall k | k in pre[..i] :: k in actuals);
      assert keys[i] == missing && keys[..i] == pre[..i];
    } else {
      assert keys[|pre|] == missing && keys[..|pre|] == pre;
    }
  }

  /** `charm_mismatch`, or the first charm key (in table order) that the live
      settings lack. */
  function CharmMismatches(charm: Table, actuals: map<string, string>): (r: Result<Dict<string, CharmMismatch>, string>)
    requires charm.Valid()
    ensures r.Success? <==> forall k | k in charm.values :: k in actuals
    ensures r.Failure? ==> r.error in charm.values && r.error !in actuals
    ensures r.Success? ==> forall k :: k in r.value.values <==> k in charm.values && actuals[k] != charm.values[k].value
    ensures r.Success? ==> forall k | k in r.value.values ::
      r.value.values[k] == CharmMismatch(charm.values[k].conf, actuals[k], charm.values[k].value)
  {
    CharmMismatchesOver(charm.keys, charm.values, actuals)
  }

  // ---------------------------------------------------------------------
  // The check

  /** The issue raised when the live settings disagree with the files. */
  const SysctlIssue := "host sysctl not consistent with contents of systcl.d"

  /** What the check adds to the plugin output: `sysctl-mismatch`,
      `juju-charm-sysctl-mismatch` (each only when non-empty) and the issues
      raised. */
  datatype Report = Report(
    sysctlMismatch: Option<Dict<string, Mismatch>>,
    charmMismatch: Option<Dict<string, CharmMismatch>>,
    issues: seq<string>)

  /** Why the check ends early: `etc/sysctl.d` is missing (the charm table is
      `None`), or a charm key cannot be read from the live settings. */
  datatype CheckError = NoCharmDirectory | UnreadableCharmKey(key: string)

  /** An output entry is only written for a non-empty table. */
  function NonEmpty<V>(d: Dict<string, V>): (r: Option<Dict<string, V>>)
    ensures r.Some? <==> d.values != map[]
    ensures r.Some? ==> r.value == d
  {
    if d.values == map[] then None else Some(d)
  }

  /** `sysctl_checks()`: `sysctlAll` is the output of `sysctl -a`, one
      setting per line. */
  function Check(sysctlAll: seq<string>, loc: Locations): (r: Result<Report, CheckError>)
    ensures r == Failure(NoCharmDirectory) <==> loc.etc.None?
    ensures r.Success? ==> r.value.issues == (if r.value.sysctlMismatch.Some? then [SysctlIssue] else [])
  {
    var actuals := ParseActuals(sysctlAll);
    var mismatch := Mismatches(GetSysctlD(loc), actuals);
    match GetCharmSysctlD(loc.etc)
    case None => Failure(NoCharmDirectory)
    case Some(charm) =>
      match CharmMismatches(charm, actuals)
      case Failure(key) => Failure(UnreadableCharmKey(key))
      case Success(charmMismatch) =>
        var sysctlMismatch := NonEmpty(mismatch);
        Success(Report(sysctlMismatch, NonEmpty(charmMismatch), if sysctlMismatch.Some? then [SysctlIssue] else []))
  }

  /** The mismatch table is empty exactly when every configured key that is
      live has its configured value. */
  lemma MismatchesEmpty(expected: Dict<string, string>, actuals: map<string, string>)
    requires expected.Valid()
    ensures Mismatches(expected, actuals).values == map[] <==>
      forall k | k in expected.values && k in actuals :: actuals[k] == expected.values[k]
  {
    var m := Mismatches(expected, actuals);
    if k :| k in expected.values && k in actuals && actuals[k] != expected.values[k] {
      assert k in m.values;
    }
  }

  /** The check reports `sysctl-mismatch`, and raises its issue, exactly when
      some configured key is live with another value; the report lists
      exactly those keys. */
  lemma CheckReportsMismatches(sysctlAll: seq<string>, loc: Locations)
    requires Check(sysctlAll, loc).Success?
    ensures var report := Check(sysctlAll, loc).value;
      var expected := GetSysctlD(loc).values;
      var actuals := ParseActuals(sysctlAll);
      && (report.sysctlMismatch.None? <==> forall k | k in expected && k in actuals :: actuals[k] == expected[k])
      && (report.issues != [] <==> report.sysctlMismatch.Some?)
      && (report.sysctlMismatch.Some? ==> forall k ::
            k in report.sysctlMismatch.value.values <==> k in expected && k in actuals && actuals[k] != expected[k])
  {
    var expected := GetSysctlD(loc);
    var actuals := ParseActuals(sysctlAll);
    var report := Check(sysctlAll, loc).value;
    var charm := GetCharmSysctlD(loc.etc);
    assert charm.Some?;
    var cm := CharmMismatches(charm.value, actuals);
    assert cm.Success?;
    var m := Mismatches(expected, actuals);
    assert report == Report(NonEmpty(m), NonEmpty(cm.value), if NonEmpty(m).Some? then [SysctlIssue] else []);
    SysctlReportOf(expected, actuals, report);
  }

  /** A report whose `sysctl-mismatch` entry is the non-empty mismatch
      table of `expected` against `actuals`. */
  lemma SysctlReportOf(expected: Dict<string, string>, actuals: map<string, string>, report: Report)
    requires expected.Valid()
    requires report.sysctlMismatch == NonEmpty(Mismatches(expected, actuals))
    requires report.issues == (if report.sysctlMismatch.Some? then [SysctlIssue] else [])
    ensures report.sysctlMismatch.None? <==>
      forall k | k in expected.values && k in actuals :: actuals[k] == expected.values[k]
    ensures report.issues != [] <==> report.sysctlMismatch.Some?
    ensures report.sysctlMismatch.Some? ==> forall k ::
      k in report.sysctlMismatch.value.values <==> k in expected.values && k in actuals && actuals[k] != expected.values[k]
  {
    MismatchesEmpty(expected, actuals);
  }

  /** The check ends early exactly when `etc/sysctl.d` is missing or a charm
      key is not live; otherwise the charm report lists exactly the charm
      keys whose live value differs. */
  lemma CheckCharmOutcome(sysctlAll: seq<string>, loc: Locations)
    ensures var r := Check(sysctlAll, loc);
      var actuals := ParseActuals(sysctlAll);
      && (loc.etc.Some? ==> var charm := GetCharmSysctlD(loc.etc).value.values;
          && (r.Success? <==> forall k | k in charm :: k in actuals)
          && (r.Failure? ==> r.error.UnreadableCharmKey? && r.error.key in charm && r.error.key !in actuals)
          && (r.Success? && r.value.charmMismatch.Some? ==> forall k ::
                k in r.value.charmMismatch.value.values <==> k in charm && actuals[k] != charm[k].value))
  {
    var actuals := ParseActuals(sysctlAll);
    if loc.etc.Some? {
      var charm := GetCharmSysctlD(loc.etc).value;
      var cm := CharmMismatches(charm, actuals);
      var r := Check(sysctlAll, loc);
      assert r.Success? <==> cm.Success?;
      assert r.Failure? ==> r.error == UnreadableCharmKey(cm.error);
      assert r.Success? ==> r.value.charmMismatch == NonEmpty(cm.value);
    }
  }

  // ---------------------------------------------------------------------
  // The check without its two crashes

  /** The charm comparison loop with the guard of the first loop: a key the
      live settings lack cannot be read and is passed over. */
  function ReadableCharmMismatchesOver(keys: seq<string>, charm: map<string, Assignment>, actuals: map<string, string>): (r: Dict<string, CharmMismatch>)
    requires forall k | k in keys :: k in charm
    ensures r.Valid()
    ensures forall k :: k in r.values <==> k in keys && k in actuals && actuals[k] != charm[k].value
    ensures forall k | k in r.values :: r.values[k] == CharmMismatch(charm[k].conf, actuals[k], charm[k].value)
    decreases |keys|
  {
    if |keys| == 0 then Empty()
    else
      var pre := keys[..|keys| - 1];
      var key := keys[|keys| - 1];
      assert forall k :: k in keys <==> k in pre || k == key by {
        assert keys == pre + [key];
      }
      var r := ReadableCharmMismatchesOver(pre, charm, actuals);
      if key in actuals && charm[key].value != actuals[key] then
        r.Put(key, CharmMismatch(charm[key].conf, actuals[key], charm[key].value))
      else r
  }

  /** `charm_mismatch` when unreadable charm keys are passed over. */
  function ReadableCharmMismatches(charm: Table, actuals: map<string, string>): (r: Dict<string, CharmMismatch>)
    requires charm.Valid()
    ensures r.Valid()
    ensures forall k :: k in r.values <==> k in charm.values && k in actuals && actuals[k] != charm.values[k].value
    ensures forall k | k in r.values :: r.values[k] == CharmMismatch(charm.values[k].conf, actuals[k], charm.values[k].value)
  {
    ReadableCharmMismatchesOver(charm.keys, charm.values, actuals)
  }

  /** The corrected charm table is empty exactly when every live charm key
      has the charm's value. */
  lemma ReadableCharmMismatchesEmpty(charm: Table, actuals: map<string, string>)
    requires charm.Valid()
    ensures ReadableCharmMismatches(charm, actuals).values == map[] <==>
      forall k | k in charm.values && k in actuals :: actuals[k] == charm.values[k].value
  {
    var m := ReadableCharmMismatches(charm, actuals);
    if k :| k in charm.values && k in actuals && actuals[k] != charm.values[k].value {
      assert k in m.values;
    }
  }

  /** When every key is live, skipping unreadable keys changes nothing. */
  lemma {:induction false} ReadableCharmMismatchesAgree(keys: seq<string>, charm: map<string, Assignment>, actuals: map<string, string>)
    requires forall k | k in keys :: k in charm
    requires forall k | k in keys :: k in actuals
    ensures CharmMismatchesOver(keys, charm, actuals) == Success(ReadableCharmMismatchesOver(keys, charm, actuals))
    decreases |keys|
  {
    if |keys| > 0 {
      var pre := keys[..|keys| - 1];
      assert forall k | k in pre :: k in keys;
      ReadableCharmMismatchesAgree(pre, charm, actuals);
    }
  }

  /** `sysctl_checks()` as its comments describe it: a missing `etc/sysctl.d`
      has no charm settings, and a charm key that cannot be read is passed
      over like any other unreadable key. */
  function CheckReadable(sysctlAll: seq<string>, loc: Locations): (r: Report)
    ensures r.issues == (if r.sysctlMismatch.Some? then [SysctlIssue] else [])
    ensures loc.etc.None? ==> r.charmMismatch.None?
  {
    var actuals := ParseActuals(sysctlAll);
    var mismatch := Mismatches(GetSysctlD(loc), actuals);
    var charm := match GetCharmSysctlD(loc.etc) case None => OrderedDict.Empty() case Some(t) => t;
    var sysctlMismatch := NonEmpty(mismatch);
    var charmMismatch := ReadableCharmMismatches(charm, actuals);
    Report(sysctlMismatch, NonEmpty(charmMismatch), if sysctlMismatch.Some? then [SysctlIssue] else [])
  }

  /** The corrected check reports exactly the charm keys that are live with
      another value than the charm's. */
  lemma CheckReadableCharmReport(sysctlAll: seq<string>, loc: Locations)
    requires loc.etc.Some?
    ensures var r := CheckReadable(sysctlAll, loc);
      var charm := GetCharmSysctlD(loc.etc).value.values;
      var actuals := ParseActuals(sysctlAll);
      && (r.charmMismatch.None? <==> forall k | k in charm && k in actuals :: actuals[k] == charm[k].value)
      && (r.charmMismatch.Some? ==> forall k ::
            k in r.charmMismatch.value.values <==> k in charm && k in actuals && actuals[k] != charm[k].value)
  {
    ReadableCharmMismatchesEmpty(GetCharmSysctlD(loc.etc).value, ParseActuals(sysctlAll));
  }

  /** Wherever the check as written completes, the corrected one reports the
      same; it only differs where the original crashes. */
  lemma CheckReadableAgrees(sysctlAll: seq<string>, loc: Locations)
    requires Check(sysctlAll, loc).Success?
    ensures CheckReadable(sysctlAll, loc) == Check(sysctlAll, loc).value
  {
    var charm := GetCharmSysctlD(loc.etc).value;
    ReadableCharmMismatchesAgree(charm.keys, charm.values, ParseActuals(sysctlAll));
    assert ReadableCharmMismatches(charm, ParseActuals(sysctlAll)) == ReadableCharmMismatchesOver(charm.keys, charm.values, ParseActuals(sysctlAll));
  }

  /** The two crashes: without `etc/sysctl.d`, or with a charm key that the
      live settings lack, the check as written ends without a report, even
      when the configured settings disagree with the live ones. */
  lemma CheckCrashes(sysctlAll: seq<string>, loc: Locations, k: string)
    requires loc.etc.None? || (k in GetCharmSysctlD(loc.etc).value.values && k !in ParseActuals(sysctlAll))
    ensures Check(sysctlAll, loc).Failure?
  {
    CheckCharmOutcome(sysctlAll, loc);
  }
}
