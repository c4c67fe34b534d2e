/** `SystemChecks._sysctl_conf` (plugins/system/pyparts/checks.py): the
    settings of one sysctl configuration file, read line by line. */
module SysctlConf {
  import opened Wrappers
  import opened Text
  import opened OrderedDict

  /** One `key = value` assignment. */
  datatype Setting = Setting(key: string, value: string)

  /** A key the parser keeps: no wildcard, and not an unsetter (`-key`). */
  predicate Accepted(key: string) {
    '*' !in key && !(|key| > 0 && key[0] == '-')
  }

  /** A comment starts at the first column; indented `#` is part of the key. */
  predicate IsComment(line: string) {
    |line| > 0 && line[0] == '#'
  }

  /** One line of a file: a comment or a line without `=` is skipped; key and
      value are the stripped text around the first `=`. */
  function ParseLine(line: string): (r: Option<Setting>)
    ensures r.Some? <==> !IsComment(line) && '=' in line && Accepted(Strip(Partition(line, '=').before))
    ensures r.Some? ==>
      r.value == Setting(Strip(Partition(line, '=').before), Strip(Partition(line, '=').after))
    ensures r.Some? ==> Stripped(r.value.key) && Stripped(r.value.value)
    ensures r.Some? ==> '=' !in r.value.key && Accepted(r.value.key)
    ensures r.Some? ==> |r.value.key| + |r.value.value| < |line|
  {
    if IsComment(line) then None
    else
      var p := Partition(line, '=');
      if !p.found then None
      else
        var key := Strip(p.before);
        if !Accepted(key) then None
        else
          assert forall i | 0 <= i < |key| :: key[i] in p.before by {
            var lo := TrimmedIsSlice(p.before);
          }
          Some(Setting(key, Strip(p.after)))
  }

  /** What `strip` keeps is the piece of `s` starting at `lo`. */
  lemma TrimmedIsSlice(s: string) returns (lo: nat)
    ensures lo + |Strip(s)| <= |s|
    ensures forall i | 0 <= i < |Strip(s)| :: Strip(s)[i] == s[lo + i]
  {
    var t := TrimStart(s);
    var e := TrimEnd(t);
    lo := |s| - |t|;
    forall i | 0 <= i < |e| ensures e[i] == s[lo + i] {
      assert e[i] == t[i];
    }
  }

  /** An assignment written out without padding is read back as it was. */
  lemma {:induction false} ParseLineRoundTrip(key: string, value: string)
    requires Stripped(key) && Stripped(value)
    requires '=' !in key && Accepted(key) && !IsComment(key)
    ensures ParseLine(key + "=" + value) == Some(Setting(key, value))
  {
    var line := key + "=" + value;
    assert line == key + ['='] + value;
    assert IsComment(line) ==> IsComment(key) by {
      if |key| == 0 { assert line[0] == '='; } else { assert line[0] == key[0]; }
    }
    var p := Partition(line, '=');
    assert '=' in line by { assert line[|key|] == '='; }
    PartitionAtFirst(key, value, '=');
  }

  /** Whitespace around the key and around the value, the trailing newline
      of `readlines` included, is stripped away: `" key = value \n"` sets
      `key` to `value`. */
  lemma ParseLinePadded(w1: string, key: string, w2: string, w3: string, value: string, w4: string)
    requires AllSpace(w1) && AllSpace(w2) && AllSpace(w3) && AllSpace(w4)
    requires Stripped(key) && Stripped(value) && '=' !in key && Accepted(key)
    requires |w1| > 0 || !IsComment(key)
    ensures ParseLine(w1 + key + w2 + "=" + w3 + value + w4) == Some(Setting(key, value))
  {
    var before := w1 + key + w2;
    var after := w3 + value + w4;
    var line := w1 + key + w2 + "=" + w3 + value + w4;
    assert line == before + ['='] + after;
    assert Partition(line, '=') == Parts(before, true, after) by {
      PaddedHasNo(w1, key, w2, '=');
      PartitionAtFirst(before, after, '=');
    }
    assert !IsComment(line) by {
      if |w1| > 0 {
        assert line[0] == w1[0];
      } else if |key| > 0 {
        assert line[0] == key[0];
      } else if |w2| > 0 {
        assert line[0] == w2[0];
      } else {
        assert line[0] == '=';
      }
    }
    StripPadding(w1, key, w2);
    StripPadding(w3, value, w4);
    ParseLineAt(line, before, after);
  }

  /** A line that is no comment and whose first `=` splits it into `before`
      and `after` sets the stripped `before` to the stripped `after`. */
  lemma ParseLineAt(line: string, before: string, after: string)
    requires !IsComment(line) && Partition(line, '=') == Parts(before, true, after)
    requires Accepted(Strip(before))
    ensures ParseLine(line) == Some(Setting(Strip(before), Strip(after)))
  {
  }

  /** Whitespace padding adds no non-space character `c`. */
  lemma PaddedHasNo(a: string, t: string, b: string, c: char)
    requires AllSpace(a) && AllSpace(b) && c !in t && !IsSpace(c)
    ensures c !in a + t + b
  {
    var s := a + t + b;
    forall i | 0 <= i < |s| ensures s[i] != c {
      if i < |a| {
        assert s[i] == a[i];
      } else if i < |a| + |t| {
        assert s[i] == t[i - |a|];
      } else {
        assert s[i] == b[i - |a| - |t|];
      }
    }
  }

  /** Splitting at the first `c` of `a + [c] + b`, when `a` has none. */
  lemma PartitionAtFirst(a: string, b: string, c: char)
    requires c !in a
    ensures Partition(a + [c] + b, c) == Parts(a, true, b)
  {
    var s := a + [c] + b;
    var p := Partition(s, c);
    assert s[|a|] == c;
    assert p.before == s[..|a|] == a;
    assert p.after == s[|a| + 1..] == b;
  }

  /** Leading whitespace before the key is stripped, whatever the key
      starts with. */
  lemma PaddedKeyParses(key: string, value: string)
    requires Stripped(key) && Stripped(value)
    requires '=' !in key && Accepted(key)
    ensures ParseLine(" " + key + "=" + value) == Some(Setting(key, value))
  {
    var padded := " " + key;
    var line := " " + key + "=" + value;
    assert line == padded + ['='] + value;
    assert !IsComment(line) by { assert line[0] == ' '; }
    StripPadded(key, '=');
    PartitionAtFirst(padded, value, '=');
  }

  /** A space in front of a stripped text is stripped away again. */
  lemma StripPadded(key: string, c: char)
    requires Stripped(key) && c !in key && c != ' '
    ensures Strip(" " + key) == key
    ensures c !in " " + key
  {
    var padded := " " + key;
    assert padded[1..] == key && IsSpace(padded[0]);
    StripSkipsSpace(padded);
  }

  /** Indentation is not a comment marker: `" #a=b"` sets the key `"#a"`,
      while `"#a=b"` is a comment. */
  lemma IndentedHashIsAKey()
    ensures ParseLine("#a=b").None?
    ensures ParseLine(" #a=b") == Some(Setting("#a", "b"))
  {
    assert IsComment("#a=b");
    assert " #a=b" == " " + "#a" + "=" + "b";
    var key := "#a";
    assert Accepted(key) && Stripped(key) && '=' !in key by {
      assert |key| == 2 && key[0] == '#' && key[1] == 'a';
    }
    PaddedKeyParses(key, "b");
  }

  /** The line assigns to `k`. */
  predicate SetsKey(line: string, k: string) {
    ParseLine(line).Some? && ParseLine(line).value.key == k
  }

  /** The outcome of each line, in order. */
  function ParseLines(lines: seq<string>): (ps: seq<Option<Setting>>)
    ensures |ps| == |lines|
    ensures forall i | 0 <= i < |lines| :: ps[i] == ParseLine(lines[i])
  {
    seq(|lines|, i requires 0 <= i < |lines| => ParseLine(lines[i]))
  }

  /** The outcome assigns to `k`. */
  predicate Assigns(p: Option<Setting>, k: string) {
    p.Some? && p.value.key == k
  }

  /** Carries out the assignments in order. A later assignment to a key
      replaces the value but keeps the key's first position. */
  function AssignAll(ps: seq<Option<Setting>>): (d: Dict<string, string>)
    ensures d.Valid()
    ensures forall k :: k in d.values <==> exists i | 0 <= i < |ps| :: Assigns(ps[i], k)
    decreases |ps|
  {
    if |ps| == 0 then Empty()
    else
      var pre := ps[..|ps| - 1];
      var d := AssignAll(pre);
      assert forall i | 0 <= i < |pre| :: ps[i] == pre[i];
      match ps[|ps| - 1]
      case None => d
      case Some(s) => d.Put(s.key, s.value)
  }

  /** The last assignment to a key decides its value. */
  lemma {:induction false} AssignAllLastWins(ps: seq<Option<Setting>>, i: nat)
    requires i < |ps| && ps[i].Some?
    requires forall j | i < j < |ps| :: !Assigns(ps[j], ps[i].value.key)
    ensures ps[i].value.key in AssignAll(ps).values
    ensures AssignAll(ps).values[ps[i].value.key] == ps[i].value.value
    decreases |ps|
  {
    var pre := ps[..|ps| - 1];
    if i < |ps| - 1 {
      assert pre[i] == ps[i];
      forall j | i < j < |pre| ensures !Assigns(pre[j], ps[i].value.key) {
        assert pre[j] == ps[j];
      }
      AssignAllLastWins(pre, i);
    }
  }

  /** Every value in the result was assigned to its key. */
  lemma {:induction false} AssignAllValueAssigned(ps: seq<Option<Setting>>, k: string)
    requires k in AssignAll(ps).values
    ensures exists i | 0 <= i < |ps| :: ps[i] == Some(Setting(k, AssignAll(ps).values[k]))
    decreases |ps|
  {
    var pre := ps[..|ps| - 1];
    var last := |ps| - 1;
    if Assigns(ps[last], k) {
      assert ps[last] == Some(Setting(k, AssignAll(ps).values[k]));
    } else {
      assert AssignAll(ps).values[k] == AssignAll(pre).values[k];
      AssignAllValueAssigned(pre, k);
      var i :| 0 <= i < |pre| && pre[i] == Some(Setting(k, AssignAll(pre).values[k]));
      assert ps[i] == pre[i];
    }
  }

  /** The settings of a file's lines. */
  function ParseConf(lines: seq<string>): (d: Dict<string, string>)
    ensures d.Valid()
    ensures forall k :: k in d.values <==> exists i | 0 <= i < |lines| :: SetsKey(lines[i], k)
  {
    var ps := ParseLines(lines);
    forall k, i | 0 <= i < |lines| ensures Assigns(ps[i], k) <==> SetsKey(lines[i], k) { }
    AssignAll(ps)
  }

  /** The last line that assigns to a key decides its value. */
  lemma ParseConfLastWins(lines: seq<string>, i: nat)
    requires i < |lines| && ParseLine(lines[i]).Some?
    requires forall j | i < j < |lines| :: !SetsKey(lines[j], ParseLine(lines[i]).value.key)
    ensures var s := ParseLine(lines[i]).value;
      s.key in ParseConf(lines).values && ParseConf(lines).values[s.key] == s.value
  {
    var ps := ParseLines(lines);
    forall j | i < j < |ps| ensures !Assigns(ps[j], ps[i].value.key) {
      assert !SetsKey(lines[j], ParseLine(lines[i]).value.key);
    }
    AssignAllLastWins(ps, i);
  }

  /** Every value in the result was assigned to its key by some line. */
  lemma ParseConfValuesFromLines(lines: seq<string>, k: string)
    requires k in ParseConf(lines).values
    ensures exists i | 0 <= i < |lines| :: ParseLine(lines[i]) == Some(Setting(k, ParseConf(lines).values[k]))
  {
    var ps := ParseLines(lines);
    AssignAllValueAssigned(ps, k);
    var i :| 0 <= i < |ps| && ps[i] == Some(Setting(k, AssignAll(ps).values[k]));
    assert ParseLine(lines[i]) == ps[i];
  }

  /** `_sysctl_conf(path)`: a path that is not a regular file has no settings. */
  function SysctlConfOf(file: Option<seq<string>>): (d: Dict<string, string>)
    ensures d.Valid()
    ensures file.None? ==> d.values == map[]
  {
    match file
    case None => Empty()
    case Some(lines) => ParseConf(lines)
  }
}
