/** The handful of Python `str` operations the modelled code relies on:
    `isspace`, `strip`, `split()`/`join`, `partition`, `rpartition`, `str(n)` for a
    non-negative integer, and the lexicographic `<=` on strings. */
module Text {

  /** Python's `str.isspace` on one character (ASCII and Unicode whitespace). */
  predicate IsSpace(c: char) {
    var n := c as int;
    || (9 <= n <= 13) || (28 <= n <= 32) || n == 0x85 || n == 0xA0 || n == 0x1680
    || (0x2000 <= n <= 0x200A) || n == 0x2028 || n == 0x2029 || n == 0x202F
    || n == 0x205F || n == 0x3000
  }

  predicate NoSpace(s: string) {
    forall i | 0 <= i < |s| :: !IsSpace(s[i])
  }

  /** No leading and no trailing whitespace. */
  predicate Stripped(s: string) {
    |s| == 0 || (!IsSpace(s[0]) && !IsSpace(s[|s| - 1]))
  }

  /** Python's `str.lstrip()`. */
  function TrimStart(s: string): (r: string)
    ensures |r| <= |s| && r == s[|s| - |r|..]
    ensures forall i | 0 <= i < |s| - |r| :: IsSpace(s[i])
    ensures |r| == 0 || !IsSpace(r[0])
  {
    if |s| > 0 && IsSpace(s[0]) then TrimStart(s[1..]) else s
  }

  /** Python's `str.rstrip()`. */
  function TrimEnd(s: string): (r: string)
    ensures |r| <= |s| && r == s[..|r|]
    ensures forall i | |r| <= i < |s| :: IsSpace(s[i])
    ensures |r| == 0 || !IsSpace(r[|r| - 1])
  {
    if |s| > 0 && IsSpace(s[|s| - 1]) then TrimEnd(s[..|s| - 1]) else s
  }

  /** Python's `str.strip()`: a slice of `s` without surrounding whitespace, and
      `s` itself when there is none to remove. */
  function Strip(s: string): (r: string)
    ensures Stripped(r)
    ensures Stripped(s) ==> r == s
    ensures |r| <= |s|
  {
    TrimEnd(TrimStart(s))
  }

  /** Leading whitespace does not survive `strip`. */
  lemma StripSkipsSpace(s: string)
    requires |s| > 0 && IsSpace(s[0])
    ensures Strip(s) == Strip(s[1..])
  {
    assert TrimStart(s) == TrimStart(s[1..]);
  }

  /** Every character is whitespace. */
  predicate AllSpace(s: string) {
    forall i | 0 <= i < |s| :: IsSpace(s[i])
  }

  /** `strip` removes exactly the whitespace padding around a stripped text. */
  lemma StripPadding(a: string, t: string, b: string)
    requires AllSpace(a) && AllSpace(b) && Stripped(t)
    ensures Strip(a + t + b) == t
  {
    assert a + t + b == a + (t + b);
    if |t| == 0 {
      assert t + b == b;
      assert AllSpace(a + b) by {
        assert forall i | 0 <= i < |a + b| :: (a + b)[i] == if i < |a| then a[i] else b[i - |a|];
      }
      TrimStartSpaces(a + b, "");
      assert a + b + "" == a + b;
    } else {
      assert (t + b)[0] == t[0];
      TrimStartSpaces(a, t + b);
      TrimEndSpaces(t, b);
    }
  }

  /** `lstrip` removes leading whitespace up to a non-space character. */
  lemma {:induction false} TrimStartSpaces(a: string, s: string)
    requires AllSpace(a) && (|s| == 0 || !IsSpace(s[0]))
    ensures TrimStart(a + s) == s
    decreases |a|
  {
    if |a| == 0 {
      assert a + s == s;
    } else {
      assert (a + s)[0] == a[0];
      assert (a + s)[1..] == a[1..] + s;
      TrimStartSpaces(a[1..], s);
    }
  }

  /** `rstrip` removes trailing whitespace back to a non-space character. */
  lemma {:induction false} TrimEndSpaces(s: string, b: string)
    requires AllSpace(b) && (|s| == 0 || !IsSpace(s[|s| - 1]))
    ensures TrimEnd(s + b) == s
    decreases |b|
  {
    if |b| == 0 {
      assert s + b == s;
    } else {
      var n := |s + b|;
      assert (s + b)[n - 1] == b[|b| - 1];
      assert (s + b)[..n - 1] == s + b[..|b| - 1];
      TrimEndSpaces(s, b[..|b| - 1]);
    }
  }

  /** Length of the longest prefix of `s` without whitespace. */
  function WordLength(s: string): (n: nat)
    ensures n <= |s|
    ensures forall i | 0 <= i < n :: !IsSpace(s[i])
    ensures n < |s| ==> IsSpace(s[n])
  {
    if |s| == 0 || IsSpace(s[0]) then 0 else 1 + WordLength(s[1..])
  }

  /** Python's `str.split()` without arguments: the maximal runs of
      non-whitespace characters, in order. */
  function Words(s: string): (ws: seq<string>)
    ensures AreWords(ws)
    decreases |s|
  {
    if |s| == 0 then []
    else if IsSpace(s[0]) then Words(s[1..])
    else
      var n := WordLength(s);
      [s[..n]] + Words(s[n..])
  }

  /** Words as `split()` produces them: non-empty and whitespace-free. */
  predicate AreWords(ws: seq<string>) {
    forall i | 0 <= i < |ws| :: |ws[i]| > 0 && NoSpace(ws[i])
  }

  /** Python's `sep.join(ws)`. */
  function Join(ws: seq<string>, sep: string): string {
    if |ws| == 0 then ""
    else if |ws| == 1 then ws[0]
    else ws[0] + sep + Join(ws[1..], sep)
  }

  /** Whitespace-normalised text: no surrounding whitespace, and every
      whitespace character is a single plain space between two words. */
  predicate Normalised(s: string) {
    && Stripped(s)
    && forall i | 0 <= i < |s| && IsSpace(s[i]) :: s[i] == ' ' && i + 1 < |s| && !IsSpace(s[i + 1])
  }

  /** Python's `' '.join(s.split())`: runs of whitespace become one space, and
      surrounding whitespace disappears. */
  function Collapse(s: string): (r: string)
    ensures Normalised(r)
    ensures Words(r) == Words(s)
  {
    var ws := Words(s);
    JoinNormalised(ws);
    WordsOfJoin(ws);
    Join(ws, " ")
  }

  lemma {:induction false} JoinNormalised(ws: seq<string>)
    requires AreWords(ws)
    ensures Normalised(Join(ws, " "))
    ensures |ws| > 0 ==> |Join(ws, " ")| > 0 && Join(ws, " ")[0] == ws[0][0]
    decreases |ws|
  {
    if |ws| >= 2 {
      JoinNormalised(ws[1..]);
      var rest := Join(ws[1..], " ");
      var s := ws[0] + " " + rest;
      assert Join(ws, " ") == s;
      forall i | 0 <= i < |s| && IsSpace(s[i])
        ensures s[i] == ' ' && i + 1 < |s| && !IsSpace(s[i + 1])
      {
        if i > |ws[0]| {
          assert s[i] == rest[i - |ws[0]| - 1];
        }
      }
    }
  }

  lemma WordsOfSpacePrefixed(x: string)
    ensures Words(" " + x) == Words(x)
  {
    assert (" " + x)[1..] == x;
  }

  lemma WordsCons(w: string, tail: string)
    requires |w| > 0 && NoSpace(w)
    requires |tail| == 0 || IsSpace(tail[0])
    ensures Words(w + tail) == [w] + Words(tail)
  {
    var s := w + tail;
    assert s[0] == w[0];
    assert forall i | 0 <= i < |w| :: s[i] == w[i];
    assert |tail| > 0 ==> s[|w|] == tail[0];
    assert WordLength(s) == |w|;
    assert s[..|w|] == w;
    assert s[|w|..] == tail;
  }

  lemma WordsOfWord(w: string)
    requires |w| > 0 && NoSpace(w)
    ensures Words(w) == [w]
  {
    WordsCons(w, "");
    assert w + "" == w;
  }

  lemma WordsThenSpace(w: string, rest: string)
    requires |w| > 0 && NoSpace(w)
    ensures Words(w + " " + rest) == [w] + Words(rest)
  {
    var sp := " " + rest;
    assert sp[0] == ' ';
    WordsCons(w, sp);
    assert w + sp == w + " " + rest;
    WordsOfSpacePrefixed(rest);
  }

  /** `split()` undoes `' '.join` of non-empty whitespace-free words. */
  lemma {:induction false} WordsOfJoin(ws: seq<string>)
    requires AreWords(ws)
    ensures Words(Join(ws, " ")) == ws
    decreases |ws|
  {
    if |ws| == 1 {
      var w := ws[0];
      assert ws == [w];
      WordsOfWord(w);
    } else if |ws| >= 2 {
      WordsOfJoin(ws[1..]);
      WordsThenSpace(ws[0], Join(ws[1..], " "));
      assert [ws[0]] + ws[1..] == ws;
    } else {
      assert Words("") == [];
    }
  }

  /** Collapsing twice is collapsing once. */
  lemma CollapseIdempotent(s: string)
    ensures Collapse(Collapse(s)) == Collapse(s)
  {
  }

  /** Length of the longest prefix of `s` without the character `c`: the index
      of the first `c`, or `|s|` when there is none. */
  function IndexOf(s: string, c: char): (i: nat)
    ensures i <= |s|
    ensures i < |s| ==> s[i] == c
    ensures forall j | 0 <= j < i :: s[j] != c
  {
    if |s| == 0 || s[0] == c then 0 else 1 + IndexOf(s[1..], c)
  }

  /** The three parts of Python's `s.partition(sep)`; `found` is whether the
      separator part is non-empty. */
  datatype Parts = Parts(before: string, found: bool, after: string)

  /** Python's `s.partition(c)`: splits at the first `c`. */
  function Partition(s: string, c: char): (p: Parts)
    ensures p.found <==> c in s
    ensures c !in p.before
    ensures p.found ==> s == p.before + [c] + p.after
    ensures !p.found ==> p.before == s && p.after == ""
  {
    var i := IndexOf(s, c);
    if i == |s| then Parts(s, false, "")
    else
      assert s == s[..i] + [c] + s[i + 1..];
      Parts(s[..i], true, s[i + 1..])
  }

  /** Index of the last `c` in `s`, or -1 when there is none. */
  function LastIndexOf(s: string, c: char): (i: int)
    ensures -1 <= i < |s|
    ensures i >= 0 ==> s[i] == c
    ensures forall j | i < j < |s| :: s[j] != c
    decreases |s|
  {
    if |s| == 0 then -1
    else if s[|s| - 1] == c then |s| - 1
    else LastIndexOf(s[..|s| - 1], c)
  }

  /** Python's `s.rpartition(c)[2]`: the text after the last `c`, or all of
      `s` when it holds no `c`. */
  function AfterLast(s: string, c: char): (r: string)
    ensures c !in r
    ensures |r| <= |s| && r == s[|s| - |r|..]
    ensures |r| < |s| ==> s[|s| - |r| - 1] == c
  {
    s[LastIndexOf(s, c) + 1..]
  }

  /** Whatever precedes the last separator does not matter. */
  lemma AfterLastSkipsPrefix(a: string, c: char, b: string)
    ensures AfterLast(a + [c] + b, c) == AfterLast(b, c)
  {
    var s := a + [c] + b;
    var i := LastIndexOf(s, c);
    var j := LastIndexOf(b, c);
    assert s[|a| + 1..] == b;
    assert s[|a|] == c;
    assert forall k | |a| < k < |s| :: s[k] == b[k - |a| - 1];
    if j >= 0 {
      assert s[|a| + 1 + j] == b[j];
    }
    assert i == |a| + 1 + j;
    assert s[i + 1..] == s[|a| + 1..][j + 1..];
  }

  /** Python's `a <= b` on strings: lexicographic by code point. */
  predicate LexLe(a: string, b: string)
    decreases |a|
  {
    if |a| == 0 then true
    else if |b| == 0 then false
    else if a[0] != b[0] then a[0] < b[0]
    else LexLe(a[1..], b[1..])
  }

  lemma {:induction false} LexLeReflexive(a: string)
    ensures LexLe(a, a)
    decreases |a|
  {
    if |a| > 0 {
      LexLeReflexive(a[1..]);
    }
  }

  lemma {:induction false} LexLeTotal(a: string, b: string)
    ensures LexLe(a, b) || LexLe(b, a)
    decreases |a|
  {
    if |a| > 0 && |b| > 0 && a[0] == b[0] {
      LexLeTotal(a[1..], b[1..]);
    }
  }

  lemma {:induction false} LexLeAntisymmetric(a: string, b: string)
    requires LexLe(a, b) && LexLe(b, a)
    ensures a == b
    decreases |a|
  {
    if |a| > 0 && |b| > 0 {
      LexLeAntisymmetric(a[1..], b[1..]);
      assert a == [a[0]] + a[1..];
      assert b == [b[0]] + b[1..];
    }
  }

  lemma {:induction false} LexLeTransitive(a: string, b: string, c: string)
    requires LexLe(a, b) && LexLe(b, c)
    ensures LexLe(a, c)
    decreases |a|
  {
    if |a| > 0 && |b| > 0 && |c| > 0 && a[0] == b[0] && b[0] == c[0] {
      LexLeTransitive(a[1..], b[1..], c[1..]);
    }
  }

  predicate IsDigit(c: char) {
    '0' <= c <= '9'
  }

  predicate AllDigits(s: string) {
    forall i | 0 <= i < |s| :: IsDigit(s[i])
  }

  /** Value of a string of decimal digits, most significant first. */
  function ParseDigits(s: string): nat
    requires AllDigits(s)
  {
    if |s| == 0 then 0
    else ParseDigits(s[..|s| - 1]) * 10 + (s[|s| - 1] as int - '0' as int)
  }

  /** Python's `str(n)` for `n >= 0`: its decimal digits, which read back as `n`. */
  function NatToString(n: nat): (s: string)
    ensures |s| > 0 && AllDigits(s)
    ensures ParseDigits(s) == n
  {
    var d := (n % 10 + '0' as int) as char;
    if n < 10 then [d]
    else
      var s := NatToString(n / 10) + [d];
      assert s[..|s| - 1] == NatToString(n / 10);
      s
  }
}
