/** The Python string operations the pipeline relies on, over `seq<char>`:
    `str.split()` with no argument, `str.split(sep)` for one separator
    character, `sep.join(parts)`, `str.lower()` and `str.endswith()`. */
module Text {

  /** The characters for which Python's `str.isspace()` holds; these are
      exactly the separators of `str.split()` with no argument. */
  predicate IsSpace(c: char) {
    || c == ' ' || c == '\t' || c == '\n' || c == '\r'
    || c == '\U{000B}' || c == '\U{000C}'
    || ('\U{001C}' <= c <= '\U{001F}')
    || c == '\U{0085}' || c == '\U{00A0}' || c == '\U{1680}'
    || ('\U{2000}' <= c <= '\U{200A}')
    || c == '\U{2028}' || c == '\U{2029}' || c == '\U{202F}'
    || c == '\U{205F}' || c == '\U{3000}'
  }

  predicate AllSpace(s: string) {
    forall i | 0 <= i < |s| :: IsSpace(s[i])
  }

  /** A token of `str.split()`: non-empty and free of whitespace. */
  predicate IsWord(w: string) {
    |w| > 0 && forall i | 0 <= i < |w| :: !IsSpace(w[i])
  }

  predicate AllWords(ws: seq<string>) {
    forall i | 0 <= i < |ws| :: IsWord(ws[i])
  }

  /** Length of the longest prefix of `s` that holds no whitespace. */
  function LeadingRun(s: string): (k: nat)
    ensures k <= |s|
    ensures forall i | 0 <= i < k :: !IsSpace(s[i])
    ensures k < |s| ==> IsSpace(s[k])
  {
    if |s| == 0 || IsSpace(s[0]) then 0 else 1 + LeadingRun(s[1..])
  }

  /** Python's `s.split()`: the maximal runs of non-whitespace characters,
      in order; leading and trailing whitespace yield nothing. */
  function Words(s: string): (ws: seq<string>)
    ensures AllWords(ws)
    decreases |s|
  {
    if |s| == 0 then []
    else if IsSpace(s[0]) then Words(s[1..])
    else
      var k := LeadingRun(s);
      [s[..k]] + Words(s[k..])
  }

  /** Python's `sep.join(parts)` for a one-character separator. */
  function JoinWith(sep: char, parts: seq<string>): string
  {
    if |parts| == 0 then ""
    else if |parts| == 1 then parts[0]
    else parts[0] + [sep] + JoinWith(sep, parts[1..])
  }

  /** Python's `s.split(sep)` for a one-character separator: always at
      least one part, empty parts kept. */
  function SplitOn(sep: char, s: string): (parts: seq<string>)
    ensures |parts| >= 1
    decreases |s|
  {
    if |s| == 0 then [""]
    else if s[0] == sep then [""] + SplitOn(sep, s[1..])
    else
      var rest := SplitOn(sep, s[1..]);
      [[s[0]] + rest[0]] + rest[1..]
  }

  /** Python's `str.lower()` restricted to ASCII letters. */
  function LowerChar(c: char): (d: char)
    ensures 'A' <= c <= 'Z' ==> d as int == c as int + 32
    ensures !('A' <= c <= 'Z') ==> d == c
  {
    if 'A' <= c <= 'Z' then (c as int - 'A' as int + 'a' as int) as char else c
  }

  function Lower(s: string): (t: string)
    ensures |t| == |s|
    ensures forall i | 0 <= i < |s| :: t[i] == LowerChar(s[i])
  {
    seq(|s|, i requires 0 <= i < |s| => LowerChar(s[i]))
  }

  /** Python's `s.endswith(suffix)`. */
  predicate EndsWith(s: string, suffix: string) {
    |suffix| <= |s| && s[|s| - |suffix|..] == suffix
  }

  // ---------------------------------------------------------------------
  // str.split(): the characterising equations
  // ---------------------------------------------------------------------

  /** An empty or all-whitespace string has no tokens, and only those do. */
  lemma {:induction false} WordsEmptyIff(s: string)
    ensures |Words(s)| == 0 <==> AllSpace(s)
    decreases |s|
  {
    if |s| == 0 {
    } else if IsSpace(s[0]) {
      WordsEmptyIff(s[1..]);
      if AllSpace(s[1..]) {
        forall i | 0 <= i < |s| ensures IsSpace(s[i]) {
          if i > 0 { assert s[i] == s[1..][i - 1]; }
        }
      } else {
        var j :| 0 <= j < |s[1..]| && !IsSpace(s[1..][j]);
        assert s[j + 1] == s[1..][j];
      }
    } else {
      assert !IsSpace(s[0]);
    }
  }

  lemma LeadingRunOfWord(w: string)
    requires IsWord(w)
    ensures LeadingRun(w) == |w|
  {
  }

  /** A single token splits to itself. */
  lemma WordsOfWord(w: string)
    requires IsWord(w)
    ensures Words(w) == [w]
  {
    LeadingRunOfWord(w);
    assert w[..|w|] == w;
    assert w[|w|..] == [];
  }

  /** A whitespace character separates: the tokens on either side of it
      never merge. Together with `WordsOfWord` and `WordsEmptyIff` this
      determines `Words` completely. */
  lemma {:induction false} WordsAroundSpace(a: string, c: char, b: string)
    requires IsSpace(c)
    ensures Words(a + [c] + b) == Words(a) + Words(b)
    decreases |a|
  {
    var s := a + [c] + b;
    if |a| == 0 {
      assert s == [c] + b;
      assert s[1..] == b;
    } else if IsSpace(a[0]) {
      assert s[1..] == a[1..] + [c] + b;
      WordsAroundSpace(a[1..], c, b);
    } else {
      var k0 := LeadingRun(a);
      var k := LeadingRun(s);
      LeadingRunOfPrefix(a, c, b);
      assert k == k0;
      assert s[..k] == a[..k0];
      assert s[k..] == a[k0..] + [c] + b;
      WordsAroundSpace(a[k0..], c, b);
    }
  }

  lemma {:induction false} LeadingRunOfPrefix(a: string, c: char, b: string)
    requires IsSpace(c)
    ensures LeadingRun(a + [c] + b) == LeadingRun(a)
    decreases |a|
  {
    var s := a + [c] + b;
    if |a| == 0 {
      assert s[0] == c;
    } else if IsSpace(a[0]) {
      assert s[0] == a[0];
    } else {
      assert s[0] == a[0];
      assert s[1..] == a[1..] + [c] + b;
      LeadingRunOfPrefix(a[1..], c, b);
    }
  }

  /** Joining tokens with single spaces and splitting again gives the
      tokens back: `" ".join(ws).split() == ws`. */
  lemma {:induction false} WordsOfJoin(ws: seq<string>)
    requires AllWords(ws)
    ensures Words(JoinWith(' ', ws)) == ws
    decreases |ws|
  {
    if |ws| == 0 {
    } else if |ws| == 1 {
      WordsOfWord(ws[0]);
    } else {
      assert IsWord(ws[0]);
      WordsOfWord(ws[0]);
      WordsOfJoin(ws[1..]);
      WordsAroundSpace(ws[0], ' ', JoinWith(' ', ws[1..]));
      assert ws == [ws[0]] + ws[1..];
    }
  }

  // ---------------------------------------------------------------------
  // str.split(sep) and sep.join(): both round trips
  // ---------------------------------------------------------------------

  lemma JoinWithCons(sep: char, x: string, ps: seq<string>)
    requires |ps| >= 1
    ensures JoinWith(sep, [x + ps[0]] + ps[1..]) == x + JoinWith(sep, ps)
  {
    var qs := [x + ps[0]] + ps[1..];
    if |ps| > 1 {
      assert qs[1..] == ps[1..];
    }
  }

  /** `sep.join(s.split(sep)) == s` for every string. */
  lemma {:induction false} JoinOfSplitOn(sep: char, s: string)
    ensures JoinWith(sep, SplitOn(sep, s)) == s
    decreases |s|
  {
    if |s| == 0 {
    } else if s[0] == sep {
      var p := SplitOn(sep, s[1..]);
      JoinOfSplitOn(sep, s[1..]);
      assert ([""] + p)[1..] == p;
      if |p| == 1 {
        assert JoinWith(sep, [""] + p) == "" + [sep] + p[0];
      }
      assert s == [sep] + s[1..];
    } else {
      var p := SplitOn(sep, s[1..]);
      JoinOfSplitOn(sep, s[1..]);
      JoinWithCons(sep, [s[0]], p);
      assert s == [s[0]] + s[1..];
    }
  }

  lemma {:induction false} SplitOnFree(sep: char, w: string)
    requires sep !in w
    ensures SplitOn(sep, w) == [w]
    decreases |w|
  {
    if |w| > 0 {
      assert w[0] in w;
      assert forall i | 0 <= i < |w[1..]| :: w[1..][i] == w[i + 1];
      SplitOnFree(sep, w[1..]);
      assert w == [w[0]] + w[1..];
    }
  }

  lemma {:induction false} SplitOnAroundSep(sep: char, w: string, rest: string)
    requires sep !in w
    ensures SplitOn(sep, w + [sep] + rest) == [w] + SplitOn(sep, rest)
    decreases |w|
  {
    var s := w + [sep] + rest;
    if |w| == 0 {
      assert s == [sep] + rest;
      assert s[1..] == rest;
    } else {
      assert w[0] in w;
      assert s[0] == w[0];
      assert s[1..] == w[1..] + [sep] + rest;
      assert forall i | 0 <= i < |w[1..]| :: w[1..][i] == w[i + 1];
      SplitOnAroundSep(sep, w[1..], rest);
      assert w == [w[0]] + w[1..];
    }
  }

  /** The parts of every string in `ps`, split on `sep`, run together. */
  function SplitAll(sep: char, ps: seq<string>): (parts: seq<string>)
    ensures |parts| >= |ps|
    decreases |ps|
  {
    if |ps| == 0 then [] else SplitOn(sep, ps[0]) + SplitAll(sep, ps[1..])
  }

  /** The parts after putting `c` in front of a text whose parts are `p`:
      a separator opens a new empty part, any other character extends the
      first part. */
  function ConsPart(sep: char, c: char, p: seq<string>): seq<string>
    requires |p| >= 1
  {
    if c == sep then [""] + p else [[c] + p[0]] + p[1..]
  }

  lemma SplitOnCons(sep: char, c: char, t: string)
    ensures SplitOn(sep, [c] + t) == ConsPart(sep, c, SplitOn(sep, t))
  {
    assert ([c] + t)[1..] == t;
  }

  lemma ConsPartAppend(sep: char, c: char, p: seq<string>, q: seq<string>)
    requires |p| >= 1
    ensures ConsPart(sep, c, p + q) == ConsPart(sep, c, p) + q
  {
    if c == sep {
      assert [""] + (p + q) == ([""] + p) + q;
    } else {
      assert (p + q)[0] == p[0];
      assert (p + q)[1..] == p[1..] + q;
      var head := [[c] + p[0]];
      assert head + (p[1..] + q) == (head + p[1..]) + q;
    }
  }

  /** The step of `SplitOnAtSep`: the cut survives putting one more
      character in front. */
  lemma SplitOnAtSepStep(sep: char, c: char, rest: string, b: string)
    requires SplitOn(sep, rest + [sep] + b) == SplitOn(sep, rest) + SplitOn(sep, b)
    ensures SplitOn(sep, [c] + (rest + [sep] + b)) == SplitOn(sep, [c] + rest) + SplitOn(sep, b)
  {
    SplitOnCons(sep, c, rest + [sep] + b);
    SplitOnCons(sep, c, rest);
    ConsPartAppend(sep, c, SplitOn(sep, rest), SplitOn(sep, b));
  }

  /** A separator cuts: the parts of `a + sep + b` are those of `a`
      followed by those of `b`, whatever `a` holds. */
  lemma {:induction false} SplitOnAtSep(sep: char, a: string, b: string)
    ensures SplitOn(sep, a + [sep] + b) == SplitOn(sep, a) + SplitOn(sep, b)
    decreases |a|
  {
    if |a| == 0 {
      assert a + [sep] + b == [sep] + b;
      SplitOnCons(sep, sep, b);
    } else {
      var c, rest := a[0], a[1..];
      assert a == [c] + rest;
      assert a + [sep] + b == [c] + (rest + [sep] + b);
      SplitOnAtSep(sep, rest, b);
      SplitOnAtSepStep(sep, c, rest, b);
    }
  }

  /** `sep.join(ps).split(sep)` for any non-empty list of parts: each
      part's own pieces, in order. A part holding the separator comes back
      as several parts. */
  lemma {:induction false} SplitOnOfJoinAll(sep: char, ps: seq<string>)
    requires |ps| >= 1
    ensures SplitOn(sep, JoinWith(sep, ps)) == SplitAll(sep, ps)
    decreases |ps|
  {
    if |ps| == 1 {
      assert SplitAll(sep, ps) == SplitOn(sep, ps[0]) + SplitAll(sep, ps[1..]);
      assert SplitAll(sep, ps[1..]) == [];
    } else {
      SplitOnAtSep(sep, ps[0], JoinWith(sep, ps[1..]));
      SplitOnOfJoinAll(sep, ps[1..]);
    }
  }

  /** Parts free of the separator split to themselves. */
  lemma {:induction false} SplitAllOfFree(sep: char, ps: seq<string>)
    requires forall i | 0 <= i < |ps| :: sep !in ps[i]
    ensures SplitAll(sep, ps) == ps
    decreases |ps|
  {
    if |ps| > 0 {
      SplitOnFree(sep, ps[0]);
      SplitAllOfFree(sep, ps[1..]);
      assert ps == [ps[0]] + ps[1..];
    }
  }

  /** `sep.join(ps).split(sep) == ps` when no part holds the separator
      and there is at least one part. */
  lemma {:induction false} SplitOnOfJoin(sep: char, ps: seq<string>)
    requires |ps| >= 1
    requires forall i | 0 <= i < |ps| :: sep !in ps[i]
    ensures SplitOn(sep, JoinWith(sep, ps)) == ps
    decreases |ps|
  {
    if |ps| == 1 {
      SplitOnFree(sep, ps[0]);
    } else {
      SplitOnAroundSep(sep, ps[0], JoinWith(sep, ps[1..]));
      SplitOnOfJoin(sep, ps[1..]);
      assert ps == [ps[0]] + ps[1..];
    }
  }
}
