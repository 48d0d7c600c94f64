/** The parts of Python's `str` and `re` behaviour that the modelled code
    relies on: the whitespace class, `strip`, `find`, `count`, `splitlines`,
    `re.split(r'\n+', ...)` and `'\n'.join(...)`. */
module PyText {

  /** `str.isspace()` of one character. The `\s` class of `re` on `str`
      patterns is the same set. */
  predicate IsSpace(c: char) {
    || c == ' ' || ('\t' <= c <= '\r') || ('\U{1C}' <= c <= '\U{1F}')
    || c == '\U{85}' || c == '\U{A0}' || c == '\U{1680}'
    || ('\U{2000}' <= c <= '\U{200A}') || c == '\U{2028}' || c == '\U{2029}'
    || c == '\U{202F}' || c == '\U{205F}' || c == '\U{3000}'
  }

  predicate AllSpace(s: string) {
    forall i :: 0 <= i < |s| ==> IsSpace(s[i])
  }

  /** `len(s.strip()) == 0`, read one character at a time. */
  predicate Blank(s: string)
    decreases |s|
  {
    s == [] || (IsSpace(s[0]) && Blank(s[1..]))
  }

  /** `Blank` is `AllSpace`. */
  lemma {:induction false} BlankIsAllSpace(s: string)
    decreases |s|
    ensures Blank(s) <==> AllSpace(s)
  {
    if s != [] {
      BlankIsAllSpace(s[1..]);
      assert AllSpace(s) <==> IsSpace(s[0]) && AllSpace(s[1..]) by {
        if IsSpace(s[0]) && AllSpace(s[1..]) {
          forall i | 0 <= i < |s| ensures IsSpace(s[i]) {
            if i > 0 { assert s[i] == s[1..][i - 1]; }
          }
        }
      }
    }
  }

  /** The end of the run of `c` that starts at `p` (`p` itself when there is none). */
  function RunEnd(s: string, p: nat, c: char): (e: nat)
    decreases |s| - p
    ensures p <= e && (p <= |s| ==> e <= |s|) && (p < e ==> e <= |s|)
    ensures e < |s| ==> s[e] != c
  {
    if p < |s| && s[p] == c then RunEnd(s, p + 1, c) else p
  }

  /** Every character of the run is `c`. */
  lemma {:induction false} RunEndAll(s: string, p: nat, c: char)
    decreases |s| - p
    ensures forall i :: p <= i < RunEnd(s, p, c) ==> s[i] == c
  {
    if p < |s| && s[p] == c {
      RunEndAll(s, p + 1, c);
    }
  }

  /** The end of the run of whitespace that starts at `p`. */
  function SpaceRunEnd(s: string, p: nat): (e: nat)
    decreases |s| - p
    ensures p <= e && (p <= |s| ==> e <= |s|) && (p < e ==> e <= |s|)
    ensures e < |s| ==> !IsSpace(s[e])
  {
    if p < |s| && IsSpace(s[p]) then SpaceRunEnd(s, p + 1) else p
  }

  /** Every character of the run is whitespace. */
  lemma {:induction false} SpaceRunEndAll(s: string, p: nat)
    decreases |s| - p
    ensures forall i :: p <= i < SpaceRunEnd(s, p) ==> IsSpace(s[i])
  {
    if p < |s| && IsSpace(s[p]) {
      SpaceRunEndAll(s, p + 1);
    }
  }

  /** The number of whitespace characters `s` starts with. */
  function LeadingSpace(s: string): (k: nat)
    ensures k <= |s| && AllSpace(s[..k]) && (k < |s| ==> !IsSpace(s[k]))
  {
    if s != [] && IsSpace(s[0]) then
      var k := LeadingSpace(s[1..]);
      assert s[..k + 1] == [s[0]] + s[1..][..k];
      k + 1
    else 0
  }

  /** `s.lstrip()` */
  function LStrip(s: string): (r: string)
    ensures |r| <= |s|
    ensures AllSpace(s[..|s| - |r|])
    ensures r != [] ==> !IsSpace(r[0])
  {
    s[LeadingSpace(s)..]
  }

  /** The number of whitespace characters `s` ends with. */
  function TrailingSpace(s: string): (k: nat)
    ensures k <= |s| && AllSpace(s[|s| - k..]) && (k < |s| ==> !IsSpace(s[|s| - k - 1]))
  {
    if s != [] && IsSpace(s[|s| - 1]) then
      var k := TrailingSpace(s[..|s| - 1]);
      TrailingStep(s, k);
      k + 1
    else 0
  }

  /** One more whitespace character at the end extends the suffix by one. */
  lemma TrailingStep(s: string, k: nat)
    requires s != [] && IsSpace(s[|s| - 1])
    requires var t := s[..|s| - 1]; k <= |t| && AllSpace(t[|t| - k..]) && (k < |t| ==> !IsSpace(t[|t| - k - 1]))
    ensures AllSpace(s[|s| - (k + 1)..]) && (k + 1 < |s| ==> !IsSpace(s[|s| - k - 2]))
  {
    var t := s[..|s| - 1];
    var u := s[|s| - (k + 1)..];
    forall i | 0 <= i < k + 1 ensures IsSpace(u[i]) {
      if i < k {
        assert u[i] == t[|t| - k..][i];
      }
    }
    if k + 1 < |s| {
      assert s[|s| - k - 2] == t[|t| - k - 1];
    }
  }

  /** `s.rstrip()` */
  function RStrip(s: string): (r: string)
    ensures |r| <= |s|
    ensures AllSpace(s[|r|..])
    ensures r != [] ==> !IsSpace(r[|r| - 1])
  {
    s[..|s| - TrailingSpace(s)]
  }

  /** `lstrip` removes characters from the front only and `rstrip` from the
      back only: the results are a suffix and a prefix of `s`. */
  lemma StripEnds(s: string)
    ensures LStrip(s) == s[|s| - |LStrip(s)|..]
    ensures RStrip(s) == s[..|RStrip(s)|]
  {
  }

  /** `s.strip()`: empty exactly when `s` is blank, and otherwise starting and
      ending with a non-space character. */
  function Strip(s: string): (r: string)
    ensures |r| <= |s|
    ensures r == [] <==> AllSpace(s)
    ensures r != [] ==> !IsSpace(r[0]) && !IsSpace(r[|r| - 1])
  {
    var l := LStrip(s);
    var r := RStrip(l);
    StripShape(s, l, r);
    r
  }

  /** `strip()` is `lstrip()` followed by `rstrip()`: what remains is empty
      only when every character was whitespace. */
  lemma StripShape(s: string, l: string, r: string)
    requires l == LStrip(s) && r == RStrip(l)
    ensures r == [] <==> AllSpace(s)
  {
    var a := s[..|s| - |l|];
    assert s == a + l;
    var b := l[|r|..];
    assert l == r + b;
    if r == [] {
      assert l == b;
      assert l == [];
      assert s == a;
    } else {
      assert s[|a|] == r[0];
    }
  }

  /** Stripping removes exactly the whitespace around a core that starts and
      ends with a non-space character. */
  lemma {:induction false} StripAround(a: string, core: string, b: string)
    requires AllSpace(a) && AllSpace(b)
    requires core != [] && !IsSpace(core[0]) && !IsSpace(core[|core| - 1])
    ensures Strip(a + core + b) == core
  {
    var t := core + b;
    assert t[0] == core[0];
    assert a + core + b == a + t;
    LStripAround(a, t);
    assert LStrip(a + core + b) == t;
    RStripAround(core, b);
    assert RStrip(t) == core;
  }

  lemma {:induction false} LStripAround(a: string, t: string)
    requires AllSpace(a) && t != [] && !IsSpace(t[0])
    ensures LStrip(a + t) == t
  {
    if a != [] {
      assert (a + t)[1..] == a[1..] + t;
      LStripAround(a[1..], t);
    } else {
      assert a + t == t;
    }
  }

  lemma {:induction false} RStripAround(t: string, b: string)
    requires AllSpace(b) && t != [] && !IsSpace(t[|t| - 1])
    ensures RStrip(t + b) == t
  {
    if b != [] {
      assert (t + b)[..|t + b| - 1] == t + b[..|b| - 1];
      RStripAround(t, b[..|b| - 1]);
    } else {
      assert t + b == t;
    }
  }

  /** The index of the first `c` in `s`, or `|s|` when there is none. */
  function IndexOf(s: string, c: char): (i: nat)
    ensures i <= |s| && (i < |s| ==> s[i] == c)
    ensures forall j :: 0 <= j < i ==> s[j] != c
  {
    if s == [] then 0
    else if s[0] == c then 0
    else 1 + IndexOf(s[1..], c)
  }

  /** `s[n:]` for a non-negative `n`: what follows the first `n`
      characters, so `s` is those characters followed by the result (and the
      result is empty once `n` passes the end). */
  function Drop(s: string, n: nat): (r: string)
    ensures var k := if n <= |s| then n else |s|; s[..k] + r == s
  {
    if n <= |s| then s[n..] else []
  }

  /** The number of occurrences of `c` in `s`. */
  function Count(s: string, c: char): nat
  {
    if s == [] then 0 else (if s[0] == c then 1 else 0) + Count(s[1..], c)
  }

  lemma {:induction false} CountAppend(a: string, b: string, c: char)
    ensures Count(a + b, c) == Count(a, c) + Count(b, c)
  {
    if a != [] {
      assert (a + b)[1..] == a[1..] + b;
      CountAppend(a[1..], b, c);
    } else {
      assert a + b == b;
    }
  }

  lemma {:induction false} CountAbsent(s: string, c: char)
    requires forall i :: 0 <= i < |s| ==> s[i] != c
    ensures Count(s, c) == 0
  {
    if s != [] {
      CountAbsent(s[1..], c);
    }
  }

  /** The line boundaries of `str.splitlines()`. */
  predicate IsLineBoundary(c: char) {
    || c == '\n' || c == '\r' || c == '\U{0B}' || c == '\U{0C}'
    || c == '\U{1C}' || c == '\U{1D}' || c == '\U{1E}' || c == '\U{85}'
    || c == '\U{2028}' || c == '\U{2029}'
  }

  predicate NoLineBoundary(s: string) {
    forall i :: 0 <= i < |s| ==> !IsLineBoundary(s[i])
  }

  /** The index of the first line boundary in `s`, or `|s|`. */
  function LineBreakAt(s: string): (i: nat)
    ensures i <= |s| && (i < |s| ==> IsLineBoundary(s[i]))
    ensures NoLineBoundary(s[..i])
  {
    if s == [] then 0
    else if IsLineBoundary(s[0]) then 0
    else
      var k := LineBreakAt(s[1..]);
      assert s[..1 + k] == [s[0]] + s[1..][..k];
      1 + k
  }

  /** `s.splitlines()`: the lines of `s` without their boundaries; `\r\n`
      is one boundary and a final boundary opens no further line. */
  function SplitLines(s: string): (lines: seq<string>)
    decreases |s|
    ensures s == [] <==> lines == []
    ensures forall k :: 0 <= k < |lines| ==> NoLineBoundary(lines[k])
  {
    if s == [] then []
    else
      var i := LineBreakAt(s);
      if i == |s| then [s]
      else
        var j := if s[i] == '\r' && i + 1 < |s| && s[i + 1] == '\n' then i + 2 else i + 1;
        [s[..i]] + SplitLines(s[j..])
  }

  /** `re.split(r'\n+', s)`: the pieces between runs of newlines, keeping an
      empty first or last piece. */
  function SplitNewlineRuns(s: string): (parts: seq<string>)
    decreases |s|
    ensures |parts| >= 1
    ensures forall k :: 0 <= k < |parts| ==> '\n' !in parts[k]
  {
    var i := IndexOf(s, '\n');
    assert '\n' !in s[..i];
    if i == |s| then [s]
    else [s[..i]] + SplitNewlineRuns(s[RunEnd(s, i, '\n')..])
  }

  /** `sep.join(parts)` */
  function Join(sep: string, parts: seq<string>): string
  {
    if parts == [] then []
    else if |parts| == 1 then parts[0]
    else parts[0] + sep + Join(sep, parts[1..])
  }

  /** Each part followed by a newline, all concatenated. */
  function Terminated(parts: seq<string>): string
  {
    if parts == [] then [] else parts[0] + "\n" + Terminated(parts[1..])
  }

  /** Joining a non-empty list with newlines and adding one more newline is
      writing every part as a terminated line. */
  lemma {:induction false} JoinTerminated(parts: seq<string>)
    requires parts != []
    ensures Join("\n", parts) + "\n" == Terminated(parts)
  {
    if |parts| > 1 {
      JoinTerminated(parts[1..]);
      assert Terminated(parts[1..]) == Join("\n", parts[1..]) + "\n";
    } else {
      assert parts[1..] == [];
    }
  }

  /** A text of terminated lines has one newline per line. */
  lemma {:induction false} TerminatedCount(parts: seq<string>)
    requires forall k :: 0 <= k < |parts| ==> '\n' !in parts[k]
    ensures Count(Terminated(parts), '\n') == |parts|
  {
    if parts != [] {
      TerminatedCount(parts[1..]);
      CountAppend(parts[0] + "\n", Terminated(parts[1..]), '\n');
      CountAppend(parts[0], "\n", '\n');
      CountAbsent(parts[0], '\n');
      assert Count("\n", '\n') == 1;
    }
  }

  /** `splitlines` gives back the lines of a text written as terminated lines. */
  lemma {:induction false} SplitLinesTerminated(parts: seq<string>)
    requires forall k :: 0 <= k < |parts| ==> NoLineBoundary(parts[k])
    ensures SplitLines(Terminated(parts)) == parts
  {
    if parts != [] {
      var s := Terminated(parts);
      var p := parts[0];
      assert s == p + ("\n" + Terminated(parts[1..]));
      LineBreakAtPrefix(p, "\n" + Terminated(parts[1..]));
      assert s[..|p|] == p;
      assert s[|p| + 1..] == Terminated(parts[1..]);
      SplitLinesTerminated(parts[1..]);
    }
  }

  lemma {:induction false} LineBreakAtPrefix(p: string, rest: string)
    requires NoLineBoundary(p) && rest != [] && IsLineBoundary(rest[0])
    ensures LineBreakAt(p + rest) == |p|
  {
    if p != [] {
      assert (p + rest)[1..] == p[1..] + rest;
      LineBreakAtPrefix(p[1..], rest);
    } else {
      assert p + rest == rest;
    }
  }
}
