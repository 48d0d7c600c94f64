/** The reStructuredText-style directive plugin of `mistune3/directives/base.py`:
    the registry of directive handlers, the block rule that matches a
    directive and dispatches it by name, the option-list parser, and the
    dedent that turns a directive's content into the text of its child
    block state. `DIRECTIVE_PATTERN` is not run here: a match is given by
    its capture groups, together with the predicate `Wf` that says what
    the pattern guarantees about them. */
module DirectiveBase {
  import opened Tokens
  import opened PyText

  // ----- the match -----

  /** `[a-zA-Z0-9_-]` */
  predicate NameChar(c: char) {
    ('a' <= c <= 'z') || ('A' <= c <= 'Z') || ('0' <= c <= '9') || c == '_' || c == '-'
  }

  predicate NameChars(s: string) {
    forall i :: 0 <= i < |s| ==> NameChar(s[i])
  }

  predicate Spaces(s: string) {
    forall i :: 0 <= i < |s| ==> s[i] == ' '
  }

  predicate Newlines(s: string) {
    forall i :: 0 <= i < |s| ==> s[i] == '\n'
  }

  /** A match of `DIRECTIVE_PATTERN`, part by part: group 1 (`indent`),
      `name`, the spaces after `::` (`gap`), `value`, the newlines after it
      (`breaks`), `options` and `text`. */
  datatype DirectiveMatch = DirectiveMatch(indent: string, name: string, gap: string, value: string,
                                           breaks: string, options: string, text: string)

  /** The first line of the match and the newlines after it. */
  function Head(m: DirectiveMatch): string {
    ".." + m.indent + m.name + "::" + m.gap + m.value + m.breaks
  }

  /** `m.group(0)` */
  function Full(m: DirectiveMatch): string {
    Head(m) + m.options + m.text
  }

  /** `s` occurs in `src` at `p`. */
  predicate At(src: string, p: nat, s: string) {
    p + |s| <= |src| && src[p..p + |s|] == s
  }

  /** What `DIRECTIVE_PATTERN` guarantees of a match at `cursor`: the parts
      have the shapes of their sub-patterns and together spell the matched
      text. The line structure of `options` and `text` is not part of it. */
  predicate Wf(src: string, cursor: nat, m: DirectiveMatch) {
    && m.indent != [] && Spaces(m.indent)
    && m.name != [] && NameChars(m.name)
    && Spaces(m.gap) && '\n' !in m.value
    && m.breaks != [] && Newlines(m.breaks)
    && At(src, cursor, Full(m))
  }

  // ----- the registry and the block rule -----

  /** A block-level token: the error token of an unknown directive, or what
      a registered handler returned. */
  datatype BlockToken = BlockError(raw: string) | Handled(kind: string)

  /** A directive handler, seen through the match it is given. */
  type Handler = DirectiveMatch -> BlockToken

  /** A token together with the line count `add_token` was given. */
  datatype Placed = Placed(token: BlockToken, lineCount: nat)

  const Unsupported := "Unsupported directive: "

  /** The token `parse_block_directive` adds for a match: the registered
      handler's, or a `block_error` naming the directive. */
  function DirectiveToken(directives: map<string, Handler>, m: DirectiveMatch): (t: BlockToken)
    ensures m.name in directives ==> t == directives[m.name](m)
    ensures m.name !in directives ==> t.BlockError? && Unsupported <= t.raw && t.raw[|Unsupported|..] == m.name
  {
    if m.name in directives then directives[m.name](m) else BlockError(Unsupported + m.name)
  }

  /** After registering `fn` under `name`, a directive of that name goes to
      `fn` and every other name is dispatched as before. */
  lemma RegisterThenDispatch(directives: map<string, Handler>, name: string, fn: Handler, m: DirectiveMatch)
    ensures m.name == name ==> DirectiveToken(directives[name := fn], m) == fn(m)
    ensures m.name != name ==> DirectiveToken(directives[name := fn], m) == DirectiveToken(directives, m)
  {
  }

  /** The block parser state, as far as the rule uses it. */
  class BlockState {
    var src: string
    var cursor: nat
    var tokens: seq<Placed>

    constructor (src: string)
      ensures this.src == src && cursor == 0 && tokens == []
    {
      this.src := src;
      cursor := 0;
      tokens := [];
    }

    /** `get_text`: the source from the cursor up to `endPos`. */
    function GetText(endPos: nat): (s: string)
      reads this
      requires cursor <= endPos <= |src|
      ensures |s| == endPos - cursor && At(src, cursor, s)
    {
      src[cursor..endPos]
    }

    method AddToken(t: BlockToken, lineCount: nat)
      modifies this`tokens
      ensures tokens == old(tokens) + [Placed(t, lineCount)]
    {
      tokens := tokens + [Placed(t, lineCount)];
    }
  }

  class PluginDirective {
    var directives: map<string, Handler>

    constructor ()
      ensures directives == map[]
    {
      directives := map[];
    }

    /** Stores `fn` under `name`, replacing an earlier handler of that name;
        no other entry changes. */
    method RegisterDirective(name: string, fn: Handler)
      modifies this
      ensures directives == old(directives)[name := fn]
      ensures name in directives && directives[name] == fn
      ensures directives.Keys == old(directives.Keys) + {name}
    {
      directives := directives[name := fn];
    }

    /** The `directive` block rule. `found` is `state.match(DIRECTIVE_PATTERN)`
        at the cursor. Without a match nothing changes and the result is
        false (the source's `None`); with one, exactly one token is added,
        with the number of newlines in the matched text, the cursor moves to
        the end of the match and the result is true. */
    method ParseBlockDirective(state: BlockState, found: Option<DirectiveMatch>) returns (r: bool)
      requires found.Some? ==> Wf(state.src, state.cursor, found.value)
      modifies state`tokens, state`cursor
      ensures r <==> found.Some?
      ensures found.None? ==> state.tokens == old(state.tokens) && state.cursor == old(state.cursor)
      ensures found.Some? ==>
        && state.cursor == old(state.cursor) + |Full(found.value)|
        && state.tokens == old(state.tokens) +
             [Placed(DirectiveToken(directives, found.value), Count(Full(found.value), '\n'))]
    {
      if found.None? {
        return false;
      }
      var m := found.value;
      var token;
      if m.name in directives {
        token := directives[m.name](m);
      } else {
        token := BlockError(Unsupported + m.name);
      }
      var endPos := state.cursor + |Full(m)|;
      var text := state.GetText(endPos);
      var lineCount := Count(text, '\n');
      state.AddToken(token, lineCount);
      state.cursor := endPos;
      return true;
    }
  }

  // ----- parse_options -----

  /** The key and value of an option line once stripped and cut:
      `i = line.find(':')`, then `line[:i]` and `line[i + 1:].strip()`. With
      a `:` the key is the text before the first one and the value the
      stripped rest; without one `i` is -1, so the key is the line without
      its last character and the value the stripped line. */
  function OptionPair(line: string): (o: (string, string))
    requires line != []
    ensures ':' in line ==> ':' !in o.0 && o.0 + ":" <= line && o.1 == Strip(line[|o.0| + 1..])
    ensures ':' !in line ==> o == (line[..|line| - 1], Strip(line))
  {
    var i := IndexOf(line, ':');
    if i < |line| then
      assert line[..i + 1] == line[..i] + ":";
      (line[..i], Strip(line[i + 1..]))
    else (line[..|line| - 1], Strip(line))
  }

  /** With the key's end found, the pair is determined: the key is the text
      before the `:` and the value the stripped rest. */
  lemma OptionPairOf(k: string, rest: string)
    requires ':' !in k
    ensures OptionPair(k + ":" + rest) == (k, Strip(rest))
  {
    var line := k + ":" + rest;
    assert line[|k|] == ':';
    assert IndexOf(line, ':') == |k| by {
      forall j | 0 <= j < |k| ensures line[j] != ':' {
        assert line[j] == k[j];
      }
    }
    assert line[..|k|] == k && line[|k| + 1..] == rest;
  }

  /** One piece of the options group: `line.strip()[1:]` (the leading `:`
      goes), nothing for a piece that is then empty, and its key and value
      otherwise. */
  function OptionOf(raw: string): Option<(string, string)>
  {
    var t := Strip(raw);
    if |t| <= 1 then None else Some(OptionPair(t[1..]))
  }

  /** What `f` gives for one piece, as a list of zero or one values. */
  function GatherOne(x: string, f: string -> Option<(string, string)>): seq<(string, string)> {
    match f(x) case None => [] case Some(o) => [o]
  }

  /** The values `f` gives for `parts`, in order, skipping the pieces it
      gives nothing for. */
  function Gather(parts: seq<string>, f: string -> Option<(string, string)>): (opts: seq<(string, string)>)
    ensures |opts| <= |parts|
    ensures |opts| == |parts| <==> forall k :: 0 <= k < |parts| ==> f(parts[k]).Some?
  {
    if parts == [] then []
    else GatherOne(parts[0], f) + Gather(parts[1..], f)
  }

  /** Every value gathered is what `f` gives for one of the pieces. */
  lemma {:induction false} GatherFrom(parts: seq<string>, f: string -> Option<(string, string)>)
    ensures forall i :: 0 <= i < |Gather(parts, f)| ==>
      exists k :: 0 <= k < |parts| && f(parts[k]) == Some(Gather(parts, f)[i])
  {
    if parts != [] {
      GatherFrom(parts[1..], f);
      var one := GatherOne(parts[0], f);
      var rest := Gather(parts[1..], f);
      var g := Gather(parts, f);
      assert g == one + rest;
      forall i | 0 <= i < |g| ensures exists k :: 0 <= k < |parts| && f(parts[k]) == Some(g[i]) {
        if i < |one| {
          assert f(parts[0]) == Some(g[i]);
        } else {
          assert g[i] == rest[i - |one|];
          var k :| 0 <= k < |parts[1..]| && f(parts[1..][k]) == Some(rest[i - |one|]);
          assert parts[1..][k] == parts[k + 1];
        }
      }
    } else {
      assert Gather(parts, f) == [];
    }
  }

  /** One step of a left-to-right walk over `parts`: the value `o` that `f`
      gives for the next piece is appended, or the piece is skipped. */
  lemma GatherStep(options: seq<(string, string)>, rest: seq<string>, f: string -> Option<(string, string)>,
                   o: Option<(string, string)>)
    requires rest != [] && o == f(rest[0])
    ensures options + Gather(rest, f) == (if o.Some? then options + [o.value] else options) + Gather(rest[1..], f)
  {
    assert Gather(rest, f) == GatherOne(rest[0], f) + Gather(rest[1..], f);
  }

  /** `parse_options` on the options group `text`. */
  function Options(text: string): (opts: seq<(string, string)>)
  {
    if Blank(text) then [] else Gather(SplitNewlineRuns(text), OptionOf)
  }

  lemma {:induction false} GatherAppend(a: seq<string>, b: seq<string>, f: string -> Option<(string, string)>)
    ensures Gather(a + b, f) == Gather(a, f) + Gather(b, f)
  {
    if a != [] {
      assert (a + b)[1..] == a[1..] + b;
      GatherAppend(a[1..], b, f);
    } else {
      assert a + b == b;
    }
  }

  /** The body of the loop of `parse_options` for one piece. */
  method ReadOption(raw: string) returns (o: Option<(string, string)>)
    ensures o == OptionOf(raw)
  {
    var t := Strip(raw);
    if |t| <= 1 {
      return None;
    }
    var line := t[1..];
    var i := IndexOf(line, ':');
    // `line.find(':')` is -1 when `i == |line|`, and `line[:-1]`, `line[0:]` are then taken
    var k := if i < |line| then line[..i] else line[..|line| - 1];
    var v := Strip(if i < |line| then line[i + 1..] else line);
    return Some((k, v));
  }

  /** The `for` loop of `parse_options`, taking the pieces in order. */
  method CollectOptions(parts: seq<string>) returns (options: seq<(string, string)>)
    ensures options == Gather(parts, OptionOf)
  {
    options := [];
    var rest := parts;
    while rest != []
      invariant options + Gather(rest, OptionOf) == Gather(parts, OptionOf)
      decreases |rest|
    {
      var o := ReadOption(rest[0]);
      GatherStep(options, rest, OptionOf, o);
      if o.Some? {
        options := options + [o.value];
      }
      rest := rest[1..];
    }
  }

  /** `parse_options`: nothing for a blank group, else the loop over the
      pieces between runs of newlines. */
  method ParseOptions(text: string) returns (options: seq<(string, string)>)
    ensures options == Options(text)
  {
    if Blank(text) {
      return [];
    }
    options := CollectOptions(SplitNewlineRuns(text));
  }

  /** The pieces `re.split(r'\n+', ...)` makes of a blank text are blank. */
  lemma {:induction false} SplitRunsBlank(s: string)
    decreases |s|
    requires AllSpace(s)
    ensures forall k :: 0 <= k < |SplitNewlineRuns(s)| ==> AllSpace(SplitNewlineRuns(s)[k])
  {
    var i := IndexOf(s, '\n');
    if i < |s| {
      var e := RunEnd(s, i, '\n');
      assert AllSpace(s[e..]) by {
        forall j | 0 <= j < |s[e..]| ensures IsSpace(s[e..][j]) {
          assert s[e..][j] == s[e + j];
        }
      }
      SplitRunsBlank(s[e..]);
      assert SplitNewlineRuns(s) == [s[..i]] + SplitNewlineRuns(s[e..]);
      forall k | 0 <= k < |SplitNewlineRuns(s)| ensures AllSpace(SplitNewlineRuns(s)[k]) {
        if k > 0 {
          assert SplitNewlineRuns(s)[k] == SplitNewlineRuns(s[e..])[k - 1];
        } else {
          forall j | 0 <= j < i ensures IsSpace(s[..i][j]) {
            assert s[..i][j] == s[j];
          }
        }
      }
    }
  }

  lemma {:induction false} GatherBlank(parts: seq<string>)
    requires forall k :: 0 <= k < |parts| ==> AllSpace(parts[k])
    ensures Gather(parts, OptionOf) == []
  {
    if parts != [] {
      assert AllSpace(parts[0]);
      GatherBlank(parts[1..]);
    }
  }

  /** The early `return []` of `parse_options` is only a shortcut: the loop
      finds no option in a blank group either. */
  lemma BlankOptionsNone(text: string)
    requires AllSpace(text)
    ensures Options(text) == []
    ensures Gather(SplitNewlineRuns(text), OptionOf) == []
  {
    SplitRunsBlank(text);
    GatherBlank(SplitNewlineRuns(text));
  }

  // ----- the option lines the pattern matches -----

  /** A key the option sub-pattern `\:[a-zA-Z0-9_-]+\:` admits. */
  predicate OptionKey(k: string) {
    k != [] && NameChars(k)
  }

  /** A value as `parse_options` returns it: one line, already stripped. */
  predicate OptionValue(v: string) {
    '\n' !in v && (v != [] ==> !IsSpace(v[0]) && !IsSpace(v[|v| - 1]))
  }

  /** The option line `  <indent>:<key>: <value>`. */
  function OptionLine(indent: string, o: (string, string)): string {
    indent + ":" + o.0 + ": " + o.1
  }

  function OptionLines(indent: string, opts: seq<(string, string)>): (lines: seq<string>)
    ensures |lines| == |opts|
    ensures forall k :: 0 <= k < |opts| ==> lines[k] == OptionLine(indent, opts[k])
  {
    if opts == [] then [] else [OptionLine(indent, opts[0])] + OptionLines(indent, opts[1..])
  }

  /** An options group written out: one line per option. */
  function OptionsText(indent: string, opts: seq<(string, string)>): string {
    Terminated(OptionLines(indent, opts))
  }

  /** The stripped option line, cut after its leading `:`. */
  lemma OptionLineCut(indent: string, k: string, v: string)
    requires Spaces(indent) && OptionValue(v)
    ensures var rest := if v == [] then [] else " " + v;
      Strip(OptionLine(indent, (k, v))) == ":" + (k + ":" + rest) && Strip(rest) == v
  {
    assert AllSpace(indent);
    if v == [] {
      assert OptionLine(indent, (k, v)) == indent + (":" + (k + ":" + [])) + " ";
      StripAround(indent, ":" + (k + ":" + []), " ");
    } else {
      assert OptionLine(indent, (k, v)) == indent + (":" + (k + ":" + (" " + v))) + [];
      StripAround(indent, ":" + (k + ":" + (" " + v)), []);
      assert " " + v == " " + v + [];
      StripAround(" ", v, []);
    }
  }

  lemma OptionLineOf(indent: string, k: string, v: string)
    requires Spaces(indent) && OptionKey(k) && OptionValue(v)
    ensures OptionOf(OptionLine(indent, (k, v))) == Some((k, v))
  {
    var rest := if v == [] then [] else " " + v;
    OptionLineCut(indent, k, v);
    assert ':' !in k by {
      forall i | 0 <= i < |k| ensures k[i] != ':' {
        assert NameChar(k[i]);
      }
    }
    OptionPairOf(k, rest);
    assert (":" + (k + ":" + rest))[1..] == k + ":" + rest;
  }

  /** `re.split(r'\n+', ...)` cuts a line ended by a single newline off the front. */
  lemma SplitRunsFirst(p: string, rest: string)
    requires '\n' !in p && (rest == [] || rest[0] != '\n')
    ensures SplitNewlineRuns(p + "\n" + rest) == [p] + SplitNewlineRuns(rest)
  {
    var s := p + "\n" + rest;
    assert s[|p|] == '\n';
    assert IndexOf(s, '\n') == |p| by {
      forall j | 0 <= j < |p| ensures s[j] != '\n' {
        assert s[j] == p[j];
      }
    }
    assert RunEnd(s, |p| + 1, '\n') == |p| + 1;
    assert s[..|p|] == p;
    assert s[|p| + 1..] == rest;
  }

  /** `re.split(r'\n+', ...)` of non-empty terminated lines gives the lines
      back, followed by the empty piece after the last newline. */
  lemma {:induction false} SplitRunsTerminated(parts: seq<string>)
    requires forall k :: 0 <= k < |parts| ==> parts[k] != [] && '\n' !in parts[k]
    ensures SplitNewlineRuns(Terminated(parts)) == parts + [""]
  {
    if parts == [] {
      assert IndexOf([], '\n') == 0;
    } else {
      var rest := Terminated(parts[1..]);
      assert rest != [] ==> rest[0] == parts[1][0];
      SplitRunsFirst(parts[0], rest);
      SplitRunsTerminated(parts[1..]);
      assert parts + [""] == [parts[0]] + (parts[1..] + [""]);
    }
  }

  /** An option line is one non-empty line. */
  lemma OptionLineShape(indent: string, o: (string, string))
    requires Spaces(indent) && OptionKey(o.0) && OptionValue(o.1)
    ensures OptionLine(indent, o) != [] && '\n' !in OptionLine(indent, o)
  {
    var l := OptionLine(indent, o);
    assert l == indent + ":" + o.0 + ": " + o.1;
    forall j | 0 <= j < |l| ensures l[j] != '\n' {
      if j < |indent| {
        assert l[j] == indent[j];
      } else if j >= |l| - |o.1| {
        assert l[j] == o.1[j - (|l| - |o.1|)];
      } else if |indent| < j < |indent| + 1 + |o.0| {
        assert l[j] == o.0[j - |indent| - 1];
        assert NameChar(o.0[j - |indent| - 1]);
      }
    }
  }

  lemma {:induction false} OptionsOfLines(indent: string, opts: seq<(string, string)>)
    requires Spaces(indent)
    requires forall k :: 0 <= k < |opts| ==> OptionKey(opts[k].0) && OptionValue(opts[k].1)
    ensures Gather(OptionLines(indent, opts), OptionOf) == opts
  {
    if opts != [] {
      OptionLineOf(indent, opts[0].0, opts[0].1);
      OptionsOfLines(indent, opts[1..]);
      assert OptionLines(indent, opts)[1..] == OptionLines(indent, opts[1..]);
      assert opts == [opts[0]] + opts[1..];
    }
  }

  /** Round trip: `parse_options` reads back every option of a group written
      with well-formed keys and values, in order. */
  lemma {:induction false} OptionsRoundTrip(indent: string, opts: seq<(string, string)>)
    requires Spaces(indent)
    requires forall k :: 0 <= k < |opts| ==> OptionKey(opts[k].0) && OptionValue(opts[k].1)
    ensures Options(OptionsText(indent, opts)) == opts
  {
    var lines := OptionLines(indent, opts);
    var text := OptionsText(indent, opts);
    if opts == [] {
      assert text == [];
    } else {
      forall k | 0 <= k < |lines| ensures lines[k] != [] && '\n' !in lines[k] {
        OptionLineShape(indent, opts[k]);
      }
      SplitRunsTerminated(lines);
      assert text == lines[0] + "\n" + Terminated(lines[1..]);
      assert text[|indent|] == ':' && !IsSpace(text[|indent|]);
      BlankIsAllSpace(text);
      OptionsOfLines(indent, opts);
      GatherAppend(lines, [""], OptionOf);
      assert Strip("") == [];
    }
  }

  // ----- parse_children -----

  /** The index of the first `name` in `rules`, or `|rules|`. */
  function Position(rules: seq<string>, name: string): (i: nat)
    ensures i <= |rules| && (i < |rules| ==> rules[i] == name) && name !in rules[..i]
  {
    if rules == [] then 0
    else if rules[0] == name then 0
    else
      var i := Position(rules[1..], name);
      assert rules[..i + 1] == [rules[0]] + rules[1..][..i];
      i + 1
  }

  /** `rules.remove('directive')` on a copy of the block rules: the first
      `'directive'` goes, the rest keep their order; without one, `remove`
      raises `ValueError` (`None` here). */
  function ChildRules(rules: seq<string>): (r: Option<seq<string>>)
    ensures r.None? <==> "directive" !in rules
    ensures r.Some? ==> |r.value| + 1 == |rules| && multiset(r.value) + multiset{"directive"} == multiset(rules)
    ensures r.Some? ==> exists i :: 0 <= i < |rules| && rules[i] == "directive" && "directive" !in rules[..i] &&
                                    r.value == rules[..i] + rules[i + 1..]
  {
    var i := Position(rules, "directive");
    if i == |rules| then
      assert rules[..i] == rules;
      None
    else
      assert rules == rules[..i] + [rules[i]] + rules[i + 1..];
      Some(rules[..i] + rules[i + 1..])
  }

  /** When `directive` is registered once, the child state has no
      `directive` rule (a directive's content holds no directive) and every
      other rule. */
  lemma ChildRulesNoDirective(rules: seq<string>)
    requires multiset(rules)["directive"] == 1
    ensures ChildRules(rules).Some?
    ensures "directive" !in ChildRules(rules).value
    ensures forall name :: name != "directive" ==> (name in rules <==> name in ChildRules(rules).value)
  {
    var r := ChildRules(rules).value;
    assert multiset(r)["directive"] == 0;
    forall name | name != "directive" ensures name in rules <==> name in r {
      assert multiset(rules)[name] == multiset(r)[name];
    }
  }

  /** Each line with its first `n` characters removed. */
  function DropEach(lines: seq<string>, n: nat): (r: seq<string>)
    ensures |r| == |lines|
    ensures forall k :: 0 <= k < |lines| ==> r[k] == Drop(lines[k], n)
  {
    if lines == [] then [] else [Drop(lines[0], n)] + DropEach(lines[1..], n)
  }

  /** `'\n'.join(line[n:] for line in text.splitlines()) + '\n'`: the lines
      of `text`, each without its first `n` characters (a shorter line
      becomes empty), one per newline; an empty `text` becomes a single
      newline. */
  function Dedent(text: string, n: nat): (r: string)
    ensures r != [] && r[|r| - 1] == '\n'
    ensures text == [] ==> r == "\n"
    ensures text != [] ==> SplitLines(r) == DropEach(SplitLines(text), n)
    ensures Count(r, '\n') == if text == [] then 1 else |SplitLines(text)|
  {
    var r := Join("\n", DropEach(SplitLines(text), n)) + "\n";
    DedentShape(text, n, r);
    r
  }

  /** The lines of the dedented text `r`, and its newlines. */
  lemma {:induction false} DedentShape(text: string, n: nat, r: string)
    requires r == Join("\n", DropEach(SplitLines(text), n)) + "\n"
    ensures text == [] ==> r == "\n"
    ensures text != [] ==> SplitLines(r) == DropEach(SplitLines(text), n)
    ensures Count(r, '\n') == if text == [] then 1 else |SplitLines(text)|
  {
    var lines := SplitLines(text);
    var parts := DropEach(lines, n);
    if text == [] {
      assert r == "\n";
      assert Count("\n", '\n') == 1;
    } else {
      forall k | 0 <= k < |parts| ensures NoLineBoundary(parts[k]) && '\n' !in parts[k] {
        assert NoLineBoundary(lines[k]);
        if n <= |lines[k]| {
          forall i | 0 <= i < |parts[k]| ensures !IsLineBoundary(parts[k][i]) {
            assert parts[k][i] == lines[k][n + i];
          }
        }
        assert forall i :: 0 <= i < |parts[k]| ==> parts[k][i] != '\n';
      }
      JoinTerminated(parts);
      SplitLinesTerminated(parts);
      TerminatedCount(parts);
    }
  }

  /** The text of the child state: the content dedented by the directive's
      indentation plus two, `len(m.group(1)) + 2` characters. */
  function ChildText(m: DirectiveMatch): string
  {
    Dedent(m.text, |m.indent| + 2)
  }

  /** `start_line`, the line the child state starts at, computed as meant:
      `state.line` plus the newlines of the match before its content. */
  function StartLine(line: nat, m: DirectiveMatch): (r: nat)
    ensures r + Count(m.text, '\n') == line + Count(Full(m), '\n')
    ensures r >= line + Count(Head(m), '\n')
  {
    var full := Full(m);
    assert full[..|full| - |m.text|] == Head(m) + m.options;
    CountAppend(Head(m) + m.options, m.text, '\n');
    CountAppend(Head(m), m.options, '\n');
    line + Count(full[..|full| - |m.text|], '\n')
  }
}
