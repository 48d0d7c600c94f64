/** The reStructuredText directive syntax of `mistune/directives/_rst.py`:
    the three readers `RstParser` gives the directive handlers (name, title,
    content) and the block rule `RstDirective.parse_directive`.
    `_directive_re` is not run here: a match is given by its capture groups,
    together with the predicate `Wf` that says what the pattern guarantees
    about them. That the readers return what the first line of the
    directive spells is proved against an independent left-to-right scan
    of the source, `Reading`. */
module RstDirective {
  import opened Tokens
  import opened PyText
  import opened DirectiveBase

  // ----- the match -----

  /** A match of `_directive_re`, part by part: group 1 (`indent`), `name`,
      the spaces after `::` (`gap`), `title`, the newline that ends the first
      line (`eol`, empty at the end of the source), `options`, the newlines
      before the content (`blank`) and `text`. */
  datatype RstMatch = RstMatch(indent: string, name: string, gap: string, title: string, eol: string,
                               options: string, blank: string, text: string)

  /** `m.group(0)` */
  function Full(m: RstMatch): string {
    ".." + m.indent + m.name + "::" + m.gap + m.title + m.eol + m.options + m.blank + m.text
  }

  /** Where the parts of a match at `cursor` start, and where it ends. */
  function NameAt(cursor: nat, m: RstMatch): nat { cursor + 2 + |m.indent| }
  function GapAt(cursor: nat, m: RstMatch): nat { NameAt(cursor, m) + |m.name| + 2 }
  function TitleAt(cursor: nat, m: RstMatch): nat { GapAt(cursor, m) + |m.gap| }
  function EolAt(cursor: nat, m: RstMatch): nat { TitleAt(cursor, m) + |m.title| }
  function OptionsAt(cursor: nat, m: RstMatch): nat { EolAt(cursor, m) + |m.eol| }
  function BlankAt(cursor: nat, m: RstMatch): nat { OptionsAt(cursor, m) + |m.options| }
  function TextAt(cursor: nat, m: RstMatch): nat { BlankAt(cursor, m) + |m.blank| }
  function EndAt(cursor: nat, m: RstMatch): nat { TextAt(cursor, m) + |m.text| }

  /** What `_directive_re` guarantees of a match at `cursor`: the parts lie
      one after another in the source, each of the shape of its
      sub-pattern. ` *` before the title is greedy, so a title does not
      start with a space; `(?:\n|$)` takes the newline when there is one,
      and otherwise matches only at the end of the source, where nothing
      else follows. The line structure of `options` and `text` is not part
      of it. */
  predicate Wf(src: string, cursor: nat, m: RstMatch) {
    && m.indent != [] && Spaces(m.indent)
    && m.name != [] && NameChars(m.name)
    && Spaces(m.gap)
    && '\n' !in m.title && (m.title != [] ==> m.title[0] != ' ')
    && (m.eol == "\n" || (m.eol == [] && m.options == [] && m.blank == [] && m.text == []
                          && EolAt(cursor, m) == |src|))
    && Newlines(m.blank)
    && At(src, cursor, "..") && At(src, cursor + 2, m.indent) && At(src, NameAt(cursor, m), m.name)
    && At(src, GapAt(cursor, m) - 2, "::") && At(src, GapAt(cursor, m), m.gap)
    && At(src, TitleAt(cursor, m), m.title) && At(src, EolAt(cursor, m), m.eol)
    && At(src, OptionsAt(cursor, m), m.options) && At(src, BlankAt(cursor, m), m.blank)
    && At(src, TextAt(cursor, m), m.text)
  }

  // ----- a scan of the first line -----

  /** The end of the run of name characters that starts at `p`. */
  function NameRunEnd(s: string, p: nat): (e: nat)
    decreases |s| - p
    ensures p <= e && (p <= |s| ==> e <= |s|)
    ensures e < |s| ==> !NameChar(s[e])
  {
    if p < |s| && NameChar(s[p]) then NameRunEnd(s, p + 1) else p
  }

  /** The positions a left-to-right reading of `.. name:: title` at `cursor`
      finds: the start of the name after the spaces, its end, the start of
      the title after `::` and the spaces, and the end of the line. */
  datatype Spans = Spans(nameStart: nat, nameEnd: nat, titleStart: nat, titleEnd: nat)

  function Reading(src: string, cursor: nat): (h: Spans)
    ensures cursor + 2 <= |src| ==> h.nameStart <= h.nameEnd <= |src|
    ensures h.nameEnd + 2 <= |src| ==> h.titleStart <= h.titleEnd <= |src|
  {
    var p := RunEnd(src, cursor + 2, ' ');
    var e := NameRunEnd(src, p);
    var q := RunEnd(src, e + 2, ' ');
    var t := if q <= |src| then q + IndexOf(src[q..], '\n') else q;
    Spans(p, e, q, t)
  }

  /** A run of exactly `n` characters `c` at `p`. */
  lemma {:induction false} RunEndExact(s: string, p: nat, n: nat, c: char)
    requires p + n <= |s|
    requires forall i :: p <= i < p + n ==> s[i] == c
    requires p + n < |s| ==> s[p + n] != c
    ensures RunEnd(s, p, c) == p + n
    decreases n
  {
    if n > 0 {
      RunEndExact(s, p + 1, n - 1, c);
    }
  }

  /** A run of exactly `n` name characters at `p`. */
  lemma {:induction false} NameRunEndExact(s: string, p: nat, n: nat)
    requires p + n <= |s|
    requires forall i :: p <= i < p + n ==> NameChar(s[i])
    requires p + n < |s| ==> !NameChar(s[p + n])
    ensures NameRunEnd(s, p) == p + n
    decreases n
  {
    if n > 0 {
      NameRunEndExact(s, p + 1, n - 1);
    }
  }

  /** `a` at `p` followed by `b` is `a + b` at `p`. */
  lemma AtJoin(src: string, p: nat, a: string, b: string)
    requires At(src, p, a) && At(src, p + |a|, b)
    ensures At(src, p, a + b)
  {
    assert src[p..p + |a| + |b|] == src[p..p + |a|] + src[p + |a|..p + |a| + |b|];
  }

  /** The parts up to the end of the first line spell `FirstLine(m)`. */
  function FirstLine(m: RstMatch): string {
    ".." + m.indent + m.name + "::" + m.gap + m.title + m.eol
  }

  lemma FirstLineAt(src: string, cursor: nat, m: RstMatch)
    requires At(src, cursor, "..") && At(src, cursor + 2, m.indent) && At(src, NameAt(cursor, m), m.name)
    requires At(src, GapAt(cursor, m) - 2, "::") && At(src, GapAt(cursor, m), m.gap)
    requires At(src, TitleAt(cursor, m), m.title) && At(src, EolAt(cursor, m), m.eol)
    ensures OptionsAt(cursor, m) == cursor + |FirstLine(m)| && At(src, cursor, FirstLine(m))
  {
    var t1 := ".." + m.indent;
    var t2 := t1 + m.name;
    var t3 := t2 + "::";
    var t4 := t3 + m.gap;
    var t5 := t4 + m.title;
    AtJoin(src, cursor, "..", m.indent);
    AtJoin(src, cursor, t1, m.name);
    AtJoin(src, cursor, t2, "::");
    AtJoin(src, cursor, t3, m.gap);
    AtJoin(src, cursor, t4, m.title);
    AtJoin(src, cursor, t5, m.eol);
  }

  /** The parts together spell `m.group(0)`, which ends at `EndAt`. */
  lemma FullAt(src: string, cursor: nat, m: RstMatch)
    requires Wf(src, cursor, m)
    ensures EndAt(cursor, m) == cursor + |Full(m)| && At(src, cursor, Full(m))
  {
    FirstLineAt(src, cursor, m);
    var t6 := FirstLine(m);
    var t7 := t6 + m.options;
    var t8 := t7 + m.blank;
    AtJoin(src, cursor, t6, m.options);
    AtJoin(src, cursor, t7, m.blank);
    AtJoin(src, cursor, t8, m.text);
    assert Full(m) == t8 + m.text;
  }

  /** A run of spaces at `p` that ends where `next`, a non-space, starts. */
  lemma SpacesRead(src: string, p: nat, sp: string, next: nat)
    requires At(src, p, sp) && Spaces(sp) && next == p + |sp|
    requires next < |src| ==> src[next] != ' '
    ensures RunEnd(src, p, ' ') == next
  {
    forall i | p <= i < p + |sp| ensures src[i] == ' ' {
      assert src[i] == sp[i - p];
    }
    RunEndExact(src, p, |sp|, ' ');
  }

  /** A name at `p` followed by `::`. */
  lemma NameRead(src: string, p: nat, name: string)
    requires At(src, p, name) && NameChars(name) && At(src, p + |name|, "::")
    ensures NameRunEnd(src, p) == p + |name|
  {
    assert src[p + |name|] == ':';
    forall i | p <= i < p + |name| ensures NameChar(src[i]) {
      assert src[i] == name[i - p];
    }
    NameRunEndExact(src, p, |name|);
  }

  /** A title at `p` that runs to a newline or to the end of the source. */
  lemma TitleRead(src: string, p: nat, title: string)
    requires At(src, p, title) && '\n' !in title
    requires p + |title| < |src| ==> src[p + |title|] == '\n'
    ensures p + IndexOf(src[p..], '\n') == p + |title|
  {
    var rest := src[p..];
    assert forall j :: 0 <= j < |title| ==> rest[j] == title[j];
  }

  /** `Reading` from the ends of its four steps. */
  lemma ReadingOf(src: string, cursor: nat, ns: nat, ne: nat, ts: nat, te: nat)
    requires RunEnd(src, cursor + 2, ' ') == ns && NameRunEnd(src, ns) == ne
    requires RunEnd(src, ne + 2, ' ') == ts && ts <= |src| && ts + IndexOf(src[ts..], '\n') == te
    ensures Reading(src, cursor) == Spans(ns, ne, ts, te)
  {
  }

  /** The name of a first line laid out as `..`, `indent`, `name`, `::`. */
  lemma NameSpanRead(src: string, cursor: nat, m: RstMatch)
    requires Spaces(m.indent) && m.name != [] && NameChars(m.name)
    requires At(src, cursor + 2, m.indent) && At(src, NameAt(cursor, m), m.name)
    requires At(src, GapAt(cursor, m) - 2, "::")
    ensures RunEnd(src, cursor + 2, ' ') == NameAt(cursor, m)
    ensures NameRunEnd(src, NameAt(cursor, m)) == GapAt(cursor, m) - 2
  {
    var ns := NameAt(cursor, m);
    assert src[ns] == m.name[0];
    SpacesRead(src, cursor + 2, m.indent, ns);
    NameRead(src, ns, m.name);
  }

  /** The title of a first line whose `::` is followed by `gap`, `title`,
      and a newline or the end of the source. */
  lemma TitleSpanRead(src: string, cursor: nat, m: RstMatch)
    requires Spaces(m.gap) && '\n' !in m.title && (m.title != [] ==> m.title[0] != ' ')
    requires At(src, GapAt(cursor, m), m.gap) && At(src, TitleAt(cursor, m), m.title)
    requires EolAt(cursor, m) < |src| ==> src[EolAt(cursor, m)] == '\n'
    ensures RunEnd(src, GapAt(cursor, m), ' ') == TitleAt(cursor, m)
    ensures TitleAt(cursor, m) <= |src|
    ensures TitleAt(cursor, m) + IndexOf(src[TitleAt(cursor, m)..], '\n') == EolAt(cursor, m)
  {
    var ts := TitleAt(cursor, m);
    assert ts + |m.title| == EolAt(cursor, m);
    TitleRead(src, ts, m.title);
    if m.title != [] {
      assert src[ts] == m.title[0];
    }
    SpacesRead(src, GapAt(cursor, m), m.gap, ts);
  }

  /** The scan of a first line laid out as `..`, `indent`, `name`, `::`,
      `gap`, `title`, followed by a newline or the end of the source. */
  lemma LineRead(src: string, cursor: nat, m: RstMatch)
    requires Spaces(m.indent) && m.name != [] && NameChars(m.name) && Spaces(m.gap)
    requires '\n' !in m.title && (m.title != [] ==> m.title[0] != ' ')
    requires At(src, cursor + 2, m.indent) && At(src, NameAt(cursor, m), m.name)
    requires At(src, GapAt(cursor, m) - 2, "::") && At(src, GapAt(cursor, m), m.gap)
    requires At(src, TitleAt(cursor, m), m.title)
    requires EolAt(cursor, m) < |src| ==> src[EolAt(cursor, m)] == '\n'
    ensures Reading(src, cursor) == Spans(NameAt(cursor, m), GapAt(cursor, m) - 2, TitleAt(cursor, m), EolAt(cursor, m))
  {
    NameSpanRead(src, cursor, m);
    TitleSpanRead(src, cursor, m);
    ReadingOf(src, cursor, NameAt(cursor, m), GapAt(cursor, m) - 2, TitleAt(cursor, m), EolAt(cursor, m));
  }

  /** The groups of a well-formed match are what the scan reads: the
      pattern leaves no choice in how the first line is split. */
  lemma GroupsRead(src: string, cursor: nat, m: RstMatch)
    requires Wf(src, cursor, m)
    ensures Reading(src, cursor) == Spans(NameAt(cursor, m), GapAt(cursor, m) - 2, TitleAt(cursor, m), EolAt(cursor, m))
  {
    var es := EolAt(cursor, m);
    if es < |src| {
      assert src[es] == m.eol[0];
    }
    LineRead(src, cursor, m);
  }

  /** Two matches at the same place have the same first line. */
  lemma HeadDetermined(src: string, cursor: nat, m: RstMatch, m': RstMatch)
    requires Wf(src, cursor, m) && Wf(src, cursor, m')
    ensures m.indent == m'.indent && m.name == m'.name && m.gap == m'.gap && m.title == m'.title
  {
    GroupsRead(src, cursor, m);
    GroupsRead(src, cursor, m');
  }

  // ----- the readers -----

  /** `RstParser.parse_name`: the name the first line spells, a non-empty
      run of name characters. */
  function ParseName(src: string, cursor: nat, m: RstMatch): (r: string)
    requires Wf(src, cursor, m)
    ensures r != [] && NameChars(r)
    ensures var h := Reading(src, cursor); h.nameEnd <= |src| && r == src[h.nameStart..h.nameEnd]
  {
    GroupsRead(src, cursor, m);
    m.name
  }

  /** `RstParser.parse_title`: the rest of the first line after `::` and the
      spaces that follow it, possibly empty. */
  function ParseTitle(src: string, cursor: nat, m: RstMatch): (r: string)
    requires Wf(src, cursor, m)
    ensures '\n' !in r && (r != [] ==> r[0] != ' ')
    ensures var h := Reading(src, cursor); h.titleEnd <= |src| && r == src[h.titleStart..h.titleEnd]
  {
    GroupsRead(src, cursor, m);
    m.title
  }

  /** `RstParser.parse_content`: the content dedented by the directive's
      indentation plus two, `len(m.group(1)) + 2` characters. */
  function ParseContent(m: RstMatch): string
  {
    Dedent(m.text, |m.indent| + 2)
  }

  // ----- the block rule -----

  /** What `parse_directive` does with a match: the name it hands to
      `parse_method`, and the position it returns. */
  datatype Dispatch = Dispatch(name: string, end: nat)

  /** `RstDirective.parse_directive` on the result `found` of
      `_directive_re.match(state.src, state.cursor)`: nothing without a
      match; otherwise the directive's name, and the end of the match,
      which lies past at least `..` and a one-character indent, name and
      `::`. */
  function ParseDirective(src: string, cursor: nat, found: Option<RstMatch>): (r: Option<Dispatch>)
    requires found.Some? ==> Wf(src, cursor, found.value)
    ensures r.None? <==> found.None?
    ensures r.Some? ==>
      && r.value.name == ParseName(src, cursor, found.value)
      && cursor + 6 <= r.value.end <= |src|
      && src[cursor..r.value.end] == Full(found.value)
  {
    match found
    case None => None
    case Some(m) => FullAt(src, cursor, m); Some(Dispatch(ParseName(src, cursor, m), cursor + |Full(m)|))
  }

  /** The returned position is where the next block rule starts: after the
      whole first line, whose name and title the handlers are given. */
  lemma DispatchPastHead(src: string, cursor: nat, m: RstMatch)
    requires Wf(src, cursor, m)
    ensures var d := ParseDirective(src, cursor, Some(m)).value;
      && Reading(src, cursor).titleEnd + |m.eol| <= d.end
      && (m.eol == [] ==> d.end == |src|)
  {
    GroupsRead(src, cursor, m);
    FullAt(src, cursor, m);
  }
}
