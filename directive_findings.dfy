/** A place where `parse_children` of `mistune3/directives/base.py` does not
    do what it evidently means to, modelled as written next to the
    corrected `DirectiveBase.StartLine`. */
module DirectiveFindings {
  import opened PyText
  import opened DirectiveBase

  /** Python's `s[:-n]`: everything but the last `n` characters, except
      that `-0` is `0`, so `s[:-0]` is empty. */
  function CutLast(s: string, n: nat): (r: string)
    ensures 0 < n <= |s| ==> r + s[|s| - n..] == s
    ensures n == 0 || n > |s| ==> r == []
  {
    if n == 0 || n > |s| then [] else s[..|s| - n]
  }

  /** `start_line` as written: `state.line` plus the newlines of
      `full_content[:-len(text)]`. */
  function StartLineAsWritten(line: nat, m: DirectiveMatch): (r: nat)
    ensures r >= line
  {
    line + Count(CutLast(Full(m), |m.text|), '\n')
  }

  /** With content the two agree; without it, the cut is empty and the
      newlines of the directive's first line and options are not counted. */
  lemma StartLineAsWrittenAgrees(line: nat, m: DirectiveMatch)
    ensures m.text != [] ==> StartLineAsWritten(line, m) == StartLine(line, m)
    ensures m.text == [] ==> StartLineAsWritten(line, m) == line
  {
    var full := Full(m);
    if m.text != [] {
      assert CutLast(full, |m.text|) == full[..|full| - |m.text|];
      assert full[..|full| - |m.text|] == Head(m) + m.options;
      CountAppend(Head(m) + m.options, m.text, '\n');
    }
  }

  /** The newlines of a directive's head are those after its first line. */
  lemma HeadCount(src: string, cursor: nat, m: DirectiveMatch)
    requires Wf(src, cursor, m)
    ensures Count(Head(m), '\n') == |m.breaks|
  {
    var first := ".." + m.indent + m.name + "::" + m.gap + m.value;
    forall i | 0 <= i < |first| ensures first[i] != '\n' {
      if 2 + |m.indent| <= i < 2 + |m.indent| + |m.name| {
        assert NameChar(m.name[i - 2 - |m.indent|]);
      }
    }
    CountAbsent(first, '\n');
    assert Head(m) == first + m.breaks;
    CountAppend(first, m.breaks, '\n');
    NewlinesCount(m.breaks);
  }

  /** The corrected start line is past the directive's first line. */
  lemma StartLineAfterHead(src: string, cursor: nat, line: nat, m: DirectiveMatch)
    requires Wf(src, cursor, m)
    ensures StartLine(line, m) >= line + |m.breaks|
  {
    HeadCount(src, cursor, m);
  }

  lemma {:induction false} NewlinesCount(s: string)
    requires Newlines(s)
    ensures Count(s, '\n') == |s|
  {
    if s != [] {
      NewlinesCount(s[1..]);
    }
  }

  /** The directive `.. note:: x` alone on the first line of the source,
      with no options and no content. */
  function NoteMatch(): DirectiveMatch {
    DirectiveMatch(" ", "note", " ", "x", "\n", "", "")
  }

  lemma NoteMatchWf()
    ensures Wf(".. note:: x\n", 0, NoteMatch())
  {
    var m := NoteMatch();
    assert NameChar('n') && NameChar('o') && NameChar('t') && NameChar('e');
    assert Full(m) == ".. note:: x\n";
  }

  /** For that directive the child state should start on line 1, the line
      after the directive, but the source starts it on line 0. */
  lemma EmptyContentExample()
    ensures Wf(".. note:: x\n", 0, NoteMatch())
    ensures StartLineAsWritten(0, NoteMatch()) == 0
    ensures StartLine(0, NoteMatch()) == 1
  {
    NoteMatchWf();
    var m := NoteMatch();
    StartLineAsWrittenAgrees(0, m);
    HeadCount(".. note:: x\n", 0, m);
    assert Full(m) == Head(m);
    assert Count(m.text, '\n') == 0;
  }
}
