/** Two places where `mistune3/inline_parser.py` does not do what it evidently
    means to. Each is modelled as written, with an input that shows the
    difference, next to the corrected behaviour that `InlineModel` uses. */
module InlineFindings {
  import opened Tokens
  import opened Externals
  import opened Scanner
  import opened InlineModel
  import opened InlineProperties

  // ----- 1. an unclosed long run of `_` loses its first characters -----

  /** `parse_emphasis` as written, once the search for the closing marker
      gave `close`: without a closer it records `marker`, which for a run of
      more than three characters has already been cut down to its last three. */
  function EmphasisAfterAsWritten(c: Config, env: map<string, LinkAttrs>, src: string, m: Match, hole: nat,
                                  close: Option<nat>, f: Flags): (st: Step)
    requires m.start + hole < m.end <= |src|
    requires close.Some? ==> m.end <= close.value && close.value + (m.end - m.start - hole) <= |src|
    ensures close.Some? ==> st == EmphasisAfter(c, env, src, m, hole, close, f)
    ensures close.None? ==> Accepts(st, [Text(c.ext.safeEntity(src[m.start + hole..m.end]))], f, m.end)
  {
    match close
    case None => Record(c.ext, m.end, src[m.start + hole..m.end], f)
    case Some(k) => EmphasisClosed(c, env, src, m, hole, k, f)
  }

  /** As written, an unclosed run with a hole records only the characters
      after the hole, and the cursor still moves past the whole run: the
      hole is in no token. The corrected handler records the whole run. */
  lemma UnclosedRunAsWritten(c: Config, env: map<string, LinkAttrs>, src: string, m: Match, hole: nat, f: Flags)
    requires 0 < hole && m.start + hole < m.end <= |src|
    ensures var written := EmphasisAfterAsWritten(c, env, src, m, hole, None, f);
      var fixed := EmphasisAfter(c, env, src, m, hole, None, f);
      && written.next == fixed.next
      && written.out == [Text(c.ext.safeEntity(src[m.start + hole..m.end]))]
      && fixed.out == [Text(c.ext.safeEntity(src[m.start..m.start + hole] + src[m.start + hole..m.end]))]
  {
    assert src[m.start..m.end] == src[m.start..m.start + hole] + src[m.start + hole..m.end];
  }

  /** The input `____a`: `\b_{1,}` matches the four underscores, no closing
      `___` follows, so the source records `___` and resumes at `a`; the
      first underscore is lost. The corrected handler keeps all four. */
  lemma UnclosedRunExample(c: Config, env: map<string, LinkAttrs>)
    ensures var src := "____a";
      var m := Match(EmphasisRule, 0, 4);
      && EmphCloseFrom(c.ext, src, 4, src[1..4], 5).None?
      && EmphasisStep(c, env, src, m, NoFlags) == EmphasisBody(c, env, src, m, 1, NoFlags)
      && Accepts(EmphasisAfterAsWritten(c, env, src, m, 1, None, NoFlags), [Text(c.ext.safeEntity("___"))], NoFlags, 4)
      && Accepts(EmphasisStep(c, env, src, m, NoFlags), [Text(c.ext.safeEntity("____"))], NoFlags, 4)
  {
    var src := "____a";
    var m := Match(EmphasisRule, 0, 4);
    assert src[1..4] == "___" && src[0..4] == "____";
    UnterminatedEmphasis(c, env, src, m, 1, NoFlags);
  }

  // ----- 2. an e-mail link inside emphasis or link text raises -----

  /** What a call does in the source: returns a step, or raises. */
  datatype Outcome = Returned(st: Step) | Raised

  /** `func(m, state, pos + len(text))` of `_precedence_scan` as written:
      `parse_auto_email` takes no `prec_pos`, so the call with three
      arguments raises `TypeError`; the other three handlers accept it. */
  function InnerAsWritten(x: Ext, src: string, m: Match, prec: nat, f: Flags): (o: Outcome)
    requires m.start < m.end <= |src| && PrecedenceRule(m.rule)
    ensures o.Raised? <==> m.rule.AutoEmailRule?
    ensures o.Returned? ==> o.st == InnerStep(x, src, m, prec, f)
  {
    if m.rule.AutoEmailRule? then Raised else Returned(InnerStep(x, src, m, prec, f))
  }

  /** `_precedence_scan` as written. */
  function PrecedenceAsWritten(c: Config, src: string, marker: string, pos: nat, end: nat, f: Flags): Outcome
    requires pos <= end <= |src|
  {
    match ProbeSearch(c.ext, src[pos..end], 0)
    case None => Returned(Decline(f))
    case Some(q) =>
      ProbeLead(c.ext, src[pos..end], q);
      match MatchAt(c, Rules(c.hardWrap), src, pos + q)
      case None => Returned(Decline(f))
      case Some(m) =>
        MatchAtLead(c, Rules(c.hardWrap), src, pos + q);
        match InnerAsWritten(c.ext, src, m, end, f)
        case Raised => Raised
        case Returned(inner) =>
          Returned(if inner.next.None? then Decline(f)
                   else Step([Text(marker + src[pos..pos + q])] + inner.out, inner.flags, inner.next))
  }

  /** The scan as written raises exactly when the construct it found is an
      e-mail link, and otherwise did what the corrected scan does. */
  lemma PrecedenceAsWrittenAgrees(c: Config, src: string, marker: string, pos: nat, end: nat, f: Flags)
    requires pos <= end <= |src|
    ensures var o := PrecedenceAsWritten(c, src, marker, pos, end, f);
      && (o.Raised? <==>
           ProbeSearch(c.ext, src[pos..end], 0).Some? &&
           MatchAt(c, Rules(c.hardWrap), src, pos + ProbeSearch(c.ext, src[pos..end], 0).value).Some? &&
           MatchAt(c, Rules(c.hardWrap), src, pos + ProbeSearch(c.ext, src[pos..end], 0).value).value.rule.AutoEmailRule?)
      && (o.Returned? ==> o.st.next == PrecedenceStep(c, src, marker, pos, end, f).next)
  {
    match ProbeSearch(c.ext, src[pos..end], 0) {
      case None =>
      case Some(q) =>
        ProbeLead(c.ext, src[pos..end], q);
        MatchAtLead(c, Rules(c.hardWrap), src, pos + q);
    }
  }

  /** The input `*x <ab@c.de> y*`, with helpers that agree with the source's
      patterns there: `prec_inline_html` matches `<ab` in the emphasis text,
      the scanner then matches `<ab@c.de>` as `auto_email` (and not as
      `auto_link`, which needs a colon). The scan as written raises; the
      corrected scan declines, since the e-mail link ends inside the text. */
  lemma EmailInEmphasisExample(c: Config)
    requires c.ext.precInlineHtml("x <ab@c.de> y", 2) == Some(5)
    requires c.ext.autoLink("*x <ab@c.de> y*", 3).None?
    requires c.ext.autoEmail("*x <ab@c.de> y*", 3) == Some(12)
    ensures PrecedenceAsWritten(c, "*x <ab@c.de> y*", "*", 1, 14, NoFlags).Raised?
    ensures PrecedenceStep(c, "*x <ab@c.de> y*", "*", 1, 14, NoFlags).next.None?
  {
    var src := "*x <ab@c.de> y*";
    var text := src[1..14];
    assert text == "x <ab@c.de> y";
    assert !ProbeAt(c.ext, text, 0) && !ProbeAt(c.ext, text, 1) && ProbeAt(c.ext, text, 2);
    assert ProbeSearch(c.ext, text, 0) == Some(2);
    var rs := Rules(c.hardWrap);
    assert rs[..6] == [EscapeRule, CodespanRule, EmphasisRule, LinkRule, AutoLinkRule, AutoEmailRule];
    assert RuleEnd(c, EscapeRule, src, 3).None? && RuleEnd(c, CodespanRule, src, 3).None?;
    assert RuleEnd(c, EmphasisRule, src, 3).None? && RuleEnd(c, LinkRule, src, 3).None?;
    assert RuleEnd(c, AutoLinkRule, src, 3).None? && RuleEnd(c, AutoEmailRule, src, 3) == Some(12);
    assert FirstHit(c, rs, src, 3, 5) == 5;
    assert FirstHit(c, rs, src, 3, 4) == 5;
    assert FirstHit(c, rs, src, 3, 3) == 5;
    assert FirstHit(c, rs, src, 3, 2) == 5;
    assert FirstHit(c, rs, src, 3, 1) == 5;
    assert FirstHit(c, rs, src, 3, 0) == 5;
    assert MatchAt(c, rs, src, 3) == Some(Match(AutoEmailRule, 3, 12));
  }
}
