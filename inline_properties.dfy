/** What the inline parser promises, stated over `InlineModel`: the text
    between matches in document order, the one-character fallback, the code
    span, emphasis and link rules, the precedence scan and the rule set of a
    parser built with `hard_wrap`. */
module InlineProperties {
  import opened Tokens
  import opened PyText
  import opened Externals
  import opened Scanner
  import opened InlineModel

  /** `st` accepts: it adds `out`, leaves the flags `f` and resumes at `e`. */
  predicate Accepts(st: Step, out: seq<Token>, f: Flags, e: nat) {
    st.next.Some? && st.next.value == e && st.out == out && st.flags == f
  }

  // ----- parse -----

  /** Text without any match is one text token, the whole of it: the special
      case of `parse` when the cursor never moved. */
  lemma {:induction false} PlainTextIsOneToken(c: Config, env: map<string, LinkAttrs>, src: string, f: Flags)
    requires forall q :: 0 <= q < |src| ==> MatchAt(c, Rules(c.hardWrap), src, q).None?
    ensures ParseRun(c, env, src, 0, f).tokens == [Text(c.ext.safeEntity(src))]
    ensures ParseRun(c, env, src, 0, f).flags == f
  {
    SearchNone(c, Rules(c.hardWrap), src, 0);
  }

  /** After the last match the unconsumed rest of the text is one trailing
      text token, and nothing is added once the cursor reached the end. */
  lemma TrailingText(c: Config, env: map<string, LinkAttrs>, src: string, pos: nat, f: Flags)
    requires 0 < pos && (pos >= |src| || Search(c, Rules(c.hardWrap), src, pos).None?)
    ensures pos < |src| ==> ParseRun(c, env, src, pos, f).tokens == [Text(c.ext.safeEntity(src[pos..]))]
    ensures pos >= |src| ==> ParseRun(c, env, src, pos, f).tokens == []
    ensures ParseRun(c, env, src, pos, f).flags == f
  {
  }

  /** The text between the cursor and the next match is one text token in
      front of everything the match produces, and no position in between
      has a match. */
  lemma GapComesFirst(c: Config, env: map<string, LinkAttrs>, src: string, pos: nat, f: Flags, m: Match)
    requires pos < |src| && Search(c, Rules(c.hardWrap), src, pos) == Some(m) && pos < m.start
    ensures ParseRun(c, env, src, pos, f).tokens[0] == Text(c.ext.safeEntity(src[pos..m.start]))
    ensures forall q :: pos <= q < m.start ==> MatchAt(c, Rules(c.hardWrap), src, q).None?
  {
    var st := HandlerStep(c, env, src, m, f);
    ParseRunAt(c, env, src, pos, f, m, st, if st.next.None? then m.start + 1 else st.next.value);
    SearchEarliest(c, Rules(c.hardWrap), src, pos);
  }

  /** A handler that declines leaves one character of text at the start of
      its match, and `parse` carries on right after that character with the
      flags unchanged. */
  lemma DeclineKeepsOneChar(c: Config, env: map<string, LinkAttrs>, src: string, pos: nat, f: Flags, m: Match)
    requires pos < |src| && Search(c, Rules(c.hardWrap), src, pos) == Some(m)
    requires HandlerStep(c, env, src, m, f).next.None?
    ensures ParseRun(c, env, src, pos, f).tokens
      == Gap(c.ext, src, pos, m.start) + [Text(c.ext.safeEntity(src[m.start..m.start + 1]))]
         + ParseRun(c, env, src, m.start + 1, f).tokens
    ensures ParseRun(c, env, src, pos, f).flags == ParseRun(c, env, src, m.start + 1, f).flags
  {
    var st := HandlerStep(c, env, src, m, f);
    ParseRunAt(c, env, src, pos, f, m, st, m.start + 1);
    var one := [Text(c.ext.safeEntity(src[m.start..m.start + 1]))];
    assert st.out == [] && st.flags == f;
    assert Fill(c.ext, src, m.start, st.next) == one;
    assert Gap(c.ext, src, pos, m.start) + st.out + one == Gap(c.ext, src, pos, m.start) + one;
  }

  /** A handler that accepts resumes `parse` at the position it returned,
      which is past the start of its match. */
  lemma AcceptResumes(c: Config, env: map<string, LinkAttrs>, src: string, pos: nat, f: Flags, m: Match)
    requires pos < |src| && Search(c, Rules(c.hardWrap), src, pos) == Some(m)
    requires HandlerStep(c, env, src, m, f).next.Some?
    ensures var st := HandlerStep(c, env, src, m, f);
      m.start < st.next.value &&
      ParseRun(c, env, src, pos, f).tokens
        == Gap(c.ext, src, pos, m.start) + st.out + ParseRun(c, env, src, st.next.value, st.flags).tokens
  {
    var st := HandlerStep(c, env, src, m, f);
    ParseRunAt(c, env, src, pos, f, m, st, st.next.value);
    assert Gap(c.ext, src, pos, m.start) + st.out + [] == Gap(c.ext, src, pos, m.start) + st.out;
  }

  // ----- escape -----

  /** An escape match that `parse` finds covers a whole run of escapes: it
      starts with a backslash, it is an even number of characters long, and
      no further escape follows it. `parse_escape` records its unescaped text
      as one text token, keeps the flags and resumes at its end. */
  lemma EscapeOutput(c: Config, env: map<string, LinkAttrs>, src: string, pos: nat, f: Flags, m: Match)
    requires Search(c, Rules(c.hardWrap), src, pos) == Some(m) && m.rule == EscapeRule
    ensures src[m.start] == '\\' && (m.end - m.start) % 2 == 0
    ensures !(m.end + 1 < |src| && src[m.end] == '\\' && c.ext.isPunct(src[m.end + 1]))
    ensures Accepts(HandlerStep(c, env, src, m, f), [Text(c.ext.safeEntity(c.ext.unescapeChar(src[m.start..m.end])))], f, m.end)
  {
    SearchEarliest(c, Rules(c.hardWrap), src, pos);
    MatchAtFirst(c, Rules(c.hardWrap), src, m.start);
    EscapeRun(c.ext, src, m.start);
  }

  // ----- hard_wrap -----

  /** Under `hard_wrap` the scanner never reports a `softbreak`; otherwise
      `softbreak` is the last rule, tried only after every other one failed. */
  lemma HardWrapRules(c: Config, s: string, p: nat)
    ensures c.hardWrap && Search(c, Rules(c.hardWrap), s, p).Some? ==>
      Search(c, Rules(c.hardWrap), s, p).value.rule != SoftbreakRule
    ensures (!c.hardWrap && MatchAt(c, Rules(c.hardWrap), s, p).Some? &&
             MatchAt(c, Rules(c.hardWrap), s, p).value.rule == SoftbreakRule) ==>
      forall r :: r in DefaultRules ==> RuleEnd(c, r, s, p).None?
  {
    var rs := Rules(c.hardWrap);
    SearchEarliest(c, rs, s, p);
    if Search(c, rs, s, p).Some? {
      MatchAtFirst(c, rs, s, Search(c, rs, s, p).value.start);
    }
    MatchAtFirst(c, rs, s, p);
    if !c.hardWrap && MatchAt(c, rs, s, p).Some? && MatchAt(c, rs, s, p).value.rule == SoftbreakRule {
      var j :| 0 <= j < |rs| && rs[j] == SoftbreakRule && forall k :: 0 <= k < j ==> RuleEnd(c, rs[k], s, p).None?;
      assert j == 8;
      forall r | r in DefaultRules
        ensures RuleEnd(c, r, s, p).None?
      {
        var k :| 0 <= k < 8 && DefaultRules[k] == r;
        assert rs[k] == r;
      }
    }
  }

  // ----- codespan -----

  /** `parse_codespan` outside a precedence scan, when the closing run is
      at `k`: the code span of the non-empty content between the runs,
      normalised as `CodeText` says, and the cursor moves past the closing
      run. The closing run is the earliest one (`CodeCloseFirst`). */
  lemma CodespanCloses(x: Ext, src: string, m: Match, f: Flags, k: nat)
    requires m.start < m.end < k && k + (m.end - m.start) <= |src|
    ensures Accepts(CodespanClose(x, src, m, Some(k), None, f),
                    [Codespan(x.escape(CodeText(src[m.end..k])))], f, k + (m.end - m.start))
  {
  }

  /** The closing run has exactly as many backticks as the opening run: it
      follows a non-backtick and is not followed by a backtick. */
  lemma ClosingRunExact(src: string, m: Match, k: nat)
    requires m.start < m.end <= |src| && m.end == RunEnd(src, m.start, '`')
    requires CodeClosesAt(src, m.end, src[m.start..m.end], k)
    ensures var n := m.end - m.start;
      && src[k - 1] != '`' && (forall i :: k <= i < k + n ==> src[i] == '`')
      && (k + n == |src| || src[k + n] != '`')
  {
    var marker := src[m.start..m.end];
    var n := m.end - m.start;
    assert src[k..k + n] == marker;
    RunEndAll(src, m.start, '`');
    forall i | k <= i < k + n
      ensures src[i] == '`'
    {
      assert src[i] == src[k..k + n][i - k] == marker[i - k] == src[m.start + (i - k)];
    }
  }

  /** Without a closing run the marker is text and the cursor moves past it. */
  lemma CodespanUnclosed(x: Ext, src: string, m: Match, f: Flags)
    requires m.start < m.end <= |src|
    ensures Accepts(CodespanClose(x, src, m, None, None, f), [Text(x.safeEntity(src[m.start..m.end]))], f, m.end)
  {
  }

  /** Called from the precedence scan, `parse_codespan` declines an opening
      run without a closing one, and a span closed at `k` exactly when it
      ends before `prec_pos`. */
  lemma CodespanUnderPrecedence(x: Ext, src: string, m: Match, prec: nat, f: Flags, close: Option<nat>)
    requires m.start < m.end <= |src|
    requires close.Some? ==> m.end < close.value && close.value + (m.end - m.start) <= |src|
    ensures close.None? ==> CodespanClose(x, src, m, close, Some(prec), f).next.None?
    ensures close.Some? ==>
      (CodespanClose(x, src, m, close, Some(prec), f).next.None? <==> prec > close.value + (m.end - m.start))
  {
  }

  // ----- emphasis -----

  /** A marker run refused by the nesting flags is text, and the cursor
      moves past the whole run. */
  lemma EmphasisRefused(c: Config, env: map<string, LinkAttrs>, src: string, m: Match, f: Flags)
    requires m.start < m.end <= |src| && Refused(m.end - m.start, f)
    ensures Accepts(EmphasisStep(c, env, src, m, f), [Text(c.ext.safeEntity(src[m.start..m.end]))], f, m.end)
  {
  }

  /** An accepted run of more than three markers keeps all but its last
      three characters as a hole and goes on as a three-character marker. */
  lemma LongRunHole(c: Config, env: map<string, LinkAttrs>, src: string, m: Match, f: Flags)
    requires m.start < m.end <= |src| && m.end - m.start > 3 && !Refused(m.end - m.start, f)
    ensures var hole := m.end - m.start - 3;
      EmphasisStep(c, env, src, m, f) == EmphasisBody(c, env, src, m, hole, f) &&
      |src[m.start + hole..m.end]| == 3 &&
      !f.inEmphasis && !f.inStrong
  {
  }

  /** Without a closing marker the run is text and the cursor moves past it. */
  lemma UnterminatedEmphasis(c: Config, env: map<string, LinkAttrs>, src: string, m: Match, hole: nat, f: Flags)
    requires m.start + hole < m.end <= |src|
    requires EmphCloseFrom(c.ext, src, m.end, src[m.start + hole..m.end], m.end + 1).None?
    ensures Accepts(EmphasisBody(c, env, src, m, hole, f), [Text(c.ext.safeEntity(src[m.start..m.end]))], f, m.end)
  {
  }

  /** An emphasis closed at `k` that the precedence scan leaves alone: the
      hole as text, then the emphasis token of `src[m.end..k]`; the flags of
      the state are unchanged and the cursor moves past the closing marker. */
  lemma EmphasisOutput(c: Config, env: map<string, LinkAttrs>, src: string, m: Match, hole: nat, k: nat, f: Flags)
    requires m.start + hole < m.end <= k && k + (m.end - m.start - hole) <= |src|
    requires PrecedenceStep(c, src, src[m.start + hole..m.end], m.end, k, f).next.None?
    ensures var n := m.end - m.start - hole;
      Accepts(EmphasisClosed(c, env, src, m, hole, k, f), HoleOut(c.ext, src, m, hole) + [EmphasisToken(c, env, src[m.end..k], n, f)], f, k + n)
  {
  }

  /** The closing marker found is the earliest candidate: it ends the
      enclosed text with a character that is neither whitespace nor the
      marker's own, and under `_` it is followed by a word boundary. */
  lemma EmphasisCloser(x: Ext, src: string, from: nat, marker: string)
    requires marker != []
    ensures var close := EmphCloseFrom(x, src, from, marker, from + 1);
      close.Some? ==>
        && from < close.value && close.value + |marker| <= |src|
        && src[close.value..close.value + |marker|] == marker
        && !IsSpace(src[close.value - 1]) && src[close.value - 1] != marker[0]
        && (marker[0] == '_' ==> Boundary(x, src, close.value + |marker|))
        && forall j :: from < j < close.value ==> !EmphClosesAt(x, src, from, marker, j)
  {
    EmphCloseFirst(x, src, from, marker, from + 1);
  }

  // ----- precedence scan -----

  /** `_precedence_scan` gives nothing when the probe finds nothing in the
      piece ... */
  lemma PrecedenceNoProbe(c: Config, src: string, marker: string, pos: nat, end: nat, f: Flags)
    requires pos <= end <= |src| && ProbeSearch(c.ext, src[pos..end], 0).None?
    ensures PrecedenceStep(c, src, marker, pos, end, f).next.None?
  {
  }

  /** ... or when the full scanner does not match where the probe hit ... */
  lemma PrecedenceNoMatch(c: Config, src: string, marker: string, pos: nat, end: nat, f: Flags, q: nat)
    requires pos <= end <= |src| && ProbeSearch(c.ext, src[pos..end], 0) == Some(q)
    requires MatchAt(c, Rules(c.hardWrap), src, pos + q).None?
    ensures PrecedenceStep(c, src, marker, pos, end, f).next.None?
  {
  }

  /** ... and otherwise calls the handler of the construct found, with the
      end of the piece as `prec_pos`: when it accepts, the marker and the
      text before the construct become one text token in front of the
      handler's token, and the scan returns the handler's end. */
  lemma PrecedenceHit(c: Config, src: string, marker: string, pos: nat, end: nat, f: Flags, q: nat, m: Match)
    requires pos <= end <= |src| && ProbeSearch(c.ext, src[pos..end], 0) == Some(q)
    requires MatchAt(c, Rules(c.hardWrap), src, pos + q) == Some(m)
    ensures PrecedenceRule(m.rule) && pos + q < end && m.start == pos + q
    ensures var inner := InnerStep(c.ext, src, m, end, f);
      var st := PrecedenceStep(c, src, marker, pos, end, f);
      && (inner.next.None? ==> st.next.None?)
      && (inner.next.Some? ==> st.next == inner.next && st.flags == inner.flags &&
                               st.out == [Text(marker + src[pos..pos + q])] + inner.out)
  {
    ProbeLead(c.ext, src[pos..end], q);
    MatchAtLead(c, Rules(c.hardWrap), src, pos + q);
  }

  /** A precedence scan that accepts ends past the piece it scanned: the
      construct it found runs out of the emphasis or link text. */
  lemma PrecedenceRunsOut(c: Config, src: string, marker: string, pos: nat, end: nat, f: Flags)
    requires pos <= end <= |src| && PrecedenceStep(c, src, marker, pos, end, f).next.Some?
    ensures end <= PrecedenceStep(c, src, marker, pos, end, f).next.value
    ensures |PrecedenceStep(c, src, marker, pos, end, f).out| == 2
  {
    match ProbeSearch(c.ext, src[pos..end], 0) {
      case None =>
      case Some(q) =>
        ProbeLead(c.ext, src[pos..end], q);
        MatchAtLead(c, Rules(c.hardWrap), src, pos + q);
    }
  }

  // ----- links -----

  /** A link start inside a link, or an image start inside an image, is
      text, and the cursor moves past the marker. */
  lemma LinkNestingRefused(c: Config, env: map<string, LinkAttrs>, src: string, m: Match, f: Flags)
    requires m.start < m.end <= |src|
    requires var isImage := src[m.start] == '!'; (isImage && f.inImage) || (!isImage && f.inLink)
    ensures Accepts(LinkStep(c, env, src, m, f), [Text(src[m.start..m.end])], f, m.end)
  {
  }

  /** A reference link is made only from a label present in `ref_links`: with
      no label, or a label whose key is missing, nothing is added. */
  lemma ReferenceNeedsKey(c: Config, env: map<string, LinkAttrs>, src: string, isImage: bool, text: string,
                          lab: Option<string>, endPos: nat, f: Flags)
    requires |text| < endPos <= |src|
    ensures var ref := if endPos < |src| && src[endPos] == '[' then LinkLabelAt(c.ext, src, endPos + 1) else None;
      var key := if ref.Some? && ref.value.0 != [] then Some(ref.value.0) else lab;
      var st := LinkRef(c, env, src, isImage, text, lab, endPos, f);
      (key.None? || c.ext.unikey(key.value) !in env ==> st.next.None?) &&
      (key.Some? && c.ext.unikey(key.value) in env ==>
        Accepts(st, [LinkToken(c, env, isImage, text, env[c.ext.unikey(key.value)], f)], f,
                if ref.Some? then ref.value.1 else endPos))
  {
  }

  /** A shortcut reference `[label]` followed by neither `(` nor `[` is a link
      to the entry of its own label, ending right after the bracket. */
  lemma ShortcutReference(c: Config, env: map<string, LinkAttrs>, src: string, isImage: bool, text: string,
                          l: string, endPos: nat, f: Flags)
    requires |text| < endPos <= |src|
    requires endPos == |src| || (src[endPos] != '(' && src[endPos] != '[')
    requires c.ext.unikey(l) in env
    ensures Accepts(LinkTail(c, env, src, isImage, text, Some(l), endPos, f),
                    [LinkToken(c, env, isImage, text, env[c.ext.unikey(l)], f)], f, endPos)
  {
  }

  /** An inline destination `(...)` that `_parse_std_link` accepts gives the
      link with its attributes, and the cursor moves past the parenthesis. */
  lemma InlineDestination(c: Config, env: map<string, LinkAttrs>, src: string, isImage: bool, text: string,
                          lab: Option<string>, endPos: nat, f: Flags)
    requires |text| < endPos < |src| && src[endPos] == '('
    requires ParseStdLink(c.ext, src, endPos + 1).Some?
    ensures var std := ParseStdLink(c.ext, src, endPos + 1).value;
      Accepts(LinkTail(c, env, src, isImage, text, lab, endPos, f), [LinkToken(c, env, isImage, text, std.0, f)], f, std.1)
  {
  }

  /** `_parse_std_link`: the url is the unescaped, url-escaped destination;
      the title is kept, entity-escaped, exactly when it was read and is not
      empty; the closing parenthesis follows the title (or the destination)
      after whitespace only. */
  lemma StdLinkParts(x: Ext, src: string, pos: nat)
    requires pos <= |src|
    ensures ParseStdLink(x, src, pos).Some? ==>
      var (attrs, e) := ParseStdLink(x, src, pos).value;
      var (href, hrefPos) := LinkHrefAt(x, src, pos).value;
      var title := LinkTitleAt(x, src, hrefPos, |src|);
      var nextPos := if title.Some? && title.value.1 != 0 then title.value.1 else hrefPos;
      && attrs.url == x.escapeUrl(x.unescapeChar(href))
      && (attrs.title.Some? <==> title.Some? && title.value.0 != [])
      && (attrs.title.Some? ==> attrs.title.value == x.safeEntity(title.value.0))
      && nextPos < e && src[e - 1] == ')' && AllSpace(src[nextPos..e - 1])
  {
    if LinkHrefAt(x, src, pos).Some? {
      var (href, hrefPos) := LinkHrefAt(x, src, pos).value;
      var title := LinkTitleAt(x, src, hrefPos, |src|);
      var nextPos := if title.Some? && title.value.1 != 0 then title.value.1 else hrefPos;
      ParenEndSpaces(src, nextPos);
    }
  }

  // ----- auto links and inline HTML -----

  /** `parse_auto_link`: inside a link the match is text; otherwise a link
      whose url and text are the match without its angle brackets. */
  lemma AutoLinkOutput(x: Ext, src: string, m: Match, f: Flags)
    requires m.start < m.end <= |src|
    ensures var text := src[m.start..m.end];
      var st := AutoLinkStep(x, src, m, None, f);
      (f.inLink ==> Accepts(st, [Text(x.safeEntity(text))], f, m.end)) &&
      (!f.inLink ==> Accepts(st, [Link([Text(x.safeEntity(Inner(text)))], LinkAttrs(x.escapeUrl(Inner(text)), None))], f, m.end))
  {
  }

  /** `parse_auto_email`: the same, with `mailto:` in front of the url. */
  lemma AutoEmailOutput(x: Ext, src: string, m: Match, f: Flags)
    requires m.start < m.end <= |src|
    ensures var text := src[m.start..m.end];
      var st := AutoEmailStep(x, src, m, None, f);
      (f.inLink ==> Accepts(st, [Text(x.safeEntity(text))], f, m.end)) &&
      (!f.inLink ==> Accepts(st, [Link([Text(x.safeEntity(Inner(text)))], LinkAttrs(x.escapeUrl("mailto:" + Inner(text)), None))], f, m.end))
  {
  }

  /** `parse_inline_html`: the raw HTML as a token; an opening anchor tag
      sets `in_link`, a closing one clears it, any other tag leaves it, and
      no other flag changes. */
  lemma InlineHtmlAnchors(src: string, m: Match, f: Flags)
    requires m.start < m.end <= |src|
    ensures var html := src[m.start..m.end];
      var st := InlineHtmlStep(src, m, None, f);
      && st.out == [InlineHtml(html)] && st.next.Some? && st.next.value == m.end
      && (OpensAnchor(html) ==> st.flags.inLink)
      && (ClosesAnchor(html) ==> !st.flags.inLink)
      && (!OpensAnchor(html) && !ClosesAnchor(html) ==> st.flags.inLink == f.inLink)
      && st.flags.(inLink := f.inLink) == f
  {
  }

  /** An anchor tag cannot both open and close. */
  lemma AnchorTagsDisjoint(html: string)
    ensures !(OpensAnchor(html) && ClosesAnchor(html))
  {
  }
}
