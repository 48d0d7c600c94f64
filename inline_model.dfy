/** The inline parser as functions: one function per handler of
    `InlineParser`, and `ParseRun` for `parse`. A handler takes the source, the
    match that selected it and the flags of the state, and gives back a `Step`:
    the tokens it appends, the flags it leaves and the position it returns
    (`None` when it declines the match). */
module InlineModel {
  import opened Tokens
  import opened PyText
  import opened Externals
  import opened Scanner

  datatype Step = Step(out: seq<Token>, flags: Flags, next: Option<nat>)

  /** The tokens `parse` appends to its state and the flags it leaves. */
  datatype Run = Run(tokens: seq<Token>, flags: Flags)

  /** A step that declines: nothing appended, nothing changed. */
  function Decline(f: Flags): Step { Step([], f, None) }

  /** `record_text`: one text token, and the given position. */
  function Record(x: Ext, pos: nat, text: string, f: Flags): Step {
    Step([Text(x.safeEntity(text))], f, Some(pos))
  }

  /** `s[1:-1]`: the text between the first and the last character; empty
      for a text shorter than two. */
  function Inner(s: string): (r: string)
    ensures |s| >= 2 ==> [s[0]] + r + [s[|s| - 1]] == s
    ensures |s| < 2 ==> r == []
  {
    if |s| >= 2 then s[1..|s| - 1] else []
  }

  /** The text `parse` gives after the last match: all of `src` when nothing
      was consumed, the unconsumed rest otherwise. */
  function Tail(x: Ext, src: string, pos: nat): seq<Token> {
    if pos == 0 then [Text(x.safeEntity(src))]
    else if pos < |src| then [Text(x.safeEntity(src[pos..]))]
    else []
  }

  /** `parse(src, pos, state)`: text before each match, the handler's tokens,
      one character of text when the handler declines, and the unconsumed
      tail. The handlers are the corrected ones where the source is wrong:
      an unclosed long emphasis run is kept whole, and `parse_auto_email`
      takes `prec_pos` (see `InlineFindings`). */
  function ParseRun(c: Config, env: map<string, LinkAttrs>, src: string, pos: nat, f: Flags): Run
    decreases |src|, 5, |src| - pos
  {
    if pos >= |src| then Run(Tail(c.ext, src, pos), f)
    else match Search(c, Rules(c.hardWrap), src, pos)
      case None => Run(Tail(c.ext, src, pos), f)
      case Some(m) =>
        var st := HandlerStep(c, env, src, m, f);
        var resume := if st.next.None? then m.start + 1 else st.next.value;
        var rest := ParseRun(c, env, src, resume, st.flags);
        Run(Gap(c.ext, src, pos, m.start) + st.out + Fill(c.ext, src, m.start, st.next) + rest.tokens, rest.flags)
  }

  /** The text between the previous position and a match, as a token. */
  function Gap(x: Ext, src: string, pos: nat, start: nat): (ts: seq<Token>)
    requires pos <= start <= |src|
    ensures |ts| <= 1
  {
    if start > pos then [Text(x.safeEntity(src[pos..start]))] else []
  }

  /** The one character kept as text when the handler of a match at `start`
      declines. */
  function Fill(x: Ext, src: string, start: nat, next: Option<nat>): (ts: seq<Token>)
    requires start < |src|
    ensures |ts| <= 1
  {
    if next.None? then [Text(x.safeEntity(src[start..start + 1]))] else []
  }

  /** One round of the loop of `parse`: the gap before the match, the
      handler's tokens (or one character of text when it declines), then the
      rest of the run from where the handler left off. */
  lemma ParseRunAt(c: Config, env: map<string, LinkAttrs>, src: string, pos: nat, f: Flags, m: Match,
                   st: Step, resume: nat)
    requires pos < |src| && Search(c, Rules(c.hardWrap), src, pos) == Some(m)
    requires st == HandlerStep(c, env, src, m, f)
    requires resume == if st.next.None? then m.start + 1 else st.next.value
    ensures ParseRun(c, env, src, pos, f).tokens
      == Gap(c.ext, src, pos, m.start) + st.out + Fill(c.ext, src, m.start, st.next) + ParseRun(c, env, src, resume, st.flags).tokens
    ensures ParseRun(c, env, src, pos, f).flags == ParseRun(c, env, src, resume, st.flags).flags
  {
  }

  /** `parse_method`: the handler of the matched rule. Every handler returns a
      position past the start of its match, or declines and leaves the state
      alone. */
  function HandlerStep(c: Config, env: map<string, LinkAttrs>, src: string, m: Match, f: Flags): (st: Step)
    requires m.start < m.end <= |src|
    decreases |src|, 4, 0
    ensures st.next.Some? ==> m.start < st.next.value <= |src|
    ensures st.next.None? ==> st.out == [] && st.flags == f
  {
    match m.rule
    case EscapeRule => EscapeStep(c.ext, src, m, f)
    case CodespanRule => CodespanStep(c.ext, src, m, None, f)
    case EmphasisRule => EmphasisStep(c, env, src, m, f)
    case LinkRule => LinkStep(c, env, src, m, f)
    case AutoLinkRule => AutoLinkStep(c.ext, src, m, None, f)
    case AutoEmailRule => AutoEmailStep(c.ext, src, m, None, f)
    case InlineHtmlRule => InlineHtmlStep(src, m, None, f)
    case LinebreakRule => Step([Linebreak], f, Some(m.end))
    case SoftbreakRule => Step([Softbreak], f, Some(m.end))
  }

  /** `parse_escape`: the unescaped text of the whole match. */
  function EscapeStep(x: Ext, src: string, m: Match, f: Flags): Step
    requires m.start < m.end <= |src|
  {
    Record(x, m.end, x.unescapeChar(src[m.start..m.end]), f)
  }

  /** The closing run of `parse_codespan`, `(.*?[^`])marker(?!`)` after
      `from`: it follows a non-backtick, equals the opening marker, and is
      not followed by another backtick. */
  predicate CodeClosesAt(s: string, from: nat, marker: string, k: nat) {
    && from < k && k + |marker| <= |s|
    && s[k - 1] != '`' && s[k..k + |marker|] == marker
    && (k + |marker| == |s| || s[k + |marker|] != '`')
  }

  /** The earliest closing run at or after `k` (the lazy `.*?`). */
  function CodeCloseFrom(s: string, from: nat, marker: string, k: nat): (r: Option<nat>)
    decreases |s| - k
    ensures r.Some? ==> k <= r.value && CodeClosesAt(s, from, marker, r.value)
  {
    if k + |marker| > |s| then None
    else if CodeClosesAt(s, from, marker, k) then Some(k)
    else CodeCloseFrom(s, from, marker, k + 1)
  }

  /** The closing run found is the earliest one, and none is found only
      when there is none. */
  lemma {:induction false} CodeCloseFirst(s: string, from: nat, marker: string, k: nat)
    decreases |s| - k
    ensures CodeCloseFrom(s, from, marker, k).Some? ==>
      forall j :: k <= j < CodeCloseFrom(s, from, marker, k).value ==> !CodeClosesAt(s, from, marker, j)
    ensures CodeCloseFrom(s, from, marker, k).None? ==> forall j :: k <= j ==> !CodeClosesAt(s, from, marker, j)
  {
    if k + |marker| <= |s| && !CodeClosesAt(s, from, marker, k) {
      CodeCloseFirst(s, from, marker, k + 1);
    }
  }

  /** `code.replace('\n', ' ')` */
  function NewlinesToSpaces(s: string): (r: string)
    ensures |r| == |s|
  {
    if s == [] then [] else [if s[0] == '\n' then ' ' else s[0]] + NewlinesToSpaces(s[1..])
  }

  /** Each character of `NewlinesToSpaces(s)` is the one of `s`, a newline
      turned into a space. */
  lemma {:induction false} NewlinesToSpacesAt(s: string)
    ensures forall i :: 0 <= i < |s| ==> NewlinesToSpaces(s)[i] == (if s[i] == '\n' then ' ' else s[i])
  {
    if s != [] {
      NewlinesToSpacesAt(s[1..]);
    }
  }

  /** A code span loses one space at each end when it is not blank and both
      ends are a space or a line ending. */
  predicate Padded(code: string) {
    && |code| >= 2 && !AllSpace(code)
    && (code[0] == ' ' || code[0] == '\n')
    && (code[|code| - 1] == ' ' || code[|code| - 1] == '\n')
  }

  /** The content of a code span: newlines become spaces, and a span that
      is not blank and starts and ends with a space loses one space at each
      end (`CodeTextContent`). */
  function CodeText(code: string): string
  {
    var t := NewlinesToSpaces(code);
    if |t| >= 2 && !Blank(t) && t[0] == ' ' && t[|t| - 1] == ' ' then t[1..|t| - 1] else t
  }

  /** What the content of a code span is, in terms of the raw span. */
  lemma CodeTextContent(code: string)
    ensures Padded(code) ==> |CodeText(code)| == |code| - 2
    ensures !Padded(code) ==> |CodeText(code)| == |code|
    ensures forall i :: 0 <= i < |CodeText(code)| ==>
      CodeText(code)[i] == (if code[i + (if Padded(code) then 1 else 0)] == '\n' then ' ' else code[i + (if Padded(code) then 1 else 0)])
  {
    var t := NewlinesToSpaces(code);
    NewlinesToSpacesAt(code);
    BlankIsAllSpace(t);
    assert AllSpace(t) <==> AllSpace(code);
  }

  /** `parse_codespan`. With `prec` (called from the precedence scan) it
      declines a span that ends before `prec` would have it end, and an
      opening run without a closing one. */
  function CodespanStep(x: Ext, src: string, m: Match, prec: Option<nat>, f: Flags): (st: Step)
    requires m.start < m.end <= |src|
    ensures st.next.Some? ==> m.end <= st.next.value <= |src|
    ensures prec.Some? && st.next.Some? ==> prec.value <= st.next.value
    ensures st.next.None? ==> st.out == [] && st.flags == f
  {
    CodespanClose(x, src, m, CodeCloseFrom(src, m.end, src[m.start..m.end], m.end + 1), prec, f)
  }

  /** `parse_codespan` once the search for the closing run gave `close`. */
  function CodespanClose(x: Ext, src: string, m: Match, close: Option<nat>, prec: Option<nat>, f: Flags): (st: Step)
    requires m.start < m.end <= |src|
    requires close.Some? ==> m.end < close.value && close.value + (m.end - m.start) <= |src|
    ensures st.next.Some? ==> m.end <= st.next.value <= |src|
    ensures prec.Some? && st.next.Some? ==> prec.value <= st.next.value
    ensures st.next.None? ==> st.out == [] && st.flags == f
  {
    match close
    case Some(k) =>
      var endPos := k + (m.end - m.start);
      if prec.Some? && prec.value > endPos then Decline(f)
      else Step([Codespan(x.escape(CodeText(src[m.end..k])))], f, Some(endPos))
    case None =>
      if prec.None? then Record(x, m.end, src[m.start..m.end], f) else Decline(f)
  }

  /** The link `_add_auto_link` appends. */
  function AutoLinkToken(x: Ext, url: string, text: string): Token {
    Link([Text(x.safeEntity(text))], LinkAttrs(x.escapeUrl(url), None))
  }

  /** `parse_auto_link`: inside a link the match stays text. */
  function AutoLinkStep(x: Ext, src: string, m: Match, prec: Option<nat>, f: Flags): (st: Step)
    requires m.start < m.end <= |src|
    ensures st.next.Some? ==> st.next == Some(m.end)
    ensures st.next.None? ==> st.out == [] && st.flags == f && prec.Some? && prec.value > m.end
  {
    var text := src[m.start..m.end];
    if prec.Some? && prec.value > m.end then Decline(f)
    else if f.inLink then Record(x, m.end, text, f)
    else Step([AutoLinkToken(x, Inner(text), Inner(text))], f, Some(m.end))
  }

  /** `parse_auto_email`, with the same `prec` check as `parse_auto_link`
      (see `InlineFindings` for the code as written). */
  function AutoEmailStep(x: Ext, src: string, m: Match, prec: Option<nat>, f: Flags): (st: Step)
    requires m.start < m.end <= |src|
    ensures st.next.Some? ==> st.next == Some(m.end)
    ensures st.next.None? ==> st.out == [] && st.flags == f && prec.Some? && prec.value > m.end
  {
    var text := src[m.start..m.end];
    if prec.Some? && prec.value > m.end then Decline(f)
    else if f.inLink then Record(x, m.end, text, f)
    else Step([AutoLinkToken(x, "mailto:" + Inner(text), Inner(text))], f, Some(m.end))
  }

  /** `html.startswith(('<a ', '<a>', '<A ', '<A>'))` */
  predicate OpensAnchor(html: string) {
    |html| >= 3 && html[0] == '<' && (html[1] == 'a' || html[1] == 'A') && (html[2] == ' ' || html[2] == '>')
  }

  /** `html.startswith(('</a ', '</a>', '</A ', '</A>'))` */
  predicate ClosesAnchor(html: string) {
    |html| >= 4 && html[0] == '<' && html[1] == '/' && (html[2] == 'a' || html[2] == 'A') && (html[3] == ' ' || html[3] == '>')
  }

  /** `parse_inline_html`: the raw HTML, and an anchor tag switches `in_link`
      on or off. */
  function InlineHtmlStep(src: string, m: Match, prec: Option<nat>, f: Flags): (st: Step)
    requires m.start < m.end <= |src|
    ensures st.next.Some? ==> st.next == Some(m.end)
    ensures st.next.None? ==> st.out == [] && st.flags == f && prec.Some? && prec.value > m.end
  {
    if prec.Some? && prec.value > m.end then Decline(f)
    else
      var html := src[m.start..m.end];
      var inLink := if OpensAnchor(html) then true else if ClosesAnchor(html) then false else f.inLink;
      Step([InlineHtml(html)], f.(inLink := inLink), Some(m.end))
  }

  /** The handler `_precedence_scan` calls with `prec_pos`; only these four
      rules can match at a backtick or an angle bracket. */
  function InnerStep(x: Ext, src: string, m: Match, prec: nat, f: Flags): (st: Step)
    requires m.start < m.end <= |src|
    requires PrecedenceRule(m.rule)
    ensures st.next.Some? ==> prec <= st.next.value <= |src| && m.end <= st.next.value && |st.out| == 1
    ensures st.next.None? ==> st.out == [] && st.flags == f
  {
    match m.rule
    case CodespanRule => CodespanStep(x, src, m, Some(prec), f)
    case AutoLinkRule => AutoLinkStep(x, src, m, Some(prec), f)
    case AutoEmailRule => AutoEmailStep(x, src, m, Some(prec), f)
    case InlineHtmlRule => InlineHtmlStep(src, m, Some(prec), f)
  }

  /** `_precedence_scan(marker, text, pos, state)`, where `text` is the piece
      `src[pos..end]` that an emphasis or a link would enclose. When that
      piece holds a code span, an auto link or inline HTML that runs past its
      end, the construct wins: the marker and the text before the construct
      become one text token, followed by the construct's token. The probe
      hit `q` is matched with the full scanner in the source. */
  function PrecedenceStep(c: Config, src: string, marker: string, pos: nat, end: nat, f: Flags): (st: Step)
    requires pos <= end <= |src|
    ensures st.next.Some? ==> end <= st.next.value <= |src| && pos < end
    ensures st.next.None? ==> st.out == [] && st.flags == f
  {
    match ProbeSearch(c.ext, src[pos..end], 0)
    case None => Decline(f)
    case Some(q) => PrecedenceProbe(c, src, marker, pos, end, q, f)
  }

  /** The precedence scan once the probe hit `q` of the piece: the full
      scanner is matched there. */
  function PrecedenceProbe(c: Config, src: string, marker: string, pos: nat, end: nat, q: nat, f: Flags): (st: Step)
    requires pos <= end <= |src| && ProbeAt(c.ext, src[pos..end], q)
    ensures st.next.Some? ==> end <= st.next.value <= |src| && pos < end
    ensures st.next.None? ==> st.out == [] && st.flags == f
  {
    ProbeLead(c.ext, src[pos..end], q);
    match MatchAt(c, Rules(c.hardWrap), src, pos + q)
    case None => Decline(f)
    case Some(m) =>
      MatchAtLead(c, Rules(c.hardWrap), src, pos + q);
      PrecedenceAt(c.ext, src, marker, pos, end, q, m, f)
  }

  /** The precedence scan once the full scanner has matched `m` at position
      `q` of the piece: the handler of `m` is called with `end` as
      `prec_pos`, and when it accepts, the marker and the text before the
      match go in front of its token. */
  function PrecedenceAt(x: Ext, src: string, marker: string, pos: nat, end: nat, q: nat, m: Match, f: Flags): (st: Step)
    requires pos + q <= end <= |src| && m.start < m.end <= |src|
    requires PrecedenceRule(m.rule)
    ensures st.next.Some? ==> end <= st.next.value <= |src|
    ensures st.next.Some? ==> |st.out| == 2 && st.out[0] == Text(marker + src[pos..pos + q])
    ensures st.next.None? ==> st.out == [] && st.flags == f
  {
    var inner := InnerStep(x, src, m, end, f);
    if inner.next.None? then Decline(f)
    else Step([Text(marker + src[pos..pos + q])] + inner.out, inner.flags, inner.next)
  }

  /** The closing marker of `parse_emphasis`, `(.*?[^\sC])marker` after
      `from` (C the marker's character), followed by `\b` for `_`. */
  predicate EmphClosesAt(x: Ext, s: string, from: nat, marker: string, k: nat)
    requires marker != []
  {
    && from < k && k + |marker| <= |s|
    && !IsSpace(s[k - 1]) && s[k - 1] != marker[0]
    && s[k..k + |marker|] == marker
    && (marker[0] == '_' ==> Boundary(x, s, k + |marker|))
  }

  /** The earliest closing marker at or after `k`. */
  function EmphCloseFrom(x: Ext, s: string, from: nat, marker: string, k: nat): (r: Option<nat>)
    requires marker != []
    decreases |s| - k
    ensures r.Some? ==> k <= r.value && EmphClosesAt(x, s, from, marker, r.value)
  {
    if k + |marker| > |s| then None
    else if EmphClosesAt(x, s, from, marker, k) then Some(k)
    else EmphCloseFrom(x, s, from, marker, k + 1)
  }

  /** The closing marker found is the earliest one, and none is found only
      when there is none. */
  lemma {:induction false} EmphCloseFirst(x: Ext, s: string, from: nat, marker: string, k: nat)
    requires marker != []
    decreases |s| - k
    ensures EmphCloseFrom(x, s, from, marker, k).Some? ==>
      forall j :: k <= j < EmphCloseFrom(x, s, from, marker, k).value ==> !EmphClosesAt(x, s, from, marker, j)
    ensures EmphCloseFrom(x, s, from, marker, k).None? ==> forall j :: k <= j ==> !EmphClosesAt(x, s, from, marker, j)
  {
    if k + |marker| <= |s| && !EmphClosesAt(x, s, from, marker, k) {
      EmphCloseFirst(x, s, from, marker, k + 1);
    }
  }

  /** Whether a run of `n` markers is refused by the state: a single marker
      inside emphasis, a double one inside strong, a longer-than-three run
      inside either. */
  predicate Refused(n: nat, f: Flags) {
    || (n > 3 && (f.inEmphasis || f.inStrong))
    || (n == 1 && f.inEmphasis)
    || (n == 2 && f.inStrong)
  }

  /** `parse_emphasis`. */
  function EmphasisStep(c: Config, env: map<string, LinkAttrs>, src: string, m: Match, f: Flags): (st: Step)
    requires m.start < m.end <= |src|
    decreases |src|, 3, 0
    ensures st.next.Some? && m.end <= st.next.value <= |src|
  {
    var run := src[m.start..m.end];
    if Refused(|run|, f) then Record(c.ext, m.end, run, f)
    else EmphasisBody(c, env, src, m, if |run| > 3 then |run| - 3 else 0, f)
  }

  /** The text token for the first `hole` characters of a long run. */
  function HoleOut(x: Ext, src: string, m: Match, hole: nat): seq<Token>
    requires m.start + hole <= |src|
  {
    if hole > 0 then [Text(x.safeEntity(src[m.start..m.start + hole]))] else []
  }

  /** `parse_emphasis` past the refusal checks: the first `hole` characters
      of the run are plain text, the rest is the marker to close. When no
      closing marker follows, the whole run is text: the corrected form of
      line 239, which records only the cut marker
      (`InlineFindings.EmphasisAfterAsWritten`). */
  function EmphasisBody(c: Config, env: map<string, LinkAttrs>, src: string, m: Match, hole: nat, f: Flags): (st: Step)
    requires m.start + hole < m.end <= |src|
    decreases |src|, 2, 0
    ensures st.next.Some? && m.end <= st.next.value <= |src|
  {
    EmphasisAfter(c, env, src, m, hole, EmphCloseFrom(c.ext, src, m.end, src[m.start + hole..m.end], m.end + 1), f)
  }

  /** `parse_emphasis` once the search for the closing marker gave `close`. */
  function EmphasisAfter(c: Config, env: map<string, LinkAttrs>, src: string, m: Match, hole: nat,
                         close: Option<nat>, f: Flags): (st: Step)
    requires m.start + hole < m.end <= |src|
    requires close.Some? ==> m.end <= close.value && close.value + (m.end - m.start - hole) <= |src|
    decreases |src|, 1, 1
    ensures st.next.Some? && m.end <= st.next.value <= |src|
  {
    match close
    case None => Record(c.ext, m.end, src[m.start..m.end], f)
    case Some(k) => EmphasisClosed(c, env, src, m, hole, k, f)
  }

  /** `parse_emphasis` once the closing marker is found at `k`: the hole as
      text, then the precedence scan's tokens when it wins, and the emphasis
      of `src[m.end..k]` otherwise. */
  function EmphasisClosed(c: Config, env: map<string, LinkAttrs>, src: string, m: Match, hole: nat, k: nat, f: Flags): (st: Step)
    requires m.start + hole < m.end <= k && k + (m.end - m.start - hole) <= |src|
    decreases |src|, 1, 0
    ensures st.next.Some? && m.end <= st.next.value <= |src|
  {
    var marker := src[m.start + hole..m.end];
    var pr := PrecedenceStep(c, src, marker, m.end, k, f);
    if pr.next.Some? then Step(HoleOut(c.ext, src, m, hole) + pr.out, pr.flags, pr.next)
    else Step(HoleOut(c.ext, src, m, hole) + [EmphasisToken(c, env, src[m.end..k], |marker|, f)], f, Some(k + |marker|))
  }

  /** The token of an emphasis whose marker has `n` characters: its children
      are `text` parsed with the matching flags set. */
  function EmphasisToken(c: Config, env: map<string, LinkAttrs>, text: string, n: nat, f: Flags): Token
    decreases |text|, 6, 0
  {
    if n == 1 then Emphasis(ParseRun(c, env, text, 0, f.(inEmphasis := true)).tokens)
    else if n == 2 then Strong(ParseRun(c, env, text, 0, f.(inStrong := true)).tokens)
    else Emphasis([Strong(ParseRun(c, env, text, 0, f.(inEmphasis := true, inStrong := true)).tokens)])
  }

  /** `parse_link`: refuse a link inside a link or an image inside an image,
      read the label or the bracketed text, let the precedence scan win, and
      otherwise resolve the destination. */
  function LinkStep(c: Config, env: map<string, LinkAttrs>, src: string, m: Match, f: Flags): (st: Step)
    requires m.start < m.end <= |src|
    decreases |src|, 3, 0
    ensures st.next.Some? ==> m.end <= st.next.value <= |src|
    ensures st.next.None? ==> st.out == [] && st.flags == f
  {
    var pos := m.end;
    var marker := src[m.start..m.end];
    var isImage := marker[0] == '!';
    if isImage && f.inImage then Step([Text(marker)], f, Some(pos))
    else if !isImage && f.inLink then Step([Text(marker)], f, Some(pos))
    else
      var lab := LinkLabelAt(c.ext, src, pos);
      var found := if lab.Some? then lab else LinkTextAt(c.ext, src, pos);
      if found.None? then Decline(f)
      else
        var text := found.value.0;
        var endPos := found.value.1;
        if endPos >= |src| && lab.None? then Decline(f)
        else
          LinkResolve(c, env, src, marker, isImage, pos, text, if lab.Some? then Some(lab.value.0) else None, endPos, f)
  }

  /** The rest of `parse_link` once the text is read: a code span, an auto
      link or inline HTML running out of the text wins; otherwise the
      destination decides. */
  function LinkResolve(c: Config, env: map<string, LinkAttrs>, src: string, marker: string, isImage: bool, pos: nat,
                       text: string, lab: Option<string>, endPos: nat, f: Flags): (st: Step)
    requires pos + |text| < endPos <= |src|
    decreases |src|, 2, 1
    ensures st.next.None? ==> st.out == [] && st.flags == f
  {
    var pr := PrecedenceStep(c, src, marker, pos, pos + |text|, f);
    if pr.next.Some? then pr
    else LinkTail(c, env, src, isImage, text, lab, endPos, f)
  }

  /** `LinkResolve` is the precedence scan when that accepts, and the
      destination otherwise. */
  lemma LinkResolveCases(c: Config, env: map<string, LinkAttrs>, src: string, marker: string, isImage: bool, pos: nat,
                         text: string, lab: Option<string>, endPos: nat, f: Flags)
    requires pos + |text| < endPos <= |src|
    ensures var pr := PrecedenceStep(c, src, marker, pos, pos + |text|, f);
      && (pr.next.Some? ==> LinkResolve(c, env, src, marker, isImage, pos, text, lab, endPos, f) == pr)
      && (pr.next.None? ==> LinkResolve(c, env, src, marker, isImage, pos, text, lab, endPos, f)
                              == LinkTail(c, env, src, isImage, text, lab, endPos, f))
  {
  }

  /** The end of `parse_link`: an inline destination `(...)`, or a reference
      `[label]` (an empty second label keeps the first), looked up in
      `ref_links`. */
  function LinkTail(c: Config, env: map<string, LinkAttrs>, src: string, isImage: bool, text: string,
                    lab: Option<string>, endPos: nat, f: Flags): (st: Step)
    requires |text| < endPos <= |src|
    decreases |src|, 2, 0
    ensures st.next.Some? ==> endPos <= st.next.value <= |src| && |st.out| == 1
    ensures st.next.None? ==> st.out == [] && st.flags == f
    ensures st.flags == f
  {
    var std := if endPos < |src| && src[endPos] == '(' then ParseStdLink(c.ext, src, endPos + 1) else None;
    if std.Some? then Step([LinkToken(c, env, isImage, text, std.value.0, f)], f, Some(std.value.1))
    else LinkRef(c, env, src, isImage, text, lab, endPos, f)
  }

  /** The target of the reference form: the label after `[` (or, when that
      label is empty or absent, the link text's own label `lab`), looked up
      in `ref_links` by its `unikey`; with the position after the label. */
  function RefTarget(c: Config, env: map<string, LinkAttrs>, src: string, lab: Option<string>, endPos: nat): (r: Option<(LinkAttrs, nat)>)
    requires endPos <= |src|
    ensures r.Some? ==> endPos <= r.value.1 <= |src|
  {
    var ref := if endPos < |src| && src[endPos] == '[' then LinkLabelAt(c.ext, src, endPos + 1) else None;
    var key := if ref.Some? && ref.value.0 != [] then Some(ref.value.0) else lab;
    var after := if ref.Some? then ref.value.1 else endPos;
    if key.None? || c.ext.unikey(key.value) !in env then None
    else Some((env[c.ext.unikey(key.value)], after))
  }

  /** The reference form of `parse_link`: a link to the target, or no step
      when there is none. */
  function LinkRef(c: Config, env: map<string, LinkAttrs>, src: string, isImage: bool, text: string,
                   lab: Option<string>, endPos: nat, f: Flags): (st: Step)
    requires |text| < endPos <= |src|
    decreases |src|, 1, 0
    ensures st.next.Some? ==> endPos <= st.next.value <= |src| && |st.out| == 1
    ensures st.next.None? ==> st.out == [] && st.flags == f
    ensures st.flags == f
  {
    match RefTarget(c, env, src, lab, endPos)
    case None => Decline(f)
    case Some((attrs, after)) => Step([LinkToken(c, env, isImage, text, attrs, f)], f, Some(after))
  }

  /** `_add_link_token`: the children are the link text parsed with
      `in_link` (or `in_image`) set. */
  function LinkToken(c: Config, env: map<string, LinkAttrs>, isImage: bool, text: string, attrs: LinkAttrs, f: Flags): Token
    decreases |text|, 6, 0
  {
    if isImage then Image(ParseRun(c, env, text, 0, f.(inImage := true)).tokens, attrs)
    else Link(ParseRun(c, env, text, 0, f.(inLink := true)).tokens, attrs)
  }

  /** `PAREN_END_RE.match(src, p)`: optional whitespace and `)`. */
  function ParenEnd(s: string, p: nat): (e: Option<nat>)
    requires p <= |s|
    ensures e.Some? ==> p < e.value <= |s| && s[e.value - 1] == ')'
  {
    var j := SpaceRunEnd(s, p);
    if j < |s| && s[j] == ')' then Some(j + 1) else None
  }

  /** What `ParenEnd` skips before the parenthesis is whitespace. */
  lemma ParenEndSpaces(s: string, p: nat)
    requires p <= |s|
    ensures ParenEnd(s, p).Some? ==> AllSpace(s[p..ParenEnd(s, p).value - 1])
  {
    SpaceRunEndAll(s, p);
  }

  /** `_parse_std_link(src, pos)`: the destination, an optional title, and
      the closing parenthesis. A title is kept only when it is not empty. */
  function ParseStdLink(x: Ext, src: string, pos: nat): (r: Option<(LinkAttrs, nat)>)
    requires pos <= |src|
    ensures r.Some? ==> pos < r.value.1 <= |src| && src[r.value.1 - 1] == ')'
    ensures r.Some? ==> LinkHrefAt(x, src, pos).Some?
    ensures r.Some? ==> r.value.0.url == x.escapeUrl(x.unescapeChar(LinkHrefAt(x, src, pos).value.0))
  {
    match LinkHrefAt(x, src, pos)
    case None => None
    case Some((href, hrefPos)) =>
      var title := LinkTitleAt(x, src, hrefPos, |src|);
      var nextPos := if title.Some? && title.value.1 != 0 then title.value.1 else hrefPos;
      match ParenEnd(src, nextPos)
      case None => None
      case Some(e) =>
        var t := if title.Some? && title.value.0 != [] then Some(x.safeEntity(title.value.0)) else None;
        Some((LinkAttrs(x.escapeUrl(x.unescapeChar(href)), t), e))
  }
}
