/** `InlineParser` and its `InlineState` as classes. Each parser method works
    on the state as the source does (appending tokens, switching flags) and
    is proved to do exactly what the matching function of `InlineModel`
    says: the tokens it appends, the flags it leaves and the value it
    returns. */
module InlineEngine {
  import opened Tokens
  import opened PyText
  import opened Externals
  import opened Scanner
  import opened InlineModel

  /** `insert_token`: the new token goes before the last one (on an empty
      list it is the only one). */
  function InsertBeforeLast(ts: seq<Token>, t: Token): (r: seq<Token>)
    ensures |r| == |ts| + 1
    ensures ts == [] ==> r == [t]
    ensures ts != [] ==> r[..|ts| - 1] == ts[..|ts| - 1] && r[|ts| - 1] == t && r[|ts|] == ts[|ts| - 1]
  {
    if ts == [] then [t] else ts[..|ts| - 1] + [t, ts[|ts| - 1]]
  }

  /** Inserting before the single token a handler appended puts the new
      token between the earlier tokens and that one. */
  lemma InsertBeforeAppended(before: seq<Token>, out: seq<Token>, t: Token)
    requires |out| == 1
    ensures InsertBeforeLast(before + out, t) == before + ([t] + out)
  {
    var ts := before + out;
    assert ts[..|ts| - 1] == before;
    assert ts[|ts| - 1] == out[0];
    assert out == [out[0]];
  }

  /** `PrecedenceAt` when the handler accepts: the text before the match
      goes in front of the handler's token. */
  lemma PrecedenceAccepted(x: Ext, src: string, marker: string, pos: nat, end: nat, q: nat, m: Match, f: Flags,
                           before: seq<Token>, after: seq<Token>, flags: Flags, r: Option<nat>)
    requires pos + q <= end <= |src| && m.start < m.end <= |src| && PrecedenceRule(m.rule)
    requires var inner := InnerStep(x, src, m, end, f);
      r.Some? && after == InsertBeforeLast(before + inner.out, Text(marker + src[pos..pos + q])) &&
      flags == inner.flags && r == inner.next
    ensures var st := PrecedenceAt(x, src, marker, pos, end, q, m, f);
      after == before + st.out && flags == st.flags && r == st.next
  {
    var inner := InnerStep(x, src, m, end, f);
    var t := Text(marker + src[pos..pos + q]);
    InsertBeforeAppended(before, inner.out, t);
    AppendAssoc(before, [t], inner.out);
  }

  /** The tokens of one round of `parse` followed by the run from where it
      stopped are the run from where it started. */
  lemma RoundTokens(c: Config, env: map<string, LinkAttrs>, src: string, pos: nat, f: Flags, m: Match,
                    st: Step, next: nat, before: seq<Token>, after: seq<Token>)
    requires pos < |src| && Search(c, Rules(c.hardWrap), src, pos) == Some(m)
    requires st == HandlerStep(c, env, src, m, f)
    requires next == if st.next.None? then m.start + 1 else st.next.value
    requires after == before + Gap(c.ext, src, pos, m.start) + st.out + Fill(c.ext, src, m.start, st.next)
    ensures after + ParseRun(c, env, src, next, st.flags).tokens == before + ParseRun(c, env, src, pos, f).tokens
    ensures ParseRun(c, env, src, next, st.flags).flags == ParseRun(c, env, src, pos, f).flags
  {
    ParseRunAt(c, env, src, pos, f, m, st, next);
    AppendAssoc4(before, Gap(c.ext, src, pos, m.start), st.out, Fill(c.ext, src, m.start, st.next),
                 ParseRun(c, env, src, next, st.flags).tokens);
  }

  /** `LinkResolve` when the precedence scan accepts. */
  lemma ResolveAccepted(c: Config, env: map<string, LinkAttrs>, src: string, marker: string, isImage: bool, pos: nat,
                        text: string, lab: Option<string>, endPos: nat, f: Flags,
                        before: seq<Token>, after: seq<Token>, flags: Flags, r: Option<nat>)
    requires pos + |text| < endPos <= |src|
    requires var pr := PrecedenceStep(c, src, marker, pos, pos + |text|, f);
      r.Some? && after == before + pr.out && flags == pr.flags && r == pr.next
    ensures var st := LinkResolve(c, env, src, marker, isImage, pos, text, lab, endPos, f);
      after == before + st.out && flags == st.flags && r == st.next
  {
  }

  /** `LinkResolve` when the precedence scan declines. */
  lemma ResolveDeclined(c: Config, env: map<string, LinkAttrs>, src: string, marker: string, isImage: bool, pos: nat,
                        text: string, lab: Option<string>, endPos: nat, f: Flags,
                        before: seq<Token>, after: seq<Token>, flags: Flags, r: Option<nat>)
    requires pos + |text| < endPos <= |src|
    requires PrecedenceStep(c, src, marker, pos, pos + |text|, f).next.None?
    requires var lt := LinkTail(c, env, src, isImage, text, lab, endPos, f);
      after == before + lt.out && flags == lt.flags && r == lt.next
    ensures var st := LinkResolve(c, env, src, marker, isImage, pos, text, lab, endPos, f);
      after == before + st.out && flags == st.flags && r == st.next
  {
  }

  /** `EmphasisClosed` when the precedence scan accepts. */
  lemma EmphasisAccepted(c: Config, env: map<string, LinkAttrs>, src: string, m: Match, hole: nat, k: nat, f: Flags,
                         before: seq<Token>, after: seq<Token>, flags: Flags, r: Option<nat>)
    requires m.start + hole < m.end <= k && k + (m.end - m.start - hole) <= |src|
    requires var pr := PrecedenceStep(c, src, src[m.start + hole..m.end], m.end, k, f);
      r.Some? && after == before + HoleOut(c.ext, src, m, hole) + pr.out && flags == pr.flags && r == pr.next
    ensures var st := EmphasisClosed(c, env, src, m, hole, k, f);
      after == before + st.out && flags == st.flags && r == st.next
  {
    var pr := PrecedenceStep(c, src, src[m.start + hole..m.end], m.end, k, f);
    AppendAssoc(before, HoleOut(c.ext, src, m, hole), pr.out);
  }

  /** `EmphasisClosed` when the precedence scan declines. */
  lemma EmphasisDeclined(c: Config, env: map<string, LinkAttrs>, src: string, m: Match, hole: nat, k: nat, f: Flags,
                         before: seq<Token>, after: seq<Token>, flags: Flags, r: Option<nat>)
    requires m.start + hole < m.end <= k && k + (m.end - m.start - hole) <= |src|
    requires PrecedenceStep(c, src, src[m.start + hole..m.end], m.end, k, f).next.None?
    requires var n := m.end - m.start - hole;
      after == before + HoleOut(c.ext, src, m, hole) + [EmphasisToken(c, env, src[m.end..k], n, f)] &&
      flags == f && r.Some? && r.value == k + n
    ensures var st := EmphasisClosed(c, env, src, m, hole, k, f);
      after == before + st.out && flags == st.flags && r == st.next
  {
    var n := m.end - m.start - hole;
    AppendAssoc(before, HoleOut(c.ext, src, m, hole), [EmphasisToken(c, env, src[m.end..k], n, f)]);
  }

  lemma AppendAssoc4(a: seq<Token>, b: seq<Token>, c: seq<Token>, d: seq<Token>, e: seq<Token>)
    ensures a + (b + c + d + e) == a + b + c + d + e
  {
  }

  lemma AppendAssoc(a: seq<Token>, b: seq<Token>, c: seq<Token>)
    ensures a + b + c == a + (b + c)
  {
  }

  /** The state of one inline parse: the source, the tokens so far, the
      nesting flags, and the environment holding `ref_links`. */
  class InlineState {
    const env: map<string, LinkAttrs>
    var src: string
    var tokens: seq<Token>
    var inImage: bool
    var inLink: bool
    var inEmphasis: bool
    var inStrong: bool

    constructor (env: map<string, LinkAttrs>)
      ensures this.env == env && src == [] && tokens == [] && Nesting() == NoFlags
    {
      this.env := env;
      src := [];
      tokens := [];
      inImage := false;
      inLink := false;
      inEmphasis := false;
      inStrong := false;
    }

    function Nesting(): Flags
      reads this
    {
      Flags(inLink, inImage, inEmphasis, inStrong)
    }

    method AppendToken(t: Token)
      modifies this`tokens
      ensures tokens == old(tokens) + [t]
    {
      tokens := tokens + [t];
    }

    method InsertToken(t: Token)
      modifies this`tokens
      ensures tokens == InsertBeforeLast(old(tokens), t)
    {
      if tokens == [] {
        tokens := [t];
      } else {
        tokens := tokens[..|tokens| - 1] + [t, tokens[|tokens| - 1]];
      }
    }

    /** `copy`: a new state with the same environment and flags and no tokens. */
    method Copy() returns (s: InlineState)
      ensures fresh(s) && s.env == env && s.src == [] && s.tokens == [] && s.Nesting() == Nesting()
    {
      s := new InlineState(env);
      s.inImage := inImage;
      s.inLink := inLink;
      s.inEmphasis := inEmphasis;
      s.inStrong := inStrong;
    }
  }

  /** The state after a handler call agrees with the step `st` computed from
      the state before it. */
  ghost predicate Applied(state: InlineState, before: seq<Token>, st: Step, r: Option<nat>)
    reads state
  {
    state.tokens == before + st.out && state.Nesting() == st.flags && r == st.next
  }

  class InlineParser {
    const ext: Ext
    const hardWrap: bool
    const rules: seq<Rule>

    ghost predicate Valid() {
      rules == Rules(hardWrap)
    }

    function Cfg(): Config {
      Config(ext, hardWrap)
    }

    /** `__init__`: under `hard_wrap` every newline is a line break and there
        is no `softbreak` rule; otherwise `softbreak` comes last. */
    constructor (ext: Ext, hardWrap: bool)
      ensures Valid() && this.ext == ext && this.hardWrap == hardWrap
      ensures hardWrap ==> rules == DefaultRules
      ensures !hardWrap ==> rules == DefaultRules + [SoftbreakRule]
    {
      this.ext := ext;
      this.hardWrap := hardWrap;
      var rs := DefaultRules;
      if !hardWrap {
        rs := rs + [SoftbreakRule];
      }
      rules := rs;
    }

    method ParseEscape(m: Match, state: InlineState) returns (r: Option<nat>)
      requires m.start < m.end <= |state.src|
      modifies state`tokens
      ensures Applied(state, old(state.tokens), EscapeStep(ext, state.src, m, state.Nesting()), r)
    {
      var text := state.src[m.start..m.end];
      text := ext.unescapeChar(text);
      state.AppendToken(Text(ext.safeEntity(text)));
      return Some(m.end);
    }

    /** `parse_link` up to the precedence scan; the destination is read by
        `ParseLinkTail`. */
    method ParseLink(m: Match, state: InlineState) returns (r: Option<nat>)
      requires Valid() && m.start < m.end <= |state.src|
      modifies state`tokens, state`inLink
      decreases |state.src|, 3
      ensures Applied(state, old(state.tokens), LinkStep(Cfg(), state.env, state.src, m, old(state.Nesting())), r)
    {
      var pos := m.end;
      var marker := state.src[m.start..m.end];
      var isImage := marker[0] == '!';
      if isImage && state.inImage {
        state.AppendToken(Text(marker));
        return Some(pos);
      } else if !isImage && state.inLink {
        state.AppendToken(Text(marker));
        return Some(pos);
      }
      var lab := LinkLabelAt(ext, state.src, pos);
      var found := if lab.Some? then lab else LinkTextAt(ext, state.src, pos);
      if found.None? {
        return None;
      }
      var text := found.value.0;
      var endPos := found.value.1;
      if endPos >= |state.src| && lab.None? {
        return None;
      }
      r := ParseLinkResolve(marker, isImage, pos, text, if lab.Some? then Some(lab.value.0) else None, endPos, state, state.src, state.Nesting());
    }

    /** The rest of `parse_link` once the text is read: the precedence scan
        over the text, and otherwise the destination. */
    method ParseLinkResolve(marker: string, isImage: bool, pos: nat, text: string, lab: Option<string>, endPos: nat,
                            state: InlineState, ghost src: string, ghost f: Flags) returns (r: Option<nat>)
      requires Valid() && pos + |text| < endPos <= |state.src| && src == state.src && f == state.Nesting()
      modifies state`tokens, state`inLink
      decreases |state.src|, 2
      ensures Applied(state, old(state.tokens), LinkResolve(Cfg(), state.env, src, marker, isImage, pos, text, lab, endPos, f), r)
    {
      ghost var before := state.tokens;
      var precPos := PrecedenceScan(marker, pos, pos + |text|, state, src, f);
      if precPos.Some? {
        ResolveAccepted(Cfg(), state.env, src, marker, isImage, pos, text, lab, endPos, f, before, state.tokens, state.Nesting(), precPos);
        return precPos;
      }
      r := ParseLinkTail(isImage, text, lab, endPos, state, src, f);
      ResolveDeclined(Cfg(), state.env, src, marker, isImage, pos, text, lab, endPos, f, before, state.tokens, state.Nesting(), r);
    }

    /** The end of `parse_link`: an inline destination after `(`, or a
        reference label after `[` (an empty one keeps the first label), looked
        up in `ref_links`. */
    method ParseLinkTail(isImage: bool, text: string, lab: Option<string>, endPos: nat, state: InlineState, ghost src: string, ghost f: Flags)
      returns (r: Option<nat>)
      requires Valid() && |text| < endPos <= |state.src| && state.Nesting() == f && src == state.src
      modifies state`tokens
      decreases |state.src|, 1
      ensures Applied(state, old(state.tokens), LinkTail(Cfg(), state.env, src, isImage, text, lab, endPos, f), r)
    {
      if endPos < |state.src| && state.src[endPos] == '(' {
        var std := ParseStdLink(ext, state.src, endPos + 1);
        if std.Some? {
          AddLinkToken(isImage, text, std.value.0, state, f);
          return Some(std.value.1);
        }
      }
      r := ParseLinkRef(isImage, text, lab, endPos, state, src, f);
    }

    /** The reference form: a label after `[`, then the lookup in `ref_links`. */
    method ParseLinkRef(isImage: bool, text: string, lab: Option<string>, endPos: nat, state: InlineState,
                        ghost src: string, ghost f: Flags) returns (r: Option<nat>)
      requires Valid() && |text| < endPos <= |state.src| && state.Nesting() == f && src == state.src
      modifies state`tokens
      decreases |state.src|, 0
      ensures Applied(state, old(state.tokens), LinkRef(Cfg(), state.env, src, isImage, text, lab, endPos, f), r)
    {
      var target := RefTarget(Cfg(), state.env, state.src, lab, endPos);
      if target.None? {
        return None;
      }
      AddLinkToken(isImage, text, target.value.0, state, f);
      return Some(target.value.1);
    }

    method AddLinkToken(isImage: bool, text: string, attrs: LinkAttrs, state: InlineState, ghost f: Flags)
      requires Valid() && state.Nesting() == f
      modifies state`tokens
      decreases |text|, 8
      ensures state.tokens == old(state.tokens) + [LinkToken(Cfg(), state.env, isImage, text, attrs, f)]
    {
      var newState := state.Copy();
      if isImage {
        newState.inImage := true;
        assert newState.Nesting() == f.(inImage := true);
        var children := RenderText(text, newState);
        assert children == ParseRun(Cfg(), state.env, text, 0, f.(inImage := true)).tokens;
        state.AppendToken(Image(children, attrs));
      } else {
        newState.inLink := true;
        assert newState.Nesting() == f.(inLink := true);
        var children := RenderText(text, newState);
        assert children == ParseRun(Cfg(), state.env, text, 0, f.(inLink := true)).tokens;
        state.AppendToken(Link(children, attrs));
      }
    }

    method ParseAutoLink(m: Match, state: InlineState, prec: Option<nat>) returns (r: Option<nat>)
      requires m.start < m.end <= |state.src|
      modifies state`tokens
      ensures Applied(state, old(state.tokens), AutoLinkStep(ext, state.src, m, prec, state.Nesting()), r)
    {
      var text := state.src[m.start..m.end];
      var pos := m.end;
      if prec.Some? && prec.value > pos {
        return None;
      }
      if state.inLink {
        var p := RecordText(pos, text, state);
        return Some(p);
      }
      text := Inner(text);
      AddAutoLink(text, text, state);
      return Some(pos);
    }

    /** `parse_auto_email`, taking the `prec_pos` that the precedence scan
        passes (see `InlineFindings` for the code as written). */
    method ParseAutoEmail(m: Match, state: InlineState, prec: Option<nat>) returns (r: Option<nat>)
      requires m.start < m.end <= |state.src|
      modifies state`tokens
      ensures Applied(state, old(state.tokens), AutoEmailStep(ext, state.src, m, prec, state.Nesting()), r)
    {
      var text := state.src[m.start..m.end];
      var pos := m.end;
      if prec.Some? && prec.value > pos {
        return None;
      }
      if state.inLink {
        var p := RecordText(pos, text, state);
        return Some(p);
      }
      text := Inner(text);
      var url := "mailto:" + text;
      AddAutoLink(url, text, state);
      return Some(pos);
    }

    method AddAutoLink(url: string, text: string, state: InlineState)
      modifies state`tokens
      ensures state.tokens == old(state.tokens) + [AutoLinkToken(ext, url, text)]
    {
      var children := [Text(ext.safeEntity(text))];
      state.AppendToken(Link(children, LinkAttrs(ext.escapeUrl(url), None)));
    }

    /** `parse_emphasis` up to the refusal checks; the run of more than three
        markers keeps its first characters as a hole for `ParseEmphasisBody`. */
    method ParseEmphasis(m: Match, state: InlineState) returns (r: Option<nat>)
      requires Valid() && m.start < m.end <= |state.src|
      modifies state`tokens, state`inLink
      decreases |state.src|, 3
      ensures Applied(state, old(state.tokens), EmphasisStep(Cfg(), state.env, state.src, m, old(state.Nesting())), r)
    {
      var pos := m.end;
      var marker := state.src[m.start..m.end];
      if |marker| > 3 {
        if state.inEmphasis || state.inStrong {
          var p := RecordText(pos, marker, state);
          return Some(p);
        }
        r := ParseEmphasisBody(m, |marker| - 3, state, state.src, state.Nesting());
      } else if |marker| == 1 && state.inEmphasis {
        var p := RecordText(pos, marker, state);
        return Some(p);
      } else if |marker| == 2 && state.inStrong {
        var p := RecordText(pos, marker, state);
        return Some(p);
      } else {
        r := ParseEmphasisBody(m, 0, state, state.src, state.Nesting());
      }
    }

    /** `parse_emphasis` once the run is accepted: find the closing marker,
        let the precedence scan win, and otherwise append the emphasis. With
        no closer the whole run is recorded as text, the corrected form of
        line 239 (`InlineFindings.EmphasisAfterAsWritten`). */
    method ParseEmphasisBody(m: Match, hole: nat, state: InlineState, ghost src: string, ghost f: Flags)
      returns (r: Option<nat>)
      requires Valid() && m.start + hole < m.end <= |state.src|
      requires src == state.src && f == state.Nesting()
      modifies state`tokens, state`inLink
      decreases |state.src|, 2
      ensures Applied(state, old(state.tokens), EmphasisBody(Cfg(), state.env, src, m, hole, f), r)
    {
      var pos := m.end;
      var marker := state.src[m.start + hole..m.end];
      var close := EmphCloseFrom(ext, state.src, pos, marker, pos + 1);
      assert EmphasisBody(Cfg(), state.env, src, m, hole, f) == EmphasisAfter(Cfg(), state.env, src, m, hole, close, f);
      if close.None? {
        var p := RecordText(pos, state.src[m.start..m.end], state);
        return Some(p);
      }
      r := ParseEmphasisClosed(m, hole, close.value, state, src, f);
    }

    /** `parse_emphasis` once the closing marker is found at `k`. */
    method ParseEmphasisClosed(m: Match, hole: nat, k: nat, state: InlineState, ghost src: string, ghost f: Flags)
      returns (r: Option<nat>)
      requires Valid() && m.start + hole < m.end <= k && k + (m.end - m.start - hole) <= |state.src|
      requires src == state.src && f == state.Nesting()
      modifies state`tokens, state`inLink
      decreases |state.src|, 1
      ensures Applied(state, old(state.tokens), EmphasisClosed(Cfg(), state.env, src, m, hole, k, f), r)
    {
      var pos := m.end;
      var marker := state.src[m.start + hole..m.end];
      ghost var before := state.tokens;
      if hole > 0 {
        state.AppendToken(Text(ext.safeEntity(state.src[m.start..m.start + hole])));
      }
      assert state.tokens == before + HoleOut(ext, src, m, hole);
      var precPos := PrecedenceScan(marker, pos, k, state, src, f);
      if precPos.Some? {
        EmphasisAccepted(Cfg(), state.env, src, m, hole, k, f, before, state.tokens, state.Nesting(), precPos);
        return precPos;
      }
      var token := RenderEmphasis(|marker|, state.src[pos..k], state);
      state.AppendToken(token);
      r := Some(k + |marker|);
      EmphasisDeclined(Cfg(), state.env, src, m, hole, k, f, before, state.tokens, state.Nesting(), r);
    }

    /** The emphasis token of `parse_emphasis` for a marker of `n` characters:
        `text` rendered in a copy of the state with `in_emphasis`,
        `in_strong` or both set. The copy is taken after the precedence scan
        has declined, which leaves the state as it was. */
    method RenderEmphasis(n: nat, text: string, state: InlineState) returns (t: Token)
      requires Valid()
      decreases |text|, 8
      ensures t == EmphasisToken(Cfg(), state.env, text, n, state.Nesting())
    {
      ghost var f := state.Nesting();
      var newState := state.Copy();
      if n == 1 {
        newState.inEmphasis := true;
        assert newState.Nesting() == f.(inEmphasis := true);
        var children := RenderText(text, newState);
        assert children == ParseRun(Cfg(), state.env, text, 0, f.(inEmphasis := true)).tokens;
        t := Emphasis(children);
      } else if n == 2 {
        newState.inStrong := true;
        assert newState.Nesting() == f.(inStrong := true);
        var children := RenderText(text, newState);
        assert children == ParseRun(Cfg(), state.env, text, 0, f.(inStrong := true)).tokens;
        t := Strong(children);
      } else {
        newState.inEmphasis := true;
        newState.inStrong := true;
        assert newState.Nesting() == f.(inEmphasis := true, inStrong := true);
        var children := RenderText(text, newState);
        assert children == ParseRun(Cfg(), state.env, text, 0, f.(inEmphasis := true, inStrong := true)).tokens;
        t := Emphasis([Strong(children)]);
      }
    }

    method ParseCodespan(m: Match, state: InlineState, prec: Option<nat>) returns (r: Option<nat>)
      requires m.start < m.end <= |state.src|
      modifies state`tokens
      ensures Applied(state, old(state.tokens), CodespanStep(ext, state.src, m, prec, state.Nesting()), r)
    {
      var src := state.src;
      var marker := src[m.start..m.end];
      var pos := m.end;
      var close := CodeCloseFrom(src, pos, marker, pos + 1);
      if close.Some? {
        var endPos := close.value + |marker|;
        if prec.Some? && prec.value > endPos {
          return None;
        }
        var code := src[pos..close.value];
        state.AppendToken(Codespan(ext.escape(CodeText(code))));
        return Some(endPos);
      }
      if prec.None? {
        var p := RecordText(pos, marker, state);
        return Some(p);
      }
      return None;
    }

    method ParseLinebreak(m: Match, state: InlineState) returns (r: Option<nat>)
      modifies state`tokens
      ensures state.tokens == old(state.tokens) + [Linebreak] && r == Some(m.end)
    {
      state.AppendToken(Linebreak);
      return Some(m.end);
    }

    method ParseSoftbreak(m: Match, state: InlineState) returns (r: Option<nat>)
      modifies state`tokens
      ensures state.tokens == old(state.tokens) + [Softbreak] && r == Some(m.end)
    {
      state.AppendToken(Softbreak);
      return Some(m.end);
    }

    method ParseInlineHtml(m: Match, state: InlineState, prec: Option<nat>) returns (r: Option<nat>)
      requires m.start < m.end <= |state.src|
      modifies state`tokens, state`inLink
      ensures Applied(state, old(state.tokens), InlineHtmlStep(state.src, m, prec, old(state.Nesting())), r)
    {
      var endPos := m.end;
      if prec.Some? && prec.value > endPos {
        return None;
      }
      var html := state.src[m.start..m.end];
      state.AppendToken(InlineHtml(html));
      if OpensAnchor(html) {
        state.inLink := true;
      } else if ClosesAnchor(html) {
        state.inLink := false;
      }
      return Some(endPos);
    }

    /** `parse_method`: the handler of the rule that matched. */
    method ParseMethod(m: Match, state: InlineState) returns (r: Option<nat>)
      requires Valid() && m.start < m.end <= |state.src|
      modifies state`tokens, state`inLink
      decreases |state.src|, 4
      ensures Applied(state, old(state.tokens), HandlerStep(Cfg(), state.env, state.src, m, old(state.Nesting())), r)
    {
      match m.rule {
        case EscapeRule => r := ParseEscape(m, state);
        case CodespanRule => r := ParseCodespan(m, state, None);
        case EmphasisRule => r := ParseEmphasis(m, state);
        case LinkRule => r := ParseLink(m, state);
        case AutoLinkRule => r := ParseAutoLink(m, state, None);
        case AutoEmailRule => r := ParseAutoEmail(m, state, None);
        case InlineHtmlRule => r := ParseInlineHtml(m, state, None);
        case LinebreakRule => r := ParseLinebreak(m, state);
        case SoftbreakRule => r := ParseSoftbreak(m, state);
      }
    }

    /** `parse(src, pos, state)`: the loop of `ParseRun`, with the corrected
        emphasis and `parse_auto_email` handlers that `ParseRun` uses. */
    method Parse(src: string, pos0: nat, state: InlineState) returns (tokens: seq<Token>)
      requires Valid()
      modifies state
      decreases |src|, 6
      ensures state.src == src && tokens == state.tokens
      ensures state.tokens == old(state.tokens) + ParseRun(Cfg(), state.env, src, pos0, old(state.Nesting())).tokens
      ensures state.Nesting() == ParseRun(Cfg(), state.env, src, pos0, old(state.Nesting())).flags
    {
      ghost var t0 := state.tokens;
      ghost var whole := ParseRun(Cfg(), state.env, src, pos0, state.Nesting());
      state.src := src;
      var pos := pos0;
      while pos < |src|
        invariant state.src == src
        invariant t0 + whole.tokens == state.tokens + ParseRun(Cfg(), state.env, src, pos, state.Nesting()).tokens
        invariant whole.flags == ParseRun(Cfg(), state.env, src, pos, state.Nesting()).flags
        decreases |src| - pos
      {
        var m := Search(Cfg(), rules, src, pos);
        if m.None? {
          break;
        }
        pos := ParseRound(src, pos, m.value, state);
      }
      if pos == 0 {
        state.AppendToken(Text(ext.safeEntity(src)));
      } else if pos < |src| {
        state.AppendToken(Text(ext.safeEntity(src[pos..])));
      }
      return state.tokens;
    }

    /** One round of the loop of `parse`: the text before the match, the
        handler, and one character of text when the handler declines. */
    method ParseRound(src: string, pos: nat, m: Match, state: InlineState) returns (next: nat)
      requires Valid() && state.src == src && pos < |src| && Search(Cfg(), rules, src, pos) == Some(m)
      modifies state`tokens, state`inLink
      decreases |src|, 5
      ensures pos < next <= |src|
      ensures state.tokens + ParseRun(Cfg(), state.env, src, next, state.Nesting()).tokens
        == old(state.tokens) + ParseRun(Cfg(), state.env, src, pos, old(state.Nesting())).tokens
      ensures ParseRun(Cfg(), state.env, src, next, state.Nesting()).flags
        == ParseRun(Cfg(), state.env, src, pos, old(state.Nesting())).flags
    {
      ghost var f := state.Nesting();
      ghost var t1 := state.tokens;
      var endPos := m.start;
      AppendGap(src, pos, endPos, state);
      ghost var st := HandlerStep(Cfg(), state.env, src, m, f);
      var newPos := ParseMethod(m, state);
      AppendFill(src, endPos, newPos, state);
      next := if newPos.None? then endPos + 1 else newPos.value;
      RoundTokens(Cfg(), state.env, src, pos, f, m, st, next, t1, state.tokens);
    }

    /** The text between the previous position and the match, when there
        is any. */
    method AppendGap(src: string, pos: nat, endPos: nat, state: InlineState)
      requires pos <= endPos <= |src|
      modifies state`tokens
      ensures state.tokens == old(state.tokens) + Gap(ext, src, pos, endPos)
    {
      if endPos > pos {
        state.AppendToken(Text(ext.safeEntity(src[pos..endPos])));
      }
    }

    /** One character of text when the handler declined. */
    method AppendFill(src: string, endPos: nat, newPos: Option<nat>, state: InlineState)
      requires endPos < |src|
      modifies state`tokens
      ensures state.tokens == old(state.tokens) + Fill(ext, src, endPos, newPos)
    {
      if newPos.None? {
        state.AppendToken(Text(ext.safeEntity(src[endPos..endPos + 1])));
      }
    }

    /** `_precedence_scan(marker, text, pos, state)`: probe `text` for a code
        span, an auto link or inline HTML, and match the full scanner where
        the probe hit. Both callers pass the piece `state.src[pos..end]` as
        `text`, so the piece is given by its end. */
    method PrecedenceScan(marker: string, pos: nat, end: nat, state: InlineState, ghost src: string, ghost f: Flags) returns (r: Option<nat>)
      requires Valid() && pos <= end <= |state.src| && src == state.src && f == state.Nesting()
      modifies state`tokens, state`inLink
      ensures Applied(state, old(state.tokens), PrecedenceStep(Cfg(), src, marker, pos, end, f), r)
    {
      var text := state.src[pos..end];
      var probe := ProbeSearch(ext, text, 0);
      if probe.None? {
        return None;
      }
      r := PrecedenceProbe(marker, pos, end, probe.value, state);
    }

    /** `_precedence_scan` once the probe hit `text[startPos]`: the full
        scanner is matched there. */
    method PrecedenceProbe(marker: string, pos: nat, end: nat, startPos: nat, state: InlineState) returns (r: Option<nat>)
      requires Valid() && pos <= end <= |state.src| && ProbeAt(ext, state.src[pos..end], startPos)
      modifies state`tokens, state`inLink
      ensures Applied(state, old(state.tokens), InlineModel.PrecedenceProbe(Cfg(), state.src, marker, pos, end, startPos, old(state.Nesting())), r)
    {
      ProbeLead(ext, state.src[pos..end], startPos);
      var m := MatchAt(Cfg(), rules, state.src, pos + startPos);
      if m.None? {
        return None;
      }
      MatchAtLead(Cfg(), rules, state.src, pos + startPos);
      r := PrecedenceMatch(marker, pos, end, startPos, m.value, state, state.src, state.Nesting());
    }

    /** The rest of `_precedence_scan` once the scanner matched `m` at
        `text[startPos]`: call the handler with the end of `text` as
        `prec_pos` and, when it accepts, insert the text before the match. */
    method PrecedenceMatch(marker: string, pos: nat, end: nat, startPos: nat, m: Match, state: InlineState,
                           ghost src: string, ghost f: Flags)
      returns (r: Option<nat>)
      requires pos + startPos <= end <= |state.src| && m.start < m.end <= |state.src|
      requires PrecedenceRule(m.rule) && src == state.src && f == state.Nesting()
      modifies state`tokens, state`inLink
      ensures Applied(state, old(state.tokens), PrecedenceAt(ext, src, marker, pos, end, startPos, m, f), r)
    {
      ghost var before := state.tokens;
      var prefix := state.src[pos..pos + startPos];
      r := ParseInner(m, state, end, src, f);
      if r.None? {
        return;
      }
      state.InsertToken(Text(marker + prefix));
      PrecedenceAccepted(ext, src, marker, pos, end, startPos, m, f, before, state.tokens, state.Nesting(), r);
    }

    /** The call `func(m, state, pos + len(text))` of `_precedence_scan`. */
    method ParseInner(m: Match, state: InlineState, prec: nat, ghost src: string, ghost f: Flags) returns (r: Option<nat>)
      requires m.start < m.end <= |state.src|
      requires PrecedenceRule(m.rule) && src == state.src && f == state.Nesting()
      modifies state`tokens, state`inLink
      ensures Applied(state, old(state.tokens), InnerStep(ext, src, m, prec, f), r)
    {
      match m.rule {
        case CodespanRule => r := ParseCodespan(m, state, Some(prec));
        case AutoLinkRule => r := ParseAutoLink(m, state, Some(prec));
        case AutoEmailRule => r := ParseAutoEmail(m, state, Some(prec));
        case InlineHtmlRule => r := ParseInlineHtml(m, state, Some(prec));
      }
    }

    method RecordText(pos: nat, text: string, state: InlineState) returns (r: nat)
      modifies state`tokens
      ensures state.tokens == old(state.tokens) + [Text(ext.safeEntity(text))] && r == pos
    {
      state.AppendToken(Text(ext.safeEntity(text)));
      return pos;
    }

    /** `render_text` without a renderer: the tokens of parsing `s` from the
        start in `state`. */
    method RenderText(s: string, state: InlineState) returns (tokens: seq<Token>)
      requires Valid()
      modifies state
      decreases |s|, 7
      ensures tokens == old(state.tokens) + ParseRun(Cfg(), state.env, s, 0, old(state.Nesting())).tokens
      ensures state.src == s && state.tokens == tokens
      ensures state.Nesting() == ParseRun(Cfg(), state.env, s, 0, old(state.Nesting())).flags
    {
      tokens := Parse(s, 0, state);
    }

    /** `__call__(s, refs)`: render `s` in a fresh state over `refs`. */
    method Call(s: string, env: map<string, LinkAttrs>) returns (tokens: seq<Token>)
      requires Valid()
      ensures tokens == ParseRun(Cfg(), env, s, 0, NoFlags).tokens
    {
      var state := new InlineState(env);
      tokens := RenderText(s, state);
    }
  }
}
