/** The pieces of the inline parser that live outside the modelled file: the
    long regular expressions (auto links, e-mail links, inline HTML, the
    precedence probes, the two line-break patterns) and the helpers imported
    from `helpers.py` and `util.py`. Each is a field of `Ext`. `Wf` states the
    facts about them that the inline parser relies on; the parser reads them
    through the `...At` functions below, which pass on every result that
    meets those facts (`ExactUnderWf`) and treat any other result as no match. */
module Externals {
  import opened Tokens

  /** A pattern anchored at a position: the end of its match there, if any. */
  type Matcher = (string, nat) -> Option<nat>

  /** A helper that reads a piece of text at a position and returns the piece
      and the position after it (`parse_link_label`, `parse_link_text`,
      `parse_link_href`). */
  type Reader = (string, nat) -> Option<(string, nat)>

  datatype Ext = Ext(
    /** `\w` of one character */
    isWord: char -> bool,
    /** membership of the `PUNCTUATION` class */
    isPunct: char -> bool,
    /** `auto_link`, `auto_email`, `inline_html` of the scanner */
    autoLink: Matcher,
    autoEmail: Matcher,
    inlineHtml: Matcher,
    /** `prec_auto_link` and `prec_inline_html` */
    precAutoLink: Matcher,
    precInlineHtml: Matcher,
    /** `STD_LINEBREAK` and `HARD_LINEBREAK` */
    stdLinebreak: Matcher,
    hardLinebreak: Matcher,
    linkLabel: Reader,
    linkText: Reader,
    linkHref: Reader,
    /** `parse_link_title(src, pos, max_pos)` */
    linkTitle: (string, nat, nat) -> Option<(string, nat)>,
    unikey: string -> string,
    safeEntity: string -> string,
    escape: string -> string,
    escapeUrl: string -> string,
    unescapeChar: string -> string)

  /** A match of `mt` is non-empty, lies inside the text, starts with `lead`
      or `alt`, and, when `newline` is set, contains a newline. */
  ghost predicate Anchored(mt: Matcher, lead: char, alt: char, newline: bool) {
    forall s: string, p: nat {:trigger mt(s, p)} ::
      mt(s, p).Some? ==>
        p < mt(s, p).value <= |s| && (s[p] == lead || s[p] == alt) &&
        (newline ==> '\n' in s[p..mt(s, p).value])
  }

  /** `parse_link_label` and `parse_link_text` read the piece that starts at
      the position and return a position past its closing bracket. */
  ghost predicate ReadsSlice(rd: Reader) {
    forall s: string, p: nat {:trigger rd(s, p)} ::
      rd(s, p).Some? ==>
        p + |rd(s, p).value.0| < rd(s, p).value.1 <= |s| &&
        s[p..p + |rd(s, p).value.0|] == rd(s, p).value.0
  }

  /** `parse_link_href` and `parse_link_title` never move backwards and stay
      inside the text. */
  ghost predicate Advances(rd: Reader) {
    forall s: string, p: nat {:trigger rd(s, p)} :: rd(s, p).Some? ==> p <= rd(s, p).value.1 <= |s|
  }

  ghost predicate Wf(x: Ext) {
    && x.isWord('_')
    && Anchored(x.autoLink, '<', '<', false)
    && Anchored(x.autoEmail, '<', '<', false)
    && Anchored(x.inlineHtml, '<', '<', false)
    && Anchored(x.precAutoLink, '<', '<', false)
    && Anchored(x.precInlineHtml, '<', '<', false)
    && Anchored(x.stdLinebreak, '\\', ' ', true)
    && Anchored(x.hardLinebreak, ' ', '\n', true)
    && ReadsSlice(x.linkLabel)
    && ReadsSlice(x.linkText)
    && Advances(x.linkHref)
    && (forall s: string, p: nat, mx: nat {:trigger x.linkTitle(s, p, mx)} ::
          x.linkTitle(s, p, mx).Some? ==> p <= x.linkTitle(s, p, mx).value.1 <= |s|)
  }

  /** A pattern result taken as a match at `p`: non-empty, inside the text and
      starting with `lead` or `alt`. (The newline a line-break pattern must
      contain is left to `Wf`.) */
  function Anchor(r: Option<nat>, lead: char, alt: char, s: string, p: nat): (e: Option<nat>)
    ensures e.Some? ==> p < e.value <= |s| && (s[p] == lead || s[p] == alt)
    ensures e.Some? ==> e == r
  {
    if r.Some? && p < r.value <= |s| && (s[p] == lead || s[p] == alt) then r else None
  }

  /** A reader result taken as the piece at `p` and the position past it. */
  function Slice(r: Option<(string, nat)>, s: string, p: nat): (e: Option<(string, nat)>)
    ensures e.Some? ==> p + |e.value.0| < e.value.1 <= |s| && s[p..p + |e.value.0|] == e.value.0
    ensures e.Some? ==> e == r
  {
    if r.Some? && p + |r.value.0| < r.value.1 <= |s| && s[p..p + |r.value.0|] == r.value.0 then r else None
  }

  /** A reader result taken as a piece and a position not before `p`. */
  function Forward(r: Option<(string, nat)>, s: string, p: nat): (e: Option<(string, nat)>)
    ensures e.Some? ==> p <= e.value.1 <= |s|
    ensures e.Some? ==> e == r
  {
    if r.Some? && p <= r.value.1 <= |s| then r else None
  }

  function AutoLinkAt(x: Ext, s: string, p: nat): Option<nat> { Anchor(x.autoLink(s, p), '<', '<', s, p) }
  function AutoEmailAt(x: Ext, s: string, p: nat): Option<nat> { Anchor(x.autoEmail(s, p), '<', '<', s, p) }
  function InlineHtmlAt(x: Ext, s: string, p: nat): Option<nat> { Anchor(x.inlineHtml(s, p), '<', '<', s, p) }
  function PrecAutoLinkAt(x: Ext, s: string, p: nat): Option<nat> { Anchor(x.precAutoLink(s, p), '<', '<', s, p) }
  function PrecInlineHtmlAt(x: Ext, s: string, p: nat): Option<nat> { Anchor(x.precInlineHtml(s, p), '<', '<', s, p) }
  function StdLinebreakAt(x: Ext, s: string, p: nat): Option<nat> { Anchor(x.stdLinebreak(s, p), '\\', ' ', s, p) }
  function HardLinebreakAt(x: Ext, s: string, p: nat): Option<nat> { Anchor(x.hardLinebreak(s, p), ' ', '\n', s, p) }
  function LinkLabelAt(x: Ext, s: string, p: nat): Option<(string, nat)> { Slice(x.linkLabel(s, p), s, p) }
  function LinkTextAt(x: Ext, s: string, p: nat): Option<(string, nat)> { Slice(x.linkText(s, p), s, p) }
  function LinkHrefAt(x: Ext, s: string, p: nat): Option<(string, nat)> { Forward(x.linkHref(s, p), s, p) }
  function LinkTitleAt(x: Ext, s: string, p: nat, mx: nat): Option<(string, nat)> { Forward(x.linkTitle(s, p, mx), s, p) }

  /** For patterns and helpers that meet `Wf`, the `...At` functions are the
      patterns and helpers themselves. */
  lemma ExactUnderWf(x: Ext, s: string, p: nat, mx: nat)
    requires Wf(x)
    ensures AutoLinkAt(x, s, p) == x.autoLink(s, p)
    ensures AutoEmailAt(x, s, p) == x.autoEmail(s, p)
    ensures InlineHtmlAt(x, s, p) == x.inlineHtml(s, p)
    ensures PrecAutoLinkAt(x, s, p) == x.precAutoLink(s, p)
    ensures PrecInlineHtmlAt(x, s, p) == x.precInlineHtml(s, p)
    ensures StdLinebreakAt(x, s, p) == x.stdLinebreak(s, p)
    ensures HardLinebreakAt(x, s, p) == x.hardLinebreak(s, p)
    ensures LinkLabelAt(x, s, p) == x.linkLabel(s, p)
    ensures LinkTextAt(x, s, p) == x.linkText(s, p)
    ensures LinkHrefAt(x, s, p) == x.linkHref(s, p)
    ensures LinkTitleAt(x, s, p, mx) == x.linkTitle(s, p, mx)
  {
  }
}
