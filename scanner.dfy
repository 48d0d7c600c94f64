/** The scanner that `InlineParser.parse` compiles from its rules: the rules in
    their order, the start pattern of each one, the match at one position
    (the first rule in order that matches there) and the search for the
    earliest position with a match. */
module Scanner {
  import opened Tokens
  import opened PyText
  import opened Externals

  datatype Rule =
    | EscapeRule | CodespanRule | EmphasisRule | LinkRule | AutoLinkRule
    | AutoEmailRule | InlineHtmlRule | LinebreakRule | SoftbreakRule

  /** A match of `rule` covering `src[start..end]`. */
  datatype Match = Match(rule: Rule, start: nat, end: nat)

  /** What `InlineParser.__init__` fixes: the external patterns and helpers,
      and `hard_wrap`. */
  datatype Config = Config(ext: Ext, hardWrap: bool)

  /** `DEFAULT_RULES` */
  const DefaultRules: seq<Rule> := [
    EscapeRule, CodespanRule, EmphasisRule, LinkRule, AutoLinkRule,
    AutoEmailRule, InlineHtmlRule, LinebreakRule]

  /** The rules of a parser built with `hard_wrap`. */
  function Rules(hardWrap: bool): seq<Rule>
  {
    DefaultRules + (if hardWrap then [] else [SoftbreakRule])
  }

  /** `(?:\\PUNCTUATION)+` at `p`: the end of the run of escaped punctuation
      characters (`p` when there is none). */
  function EscapeEnd(x: Ext, s: string, p: nat): (e: nat)
    decreases |s| - p
    ensures p <= e && (p < e ==> e <= |s|)
    ensures e > p ==> s[p] == '\\'
  {
    if p + 1 < |s| && s[p] == '\\' && x.isPunct(s[p + 1]) then EscapeEnd(x, s, p + 2)
    else p
  }

  /** The run is a whole number of escapes, it is empty exactly when no
      escape starts at `p`, and no escape follows it. */
  lemma {:induction false} EscapeRun(x: Ext, s: string, p: nat)
    decreases |s| - p
    ensures (EscapeEnd(x, s, p) - p) % 2 == 0
    ensures EscapeEnd(x, s, p) > p <==> p + 1 < |s| && s[p] == '\\' && x.isPunct(s[p + 1])
    ensures var e := EscapeEnd(x, s, p); e < |s| ==> !(e + 1 < |s| && s[e] == '\\' && x.isPunct(s[e + 1]))
  {
    if p + 1 < |s| && s[p] == '\\' && x.isPunct(s[p + 1]) {
      EscapeRun(x, s, p + 2);
    }
  }

  /** `\b` between `s[i - 1]` and `s[i]`. */
  predicate Boundary(x: Ext, s: string, i: nat) {
    (0 < i <= |s| && x.isWord(s[i - 1])) != (i < |s| && x.isWord(s[i]))
  }

  /** `\*{1,3}(?=[^\s*])|\b_{1,}(?=[^\s_])` at `p`. A run of more than three
      `*` does not match at its first character: the search reaches its last
      three later. */
  function EmphasisEnd(x: Ext, s: string, p: nat): (e: Option<nat>)
    ensures e.Some? ==> p < e.value < |s| && !IsSpace(s[e.value])
    ensures e.Some? ==> s[p] == '*' || s[p] == '_'
    ensures e.Some? ==> s[e.value] != s[p]
    ensures e.Some? && s[p] == '*' ==> e.value - p <= 3
  {
    if p < |s| && s[p] == '*' then
      var e := RunEnd(s, p, '*');
      if e - p <= 3 && e < |s| && !IsSpace(s[e]) then Some(e) else None
    else if p < |s| && s[p] == '_' && Boundary(x, s, p) then
      var e := RunEnd(s, p, '_');
      if e < |s| && !IsSpace(s[e]) then Some(e) else None
    else None
  }

  /** `!?\[` at `p`. */
  function LinkEnd(s: string, p: nat): (e: Option<nat>)
    ensures e.Some? ==> 0 < e.value <= |s| && s[e.value - 1] == '['
    ensures e.Some? ==> e.value == p + 1 || (e.value == p + 2 && s[p] == '!')
  {
    if p < |s| && s[p] == '[' then Some(p + 1)
    else if p + 1 < |s| && s[p] == '!' && s[p + 1] == '[' then Some(p + 2)
    else None
  }

  /** The end of the match of rule `r` at `p`. `linebreak` is `HARD_LINEBREAK`
      under `hard_wrap` and `STD_LINEBREAK` otherwise; `softbreak` is
      `HARD_LINEBREAK`. */
  function RuleEnd(c: Config, r: Rule, s: string, p: nat): (e: Option<nat>)
    ensures e.Some? ==> p < e.value <= |s|
  {
    match r
    case EscapeRule =>
      var e := EscapeEnd(c.ext, s, p);
      if e > p then Some(e) else None
    case CodespanRule =>
      var e := RunEnd(s, p, '`');
      if e > p then Some(e) else None
    case EmphasisRule => EmphasisEnd(c.ext, s, p)
    case LinkRule => LinkEnd(s, p)
    case AutoLinkRule => AutoLinkAt(c.ext, s, p)
    case AutoEmailRule => AutoEmailAt(c.ext, s, p)
    case InlineHtmlRule => InlineHtmlAt(c.ext, s, p)
    case LinebreakRule =>
      if c.hardWrap then HardLinebreakAt(c.ext, s, p) else StdLinebreakAt(c.ext, s, p)
    case SoftbreakRule => HardLinebreakAt(c.ext, s, p)
  }

  /** The index of the first rule of `rules[i..]` that matches at `p`
      (`|rules|` when none does). */
  function FirstHit(c: Config, rules: seq<Rule>, s: string, p: nat, i: nat): (j: nat)
    requires i <= |rules|
    decreases |rules| - i
    ensures i <= j <= |rules|
    ensures j < |rules| ==> RuleEnd(c, rules[j], s, p).Some?
  {
    if i == |rules| || RuleEnd(c, rules[i], s, p).Some? then i else FirstHit(c, rules, s, p, i + 1)
  }

  lemma {:induction false} FirstHitMisses(c: Config, rules: seq<Rule>, s: string, p: nat, i: nat)
    requires i <= |rules|
    decreases |rules| - i
    ensures forall k :: i <= k < FirstHit(c, rules, s, p, i) ==> RuleEnd(c, rules[k], s, p).None?
  {
    if i < |rules| && RuleEnd(c, rules[i], s, p).None? {
      FirstHitMisses(c, rules, s, p, i + 1);
    }
  }

  /** The combined scanner anchored at `p` (`sc.match(src, p)`): the
      alternation of the rules in order, so the first rule that matches there
      wins (`MatchAtFirst`). */
  function MatchAt(c: Config, rules: seq<Rule>, s: string, p: nat): (m: Option<Match>)
    ensures m.Some? ==> m.value.start == p && p < m.value.end <= |s|
  {
    var j := FirstHit(c, rules, s, p, 0);
    if j < |rules| then Some(Match(rules[j], p, RuleEnd(c, rules[j], s, p).value)) else None
  }

  /** The rule `MatchAt` reports is in the list and matches with the reported
      end, every rule before it in the list fails at that position, and there
      is no match exactly when every rule fails. */
  lemma MatchAtFirst(c: Config, rules: seq<Rule>, s: string, p: nat)
    ensures MatchAt(c, rules, s, p).None? <==> forall j :: 0 <= j < |rules| ==> RuleEnd(c, rules[j], s, p).None?
    ensures MatchAt(c, rules, s, p).Some? ==>
      var m := MatchAt(c, rules, s, p).value;
      RuleEnd(c, m.rule, s, p) == Some(m.end) &&
      exists j :: 0 <= j < |rules| && rules[j] == m.rule &&
        forall k :: 0 <= k < j ==> RuleEnd(c, rules[k], s, p).None?
  {
    FirstHitMisses(c, rules, s, p, 0);
    var j := FirstHit(c, rules, s, p, 0);
    if j < |rules| {
      assert rules[j] == MatchAt(c, rules, s, p).value.rule;
    }
  }

  /** The combined scanner searching from `p` (`sc.search(src, p)`): the
      match at the earliest position that has one (`SearchEarliest`). */
  function Search(c: Config, rules: seq<Rule>, s: string, p: nat): (m: Option<Match>)
    decreases |s| - p
    ensures m.Some? ==> p <= m.value.start < m.value.end <= |s|
  {
    if p >= |s| then None
    else match MatchAt(c, rules, s, p)
      case Some(m) => Some(m)
      case None => Search(c, rules, s, p + 1)
  }

  /** The search reports the match at its start, and no position between the
      start of the search and that start has a match; a failed search means
      no position from `p` on has one. */
  lemma {:induction false} SearchEarliest(c: Config, rules: seq<Rule>, s: string, p: nat)
    decreases |s| - p
    ensures Search(c, rules, s, p).Some? ==>
      var m := Search(c, rules, s, p).value;
      MatchAt(c, rules, s, m.start) == Some(m) &&
      forall q :: p <= q < m.start ==> MatchAt(c, rules, s, q).None?
    ensures Search(c, rules, s, p).None? ==> forall q :: p <= q ==> MatchAt(c, rules, s, q).None?
  {
    if p < |s| && MatchAt(c, rules, s, p).None? {
      SearchEarliest(c, rules, s, p + 1);
    }
  }

  /** The rules the precedence scan hands a match to. */
  predicate PrecedenceRule(r: Rule) {
    r.CodespanRule? || r.AutoLinkRule? || r.AutoEmailRule? || r.InlineHtmlRule?
  }

  /** The probe of `_precedence_scan` at `q`: `codespan`, `prec_auto_link` or
      `prec_inline_html` matches there. */
  predicate ProbeAt(x: Ext, s: string, q: nat) {
    (q < |s| && s[q] == '`') || PrecAutoLinkAt(x, s, q).Some? || PrecInlineHtmlAt(x, s, q).Some?
  }

  /** The probe scanner searching from `p`: the earliest position it matches. */
  function ProbeSearch(x: Ext, s: string, p: nat): (q: Option<nat>)
    decreases |s| - p
    ensures q.Some? ==> p <= q.value < |s| && ProbeAt(x, s, q.value)
  {
    if p >= |s| then None
    else if ProbeAt(x, s, p) then Some(p)
    else ProbeSearch(x, s, p + 1)
  }

  /** The probe reports the earliest position it matches, and nothing only
      when it matches nowhere from `p` on. */
  lemma {:induction false} ProbeSearchFirst(x: Ext, s: string, p: nat)
    decreases |s| - p
    ensures ProbeSearch(x, s, p).Some? ==> forall j :: p <= j < ProbeSearch(x, s, p).value ==> !ProbeAt(x, s, j)
    ensures ProbeSearch(x, s, p).None? ==> forall j :: p <= j < |s| ==> !ProbeAt(x, s, j)
  {
    if p < |s| && !ProbeAt(x, s, p) {
      ProbeSearchFirst(x, s, p + 1);
    }
  }

  /** A probe hit is a backtick or an opening angle bracket. */
  lemma ProbeLead(x: Ext, s: string, q: nat)
    requires ProbeAt(x, s, q)
    ensures q < |s| && (s[q] == '`' || s[q] == '<')
  {
  }

  /** At a backtick or an opening angle bracket the only rules that can match
      are `codespan`, `auto_link`, `auto_email` and `inline_html`: the others
      start with another character. */
  lemma LeadRules(c: Config, s: string, p: nat, r: Rule)
    requires p < |s| && (s[p] == '`' || s[p] == '<')
    requires RuleEnd(c, r, s, p).Some?
    ensures PrecedenceRule(r)
  {
  }

  /** So the scanner's match at a backtick or an angle bracket is one of those
      four rules. */
  lemma MatchAtLead(c: Config, rules: seq<Rule>, s: string, p: nat)
    requires p < |s| && (s[p] == '`' || s[p] == '<')
    ensures MatchAt(c, rules, s, p).Some? ==>
      PrecedenceRule(MatchAt(c, rules, s, p).value.rule)
  {
    var j := FirstHit(c, rules, s, p, 0);
    if j < |rules| {
      LeadRules(c, s, p, rules[j]);
    }
  }

  /** With no match at any position from `p` on, the search finds nothing. */
  lemma {:induction false} SearchNone(c: Config, rules: seq<Rule>, s: string, p: nat)
    requires forall q :: p <= q < |s| ==> MatchAt(c, rules, s, q).None?
    decreases |s| - p
    ensures Search(c, rules, s, p).None?
  {
    if p < |s| {
      SearchNone(c, rules, s, p + 1);
    }
  }
}
