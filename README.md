# mistune inline parser and directive syntax, in Dafny

This project models two parts of the mistune Markdown parser:

- The inline parser of mistune 3 (`mistune3/inline_parser.py`). It turns one paragraph of text into a list of inline tokens: text, emphasis, strong, links, images, code spans, inline HTML and line breaks. Two pieces are modelled.
  - `InlineModel` holds pure functions, one per handler. Each gives the tokens, the nesting flags and the resume position (or `None` when the handler declines). `ParseRun` is the loop of `parse` over them.
  - `InlineEngine` is the imperative form. `InlineState` is a class with the token list and the four nesting flags; `InlineParser` is a class whose methods append tokens to that state. Each method is proved to leave exactly the tokens and flags its `InlineModel` function gives.
  - Two handlers take their corrected form in both pieces: an unclosed emphasis run longer than three is recorded whole, and `parse_auto_email` takes `prec_pos`. So `ParseRun`, `Parse` and every member built on them give the corrected result on those inputs. The code as written is modelled next to them, and "## Findings" shows the difference.
- The reStructuredText-style directives.
  - The plugin base of mistune 3 (`mistune3/directives/base.py`): the handler registry, the `directive` block rule, `parse_options`, and the rule list, dedent and start line of `parse_children`.
  - The directive syntax of mistune 2 (`mistune/directives/_rst.py`): `parse_name`, `parse_title`, `parse_content` and `parse_directive`.

The regular expressions are not run.

- The simple start patterns of the scanner (`escape`, `codespan`, `emphasis`, `link`, `\s*\)`) are written out in `Scanner` and `InlineModel`.
- The long patterns (auto links, e-mail links, inline HTML, the precedence probes, the two line-break patterns) are parameters, as are the helpers from `helpers.py` and `util.py` (`parse_link_label`, `parse_link_text`, `parse_link_href`, `parse_link_title`, `unikey`, `safe_entity`, `escape`, `escape_url`, `unescape_char`). They are the fields of the datatype `Externals.Ext`; `Externals.Wf` says what the parser relies on about them.
- A directive match is given by its capture groups (`DirectiveBase.DirectiveMatch`, `RstDirective.RstMatch`). A predicate `Wf` says what the pattern guarantees about the groups.

Files:

- `tokens.dfy`: the token datatype, link attributes and nesting flags.
- `pytext.dfy`: the Python string operations used: `strip`, `splitlines`, `re.split(r'\n+', ...)` and `count`.
- `externals.dfy`, `scanner.dfy`, `inline_model.dfy`, `inline_engine.dfy`: the inline parser.
- `inline_properties.dfy`: its properties.
- `inline_findings.dfy`: two places where the inline parser's code does not do what it evidently means to.
- `directive_base.dfy`, `rst_directive.dfy`, `directive_findings.dfy`: the directives.

Three details of the code that the model keeps:

- An unclosed `*x` gives two text tokens: one for the marker (`mistune3/inline_parser.py:239`) and one for the rest (`mistune3/inline_parser.py:346`).
- The text token the precedence scan inserts, `marker + text[:start_pos]`, is not passed through `safe_entity` (`mistune3/inline_parser.py:368`).
- A refused nested link marker is recorded raw, without `safe_entity` (`mistune3/inline_parser.py:114` and `mistune3/inline_parser.py:117`).

## Model

| member | source | states |
|---|---|---|
| Scanner.EscapeEnd | mistune3/inline_parser.py:45 | the `escape` start pattern ends past `p` only at a backslash |
| Scanner.EscapeRun | mistune3/inline_parser.py:45 | the run is a whole number of backslash-punctuation pairs; it is non-empty exactly when one starts at `p`; no escape follows it |
| Scanner.EmphasisEnd | mistune3/inline_parser.py:51 | a match starts with `*` or `_`, is followed by a non-space character other than the marker, and a `*` run is at most three long |
| Scanner.LinkEnd | mistune3/inline_parser.py:54 | the match is `[` or `![` and ends at the bracket |
| Scanner.RuleEnd | mistune3/inline_parser.py:43-64 | a rule's match at `p` is non-empty and inside the text |
| Scanner.FirstHit | mistune3/inline_parser.py:65-74 | the index found is a rule that matches, or the end of the list |
| Scanner.FirstHitMisses | mistune3/inline_parser.py:65-74 | every rule before the one found fails at that position |
| Scanner.MatchAt | mistune3/inline_parser.py:359 | an anchored match starts at `p` and ends inside the text |
| Scanner.MatchAtFirst | mistune3/inline_parser.py:359 | the alternation reports the first rule in order that matches; no match means that every rule fails |
| Scanner.Search | mistune3/inline_parser.py:324 | a search match lies at or after `p` and inside the text |
| Scanner.SearchEarliest | mistune3/inline_parser.py:324 | the search reports the earliest position with a match; a failed search means no position from `p` on matches |
| Scanner.SearchNone | mistune3/inline_parser.py:324-326 | with no match anywhere from `p` on, the search finds nothing |
| Scanner.ProbeSearch | mistune3/inline_parser.py:350-351 | a probe hit lies inside the piece and is a position where the probe matches |
| Scanner.ProbeSearchFirst | mistune3/inline_parser.py:350-351 | the probe reports its earliest hit, and nothing only when it hits nowhere |
| Scanner.ProbeLead | mistune3/inline_parser.py:350 | a probe hit is a backtick or a `<` |
| Scanner.LeadRules | mistune3/inline_parser.py:43-64 | at a backtick or `<` only `codespan`, `auto_link`, `auto_email` and `inline_html` can match |
| Scanner.MatchAtLead | mistune3/inline_parser.py:358-363 | so the handler the precedence scan calls is one of those four, all of which take `prec_pos` except `parse_auto_email` |
| Externals.Anchor | mistune3/inline_parser.py:56-63 | only a non-empty match inside the text that starts with the pattern's lead character is used |
| Externals.Slice | mistune3/inline_parser.py:121-123 | only a label or text that is the slice after the bracket, with a position past it, is used |
| Externals.Forward | mistune3/inline_parser.py:389-393 | only a href or title result that does not move backwards is used |
| Externals.ExactUnderWf | mistune3/inline_parser.py:56-80 | for patterns and helpers that meet `Wf`, the parser sees exactly their results |
| PyText.BlankIsAllSpace | mistune3/inline_parser.py:290 | the recursive blank test is "every character is whitespace" |
| PyText.RunEnd | mistune3/inline_parser.py:48 | the run end is inside the text and stops at a character other than `c` |
| PyText.RunEndAll | mistune3/inline_parser.py:48 | every character of the run is `c` |
| PyText.SpaceRunEnd | mistune3/inline_parser.py:20 | the whitespace run ends inside the text at a non-space character |
| PyText.SpaceRunEndAll | mistune3/inline_parser.py:20 | every character of the run is whitespace |
| PyText.LeadingSpace | mistune3/directives/base.py:89 | the count is the largest all-whitespace prefix |
| PyText.LStrip | mistune3/directives/base.py:89 | the result is no longer than the text, the characters in front of it are whitespace, and it starts with a non-space character; `StripEnds` states that it is a suffix |
| PyText.TrailingSpace | mistune3/directives/base.py:89 | the count is the largest all-whitespace suffix |
| PyText.RStrip | mistune3/directives/base.py:89 | the result is no longer than the text, the characters after it are whitespace, and it ends with a non-space character; `StripEnds` states that it is a prefix |
| PyText.StripEnds | mistune3/directives/base.py:89 | `lstrip` gives a suffix of the text and `rstrip` a prefix |
| PyText.Strip | mistune3/directives/base.py:84 | `strip()` is empty exactly for a blank text, and otherwise starts and ends with a non-space character |
| PyText.StripShape | mistune3/directives/base.py:84 | `strip()` is empty exactly when every character is whitespace |
| PyText.StripAround | mistune3/directives/base.py:89 | stripping whitespace around a core that starts and ends with a non-space character gives the core back |
| PyText.LStripAround | mistune3/directives/base.py:89 | `lstrip` removes exactly a whitespace prefix in front of a non-space character |
| PyText.RStripAround | mistune3/directives/base.py:89 | `rstrip` removes exactly a whitespace suffix after a non-space character |
| PyText.IndexOf | mistune3/directives/base.py:92 | the index is the first occurrence of `c`, or the length when there is none |
| PyText.Drop | mistune3/directives/base.py:115 | `line[n:]` is what follows the first `n` characters: the line is those characters followed by the result, which is empty once `n` passes the end |
| PyText.LineBreakAt | mistune3/directives/base.py:115 | the index is the first line boundary, with no boundary before it |
| PyText.SplitLines | mistune3/directives/base.py:115 | `splitlines()` is empty exactly for the empty text, and no line holds a line boundary |
| PyText.SplitNewlineRuns | mistune3/directives/base.py:88 | `re.split(r'\n+', ...)` gives at least one piece, none holding a newline |
| PyText.JoinTerminated | mistune3/directives/base.py:115 | `'\n'.join(parts) + '\n'` of a non-empty list writes every part as a terminated line |
| PyText.TerminatedCount | mistune3/directives/base.py:115 | terminated lines without newlines hold one newline each |
| PyText.SplitLinesTerminated | mistune3/directives/base.py:115 | `splitlines` of terminated lines gives the lines back |
| InlineModel.Inner | mistune3/inline_parser.py:191 | `text[1:-1]` is what lies between the first and the last character: putting them back around it gives the text; it is empty for a text shorter than two |
| InlineModel.Record | mistune3/inline_parser.py:371-373 | definition of `record_text`: one entity-escaped text token and the given position |
| InlineModel.Tail | mistune3/inline_parser.py:342-346 | definition of the text after the last match; `PlainTextIsOneToken` and `TrailingText` state its cases |
| InlineModel.ParseRun | mistune3/inline_parser.py:320-347 | definition of `parse` over the corrected handlers (see Findings); `ParseRunAt`, `GapComesFirst`, `DeclineKeepsOneChar`, `AcceptResumes`, `PlainTextIsOneToken` and `TrailingText` state its properties, and `InlineParser.Parse` is proved to compute it |
| InlineModel.Gap | mistune3/inline_parser.py:329-331 | the text before a match is at most one token |
| InlineModel.Fill | mistune3/inline_parser.py:334-338 | the character kept when a handler declines is at most one token |
| InlineModel.ParseRunAt | mistune3/inline_parser.py:323-340 | one round of `parse`: the gap, the handler's tokens or one character of text, then the run from the resume position, with the flags the handler left (corrected form, see Findings) |
| InlineModel.HandlerStep | mistune3/inline_parser.py:333 | an accepting handler resumes past the start of its match and inside the text; a declining one adds nothing and keeps the flags (corrected form, see Findings) |
| InlineModel.EscapeStep | mistune3/inline_parser.py:99-106 | definition of `parse_escape`; `InlineProperties.EscapeOutput` states what it gives for the match `parse` finds |
| InlineModel.CodeCloseFrom | mistune3/inline_parser.py:278-281 | a closing position found is a place where a run of the same length closes |
| InlineModel.CodeCloseFirst | mistune3/inline_parser.py:278-281 | the lazy `.*?` finds the earliest closing run, and finds none only when there is none |
| InlineModel.NewlinesToSpaces | mistune3/inline_parser.py:289 | `replace('\n', ' ')` keeps the length |
| InlineModel.NewlinesToSpacesAt | mistune3/inline_parser.py:289 | each character is the original, with a newline turned into a space |
| InlineModel.CodeText | mistune3/inline_parser.py:287-292 | definition of the code of a span; `CodeTextContent` states it in terms of the raw span |
| InlineModel.CodeTextContent | mistune3/inline_parser.py:287-292 | the code of a span is the raw content with newlines as spaces and one space stripped from each end when both ends are spaces and the content is not blank |
| InlineModel.CodespanStep | mistune3/inline_parser.py:274-297 | `parse_codespan` resumes at or past the end of the opening run; under `prec_pos` it never resumes before `prec_pos` |
| InlineModel.CodespanClose | mistune3/inline_parser.py:282-297 | the same once the closing run is known |
| InlineModel.AutoLinkStep | mistune3/inline_parser.py:182-193 | `parse_auto_link` resumes at the end of the match, and declines only when `prec_pos` lies past it |
| InlineModel.AutoEmailStep | mistune3/inline_parser.py:195-204 | `parse_auto_email` resumes at the end of the match; it declines only under a `prec_pos` past it (the corrected form, see Findings) |
| InlineModel.OpensAnchor | mistune3/inline_parser.py:314-315 | definition of the opening-anchor test; `InlineHtmlAnchors` and `AnchorTagsDisjoint` state its use |
| InlineModel.ClosesAnchor | mistune3/inline_parser.py:316-317 | definition of the closing-anchor test; `InlineHtmlAnchors` and `AnchorTagsDisjoint` state its use |
| InlineModel.InlineHtmlStep | mistune3/inline_parser.py:307-318 | `parse_inline_html` resumes at the end of the match, and declines only when `prec_pos` lies past it |
| InlineModel.InnerStep | mistune3/inline_parser.py:363-364 | the handler called with `prec_pos` resumes at or past `prec_pos` and past its match, with one token (corrected form, see Findings) |
| InlineModel.PrecedenceStep | mistune3/inline_parser.py:349-369 | `_precedence_scan` that wins resumes at or past the end of the scanned piece; one that declines adds nothing (corrected form, see Findings) |
| InlineModel.PrecedenceProbe | mistune3/inline_parser.py:355-361 | the same once the probe has hit (corrected form, see Findings) |
| InlineModel.PrecedenceAt | mistune3/inline_parser.py:363-369 | when the handler accepts, the marker and the text before the construct come first, as one text token (corrected form, see Findings) |
| InlineModel.Refused | mistune3/inline_parser.py:218-229 | definition of the nesting refusals; `EmphasisRefused` states what a refused run gives |
| InlineModel.EmphasisToken | mistune3/inline_parser.py:252-271 | definition of the emphasis token for one to three markers; `EmphasisOutput` and `InlineParser.RenderEmphasis` state its use |
| InlineModel.EmphCloseFrom | mistune3/inline_parser.py:233-237 | a closer found is a position where the marker closes the emphasis |
| InlineModel.EmphCloseFirst | mistune3/inline_parser.py:233-237 | the lazy `.*?` finds the earliest closer, and finds none only when there is none |
| InlineModel.EmphasisStep | mistune3/inline_parser.py:214-272 | `parse_emphasis` always accepts and resumes at or past the end of the marker run (corrected form, see Findings) |
| InlineModel.EmphasisBody | mistune3/inline_parser.py:232-272 | the same past the refusal checks (corrected form, see Findings) |
| InlineModel.EmphasisAfter | mistune3/inline_parser.py:238-272 | the same once the search for the closer is done (corrected form, see Findings) |
| InlineModel.EmphasisClosed | mistune3/inline_parser.py:241-272 | the same once the closer is found |
| InlineModel.LinkStep | mistune3/inline_parser.py:108-162 | `parse_link` that accepts resumes at or past the end of the marker; one that declines adds nothing and keeps the flags |
| InlineModel.LinkResolve | mistune3/inline_parser.py:133-162 | a declining resolution adds nothing and keeps the flags |
| InlineModel.LinkResolveCases | mistune3/inline_parser.py:133-137 | a precedence scan that wins decides the link; otherwise the destination does |
| InlineModel.LinkTail | mistune3/inline_parser.py:137-162 | the destination gives one token and resumes at or past the end of the text; the flags are unchanged |
| InlineModel.LinkToken | mistune3/inline_parser.py:164-180 | definition of `_add_link_token`'s token; `InlineParser.AddLinkToken` is proved to append it and `InlineDestination` states its use |
| InlineModel.RefTarget | mistune3/inline_parser.py:146-162 | the reference target's resume position is at or past the end of the text and inside the source |
| InlineModel.LinkRef | mistune3/inline_parser.py:146-162 | the reference form gives one token or nothing, and keeps the flags |
| InlineModel.ParenEnd | mistune3/inline_parser.py:395 | `PAREN_END_RE` ends at a `)` inside the text |
| InlineModel.ParenEndSpaces | mistune3/inline_parser.py:20 | what it skips before the `)` is whitespace |
| InlineModel.ParseStdLink | mistune3/inline_parser.py:388-403 | `_parse_std_link` ends after a `)`; the url is the escaped, unescaped href |
| InlineEngine.InsertBeforeLast | mistune3/inline_parser.py:368 | `insert_token` puts the new token just before the last one and keeps the rest in order |
| InlineEngine.InsertBeforeAppended | mistune3/inline_parser.py:364-368 | inserted before the handler's one token, the new token sits between the earlier tokens and it |
| InlineEngine.PrecedenceAccepted | mistune3/inline_parser.py:364-369 | the state after the insertion is the one `PrecedenceAt` describes |
| InlineEngine.RoundTokens | mistune3/inline_parser.py:323-340 | the tokens of one round followed by the run from where it stopped are the run from where it started |
| InlineEngine.ResolveAccepted | mistune3/inline_parser.py:133-135 | a precedence scan that wins leaves the state `LinkResolve` describes |
| InlineEngine.ResolveDeclined | mistune3/inline_parser.py:137-162 | otherwise the destination leaves that state |
| InlineEngine.EmphasisAccepted | mistune3/inline_parser.py:248-250 | a precedence scan that wins, after the hole, leaves the state `EmphasisClosed` describes |
| InlineEngine.EmphasisDeclined | mistune3/inline_parser.py:252-272 | otherwise the emphasis token leaves that state |
| InlineEngine.InlineState.constructor | mistune3/inline_parser.py:385 | a new state has the given `ref_links`, no text, no tokens and no flags set |
| InlineEngine.InlineState.AppendToken | mistune3/inline_parser.py:102-105 | `append_token` adds the token at the end |
| InlineEngine.InlineState.InsertToken | mistune3/inline_parser.py:368 | `insert_token` puts the token before the last one |
| InlineEngine.InlineState.Copy | mistune3/inline_parser.py:244 | `copy` gives a fresh state with the same environment and flags and no tokens |
| InlineEngine.InlineParser.constructor | mistune3/inline_parser.py:83-97 | under `hard_wrap` the rules are the default ones; otherwise `softbreak` is added last |
| InlineEngine.InlineParser.ParseEscape | mistune3/inline_parser.py:99-106 | appends exactly the tokens of `EscapeStep` and returns its position |
| InlineEngine.InlineParser.ParseLink | mistune3/inline_parser.py:108-135 | appends exactly the tokens of `LinkStep`, leaves its flags and returns its position |
| InlineEngine.InlineParser.ParseLinkResolve | mistune3/inline_parser.py:133-162 | the same for `LinkResolve` |
| InlineEngine.InlineParser.ParseLinkTail | mistune3/inline_parser.py:137-162 | the same for `LinkTail` |
| InlineEngine.InlineParser.ParseLinkRef | mistune3/inline_parser.py:146-162 | the same for `LinkRef` |
| InlineEngine.InlineParser.AddLinkToken | mistune3/inline_parser.py:164-180 | appends the link or image token whose children are the text parsed with `in_link` or `in_image` set |
| InlineEngine.InlineParser.ParseAutoLink | mistune3/inline_parser.py:182-193 | appends exactly the tokens of `AutoLinkStep` and returns its position |
| InlineEngine.InlineParser.ParseAutoEmail | mistune3/inline_parser.py:195-204 | the same for `AutoEmailStep` |
| InlineEngine.InlineParser.AddAutoLink | mistune3/inline_parser.py:206-212 | appends the link whose only child is the text and whose url is escaped |
| InlineEngine.InlineParser.ParseEmphasis | mistune3/inline_parser.py:214-231 | appends exactly the tokens of `EmphasisStep`, leaves its flags and returns its position (corrected form, see Findings) |
| InlineEngine.InlineParser.ParseEmphasisBody | mistune3/inline_parser.py:232-272 | the same for `EmphasisBody` (corrected form, see Findings) |
| InlineEngine.InlineParser.ParseEmphasisClosed | mistune3/inline_parser.py:241-272 | the same for `EmphasisClosed` |
| InlineEngine.InlineParser.RenderEmphasis | mistune3/inline_parser.py:252-271 | the token is the `EmphasisToken` of the text for the marker's length |
| InlineEngine.InlineParser.ParseCodespan | mistune3/inline_parser.py:274-297 | appends exactly the tokens of `CodespanStep` and returns its position |
| InlineEngine.InlineParser.ParseLinebreak | mistune3/inline_parser.py:299-301 | appends one `linebreak` and resumes at the end of the match |
| InlineEngine.InlineParser.ParseSoftbreak | mistune3/inline_parser.py:303-305 | appends one `softbreak` and resumes at the end of the match |
| InlineEngine.InlineParser.ParseInlineHtml | mistune3/inline_parser.py:307-318 | appends exactly the tokens of `InlineHtmlStep`, leaves its flags and returns its position |
| InlineEngine.InlineParser.ParseMethod | mistune3/inline_parser.py:333 | the handler of the matched rule does what `HandlerStep` says (corrected form, see Findings) |
| InlineEngine.InlineParser.Parse | mistune3/inline_parser.py:320-347 | `parse` appends the tokens of `ParseRun` and leaves its flags (corrected form, see Findings) |
| InlineEngine.InlineParser.ParseRound | mistune3/inline_parser.py:324-340 | one round moves the cursor forward and keeps "tokens so far + run from the cursor" unchanged (corrected form, see Findings) |
| InlineEngine.InlineParser.AppendGap | mistune3/inline_parser.py:328-331 | appends the text before the match, when there is any |
| InlineEngine.InlineParser.AppendFill | mistune3/inline_parser.py:334-338 | appends one character of text when the handler declined |
| InlineEngine.InlineParser.PrecedenceScan | mistune3/inline_parser.py:349-369 | appends exactly the tokens of `PrecedenceStep` and returns its position (corrected form, see Findings) |
| InlineEngine.InlineParser.PrecedenceProbe | mistune3/inline_parser.py:355-369 | the same for `PrecedenceProbe` (corrected form, see Findings) |
| InlineEngine.InlineParser.PrecedenceMatch | mistune3/inline_parser.py:363-369 | the same for `PrecedenceAt` (corrected form, see Findings) |
| InlineEngine.InlineParser.ParseInner | mistune3/inline_parser.py:363-364 | the same for `InnerStep` (corrected form, see Findings) |
| InlineEngine.InlineParser.RecordText | mistune3/inline_parser.py:371-373 | appends the entity-escaped text and returns the given position |
| InlineEngine.InlineParser.RenderText | mistune3/inline_parser.py:375-377 | the tokens are those before plus the run of `s` from the start |
| InlineEngine.InlineParser.Call | mistune3/inline_parser.py:384-385 | the tokens of `s` over `refs` are its run from the start with no flags set |
| InlineProperties.PlainTextIsOneToken | mistune3/inline_parser.py:342-344 | text without any match is one text token, the whole of it |
| InlineProperties.TrailingText | mistune3/inline_parser.py:345-346 | after the last match the rest is one text token; at the end nothing is added |
| InlineProperties.GapComesFirst | mistune3/inline_parser.py:328-331 | the text before the next match comes first, and nothing in it matches |
| InlineProperties.DeclineKeepsOneChar | mistune3/inline_parser.py:334-338 | a declining handler leaves one character of text and the parse goes on after it with the flags unchanged |
| InlineProperties.AcceptResumes | mistune3/inline_parser.py:339-340 | an accepting handler's tokens come next and the parse resumes where it said, past its match |
| InlineProperties.EscapeOutput | mistune3/inline_parser.py:99-106 | an escape match that `parse` finds starts with a backslash, is a whole number of backslash-punctuation pairs and is followed by no further pair; `parse_escape` gives its unescaped text as one token, keeps the flags and resumes at its end |
| InlineProperties.HardWrapRules | mistune3/inline_parser.py:88-93 | under `hard_wrap` no `softbreak` is reported; otherwise `softbreak` wins only where every other rule fails |
| InlineProperties.CodespanCloses | mistune3/inline_parser.py:282-294 | a closed code span gives one `codespan` token of its normalised content and resumes after the closing run |
| InlineProperties.ClosingRunExact | mistune3/inline_parser.py:278 | the closing run has exactly as many backticks as the opening one |
| InlineProperties.CodespanUnclosed | mistune3/inline_parser.py:296-297 | without a closing run the marker is text and the cursor moves past it |
| InlineProperties.CodespanUnderPrecedence | mistune3/inline_parser.py:284-297 | under `prec_pos` an unclosed span declines, and a closed one declines exactly when it ends before `prec_pos` |
| InlineProperties.EmphasisRefused | mistune3/inline_parser.py:218-229 | a run refused by the nesting flags is text and the cursor moves past it |
| InlineProperties.LongRunHole | mistune3/inline_parser.py:218-224 | an accepted run longer than three keeps all but its last three characters as a hole, outside any emphasis |
| InlineProperties.UnterminatedEmphasis | mistune3/inline_parser.py:237-239 | without a closer the whole run is text and the cursor moves past it (corrected form, see Findings) |
| InlineProperties.EmphasisOutput | mistune3/inline_parser.py:241-272 | with a closer and no winning precedence scan: the hole, then the emphasis token; the cursor moves past the closer |
| InlineProperties.EmphasisCloser | mistune3/inline_parser.py:233-237 | the closer is the earliest one; it follows a character that is neither whitespace nor the marker, and `_` needs a word boundary after it |
| InlineProperties.PrecedenceNoProbe | mistune3/inline_parser.py:351-353 | no probe hit: the scan declines |
| InlineProperties.PrecedenceNoMatch | mistune3/inline_parser.py:359-361 | no full match at the probe hit: the scan declines |
| InlineProperties.PrecedenceHit | mistune3/inline_parser.py:355-369 | otherwise the handler is called with `prec_pos`; when it accepts, the marker and text before the construct come first |
| InlineProperties.PrecedenceRunsOut | mistune3/inline_parser.py:364-369 | a winning scan ends past the piece it scanned and gives two tokens |
| InlineProperties.LinkNestingRefused | mistune3/inline_parser.py:112-118 | a link inside a link, or an image inside an image, is its raw marker as text |
| InlineProperties.ReferenceNeedsKey | mistune3/inline_parser.py:146-162 | a reference link is made exactly when its label's key is in `ref_links`, and it resumes after the label |
| InlineProperties.ShortcutReference | mistune3/inline_parser.py:137-162 | `[label]` followed by neither `(` nor `[` links to its own label's entry |
| InlineProperties.InlineDestination | mistune3/inline_parser.py:139-144 | an inline destination that `_parse_std_link` accepts gives the link with its attributes |
| InlineProperties.StdLinkParts | mistune3/inline_parser.py:388-403 | the url is the escaped, unescaped href; a title is kept exactly when read and not empty; only whitespace precedes the `)` |
| InlineProperties.AutoLinkOutput | mistune3/inline_parser.py:182-193 | inside a link the match is text; otherwise a link whose url and text are the match without its brackets |
| InlineProperties.AutoEmailOutput | mistune3/inline_parser.py:195-212 | the same, with `mailto:` before the url |
| InlineProperties.InlineHtmlAnchors | mistune3/inline_parser.py:312-318 | the raw HTML is a token; an opening anchor sets `in_link`, a closing one clears it, other tags and flags are left alone |
| InlineProperties.AnchorTagsDisjoint | mistune3/inline_parser.py:314-317 | no tag both opens and closes an anchor |
| InlineFindings.EmphasisAfterAsWritten | mistune3/inline_parser.py:237-239 | as written, with no closer only the cut marker is recorded; with one it agrees with the corrected handler |
| InlineFindings.UnclosedRunAsWritten | mistune3/inline_parser.py:222-239 | as written, an unclosed run with a hole loses the hole; the corrected handler keeps the whole run |
| InlineFindings.UnclosedRunExample | mistune3/inline_parser.py:214-239 | on `____a` the code records `___`; the corrected handler records `____` |
| InlineFindings.InnerAsWritten | mistune3/inline_parser.py:363-364 | as written, the call raises exactly for `auto_email`, and otherwise agrees with the corrected call |
| InlineFindings.PrecedenceAsWrittenAgrees | mistune3/inline_parser.py:349-369 | the scan as written raises exactly when it found an e-mail link, and otherwise resumes where the corrected scan does |
| InlineFindings.EmailInEmphasisExample | mistune3/inline_parser.py:349-369 | on `*x <ab@c.de> y*` the scan as written raises; the corrected scan declines |
| DirectiveBase.Wf | mistune3/directives/base.py:24-28 | definition of what `DIRECTIVE_PATTERN` guarantees of a match's groups; `NoteMatchWf` shows a match that meets it |
| DirectiveBase.DirectiveToken | mistune3/directives/base.py:60-68 | a registered name gets its handler's token; any other gets a `block_error` reading `Unsupported directive: ` and the name |
| DirectiveBase.RegisterThenDispatch | mistune3/directives/base.py:52-63 | after registering, that name goes to the new handler and every other name is dispatched as before |
| DirectiveBase.BlockState.constructor | mistune3/directives/base.py:56 | a block state starts at the beginning of its source with no tokens |
| DirectiveBase.BlockState.GetText | mistune3/directives/base.py:71 | `get_text` is the source from the cursor up to the position |
| DirectiveBase.BlockState.AddToken | mistune3/directives/base.py:73 | `add_token` appends the token with its line count |
| DirectiveBase.PluginDirective.constructor | mistune3/directives/base.py:49-50 | the registry starts empty |
| DirectiveBase.PluginDirective.RegisterDirective | mistune3/directives/base.py:52-53 | the handler is stored under the name, replacing an earlier one; no other entry changes |
| DirectiveBase.PluginDirective.ParseBlockDirective | mistune3/directives/base.py:55-75 | no match: nothing changes and the result is false; a match: one token with the newline count of the matched text is added, the cursor moves to the end of the match, and the result is true |
| DirectiveBase.OptionPair | mistune3/directives/base.py:92-94 | with a `:` the key is the text before the first one and the value the stripped rest; without one the key loses its last character and the value is the stripped line |
| DirectiveBase.OptionPairOf | mistune3/directives/base.py:92-94 | for a key without `:`, the pair of `key:rest` is the key and the stripped rest |
| DirectiveBase.Gather | mistune3/directives/base.py:88-95 | at most one option per piece, and one for every piece exactly when `f` reads an option from each of them |
| DirectiveBase.GatherFrom | mistune3/directives/base.py:88-95 | every option gathered is the one `f` reads from one of the pieces |
| DirectiveBase.OptionOf | mistune3/directives/base.py:89-94 | definition of one piece of the loop; `ReadOption` is proved to compute it and `OptionLineOf` reads an option line back |
| DirectiveBase.Options | mistune3/directives/base.py:82-96 | definition of `parse_options`; `ParseOptions` is proved to compute it, `BlankOptionsNone` covers the early return and `OptionsRoundTrip` is its round trip |
| DirectiveBase.GatherStep | mistune3/directives/base.py:88-95 | one step of the loop appends the next piece's option, or skips it |
| DirectiveBase.ReadOption | mistune3/directives/base.py:89-94 | the body of the loop reads the option `OptionOf` gives for one piece |
| DirectiveBase.CollectOptions | mistune3/directives/base.py:87-96 | the loop gathers the options of all pieces, in order |
| DirectiveBase.ParseOptions | mistune3/directives/base.py:82-96 | `parse_options` returns the options of the group |
| DirectiveBase.SplitRunsBlank | mistune3/directives/base.py:88 | the pieces of a blank text are blank |
| DirectiveBase.GatherBlank | mistune3/directives/base.py:88-91 | blank pieces give no option |
| DirectiveBase.BlankOptionsNone | mistune3/directives/base.py:84-85 | the early `return []` for a blank group agrees with what the loop would give |
| DirectiveBase.OptionLines | mistune3/directives/base.py:26 | one option line per option |
| DirectiveBase.OptionLineCut | mistune3/directives/base.py:89 | stripping an option line and cutting its `:` leaves `key:` and the value |
| DirectiveBase.OptionLineOf | mistune3/directives/base.py:89-95 | an option line with a well-formed key and value reads back as that pair |
| DirectiveBase.SplitRunsFirst | mistune3/directives/base.py:88 | `re.split(r'\n+', ...)` cuts a line ended by one newline off the front |
| DirectiveBase.SplitRunsTerminated | mistune3/directives/base.py:88 | non-empty terminated lines split back into the lines and one empty piece |
| DirectiveBase.OptionLineShape | mistune3/directives/base.py:26 | an option line is one non-empty line |
| DirectiveBase.OptionsOfLines | mistune3/directives/base.py:88-95 | the option lines of a list read back as that list |
| DirectiveBase.OptionsRoundTrip | mistune3/directives/base.py:82-96 | round trip: `parse_options` of a group written from well-formed options gives those options in order |
| DirectiveBase.Position | mistune3/directives/base.py:107 | the index is the first occurrence of the name, or the length |
| DirectiveBase.ChildRules | mistune3/directives/base.py:106-107 | `remove` drops the first `directive` and keeps the rest in order; without one it raises |
| DirectiveBase.ChildRulesNoDirective | mistune3/directives/base.py:106-107 | with `directive` registered once, the child rules are every other rule and no `directive` |
| DirectiveBase.DropEach | mistune3/directives/base.py:115 | each line loses its first `n` characters |
| DirectiveBase.Dedent | mistune3/directives/base.py:114-115 | the dedented text ends with a newline; its lines are the lines of the content, each cut by `n`, one per newline; an empty content becomes one newline |
| DirectiveBase.ChildText | mistune3/directives/base.py:114-116 | definition: `Dedent` of the content by `len(m.group(1)) + 2`, whose contract gives its lines |
| DirectiveBase.StartLine | mistune3/directives/base.py:103-104 | the child state starts after the newlines of the match before its content (corrected, see Findings) |
| DirectiveFindings.CutLast | mistune3/directives/base.py:103 | `s[:-n]` for `0 < n <= len(s)` is what comes before the last `n` characters: followed by them it gives `s`; for `n == 0`, and for `n` past the length, it is empty |
| DirectiveFindings.StartLineAsWritten | mistune3/directives/base.py:103-104 | as written, the start line is never before `state.line` |
| DirectiveFindings.StartLineAsWrittenAgrees | mistune3/directives/base.py:103-104 | with content the code's start line is the corrected one; without it, it is `state.line` |
| DirectiveFindings.HeadCount | mistune3/directives/base.py:25 | the newlines of a directive's head are those after its first line |
| DirectiveFindings.StartLineAfterHead | mistune3/directives/base.py:103-104 | the corrected start line is past the directive's first line |
| DirectiveFindings.NoteMatchWf | mistune3/directives/base.py:24-28 | `.. note:: x` followed by a newline is a match of the pattern |
| DirectiveFindings.EmptyContentExample | mistune3/directives/base.py:103-104 | for that directive the code starts the child on line 0, where the corrected start line is 1 |
| RstDirective.Wf | mistune/directives/_rst.py:7-11 | definition of what `_directive_re` guarantees of a match's groups; `GroupsRead` and `HeadDetermined` state what follows from it |
| RstDirective.NameRunEnd | mistune/directives/_rst.py:8 | the name run ends inside the text at a character outside `[a-zA-Z0-9_-]` |
| RstDirective.Reading | mistune/directives/_rst.py:8 | the spans of the first-line scan are ordered and inside the text |
| RstDirective.FirstLineAt | mistune/directives/_rst.py:8 | the parts of the first line together lie at the cursor |
| RstDirective.FullAt | mistune/directives/_rst.py:7-11 | the parts spell `m.group(0)`, which ends at the end of the content |
| RstDirective.SpacesRead | mistune/directives/_rst.py:8 | ` +` and ` *` take every space up to the next non-space |
| RstDirective.NameRead | mistune/directives/_rst.py:8 | the name group runs up to the `::` |
| RstDirective.TitleRead | mistune/directives/_rst.py:8 | the title runs up to the newline or the end of the source |
| RstDirective.ReadingOf | mistune/directives/_rst.py:8 | the scan is determined by its four step ends |
| RstDirective.NameSpanRead | mistune/directives/_rst.py:8 | the scan finds the name right after the indentation, ending at the `::` |
| RstDirective.TitleSpanRead | mistune/directives/_rst.py:8 | the scan finds the title after the spaces and ending at the end of the line |
| RstDirective.LineRead | mistune/directives/_rst.py:8 | the scan of a first line laid out by the pattern finds its name and title |
| RstDirective.GroupsRead | mistune/directives/_rst.py:7-11 | the groups of any match are what the scan reads: the pattern leaves no choice in the first line |
| RstDirective.HeadDetermined | mistune/directives/_rst.py:7-11 | two matches at the same place agree on indentation, name, spaces and title |
| RstDirective.ParseName | mistune/directives/_rst.py:17-19 | `parse_name` is the non-empty run of name characters the first line spells |
| RstDirective.ParseTitle | mistune/directives/_rst.py:21-23 | `parse_title` is the rest of the first line after `::` and its spaces: no newline, not starting with a space |
| RstDirective.ParseContent | mistune/directives/_rst.py:25-31 | definition: `Dedent` of the content by `len(m.group(1)) + 2`, shared with `ChildText`, whose contract gives its lines |
| RstDirective.ParseDirective | mistune/directives/_rst.py:63-70 | no match: nothing; a match: the `parse_name` name and the end of the whole match, at least six characters on |
| RstDirective.DispatchPastHead | mistune/directives/_rst.py:70 | the returned end lies past the whole first line, and at the end of the source when the line has no newline |

## Left out

- `InlineModel.ParseRun`, `InlineParser.Parse` and everything built on them (`Call`, `RenderText`, the children of emphasis and link tokens) follow the two corrected handlers named under "## Findings". They do not give the code's results on an unclosed emphasis run longer than three, or on an e-mail link found by the precedence scan. The code as written is modelled in `InlineFindings`.
- The regular expressions `auto_link`, `auto_email`, `INLINE_HTML`, `prec_auto_link`, `prec_inline_html`, `STD_LINEBREAK` and `HARD_LINEBREAK` are parameters (`Externals.Ext`) and are not run. So are the helpers `parse_link_label`, `parse_link_text`, `parse_link_href`, `parse_link_title`, `unikey`, `safe_entity`, `escape`, `escape_url`, `unescape_char`, `\w` and `PUNCTUATION`. `Externals.Wf` states only the facts the parser needs about them.
- `DIRECTIVE_PATTERN` and `_directive_re` are not run. A match is given by its groups with `Wf`. `Wf` leaves out the line structure of the options and content groups (`  \1 {0,3}...\n+`). So `ParseBlockDirective` and `ParseDirective` take the result of `state.match` as a parameter.
- The renderer is left out: `render_tokens` is modelled with no renderer (`return list(tokens)`). With a renderer, `children` would be rendered output rather than tokens.
- `compile_sc` is modelled by `Scanner.Rules`, `MatchAt` and `Search`. The `lastgroup` lookup is the rule `MatchAt` reports. The Python `re` engine itself is not modelled.
- `InlineState` and `insert_token` live in `core.py`, which is not part of this model. `insert_token` is modelled as inserting before the last token.
- InlineModel.RefTarget: a `ref_links` entry counts as found whenever its key is present. The source's `if attrs:` would also reject an entry that is an empty dictionary; `LinkAttrs` always has a url.
- The truthiness tests on positions (`if prec_pos`, `if pos2`, `if not new_pos`) are modelled as `Some`/`None`. Every such position is past the start of a match, so it is never 0.
- `Directive.register_directive` and `PluginDirective.__call__` are left out. They install the plugin on a `Markdown` object (`md._rst_directive`, `md.block.register_rule`), which is not part of this model. Only the registry and the block rule are modelled.
- `Directive.parse`, `Directive.__call__` and the handlers are left out. Handlers are functions of the match (`DirectiveBase.Handler`); the `block` and `state` arguments they also get are not.
- `parse_children` is left out beyond its computed values: the child rule list (`ChildRules`), the child text (`ChildText`) and the start line (`StartLine`). `block.state_cls`, `child.process` and `block.parse` belong to the block parser, which is not part of this model.
- `pretext` in `RstParser.parse_content` is computed and never used, so it is not modelled.
- `DirectiveMatch.value` is not required to start with a non-space character (the greedy ` *` before it ensures that). `Wf` is weaker than the pattern there; the results hold for every match.

## Findings

| source | as written | input that shows it | evidently intended | confidence | as-written member | corrected member |
|---|---|---|---|---|---|---|
| mistune3/inline_parser.py:239 | An unclosed run of more than three markers records only `marker`, which was already cut to its last three characters. The cursor still moves past the whole run, so the hole is in no token. | `____a`: the code records `___` and resumes at `a`. | Record the whole run (`hole + marker`). | not executed | InlineFindings.EmphasisAfterAsWritten, InlineFindings.UnclosedRunExample | InlineModel.EmphasisAfter, InlineProperties.UnterminatedEmphasis |
| mistune3/inline_parser.py:364 | `_precedence_scan` calls every handler with three arguments, but `parse_auto_email` takes no `prec_pos`, so the call raises `TypeError`. | `*x <ab@c.de> y*`, where the probe hits `<ab` and the scanner matches `<ab@c.de>` as `auto_email`. | `parse_auto_email` takes `prec_pos` like `parse_auto_link` does. | not executed | InlineFindings.InnerAsWritten, InlineFindings.EmailInEmphasisExample | InlineModel.AutoEmailStep, InlineModel.InnerStep |
| mistune3/directives/base.py:103-104 | `full_content[:-len(text)]` is empty when the content group is empty, because `s[:-0]` is `s[:0]`. The child's start line then misses the newlines of the directive's head. | `.. note:: x` followed by one newline: start line 0 instead of 1. | Count the newlines of the match before its content. | not executed | DirectiveFindings.StartLineAsWritten, DirectiveFindings.EmptyContentExample | DirectiveBase.StartLine, DirectiveFindings.StartLineAfterHead |
