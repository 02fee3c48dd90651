# CriticMarkup and Smart Embeds preprocessors, in Dafny

This project models two preprocessors from a Python-Markdown extension set. Both turn a
document's lines into new lines before the Markdown parser sees them.

**CriticMarkup** (`critic_markup.dfy`) applies five global rewrites to the joined text of
the document, in the order addition, deletion, substitution, highlight, comment:

- `{++x++}` becomes `<ins>`. One of four forms is chosen by whether the value starts or
  ends with a blank line.
- `{--x--}` becomes `<del>`. A blank line in the value becomes `&nbsp`.
- `{~~a~>b~~}` becomes `<del>a</del><ins>b</ins>`.
- `{==x==}` becomes `<mark>`.
- `{>>x<<}` becomes a comment `<span>`.

Four of the grammars have the shape `OPEN (.*?) CLOSE`. They share one lazy scanner,
`RewriteSpans`. The substitution grammar limits what its two values may hold, so it has
a scanner of its own, `RewriteSubstitutions`.

**Smart Embeds** (`embed_directive.dfy`, `embed_attributes.dfy`, `smart_embeds.dfy`)
scans the lines one by one. A line of the form

    @protocol:[title](url "{{attributes}}")

whose protocol is `slideshare`, `pdf`, `youtube`, `vimeo` or `speakerdeck` is replaced
by an HTML snippet. The snippet is a template filled from a parameter map, built in
layers:

1. the title and the url;
2. the protocol's defaults;
3. the parsed attributes;
4. values derived from the url: the vimeo or youtube id, or the reconciled slideshare
   `id`/`sid` pair.

Every other line passes through unchanged, except that a non-empty line of blanks raises
`IndexError`, and a known directive raises whatever its attributes or template raise (see
below).

The parts of `run` and `_process` that update state step by step are methods with loops
and in-place map updates:

- `Run` is `run`.
- `Process` and `Layer` are `_process`.
- `ParseAttributes` is `_attributes`.

Each method is proved equal to a specification function: `RunLines`, `Embed` and
`Attributes`. The properties are then proved about those functions.

Exceptions the source can raise on its own input are modelled as `Err` values of a
`Result`:

- `IndexError` for a non-empty all-blank line;
- `AttributeError` for a bare word after an explicit `class=`;
- `KeyError` for a placeholder without a value.

The source is Python 2 code. It calls `dict.has_key` (smartembeds.py:279), which
exists only in Python 2. It takes `parse_qs` from the Python 2 module `urlparse`, and
falls back to `cgi` (smartembeds.py:90-93). Python 2 semantics are assumed throughout.

`strings.dfy` holds the string primitives both parts share:

- `find` and `rfind` searches;
- `replace`;
- greedy character runs;
- joining and splitting lines.

## Model

| member | source | states |
|---|---|---|
| `CriticMarkup.FirstSpanFirst` | markdown/extensions/criticmarkup.py:32-36 | The first match of `OPEN (.*?) CLOSE` is the first opener together with the first closer at or after that opener's end. There is no match exactly when no opener is followed by a closer. |
| `CriticMarkup.RewriteSpansNoSpan` | markdown/extensions/criticmarkup.py:32-36 | A text with no match comes out unchanged. |
| `CriticMarkup.RewriteSpansRestore` | markdown/extensions/criticmarkup.py:32-36 | The rewrite touches only the matches: a render that writes each value back between its delimiters restores the text. |
| `CriticMarkup.SpanInContext` | markdown/extensions/criticmarkup.py:32-36 | For `pre + OPEN + value + CLOSE + post`, where `pre` cannot start an opener and `value` cannot end a closer, the rewrite is `pre`, the rendered value, then the rewrite of `post`. |
| `CriticMarkup.Spaced` | markdown/extensions/criticmarkup.py:63-79 | `value.replace("\n", " ")` keeps the length, turns every newline into a space, keeps every other character and leaves no newline. |
| `CriticMarkup.Classify` | markdown/extensions/criticmarkup.py:65-77 | The four branches of the addition `_sub` are chosen by the tests as written: exactly "\n\n"; starts with "\n\n"; ends with "\n\n" but does not start with it; neither. Each branch holds exactly when its condition does. |
| `CriticMarkup.AdditionSub` | markdown/extensions/criticmarkup.py:63-79 | The output of each of the four branches: leading break plus `<ins>`; the paragraph break alone; `<ins>` plus trailing break; plain `<ins>`. |
| `CriticMarkup.AdditionInContext` | markdown/extensions/criticmarkup.py:56-79 | For `pre{++value++}post` where `pre` holds no '{' and `value` holds no '}', the result is `pre`, then `AdditionSub(value)`, then the rewrite of `post`. |
| `CriticMarkup.Nbsp` | markdown/extensions/criticmarkup.py:89 | `val.replace('\n\n', '&nbsp')` leaves no two adjacent newlines, and is the identity on a value without a blank line. |
| `CriticMarkup.DeletionSub` | markdown/extensions/criticmarkup.py:85-89 | "\n\n" alone gives `<del>&nbsp;</del>`. Any other value is wrapped in `<del>` with no blank line left in it. |
| `CriticMarkup.DeletionInContext` | markdown/extensions/criticmarkup.py:81-89 | For `pre{--value--}post` where `pre` holds no '{' and `value` holds no '}', the result is `pre`, then `DeletionSub(value)`, then the rewrite of `post`. |
| `CriticMarkup.HighlightInContext` | markdown/extensions/criticmarkup.py:91-96 | For `pre{==value==}post` where `pre` holds no '{' and `value` holds no '}', the result is `pre`, then `<mark>value</mark>`, then the rewrite of `post`. |
| `CriticMarkup.CommentInContext` | markdown/extensions/criticmarkup.py:98-103 | For `pre{>>value<<}post` where `pre` holds no '{' and `value` holds no '}', the result is `pre`, then `<span class="critic comment">value</span>`, then the rewrite of `post`. |
| `CriticMarkup.MatchSubstitutionShape` | markdown/extensions/criticmarkup.py:34 | A substitution match spans `{~~` ORIGINAL `~>` NEW `~~}`. ORIGINAL is non-empty and holds no '>'. NEW is non-empty and holds no "~~}". |
| `CriticMarkup.SubstitutionMatchOf` | markdown/extensions/criticmarkup.py:34 | At an opener, the regex matches exactly the maximal ORIGINAL run that is followed by "~>", and NEW up to the first "~~}". |
| `CriticMarkup.RewriteSubstitutionsNoOpener` | markdown/extensions/criticmarkup.py:34 | A text without "{~~" is left unchanged. |
| `CriticMarkup.RewriteSubstitutionsRestore` | markdown/extensions/criticmarkup.py:34 | The substitution rewrite touches only its matches: rendering the two parts back between their delimiters restores the text. |
| `CriticMarkup.SubstitutionInContext` | markdown/extensions/criticmarkup.py:105-110 | `pre{~~a~>b~~}post` becomes `pre<del>a</del><ins>b</ins>` followed by the rewrite of `post`, for `a` free of '~' and '>' and `b` free of '~'. |
| `CriticMarkup.PassesPlain` | markdown/extensions/criticmarkup.py:32-36 | Each of the five rewrites is the identity on a text without '{'. |
| `CriticMarkup.ConvertPlain` | markdown/extensions/criticmarkup.py:49-54 | The five passes in their registration order leave a text without '{' unchanged. |
| `CriticMarkup.ConvertLinesPlain` | markdown/extensions/criticmarkup.py:49-54 | Lines without '{' come out of the five join/rewrite/split passes unchanged, provided no line holds a newline and the last is not empty. |
| `Strings.SplitLinesJoin` | markdown/extensions/criticmarkup.py:60-61 | Joining lines with '\n' and calling `splitlines` gives the lines back when none holds a newline and the last is not empty. |
| `Strings.ReplaceCharPointwise` | markdown/extensions/criticmarkup.py:67 | Replacing one character by another works position by position and keeps the length. |
| `Strings.ReplaceBlankLines` | markdown/extensions/criticmarkup.py:89 | Replacing every "\n\n", left to right, by a text without newlines leaves no two newlines side by side. |
| `Strings.FindFromSpec` | markdown/extensions/smartembeds.py:233 | `find` returns the first occurrence at or after the start, or reports that there is none. |
| `Strings.FindLastBelowSpec` | markdown/extensions/smartembeds.py:242-243 | The backward search returns the last occurrence below the bound, or reports that there is none (the last piece of `split('/')`). |
| `EmbedDirective.HeadSpec` | markdown/extensions/smartembeds.py:108-112 | The head of the directive regex: blanks, '@', a colon-free protocol, ':[', a bracket-free title, '](' — each run maximal, since backtracking cannot shorten it. |
| `EmbedDirective.FirstTailOf` | markdown/extensions/smartembeds.py:111 | The lazy url ends at the first position from which the optional '>', the blanks, the optional quoted group and ')' can match, when no '\n' comes before that position ('.' does not match a newline). |
| `EmbedDirective.FirstTailStops` | markdown/extensions/smartembeds.py:111-113 | When the tail matches at no position from the url's start up to and including a '\n', the lazy url has no end: FirstTail reports no match. |
| `EmbedDirective.CloseQuoteSpec` | markdown/extensions/smartembeds.py:111 | The quoted group `(.*?)\5` ends at the first quote followed by ')'. It holds no '\n' and no earlier quote-and-')' pair. |
| `EmbedDirective.TailAtQuoted` | markdown/extensions/smartembeds.py:111 | Any run of blanks, a quote (`'` or `"`), a text, the same quote and ')' make a tail whose attribute group is that text. The text must hold no '\n' and no copy of that quote directly followed by ')'. |
| `EmbedDirective.ParseDirectiveShape` | markdown/extensions/smartembeds.py:108-113 | A matched line starts with blanks and '@'. Its protocol is non-empty and colon-free, and its title holds no bracket. |
| `EmbedDirective.ParseDirectiveOneLine` | markdown/extensions/smartembeds.py:111-113 | The url and the quoted attributes of a matched line hold no '\n'. The regex is compiled without DOTALL. |
| `EmbedDirective.UrlStopsAtNewline` | markdown/extensions/smartembeds.py:111-113 | An example of the general facts `FirstTailStops` and `ParseDirectiveOneLine`: `@pdf:[t](a` followed by a newline and `b)` does not match, so that line passes through. |
| `EmbedDirective.ParseWritten` | markdown/extensions/smartembeds.py:108-113 | Round trip: a directive written out in the grammar, after any blank indent and before any rest of line, parses back to the same protocol, title, url and attributes. |
| `EmbedAttributes.ParseAttributes` | markdown/extensions/smartembeds.py:253-281 | `_attributes`, with the map updated in place token by token, computes exactly `Attributes`. |
| `EmbedAttributes.AttributeBlockOf` | markdown/extensions/smartembeds.py:116 | For `pre{{inner}}post` where `pre` holds no '{', `post` holds no '}', and `inner` is non-empty and holds no '\n', the `{{(.+)}}` search takes exactly `inner`. |
| `EmbedAttributes.BlockFromShape` | markdown/extensions/smartembeds.py:116 | Whatever the `{{(.+)}}` search returns is non-empty, holds no '\n', and sits between a "{{" and a "}}" of the segment. |
| `EmbedAttributes.AttributesWithoutBlock` | markdown/extensions/smartembeds.py:254-258 | A segment without "{{" gives the empty map. |
| `EmbedAttributes.MatchTokenForm` | markdown/extensions/smartembeds.py:117 | Every match of the token regex is `#name`, `name='text'`, `name=nonblank` or a bare name. |
| `EmbedAttributes.TokensForm` | markdown/extensions/smartembeds.py:262 | Every token `findall` returns has one of those four shapes. |
| `EmbedAttributes.MatchTokenAt` | markdown/extensions/smartembeds.py:117 | A token of the form `#name`, `name='text'` (text non-empty, without `'`), `name` or `name=value` (value without blanks) is matched whole when a blank or the end follows it. In the form `name=value`, the value must not start with `'`. |
| `EmbedAttributes.QuotedRunsPastBlank` | markdown/extensions/smartembeds.py:117 | Why that value is excluded: in `k='a b'` the quoted alternative takes all seven characters, so the token `k='a` is not matched on its own. |
| `EmbedAttributes.TokensOfJoin` | markdown/extensions/smartembeds.py:262 | Round trip: `findall` over tokens joined with single spaces returns exactly those tokens. |
| `EmbedAttributes.TokenActions` | markdown/extensions/smartembeds.py:264-278 | `#x` sets `id`. `k='v'` sets `k` to the text between the quotes. `k=v` with `v` not starting with `'` sets `k` to `v`. `k=v` with `v` starting with `'` sets `k` to `v` without its first and last characters (`[idx+2:-1]`), which is empty when `v` is one character long. A bare word is appended to `class`. A token of these shapes never reaches the `IndexError` branch. |
| `EmbedAttributes.GatherSticky` | markdown/extensions/smartembeds.py:263-278 | Once a token raises, the whole attribute parse raises the same exception. |
| `EmbedAttributes.GatherKeys` | markdown/extensions/smartembeds.py:263-278 | A key is in the map exactly when some token writes it. |
| `EmbedAttributes.GatherLastWins` | markdown/extensions/smartembeds.py:263-278 | The value of a key is the one given by its last assigning token. |
| `EmbedAttributes.GatherClasses` | markdown/extensions/smartembeds.py:275-278 | Without an explicit `class=`, `class` holds exactly the bare words in order, and is present exactly when there is one. |
| `EmbedAttributes.GatherClassConflict` | markdown/extensions/smartembeds.py:276-277 | A bare word after an explicit `class=` fails, as `str.append` does. |
| `EmbedAttributes.ClassSpread` | markdown/extensions/smartembeds.py:279-280 | An explicit `class=` string that nothing later overrides comes out with its characters joined by single spaces. |
| `EmbedAttributes.SpreadShape` | markdown/extensions/smartembeds.py:280 | `' '.join` over a string puts character k at position 2k and a space between every two characters. |
| `EmbedAttributes.GatherOnlyAttributeError` | markdown/extensions/smartembeds.py:268-274 | Tokens that come out of the regex can only fail with `AttributeError`. |
| `EmbedAttributes.AttributesOnlyAttributeError` | markdown/extensions/smartembeds.py:253-281 | Parsing attributes raises nothing but `AttributeError`: the index past a trailing '=' is never reached. |
| `EmbedAttributes.AttributesOfWritten` | markdown/extensions/smartembeds.py:253-281 | Round trip: `{{t1 t2 ...}}` written into a segment parses as the fold of exactly those tokens, when the joined tokens hold no '\n', `pre` holds no '{' and `post` holds no '}'. |
| `SmartEmbeds.FillDefined` | markdown/extensions/smartembeds.py:209 | `template % params` succeeds exactly when every placeholder names a key of the map. |
| `SmartEmbeds.TemplateResolves` | markdown/extensions/smartembeds.py:119-160 | A map holding the keys a template names resolves every placeholder of that template. |
| `SmartEmbeds.SlideshareReconciled` | markdown/extensions/smartembeds.py:212-230 | `_slideshare` only sets `id` and `sid`. A lone `id` that starts with "__ss_" gives `id` without the prefix and `sid` equal to it. A lone `id` without the prefix is kept and `sid` becomes "__ss_" + `id`. A lone `sid` with the prefix is kept and `id` is `sid` without the prefix. A lone `sid` without the prefix gives `id` equal to it and `sid` "__ss_" + it. In every lone case `sid` is "__ss_" followed by `id`. When both or neither are set, nothing is added. |
| `SmartEmbeds.VimeoIdShape` | markdown/extensions/smartembeds.py:241-248 | The vimeo id holds neither '/' nor '?'. |
| `SmartEmbeds.VimeoIdOf` | markdown/extensions/smartembeds.py:241-248 | The id after the last '/' and before an optional query is the vimeo id. |
| `SmartEmbeds.YoutubeWithoutQuery` | markdown/extensions/smartembeds.py:233-235 | A url without '?' has an empty youtube id. |
| `SmartEmbeds.YoutubeIdOf` | markdown/extensions/smartembeds.py:232-239 | `?v=id`, ended by '&', ';' or the end, gives `id`. |
| `SmartEmbeds.YoutubeSkipsField` | markdown/extensions/smartembeds.py:237-238 | A first query field that does not name `v` is skipped, so the id comes from the fields after it. |
| `SmartEmbeds.Layer` | markdown/extensions/smartembeds.py:193-207 | The in-place updates of `params` build exactly the layered map. The template name switches to the `_noid` link when slideshare or speakerdeck has no id. |
| `SmartEmbeds.Process` | markdown/extensions/smartembeds.py:192-209 | `_process` computes exactly `Embed`: the filled template, or the exception raised on the way. |
| `SmartEmbeds.Precedence` | markdown/extensions/smartembeds.py:194-202 | Later layers win: derived values over attributes, attributes over defaults, defaults over title and url. Every key comes from one of the layers. |
| `SmartEmbeds.FinalKeys` | markdown/extensions/smartembeds.py:162-168 | For a known protocol the layered map holds every key of the chosen template. |
| `SmartEmbeds.EmbedResolves` | markdown/extensions/smartembeds.py:192-209 | A known directive never raises `KeyError` or `IndexError`. It renders whenever its attributes parse, and otherwise raises `AttributeError`. |
| `SmartEmbeds.LinkFill` | markdown/extensions/smartembeds.py:131 | The plain-link template filled with a url and a title is that link. |
| `SmartEmbeds.NoIdLink` | markdown/extensions/smartembeds.py:201-207 | Slideshare or speakerdeck with no id after reconciliation becomes a plain link to the url. |
| `SmartEmbeds.Run` | markdown/extensions/smartembeds.py:174-190 | `run`, appending line by line to the output list, computes exactly `RunLines`. |
| `SmartEmbeds.RunLinesSticky` | markdown/extensions/smartembeds.py:174-190 | Once a line raises, the whole run raises the same exception. |
| `SmartEmbeds.RunLinesOk` | markdown/extensions/smartembeds.py:174-190 | A successful run gives one output line per input line, and output line i is input line i rendered. |
| `SmartEmbeds.RunLinesOkIff` | markdown/extensions/smartembeds.py:174-190 | The run succeeds exactly when every line renders. |
| `SmartEmbeds.RunLinesFirstError` | markdown/extensions/smartembeds.py:174-190 | A failed run raises what its first failing line raises. |
| `SmartEmbeds.RenderLineCases` | markdown/extensions/smartembeds.py:177-189 | A rendered line is either the line itself or the embed of the known directive it holds. |
| `SmartEmbeds.PlainLinePasses` | markdown/extensions/smartembeds.py:178 | A line whose first non-blank character is not '@' passes through. |
| `SmartEmbeds.GrammarFailPasses` | markdown/extensions/smartembeds.py:177-187 | An empty line, or a line with a non-blank character, that the directive regex rejects passes through. |
| `SmartEmbeds.UnknownDirectivePasses` | markdown/extensions/smartembeds.py:179-185 | A line the directive regex accepts whose protocol is not a known one passes through. |
| `SmartEmbeds.BlankLineRaises` | markdown/extensions/smartembeds.py:178 | A non-empty line of blanks raises `IndexError` (`l.lstrip()[0]`). |
| `SmartEmbeds.WrittenDirectiveRenders` | markdown/extensions/smartembeds.py:179-183 | A written directive of a known protocol becomes its embed, whatever follows it on the line. The directive is written in the layout `ParseWritten` covers: its url and attributes hold no '\n'. |
| `SmartEmbeds.UnknownProtocolPasses` | markdown/extensions/smartembeds.py:182-185 | A written directive of any other protocol passes through unchanged. |

## Left out

- `os.linesep` is taken to be "\n".
- `splitlines` is modelled for '\n' only. Python also splits at '\r', "\r\n", '\x0b', '\x0c', '\x1c'-'\x1e', '\x85' and the Unicode separators.
- `\s` in the directive and attribute regexes, and `lstrip` in `run`, are modelled as the six ASCII whitespace characters. Python's Unicode whitespace is not modelled.
- `parse_qs`: percent-decoding and the '+'-to-space rule are not modelled. Field names and values are compared and returned raw.
- The `%` operator is modelled only for the `%(key)s` placeholders the templates use. Values are inserted as-is, as Python does; no other conversion is modelled.
- The host glue is not modelled: the `Extension` classes, `makeExtension`, registration with the preprocessor table (only the order of the passes is used), and the doctest runner.
- Lines are given as parameters. No I/O is modelled.
- `EmbedDirective.ParseWritten`: the round trip is stated for directives written in one canonical layout: a url without blanks, quotes, '>' or ')' that does not start with '<', a single space before a double-quoted attribute group, and attributes without '"' or '\n'. A '\n' in the url or the attributes makes the line fail to match, as `UrlStopsAtNewline` shows. Other spellings the regex accepts are covered by `ParseDirective` itself, not by a round-trip lemma.
- `EmbedAttributes.AttributesOfWritten`: the round trip is stated for tokens of the four shapes separated by single spaces. An unquoted `k=v` whose value starts with a quote (such as `k=''`) is not covered, nor is an interior holding a '\n', which '.' does not match.
- `EmbedAttributes.MatchTokenAt`: not stated for an unquoted `name=value` whose value starts with `'`. Whether the pattern takes such a token whole depends on the text after it, as `QuotedRunsPastBlank` shows.
- `SmartEmbeds.YoutubeIdOf`: stated for a url whose `v` field comes first in the query. `YoutubeSkipsField` covers leading fields that do not name `v`.
