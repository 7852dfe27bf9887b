# Crowbook code-block rendering and log filtering, in Dafny

This project models two pieces of Crowbook, a Markdown-to-book renderer
written in Rust.

- **The code-block renderer** (`src/lib/syntax.rs`). It strips a code
  block's language hint (`"rust,ignore"` becomes `"rust"`). It picks the
  syntect highlighting theme, falling back to `InspiredGitHub` and logging
  when the requested theme is missing. It turns the highlighted regions of a
  code block into LaTeX. Each region's escaped text gets the newline and
  space substitutions and is wrapped in `\texttt`. A colour directive is added
  when the foreground is not syntect's `BLACK`. Then `\textbf`, `\emph` and
  `\underline` are added in that order, and the whole output is wrapped in
  `{\sloppy …}`. The renderer also has fixed HTML and LaTeX templates, used
  when Crowbook is built without syntect.
- **The logger's verbosity filter** (`src/lib/logger.rs`). The information
  levels are ordered `Debug < Warning < Info < Error < Quiet`. The logger's
  only state is its verbosity. `log` displays a message, at its own level,
  exactly when its level is at least the verbosity.

The model has three modules:

- `Strings` (`strings.dfy`) defines the Rust string operations the renderer
  uses: `split` on a character, `replace` of a character (defined as joining
  the split pieces, which is how the standard library does it), and `trim`
  with Unicode `White_Space`. Each comes with the properties the renderer
  relies on.
- `Logging` (`logging.dfy`) models `logger.rs`. What reaches the terminal is
  a `Trace`: the displayed `(level, message)` entries, oldest first. Every
  logging operation takes the current trace and returns the new one.
- `Highlighting` (`highlighting.dfy`) models `syntax.rs`. The code it calls
  in other crates is passed in through an `Externals` value, and nothing is
  assumed about it. That code is syntect's highlighter and HTML colouriser,
  `escape::tex`, `escape::html`, `latex::insert_breaks`, and the float
  formatting of a colour channel. The theme catalogue is a sequence of
  `(name, theme)` pairs in the theme map's iteration order. The theme type is
  a type parameter.

Where the code and its own comments disagree, the model follows the code.
Some behaviours of the code worth knowing:

- `Logger::new` sets the verbosity to `Warning`, although its doc comment says
  `Info`. So a warning *is* displayed by a fresh logger, contrary to the
  example at `src/lib/logger.rs:96`.
- A message is displayed when its level is at least the verbosity. The
  comment at `src/lib/logger.rs:86` states this comparison the other way round.
- A missing theme is reported at error level.
- The colour test compares the whole syntect colour, alpha included, with
  `BLACK` (opaque black). So a translucent black foreground still gets a
  colour directive (`TranslucentBlackIsColoured`).
- The monospace directive is the innermost wrapper, and the colour directive
  goes around it.
- The language hint is cut at the first comma and trimmed; its case is kept.
- The fallback error message names the default theme as `"InspiredGithub"`,
  but the theme actually looked up is `"InspiredGitHub"`. Only the message
  text differs, and the model keeps it as written.

## Model

| member | source | states |
|---|---|---|
| `Strings.Split` | src/lib/syntax.rs:118-123 | Splitting the hint on `,` gives at least one piece. No piece contains the separator, and joining the pieces with the separator gives back the input. |
| `Strings.SplitHead` | src/lib/syntax.rs:118-124 | `splits[0]` is the prefix of the hint that ends at the first separator, or the whole hint when there is none. |
| `Strings.ReplaceIsPerCharacter` | src/lib/syntax.rs:87-88 | `replace` of a character (copying the text between matches and writing the replacement at each match) is the same as substituting each occurrence on its own. |
| `Strings.Trim` | src/lib/syntax.rs:124 | `trim` leaves no whitespace at either end of its result. |
| `Strings.TrimMargins` | src/lib/syntax.rs:124 | The input of `trim` is whitespace, then the trimmed result, then whitespace: only whitespace is cut, and only from the two ends. |
| `Strings.TrimKeepsAbsent` | src/lib/syntax.rs:124 | A character absent from the input is absent from the trimmed result; in particular a comma-free piece stays comma-free. |
| `Strings.TrimUnique` | src/lib/syntax.rs:124 | `trim` of whitespace + a trimmed string + whitespace is exactly that trimmed string: it removes the whitespace margins and nothing else. |
| `Highlighting.StripLanguage` | src/lib/syntax.rs:115-125 | The stripped hint never contains a comma and never starts or ends with whitespace. |
| `Highlighting.StripLanguageBeforeComma` | src/lib/syntax.rs:117-125 | The stripped hint is the trimmed prefix of the hint before its first comma, or the whole hint trimmed when there is no comma. |
| `Highlighting.StripLanguageIdempotent` | src/lib/syntax.rs:117-125 | Stripping a stripped hint changes nothing. |
| `Highlighting.StripPadded` | src/lib/syntax.rs:117-125 | A hint without a comma strips to its text without the surrounding whitespace. |
| `Highlighting.StripRustIgnore` | src/lib/syntax.rs:115 | `"rust,ignore"` strips to `"rust"`, as the doc comment says. |
| `Highlighting.StripRust` | src/lib/syntax.rs:117-125 | A plain `"rust"` hint is kept as it is. |
| `Highlighting.Lookup` | src/lib/syntax.rs:42 | The theme lookup finds nothing exactly when no catalogue entry has that name. A theme it finds is stored in the catalogue under that name. |
| `Highlighting.NewSyntax` | src/lib/syntax.rs:40-60 | If the requested theme is in the catalogue, it is chosen and nothing is logged. Otherwise the `InspiredGitHub` theme is chosen and the trace gains what the logger shows of one error naming the requested theme followed by one info message listing the theme names. The caller must not reach the `unwrap` with the default missing. |
| `Highlighting.ThemeFallback` | src/lib/syntax.rs:42-55 | A missing theme resolves to the same theme as asking for `InspiredGitHub`, and asking for `InspiredGitHub` logs nothing. The fallback adds one error entry and one info entry when the verbosity lets each through, and nothing else. |
| `Highlighting.NewPlainSyntax` | src/lib/syntax.rs:130-133 | Without syntect, construction adds exactly one entry, the error saying that crowbook was compiled without syntect support, when the verbosity lets errors through, and leaves the earlier trace as it was. |
| `Highlighting.TexSpacingIsPerCharacter` | src/lib/syntax.rs:87-88 | The two `replace` calls together map each character separately: a newline becomes `\\{}` and a newline, a space becomes `\hphantom{ }\allowbreak{}`, and every other character stays. |
| `Highlighting.TexFragment` | src/lib/syntax.rs:85-108 | A region's fragment is its opening directives, then its transformed text, then one `}` per directive. The openers come in the fixed order `\underline`, `\emph`, `\textbf`, `\textcolor`, `\texttt`, each present exactly when its attribute is set, and `\texttt` is always present and innermost. |
| `Highlighting.TexContent` | src/lib/syntax.rs:85-88 | A region's text is TeX-escaped, given break points, and then each newline becomes `\\{}` plus a newline and each space becomes `\hphantom{ }\allowbreak{}`, character by character. |
| `Highlighting.ColourOpen` | src/lib/syntax.rs:91-98 | The colour directive opens with `\textcolor[rgb]{`, then the red, green and blue channels formatted and separated by `, `, then `}{`. |
| `Highlighting.PlainFragment` | src/lib/syntax.rs:89-109 | A black region with no font style gives exactly `\texttt{` + transformed text + `}`. |
| `Highlighting.OpenersDetermineStyle` | src/lib/syntax.rs:90-108 | Two styles with the same opening directives have the same font flags, and both or neither are black. So each directive in the output is present if and only if its attribute is set. |
| `Highlighting.TranslucentBlackIsColoured` | src/lib/syntax.rs:90-99 | A foreground that is black but not opaque is not `BLACK`, so its region still gets a `\textcolor[rgb]{…}` directive. |
| `Highlighting.TexBodyAppend` | src/lib/syntax.rs:84-110 | Fragments are concatenated in region order: rendering two runs of regions one after the other gives the concatenation of their renderings. |
| `Highlighting.TexDocumentSmall` | src/lib/syntax.rs:83-111 | No regions give `{\sloppy }`. A single region gives `{\sloppy ` + its fragment + `}`. |
| `Highlighting.TexDocument` | src/lib/syntax.rs:83-111 | The LaTeX output opens with `{\sloppy `, closes with `}`, and holds the fragments of the regions in between. |
| `Highlighting.ToTex` | src/lib/syntax.rs:74-112 | The region loop always returns `Ok`: `{\sloppy `, then each region's fragment in order, then `}`. The regions are highlighted for the stripped language. |
| `Highlighting.WriteFragments` | src/lib/syntax.rs:84-110 | The loop over the regions writes each region's fragment in order: after it, the output is the rendering of all the regions. |
| `Highlighting.ToHtml` | src/lib/syntax.rs:63-72 | With syntect, HTML output always succeeds. It is `<pre>`, then the coloured HTML of the regions highlighted for the stripped language, then `</pre>`. |
| `Highlighting.HtmlSeesStrippedHint` | src/lib/syntax.rs:63-66 | The HTML output depends on the hint only through its stripped form: `"rust,ignore"` renders exactly as `"rust"`. |
| `Highlighting.FallbackToHtml` | src/lib/syntax.rs:135-139 | Without syntect, HTML output always succeeds. It is `<pre><code class = "language-` + the unstripped hint + `">`, then the HTML-escaped code, then `</code></pre>`. |
| `Highlighting.FallbackToTex` | src/lib/syntax.rs:141-144 | Without syntect, LaTeX output always succeeds. It is `\begin{spverbatim}`, then the raw, unescaped code, then `\end{spverbatim}` and a newline, so removing those gives back the code. |
| `Highlighting.FallbackHintTreatment` | src/lib/syntax.rs:135-144 | Without syntect, the HTML block keeps the unstripped hint, so different hints give different blocks (`"rust,ignore"` and `"rust"` included). The LaTeX block does not depend on the hint at all. |
| `Logging.LevelsTotallyOrdered` | src/lib/logger.rs:13-29 | The derived ordering follows declaration order, `Debug < Warning < Info < Error < Quiet` (then the hidden variant), and is a total order. |
| `Logging.Header` | src/lib/logger.rs:52-63 | Each message level has a heading that ends in `: `. |
| `Logging.Line` | src/lib/logger.rs:52-63 | The line written for an entry is its level's heading followed by the message, and both can be cut back out of it. |
| `Logging.LineDeterminesEntry` | src/lib/logger.rs:52-63 | The line `print_msg` writes (level heading, then message) determines both the level and the message. |
| `Logging.DisplayMsg` | src/lib/logger.rs:128-131 | `display_msg` always appends exactly one entry, with the given level and message, and keeps everything displayed before. |
| `Logging.DisplayDebug` | src/lib/logger.rs:134-136 | `display_debug` appends one debug-level entry with the message, whatever the verbosity. |
| `Logging.DisplayInfo` | src/lib/logger.rs:139-141 | `display_info` appends one info-level entry with the message, whatever the verbosity. |
| `Logging.DisplayWarning` | src/lib/logger.rs:144-146 | `display_warning` appends one warning-level entry with the message, whatever the verbosity. |
| `Logging.DisplayError` | src/lib/logger.rs:149-151 | `display_error` appends one error-level entry with the message, whatever the verbosity. |
| `Logging.NewLogger` | src/lib/logger.rs:111-114 | A new logger shows messages of every level except `Debug`, because its verbosity is `Warning`. |
| `Logging.Verbosity` | src/lib/logger.rs:117-119 | The verbosity the getter returns is the level that decides the filter: a level passes exactly when it is at least that value. |
| `Logging.SetVerbosity` | src/lib/logger.rs:116-125 | After `set_verbosity(v)`, `verbosity()` returns `v`, and whether a level passes depends on `v` alone. |
| `Logging.SetVerbosityLaws` | src/lib/logger.rs:121-125 | Setting the current verbosity again changes nothing, and of two settings the last one wins. |
| `Logging.Log` | src/lib/logger.rs:154-166 | `log` appends exactly one entry, at the level it was given, when `level >= verbosity`, and leaves the trace unchanged otherwise. Callers must not let `Quiet` or the hidden variant pass the filter, because the source reaches `unreachable!` there. |
| `Logging.LogDebug` | src/lib/logger.rs:168-171 | `debug` shows its message, at debug level, only when the verbosity is `Debug`. |
| `Logging.LogInfo` | src/lib/logger.rs:173-176 | `info` shows its message, at info level, exactly when the verbosity is at most `Info`. |
| `Logging.LogWarning` | src/lib/logger.rs:178-181 | `warning` shows its message, at warning level, exactly when the verbosity is `Debug` or `Warning`. |
| `Logging.LogError` | src/lib/logger.rs:183-186 | `error` shows its message, at error level, unless the verbosity is `Quiet` or the hidden variant. |
| `Logging.QuietShowsNothing` | src/lib/logger.rs:155-186 | With verbosity `Quiet`, none of `debug`, `info`, `warning` or `error` displays anything. |
| `Logging.Visible` | src/lib/logger.rs:155-156 | The reference filter keeps exactly the entries whose level is at least the verbosity: every entry it returns comes from the input and passes, and every passing input entry is returned. |
| `Logging.LogAllAppendsVisible` | src/lib/logger.rs:155-166 | Logging a batch of messages one after another appends exactly the ones the filter keeps, in order. |
| `Logging.StricterShowsSubsequence` | src/lib/logger.rs:155-156 | Raising the verbosity only hides messages: a stricter logger shows exactly what it would keep from a laxer logger's output. |

## Left out

- syntect itself is not modelled: `ThemeSet::load_defaults`, `SyntaxSet`,
  `find_syntax_by_token` with its plain-text fallback,
  `HighlightLines::highlight` and `styles_to_coloured_html`. Their code is not
  part of this model. They enter as `Externals.highlight` and
  `Externals.colouredHtml`, with no assumption that regions preserve the
  code's content.
- `escape::tex`, `escape::html` and `latex::insert_breaks` come from code that
  is not part of this model. They enter as `Externals` fields, and no escaping
  property is claimed. So the HTML entity round-trip and "no unescaped `<`"
  are not stated.
- Colour channels are converted with an `f32` division by 255 and printed with
  `Display`. This is floating point and enters as `Externals.formatChannel`,
  so the value printed for a channel (for example `1` for 255) is not stated.
- `FallbackToHtml` and `FallbackToTex`: their contracts do not state the
  source's `Result` error type. Only `Ok` is ever returned, and the model's
  `Err` carries a plain message.
- Terminal plumbing is not modelled: `Output::new`, choosing between a colour
  terminal and plain stderr, the colour and bold attributes, and `writeln!`.
  A displayed message is a trace entry, and `Line` gives the line written for
  it, without the newline `writeln!` ends it with.
- Localisation by `lformat!` is not modelled. Messages are the untranslated
  format strings as written in the source.
- The theme catalogue is an association list, and the map's sorted-key
  invariant is not imposed. `Lookup` returns the first entry with the
  requested name. The map's `remove` takes the theme out, but the map is
  never used again, so that is not modelled.
- `build.rs` generates localisation code at build time. It is pure I/O and
  not part of this model.
