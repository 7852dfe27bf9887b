/**
  The code-block renderer: normalising a language hint, choosing a
  highlighting theme, and turning a sequence of styled regions into LaTeX
  (or handing it to the HTML colouriser). Tokenising the code into regions,
  the escapers and the line-break inserter belong to other crates; they are
  supplied as the fields of an `Externals` value and nothing is assumed
  about them.
 */
module Highlighting {
  import opened Strings
  import opened Logging

  newtype byte = x: int | 0 <= x < 256

  /** syntect's `Color`: red, green, blue and alpha channels. */
  datatype Color = Color(r: byte, g: byte, b: byte, a: byte)

  /** syntect's `BLACK`: black with a fully opaque alpha channel. */
  const Black: Color := Color(0, 0, 0, 255)

  /** The single-bit flags of syntect's `FontStyle`. */
  datatype FontFlag = Bold | Italic | Underline

  /** syntect's `Style`; `fontStyle` is the set of flags the bit set contains. */
  datatype Style = Style(foreground: Color, background: Color, fontStyle: set<FontFlag>)

  /** One highlighted region: its style and its text. */
  type Region = (Style, string)

  /**
    The collaborators whose code is not part of this model:
    `escapeTex` and `escapeHtml` are the text-processing crate's escapers,
    `insertBreaks` is the LaTeX renderer's break inserter, `formatChannel`
    renders one colour channel divided by 255 as a float, `highlight` runs
    syntect's highlighter for a theme, a language token and a piece of code
    (falling back to plain text when no syntax matches the token), and
    `colouredHtml` is syntect's `styles_to_coloured_html` without background.
   */
  datatype Externals<!T> = Externals(
    escapeTex: string -> string,
    escapeHtml: string -> string,
    insertBreaks: string -> string,
    formatChannel: byte -> string,
    highlight: (T, string, string) -> seq<Region>,
    colouredHtml: seq<Region> -> string)

  datatype Option<V> = None | Some(value: V)

  /** The renderer's result type; every operation modelled here returns `Ok`. */
  datatype Result<V> = Ok(value: V) | Err(reason: string)

  // ---------------------------------------------------------------------------
  // Language hints
  // ---------------------------------------------------------------------------

  /**
    `strip_language`: the part of the hint before its first comma, with
    surrounding whitespace removed ("rust,ignore" becomes "rust"). The result
    never holds a comma and never starts or ends with whitespace.
   */
  function StripLanguage(language: string): (r: string)
    ensures ',' !in r
    ensures IsTrimmed(r)
  {
    var head := Split(language, ',')[0];
    TrimKeepsAbsent(head, ',');
    Trim(head)
  }

  /** The stripped hint is the trimmed prefix that ends at the first comma (or the end). */
  lemma StripLanguageBeforeComma(language: string, i: nat)
    requires i <= |language|
    requires ',' !in language[..i]
    requires i == |language| || language[i] == ','
    ensures StripLanguage(language) == Trim(language[..i])
  {
    SplitHead(language, ',', i);
  }

  /** Stripping an already stripped hint leaves it unchanged. */
  lemma StripLanguageIdempotent(language: string)
    ensures StripLanguage(StripLanguage(language)) == StripLanguage(language)
  {
    var r := StripLanguage(language);
    SplitWithoutSeparator(r, ',');
    TrimTrimmed(r);
  }

  /** The hint of the documentation comment: "rust,ignore" strips to "rust". */
  lemma StripRustIgnore()
    ensures StripLanguage("rust,ignore") == "rust"
  {
    var h := "rust,ignore";
    assert h[..4] == "rust";
    StripLanguageBeforeComma(h, 4);
    RustIsTrimmed();
  }

  /** A plain "rust" hint is kept as it is. */
  lemma StripRust()
    ensures StripLanguage("rust") == "rust"
  {
    var w := "rust";
    assert ',' !in w by {
      assert w == ['r', 'u', 's', 't'];
    }
    assert w[0] == 'r' && w[|w| - 1] == 't';
    StripWord(w);
  }

  /** A comma-free hint with no surrounding whitespace is kept as it is. */
  lemma StripWord(w: string)
    requires ',' !in w && IsTrimmed(w)
    ensures StripLanguage(w) == w
  {
    SplitWithoutSeparator(w, ',');
    TrimTrimmed(w);
  }

  /** "rust" has no surrounding whitespace. */
  lemma RustIsTrimmed()
    ensures Trim("rust") == "rust"
  {
    var w := "rust";
    assert w[0] == 'r' && w[|w| - 1] == 't';
    assert !IsWhitespace('r') && !IsWhitespace('t');
    TrimTrimmed(w);
  }

  /** A comma-free hint strips to its text without the surrounding whitespace. */
  lemma StripPadded(lead: string, w: string, trail: string)
    requires AllWhitespace(lead) && AllWhitespace(trail) && IsTrimmed(w)
    requires ',' !in lead + w + trail
    ensures StripLanguage(lead + w + trail) == w
  {
    var c := lead + w + trail;
    assert c[..|c|] == c;
    StripLanguageBeforeComma(c, |c|);
    TrimUnique(lead, w, trail);
  }

  // ---------------------------------------------------------------------------
  // Theme selection
  // ---------------------------------------------------------------------------

  /** The theme used when the requested one does not exist. */
  const DefaultThemeName: string := "InspiredGitHub"

  /** The names of a catalogue, in its iteration order. */
  function ThemeNames<T>(catalogue: seq<(string, T)>): (names: seq<string>)
    ensures |names| == |catalogue|
    ensures forall i :: 0 <= i < |catalogue| ==> names[i] == catalogue[i].0
  {
    seq(|catalogue|, i requires 0 <= i < |catalogue| => catalogue[i].0)
  }

  /** Looking a theme up by its exact name (`remove` on the theme map). */
  function Lookup<T>(catalogue: seq<(string, T)>, name: string): (r: Option<T>)
    ensures r.None? <==> name !in ThemeNames(catalogue)
    ensures r.Some? ==> (name, r.value) in catalogue
  {
    if catalogue == [] then None
    else if catalogue[0].0 == name then Some(catalogue[0].1)
    else
      var rest := Lookup(catalogue[1..], name);
      assert ThemeNames(catalogue) == [catalogue[0].0] + ThemeNames(catalogue[1..]);
      rest
  }

  /** The error reported when the requested theme is missing. */
  function ThemeNotFoundMsg(name: string): string {
    "could not set syntect theme to " + name + ", defaulting to \"InspiredGithub\""
  }

  /** The info message listing every valid theme name, separated by ", ". */
  function ValidThemesMsg<T>(catalogue: seq<(string, T)>): string {
    var names := ThemeNames(catalogue);
    "valid theme names are: " + (if names == [] then "" else Join(names, ", "))
  }

  /** The highlighter state built once per book: the chosen theme. */
  datatype Syntax<T> = Syntax(theme: T)

  /**
    `Syntax::new` with syntect: the requested theme when the catalogue has
    it, and nothing is logged; otherwise the "InspiredGitHub" theme, after
    logging one error naming the requested theme and one info message listing
    the valid names (each shown only if the logger's verbosity lets it
    through). The source unwraps the default lookup, so a catalogue without
    the default may only be given a name it contains.
   */
  function NewSyntax<T>(logger: Logger, d: Trace, catalogue: seq<(string, T)>, themeName: string)
    : (r: (Syntax<T>, Trace))
    requires themeName in ThemeNames(catalogue) || DefaultThemeName in ThemeNames(catalogue)
    ensures themeName in ThemeNames(catalogue) ==>
      (themeName, r.0.theme) in catalogue && r.1 == d
    ensures themeName !in ThemeNames(catalogue) ==>
      && (DefaultThemeName, r.0.theme) in catalogue
      && r.1 == d + Visible(logger.verbosity,
                            [Entry(Error, ThemeNotFoundMsg(themeName)), Entry(Info, ValidThemesMsg(catalogue))])
  {
    match Lookup(catalogue, themeName)
    case Some(theme) => (Syntax(theme), d)
    case None =>
      var d1 := LogError(logger, ThemeNotFoundMsg(themeName), d);
      var d2 := LogInfo(logger, ValidThemesMsg(catalogue), d1);
      ErrorThenInfo(logger, ThemeNotFoundMsg(themeName), ValidThemesMsg(catalogue), d);
      (Syntax(Lookup(catalogue, DefaultThemeName).value), d2)
  }

  /** An error followed by an info message appends those of the two that the verbosity lets through. */
  lemma ErrorThenInfo(logger: Logger, e: string, i: string, d: Trace)
    ensures LogInfo(logger, i, LogError(logger, e, d)) == d + Visible(logger.verbosity, [Entry(Error, e), Entry(Info, i)])
  {
    var msgs := [Entry(Error, e), Entry(Info, i)];
    assert msgs[1..] == [Entry(Info, i)];
    assert msgs[1..][1..] == [];
  }

  /** Number of entries of `d` displayed at `level`. */
  function CountAt(d: Trace, level: InfoLevel): nat {
    if d == [] then 0 else (if d[0].level == level then 1 else 0) + CountAt(d[1..], level)
  }

  /**
    A missing theme resolves exactly as the default name does, the default
    name itself logs nothing, and the fallback adds at most one error and
    one info entry — exactly one of each that the verbosity lets through —
    and nothing else.
   */
  lemma ThemeFallback<T>(logger: Logger, d: Trace, catalogue: seq<(string, T)>, themeName: string)
    requires themeName !in ThemeNames(catalogue)
    requires DefaultThemeName in ThemeNames(catalogue)
    ensures NewSyntax(logger, d, catalogue, themeName).0 == NewSyntax(logger, d, catalogue, DefaultThemeName).0
    ensures NewSyntax(logger, d, catalogue, DefaultThemeName).1 == d
    ensures var added := NewSyntax(logger, d, catalogue, themeName).1[|d|..];
      && CountAt(added, Error) == (if Le(logger.verbosity, Error) then 1 else 0)
      && CountAt(added, Info) == (if Le(logger.verbosity, Info) then 1 else 0)
      && |added| == CountAt(added, Error) + CountAt(added, Info)
  {
    var shown := Visible(logger.verbosity, [Entry(Error, ThemeNotFoundMsg(themeName)), Entry(Info, ValidThemesMsg(catalogue))]);
    var r := NewSyntax(logger, d, catalogue, themeName).1;
    assert r[|d|..] == shown;
    ErrorAndInfoShown(logger.verbosity, ThemeNotFoundMsg(themeName), ValidThemesMsg(catalogue));
  }

  /** Of one error and one info entry, the filter keeps each exactly when its level passes. */
  lemma ErrorAndInfoShown(v: InfoLevel, m1: string, m2: string)
    ensures var shown := Visible(v, [Entry(Error, m1), Entry(Info, m2)]);
      && CountAt(shown, Error) == (if Le(v, Error) then 1 else 0)
      && CountAt(shown, Info) == (if Le(v, Info) then 1 else 0)
      && |shown| == CountAt(shown, Error) + CountAt(shown, Info)
  {
    var e, i := Entry(Error, m1), Entry(Info, m2);
    var shown := Visible(v, [e, i]);
    assert [e, i][1..] == [i];
    assert [i][1..] == [];
    assert Visible(v, [i]) == (if Le(v, Info) then [i] else []) + Visible(v, []);
    assert shown == (if Le(v, Error) then [e] else []) + Visible(v, [i]);
    if Le(v, Info) {
      assert shown == [e, i];
      assert CountAt([i], Error) == 0 && CountAt([i], Info) == 1;
    } else if Le(v, Error) {
      assert shown == [e];
      assert CountAt([e], Error) == 1 && CountAt([e], Info) == 0;
    } else {
      assert shown == [];
    }
  }

  /** The error reported when the renderer was built without syntect. */
  const NoSyntectMsg: string := "crowbook was compiled without syntect support, syntax highlighting will be disabled"

  /**
    `Syntax::new` without syntect: logs one error saying highlighting is
    disabled, shown unless the logger is quiet.
   */
  function NewPlainSyntax(logger: Logger, d: Trace): (d': Trace)
    ensures |d'| == (if Le(logger.verbosity, Error) then |d| + 1 else |d|)
    ensures d'[..|d|] == d
    ensures |d'| > |d| ==> d'[|d|] == Entry(Error, NoSyntectMsg)
  {
    LogError(logger, NoSyntectMsg, d)
  }

  // ---------------------------------------------------------------------------
  // LaTeX output of highlighted regions
  // ---------------------------------------------------------------------------

  /** What a newline of the code becomes: an explicit line break, then the newline. */
  const NewlineTex: string := "\\\\{}\n"

  /** What a space of the code becomes: a fixed-width space, then a break point. */
  const SpaceTex: string := "\\hphantom{ }\\allowbreak{}"

  /** The two `replace` calls on a region's escaped text, in the order the source makes them. */
  function TexSpacing(s: string): string {
    Replace(Replace(s, '\n', NewlineTex), ' ', SpaceTex)
  }

  /** Reference: what each character of the text becomes. */
  function SpacingOf(c: char): string {
    if c == '\n' then NewlineTex else if c == ' ' then SpaceTex else [c]
  }

  /** Reference: the text with every character replaced by its `SpacingOf`. */
  function MapSpacing(s: string): string
    decreases |s|
  {
    if s == [] then [] else SpacingOf(s[0]) + MapSpacing(s[1..])
  }

  /**
    The two replacements act as one per-character map: the newline
    replacement inserts no space, so the space replacement never touches
    what the newline replacement produced.
   */
  lemma TexSpacingIsPerCharacter(s: string)
    ensures TexSpacing(s) == MapSpacing(s)
  {
    ReplaceIsPerCharacter(s, '\n', NewlineTex);
    ReplaceIsPerCharacter(ReplaceEach(s, '\n', NewlineTex), ' ', SpaceTex);
    SpacingComposes(s);
  }

  /** The composition of the two per-character replacements is `MapSpacing`. */
  lemma {:induction false} SpacingComposes(s: string)
    ensures ReplaceEach(ReplaceEach(s, '\n', NewlineTex), ' ', SpaceTex) == MapSpacing(s)
    decreases |s|
  {
    if s != [] {
      var h := if s[0] == '\n' then NewlineTex else [s[0]];
      assert ReplaceEach(s, '\n', NewlineTex) == h + ReplaceEach(s[1..], '\n', NewlineTex);
      ReplaceEachAppend(h, ReplaceEach(s[1..], '\n', NewlineTex), ' ', SpaceTex);
      if s[0] == '\n' {
        assert ' ' !in NewlineTex;
        ReplaceEachAbsent(NewlineTex, ' ', SpaceTex);
      } else {
        assert ReplaceEach([s[0]], ' ', SpaceTex) == SpacingOf(s[0]) by {
          assert [s[0]][1..] == [];
        }
      }
      SpacingComposes(s[1..]);
    }
  }

  /** A region's text after escaping, break insertion and the spacing substitution. */
  function TexContent<T>(env: Externals<T>, text: string): (r: string)
    ensures r == MapSpacing(env.insertBreaks(env.escapeTex(text)))
  {
    TexSpacingIsPerCharacter(env.insertBreaks(env.escapeTex(text)));
    TexSpacing(env.insertBreaks(env.escapeTex(text)))
  }

  /** The opening of the colour directive: the three channels, each divided by 255. */
  function ColourOpen<T>(env: Externals<T>, c: Color): (r: string)
    ensures r == "\\textcolor[rgb]{" + Join([env.formatChannel(c.r), env.formatChannel(c.g), env.formatChannel(c.b)], ", ") + "}{"
  {
    var r, g, b := env.formatChannel(c.r), env.formatChannel(c.g), env.formatChannel(c.b);
    var channels := [r, g, b];
    assert channels[1..] == [g, b] && [g, b][1..] == [b];
    assert Join([b], ", ") == b;
    assert Join([g, b], ", ") == g + ", " + b;
    assert Join(channels, ", ") == r + ", " + (g + ", " + b);
    "\\textcolor[rgb]{" + env.formatChannel(c.r) + ", " + env.formatChannel(c.g) + ", "
      + env.formatChannel(c.b) + "}{"
  }

  /** `open` when `present`, nothing otherwise. */
  function OpenIf(present: bool, open: string): string {
    if present then open else ""
  }

  /**
    The opening directives of a fragment as they read from left to right:
    underline, emphasis, bold, colour — each only when its attribute is
    set — and always the monospace directive last.
   */
  function Openers<T>(env: Externals<T>, style: Style): string {
    OpenIf(Underline in style.fontStyle, "\\underline{")
      + (OpenIf(Italic in style.fontStyle, "\\emph{")
         + (OpenIf(Bold in style.fontStyle, "\\textbf{") + ColourLayer(env, style.foreground)))
  }

  /** The colour directive, when the foreground is not black, then the monospace one. */
  function ColourLayer<T>(env: Externals<T>, fg: Color): string {
    OpenIf(fg != Black, ColourOpen(env, fg)) + "\\texttt{"
  }

  /** How many directives wrap the monospace one. */
  function OuterWrappers(style: Style): nat {
    (if style.foreground != Black then 1 else 0)
      + (if Bold in style.fontStyle then 1 else 0)
      + (if Italic in style.fontStyle then 1 else 0)
      + (if Underline in style.fontStyle then 1 else 0)
  }

  /** `n` closing braces. */
  function Braces(n: nat): (r: string)
    ensures |r| == n && forall i :: 0 <= i < n ==> r[i] == '}'
  {
    seq(n, _ => '}')
  }

  /** Wrapping `P + x + Q` in a directive, when present, is `open + P + x + Q + "}"`. */
  lemma WrapLayout(present: bool, open: string, p: string, x: string, n: nat)
    ensures (if present then open + (p + x + Braces(n)) + "}" else p + x + Braces(n))
         == (OpenIf(present, open) + p) + x + Braces(n + if present then 1 else 0)
  {
    if present {
      assert Braces(n) + "}" == Braces(n + 1);
    }
  }

  /**
    The LaTeX of one region, built as the source builds it, innermost wrapper
    first: the opening directives in the fixed order underline, emphasis,
    bold, colour, monospace; then the transformed text; then one closing
    brace per directive.
   */
  function TexFragment<T>(env: Externals<T>, style: Style, text: string): (r: string)
    ensures r == Openers(env, style) + TexContent(env, text) + Braces(1 + OuterWrappers(style))
  {
    var x := TexContent(env, text);
    var fs := style.fontStyle;
    FragmentLayout(x, style.foreground != Black, ColourOpen(env, style.foreground), Bold in fs, Italic in fs, Underline in fs);
    var content := "\\texttt{" + x + "}";
    var coloured := if style.foreground != Black then ColourOpen(env, style.foreground) + content + "}" else content;
    var bold := if Bold in fs then "\\textbf{" + coloured + "}" else coloured;
    var italic := if Italic in fs then "\\emph{" + bold + "}" else bold;
    if Underline in fs then "\\underline{" + italic + "}" else italic
  }

  /**
    Nesting the text in the monospace directive, then each present
    directive around the previous result, reads as the openers from the
    outermost in, the text, and one closing brace per directive. So the
    monospace directive is always the innermost, and each other directive
    appears exactly when it is present.
   */
  lemma FragmentLayout(x: string, c: bool, cOpen: string, b: bool, i: bool, u: bool)
    ensures var content := "\\texttt{" + x + "}";
      var coloured := if c then cOpen + content + "}" else content;
      var bold := if b then "\\textbf{" + coloured + "}" else coloured;
      var italic := if i then "\\emph{" + bold + "}" else bold;
      (if u then "\\underline{" + italic + "}" else italic)
        == OpenIf(u, "\\underline{") + (OpenIf(i, "\\emph{") + (OpenIf(b, "\\textbf{") + (OpenIf(c, cOpen) + "\\texttt{")))
           + x + Braces(1 + ((if c then 1 else 0) + (if b then 1 else 0) + (if i then 1 else 0) + (if u then 1 else 0)))
  {
    var cO, bO, iO := OpenIf(c, cOpen), OpenIf(b, "\\textbf{"), OpenIf(i, "\\emph{");
    var nc, nb, ni := (if c then 1 else 0), (if b then 1 else 0), (if i then 1 else 0);
    var content := "\\texttt{" + x + "}";
    assert content == "\\texttt{" + x + Braces(1);
    var coloured := if c then cOpen + content + "}" else content;
    WrapLayout(c, cOpen, "\\texttt{", x, 1);
    assert coloured == (cO + "\\texttt{") + x + Braces(1 + nc);
    var bold := if b then "\\textbf{" + coloured + "}" else coloured;
    WrapLayout(b, "\\textbf{", cO + "\\texttt{", x, 1 + nc);
    assert bold == (bO + (cO + "\\texttt{")) + x + Braces(1 + nc + nb);
    var italic := if i then "\\emph{" + bold + "}" else bold;
    WrapLayout(i, "\\emph{", bO + (cO + "\\texttt{"), x, 1 + nc + nb);
    assert italic == (iO + (bO + (cO + "\\texttt{"))) + x + Braces(1 + nc + nb + ni);
    WrapLayout(u, "\\underline{", iO + (bO + (cO + "\\texttt{")), x, 1 + nc + nb + ni);
  }

  /** A black region with no font style is exactly the monospace directive around its text. */
  lemma PlainFragment<T>(env: Externals<T>, style: Style, text: string)
    requires style.foreground == Black && style.fontStyle == {}
    ensures TexFragment(env, style, text) == "\\texttt{" + TexContent(env, text) + "}"
  {
  }

  /**
    Reading one optional directive: when what follows differs from `open`
    at position `p`, the character at `p` tells whether the directive is
    there, and what follows it is recovered by dropping it.
   */
  lemma OpenIfTells(present: bool, open: string, rest: string, p: nat)
    requires p < |open| && p < |rest| && rest[p] != open[p]
    ensures (OpenIf(present, open) + rest)[p] == open[p] <==> present
    ensures (OpenIf(present, open) + rest)[if present then |open| else 0..] == rest
  {
  }

  /** One optional directive, read back: equal outputs have equal presence and equal remainders. */
  lemma OpenIfInjective(a: bool, b: bool, open: string, x: string, y: string, p: nat)
    requires p < |open| && p < |x| && p < |y|
    requires x[p] != open[p] && y[p] != open[p]
    requires OpenIf(a, open) + x == OpenIf(b, open) + y
    ensures a == b && x == y
  {
    OpenIfTells(a, open, x, p);
    OpenIfTells(b, open, y, p);
  }

  /** The colour-and-monospace part of the openers: its second character is `t`, its sixth is not `b`. */
  lemma ColourLayerShape<T>(env: Externals<T>, fg: Color)
    ensures var c := ColourLayer(env, fg);
      |c| > 5 && c[1] == 't' && c[5] != 'b'
  {
  }

  /** Adding the optional bold directive keeps the second character `t`. */
  lemma BoldLayerShape(present: bool, c: string)
    requires |c| > 1 && c[1] == 't'
    ensures var b := OpenIf(present, "\\textbf{") + c; |b| > 1 && b[1] == 't'
  {
  }

  /** Adding the optional emphasis directive never puts a `u` second. */
  lemma ItalicLayerShape(present: bool, b: string)
    requires |b| > 1 && b[1] == 't'
    ensures var i := OpenIf(present, "\\emph{") + b; |i| > 1 && i[1] != 'u'
  {
  }

  /**
    The opening directives of a fragment determine its attributes: two
    styles with the same openers agree on every font flag and on whether
    their foreground is black. Each directive in the output is therefore
    present if and only if its attribute is set.
   */
  lemma OpenersDetermineStyle<T>(env: Externals<T>, s1: Style, s2: Style)
    requires Openers(env, s1) == Openers(env, s2)
    ensures s1.fontStyle == s2.fontStyle
    ensures s1.foreground == Black <==> s2.foreground == Black
  {
    var f1, f2 := s1.fontStyle, s2.fontStyle;
    OpenersDetermineFlags(env, s1, s2);
    forall f: FontFlag ensures f in f1 <==> f in f2 {
      match f
      case Bold =>
      case Italic =>
      case Underline =>
    }
  }

  /** Reading the openers back, directive by directive. */
  lemma OpenersDetermineFlags<T>(env: Externals<T>, s1: Style, s2: Style)
    requires Openers(env, s1) == Openers(env, s2)
    ensures Underline in s1.fontStyle <==> Underline in s2.fontStyle
    ensures Italic in s1.fontStyle <==> Italic in s2.fontStyle
    ensures Bold in s1.fontStyle <==> Bold in s2.fontStyle
    ensures s1.foreground == Black <==> s2.foreground == Black
  {
    var f1, f2 := s1.fontStyle, s2.fontStyle;
    var b1 := OpenIf(Bold in f1, "\\textbf{") + ColourLayer(env, s1.foreground);
    var b2 := OpenIf(Bold in f2, "\\textbf{") + ColourLayer(env, s2.foreground);
    ColourLayerShape(env, s1.foreground);
    ColourLayerShape(env, s2.foreground);
    BoldLayerShape(Bold in f1, ColourLayer(env, s1.foreground));
    BoldLayerShape(Bold in f2, ColourLayer(env, s2.foreground));
    OuterLayersTell(Underline in f1, Underline in f2, Italic in f1, Italic in f2, b1, b2);
    InnerLayersTell(env, Bold in f1, Bold in f2, s1.foreground, s2.foreground);
  }

  /** The underline and emphasis directives can be read off in front of a part whose second character is `t`. */
  lemma OuterLayersTell(u1: bool, u2: bool, i1: bool, i2: bool, b1: string, b2: string)
    requires |b1| > 1 && b1[1] == 't' && |b2| > 1 && b2[1] == 't'
    requires OpenIf(u1, "\\underline{") + (OpenIf(i1, "\\emph{") + b1)
          == OpenIf(u2, "\\underline{") + (OpenIf(i2, "\\emph{") + b2)
    ensures u1 == u2 && i1 == i2 && b1 == b2
  {
    ItalicLayerShape(i1, b1);
    ItalicLayerShape(i2, b2);
    OpenIfInjective(u1, u2, "\\underline{", OpenIf(i1, "\\emph{") + b1, OpenIf(i2, "\\emph{") + b2, 1);
    OpenIfInjective(i1, i2, "\\emph{", b1, b2, 1);
  }

  /** The bold directive and the presence of a colour directive can be read off the inner part. */
  lemma InnerLayersTell<T>(env: Externals<T>, bold1: bool, bold2: bool, fg1: Color, fg2: Color)
    requires OpenIf(bold1, "\\textbf{") + ColourLayer(env, fg1) == OpenIf(bold2, "\\textbf{") + ColourLayer(env, fg2)
    ensures bold1 == bold2 && (fg1 == Black <==> fg2 == Black)
  {
    ColourLayerShape(env, fg1);
    ColourLayerShape(env, fg2);
    OpenIfInjective(bold1, bold2, "\\textbf{", ColourLayer(env, fg1), ColourLayer(env, fg2), 5);
    ColourLayerTells(env, fg1);
    ColourLayerTells(env, fg2);
  }

  /** The sixth character of the colour-and-monospace part is `c` exactly when there is a colour directive. */
  lemma ColourLayerTells<T>(env: Externals<T>, fg: Color)
    ensures var c := ColourLayer(env, fg);
      |c| > 5 && (c[5] == 'c' <==> fg != Black)
  {
  }

  /**
    A foreground that differs from `BLACK` only in its alpha channel still
    gets a colour directive: the comparison is on the whole colour.
   */
  lemma TranslucentBlackIsColoured<T>(env: Externals<T>, text: string)
    ensures var s := Style(Color(0, 0, 0, 0), Black, {});
      TexFragment(env, s, text) == ColourOpen(env, Color(0, 0, 0, 0)) + "\\texttt{" + TexContent(env, text) + "}}"
  {
  }

  /** The fragments of all regions, concatenated in region order. */
  function TexBody<T>(env: Externals<T>, regions: seq<Region>): string
    decreases |regions|
  {
    if regions == [] then "" else TexFragment(env, regions[0].0, regions[0].1) + TexBody(env, regions[1..])
  }

  /** Rendering consecutive runs of regions concatenates their renderings. */
  lemma {:induction false} TexBodyAppend<T>(env: Externals<T>, a: seq<Region>, b: seq<Region>)
    ensures TexBody(env, a + b) == TexBody(env, a) + TexBody(env, b)
    decreases |a|
  {
    if a == [] {
      assert a + b == b;
    } else {
      var f := TexFragment(env, a[0].0, a[0].1);
      assert (a + b)[0] == a[0];
      assert (a + b)[1..] == a[1..] + b;
      TexBodyAppend(env, a[1..], b);
      Regroup(TexBody(env, a + b), f, TexBody(env, a[1..] + b), TexBody(env, a[1..]), TexBody(env, b));
    }
  }

  /** Rendering one more region of a prefix appends that region's fragment. */
  lemma TexBodyExtend<T>(env: Externals<T>, regions: seq<Region>, i: nat)
    requires i < |regions|
    ensures TexBody(env, regions[..i + 1]) == TexBody(env, regions[..i]) + TexFragment(env, regions[i].0, regions[i].1)
  {
    var prefix, last := regions[..i], [regions[i]];
    assert regions[..i + 1] == prefix + last;
    TexBodyAppend(env, prefix, last);
    TexBodySingle(env, regions[i]);
  }

  /** One region renders as its fragment. */
  lemma TexBodySingle<T>(env: Externals<T>, region: Region)
    ensures TexBody(env, [region]) == TexFragment(env, region.0, region.1)
  {
    assert [region][1..] == [];
  }

  /** The whole LaTeX output: the fragments inside one `\sloppy` group. */
  function TexDocument<T>(env: Externals<T>, regions: seq<Region>): (r: string)
    ensures |r| >= 10 && r[..9] == "{\\sloppy " && r[|r| - 1] == '}'
    ensures r[9..|r| - 1] == TexBody(env, regions)
  {
    Enclosed("{\\sloppy ", TexBody(env, regions), "}");
    "{\\sloppy " + TexBody(env, regions) + "}"
  }

  /** No regions give an empty `\sloppy` group; one region gives its fragment inside it. */
  lemma TexDocumentSmall<T>(env: Externals<T>, style: Style, text: string)
    ensures TexDocument(env, []) == "{\\sloppy }"
    ensures TexDocument(env, [(style, text)]) == "{\\sloppy " + TexFragment(env, style, text) + "}"
  {
    assert [(style, text)][1..] == [];
  }

  /**
    `Syntax::to_tex` with syntect: highlights the code for the stripped
    language and writes each region's fragment in turn inside a `\sloppy`
    group. It always succeeds.
   */
  method ToTex<T>(env: Externals<T>, syntax: Syntax<T>, code: string, language: string)
    returns (r: Result<string>)
    ensures r == Ok(TexDocument(env, env.highlight(syntax.theme, StripLanguage(language), code)))
  {
    var lang := StripLanguage(language);
    var regions := env.highlight(syntax.theme, lang, code);
    var result := WriteFragments(env, regions);
    r := Ok("{\\sloppy " + result + "}");
  }

  /** The loop of `to_tex`: each region's fragment pushed onto the result in turn. */
  method WriteFragments<T>(env: Externals<T>, regions: seq<Region>) returns (result: string)
    ensures result == TexBody(env, regions)
  {
    result := "";
    var i := 0;
    while i < |regions|
      invariant 0 <= i <= |regions|
      invariant result == TexBody(env, regions[..i])
    {
      var (style, text) := regions[i];
      TexBodyExtend(env, regions, i);
      result := result + TexFragment(env, style, text);
      i := i + 1;
    }
    assert regions[..i] == regions;
  }

  /** The three parts of `open + body + close` are recovered by slicing. */
  lemma Enclosed(open: string, body: string, close: string)
    ensures var out := open + body + close;
      && |out| == |open| + |body| + |close|
      && out[..|open|] == open
      && out[|open|..|out| - |close|] == body
      && out[|out| - |close|..] == close
  {
    var out := open + body + close;
    assert out[..|open|] == open;
    assert out[|open|..|out| - |close|] == body;
    assert out[|out| - |close|..] == close;
  }

  /**
    `Syntax::to_html` with syntect: the colourised regions for the stripped
    language inside one `<pre>` block. It always succeeds, and hints that
    strip to the same language give the same output.
   */
  function ToHtml<T>(env: Externals<T>, syntax: Syntax<T>, code: string, language: string): (r: Result<string>)
    ensures r.Ok?
    ensures |r.value| >= 11 && r.value[..5] == "<pre>" && r.value[|r.value| - 6..] == "</pre>"
    ensures r.value[5..|r.value| - 6] == env.colouredHtml(env.highlight(syntax.theme, StripLanguage(language), code))
  {
    var body := env.colouredHtml(env.highlight(syntax.theme, StripLanguage(language), code));
    Enclosed("<pre>", body, "</pre>");
    Ok("<pre>" + body + "</pre>")
  }

  /**
    The HTML output depends on the hint only through its stripped form:
    "rust,ignore" renders exactly as "rust".
   */
  lemma HtmlSeesStrippedHint<T>(env: Externals<T>, syntax: Syntax<T>, code: string, l1: string, l2: string)
    ensures StripLanguage(l1) == StripLanguage(l2) ==> ToHtml(env, syntax, code, l1) == ToHtml(env, syntax, code, l2)
    ensures ToHtml(env, syntax, code, "rust,ignore") == ToHtml(env, syntax, code, "rust")
  {
    StripRustIgnore();
    StripRust();
  }

  // ---------------------------------------------------------------------------
  // Without syntect
  // ---------------------------------------------------------------------------

  /** The opening of the fallback HTML block, carrying the hint as given. */
  function HtmlCodeOpen(language: string): string {
    "<pre><code class = \"language-" + language + "\">"
  }

  const HtmlCodeClose: string := "</code></pre>"

  /**
    `Syntax::to_html` without syntect: the HTML-escaped code in a `<pre><code>`
    block whose class names the unstripped hint. It always succeeds, and the
    escaped code sits between the fixed opening and closing tags.
   */
  function FallbackToHtml<T>(env: Externals<T>, code: string, language: string): (r: Result<string>)
    ensures r.Ok?
    ensures |r.value| == |HtmlCodeOpen(language)| + |env.escapeHtml(code)| + |HtmlCodeClose|
    ensures r.value[..|HtmlCodeOpen(language)|] == HtmlCodeOpen(language)
    ensures r.value[|HtmlCodeOpen(language)|..|r.value| - |HtmlCodeClose|] == env.escapeHtml(code)
    ensures r.value[|r.value| - |HtmlCodeClose|..] == HtmlCodeClose
  {
    var open := HtmlCodeOpen(language);
    var body := env.escapeHtml(code);
    Enclosed(open, body, HtmlCodeClose);
    Ok(open + body + HtmlCodeClose)
  }

  /**
    Without syntect the hint is treated differently by the two outputs: the
    HTML block keeps it verbatim, so two different hints give two different
    blocks for the same code even when they strip to the same language
    ("rust,ignore" and "rust"); the LaTeX block ignores it altogether.
   */
  lemma FallbackHintTreatment<T>(env: Externals<T>, code: string, l1: string, l2: string)
    ensures l1 != l2 ==> FallbackToHtml(env, code, l1) != FallbackToHtml(env, code, l2)
    ensures FallbackToTex(code, l1) == FallbackToTex(code, l2)
  {
    if l1 != l2 {
      var out1, out2 := FallbackToHtml(env, code, l1).value, FallbackToHtml(env, code, l2).value;
      var p := "<pre><code class = \"language-";
      if |l1| != |l2| {
        assert |out1| != |out2|;
      } else {
        var j :| 0 <= j < |l1| && l1[j] != l2[j];
        assert out1[|p| + j] == l1[j];
        assert out2[|p| + j] == l2[j];
      }
    }
  }

  const VerbatimOpen: string := "\\begin{spverbatim}"
  const VerbatimClose: string := "\\end{spverbatim}\n"

  /**
    `Syntax::to_tex` without syntect: the raw, unescaped code in a
    `spverbatim` environment followed by a newline; the language is ignored.
    It always succeeds, and the code is recovered by removing the fixed
    opening and closing.
   */
  function FallbackToTex(code: string, language: string): (r: Result<string>)
    ensures r.Ok?
    ensures |r.value| == |VerbatimOpen| + |code| + |VerbatimClose|
    ensures r.value[..|VerbatimOpen|] == VerbatimOpen
    ensures r.value[|VerbatimOpen|..|r.value| - |VerbatimClose|] == code
    ensures r.value[|r.value| - |VerbatimClose|..] == VerbatimClose
  {
    Enclosed(VerbatimOpen, code, VerbatimClose);
    Ok(VerbatimOpen + code + VerbatimClose)
  }
}
