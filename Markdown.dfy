/** `markdown.ts`: the six-stage pipeline that turns repository markdown into
    the HTML shown in the panel, with the three regex callbacks written out
    over strings and the libraries (emoji, marked, the XSS filter and
    highlight.js) passed in as uninterpreted functions. */
module Markdown {
  import opened Wrappers
  import opened Strings
  import opened Patterns
  import opened Data

  const RawPrefix: string := "https://raw.githubusercontent.com/"
  const LinkOpen: string := "<a href="
  const LinkClose: string := "</a>"
  const WidgetOpen: string := "<hacs-link url="
  const WidgetClose: string := "</hacs-link>"

  // --- the three callbacks -------------------------------------------------

  /** The blob callback: the first `https://github.com/` becomes the raw
      content host, then the first `/blob/` becomes `/`. */
  function BlobCallback(x: string): string
  {
    ReplaceFirst(ReplaceFirst(x, GithubPrefix, RawPrefix), "/blob/", "/")
  }

  /** What the image callback puts in place of the first `(`. */
  function ImagePrefix(fullName: string): string
  {
    "(" + RawPrefix + fullName + "/master/"
  }

  /** The image callback for a repository: the raw `master` prefix goes in
      after the first `(`, then the first `/blob/` becomes `/`. */
  function ImageCallback(fullName: string, x: string): string
  {
    ReplaceFirst(ReplaceFirst(x, "(", ImagePrefix(fullName)), "/blob/", "/")
  }

  function ImageRewrite(fullName: string): string -> string
  {
    (x: string) => ImageCallback(fullName, x)
  }

  /** The anchor callback: every `<a href=` and then every `</a>` is renamed
      to the `hacs-link` widget. */
  function AnchorCallback(x: string): string
  {
    ReplaceAll(ReplaceAll(x, LinkOpen, WidgetOpen), LinkClose, WidgetClose)
  }

  // --- the rewriting stages ------------------------------------------------

  function BlobStage(t: string): string
  {
    ReplaceMatches(BlobUrl, t, 0, BlobCallback)
  }

  /** Reading `repo.full_name` with no repository throws. */
  datatype RenderError = MissingRepository

  /** The relative-image stage. The repository is read only inside the
      callback, so without one the stage fails exactly when the pattern
      matches somewhere. */
  function ImageStage(t: string, repo: Option<Repository>): (r: Result<string, RenderError>)
    ensures r.Err? <==> repo.None? && FindFrom(RelativeImage, t, 0).Some?
    ensures FindFrom(RelativeImage, t, 0).None? ==> r == Ok(t)
  {
    match repo
    case Some(rp) => Ok(ReplaceMatches(RelativeImage, t, 0, ImageRewrite(rp.fullName)))
    case None =>
      match FindFrom(RelativeImage, t, 0)
      case None => Ok(t)
      case Some(_) => Err(MissingRepository)
  }

  function AnchorStage(t: string): string
  {
    ReplaceMatches(ExternalAnchor, t, 0, AnchorCallback)
  }

  // --- the libraries and their set-up ----------------------------------------

  /** highlight.js: `resolve` stands for the case folding and alias lookup
      of `getLanguage`; `highlight(lang, code)` and `highlightAuto(code)`
      give the `.value` of the highlighted result. */
  datatype Highlighter = Highlighter(
    resolve: string -> string,
    highlight: (string, string) -> string,
    highlightAuto: string -> string)

  /** The language registry that highlight.js holds. */
  class Registry {
    var languages: seq<string>

    constructor()
      ensures languages == []
    {
      languages := [];
    }

    method RegisterLanguage(name: string)
      modifies this
      ensures languages == old(languages) + [name]
    {
      languages := languages + [name];
    }
  }

  /** The module's one-time set-up of the registry. */
  method RegisterLanguages() returns (reg: Registry)
    ensures fresh(reg)
    ensures reg.languages == ["yaml", "javascript", "json"]
  {
    reg := new Registry();
    reg.RegisterLanguage("yaml");
    reg.RegisterLanguage("javascript");
    reg.RegisterLanguage("json");
  }

  /** `hljs.getLanguage(lang)` is defined. */
  predicate Known(h: Highlighter, languages: seq<string>, lang: string)
  {
    lang in languages || h.resolve(lang) in languages
  }

  /** The highlight callback given to marked; an absent language is `""`. */
  function Highlight(h: Highlighter, languages: seq<string>, code: string, lang: string): string
  {
    if lang != "" && Known(h, languages, lang) then h.highlight(lang, code)
    else h.highlightAuto(code)
  }

  /** The options of `marked.setOptions`. */
  datatype MarkedOptions = MarkedOptions(
    highlight: (string, string) -> string,
    breaks: bool,
    gfm: bool,
    tables: bool,
    langPrefix: string)

  function Options(h: Highlighter, languages: seq<string>): MarkedOptions
  {
    MarkedOptions((code: string, lang: string) => Highlight(h, languages, code, lang), true, true, true, "")
  }

  /** The foreign functions the pipeline calls. */
  datatype Libraries = Libraries(
    emojify: string -> string,
    marked: (MarkedOptions, string) -> string,
    filterXss: string -> string,
    hljs: Highlighter)

  /** `markdown.convert`: marked with the configured options. */
  function Convert(libs: Libraries, languages: seq<string>, input: string): string
  {
    libs.marked(Options(libs.hljs, languages), input)
  }

  // --- the pipeline ------------------------------------------------------

  /** The six stages in order, each consuming the previous one's output. */
  function Render(libs: Libraries, languages: seq<string>, input: string, repo: Option<Repository>): (r: Result<string, RenderError>)
    ensures r.Err? <==> repo.None? && FindFrom(RelativeImage, BlobStage(libs.emojify(input)), 0).Some?
  {
    match ImageStage(BlobStage(libs.emojify(input)), repo)
    case Err(e) => Err(e)
    case Ok(images) => Ok(AnchorStage(libs.filterXss(Convert(libs, languages, images))))
  }

  /** `markdown.html`, reassigning the text stage by stage. */
  method Html(libs: Libraries, languages: seq<string>, input: string, repo: Option<Repository>)
    returns (r: Result<string, RenderError>)
    ensures r == Render(libs, languages, input, repo)
  {
    var text := libs.emojify(input);
    text := BlobStage(text);
    var images := ImageStage(text, repo);
    if images.Err? {
      return Err(images.error);
    }
    text := images.value;
    text := libs.filterXss(Convert(libs, languages, text));
    text := AnchorStage(text);
    return Ok(text);
  }
}
