/** The editor chain: each editor turns the content of a page into new
    content with a fixed file extension, and a site's editors run one after
    the other, the first failure ending the chain. */
module Editors {
  import opened Wrappers
  import opened Text
  import opened Dom
  import opened Urls
  import CssRemove
  import CssSelector
  import HtmlMarkdown
  import HtmlPretty
  import HtmlText
  import LinePass
  import HtmlUrl
  import Rss

  /** `Content`: the text and the file extension it has so far. */
  datatype Content = Content(extension: Option<string>, text: string)

  /** `Editor`; a selector is kept as its text, a regex replacer as its
      pattern and replacement. */
  datatype Editor =
    | CssRemove(selector: string)
    | CssSelect(selector: string)
    | HtmlMarkdownify
    | HtmlPrettify
    | HtmlSanitize
    | HtmlTextify
    | HtmlUrlCanonicalize
    | JsonPrettify
    | RegexReplace(pattern: string, replace: string)
    | Rss(rss: Rss.Config<Editor>)

  /** The libraries the editors call: the HTML parser, selector matching
      (`select(d, s, scope)`: the elements under `scope` matched by `s`, in
      document order), html2md, ammonia, serde_json's pretty printer, the
      regex replacer, URL joining, date formatting, the RSS writer and the
      selector parser. */
  datatype Libs = Libs(
    parse: string -> Doc,
    select: (Doc, string, NodeId) -> seq<NodeId>,
    html2md: string -> string,
    sanitize: string -> string,
    jsonPrettify: string -> Result<string>,
    regexReplace: (string, string, string) -> string,
    join: Joiner,
    rfc2822: string -> Option<string>,
    writeFeed: Rss.Channel -> Result<string>,
    selectorCheck: string -> Option<string>,
    generator: string)

  /** `log_name` */
  function LogName(e: Editor): string {
    match e
    case CssRemove(_) => "css_remove"
    case CssSelect(_) => "css_select"
    case HtmlMarkdownify => "html_markdownify"
    case HtmlPrettify => "html_prettify"
    case HtmlSanitize => "html_sanitize"
    case HtmlTextify => "html_textify"
    case HtmlUrlCanonicalize => "html_url_canonicalize"
    case JsonPrettify => "json_prettify"
    case RegexReplace(_, _) => "regex_replace"
    case Rss(_) => "rss"
  }

  /** The extension every editor but the regex replacer sets. */
  function FixedExtension(e: Editor): string
    requires !e.RegexReplace?
  {
    match e
    case CssRemove(_) => "html"
    case CssSelect(_) => "html"
    case HtmlMarkdownify => "md"
    case HtmlPrettify => "html"
    case HtmlSanitize => "html"
    case HtmlTextify => "txt"
    case HtmlUrlCanonicalize => "html"
    case JsonPrettify => "json"
    case Rss(_) => "xml"
  }

  /** The page a parsed document gives the RSS editor. */
  function RssPage(libs: Libs, d: Doc): Rss.Page {
    Rss.Page(d, (s: string, scope: NodeId) => libs.select(d, s, scope), libs.join, libs.rfc2822, libs.writeFeed)
  }

  /** The text of one editor's output, or its error. */
  function ApplyText(e: Editor, url: Url, input: Content, libs: Libs): Result<string>
    decreases e, 1
  {
    match e
    case CssRemove(s) =>
      var d := libs.parse(input.text);
      Ok(Html(CssRemove.RemoveAll(d, libs.select(d, s, Root))))
    case CssSelect(s) =>
      var d := libs.parse(input.text);
      CssSelector.Apply(d, libs.select(d, s, Root))
    case HtmlMarkdownify => Ok(HtmlMarkdown.Markdownify(input.text, libs.html2md))
    case HtmlPrettify => Ok(HtmlPretty.Prettify(libs.parse(input.text)))
    case HtmlSanitize => Ok(libs.sanitize(input.text))
    case HtmlTextify => Ok(HtmlText.TextifyText(LinePass.Terminated(Texts(DocEvents(libs.parse(input.text))))))
    case HtmlUrlCanonicalize => Ok(Render(HtmlUrl.AbsEvents(url, libs.join, DocEvents(libs.parse(input.text)))))
    case JsonPrettify => libs.jsonPrettify(input.text)
    case RegexReplace(pattern, replace) => Ok(libs.regexReplace(pattern, replace, input.text))
    case Rss(cfg) =>
      var chain := (html: string) =>
        var c := RawChain(cfg.contentEditors, url, Content(Some("html"), html), libs);
        if c.Err? then Err(c.error) else Ok(c.value.text);
      Rss.GenerateSpec(cfg, libs.selectorCheck, RssPage(libs, libs.parse(input.text)), url, libs.generator, chain)
  }

  /** `Editor::apply` */
  function Apply(e: Editor, url: Url, input: Content, libs: Libs): (r: Result<Content>)
    decreases e, 2
  {
    var text := ApplyText(e, url, input, libs);
    if text.Err? then Err(text.error)
    else if e.RegexReplace? then Ok(Content(input.extension, text.value))
    else Ok(Content(Some(FixedExtension(e)), text.value))
  }

  /** The editors applied in order with `?`, errors passed on as they are:
      the content chain of the RSS editor. */
  function RawChain(editors: seq<Editor>, url: Url, content: Content, libs: Libs): Result<Content>
    decreases editors
  {
    if editors == [] then Ok(content)
    else
      var next := Apply(editors[0], url, content, libs);
      if next.Err? then Err(next.error) else RawChain(editors[1..], url, next.value, libs)
  }

  /** The error `apply_many` reports for editor `i`. */
  function Wrap(i: nat, e: Editor, err: string): string {
    "in editor[" + NatToString(i) + "] " + LogName(e) + ": " + err
  }

  /** `apply_many` from editor `i` on, as a specification. */
  function ChainFrom(editors: seq<Editor>, i: nat, url: Url, content: Content, libs: Libs): Result<Content>
    requires i <= |editors|
    decreases |editors| - i
  {
    if i == |editors| then Ok(content)
    else
      var next := Apply(editors[i], url, content, libs);
      if next.Err? then Err(Wrap(i, editors[i], next.error))
      else ChainFrom(editors, i + 1, url, next.value, libs)
  }

  /** `apply_many`: the content reassigned editor by editor. */
  method ApplyMany(editors: seq<Editor>, url: Url, content: Content, libs: Libs) returns (r: Result<Content>)
    ensures r == ChainFrom(editors, 0, url, content, libs)
  {
    var current := content;
    for i := 0 to |editors|
      invariant ChainFrom(editors, 0, url, content, libs) == ChainFrom(editors, i, url, current, libs)
    {
      var next := Apply(editors[i], url, current, libs);
      if next.Err? {
        return Err(Wrap(i, editors[i], next.error));
      }
      current := next.value;
    }
    r := Ok(current);
  }

  // ------------------------------------------------------------ properties

  /** An empty chain returns the content unchanged. */
  lemma NoEditors(url: Url, content: Content, libs: Libs)
    ensures ChainFrom([], 0, url, content, libs) == Ok(content)
  {
  }

  /** The regex replacer keeps the extension; every other editor sets its own. */
  lemma ApplyExtension(e: Editor, url: Url, input: Content, libs: Libs)
    requires Apply(e, url, input, libs).Ok?
    ensures e.RegexReplace? ==> Apply(e, url, input, libs).value.extension == input.extension
    ensures !e.RegexReplace? ==> Apply(e, url, input, libs).value.extension == Some(FixedExtension(e))
    ensures FixedExtensionIs(e)
  {
  }

  /** The fixed extensions: html, md, txt, json and xml. */
  predicate FixedExtensionIs(e: Editor) {
    !e.RegexReplace? ==>
      FixedExtension(e) == (if e.HtmlMarkdownify? then "md"
                            else if e.HtmlTextify? then "txt"
                            else if e.JsonPrettify? then "json"
                            else if e.Rss? then "xml"
                            else "html")
  }

  /** Editors that never fail. Besides the four the program's types promise,
      the prettifier, the textifier and the URL canonicalizer fail only on
      I/O and UTF-8 errors, which the model does not have. */
  lemma NeverFails(e: Editor, url: Url, input: Content, libs: Libs)
    requires e.CssRemove? || e.HtmlMarkdownify? || e.HtmlSanitize? || e.RegexReplace?
          || e.HtmlPrettify? || e.HtmlTextify? || e.HtmlUrlCanonicalize?
    ensures Apply(e, url, input, libs).Ok?
  {
  }

  /** No two kinds of editor share a log name. */
  lemma LogNamesDistinct(a: Editor, b: Editor)
    requires LogName(a) == LogName(b)
    ensures a.CssRemove? == b.CssRemove? && a.CssSelect? == b.CssSelect?
    ensures a.HtmlMarkdownify? == b.HtmlMarkdownify? && a.HtmlPrettify? == b.HtmlPrettify?
    ensures a.HtmlSanitize? == b.HtmlSanitize? && a.HtmlTextify? == b.HtmlTextify?
    ensures a.HtmlUrlCanonicalize? == b.HtmlUrlCanonicalize? && a.JsonPrettify? == b.JsonPrettify?
    ensures a.RegexReplace? == b.RegexReplace? && a.Rss? == b.Rss?
  {
    var n := LogName(a);
    assert n[0] == LogName(b)[0];
    if |n| > 5 {
      assert n[5] == LogName(b)[5];
    }
  }

  /** Running the chain is running its first `k` editors, then the rest from
      what they produced. */
  lemma {:induction false} ChainSplit(editors: seq<Editor>, i: nat, k: nat, url: Url, content: Content, libs: Libs)
    requires i <= k <= |editors|
    ensures ChainFrom(editors, i, url, content, libs)
         == (var first := ChainFrom(editors[..k], i, url, content, libs);
             if first.Err? then first else ChainFrom(editors, k, url, first.value, libs))
    decreases k - i
  {
    if i < k {
      assert editors[..k][i] == editors[i];
      var next := Apply(editors[i], url, content, libs);
      if next.Ok? {
        ChainSplit(editors, i + 1, k, url, next.value, libs);
      }
    }
  }

  /** When the first `k` editors succeed and editor `k` fails, the chain fails
      with that error, tagged with `k` and the editor's name; no later
      editor runs. */
  lemma FirstFailureStops(editors: seq<Editor>, k: nat, url: Url, content: Content, libs: Libs)
    requires k < |editors|
    requires ChainFrom(editors[..k], 0, url, content, libs).Ok?
    requires Apply(editors[k], url, ChainFrom(editors[..k], 0, url, content, libs).value, libs).Err?
    ensures ChainFrom(editors, 0, url, content, libs)
         == Err(Wrap(k, editors[k],
                     Apply(editors[k], url, ChainFrom(editors[..k], 0, url, content, libs).value, libs).error))
  {
    ChainSplit(editors, 0, k, url, content, libs);
  }

  /** Every error of the chain names the editor that failed. */
  lemma {:induction false} ErrorNamesEditor(editors: seq<Editor>, i: nat, url: Url, content: Content, libs: Libs)
    requires i <= |editors| && ChainFrom(editors, i, url, content, libs).Err?
    ensures exists k, err :: i <= k < |editors| && ChainFrom(editors, i, url, content, libs).error == Wrap(k, editors[k], err)
    decreases |editors| - i
  {
    var next := Apply(editors[i], url, content, libs);
    if next.Err? {
      assert ChainFrom(editors, i, url, content, libs).error == Wrap(i, editors[i], next.error);
    } else {
      ErrorNamesEditor(editors, i + 1, url, next.value, libs);
    }
  }

  /** Editor `i + 1` works on editor `i`'s output: one editor, then the chain
      of the others. */
  lemma ChainStep(editors: seq<Editor>, url: Url, content: Content, libs: Libs)
    requires editors != [] && Apply(editors[0], url, content, libs).Ok?
    ensures ChainFrom(editors, 0, url, content, libs)
         == ChainFrom(editors, 1, url, Apply(editors[0], url, content, libs).value, libs)
  {
  }
}
