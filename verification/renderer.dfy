/**
 * `GDocsMarkdown::render_markdown`: the `[gdocs_markdown id="..."]`
 * shortcode. Its collaborators (escaping, the HTTP fetch, the Parsedown
 * library and the `wp_kses` sanitizer) are parameters, so the model is the
 * guard-and-return sequence that decides which of them is consulted and
 * which fixed message is returned.
 */
module Renderer {
  import opened Cleaner

  /** PHP `empty()` on a string: true for `""` and also for `"0"`. */
  predicate IsEmptyPhp(s: string)
  {
    s == "" || s == "0"
  }

  /** `shortcode_atts(['id' => ''], $atts)['id']`: a missing attribute reads as `""`. */
  function IdAttribute(atts: map<string, string>): string
  {
    if "id" in atts then atts["id"] else ""
  }

  /** What `wp_remote_get` gave back: a `WP_Error`, or a response with its body. */
  datatype FetchOutcome = WpError | Response(body: string)

  /** A call that either returns a value or throws an `Exception`. */
  datatype Call<T> = Returned(value: T) | Threw

  /** A `wp_kses` allow-list: tag name to its allowed attribute names. */
  type AllowList = map<string, set<string>>

  /** The host's collaborators, none of whose code is part of this model. */
  datatype Environment = Environment(
    escAttr: string -> string,
    fetch: string -> FetchOutcome,
    parsedownPresent: bool,
    parse: string -> Call<string>,
    sanitize: (string, AllowList) -> Call<string>)

  datatype RenderError = IdRequired | FetchFailed | EmptyDocument | ParsedownMissing | ParseFailed

  /** The result of one shortcode call: sanitized HTML or one of the errors. */
  datatype Rendered = Html(html: string) | Failure(error: RenderError)

  /** The order in which the guards of the shortcode are tried. */
  const CheckOrder: seq<RenderError> := [IdRequired, FetchFailed, EmptyDocument, ParsedownMissing, ParseFailed]

  const UrlPrefix: string := "https://docs.google.com/document/d/"
  const UrlSuffix: string := "/export?format=md"
  const DivOpen: string := "<div class=\"gdocs-markdown-content\">"
  const DivClose: string := "</div>"

  /** The tags and attributes the rendered HTML may keep. */
  const AllowedHtml: AllowList := map[
    "div" := {"class"},
    "p" := {},
    "h1" := {}, "h2" := {}, "h3" := {}, "h4" := {}, "h5" := {}, "h6" := {},
    "strong" := {},
    "em" := {},
    "blockquote" := {},
    "ul" := {},
    "ol" := {},
    "li" := {},
    "a" := {"href", "title"}
  ]

  /** The Markdown export URL of a document whose escaped id is given. */
  function ExportUrl(escapedId: string): (url: string)
    ensures |url| == |UrlPrefix| + |escapedId| + |UrlSuffix|
    ensures url[..|UrlPrefix|] == UrlPrefix && url[|url| - |UrlSuffix|..] == UrlSuffix
    ensures url[|UrlPrefix|..|url| - |UrlSuffix|] == escapedId
  {
    UrlPrefix + escapedId + UrlSuffix
  }

  /** Parsedown's HTML inside the plugin's content `div`. */
  function Wrap(html: string): (w: string)
    ensures |w| == |DivOpen| + |html| + |DivClose|
    ensures w[..|DivOpen|] == DivOpen && w[|w| - |DivClose|..] == DivClose
    ensures w[|DivOpen|..|w| - |DivClose|] == html
  {
    DivOpen + html + DivClose
  }

  /** The text of each error, as shown inside its paragraph. */
  function ErrorText(e: RenderError): string
  {
    match e
    case IdRequired => "Error: Google Doc ID is required."
    case FetchFailed => "Error: Unable to fetch document content."
    case EmptyDocument => "Error: Document is empty or not accessible."
    case ParsedownMissing => "Error: Parsedown library not found."
    case ParseFailed => "Error: Failed to parse markdown content."
  }

  /** Each error has its own text. */
  lemma ErrorTextInjective(e: RenderError, f: RenderError)
    ensures ErrorText(e) == ErrorText(f) ==> e == f
  {
    if ErrorText(e) == ErrorText(f) {
      assert ErrorText(e)[7] == ErrorText(f)[7];
    }
  }

  function Message(e: RenderError): string
  {
    "<p>" + ErrorText(e) + "</p>"
  }

  /** The string the shortcode hands back to WordPress. */
  function Output(r: Rendered): string
  {
    match r
    case Html(html) => html
    case Failure(e) => Message(e)
  }

  /** The `try` block: parse with Parsedown, wrap, sanitize; any exception is one failure. */
  function RenderBody(markdown: string, env: Environment): Call<string>
  {
    match env.parse(markdown)
    case Threw => Threw
    case Returned(html) => env.sanitize(Wrap(html), AllowedHtml)
  }

  /**
   * `render_markdown($atts)` with its cleaning stage given as `clean`: the
   * guards below hold whatever that stage does.
   */
  function RenderWith(clean: string -> string, atts: map<string, string>, env: Environment): Rendered
  {
    var id := IdAttribute(atts);
    if IsEmptyPhp(id) then Failure(IdRequired)
    else
      match env.fetch(ExportUrl(env.escAttr(id)))
      case WpError => Failure(FetchFailed)
      case Response(body) =>
        if IsEmptyPhp(body) then Failure(EmptyDocument)
        else
          var markdown := clean(body);
          if !env.parsedownPresent then Failure(ParsedownMissing)
          else
            match RenderBody(markdown, env)
            case Threw => Failure(ParseFailed)
            case Returned(out) => Html(out)
  }

  /** `render_markdown($atts)`: the shortcode, cleaning with `clean_markdown`. */
  function Render(atts: map<string, string>, env: Environment): Rendered
  {
    RenderWith(Clean, atts, env)
  }

  /** Whether the guard for `e` fires, judged on its own rather than in sequence. */
  predicate CheckFails(clean: string -> string, e: RenderError, atts: map<string, string>, env: Environment)
  {
    var fetched := env.fetch(ExportUrl(env.escAttr(IdAttribute(atts))));
    match e
    case IdRequired => IsEmptyPhp(IdAttribute(atts))
    case FetchFailed => fetched.WpError?
    case EmptyDocument => fetched.Response? && IsEmptyPhp(fetched.body)
    case ParsedownMissing => !env.parsedownPresent
    case ParseFailed => fetched.Response? && RenderBody(clean(fetched.body), env).Threw?
  }

  /** "No guard before position `k` fires", spelled out guard by guard. */
  lemma NoneBefore(clean: string -> string, atts: map<string, string>, env: Environment, k: nat)
    requires k <= |CheckOrder|
    ensures (forall j :: 0 <= j < k ==> !CheckFails(clean, CheckOrder[j], atts, env)) <==>
      && (k > 0 ==> !CheckFails(clean, IdRequired, atts, env))
      && (k > 1 ==> !CheckFails(clean, FetchFailed, atts, env))
      && (k > 2 ==> !CheckFails(clean, EmptyDocument, atts, env))
      && (k > 3 ==> !CheckFails(clean, ParsedownMissing, atts, env))
      && (k > 4 ==> !CheckFails(clean, ParseFailed, atts, env))
  {
    assert CheckOrder[0] == IdRequired && CheckOrder[1] == FetchFailed && CheckOrder[2] == EmptyDocument;
    assert CheckOrder[3] == ParsedownMissing && CheckOrder[4] == ParseFailed;
  }

  /** The shortcode as a cascade of the guards, each judged on its own. */
  lemma RenderCascade(clean: string -> string, atts: map<string, string>, env: Environment)
    ensures CheckFails(clean, IdRequired, atts, env) ==> RenderWith(clean, atts, env) == Failure(IdRequired)
    ensures (!CheckFails(clean, IdRequired, atts, env) && CheckFails(clean, FetchFailed, atts, env))
      ==> RenderWith(clean, atts, env) == Failure(FetchFailed)
    ensures (!CheckFails(clean, IdRequired, atts, env) && !CheckFails(clean, FetchFailed, atts, env)
             && CheckFails(clean, EmptyDocument, atts, env))
      ==> RenderWith(clean, atts, env) == Failure(EmptyDocument)
    ensures (!CheckFails(clean, IdRequired, atts, env) && !CheckFails(clean, FetchFailed, atts, env)
             && !CheckFails(clean, EmptyDocument, atts, env) && CheckFails(clean, ParsedownMissing, atts, env))
      ==> RenderWith(clean, atts, env) == Failure(ParsedownMissing)
    ensures (!CheckFails(clean, IdRequired, atts, env) && !CheckFails(clean, FetchFailed, atts, env)
             && !CheckFails(clean, EmptyDocument, atts, env) && !CheckFails(clean, ParsedownMissing, atts, env)
             && CheckFails(clean, ParseFailed, atts, env))
      ==> RenderWith(clean, atts, env) == Failure(ParseFailed)
    ensures (!CheckFails(clean, IdRequired, atts, env) && !CheckFails(clean, FetchFailed, atts, env)
             && !CheckFails(clean, EmptyDocument, atts, env) && !CheckFails(clean, ParsedownMissing, atts, env)
             && !CheckFails(clean, ParseFailed, atts, env))
      ==> RenderWith(clean, atts, env).Html?
  {
  }

  /**
   * The guards are tried in a fixed order and the first one that fires
   * decides the error: the shortcode fails with `CheckOrder[k]` exactly when
   * that guard fires and none before it does.
   */
  lemma RenderReportsFirstFailingCheck(clean: string -> string, atts: map<string, string>, env: Environment, k: nat)
    requires k < |CheckOrder|
    ensures RenderWith(clean, atts, env) == Failure(CheckOrder[k]) <==>
      CheckFails(clean, CheckOrder[k], atts, env) && forall j :: 0 <= j < k ==> !CheckFails(clean, CheckOrder[j], atts, env)
  {
    NoneBefore(clean, atts, env, k);
    RenderCascade(clean, atts, env);
    assert CheckOrder[0] == IdRequired && CheckOrder[1] == FetchFailed && CheckOrder[2] == EmptyDocument;
    assert CheckOrder[3] == ParsedownMissing && CheckOrder[4] == ParseFailed;
  }

  /**
   * HTML comes back exactly when no guard fires, and it is then the
   * sanitizer's output for the wrapped rendering of the cleaned body.
   */
  lemma RenderSucceedsWhenNoCheckFails(clean: string -> string, atts: map<string, string>, env: Environment)
    ensures RenderWith(clean, atts, env).Html? <==>
      forall j :: 0 <= j < |CheckOrder| ==> !CheckFails(clean, CheckOrder[j], atts, env)
    ensures RenderWith(clean, atts, env).Html? ==>
      var fetched := env.fetch(ExportUrl(env.escAttr(IdAttribute(atts))));
      && fetched.Response?
      && RenderBody(clean(fetched.body), env) == Returned(RenderWith(clean, atts, env).html)
  {
    var r := RenderWith(clean, atts, env);
    if r.Html? {
      forall j | 0 <= j < |CheckOrder| ensures !CheckFails(clean, CheckOrder[j], atts, env) {
        RenderReportsFirstFailingCheck(clean, atts, env, j);
      }
    } else {
      var k :| 0 <= k < |CheckOrder| && CheckOrder[k] == r.error by {
        match r.error
        case IdRequired => assert CheckOrder[0] == r.error;
        case FetchFailed => assert CheckOrder[1] == r.error;
        case EmptyDocument => assert CheckOrder[2] == r.error;
        case ParsedownMissing => assert CheckOrder[3] == r.error;
        case ParseFailed => assert CheckOrder[4] == r.error;
      }
      RenderReportsFirstFailingCheck(clean, atts, env, k);
    }
  }

  /**
   * An empty id (missing, `""` or `"0"`) is rejected before any
   * collaborator is consulted: the result is the same whatever the
   * environment.
   */
  lemma EmptyIdConsultsNothing(atts: map<string, string>, env1: Environment, env2: Environment)
    requires IsEmptyPhp(IdAttribute(atts))
    ensures Render(atts, env1) == Render(atts, env2) == Failure(IdRequired)
  {
  }

  /** The id check accepts exactly the ids that are not PHP-empty. */
  lemma IdRequiredIffEmpty(atts: map<string, string>, env: Environment)
    ensures Render(atts, env) == Failure(IdRequired) <==> IsEmptyPhp(IdAttribute(atts))
    ensures "id" !in atts ==> Render(atts, env) == Failure(IdRequired)
  {
    RenderReportsFirstFailingCheck(Clean, atts, env, 0);
  }

  /** A non-empty id is fetched from the export URL built from its escaped form. */
  lemma FetchUsesEscapedId(atts: map<string, string>, env: Environment, body: string)
    requires !IsEmptyPhp(IdAttribute(atts))
    requires env.fetch(UrlPrefix + env.escAttr(IdAttribute(atts)) + UrlSuffix) == Response(body)
    requires !IsEmptyPhp(body) && env.parsedownPresent
    ensures Render(atts, env) == match RenderBody(Clean(body), env)
      case Threw => Failure(ParseFailed)
      case Returned(out) => Html(out)
  {
  }

  /** Distinct escaped ids give distinct export URLs. */
  lemma ExportUrlInjective(a: string, b: string)
    ensures ExportUrl(a) == ExportUrl(b) ==> a == b
  {
    if ExportUrl(a) == ExportUrl(b) {
      assert a == ExportUrl(a)[|UrlPrefix|..|ExportUrl(a)| - |UrlSuffix|];
    }
  }

  /** Distinct Parsedown outputs give distinct wrapped documents for the sanitizer. */
  lemma WrapInjective(a: string, b: string)
    ensures Wrap(a) == Wrap(b) ==> a == b
  {
    if Wrap(a) == Wrap(b) {
      assert a == Wrap(a)[|DivOpen|..|Wrap(a)| - |DivClose|];
    }
  }

  /** The content `div` and its `class` survive the allow-list; image tags do not. */
  lemma AllowListKeepsWrapper()
    ensures "div" in AllowedHtml && "class" in AllowedHtml["div"]
    ensures "img" !in AllowedHtml && "script" !in AllowedHtml
    ensures forall t :: t in AllowedHtml && AllowedHtml[t] != {} ==> t == "div" || t == "a"
  {
  }

  /** A failure hands back one fixed paragraph, and different failures different ones. */
  lemma FailureIsFixedMessage(r: Rendered, e: RenderError)
    requires r.Failure?
    ensures Output(r) == "<p>" + ErrorText(r.error) + "</p>"
    ensures Output(r) == Message(e) ==> e == r.error
  {
    var m := Output(r);
    if m == Message(e) {
      assert ErrorText(e) == m[3..|m| - 4] == ErrorText(r.error);
      ErrorTextInjective(e, r.error);
    }
  }
}
