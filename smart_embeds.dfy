/**
 * The smart-embed preprocessor. A line of the form
 *
 *   @protocol:[title](url "{{attributes}}")
 *
 * whose protocol is one of the known embed kinds is replaced by an HTML
 * snippet: a template filled from a parameter map built in layers (title and
 * url, the protocol's defaults, the parsed attributes, values derived from
 * the url). A known directive raises `AttributeError` instead when a bare
 * word follows an explicit `class=` among its attributes. Every other line
 * passes through unchanged, except a non-empty line of blanks, which raises
 * `IndexError`.
 */
module SmartEmbeds {
  import opened Strings
  import opened EmbedDirective
  import opened EmbedAttributes

  type Params = map<string, string>

  const KnownProtocols: seq<string> := ["slideshare", "pdf", "youtube", "vimeo", "speakerdeck"]

  /** `_DEFAULT_PARAMS.get(protocol, {})`: each known protocol's defaults, nothing for any other name. */
  function DefaultsFor(protocol: string): Params
  {
    if protocol == "pdf" then map["width" := "520", "height" := "675"]
    else if protocol == "slideshare" then map["id" := "", "sid" := "", "width" := "520", "height" := "435"]
    else if protocol == "speakerdeck" then map["id" := ""]
    else if protocol == "vimeo" then map["width" := "520", "height" := "390"]
    else if protocol == "youtube" then map["width" := "520", "height" := "390"]
    else map[]
  }

  // ---------------------------------------------------------------------
  // Templates and `%(key)s` substitution
  // ---------------------------------------------------------------------

  /** A template is literal text interleaved with `%(key)s` placeholders. */
  datatype Piece = Lit(text: string) | Hole(key: string)

  const PdfTemplate: seq<Piece> := [
    Lit("<div class='embedded smartembed pdf'>\n<iframe src=\"http://docs.google.com/gview?embedded=true&url="),
    Hole("url"),
    Lit("&\" width=\""),
    Hole("width"),
    Lit("\" height=\""),
    Hole("height"),
    Lit("\" frameborder=\"0\" marginwidth=\"0\" marginheight=\"0\"></iframe>\n<div class=\"smartembed-ref-pdf\"><a href=\""),
    Hole("url"),
    Lit("\" rel=\"nofollow external\" target=\"_blank\">Download PDF</a></div>\n</div>\n")
  ]

  const SlideshareTemplate: seq<Piece> := [
    Lit("<div class=\"embedded smartembed slideshare\" style=\"width:"),
    Hole("width"),
    Lit("px\" id=\""),
    Hole("sid"),
    Lit("\">\n<iframe class=\"smartembed slideshare\" src=\"http://www.slideshare.net/slideshow/embed_code/"),
    Hole("id"),
    Lit("?rel=0\" width=\""),
    Hole("width"),
    Lit("\" height=\""),
    Hole("height"),
    Lit("\" frameborder=\"0\" marginwidth=\"0\" marginheight=\"0\" scrolling=\"no\"></iframe>\n<div class=\"smartembed-ref-slideshare\"><a href=\""),
    Hole("url"),
    Lit("\" rel=\"nofollow external\" target=\"_blank\">"),
    Hole("title"),
    Lit("</a></div>\n</div>\n")
  ]

  /** The plain link used by slideshare and speakerdeck when there is no id. */
  const LinkTemplate: seq<Piece> := [
    Lit("<a href=\""),
    Hole("url"),
    Lit("\" rel=\"nofollow external\" target=\"_blank\">"),
    Hole("title"),
    Lit("</a>")
  ]

  const SpeakerdeckTemplate: seq<Piece> := [
    Lit("<div class=\"embedded smartembed speakerdeck\">\n<script src=\"http://speakerdeck.com/embed/"),
    Hole("id"),
    Lit(".js\"></script>\n<div class=\"smartembed-ref-speakerdeck\"><a href=\""),
    Hole("url"),
    Lit("\" rel=\"nofollow external\" target=\"_blank\">"),
    Hole("title"),
    Lit("</a></div>\n</div>\n")
  ]

  const VimeoTemplate: seq<Piece> := [
    Lit("<div class=\"embedded smartembed vimeo\">\n<iframe src=\"http://player.vimeo.com/video/"),
    Hole("id"),
    Lit("?title=0&amp;byline=0&amp;portrait=0\" width=\""),
    Hole("width"),
    Lit("\" height=\""),
    Hole("height"),
    Lit("\" frameborder=\"0\" webkitAllowFullScreen mozallowfullscreen allowFullScreen></iframe>\n<div class=\"smartembed-ref-vimeo\"><a href=\""),
    Hole("url"),
    Lit("\" rel=\"nofollow external\" target=\"_blank\">"),
    Hole("title"),
    Lit("</a></div>\n</div>\n")
  ]

  const YoutubeTemplate: seq<Piece> := [
    Lit("<div class=\"embedded smartembed youtube\">\n<iframe class=\"youtube-player\" type=\"text/html\" width=\""),
    Hole("width"),
    Lit("\" height=\""),
    Hole("height"),
    Lit("\" src=\"http://www.youtube.com/embed/"),
    Hole("id"),
    Lit("\" frameborder=\"0\"></iframe>\n</div>\n")
  ]

  /** `_TEMPLATES.get(name, "")`: an unknown name gives the empty template. */
  function TemplateFor(name: string): seq<Piece>
  {
    if name == "pdf" then PdfTemplate
    else if name == "slideshare" then SlideshareTemplate
    else if name == "slideshare_noid" || name == "speakerdeck_noid" then LinkTemplate
    else if name == "speakerdeck" then SpeakerdeckTemplate
    else if name == "vimeo" then VimeoTemplate
    else if name == "youtube" then YoutubeTemplate
    else []
  }

  /** Every placeholder of the template names a key of the map. */
  predicate Resolves(template: seq<Piece>, params: Params)
  {
    forall k :: 0 <= k < |template| && template[k].Hole? ==> template[k].key in params
  }

  /** `template % params`; None stands for the `KeyError` of a placeholder whose key is missing. */
  function Fill(template: seq<Piece>, params: Params): Option<string>
    decreases |template|
  {
    if template == [] then Some("")
    else
      match Fill(template[1..], params)
      case None => None
      case Some(rest) =>
        match template[0]
        case Lit(text) => Some(text + rest)
        case Hole(key) => if key in params then Some(params[key] + rest) else None
  }

  /** Substitution succeeds exactly when every placeholder is resolved. */
  lemma {:induction false} FillDefined(template: seq<Piece>, params: Params)
    ensures Fill(template, params).Some? <==> Resolves(template, params)
    decreases |template|
  {
    if template != [] {
      FillDefined(template[1..], params);
      if Resolves(template, params) {
        forall k | 0 <= k < |template[1..]| && template[1..][k].Hole? ensures template[1..][k].key in params {
          assert template[1..][k] == template[k + 1];
        }
      }
      if Resolves(template[1..], params) && (template[0].Hole? ==> template[0].key in params) {
        forall k | 0 <= k < |template| && template[k].Hole? ensures template[k].key in params {
          if k > 0 {
            assert template[k] == template[1..][k - 1];
          }
        }
      }
    }
  }

  /** The keys each template's placeholders name. */
  function TemplateKeys(name: string): set<string>
  {
    if name == "pdf" then {"url", "width", "height"}
    else if name == "slideshare" then {"width", "sid", "id", "height", "url", "title"}
    else if name == "slideshare_noid" || name == "speakerdeck_noid" then {"url", "title"}
    else if name == "speakerdeck" then {"id", "url", "title"}
    else if name == "vimeo" then {"id", "width", "height", "url", "title"}
    else if name == "youtube" then {"width", "height", "id"}
    else {}
  }

  /** A map holding a template's keys resolves all its placeholders. */
  lemma {:induction false} TemplateResolves(name: string, params: Params)
    requires TemplateKeys(name) <= params.Keys
    ensures Resolves(TemplateFor(name), params)
  {
    var t := TemplateFor(name);
    forall k | 0 <= k < |t| && t[k].Hole? ensures t[k].key in params {
      assert t[k].key in TemplateKeys(name);
    }
  }

  // ---------------------------------------------------------------------
  // Values derived from the url and the slideshare id pair
  // ---------------------------------------------------------------------

  /** `params.get(key)` read for its truth value: a missing key reads as empty. */
  function Get(params: Params, key: string): string
  {
    if key in params then params[key] else ""
  }

  /**
   * The entries `_slideshare` adds: when exactly one of `id` and `sid` is
   * set, the other is derived from it through the "__ss_" prefix.
   */
  function Slideshare(params: Params): Params
  {
    var id := Get(params, "id");
    var sid := Get(params, "sid");
    if id != "" then
      if sid == "" then
        if StartsWith(id, "__ss_") then map["sid" := id, "id" := id[5..]]
        else map["sid" := "__ss_" + id]
      else map[]
    else if sid != "" then
      if StartsWith(sid, "__ss_") then map["id" := sid[5..]]
      else map["id" := sid, "sid" := "__ss_" + sid]
    else map[]
  }

  /**
   * After reconciliation a lone `id` or `sid` is paired with its partner,
   * `sid` being "__ss_" followed by `id`: a lone value that already carries
   * the prefix is the `sid`, one without it is the `id`. When both or neither
   * are set, nothing changes. No other key is touched.
   */
  lemma {:induction false} SlideshareReconciled(params: Params)
    ensures Slideshare(params).Keys <= {"id", "sid"}
    ensures var p := params + Slideshare(params);
            (Get(params, "id") == "") != (Get(params, "sid") == "") ==> Get(p, "sid") == "__ss_" + Get(p, "id")
    ensures var id, sid, p := Get(params, "id"), Get(params, "sid"), params + Slideshare(params);
            id != "" && sid == "" ==>
              if StartsWith(id, "__ss_") then Get(p, "id") == id[5..] && Get(p, "sid") == id
              else Get(p, "id") == id && Get(p, "sid") == "__ss_" + id
    ensures var id, sid, p := Get(params, "id"), Get(params, "sid"), params + Slideshare(params);
            id == "" && sid != "" ==>
              if StartsWith(sid, "__ss_") then Get(p, "id") == sid[5..] && Get(p, "sid") == sid
              else Get(p, "id") == sid && Get(p, "sid") == "__ss_" + sid
    ensures (Get(params, "id") == "") == (Get(params, "sid") == "") ==> Slideshare(params) == map[]
  {
    var id := Get(params, "id");
    var sid := Get(params, "sid");
    if id != "" && sid == "" && StartsWith(id, "__ss_") {
      assert id == "__ss_" + id[5..];
    }
    if id == "" && sid != "" && StartsWith(sid, "__ss_") {
      assert sid == "__ss_" + sid[5..];
    }
  }

  /** `url.split('/')[-1]`: the text after the last '/'. */
  function LastSegment(url: string): string
  {
    match FindLastBelow(url, "/", |url|)
    case None => url
    case Some(k) => url[k + 1..]
  }

  /** The vimeo id: the last path segment, cut before its first '?'. */
  function VimeoId(url: string): string
  {
    var segment := LastSegment(url);
    match FindFrom(segment, "?", 0)
    case Some(q) => segment[..q]
    case None => segment
  }

  /** The vimeo id holds neither '/' nor '?'. */
  lemma {:induction false} VimeoIdShape(url: string)
    ensures '/' !in VimeoId(url) && '?' !in VimeoId(url)
  {
    FindLastBelowSpec(url, "/", |url|);
    var segment := LastSegment(url);
    forall k | 0 <= k < |segment| ensures segment[k] != '/' {
      match FindLastBelow(url, "/", |url|)
      case None =>
        OccursAtChar(url, '/', k);
      case Some(j) =>
        assert segment[k] == url[j + 1 + k];
        OccursAtChar(url, '/', j + 1 + k);
    }
    FindFromSpec(segment, "?", 0);
    var id := VimeoId(url);
    forall k | 0 <= k < |id| ensures id[k] != '?' {
      OccursAtChar(segment, '?', k);
    }
  }

  /** The id written after the last '/' and before an optional query is the vimeo id. */
  lemma {:induction false} VimeoIdOf(prefix: string, id: string, query: string)
    requires '/' !in id && '?' !in id && '/' !in query && (query == "" || query[0] == '?')
    ensures VimeoId(prefix + "/" + id + query) == id
  {
    var url := prefix + "/" + id + query;
    var j := |prefix|;
    assert url[j] == '/';
    OccursAtChar(url, '/', j);
    forall m: nat | j < m < |url| ensures !OccursAt(url, "/", m) {
      OccursAtChar(url, '/', m);
      if m < j + 1 + |id| {
        assert url[m] == id[m - j - 1];
      } else {
        assert url[m] == query[m - j - 1 - |id|];
      }
    }
    FindLastBelowOf(url, "/", |url|, j);
    var segment := url[j + 1..];
    assert segment == id + query;
    forall k: nat | k < |id| ensures !OccursAt(segment, "?", k) {
      OccursAtChar(segment, '?', k);
      assert segment[k] == id[k];
    }
    if query == "" {
      forall k: nat | |id| <= k ensures !OccursAt(segment, "?", k) {
        OccursAtChar(segment, '?', k);
      }
      FindFromSpec(segment, "?", 0);
      assert segment == id;
    } else {
      assert segment[|id|] == '?';
      OccursAtChar(segment, '?', |id|);
      FindFromFirst(segment, "?", 0, |id|);
      assert segment[..|id|] == id;
    }
  }

  predicate NotSeparator(c: char)
  {
    c != '&' && c != ';'
  }

  predicate NotEquals(c: char)
  {
    c != '='
  }

  /** The fields of a query string, split at every '&' and ';'. */
  function SplitFields(query: string): (r: seq<string>)
    ensures |r| > 0
    decreases |query|
  {
    var k := RunEnd(query, 0, NotSeparator);
    if k == |query| then [query] else [query[..k]] + SplitFields(query[k + 1..])
  }

  /** The name of a field: its text up to the first '='. */
  function FieldName(field: string): string
  {
    field[..RunEnd(field, 0, NotEquals)]
  }

  /** The value of a field after its first '='; a field without '=' has an empty value. */
  function FieldValue(field: string): string
  {
    var e := RunEnd(field, 0, NotEquals);
    if e < |field| then field[e + 1..] else ""
  }

  /** The first value given to `name`, skipping empty fields (blank values are kept). */
  function QueryValue(fields: seq<string>, name: string): Option<string>
    decreases |fields|
  {
    if fields == [] then None
    else if fields[0] != "" && FieldName(fields[0]) == name then Some(FieldValue(fields[0]))
    else QueryValue(fields[1..], name)
  }

  /** The youtube id: the first `v` value of the query after the first '?', or empty. */
  function YoutubeId(url: string): string
  {
    match FindFrom(url, "?", 0)
    case None => ""
    case Some(q) =>
      match QueryValue(SplitFields(url[q + 1..]), "v")
      case None => ""
      case Some(v) => v
  }

  /** A url without a query has an empty youtube id. */
  lemma {:induction false} YoutubeWithoutQuery(url: string)
    requires '?' !in url
    ensures YoutubeId(url) == ""
  {
    FindFromSpec(url, "?", 0);
    if FindFrom(url, "?", 0).Some? {
      OccursAtChar(url, '?', FindFrom(url, "?", 0).value);
    }
  }

  /** The first '?' of a url whose base has none sits right after the base. */
  lemma {:induction false} QueryStart(base: string, query: string)
    requires '?' !in base
    ensures FindFrom(base + "?" + query, "?", 0) == Some(|base|)
  {
    var url := base + "?" + query;
    assert url[|base|] == '?';
    OccursAtChar(url, '?', |base|);
    forall k: nat | k < |base| ensures !OccursAt(url, "?", k) {
      OccursAtChar(url, '?', k);
      assert url[k] == base[k];
    }
    FindFromFirst(url, "?", 0, |base|);
  }

  /** A query whose first field is `field`, ended by a separator or by the end. */
  lemma {:induction false} FirstField(query: string, field: string, rest: string)
    requires forall k :: 0 <= k < |field| ==> NotSeparator(field[k])
    requires query == field + rest && (rest == "" || !NotSeparator(rest[0]))
    ensures SplitFields(query)[0] == field
    ensures rest != "" ==> SplitFields(query)[1..] == SplitFields(rest[1..])
  {
    forall k | 0 <= k < |field| ensures NotSeparator(query[k]) {
      assert query[k] == field[k];
    }
    if rest != "" {
      assert query[|field|] == rest[0];
    }
    RunEndOf(query, 0, |field|, NotSeparator);
    assert query[..|field|] == field;
    if rest != "" {
      assert query[|field| + 1..] == rest[1..];
    }
  }

  /** A query opening with the field `v=id` gives `id` as the value of `v`. */
  lemma {:induction false} LeadingV(id: string, rest: string)
    requires forall k :: 0 <= k < |id| ==> NotSeparator(id[k])
    requires rest == "" || !NotSeparator(rest[0])
    ensures QueryValue(SplitFields("v=" + id + rest), "v") == Some(id)
  {
    var field := "v=" + id;
    forall k | 0 <= k < |field| ensures NotSeparator(field[k]) {
      if k >= 2 {
        assert field[k] == id[k - 2];
      }
    }
    FirstField(field + rest, field, rest);
    assert field[0] == 'v' && field[1] == '=';
    RunEndOf(field, 0, 1, NotEquals);
    assert FieldName(field) == "v" && FieldValue(field) == id;
  }

  /** `?v=id`, ended by a separator or by the end, gives the youtube id. */
  lemma {:induction false} YoutubeIdOf(base: string, id: string, rest: string)
    requires '?' !in base && forall k :: 0 <= k < |id| ==> NotSeparator(id[k])
    requires rest == "" || !NotSeparator(rest[0])
    ensures YoutubeId(base + "?v=" + id + rest) == id
  {
    var query := "v=" + id + rest;
    assert base + "?v=" + id + rest == base + "?" + query;
    QueryStart(base, query);
    assert (base + "?" + query)[|base| + 1..] == query;
    LeadingV(id, rest);
  }

  /** A first field that does not name `v` is skipped: the id comes from the fields after it. */
  lemma {:induction false} YoutubeSkipsField(base: string, field: string, sep: char, rest: string)
    requires '?' !in base && forall k :: 0 <= k < |field| ==> NotSeparator(field[k])
    requires !NotSeparator(sep) && FieldName(field) != "v"
    ensures YoutubeId(base + "?" + field + [sep] + rest) == YoutubeId(base + "?" + rest)
  {
    var query := field + ([sep] + rest);
    assert base + "?" + field + [sep] + rest == base + "?" + query;
    QueryStart(base, query);
    QueryStart(base, rest);
    assert (base + "?" + query)[|base| + 1..] == query;
    assert (base + "?" + rest)[|base| + 1..] == rest;
    FirstField(query, field, [sep] + rest);
    assert ([sep] + rest)[1..] == rest;
  }

  // ---------------------------------------------------------------------
  // The parameter layers and the embed
  // ---------------------------------------------------------------------

  /** The layers before the derived values: title and url, then the protocol's defaults, then the attributes. */
  function BaseParams(d: Directive, attrs: Params): Params
  {
    map["title" := d.title, "url" := d.url] + DefaultsFor(d.protocol) + attrs
  }

  /** The last layer: the id read from the url (vimeo, youtube) or the reconciled slideshare pair. */
  function Derived(protocol: string, url: string, params: Params): Params
  {
    if protocol == "vimeo" then map["id" := VimeoId(url)]
    else if protocol == "youtube" then map["id" := YoutubeId(url)]
    else if protocol == "slideshare" then Slideshare(params)
    else map[]
  }

  function FinalParams(d: Directive, attrs: Params): Params
  {
    var base := BaseParams(d, attrs);
    base + Derived(d.protocol, d.url, base)
  }

  /** The template to fill: the plain-link variant for slideshare and speakerdeck without an id. */
  function TemplateName(protocol: string, params: Params): string
  {
    if protocol == "slideshare" && Get(params, "id") == "" then "slideshare_noid"
    else if protocol == "speakerdeck" && Get(params, "id") == "" then "speakerdeck_noid"
    else protocol
  }

  /** `_process`: the HTML for a recognised directive, or the exception raised while building it. */
  function Embed(d: Directive): Result<string>
  {
    match Attributes(d.attributes)
    case Err(f) => Err(f)
    case Ok(attrs) =>
      var params := FinalParams(d, attrs);
      match Fill(TemplateFor(TemplateName(d.protocol, params)), params)
      case None => Err(KeyError)
      case Some(html) => Ok(html)
  }

  /**
   * `_process` itself: the parameter map is updated in place, layer by
   * layer, and the protocol name is switched to its plain-link variant when
   * no id results.
   */
  method Process(d: Directive) returns (r: Result<string>)
    ensures r == Embed(d)
  {
    var attrs := ParseAttributes(d.attributes);
    if attrs.Err? {
      return Err(attrs.failure);
    }
    var params, protocol := Layer(d, attrs.value);
    var html := Fill(TemplateFor(protocol), params);
    EmbedOf(d, attrs.value, params, protocol);
    if html.None? {
      return Err(KeyError);
    }
    r := Ok(html.value);
  }

  /**
   * The parameter map of `_process`, updated in place layer by layer, and
   * the template name, switched to the plain-link variant when no id results.
   */
  method Layer(d: Directive, attrs: Params) returns (params: Params, protocol: string)
    ensures params == FinalParams(d, attrs) && protocol == TemplateName(d.protocol, params)
  {
    params := map["title" := d.title, "url" := d.url];
    params := params + DefaultsFor(d.protocol);
    params := params + attrs;
    ghost var base := params;
    protocol := d.protocol;
    if protocol == "vimeo" {
      params := params + map["id" := VimeoId(d.url)];
    } else if protocol == "youtube" {
      params := params + map["id" := YoutubeId(d.url)];
    } else if protocol == "slideshare" {
      params := params + Slideshare(params);
      if "id" !in params || params["id"] == "" {
        protocol := "slideshare_noid";
      }
    } else if protocol == "speakerdeck" {
      if "id" !in params || params["id"] == "" {
        protocol := "speakerdeck_noid";
      }
    }
  }

  /** The embed of a directive whose attributes, final parameters and template name are known. */
  lemma {:induction false} EmbedOf(d: Directive, attrs: Params, params: Params, name: string)
    requires Attributes(d.attributes) == Ok(attrs) && params == FinalParams(d, attrs)
    requires name == TemplateName(d.protocol, params)
    ensures Embed(d) == match Fill(TemplateFor(name), params) case None => Err(KeyError) case Some(html) => Ok(html)
  {
  }

  /**
   * The layers in order: the url-derived entries win over the attributes,
   * the attributes over the defaults, and the defaults over title and url.
   */
  lemma {:induction false} Precedence(d: Directive, attrs: Params, key: string)
    ensures var p := FinalParams(d, attrs);
            var derived := Derived(d.protocol, d.url, BaseParams(d, attrs));
            var defaults := DefaultsFor(d.protocol);
            && (key in p <==> key in derived || key in attrs || key in defaults || key == "title" || key == "url")
            && (key in p ==> p[key] == if key in derived then derived[key]
                                       else if key in attrs then attrs[key]
                                       else if key in defaults then defaults[key]
                                       else if key == "title" then d.title
                                       else d.url)
  {
  }

  /** For a known protocol the final parameters hold every key of the chosen template. */
  lemma {:induction false} FinalKeys(d: Directive, attrs: Params)
    requires d.protocol in KnownProtocols
    ensures var p := FinalParams(d, attrs);
            TemplateKeys(TemplateName(d.protocol, p)) <= p.Keys
  {
    var base := BaseParams(d, attrs);
    var p := FinalParams(d, attrs);
    assert {"title", "url"} <= p.Keys;
    assert DefaultsFor(d.protocol).Keys <= p.Keys;
    if d.protocol == "vimeo" || d.protocol == "youtube" {
      assert "id" in Derived(d.protocol, d.url, base);
    }
  }

  /** For a known protocol every placeholder of the chosen template is resolved; only the attributes can fail. */
  lemma {:induction false} EmbedResolves(d: Directive)
    requires d.protocol in KnownProtocols
    ensures Attributes(d.attributes).Ok? ==> Embed(d).Ok?
    ensures Embed(d).Err? ==> Embed(d) == Err(AttributeError)
  {
    AttributesOnlyAttributeError(d.attributes);
    if Attributes(d.attributes).Ok? {
      var attrs := Attributes(d.attributes).value;
      var p := FinalParams(d, attrs);
      var name := TemplateName(d.protocol, p);
      FinalKeys(d, attrs);
      TemplateResolves(name, p);
      FillDefined(TemplateFor(name), p);
      EmbedOf(d, attrs, p, name);
    }
  }

  /** The plain link a slideshare or speakerdeck directive becomes when it has no id. */
  function LinkHtml(url: string, title: string): string
  {
    "<a href=\"" + url + "\" rel=\"nofollow external\" target=\"_blank\">" + title + "</a>"
  }

  /** The plain-link template filled with a url and a title. */
  lemma {:induction false} LinkFill(p: Params)
    requires "url" in p && "title" in p
    ensures Fill(LinkTemplate, p) == Some(LinkHtml(p["url"], p["title"]))
  {
    var close := "\" rel=\"nofollow external\" target=\"_blank\">";
    var t4: seq<Piece> := [Lit("</a>")];
    var t3 := [Hole("title")] + t4;
    var t2 := [Lit(close)] + t3;
    var t1 := [Hole("url")] + t2;
    assert LinkTemplate == [Lit("<a href=\"")] + t1;
    assert t4[1..] == [] && t3[1..] == t4 && t2[1..] == t3 && t1[1..] == t2;
    assert Fill(t4[1..], p) == Some("");
    assert "</a>" + "" == "</a>";
    assert Fill(t4, p) == Some("</a>");
    assert Fill(t3, p) == Some(p["title"] + "</a>");
    assert Fill(t2, p) == Some(close + (p["title"] + "</a>"));
    assert Fill(t1, p) == Some(p["url"] + (close + (p["title"] + "</a>")));
    assert LinkHtml(p["url"], p["title"]) == "<a href=\"" + (p["url"] + (close + (p["title"] + "</a>")));
  }

  /** Slideshare and speakerdeck without an id after resolution render as a plain link to the url. */
  lemma {:induction false} NoIdLink(d: Directive, attrs: Params)
    requires d.protocol == "slideshare" || d.protocol == "speakerdeck"
    requires Attributes(d.attributes) == Ok(attrs) && Get(FinalParams(d, attrs), "id") == ""
    ensures var p := FinalParams(d, attrs);
            Embed(d) == Ok(LinkHtml(p["url"], p["title"]))
  {
    var p := FinalParams(d, attrs);
    var name := TemplateName(d.protocol, p);
    assert TemplateFor(name) == LinkTemplate;
    assert "url" in p && "title" in p;
    LinkFill(p);
    EmbedOf(d, attrs, p, name);
  }

  // ---------------------------------------------------------------------
  // Lines
  // ---------------------------------------------------------------------

  /**
   * One line of `run`: an empty line, a line whose first non-blank character
   * is not '@', a line the grammar rejects and a directive of an unknown
   * protocol pass through; a known directive becomes its embed. A non-empty
   * line of blanks raises `IndexError` (`l.lstrip()[0]`).
   */
  function RenderLine(line: string): Result<string>
  {
    if line == "" then Ok(line)
    else
      var w := RunEnd(line, 0, IsSpace);
      if w == |line| then Err(IndexError)
      else if line[w] != '@' then Ok(line)
      else match ParseDirective(line)
        case None => Ok(line)
        case Some(d) => if d.protocol in KnownProtocols then Embed(d) else Ok(line)
  }

  /** The lines rendered in order by `render`; the first exception ends the run. */
  function RunWith(render: string -> Result<string>, lines: seq<string>): Result<seq<string>>
    decreases |lines|
  {
    if lines == [] then Ok([])
    else match RunWith(render, lines[..|lines| - 1])
      case Err(f) => Err(f)
      case Ok(out) =>
        match render(lines[|lines| - 1])
        case Err(f) => Err(f)
        case Ok(l) => Ok(out + [l])
  }

  /** What `run` computes: every line rendered by RenderLine. */
  function RunLines(lines: seq<string>): Result<seq<string>>
  {
    RunWith(RenderLine, lines)
  }

  /** `run`: the loop that appends each line, or its embed, to the output list. */
  method Run(lines: seq<string>) returns (r: Result<seq<string>>)
    ensures r == RunLines(lines)
  {
    var flines: seq<string> := [];
    var k := 0;
    while k < |lines|
      invariant 0 <= k <= |lines|
      invariant RunLines(lines[..k]) == Ok(flines)
    {
      var l := lines[k];
      assert lines[..k + 1][..k] == lines[..k];
      if l != "" {
        var w := RunEnd(l, 0, IsSpace);
        if w == |l| {
          RunLinesSticky(lines, k + 1, IndexError);
          return Err(IndexError);
        }
        if l[w] == '@' {
          var m := ParseDirective(l);
          if m.Some? && m.value.protocol in KnownProtocols {
            var html := Process(m.value);
            if html.Err? {
              RunLinesSticky(lines, k + 1, html.failure);
              return Err(html.failure);
            }
            flines := flines + [html.value];
          } else {
            flines := flines + [l];
          }
        } else {
          flines := flines + [l];
        }
      } else {
        flines := flines + [l];
      }
      k := k + 1;
    }
    assert lines[..k] == lines;
    r := Ok(flines);
  }

  /** Once a prefix of the lines raises, the whole run raises the same way. */
  lemma {:induction false} RunWithSticky(render: string -> Result<string>, lines: seq<string>, p: nat, f: Failure)
    requires p <= |lines| && RunWith(render, lines[..p]) == Err(f)
    ensures RunWith(render, lines) == Err(f)
    decreases |lines|
  {
    if p == |lines| {
      assert lines[..p] == lines;
    } else {
      var front := lines[..|lines| - 1];
      assert front[..p] == lines[..p];
      RunWithSticky(render, front, p, f);
    }
  }

  /** A successful run keeps the number of lines, and line i of the output is line i rendered. */
  lemma {:induction false} RunWithOk(render: string -> Result<string>, lines: seq<string>, out: seq<string>)
    requires RunWith(render, lines) == Ok(out)
    ensures |out| == |lines|
    ensures forall i :: 0 <= i < |lines| ==> render(lines[i]) == Ok(out[i])
    decreases |lines|
  {
    if lines != [] {
      var n := |lines| - 1;
      var front := lines[..n];
      var out0 := RunWith(render, front).value;
      RunWithOk(render, front, out0);
      assert out == out0 + [out[n]];
      forall i | 0 <= i < |lines| ensures render(lines[i]) == Ok(out[i]) {
        if i < n {
          assert lines[i] == front[i];
          assert out[i] == out0[i];
        }
      }
    }
  }

  /** The run succeeds exactly when every line renders. */
  lemma {:induction false} RunWithOkIff(render: string -> Result<string>, lines: seq<string>)
    ensures RunWith(render, lines).Ok? <==> forall i :: 0 <= i < |lines| ==> render(lines[i]).Ok?
    decreases |lines|
  {
    if lines != [] {
      var n := |lines| - 1;
      var front := lines[..n];
      RunWithOkIff(render, front);
      if RunWith(render, lines).Ok? {
        RunWithOk(render, lines, RunWith(render, lines).value);
      }
      if forall i :: 0 <= i < |lines| ==> render(lines[i]).Ok? {
        forall i | 0 <= i < |front| ensures render(front[i]).Ok? {
          assert front[i] == lines[i];
        }
      }
    }
  }

  /** A failed run raises what the first failing line raises. */
  lemma {:induction false} RunWithFirstError(render: string -> Result<string>, lines: seq<string>, f: Failure)
    requires RunWith(render, lines) == Err(f)
    ensures exists i :: 0 <= i < |lines| && render(lines[i]) == Err(f)
                        && forall j :: 0 <= j < i ==> render(lines[j]).Ok?
    decreases |lines|
  {
    var n := |lines| - 1;
    var front := lines[..n];
    match RunWith(render, front)
    case Err(_) =>
      RunWithFirstError(render, front, f);
      var i :| 0 <= i < |front| && render(front[i]) == Err(f)
               && forall j :: 0 <= j < i ==> render(front[j]).Ok?;
      assert lines[i] == front[i];
      forall j | 0 <= j < i ensures render(lines[j]).Ok? {
        assert lines[j] == front[j];
      }
    case Ok(out) =>
      RunWithOk(render, front, out);
      forall j | 0 <= j < n ensures render(lines[j]).Ok? {
        assert lines[j] == front[j];
      }
  }

  /** Once a prefix of the lines raises, `run` raises the same way. */
  lemma {:induction false} RunLinesSticky(lines: seq<string>, p: nat, f: Failure)
    requires p <= |lines| && RunLines(lines[..p]) == Err(f)
    ensures RunLines(lines) == Err(f)
  {
    RunWithSticky(RenderLine, lines, p, f);
  }

  /** A successful `run` returns one line per input line: line i rendered. */
  lemma {:induction false} RunLinesOk(lines: seq<string>, out: seq<string>)
    requires RunLines(lines) == Ok(out)
    ensures |out| == |lines|
    ensures forall i :: 0 <= i < |lines| ==> RenderLine(lines[i]) == Ok(out[i])
  {
    RunWithOk(RenderLine, lines, out);
  }

  /** `run` succeeds exactly when every line renders. */
  lemma {:induction false} RunLinesOkIff(lines: seq<string>)
    ensures RunLines(lines).Ok? <==> forall i :: 0 <= i < |lines| ==> RenderLine(lines[i]).Ok?
  {
    RunWithOkIff(RenderLine, lines);
  }

  /** A failed `run` raises what the first failing line raises. */
  lemma {:induction false} RunLinesFirstError(lines: seq<string>, f: Failure)
    requires RunLines(lines) == Err(f)
    ensures exists i :: 0 <= i < |lines| && RenderLine(lines[i]) == Err(f)
                        && forall j :: 0 <= j < i ==> RenderLine(lines[j]).Ok?
  {
    RunWithFirstError(RenderLine, lines, f);
  }

  /** A rendered line is the line itself or the embed of the known directive it holds. */
  lemma {:induction false} RenderLineCases(line: string, r: string)
    requires RenderLine(line) == Ok(r)
    ensures r == line || (ParseDirective(line).Some? && ParseDirective(line).value.protocol in KnownProtocols
                          && Embed(ParseDirective(line).value) == Ok(r))
  {
  }

  /** A line whose first non-blank character is not '@' passes through. */
  lemma {:induction false} PlainLinePasses(line: string)
    requires var w := RunEnd(line, 0, IsSpace); w < |line| && line[w] != '@'
    ensures RenderLine(line) == Ok(line)
  {
  }

  /** An empty line, or one with a non-blank character, that the grammar rejects passes through. */
  lemma {:induction false} GrammarFailPasses(line: string)
    requires (line == "" || !Blank(line)) && ParseDirective(line).None?
    ensures RenderLine(line) == Ok(line)
  {
    RunEndSpec(line, 0, IsSpace);
  }

  /** A line the grammar accepts with a protocol outside the known ones passes through. */
  lemma {:induction false} UnknownDirectivePasses(line: string, d: Directive)
    requires ParseDirective(line) == Some(d) && d.protocol !in KnownProtocols
    ensures RenderLine(line) == Ok(line)
  {
    ParseDirectiveShape(line);
  }

  /** A non-empty line of blanks raises `IndexError`. */
  lemma {:induction false} BlankLineRaises(line: string)
    requires line != "" && Blank(line)
    ensures RenderLine(line) == Err(IndexError)
  {
    RunEndOf(line, 0, |line|, IsSpace);
  }

  /** A written directive of a known protocol becomes its embed, whatever follows it on the line. */
  lemma {:induction false} WrittenDirectiveRenders(indent: string, d: Directive, rest: string)
    requires Blank(indent) && Writable(d) && d.protocol in KnownProtocols
    ensures RenderLine(Written(indent, d, rest)) == Embed(d)
  {
    ParseWritten(indent, d, rest);
    ParseDirectiveShape(Written(indent, d, rest));
  }

  /** A written directive of an unknown protocol passes through. */
  lemma {:induction false} UnknownProtocolPasses(indent: string, d: Directive, rest: string)
    requires Blank(indent) && Writable(d) && d.protocol !in KnownProtocols
    ensures RenderLine(Written(indent, d, rest)) == Ok(Written(indent, d, rest))
  {
    ParseWritten(indent, d, rest);
    ParseDirectiveShape(Written(indent, d, rest));
  }
}
