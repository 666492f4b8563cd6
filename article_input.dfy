/**
 * The article input schemas: what `createMyArticle` and `updateMyArticle`
 * accept, the feed paging inputs with their defaults, and the tag feed's
 * UUID-shaped tag id.
 */
module ArticleInput {

  import opened Common
  import opened Schema

  /** The parsed `createMyArticleInput`; every field is optional. */
  datatype CreateMyArticle = CreateMyArticle(
    title: Option<string>,
    excerpt: Option<string>,
    body: Option<string>,
    coverImage: Option<ServerFile>,
    isPublished: Option<bool>)

  /** `metadata.seo.canonical_url` after its transform. */
  datatype CanonicalUrl = AbsentUrl | NullUrl | Url(url: string)

  datatype Seo = Seo(
    title: Option<string>,
    description: Option<string>,
    keywords: Option<seq<string>>,
    canonicalUrl: CanonicalUrl)

  datatype Metadata = Metadata(seo: Option<Seo>)

  /** The parsed `updateMyArticleInput`; only `article_id` is required. */
  datatype UpdateMyArticle = UpdateMyArticle(
    articleId: ArticleId,
    title: Option<string>,
    handle: Option<string>,
    excerpt: Option<string>,
    body: Option<string>,
    coverImage: Option<ServerFile>,
    isPublished: Option<bool>,
    tagIds: Option<seq<TagId>>,
    metadata: Option<Metadata>)

  datatype Paging = Paging(page: int, limit: int)

  datatype TagFeed = TagFeed(tagId: TagId, page: int, limit: int)

  /** `createMyArticleInput.parse(v)`. */
  function ParseCreateMyArticle(v: Raw): Parsed<CreateMyArticle> {
    if !v.Obj? then Invalid
    else
      var f := v.fields;
      var title := OptionalString(Field(f, "title"));
      var excerpt := NullishString(Field(f, "excerpt"));
      var body := NullishString(Field(f, "body"));
      var cover := NullishServerFile(Field(f, "cover_image"), false, false);
      var published := NullishBool(Field(f, "is_published"));
      if title.Invalid? || excerpt.Invalid? || body.Invalid? || cover.Invalid? || published.Invalid? then Invalid
      else Ok(CreateMyArticle(title.value, excerpt.value, body.value, cover.value, published.value))
  }

  /**
   * The `canonical_url` union of a URL, `""` and `null`, with `""` turned into
   * `null`; the field is also optional.
   */
  function ParseCanonicalUrl(v: Raw): (r: Parsed<CanonicalUrl>)
    ensures v == Str("") ==> r == Ok(NullUrl)
    ensures v.Null? ==> r == Ok(NullUrl)
    ensures v.Undefined? ==> r == Ok(AbsentUrl)
    ensures r.Ok? && r.value.Url? ==> v == Str(r.value.url) && r.value.url != "" && IsUrlShape(r.value.url)
    ensures v.Str? && v.s != "" && !IsUrlShape(v.s) ==> r.Invalid?
  {
    match v
    case Undefined => Ok(AbsentUrl)
    case Null => Ok(NullUrl)
    case Str(s) => if s == "" then Ok(NullUrl) else if IsUrlShape(s) then Ok(Url(s)) else Invalid
    case _ => Invalid
  }

  function ParseSeo(v: Raw): Parsed<Option<Seo>> {
    match v
    case Undefined => Ok(None)
    case Null => Ok(None)
    case Obj(f) =>
      var title := OptionalString(Field(f, "title"));
      var description := OptionalString(Field(f, "description"));
      var keywords := if Field(f, "keywords").Undefined? then Ok(None)
                      else match StringArray(Field(f, "keywords"))
                           case Invalid => Invalid
                           case Ok(ks) => Ok(Some(ks));
      var canonical := ParseCanonicalUrl(Field(f, "canonical_url"));
      if title.Invalid? || description.Invalid? || keywords.Invalid? || canonical.Invalid? then Invalid
      else Ok(Some(Seo(title.value, description.value, keywords.value, canonical.value)))
    case _ => Invalid
  }

  function ParseMetadata(v: Raw): Parsed<Option<Metadata>> {
    match v
    case Undefined => Ok(None)
    case Null => Ok(None)
    case Obj(f) =>
      var seo := ParseSeo(Field(f, "seo"));
      if seo.Invalid? then Invalid else Ok(Some(Metadata(seo.value)))
    case _ => Invalid
  }

  /** `updateMyArticleInput.parse(v)`. */
  function ParseUpdateMyArticle(v: Raw): Parsed<UpdateMyArticle> {
    if !v.Obj? then Invalid
    else
      var f := v.fields;
      var id := RequiredString(Field(f, "article_id"));
      var title := OptionalString(Field(f, "title"));
      var handle := OptionalString(Field(f, "handle"));
      var excerpt := OptionalString(Field(f, "excerpt"));
      var body := OptionalString(Field(f, "body"));
      var cover := NullishServerFile(Field(f, "cover_image"), true, true);
      var published := OptionalBool(Field(f, "is_published"));
      var tags := if Field(f, "tag_ids").Undefined? || Field(f, "tag_ids").Null? then Ok(None)
                  else match StringArray(Field(f, "tag_ids"))
                       case Invalid => Invalid
                       case Ok(ts) => Ok(Some(ts));
      var metadata := ParseMetadata(Field(f, "metadata"));
      if id.Invalid? || title.Invalid? || handle.Invalid? || excerpt.Invalid? || body.Invalid? ||
         cover.Invalid? || published.Invalid? || tags.Invalid? || metadata.Invalid? then Invalid
      else Ok(UpdateMyArticle(id.value, title.value, handle.value, excerpt.value, body.value,
                              cover.value, published.value, tags.value, metadata.value))
  }

  const DEFAULT_PAGE := 1
  const DEFAULT_LIMIT := 10

  /** `feedInput`, `myArticleInput` and the paging part of `userFeedInput`: defaults, no bounds. */
  function ParsePaging(v: Raw): Parsed<Paging> {
    if !v.Obj? then Invalid
    else
      var page := DefaultedNumber(Field(v.fields, "page"), None, None, DEFAULT_PAGE);
      var limit := DefaultedNumber(Field(v.fields, "limit"), None, None, DEFAULT_LIMIT);
      if page.Invalid? || limit.Invalid? then Invalid else Ok(Paging(page.value, limit.value))
  }

  /** `tagFeedInput.parse(v)`. */
  function ParseTagFeed(v: Raw): Parsed<TagFeed> {
    if !v.Obj? then Invalid
    else
      var tag := UuidString(Field(v.fields, "tag_id"));
      var paging := ParsePaging(v);
      if tag.Invalid? || paging.Invalid? then Invalid
      else Ok(TagFeed(tag.value, paging.value.page, paging.value.limit))
  }

  /** Every field of the create input is optional: the empty object is accepted with all fields absent. */
  lemma CreateAllOptional()
    ensures ParseCreateMyArticle(Obj(map[])) == Ok(CreateMyArticle(None, None, None, None, None))
  {
  }

  /** A cover image stored on R2 is refused at creation but accepted by the update schema. */
  lemma R2OnlyOnUpdate(id: string, key: string)
    ensures var cover := Obj(map["key" := Str(key), "provider" := Str("r2")]);
      ParseCreateMyArticle(Obj(map["cover_image" := cover])).Invalid? &&
      ParseUpdateMyArticle(Obj(map["article_id" := Str(id), "cover_image" := cover]))
        == Ok(UpdateMyArticle(id, None, None, None, None, Some(ServerFile(key, R2, None)), None, None, None))
  {
    var cover := Obj(map["key" := Str(key), "provider" := Str("r2")]);
    var create := map["cover_image" := cover];
    assert Field(create, "title") == Undefined;
    var update := map["article_id" := Str(id), "cover_image" := cover];
    assert Field(update, "title") == Undefined && Field(update, "handle") == Undefined;
  }

  /** The update schema requires `article_id`; with it alone everything else is absent. */
  lemma UpdateRequiresArticleId(f: map<string, Raw>, id: string)
    ensures !Field(f, "article_id").Str? ==> ParseUpdateMyArticle(Obj(f)).Invalid?
    ensures ParseUpdateMyArticle(Obj(map["article_id" := Str(id)]))
         == Ok(UpdateMyArticle(id, None, None, None, None, None, None, None, None))
  {
    var only := map["article_id" := Str(id)];
    assert Field(only, "title") == Undefined;
  }

  /** A parsed canonical URL is absent, `null`, or a non-empty URL-shaped string; `""` never survives. */
  lemma CanonicalUrlNeverEmpty(v: Raw)
    requires ParseCanonicalUrl(v).Ok?
    ensures ParseCanonicalUrl(v) != Ok(Url(""))
    ensures v == Str("") ==> ParseCanonicalUrl(v) == Ok(NullUrl)
  {
  }

  /** Paging defaults to page 1 and limit 10 and has no lower bound: a limit of 0 is accepted. */
  lemma PagingDefaults(page: int, limit: int)
    ensures ParsePaging(Obj(map[])) == Ok(Paging(DEFAULT_PAGE, DEFAULT_LIMIT))
    ensures ParsePaging(Obj(map["page" := Num(page), "limit" := Num(limit)])) == Ok(Paging(page, limit))
    ensures ParsePaging(Obj(map["limit" := Num(0)])) == Ok(Paging(1, 0))
  {
    var m := map["limit" := Num(0)];
    assert Field(m, "page") == Undefined;
  }

  /** The tag feed accepts exactly UUID-shaped tag ids. */
  lemma TagFeedNeedsUuid(f: map<string, Raw>)
    ensures ParseTagFeed(Obj(f)).Ok? ==>
      Field(f, "tag_id").Str? && IsUuidShape(Field(f, "tag_id").s) && ParseTagFeed(Obj(f)).value.tagId == Field(f, "tag_id").s
    ensures Field(f, "tag_id").Str? && !IsUuidShape(Field(f, "tag_id").s) ==> ParseTagFeed(Obj(f)).Invalid?
  {
  }
}
