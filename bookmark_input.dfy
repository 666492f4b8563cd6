/**
 * The bookmark input schemas: the resource a toggle or a status query
 * names, and the paging of the bookmark list with its ranges and defaults.
 */
module BookmarkInput {

  import opened Common
  import opened Schema

  /** `{ resource_id, resource_type }`, shared by the toggle and status inputs. */
  datatype ResourceRef = ResourceRef(resourceId: string, resourceType: ResourceType)

  datatype BookmarkPaging = BookmarkPaging(limit: int, offset: int, page: int)

  /** `toggleBookmarkInput` and `bookmarkStatusInput` (the two schemas are the same). */
  function ParseResourceRef(v: Raw): (r: Parsed<ResourceRef>)
    ensures r.Ok? <==> v.Obj? && Field(v.fields, "resource_id").Str? &&
                       ResourceTypeEnum(Field(v.fields, "resource_type")).Ok?
    ensures r.Ok? ==> Str(r.value.resourceId) == Field(v.fields, "resource_id") &&
                      Str(r.value.resourceType.Name()) == Field(v.fields, "resource_type")
  {
    if !v.Obj? then Invalid
    else
      var id := RequiredString(Field(v.fields, "resource_id"));
      var kind := ResourceTypeEnum(Field(v.fields, "resource_type"));
      if id.Invalid? || kind.Invalid? then Invalid else Ok(ResourceRef(id.value, kind.value))
  }

  const DEFAULT_LIMIT := 2
  const DEFAULT_OFFSET := 0
  const DEFAULT_PAGE := 1

  /** `myBookmarks`: limit in 1..100 (default 2), offset at least 0 (default 0), page at least 1 (default 1). */
  function ParseBookmarkPaging(v: Raw): Parsed<BookmarkPaging> {
    if !v.Obj? then Invalid
    else
      var limit := DefaultedNumber(Field(v.fields, "limit"), Some(1), Some(100), DEFAULT_LIMIT);
      var offset := DefaultedNumber(Field(v.fields, "offset"), Some(0), None, DEFAULT_OFFSET);
      var page := DefaultedNumber(Field(v.fields, "page"), Some(1), None, DEFAULT_PAGE);
      if limit.Invalid? || offset.Invalid? || page.Invalid? then Invalid
      else Ok(BookmarkPaging(limit.value, offset.value, page.value))
  }

  /** Every accepted paging input is within range; the defaults are 2, 0 and 1. */
  lemma PagingRanges(v: Raw)
    ensures ParseBookmarkPaging(v).Ok? ==>
      var p := ParseBookmarkPaging(v).value;
      1 <= p.limit <= 100 && p.offset >= 0 && p.page >= 1
    ensures ParseBookmarkPaging(Obj(map[])) == Ok(BookmarkPaging(2, 0, 1))
  {
  }

  /** A given field is checked against its range: exactly 1..100 for the limit, 0 and up for the offset, 1 and up for the page. */
  lemma PagingBounds(limit: int, offset: int, page: int)
    ensures ParseBookmarkPaging(Obj(map["limit" := Num(limit)])).Ok? <==> 1 <= limit <= 100
    ensures ParseBookmarkPaging(Obj(map["offset" := Num(offset)])).Ok? <==> offset >= 0
    ensures ParseBookmarkPaging(Obj(map["page" := Num(page)])).Ok? <==> page >= 1
  {
    var a := map["limit" := Num(limit)];
    var b := map["offset" := Num(offset)];
    var c := map["page" := Num(page)];
    assert Field(a, "offset") == Undefined && Field(a, "page") == Undefined;
    assert Field(b, "limit") == Undefined && Field(b, "page") == Undefined;
    assert Field(c, "limit") == Undefined && Field(c, "offset") == Undefined;
  }

  /** Paging fields alone do not name a resource, so the toggle schema refuses them. */
  lemma PagingOnlyIsNoResource(f: map<string, Raw>)
    requires "resource_id" !in f
    ensures ParseResourceRef(Obj(f)).Invalid?
  {
  }
}
