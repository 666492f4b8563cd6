/** The comment input schemas: create, update and delete. */
module CommentInput {

  import opened Common
  import opened Schema
  import JsStrings

  const BODY_MIN_LENGTH: nat := 1
  const BODY_MAX_LENGTH: nat := 500

  datatype CreateComment = CreateComment(resourceId: string, resourceType: ResourceType, body: string)
  datatype UpdateComment = UpdateComment(id: string, body: string)
  datatype DeleteComment = DeleteComment(id: string)

  function Body(v: Raw): Parsed<string> {
    BoundedString(v, BODY_MIN_LENGTH, BODY_MAX_LENGTH)
  }

  function ParseCreate(v: Raw): (r: Parsed<CreateComment>)
    ensures r.Ok? <==> v.Obj? && UuidString(Field(v.fields, "resource_id")).Ok? &&
                       ResourceTypeEnum(Field(v.fields, "resource_type")).Ok? && Body(Field(v.fields, "body")).Ok?
  {
    if !v.Obj? then Invalid
    else
      var id := UuidString(Field(v.fields, "resource_id"));
      var kind := ResourceTypeEnum(Field(v.fields, "resource_type"));
      var body := Body(Field(v.fields, "body"));
      if id.Invalid? || kind.Invalid? || body.Invalid? then Invalid
      else Ok(CreateComment(id.value, kind.value, body.value))
  }

  function ParseUpdate(v: Raw): (r: Parsed<UpdateComment>)
    ensures r.Ok? <==> v.Obj? && UuidString(Field(v.fields, "id")).Ok? && Body(Field(v.fields, "body")).Ok?
  {
    if !v.Obj? then Invalid
    else
      var id := UuidString(Field(v.fields, "id"));
      var body := Body(Field(v.fields, "body"));
      if id.Invalid? || body.Invalid? then Invalid else Ok(UpdateComment(id.value, body.value))
  }

  function ParseDelete(v: Raw): (r: Parsed<DeleteComment>)
    ensures r.Ok? <==> v.Obj? && UuidString(Field(v.fields, "id")).Ok?
  {
    if !v.Obj? then Invalid
    else
      var id := UuidString(Field(v.fields, "id"));
      if id.Invalid? then Invalid else Ok(DeleteComment(id.value))
  }

  /** A created comment has a UUID-shaped resource id and a body of 1 to 500 UTF-16 code units, taken as given. */
  lemma CreateAccepted(f: map<string, Raw>)
    requires ParseCreate(Obj(f)).Ok?
    ensures var c := ParseCreate(Obj(f)).value;
      IsUuidShape(c.resourceId) && 1 <= JsStrings.Utf16Length(c.body) <= 500 && |c.body| <= 500 &&
      Field(f, "resource_id") == Str(c.resourceId) && Field(f, "body") == Str(c.body) &&
      Field(f, "resource_type") == Str(c.resourceType.Name())
  {
  }

  /**
   * The body bounds are inclusive and count UTF-16 code units: inside the
   * Basic Multilingual Plane that is 1 to 500 characters, while a body of
   * 300 emoji (600 code units) is refused.
   */
  lemma BodyBounds(s: string)
    ensures Body(Str(s)).Ok? <==> 1 <= JsStrings.Utf16Length(s) <= 500
    ensures (forall i :: 0 <= i < |s| ==> s[i] as int < 0x1_0000) ==> (Body(Str(s)).Ok? <==> 1 <= |s| <= 500)
    ensures Body(Str("")).Invalid?
    ensures Body(Str(seq(300, _ => '\U{1F600}'))).Invalid?
  {
    if forall i :: 0 <= i < |s| ==> s[i] as int < 0x1_0000 {
      JsStrings.Utf16LengthBmp(s);
    }
    JsStrings.Utf16LengthAstral(seq(300, _ => '\U{1F600}'));
  }

  /** An update needs a UUID-shaped id and a bounded body; a delete needs only the id. */
  lemma UpdateAndDeleteNeedIds(f: map<string, Raw>)
    ensures ParseUpdate(Obj(f)).Ok? ==>
      IsUuidShape(ParseUpdate(Obj(f)).value.id) && 1 <= JsStrings.Utf16Length(ParseUpdate(Obj(f)).value.body) <= 500
    ensures ParseDelete(Obj(f)).Ok? <==> Field(f, "id").Str? && IsUuidShape(Field(f, "id").s)
    ensures ParseUpdate(Obj(f)).Ok? ==> ParseDelete(Obj(f)).Ok?
  {
  }
}
