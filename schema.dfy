/**
 * The validation vocabulary of the input schemas: a raw JSON-like value as
 * it reaches a server action, and the field parsers the schemas are built
 * from (required, optional, nullable, defaulted, bounded, enumerated).
 * Parsing either fails (a validation error) or yields a typed value.
 */
module Schema {

  import opened Common
  import JsStrings

  /** A value as submitted to a server action. Numbers are integers here. */
  datatype Raw =
    | Undefined
    | Null
    | Bool(b: bool)
    | Num(n: int)
    | Str(s: string)
    | Arr(items: seq<Raw>)
    | Obj(fields: map<string, Raw>)

  /** The outcome of parsing: a validation failure or a typed value. */
  datatype Parsed<T> = Invalid | Ok(value: T)

  /** A property of an object; a missing key reads as `undefined`. */
  function Field(fields: map<string, Raw>, key: string): Raw {
    if key in fields then fields[key] else Undefined
  }

  /** `z.string()`. */
  function RequiredString(v: Raw): (r: Parsed<string>)
    ensures r.Ok? <==> v.Str?
    ensures r.Ok? ==> r.value == v.s
  {
    if v.Str? then Ok(v.s) else Invalid
  }

  /** `z.string().optional()`: `undefined` is absent, `null` is refused. */
  function OptionalString(v: Raw): (r: Parsed<Option<string>>)
    ensures r.Ok? <==> v.Str? || v.Undefined?
    ensures r.Ok? ==> (r.value.Some? <==> v.Str?)
  {
    match v
    case Undefined => Ok(None)
    case Str(s) => Ok(Some(s))
    case _ => Invalid
  }

  /** `z.string().optional().nullable()`: both `undefined` and `null` are absent. */
  function NullishString(v: Raw): (r: Parsed<Option<string>>)
    ensures r.Ok? <==> v.Str? || v.Undefined? || v.Null?
    ensures r.Ok? ==> (r.value.Some? <==> v.Str?)
  {
    match v
    case Undefined => Ok(None)
    case Null => Ok(None)
    case Str(s) => Ok(Some(s))
    case _ => Invalid
  }

  /** `z.boolean().optional().nullable()`. */
  function NullishBool(v: Raw): (r: Parsed<Option<bool>>)
    ensures r.Ok? <==> v.Bool? || v.Undefined? || v.Null?
  {
    match v
    case Undefined => Ok(None)
    case Null => Ok(None)
    case Bool(b) => Ok(Some(b))
    case _ => Invalid
  }

  /** `z.boolean().optional()`. */
  function OptionalBool(v: Raw): (r: Parsed<Option<bool>>)
    ensures r.Ok? <==> v.Bool? || v.Undefined?
  {
    match v
    case Undefined => Ok(None)
    case Bool(b) => Ok(Some(b))
    case _ => Invalid
  }

  /** `z.number().min(lo).max(hi)` with either bound possibly absent. */
  function BoundedNumber(v: Raw, lo: Option<int>, hi: Option<int>): (r: Parsed<int>)
    ensures r.Ok? <==> v.Num? && (lo.None? || lo.value <= v.n) && (hi.None? || v.n <= hi.value)
    ensures r.Ok? ==> r.value == v.n
  {
    if v.Num? && (lo.None? || lo.value <= v.n) && (hi.None? || v.n <= hi.value) then Ok(v.n) else Invalid
  }

  /** `z.number().min(lo).max(hi).default(d)`: `undefined` becomes `d` unchecked. */
  function DefaultedNumber(v: Raw, lo: Option<int>, hi: Option<int>, d: int): (r: Parsed<int>)
    ensures v.Undefined? ==> r == Ok(d)
    ensures !v.Undefined? ==> r == BoundedNumber(v, lo, hi)
  {
    if v.Undefined? then Ok(d) else BoundedNumber(v, lo, hi)
  }

  /** `z.array(z.string())`. */
  function StringArray(v: Raw): (r: Parsed<seq<string>>)
    ensures r.Ok? <==> v.Arr? && forall i :: 0 <= i < |v.items| ==> v.items[i].Str?
    ensures r.Ok? ==> |r.value| == |v.items| && forall i :: 0 <= i < |v.items| ==> r.value[i] == v.items[i].s
  {
    if v.Arr? && forall i :: 0 <= i < |v.items| ==> v.items[i].Str? then
      Ok(seq(|v.items|, i requires 0 <= i < |v.items| && v.items[i].Str? => v.items[i].s))
    else Invalid
  }

  /** `z.enum(["ARTICLE", "COMMENT"])`. */
  function ResourceTypeEnum(v: Raw): (r: Parsed<ResourceType>)
    ensures r.Ok? <==> v == Str("ARTICLE") || v == Str("COMMENT")
    ensures r.Ok? ==> Str(r.value.Name()) == v
  {
    if v.Str? && ParseResourceType(v.s).Some? then Ok(ParseResourceType(v.s).value) else Invalid
  }

  /** `z.enum([...])` over the storage providers a schema admits. */
  function ProviderEnum(v: Raw, allowR2: bool): (r: Parsed<Provider>)
    ensures r.Ok? <==> v == Str("cloudinary") || v == Str("direct") || (allowR2 && v == Str("r2"))
  {
    if v == Str("cloudinary") then Ok(Cloudinary)
    else if v == Str("direct") then Ok(Direct)
    else if allowR2 && v == Str("r2") then Ok(R2)
    else Invalid
  }

  /**
   * `z.object({ key: z.string(), provider: z.enum(...), alt?: z.string() }).optional().nullable()`;
   * the `alt` field exists only where `withAlt` holds (other keys are stripped).
   */
  function NullishServerFile(v: Raw, allowR2: bool, withAlt: bool): (r: Parsed<Option<ServerFile>>)
    ensures v.Undefined? || v.Null? ==> r == Ok(None)
    ensures r.Ok? && r.value.Some? ==> v.Obj? && Field(v.fields, "key") == Str(r.value.value.key)
    ensures r.Ok? && r.value.Some? ==> ProviderEnum(Field(v.fields, "provider"), allowR2) == Ok(r.value.value.provider)
  {
    match v
    case Undefined => Ok(None)
    case Null => Ok(None)
    case Obj(fields) =>
      var key := RequiredString(Field(fields, "key"));
      var provider := ProviderEnum(Field(fields, "provider"), allowR2);
      var alt := if withAlt then OptionalString(Field(fields, "alt")) else Ok(None);
      if key.Invalid? || provider.Invalid? || alt.Invalid? then Invalid
      else Ok(Some(ServerFile(key.value, provider.value, alt.value)))
    case _ => Invalid
  }

  predicate IsHexDigit(c: char) {
    JsStrings.IsAsciiDigit(c) || ('a' <= c <= 'f') || ('A' <= c <= 'F')
  }

  /**
   * The 8-4-4-4-12 layout of section 3 of RFC 4122: 36 characters, hyphens at
   * positions 8, 13, 18 and 23, hexadecimal digits everywhere else.
   */
  predicate IsUuidShape(s: string) {
    |s| == 36 &&
    forall i :: 0 <= i < 36 ==>
      if i == 8 || i == 13 || i == 18 || i == 23 then s[i] == '-' else IsHexDigit(s[i])
  }

  /** `z.string().uuid()` (the layout only). */
  function UuidString(v: Raw): (r: Parsed<string>)
    ensures r.Ok? <==> v.Str? && IsUuidShape(v.s)
    ensures r.Ok? ==> r.value == v.s
  {
    if v.Str? && IsUuidShape(v.s) then Ok(v.s) else Invalid
  }

  /** `z.string().min(lo).max(hi)` on the length in UTF-16 code units. */
  function BoundedString(v: Raw, lo: nat, hi: nat): (r: Parsed<string>)
    ensures r.Ok? <==> v.Str? && lo <= JsStrings.Utf16Length(v.s) <= hi
    ensures r.Ok? ==> r.value == v.s && |r.value| <= hi
  {
    if v.Str? && lo <= JsStrings.Utf16Length(v.s) <= hi then Ok(v.s) else Invalid
  }

  predicate IsSchemeChar(c: char) {
    JsStrings.IsAsciiLower(c) || JsStrings.IsAsciiUpper(c) || JsStrings.IsAsciiDigit(c) ||
    c == '+' || c == '-' || c == '.'
  }

  /**
   * The shape `url()` accepts here: a scheme (a letter, then letters,
   * digits, `+`, `-` or `.`), a colon and a non-empty remainder.
   */
  predicate IsUrlShape(s: string) {
    exists k :: 1 <= k < |s| - 1 && s[k] == ':' && UrlSchemeAt(s, k)
  }

  predicate UrlSchemeAt(s: string, k: nat)
    requires k < |s|
  {
    (JsStrings.IsAsciiLower(s[0]) || JsStrings.IsAsciiUpper(s[0])) &&
    forall i :: 0 < i < k ==> IsSchemeChar(s[i])
  }

  /** `https://...` has the URL shape. */
  lemma HttpsIsUrl(rest: string)
    requires rest != []
    ensures IsUrlShape("https:" + rest)
  {
    var s := "https:" + rest;
    assert s[5] == ':' && UrlSchemeAt(s, 5);
  }

  /** A canonical UUID has the layout; the same digits without hyphens do not. */
  lemma UuidShapeExamples()
    ensures IsUuidShape("123e4567-e89b-12d3-a456-426614174000")
    ensures !IsUuidShape("123e4567e89b12d3a456426614174000")
  {
    var s := "123e4567-e89b-12d3-a456-426614174000";
    assert |s| == 36;
    forall i | 0 <= i < 36
      ensures if i == 8 || i == 13 || i == 18 || i == 23 then s[i] == '-' else IsHexDigit(s[i])
    {
    }
  }
}
