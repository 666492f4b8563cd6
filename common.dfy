/**
 * Values shared by every part of the model: optional values, the two
 * resource kinds that comments, reactions and bookmarks point at, and the
 * identifiers the database hands out.
 */
module Common {

  datatype Option<+T> = None | Some(value: T) {
    function GetOr(default: T): T {
      match this
      case Some(v) => v
      case None => default
    }
  }

  /** The polymorphic `resource_type` column: "ARTICLE" or "COMMENT". */
  datatype ResourceType = Article | Comment {
    function Name(): string {
      match this
      case Article => "ARTICLE"
      case Comment => "COMMENT"
    }
  }

  /** Parses the `resource_type` enum of the input schemas. */
  function ParseResourceType(s: string): (r: Option<ResourceType>)
    ensures r.Some? <==> s == "ARTICLE" || s == "COMMENT"
    ensures r.Some? ==> r.value.Name() == s
  {
    if s == "ARTICLE" then Some(Article)
    else if s == "COMMENT" then Some(Comment)
    else None
  }

  type UserId = string
  type ArticleId = string
  type TagId = string

  /** Time as milliseconds since the epoch (a `Date` in the source). */
  type Time = int

  /** An uploaded file as stored in a jsonb column: `{ key, provider, alt? }`. */
  datatype Provider = Cloudinary | Direct | R2
  datatype ServerFile = ServerFile(key: string, provider: Provider, alt: Option<string>)

  /** Number of elements of `s` satisfying `p`. */
  function Count<T>(s: seq<T>, p: T -> bool): nat
  {
    if s == [] then 0 else (if p(s[0]) then 1 else 0) + Count(s[1..], p)
  }

  /** `s.filter(p)`: the elements satisfying `p`, in order. */
  function Filter<T>(s: seq<T>, p: T -> bool): (r: seq<T>)
    ensures |r| == Count(s, p)
    ensures forall x :: x in r ==> x in s && p(x)
  {
    if s == [] then [] else (if p(s[0]) then [s[0]] else []) + Filter(s[1..], p)
  }

  lemma {:induction false} FilterAppend<T>(a: seq<T>, b: seq<T>, p: T -> bool)
    ensures Filter(a + b, p) == Filter(a, p) + Filter(b, p)
  {
    if a == [] {
      assert a + b == b;
    } else {
      assert (a + b)[1..] == a[1..] + b;
      FilterAppend(a[1..], b, p);
    }
  }

  lemma {:induction false} FilterMembers<T>(s: seq<T>, p: T -> bool, x: T)
    ensures x in Filter(s, p) <==> x in s && p(x)
  {
    if s != [] {
      FilterMembers(s[1..], p, x);
      assert s == [s[0]] + s[1..];
    }
  }

  lemma {:induction false} FilterAll<T>(s: seq<T>, p: T -> bool)
    requires forall x :: x in s ==> p(x)
    ensures Filter(s, p) == s
  {
    if s != [] {
      FilterAll(s[1..], p);
    }
  }
}
