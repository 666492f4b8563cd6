/**
 * The user input schemas: the social-login sync input, the profile update
 * input with its optional fields, and the six hand-written social-profile
 * URL patterns.
 */
module UserInput {

  import opened Common
  import opened Schema
  import JsStrings

  // ---------------------------------------------------------------------
  // Social profile URL patterns
  // ---------------------------------------------------------------------

  /** The character classes the profile-name part of a pattern allows. */
  datatype Alphabet =
    | WordChars       // [A-Za-z0-9_-]
    | HandleChars     // [A-Za-z0-9_]
    | FacebookChars   // [A-Za-z0-9.]
    | InstagramChars  // [A-Za-z0-9_.]

  predicate IsAlnum(c: char) {
    JsStrings.IsAsciiLower(c) || JsStrings.IsAsciiUpper(c) || JsStrings.IsAsciiDigit(c)
  }

  predicate Allows(a: Alphabet, c: char) {
    match a
    case WordChars => IsAlnum(c) || c == '_' || c == '-'
    case HandleChars => IsAlnum(c) || c == '_'
    case FacebookChars => IsAlnum(c) || c == '.'
    case InstagramChars => IsAlnum(c) || c == '_' || c == '.'
  }

  predicate AllAllowed(s: string, a: Alphabet) {
    forall i :: 0 <= i < |s| ==> Allows(a, s[i])
  }

  /** `[chars]+\/?$`: a non-empty name, optionally followed by one slash. */
  predicate NameTail(rest: string, a: Alphabet) {
    (|rest| >= 1 && AllAllowed(rest, a)) ||
    (|rest| >= 2 && rest[|rest| - 1] == '/' && AllAllowed(rest[..|rest| - 1], a))
  }

  /** The `(www\.)?` step; no host of the patterns starts with `www.`, so stripping is the only choice. */
  function StripWww(s: string): string {
    if JsStrings.StartsWith(s, "www.") then s[4..] else s
  }

  /** `^https:\/\/(www\.)?` + `hostPath` + `[chars]+\/?$`. */
  predicate ProfileAt(s: string, hostPath: string, a: Alphabet) {
    JsStrings.StartsWith(s, "https://") &&
    var t := StripWww(s[8..]);
    JsStrings.StartsWith(t, hostPath) && NameTail(t[|hostPath|..], a)
  }

  /** The URL a pattern describes, built from its parts. */
  function ProfileUrl(hostPath: string, www: bool, name: string, slash: bool): string {
    "https://" + ((if www then "www." else "") + (hostPath + (name + (if slash then "/" else ""))))
  }

  predicate GithubUrl(s: string) { ProfileAt(s, "github.com/", WordChars) }

  predicate XUrl(s: string) {
    ProfileAt(s, "twitter.com/", HandleChars) || ProfileAt(s, "x.com/", HandleChars)
  }

  predicate LinkedinUrl(s: string) { ProfileAt(s, "linkedin.com/in/", WordChars) }

  predicate FacebookUrl(s: string) { ProfileAt(s, "facebook.com/", FacebookChars) }

  predicate InstagramUrl(s: string) { ProfileAt(s, "instagram.com/", InstagramChars) }

  predicate YoutubeUrl(s: string) {
    ProfileAt(s, "youtube.com/c/", WordChars) || ProfileAt(s, "youtube.com/channel/", WordChars) ||
    ProfileAt(s, "youtube.com/user/", WordChars)
  }

  datatype Network = GitHub | X | LinkedIn | Facebook | Instagram | YouTube

  predicate NetworkUrl(n: Network, s: string) {
    match n
    case GitHub => GithubUrl(s)
    case X => XUrl(s)
    case LinkedIn => LinkedinUrl(s)
    case Facebook => FacebookUrl(s)
    case Instagram => InstagramUrl(s)
    case YouTube => YoutubeUrl(s)
  }

  /** `z.string().url().regex(pattern).optional()`. */
  function SocialField(v: Raw, n: Network): (r: Parsed<Option<string>>)
    ensures v.Undefined? ==> r == Ok(None)
    ensures r == Ok(None) ==> v.Undefined?
    ensures r.Ok? && r.value.Some? <==> v.Str? && IsUrlShape(v.s) && NetworkUrl(n, v.s)
    ensures r.Ok? && r.value.Some? ==> v == Str(r.value.value)
  {
    match v
    case Undefined => Ok(None)
    case Str(s) => if IsUrlShape(s) && NetworkUrl(n, s) then Ok(Some(s)) else Invalid
    case _ => Invalid
  }

  datatype SocialLinks = SocialLinks(
    github: Option<string>, x: Option<string>, linkedin: Option<string>,
    facebook: Option<string>, instagram: Option<string>, youtube: Option<string>)

  /** The optional `social_links` object. */
  function ParseSocialLinks(v: Raw): Parsed<Option<SocialLinks>> {
    match v
    case Undefined => Ok(None)
    case Obj(f) =>
      var gh := SocialField(Field(f, "github"), GitHub);
      var x := SocialField(Field(f, "x"), X);
      var li := SocialField(Field(f, "linkedin"), LinkedIn);
      var fb := SocialField(Field(f, "facebook"), Facebook);
      var ig := SocialField(Field(f, "instagram"), Instagram);
      var yt := SocialField(Field(f, "youtube"), YouTube);
      if gh.Invalid? || x.Invalid? || li.Invalid? || fb.Invalid? || ig.Invalid? || yt.Invalid? then Invalid
      else Ok(Some(SocialLinks(gh.value, x.value, li.value, fb.value, ig.value, yt.value)))
    case _ => Invalid
  }

  // ---------------------------------------------------------------------
  // Profile and sync schemas
  // ---------------------------------------------------------------------

  /** An optional-and-nullable field keeps the difference between absent and `null`. */
  datatype Nullish<T> = Absent | NullValue | Given(value: T)

  /** `z.string().optional().nullable()`, keeping absent and `null` apart. */
  function NullishText(v: Raw): (r: Parsed<Nullish<string>>)
    ensures r.Ok? <==> v.Undefined? || v.Null? || v.Str?
    ensures r.Ok? && r.value.Given? ==> v == Str(r.value.value)
  {
    match v
    case Undefined => Ok(Absent)
    case Null => Ok(NullValue)
    case Str(s) => Ok(Given(s))
    case _ => Invalid
  }

  /** `z.string().url().optional().nullable()`. */
  function NullishUrl(v: Raw): (r: Parsed<Nullish<string>>)
    ensures r.Ok? && r.value.Given? ==> IsUrlShape(r.value.value)
  {
    match v
    case Undefined => Ok(Absent)
    case Null => Ok(NullValue)
    case Str(s) => if IsUrlShape(s) then Ok(Given(s)) else Invalid
    case _ => Invalid
  }

  /** The `{ key, provider }` photo object, optional and nullable; `r2` is allowed. */
  function NullishPhoto(v: Raw): Parsed<Nullish<ServerFile>> {
    match v
    case Undefined => Ok(Absent)
    case Null => Ok(NullValue)
    case _ =>
      match NullishServerFile(v, true, false)
      case Ok(Some(file)) => Ok(Given(file))
      case _ => Invalid
  }

  /**
   * The shape `z.string().email()` is taken to check here: a non-empty local
   * part, one `@`, and a domain with a dot that is neither first nor last.
   */
  predicate IsEmailShape(s: string) {
    exists k :: 0 < k < |s| && s[k] == '@' && EmailDomain(s[k + 1..]) &&
      forall i :: 0 <= i < k ==> s[i] != '@'
  }

  predicate EmailDomain(d: string) {
    (forall i :: 0 <= i < |d| ==> d[i] != '@') && exists j :: 0 < j < |d| - 1 && d[j] == '.'
  }

  function EmailString(v: Raw): (r: Parsed<string>)
    ensures r.Ok? <==> v.Str? && IsEmailShape(v.s)
    ensures r.Ok? ==> r.value == v.s
  {
    if v.Str? && IsEmailShape(v.s) then Ok(v.s) else Invalid
  }

  function OptionalEmail(v: Raw): (r: Parsed<Option<string>>)
    ensures r.Ok? && r.value.Some? ==> v.Str? && IsEmailShape(r.value.value)
  {
    if v.Undefined? then Ok(None)
    else match EmailString(v)
         case Invalid => Invalid
         case Ok(s) => Ok(Some(s))
  }

  /** The parsed `updateMyProfileInput`. */
  datatype UpdateMyProfile = UpdateMyProfile(
    name: Option<string>,
    username: Option<string>,
    email: Option<string>,
    profilePhoto: Nullish<ServerFile>,
    education: Nullish<string>,
    designation: Nullish<string>,
    bio: Nullish<string>,
    websiteUrl: Nullish<string>,
    location: Nullish<string>,
    socialLinks: Option<SocialLinks>,
    profileReadme: Nullish<string>,
    skills: Nullish<string>)

  const NO_PROFILE_CHANGES := UpdateMyProfile(None, None, None, Absent, Absent, Absent, Absent, Absent, Absent, None, Absent, Absent)

  function ParseUpdateMyProfile(v: Raw): Parsed<UpdateMyProfile> {
    if !v.Obj? then Invalid
    else
      var f := v.fields;
      var name := OptionalString(Field(f, "name"));
      var username := OptionalString(Field(f, "username"));
      var email := OptionalEmail(Field(f, "email"));
      var photo := NullishPhoto(Field(f, "profile_photo"));
      var education := NullishText(Field(f, "education"));
      var designation := NullishText(Field(f, "designation"));
      var bio := NullishText(Field(f, "bio"));
      var website := NullishUrl(Field(f, "websiteUrl"));
      var location := NullishText(Field(f, "location"));
      var social := ParseSocialLinks(Field(f, "social_links"));
      var readme := NullishText(Field(f, "profile_readme"));
      var skills := NullishText(Field(f, "skills"));
      if name.Invalid? || username.Invalid? || email.Invalid? || photo.Invalid? || education.Invalid? ||
         designation.Invalid? || bio.Invalid? || website.Invalid? || location.Invalid? || social.Invalid? ||
         readme.Invalid? || skills.Invalid? then Invalid
      else Ok(UpdateMyProfile(name.value, username.value, email.value, photo.value, education.value,
                              designation.value, bio.value, website.value, location.value, social.value,
                              readme.value, skills.value))
  }

  /** The parsed `syncSocialUserInput`; the only service is `github`. */
  datatype SyncSocialUser = SyncSocialUser(
    serviceUid: string,
    name: string,
    username: string,
    email: string,
    profilePhoto: Option<ServerFile>,
    bio: Option<string>)

  const GITHUB_SERVICE := "github"

  function ParseSyncSocialUser(v: Raw): Parsed<SyncSocialUser> {
    if !v.Obj? then Invalid
    else
      var f := v.fields;
      var uid := RequiredString(Field(f, "service_uid"));
      var name := RequiredString(Field(f, "name"));
      var username := RequiredString(Field(f, "username"));
      var email := EmailString(Field(f, "email"));
      var photo := NullishServerFile(Field(f, "profile_photo"), true, false);
      var bio := NullishString(Field(f, "bio"));
      if Field(f, "service") != Str(GITHUB_SERVICE) || uid.Invalid? || name.Invalid? || username.Invalid? ||
         email.Invalid? || photo.Invalid? || bio.Invalid? then Invalid
      else Ok(SyncSocialUser(uid.value, name.value, username.value, email.value, photo.value, bio.value))
  }

  // ---------------------------------------------------------------------
  // Lemmas
  // ---------------------------------------------------------------------

  /** A host path that cannot be mistaken for the optional `www.` prefix (none of the six starts with `w`). */
  predicate PlainHost(hostPath: string) {
    |hostPath| >= 1 && hostPath[0] != 'w'
  }

  lemma DiffersAt(s: string, p: string, i: nat)
    requires i < |p| && i < |s| && s[i] != p[i]
    ensures !JsStrings.StartsWith(s, p)
  {
  }

  lemma StripWwwOf(www: bool, t: string)
    requires |t| >= 1 && t[0] != 'w'
    ensures StripWww((if www then "www." else "") + t) == t
  {
    if www {
      var w := "www." + t;
      assert w[..4] == "www.";
      assert w[4..] == t;
    } else {
      DiffersAt(t, "www.", 0);
    }
  }

  /** The text the pattern matches against after `https://` and the `www.` step. */
  lemma AfterScheme(hostPath: string, rest: string)
    requires PlainHost(hostPath)
    ensures var s := "https://" + (hostPath + rest);
      JsStrings.StartsWith(s, "https://") && StripWww(s[8..]) == hostPath + rest
  {
    var s := "https://" + (hostPath + rest);
    assert s[..8] == "https://";
    assert s[8..] == hostPath + rest;
    StripWwwOf(false, hostPath + rest);
  }

  /** Every pattern describes exactly the URLs built from its parts: the accepting direction. */
  lemma ProfileUrlAccepted(hostPath: string, a: Alphabet, www: bool, name: string, slash: bool)
    requires PlainHost(hostPath)
    requires |name| >= 1 && AllAllowed(name, a)
    ensures ProfileAt(ProfileUrl(hostPath, www, name, slash), hostPath, a)
  {
    var tail := name + (if slash then "/" else "");
    var t := hostPath + tail;
    var w := if www then "www." else "";
    var s := ProfileUrl(hostPath, www, name, slash);
    assert s == "https://" + (w + t);
    assert s[..8] == "https://";
    assert s[8..] == w + t;
    StripWwwOf(www, t);
    assert t[..|hostPath|] == hostPath;
    assert t[|hostPath|..] == tail;
    if slash {
      assert tail[..|tail| - 1] == name;
    }
  }

  /** ... and the rejecting direction: every accepted URL is built from parts of the right kind. */
  lemma ProfileUrlShape(s: string, hostPath: string, a: Alphabet)
    requires ProfileAt(s, hostPath, a)
    ensures exists www: bool, name: string, slash: bool ::
      |name| >= 1 && AllAllowed(name, a) && s == ProfileUrl(hostPath, www, name, slash)
  {
    var u := s[8..];
    var www := JsStrings.StartsWith(u, "www.");
    var t := StripWww(u);
    var rest := t[|hostPath|..];
    var slash := !(|rest| >= 1 && AllAllowed(rest, a));
    var name := if slash then rest[..|rest| - 1] else rest;
    SplitProfile(s, hostPath, www, t, rest, name, slash);
  }

  lemma SplitProfile(s: string, hostPath: string, www: bool, t: string, rest: string, name: string, slash: bool)
    requires |s| >= 8 && s[..8] == "https://"
    requires www ==> |s[8..]| >= 4 && s[8..][..4] == "www." && t == s[8..][4..]
    requires !www ==> t == s[8..]
    requires |hostPath| <= |t| && t[..|hostPath|] == hostPath && rest == t[|hostPath|..]
    requires slash ==> |rest| >= 1 && rest[|rest| - 1] == '/' && name == rest[..|rest| - 1]
    requires !slash ==> name == rest
    ensures s == ProfileUrl(hostPath, www, name, slash)
  {
    var w := if www then "www." else "";
    assert s[8..] == w + t by {
      if www {
        assert s[8..] == s[8..][..4] + s[8..][4..];
      }
    }
    assert t == hostPath + rest by {
      assert t == t[..|hostPath|] + t[|hostPath|..];
    }
    assert rest == name + (if slash then "/" else "") by {
      if slash {
        assert rest == rest[..|rest| - 1] + [rest[|rest| - 1]];
      }
    }
    assert s == s[..8] + s[8..];
    assert s == "https://" + (w + (hostPath + (name + (if slash then "/" else ""))));
  }

  lemma NameTailRejects(rest: string, a: Alphabet, i: nat)
    requires i < |rest| && rest[i] != '/' && !Allows(a, rest[i])
    ensures !NameTail(rest, a)
  {
    if |rest| >= 2 && rest[|rest| - 1] == '/' {
      assert rest[..|rest| - 1][i] == rest[i];
    }
  }

  /** A name with a character outside the alphabet is refused on that host. */
  lemma BadNameRefused(hostPath: string, name: string, a: Alphabet, i: nat)
    requires PlainHost(hostPath)
    requires i < |name| && name[i] != '/' && !Allows(a, name[i])
    ensures !ProfileAt("https://" + (hostPath + name), hostPath, a)
  {
    AfterScheme(hostPath, name);
    assert (hostPath + name)[|hostPath|..] == name;
    NameTailRejects(name, a, i);
  }

  /** A URL on one host never matches a pattern for a host with another first letter. */
  lemma OtherHostRefused(hostPath: string, other: string, name: string, a: Alphabet)
    requires PlainHost(hostPath) && |other| >= 1 && other[0] != hostPath[0]
    ensures !ProfileAt("https://" + (hostPath + name), other, a)
  {
    AfterScheme(hostPath, name);
    DiffersAt(hostPath + name, other, 0);
  }

  /** Hosts are compared exactly: an X profile URL with a hyphen in the handle is refused. */
  lemma XHandleHasNoHyphen(name: string, i: nat)
    requires i < |name| && name[i] == '-'
    ensures !XUrl("https://" + ("x.com/" + name))
    ensures !XUrl("https://" + ("twitter.com/" + name))
  {
    BadNameRefused("x.com/", name, HandleChars, i);
    OtherHostRefused("x.com/", "twitter.com/", name, HandleChars);
    BadNameRefused("twitter.com/", name, HandleChars, i);
    OtherHostRefused("twitter.com/", "x.com/", name, HandleChars);
  }

  /** The same names are valid GitHub and LinkedIn profiles, where the alphabet has the hyphen. */
  lemma HyphenAllowedOnGithub(name: string)
    requires |name| >= 1 && AllAllowed(name, WordChars)
    ensures GithubUrl("https://" + ("github.com/" + name))
    ensures LinkedinUrl("https://" + ("linkedin.com/in/" + name))
  {
    AfterScheme("github.com/", name);
    assert ("github.com/" + name)[|"github.com/"|..] == name;
    AfterScheme("linkedin.com/in/", name);
    assert ("linkedin.com/in/" + name)[|"linkedin.com/in/"|..] == name;
  }

  /** A YouTube profile URL needs one of the `/c/`, `/channel/` or `/user/` paths before the name. */
  lemma YoutubeNeedsPath(name: string)
    requires AllAllowed(name, WordChars)
    ensures !YoutubeUrl("https://" + ("youtube.com/" + name))
  {
    AfterScheme("youtube.com/", name);
    NoPathSlash(name, "c/");
    NoPathSlash(name, "channel/");
    NoPathSlash(name, "user/");
  }

  lemma NoPathSlash(name: string, p: string)
    requires AllAllowed(name, WordChars) && |p| >= 1 && p[|p| - 1] == '/'
    ensures !JsStrings.StartsWith("youtube.com/" + name, "youtube.com/" + p)
  {
    var t := "youtube.com/" + name;
    var q := "youtube.com/" + p;
    if |name| >= |p| {
      var k := 12 + |p| - 1;
      assert t[k] == name[|p| - 1] && q[k] == '/';
      assert Allows(WordChars, name[|p| - 1]);
      DiffersAt(t, q, k);
    }
  }

  /** A pattern match is a URL in the sense of `url()`, so that check adds nothing. */
  lemma ProfileIsUrl(s: string, hostPath: string, a: Alphabet)
    requires ProfileAt(s, hostPath, a)
    ensures IsUrlShape(s)
  {
    assert s == "https:" + s[6..];
    assert s[6..] != [];
    HttpsIsUrl(s[6..]);
  }

  /** Every profile field, and the social links object, may be left out. */
  lemma ProfileAllOptional()
    ensures ParseUpdateMyProfile(Obj(map[])) == Ok(NO_PROFILE_CHANGES)
    ensures ParseSocialLinks(Obj(map[])) == Ok(Some(SocialLinks(None, None, None, None, None, None)))
  {
  }

  /** The sync input needs the `github` service, a uid, name, username and an e-mail; photo and bio may be missing. */
  lemma SyncRequiredFields(f: map<string, Raw>)
    ensures ParseSyncSocialUser(Obj(f)).Ok? ==>
      Field(f, "service") == Str(GITHUB_SERVICE) && Field(f, "service_uid").Str? && Field(f, "name").Str? &&
      Field(f, "username").Str? && Field(f, "email").Str? && IsEmailShape(Field(f, "email").s)
    ensures ParseSyncSocialUser(Obj(f)).Ok? ==>
      ParseSyncSocialUser(Obj(f)).value.email == Field(f, "email").s
    ensures Field(f, "service") == Str("google") ==> ParseSyncSocialUser(Obj(f)).Invalid?
  {
  }
}
