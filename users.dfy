/**
 * The user actions over the `users` and `user_socials` tables: the
 * find-or-create of a social login, the session-gated profile update, and
 * the newest-first user listing.
 */
module Users {

  import opened Common
  import opened Schema
  import opened UserInput
  import RepositoryException

  datatype User = User(
    id: UserId,
    name: string,
    username: string,
    email: string,
    profilePhoto: Option<ServerFile>,
    education: Option<string>,
    designation: Option<string>,
    bio: Option<string>,
    websiteUrl: Option<string>,
    location: Option<string>,
    socialLinks: Option<SocialLinks>,
    profileReadme: Option<string>,
    skills: Option<string>,
    createdAt: Time)

  /** A row of `user_socials`: which login of which service belongs to which user. */
  datatype UserSocial = UserSocial(service: string, serviceUid: string, userId: UserId)

  /** `find({ where: eq("email", email), orderBy: [desc("created_at")], limit: 1 })`; ties keep table order. */
  function NewestWithEmail(users: seq<User>, email: string): (r: Option<User>)
    ensures r.None? <==> forall k :: 0 <= k < |users| ==> users[k].email != email
    ensures r.Some? ==> (r.value in users && r.value.email == email &&
                         forall k :: 0 <= k < |users| && users[k].email == email ==> users[k].createdAt <= r.value.createdAt)
  {
    if users == [] then None
    else
      var rest := NewestWithEmail(users[1..], email);
      assert forall k :: 1 <= k < |users| ==> users[k] == users[1..][k - 1];
      if users[0].email != email then rest
      else if rest.None? || rest.value.createdAt <= users[0].createdAt then Some(users[0])
      else rest
  }

  /** `find({ where: and(eq("service", ...), eq("service_uid", ...)), limit: 1 })`. */
  function FindSocial(socials: seq<UserSocial>, service: string, uid: string): (r: Option<UserSocial>)
    ensures r.None? <==> forall k :: 0 <= k < |socials| ==> !(socials[k].service == service && socials[k].serviceUid == uid)
    ensures r.Some? ==> r.value in socials && r.value.service == service && r.value.serviceUid == uid
  {
    if socials == [] then None
    else if socials[0].service == service && socials[0].serviceUid == uid then Some(socials[0])
    else
      var rest := FindSocial(socials[1..], service, uid);
      assert forall k :: 1 <= k < |socials| ==> socials[k] == socials[1..][k - 1];
      rest
  }

  predicate IdTaken(users: seq<User>, id: UserId) {
    exists k :: 0 <= k < |users| && users[k].id == id
  }

  /** The inserted user: the given fields, `bio` defaulting to `""`, every other profile field empty. */
  function NewUser(input: SyncSocialUser, id: UserId, now: Time): User {
    User(id, input.name, input.username, input.email, input.profilePhoto, None, None,
         Some(input.bio.GetOr("")), None, None, None, None, None, now)
  }

  /** The user `bootSocialUser` settles on: the newest with the e-mail, or the one it inserts. */
  function BootUser(users: seq<User>, input: SyncSocialUser, id: UserId, now: Time): User {
    match NewestWithEmail(users, input.email)
    case Some(u) => u
    case None => NewUser(input, id, now)
  }

  function BootUsers(users: seq<User>, input: SyncSocialUser, id: UserId, now: Time): seq<User> {
    if NewestWithEmail(users, input.email).Some? then users else users + [NewUser(input, id, now)]
  }

  function BootSocials(socials: seq<UserSocial>, input: SyncSocialUser, user: User): seq<UserSocial> {
    if FindSocial(socials, GITHUB_SERVICE, input.serviceUid).Some? then socials
    else socials + [UserSocial(GITHUB_SERVICE, input.serviceUid, user.id)]
  }

  /** `{ user, userSocial }`: `userSocial` is the link found before any insert. */
  datatype Booted = Booted(user: User, userSocial: Option<UserSocial>)

  /** A profile field patch: an absent field keeps the column, `null` clears it, a value sets it. */
  function Patch<T>(old_: Option<T>, f: Nullish<T>): Option<T> {
    match f
    case Absent => old_
    case NullValue => None
    case Given(v) => Some(v)
  }

  /** The row after `update({ data: { ... } })` with the parsed profile input. */
  function ApplyProfile(u: User, p: UpdateMyProfile): User {
    u.(name := p.name.GetOr(u.name),
       username := p.username.GetOr(u.username),
       email := p.email.GetOr(u.email),
       profilePhoto := Patch(u.profilePhoto, p.profilePhoto),
       education := Patch(u.education, p.education),
       designation := Patch(u.designation, p.designation),
       bio := Patch(u.bio, p.bio),
       websiteUrl := Patch(u.websiteUrl, p.websiteUrl),
       location := Patch(u.location, p.location),
       socialLinks := if p.socialLinks.Some? then p.socialLinks else u.socialLinks,
       profileReadme := Patch(u.profileReadme, p.profileReadme),
       skills := Patch(u.skills, p.skills))
  }

  /** `update({ where: eq("id", id), ... })`. */
  function UpdateProfileRows(users: seq<User>, id: UserId, p: UpdateMyProfile): (r: seq<User>)
    ensures |r| == |users|
    ensures forall k :: 0 <= k < |users| ==> r[k] == if users[k].id == id then ApplyProfile(users[k], p) else users[k]
  {
    if users == [] then []
    else [if users[0].id == id then ApplyProfile(users[0], p) else users[0]] + UpdateProfileRows(users[1..], id, p)
  }

  function FirstWithId(users: seq<User>, id: UserId): (r: Option<User>)
    ensures r.Some? ==> r.value in users && r.value.id == id
    ensures r.None? ==> !IdTaken(users, id)
  {
    if users == [] then None
    else if users[0].id == id then Some(users[0])
    else
      var rest := FirstWithId(users[1..], id);
      assert forall k :: 1 <= k < |users| ==> users[k] == users[1..][k - 1];
      rest
  }

  const USER_NOT_AUTHENTICATED := "User not authenticated"

  class UserStore {
    var users: seq<User>
    var socials: seq<UserSocial>

    constructor(users0: seq<User>, socials0: seq<UserSocial>)
      ensures users == users0 && socials == socials0
    {
      users := users0;
      socials := socials0;
    }

    /**
     * `bootSocialUser(input)`: find or insert the user by e-mail, then find
     * or insert the social link. `None` is the `undefined` the action
     * returns after a swallowed failure: invalid input, or an insert whose
     * generated id `newId` is already taken.
     */
    method BootSocialUser(raw: Raw, newId: UserId, now: Time) returns (r: Option<Booted>)
      modifies this
      ensures ParseSyncSocialUser(raw).Invalid? ==> r.None? && users == old(users) && socials == old(socials)
      ensures ParseSyncSocialUser(raw).Ok? ==>
        var input := ParseSyncSocialUser(raw).value;
        if NewestWithEmail(old(users), input.email).None? && IdTaken(old(users), newId) then
          r.None? && users == old(users) && socials == old(socials)
        else
          var user := BootUser(old(users), input, newId, now);
          users == BootUsers(old(users), input, newId, now) &&
          socials == BootSocials(old(socials), input, user) &&
          r == Some(Booted(user, FindSocial(old(socials), GITHUB_SERVICE, input.serviceUid)))
    {
      var parsed := ParseSyncSocialUser(raw);
      if parsed.Invalid? {
        return None;
      }
      var input := parsed.value;
      var found := NewestWithEmail(users, input.email);
      var user: User;
      if found.None? {
        if IdTaken(users, newId) {
          return None;
        }
        user := NewUser(input, newId, now);
        users := users + [user];
      } else {
        user := found.value;
      }
      var userSocial := FindSocial(socials, GITHUB_SERVICE, input.serviceUid);
      if userSocial.None? {
        socials := socials + [UserSocial(GITHUB_SERVICE, input.serviceUid, user.id)];
      }
      r := Some(Booted(user, userSocial));
    }

    /**
     * `updateMyProfile(input)`: without a session the action fails with
     * "User not authenticated" (swallowed, so `None`); otherwise the session
     * user's row is patched and returned.
     */
    method UpdateMyProfile(session: Option<UserId>, raw: Raw) returns (r: Option<User>)
      modifies this
      ensures socials == old(socials)
      ensures session.None? || ParseUpdateMyProfile(raw).Invalid? ==> r.None? && users == old(users)
      ensures session.Some? && ParseUpdateMyProfile(raw).Ok? ==>
        users == UpdateProfileRows(old(users), session.value, ParseUpdateMyProfile(raw).value) &&
        r == FirstWithId(users, session.value)
    {
      if session.None? {
        var _ := RepositoryException.HandleActionException(RepositoryException.ActionException(USER_NOT_AUTHENTICATED));
        return None;
      }
      var parsed := ParseUpdateMyProfile(raw);
      if parsed.Invalid? {
        return None;
      }
      users := UpdateProfileRows(users, session.value, parsed.value);
      r := FirstWithId(users, session.value);
    }
  }

  // ---------------------------------------------------------------------
  // getUsers
  // ---------------------------------------------------------------------

  predicate NewestFirst(s: seq<User>) {
    forall i, j :: 0 <= i < j < |s| ==> s[i].createdAt >= s[j].createdAt
  }

  function InsertByCreated(u: User, s: seq<User>): seq<User> {
    if s == [] || u.createdAt >= s[0].createdAt then [u] + s
    else [s[0]] + InsertByCreated(u, s[1..])
  }

  /** `orderBy: [desc("created_at")]`; rows created at the same time keep table order. */
  function SortByNewest(s: seq<User>): seq<User> {
    if s == [] then [] else InsertByCreated(s[0], SortByNewest(s[1..]))
  }

  const DEFAULT_USERS_PAGE := 1
  const DEFAULT_USERS_LIMIT := 10

  /**
   * How the promise `getUsers` returns settles: with the `nodes` of the page
   * `paginate` builds, or rejected with the query's error.
   */
  datatype UsersOutcome = Resolved(nodes: seq<User>) | Rejected

  /**
   * What the repository package's `paginate` does with a negative limit.
   * Its code is not part of this model: elsewhere the codebase passes
   * `limit: -1` to `find` to mean every row, while a negative `LIMIT`
   * reaching the database is a query error. The model takes the answer as
   * a parameter.
   */
  datatype NegativeLimit = ListsAll | QueryFails

  /**
   * `getUsers(page = 1, limit = 10)`: the first `limit` users, newest first.
   * The `page` argument is never passed on, so every page is the first. The
   * `paginate` promise is returned without `await`, so a failing query
   * rejects the action's promise instead of reaching the `catch`, and `null`
   * is never returned.
   */
  function GetUsers(users: seq<User>, page: Option<int>, limit: Option<int>, onNegative: NegativeLimit): (r: UsersOutcome)
    ensures r.Rejected? <==> limit.GetOr(DEFAULT_USERS_LIMIT) < 0 && onNegative == QueryFails
  {
    var n := limit.GetOr(DEFAULT_USERS_LIMIT);
    var sorted := SortByNewest(users);
    if n < 0 then
      if onNegative == QueryFails then Rejected else Resolved(sorted)
    else
      Resolved(if n < |sorted| then sorted[..n] else sorted)
  }

  /** How many users `getUsers` lists: `limit` capped by the table, or all of them for a negative limit read as "all". */
  function ListedCount(userCount: nat, n: int): nat {
    if 0 <= n < userCount then n else userCount
  }

  // ---------------------------------------------------------------------
  // Lemmas
  // ---------------------------------------------------------------------

  /** A new user is inserted only when no user has the e-mail; it carries the input's fields and `bio` defaults to `""`. */
  lemma BootCreatesOrReuses(users: seq<User>, input: SyncSocialUser, id: UserId, now: Time)
    ensures NewestWithEmail(users, input.email).Some? ==>
      BootUsers(users, input, id, now) == users && BootUser(users, input, id, now) in users
    ensures NewestWithEmail(users, input.email).None? ==>
      var u := BootUser(users, input, id, now);
      BootUsers(users, input, id, now) == users + [u] && u.id == id && u.email == input.email &&
      u.name == input.name && u.username == input.username && u.createdAt == now &&
      u.bio == Some(if input.bio.Some? then input.bio.value else "")
  {
  }

  /** The settled user always carries the input's e-mail. */
  lemma BootUserHasEmail(users: seq<User>, input: SyncSocialUser, id: UserId, now: Time)
    ensures BootUser(users, input, id, now).email == input.email
    ensures BootUser(users, input, id, now) in BootUsers(users, input, id, now)
  {
  }

  /**
   * After the boot a link for the login exists; when it was missing it was
   * inserted for the settled user, and the answer's `userSocial` is absent.
   */
  lemma BootLinksUser(socials: seq<UserSocial>, input: SyncSocialUser, user: User)
    ensures FindSocial(BootSocials(socials, input, user), GITHUB_SERVICE, input.serviceUid).Some?
    ensures FindSocial(socials, GITHUB_SERVICE, input.serviceUid).None? ==>
      BootSocials(socials, input, user) == socials + [UserSocial(GITHUB_SERVICE, input.serviceUid, user.id)]
    ensures FindSocial(socials, GITHUB_SERVICE, input.serviceUid).Some? ==> BootSocials(socials, input, user) == socials
  {
    var s := BootSocials(socials, input, user);
    if FindSocial(socials, GITHUB_SERVICE, input.serviceUid).None? {
      assert s[|socials|] == UserSocial(GITHUB_SERVICE, input.serviceUid, user.id);
    }
  }

  /** Repeating the same call adds no rows and settles on the same user. */
  lemma BootIdempotent(users: seq<User>, socials: seq<UserSocial>, input: SyncSocialUser, id: UserId, id2: UserId, now: Time, now2: Time)
    ensures var users1 := BootUsers(users, input, id, now);
      var user1 := BootUser(users, input, id, now);
      var socials1 := BootSocials(socials, input, user1);
      BootUsers(users1, input, id2, now2) == users1 &&
      BootSocials(socials1, input, BootUser(users1, input, id2, now2)) == socials1
  {
    var users1 := BootUsers(users, input, id, now);
    BootUserHasEmail(users, input, id, now);
    var user1 := BootUser(users, input, id, now);
    var k :| 0 <= k < |users1| && users1[k] == user1;
    assert users1[k].email == input.email;
    BootLinksUser(socials, input, user1);
  }

  /** Only the session user's rows change, and each changes by exactly the parsed patch. */
  lemma UpdateOnlySessionUser(users: seq<User>, id: UserId, p: UpdateMyProfile, k: nat)
    requires k < |users|
    ensures users[k].id != id ==> UpdateProfileRows(users, id, p)[k] == users[k]
    ensures users[k].id == id ==> UpdateProfileRows(users, id, p)[k] == ApplyProfile(users[k], p)
    ensures UpdateProfileRows(users, id, p)[k].id == users[k].id && UpdateProfileRows(users, id, p)[k].createdAt == users[k].createdAt
  {
  }

  /** An empty patch changes nothing, and applying the same patch twice is the same as once. */
  lemma ApplyProfileLaws(u: User, p: UpdateMyProfile)
    ensures ApplyProfile(u, NO_PROFILE_CHANGES) == u
    ensures ApplyProfile(ApplyProfile(u, p), p) == ApplyProfile(u, p)
  {
  }

  /** A field given as `null` is cleared; a field left out keeps its value. */
  lemma PatchCases<T>(old_: Option<T>, v: T)
    ensures Patch(old_, NullValue) == None
    ensures Patch(old_, Absent) == old_
    ensures Patch(old_, Given(v)) == Some(v)
  {
  }

  lemma {:induction false} InsertByCreatedPerm(u: User, s: seq<User>)
    ensures multiset(InsertByCreated(u, s)) == multiset(s) + multiset{u}
    ensures forall x :: x in InsertByCreated(u, s) <==> x == u || x in s
  {
    if !(s == [] || u.createdAt >= s[0].createdAt) {
      InsertByCreatedPerm(u, s[1..]);
      assert s == [s[0]] + s[1..];
    }
  }

  /** A time no earlier than `u` and every row of `s` is no earlier than any row of the insertion. */
  lemma {:induction false} InsertByCreatedBound(t: Time, u: User, s: seq<User>)
    requires u.createdAt <= t
    requires forall k :: 0 <= k < |s| ==> s[k].createdAt <= t
    ensures forall k :: 0 <= k < |InsertByCreated(u, s)| ==> InsertByCreated(u, s)[k].createdAt <= t
  {
    if s == [] || u.createdAt >= s[0].createdAt {
      var r := [u] + s;
      forall k | 0 <= k < |r| ensures r[k].createdAt <= t {
        if k > 0 {
          assert r[k] == s[k - 1];
        }
      }
    } else {
      InsertByCreatedBound(t, u, s[1..]);
      var w := InsertByCreated(u, s[1..]);
      var r := [s[0]] + w;
      forall k | 0 <= k < |r| ensures r[k].createdAt <= t {
        if k > 0 {
          assert r[k] == w[k - 1];
        }
      }
    }
  }

  lemma NewestFirstCons(h: User, s: seq<User>)
    requires NewestFirst(s)
    requires forall k :: 0 <= k < |s| ==> s[k].createdAt <= h.createdAt
    ensures NewestFirst([h] + s)
  {
    var r := [h] + s;
    forall i, j | 0 <= i < j < |r| ensures r[i].createdAt >= r[j].createdAt {
      assert r[j] == s[j - 1];
      if i > 0 {
        assert r[i] == s[i - 1];
      }
    }
  }

  lemma {:induction false} InsertByCreatedKeeps(u: User, s: seq<User>)
    requires NewestFirst(s)
    ensures NewestFirst(InsertByCreated(u, s))
    ensures multiset(InsertByCreated(u, s)) == multiset(s) + multiset{u}
  {
    InsertByCreatedPerm(u, s);
    if s == [] || u.createdAt >= s[0].createdAt {
      forall k | 0 <= k < |s| ensures s[k].createdAt <= u.createdAt {
        if k > 0 {
          assert s[0].createdAt >= s[k].createdAt;
        }
      }
      NewestFirstCons(u, s);
    } else {
      var rest := s[1..];
      InsertByCreatedKeeps(u, rest);
      forall k | 0 <= k < |rest| ensures rest[k].createdAt <= s[0].createdAt {
        assert rest[k] == s[k + 1];
      }
      InsertByCreatedBound(s[0].createdAt, u, rest);
      NewestFirstCons(s[0], InsertByCreated(u, rest));
    }
  }

  lemma {:induction false} SortByNewestKeeps(s: seq<User>)
    ensures NewestFirst(SortByNewest(s))
    ensures multiset(SortByNewest(s)) == multiset(s)
  {
    if s != [] {
      SortByNewestKeeps(s[1..]);
      InsertByCreatedKeeps(s[0], SortByNewest(s[1..]));
      assert s == [s[0]] + s[1..];
    }
  }

  /**
   * When its promise resolves, `getUsers` lists at most `limit` users (all
   * of them for a negative limit read as "all"), newest first, every one
   * from the table, and none left out newer than a listed one.
   */
  lemma GetUsersListing(users: seq<User>, page: Option<int>, limit: Option<int>, onNegative: NegativeLimit)
    ensures var o := GetUsers(users, page, limit, onNegative);
      var m := ListedCount(|users|, limit.GetOr(DEFAULT_USERS_LIMIT));
      o.Resolved? ==>
        var r := o.nodes;
        |r| == m && NewestFirst(r) &&
        multiset(r) <= multiset(users) &&
        (forall u :: u in r ==> u in users) &&
        (forall u: User, v: User :: u in multiset(users) - multiset(r) && v in r ==> u.createdAt <= v.createdAt) &&
        (m == |users| ==> multiset(r) == multiset(users))
  {
    if GetUsers(users, page, limit, onNegative).Resolved? {
      SortByNewestKeeps(users);
      var n := limit.GetOr(DEFAULT_USERS_LIMIT);
      var sorted := SortByNewest(users);
      assert |sorted| == |multiset(sorted)| == |users|;
      var m := ListedCount(|users|, n);
      assert sorted[..|sorted|] == sorted;
      assert GetUsers(users, page, limit, onNegative).nodes == sorted[..m];
      NewestPrefix(sorted, m);
    }
  }

  /** A prefix of a newest-first listing holds users of the listing, none older than a user it leaves out. */
  lemma NewestPrefix(sorted: seq<User>, m: nat)
    requires NewestFirst(sorted) && m <= |sorted|
    ensures NewestFirst(sorted[..m])
    ensures multiset(sorted[..m]) <= multiset(sorted)
    ensures forall u :: u in sorted[..m] ==> u in multiset(sorted)
    ensures forall u: User, v: User :: u in multiset(sorted) - multiset(sorted[..m]) && v in sorted[..m] ==> u.createdAt <= v.createdAt
  {
    PrefixSplit(sorted, m);
    PrefixNewer(sorted, m);
    forall u | u in sorted[..m] ensures u in multiset(sorted) {
      assert u in multiset(sorted[..m]);
    }
  }

  /** What a prefix leaves out of the multiset is the rest of the list. */
  lemma PrefixSplit(s: seq<User>, m: nat)
    requires m <= |s|
    ensures multiset(s[..m]) <= multiset(s)
    ensures multiset(s) - multiset(s[..m]) == multiset(s[m..])
  {
    assert s == s[..m] + s[m..];
  }

  /** In a newest-first listing, every user after position `m` is no newer than every user before it. */
  lemma PrefixNewer(sorted: seq<User>, m: nat)
    requires NewestFirst(sorted) && m <= |sorted|
    ensures forall u, v :: u in sorted[m..] && v in sorted[..m] ==> u.createdAt <= v.createdAt
  {
    forall u, v | u in sorted[m..] && v in sorted[..m] ensures u.createdAt <= v.createdAt {
      var k :| 0 <= k < |sorted[m..]| && sorted[m..][k] == u;
      var j :| 0 <= j < m && sorted[..m][j] == v;
      assert sorted[m + k] == u && sorted[j] == v;
    }
  }

  /** The page number takes no part in the listing. */
  lemma GetUsersIgnoresPage(users: seq<User>, page1: Option<int>, page2: Option<int>, limit: Option<int>, onNegative: NegativeLimit)
    ensures GetUsers(users, page1, limit, onNegative) == GetUsers(users, page2, limit, onNegative)
  {
  }

  /** Without arguments the action lists at most ten users, exactly as with page 1 and limit 10 given. */
  lemma GetUsersDefaults(users: seq<User>, onNegative: NegativeLimit)
    ensures GetUsers(users, None, None, onNegative) == GetUsers(users, Some(DEFAULT_USERS_PAGE), Some(DEFAULT_USERS_LIMIT), onNegative)
    ensures GetUsers(users, None, None, onNegative).Resolved? && |GetUsers(users, None, None, onNegative).nodes| <= 10
  {
  }
}
