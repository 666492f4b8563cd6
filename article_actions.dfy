/**
 * The article server actions: choosing a unique handle for a title,
 * creating and editing one's own articles, scheduling and cancelling their
 * deletion, (un)publishing with the matching search-index operation, and the
 * page arithmetic of the tag feed. The article table is a sequence of rows
 * held by `ArticleStore`; the clock is the parameter `now`.
 */
module ArticleActions {

  import opened Common
  import JsStrings
  import Decimal
  import SqlLike
  import Utils
  import Schema
  import ArticleInput
  import Tags
  import RepositoryException

  /** A row of the `articles` table (the columns these actions read or write). */
  datatype ArticleRow = ArticleRow(
    id: ArticleId,
    title: Option<string>,
    handle: string,
    excerpt: Option<string>,
    body: Option<string>,
    coverImage: Option<ServerFile>,
    isPublished: bool,
    publishedAt: Option<Time>,
    authorId: UserId,
    deleteScheduledAt: Option<Time>,
    updatedAt: Time,
    metadata: Option<ArticleInput.Metadata>)

  /** Primary keys are distinct. */
  predicate DistinctIds(rows: seq<ArticleRow>) {
    forall i, j :: 0 <= i < j < |rows| ==> rows[i].id != rows[j].id
  }

  /** No two rows share a handle. */
  predicate UniqueHandles(rows: seq<ArticleRow>) {
    forall i, j :: 0 <= i < j < |rows| ==> rows[i].handle != rows[j].handle
  }

  // ---------------------------------------------------------------------
  // getUniqueArticleHandle
  // ---------------------------------------------------------------------

  /** JavaScript truthiness of an optional id: present and non-empty. */
  predicate Truthy(id: Option<string>) {
    id.Some? && id.value != ""
  }

  /** `find({ where: eq("id", id), limit: 1 })`: the first row with that id. */
  function FindById(rows: seq<ArticleRow>, id: ArticleId): (r: Option<ArticleRow>)
    ensures r.Some? ==> r.value in rows && r.value.id == id
    ensures r.None? ==> forall a :: a in rows ==> a.id != id
  {
    if rows == [] then None
    else if rows[0].id == id then Some(rows[0])
    else FindById(rows[1..], id)
  }

  /**
   * The where clause of the handle lookup: the handle is the base or matches
   * `base-%`, and, when an id to ignore is given, the row is not that article.
   */
  predicate HandleMatches(a: ArticleRow, base: string, ignore: Option<ArticleId>) {
    (a.handle == base || SqlLike.Like(a.handle, base + "-%")) &&
    !(Truthy(ignore) && a.id == ignore.value)
  }

  /** The `handle` column of the matching rows, in table order. */
  function MatchingHandles(rows: seq<ArticleRow>, base: string, ignore: Option<ArticleId>): (r: seq<string>)
    ensures |r| <= |rows|
  {
    if rows == [] then []
    else (if HandleMatches(rows[0], base, ignore) then [rows[0].handle] else [])
         + MatchingHandles(rows[1..], base, ignore)
  }

  /** The `limit` option of a find: at most that many rows, or all rows. */
  function Take<T>(s: seq<T>, limit: Option<nat>): (r: seq<T>)
    ensures limit.Some? ==> |r| <= limit.value
    ensures r <= s
    ensures limit.None? ==> r == s
  {
    if limit.Some? && limit.value < |s| then s[..limit.value] else s
  }

  /**
   * The match of `^base-(\d+)$` against a handle: the parsed number after
   * `base-` when the rest of the handle is one or more decimal digits.
   */
  function SuffixOf(handle: string, base: string): (r: Option<nat>)
    ensures r.Some? ==> JsStrings.StartsWith(handle, base + "-")
  {
    var p := base + "-";
    if |p| < |handle| && handle[..|p|] == p && Decimal.AllDigits(handle[|p|..])
    then Some(Decimal.DigitsValue(handle[|p|..]))
    else None
  }

  /** The `forEach` over the returned handles: a suffix `n >= highest` moves `highest` to `n + 1`. */
  function HighestSuffix(handles: seq<string>, base: string, highest: nat): nat
    decreases |handles|
  {
    if handles == [] then highest
    else
      var next := match SuffixOf(handles[0], base)
                  case Some(n) => if n >= highest then n + 1 else highest
                  case None => highest;
      HighestSuffix(handles[1..], base, next)
  }

  /** The early return for an article that already carries the slug as its handle. */
  predicate KeepsOwnHandle(rows: seq<ArticleRow>, base: string, ignore: Option<ArticleId>) {
    Truthy(ignore) && FindById(rows, ignore.value).Some? && FindById(rows, ignore.value).value.handle == base
  }

  /** `base-N` for a suffix number `N`. */
  function Suffixed(base: string, n: nat): string {
    base + "-" + Decimal.NatToString(n)
  }

  /**
   * The handle chosen for the slug `base` when the lookup of taken handles
   * returns at most `limit` rows (`None`: all rows).
   */
  function HandleFor(rows: seq<ArticleRow>, base: string, ignore: Option<ArticleId>, limit: Option<nat>): string {
    if KeepsOwnHandle(rows, base, ignore) then base
    else
      var found := Take(MatchingHandles(rows, base, ignore), limit);
      if found == [] || base !in found then base
      else Suffixed(base, HighestSuffix(found, base, 1))
  }

  /** `getUniqueArticleHandle(title, ignore)`: slugify the title, then choose among the taken handles. */
  function UniqueHandle(rows: seq<ArticleRow>, title: string, ignore: Option<ArticleId>, limit: Option<nat>): string {
    HandleFor(rows, Utils.Slugify(title), ignore, limit)
  }

  // ---------------------------------------------------------------------
  // Row updates shared by the actions
  // ---------------------------------------------------------------------

  /** What an update writes into a row. */
  datatype Patch =
    | Edit(input: ArticleInput.UpdateMyArticle)            // updateMyArticle
    | Schedule(at: Option<Time>)                           // scheduleArticleDelete / restore
    | Publish(published: bool, now: Time)                  // setArticlePublished

  /** `Some(x)` overrides the column, `None` keeps it (null and undefined are stripped from the data). */
  function Override<T>(given: Option<T>, current: Option<T>): Option<T> {
    if given.Some? then given else current
  }

  function Patched(a: ArticleRow, patch: Patch): (r: ArticleRow)
    ensures r.id == a.id && r.authorId == a.authorId
  {
    match patch
    case Edit(u) =>
      a.(title := Override(u.title, a.title),
         handle := u.handle.GetOr(a.handle),
         excerpt := Override(u.excerpt, a.excerpt),
         body := Override(u.body, a.body),
         coverImage := Override(u.coverImage, a.coverImage),
         metadata := Override(u.metadata, a.metadata))
    case Schedule(at) => a.(deleteScheduledAt := at)
    case Publish(p, now) => a.(isPublished := p, publishedAt := if p then Some(now) else None)
  }

  /** The where clause `id = id AND author_id = author`. */
  predicate Owned(a: ArticleRow, id: ArticleId, author: UserId) {
    a.id == id && a.authorId == author
  }

  /** `update({ where: and(eq("id", id), eq("author_id", author)), data })`. */
  function UpdateOwned(rows: seq<ArticleRow>, id: ArticleId, author: UserId, patch: Patch): (r: seq<ArticleRow>)
    ensures |r| == |rows|
    ensures forall k :: 0 <= k < |rows| && Owned(rows[k], id, author) ==> r[k] == Patched(rows[k], patch)
    ensures forall k :: 0 <= k < |rows| && !Owned(rows[k], id, author) ==> r[k] == rows[k]
  {
    if rows == [] then []
    else [if Owned(rows[0], id, author) then Patched(rows[0], patch) else rows[0]]
         + UpdateOwned(rows[1..], id, author, patch)
  }

  /** The first row the where clause selects. */
  function FirstOwned(rows: seq<ArticleRow>, id: ArticleId, author: UserId): (r: Option<ArticleRow>)
    ensures r.Some? ==> r.value in rows && Owned(r.value, id, author)
    ensures r.None? ==> forall a :: a in rows ==> !Owned(a, id, author)
  {
    if rows == [] then None
    else if Owned(rows[0], id, author) then Some(rows[0])
    else FirstOwned(rows[1..], id, author)
  }

  /** `updated.rows[0]`: the first selected row as it is after the update. */
  function FirstUpdated(rows: seq<ArticleRow>, id: ArticleId, author: UserId, patch: Patch): Option<ArticleRow> {
    match FirstOwned(rows, id, author)
    case None => None
    case Some(a) => Some(Patched(a, patch))
  }

  // ---------------------------------------------------------------------
  // createMyArticle
  // ---------------------------------------------------------------------

  const UNTITLED := "Untitled Article"

  /** `input.title?.trim() || "Untitled Article"`. */
  function TitleForHandle(title: Option<string>): (r: string)
    ensures r != ""
    ensures title.Some? && JsStrings.Trim(title.value) != "" ==> r == JsStrings.Trim(title.value)
  {
    if title.Some? && JsStrings.Trim(title.value) != "" then JsStrings.Trim(title.value) else UNTITLED
  }

  /** The row `createMyArticle` inserts for a parsed input, a handle and an id. */
  function NewArticle(input: ArticleInput.CreateMyArticle, handle: string, id: ArticleId, author: UserId, now: Time): ArticleRow {
    ArticleRow(id, input.title, handle, input.excerpt, input.body, input.coverImage,
            input.isPublished.GetOr(false),
            if input.isPublished == Some(true) then Some(now) else None,
            author, None, now, None)
  }

  /**
   * What `createMyArticle` returns when the handle lookup returns at most
   * `limit` rows (`Some(1)` as written, `None` corrected): the inserted row,
   * or `None` (the action's `null`) when there is no session, the input is
   * invalid, the handle is empty, or the insert fails because the id is taken.
   */
  function CreatedArticle(rows: seq<ArticleRow>, session: Option<UserId>, input: Schema.Raw, newId: ArticleId, now: Time, limit: Option<nat>): Option<ArticleRow> {
    if session.None? then None
    else
      match ArticleInput.ParseCreateMyArticle(input)
      case Invalid => None
      case Ok(parsed) =>
        var handle := UniqueHandle(rows, TitleForHandle(parsed.title), None, limit);
        if handle == "" || FindById(rows, newId).Some? then None
        else Some(NewArticle(parsed, handle, newId, session.value, now))
  }

  // ---------------------------------------------------------------------
  // Search index and responses
  // ---------------------------------------------------------------------

  /** The search-index call `setArticlePublished` makes. */
  datatype SearchOp = SyncArticle(id: ArticleId) | DeleteFromIndex(id: ArticleId)

  /** `{ success: true, data }` or the classified failure. */
  datatype ScheduleResponse = Scheduled(data: Option<ArticleRow>) | Refused(failure: RepositoryException.ActionFailure)

  const SEVEN_DAYS_MS := 7 * 24 * 60 * 60 * 1000

  /** The schedule and restore actions: ownership check, then the update. */
  function ScheduleOutcome(rows: seq<ArticleRow>, session: Option<UserId>, id: ArticleId, at: Option<Time>): ScheduleResponse {
    if session.None? || FirstOwned(rows, id, session.value).None? then
      Refused(RepositoryException.HandleActionException(RepositoryException.ActionException("Unauthorized")))
    else Scheduled(FirstUpdated(rows, id, session.value, Schedule(at)))
  }

  // ---------------------------------------------------------------------
  // The table
  // ---------------------------------------------------------------------

  class ArticleStore {
    var rows: seq<ArticleRow>

    constructor(rows0: seq<ArticleRow>)
      ensures rows == rows0
    {
      rows := rows0;
    }

    /** The `forEach` over the returned handles, then `${base}-${highestNumber}`. */
    static method NextHandle(found: seq<string>, base: string) returns (handle: string)
      ensures handle == Suffixed(base, HighestSuffix(found, base, 1))
    {
      var highest: nat := 1;
      var i := 0;
      while i < |found|
        invariant 0 <= i <= |found|
        invariant HighestSuffix(found[i..], base, highest) == HighestSuffix(found, base, 1)
      {
        assert found[i..][1..] == found[i + 1..];
        var m := SuffixOf(found[i], base);
        if m.Some? {
          if m.value >= highest {
            highest := m.value + 1;
          }
        }
        i := i + 1;
      }
      assert found[i..] == [];
      handle := Suffixed(base, highest);
    }

    /** The lookup of taken handles with the given row limit, and the choice among them. */
    method ChooseHandle(base: string, ignore: Option<ArticleId>, limit: Option<nat>) returns (handle: string)
      ensures handle == HandleFor(rows, base, ignore, limit)
    {
      if Truthy(ignore) {
        var existing := FindById(rows, ignore.value);
        if existing.Some? && existing.value.handle == base {
          return base;
        }
      }
      var found := Take(MatchingHandles(rows, base, ignore), limit);
      if |found| == 0 || base !in found {
        return base;
      }
      handle := NextHandle(found, base);
    }

    /** `getUniqueArticleHandle(title, ignore)` as written: the lookup is capped at one row. */
    method GetUniqueArticleHandle(title: string, ignore: Option<ArticleId>) returns (handle: string)
      ensures handle == UniqueHandle(rows, title, ignore, Some(1))
      ensures handle == Utils.Slugify(title) || handle == Suffixed(Utils.Slugify(title), 1)
    {
      handle := ChooseHandle(Utils.Slugify(title), ignore, Some(1));
      AsWrittenAlwaysSuffixOne(rows, Utils.Slugify(title), ignore);
    }

    /** `getUniqueArticleHandle` with the lookup returning every matching row. */
    method GetUniqueArticleHandleAllRows(title: string, ignore: Option<ArticleId>) returns (handle: string)
      ensures handle == UniqueHandle(rows, title, ignore, None)
      ensures UniqueHandles(rows) ==> forall a :: a in rows && a.handle == handle ==> Truthy(ignore) && a.id == ignore.value
    {
      handle := ChooseHandle(Utils.Slugify(title), ignore, None);
      FreshHandleAllRows(rows, Utils.Slugify(title), ignore);
    }

    /** `createMyArticle(input)` as written: the handle comes from the one-row lookup. */
    method CreateMyArticle(session: Option<UserId>, input: Schema.Raw, newId: ArticleId, now: Time) returns (r: Option<ArticleRow>)
      modifies this
      ensures r == CreatedArticle(old(rows), session, input, newId, now, Some(1))
      ensures r.None? ==> rows == old(rows)
      ensures r.Some? ==> rows == old(rows) + [r.value]
    {
      if session.None? {
        return None;
      }
      var parsed := ArticleInput.ParseCreateMyArticle(input);
      if parsed.Invalid? {
        return None;
      }
      var handle := GetUniqueArticleHandle(TitleForHandle(parsed.value.title), None);
      var taken := FindById(rows, newId);
      if handle == "" || taken.Some? {
        return None;
      }
      var article := NewArticle(parsed.value, handle, newId, session.value, now);
      rows := rows + [article];
      r := Some(article);
    }

    /** `createMyArticle(input)` with the corrected lookup over every matching row. */
    method CreateMyArticleCorrected(session: Option<UserId>, input: Schema.Raw, newId: ArticleId, now: Time) returns (r: Option<ArticleRow>)
      modifies this
      ensures r == CreatedArticle(old(rows), session, input, newId, now, None)
      ensures r.None? ==> rows == old(rows)
      ensures r.Some? ==> rows == old(rows) + [r.value]
    {
      if session.None? {
        return None;
      }
      var parsed := ArticleInput.ParseCreateMyArticle(input);
      if parsed.Invalid? {
        return None;
      }
      var handle := GetUniqueArticleHandleAllRows(TitleForHandle(parsed.value.title), None);
      var taken := FindById(rows, newId);
      if handle == "" || taken.Some? {
        return None;
      }
      var article := NewArticle(parsed.value, handle, newId, session.value, now);
      rows := rows + [article];
      r := Some(article);
    }

    /**
     * `updateMyArticle(input)`: the owner's row gets the present fields; the
     * tag sync runs whenever `tag_ids` is given, whether or not a row matched.
     */
    method UpdateMyArticle(session: Option<UserId>, input: Schema.Raw, tags: Tags.ArticleTagStore) returns (r: Option<ArticleRow>)
      modifies this, tags
      ensures session.None? || ArticleInput.ParseUpdateMyArticle(input).Invalid? ==>
        r.None? && rows == old(rows) && tags.rows == old(tags.rows)
      ensures session.Some? && ArticleInput.ParseUpdateMyArticle(input).Ok? ==>
        var u := ArticleInput.ParseUpdateMyArticle(input).value;
        rows == UpdateOwned(old(rows), u.articleId, session.value, Edit(u)) &&
        r == FirstUpdated(old(rows), u.articleId, session.value, Edit(u)) &&
        tags.rows == (if u.tagIds.Some? then Tags.SyncedRows(old(tags.rows), u.articleId, u.tagIds.value) else old(tags.rows))
    {
      if session.None? {
        return None;
      }
      var parsed := ArticleInput.ParseUpdateMyArticle(input);
      if parsed.Invalid? {
        return None;
      }
      var u := parsed.value;
      r := FirstUpdated(rows, u.articleId, session.value, Edit(u));
      rows := UpdateOwned(rows, u.articleId, session.value, Edit(u));
      if u.tagIds.Some? {
        tags.SyncTagsWithArticles(u.articleId, u.tagIds.value);
      }
    }

    /** `scheduleArticleDelete(id)`: deletion due seven days from `now`. */
    method ScheduleArticleDelete(session: Option<UserId>, id: ArticleId, now: Time) returns (r: ScheduleResponse)
      modifies this
      ensures r == ScheduleOutcome(old(rows), session, id, Some(now + SEVEN_DAYS_MS))
      ensures rows == (if r.Scheduled? then UpdateOwned(old(rows), id, session.value, Schedule(Some(now + SEVEN_DAYS_MS))) else old(rows))
    {
      r := ScheduleOutcome(rows, session, id, Some(now + SEVEN_DAYS_MS));
      if r.Scheduled? {
        rows := UpdateOwned(rows, id, session.value, Schedule(Some(now + SEVEN_DAYS_MS)));
      }
    }

    /** `restoreShceduleDeletedArticle(id)`: the scheduled deletion is cleared. */
    method RestoreScheduleDeletedArticle(session: Option<UserId>, id: ArticleId) returns (r: ScheduleResponse)
      modifies this
      ensures r == ScheduleOutcome(old(rows), session, id, None)
      ensures rows == (if r.Scheduled? then UpdateOwned(old(rows), id, session.value, Schedule(None)) else old(rows))
    {
      r := ScheduleOutcome(rows, session, id, None);
      if r.Scheduled? {
        rows := UpdateOwned(rows, id, session.value, Schedule(None));
      }
    }

    /**
     * `setArticlePublished(id, published)`. Without a session the where clause
     * compares `author_id` with `undefined` and selects no row.
     */
    method SetArticlePublished(session: Option<UserId>, id: ArticleId, published: bool, now: Time)
      returns (r: Option<ArticleRow>, op: Option<SearchOp>)
      modifies this
      ensures session.None? ==> r.None? && op.None? && rows == old(rows)
      ensures session.Some? ==>
        rows == UpdateOwned(old(rows), id, session.value, Publish(published, now)) &&
        r == FirstUpdated(old(rows), id, session.value, Publish(published, now))
      ensures op.Some? <==> r.Some?
      ensures op.Some? ==> op.value == (if published then SyncArticle(id) else DeleteFromIndex(id))
    {
      if session.None? {
        return None, None;
      }
      r := FirstUpdated(rows, id, session.value, Publish(published, now));
      rows := UpdateOwned(rows, id, session.value, Publish(published, now));
      op := None;
      if r.Some? && published {
        op := Some(SyncArticle(id));
      }
      if r.Some? && !published {
        op := Some(DeleteFromIndex(id));
      }
    }
  }

  // ---------------------------------------------------------------------
  // Lemmas: handle generation
  // ---------------------------------------------------------------------

  lemma {:induction false} MatchingHandlesMembers(rows: seq<ArticleRow>, base: string, ignore: Option<ArticleId>, a: ArticleRow)
    requires a in rows && HandleMatches(a, base, ignore)
    ensures a.handle in MatchingHandles(rows, base, ignore)
  {
    if rows[0] != a {
      MatchingHandlesMembers(rows[1..], base, ignore, a);
    }
  }

  /**
   * The suffix loop ends above every suffix it saw and no lower than where it
   * started, and it ends either where it started or just above one suffix:
   * it computes `max(highest, 1 + largest suffix)`.
   */
  lemma {:induction false} HighestSuffixIsMax(handles: seq<string>, base: string, highest: nat)
    ensures HighestSuffix(handles, base, highest) >= highest
    ensures forall h :: h in handles && SuffixOf(h, base).Some? ==> SuffixOf(h, base).value < HighestSuffix(handles, base, highest)
    ensures HighestSuffix(handles, base, highest) == highest ||
      exists h :: h in handles && SuffixOf(h, base) == Some(HighestSuffix(handles, base, highest) - 1)
  {
    if handles != [] {
      var next := match SuffixOf(handles[0], base)
                  case Some(n) => if n >= highest then n + 1 else highest
                  case None => highest;
      HighestSuffixIsMax(handles[1..], base, next);
      assert handles == [handles[0]] + handles[1..];
    }
  }

  /** The printed suffix parses back: `base-N` matches `^base-(\d+)$` with the number `N`. */
  lemma SuffixOfSuffixed(base: string, n: nat)
    ensures SuffixOf(Suffixed(base, n), base) == Some(n)
  {
    var s := Suffixed(base, n);
    var p := base + "-";
    Decimal.ParsePrinted(n);
    assert s[..|p|] == p;
    assert s[|p|..] == Decimal.NatToString(n);
  }

  /** A slug has no LIKE wildcard, nor does the slug followed by `-`. */
  lemma SlugPatternLiteral(base: string)
    requires Utils.IsSlug(base)
    ensures SqlLike.NoWildcards(base + "-")
  {
    var p := base + "-";
    forall i | 0 <= i < |p| ensures !SqlLike.IsWildcard(p[i]) {
      if i < |base| {
        assert p[i] == base[i] && Utils.IsSlugChar(base[i]);
      }
    }
  }

  /**
   * A row carrying the `base-N` handle is found by the lookup unless it is the
   * ignored article.
   */
  lemma SuffixedRowMatches(rows: seq<ArticleRow>, base: string, ignore: Option<ArticleId>, n: nat, a: ArticleRow)
    requires Utils.IsSlug(base)
    requires a in rows && a.handle == Suffixed(base, n) && !(Truthy(ignore) && a.id == ignore.value)
    ensures a.handle in MatchingHandles(rows, base, ignore)
  {
    SlugPatternLiteral(base);
    SqlLike.LikePrefix(a.handle, base + "-");
    assert (base + "-") + "%" == base + "-%";
    assert a.handle == (base + "-") + Decimal.NatToString(n);
    assert a.handle[..|base + "-"|] == base + "-";
    assert SqlLike.Like(a.handle, base + "-%");
    MatchingHandlesMembers(rows, base, ignore, a);
  }

  /**
   * With every matching row looked at, the handle is fresh: the only row that
   * may already carry it is the ignored article (the one being re-titled).
   */
  lemma FreshHandleAllRows(rows: seq<ArticleRow>, base: string, ignore: Option<ArticleId>)
    requires Utils.IsSlug(base)
    ensures UniqueHandles(rows) ==>
      forall a :: a in rows && a.handle == HandleFor(rows, base, ignore, None) ==> Truthy(ignore) && a.id == ignore.value
  {
    var r := HandleFor(rows, base, ignore, None);
    var found := MatchingHandles(rows, base, ignore);
    forall a | UniqueHandles(rows) && a in rows && a.handle == r
      ensures Truthy(ignore) && a.id == ignore.value
    {
      if KeepsOwnHandle(rows, base, ignore) {
        var x := FindById(rows, ignore.value).value;
        var i :| 0 <= i < |rows| && rows[i] == a;
        var j :| 0 <= j < |rows| && rows[j] == x;
        assert i == j;
      } else if !(Truthy(ignore) && a.id == ignore.value) {
        if found == [] || base !in found {
          assert HandleMatches(a, base, ignore);
          MatchingHandlesMembers(rows, base, ignore, a);
        } else {
          var n := HighestSuffix(found, base, 1);
          assert r == Suffixed(base, n);
          SuffixedRowMatches(rows, base, ignore, n, a);
          SuffixOfSuffixed(base, n);
          HighestSuffixIsMax(found, base, 1);
          assert false;
        }
      }
    }
  }

  /**
   * Whatever the limit, a suffixed result differs from every handle the
   * lookup returned, and is `base-N` with `N` at least 1 and above every
   * returned suffix.
   */
  lemma SuffixedAvoidsReturned(rows: seq<ArticleRow>, base: string, ignore: Option<ArticleId>, limit: Option<nat>)
    ensures var found := Take(MatchingHandles(rows, base, ignore), limit);
      !KeepsOwnHandle(rows, base, ignore) && found != [] && base in found ==>
        HandleFor(rows, base, ignore, limit) !in found &&
        exists n: nat :: n >= 1 && HandleFor(rows, base, ignore, limit) == Suffixed(base, n) &&
          forall h :: h in found && SuffixOf(h, base).Some? ==> SuffixOf(h, base).value < n
  {
    var found := Take(MatchingHandles(rows, base, ignore), limit);
    if !KeepsOwnHandle(rows, base, ignore) && found != [] && base in found {
      var n := HighestSuffix(found, base, 1);
      HighestSuffixIsMax(found, base, 1);
      SuffixOfSuffixed(base, n);
      assert HandleFor(rows, base, ignore, limit) == Suffixed(base, n);
    }
  }

  /**
   * The slug itself is returned when the ignored article already carries it,
   * or when the slug is not among the returned handles.
   */
  lemma BaseHandleCases(rows: seq<ArticleRow>, base: string, ignore: Option<ArticleId>, limit: Option<nat>)
    ensures var found := Take(MatchingHandles(rows, base, ignore), limit);
      (KeepsOwnHandle(rows, base, ignore) || base !in found) <==> HandleFor(rows, base, ignore, limit) == base
  {
    var found := Take(MatchingHandles(rows, base, ignore), limit);
    if !KeepsOwnHandle(rows, base, ignore) && base in found {
      var n := HighestSuffix(found, base, 1);
      assert |Suffixed(base, n)| > |base|;
    }
  }

  /**
   * With the lookup capped at one row, the suffix loop only ever sees the slug
   * itself, so the suffixed result is always `base-1`.
   */
  lemma AsWrittenAlwaysSuffixOne(rows: seq<ArticleRow>, base: string, ignore: Option<ArticleId>)
    ensures HandleFor(rows, base, ignore, Some(1)) == base || HandleFor(rows, base, ignore, Some(1)) == Suffixed(base, 1)
  {
    var found := Take(MatchingHandles(rows, base, ignore), Some(1));
    if !KeepsOwnHandle(rows, base, ignore) && found != [] && base in found {
      assert found == [base];
      assert SuffixOf(base, base).None?;
      assert HighestSuffix(found, base, 1) == HighestSuffix([], base, 1);
    }
  }

  /** Two articles titled with the slug `base`, holding the handles `base` and `base-1`. */
  function TakenRows(base: string): (rows: seq<ArticleRow>)
    ensures |rows| == 2 && rows[0].handle == base && rows[1].handle == Suffixed(base, 1)
  {
    [ArticleRow("a", Some(base), base, None, None, None, false, None, "u", None, 0, None),
     ArticleRow("b", Some(base), Suffixed(base, 1), None, None, None, false, None, "u", None, 0, None)]
  }

  /** When the first row carries the slug itself, a lookup capped at one row returns just the slug. */
  lemma CappedLookupFirst(rows: seq<ArticleRow>, base: string)
    requires rows != [] && rows[0].handle == base
    ensures Take(MatchingHandles(rows, base, None), Some(1)) == [base]
  {
    assert HandleMatches(rows[0], base, None);
    var all := MatchingHandles(rows, base, None);
    assert all == [base] + MatchingHandles(rows[1..], base, None);
    assert all[..1] == [base];
  }

  /** The slug alone carries no number, so the count stays at 1. */
  lemma HighestOfBaseAlone(base: string)
    ensures HighestSuffix([base], base, 1) == 1
  {
    assert SuffixOf(base, base).None?;
    assert [base][1..] == [];
  }

  /** The two taken handles differ: `base-1` is longer than `base`. */
  lemma TakenRowsDistinct(base: string)
    ensures UniqueHandles(TakenRows(base))
  {
    var rows := TakenRows(base);
    assert |rows[1].handle| > |rows[0].handle|;
    forall i, j | 0 <= i < j < |rows|
      ensures rows[i].handle != rows[j].handle
    {
      assert i == 0 && j == 1;
    }
  }

  /** With the slug itself in the first row, the one-row lookup always answers `base-1`. */
  lemma CappedHandleFor(rows: seq<ArticleRow>, base: string)
    requires rows != [] && rows[0].handle == base
    ensures HandleFor(rows, base, None, Some(1)) == Suffixed(base, 1)
  {
    CappedLookupFirst(rows, base);
    HighestOfBaseAlone(base);
  }

  /**
   * The capped lookup in action: with the handles `base` and `base-1` taken
   * (for instance `t` and `t-1`), a new article titled `base` is given
   * `base-1` again, although the two existing handles are distinct.
   */
  lemma AsWrittenDuplicatesHandle(base: string)
    requires Utils.IsSlug(base)
    ensures var rows := TakenRows(base);
      UniqueHandles(rows) &&
      UniqueHandle(rows, base, None, Some(1)) == Suffixed(base, 1) == rows[1].handle
  {
    TakenRowsDistinct(base);
    Utils.SlugFixpoint(base);
    CappedHandleFor(TakenRows(base), base);
  }

  /** With all rows looked at, the same table yields a handle neither row has. */
  lemma AllRowsAvoidsDuplicate(base: string)
    requires Utils.IsSlug(base)
    ensures var rows := TakenRows(base);
      UniqueHandle(rows, base, None, None) != rows[0].handle &&
      UniqueHandle(rows, base, None, None) != rows[1].handle
  {
    var rows := TakenRows(base);
    TakenRowsDistinct(base);
    Utils.SlugFixpoint(base);
    FreshHandleAllRows(rows, base, None);
    assert rows[0] in rows && rows[1] in rows;
  }

  // ---------------------------------------------------------------------
  // Lemmas: the write actions
  // ---------------------------------------------------------------------

  /**
   * `createMyArticle`: nothing without a session; the stored title is the raw
   * input while the handle comes from the trimmed title (or "Untitled
   * Article"); the article is published, with `published_at = now`, exactly
   * when `is_published` is true; the author is the session user.
   */
  lemma CreateFields(rows: seq<ArticleRow>, session: Option<UserId>, input: Schema.Raw, newId: ArticleId, now: Time, limit: Option<nat>)
    ensures session.None? ==> CreatedArticle(rows, session, input, newId, now, limit).None?
    ensures ArticleInput.ParseCreateMyArticle(input).Invalid? ==> CreatedArticle(rows, session, input, newId, now, limit).None?
    ensures var r := CreatedArticle(rows, session, input, newId, now, limit);
      r.Some? ==>
        var parsed := ArticleInput.ParseCreateMyArticle(input).value;
        r.value.id == newId && r.value.authorId == session.value &&
        r.value.title == parsed.title &&
        r.value.handle == UniqueHandle(rows, TitleForHandle(parsed.title), None, limit) && r.value.handle != "" &&
        (r.value.isPublished <==> parsed.isPublished == Some(true)) &&
        (r.value.publishedAt.Some? <==> r.value.isPublished) &&
        (r.value.publishedAt.Some? ==> r.value.publishedAt.value == now) &&
        r.value.deleteScheduledAt.None?
  {
  }

  /** As written, the created article's handle is the slug of its title or `slug-1`. */
  lemma CreateHandleAsWritten(rows: seq<ArticleRow>, session: Option<UserId>, input: Schema.Raw, newId: ArticleId, now: Time)
    ensures var r := CreatedArticle(rows, session, input, newId, now, Some(1));
      r.Some? ==>
        var slug := Utils.Slugify(TitleForHandle(ArticleInput.ParseCreateMyArticle(input).value.title));
        r.value.handle == slug || r.value.handle == Suffixed(slug, 1)
  {
    if CreatedArticle(rows, session, input, newId, now, Some(1)).Some? {
      var parsed := ArticleInput.ParseCreateMyArticle(input).value;
      AsWrittenAlwaysSuffixOne(rows, Utils.Slugify(TitleForHandle(parsed.title)), None);
    }
  }

  /** Whatever the lookup, creating an article keeps ids distinct: the insert is refused when the id is taken. */
  lemma CreateKeepsIdsDistinct(rows: seq<ArticleRow>, session: Option<UserId>, input: Schema.Raw, newId: ArticleId, now: Time, limit: Option<nat>)
    requires DistinctIds(rows)
    ensures var r := CreatedArticle(rows, session, input, newId, now, limit);
      r.Some? ==> DistinctIds(rows + [r.value])
  {
    var r := CreatedArticle(rows, session, input, newId, now, limit);
    if r.Some? {
      var s := rows + [r.value];
      forall i, j | 0 <= i < j < |s| ensures s[i].id != s[j].id {
        if j == |rows| {
          assert s[i] in rows;
        }
      }
    }
  }

  /** With the corrected lookup, creating an article keeps handles unique. */
  lemma CreateKeepsTableValid(rows: seq<ArticleRow>, session: Option<UserId>, input: Schema.Raw, newId: ArticleId, now: Time)
    requires UniqueHandles(rows)
    ensures var r := CreatedArticle(rows, session, input, newId, now, None);
      r.Some? ==> UniqueHandles(rows + [r.value])
  {
    var r := CreatedArticle(rows, session, input, newId, now, None);
    if r.Some? {
      var parsed := ArticleInput.ParseCreateMyArticle(input).value;
      FreshHandleAllRows(rows, Utils.Slugify(TitleForHandle(parsed.title)), None);
      var s := rows + [r.value];
      forall i, j | 0 <= i < j < |s| ensures s[i].handle != s[j].handle {
        if j == |rows| {
          assert s[i] in rows;
        }
      }
    }
  }

  /** A create that passes every check inserts the new row with the handle the lookup chose. */
  lemma CreatedWithHandle(rows: seq<ArticleRow>, session: Option<UserId>, input: Schema.Raw, newId: ArticleId, now: Time, limit: Option<nat>, handle: string)
    requires session.Some? && ArticleInput.ParseCreateMyArticle(input).Ok?
    requires handle == UniqueHandle(rows, TitleForHandle(ArticleInput.ParseCreateMyArticle(input).value.title), None, limit)
    requires handle != "" && FindById(rows, newId).None?
    ensures CreatedArticle(rows, session, input, newId, now, limit) ==
      Some(NewArticle(ArticleInput.ParseCreateMyArticle(input).value, handle, newId, session.value, now))
  {
  }

  /**
   * The action as written breaks unique handles: on the table holding `base`
   * and `base-1`, a new article whose title gives the slug `base` is inserted
   * with `base-1`, so the table then holds that handle twice.
   */
  lemma CreateDuplicatesHandle(base: string, session: Option<UserId>, input: Schema.Raw, newId: ArticleId, now: Time)
    requires Utils.IsSlug(base)
    requires session.Some? && ArticleInput.ParseCreateMyArticle(input).Ok?
    requires TitleForHandle(ArticleInput.ParseCreateMyArticle(input).value.title) == base
    requires FindById(TakenRows(base), newId).None?
    ensures var rows := TakenRows(base);
      var r := CreatedArticle(rows, session, input, newId, now, Some(1));
      UniqueHandles(rows) && r.Some? && r.value.handle == rows[1].handle && !UniqueHandles(rows + [r.value])
  {
    var rows := TakenRows(base);
    AsWrittenDuplicatesHandle(base);
    CreatedWithHandle(rows, session, input, newId, now, Some(1), rows[1].handle);
    SecondHandleAgain(rows, CreatedArticle(rows, session, input, newId, now, Some(1)).value);
  }

  /** Appending a row with the second row's handle leaves two rows sharing it. */
  lemma SecondHandleAgain(rows: seq<ArticleRow>, a: ArticleRow)
    requires |rows| == 2 && a.handle == rows[1].handle
    ensures !UniqueHandles(rows + [a])
  {
    var s := rows + [a];
    assert s[1].handle == s[2].handle;
  }

  /** An update changes only the rows it selects, and only through the patch; ids and authors never change. */
  lemma UpdateOnlyOwned(rows: seq<ArticleRow>, id: ArticleId, author: UserId, patch: Patch)
    ensures forall a :: a in rows && !Owned(a, id, author) ==> a in UpdateOwned(rows, id, author, patch)
    ensures forall k :: 0 <= k < |rows| ==>
      UpdateOwned(rows, id, author, patch)[k].id == rows[k].id &&
      UpdateOwned(rows, id, author, patch)[k].authorId == rows[k].authorId
    ensures DistinctIds(rows) ==> DistinctIds(UpdateOwned(rows, id, author, patch))
  {
    var r := UpdateOwned(rows, id, author, patch);
    forall a | a in rows && !Owned(a, id, author) ensures a in r {
      var k :| 0 <= k < |rows| && rows[k] == a;
      assert r[k] == a;
    }
  }

  /**
   * `updateMyArticle`: absent (null or undefined) fields leave the column
   * alone, present ones overwrite it; `is_published` and `tag_ids` are not
   * written to the row.
   */
  lemma EditFields(a: ArticleRow, u: ArticleInput.UpdateMyArticle)
    ensures var b := Patched(a, Edit(u));
      (u.title.Some? ==> b.title == u.title) && (u.title.None? ==> b.title == a.title) &&
      (u.handle.Some? ==> b.handle == u.handle.value) && (u.handle.None? ==> b.handle == a.handle) &&
      (u.coverImage.None? ==> b.coverImage == a.coverImage) &&
      (u.metadata.None? ==> b.metadata == a.metadata) &&
      b.isPublished == a.isPublished && b.publishedAt == a.publishedAt &&
      b.deleteScheduledAt == a.deleteScheduledAt
  {
  }

  /** Scheduling sets the deletion time to exactly seven days after `now`, on an owned row only; restoring clears it. */
  lemma ScheduleOwnedOnly(rows: seq<ArticleRow>, session: Option<UserId>, id: ArticleId, now: Time)
    ensures var r := ScheduleOutcome(rows, session, id, Some(now + SEVEN_DAYS_MS));
      (r.Refused? <==> session.None? || forall a :: a in rows ==> !Owned(a, id, session.value)) &&
      (r.Refused? ==> !r.failure.success && r.failure.error == "Unauthorized") &&
      (r.Scheduled? ==> r.data.Some? && r.data.value.id == id && r.data.value.deleteScheduledAt == Some(now + 604800000))
    ensures var r := ScheduleOutcome(rows, session, id, None);
      r.Scheduled? ==> r.data.Some? && r.data.value.deleteScheduledAt.None?
  {
  }

  /** Restoring after scheduling gives back the rows as they were, when nothing was scheduled before. */
  lemma {:induction false} RestoreUndoesSchedule(rows: seq<ArticleRow>, id: ArticleId, author: UserId, at: Time)
    requires forall a :: a in rows && Owned(a, id, author) ==> a.deleteScheduledAt.None?
    ensures UpdateOwned(UpdateOwned(rows, id, author, Schedule(Some(at))), id, author, Schedule(None)) == rows
  {
    if rows != [] {
      RestoreUndoesSchedule(rows[1..], id, author, at);
    }
  }

  /** Publishing sets `published_at` to `now` and unpublishing clears it. */
  lemma PublishSetsTimestamp(a: ArticleRow, published: bool, now: Time)
    ensures var b := Patched(a, Publish(published, now));
      b.isPublished == published && (b.publishedAt.Some? <==> published) &&
      (published ==> b.publishedAt == Some(now)) &&
      b.handle == a.handle && b.deleteScheduledAt == a.deleteScheduledAt
  {
  }

  // ---------------------------------------------------------------------
  // articlesByTag pagination
  // ---------------------------------------------------------------------

  /** `Math.ceil(total / limit)`: `NaN` for `0 / 0`. */
  datatype PageCount = Pages(n: int) | NaNPages

  datatype PageMeta = PageMeta(total: nat, currentPage: int, totalPages: PageCount, hasNextPage: bool, hasPreviousPage: bool)

  /** `(page - 1) * limit`. */
  function Offset(page: int, limit: int): int {
    (page - 1) * limit
  }

  /**
   * `Math.ceil(total / limit)` for a non-negative total and a non-negative
   * limit. A zero limit with a non-zero total would be `Infinity` in
   * JavaScript; `TagFeedMeta` never asks for it, because a `LIMIT 0` query
   * returns no row and so no count, and the `Pages(0)` given here is never
   * used.
   */
  function CeilPages(total: nat, limit: nat): (r: PageCount)
    ensures limit > 0 ==> r.Pages? && (r.n - 1) * limit < total + (if total == 0 then limit else 0) && total <= r.n * limit
    ensures limit > 0 && total == 0 ==> r == Pages(0)
    ensures limit == 0 && total == 0 ==> r.NaNPages?
  {
    if limit > 0 then Pages((total + limit - 1) / limit)
    else if total == 0 then NaNPages
    else Pages(0)
  }

  /**
   * The meta block of `articlesByTag`. Each result row carries the window
   * count `total_count`; the query fails (and the action returns nothing)
   * when LIMIT or OFFSET is negative. With `limit = 0` no row comes back.
   */
  function TagFeedMeta(page: int, limit: int, totalCounts: seq<nat>): (r: Option<PageMeta>)
    requires limit == 0 ==> totalCounts == []
    ensures limit < 0 || Offset(page, limit) < 0 <==> r.None?
    ensures r.Some? ==> r.value.total == (if totalCounts == [] then 0 else totalCounts[0])
    ensures r.Some? ==> r.value.currentPage == page && (r.value.hasPreviousPage <==> page > 1)
    ensures r.Some? ==> (r.value.hasNextPage <==> r.value.totalPages.Pages? && page < r.value.totalPages.n)
  {
    if limit < 0 || Offset(page, limit) < 0 then None
    else
      var total := if totalCounts == [] then 0 else totalCounts[0];
      var pages := CeilPages(total, limit);
      Some(PageMeta(total, page, pages, pages.Pages? && page < pages.n, page > 1))
  }

  /**
   * For a positive limit, the feed has a next page exactly when the rows
   * before the end of this page are fewer than the total.
   */
  lemma HasNextPageMeansMoreRows(page: int, limit: int, total: nat)
    requires limit > 0 && page >= 1
    ensures var m := TagFeedMeta(page, limit, [total]);
      m.Some? && (m.value.hasNextPage <==> page * limit < total)
  {
    var pages := CeilPages(total, limit);
    var n := pages.n;
    assert Offset(page, limit) >= 0 by {
      MulMonotone(0, page - 1, limit);
    }
    if page < n {
      MulMonotone(page, n - 1, limit);
    } else {
      MulMonotone(n, page, limit);
    }
  }

  lemma MulMonotone(a: int, b: int, c: nat)
    requires a <= b
    ensures a * c <= b * c
  {
  }

  /** A limit of zero returns no rows, so the page count is `NaN` and there is never a next page. */
  lemma ZeroLimitNeverHasNext(page: int)
    ensures var m := TagFeedMeta(page, 0, []);
      m.Some? && m.value.totalPages.NaNPages? && !m.value.hasNextPage && m.value.total == 0
  {
  }
}
