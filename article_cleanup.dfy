/**
 * The article cleanup service: the periodic sweep that deletes articles whose
 * scheduled deletion time has passed, setting and cancelling a deletion time
 * by id, and listing the scheduled articles by due time. It works on the same
 * article table as the article actions; `now` stands for the captured clock.
 */
module ArticleCleanup {

  import opened Common
  import opened ArticleActions

  /** An article whose deletion time has passed: scheduled, and due strictly before `now`. */
  predicate IsExpired(a: ArticleRow, now: Time) {
    a.deleteScheduledAt.Some? && a.deleteScheduledAt.value < now
  }

  /** The rows the select (and the delete) of the sweep pick, in table order. */
  function ExpiredRows(rows: seq<ArticleRow>, now: Time): (r: seq<ArticleRow>)
    ensures |r| <= |rows|
    ensures forall a :: a in r ==> a in rows && IsExpired(a, now)
  {
    if rows == [] then []
    else (if IsExpired(rows[0], now) then [rows[0]] else []) + ExpiredRows(rows[1..], now)
  }

  /** The rows that survive the sweep. */
  function RemainingRows(rows: seq<ArticleRow>, now: Time): (r: seq<ArticleRow>)
    ensures |r| <= |rows|
    ensures forall a :: a in r ==> a in rows && !IsExpired(a, now)
  {
    if rows == [] then []
    else (if IsExpired(rows[0], now) then [] else [rows[0]]) + RemainingRows(rows[1..], now)
  }

  /** One entry of `deletedArticles`. */
  datatype DeletedArticle = DeletedArticle(id: ArticleId, title: string, handle: string, deleteScheduledAt: Time)

  datatype CleanupResult = CleanupResult(deletedCount: nat, deletedArticles: seq<DeletedArticle>)

  const UNTITLED := "Untitled"

  /** `title || "Untitled"`: a missing or empty title reads "Untitled". */
  function ReportTitle(title: Option<string>): (r: string)
    ensures r != ""
    ensures title.Some? && title.value != "" ==> r == title.value
  {
    if title.Some? && title.value != "" then title.value else UNTITLED
  }

  /** The report entry of an expired row (`handle || ""` keeps the handle as it is). */
  function Report(a: ArticleRow): DeletedArticle
    requires a.deleteScheduledAt.Some?
  {
    DeletedArticle(a.id, ReportTitle(a.title), a.handle, a.deleteScheduledAt.value)
  }

  function ReportAll(expired: seq<ArticleRow>): (r: seq<DeletedArticle>)
    requires forall a :: a in expired ==> a.deleteScheduledAt.Some?
    ensures |r| == |expired|
    ensures forall k :: 0 <= k < |expired| ==> r[k] == Report(expired[k])
  {
    if expired == [] then [] else [Report(expired[0])] + ReportAll(expired[1..])
  }

  /** What the sweep reports for the table as it was and the captured time. */
  function SweepReport(rows: seq<ArticleRow>, now: Time): (r: CleanupResult)
    ensures r.deletedCount == |ExpiredRows(rows, now)| == |r.deletedArticles|
    ensures forall k :: 0 <= k < |r.deletedArticles| ==> r.deletedArticles[k].deleteScheduledAt < now
  {
    var expired := ExpiredRows(rows, now);
    assert forall k :: 0 <= k < |expired| ==> expired[k] in expired;
    if |expired| == 0 then CleanupResult(0, [])
    else CleanupResult(|expired|, ReportAll(expired))
  }

  /** `deleteExpiredArticles()`: select the expired rows, delete them with the same condition and time, report them. */
  method DeleteExpiredArticles(store: ArticleStore, now: Time) returns (result: CleanupResult)
    modifies store
    ensures result == SweepReport(old(store.rows), now)
    ensures store.rows == RemainingRows(old(store.rows), now)
  {
    var expired := ExpiredRows(store.rows, now);
    if |expired| == 0 {
      NothingExpiredKeepsAll(store.rows, now);
      return CleanupResult(0, []);
    }
    store.rows := RemainingRows(store.rows, now);
    result := CleanupResult(|expired|, ReportAll(expired));
  }

  /** `update(...).set({ delete_scheduled_at: at, updated_at: now }).where(eq(id))`. */
  function SetSchedule(rows: seq<ArticleRow>, id: ArticleId, at: Option<Time>, now: Time): (r: seq<ArticleRow>)
    ensures |r| == |rows|
    ensures forall k :: 0 <= k < |rows| ==>
      r[k] == if rows[k].id == id then rows[k].(deleteScheduledAt := at, updatedAt := now) else rows[k]
  {
    if rows == [] then []
    else [if rows[0].id == id then rows[0].(deleteScheduledAt := at, updatedAt := now) else rows[0]]
         + SetSchedule(rows[1..], id, at, now)
  }

  /** `scheduleArticleForDeletion(id, deleteAt)`: no ownership check here. */
  method ScheduleArticleForDeletion(store: ArticleStore, id: ArticleId, deleteAt: Time, now: Time)
    modifies store
    ensures store.rows == SetSchedule(old(store.rows), id, Some(deleteAt), now)
  {
    store.rows := SetSchedule(store.rows, id, Some(deleteAt), now);
  }

  /** `cancelScheduledDeletion(id)`. */
  method CancelScheduledDeletion(store: ArticleStore, id: ArticleId, now: Time)
    modifies store
    ensures store.rows == SetSchedule(old(store.rows), id, None, now)
  {
    store.rows := SetSchedule(store.rows, id, None, now);
  }

  /** One row of `getScheduledArticles()`. */
  datatype ScheduledArticle = ScheduledArticle(id: ArticleId, title: Option<string>, handle: string, deleteScheduledAt: Time, authorId: UserId)

  function Scheduled(rows: seq<ArticleRow>): (r: seq<ScheduledArticle>)
    ensures |r| <= |rows|
  {
    if rows == [] then []
    else (if rows[0].deleteScheduledAt.Some? then
            [ScheduledArticle(rows[0].id, rows[0].title, rows[0].handle, rows[0].deleteScheduledAt.value, rows[0].authorId)]
          else [])
         + Scheduled(rows[1..])
  }

  predicate SortedByDue(s: seq<ScheduledArticle>) {
    forall i, j :: 0 <= i < j < |s| ==> s[i].deleteScheduledAt <= s[j].deleteScheduledAt
  }

  function InsertByDue(e: ScheduledArticle, s: seq<ScheduledArticle>): seq<ScheduledArticle> {
    if s == [] || e.deleteScheduledAt <= s[0].deleteScheduledAt then [e] + s
    else [s[0]] + InsertByDue(e, s[1..])
  }

  /** `orderBy(delete_scheduled_at)` (ascending; rows with equal times keep table order). */
  function SortByDue(s: seq<ScheduledArticle>): seq<ScheduledArticle> {
    if s == [] then [] else InsertByDue(s[0], SortByDue(s[1..]))
  }

  /** `getScheduledArticles()`. */
  function GetScheduledArticles(rows: seq<ArticleRow>): seq<ScheduledArticle> {
    SortByDue(Scheduled(rows))
  }

  // ---------------------------------------------------------------------
  // Lemmas
  // ---------------------------------------------------------------------

  lemma {:induction false} NothingExpiredKeepsAll(rows: seq<ArticleRow>, now: Time)
    requires ExpiredRows(rows, now) == []
    ensures RemainingRows(rows, now) == rows
  {
    if rows != [] {
      NothingExpiredKeepsAll(rows[1..], now);
    }
  }

  /**
   * The sweep splits the table: every row is either deleted (and reported) or
   * kept, and which one depends only on its deletion time and `now`.
   */
  lemma {:induction false} SweepPartitions(rows: seq<ArticleRow>, now: Time)
    ensures multiset(ExpiredRows(rows, now)) + multiset(RemainingRows(rows, now)) == multiset(rows)
    ensures |ExpiredRows(rows, now)| + |RemainingRows(rows, now)| == |rows|
  {
    if rows != [] {
      SweepPartitions(rows[1..], now);
      assert rows == [rows[0]] + rows[1..];
    }
  }

  /** A row survives the sweep exactly when it is unscheduled or due at or after `now`. */
  lemma {:induction false} SweepKeepsUnexpired(rows: seq<ArticleRow>, now: Time, a: ArticleRow)
    ensures a in RemainingRows(rows, now) <==> a in rows && (a.deleteScheduledAt.None? || a.deleteScheduledAt.value >= now)
    ensures a in ExpiredRows(rows, now) <==> a in rows && IsExpired(a, now)
  {
    if rows != [] {
      SweepKeepsUnexpired(rows[1..], now, a);
      assert rows == [rows[0]] + rows[1..];
    }
  }

  /** The reported count is exactly the number of rows the sweep removed; an empty sweep reports nothing. */
  lemma SweepCountMatches(rows: seq<ArticleRow>, now: Time)
    ensures SweepReport(rows, now).deletedCount == |rows| - |RemainingRows(rows, now)|
    ensures ExpiredRows(rows, now) == [] ==> SweepReport(rows, now) == CleanupResult(0, []) && RemainingRows(rows, now) == rows
  {
    SweepPartitions(rows, now);
    if ExpiredRows(rows, now) == [] {
      NothingExpiredKeepsAll(rows, now);
    }
  }

  lemma {:induction false} NoneExpired(rows: seq<ArticleRow>, now: Time)
    requires forall a :: a in rows ==> !IsExpired(a, now)
    ensures ExpiredRows(rows, now) == [] && RemainingRows(rows, now) == rows
  {
    if rows != [] {
      NoneExpired(rows[1..], now);
    }
  }

  /** A second sweep with the same time deletes nothing. */
  lemma SweepIdempotent(rows: seq<ArticleRow>, now: Time)
    ensures ExpiredRows(RemainingRows(rows, now), now) == []
    ensures RemainingRows(RemainingRows(rows, now), now) == RemainingRows(rows, now)
  {
    NoneExpired(RemainingRows(rows, now), now);
  }

  /** Setting or cancelling a deletion time touches only the rows with that id, and only those two columns. */
  lemma SetScheduleOnlyThatId(rows: seq<ArticleRow>, id: ArticleId, at: Option<Time>, now: Time)
    ensures forall k :: 0 <= k < |rows| && rows[k].id != id ==> SetSchedule(rows, id, at, now)[k] == rows[k]
    ensures forall k :: 0 <= k < |rows| && rows[k].id == id ==>
      SetSchedule(rows, id, at, now)[k].deleteScheduledAt == at &&
      SetSchedule(rows, id, at, now)[k].updatedAt == now &&
      SetSchedule(rows, id, at, now)[k].(deleteScheduledAt := rows[k].deleteScheduledAt, updatedAt := rows[k].updatedAt) == rows[k]
  {
  }

  /** Cancelling a deletion time removes the row from any later sweep. */
  lemma CancelledNeverSwept(rows: seq<ArticleRow>, id: ArticleId, now: Time, later: Time)
    ensures forall a :: a in ExpiredRows(SetSchedule(rows, id, None, now), later) ==> a.id != id
  {
  }

  lemma {:induction false} ScheduledMembers(rows: seq<ArticleRow>, e: ScheduledArticle)
    ensures e in Scheduled(rows) <==>
      exists a :: a in rows && a.deleteScheduledAt == Some(e.deleteScheduledAt) &&
        e == ScheduledArticle(a.id, a.title, a.handle, e.deleteScheduledAt, a.authorId)
  {
    if rows != [] {
      ScheduledMembers(rows[1..], e);
      assert rows == [rows[0]] + rows[1..];
      if e in Scheduled(rows[1..]) {
        var a :| a in rows[1..] && a.deleteScheduledAt == Some(e.deleteScheduledAt) &&
          e == ScheduledArticle(a.id, a.title, a.handle, e.deleteScheduledAt, a.authorId);
        assert a in rows;
      }
    }
  }

  lemma {:induction false} InsertByDuePerm(e: ScheduledArticle, s: seq<ScheduledArticle>)
    ensures multiset(InsertByDue(e, s)) == multiset(s) + multiset{e}
  {
    if !(s == [] || e.deleteScheduledAt <= s[0].deleteScheduledAt) {
      InsertByDuePerm(e, s[1..]);
      assert s == [s[0]] + s[1..];
    }
  }

  /** A time no later than `e` and every entry of `s` is no later than any entry of the insertion. */
  lemma {:induction false} InsertByDueBound(t: Time, e: ScheduledArticle, s: seq<ScheduledArticle>)
    requires t <= e.deleteScheduledAt
    requires forall k :: 0 <= k < |s| ==> t <= s[k].deleteScheduledAt
    ensures forall k :: 0 <= k < |InsertByDue(e, s)| ==> t <= InsertByDue(e, s)[k].deleteScheduledAt
  {
    if s == [] || e.deleteScheduledAt <= s[0].deleteScheduledAt {
      var r := [e] + s;
      forall k | 0 <= k < |r| ensures t <= r[k].deleteScheduledAt {
        if k > 0 {
          assert r[k] == s[k - 1];
        }
      }
    } else {
      InsertByDueBound(t, e, s[1..]);
      var u := InsertByDue(e, s[1..]);
      var r := [s[0]] + u;
      forall k | 0 <= k < |r| ensures t <= r[k].deleteScheduledAt {
        if k > 0 {
          assert r[k] == u[k - 1];
        }
      }
    }
  }

  lemma SortedByDueCons(h: ScheduledArticle, s: seq<ScheduledArticle>)
    requires SortedByDue(s)
    requires forall k :: 0 <= k < |s| ==> h.deleteScheduledAt <= s[k].deleteScheduledAt
    ensures SortedByDue([h] + s)
  {
    var r := [h] + s;
    forall i, j | 0 <= i < j < |r| ensures r[i].deleteScheduledAt <= r[j].deleteScheduledAt {
      assert r[j] == s[j - 1];
      if i > 0 {
        assert r[i] == s[i - 1];
      }
    }
  }

  lemma {:induction false} InsertByDueKeeps(e: ScheduledArticle, s: seq<ScheduledArticle>)
    requires SortedByDue(s)
    ensures SortedByDue(InsertByDue(e, s))
    ensures multiset(InsertByDue(e, s)) == multiset(s) + multiset{e}
  {
    InsertByDuePerm(e, s);
    if s == [] || e.deleteScheduledAt <= s[0].deleteScheduledAt {
      forall k | 0 <= k < |s| ensures e.deleteScheduledAt <= s[k].deleteScheduledAt {
        if k > 0 {
          assert s[0].deleteScheduledAt <= s[k].deleteScheduledAt;
        }
      }
      SortedByDueCons(e, s);
    } else {
      var rest := s[1..];
      InsertByDueKeeps(e, rest);
      forall k | 0 <= k < |rest| ensures s[0].deleteScheduledAt <= rest[k].deleteScheduledAt {
        assert rest[k] == s[k + 1];
      }
      InsertByDueBound(s[0].deleteScheduledAt, e, rest);
      SortedByDueCons(s[0], InsertByDue(e, rest));
    }
  }

  lemma {:induction false} SortByDueKeeps(s: seq<ScheduledArticle>)
    ensures SortedByDue(SortByDue(s))
    ensures multiset(SortByDue(s)) == multiset(s)
  {
    if s != [] {
      SortByDueKeeps(s[1..]);
      InsertByDueKeeps(s[0], SortByDue(s[1..]));
      assert s == [s[0]] + s[1..];
    }
  }

  /**
   * `getScheduledArticles()` lists every scheduled article exactly once and
   * nothing else, earliest deletion first.
   */
  lemma ScheduledListing(rows: seq<ArticleRow>)
    ensures SortedByDue(GetScheduledArticles(rows))
    ensures multiset(GetScheduledArticles(rows)) == multiset(Scheduled(rows))
    ensures forall e :: e in GetScheduledArticles(rows) <==>
      exists a :: a in rows && a.deleteScheduledAt == Some(e.deleteScheduledAt) &&
        e == ScheduledArticle(a.id, a.title, a.handle, e.deleteScheduledAt, a.authorId)
  {
    SortByDueKeeps(Scheduled(rows));
    forall e ensures e in GetScheduledArticles(rows) <==> e in Scheduled(rows) {
      assert e in GetScheduledArticles(rows) <==> e in multiset(GetScheduledArticles(rows));
    }
    forall e ensures e in Scheduled(rows) <==>
      exists a :: a in rows && a.deleteScheduledAt == Some(e.deleteScheduledAt) &&
        e == ScheduledArticle(a.id, a.title, a.handle, e.deleteScheduledAt, a.authorId)
    {
      ScheduledMembers(rows, e);
    }
  }
}
