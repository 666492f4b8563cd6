/**
 * The bookmark actions over the `bookmarks` table: a toggle that deletes the
 * caller's bookmark on a resource or inserts one, the same toggle reached
 * through `myBookmarks`, and the read-only status query.
 */
module Bookmarks {

  import opened Common
  import Schema
  import opened BookmarkInput

  /** A row of the `bookmarks` table; `createdAt` is absent when the insert leaves it to the database. */
  datatype Bookmark = Bookmark(resourceId: string, resourceType: ResourceType, userId: UserId, createdAt: Option<Time>)

  /** The where clause on `resource_id`, `resource_type` and `user_id`. */
  predicate Matches(b: Bookmark, r: ResourceRef, user: UserId) {
    b.resourceId == r.resourceId && b.resourceType == r.resourceType && b.userId == user
  }

  /** The `find` with `limit: 1` found a row. */
  predicate HasBookmark(rows: seq<Bookmark>, r: ResourceRef, user: UserId) {
    exists k :: 0 <= k < |rows| && Matches(rows[k], r, user)
  }

  /** The `delete` with the same where clause. */
  function DeleteMatching(rows: seq<Bookmark>, r: ResourceRef, user: UserId): (out: seq<Bookmark>)
    ensures |out| <= |rows|
  {
    if rows == [] then []
    else (if Matches(rows[0], r, user) then [] else [rows[0]]) + DeleteMatching(rows[1..], r, user)
  }

  /** The table after a toggle: delete when a bookmark exists, otherwise insert one row. */
  function Toggled(rows: seq<Bookmark>, r: ResourceRef, user: UserId, createdAt: Option<Time>): seq<Bookmark> {
    if HasBookmark(rows, r, user) then DeleteMatching(rows, r, user)
    else rows + [Bookmark(r.resourceId, r.resourceType, user, createdAt)]
  }

  class BookmarkStore {
    var rows: seq<Bookmark>

    constructor(rows0: seq<Bookmark>)
      ensures rows == rows0
    {
      rows := rows0;
    }

    /** The find, then the delete or the insert; the answer is the new `bookmarked` flag. */
    method Toggle(r: ResourceRef, user: UserId, createdAt: Option<Time>) returns (bookmarked: bool)
      modifies this
      ensures rows == Toggled(old(rows), r, user, createdAt)
      ensures bookmarked <==> !HasBookmark(old(rows), r, user)
    {
      var found := HasBookmark(rows, r, user);
      if found {
        rows := DeleteMatching(rows, r, user);
        return false;
      }
      rows := rows + [Bookmark(r.resourceId, r.resourceType, user, createdAt)];
      return true;
    }

    /** `toggleResourceBookmark(input)`: `None` is the action's `undefined` (no session, or invalid input). */
    method ToggleResourceBookmark(session: Option<UserId>, input: Schema.Raw, now: Time) returns (result: Option<bool>)
      modifies this
      ensures session.None? || ParseResourceRef(input).Invalid? ==> result.None? && rows == old(rows)
      ensures session.Some? && ParseResourceRef(input).Ok? ==>
        result == Some(!HasBookmark(old(rows), ParseResourceRef(input).value, session.value)) &&
        rows == Toggled(old(rows), ParseResourceRef(input).value, session.value, Some(now))
    {
      if session.None? {
        return None;
      }
      var parsed := ParseResourceRef(input);
      if parsed.Invalid? {
        return None;
      }
      var b := Toggle(parsed.value, session.value, Some(now));
      result := Some(b);
    }

    /** `myBookmarks(input)`: validated against the toggle schema and performs the same toggle, without `created_at`. */
    method MyBookmarks(session: Option<UserId>, input: Schema.Raw) returns (result: Option<bool>)
      modifies this
      ensures session.None? || ParseResourceRef(input).Invalid? ==> result.None? && rows == old(rows)
      ensures session.Some? && ParseResourceRef(input).Ok? ==>
        result == Some(!HasBookmark(old(rows), ParseResourceRef(input).value, session.value)) &&
        rows == Toggled(old(rows), ParseResourceRef(input).value, session.value, None)
    {
      if session.None? {
        return None;
      }
      var parsed := ParseResourceRef(input);
      if parsed.Invalid? {
        return None;
      }
      var b := Toggle(parsed.value, session.value, None);
      result := Some(b);
    }

    /** `bookmarkStatus(input)`: whether the caller has bookmarked the resource; nothing changes. */
    method BookmarkStatus(session: Option<UserId>, input: Schema.Raw) returns (result: Option<bool>)
      ensures session.None? || ParseResourceRef(input).Invalid? ==> result.None?
      ensures session.Some? && ParseResourceRef(input).Ok? ==>
        result == Some(HasBookmark(rows, ParseResourceRef(input).value, session.value))
    {
      if session.None? {
        return None;
      }
      var parsed := ParseResourceRef(input);
      if parsed.Invalid? {
        return None;
      }
      result := Some(HasBookmark(rows, parsed.value, session.value));
    }
  }

  // ---------------------------------------------------------------------
  // Lemmas
  // ---------------------------------------------------------------------

  lemma {:induction false} DeleteMatchingKeeps(rows: seq<Bookmark>, r: ResourceRef, user: UserId, b: Bookmark)
    ensures b in DeleteMatching(rows, r, user) <==> b in rows && !Matches(b, r, user)
  {
    if rows != [] {
      DeleteMatchingKeeps(rows[1..], r, user, b);
      assert rows == [rows[0]] + rows[1..];
    }
  }

  /** After the delete no matching row is left. */
  lemma DeleteMatchingClears(rows: seq<Bookmark>, r: ResourceRef, user: UserId)
    ensures !HasBookmark(DeleteMatching(rows, r, user), r, user)
  {
    var d := DeleteMatching(rows, r, user);
    forall k | 0 <= k < |d|
      ensures !Matches(d[k], r, user)
    {
      DeleteMatchingKeeps(rows, r, user, d[k]);
    }
  }

  lemma {:induction false} DeleteMatchingNone(rows: seq<Bookmark>, r: ResourceRef, user: UserId)
    requires !HasBookmark(rows, r, user)
    ensures DeleteMatching(rows, r, user) == rows
  {
    if rows != [] {
      assert !Matches(rows[0], r, user);
      assert !HasBookmark(rows[1..], r, user) by {
        forall k | 0 <= k < |rows[1..]| ensures !Matches(rows[1..][k], r, user) {
          assert rows[1..][k] == rows[k + 1];
        }
      }
      DeleteMatchingNone(rows[1..], r, user);
    }
  }

  /** After a toggle the caller has a bookmark exactly when they had none before. */
  lemma ToggleFlips(rows: seq<Bookmark>, r: ResourceRef, user: UserId, createdAt: Option<Time>)
    ensures HasBookmark(Toggled(rows, r, user, createdAt), r, user) <==> !HasBookmark(rows, r, user)
  {
    var t := Toggled(rows, r, user, createdAt);
    if !HasBookmark(rows, r, user) {
      assert Matches(t[|rows|], r, user);
    } else {
      DeleteMatchingClears(rows, r, user);
    }
  }

  /** A toggle inserts at most one row and never touches another user's or another resource's bookmarks. */
  lemma ToggleLeavesOthers(rows: seq<Bookmark>, r: ResourceRef, user: UserId, createdAt: Option<Time>, b: Bookmark)
    requires !Matches(b, r, user)
    ensures b in Toggled(rows, r, user, createdAt) <==> b in rows
    ensures |Toggled(rows, r, user, createdAt)| <= |rows| + 1
  {
    DeleteMatchingKeeps(rows, r, user, b);
  }

  /** Toggling twice from no bookmark gives back the table exactly. */
  lemma ToggleTwiceRestores(rows: seq<Bookmark>, r: ResourceRef, user: UserId, createdAt: Option<Time>)
    requires !HasBookmark(rows, r, user)
    ensures Toggled(Toggled(rows, r, user, createdAt), r, user, createdAt) == rows
  {
    var row := Bookmark(r.resourceId, r.resourceType, user, createdAt);
    var t := rows + [row];
    assert Matches(t[|rows|], r, user);
    DeleteMatchingNone(rows, r, user);
    assert DeleteMatching([row], r, user) == [];
    DeleteMatchingAppend(rows, [row], r, user);
  }

  /** Toggling twice from a bookmark leaves exactly one bookmark for the caller on that resource. */
  lemma ToggleTwiceFromBookmarked(rows: seq<Bookmark>, r: ResourceRef, user: UserId, createdAt: Option<Time>)
    requires HasBookmark(rows, r, user)
    ensures var t := Toggled(Toggled(rows, r, user, createdAt), r, user, createdAt);
      t == DeleteMatching(rows, r, user) + [Bookmark(r.resourceId, r.resourceType, user, createdAt)] &&
      HasBookmark(t, r, user)
  {
    var d := DeleteMatching(rows, r, user);
    DeleteMatchingClears(rows, r, user);
    var t := d + [Bookmark(r.resourceId, r.resourceType, user, createdAt)];
    assert Matches(t[|d|], r, user);
  }

  lemma {:induction false} DeleteMatchingAppend(a: seq<Bookmark>, b: seq<Bookmark>, r: ResourceRef, user: UserId)
    ensures DeleteMatching(a + b, r, user) == DeleteMatching(a, r, user) + DeleteMatching(b, r, user)
  {
    if a == [] {
      assert a + b == b;
    } else {
      var ab := a + b;
      var h := if Matches(a[0], r, user) then [] else [a[0]];
      assert ab[0] == a[0] && ab[1..] == a[1..] + b;
      DeleteMatchingAppend(a[1..], b, r, user);
      calc {
        DeleteMatching(ab, r, user);
        h + DeleteMatching(a[1..] + b, r, user);
        h + (DeleteMatching(a[1..], r, user) + DeleteMatching(b, r, user));
        (h + DeleteMatching(a[1..], r, user)) + DeleteMatching(b, r, user);
        DeleteMatching(a, r, user) + DeleteMatching(b, r, user);
      }
    }
  }
}
