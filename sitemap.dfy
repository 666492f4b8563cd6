/**
 * The article sitemap: the published, approved article rows (handle,
 * update time and the author's username from the left join) become
 * sitemap entries; rows without a handle are skipped.
 */
module Sitemap {

  import opened Common

  /** A fetched row; `username` is absent when the join found no user. */
  datatype SitemapRow = SitemapRow(handle: Option<string>, updatedAt: Time, username: Option<string>)

  datatype ChangeFrequency = Weekly

  datatype SitemapEntry = SitemapEntry(url: string, lastModified: Time, changeFrequency: ChangeFrequency, priority: int)

  const SITE := "https://www.techdiary.dev/@"

  /** `article?.handle` is truthy: present and non-empty. */
  predicate HasHandle(a: SitemapRow) {
    a.handle.Some? && a.handle.value != ""
  }

  /** `${article.user?.username}`: a missing user renders as `undefined`. */
  function UsernameText(a: SitemapRow): string {
    if a.username.Some? then a.username.value else "undefined"
  }

  /** The entry of a row that has a handle. */
  function Entry(a: SitemapRow): (e: SitemapEntry)
    requires HasHandle(a)
    ensures e.url == SITE + UsernameText(a) + "/" + a.handle.value
    ensures e.lastModified == a.updatedAt && e.changeFrequency == Weekly && e.priority == 1
  {
    SitemapEntry(SITE + UsernameText(a) + "/" + a.handle.value, a.updatedAt, Weekly, 1)
  }

  /** `articles.filter(a => a?.handle).map(...)`. */
  function SitemapEntries(rows: seq<SitemapRow>): seq<SitemapEntry> {
    if rows == [] then []
    else (if HasHandle(rows[0]) then [Entry(rows[0])] else []) + SitemapEntries(rows[1..])
  }

  /**
   * The sitemap is the handled rows, in their order, each turned into its
   * entry; its length is the number of rows with a handle.
   */
  lemma {:induction false} SitemapIsFilterMap(rows: seq<SitemapRow>)
    ensures var handled := Filter(rows, HasHandle);
      |SitemapEntries(rows)| == |handled| == Count(rows, HasHandle) &&
      forall k :: 0 <= k < |handled| ==> HasHandle(handled[k]) && SitemapEntries(rows)[k] == Entry(handled[k])
  {
    if rows != [] {
      SitemapIsFilterMap(rows[1..]);
      var handled := Filter(rows, HasHandle);
      var rest := Filter(rows[1..], HasHandle);
      assert handled == (if HasHandle(rows[0]) then [rows[0]] else []) + rest;
      forall k | 0 <= k < |handled| ensures HasHandle(handled[k]) {
        assert handled[k] in handled;
      }
    }
  }

  /** Every entry points at a handle of some row and carries the fixed frequency and priority. */
  lemma {:induction false} EntriesComeFromRows(rows: seq<SitemapRow>, e: SitemapEntry)
    requires e in SitemapEntries(rows)
    ensures exists a :: a in rows && HasHandle(a) && e == Entry(a)
    ensures e.changeFrequency == Weekly && e.priority == 1
  {
    if HasHandle(rows[0]) && e == Entry(rows[0]) {
    } else {
      EntriesComeFromRows(rows[1..], e);
    }
  }
}
