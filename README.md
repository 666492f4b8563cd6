# techdiary.dev core, modelled in Dafny

This project models the logic at the core of techdiary.dev, a blogging
platform built with Next.js. The model covers:

- the server actions over its tables: articles and their handles, the
  cleanup sweep, tags, bookmarks, reactions, the key-value store and users;
- the input schemas those actions validate against;
- the error classification they share;
- the markdown editor's text commands and image upload;
- the i18n lookup and placeholder substitution;
- the client-side state machines and optimistic cache patches: comment
  votes, reaction counts, the dashboard article list, the bookmark flag,
  the search combo box and cookie consent.

Each source file has a module of the same name:

- A table becomes a class holding a `seq` of rows. Its methods change the
  rows and state the new contents as a function of the old ones.
- Pure helpers become functions.
- Lemmas state the properties the code promises: round trips, toggle
  twice, upsert uniqueness, the set difference of the tag sync, and the
  selection arithmetic of the editor.

The boundaries of the model:

- The session user is an `Option<UserId>` parameter.
- The clock is an integer parameter (milliseconds).
- A database failure is an explicit parameter where the source catches it.
- The database itself is an in-memory table reached only through find,
  insert, update and delete.

Shared vocabulary lives in three modules:

- `Common`: options, resource kinds and identifiers.
- `JsStrings`: JavaScript string semantics. It covers `length` in UTF-16
  code units, ASCII lower-casing, `trim`, the index clamping of `substring`, `indexOf`, and `replace`
  with a string pattern, including its `$` substitution patterns.
- `Decimal`: decimal rendering of integers.

`Schema` is the validation vocabulary the input schemas are built from.

## Model

| member | source | states |
|---|---|---|
| Utils.KeepSlugChars | src/lib/utils.ts:102 | deleting the characters outside `[\w\s-]` leaves only word characters, whitespace and hyphens, all taken from the input |
| Utils.DropSeps | src/lib/utils.ts:103 | a maximal run of separators (whitespace, `_`, `-`) is consumed from the front |
| Utils.DropLeadingHyphens | src/lib/utils.ts:104 | the `^-+` alternative removes exactly the leading hyphens |
| Utils.DropTrailingHyphens | src/lib/utils.ts:104 | the `-+$` alternative removes exactly the trailing hyphens |
| Utils.Slugify | src/lib/utils.ts:99-105 | every slug holds only lower-case ASCII letters, digits and `-`, never starts or ends with `-` and never holds `--` |
| Utils.KeptAreSlugOrSep | src/lib/utils.ts:101-102 | after lower-casing and filtering, every character is a lower-case letter, a digit or a separator |
| Utils.CollapseShape | src/lib/utils.ts:103 | collapsing separator runs to one hyphen leaves no doubled hyphen, and a hyphen comes first exactly when a separator did |
| Utils.TrimShape | src/lib/utils.ts:104 | trimming hyphens from a collapsed string yields a slug |
| Utils.SlugFixpoint | src/lib/utils.ts:99-105 | a slug is returned unchanged |
| Utils.KeepAll | src/lib/utils.ts:102 | the character filter keeps a string made of allowed characters |
| Utils.CollapseFix | src/lib/utils.ts:103 | collapsing changes nothing in a string without separator runs other than single hyphens |
| Utils.SlugifyIdempotent | src/lib/utils.ts:99-105 | slugify applied to its own output returns that output |
| Utils.Alnums | src/lib/utils.ts:99-105 | the letters and digits of a string, in order, are all lower-case alphanumerics |
| Utils.AlnumsAppend | src/lib/utils.ts:99-105 | the letters and digits of a concatenation are those of the parts |
| Utils.AlnumsNone | src/lib/utils.ts:99-105 | a string without letters or digits contributes none |
| Utils.SlugifyKeepsAlnums | src/lib/utils.ts:99-105 | slugify keeps every ASCII letter and digit of the lower-cased input, in order, and deletes the rest (Bengali letters vanish) |
| Utils.TrimKeepsAlnums | src/lib/utils.ts:104 | trimming hyphens keeps the letters and digits |
| Utils.LeadingHyphensKeepAlnums | src/lib/utils.ts:104 | dropping leading hyphens keeps the letters and digits |
| Utils.TrailingHyphensKeepAlnums | src/lib/utils.ts:104 | dropping trailing hyphens keeps the letters and digits |
| Utils.KeepKeepsAlnums | src/lib/utils.ts:102 | the character filter keeps the letters and digits |
| Utils.CollapseKeepsAlnums | src/lib/utils.ts:103 | collapsing separators keeps the letters and digits |
| Utils.RemoveMarkers | src/lib/utils.ts:86 | `replace(/[@/]/g, "")` leaves no `@` and no `/` and never lengthens |
| Utils.RemoveMarkersChar | src/lib/utils.ts:86 | on a single character, a marker (`@` or `/`) vanishes and any other character stays |
| Utils.RemoveMarkersAppend | src/lib/utils.ts:86 | removal works part by part on a concatenation, so the kept characters stay in their order |
| Utils.RemoveMarkersCounts | src/lib/utils.ts:86 | every character other than a marker is kept exactly as often as it occurs |
| Utils.RemoveMarkersNone | src/lib/utils.ts:86 | a string without `@` or `/` is unchanged |
| Utils.SanitizedUsername | src/lib/utils.ts:81-88 | a name starting with `@` or `/@` becomes the lower-cased marker removal of the name, so it holds no `@` or `/`; any other name is only lower-cased, character by character |
| Utils.SanitizedUsernameIdempotent | src/lib/utils.ts:84-87 | on an already decoded segment, the marker removal and lower-casing change nothing when applied again |
| Utils.FilterUndefined | src/lib/utils.ts:117-123 | the filtered entries are no more than the input's |
| Utils.FilterUndefinedMembers | src/lib/utils.ts:117-123 | an entry survives exactly when it was in the object and its value is not `undefined` (`null` survives) |
| Utils.FilterUndefinedKeys | src/lib/utils.ts:117-123 | a key survives exactly when its value is not `undefined` |
| Utils.FilterUndefinedIdempotent | src/lib/utils.ts:117-123 | filtering twice equals filtering once |
| Utils.FilterUndefinedAppend | src/lib/utils.ts:117-123 | filtering distributes over concatenation of entry lists |
| Utils.DeleteKeyAppend | src/lib/utils.ts:111 | `delete` on a key acts on each part of an entry list |
| Utils.DeleteAbsentKey | src/lib/utils.ts:111 | deleting a missing key changes nothing |
| Utils.RemoveUndefinedFromObject | src/lib/utils.ts:107-115 | the `forEach` that deletes `undefined` keys from a copy ends with exactly the `filterUndefined` result; the input is not modified |
| Utils.RemovalStep | src/lib/utils.ts:109-113 | one loop step deletes the current key exactly when its value is `undefined` |
| Utils.LookupStep | src/lib/utils.ts:110 | in the copy the current key still holds its original value when the loop reaches it |
| Utils.KeyNotBefore | src/lib/utils.ts:109-113 | keys already handled differ from the current key |
| Utils.KeyNotAfter | src/lib/utils.ts:109-113 | keys not yet handled differ from the current key |
| Utils.DeleteStep | src/lib/utils.ts:111 | deleting a key present once removes exactly that entry |
| Utils.DropStep | src/lib/utils.ts:110-112 | an `undefined` entry contributes nothing to the filtered prefix |
| Utils.KeepStep | src/lib/utils.ts:110-112 | any other entry is kept in place |
| Utils.Lookup | src/lib/utils.ts:110 | `newObj[key]` finds a value exactly when the key is present, and the entry it finds is in the object |
| Utils.RemovePunctuation | src/lib/utils.ts:55 | no `.,!?;:` survives |
| Utils.DropWhitespace | src/lib/utils.ts:56 | a whitespace run is consumed from the front |
| Utils.WordCount | src/lib/utils.ts:56 | `split(/\s+/).length` is at least 1 |
| Utils.WordCountOfJoin | src/lib/utils.ts:56 | words joined by single spaces count as exactly that many words |
| Utils.JoinHead | src/lib/utils.ts:56 | a join starts with the first word's first character |
| Utils.NoRuns | src/lib/utils.ts:56 | a word without whitespace has no separator runs |
| Utils.NoRunsPrefix | src/lib/utils.ts:56 | a leading word adds no separator runs |
| Utils.ReadingTime | src/lib/utils.ts:53-59 | the minutes are `Math.round(words / 120)` over the punctuation-free text, and never negative |
| Utils.RoundByIntegers | src/lib/utils.ts:57 | `Math.round(w / 120)` equals `(w + 60) / 120` in integer division |
| Utils.ReadingTimeThresholds | src/lib/utils.ts:53-59 | under 60 words the reading time is 0, and from 60 up to 179 words it is 1 |
| Utils.SliceFromStart | src/lib/utils.ts:49 | `slice(0, n)` is a prefix of length n, or the whole list when n exceeds it |
| Utils.TruncateWords | src/lib/utils.ts:30-51 | a null or undefined markdown gives `undefined`, anything else a string |
| Utils.TruncateWordsBound | src/lib/utils.ts:47-50 | the truncated text has at most `words_count` space-separated pieces and is a prefix of the trimmed text |
| Utils.JoinSliceBound | src/lib/utils.ts:48-50 | joining the first n pieces yields at most n pieces and a prefix of the full join |
| Utils.JoinPrefix | src/lib/utils.ts:50 | joining a prefix of the pieces yields a prefix of the joined string |
| Utils.ActionPromisify | src/lib/utils.ts:126-163 | the promise resolves with the data exactly for a successful response; a falsy response, a failure (falling back to "Unknown error occurred"), a thrown `Error` and any other thrown value each reject with their own reason |
| Utils.ToastError | src/lib/utils.ts:169 | the error toast shows the reason, or "Operation failed" when the reason is empty |
| Utils.PromisifyClassifiedFailure | src/lib/utils.ts:146-149 | a failure built by the exception classifier is rejected with exactly its message, and its toast falls back only for an empty message |
| RepositoryException.ReduceIsLines | src/backend/services/RepositoryException.ts:50-54 | the `reduce` from any accumulator appends each message followed by a newline |
| RepositoryException.ZodErrorToStringLines | src/lib/utils.ts:24-28 | the identical fold in utils.ts: each message followed by `"\n"`, `""` for no issues, never shorter than the issue count |
| RepositoryException.LinesLength | src/backend/services/RepositoryException.ts:50-54 | every message adds at least its newline |
| RepositoryException.ZodErrorToStringAppend | src/backend/services/RepositoryException.ts:50-54 | the messages of two issue lists concatenate |
| RepositoryException.LinesAppend | src/backend/services/RepositoryException.ts:50-54 | newline-terminated lines concatenate |
| RepositoryException.HandleActionException | src/backend/services/RepositoryException.ts:3-37 | the result is always `success: false`; a validation error gives its joined issue messages, an `ActionException` or other `Error` its message, and anything else "An unknown error occurred" |
| RepositoryException.NewActionException | src/backend/services/RepositoryException.ts:39-43 | the message is the given one, or "Validation error" when none is given |
| RepositoryException.ActionExceptionRoundTrip | src/backend/services/RepositoryException.ts:17-23 | classifying a new `ActionException` yields the same text as its `toString`, which is the given message or the default |
| ArticleActions.FindById | src/backend/services/article.actions.ts:77-81 | the row found by id has that id and is in the table; no row means no row has that id |
| ArticleActions.MatchingHandlesMembers | src/backend/services/article.actions.ts:90-105 | every row whose handle is the slug or matches `slug-%`, other than the ignored article, is among the looked-up handles |
| ArticleActions.Take | src/backend/services/article.actions.ts:108-112 | a `limit` caps the looked-up handles to a prefix of at most that many; no limit returns them all |
| ArticleActions.SuffixOf | src/backend/services/article.actions.ts:131-136 | a handle yields a suffix number only when it starts with `slug-` |
| ArticleActions.SuffixOfSuffixed | src/backend/services/article.actions.ts:131-144 | the number read back from `slug-N` is N |
| ArticleActions.HighestSuffixIsMax | src/backend/services/article.actions.ts:129-141 | the loop's result is at least its start, exceeds every suffix number among the handles, and is either the start or one more than some handle's suffix |
| ArticleActions.SlugPatternLiteral | src/backend/services/article.actions.ts:91-96 | the `like` pattern built from a slug has no wildcard before its trailing `%` |
| ArticleActions.SuffixedRowMatches | src/backend/services/article.actions.ts:91-105 | a row whose handle is `slug-N` (and is not the ignored article) is among the looked-up handles |
| ArticleActions.BaseHandleCases | src/backend/services/article.actions.ts:76-127 | the slug itself is returned exactly when the ignored article already has it or it is not among the looked-up handles |
| ArticleActions.SuffixedAvoidsReturned | src/backend/services/article.actions.ts:129-144 | a suffixed handle differs from every looked-up handle and has a suffix of at least 1 |
| ArticleActions.AsWrittenAlwaysSuffixOne | src/backend/services/article.actions.ts:108-144 | with the one-row lookup the result is only ever the slug or `slug-1` |
| ArticleActions.AsWrittenDuplicatesHandle | src/backend/services/article.actions.ts:108-112 | for every slug `base`, with distinct handles `base` and `base-1` taken (for instance `t` and `t-1`), the one-row lookup returns `base-1`, a handle already taken |
| ArticleActions.AllRowsAvoidsDuplicate | src/backend/services/article.actions.ts:107-144 | with every matching row looked up, the same two-article table gets a handle neither article has |
| ArticleActions.FreshHandleAllRows | src/backend/services/article.actions.ts:107-144 | with every matching row looked up, no article other than the ignored one has the chosen handle |
| ArticleActions.ArticleStore.ChooseHandle | src/backend/services/article.actions.ts:114-144 | the `forEach` over the looked-up handles returns the slug or `slug-N` exactly as the handle rule prescribes |
| ArticleActions.ArticleStore.GetUniqueArticleHandle | src/backend/services/article.actions.ts:67-149 | the handle as written, with the one-row lookup: the slug of the title or `slug-1` |
| ArticleActions.ArticleStore.GetUniqueArticleHandleAllRows | src/backend/services/article.actions.ts:107-112 | the corrected lookup: in a table of unique handles, no article other than the ignored one already has the result |
| ArticleActions.TitleForHandle | src/backend/services/article.actions.ts:36 | the handle is derived from the trimmed title, or "Untitled Article" when that is empty; never from an empty string |
| ArticleActions.CreateFields | src/backend/services/article.actions.ts:27-58 | no session or an invalid input creates nothing; otherwise the new row has the session user as author, the given title, the non-empty handle the lookup chooses, `is_published` only when requested, `published_at` set to now exactly when published, and no deletion scheduled |
| ArticleActions.CreateHandleAsWritten | src/backend/services/article.actions.ts:33-39 | as written, the created article's handle is the slug of the trimmed title (or of "Untitled Article") or that slug followed by `-1` |
| ArticleActions.CreateKeepsIdsDistinct | src/backend/services/article.actions.ts:39-58 | inserting the created article keeps ids distinct, whichever handle lookup is used |
| ArticleActions.CreateDuplicatesHandle | src/backend/services/article.actions.ts:39-58 | as written, on a table holding `base` and `base-1`, an article whose title gives the slug `base` is created with `base-1`, and the table then holds that handle twice |
| ArticleActions.CreateKeepsTableValid | src/backend/services/article.actions.ts:39-58 | corrected: with every matching row looked up, inserting the created article keeps handles unique |
| ArticleActions.ArticleStore.CreateMyArticle | src/backend/services/article.actions.ts:23-65 | as written, with the handle from the one-row lookup: the table grows by exactly the created article, or is unchanged when nothing is created |
| ArticleActions.ArticleStore.CreateMyArticleCorrected | src/backend/services/article.actions.ts:23-65 | corrected, with the handle from the lookup over every matching row: the table grows by exactly the created article, or is unchanged when nothing is created |
| ArticleActions.Patched | src/backend/services/article.actions.ts:163-173 | an update never changes a row's id or author |
| ArticleActions.UpdateOwned | src/backend/services/article.actions.ts:163-173 | exactly the rows with the given id and the session user as author get the patch; every other row is unchanged |
| ArticleActions.FirstOwned | src/backend/services/article.actions.ts:195-201 | the row found is in the table and owned by the session user; none found means the user owns no row with that id |
| ArticleActions.UpdateOnlyOwned | src/backend/services/article.actions.ts:163-164 | rows not owned are kept, ids and authors never change, and distinct ids stay distinct |
| ArticleActions.EditFields | src/backend/services/article.actions.ts:165-172 | present fields overwrite the column and absent ones leave it; publication and deletion schedule are untouched |
| ArticleActions.ArticleStore.UpdateMyArticle | src/backend/services/article.actions.ts:151-186 | no session or an invalid input changes nothing; otherwise the owned row is patched and the tag pivot is synced exactly when `tag_ids` is given |
| ArticleActions.ScheduleOwnedOnly | src/backend/services/article.actions.ts:188-217 | the action is refused with "Unauthorized" exactly when there is no session or the user owns no such article; otherwise the returned row has deletion due seven days after now; restoring returns a row with no deletion due |
| ArticleActions.ArticleStore.ScheduleArticleDelete | src/backend/services/article.actions.ts:188-217 | the owned row gets `delete_scheduled_at` = now + 7 days; a refusal changes nothing |
| ArticleActions.ArticleStore.RestoreScheduleDeletedArticle | src/backend/services/article.actions.ts:219-247 | the owned row gets `delete_scheduled_at` = null; a refusal changes nothing |
| ArticleActions.RestoreUndoesSchedule | src/backend/services/article.actions.ts:203-208 | restoring after scheduling gives back the table when no deletion was scheduled before |
| ArticleActions.PublishSetsTimestamp | src/backend/services/article.actions.ts:618-627 | publishing sets `published_at` to now and unpublishing clears it; the handle and deletion schedule stay |
| ArticleActions.ArticleStore.SetArticlePublished | src/backend/services/article.actions.ts:612-638 | only owned rows change; the search index is synced on publish and cleared on unpublish, exactly when a row was updated |
| ArticleActions.CeilPages | src/backend/services/article.actions.ts:449 | for a positive limit the page count is the least number of pages holding all rows; `0 / 0` gives NaN (a zero limit with rows, `Infinity` in JavaScript, is never asked for) |
| ArticleActions.TagFeedMeta | src/backend/services/article.actions.ts:411-480 | the query fails exactly when limit or offset is negative; otherwise the total is the first row's window count (0 for no rows), and there is a previous page exactly when page > 1 and a next page exactly when page < total pages |
| ArticleActions.HasNextPageMeansMoreRows | src/backend/services/article.actions.ts:447-480 | for a positive limit there is a next page exactly when page × limit < total |
| ArticleActions.ZeroLimitNeverHasNext | src/backend/services/article.actions.ts:447-480 | with limit 0 no row comes back, the page count is NaN and there is never a next page |
| ArticleCleanup.ExpiredRows | src/backend/services/article-cleanup-service.ts:26-39 | the selected rows are rows of the table whose deletion time is set and earlier than now |
| ArticleCleanup.RemainingRows | src/backend/services/article-cleanup-service.ts:53-60 | every row kept by the delete is a row of the table that is not expired |
| ArticleCleanup.ReportTitle | src/backend/services/article-cleanup-service.ts:68 | a missing or empty title is reported as "Untitled"; a non-empty title as itself |
| ArticleCleanup.ReportAll | src/backend/services/article-cleanup-service.ts:66-71 | one report entry per expired row, in order |
| ArticleCleanup.SweepReport | src/backend/services/article-cleanup-service.ts:43-72 | the deleted count equals the number of expired rows and the length of the report; every reported deletion time is before now |
| ArticleCleanup.DeleteExpiredArticles | src/backend/services/article-cleanup-service.ts:21-77 | the result reports the expired rows and the table keeps exactly the unexpired ones |
| ArticleCleanup.NothingExpiredKeepsAll | src/backend/services/article-cleanup-service.ts:43-48 | when nothing has expired the table is left as it was |
| ArticleCleanup.SweepPartitions | src/backend/services/article-cleanup-service.ts:26-60 | the deleted and the kept rows together are exactly the table, as a multiset |
| ArticleCleanup.SweepKeepsUnexpired | src/backend/services/article-cleanup-service.ts:34-39 | a row is kept exactly when it is in the table with no deletion time or one not before now, and deleted exactly when expired |
| ArticleCleanup.SweepCountMatches | src/backend/services/article-cleanup-service.ts:43-65 | the deleted count is the number of rows the table lost; no expired rows gives the empty report |
| ArticleCleanup.NoneExpired | src/backend/services/article-cleanup-service.ts:43-48 | a table with no expired row gives an empty selection and is kept whole |
| ArticleCleanup.SweepIdempotent | src/backend/services/article-cleanup-service.ts:21-77 | a second sweep at the same time deletes nothing |
| ArticleCleanup.SetSchedule | src/backend/services/article-cleanup-service.ts:87-93 | rows with the given id get the deletion time and `updated_at` = now; every other row is unchanged |
| ArticleCleanup.ScheduleArticleForDeletion | src/backend/services/article-cleanup-service.ts:82-100 | the table becomes the rescheduled table |
| ArticleCleanup.CancelScheduledDeletion | src/backend/services/article-cleanup-service.ts:105-120 | the table becomes the table with that article's deletion time cleared |
| ArticleCleanup.SetScheduleOnlyThatId | src/backend/services/article-cleanup-service.ts:87-113 | only rows with that id change, and only in their deletion time and `updated_at` |
| ArticleCleanup.CancelledNeverSwept | src/backend/services/article-cleanup-service.ts:105-120 | an article whose deletion was cancelled is never deleted by a later sweep |
| ArticleCleanup.Scheduled | src/backend/services/article-cleanup-service.ts:127-136 | the scheduled listing never has more entries than the table has rows |
| ArticleCleanup.ScheduledMembers | src/backend/services/article-cleanup-service.ts:127-136 | an entry is listed exactly when some row with a deletion time projects to it |
| ArticleCleanup.InsertByDueKeeps | src/backend/services/article-cleanup-service.ts:137 | inserting into a list ordered by deletion time keeps it ordered and adds exactly the entry |
| ArticleCleanup.SortByDueKeeps | src/backend/services/article-cleanup-service.ts:137 | the ordering is sorted by deletion time and a permutation of its input |
| ArticleCleanup.ScheduledListing | src/backend/services/article-cleanup-service.ts:125-142 | the listing is sorted by deletion time, a permutation of the scheduled rows, and holds exactly the projections of rows with a deletion time |
| SqlLike.LikeAnything | src/backend/services/tag.action.ts:14-18 | the pattern `%` matches every string |
| SqlLike.LikeLiteralPrefix | src/backend/services/article.actions.ts:91-96 | a pattern starting with a wildcard-free text matches exactly the strings that start with that text and whose rest matches the remainder |
| SqlLike.LikePrefix | src/backend/services/article.actions.ts:91-96 | `text%` matches exactly the strings starting with a wildcard-free text |
| SqlLike.LikeLeadingPercent | src/backend/services/tag.action.ts:16 | a leading `%` matches exactly when some suffix of the string matches the rest of the pattern |
| SqlLike.LikeContains | src/backend/services/tag.action.ts:16 | `%term%` matches exactly the strings containing a wildcard-free term |
| SqlLike.OccurrenceMatches | src/backend/services/tag.action.ts:16 | an occurrence of the term at position k makes the suffix from k match `term%` |
| SqlLike.MatchOccurs | src/backend/services/tag.action.ts:16 | a suffix from k matching `term%` is an occurrence of the term at k |
| Tags.AttachedTagIds | src/backend/services/tag.action.ts:76-79 | a tag id is listed exactly when the pivot links it to the article |
| Tags.TagsToRemove | src/backend/services/tag.action.ts:85-87 | exactly the attached tags that are not requested |
| Tags.TagsToAdd | src/backend/services/tag.action.ts:88-90 | exactly the requested tags that are not attached, each as often as it is requested |
| Tags.Links | src/backend/services/tag.action.ts:93-98 | one pivot row per tag to add, in order, each for the article |
| Tags.DeleteLinks | src/backend/services/tag.action.ts:101-106 | the delete never adds rows |
| Tags.ArticleTagStore.SyncTagsWithArticles | src/backend/services/tag.action.ts:68-110 | the pivot becomes the synced pivot |
| Tags.DeleteLinksAppend | src/backend/services/tag.action.ts:101-106 | the delete distributes over concatenated tables |
| Tags.DeleteLinksNone | src/backend/services/tag.action.ts:101-106 | a delete that selects no row leaves the pivot as it was, so the delete with nothing to remove is harmless |
| Tags.DeleteLinksMembers | src/backend/services/tag.action.ts:101-106 | a row survives exactly when it is not a link of the article to a removed tag |
| Tags.SyncedRowsShape | src/backend/services/tag.action.ts:92-106 | the synced pivot is the old pivot without the removed links, followed by the new links |
| Tags.SyncAttachesRequested | src/backend/services/tag.action.ts:76-106 | after the sync the article is linked to exactly the requested tags |
| Tags.SyncLeavesOtherArticles | src/backend/services/tag.action.ts:101-106 | rows of other articles are kept, with the same multiplicity |
| Tags.DeleteLinksCount | src/backend/services/tag.action.ts:101-106 | a row the delete does not select keeps its multiplicity |
| Tags.SyncLinkCounts | src/backend/services/tag.action.ts:88-106 | a tag attached before and requested keeps its links; a newly requested tag gets one link per time it is requested, so a duplicate is inserted twice |
| Tags.LinksCount | src/backend/services/tag.action.ts:93-98 | the number of links to a tag is the number of times it is requested |
| Tags.SyncIdempotent | src/backend/services/tag.action.ts:68-110 | syncing twice with the same tags is the same as syncing once |
| Tags.NothingToRemove | src/backend/services/tag.action.ts:85-87 | when every attached tag is requested nothing is removed |
| Tags.NothingToAdd | src/backend/services/tag.action.ts:88-92 | when every requested tag is attached nothing is inserted |
| Tags.GetTags | src/backend/services/tag.action.ts:9-26 | without a search term (or an empty one) every tag is returned; otherwise only tags of the table |
| Tags.GetTagsContains | src/backend/services/tag.action.ts:14-18 | for a term without wildcards, exactly the tags whose name contains the lower-cased term |
| BookmarkInput.ParseResourceRef | src/backend/services/inputs/bookmark.input.ts:4-7 | accepted exactly when `resource_id` is a string and `resource_type` is ARTICLE or COMMENT; the parsed values are the given ones |
| BookmarkInput.PagingRanges | src/backend/services/inputs/bookmark.input.ts:8-12 | a parsed paging input has 1 ≤ limit ≤ 100, offset ≥ 0 and page ≥ 1, and the empty object gives limit 2, offset 0, page 1 |
| BookmarkInput.PagingBounds | src/backend/services/inputs/bookmark.input.ts:8-12 | a given limit, offset or page is accepted exactly inside its range |
| BookmarkInput.PagingOnlyIsNoResource | src/backend/services/bookmark.action.ts:66-67 | a paging-only object is rejected by the toggle schema that `myBookmarks` parses with |
| Bookmarks.DeleteMatching | src/backend/services/bookmark.action.ts:33-39 | the delete never lengthens the table |
| Bookmarks.DeleteMatchingClears | src/backend/services/bookmark.action.ts:33-39 | after the delete the caller has no bookmark left on the resource |
| Bookmarks.BookmarkStore.Toggle | src/backend/services/bookmark.action.ts:22-52 | the table becomes the toggled table and the result is true exactly when there was no bookmark |
| Bookmarks.BookmarkStore.ToggleResourceBookmark | src/backend/services/bookmark.action.ts:10-56 | no session or an invalid input changes nothing and returns nothing; otherwise the toggle, stamped with now |
| Bookmarks.BookmarkStore.MyBookmarks | src/backend/services/bookmark.action.ts:58-103 | the same toggle validated by the toggle schema, with no creation time |
| Bookmarks.BookmarkStore.BookmarkStatus | src/backend/services/bookmark.action.ts:109-136 | reports whether the user has bookmarked the resource, and changes nothing |
| Bookmarks.DeleteMatchingKeeps | src/backend/services/bookmark.action.ts:33-39 | a row survives the delete exactly when it is in the table and does not match |
| Bookmarks.DeleteMatchingNone | src/backend/services/bookmark.action.ts:43-52 | with no matching row the delete leaves the table unchanged |
| Bookmarks.ToggleFlips | src/backend/services/bookmark.action.ts:22-52 | after a toggle the user has the bookmark exactly when they did not before |
| Bookmarks.ToggleLeavesOthers | src/backend/services/bookmark.action.ts:22-52 | rows of other users or resources are kept, and at most one row is added |
| Bookmarks.ToggleTwiceRestores | src/backend/services/bookmark.action.ts:22-52 | toggling twice from unbookmarked restores the table |
| Bookmarks.ToggleTwiceFromBookmarked | src/backend/services/bookmark.action.ts:22-52 | toggling twice from bookmarked leaves one fresh bookmark at the end of the table |
| Bookmarks.DeleteMatchingAppend | src/backend/services/bookmark.action.ts:33-39 | the delete distributes over concatenated tables |
| Reactions.ReactionTypeEnum | src/backend/services/inputs/reaction.input.ts:7 | accepted values are exactly the six reaction names, and the parsed kind has the given name |
| Reactions.ParseToggleInput | src/backend/services/inputs/reaction.input.ts:4-8 | accepted exactly when `resource_id` is a string and both enums are valid |
| Reactions.DeleteMatching | src/backend/services/reaction.actions.ts:34-42 | the delete keeps only rows of the table that are not this user's reaction on the resource |
| Reactions.ReactionStore.ToogleReaction | src/backend/services/reaction.actions.ts:13-67 | no session or an invalid input changes nothing and answers nothing; otherwise the table is toggled and the answer is the toggle's answer |
| Reactions.ToggleOutcome | src/backend/services/reaction.actions.ts:25-63 | an existing reaction of any kind is removed and the answer says not reacted with the resource type in `reaction_type`; otherwise one row without a kind is appended and the answer carries the requested kind |
| Reactions.ToggleReportsNewState | src/backend/services/reaction.actions.ts:43-63 | the answer's `reacted` is whether the user has a reaction afterwards |
| Reactions.ToggleIgnoresReactionKind | src/backend/services/reaction.actions.ts:25-58 | the requested kind plays no part in the change to the table |
| Reactions.DeleteMatchingSameKey | src/backend/services/reaction.actions.ts:34-42 | the delete depends only on the resource and the user |
| Reactions.ToggleLeavesOthers | src/backend/services/reaction.actions.ts:25-58 | rows of other users or resources are kept exactly |
| Reactions.DeleteMatchingKeeps | src/backend/services/reaction.actions.ts:34-42 | a row survives exactly when it is in the table and is not this user's reaction on the resource |
| Reactions.SummarizeReactions | src/backend/services/reaction.actions.ts:96-102 | one summary per grouped row |
| Reactions.SummaryFaithful | src/backend/services/reaction.actions.ts:96-102 | each summary keeps its group's kind and count, in order, and is marked reacted exactly when the session user is among its reactors |
| Kv.Wrap | src/backend/services/kv.action.ts:21 | every stored value is an object |
| Kv.Lookup | src/backend/services/kv.action.ts:58-66 | a stored value is found exactly when some row has the key |
| Kv.UpdateKey | src/backend/services/kv.action.ts:24-44 | rows with the key get the new value; the rest are unchanged |
| Kv.DeleteKey | src/backend/services/kv.action.ts:91-100 | the rows kept are exactly those with another key |
| Kv.Keys | src/backend/services/kv.action.ts:127-140 | the listed keys are the rows' keys, in order |
| Kv.KvStore.Set | src/backend/services/kv.action.ts:15-50 | succeeds exactly without a database error, and then the table is the upserted table; a failure changes nothing |
| Kv.KvStore.Get | src/backend/services/kv.action.ts:58-83 | a database error reads as null; otherwise the stored value, unwrapped, or null |
| Kv.KvStore.Del | src/backend/services/kv.action.ts:91-100 | succeeds exactly without a database error, and then every row with the key is gone |
| Kv.KvStore.Exists | src/backend/services/kv.action.ts:108-120 | true exactly when there is no error and some row has the key |
| Kv.KvStore.AllKeys | src/backend/services/kv.action.ts:127-140 | the list of keys, or the failure carrying the error message |
| Kv.SetGetRoundTrip | src/backend/services/kv.action.ts:15-83 | reading a key just set to a string returns that string |
| Kv.LookupUpdated | src/backend/services/kv.action.ts:24-44 | after updating an existing key the lookup finds the new value |
| Kv.LookupAppended | src/backend/services/kv.action.ts:24-44 | after inserting a missing key the lookup finds the new value |
| Kv.LookupAfterUpsert | src/backend/services/kv.action.ts:24-44 | after an upsert the lookup finds the wrapped value |
| Kv.UpsertOneEntry | src/backend/services/kv.action.ts:24-44 | an upsert leaves exactly one row for its key and does not change the count of any other key |
| Kv.EntriesUpdate | src/backend/services/kv.action.ts:24-44 | an update does not change how many rows any key has |
| Kv.EntriesAppend | src/backend/services/kv.action.ts:24-44 | an insert adds one row for its own key only |
| Kv.EntriesPositive | src/backend/services/kv.action.ts:58-66 | a found key has at least one row |
| Kv.EntriesZero | src/backend/services/kv.action.ts:58-66 | a missing key has no row |
| Kv.UnwrapCases | src/backend/services/kv.action.ts:68-79 | an object whose only key is `data` is unwrapped; any other object is returned whole |
| Kv.GetMissingIsNull | src/backend/services/kv.action.ts:66 | a key with no row reads as null |
| Kv.DelThenNotExists | src/backend/services/kv.action.ts:91-120 | after a delete no row has the key, every other row is kept, and the key reads as null |
| Users.NewestWithEmail | src/backend/services/user.action.ts:26-31 | nothing is found exactly when no user has the e-mail; otherwise a user with it that is at least as new as every other |
| Users.FindSocial | src/backend/services/user.action.ts:48-55 | nothing is found exactly when no link matches service and uid; otherwise a matching link |
| Users.UpdateProfileRows | src/backend/services/user.action.ts:96-112 | the session user's rows get the profile patch; every other row is unchanged |
| Users.FirstWithId | src/backend/services/user.action.ts:114 | the row returned has the id; none means no user has it |
| Users.UserStore.BootSocialUser | src/backend/services/user.action.ts:21-74 | invalid input, or an insert whose id is taken, changes nothing and returns nothing; otherwise the user is found or inserted, the GitHub link is added when missing, and the answer carries the link found before any insert |
| Users.UserStore.UpdateMyProfile | src/backend/services/user.action.ts:83-118 | no session or an invalid input changes nothing; otherwise the session user's row is patched and returned; links are never touched |
| Users.BootCreatesOrReuses | src/backend/services/user.action.ts:26-45 | an existing e-mail reuses the newest such user and inserts nothing; otherwise one user with the input's fields, `bio` defaulting to empty, is appended |
| Users.BootUserHasEmail | src/backend/services/user.action.ts:26-45 | the settled user has the input's e-mail and is in the table afterwards |
| Users.BootLinksUser | src/backend/services/user.action.ts:48-65 | after the boot a link for the uid exists, appended for the settled user only when missing |
| Users.BootIdempotent | src/backend/services/user.action.ts:21-74 | repeating the boot adds no user and no link |
| Users.UpdateOnlySessionUser | src/backend/services/user.action.ts:96-99 | only the session user's row changes, and ids never change |
| Users.ApplyProfileLaws | src/backend/services/user.action.ts:96-112 | an empty profile input changes nothing, and applying the same input twice equals once |
| Users.PatchCases | src/backend/services/user.action.ts:96-112 | `null` clears a column, an absent field keeps it, and a given value replaces it |
| Users.InsertByCreatedPerm | src/backend/services/user.action.ts:192-210 | inserting into the listing adds exactly the user |
| Users.InsertByCreatedKeeps | src/backend/services/user.action.ts:192-210 | inserting into a newest-first listing keeps it newest first |
| Users.SortByNewestKeeps | src/backend/services/user.action.ts:192-210 | the ordering is newest first and a permutation of its input |
| Users.GetUsers | src/backend/services/user.action.ts:192-210 | with `limit` defaulting to 10, the promise rejects exactly when the query fails, which can only happen for a negative limit the repository package refuses; the un-awaited query escapes the `catch`, so `null` is never returned |
| Users.GetUsersListing | src/backend/services/user.action.ts:192-210 | a resolved listing has min(limit, users) entries (limit 10 when not given; every user for a negative limit read as "all"), newest first, and is a sub-multiset of the users; no user left out is newer than a listed one, and every user is listed when the limit allows |
| Users.NewestPrefix | src/backend/services/user.action.ts:195-196 | a prefix of a newest-first listing is newest first and a sub-multiset of it, and no user it leaves out is newer than one it keeps |
| Users.GetUsersIgnoresPage | src/backend/services/user.action.ts:192-210 | the page argument does not change the result |
| Users.GetUsersDefaults | src/backend/services/user.action.ts:192 | without arguments the action behaves as with page 1 and limit 10, resolves, and lists at most ten users |
| UserInput.SocialField | src/backend/services/inputs/user.input.ts:37-84 | an absent field is absent; a string is accepted exactly when it is URL-shaped and matches the network's profile pattern, and is kept as given |
| UserInput.NullishText | src/backend/services/inputs/user.input.ts:19-34 | `undefined`, `null` and strings are accepted, strings as given |
| UserInput.NullishUrl | src/backend/services/inputs/user.input.ts:19-34 | a given URL has the URL shape |
| UserInput.EmailString | src/backend/services/inputs/user.input.ts:4-18 | accepted exactly when the string has the e-mail shape, and kept as given |
| UserInput.OptionalEmail | src/backend/services/inputs/user.input.ts:19-34 | a given e-mail has the e-mail shape |
| UserInput.DiffersAt | src/backend/services/inputs/user.input.ts:37-84 | a string that differs from a prefix at some position does not start with it |
| UserInput.StripWwwOf | src/backend/services/inputs/user.input.ts:37-84 | the optional `www.` is stripped exactly when present before a host not starting with w |
| UserInput.AfterScheme | src/backend/services/inputs/user.input.ts:37-84 | after `https://` and a plain host nothing is stripped |
| UserInput.ProfileUrlAccepted | src/backend/services/inputs/user.input.ts:37-84 | every URL built from `https://`, an optional `www.`, the host path, a non-empty name of allowed characters and an optional slash is accepted |
| UserInput.ProfileUrlShape | src/backend/services/inputs/user.input.ts:37-84 | every accepted URL is built that way |
| UserInput.SplitProfile | src/backend/services/inputs/user.input.ts:37-84 | a URL cut into its parts is rebuilt from them |
| UserInput.NameTailRejects | src/backend/services/inputs/user.input.ts:37-84 | a character outside the alphabet, other than the trailing slash, rejects the name |
| UserInput.BadNameRefused | src/backend/services/inputs/user.input.ts:37-84 | a name with a disallowed character is refused |
| UserInput.OtherHostRefused | src/backend/services/inputs/user.input.ts:37-84 | a URL for one host is refused by the pattern of another |
| UserInput.XHandleHasNoHyphen | src/backend/services/inputs/user.input.ts:44-53 | an X or Twitter handle with a hyphen is refused |
| UserInput.HyphenAllowedOnGithub | src/backend/services/inputs/user.input.ts:37-60 | GitHub and LinkedIn names may contain hyphens |
| UserInput.YoutubeNeedsPath | src/backend/services/inputs/user.input.ts:75-84 | a YouTube URL without the `c/`, `channel/` or `user/` path is refused |
| UserInput.NoPathSlash | src/backend/services/inputs/user.input.ts:75-84 | a name of word characters never contains the path's slash |
| UserInput.ProfileIsUrl | src/backend/services/inputs/user.input.ts:37-84 | every URL a profile pattern accepts also has the URL shape |
| UserInput.ProfileAllOptional | src/backend/services/inputs/user.input.ts:19-89 | the empty object is a valid profile input that changes nothing, and empty social links are all absent |
| UserInput.SyncRequiredFields | src/backend/services/inputs/user.input.ts:4-18 | a valid sync input has service `github`, a uid, name, username and an e-mail of the right shape; any other service is refused |
| CommentInput.ParseCreate | src/backend/services/inputs/comment.input.ts:4-8 | accepted exactly when `resource_id` is UUID-shaped, `resource_type` is ARTICLE or COMMENT and the body is a string of 1 to 500 UTF-16 code units |
| CommentInput.ParseUpdate | src/backend/services/inputs/comment.input.ts:9-12 | accepted exactly when `id` is UUID-shaped and the body is a string of 1 to 500 UTF-16 code units |
| CommentInput.ParseDelete | src/backend/services/inputs/comment.input.ts:13-15 | accepted exactly when `id` is UUID-shaped |
| CommentInput.CreateAccepted | src/backend/services/inputs/comment.input.ts:4-8 | an accepted comment keeps the given resource id, type and body, within the bounds |
| CommentInput.BodyBounds | src/backend/services/inputs/comment.input.ts:7 | a body is accepted exactly when its length is 1 to 500 UTF-16 code units, which inside the Basic Multilingual Plane is 1 to 500 characters; the empty body and a body of 300 emoji (600 code units) are refused |
| CommentInput.UpdateAndDeleteNeedIds | src/backend/services/inputs/comment.input.ts:9-15 | an update needs a UUID-shaped id and a bounded body, a delete only the id, so every valid update is also a valid delete |
| SeriesInput.ParseSeriesFeed | src/backend/services/inputs/series.input.ts:4-7 | accepted exactly when both page and limit are numbers from 1 to 100, kept as given |
| SeriesInput.SeriesBounds | src/backend/services/inputs/series.input.ts:5-6 | there are no defaults: a missing field is refused; 0 and 101 are refused; 1 and 100 are accepted |
| Sitemap.Entry | src/app/sitemaps/articles/sitemap.tsx:33-38 | the entry's URL is the site, the username (`undefined` when missing) and the handle; it takes `updated_at`, weekly frequency and priority 1 |
| Sitemap.SitemapIsFilterMap | src/app/sitemaps/articles/sitemap.tsx:25-39 | the sitemap has one entry per row with a non-empty handle, in row order, each that row's entry |
| Sitemap.EntriesComeFromRows | src/app/sitemaps/articles/sitemap.tsx:25-39 | every entry comes from a row with a handle and is weekly with priority 1 |
| I18n.Lookup | src/i18n/use-translation.ts:13 | in Bengali, a key with a non-empty entry translates to that entry; in any other case the translation is the key itself |
| I18n.Substitute | src/i18n/use-translation.ts:15-19 | the loop replacing the first `$` by each value in turn yields the substitution of all values |
| I18n.ShowAll | src/i18n/use-translation.ts:16-18 | each value shown as text, in order |
| I18n.NoDollarIndex | src/i18n/use-translation.ts:17 | a text without `$` has no index for it |
| I18n.NoDollarUnchanged | src/i18n/use-translation.ts:15-19 | a text without `$` is left unchanged by any values |
| I18n.LeftmostFirst | src/i18n/use-translation.ts:17 | a replacement fills the leftmost `$` |
| I18n.DollarAbsent | src/i18n/use-translation.ts:17 | no index for `$` means the text has none |
| I18n.FirstDollar | src/i18n/use-translation.ts:17 | a text with a `$` splits at its first one |
| I18n.PrefixUntouched | src/i18n/use-translation.ts:17 | a prefix without `$` is not touched by a replacement |
| I18n.PrefixUntouchedAll | src/i18n/use-translation.ts:15-19 | a prefix without `$` is not touched by the whole substitution |
| I18n.FillsLeftToRight | src/i18n/use-translation.ts:15-19 | placeholders are filled left to right, one value each; extra values are ignored and extra `$` remain |
| I18n.NumberHasNoDollar | src/i18n/use-translation.ts:17 | a number shown as text has no `$` |
| I18n.EnglishIsKey | src/i18n/use-translation.ts:5-13 | English has no dictionary, so every key translates to itself |
| UseTranslation.ToggledLang | src/i18n/use-translation.ts:24-27 | English toggles to Bengali and anything else to English |
| UseTranslation.EffectiveLang | src/i18n/use-translation.ts:13 | an empty language reads as English; any other is kept |
| UseTranslation.Translator.T | src/i18n/use-translation.ts:12-22 | the translation is the lookup in the effective language with the values substituted |
| UseTranslation.Translator.Toggle | src/i18n/use-translation.ts:24-27 | the language becomes the toggled one, which is also what is stored |
| UseTranslation.ToggleTwice | src/i18n/use-translation.ts:24-27 | toggling English or Bengali twice gives it back; any other language goes to English, then Bengali |
| UseTranslation.NoValuesIsLookup | src/i18n/use-translation.ts:13-21 | without values the translation is the plain lookup, which for English is the key |
| ServerTranslation.GetLang | src/i18n/_t.ts:24-27 | a missing or empty cookie means English; otherwise the cookie's value |
| ServerTranslation.T | src/i18n/_t.ts:10-22 | the lookup in the cookie's language with the values substituted |
| ServerTranslation.AgreesWithClient | src/i18n/_t.ts:10-22 | the server translates like the client set to the cookie's language, since both share one lookup and substitution; a non-Bengali cookie, or a key missing or empty in the catalogue, translates as the key with the values filled in |
| MarkdownEditorProvider.ImageMarkdown | src/components/Editor/MarkdownEditorProvider.tsx:54 | the image markdown is the alt text and URL plus exactly five syntax characters |
| MarkdownEditorProvider.EditorProvider.constructor | src/components/Editor/MarkdownEditorProvider.tsx:40-42 | the provider starts with the given text, the caret at 0 and the uploader closed |
| MarkdownEditorProvider.EditorProvider.OpenImageUploader | src/components/Editor/MarkdownEditorProvider.tsx:44-47 | the uploader opens and remembers the cursor position; the text and selection stay |
| MarkdownEditorProvider.EditorProvider.InsertImageAtPosition | src/components/Editor/MarkdownEditorProvider.tsx:49-68 | the image markdown is spliced in at the position; the caret moves right after it only when the provider's own `textareaRef` is attached, and otherwise the selection stays |
| MarkdownEditorProvider.EditorProvider.HandleImageUploadComplete | src/components/Editor/MarkdownEditorProvider.tsx:70-77 | the uploaded image goes in at the remembered position and the uploader closes; the caret follows the image only when the provider's `textareaRef` is attached |
| MarkdownEditorProvider.UseMarkdownEditorContext | src/components/Editor/MarkdownEditorProvider.tsx:109-117 | outside a provider the hook throws its message; inside it returns the provider's context |
| MarkdownEditorProvider.InsertKeepsText | src/components/Editor/MarkdownEditorProvider.tsx:55-56 | for a position inside the text, the text before and after the position is kept around the inserted markdown |
| MarkdownEditorProvider.InsertClamps | src/components/Editor/MarkdownEditorProvider.tsx:55-56 | a position before the start inserts at the start and one past the end appends |
| MarkdownEditor.ExecuteCommand | src/components/Editor/useMarkdownEditor.ts:124-190 | unmounted, nothing changes; `upload-image` opens the uploader at the selection start; any other command replaces the selection with its markdown when a change handler is given, and moves the caret to the command's position |
| MarkdownEditor.KeyCommand | src/components/Editor/useMarkdownEditor.ts:193-234 | a shortcut fires only while the editor has focus and Cmd (Mac) or Ctrl (elsewhere) is held |
| MarkdownEditor.HandleDirectImageUpload | src/components/Editor/useMarkdownEditor.ts:33-109 | without an image file nothing changes; otherwise the placeholder goes in at the position, and its first occurrence is replaced by the uploaded image or the failure marker; the caret moves past the placeholder only when the provider's `textareaRef` is attached |
| MarkdownEditor.CommandKeepsContext | src/components/Editor/useMarkdownEditor.ts:136-170 | a text command keeps the text before and after the selection and puts its markdown in between |
| MarkdownEditor.CommandCarets | src/components/Editor/useMarkdownEditor.ts:136-187 | heading leaves the caret after the selection plus 3, bold plus 4 (2 on an empty selection), italic plus 2 (1), link plus 7 (16), and code at the start |
| MarkdownEditor.EmptyBoldCaretBetweenMarkers | src/components/Editor/useMarkdownEditor.ts:144-160 | on an empty selection bold and italic leave the caret between their markers |
| MarkdownEditor.ShortcutMap | src/components/Editor/useMarkdownEditor.ts:200-230 | b, i, h, k and u in either case map to bold, italic, heading, link and upload-image; the wrong modifier or another key does nothing |
| MarkdownEditor.PlaceholderMatches | src/components/Editor/useMarkdownEditor.ts:41-46 | the placeholder inserted is exactly the text later searched for |
| MarkdownEditor.PlaceholderBang | src/components/Editor/useMarkdownEditor.ts:41-46 | the placeholder's `!` appears only at its start |
| MarkdownEditor.UploadReplacesOwnPlaceholder | src/components/Editor/useMarkdownEditor.ts:41-79 | when the text before the position holds no placeholder, the result lands exactly at the position and the rest of the text is kept |
| MarkdownEditor.UploadOutcomes | src/components/Editor/useMarkdownEditor.ts:59-106 | a first non-empty key gives the uploaded image; no key, a failure answer or a thrown error gives the failure marker |
| ReadmeForm.ReadmeEditor.constructor | src/app/dashboard/settings/_components/ReadmeForm.tsx:68-104 | the editor starts with the given text and a valid selection |
| ReadmeForm.ReadmeEditor.ExecuteCommand | src/app/dashboard/settings/_components/ReadmeForm.tsx:68-104 | unmounted or unknown commands change nothing; heading, bold and italic wrap the selection in their markers and shift both selection ends by the opening marker; the selection stays within the text |
| ReadmeForm.Marker | src/app/dashboard/settings/_components/ReadmeForm.tsx:81-97 | exactly heading, bold and italic have markers |
| ReadmeForm.WrapKeepsSelection | src/app/dashboard/settings/_components/ReadmeForm.tsx:75-104 | the text before the selection, the opening marker, the selected text and the closing marker appear in order, and the shifted selection covers the original selected text |
| ReadmeForm.WrapGrowth | src/app/dashboard/settings/_components/ReadmeForm.tsx:81-95 | heading adds 3 characters, bold 4 and italic 2 |
| CommentSection.CommentItem.constructor | src/components/comment-section.tsx:225-230 | a comment item starts with the comment's score, no vote, expanded, with the reply box closed and empty |
| CommentSection.CommentItem.HandleVoteAsWritten | src/components/comment-section.tsx:232-249 | as written: clicking the current vote clears it; the score is recomputed from the comment's score, undoing the previous vote and applying the new one |
| CommentSection.CommentItem.HandleVote | src/components/comment-section.tsx:232-249 | corrected: the displayed score always equals the comment's score plus the weight of the current vote |
| CommentSection.CommentItem.HandleReply | src/components/comment-section.tsx:251-258 | a reply whose trimmed content is non-empty is sent once with the parent id, content and attachments, and the box is cleared and closed; otherwise nothing changes |
| CommentSection.CommentItem.ToggleCollapsed | src/components/comment-section.tsx:266-267 | collapsing flips and nothing else changes |
| CommentSection.CommentItem.HiddenNote | src/components/comment-section.tsx:379-384 | the hidden-replies note shows exactly when the item is collapsed and has replies |
| CommentSection.VoteTransitions | src/components/comment-section.tsx:232-249 | from no vote, up gives +1 and down −1; clicking the same vote again gives back the comment's score; switching gives the comment's score moved by the new vote alone |
| CommentSection.AsWrittenSwitchDoubleCounts | src/components/comment-section.tsx:239-247 | as written, switching up to down shows the comment's score −2 and down to up +2, which differs from the corrected score |
| CommentSection.AsWrittenAgreesWithoutSwitch | src/components/comment-section.tsx:232-249 | without a switch the code as written and the corrected handler agree |
| CommentSection.SameVoteTwice | src/components/comment-section.tsx:232-235 | clicking the same vote twice returns to the vote before, and from no vote to the comment's score |
| CommentSection.IndentLevel | src/components/comment-section.tsx:260 | the indent is depth × 12 up to depth 8 and 96 beyond |
| CommentSection.IndentMonotone | src/components/comment-section.tsx:260 | deeper comments are never indented less |
| CommentSection.CollapsedLabelWords | src/components/comment-section.tsx:379-384 | the label shows the reply count, which reads back as the count, then "reply" for exactly one and "replies" otherwise |
| CommentSection.MaxDepth | src/components/comment-section.tsx:23-165 | the deepest depth is at least the starting depth |
| CommentSection.MaxDepthLeaf | src/components/comment-section.tsx:23-165 | a comment without replies contributes only its own depth |
| CommentSection.MaxDepthSingle | src/components/comment-section.tsx:23-165 | a single comment contributes its depth and its replies' depths |
| CommentSection.LayeredSingle | src/components/comment-section.tsx:23-165 | a single comment is layered exactly when it has the expected depth and its replies are one deeper |
| CommentSection.SampleTreeLayout | src/components/comment-section.tsx:23-165 | in the sample thread every reply is one deeper than its parent and the deepest comment has depth 3 |
| ResourceReactionable.FindIndex | src/components/render-props/ResourceReactionable.tsx:64 | the index is −1 or in range; a found entry has the type and no earlier entry has it; −1 means no entry has it |
| ResourceReactionable.FoundIffEntry | src/components/render-props/ResourceReactionable.tsx:64 | the index is found exactly when an entry for the type exists |
| ResourceReactionable.PatchInPlace | src/components/render-props/ResourceReactionable.tsx:61-74 | the array becomes the toggled list |
| ResourceReactionable.ToggledEntry | src/components/render-props/ResourceReactionable.tsx:64-72 | the entry for the type flips `is_reacted` and moves its count by one in that direction; all other entries and the length stay |
| ResourceReactionable.ToggleTwice | src/components/render-props/ResourceReactionable.tsx:65-72 | toggling the same type twice restores the list |
| ResourceReactionable.FindIndexSameTypes | src/components/render-props/ResourceReactionable.tsx:64 | the search depends only on the entries' types |
| ResourceReactionable.ToggledDiffers | src/components/render-props/ResourceReactionable.tsx:65-72 | a toggle always changes the list |
| ResourceReactionable.GetReaction | src/components/render-props/ResourceReactionable.tsx:95-97 | an entry is found exactly when data is present and has the type, and it is the first such entry |
| ResourceReactionable.Rendered | src/components/render-props/ResourceReactionable.tsx:99-108 | the reactions rendered are the data, or the empty list when there is none |
| ResourceReactionable.ReactionCache.constructor | src/components/render-props/ResourceReactionable.tsx:40-89 | the cache starts with the given data and the login popup closed |
| ResourceReactionable.ReactionCache.OnMutateAsWritten | src/components/render-props/ResourceReactionable.tsx:47-77 | signed out only the login popup opens; signed in the context holds the same array, which is patched in place |
| ResourceReactionable.ReactionCache.OnErrorAsWritten | src/components/render-props/ResourceReactionable.tsx:78-83 | the cache is set to the context's snapshot when there is one |
| ResourceReactionable.ReactionCache.FailedToggleAsWritten | src/components/render-props/ResourceReactionable.tsx:47-83 | as written, a failed toggle leaves the patched list in the cache, different from the list before |
| ResourceReactionable.ReactionCache.OnMutate | src/components/render-props/ResourceReactionable.tsx:55-74 | corrected: the context holds a copy of the list before the patch |
| ResourceReactionable.ReactionCache.OnError | src/components/render-props/ResourceReactionable.tsx:78-83 | corrected: the cache gets a new array holding the snapshot |
| ResourceReactionable.ReactionCache.FailedToggle | src/components/render-props/ResourceReactionable.tsx:47-83 | corrected: after a failed toggle the cache reads exactly as before |
| BookmarkStatus.BookmarkWidget.constructor | src/components/BookmarkStatus.tsx:22 | the flag starts unset and no request has been sent |
| BookmarkStatus.BookmarkWidget.ToggleClicked | src/components/BookmarkStatus.tsx:41-44 | the flag flips before the server answers, and one request is sent |
| BookmarkStatus.BookmarkWidget.OnSuccess | src/components/BookmarkStatus.tsx:36-38 | the server's `bookmarked` overwrites the flag, false when missing |
| BookmarkStatus.BookmarkWidget.OnStatusData | src/components/BookmarkStatus.tsx:46-50 | arriving status data overwrites the flag; no data leaves it |
| BookmarkStatus.StartsUnset | src/components/BookmarkStatus.tsx:22 | with no events the flag is unset |
| BookmarkStatus.ServerAnswerWins | src/components/BookmarkStatus.tsx:36-38 | after a success the flag is the server's answer, whatever came before |
| BookmarkStatus.ToggleTwiceCancels | src/components/BookmarkStatus.tsx:41-44 | two clicks without an answer in between cancel out |
| BookmarkStatus.TogglesOnly | src/components/BookmarkStatus.tsx:22-44 | after n clicks alone the flag is set exactly when n is odd |
| BookmarkStatus.QueryNeedsBoth | src/components/BookmarkStatus.tsx:28 | the status query runs exactly when both the resource id and type are non-empty |
| ArticleList.NextPageParam | src/app/dashboard/_components/ArticleList.tsx:41-46 | there is a next page exactly when the current page plus one does not exceed the total pages, missing values counting as 1; it is that page |
| ArticleList.NextPageCases | src/app/dashboard/_components/ArticleList.tsx:41-46 | page p of t gives p + 1 exactly when p < t; a missing page or meta gives no next page |
| ArticleList.PatchPage | src/app/dashboard/_components/ArticleList.tsx:59-73 | a page keeps its meta and node count, each node patched |
| ArticleList.PatchCache | src/app/dashboard/_components/ArticleList.tsx:59-73 | an absent cache stays absent; otherwise the page count and page params stay, and every node is the patched node |
| ArticleList.Rollback | src/app/dashboard/_components/ArticleList.tsx:77-81 | a snapshot replaces the cache; without one the cache stays |
| ArticleList.OfferedAction | src/app/dashboard/_components/ArticleList.tsx:260-286 | Restore is offered exactly when a deletion is scheduled, Delete otherwise |
| ArticleList.PatchOnlyTouchesMatches | src/app/dashboard/_components/ArticleList.tsx:59-73 | only nodes with the id change, and only in `delete_scheduled_at`; order and every other field stay |
| ArticleList.PatchFlipsOfferedAction | src/app/dashboard/_components/ArticleList.tsx:54-117 | after the delete patch a matching node offers Restore, and after the restore patch it offers Delete |
| ArticleList.RestoreUndoesDelete | src/app/dashboard/_components/ArticleList.tsx:54-112 | the restore patch undoes the delete patch when the article had no deletion scheduled |
| ArticleList.RollbackRestoresSnapshot | src/app/dashboard/_components/ArticleList.tsx:77-81 | rolling back after a patch gives back the snapshot taken before it |
| SearchComboBox.SearchFetches | src/components/SearchComboBox.tsx:70-71 | an empty search fetches at once and again after the debounce; any other search only after the debounce |
| SearchComboBox.TriggerLabel | src/components/SearchComboBox.tsx:92 | the trigger shows the selected label, or "Select an item" when it is empty |
| SearchComboBox.Rows | src/components/SearchComboBox.tsx:110-134 | no row has an empty value, a row is checked exactly when its value is the selected one, and there are no more rows than items |
| SearchComboBox.ComboBox.constructor | src/components/SearchComboBox.tsx:48-49 | the combobox starts closed, listing only the selected item |
| SearchComboBox.ComboBox.Settle | src/components/SearchComboBox.tsx:51-67 | a settled fetch stores the list it yields; nothing else changes |
| SearchComboBox.ComboBox.OnSearchChange | src/components/SearchComboBox.tsx:70-71 | a search schedules its fetches and changes nothing else |
| SearchComboBox.ComboBox.SetOpen | src/components/SearchComboBox.tsx:73-79 | opening clears the items and fetches with the empty query; closing leaves the items |
| SearchComboBox.ComboBox.Select | src/components/SearchComboBox.tsx:120-123 | selecting passes the item on and closes the popover |
| SearchComboBox.FetchedList | src/components/SearchComboBox.tsx:55-62 | the selected item is prepended exactly when it has a value, the query is empty and no result has its value; otherwise the items are exactly the results; a failure leaves only the selected item |
| SearchComboBox.SelectedStaysVisible | src/components/SearchComboBox.tsx:55-66 | with an empty query an item with a value stays listed, whatever the fetch returns |
| SearchComboBox.RowsKeepValuedItems | src/components/SearchComboBox.tsx:110-113 | the rows are exactly the items with a non-empty value, in order |
| SearchComboBox.FilterValued | src/components/SearchComboBox.tsx:111-113 | filtering never adds items |
| CookieConsent.AfterMount | src/components/CookieConsentPopup.tsx:15-20 | a stored answer shows the popup as answered, accepted exactly when it is "true"; no stored answer leaves the state |
| CookieConsent.ConsentPopup.constructor | src/store/cookie-consent.atom.ts:8-11 | the popup starts neither shown nor accepted |
| CookieConsent.ConsentPopup.Mount | src/components/CookieConsentPopup.tsx:15-20 | mounting applies the stored answer and does not write storage |
| CookieConsent.ConsentPopup.Accept | src/components/CookieConsentPopup.tsx:22-25 | accepting stores "true" and marks the popup shown and accepted |
| CookieConsent.ConsentPopup.Decline | src/components/CookieConsentPopup.tsx:27-30 | declining stores "false" and marks the popup shown, not accepted |
| CookieConsent.ConsentPopup.Close | src/components/CookieConsentPopup.tsx:63-70 | the close button declines |
| CookieConsent.ConsentPopup.Visible | src/components/CookieConsentPopup.tsx:32-34 | the popup renders exactly while not shown |
| CookieConsent.ReloadRestoresAnswer | src/components/CookieConsentPopup.tsx:15-30 | after accepting or declining, a fresh page restores that answer, already shown |
| CookieConsent.MountShowsOnlyWithoutAnswer | src/components/CookieConsentPopup.tsx:15-20 | a fresh page is marked shown exactly when an answer is stored |
| CookieConsent.OtherValuesDecline | src/components/CookieConsentPopup.tsx:15-20 | any stored value other than "true" reads as declined |
| ArticleInput.ParseCanonicalUrl | src/backend/services/inputs/article.input.ts:81-85 | `""` and `null` become null and a missing field stays absent; any other string must have the URL shape and is kept; a non-URL string is refused |
| ArticleInput.CreateAllOptional | src/backend/services/inputs/article.input.ts:20-32 | the empty object is a valid create input with every field absent |
| ArticleInput.R2OnlyOnUpdate | src/backend/services/inputs/article.input.ts:24-30 | a cover stored on R2 is refused at creation and accepted by the update schema |
| ArticleInput.UpdateRequiresArticleId | src/backend/services/inputs/article.input.ts:49-71 | the update input needs a string `article_id`; with it alone every other field is absent |
| ArticleInput.CanonicalUrlNeverEmpty | src/backend/services/inputs/article.input.ts:81-84 | a parsed canonical URL is never the empty string |
| ArticleInput.PagingDefaults | src/backend/services/inputs/article.input.ts:94-97 | page defaults to 1 and limit to 10; given values are kept, with no lower bound |
| ArticleInput.TagFeedNeedsUuid | src/backend/services/inputs/article.input.ts:124-128 | the tag feed accepts exactly a UUID-shaped tag id and keeps it |
| Schema.RequiredString | src/backend/services/inputs/article.input.ts:50 | accepted exactly when the value is a string, which is kept |
| Schema.OptionalString | src/backend/services/inputs/article.input.ts:53 | a string or a missing field is accepted; `null` is refused |
| Schema.NullishString | src/backend/services/inputs/article.input.ts:22 | a string, `null` or a missing field is accepted; only a string is present |
| Schema.NullishBool | src/backend/services/inputs/article.input.ts:31 | a boolean, `null` or a missing field is accepted |
| Schema.OptionalBool | src/backend/services/inputs/article.input.ts:69 | a boolean or a missing field is accepted |
| Schema.BoundedNumber | src/backend/services/inputs/series.input.ts:5-6 | a number is accepted exactly inside its bounds, and kept |
| Schema.DefaultedNumber | src/backend/services/inputs/bookmark.input.ts:9-11 | a missing number becomes the default; a given one is checked against the bounds |
| Schema.StringArray | src/backend/services/inputs/article.input.ts:71 | accepted exactly when every element is a string; the elements are kept in order |
| Schema.ResourceTypeEnum | src/backend/services/inputs/bookmark.input.ts:6 | accepted exactly for ARTICLE and COMMENT, giving back the same name |
| Schema.ProviderEnum | src/backend/services/inputs/article.input.ts:27 | accepted exactly for cloudinary and direct, and r2 where the schema allows it |
| Schema.NullishServerFile | src/backend/services/inputs/article.input.ts:59-66 | `null` and a missing field give no file; a file keeps its key and an accepted provider |
| Schema.UuidString | src/backend/services/inputs/article.input.ts:125 | accepted exactly when the string has the 8-4-4-4-12 hexadecimal layout, and kept |
| Schema.BoundedString | src/backend/services/inputs/comment.input.ts:7 | a string is accepted exactly when its length in UTF-16 code units, as JavaScript's `length` counts it, is inside the bounds; it is kept as given |
| Schema.HttpsIsUrl | src/backend/services/inputs/article.input.ts:82 | an `https:` address with a non-empty remainder has the URL shape |
| Schema.UuidShapeExamples | src/backend/services/inputs/article.input.ts:125 | a canonical UUID has the layout; the same digits without hyphens do not |

## Left out

- Database: SQL text, joins, `GROUP BY` and column projections are not modelled. Each query is its effect on an in-memory table. For `getReactions` and `articlesByTag`, the joined rows are an input.
- Social-account rows: the id of the row the bootstrap inserts is a parameter, and the OAuth and session plumbing around it is not part of this model.
- Update actions: a field left `undefined` in an update is taken to be skipped by the repository layer, which is not part of this model.
- Numbers: only integers are modelled; a fractional `page` or `limit` has no counterpart.
- Email and URL checks: only their shapes are modelled. A URL is a scheme, a colon and a non-empty remainder. A UUID is the 8-4-4-4-12 hexadecimal layout, without the version and variant checks.
- Unused article schemas: `createArticleInput`, `updateArticleInput`, `findArticlesByAuthorInput` and `searchArticlesInput` are not modelled, because no modelled action parses them. `userFeedInput` is covered only through its paging fields, which `ArticleInput.ParsePaging` models.
- `getReactionsInput`: it has the same shape as the bookmark resource reference and is parsed by `BookmarkInput.ParseResourceRef`.
- Time: the clock is an integer parameter in milliseconds. `addDays` is seven days of milliseconds, so daylight-saving shifts are not modelled.
- Other helpers: `generateRandomString`, `Intl` date formatting, `decodeURIComponent` and the regular-expression pipeline of `removeMarkdownSyntax` are not modelled. They are randomness, locale data and regex engines.
- Utils.SanitizedUsername: takes the segment after `decodeURIComponent`. The source decodes on every call, so it is not idempotent: `%2540x` gives `%40x`, and a second call gives `x`. `Utils.SanitizedUsernameIdempotent` is about the decoded segment only.
- `removeNullOrUndefinedFromObject`: it is imported by the source but not defined in `src/lib/utils.ts`. It is not part of this model.
- `@/lib/slug-helper.util`: `article.actions.ts` imports its `slugify` from this file, which is not part of this model. `ArticleActions` uses `Utils.Slugify`, the `slugify` of `src/lib/utils.ts`, in its place.
- `src/backend/services/user.repository.ts`: this duplicate of the user actions is called by nothing. It is not modelled.
- Bookmark toggle and profile update: without a session, each action throws its own message and then catches it, returning `undefined`. The bookmark toggle throws "Unauthorized" and `updateMyProfile` throws "User not authenticated". The model returns `None` in both cases, as the code does, rather than a failure result carrying the message.
- Timers: `setTimeout` and the debounce of the search box are not timed. A debounced fetch is one step that the caller triggers.
- Asynchronous fetches: a request is logged, and its response is applied by a separate settle step. `cancelQueries`, `invalidateQueries` and `onSettled` refetches are not modelled.
- Uploads: storage upload and `getFileUrl` are an outcome parameter. Only the first image of a paste or drop is uploaded, as in the source.
- `handleImageFiles` (`useMarkdownEditor.ts:112-122`): it applies the same image filter and then the direct upload at `selectionStart`. It is not modelled separately from `MarkdownEditor.HandleDirectImageUpload`.
- Editor `code` command: the source has no case for it. The model leaves the text unchanged and the caret at the selection start; no markup for it is modelled.
- Search box: a response that is not a JSON array is not modelled.
- Comment attachments: their rendering is commented out in the source.
- Comment tree: the server stubs that would load and create comments are not modelled. The tree is a value.
- Other article actions: the feed, detail, `myArticles` and `deleteArticle` actions are not part of this model.
- ResourceReactionable.ReactionCache.OnMutateAsWritten: requires an entry for the reaction type, because the source indexes the result of `findIndex` unchecked and would throw without one.
- ResourceReactionable.ReactionCache.FailedToggleAsWritten: requires the same entry as `OnMutateAsWritten`, for the same reason.
- ResourceReactionable.ReactionCache.OnMutate: requires the same entry as `OnMutateAsWritten`.
- ResourceReactionable.ReactionCache.FailedToggle: requires the same entry as `OnMutateAsWritten`.
- ResourceReactionable.PatchInPlace: requires the same entry as `OnMutateAsWritten`.
- ArticleActions.TagFeedMeta: requires that a limit of 0 comes with no count row, because the count is read from the rows the `LIMIT 0` query returns, and there are none.
- Utils.SlugifyKeepsAlnums: `toLowerCase` is modelled on ASCII letters only. JavaScript's Unicode case mapping turns some other characters into ASCII letters, such as the Kelvin sign U+212A into `k`, which `slugify` then keeps and the model drops. `Utils.Slugify` has the same gap.
- Utils.SanitizedUsername: `toLowerCase` is modelled on ASCII letters only, so a name such as `@É` keeps its `É`, which JavaScript lower-cases to `é`.
- MarkdownEditor.KeyCommand: `e.key.toLowerCase()` is modelled on ASCII letters only. The mapped shortcut keys are all ASCII, so only keys outside ASCII could be read differently.
- Tags.GetTagsContains: the search term is lower-cased on ASCII letters only; a term with other upper-case letters is searched as given, where JavaScript would lower-case it.
- Users.GetUsers: `paginate` also returns a `meta` block, computed by the repository package, which is not part of this model. Only the listed users are modelled.
- Users.GetUsers: what `paginate` does with a negative limit is decided by the repository package, which is not part of this model. The model takes it as a parameter: either every user is listed, as `find` does for the `limit: -1` the codebase passes elsewhere, or the query fails and the promise rejects. Neither case is claimed to be the package's actual behaviour.
- ArticleActions.Take: the one-row handle lookup has no `ORDER BY`, so the database may return any matching row. The model returns the first in table order. When `t-1` comes back before `t`, the source returns `t`, which is also taken.
- SqlLike.Like: only `%` and `_` are wildcards. PostgreSQL's `LIKE` also treats `\` as its default escape character, which changes `getTags` for a search term holding a backslash.
- Editor offsets: the caret and selection positions of `MarkdownEditor`, `MarkdownEditorProvider` and `ReadmeForm` count characters. The browser counts UTF-16 code units, so the two agree only on text inside the Basic Multilingual Plane.
- Rendering: React components are modelled only through their state and handlers. Markup, styling and the i18n message catalogues (beyond the lookup) are not modelled.

## Findings

| source | as written | input that shows it | evidently intended | confidence | as-written member | corrected member |
|---|---|---|---|---|---|---|
| src/backend/services/article.actions.ts:108-144 | the lookup of handles that already start with the slug is capped at one row, and the suffix is one more than the highest suffix in that single row | articles with handles `t` and `t-1` exist, and a new article is titled `t`: the lookup returns only `t`, so `createMyArticle` inserts a second `t-1` | every matching row is looked at, so the new handle differs from every existing one | not executed | ArticleActions.CreateDuplicatesHandle | ArticleActions.CreateKeepsTableValid |
| src/components/render-props/ResourceReactionable.tsx:55-83 | `onMutate` keeps a reference to the cached reaction list as the rollback snapshot, then patches that same list in place | a signed-in user toggles a reaction and the server call fails: `onError` puts back the already patched list, so the optimistic change stays | the snapshot is a copy taken before the patch, so a failed toggle restores the previous counts | not executed | ResourceReactionable.ReactionCache.FailedToggleAsWritten | ResourceReactionable.ReactionCache.FailedToggle |
| src/components/comment-section.tsx:236-247 | the new score starts from the comment's original score but still subtracts the previous vote, which was never added to it | a comment with score 42: vote up (shows 43), then vote down, which shows 40 instead of 41 | the displayed score is the original score moved by the vote that is now in place | not executed | CommentSection.AsWrittenSwitchDoubleCounts | CommentSection.CommentItem.HandleVote |
