# Nickname history tracker: a Dafny model

This project models the core of a Discord bot, `bot.py`, that keeps a history of
every member's server-nickname changes and lets members like those nicknames.
The core covers five parts:

- **The history store.** The whole JSON document is a map from a member id
  string to that member's list of change records
  `{old, new, date, likes, liked_by}` (`Changes.Store`, `Changes.Change`).
- **Recording a rename.** `on_member_update` appends one record when the
  server nickname changed (`History.OnMemberUpdate`).
- **The audit-log import.** `fetch_audit_nicknames` keeps the audit entries
  whose nicknames differ, then appends each one to its owner's list in the
  order it was collected. The entries are taken as the audit-log iterator
  yields them (member targets only, in the iterator's order, which is not
  necessarily chronological) (`History.CollectRenames`, `History.MergeRenames`,
  `History.FetchAuditNicknames`).
- **The history view.** `NicknameHistoryView` is modelled as a class with the
  same fields (`View.NicknameHistoryView`). It holds:
  - a stable descending sort by date or by likes (`Ordering.StableSort`);
  - previous/next paging whose button states follow `(n - 1) // page_size`;
  - a like dropdown whose options carry absolute indexes (`Paging`);
  - a like toggle that adds or removes the voter in `liked_by` and moves the
    stored `likes` counter by one (`Changes.ToggleLike`).
- **The `wholike` command.** It either lists the author's records with likes
  or looks up a nickname across the whole document (`WhoLike`).

The store is a value in this model. Each operation takes the document as it
was loaded and returns the document it would save. `LikeSelect` returns, as
`saved`, the copy it writes.

The model follows the code in these points:

- `likes` is a stored counter, not derived from `liked_by`. Its agreement with
  `|liked_by|` is proved as a preserved invariant (`Changes.Consistent`).
- `liked_by` is a list. Uniqueness of voters is an invariant the toggle
  preserves, not a set type.
- The sort is a single-key stable sort with no further tie-break. A
  `reverse=True` sort keeps equal keys in their previous order.
- The page index is not clamped. It stays in range only because of the
  previous/next callbacks' own guards.
- There is no locking and no record-not-found error. The dropdown only offers
  indexes of the view's own list.
- Re-running the import appends duplicate records; nothing is deduplicated.

The nickname lookup in `wholike` breaks out of the inner loop only. A later
member's match therefore replaces an earlier one, and the reply is the first
matching record of the last member, in the document's iteration order, that
has a match. `WhoLike.FindNickname` states exactly this.

## Model

| member | source | states |
|---|---|---|
| Changes.RemoveFirst | bot.py:155 | `list.remove` drops exactly the first occurrence: the result is the list before it followed by the list after it, so the other voters keep their order; the length goes down by one, the multiset loses one copy, and a duplicate-free list stays duplicate-free and no longer holds the voter |
| Changes.ActionOf | bot.py:154-165 | the "liked" reply is sent exactly when the toggle raised the counter, and, on a list without duplicate voters, exactly when the voter is in `liked_by` afterwards |
| Changes.ToggleLike | bot.py:154-162 | names and date are untouched; the counter goes down by one when the voter had liked, up by one otherwise, and stays equal to the length of `liked_by` when it was equal before |
| Changes.ToggleFlipsOnlyVoter | bot.py:150-162 | on a consistent record, a toggle keeps `likes == |liked_by|` and no duplicate voter, flips exactly the voter's membership, leaves every other member's membership alone, and moves the counter +1 for Liked and -1 for Unliked |
| Changes.LikeThenUnlikeRestores | bot.py:154-162 | when the voter had not liked a consistent record, liking and then unliking gives back the record exactly |
| Changes.UnlikeThenLikeRestores | bot.py:154-162 | when the voter had liked a consistent record, unliking and then liking again restores the counter and the multiset of voters, the voter moving to the end of `liked_by` |
| Changes.DistinctVotersAllCount | bot.py:148-162 | N distinct voters who had not liked a record, each toggling once, raise the counter by N, are appended in voting order, and leave the record consistent |
| Ordering.SortPermutes | bot.py:102-107 | `sort_nicknames` yields a permutation of the records |
| Ordering.SortDescending | bot.py:102-107 | the sorted list is non-increasing by the date string (lexicographic, which is chronological for "YYYY-MM-DD HH:MM") or by the stored like counter |
| Ordering.SortStable | bot.py:102-107 | for every key, the records that share it keep their previous relative order (Python's sort is stable under `reverse=True`) |
| Ordering.SortIdempotent | bot.py:102-107 | sorting twice with the same key and no change in between gives the same list |
| Ordering.SortKeepsDescending | bot.py:102-107 | a list already in descending key order is left exactly as it is |
| Ordering.DateLeTotal | bot.py:105 | string comparison of dates is total |
| Ordering.DateLeTransitive | bot.py:105 | string comparison of dates is transitive |
| Ordering.StableSort | bot.py:102-107 | the sort keeps the number of records (its order is stated by the sort lemmas above) |
| Paging.PageOf | bot.py:122-124 | the page slice `changes[p*size : p*size+size]` holds at most `page_size` records, exactly the ones from absolute index `p*size` on, and as many as remain when the list ends inside the page |
| Paging.PageOptions | bot.py:120-132 | one option per record of the page; option k carries absolute index `p*size + k`, which is inside the list and names that record |
| Paging.LastPageBounds | bot.py:143 | `(n-1)//page_size` is -1 exactly for an empty list and never exceeds `n-1` |
| Paging.NextDisabledIffNoNextPage | bot.py:202-204 | "next" is disabled exactly when the page after the current one would start at or past the end of the list |
| Paging.PagesUpToLastAreNonEmpty | bot.py:141-146 | a page index is at most `(n-1)//page_size` exactly when its page shows at least one record |
| Paging.PagesCoverAll | bot.py:120-132 | concatenating pages 0 to `(n-1)//page_size` gives back the whole list, with no gap, repeat or reordering |
| Paging.IndexOnItsPage | bot.py:120-132 | every record index i appears on page `i // page_size` at position `i % page_size`, that page is within range, and no other page offers index i |
| Paging.InitialNextButtonAgrees | bot.py:78-82 | the constructor's `len <= page_size` test for disabling "next" equals `update_message`'s test on page 0 |
| History.DisplayName | bot.py:51-52 | a missing or empty nickname falls back to the account name, so a recorded name is never empty while the account name is not |
| History.OnMemberUpdate | bot.py:42-59 | no change when the nick is unchanged; otherwise the member gets a list (created if absent) extended by exactly one record at the end, with fallback names, the given date, zero likes and no voters; every other member is unchanged; a consistent store stays consistent |
| History.Renames | bot.py:286-297 | the collected records number at most the entries, and each is a real rename with zero likes and no voters |
| History.RenamesAppend | bot.py:271-297 | collecting over a concatenation of audit entries collects each part in turn, so the order the entries were yielded in is kept |
| History.RenamesKeepsOnlyRenames | bot.py:286-297 | an entry yields a record exactly when its old and new nickname differ |
| History.CollectRenames | bot.py:271-297 | the collection loop returns exactly the renames of the audit entries, in the order they were yielded |
| History.MergeRenames | bot.py:300-304 | the new store's members are the old ones plus every owner of a collected record; each member's list is the old list followed by that member's collected records in collection order, with no deduplication |
| History.FetchAuditNicknames | bot.py:265-306 | the whole import: the store gains exactly the collected renames, appended per owner in the order the entries were yielded, and a consistent store stays consistent |
| History.ReimportDuplicates | bot.py:300-304 | importing the same collected records twice appends them twice |
| View.SortKeepsConsistency | bot.py:170 | re-sorting keeps the length and the consistency of every record |
| View.NicknameHistoryView.constructor | bot.py:63-100 | the sort key defaults to date and the page size to `PER_PAGE` (10); the view takes the member's list `ListOf(data, userId)` (the `.get(...).get(..., [])` chain, empty when absent) and sorts it; it starts on page 0 with "previous" disabled and "next" disabled exactly when the list fits on one page; the invariant holds |
| View.NicknameHistoryView.SortNicknames | bot.py:102-107 | the list becomes its stable sort under the current key; the document copy sees the same order because it shares the list |
| View.NicknameHistoryView.UpdateSelectOptions | bot.py:120-132 | the dropdown options become the indexed options of the current page |
| View.NicknameHistoryView.UpdateMessage | bot.py:188-204 | returns the current page's records; "previous" is disabled iff the page is 0, "next" iff the page is at or past `(n-1)//page_size` |
| View.NicknameHistoryView.ToggleSorting | bot.py:109-118 | the key flips between date and likes, the list is re-sorted under the new key, the document copy changes only in the member's own (aliased) list, and the page resets to 0 |
| View.NicknameHistoryView.PrevPage | bot.py:134-139 | the page goes down by one only when it is above 0; the page stays in range and the buttons follow it |
| View.NicknameHistoryView.NextPage | bot.py:141-146 | the page goes up by one only when it is below `(n-1)//page_size`; the page stays in range and the buttons follow it |
| View.NicknameHistoryView.LikeSelect | bot.py:148-171 | the saved document is the loaded copy with only the selected record toggled; the reply matches the voter's prior membership; the list is re-sorted afterwards on the same page; a consistent document stays consistent |
| WhoLike.LikedChanges | bot.py:249-254 | the listing holds at most the member's records, and only ones with a positive counter |
| WhoLike.LikedChangesMembers | bot.py:249-254 | a record is listed exactly when it is one of the member's and its counter is positive |
| WhoLike.LikedChangesAppend | bot.py:249-254 | the listing keeps stored order: listing a concatenation lists each part in turn |
| WhoLike.LikedChangesHaveLikers | bot.py:250-251 | on consistent records, the listed records are exactly those with a non-empty `liked_by` |
| WhoLike.FirstMatch | bot.py:230-234 | the inner loop breaks at the first record that `Matches` (its new name equals the argument after lower-casing both), and at none when nothing matches |
| WhoLike.MatchesIgnoresCase | bot.py:232 | a nickname matches exactly the records its lower-cased form matches |
| WhoLike.FindNickname | bot.py:226-236 | the lookup finds nothing exactly when no record of any member matches; otherwise it returns the first match of the last member, in iteration order, that has a match |
| WhoLike.WhoLike | bot.py:210-261 | "no changes" exactly when the author's `ListOf` is empty (absent or empty list); when `Given` is false (`if nickname:` fails on a missing or empty argument), the author's liked records in stored order; when it is true, "not found" exactly when no record matches, and otherwise always a likers reply: the `liked_by` of the first matching record of the last member, in the document's iteration order, that has a match |

## Left out

- Discord plumbing is not modelled: bot setup and `bot.run`, interaction responses and follow-ups, `ctx.send`, deleting old messages with `asyncio.sleep`, and building buttons and dropdown widgets. These are UI and network I/O.
- All message text is left out: Ukrainian replies, labels, mentions and the history message. The model returns the records a message shows (`UpdateMessage`) and a `Reply` or `LikeAction` instead.
- JSON load/save and the environment lookups are left out. This is file I/O, so the document is a value passed in and returned.
- The clock and audit timestamps are left out. `utcnow().strftime` and `entry.created_at` are library calls, so the formatted date string is a parameter.
- The `hasattr`-based decoding of audit-log entries is left out. It depends on a foreign object shape, so `History.AuditEntry` takes the already-extracted target id, names and date.
- AuditEntry: names are strings, so an audit entry whose `before` or `after` nickname is present but `None` (a first nickname, or one removed) is not modelled. The source stores such a record with a null `old` or `new`. A null `new` makes `change["new"].lower()` in the `wholike` lookup fail, aborting the command; a null `old` is never lower-cased and only shows as "None" in labels. The model's lookup cannot reach that failure.
- Imported records in the JSON carry an extra `user_id` key. The model keeps the owner beside the record (`History.Collected`), not inside it.
- The lost-update hazard is not modelled. The global document and each view's or command's own loaded copy can overwrite each other's saves, and the code has no locking to model.
- Lower: folds only ASCII `A`-`Z`. Python's `str.lower` does full Unicode case mapping, which is not modelled.
- The dictionary's iteration order in `wholike` is a parameter (`order`). Dafny maps are unordered.
- `sort_by` only ever holds "date" or "likes" and is a two-valued datatype. Any other string would sort by likes in the source.
- The view's `page_size` must be positive. The source divides by it.
- `LikeSelect` takes the selected index as a number within the list. The source parses it from an option value it generated itself.
- The `history` command (bot.py:311-340) is left out. Its first message is text formatting over a date sort, and the view it creates is modelled by the constructor.
