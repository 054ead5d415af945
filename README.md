# PostsApp: the posts list and its record store, in Dafny

PostsApp is a small iOS notes app. A post has a title, a date and the file
name of a photo, and is kept with Core Data. This project models the two
parts of the app that have behaviour worth stating:

- **StorageManager** (`storage_manager.dfy`, module `Storage`): the record
  store. The Core Data view context becomes a class with four fields:
  - `records`: the registered Post records, in insertion order;
  - `persisted`: the records as of the last successful commit;
  - `hasChanges`: the context's pending-changes flag;
  - `nextId`: where fresh object identities come from.

  `Create`, `Update` and `Delete` change `records` and then call
  `SaveContext`. `SaveContext` commits only when `hasChanges` is set.
  `FetchData` returns the records in descending date order.
- **PostsViewController** (`posts_view_controller.dfy`, module `PostsList`):
  the table of posts. It holds `posts` and `filteredPosts`, plus the two
  search-controller facts it reads: whether search is active, and the search
  bar's text (nil or a string). It models:
  - `isFiltering`, the row count and `getPost`;
  - the case-insensitive substring filter;
  - `removePost` (first occurrence only) and `deletePost`, which removes
    from both lists and then from the store;
  - the fetch that replaces `posts`.

Shared definitions live in `post_model.dfy` (module `PostModel`). It holds the
Post entity, with identity as a `PostId` and nil-able title, date and image
path. It also holds the list operations both components use: `IndexOfId`
(Array.firstIndex(of:) on managed objects, which compares identity) and
`RemoveFirst`. `text.dfy` (module `Text`) holds the string functions:
- ASCII-only `Lowercased`;
- `Contains` (substring);
- `LastPathComponent` (the text after the last `/`).

Environment inputs are parameters:
- the clock (`Date()`) is the `now: int` argument of `Create` and `Update`;
- whether the store's commit succeeds is `commitSucceeds`;
- whether the fetch request succeeds is `fetchSucceeds`.

A failed commit is `fatalError` in the source. Here it is the outcome
`saved == false`: the pending changes are left uncommitted and the caller
learns that the operation aborted.

`GroceriesStore` and `GroceriesWalkthrough` step through a short scenario,
checked against the verified contracts:
1. create "Groceries", "Gym" and "Grocery run" at times 1, 2 and 3;
2. fetch: the table lists them newest first;
3. search "gro": two posts remain, in list order;
4. delete "Gym": the other two remain in the table and in the store.

In these places the model follows the code exactly:
- `update` always overwrites the image path with the URL's last path
  component; nothing is kept unchanged;
- `create` always takes an image URL;
- the fetch order is only "descending by date". The sort descriptor fixes no
  tie order and no place for nil dates. The fetch contracts state a
  permutation of the records that is descending among dated records, and no
  more. The model's sort, `SortByDate`, is one such order, but no contract
  exposes it. When every record has its own date, `DescendingUnique` shows
  that this determines the listing. The scenario relies on exactly that.

## Model

| member | source | states |
|---|---|---|
| PostModel.IndexOfId | PostsApp/PostsApp/Controllers/PostsViewController.swift:198 | firstIndex(of:): the result is a position holding the post, no earlier position holds it, and it is nil exactly when the post is absent |
| PostModel.RemoveFirstAbsent | PostsApp/PostsApp/Controllers/PostsViewController.swift:196-202 | removing an absent post returns the list unchanged |
| PostModel.RemoveFirstPresent | PostsApp/PostsApp/Controllers/PostsViewController.swift:196-202 | removing a present post shortens the list by exactly one |
| PostModel.RemoveFirstAt | PostsApp/PostsApp/Controllers/PostsViewController.swift:198-199 | the post is cut out at its first index (remove(at:)); the elements before and after it stay, in order |
| PostModel.RemoveFirstSubsequence | PostsApp/PostsApp/Controllers/PostsViewController.swift:196-202 | what removePost returns is a subsequence of its input |
| PostModel.RemoveFirstGone | PostsApp/PostsApp/Services/StorageManager.swift:49-52 | in a list of distinct posts, removing a post removes its id and keeps every other id |
| PostModel.RemoveFirstDistinct | PostsApp/PostsApp/Controllers/PostsViewController.swift:183-190 | after deletion from a list of distinct posts, no post with that id remains and the list stays distinct |
| PostModel.SubsequenceDistinct | PostsApp/PostsApp/Controllers/PostsViewController.swift:172-174 | leaving posts out of a list of distinct posts keeps it distinct, so the filtered list never shows a post twice |
| PostModel.IndexOfDistinct | PostsApp/PostsApp/Controllers/PostsViewController.swift:98 | in a list of distinct posts, the post of row i is found at index i, so deleting via getPost removes that very row |
| PostModel.AppendFresh | PostsApp/PostsApp/Services/StorageManager.swift:33 | a newly inserted managed object has an identity no registered record has, and the store stays well-formed |
| PostModel.ReplaceSameId | PostsApp/PostsApp/Services/StorageManager.swift:42-44 | editing a record's fields in place keeps the store well-formed |
| PostModel.RemoveKeepsWellFormed | PostsApp/PostsApp/Services/StorageManager.swift:50 | deleting a record keeps the store well-formed and leaves no record with that id |
| Text.ContainsIff | PostsApp/PostsApp/Controllers/PostsViewController.swift:173 | String.contains: true exactly when the text occurs at some position of the title |
| Text.LastPathComponentSpec | PostsApp/PostsApp/Services/StorageManager.swift:36 | lastPathComponent is a suffix of the path, contains no '/', and is the whole path or is preceded by '/' |
| Text.LastPathComponentOfJoined | PostsApp/PostsApp/Services/StorageManager.swift:36 | for a URL dir + "/" + name with no '/' in name, the image path stored is name |
| Text.Lowercased | PostsApp/PostsApp/Controllers/PostsViewController.swift:173 | lowercased(): same length, each capital becomes its small letter, and every other character is kept, so no capital is left |
| Text.LowercasedSameUpToCase | PostsApp/PostsApp/Controllers/PostsViewController.swift:173 | two strings that differ only in the case of letters lowercase to the same string |
| Text.LowercasedIdempotent | PostsApp/PostsApp/Controllers/PostsViewController.swift:173 | lowercasing twice is lowercasing once |
| Storage.SortPermutation | PostsApp/PostsApp/Services/StorageManager.swift:54-60 | the fetch result is a permutation of the stored records |
| Storage.SortNewestFirst | PostsApp/PostsApp/Services/StorageManager.swift:56-57 | the fetch result is sorted by date, descending |
| Storage.SortDistinct | PostsApp/PostsApp/Services/StorageManager.swift:54-60 | fetching distinct records lists each record once |
| Storage.InsertPermutation | PostsApp/PostsApp/Services/StorageManager.swift:56-57 | placing one record into a sorted listing adds exactly that record |
| Storage.InsertNewestFirst | PostsApp/PostsApp/Services/StorageManager.swift:56-57 | placing one record into a listing sorted newest first keeps it sorted |
| Storage.InsertDistinct | PostsApp/PostsApp/Services/StorageManager.swift:56-57 | placing a record with a new id into a listing of distinct records keeps it distinct |
| Storage.DescendingUnique | PostsApp/PostsApp/Services/StorageManager.swift:56-57 | when every record has a date and no two share one, any two listings that are permutations of the records and descending by date are equal |
| Storage.IdBound | PostsApp/PostsApp/Services/StorageManager.swift:15-29 | the ids handed out after loading the persistent store lie above every stored id |
| Storage.StorageManager.constructor | PostsApp/PostsApp/Services/StorageManager.swift:15-29 | loading the store: the context holds the stored records and has no pending changes |
| Storage.StorageManager.SaveContext | PostsApp/PostsApp/Services/StorageManager.swift:69-79 | no pending changes: nothing happens. Otherwise it commits (persisted := records) and clears hasChanges, or, if the commit fails, reports failure and commits nothing |
| Storage.StorageManager.Create | PostsApp/PostsApp/Services/StorageManager.swift:32-39 | appends exactly one record with a fresh id, title = name, date = now and imagePath = lastPathComponent(url); the earlier records stay unchanged; then it saves, so a successful call leaves no pending changes |
| Storage.StorageManager.Update | PostsApp/PostsApp/Services/StorageManager.swift:41-47 | overwrites that record's title, date (now) and imagePath (lastPathComponent(url)); the other records and the count are unchanged; then it saves |
| Storage.StorageManager.Delete | PostsApp/PostsApp/Services/StorageManager.swift:49-52 | removes that record: the count drops by one, the others keep their order, and no record with that id remains. Then it saves. saved holds exactly when the commit succeeds or there was nothing to commit. A saved delete leaves no pending changes and persisted equal to records. A failed one leaves persisted as it was |
| Storage.StorageManager.FetchData | PostsApp/PostsApp/Services/StorageManager.swift:54-66 | success returns a permutation of the records sorted by descending date, with no record twice, and changes nothing. A fetch error is a Failure result |
| PostsList.FilterMembers | PostsApp/PostsApp/Controllers/PostsViewController.swift:171-174 | the filtered list holds exactly the posts whose lowercased title contains the lowercased search text; untitled posts are excluded |
| PostsList.MatchesIff | PostsApp/PostsApp/Controllers/PostsViewController.swift:172-174 | the filter closure holds exactly when the post has a title and the lowercased text occurs in its lowercased form |
| PostsList.MatchesCaseInsensitive | PostsApp/PostsApp/Controllers/PostsViewController.swift:173 | lowercasing the search text, or the title, before matching leaves the match as it was |
| PostsList.MatchesIgnoresCase | PostsApp/PostsApp/Controllers/PostsViewController.swift:173 | two search texts that differ only in letter case match the same posts |
| PostsList.FilterSubsequence | PostsApp/PostsApp/Controllers/PostsViewController.swift:171-174 | the filtered list keeps the relative order of posts |
| PostsList.FilterIdempotent | PostsApp/PostsApp/Controllers/PostsViewController.swift:172-174 | filtering the filtered list by the same text changes nothing |
| PostsList.PostsViewController.constructor | PostsApp/PostsApp/Controllers/PostsViewController.swift:17-23 | both lists start empty, search is inactive and the store is the one passed in (the app passes StorageManager.shared, PostsViewController.swift:20) |
| PostsList.PostsViewController.SearchBarIsEmpty | PostsApp/PostsApp/Controllers/PostsViewController.swift:29-31 | the search bar is empty exactly when its text is nil or "" |
| PostsList.PostsViewController.IsFiltering | PostsApp/PostsApp/Controllers/PostsViewController.swift:25-27 | filtering holds exactly when search is active and the text is present and non-empty; inactive search never filters |
| PostsList.PostsViewController.NumberOfRows | PostsApp/PostsApp/Controllers/PostsViewController.swift:60-62 | the row count is filteredPosts.count when filtering, posts.count otherwise, which is the length of the shown list |
| PostsList.PostsViewController.GetPost | PostsApp/PostsApp/Controllers/PostsViewController.swift:179-181 | given an in-range row, it returns the shown list's element at that row |
| PostsList.PostsViewController.FetchData | PostsApp/PostsApp/Controllers/PostsViewController.swift:158-169 | on success, posts becomes the store's fetch result: a permutation of its records, descending by date. On failure posts is kept. filteredPosts is never touched |
| PostsList.PostsViewController.FilterContentForSearchText | PostsApp/PostsApp/Controllers/PostsViewController.swift:171-177 | filteredPosts becomes the filter of posts by the text, a subsequence of it; posts is unchanged |
| PostsList.PostsViewController.UpdateSearchResults | PostsApp/PostsApp/Controllers/PostsViewController.swift:106-108 | filters by the search bar's text, a nil text read as "" |
| PostsList.PostsViewController.RemovePost | PostsApp/PostsApp/Controllers/PostsViewController.swift:196-202 | returns the list without the first occurrence of the post: unchanged if absent, otherwise one shorter, with the elements before and after that index in order |
| PostsList.PostsViewController.DeletePost | PostsApp/PostsApp/Controllers/PostsViewController.swift:183-194 | The first occurrence leaves both posts and filteredPosts; the final pair of lists is the same whichever branch ran. The store then deletes the record, with nextId kept. saved holds exactly when the commit succeeds or there was nothing to commit. Success leaves no pending changes. A failed commit leaves the changes pending and persisted as it was |
| PostsList.PostsViewController.DeleteRow | PostsApp/PostsApp/Controllers/PostsViewController.swift:93-101 | swipe-to-delete: the shown list loses exactly the deleted row (the count drops by one, as deleteRows(at:) requires). Both lists lose that row's post, and the store deletes it with nextId kept. saved and the store's flags are as for DeletePost |
| PostsList.WalkthroughOrder | PostsApp/PostsApp/Services/StorageManager.swift:56-57 | three posts dated 1, 2, 3 have a single descending listing, 3, 2, 1 |
| PostsList.WalkthroughRefetch | PostsApp/PostsApp/Services/StorageManager.swift:56-57 | after the delete, the two posts dated 1 and 3 list as 3, 1 |
| PostsList.WalkthroughSearch | PostsApp/PostsApp/Controllers/PostsViewController.swift:172-174 | searching "gro" over "Grocery run", "Gym", "Groceries" keeps the first and the last |
| PostsList.WalkthroughDelete | PostsApp/PostsApp/Controllers/PostsViewController.swift:196-202 | deleting "Gym" takes the listing 3, 2, 1 to 3, 1, leaves the filtered 3, 1 as it is, and takes the records to the other two in insertion order |

## Left out

- BaseViewController, AddPostViewController and EditPostViewController are
  not part of this model: they are forms, buttons, the image picker and
  alerts. EditPostViewController's `save` calls `saveImage(_:withName:)`, an
  image-writing helper whose definition is not part of this model.
- AddPostViewController calls `create` with one argument, which does not
  match StorageManager's two-argument `create(_:imageURL:)`. That path is
  not modelled.
- AppDelegate, SceneDelegate and FileManager's documents-directory lookup
  are not part of this model. They are app lifecycle wiring and an OS lookup.
- Cell text is not modelled: the date formatting and the "No date"
  placeholder are presentation.
- The table-view side effects (`deleteRows`, `reloadData`) and the
  navigation are not modelled. DeleteRow states the row invariant that
  `deleteRows` relies on.
- The `reloadData()` delegate callback is not a separate member. It is
  `fetchData()` followed by a table reload, and FetchData models it.
- The search controller's own state changes (activation, typing) are UIKit
  events. Here they are the `searchActive` and `searchText` fields, which the
  environment sets.
- Core Data internals are not modelled: container loading and its
  `fatalError`, faulting, and managed-object identity beyond an id.
- Posts are values here, not shared objects. The controller's lists hold
  snapshots. An `update` reaches `posts` only through the next fetch, which
  the app's `reloadData()` performs after every edit. It does not reach
  `filteredPosts` at all. In the app, `filteredPosts` holds the same managed
  objects that `update` edits in place (StorageManager.swift:42-44). A
  filtered table therefore shows the new title and date right after an edit.
  In the model, `filteredPosts` keeps the pre-edit values until the next
  UpdateSearchResults or FilterContentForSearchText.
- Update and Delete, for a post not registered in the context: Core Data's
  behaviour there is not modelled. The model leaves the records as they are.
- DeletePost: the contract states only the final state. It does not state
  that the store delete comes after the in-memory removal. Nothing observes
  the state between the two steps in this single-threaded model; the body
  keeps the source's order.
- Text.Lowercased folds ASCII letters only. Unicode case mapping is not
  modelled.
- Text.LastPathComponent does not model Foundation's edge cases. A path
  ending in '/' gives "" here, while Foundation returns the last non-empty
  component.
- Text.Contains treats the empty string as contained in every string. The
  value of `filteredPosts` for an empty search text follows that. It is
  never shown, because isFiltering is false for empty text.
- ContainsIff (and Text.Contains, which it characterises) compares Unicode
  scalars one by one. Swift's `contains` compares Characters under
  canonical equivalence. The two can disagree on non-ASCII text with
  combining marks: a title with the single code point U+00E9 matches a search
  written as "e" plus U+0301 in Swift, but not here. Unicode normalisation is
  not modelled.
- The `print` calls (the image-path logs and the fetch error message) are
  output only and are not modelled.
- Concurrency and the process abort on a failed commit are not modelled.
  The abort is the outcome `saved == false`; no recovery follows in the
  source.
