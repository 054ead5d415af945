/** PostsViewController: the table of posts, its search filter and row deletion.
    The table view and the search controller are reduced to the state the
    controller reads from them: whether search is active and the search bar's
    text (nil or a string). */
module PostsList {
  import opened PostModel
  import opened Text
  import opened Storage

  /** The filter closure: the lowercased title contains the lowercased search
      text; a post without a title never matches. */
  predicate Matches(p: Post, searchText: string) {
    match p.title
    case None => false
    case Some(title) => Contains(Lowercased(title), Lowercased(searchText))
  }

  /** posts.filter { ... } with the closure above. */
  function FilterPosts(posts: seq<Post>, searchText: string): seq<Post> {
    if posts == [] then []
    else if Matches(posts[0], searchText) then [posts[0]] + FilterPosts(posts[1..], searchText)
    else FilterPosts(posts[1..], searchText)
  }

  /** The filter keeps exactly the posts with a title in which the search
      text occurs, case-insensitively. */
  lemma {:induction false} FilterMembers(posts: seq<Post>, searchText: string)
    ensures forall p :: p in FilterPosts(posts, searchText) <==> p in posts && Matches(p, searchText)
    ensures forall p :: p in FilterPosts(posts, searchText) ==> p.title.Some?
  {
    if posts != [] {
      FilterMembers(posts[1..], searchText);
      assert posts == [posts[0]] + posts[1..];
    }
  }

  /** Matching is substring search on the lowercased strings. */
  lemma MatchesIff(p: Post, searchText: string)
    ensures Matches(p, searchText) <==>
      p.title.Some? && exists i :: OccursAt(Lowercased(p.title.value), Lowercased(searchText), i)
  {
    if p.title.Some? {
      ContainsIff(Lowercased(p.title.value), Lowercased(searchText));
    }
  }

  /** Matching ignores case: lowercasing the search text, or the title, first
      gives the same answer. */
  lemma MatchesCaseInsensitive(p: Post, searchText: string)
    ensures Matches(p, Lowercased(searchText)) == Matches(p, searchText)
    ensures p.title.Some? ==>
      Matches(p.(title := Some(Lowercased(p.title.value))), searchText) == Matches(p, searchText)
  {
    LowercasedIdempotent(searchText);
    if p.title.Some? {
      LowercasedIdempotent(p.title.value);
    }
  }

  /** Two search texts that differ only in letter case match the same posts. */
  lemma MatchesIgnoresCase(p: Post, searchText: string, other: string)
    requires SameUpToCase(searchText, other)
    ensures Matches(p, searchText) == Matches(p, other)
  {
    LowercasedSameUpToCase(searchText, other);
  }

  /** The filter keeps the relative order of `posts`. */
  lemma {:induction false} FilterSubsequence(posts: seq<Post>, searchText: string)
    ensures Subsequence(FilterPosts(posts, searchText), posts)
  {
    if posts != [] {
      FilterSubsequence(posts[1..], searchText);
      if Matches(posts[0], searchText) {
        assert ([posts[0]] + FilterPosts(posts[1..], searchText))[1..] == FilterPosts(posts[1..], searchText);
      }
    }
  }

  /** Filtering a filtered list changes nothing. */
  lemma {:induction false} FilterIdempotent(posts: seq<Post>, searchText: string)
    ensures FilterPosts(FilterPosts(posts, searchText), searchText) == FilterPosts(posts, searchText)
  {
    if posts != [] {
      FilterIdempotent(posts[1..], searchText);
      if Matches(posts[0], searchText) {
        assert ([posts[0]] + FilterPosts(posts[1..], searchText))[1..] == FilterPosts(posts[1..], searchText);
      }
    }
  }

  class PostsViewController {
    var posts: seq<Post>
    var filteredPosts: seq<Post>
    /** searchController.isActive */
    var searchActive: bool
    /** searchController.searchBar.text */
    var searchText: Option<string>
    const storageManager: StorageManager

    ghost predicate Valid()
      reads this, storageManager
    {
      storageManager.Valid() && DistinctIds(posts) && DistinctIds(filteredPosts)
    }

    constructor (storageManager: StorageManager)
      requires storageManager.Valid()
      ensures Valid() && this.storageManager == storageManager
      ensures posts == [] && filteredPosts == [] && !searchActive && searchText == None
    {
      this.storageManager := storageManager;
      posts, filteredPosts := [], [];
      searchActive, searchText := false, None;
    }

    /** searchBarIsEmpty: a nil text counts as empty. */
    function SearchBarIsEmpty(): (r: bool)
      reads this
      ensures r <==> searchText == None || searchText == Some("")
    {
      searchText.GetOr("") == ""
    }

    /** isFiltering: both flags are needed, the search being active and its text non-empty. */
    function IsFiltering(): (r: bool)
      reads this
      ensures r <==> searchActive && searchText.Some? && |searchText.value| > 0
      ensures !searchActive ==> !r
    {
      searchActive && !SearchBarIsEmpty()
    }

    /** The list the table shows, by which the rows are counted, drawn and selected. */
    function Rows(): seq<Post>
      reads this
    {
      if IsFiltering() then filteredPosts else posts
    }

    /** tableView(_:numberOfRowsInSection:) */
    function NumberOfRows(): (r: nat)
      reads this
      ensures r == |Rows()|
      ensures IsFiltering() ==> r == |filteredPosts|
      ensures !IsFiltering() ==> r == |posts|
    {
      if IsFiltering() then |filteredPosts| else |posts|
    }

    /** getPost(at:): the post shown in the given row. */
    function GetPost(row: nat): (r: Post)
      reads this
      requires row < NumberOfRows()
      ensures r == Rows()[row]
      ensures r in (if IsFiltering() then filteredPosts else posts)
    {
      if IsFiltering() then filteredPosts[row] else posts[row]
    }

    /** fetchData(): a successful fetch replaces `posts` wholesale with the
        store's result, all its records once each in descending date order; a
        failed one leaves it. `filteredPosts` is not touched. */
    method FetchData(fetchSucceeds: bool)
      requires Valid()
      modifies this`posts
      ensures Valid()
      ensures fetchSucceeds ==> multiset(posts) == multiset(storageManager.records) && DescendingByDate(posts)
      ensures !fetchSucceeds ==> posts == old(posts)
      ensures filteredPosts == old(filteredPosts)
    {
      var result := storageManager.FetchData(fetchSucceeds);
      match result {
        case Success(fetched) => posts := fetched;
        case Failure(_) =>
      }
    }

    /** filterContentForSearchText(_:): recomputes the filtered list from `posts`, which it leaves as is. */
    method FilterContentForSearchText(text: string)
      requires Valid()
      modifies this`filteredPosts
      ensures Valid()
      ensures filteredPosts == FilterPosts(posts, text)
      ensures Subsequence(filteredPosts, posts)
      ensures posts == old(posts)
    {
      FilterSubsequence(posts, text);
      SubsequenceDistinct(FilterPosts(posts, text), posts);
      filteredPosts := FilterPosts(posts, text);
    }

    /** updateSearchResults(for:): filters by the search bar's text, nil read as "". */
    method UpdateSearchResults()
      requires Valid()
      modifies this`filteredPosts
      ensures Valid()
      ensures filteredPosts == FilterPosts(posts, searchText.GetOr(""))
      ensures posts == old(posts)
    {
      FilterContentForSearchText(searchText.GetOr(""));
    }

    /** removePost(_:from:): a copy of `list` without the first occurrence of `post`. */
    method RemovePost(post: Post, list: seq<Post>) returns (newList: seq<Post>)
      ensures newList == RemoveFirst(list, post.id)
      ensures post.id in Ids(list) ==> |newList| == |list| - 1
      ensures post.id !in Ids(list) ==> newList == list
      ensures IndexOfId(list, post.id).Some? ==>
        var i := IndexOfId(list, post.id).value; newList == list[..i] + list[i + 1..]
    {
      var i := 0;
      while i < |list| && list[i].id != post.id
        invariant 0 <= i <= |list|
        invariant forall j :: 0 <= j < i ==> list[j].id != post.id
      {
        i := i + 1;
      }
      newList := list;
      if i < |list| {
        assert IndexOfId(list, post.id) == Some(i);
        RemoveFirstAt(list, post.id, i);
        RemoveFirstPresent(list, post.id);
        newList := newList[..i] + newList[i + 1..];
      } else {
        assert post.id !in Ids(list);
        RemoveFirstAbsent(list, post.id);
      }
    }

    /** deletePost(_:at:): removes the post from both lists (in an order that
        depends on whether the table is filtering, with the same outcome), then
        deletes it from the store. */
    method DeletePost(post: Post, commitSucceeds: bool) returns (saved: bool)
      requires Valid()
      modifies this`posts, this`filteredPosts, storageManager
      ensures Valid()
      ensures posts == RemoveFirst(old(posts), post.id)
      ensures filteredPosts == RemoveFirst(old(filteredPosts), post.id)
      ensures post.id !in Ids(posts) && post.id !in Ids(filteredPosts)
      ensures storageManager.records == RemoveFirst(old(storageManager.records), post.id)
      ensures post.id !in Ids(storageManager.records)
      ensures storageManager.nextId == old(storageManager.nextId)
      ensures saved == ((post.id !in Ids(old(storageManager.records)) && !old(storageManager.hasChanges)) || commitSucceeds)
      ensures saved ==> !storageManager.hasChanges && storageManager.persisted == storageManager.records
      ensures !saved ==> storageManager.hasChanges && storageManager.persisted == old(storageManager.persisted)
    {
      if IsFiltering() {
        filteredPosts := RemovePost(post, filteredPosts);
        posts := RemovePost(post, posts);
      } else {
        posts := RemovePost(post, posts);
        filteredPosts := RemovePost(post, filteredPosts);
      }
      RemoveFirstDistinct(old(posts), post.id);
      RemoveFirstDistinct(old(filteredPosts), post.id);
      saved := storageManager.Delete(post, commitSucceeds);
    }

    /** The swipe-to-delete handler (tableView(_:commit:forRowAt:)): deletes
        the post of the row. The table loses exactly that row, which is what
        deleteRows(at:) demands of the data source. */
    method DeleteRow(row: nat, commitSucceeds: bool) returns (saved: bool)
      requires Valid()
      requires row < NumberOfRows()
      modifies this`posts, this`filteredPosts, storageManager
      ensures Valid()
      ensures NumberOfRows() == old(NumberOfRows()) - 1
      ensures Rows() == old(Rows())[..row] + old(Rows())[row + 1..]
      ensures posts == RemoveFirst(old(posts), old(GetPost(row)).id)
      ensures filteredPosts == RemoveFirst(old(filteredPosts), old(GetPost(row)).id)
      ensures storageManager.records == RemoveFirst(old(storageManager.records), old(GetPost(row)).id)
      ensures old(GetPost(row)).id !in Ids(storageManager.records)
      ensures storageManager.nextId == old(storageManager.nextId)
      ensures saved == ((old(GetPost(row)).id !in Ids(old(storageManager.records)) && !old(storageManager.hasChanges)) || commitSucceeds)
      ensures saved ==> !storageManager.hasChanges && storageManager.persisted == storageManager.records
      ensures !saved ==> storageManager.hasChanges && storageManager.persisted == old(storageManager.persisted)
    {
      var post := GetPost(row);
      ghost var shown := Rows();
      IndexOfDistinct(shown, row);
      RemoveFirstAt(shown, post.id, row);
      saved := DeletePost(post, commitSucceeds);
    }
  }

  /** Three posts created one after another, dated 1, 2 and 3, are registered in that order. */
  method GroceriesStore() {
    var store := new StorageManager([]);
    assert store.nextId == 0;
    var saved := store.Create("Groceries", "d/a", 1, true);
    saved := store.Create("Gym", "d/b", 2, true);
    saved := store.Create("Grocery run", "d/c", 3, true);
    assert |store.records| == 3 && !store.hasChanges;
    assert store.records[0].id == 0 && store.records[1].id == 1 && store.records[2].id == 2;
    assert store.records[0].title == Some("Groceries") && store.records[0].date == Some(1);
    assert store.records[1].title == Some("Gym") && store.records[1].date == Some(2);
    assert store.records[2].title == Some("Grocery run") && store.records[2].date == Some(3);
    GroceriesWalkthrough(store, store.records[0], store.records[1], store.records[2]);
  }

  /** Over the store built above, the table lists the posts newest first; the
      search "gro" keeps two of them in that order; deleting the middle one
      leaves the other two in the table and in the store's listing. */
  method GroceriesWalkthrough(store: StorageManager, a: Post, b: Post, c: Post)
    requires store.Valid() && store.records == [a, b, c]
    requires a.title == Some("Groceries") && b.title == Some("Gym") && c.title == Some("Grocery run")
    requires a.date == Some(1) && b.date == Some(2) && c.date == Some(3)
    requires a.id == 0 && b.id == 1 && c.id == 2
    modifies store
  {
    WalkthroughSearch(a, b, c);
    WalkthroughDelete(a, b, c);
    var list := new PostsViewController(store);
    list.FetchData(true);
    WalkthroughOrder(a, b, c, list.posts);
    assert list.posts == [c, b, a];
    list.FilterContentForSearchText("gro");
    assert list.filteredPosts == [c, a];

    var saved := list.DeletePost(b, true);
    assert list.posts == [c, a] && list.filteredPosts == [c, a];
    assert store.records == [a, c];
    list.FetchData(true);
    WalkthroughRefetch(a, c, list.posts);
    assert list.posts == [c, a];
  }

  /** Posts dated 1, 2 and 3 have one listing descending by date: 3, 2, 1. */
  lemma WalkthroughOrder(a: Post, b: Post, c: Post, listed: seq<Post>)
    requires a.date == Some(1) && b.date == Some(2) && c.date == Some(3)
    requires multiset(listed) == multiset([a, b, c]) && DescendingByDate(listed)
    ensures listed == [c, b, a]
  {
    assert multiset([c, b, a]) == multiset([a, b, c]);
    assert forall p :: p in [c, b, a] <==> p == c || p == b || p == a;
    DescendingUnique([c, b, a], listed);
  }

  /** Posts dated 1 and 3 have one listing descending by date: 3, 1. */
  lemma WalkthroughRefetch(a: Post, c: Post, listed: seq<Post>)
    requires a.date == Some(1) && c.date == Some(3)
    requires multiset(listed) == multiset([a, c]) && DescendingByDate(listed)
    ensures listed == [c, a]
  {
    assert multiset([c, a]) == multiset([a, c]);
    assert forall p :: p in [c, a] <==> p == c || p == a;
    DescendingUnique([c, a], listed);
  }

  lemma WalkthroughDelete(a: Post, b: Post, c: Post)
    requires a.id == 0 && b.id == 1 && c.id == 2
    ensures RemoveFirst([c, b, a], b.id) == [c, a] && RemoveFirst([c, a], b.id) == [c, a]
    ensures RemoveFirst([a, b, c], b.id) == [a, c]
  {
    assert [c, b, a][1..] == [b, a] && [b, a][1..] == [a];
    assert [c, a][1..] == [a] && [a][1..] == [];
    assert [a, b, c][1..] == [b, c] && [b, c][1..] == [c];
    assert RemoveFirst([a], b.id) == [a] + RemoveFirst([], b.id) == [a];
    assert RemoveFirst([c], b.id) == [c] + RemoveFirst([], b.id) == [c];
  }

  lemma WalkthroughSearch(a: Post, b: Post, c: Post)
    requires a.title == Some("Groceries") && b.title == Some("Gym") && c.title == Some("Grocery run")
    ensures FilterPosts([c, b, a], "gro") == [c, a]
  {
    assert Lowercased("gro") == "gro";
    assert Lowercased("Groceries")[..3] == "gro";
    assert Lowercased("Grocery run")[..3] == "gro";
    var gym := Lowercased("Gym");
    assert gym == "gym";
    assert !Contains(gym, "gro") by {
      assert gym[1..] == "ym";
      assert !("gro" <= gym) by { assert gym[1] != "gro"[1]; }
      assert !Contains("ym", "gro") by {
        assert "ym"[1..] == "m" && "m"[1..] == "";
        assert !Contains("m", "gro");
      }
    }
    assert Matches(c, "gro") && !Matches(b, "gro") && Matches(a, "gro");
    assert [c, b, a][1..] == [b, a] && [b, a][1..] == [a] && [a][1..] == [];
    assert FilterPosts([a], "gro") == [a];
    assert FilterPosts([b, a], "gro") == [a];
  }
}
