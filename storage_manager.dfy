/** StorageManager: the app's record store. The Core Data view context is
    modelled as the sequence of registered Post records (in insertion order),
    the persistent store as the records of the last commit, and the context's
    hasChanges flag as a field. */
module Storage {
  import opened PostModel
  import opened Text

  datatype StoreError = FetchFailed

  datatype Result<T> = Success(value: T) | Failure(error: StoreError)

  /** `p` is listed strictly before `q` in a newest-first listing: `p` has a
      date and `q` has none or an older one. */
  predicate Precedes(p: Post, q: Post) {
    p.date.Some? && (q.date.None? || p.date.value > q.date.value)
  }

  /** `p` may stand before `q` in a newest-first listing. */
  predicate NotAfter(p: Post, q: Post) {
    q.date.None? || (p.date.Some? && p.date.value >= q.date.value)
  }

  /** The descending-date order of the fetch request: among posts that have
      a date, a newer one never comes after an older one. Ties and posts
      without a date are left unconstrained. */
  ghost predicate DescendingByDate(s: seq<Post>) {
    forall i, j :: 0 <= i < j < |s| && s[i].date.Some? && s[j].date.Some? ==> s[i].date.value >= s[j].date.value
  }

  /** The order the model's fetch produces: descending by date, posts without a date last. */
  ghost predicate NewestFirst(s: seq<Post>) {
    forall i, j :: 0 <= i < j < |s| ==> NotAfter(s[i], s[j])
  }

  function InsertByDate(s: seq<Post>, p: Post): seq<Post> {
    if s == [] then [p]
    else if Precedes(p, s[0]) then [p] + s
    else [s[0]] + InsertByDate(s[1..], p)
  }

  /** The fetch request sorted by the descriptor (key "date", ascending false). */
  function SortByDate(s: seq<Post>): seq<Post> {
    if s == [] then [] else InsertByDate(SortByDate(s[1..]), s[0])
  }

  lemma {:induction false} InsertPermutation(s: seq<Post>, p: Post)
    ensures multiset(InsertByDate(s, p)) == multiset(s) + multiset{p}
  {
    if s == [] {
    } else if Precedes(p, s[0]) {
      assert InsertByDate(s, p) == [p] + s;
    } else {
      var rest := InsertByDate(s[1..], p);
      InsertPermutation(s[1..], p);
      assert InsertByDate(s, p) == [s[0]] + rest;
      assert multiset([s[0]] + rest) == multiset{s[0]} + multiset(rest);
      assert s == [s[0]] + s[1..];
      assert multiset(s) == multiset{s[0]} + multiset(s[1..]);
    }
  }

  lemma NewestFirstCons(p: Post, s: seq<Post>)
    requires NewestFirst(s)
    requires forall q :: q in s ==> NotAfter(p, q)
    ensures NewestFirst([p] + s)
  {
    forall i, j | 0 <= i < j < |[p] + s| ensures NotAfter(([p] + s)[i], ([p] + s)[j]) {
      assert ([p] + s)[j] == s[j - 1];
      if i > 0 {
        assert ([p] + s)[i] == s[i - 1];
      } else {
        assert s[j - 1] in s;
      }
    }
  }

  lemma {:induction false} InsertNewestFirst(s: seq<Post>, p: Post)
    requires NewestFirst(s)
    ensures NewestFirst(InsertByDate(s, p))
  {
    if s == [] {
    } else if Precedes(p, s[0]) {
      forall q | q in s ensures NotAfter(p, q) {
        var k :| 0 <= k < |s| && s[k] == q;
        if k > 0 {
          assert NotAfter(s[0], s[k]);
        }
      }
      NewestFirstCons(p, s);
    } else {
      var rest := InsertByDate(s[1..], p);
      assert NewestFirst(s[1..]) by {
        forall i, j | 0 <= i < j < |s[1..]| ensures NotAfter(s[1..][i], s[1..][j]) {
          assert s[1..][i] == s[i + 1] && s[1..][j] == s[j + 1];
        }
      }
      InsertNewestFirst(s[1..], p);
      InsertPermutation(s[1..], p);
      forall q | q in rest ensures NotAfter(s[0], q) {
        assert q in multiset(rest);
        if q != p {
          assert q in multiset(s[1..]);
          var k :| 0 <= k < |s[1..]| && s[1..][k] == q;
          assert s[k + 1] == q;
        }
      }
      NewestFirstCons(s[0], rest);
    }
  }

  lemma IdsOfPermutation(a: seq<Post>, b: seq<Post>)
    requires multiset(a) == multiset(b)
    ensures Ids(a) == Ids(b)
  {
    assert forall p :: p in a <==> p in multiset(a);
    assert forall p :: p in b <==> p in multiset(b);
  }

  lemma {:induction false} InsertDistinct(s: seq<Post>, p: Post)
    requires DistinctIds(s) && p.id !in Ids(s)
    ensures DistinctIds(InsertByDate(s, p))
  {
    if s == [] {
    } else if Precedes(p, s[0]) {
      DistinctCons(p, s);
    } else {
      DistinctTail(s);
      assert s == [s[0]] + s[1..];
      IdsCons(s[0], s[1..]);
      InsertDistinct(s[1..], p);
      InsertPermutation(s[1..], p);
      IdsOfPermutation(InsertByDate(s[1..], p), s[1..] + [p]);
      IdsCons(p, s[1..]);
      assert Ids(s[1..] + [p]) == Ids([p] + s[1..]) by {
        assert forall q :: q in s[1..] + [p] <==> q in [p] + s[1..];
      }
      DistinctCons(s[0], InsertByDate(s[1..], p));
    }
  }

  /** The fetched list holds exactly the stored records. */
  lemma {:induction false} SortPermutation(s: seq<Post>)
    ensures multiset(SortByDate(s)) == multiset(s)
  {
    if s != [] {
      SortPermutation(s[1..]);
      InsertPermutation(SortByDate(s[1..]), s[0]);
      assert s == [s[0]] + s[1..];
    }
  }

  /** The fetched list is ordered newest first, hence descending by date. */
  lemma {:induction false} SortNewestFirst(s: seq<Post>)
    ensures NewestFirst(SortByDate(s)) && DescendingByDate(SortByDate(s))
  {
    if s != [] {
      SortNewestFirst(s[1..]);
      InsertNewestFirst(SortByDate(s[1..]), s[0]);
    }
  }

  /** Fetching a store of distinct records lists each of them once. */
  lemma {:induction false} SortDistinct(s: seq<Post>)
    requires DistinctIds(s)
    ensures DistinctIds(SortByDate(s))
  {
    if s != [] {
      DistinctTail(s);
      SortDistinct(s[1..]);
      SortPermutation(s[1..]);
      IdsOfPermutation(SortByDate(s[1..]), s[1..]);
      InsertDistinct(SortByDate(s[1..]), s[0]);
    }
  }

  /** Every post has a date and no two different posts share one: the case in
      which the fetch request's sort descriptor fixes the order completely. */
  ghost predicate DatedApart(s: seq<Post>) {
    && (forall p :: p in s ==> p.date.Some?)
    && (forall p, q :: p in s && q in s && p.date == q.date ==> p == q)
  }

  lemma DescendingTail(s: seq<Post>)
    requires DescendingByDate(s) && s != []
    ensures DescendingByDate(s[1..])
  {
    forall i, j | 0 <= i < j < |s[1..]| && s[1..][i].date.Some? && s[1..][j].date.Some?
      ensures s[1..][i].date.value >= s[1..][j].date.value
    {
      assert s[1..][i] == s[i + 1] && s[1..][j] == s[j + 1];
    }
  }

  /** The newest record heads every descending listing of records dated apart. */
  lemma SameHead(s: seq<Post>, t: seq<Post>)
    requires s != [] && t != [] && multiset(s) == multiset(t)
    requires DescendingByDate(s) && DescendingByDate(t) && DatedApart(s)
    ensures s[0] == t[0]
  {
    assert s[0] in multiset(t) && t[0] in multiset(s);
    var k :| 0 <= k < |t| && t[k] == s[0];
    var j :| 0 <= j < |s| && s[j] == t[0];
    assert s[0] in s && s[j] in s;
    assert s[0].date.value >= t[0].date.value by {
      if j > 0 { assert s[0].date.value >= s[j].date.value; }
    }
    assert t[0].date.value >= s[0].date.value by {
      if k > 0 { assert t[0].date.value >= t[k].date.value; }
    }
  }

  lemma MultisetTail(s: seq<Post>, t: seq<Post>)
    requires s != [] && t != [] && s[0] == t[0] && multiset(s) == multiset(t)
    ensures multiset(s[1..]) == multiset(t[1..])
  {
    assert s == [s[0]] + s[1..] && t == [t[0]] + t[1..];
    assert multiset(s[1..]) == multiset(s) - multiset{s[0]};
    assert multiset(t[1..]) == multiset(t) - multiset{t[0]};
  }

  lemma DatedApartTail(s: seq<Post>)
    requires DatedApart(s) && s != []
    ensures DatedApart(s[1..])
  {
    assert forall p :: p in s[1..] ==> p in s;
  }

  /** When the records are dated apart, there is exactly one listing of them
      descending by date: any two such listings are equal. */
  lemma {:induction false} DescendingUnique(s: seq<Post>, t: seq<Post>)
    requires multiset(s) == multiset(t)
    requires DescendingByDate(s) && DescendingByDate(t) && DatedApart(s)
    ensures s == t
    decreases |s|
  {
    assert |s| == |multiset(s)| == |multiset(t)| == |t|;
    if s != [] {
      SameHead(s, t);
      MultisetTail(s, t);
      DescendingTail(s);
      DescendingTail(t);
      DatedApartTail(s);
      DescendingUnique(s[1..], t[1..]);
      assert s == [s[0]] + s[1..] && t == [t[0]] + t[1..];
    }
  }

  /** A bound above every id of the list, so that a counter starting there yields fresh ids. */
  function IdBound(s: seq<Post>): (r: PostId)
    ensures forall i :: 0 <= i < |s| ==> s[i].id < r
    ensures DistinctIds(s) ==> WellFormed(s, r)
  {
    if s == [] then 0
    else var b := IdBound(s[1..]); if s[0].id < b then b else s[0].id + 1
  }

  class StorageManager {
    /** The records registered in the view context, in insertion order. */
    var records: seq<Post>
    /** The records of the persistent store, as of the last successful commit. */
    var persisted: seq<Post>
    /** The context's hasChanges flag: set by every insert, edit and delete. */
    var hasChanges: bool
    /** Where the identities of newly inserted managed objects are drawn from. */
    var nextId: PostId

    ghost predicate Valid()
      reads this
    {
      && WellFormed(records, nextId)
      && (!hasChanges ==> records == persisted)
    }

    /** Loading the persistent container: the context starts with the stored records and no changes. */
    constructor (stored: seq<Post>)
      requires DistinctIds(stored)
      ensures Valid()
      ensures records == stored && persisted == stored && !hasChanges
      ensures nextId == IdBound(stored)
    {
      records := stored;
      persisted := stored;
      hasChanges := false;
      nextId := IdBound(stored);
    }

    /** saveContext(): commits only when the context has changes. A failed
        commit aborts the app in the source; here it is the outcome `saved == false`
        with the pending changes left uncommitted. */
    method SaveContext(commitSucceeds: bool) returns (saved: bool)
      requires Valid()
      modifies this
      ensures Valid()
      ensures saved == (!old(hasChanges) || commitSucceeds)
      ensures !old(hasChanges) ==> unchanged(this)
      ensures records == old(records) && nextId == old(nextId)
      ensures saved ==> !hasChanges && persisted == records
      ensures !saved ==> hasChanges && persisted == old(persisted)
    {
      if hasChanges {
        if commitSucceeds {
          persisted := records;
          hasChanges := false;
          saved := true;
        } else {
          saved := false;
        }
      } else {
        saved := true;
      }
    }

    /** create(_:imageURL:): inserts one new record, dated `now`, whose image
        path is the URL's last path component, then saves the context. */
    method Create(postName: string, imageURL: string, now: int, commitSucceeds: bool) returns (saved: bool)
      requires Valid()
      modifies this
      ensures Valid()
      ensures old(nextId) !in Ids(old(records)) && nextId == old(nextId) + 1
      ensures records == old(records) + [Post(old(nextId), Some(postName), Some(now), Some(LastPathComponent(imageURL)))]
      ensures saved == commitSucceeds
      ensures saved ==> !hasChanges && persisted == records
      ensures !saved ==> hasChanges && persisted == old(persisted)
    {
      var post := Post(nextId, Some(postName), Some(now), Some(LastPathComponent(imageURL)));
      AppendFresh(records, nextId, post);
      records := records + [post];
      nextId := nextId + 1;
      hasChanges := true;
      saved := SaveContext(commitSucceeds);
    }

    /** update(_:newName:imageURL:): overwrites the title, the date (with
        `now`) and the image path of the post's record, then saves the context.
        A post not registered in the context leaves the records as they are. */
    method Update(post: Post, newName: string, imageURL: string, now: int, commitSucceeds: bool) returns (saved: bool)
      requires Valid()
      modifies this
      ensures Valid()
      ensures nextId == old(nextId) && |records| == |old(records)|
      ensures match IndexOfId(old(records), post.id)
        case None => records == old(records) && saved == (!old(hasChanges) || commitSucceeds)
        case Some(i) =>
          && records == old(records)[i := Post(post.id, Some(newName), Some(now), Some(LastPathComponent(imageURL)))]
          && saved == commitSucceeds
      ensures saved ==> !hasChanges && persisted == records
      ensures !saved ==> hasChanges && persisted == old(persisted)
    {
      match IndexOfId(records, post.id) {
        case None =>
        case Some(i) =>
          var edited := Post(post.id, Some(newName), Some(now), Some(LastPathComponent(imageURL)));
          ReplaceSameId(records, nextId, i, edited);
          records := records[i := edited];
          hasChanges := true;
      }
      saved := SaveContext(commitSucceeds);
    }

    /** delete(_:): removes the post's record from the context, then saves the context. */
    method Delete(post: Post, commitSucceeds: bool) returns (saved: bool)
      requires Valid()
      modifies this
      ensures Valid()
      ensures nextId == old(nextId)
      ensures records == RemoveFirst(old(records), post.id)
      ensures post.id !in Ids(records)
      ensures post.id in Ids(old(records)) ==> |records| == |old(records)| - 1
      ensures post.id !in Ids(old(records)) ==> records == old(records)
      ensures saved == ((post.id !in Ids(old(records)) && !old(hasChanges)) || commitSucceeds)
      ensures saved ==> !hasChanges && persisted == records
      ensures !saved ==> hasChanges && persisted == old(persisted)
    {
      RemoveKeepsWellFormed(records, nextId, post.id);
      if post.id in Ids(records) {
        RemoveFirstPresent(records, post.id);
        records := RemoveFirst(records, post.id);
        hasChanges := true;
      } else {
        RemoveFirstAbsent(records, post.id);
      }
      saved := SaveContext(commitSucceeds);
    }

    /** fetchData(completion:): every record of the context, once each, in
        descending date order; the store is not changed. The order among
        equal or missing dates is left open. A fetch error is the outcome Failure. */
    method FetchData(fetchSucceeds: bool) returns (result: Result<seq<Post>>)
      requires Valid()
      ensures result.Success? <==> fetchSucceeds
      ensures result.Success? ==> multiset(result.value) == multiset(records)
      ensures result.Success? ==> DescendingByDate(result.value)
      ensures result.Success? ==> DistinctIds(result.value)
    {
      if fetchSucceeds {
        SortPermutation(records);
        SortNewestFirst(records);
        SortDistinct(records);
        result := Success(SortByDate(records));
      } else {
        result := Failure(FetchFailed);
      }
    }
  }
}
