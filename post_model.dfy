/** The one persisted entity of the app, a Post, and the list operations
    both the record store and the list controller use on sequences of posts. */
module PostModel {

  datatype Option<T> = None | Some(value: T) {
    function GetOr(default: T): T {
      match this
      case Some(v) => v
      case None => default
    }
  }

  /** Stands for the identity of a managed object: two posts are the same
      post exactly when they have the same id. */
  type PostId = nat

  /** A Post record: title, date and imagePath are optional attributes of
      the data model, so each of them may be nil. A date is a clock value. */
  datatype Post = Post(id: PostId, title: Option<string>, date: Option<int>, imagePath: Option<string>)

  /** The ids of the posts of a list. */
  function Ids(s: seq<Post>): set<PostId> {
    set p | p in s :: p.id
  }

  /** No two positions of the list hold the same post. */
  ghost predicate DistinctIds(s: seq<Post>) {
    forall i, j :: 0 <= i < j < |s| ==> s[i].id != s[j].id
  }

  /** `a` is obtained from `b` by leaving elements out, keeping the order of the rest. */
  ghost predicate Subsequence(a: seq<Post>, b: seq<Post>)
    decreases |b|
  {
    a == [] || (b != [] && ((a[0] == b[0] && Subsequence(a[1..], b[1..])) || Subsequence(a, b[1..])))
  }

  /** The position of the first post of `s` with the given id, if any
      (Array.firstIndex(of:) on managed objects, which compares identity). */
  function IndexOfId(s: seq<Post>, id: PostId): (r: Option<nat>)
    ensures r.Some? ==> r.value < |s| && s[r.value].id == id
    ensures r.Some? ==> forall j :: 0 <= j < r.value ==> s[j].id != id
    ensures r.None? <==> id !in Ids(s)
  {
    if s == [] then None
    else if s[0].id == id then Some(0)
    else match IndexOfId(s[1..], id)
      case None => None
      case Some(k) => Some(k + 1)
  }

  /** `s` with its first post of the given id removed; `s` itself when there is none. */
  function RemoveFirst(s: seq<Post>, id: PostId): seq<Post>
  {
    if s == [] then []
    else if s[0].id == id then s[1..]
    else [s[0]] + RemoveFirst(s[1..], id)
  }

  lemma DistinctCons(p: Post, s: seq<Post>)
    requires DistinctIds(s) && p.id !in Ids(s)
    ensures DistinctIds([p] + s)
  {
    forall i, j | 0 <= i < j < |[p] + s| ensures ([p] + s)[i].id != ([p] + s)[j].id {
      if i == 0 {
        assert ([p] + s)[j] == s[j - 1];
        assert s[j - 1] in s;
      } else {
        assert ([p] + s)[i] == s[i - 1] && ([p] + s)[j] == s[j - 1];
      }
    }
  }

  /** Appending a post with a new id keeps the list distinct. */
  lemma DistinctSnoc(s: seq<Post>, p: Post)
    requires DistinctIds(s) && p.id !in Ids(s)
    ensures DistinctIds(s + [p]) && Ids(s + [p]) == Ids(s) + {p.id}
  {
    forall i, j | 0 <= i < j < |s + [p]| ensures (s + [p])[i].id != (s + [p])[j].id {
      assert (s + [p])[i] == s[i];
      if j == |s| {
        assert s[i] in s;
      } else {
        assert (s + [p])[j] == s[j];
      }
    }
    assert forall q :: q in s + [p] <==> q in s || q == p;
  }

  /** Replacing a post by one with the same id keeps the list distinct. */
  lemma DistinctReplace(s: seq<Post>, i: nat, p: Post)
    requires DistinctIds(s) && i < |s| && p.id == s[i].id
    ensures DistinctIds(s[i := p])
  {
    var t := s[i := p];
    forall j, k | 0 <= j < k < |t| ensures t[j].id != t[k].id {
      assert t[j].id == s[j].id && t[k].id == s[k].id;
    }
  }

  /** The record list of a store whose fresh ids are drawn from `nextId`:
      distinct posts, every id below `nextId`. */
  ghost predicate WellFormed(records: seq<Post>, nextId: PostId) {
    DistinctIds(records) && forall i :: 0 <= i < |records| ==> records[i].id < nextId
  }

  lemma AppendFresh(records: seq<Post>, nextId: PostId, p: Post)
    requires WellFormed(records, nextId) && p.id == nextId
    ensures p.id !in Ids(records)
    ensures WellFormed(records + [p], nextId + 1)
  {
    forall q | q in records ensures q.id != p.id {
      var k :| 0 <= k < |records| && records[k] == q;
    }
    DistinctSnoc(records, p);
    var t := records + [p];
    forall i | 0 <= i < |t| ensures t[i].id < nextId + 1 {
      if i < |records| { assert t[i] == records[i]; }
    }
  }

  lemma ReplaceSameId(records: seq<Post>, nextId: PostId, i: nat, p: Post)
    requires WellFormed(records, nextId) && i < |records| && p.id == records[i].id
    ensures WellFormed(records[i := p], nextId)
  {
    DistinctReplace(records, i, p);
    var t := records[i := p];
    forall j | 0 <= j < |t| ensures t[j].id < nextId {
      assert t[j].id == records[j].id;
    }
  }

  lemma RemoveKeepsWellFormed(records: seq<Post>, nextId: PostId, id: PostId)
    requires WellFormed(records, nextId)
    ensures WellFormed(RemoveFirst(records, id), nextId)
    ensures id !in Ids(RemoveFirst(records, id))
  {
    RemoveFirstDistinct(records, id);
    RemoveFirstGone(records, id);
    var t := RemoveFirst(records, id);
    forall j | 0 <= j < |t| ensures t[j].id < nextId {
      assert t[j] in t;
      assert t[j].id in Ids(t);
      assert t[j].id in Ids(records);
      var q :| q in records && q.id == t[j].id;
      var k :| 0 <= k < |records| && records[k] == q;
    }
  }

  lemma {:induction false} SubsequenceIds(a: seq<Post>, b: seq<Post>)
    requires Subsequence(a, b)
    ensures Ids(a) <= Ids(b)
    decreases |b|
  {
    if a != [] {
      if a[0] == b[0] && Subsequence(a[1..], b[1..]) {
        SubsequenceIds(a[1..], b[1..]);
        assert a == [a[0]] + a[1..] && b == [b[0]] + b[1..];
        assert Ids(a) == {a[0].id} + Ids(a[1..]);
        assert Ids(b) == {b[0].id} + Ids(b[1..]);
      } else {
        SubsequenceIds(a, b[1..]);
        assert b == [b[0]] + b[1..];
        assert Ids(b) == {b[0].id} + Ids(b[1..]);
      }
    }
  }

  lemma IdsCons(p: Post, s: seq<Post>)
    ensures Ids([p] + s) == {p.id} + Ids(s)
  {
    assert forall q :: q in [p] + s <==> q == p || q in s;
  }

  /** A list of distinct posts splits into a head whose id the tail lacks and a distinct tail. */
  lemma DistinctTail(s: seq<Post>)
    requires DistinctIds(s) && s != []
    ensures DistinctIds(s[1..]) && s[0].id !in Ids(s[1..])
  {
    forall i, j | 0 <= i < j < |s[1..]| ensures s[1..][i].id != s[1..][j].id {
      assert s[1..][i] == s[i + 1] && s[1..][j] == s[j + 1];
    }
    forall q | q in s[1..] ensures q.id != s[0].id {
      var k :| 0 <= k < |s[1..]| && s[1..][k] == q;
      assert s[k + 1] == q;
    }
  }

  /** Leaving posts out of a list of distinct posts leaves a list of distinct posts. */
  lemma {:induction false} SubsequenceDistinct(a: seq<Post>, b: seq<Post>)
    requires Subsequence(a, b) && DistinctIds(b)
    ensures DistinctIds(a)
    decreases |b|
  {
    if a != [] {
      DistinctTail(b);
      if a[0] == b[0] && Subsequence(a[1..], b[1..]) {
        SubsequenceDistinct(a[1..], b[1..]);
        SubsequenceIds(a[1..], b[1..]);
        DistinctCons(a[0], a[1..]);
        assert a == [a[0]] + a[1..];
      } else {
        SubsequenceDistinct(a, b[1..]);
      }
    }
  }

  /** An absent post leaves the list as it was. */
  lemma {:induction false} RemoveFirstAbsent(s: seq<Post>, id: PostId)
    requires id !in Ids(s)
    ensures RemoveFirst(s, id) == s
  {
    if s != [] {
      assert s == [s[0]] + s[1..];
      IdsCons(s[0], s[1..]);
      RemoveFirstAbsent(s[1..], id);
    }
  }

  /** Removing a present post shortens the list by exactly one. */
  lemma {:induction false} RemoveFirstPresent(s: seq<Post>, id: PostId)
    requires id in Ids(s)
    ensures |RemoveFirst(s, id)| == |s| - 1
  {
    assert s == [s[0]] + s[1..];
    IdsCons(s[0], s[1..]);
    if s[0].id != id {
      RemoveFirstPresent(s[1..], id);
    }
  }

  /** A present post is cut out at its first position and the rest keep their order. */
  lemma {:induction false} RemoveFirstAt(s: seq<Post>, id: PostId, i: nat)
    requires IndexOfId(s, id) == Some(i)
    ensures RemoveFirst(s, id) == s[..i] + s[i + 1..]
  {
    if s[0].id != id {
      var t := s[1..];
      var k := i - 1;
      assert IndexOfId(t, id) == Some(k);
      RemoveFirstAt(t, id, k);
      assert s[..k + 1] == [s[0]] + t[..k];
      assert s[k + 2..] == t[k + 1..];
      calc {
        RemoveFirst(s, id);
        [s[0]] + RemoveFirst(t, id);
        [s[0]] + (t[..k] + t[k + 1..]);
        ([s[0]] + t[..k]) + t[k + 1..];
      }
    }
  }

  /** What removing leaves keeps its order. */
  lemma {:induction false} RemoveFirstSubsequence(s: seq<Post>, id: PostId)
    ensures Subsequence(RemoveFirst(s, id), s)
  {
    if s != [] {
      if s[0].id == id {
        SubsequenceDrop(s[1..], s[0]);
      } else {
        RemoveFirstSubsequence(s[1..], id);
        assert ([s[0]] + RemoveFirst(s[1..], id))[1..] == RemoveFirst(s[1..], id);
      }
    }
  }

  lemma {:induction false} SubsequenceRefl(s: seq<Post>)
    ensures Subsequence(s, s)
  {
    if s != [] {
      SubsequenceRefl(s[1..]);
    }
  }

  lemma SubsequenceDrop(s: seq<Post>, p: Post)
    ensures Subsequence(s, [p] + s)
  {
    SubsequenceRefl(s);
    assert ([p] + s)[1..] == s;
  }

  /** In a list of distinct posts, the post at position i is the first one with its id. */
  lemma IndexOfDistinct(s: seq<Post>, i: nat)
    requires DistinctIds(s) && i < |s|
    ensures IndexOfId(s, s[i].id) == Some(i)
  {
    assert s[i] in s;
  }

  /** Removing from a list of distinct posts leaves none with that id, and every other id. */
  lemma {:induction false} RemoveFirstGone(s: seq<Post>, id: PostId)
    requires DistinctIds(s)
    ensures Ids(RemoveFirst(s, id)) == Ids(s) - {id}
  {
    if s != [] {
      DistinctTail(s);
      assert s == [s[0]] + s[1..];
      IdsCons(s[0], s[1..]);
      if s[0].id != id {
        RemoveFirstGone(s[1..], id);
        IdsCons(s[0], RemoveFirst(s[1..], id));
      }
    }
  }

  /** Removing from a list of distinct posts keeps it distinct and leaves no post with that id. */
  lemma RemoveFirstDistinct(s: seq<Post>, id: PostId)
    requires DistinctIds(s)
    ensures DistinctIds(RemoveFirst(s, id)) && id !in Ids(RemoveFirst(s, id))
  {
    RemoveFirstSubsequence(s, id);
    SubsequenceDistinct(RemoveFirst(s, id), s);
    RemoveFirstGone(s, id);
  }
}
