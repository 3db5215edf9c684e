/**
  The collection of posts and every read-only operation the route handlers
  perform on it: lookup by position and by id, the highest-id reduction used
  when adding, the filter by published flag, the parsing of the `published`
  path parameter, and the reference definitions of what a status update and a
  delete leave behind.
 */
module Posts {

  /** One post; `id` is meant to be unique, but nothing enforces it. */
  datatype Post = Post(id: int, title: string, published: bool)

  /** What `parseInt` yields for an id path parameter: an integer or NaN. */
  datatype ParsedInt = Int(value: int) | NaN

  datatype Option<T> = None | Some(value: T)

  /** `post.id === id`: the parsed id is the post's own id; strict equality
      with NaN never holds. */
  predicate Matches(p: Post, id: ParsedInt)
    ensures Matches(p, id) <==> id == Int(p.id)
  {
    id.Int? && p.id == id.value
  }

  /** Add assigns one past the highest id, so ids are meant to be unique;
      nothing enforces it. */
  predicate UniqueIds(posts: seq<Post>)
  {
    forall i, j :: 0 <= i < j < |posts| ==> posts[i].id != posts[j].id
  }

  // ---------------------------------------------------------------------------
  // The `published` path parameter
  // ---------------------------------------------------------------------------

  /** `param === 'true' ? true : false`, as in the add and filter handlers:
      true for the four characters t, r, u, e in lower case and nothing else. */
  predicate ParseFlag(param: string)
    ensures ParseFlag(param) <==>
      |param| == 4 && param[0] == 't' && param[1] == 'r' && param[2] == 'u' && param[3] == 'e'
  {
    param == "true"
  }

  /** `toLowerCase` on a single character, restricted to ASCII letters: a
      capital becomes the same letter in lower case, anything else is kept. */
  function LowerChar(c: char): (r: char)
    ensures !('A' <= r <= 'Z')
    ensures 'A' <= c <= 'Z' ==> 'a' <= r <= 'z' && r as int - 'a' as int == c as int - 'A' as int
    ensures !('A' <= c <= 'Z') ==> r == c
  {
    if 'A' <= c <= 'Z' then (c as int + 32) as char else c
  }

  /** `toLowerCase` on a string, character by character. */
  function Lower(s: string): (r: string)
    ensures |r| == |s|
    ensures forall i :: 0 <= i < |s| ==> r[i] == LowerChar(s[i])
  {
    if s == [] then [] else [LowerChar(s[0])] + Lower(s[1..])
  }

  /** `param.toLowerCase() === 'true' ? true : false`, as in the status
      handler: true exactly for the four-letter spellings of "true" in any mix
      of cases, and so for everything the exact parse accepts. */
  predicate ParseFlagIgnoringCase(param: string)
    ensures ParseFlagIgnoringCase(param) <==>
      |param| == 4 && param[0] in "tT" && param[1] in "rR" && param[2] in "uU" && param[3] in "eE"
    ensures ParseFlag(param) ==> ParseFlagIgnoringCase(param)
  {
    ParseFlag(Lower(param))
  }

  // ---------------------------------------------------------------------------
  // Lookups
  // ---------------------------------------------------------------------------

  /** `posts[index]`: the post at a zero-based position, undefined out of range. */
  function At(posts: seq<Post>, index: int): (r: Option<Post>)
    ensures r.Some? <==> 0 <= index < |posts|
    ensures r.Some? ==> r.value == posts[index] && r.value in posts
  {
    if 0 <= index < |posts| then Some(posts[index]) else None
  }

  /** `findIndex(post => post.id === id)`: the position of the first matching
      post, or -1 when none matches. */
  function FindIndex(posts: seq<Post>, id: ParsedInt): (k: int)
    ensures -1 <= k < |posts|
    ensures k == -1 <==> forall j :: 0 <= j < |posts| ==> !Matches(posts[j], id)
    ensures 0 <= k ==> Matches(posts[k], id) && forall j :: 0 <= j < k ==> !Matches(posts[j], id)
  {
    if posts == [] then -1
    else if Matches(posts[0], id) then 0
    else
      var k := FindIndex(posts[1..], id);
      if k == -1 then -1 else k + 1
  }

  /** `find(post => post.id === id)`: some matching post, or undefined when
      none matches. */
  function FindById(posts: seq<Post>, id: ParsedInt): (r: Option<Post>)
    ensures r.Some? ==> r.value in posts && Matches(r.value, id)
    ensures r.None? ==> forall p :: p in posts ==> !Matches(p, id)
  {
    if posts == [] then None
    else if Matches(posts[0], id) then Some(posts[0])
    else FindById(posts[1..], id)
  }

  /** `find` returns what lookup by position gives at the index `findIndex`
      reports: the first match, or nothing at index -1. */
  lemma {:induction false} FindByIdIsFirstMatch(posts: seq<Post>, id: ParsedInt)
    ensures FindById(posts, id) == At(posts, FindIndex(posts, id))
  {
    if posts != [] && !Matches(posts[0], id) {
      FindByIdIsFirstMatch(posts[1..], id);
    }
  }

  /** A NaN id finds nothing. */
  lemma NaNFindsNothing(posts: seq<Post>)
    ensures FindById(posts, NaN) == None && FindIndex(posts, NaN) == -1
  {
  }

  // ---------------------------------------------------------------------------
  // The highest id, by a seedless left-to-right reduce
  // ---------------------------------------------------------------------------

  /** The reduce callback folded over `rest` from the accumulator `prev`:
      the current post replaces the accumulator only when its id is strictly
      higher. */
  function KeepHigher(prev: Post, rest: seq<Post>): (r: Post)
    ensures r == prev || r in rest
    ensures prev.id <= r.id
    ensures forall p :: p in rest ==> p.id <= r.id
    decreases |rest|
  {
    if rest == [] then prev
    else KeepHigher(if rest[0].id > prev.id then rest[0] else prev, rest[1..])
  }

  /** `posts.reduce(...)` with no seed: the first post seeds the accumulator,
      so the collection must not be empty. The result is a post of the
      collection whose id is the highest. */
  function HighestPost(posts: seq<Post>): (r: Post)
    requires posts != []
    ensures r in posts
    ensures forall p :: p in posts ==> p.id <= r.id
  {
    KeepHigher(posts[0], posts[1..])
  }

  /** `rest[k]` is a later post that beats the seed and every post before it. */
  predicate BeatsAllBefore(prev: Post, rest: seq<Post>, k: int)
  {
    0 <= k < |rest| && prev.id < rest[k].id && forall j :: 0 <= j < k ==> rest[j].id < rest[k].id
  }

  /** Ties keep the earlier post: the reduction yields the seed, or a later
      post whose id beats the seed and every post before it. Together with
      `KeepHigher`'s upper bound, this is the first post carrying the highest
      id. */
  lemma {:induction false} KeepHigherKeepsFirst(prev: Post, rest: seq<Post>)
    ensures KeepHigher(prev, rest) == prev ||
      exists k :: BeatsAllBefore(prev, rest, k) && KeepHigher(prev, rest) == rest[k]
    decreases |rest|
  {
    if rest != [] {
      var next := if rest[0].id > prev.id then rest[0] else prev;
      var tail := rest[1..];
      var r := KeepHigher(prev, rest);
      assert r == KeepHigher(next, tail);
      KeepHigherKeepsFirst(next, tail);
      if r != prev {
        if r == next {
          assert BeatsAllBefore(prev, rest, 0);
        } else {
          var k :| BeatsAllBefore(next, tail, k) && r == tail[k];
          assert rest[k + 1] == tail[k];
          forall j | 0 <= j < k + 1
            ensures rest[j].id < rest[k + 1].id
          {
            if j > 0 {
              assert rest[j] == tail[j - 1];
            }
          }
          assert BeatsAllBefore(prev, rest, k + 1);
        }
      }
    }
  }

  /** The post `add` appends: one past the highest id, with the given title
      and flag. Its id is higher than, hence different from, every id in use. */
  function NewPost(posts: seq<Post>, title: string, published: bool): (p: Post)
    requires posts != []
    ensures forall q :: q in posts ==> q.id < p.id
    ensures exists q :: q in posts && q.id + 1 == p.id
    ensures p.title == title && p.published == published
  {
    assert HighestPost(posts) in posts;
    Post(HighestPost(posts).id + 1, title, published)
  }

  /** Appending the new post keeps ids unique. */
  lemma AddKeepsIdsUnique(posts: seq<Post>, title: string, published: bool)
    requires posts != [] && UniqueIds(posts)
    ensures UniqueIds(posts + [NewPost(posts, title, published)])
  {
  }

  /** The new post is what a lookup by its id then finds. */
  lemma {:induction false} AddThenFind(posts: seq<Post>, title: string, published: bool)
    requires posts != []
    ensures var p := NewPost(posts, title, published);
      FindById(posts + [p], Int(p.id)) == Some(p)
  {
    var p := NewPost(posts, title, published);
    var s := posts + [p];
    FindByIdIsFirstMatch(s, Int(p.id));
    forall j | 0 <= j < |posts|
      ensures !Matches(s[j], Int(p.id))
    {
      assert s[j] in posts;
    }
    assert Matches(s[|posts|], Int(p.id));
  }

  // ---------------------------------------------------------------------------
  // Filter by published flag
  // ---------------------------------------------------------------------------

  /** `filter(post => post.published === published)`: no longer than the
      collection, and every post it keeps has the flag. */
  function Published(posts: seq<Post>, flag: bool): (r: seq<Post>)
    ensures |r| <= |posts|
    ensures forall i :: 0 <= i < |r| ==> r[i].published == flag
  {
    if posts == [] then []
    else (if posts[0].published == flag then [posts[0]] else []) + Published(posts[1..], flag)
  }

  /** The filter keeps each post with the flag as often as it occurs in the
      collection, and no other post. */
  lemma {:induction false} PublishedCounts(posts: seq<Post>, flag: bool, p: Post)
    ensures multiset(Published(posts, flag))[p] ==
      if p.published == flag then multiset(posts)[p] else 0
  {
    if posts != [] {
      PublishedCounts(posts[1..], flag, p);
      assert posts == [posts[0]] + posts[1..];
    }
  }

  /** The filter keeps relative order: filtering a concatenation concatenates
      the filtered parts. */
  lemma {:induction false} PublishedAppend(a: seq<Post>, b: seq<Post>, flag: bool)
    ensures Published(a + b, flag) == Published(a, flag) + Published(b, flag)
  {
    if a == [] {
      assert a + b == b;
    } else {
      var c := a + b;
      assert c[0] == a[0] && c[1..] == a[1..] + b;
      PublishedAppend(a[1..], b, flag);
      var head := if a[0].published == flag then [a[0]] else [];
      assert Published(c, flag) == head + Published(a[1..] + b, flag);
      assert Published(a, flag) == head + Published(a[1..], flag);
    }
  }

  /** Filtering by true and by false partitions the collection. */
  lemma {:induction false} PublishedPartition(posts: seq<Post>)
    ensures |Published(posts, true)| + |Published(posts, false)| == |posts|
    ensures multiset(Published(posts, true)) + multiset(Published(posts, false)) == multiset(posts)
  {
    if posts != [] {
      PublishedPartition(posts[1..]);
      assert posts == [posts[0]] + posts[1..];
    }
  }

  // ---------------------------------------------------------------------------
  // Status update and delete, as reference definitions
  // ---------------------------------------------------------------------------

  /** The collection after setting `published` on the first post with the id;
      unchanged when no post has it. */
  function WithStatus(posts: seq<Post>, id: ParsedInt, flag: bool): (r: seq<Post>)
    ensures |r| == |posts|
    ensures forall i :: 0 <= i < |posts| ==> r[i].id == posts[i].id && r[i].title == posts[i].title
  {
    if posts == [] then []
    else if Matches(posts[0], id) then [posts[0].(published := flag)] + posts[1..]
    else [posts[0]] + WithStatus(posts[1..], id, flag)
  }

  /** A status update for an id no post carries changes nothing. */
  lemma {:induction false} StatusNoMatch(posts: seq<Post>, id: ParsedInt, flag: bool)
    requires forall j :: 0 <= j < |posts| ==> !Matches(posts[j], id)
    ensures WithStatus(posts, id, flag) == posts
  {
    if posts != [] {
      StatusNoMatch(posts[1..], id, flag);
      assert [posts[0]] + posts[1..] == posts;
    }
  }

  /** The reference definition agrees with writing the field of the post at
      the first match `k`, the index `findIndex` reports; every other post is
      left as it was. */
  lemma {:induction false} StatusAtFirstMatch(posts: seq<Post>, id: ParsedInt, flag: bool, k: nat)
    requires k < |posts| && Matches(posts[k], id)
    requires forall j :: 0 <= j < k ==> !Matches(posts[j], id)
    ensures WithStatus(posts, id, flag) == posts[k := posts[k].(published := flag)]
  {
    if k > 0 {
      var tail := posts[1..];
      assert tail[k - 1] == posts[k];
      assert forall j :: 0 <= j < k - 1 ==> tail[j] == posts[j + 1];
      StatusAtFirstMatch(tail, id, flag, k - 1);
      assert posts[k := posts[k].(published := flag)] ==
        [posts[0]] + tail[k - 1 := tail[k - 1].(published := flag)];
    }
  }

  /** After a status update, a lookup by the same id sees the new flag and
      the old id and title. */
  lemma {:induction false} StatusThenFind(posts: seq<Post>, id: ParsedInt, flag: bool)
    requires FindById(posts, id).Some?
    ensures FindById(WithStatus(posts, id, flag), id) ==
      Some(FindById(posts, id).value.(published := flag))
  {
    var s := WithStatus(posts, id, flag);
    if !Matches(posts[0], id) {
      StatusThenFind(posts[1..], id, flag);
      assert s[0] == posts[0] && s[1..] == WithStatus(posts[1..], id, flag);
    } else {
      assert s[0] == posts[0].(published := flag);
    }
  }

  /** A status update keeps ids unique. */
  lemma StatusKeepsIdsUnique(posts: seq<Post>, id: ParsedInt, flag: bool)
    requires UniqueIds(posts)
    ensures UniqueIds(WithStatus(posts, id, flag))
  {
  }

  /** The collection without its first post with the id; unchanged when no
      post has it. */
  function WithoutFirst(posts: seq<Post>, id: ParsedInt): (r: seq<Post>)
    ensures |posts| - 1 <= |r| <= |posts|
  {
    if posts == [] then []
    else if Matches(posts[0], id) then posts[1..]
    else [posts[0]] + WithoutFirst(posts[1..], id)
  }

  /** Deleting from a collection none of whose posts carries the id
      changes nothing. */
  lemma {:induction false} WithoutFirstNoMatch(posts: seq<Post>, id: ParsedInt)
    requires forall j :: 0 <= j < |posts| ==> !Matches(posts[j], id)
    ensures WithoutFirst(posts, id) == posts
  {
    if posts != [] {
      WithoutFirstNoMatch(posts[1..], id);
      assert [posts[0]] + posts[1..] == posts;
    }
  }

  /** Deleting at the first match `k`, the index `findIndex` reports, splices
      out exactly position `k`. */
  lemma {:induction false} WithoutFirstAt(posts: seq<Post>, id: ParsedInt, k: nat)
    requires k < |posts| && Matches(posts[k], id)
    requires forall j :: 0 <= j < k ==> !Matches(posts[j], id)
    ensures WithoutFirst(posts, id) == posts[..k] + posts[k + 1..]
  {
    if k == 0 {
      assert posts[..0] == [];
    } else {
      var tail := posts[1..];
      assert tail[k - 1] == posts[k];
      assert forall j :: 0 <= j < k - 1 ==> tail[j] == posts[j + 1];
      WithoutFirstAt(tail, id, k - 1);
      assert posts[..k] == [posts[0]] + tail[..k - 1];
      assert posts[k + 1..] == tail[k..];
    }
  }

  /** The posts that do not carry the id, in order. */
  function Others(posts: seq<Post>, id: ParsedInt): (r: seq<Post>)
    ensures forall p :: p in r ==> p in posts && !Matches(p, id)
  {
    if posts == [] then []
    else (if Matches(posts[0], id) then [] else [posts[0]]) + Others(posts[1..], id)
  }

  /** The number of posts that carry the id. */
  function CountMatching(posts: seq<Post>, id: ParsedInt): (n: nat)
    ensures n <= |posts|
    ensures n == 0 <==> forall j :: 0 <= j < |posts| ==> !Matches(posts[j], id)
  {
    if posts == [] then 0
    else (if Matches(posts[0], id) then 1 else 0) + CountMatching(posts[1..], id)
  }

  /** Delete removes exactly one post carrying the id when there is one, and
      the posts with other ids keep their relative order. */
  lemma {:induction false} DeleteRemovesOneMatch(posts: seq<Post>, id: ParsedInt)
    ensures Others(WithoutFirst(posts, id), id) == Others(posts, id)
    ensures CountMatching(WithoutFirst(posts, id), id) ==
      if CountMatching(posts, id) == 0 then 0 else CountMatching(posts, id) - 1
  {
    if posts != [] && !Matches(posts[0], id) {
      DeleteRemovesOneMatch(posts[1..], id);
      var r := WithoutFirst(posts, id);
      assert r[0] == posts[0] && r[1..] == WithoutFirst(posts[1..], id);
    }
  }

  /** When the id occurs at most once, a second delete of it changes nothing. */
  lemma DeleteTwice(posts: seq<Post>, id: ParsedInt)
    requires CountMatching(posts, id) <= 1
    ensures WithoutFirst(WithoutFirst(posts, id), id) == WithoutFirst(posts, id)
  {
    var r := WithoutFirst(posts, id);
    DeleteRemovesOneMatch(posts, id);
    assert CountMatching(r, id) == 0;
    WithoutFirstNoMatch(r, id);
  }

  /** When the id occurs at least twice, first at `k1` and next at `k2`, a
      second delete removes the second occurrence: the result is the
      collection without positions `k1` and `k2`. */
  lemma DeleteTwiceRemovesSecond(posts: seq<Post>, id: ParsedInt, k1: nat, k2: nat)
    requires k1 < k2 < |posts| && Matches(posts[k1], id) && Matches(posts[k2], id)
    requires forall j :: 0 <= j < k2 && j != k1 ==> !Matches(posts[j], id)
    ensures WithoutFirst(WithoutFirst(posts, id), id) == posts[..k1] + posts[k1 + 1..k2] + posts[k2 + 1..]
  {
    WithoutFirstAt(posts, id, k1);
    var r := posts[..k1] + posts[k1 + 1..];
    assert r[k2 - 1] == posts[k2];
    forall j | 0 <= j < k2 - 1
      ensures !Matches(r[j], id)
    {
      if j < k1 {
        assert r[j] == posts[j];
      } else {
        assert r[j] == posts[j + 1];
      }
    }
    WithoutFirstAt(r, id, k2 - 1);
    SpliceTwice(posts, k1, k2);
  }

  /** Splicing out `k1` and then the position `k2` has moved to splices out
      both. */
  lemma SpliceTwice<T>(s: seq<T>, k1: nat, k2: nat)
    requires k1 < k2 < |s|
    ensures var r := s[..k1] + s[k1 + 1..];
      r[..k2 - 1] + r[k2..] == s[..k1] + s[k1 + 1..k2] + s[k2 + 1..]
  {
    var r := s[..k1] + s[k1 + 1..];
    assert r[..k2 - 1] == s[..k1] + s[k1 + 1..k2];
    assert r[k2..] == s[k2 + 1..];
  }

  /** Two deletes of an id that occurs at least twice remove two posts that
      carry it, and the posts with other ids keep their relative order. */
  lemma DeleteTwiceCounts(posts: seq<Post>, id: ParsedInt)
    requires CountMatching(posts, id) >= 2
    ensures CountMatching(WithoutFirst(WithoutFirst(posts, id), id), id) == CountMatching(posts, id) - 2
    ensures Others(WithoutFirst(WithoutFirst(posts, id), id), id) == Others(posts, id)
  {
    DeleteRemovesOneMatch(posts, id);
    DeleteRemovesOneMatch(WithoutFirst(posts, id), id);
  }

  /** Splicing one post out of a collection with unique ids keeps them unique. */
  lemma SpliceKeepsIdsUnique(posts: seq<Post>, k: nat)
    requires k < |posts| && UniqueIds(posts)
    ensures UniqueIds(posts[..k] + posts[k + 1..])
  {
    var r := posts[..k] + posts[k + 1..];
    forall i, j | 0 <= i < j < |r|
      ensures r[i].id != r[j].id
    {
      var i' := if i < k then i else i + 1;
      var j' := if j < k then j else j + 1;
      assert r[i] == posts[i'] && r[j] == posts[j'];
    }
  }

  /** Delete keeps ids unique. */
  lemma DeleteKeepsIdsUnique(posts: seq<Post>, id: ParsedInt)
    requires UniqueIds(posts)
    ensures UniqueIds(WithoutFirst(posts, id))
  {
    var k := FindIndex(posts, id);
    if k == -1 {
      WithoutFirstNoMatch(posts, id);
    } else {
      WithoutFirstAt(posts, id, k);
      SpliceKeepsIdsUnique(posts, k);
    }
  }
}
