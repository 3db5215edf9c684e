/**
  The collection as the route handlers hold it in memory, and the three
  handlers that change it in place: add (`push`), status update (a field
  assignment) and delete (`splice`). Each returns what the handler sends back.
 */
module Store {
  import opened Posts

  /** The failures a mutating handler can meet: the seedless reduce over an
      empty collection, and writing through index -1 when no post matches. */
  datatype Error = EmptyCollection | NoSuchPost

  /** What a mutating handler ends with: the whole updated collection sent as
      the response, a thrown error, or no response at all. */
  datatype Reply = Sent(posts: seq<Post>) | Failed(error: Error) | NoResponse

  class PostStore {
    var posts: seq<Post>

    constructor (initial: seq<Post>)
      ensures posts == initial
    {
      posts := initial;
    }

    /** `/posts/add/:title/:published`: append a post whose id is one past the
        highest id in use. On an empty collection the reduce throws before
        anything changes. */
    method Add(title: string, publishedParam: string) returns (reply: Reply)
      modifies this
      ensures old(posts) == [] ==> reply == Failed(EmptyCollection) && posts == old(posts)
      ensures old(posts) != [] ==>
        && posts == old(posts) + [NewPost(old(posts), title, ParseFlag(publishedParam))]
        && reply == Sent(posts)
    {
      var published := ParseFlag(publishedParam);
      if posts == [] {
        return Failed(EmptyCollection);
      }
      var highestIndex := HighestPost(posts).id;
      var newPost := Post(highestIndex + 1, title, published);
      posts := posts + [newPost];
      reply := Sent(posts);
    }

    /** `/posts/status/:id/:published`: set `published` on the first post with
        the id. With no such post the index is -1 and the write throws before
        anything changes. */
    method SetStatus(id: ParsedInt, publishedParam: string) returns (reply: Reply)
      modifies this
      ensures FindIndex(old(posts), id) == -1 ==> reply == Failed(NoSuchPost) && posts == old(posts)
      ensures FindIndex(old(posts), id) != -1 ==>
        && posts == WithStatus(old(posts), id, ParseFlagIgnoringCase(publishedParam))
        && reply == Sent(posts)
    {
      var published := ParseFlagIgnoringCase(publishedParam);
      var postIndex := FindIndex(posts, id);
      if postIndex == -1 {
        return Failed(NoSuchPost);
      }
      StatusAtFirstMatch(posts, id, published, postIndex);
      posts := posts[postIndex := posts[postIndex].(published := published)];
      reply := Sent(posts);
    }

    /** `/posts/delete/:id`: remove the first post with the id. With no such
        post the handler returns without a response and nothing changes. */
    method Delete(id: ParsedInt) returns (reply: Reply)
      modifies this
      ensures FindIndex(old(posts), id) == -1 ==> reply == NoResponse && posts == old(posts)
      ensures FindIndex(old(posts), id) != -1 ==>
        && posts == WithoutFirst(old(posts), id)
        && |posts| == |old(posts)| - 1
        && reply == Sent(posts)
    {
      var postIndex := FindIndex(posts, id);
      if postIndex == -1 {
        return NoResponse;
      }
      WithoutFirstAt(posts, id, postIndex);
      posts := posts[..postIndex] + posts[postIndex + 1..];
      reply := Sent(posts);
    }
  }

  /** A client that adds, filters and deletes, relying on the methods'
      contracts, not their bodies: a delete of an id already deleted sends
      nothing. */
  method AddFilterDelete()
  {
    var store := new PostStore([Post(1, "A", true)]);
    var r := store.Add("B", "false");
    assert store.posts == [Post(1, "A", true), Post(2, "B", false)];
    assert Published(store.posts, false) == [Post(2, "B", false)];
    r := store.Delete(Int(1));
    assert store.posts == [Post(2, "B", false)];
    r := store.Delete(Int(1));
    assert r == NoResponse && store.posts == [Post(2, "B", false)];
  }
}
