/**
 * The blog collection endpoints: list, create, delete and update, each one
 * atomic step over an in-memory blog collection that returns the HTTP
 * outcome.
 */
module BlogsController {
  import opened Common
  import opened Store

  /** A request body; each field may be absent, `undefined` or `null`. */
  datatype BlogRequest = BlogRequest(title: Option<string>, author: Option<string>, url: Option<string>, likes: Option<int>)

  /** A stored blog document. An update stores the body's fields as they are, so any of them may be absent. */
  datatype Blog = Blog(title: Option<string>, author: Option<string>, url: Option<string>, likes: Option<int>)

  /** What a handler answers. */
  datatype Reply =
    | Saved(id: Id, blog: Blog)          // 200, the saved or updated document
    | NoContent                          // 204, empty body
    | Failed(status: int, error: string) // an error status with `{ error }`

  /** The error message of a create request without title or url. */
  const MissingFieldError: string := "Поле \"котики\" отсутствует"

  /** The error message of a delete or update of an unknown id. */
  const NotFoundError: string := "Blog not found"

  /** The HTTP status each reply is sent with. */
  function StatusOf(reply: Reply): int
  {
    match reply
    case Saved(_, _) => 200
    case NoContent => 204
    case Failed(status, _) => status
  }

  /** The create guard `!body.title || !body.url` does not fire. */
  predicate HasRequiredFields(body: BlogRequest)
  {
    Truthy(body.title) && Truthy(body.url)
  }

  /** `body.likes ?? 0`: only an absent or null value falls back to 0. */
  function LikesOrZero(likes: Option<int>): int
  {
    match likes
    case Some(n) => n
    case None => 0
  }

  /** The blog collection. */
  class BlogTable {
    /** The stored documents by id. */
    var blogs: map<Id, Blog>
    /** The ids in the order `find({})` returns their documents. */
    var order: seq<Id>

    ghost predicate Valid()
      reads this
    {
      Lists(order, blogs.Keys)
    }

    constructor ()
      ensures Valid() && blogs == map[] && order == []
    {
      blogs := map[];
      order := [];
    }

    /** GET `/`: every stored blog once, with its id, in storage order. */
    method List() returns (r: seq<(Id, Blog)>)
      requires Valid()
      ensures r == Snapshot(order, blogs)
      ensures |r| == |blogs|
      ensures forall i :: 0 <= i < |r| ==> r[i].0 in blogs && r[i].1 == blogs[r[i].0]
      ensures forall id :: id in blogs ==> exists i :: 0 <= i < |r| && r[i].0 == id
    {
      r := Snapshot(order, blogs);
    }

    /**
     * POST `/`: a body without a truthy title or url is refused with 400;
     * otherwise the new document, under the fresh id the store generates,
     * is saved and returned.
     */
    method Create(body: BlogRequest, newId: Id) returns (reply: Reply)
      requires Valid()
      requires newId !in blogs
      modifies this
      ensures Valid()
      ensures !HasRequiredFields(body) ==>
        && reply == Failed(400, MissingFieldError)
        && blogs == old(blogs) && order == old(order)
      ensures HasRequiredFields(body) ==>
        && StatusOf(reply) == 200 && reply.Saved? && reply.id == newId
        && reply.blog.title == body.title && reply.blog.author == body.author && reply.blog.url == body.url
        && (body.likes.Some? ==> reply.blog.likes == body.likes)
        && (body.likes.None? ==> reply.blog.likes == Some(0))
        && blogs == old(blogs)[newId := reply.blog]
        && order == old(order) + [newId]
        && |blogs| == |old(blogs)| + 1
    {
      if !HasRequiredFields(body) {
        return Failed(400, MissingFieldError);
      }
      var blog := Blog(body.title, body.author, body.url, Some(LikesOrZero(body.likes)));
      blogs := blogs[newId := blog];
      order := order + [newId];
      reply := Saved(newId, blog);
    }

    /** DELETE `/:id`: 204 and the document is gone, or 404 and nothing changes. */
    method Delete(id: Id) returns (reply: Reply)
      requires Valid()
      modifies this
      ensures Valid()
      ensures id in old(blogs) ==>
        && reply == NoContent && StatusOf(reply) == 204
        && blogs == old(blogs) - {id}
        && order == Without(old(order), id)
        && |blogs| == |old(blogs)| - 1
      ensures id !in old(blogs) ==>
        && reply == Failed(404, NotFoundError)
        && blogs == old(blogs) && order == old(order)
    {
      if id in blogs {
        blogs := blogs - {id};
        order := Without(order, id);
        reply := NoContent;
      } else {
        reply := Failed(404, NotFoundError);
      }
    }

    /**
     * PUT `/:id`: the document's four fields become the body's, with no
     * default for likes and no validation, or 404 and nothing changes.
     */
    method Update(id: Id, body: BlogRequest) returns (reply: Reply)
      requires Valid()
      modifies this
      ensures Valid()
      ensures order == old(order) && blogs.Keys == old(blogs).Keys
      ensures id in old(blogs) ==>
        && reply == Saved(id, Blog(body.title, body.author, body.url, body.likes))
        && blogs == old(blogs)[id := reply.blog]
      ensures id !in old(blogs) ==>
        && reply == Failed(404, NotFoundError)
        && blogs == old(blogs)
    {
      if id in blogs {
        var blog := Blog(body.title, body.author, body.url, body.likes);
        blogs := blogs[id := blog];
        reply := Saved(id, blog);
      } else {
        reply := Failed(404, NotFoundError);
      }
    }
  }

  /**
   * Deleting the id a create was given restores the collection: a created
   * blog is removed again with 204, and a refused create leaves the id
   * unknown, so the delete answers 404. Either way nothing has changed.
   */
  method CreateThenDelete(table: BlogTable, body: BlogRequest, newId: Id) returns (created: Reply, deleted: Reply)
    requires table.Valid() && newId !in table.blogs
    modifies table
    ensures table.Valid()
    ensures table.blogs == old(table.blogs) && table.order == old(table.order)
    ensures HasRequiredFields(body) ==> created.Saved? && deleted == NoContent
    ensures !HasRequiredFields(body) ==> created == Failed(400, MissingFieldError) && deleted == Failed(404, NotFoundError)
  {
    ghost var order0 := table.order;
    created := table.Create(body, newId);
    deleted := table.Delete(newId);
    if HasRequiredFields(body) {
      WithoutAppended(order0, newId);
    }
  }

  /**
   * A blog posted without likes is listed with likes 0, and a request
   * without url is refused and leaves the listing as it was.
   */
  method DefaultLikesScenario() returns (created: Reply, refused: Reply, listing: seq<(Id, Blog)>)
    ensures created == Saved(0, Blog(Some("t"), Some("a"), Some("u"), Some(0)))
    ensures refused == Failed(400, MissingFieldError)
    ensures listing == [(0, Blog(Some("t"), Some("a"), Some("u"), Some(0)))]
  {
    var table := new BlogTable();
    created := table.Create(BlogRequest(Some("t"), Some("a"), Some("u"), None), 0);
    refused := table.Create(BlogRequest(Some("t"), Some("a"), None, None), 1);
    listing := table.List();
  }
}
