/**
 * The request guards of the backend's HTTP routes. A handler is a total
 * function from the request fields it reads to the reply it sends; what
 * the handler would hand to the database or to the recommender is part of
 * the result (or a parameter), so "no insert is performed" and "the
 * recommender is not consulted" can be stated.
 */
module Routes {
  import opened Wrappers

  const StatusOK := 200
  const StatusCreated := 201
  const StatusBadRequest := 400
  const StatusInternalServerError := 500

  /** The Post record of the server, as JSON-bound from a request body. */
  datatype Post = Post(id: int, author: string, content: string, media: string, date: string)

  datatype User = User(id: int, username: string, password: string)

  /** The JSON body of a reply. */
  datatype Body =
    | ErrorBody(error: string)
    | MessageBody(message: string)
    | PostList(posts: seq<Post>)
    | UserList(users: seq<User>)
    | RecommendationList(recommendations: seq<string>)

  datatype Reply = Reply(status: int, body: Body)

  /** The outcome of binding a JSON request body to a record: gin's
      ShouldBindJSON either fails on a malformed body or fills the record,
      leaving absent fields at their zero value. */
  datatype Binding<T> = Malformed | Bound(value: T)

  /** The row the handler asks the database to insert. */
  datatype Insert = Insert(author: string, content: string, media: string)

  /** What POST /posts does: the reply, and the insert it issued, if any. */
  datatype CreateOutcome = CreateOutcome(reply: Reply, insert: Option<Insert>)

  /** POST /posts. A malformed body or an empty author or content is
      answered 400 before the database is touched; otherwise the post's
      author, content and media are inserted (the date is the database's
      `now`, and the id and date sent by the client are ignored), and the
      reply is 201 or, when the insert fails, 500. `insertSucceeds` stands
      for the database's answer. */
  function CreatePost(request: Binding<Post>, insertSucceeds: bool): (r: CreateOutcome)
    ensures r.reply.status == StatusBadRequest <==>
      request.Malformed? || request.value.author == "" || request.value.content == ""
    ensures r.insert.Some? <==> r.reply.status != StatusBadRequest
    ensures r.insert.Some? ==>
      r.insert.value == Insert(request.value.author, request.value.content, request.value.media)
    ensures r.reply.status == StatusCreated <==> r.insert.Some? && insertSucceeds
    ensures r.reply.status == StatusInternalServerError <==> r.insert.Some? && !insertSucceeds
    ensures r.reply.body.ErrorBody? <==> r.reply.status != StatusCreated
  {
    match request
    case Malformed =>
      CreateOutcome(Reply(StatusBadRequest, ErrorBody("Invalid post data")), None)
    case Bound(post) =>
      if post.author == "" || post.content == "" then
        CreateOutcome(Reply(StatusBadRequest, ErrorBody("Author and content required")), None)
      else
        var row := Insert(post.author, post.content, post.media);
        if insertSucceeds then
          CreateOutcome(Reply(StatusCreated, MessageBody("Post created")), Some(row))
        else
          CreateOutcome(Reply(StatusInternalServerError, ErrorBody("Database error")), Some(row))
  }

  /** gin's Context.Query: the value of a query parameter, or "" when the
      request does not carry it. The parameters are a map, so a key given
      more than once (for which gin returns the first value) is not
      represented. */
  function Query(params: map<string, string>, key: string): (v: string)
    ensures key in params ==> v == params[key]
    ensures key !in params ==> v == ""
  {
    if key in params then params[key] else ""
  }

  /** GET /recommendations. `generate` stands for the recommender, which is
      not part of this model. Without a user id the reply is 400 and does
      not depend on the recommender at all; with one it is 200 carrying the
      recommender's answer for that id. */
  function Recommendations(params: map<string, string>, generate: string -> seq<string>): (r: Reply)
    ensures r.status == StatusBadRequest <==> Query(params, "user_id") == ""
    ensures r.status == StatusBadRequest ==> r.body == ErrorBody("user_id is required")
    ensures r.status != StatusBadRequest ==>
      r == Reply(StatusOK, RecommendationList(generate(params["user_id"])))
  {
    var userId := Query(params, "user_id");
    if userId == "" then Reply(StatusBadRequest, ErrorBody("user_id is required"))
    else Reply(StatusOK, RecommendationList(generate(userId)))
  }

  /** GET /users/search: 400 without a query, otherwise 200 with an empty
      list (the search itself is a stub). */
  function SearchUsers(params: map<string, string>): (r: Reply)
    ensures r.status == StatusBadRequest <==> "q" !in params || params["q"] == ""
    ensures r.status != StatusBadRequest ==> r.status == StatusOK && r.body == UserList([])
    ensures r.status == StatusBadRequest ==> r.body.ErrorBody?
  {
    if Query(params, "q") == "" then Reply(StatusBadRequest, ErrorBody("Query parameter required"))
    else Reply(StatusOK, UserList([]))
  }

  /** GET /posts/search: 400 without a query, otherwise 200 with an empty
      list (the search itself is a stub). */
  function SearchPosts(params: map<string, string>): (r: Reply)
    ensures r.status == StatusBadRequest <==> "q" !in params || params["q"] == ""
    ensures r.status != StatusBadRequest ==> r.status == StatusOK && r.body == PostList([])
    ensures r.status == StatusBadRequest ==> r.body.ErrorBody?
  {
    if Query(params, "q") == "" then Reply(StatusBadRequest, ErrorBody("Query parameter required"))
    else Reply(StatusOK, PostList([]))
  }

  /** GET /feed: a stub that always answers 200 with an empty list. */
  function Feed(params: map<string, string>): (r: Reply)
    ensures r.status == StatusOK && r.body == PostList([])
  {
    Reply(StatusOK, PostList([]))
  }

  /** Without a user id the recommender is never consulted: any two
      recommenders give the same reply. */
  lemma RecommenderNotConsulted(params: map<string, string>,
                                g1: string -> seq<string>, g2: string -> seq<string>)
    requires Query(params, "user_id") == ""
    ensures Recommendations(params, g1) == Recommendations(params, g2)
  {
  }

  /** The two search routes apply the same guard: they reject exactly the
      same requests, and accept with an empty result otherwise. */
  lemma SearchGuardsAgree(params: map<string, string>)
    ensures SearchUsers(params).status == SearchPosts(params).status
    ensures SearchUsers(params).status == StatusOK ==>
      SearchUsers(params).body.users == [] && SearchPosts(params).body.posts == []
  {
  }

  /** No request to POST /posts with an empty author or content reaches the
      database, whatever the database would answer. */
  lemma EmptyFieldsNeverInserted(post: Post, insertSucceeds: bool)
    requires post.author == "" || post.content == ""
    ensures CreatePost(Bound(post), insertSucceeds) ==
      CreateOutcome(Reply(StatusBadRequest, ErrorBody("Author and content required")), None)
  {
  }

  /** When POST /posts answers 201, the inserted row holds exactly the
      author, content and media that were sent. */
  lemma CreatedMeansInsertedAsSent(request: Binding<Post>, insertSucceeds: bool)
    requires CreatePost(request, insertSucceeds).reply.status == StatusCreated
    ensures request.Bound? && insertSucceeds
    ensures CreatePost(request, insertSucceeds).insert ==
      Some(Insert(request.value.author, request.value.content, request.value.media))
  {
  }
}
