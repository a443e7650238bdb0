/**
 * The mobile client's root component. It keeps a small state record
 * (the screen shown, the selected author and post, the loaded posts and a
 * loading flag); the handlers change it one field at a time, and the view
 * and the reaction bar are computed from it. Network results are inputs
 * of the handlers.
 */
module Client {
  import opened Wrappers
  import opened Text

  /** The six reaction symbols, in display order. */
  const ReactionTypes: seq<string> := ["👍", "🔥", "😮", "❤️‍🩹", "🔁", "⭐"]

  /** The author name every post of this client is published under. */
  const AnonymousAuthor: string := "Аноним"

  /** A feed entry as the client reads it from the server's JSON. */
  datatype Post = Post(
    id: int,
    author: string,
    content: string,
    media: Option<string>,
    reactions: map<string, int>,
    myReaction: Option<string>,
    date: string)

  datatype Screen = FeedScreen | ProfileScreen | CreateScreen | PostScreen

  /** The body of a reply to GET /posts once the client reads it as JSON:
      not JSON at all, a JSON array, or some other JSON value. The client
      does no schema check, so array elements are taken as posts. */
  datatype Body = NotJson | JsonArray(items: seq<Post>) | OtherJson

  /** How GET /posts settled: the request failed, or a reply arrived. */
  datatype FetchResult = RequestFailed | Replied(status: int, body: Body)

  /** How POST /posts settled: the request failed, or a reply arrived;
      `textReadable` says whether reading an error reply's text succeeds. */
  datatype CreateResult = SubmitFailed | SubmitReplied(status: int, textReadable: bool)

  /** What the composer hands to the create handler. */
  datatype Draft = Draft(text: string, media: Option<string>)

  /** The JSON body of POST /posts: `media` is left out when it is undefined. */
  datatype NewPost = NewPost(author: string, content: string, media: Option<string>)

  /** What the area below the header shows. */
  datatype View = Spinner | PostList(posts: seq<Post>) | Profile(author: string)
                | PostDetail(post: Post) | Composer

  /** One button of the reaction bar. */
  datatype ReactionButton = ReactionButton(symbol: string, count: int, highlighted: bool)

  /** Array.prototype.reverse, on a fresh array whose old order no one
      else sees. */
  function Reverse<T>(s: seq<T>): (r: seq<T>)
    ensures |r| == |s|
    ensures forall i :: 0 <= i < |s| ==> r[i] == s[|s| - 1 - i]
  {
    if s == [] then [] else Reverse(s[1..]) + [s[0]]
  }

  /** Reversing twice gives back the server's order. */
  lemma ReverseReverse<T>(s: seq<T>)
    ensures Reverse(Reverse(s)) == s
  {
    var r := Reverse(s);
    assert forall i :: 0 <= i < |s| ==> Reverse(r)[i] == r[|s| - 1 - i] == s[i];
  }

  /** Reversing keeps every post, as often as it occurs. */
  lemma {:induction false} ReversePermutes<T>(s: seq<T>)
    ensures multiset(Reverse(s)) == multiset(s)
  {
    if s != [] {
      ReversePermutes(s[1..]);
      assert s == [s[0]] + s[1..];
    }
  }

  /** The posts fetchPosts leaves behind: the reply's array in reverse
      order when the body is a JSON array, whatever the HTTP status (the
      status is not checked), and no posts at all when the request fails,
      the body is not JSON, or it is JSON but not an array (on which
      `.reverse` throws). */
  function PostsAfterFetch(result: FetchResult): (r: seq<Post>)
    ensures result.Replied? && result.body.JsonArray? ==>
      var items := result.body.items;
      |r| == |items| && forall i :: 0 <= i < |items| ==> r[i] == items[|items| - 1 - i]
    ensures !(result.Replied? && result.body.JsonArray?) ==> r == []
  {
    match result
    case Replied(_, JsonArray(items)) => Reverse(items)
    case _ => []
  }

  /** The reply's posts, in the server's order, can be read back from what
      fetchPosts keeps. */
  lemma FetchRoundTrip(status: int, items: seq<Post>)
    ensures Reverse(PostsAfterFetch(Replied(status, JsonArray(items)))) == items
    ensures multiset(PostsAfterFetch(Replied(status, JsonArray(items)))) == multiset(items)
  {
    ReverseReverse(items);
    ReversePermutes(items);
  }

  /** JavaScript truthiness of the selected author: null and "" are falsy. */
  predicate AuthorShown(selectedAuthor: Option<string>) {
    selectedAuthor.Some? && selectedAuthor.value != ""
  }

  /** The children App renders below the header: one conditional block per
      screen, each guarded as in the source. At most one is ever present,
      and none is when the profile or post screen has nothing selected. */
  function Render(screen: Screen, selectedAuthor: Option<string>, selectedPost: Option<Post>,
                  posts: seq<Post>, loading: bool): (views: seq<View>)
    ensures |views| <= 1
    ensures screen == FeedScreen ==> views == [if loading then Spinner else PostList(posts)]
    ensures (|views| == 1 && views[0].Profile?) <==> screen == ProfileScreen && AuthorShown(selectedAuthor)
    ensures |views| == 1 && views[0].Profile? ==> views[0].author == selectedAuthor.value
    ensures (|views| == 1 && views[0].PostDetail?) <==> screen == PostScreen && selectedPost.Some?
    ensures |views| == 1 && views[0].PostDetail? ==> views[0].post == selectedPost.value
    ensures views == [Composer] <==> screen == CreateScreen
    ensures views == [] <==>
      (screen == ProfileScreen && !AuthorShown(selectedAuthor)) || (screen == PostScreen && selectedPost.None?)
  {
    (if screen == FeedScreen then [if loading then Spinner else PostList(posts)] else [])
    + (if screen == ProfileScreen && AuthorShown(selectedAuthor) then [Profile(selectedAuthor.value)] else [])
    + (if screen == PostScreen && selectedPost.Some? then [PostDetail(selectedPost.value)] else [])
    + (if screen == CreateScreen then [Composer] else [])
  }

  /** `post.reactions[type] || 0`: a missing entry and a stored 0 both show 0. */
  function DisplayedCount(reactions: map<string, int>, symbol: string): (n: int)
    ensures symbol !in reactions ==> n == 0
    ensures symbol in reactions ==> n == reactions[symbol]
  {
    if symbol in reactions && reactions[symbol] != 0 then reactions[symbol] else 0
  }

  /** The bar ReactionBar renders: one button per reaction type, in order,
      with its displayed count, highlighted (full opacity) exactly when it is
      the viewer's own reaction. */
  function ReactionBar(post: Post): (bar: seq<ReactionButton>)
    ensures |bar| == |ReactionTypes|
    ensures forall i :: 0 <= i < |bar| ==>
      bar[i].symbol == ReactionTypes[i]
      && (ReactionTypes[i] !in post.reactions ==> bar[i].count == 0)
      && (ReactionTypes[i] in post.reactions ==> bar[i].count == post.reactions[ReactionTypes[i]])
      && (bar[i].highlighted <==> post.myReaction == Some(ReactionTypes[i]))
  {
    seq(|ReactionTypes|, i requires 0 <= i < |ReactionTypes| =>
      var symbol := ReactionTypes[i];
      ReactionButton(symbol, DisplayedCount(post.reactions, symbol), post.myReaction == Some(symbol)))
  }

  /** At most one button is highlighted, and one is exactly when the
      viewer's reaction is one of the six types. */
  lemma AtMostOneHighlighted(post: Post)
    ensures forall i, j :: 0 <= i < j < |ReactionBar(post)| ==>
      !(ReactionBar(post)[i].highlighted && ReactionBar(post)[j].highlighted)
    ensures (exists i :: 0 <= i < |ReactionBar(post)| && ReactionBar(post)[i].highlighted) <==>
      post.myReaction.Some? && post.myReaction.value in ReactionTypes
  {
    var bar := ReactionBar(post);
    forall i, j | 0 <= i < j < |bar| ensures ReactionTypes[i] != ReactionTypes[j] {
      ReactionTypesDistinct(i, j);
    }
    if post.myReaction.Some? && post.myReaction.value in ReactionTypes {
      var k :| 0 <= k < |ReactionTypes| && ReactionTypes[k] == post.myReaction.value;
      assert bar[k].highlighted;
    }
  }

  lemma ReactionTypesDistinct(i: nat, j: nat)
    requires i < j < |ReactionTypes|
    ensures ReactionTypes[i] != ReactionTypes[j]
  {
    assert ReactionTypes[i][0] != ReactionTypes[j][0];
  }

  /** The publish guard: `text.trim()` is truthy. */
  predicate CanPublish(text: string) {
    Trim(text, IsJsSpace) != []
  }

  /** Publishing is allowed exactly when the text holds a character that is
      not JavaScript whitespace. */
  lemma CanPublishIff(text: string)
    ensures CanPublish(text) <==> exists i :: 0 <= i < |text| && !IsJsSpace(text[i])
  {
    TrimEmptyIff(text, IsJsSpace);
  }

  /** The request body handleCreate sends for a draft. */
  function Request(draft: Draft): (body: NewPost)
    ensures body.author == AnonymousAuthor
    ensures body.content == draft.text && body.media == draft.media
  {
    NewPost(AnonymousAuthor, draft.text, draft.media)
  }

  /** fetch's `response.ok`. */
  predicate IsOk(status: int) {
    200 <= status <= 299
  }

  /** The state of the root component. */
  class App {
    var screen: Screen
    var selectedAuthor: Option<string>
    var selectedPost: Option<Post>
    var posts: seq<Post>
    var loading: bool

    /** The selection matches the screen: the feed and the composer have
        nothing selected, the profile screen only an author, the post screen
        only a post. Every handler keeps this when it is called from the
        screen that offers it. */
    predicate Valid()
      reads this
    {
      && ((screen == FeedScreen || screen == CreateScreen) ==> selectedAuthor.None? && selectedPost.None?)
      && (screen == ProfileScreen ==> selectedAuthor.Some? && selectedPost.None?)
      && (screen == PostScreen ==> selectedPost.Some? && selectedAuthor.None?)
    }

    /** What the component shows below its header. */
    function Shown(): seq<View>
      reads this
    {
      Render(screen, selectedAuthor, selectedPost, posts, loading)
    }

    /** The initial state: the feed, nothing selected, no posts, loading. */
    constructor ()
      ensures Valid()
      ensures screen == FeedScreen && selectedAuthor.None? && selectedPost.None?
      ensures posts == [] && loading
      ensures Shown() == [Spinner]
    {
      screen := FeedScreen;
      selectedAuthor := None;
      selectedPost := None;
      posts := [];
      loading := true;
    }

    /** fetchPosts up to the awaited request: the loading flag goes up, and
        the feed shows the spinner until the request settles. */
    method BeginFetch()
      modifies this
      ensures loading
      ensures screen == old(screen) && selectedAuthor == old(selectedAuthor)
      ensures selectedPost == old(selectedPost) && posts == old(posts)
      ensures screen == FeedScreen ==> Shown() == [Spinner]
    {
      loading := true;
    }

    /** fetchPosts once the request settles: the posts are replaced (the
        reversed array, or nothing on any failure) and, in `finally`, the
        loading flag goes down whatever the outcome. */
    method FinishFetch(result: FetchResult)
      modifies this
      ensures posts == PostsAfterFetch(result) && !loading
      ensures screen == old(screen) && selectedAuthor == old(selectedAuthor)
      ensures selectedPost == old(selectedPost)
    {
      match result {
        case Replied(_, JsonArray(items)) =>
          posts := Reverse(items);
        case _ =>
          posts := [];
      }
      loading := false;
    }

    /** fetchPosts as a whole. Nothing of the previous posts survives, and
        loading is false at the end. */
    method FetchPosts(result: FetchResult)
      modifies this
      ensures posts == PostsAfterFetch(result) && !loading
      ensures screen == old(screen) && selectedAuthor == old(selectedAuthor)
      ensures selectedPost == old(selectedPost)
      ensures old(Valid()) ==> Valid()
    {
      BeginFetch();
      FinishFetch(result);
    }

    /** handleProfile, offered by the author names of the feed. */
    method HandleProfile(author: string)
      modifies this
      ensures screen == ProfileScreen && selectedAuthor == Some(author)
      ensures selectedPost == old(selectedPost) && posts == old(posts) && loading == old(loading)
      ensures old(Valid()) && old(screen) == FeedScreen ==> Valid()
      ensures author != "" ==> Shown() == [Profile(author)]
    {
      selectedAuthor := Some(author);
      screen := ProfileScreen;
    }

    /** handleViewPost, offered by the post bodies of the feed. */
    method HandleViewPost(post: Post)
      modifies this
      ensures screen == PostScreen && selectedPost == Some(post)
      ensures selectedAuthor == old(selectedAuthor) && posts == old(posts) && loading == old(loading)
      ensures old(Valid()) && old(screen) == FeedScreen ==> Valid()
      ensures Shown() == [PostDetail(post)]
    {
      selectedPost := Some(post);
      screen := PostScreen;
    }

    /** The feed's "new post" button. */
    method OpenComposer()
      modifies this
      ensures screen == CreateScreen
      ensures selectedAuthor == old(selectedAuthor) && selectedPost == old(selectedPost)
      ensures posts == old(posts) && loading == old(loading)
      ensures old(Valid()) && old(screen) == FeedScreen ==> Valid()
      ensures Shown() == [Composer]
    {
      screen := CreateScreen;
    }

    /** handleBack, from any state: back to the feed with nothing selected. */
    method HandleBack()
      modifies this
      ensures screen == FeedScreen && selectedAuthor.None? && selectedPost.None?
      ensures posts == old(posts) && loading == old(loading)
      ensures Valid()
      ensures Shown() == [if loading then Spinner else PostList(posts)]
    {
      screen := FeedScreen;
      selectedAuthor := None;
      selectedPost := None;
    }

    /** handleCreate: sends the draft, then
        - a reply that is not ok and whose text can be read returns early:
          nothing changes, so the composer stays open;
        - an ok reply reloads the posts (settling as `reload`) and then
          shows the feed;
        - a failed request, or a failure to read the error text, shows the
          feed without reloading.
        Returns the request body that was sent. The awaits are not points
        where other handlers can run here: the handler is one step. */
    method HandleCreate(draft: Draft, result: CreateResult, reload: FetchResult)
      returns (sent: NewPost)
      modifies this
      ensures sent == Request(draft)
      ensures result.SubmitReplied? && !IsOk(result.status) && result.textReadable ==>
        screen == old(screen) && posts == old(posts) && loading == old(loading)
      ensures result.SubmitReplied? && IsOk(result.status) ==>
        screen == FeedScreen && posts == PostsAfterFetch(reload) && !loading
      ensures (result.SubmitFailed? || (!IsOk(result.status) && !result.textReadable)) ==>
        screen == FeedScreen && posts == old(posts) && loading == old(loading)
      ensures selectedAuthor == old(selectedAuthor) && selectedPost == old(selectedPost)
      ensures old(Valid()) && old(screen) == CreateScreen ==> Valid()
    {
      sent := Request(draft);
      match result {
        case SubmitFailed =>
        case SubmitReplied(status, textReadable) =>
          if !IsOk(status) {
            if textReadable {
              return;
            }
          } else {
            FetchPosts(reload);
          }
      }
      screen := FeedScreen;
    }

    /** Under the invariant the area below the header is blank only on the
        profile of an author whose name is the empty string. */
    lemma ShowsSomething()
      requires Valid()
      ensures Shown() == [] <==> screen == ProfileScreen && selectedAuthor == Some("")
    {
    }
  }

  /** The state of the post composer. `media` is never set: there is no
      control for it yet. */
  class PostComposer {
    var text: string
    var media: Option<string>

    constructor ()
      ensures text == "" && media.None?
    {
      text := "";
      media := None;
    }

    /** onChangeText of the text input. */
    method ChangeText(t: string)
      modifies this
      ensures text == t && media == old(media)
    {
      text := t;
    }

    /** The publish button: when the trimmed text is not empty it hands the
        untrimmed text and the media to onCreate and clears the text;
        otherwise nothing happens. */
    method Publish() returns (created: Option<Draft>)
      modifies this
      ensures CanPublish(old(text)) ==> created == Some(Draft(old(text), old(media))) && text == ""
      ensures !CanPublish(old(text)) ==> created.None? && text == old(text)
      ensures media == old(media)
    {
      if Trim(text, IsJsSpace) != [] {
        created := Some(Draft(text, media));
        text := "";
      } else {
        created := None;
      }
    }
  }
}
