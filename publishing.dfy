/**
 * Publishing a post end to end: the composer's guard, the body the client
 * sends, the server's JSON binding of it and the POST /posts handler.
 */
module Publishing {
  import opened Wrappers
  import Text
  import Client
  import Routes

  /** The server's binding of the client's body: the JSON carries no id and
      no date, and no media key when the media is undefined, so those fields
      keep Go's zero values. */
  function Bind(body: Client.NewPost): (p: Routes.Post)
    ensures p.author == body.author && p.content == body.content
    ensures body.media.Some? ==> p.media == body.media.value
    ensures body.media.None? ==> p.media == ""
  {
    Routes.Post(0, body.author, body.content, if body.media.Some? then body.media.value else "", "")
  }

  /** A text the composer lets through is never empty. */
  lemma PublishableIsNonEmpty(text: string)
    requires Client.CanPublish(text)
    ensures text != []
  {
    assert |Text.Trim(text, Text.IsJsSpace)| <= |text|;
  }

  /** Every draft the composer hands over passes the server's guard: the
      author is the fixed anonymous name and the content is not empty, so
      the reply is never 400; the row inserted holds the draft's text
      untrimmed, and the client sees an ok reply exactly when the insert
      succeeds. */
  lemma PublishedDraftsAreAccepted(draft: Client.Draft, insertSucceeds: bool)
    requires Client.CanPublish(draft.text)
    ensures var out := Routes.CreatePost(Routes.Bound(Bind(Client.Request(draft))), insertSucceeds);
      && out.reply.status != Routes.StatusBadRequest
      && (Client.IsOk(out.reply.status) <==> insertSucceeds)
      && out.insert == Some(Routes.Insert(Client.AnonymousAuthor, draft.text,
                                          if draft.media.Some? then draft.media.value else ""))
  {
    PublishableIsNonEmpty(draft.text);
    assert Client.AnonymousAuthor != [];
  }
}
