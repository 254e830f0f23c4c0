/** The tweeting part of `TweetImageAdminMixin.save_model`: after an item is
    saved, tweet it when it is published and the form asks for it, then
    report the one outcome. */
module TweetOnSave {
  import opened Wrappers
  import opened MediaChoice
  import opened Normalizer
  import opened Twitter

  const TWEET_SENT := "Tweet has been sent"
  const ERROR_PREFIX := "There was an error: "

  /** The mixin's configuration: whether the Twitter client library is
      available, the value of the mode flag the method reads, the text and
      image attribute names, CONTENT_STATUS_PUBLISHED, settings.MEDIA_ROOT,
      truncatechars, and what normalize depends on. */
  datatype SaveOptions = SaveOptions(
    apiAvailable: bool,
    tweetOrImage: bool,
    tweetField: Option<string>,
    tweetImageField: string,
    publishedStatus: int,
    mediaRoot: string,
    truncate: (string, int) -> string,
    env: Env)

  /** The two checkboxes of the submitted form, by truth value. */
  datatype Form = Form(sendTweet: bool, tweetImage: bool)

  /** Whether the save tweets at all: the client is available, the item is
      published, and the checkbox the mode calls for is ticked. */
  predicate Triggered(item: Item, o: SaveOptions, form: Form) {
    && o.apiAvailable
    && item.status == o.publishedStatus
    && ((o.tweetOrImage && form.sendTweet) || (!o.tweetOrImage && form.tweetImage))
  }

  /** The configured attributes exist on the item; they are read only when
      the save tweets. */
  predicate FieldsPresent(item: Item, o: SaveOptions, form: Form) {
    && (IsSet(o.tweetField) ==> o.tweetField.value in item.texts)
    && (form.tweetImage ==> o.tweetImageField in item.images)
  }

  /** The media slot: get_media_to_send when the image box is ticked, else None. */
  function SaveMedia(item: Item, o: SaveOptions, form: Form): Slot
    requires FieldsPresent(item, o, form)
  {
    if form.tweetImage then
      MediaSlot(Some(GetMediaToSend(item.images[o.tweetImageField], NO_IMAGE, o.mediaRoot)))
    else
      MediaSlot(None)
  }

  /** The one call a triggered save makes. */
  function SavePost(item: Item, o: SaveOptions, form: Form): Post
    requires FieldsPresent(item, o, form)
  {
    PostFor(MessageSpec(item, o.tweetField, o.truncate, o.env), item.shortUrl, SaveMedia(item, o, form))
  }

  /** What a triggered save does outside itself: its one call, then, when
      the media is true and closable, the close of that media. */
  function SaveEvents(item: Item, o: SaveOptions, form: Form): seq<Event>
    requires FieldsPresent(item, o, form)
  {
    CallThenClose(SavePost(item, o, form), SaveMedia(item, o, form))
  }

  /** The save makes exactly its one call, closes exactly the closable
      media, and closes it right after that call. */
  lemma SaveEventsOrdered(item: Item, o: SaveOptions, form: Form)
    requires FieldsPresent(item, o, form)
    ensures var m := SaveMedia(item, o, form);
      && Calls(SaveEvents(item, o, form)) == [SavePost(item, o, form)]
      && Closes(SaveEvents(item, o, form)) == (if SlotTruthy(m) && SlotClosable(m) then [m] else [])
      && CloseFollowsItsCall(SaveEvents(item, o, form))
  {
    CallThenCloseOrdered(SavePost(item, o, form), SaveMedia(item, o, form));
  }

  /** save_model's tweet and report path: `events` are the client call and
      the media closed, in order, `notices` the messages shown. Unlike the
      bulk action, no length limit applies to a message sent with media. */
  method SaveModel(item: Item, o: SaveOptions, form: Form, api: Post -> ApiOutcome)
    returns (events: seq<Event>, notices: seq<Notice>)
    requires Triggered(item, o, form) ==> FieldsPresent(item, o, form)
    ensures !Triggered(item, o, form) ==> events == [] && notices == []
    ensures Triggered(item, o, form) ==>
      && events == SaveEvents(item, o, form)
      && events[0].post.status == StatusText(MessageSpec(item, o.tweetField, o.truncate, o.env), item.shortUrl)
      && (events[0].post.PostMedia? <==> SlotTruthy(SaveMedia(item, o, form)))
      && Calls(events) == [SavePost(item, o, form)]
      && Closes(events) == (var m := SaveMedia(item, o, form); if SlotTruthy(m) && SlotClosable(m) then [m] else [])
      && CloseFollowsItsCall(events)
    ensures Triggered(item, o, form) && api(SavePost(item, o, form)).Sent? ==>
      notices == [Success(TWEET_SENT)]
    ensures Triggered(item, o, form) && !api(SavePost(item, o, form)).Sent? ==>
      notices == [Error(ERROR_PREFIX + ErrorText(api(SavePost(item, o, form))))]
  {
    events, notices := [], [];
    if Triggered(item, o, form) {
      var didTweet := true;
      var message := Normalize(o.truncate(MessageText(item, o.tweetField), MESSAGE_LIMIT), DEFAULT_FORM, true, o.env);
      var media := MediaSlot(None);
      if form.tweetImage {
        media := MediaSlot(Some(GetMediaToSend(item.images[o.tweetImageField], NO_IMAGE, o.mediaRoot)));
      }
      var tweetError := "";
      var post := if SlotTruthy(media) then PostMedia(StatusText(message, item.shortUrl), media)
                  else PostUpdate(StatusText(message, item.shortUrl));
      assert media == SaveMedia(item, o, form) && post == SavePost(item, o, form);
      SaveEventsOrdered(item, o, form);
      events := [Call(post)];
      var outcome := api(post);
      if !outcome.Sent? {
        didTweet := false;
        if outcome.TwitterError? {
          tweetError := outcome.message;
        } else {
          tweetError := outcome.text;
        }
      }
      if SlotTruthy(media) && SlotClosable(media) {
        events := events + [Close(media)];
      }
      if didTweet {
        notices := [Success(TWEET_SENT)];
      } else {
        notices := [Error(ERROR_PREFIX + tweetError)];
      }
    }
  }
}
