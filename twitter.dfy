/** What the two tweeting paths of twitterplus/admin.py share: the content
    item, the calls made to the Twitter client, its answers, and the admin
    messages shown to the user. */
module Twitter {
  import opened Wrappers
  import opened MediaChoice
  import opened Normalizer

  /** A content item: its publish status, its short URL (as set_short_url
      leaves it), its title, `str(obj)`, and its text and image attributes by
      name. */
  datatype Item = Item(
    status: int,
    shortUrl: string,
    title: string,
    display: string,
    texts: map<string, string>,
    images: map<string, ImageValue>)

  /** The fourth element of a tweet record: the media to send (None when no
      image field is configured) or the reason the record was rejected. */
  datatype Slot = Reason(text: string) | MediaSlot(media: Option<Media>)

  /** A call to the Twitter client. */
  datatype Post = PostMedia(status: string, media: Slot) | PostUpdate(status: string)

  /** How a call ends: success, a TwitterError (carrying the message of its
      first error entry), or any other exception (carrying `str(e)`). */
  datatype ApiOutcome = Sent | TwitterError(message: string) | OtherError(text: string)

  /** What a warning shows after the title: a string, or the media slot
      itself when no reason was recorded. */
  datatype Detail = Text(s: string) | MediaDetail(media: Option<Media>)

  /** A message_user call, by level. */
  datatype Notice = Success(text: string) | Error(text: string) | Warning(title: string, detail: Detail)

  /** What the code does outside itself, in order: a call to the client, or
      closing a media file. */
  datatype Event = Call(post: Post) | Close(slot: Slot)

  /** The client calls among the events, in order. */
  function Calls(events: seq<Event>): seq<Post>
    decreases |events|
  {
    if events == [] then []
    else
      var last := events[|events| - 1];
      Calls(events[..|events| - 1]) + (if last.Call? then [last.post] else [])
  }

  /** The media closed among the events, in order. */
  function Closes(events: seq<Event>): seq<Slot>
    decreases |events|
  {
    if events == [] then []
    else
      var last := events[|events| - 1];
      Closes(events[..|events| - 1]) + (if last.Close? then [last.slot] else [])
  }

  /** Every close comes right after the call that sent that media, and every
      call that sends closable media is right followed by its close: no
      other call falls between a media being sent and being closed. */
  predicate CloseFollowsItsCall(events: seq<Event>) {
    && (forall k :: 0 <= k < |events| && events[k].Close? ==>
          0 < k && events[k - 1].Call? && events[k - 1].post.PostMedia? && events[k - 1].post.media == events[k].slot)
    && (forall k :: 0 <= k < |events| && events[k].Call? && events[k].post.PostMedia? && SlotClosable(events[k].post.media) ==>
          k + 1 < |events| && events[k + 1] == Close(events[k].post.media))
  }

  /** A call, then the close of its media when that media is true and
      closable, whatever the call's outcome. */
  function CallThenClose(p: Post, m: Slot): seq<Event> {
    [Call(p)] + (if SlotTruthy(m) && SlotClosable(m) then [Close(m)] else [])
  }

  /** When `p` sends `m` exactly when `m` is true, the log holds the one
      call, closes exactly the closable media, and closes it right after. */
  lemma CallThenCloseOrdered(p: Post, m: Slot)
    requires p.PostMedia? <==> SlotTruthy(m)
    requires p.PostMedia? ==> p.media == m
    ensures Calls(CallThenClose(p, m)) == [p]
    ensures Closes(CallThenClose(p, m)) == if SlotTruthy(m) && SlotClosable(m) then [m] else []
    ensures CloseFollowsItsCall(CallThenClose(p, m))
  {
    var call := [Call(p)];
    assert call[..0] == [] && call[0] == Call(p);
    assert Calls(call[..0]) == [] && Closes(call[..0]) == [];
    assert Calls(call) == [p] && Closes(call) == [];
    if SlotTruthy(m) && SlotClosable(m) {
      var both := call + [Close(m)];
      assert both == CallThenClose(p, m);
      assert both[..1] == call;
      assert Calls(both) == [p] && Closes(both) == [m];
    } else {
      assert CallThenClose(p, m) == call;
    }
  }

  /** Two logs in order stay in order one after the other, when the second
      starts with a call: its first event cannot be a close owed to the
      first log's last call. */
  lemma OrderedAppend(a: seq<Event>, b: seq<Event>)
    requires CloseFollowsItsCall(a) && CloseFollowsItsCall(b)
    requires b == [] || b[0].Call?
    ensures CloseFollowsItsCall(a + b)
  {
    var ev := a + b;
    assert forall k :: 0 <= k < |a| ==> ev[k] == a[k];
    assert forall k :: |a| <= k < |ev| ==> ev[k] == b[k - |a|];
  }

  /** The projections distribute over the concatenation of two logs. */
  lemma {:induction false} EventsAppend(a: seq<Event>, b: seq<Event>)
    ensures Calls(a + b) == Calls(a) + Calls(b)
    ensures Closes(a + b) == Closes(a) + Closes(b)
    decreases |b|
  {
    if b != [] {
      var front := b[..|b| - 1];
      EventsAppend(a, front);
      assert (a + b)[..|a + b| - 1] == a + front;
      assert (a + b)[|a + b| - 1] == b[|b| - 1];
    } else {
      assert a + b == a;
    }
  }

  /** The limit passed to truncatechars, leaving room for the URL. */
  const MESSAGE_LIMIT := 116

  /** Python's truth value of an optional attribute name. */
  predicate IsSet(name: Option<string>) {
    name.Some? && name.value != ""
  }

  /** Python's truth value of a slot. */
  predicate SlotTruthy(s: Slot) {
    match s
    case Reason(t) => t != ""
    case MediaSlot(m) => m.Some? && Truthy(m.value)
  }

  /** Whether the slot holds something with a `close` method. */
  predicate SlotClosable(s: Slot) {
    s.MediaSlot? && s.media.Some? && Closable(s.media.value)
  }

  /** `"{} {}".format(message, short_url)`. */
  function StatusText(message: string, shortUrl: string): string {
    message + " " + shortUrl
  }

  /** The text to tweet: `str(obj)` when no tweet field is configured, else
      that attribute. */
  function MessageText(item: Item, tweetField: Option<string>): string
    requires IsSet(tweetField) ==> tweetField.value in item.texts
  {
    if !IsSet(tweetField) then item.display else item.texts[tweetField.value]
  }

  /** `normalize(truncatechars(message_text, 116))`. */
  function MessageSpec(item: Item, tweetField: Option<string>, truncate: (string, int) -> string, env: Env): string
    requires IsSet(tweetField) ==> tweetField.value in item.texts
  {
    NormalizeSpec(truncate(MessageText(item, tweetField), MESSAGE_LIMIT), DEFAULT_FORM, true, env)
  }

  /** The call made for a message, a short URL and the media slot: with
      media when the slot is true, a plain status update otherwise. */
  function PostFor(message: string, shortUrl: string, slot: Slot): (p: Post)
    ensures p.status == StatusText(message, shortUrl)
    ensures p.PostMedia? <==> SlotTruthy(slot)
    ensures p.PostMedia? ==> p.media == slot
  {
    if SlotTruthy(slot) then PostMedia(StatusText(message, shortUrl), slot)
    else PostUpdate(StatusText(message, shortUrl))
  }

  /** The text an error message shows: e[0][0]['message'] for a
      TwitterError, str(e) otherwise. */
  function ErrorText(o: ApiOutcome): string
    requires !o.Sent?
  {
    if o.TwitterError? then o.message else o.text
  }
}
