/** `TweetAction.tweet_item(request, queryset)`: the bulk admin action that
    tweets every selected item and reports the outcome. It works in three
    passes over a list of records `[ok, message, obj, media-or-reason, ...]`:
    building the records, posting the eligible ones, and reporting. */
module TweetAction {
  import opened Wrappers
  import opened MediaChoice
  import opened Normalizer
  import opened Twitter

  const NOT_PUBLISHED := "Item not published"
  const TOO_LONG := "Message is too long"
  const ALL_SENT := "All tweets were sent"
  /** The longest message that may go out with an image. */
  const MEDIA_MESSAGE_LIMIT := 96

  /** The action's configuration: the text and image attribute names, the
      value of CONTENT_STATUS_PUBLISHED, settings.MEDIA_ROOT, truncatechars,
      and what normalize depends on. */
  datatype Options = Options(
    tweetField: Option<string>,
    tweetImageField: Option<string>,
    publishedStatus: int,
    mediaRoot: string,
    truncate: (string, int) -> string,
    env: Env)

  /** One entry of `tweet_data`. The Python list holds ok, message, obj and
      the slot, followed by whatever error messages were appended to it. */
  datatype Record = Record(ok: bool, message: string, item: Item, slot: Slot, errors: seq<string>)

  /** The configured attributes exist on the item (getattr would raise
      otherwise). */
  predicate FieldsPresent(item: Item, opts: Options) {
    && (IsSet(opts.tweetField) ==> opts.tweetField.value in item.texts)
    && (IsSet(opts.tweetImageField) ==> opts.tweetImageField.value in item.images)
  }

  /** The first pass reads the attributes of published items only. */
  predicate ReadableIfPublished(item: Item, opts: Options) {
    item.status == opts.publishedStatus ==> FieldsPresent(item, opts)
  }

  predicate PublishedReadable(items: seq<Item>, opts: Options) {
    forall i :: 0 <= i < |items| ==> ReadableIfPublished(items[i], opts)
  }

  /** The media slot of a published item: get_media_to_send without a
      default image when an image field is configured, else None. */
  function MediaFor(item: Item, opts: Options): (s: Slot)
    requires FieldsPresent(item, opts)
    ensures s.MediaSlot?
    ensures SlotTruthy(s) ==> IsSet(opts.tweetImageField)
  {
    if IsSet(opts.tweetImageField) then
      MediaSlot(Some(GetMediaToSend(item.images[opts.tweetImageField.value], NO_IMAGE, opts.mediaRoot)))
    else
      MediaSlot(None)
  }

  function Message(item: Item, opts: Options): string
    requires FieldsPresent(item, opts)
  {
    MessageSpec(item, opts.tweetField, opts.truncate, opts.env)
  }

  /** Whether the first pass lets an item through to posting. */
  predicate Postable(item: Item, opts: Options)
    requires ReadableIfPublished(item, opts)
  {
    item.status == opts.publishedStatus
    && !(SlotTruthy(MediaFor(item, opts)) && |Message(item, opts)| > MEDIA_MESSAGE_LIMIT)
  }

  /** The record the first pass builds for one item. An unpublished item is
      recorded with an empty message (see RecordsAsWritten for what the
      code does instead). */
  function RecordFor(item: Item, opts: Options): Record
    requires ReadableIfPublished(item, opts)
  {
    if item.status != opts.publishedStatus then
      Record(false, "", item, Reason(NOT_PUBLISHED), [])
    else
      var message := Message(item, opts);
      var media := MediaFor(item, opts);
      if SlotTruthy(media) && |message| > MEDIA_MESSAGE_LIMIT then
        Record(false, message, item, Reason(TOO_LONG), [])
      else
        Record(true, message, item, media, [])
  }

  /** A record is ok exactly when its item is postable; an ok record carries
      the item's message and media, and a message sent with media is at most
      96 characters long; a failed record carries the reason. */
  lemma RecordClassified(item: Item, opts: Options)
    requires ReadableIfPublished(item, opts)
    ensures var rec := RecordFor(item, opts);
      && rec.item == item && rec.errors == []
      && (rec.ok <==> Postable(item, opts))
      && (rec.ok ==> item.status == opts.publishedStatus && rec.slot == MediaFor(item, opts) && rec.message == Message(item, opts))
      && (rec.ok && SlotTruthy(rec.slot) ==> |rec.message| <= MEDIA_MESSAGE_LIMIT)
      && (!rec.ok ==> rec.slot == Reason(if item.status == opts.publishedStatus then TOO_LONG else NOT_PUBLISHED))
  {
  }

  /** The records of the first pass, one per item, in order. */
  function Records(items: seq<Item>, opts: Options): (data: seq<Record>)
    requires PublishedReadable(items, opts)
    ensures |data| == |items|
  {
    seq(|items|, i requires 0 <= i < |items| => RecordFor(items[i], opts))
  }

  /** The first pass as the code writes it: for an unpublished item it
      records `message`, the variable left over from the previous item, and
      raises NameError (None here) when no earlier item was published. */
  function RecordsAsWritten(items: seq<Item>, opts: Options, previous: Option<string>): (r: Option<seq<Record>>)
    requires PublishedReadable(items, opts)
    ensures r.None? <==> previous.None? && items != [] && items[0].status != opts.publishedStatus
    ensures r.Some? ==> |r.value| == |items|
    decreases |items|
  {
    if items == [] then Some([])
    else
      var item := items[0];
      if item.status == opts.publishedStatus then
        var rec := RecordFor(item, opts);
        var rest := RecordsAsWritten(items[1..], opts, Some(rec.message));
        if rest.None? then None else Some([rec] + rest.value)
      else if previous.None? then None
      else
        var rest := RecordsAsWritten(items[1..], opts, previous);
        if rest.None? then None
        else Some([Record(false, previous.value, item, Reason(NOT_PUBLISHED), [])] + rest.value)
  }

  /** As written, a first item that is not published stops the whole action
      with a NameError. */
  lemma UnpublishedFirstRaises(items: seq<Item>, opts: Options)
    requires PublishedReadable(items, opts)
    requires items != [] && items[0].status != opts.publishedStatus
    ensures RecordsAsWritten(items, opts, None) == None
  {
  }

  /** `r` is the corrected record of `item` except perhaps for its message,
      and is exactly that record when the item is published. */
  predicate AgreesBesidesMessage(r: Record, item: Item, opts: Options)
    requires ReadableIfPublished(item, opts)
  {
    && r == RecordFor(item, opts).(message := r.message)
    && (item.status == opts.publishedStatus ==> r == RecordFor(item, opts))
  }

  /** One step of the code as written: the first record, and the rest
      computed from the message it leaves behind. */
  lemma AsWrittenStep(items: seq<Item>, opts: Options, previous: Option<string>) returns (head: Record, next: Option<string>)
    requires PublishedReadable(items, opts) && items != []
    requires RecordsAsWritten(items, opts, previous).Some?
    ensures PublishedReadable(items[1..], opts)
    ensures next == if items[0].status == opts.publishedStatus then Some(RecordFor(items[0], opts).message) else previous
    ensures RecordsAsWritten(items[1..], opts, next).Some?
    ensures RecordsAsWritten(items, opts, previous).value == [head] + RecordsAsWritten(items[1..], opts, next).value
    ensures AgreesBesidesMessage(head, items[0], opts)
  {
    assert PublishedReadable(items[1..], opts);
    if items[0].status == opts.publishedStatus {
      head := RecordFor(items[0], opts);
      next := Some(head.message);
    } else {
      head := Record(false, previous.value, items[0], Reason(NOT_PUBLISHED), []);
      next := previous;
    }
  }

  /** When the code as written does not raise, its records are the corrected
      ones except for the (never used) message of unpublished items. */
  lemma {:induction false} AsWrittenDiffersOnlyInMessage(items: seq<Item>, opts: Options, previous: Option<string>)
    requires PublishedReadable(items, opts)
    requires RecordsAsWritten(items, opts, previous).Some?
    ensures var data := RecordsAsWritten(items, opts, previous).value;
      |data| == |items| &&
      forall i :: 0 <= i < |items| ==> AgreesBesidesMessage(data[i], items[i], opts)
    decreases |items|
  {
    if items != [] {
      var head, next := AsWrittenStep(items, opts, previous);
      AsWrittenDiffersOnlyInMessage(items[1..], opts, next);
      var data := RecordsAsWritten(items, opts, previous).value;
      var rest := RecordsAsWritten(items[1..], opts, next).value;
      forall i | 0 <= i < |items|
        ensures AgreesBesidesMessage(data[i], items[i], opts)
      {
        if i > 0 {
          assert data[i] == rest[i - 1];
          assert items[i] == items[1..][i - 1];
        }
      }
    }
  }

  /** The body of the first pass's loop for one item. */
  method BuildRecord(item: Item, opts: Options) returns (rec: Record)
    requires ReadableIfPublished(item, opts)
    ensures rec == RecordFor(item, opts)
  {
    if item.status == opts.publishedStatus {
      var message := Normalize(opts.truncate(MessageText(item, opts.tweetField), MESSAGE_LIMIT),
                               DEFAULT_FORM, true, opts.env);
      var media := MediaSlot(None);
      if IsSet(opts.tweetImageField) {
        media := MediaSlot(Some(GetMediaToSend(item.images[opts.tweetImageField.value], NO_IMAGE, opts.mediaRoot)));
      }
      assert media == MediaFor(item, opts);
      if SlotTruthy(media) && |message| > MEDIA_MESSAGE_LIMIT {
        rec := Record(false, message, item, Reason(TOO_LONG), []);
      } else {
        rec := Record(true, message, item, media, []);
      }
    } else {
      rec := Record(false, "", item, Reason(NOT_PUBLISHED), []);
    }
  }

  /** The first pass: one record per item, appended in order. */
  method BuildRecords(items: seq<Item>, opts: Options) returns (data: seq<Record>)
    requires PublishedReadable(items, opts)
    ensures data == Records(items, opts)
  {
    data := [];
    for i := 0 to |items|
      invariant |data| == i
      invariant forall k :: 0 <= k < i ==> data[k] == RecordFor(items[k], opts)
    {
      var rec := BuildRecord(items[i], opts);
      data := data + [rec];
    }
  }

  /** The call the second pass makes for a record. */
  function RecordPost(rec: Record): Post {
    PostFor(rec.message, rec.item.shortUrl, rec.slot)
  }

  /** A record after the second pass. Only a record still ok is posted; a
      failed call clears its ok flag and, for a TwitterError, appends the
      error's message. Nothing else in the record changes. */
  function Attempted(rec: Record, api: Post -> ApiOutcome): (after: Record)
    ensures after.message == rec.message && after.item == rec.item && after.slot == rec.slot
    ensures after.ok <==> rec.ok && api(RecordPost(rec)).Sent?
    ensures rec.ok && api(RecordPost(rec)).TwitterError? ==>
      after.errors == rec.errors + [api(RecordPost(rec)).message]
    ensures !(rec.ok && api(RecordPost(rec)).TwitterError?) ==> after.errors == rec.errors
  {
    if !rec.ok then rec
    else
      match api(RecordPost(rec))
      case Sent => rec
      case TwitterError(message) => rec.(ok := false, errors := rec.errors + [message])
      case OtherError(_) => rec.(ok := false)
  }

  /** Every record after the second pass. */
  function Outcomes(data: seq<Record>, api: Post -> ApiOutcome): (after: seq<Record>)
    ensures |after| == |data|
  {
    seq(|data|, i requires 0 <= i < |data| => Attempted(data[i], api))
  }

  function CountOk(data: seq<Record>): nat
    decreases |data|
  {
    if data == [] then 0 else CountOk(data[..|data| - 1]) + (if data[|data| - 1].ok then 1 else 0)
  }

  predicate IsOk(rec: Record) {
    rec.ok
  }

  predicate IsFailed(rec: Record) {
    !rec.ok
  }

  /** A record whose media the second pass closes: it was ok when reached,
      and its media is true and has a `close`. */
  predicate ClosesMedia(rec: Record) {
    rec.ok && SlotTruthy(rec.slot) && SlotClosable(rec.slot)
  }

  /** The positions of the records that `keep` selects, in increasing order:
      every selected position appears exactly once, and nothing else does. */
  function Positions(data: seq<Record>, keep: Record -> bool): (idx: seq<int>)
    ensures forall j :: 0 <= j < |idx| ==> 0 <= idx[j] < |data| && keep(data[idx[j]])
    ensures forall j, k :: 0 <= j < k < |idx| ==> idx[j] < idx[k]
    ensures forall i :: 0 <= i < |data| && keep(data[i]) ==> i in idx
    decreases |data|
  {
    if data == [] then []
    else
      var init := Positions(data[..|data| - 1], keep);
      assert forall j :: 0 <= j < |init| ==> data[..|data| - 1][init[j]] == data[init[j]];
      assert forall i :: 0 <= i < |data| - 1 ==> data[..|data| - 1][i] == data[i];
      if keep(data[|data| - 1]) then init + [|data| - 1] else init
  }

  /** The inductive step of `PostsForOk`, `ClosedForClosable` and
      `WarningsForFailed`, for any list `out` built by appending `f` of the
      last record when `keep` selects it: if `init` lists `f` of the selected
      records of the front, `out` lists those of all records. */
  lemma PositionsStep<T>(data: seq<Record>, keep: Record -> bool, f: Record -> T, init: seq<T>, out: seq<T>)
    requires data != []
    requires var idx := Positions(data[..|data| - 1], keep);
      |init| == |idx| && forall j :: 0 <= j < |idx| ==> init[j] == f(data[..|data| - 1][idx[j]])
    requires out == if keep(data[|data| - 1]) then init + [f(data[|data| - 1])] else init
    ensures var idx := Positions(data, keep);
      |out| == |idx| && forall j :: 0 <= j < |idx| ==> out[j] == f(data[idx[j]])
  {
    var front := data[..|data| - 1];
    var idx := Positions(front, keep);
    assert forall j :: 0 <= j < |idx| ==> front[idx[j]] == data[idx[j]];
    if keep(data[|data| - 1]) {
      assert Positions(data, keep) == idx + [|data| - 1];
    } else {
      assert Positions(data, keep) == idx;
    }
  }

  /** The calls of the second pass, in order: one per record that is ok. */
  function PostsFor(data: seq<Record>): (posts: seq<Post>)
    ensures |posts| == CountOk(data)
    decreases |data|
  {
    if data == [] then []
    else
      var init := PostsFor(data[..|data| - 1]);
      var last := data[|data| - 1];
      if last.ok then init + [RecordPost(last)] else init
  }

  /** The j-th call is that of the j-th ok record, so each ok record is
      posted exactly once, in order. */
  lemma {:induction false} PostsForOk(data: seq<Record>)
    ensures var idx := Positions(data, IsOk);
      |PostsFor(data)| == |idx| &&
      forall j :: 0 <= j < |idx| ==> PostsFor(data)[j] == RecordPost(data[idx[j]])
    decreases |data|
  {
    if data != [] {
      var front := data[..|data| - 1];
      PostsForOk(front);
      PositionsStep(data, IsOk, RecordPost, PostsFor(front), PostsFor(data));
    }
  }

  /** The media closed by the second pass, in order: the true, closable
      media of every record that was ok when reached. */
  function ClosedFor(data: seq<Record>): (closed: seq<Slot>)
    ensures forall s :: s in closed ==> SlotTruthy(s) && SlotClosable(s)
    decreases |data|
  {
    if data == [] then []
    else
      var init := ClosedFor(data[..|data| - 1]);
      var last := data[|data| - 1];
      if ClosesMedia(last) then init + [last.slot] else init
  }

  /** The j-th closed media is that of the j-th record that closes its
      media, so each such media is closed exactly once, in order. */
  lemma {:induction false} ClosedForClosable(data: seq<Record>)
    ensures var idx := Positions(data, ClosesMedia);
      |ClosedFor(data)| == |idx| &&
      forall j :: 0 <= j < |idx| ==> ClosedFor(data)[j] == data[idx[j]].slot
    decreases |data|
  {
    if data != [] {
      var front := data[..|data| - 1];
      ClosedForClosable(front);
      PositionsStep(data, ClosesMedia, (r: Record) => r.slot, ClosedFor(front), ClosedFor(data));
    }
  }

  /** Every ok record's true, closable media is among the closed ones. */
  lemma ClosedCoversClosable(data: seq<Record>)
    ensures forall i :: 0 <= i < |data| && ClosesMedia(data[i]) ==> data[i].slot in ClosedFor(data)
  {
    ClosedForClosable(data);
    var idx := Positions(data, ClosesMedia);
    var closed := ClosedFor(data);
    forall i | 0 <= i < |data| && ClosesMedia(data[i])
      ensures data[i].slot in closed
    {
      assert i in idx;
      var j :| 0 <= j < |idx| && idx[j] == i;
      assert closed[j] == data[i].slot;
    }
  }

  /** What the second pass does for one record: nothing when it is not ok;
      otherwise its call, then, whatever the call's outcome, the close of its
      media when that media is true and closable. */
  function EventsOf(rec: Record): seq<Event> {
    if !rec.ok then [] else CallThenClose(RecordPost(rec), rec.slot)
  }

  /** The log of the second pass: the events of the records, in order. */
  function EventsFor(data: seq<Record>): seq<Event>
    decreases |data|
  {
    if data == [] then [] else EventsFor(data[..|data| - 1]) + EventsOf(data[|data| - 1])
  }

  lemma EventsForStep(data: seq<Record>, i: int)
    requires 0 <= i < |data|
    ensures EventsFor(data[..i + 1]) == EventsFor(data[..i]) + EventsOf(data[i])
  {
    assert data[..i + 1][..i] == data[..i];
  }

  /** The calls in the log are `PostsFor`, and the closes `ClosedFor`. */
  lemma {:induction false} EventsForProjections(data: seq<Record>)
    ensures Calls(EventsFor(data)) == PostsFor(data)
    ensures Closes(EventsFor(data)) == ClosedFor(data)
    decreases |data|
  {
    if data != [] {
      var front := data[..|data| - 1];
      var last := data[|data| - 1];
      EventsForProjections(front);
      EventsAppend(EventsFor(front), EventsOf(last));
      if last.ok {
        CallThenCloseOrdered(RecordPost(last), last.slot);
      } else {
        assert EventsOf(last) == [];
      }
    }
  }

  /** In the log of the second pass, each media is closed right after its
      own call, before the next record's call. */
  lemma {:induction false} EventsForOrdered(data: seq<Record>)
    ensures CloseFollowsItsCall(EventsFor(data))
    decreases |data|
  {
    if data != [] {
      var front := data[..|data| - 1];
      var last := data[|data| - 1];
      EventsForOrdered(front);
      if last.ok {
        CallThenCloseOrdered(RecordPost(last), last.slot);
      }
      OrderedAppend(EventsFor(front), EventsOf(last));
    }
  }

  /** The second pass: the records are updated in place; each ok record is
      posted once, and its media, when true and closable, is closed right
      after that call whatever its outcome. A failure never stops the loop. */
  method PostAll(data: seq<Record>, api: Post -> ApiOutcome) returns (after: seq<Record>, events: seq<Event>)
    ensures after == Outcomes(data, api)
    ensures events == EventsFor(data)
  {
    after, events := data, [];
    for i := 0 to |data|
      invariant |after| == |data|
      invariant forall k :: 0 <= k < i ==> after[k] == Attempted(data[k], api)
      invariant forall k :: i <= k < |data| ==> after[k] == data[k]
      invariant events == EventsFor(data[..i])
    {
      EventsForStep(data, i);
      var info, done := PostOne(after[i], api);
      after := after[i := info];
      events := events + done;
    }
    assert data[..|data|] == data;
  }

  /** One round of the second pass: a record that is not ok is skipped;
      otherwise it is posted, a failure clears its ok flag (and a
      TwitterError adds its message), and its media is closed afterwards. */
  method PostOne(rec: Record, api: Post -> ApiOutcome) returns (info: Record, events: seq<Event>)
    ensures info == Attempted(rec, api)
    ensures events == EventsOf(rec)
  {
    info, events := rec, [];
    if !info.ok {
      return;
    }
    var post := if SlotTruthy(info.slot) then PostMedia(StatusText(info.message, info.item.shortUrl), info.slot)
                else PostUpdate(StatusText(info.message, info.item.shortUrl));
    events := [Call(post)];
    match api(post) {
      case Sent =>
      case TwitterError(message) =>
        info := info.(ok := false, errors := info.errors + [message]);
      case OtherError(_) =>
        info := info.(ok := false);
    }
    if SlotTruthy(rec.slot) && SlotClosable(rec.slot) {
      events := events + [Close(rec.slot)];
    }
  }


  predicate AllOk(data: seq<Record>) {
    forall i :: 0 <= i < |data| ==> data[i].ok
  }

  function CountFailed(data: seq<Record>): nat
    decreases |data|
  {
    if data == [] then 0 else CountFailed(data[..|data| - 1]) + (if data[|data| - 1].ok then 0 else 1)
  }

  /** `tweet_info[-1]`: the last error message appended, else the slot; the
      slot is the rejection reason, or for a call that failed with an
      exception other than TwitterError, the media itself. */
  function LastDetail(rec: Record): Detail {
    if rec.errors != [] then Text(rec.errors[|rec.errors| - 1])
    else match rec.slot
      case Reason(t) => Text(t)
      case MediaSlot(m) => MediaDetail(m)
  }

  function WarningFor(rec: Record, env: Env): Notice {
    Warning(NormalizeSpec(rec.item.title, DEFAULT_FORM, true, env), LastDetail(rec))
  }

  /** One warning per failed record, in order. */
  function WarningsFor(data: seq<Record>, env: Env): (notices: seq<Notice>)
    ensures |notices| == CountFailed(data)
    decreases |data|
  {
    if data == [] then []
    else
      var init := WarningsFor(data[..|data| - 1], env);
      var last := data[|data| - 1];
      if last.ok then init else init + [WarningFor(last, env)]
  }

  /** The j-th warning is that of the j-th failed record, so every failed
      record gets exactly one warning, in order. */
  lemma {:induction false} WarningsForFailed(data: seq<Record>, env: Env)
    ensures var idx := Positions(data, IsFailed);
      |WarningsFor(data, env)| == |idx| &&
      forall j :: 0 <= j < |idx| ==> WarningsFor(data, env)[j] == WarningFor(data[idx[j]], env)
    decreases |data|
  {
    if data != [] {
      var front := data[..|data| - 1];
      WarningsForFailed(front, env);
      PositionsStep(data, IsFailed, r => WarningFor(r, env), WarningsFor(front, env), WarningsFor(data, env));
    }
  }

  /** The third pass: one success message when every record is ok, else one
      warning per failed record. */
  function Report(data: seq<Record>, env: Env): seq<Notice> {
    if AllOk(data) then [Success(ALL_SENT)] else WarningsFor(data, env)
  }

  method ReportAll(data: seq<Record>, env: Env) returns (notices: seq<Notice>)
    ensures notices == Report(data, env)
  {
    if AllOk(data) {
      notices := [Success(ALL_SENT)];
    } else {
      notices := [];
      for i := 0 to |data|
        invariant notices == WarningsFor(data[..i], env)
      {
        assert data[..i + 1][..i] == data[..i];
        if !data[i].ok {
          var title := Normalize(data[i].item.title, DEFAULT_FORM, true, env);
          notices := notices + [Warning(title, LastDetail(data[i]))];
        }
      }
      assert data[..|data|] == data;
    }
  }

  /** tweet_item: the three passes. `events` are the client calls made and
      the media closed, in order; `notices` the messages shown. */
  method TweetItem(items: seq<Item>, opts: Options, api: Post -> ApiOutcome)
    returns (events: seq<Event>, notices: seq<Notice>)
    requires PublishedReadable(items, opts)
    ensures events == EventsFor(Records(items, opts))
    ensures Calls(events) == PostsFor(Records(items, opts))
    ensures Closes(events) == ClosedFor(Records(items, opts))
    ensures CloseFollowsItsCall(events)
    ensures notices == Report(Outcomes(Records(items, opts), api), opts.env)
  {
    var data := BuildRecords(items, opts);
    var after;
    after, events := PostAll(data, api);
    EventsForProjections(data);
    EventsForOrdered(data);
    notices := ReportAll(after, opts.env);
  }

  lemma {:induction false} CountFailedComplement(data: seq<Record>)
    ensures CountFailed(data) + CountOk(data) == |data|
    ensures CountFailed(data) == 0 <==> AllOk(data)
    decreases |data|
  {
    if data != [] {
      var init := data[..|data| - 1];
      CountFailedComplement(init);
      if AllOk(init) && data[|data| - 1].ok {
        assert AllOk(data);
      }
    }
  }

  /** The report is either exactly the one success message, when every
      record is ok, or exactly one warning per failed record and no success
      message. */
  lemma {:induction false} ReportShape(data: seq<Record>, env: Env)
    ensures AllOk(data) ==> Report(data, env) == [Success(ALL_SENT)]
    ensures !AllOk(data) ==>
      |Report(data, env)| == CountFailed(data) > 0 &&
      forall n :: n in Report(data, env) ==> n.Warning?
    ensures Success(ALL_SENT) in Report(data, env) <==> AllOk(data)
  {
    CountFailedComplement(data);
    if !AllOk(data) {
      WarningsForFailed(data, env);
      var notices := WarningsFor(data, env);
      var idx := Positions(data, IsFailed);
      forall n | n in notices
        ensures n.Warning?
      {
        var j :| 0 <= j < |notices| && notices[j] == n;
        assert n == WarningFor(data[idx[j]], env);
      }
    }
  }

  /** Exactly the items that pass the first pass are posted, each once. */
  lemma {:induction false} PostedAreThePostable(items: seq<Item>, opts: Options)
    requires PublishedReadable(items, opts)
    ensures forall p :: p in PostsFor(Records(items, opts)) ==>
      exists i :: 0 <= i < |items| && Postable(items[i], opts) && p == RecordPost(RecordFor(items[i], opts))
    ensures forall i :: 0 <= i < |items| && Postable(items[i], opts) ==>
      RecordPost(RecordFor(items[i], opts)) in PostsFor(Records(items, opts))
    ensures |PostsFor(Records(items, opts))| == CountOk(Records(items, opts))
  {
    var data := Records(items, opts);
    PostsForOk(data);
    var idx := Positions(data, IsOk);
    var posts := PostsFor(data);
    forall i | 0 <= i < |items| && Postable(items[i], opts)
      ensures RecordPost(RecordFor(items[i], opts)) in posts
    {
      RecordClassified(items[i], opts);
      assert data[i] == RecordFor(items[i], opts);
      assert IsOk(data[i]);
      assert i in idx;
      var j :| 0 <= j < |idx| && idx[j] == i;
      assert posts[j] == RecordPost(data[i]);
    }
    forall p | p in PostsFor(data)
      ensures exists i :: 0 <= i < |items| && Postable(items[i], opts) && p == RecordPost(RecordFor(items[i], opts))
    {
      var i :| 0 <= i < |data| && data[i].ok && p == RecordPost(data[i]);
      assert data[i] == RecordFor(items[i], opts);
    }
  }

  /** The action reports success, and only success, exactly when every item
      is published, short enough for its media, and its call succeeds. */
  lemma {:induction false} AllSentIff(items: seq<Item>, opts: Options, api: Post -> ApiOutcome)
    requires PublishedReadable(items, opts)
    ensures Report(Outcomes(Records(items, opts), api), opts.env) == [Success(ALL_SENT)] <==>
      forall i :: 0 <= i < |items| ==>
        Postable(items[i], opts) && api(RecordPost(RecordFor(items[i], opts))).Sent?
  {
    var data := Records(items, opts);
    var after := Outcomes(data, api);
    ReportShape(after, opts.env);
    if AllOk(after) {
      forall i | 0 <= i < |items|
        ensures Postable(items[i], opts) && api(RecordPost(RecordFor(items[i], opts))).Sent?
      {
        assert after[i] == Attempted(data[i], api);
      }
    } else {
      var i :| 0 <= i < |after| && !after[i].ok;
      assert after[i] == Attempted(data[i], api);
      assert !(Postable(items[i], opts) && api(RecordPost(RecordFor(items[i], opts))).Sent?);
    }
  }

  /** An empty selection reports success and makes no call. */
  lemma EmptySelection(opts: Options, api: Post -> ApiOutcome)
    ensures PostsFor(Records([], opts)) == []
    ensures Report(Outcomes(Records([], opts), api), opts.env) == [Success(ALL_SENT)]
  {
  }

  /** A single unpublished item: one failure with reason 'Item not
      published', no call to the client. */
  lemma {:induction false} SingleUnpublished(item: Item, opts: Options, api: Post -> ApiOutcome)
    requires item.status != opts.publishedStatus
    ensures PostsFor(Records([item], opts)) == []
    ensures Report(Outcomes(Records([item], opts), api), opts.env)
      == [Warning(NormalizeSpec(item.title, DEFAULT_FORM, true, opts.env), Text(NOT_PUBLISHED))]
  {
    var data := Records([item], opts);
    assert data == [Record(false, "", item, Reason(NOT_PUBLISHED), [])];
    assert data[..0] == [];
    var after := Outcomes(data, api);
    assert after == data;
    assert after[..0] == [];
  }

  /** A published item with media whose message is longer than 96
      characters: one failure with reason 'Message is too long', no call. */
  lemma {:induction false} SingleTooLong(item: Item, opts: Options, api: Post -> ApiOutcome)
    requires FieldsPresent(item, opts) && item.status == opts.publishedStatus
    requires SlotTruthy(MediaFor(item, opts)) && |Message(item, opts)| > MEDIA_MESSAGE_LIMIT
    ensures PostsFor(Records([item], opts)) == []
    ensures Report(Outcomes(Records([item], opts), api), opts.env)
      == [Warning(NormalizeSpec(item.title, DEFAULT_FORM, true, opts.env), Text(TOO_LONG))]
  {
    var data := Records([item], opts);
    assert data == [Record(false, Message(item, opts), item, Reason(TOO_LONG), [])];
    assert data[..0] == [];
    var after := Outcomes(data, api);
    assert after == data;
    assert after[..0] == [];
  }

  /** A record whose call raises a TwitterError is reported with that
      error's message; one whose call raises any other exception is reported
      with its media slot, since the code records no reason for it. */
  lemma FailedCallDetail(rec: Record, api: Post -> ApiOutcome)
    requires rec.ok && rec.errors == [] && rec.slot.MediaSlot?
    ensures api(RecordPost(rec)).TwitterError? ==>
      LastDetail(Attempted(rec, api)) == Text(api(RecordPost(rec)).message)
    ensures api(RecordPost(rec)).OtherError? ==>
      LastDetail(Attempted(rec, api)) == MediaDetail(rec.slot.media)
  {
  }
}
