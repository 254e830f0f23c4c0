# twitterplus admin logic, modelled in Dafny

twitterplus adds "tweet on publish" to a Mezzanine/Django admin. This
project models the logic in `twitterplus/admin.py`:

- **`normalize`**: Unicode canonicalisation, then a fixed sequence of
  `str.replace` steps, then optional whitespace collapsing. The steps remove
  control characters, unify hyphens and quotes, and unify unusual spaces and
  line breaks. It is modelled as the method `Normalizer.Normalize`. The
  method keeps the source's three `for` loops, and it is proved equal to the
  specification function `Normalizer.NormalizeSpec`. The properties are
  proved about that function. Python's `str.replace`, `str.split()` and
  `' '.join` are defined in module `PyStr`.
- **`get_media_to_send`**: the fallback order that picks the image to
  tweet, as a pure function (`MediaChoice.GetMediaToSend`).
- **`TweetAction.tweet_item`**: the bulk action. It has three passes over
  the list of records `[ok, message, obj, media-or-reason, ...]`:
  `BuildRecords` appends one record per item, `PostAll` posts the eligible
  records and updates them in place, and `ReportAll` emits the messages.
  Each pass is a method with a loop, proved against a specification function
  (`Records`, `Outcomes`/`EventsFor`, `Report`). Lemmas relate these
  functions to one another. The Twitter client is an oracle from a call to
  its outcome. `message_user` calls are returned as a list of notices. The
  client calls and the closing of media handles are returned together, in
  the order they happen, as one log of events (`Twitter.Event`).
- **`TweetImageAdminMixin.save_model`**: the tweet-and-report path, for a
  single item (`TweetOnSave.SaveModel`).

Modules: `Wrappers` (Option), `PyStr`, `Normalizer`, `MediaChoice`,
`Twitter` (the datatypes shared by both tweeting paths), `TweetAction`,
`TweetOnSave`.

`admin.py` is not valid Python as it stands. Line 92 is `else if`. Lines
66 and 68 end in a dangling `.`. The parentheses at lines 152-154 are
unbalanced. `get_media_to_send` reads `self` at line 87, but it is a free
function. `unicodedata`, `to_unicode`, `ImageFile`, `settings`,
`CONTENT_STATUS_PUBLISHED` and `TwitterError` are never imported or defined.
The model follows the evident intent of each statement. The undefined names
become parameters: `Env`, `Options`, `SaveOptions` and the `ApiOutcome`
datatype.

Three behaviours of the code worth knowing:

- `normalize` is not idempotent. U+2018 U+2019 becomes `''`, and a second
  call turns that into `"` (`Normalizer.NormalizeNotIdempotent`). This
  happens because the `''` replacement runs before the single quotes are
  unified.
- In `tweet_item`, a call that fails with an exception other than
  `TwitterError` records no reason. Its warning therefore shows the record's
  media slot, not `str(e)` (`TweetAction.FailedCallDetail`). `save_model`
  does show `str(e)`.
- `save_model` applies no 96-character limit to a message that goes out with
  an image. Only `tweet_item` applies it.

## Model

| member | source | states |
|---|---|---|
| `PyStr.Replace` | twitterplus/admin.py:50-69 | `str.replace`: every character of the result comes from the input or the replacement. A one-character pattern never survives unless the replacement contains it. |
| `PyStr.ReplaceEach` | twitterplus/admin.py:49-63 | The loops `for x in TABLE: text = text.replace(x, rep)`: every character of the result is in the replacement, or it came from the input and is not in the table. |
| `PyStr.ReplaceCharPointwise` | twitterplus/admin.py:53-54 | Replacing one character by one character keeps the length. Each position holds the new character exactly where the old one stood. |
| `PyStr.ReplaceEachPointwise` | twitterplus/admin.py:53-54 | Replacing every table character by one character maps each table character to it. Every other character stays in place. |
| `PyStr.ReplaceCharAppend` | twitterplus/admin.py:66-69 | A one-character replacement acts on the two halves of a concatenation independently. |
| `PyStr.ReplacePairAround` | twitterplus/admin.py:69 | An occurrence of a two-character pattern of distinct characters, such as CRLF, is always replaced, whatever precedes it. |
| `PyStr.Split` | twitterplus/admin.py:71 | `str.split()` yields non-empty words that contain no whitespace. |
| `PyStr.CollapseIsCollapsed` | twitterplus/admin.py:71 | After `' '.join(text.split())`, the only whitespace is `' '`. It is never at either end and never next to other whitespace. |
| `PyStr.CollapseKeepsVisible` | twitterplus/admin.py:71 | Collapsing keeps every non-whitespace character, in the same order. |
| `PyStr.CollapseChars` | twitterplus/admin.py:71 | Each character of a collapsed string is a space, or a non-whitespace character of the input. |
| `PyStr.IsSpace` | twitterplus/admin.py:71 | The characters `str.split()` with no separator splits on, as Python 2.7's `unicode.isspace` defines them, U+180E included. |
| `PyStr.JoinLength` | twitterplus/admin.py:71 | `' '.join(words)`: the length is the total length of the words plus one space between each pair of neighbours. |
| `PyStr.SplitJoin` | twitterplus/admin.py:71 | Splitting undoes joining non-empty words without whitespace. |
| `PyStr.SplitAtSpace` | twitterplus/admin.py:71 | A whitespace character always ends a word: splitting `x + [c] + y` gives the words of `x`, then the words of `y`. Together with `SplitJoin`, this fixes `str.split()` on every string. |
| `PyStr.SplitAfterSpaces` | twitterplus/admin.py:71 | Leading whitespace yields no word. |
| `PyStr.SplitAroundRun` | twitterplus/admin.py:71 | A run of whitespace splits the string, whatever surrounds it. |
| `PyStr.CollapseRun` | twitterplus/admin.py:71 | `' '.join(text.split())` turns a run of whitespace between two words into exactly one space. |
| `PyStr.CollapseIdempotent` | twitterplus/admin.py:71 | Collapsing twice gives the same result as collapsing once. |
| `Normalizer.Normalize` | twitterplus/admin.py:31-75 | `normalize`, with its loops over CONTROLS, HYPHENS and the single quotes, returns exactly `NormalizeSpec`: canonicalisation, then the replacement steps in source order, then collapsing if asked. |
| `Normalizer.NormalizedProvenance` | twitterplus/admin.py:47-71 | Every output character is one the steps write (`-`, `"`, `'`, space, newline), or comes from the canonical text. In the second case it is not a control, not a hyphen, and not a character the steps remove. |
| `Normalizer.NoRemovedCharacter` | twitterplus/admin.py:55-69 | Whether or not whitespace is collapsed, no soft hyphen survives. Neither do U+201C/U+201D, U+2018/U+2019, backtick, U+00B4, VT, FF, NEL, U+2028, U+2029 or CR. |
| `Normalizer.NoHyphenLeft` | twitterplus/admin.py:53-54 | No character of HYPHENS is left, given that none of them is a character the later steps write. |
| `Normalizer.NoControlLeft` | twitterplus/admin.py:49-50 | No character of CONTROLS is left, under the same condition. |
| `Normalizer.HyphensBecomeDash` | twitterplus/admin.py:51-55 | The hyphen step maps every hyphen variant to `-` and drops every soft hyphen, keeping all other characters in order (`DashOrDrop`, defined character by character). |
| `Normalizer.CollapsedResult` | twitterplus/admin.py:70-71 | With `collapse=True`: collapsed shape, no newline, and the non-whitespace characters of the pre-collapse text in the same order. |
| `Normalizer.CollapseSeparatesWords` | twitterplus/admin.py:70-71 | With `collapse=True`, two words separated by a run of whitespace in the text before collapsing come out separated by exactly one space. |
| `Normalizer.UncollapsedResult` | twitterplus/admin.py:72-75 | With `collapse=False`, the text after newline normalisation is returned unchanged. Collapsing it gives the `collapse=True` result. |
| `Normalizer.CrLfIsOneNewline` | twitterplus/admin.py:68-69 | CRLF becomes a single `\n`, wherever it stands. |
| `Normalizer.NormalizeNotIdempotent` | twitterplus/admin.py:57-63 | Two concrete inputs show that normalising twice can differ from normalising once. |
| `MediaChoice.GetMediaToSend` | twitterplus/admin.py:78-96 | The chosen media is truthy exactly when the field value or the default is truthy. A raw return is one of those two values, unchanged. |
| `MediaChoice.MediaFallbackOrder` | twitterplus/admin.py:87-96 | A false field value falls back to the default. A `file` wins over a `path`. A value with only a `path` is opened under the media root. Anything else, possibly None, is returned as is. |
| `Twitter.PostFor` | twitterplus/admin.py:240-246 | The status is `message + " " + short_url`. The call is PostMedia exactly when the media slot is true, and it then carries that slot. |
| `TweetAction.MediaFor` | twitterplus/admin.py:225-228 | The media slot of a published item is true only when an image field is configured. |
| `TweetAction.RecordClassified` | twitterplus/admin.py:218-235 | The record `RecordFor` builds is ok exactly when the item is published and not (with media and over 96 characters). A failed record carries the reason 'Item not published' or 'Message is too long'. An ok record with media has at most 96 characters. |
| `TweetAction.BuildRecord` | twitterplus/admin.py:218-235 | One iteration of the first pass normalises the truncated text, picks the media, and applies the 96-character check. It yields exactly `RecordFor`'s record, which `RecordClassified` characterises. |
| `TweetAction.BuildRecords` | twitterplus/admin.py:216-235 | The first pass appends one record per item, in order, equal to `Records`. |
| `TweetAction.RecordsAsWritten` | twitterplus/admin.py:217-235 | The first pass as written raises exactly when no message is left over yet and the next item is unpublished. Otherwise it yields one record per item. |
| `TweetAction.UnpublishedFirstRaises` | twitterplus/admin.py:234-235 | As written, an unpublished first item raises NameError, because `message` is unbound. |
| `TweetAction.AsWrittenDiffersOnlyInMessage` | twitterplus/admin.py:218-235 | When the code as written does not raise, its records equal the corrected ones, except for the stale message of unpublished items. |
| `TweetAction.Attempted` | twitterplus/admin.py:237-252 | Only the record's ok flag and error list change. The record stays ok exactly when it was ok and its call succeeded. A TwitterError appends its message. |
| `TweetAction.PostsFor` | twitterplus/admin.py:237-246 | There are exactly as many calls as ok records. `PostsForOk` says which call is whose. |
| `TweetAction.Positions` | twitterplus/admin.py:237-238 | The positions a pass acts on, in increasing order. Every selected record's position appears exactly once, and no other position appears. |
| `TweetAction.PostsForOk` | twitterplus/admin.py:237-246 | The j-th call is the call of the j-th ok record. So each ok record is posted exactly once, in order. |
| `TweetAction.ClosedFor` | twitterplus/admin.py:253-254 | Only true, closable media is closed. `ClosedForClosable` and `ClosedCoversClosable` say which media are closed. |
| `TweetAction.ClosedForClosable` | twitterplus/admin.py:253-254 | The j-th media closed is that of the j-th ok record with true, closable media. So each is closed exactly once, in order. |
| `TweetAction.ClosedCoversClosable` | twitterplus/admin.py:237-254 | The true, closable media of every record that is ok when reached is closed. |
| `TweetAction.PostOne` | twitterplus/admin.py:238-254 | One round of the second pass turns the record into `Attempted`. Its events are `EventsOf`: nothing for a record that is not ok, else the call, then the close of true, closable media, whatever the call's outcome. |
| `TweetAction.PostAll` | twitterplus/admin.py:237-254 | The second pass updates each record in place to `Attempted`, and its log of calls and closes is exactly `EventsFor`, the records' events in order. |
| `Twitter.CallThenCloseOrdered` | twitterplus/admin.py:240-254 | After one call, the log holds that call alone, closes exactly the true, closable media, and closes it right after the call. |
| `TweetAction.EventsForProjections` | twitterplus/admin.py:237-254 | The calls in the second pass's log are exactly `PostsFor`, and the closes exactly `ClosedFor`. |
| `TweetAction.EventsForOrdered` | twitterplus/admin.py:237-254 | In the second pass's log, every close comes right after the call that sent that media, and every call with closable media is right followed by its close. No other call comes between. |
| `TweetAction.WarningsFor` | twitterplus/admin.py:259-266 | There are exactly as many warnings as failed records. `WarningsForFailed` says which warning is whose: the normalised title and the `tweet_info[-1]` detail of that record. |
| `TweetAction.WarningsForFailed` | twitterplus/admin.py:259-266 | The j-th warning is the warning of the j-th failed record. So every failed record gets exactly one warning, in order. |
| `TweetAction.ReportAll` | twitterplus/admin.py:256-266 | The third pass emits exactly `Report`. |
| `TweetAction.ReportShape` | twitterplus/admin.py:256-266 | Either exactly one 'All tweets were sent' when every record is ok, or one warning per failed record and no success message. |
| `TweetAction.TweetItem` | twitterplus/admin.py:213-266 | `tweet_item`'s log is `EventsFor` the first-pass records: the calls `PostsFor`, the closes `ClosedFor`, each close right after its own call. It reports on the records after posting (corrected first pass; see Findings). |
| `TweetAction.PostedAreThePostable` | twitterplus/admin.py:218-246 | Every call made is for an item that is published and not too long for its media. Every such item's call is made. The number of calls is the number of ok records. |
| `TweetAction.AllSentIff` | twitterplus/admin.py:213-266 | The report is the single success message exactly when every item is postable and its call succeeds. |
| `TweetAction.EmptySelection` | twitterplus/admin.py:256-258 | An empty selection makes no call and reports success. |
| `TweetAction.SingleUnpublished` | twitterplus/admin.py:218-235 | A lone unpublished item makes no call. It yields one warning with 'Item not published' (corrected first pass; see Findings). |
| `TweetAction.SingleTooLong` | twitterplus/admin.py:230-231 | A lone published item with media and a message over 96 characters makes no call. It yields one warning with 'Message is too long'. |
| `TweetAction.FailedCallDetail` | twitterplus/admin.py:247-252 | A TwitterError is reported with its message. Any other exception is reported with the record's media slot. |
| `TweetOnSave.Triggered` | twitterplus/admin.py:152-154 | A save tweets only when the client library is available and the item is published. The form's 'send_tweet' box must also be ticked in tweet-or-image mode, or its 'tweet_image' box otherwise. |
| `TweetOnSave.SaveEventsOrdered` | twitterplus/admin.py:173-187 | A triggered save's log holds its one call, closes exactly the true, closable media, and closes it right after the call. |
| `TweetOnSave.SaveModel` | twitterplus/admin.py:151-195 | An untriggered save does nothing. A triggered save makes one call, with media exactly when the media is true. Right after it, whatever the outcome, it closes closable media. It then shows 'Tweet has been sent', or 'There was an error: ' followed by the error text. |

## Left out

- `unicodedata.normalize` (NFKC, Unicode Standard Annex #15) and `to_unicode` are not modelled. The field `Env.unicodeNormalize` stands for their composition. No Unicode tables are modelled.
- CONTROLS and HYPHENS are never defined in the file. They are the sequences `Env.controls` and `Env.hyphens`. Replacing single characters by `''` or `'-'` gives the same result in any iteration order.
- Django's `truncatechars` is the parameter `truncate`, so the model proves no bound on the truncated length.
- `formfield_for_dbfield` and the three HTML templates (lines 16-28 and 122-142) are left out. They are widget rendering and `mark_safe`.
- The `__init__` methods (lines 104-120 and 203-211) are left out. They are mixin wiring. Both assign `self.image_field` instead of `self.tweet_image_field`, so in `TweetAction` the image field stays None unless a subclass sets it. The model takes the attribute as a parameter.
- `save_model` reads `self.tweet_or_image`, but `__init__` sets `text_or_image`. The value read is the parameter `SaveOptions.tweetOrImage`.
- The Twitter client, `get_auth_settings` and `Api(*auth_settings)` are left out. The client is an oracle from a call to its outcome, so two identical calls have the same outcome. `tweet_item` builds the client even when the library is missing; that crash is not modelled. The `Api and` test of `save_model` is `apiAvailable`.
- A `TwitterError` is reduced to its first entry's message. An error with an empty list would raise IndexError inside the handler; that is not modelled.
- `ImageFile(open(settings.MEDIA_ROOT + path))` is the value `OpenedFile(mediaRoot + path)`. No file system is modelled. Closing a handle appends a `Close` event to the log. A raw value (a URL string or None) counts as having no `close`.
- `obj.set_short_url()` is left out. The item's short URL is taken as already set. Persisting the item (`super().save_model`) is left out too.
- Exceptions other than those of the client call are not modelled. A missing attribute, for instance, would raise in `getattr` or `open`. The configured attributes are required only where the code reads them: on published items in `tweet_item` (`ReadableIfPublished`), and on a save that tweets (`Triggered` implies `FieldsPresent`).
- MediaChoice.Truthy: a value's `file` attribute is taken to be a true file object. Lines 80-82 warn that some Mezzanine classes have a `file` that is not one. If such a `file` were false, the source would skip the 96-character check and call PostUpdate. The model does neither.
- TweetAction.ReportAll: warnings are kept as (normalised title, detail) pairs, not as the formatted text "Tweet Error for '{}': {}". The Python `str()` of a media object is not defined here.
- TweetAction.RecordClassified: the record `RecordFor` gives an unpublished item has an empty message. The code as written uses the stale `message` (see Findings). That field is never posted or shown.

## Findings

| source | as written | input that shows it | evidently intended | confidence | as-written member | corrected member |
|---|---|---|---|---|---|---|
| twitterplus/admin.py:235 | an unpublished item is recorded with `message`, which is only assigned for published items | a selection whose first item is unpublished: `message` is unbound, and the action stops with NameError before any tweet or report | record the unpublished item as failed with reason 'Item not published', then carry on | not executed; high (the variable is assigned only in the other branch) | `TweetAction.UnpublishedFirstRaises` | `TweetAction.SingleUnpublished` |
