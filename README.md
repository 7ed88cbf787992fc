# messenger-dumper: the archiving pipeline of `dump`

This project models the core of the `dump` command of messenger-dumper
(`commands/dump.py`). The command archives Messenger conversations into a
SQLite store and re-hosts their attachments on a webhook file host. The
model covers:

- **Message normalisation** (`Normalize`): `convert_message` turns a message
  into a write-batch. The batch holds a sender row, a message row, an
  optional reply edge and optional reaction rows. Mention ranges are
  substituted from the last to the first. A system message is rendered as
  `*snippet*`. Reactions are grouped by adjacent runs.
- **The writer** (`Store`): `db_worker` applies a write-batch. Users,
  messages, reply edges and attachments are inserted if absent; reactions
  are upserted. A progress counter moves only for a batch that carries a
  message. The tables are maps in the class `Store.Store`. The same module
  holds the channel upsert and the participant upsert, whose avatar is
  coalesced.
- **Channel setup** (`Channel`): the channel id resolution, the channel name
  fallback, the participant name and avatar, and the attachment pool size.
- **Re-hosting** (`Rehost`): `parse_ratelimit_header` and the two loops of
  `reupload_fb_file`. The download loop has exponential back-off, 11 tries
  and a 25 000 000-byte ceiling. The upload loop retries for as long as the
  host asks.
- **Attachments** (`Attachments`): the type and URL selection of
  `convert_attachment`, the rendition choice of `convert_sticker`, and the
  rows one `attachment_worker` turn forwards.
- **The backfill loop** (`Backfill`): the `while backfill_more` loop of
  `execute`, as a state machine over the source's answers. It has the
  cursor, the rate-limit cooldown, stop on the first empty page, failure on
  other errors, and the resume skip of archived message ids.

Every remote call is an input. A GET's outcome, the host's answers and the
source's answers are scripts of outcomes. A re-upload or a URL lookup is a
function parameter. `escape_markdown` applied after `utf16_surrogate.remove`
is the function parameter `render`. Each `char` of a message text stands for
one UTF-16 code unit of what `utf16_surrogate.add` produces, because the mention
offsets count those units. Python slicing of such text,
with clamping and negative bounds, is written out (`Normalize.SliceBound`).

Each operation that the source performs with loops or in-place updates is a
method. It is proved equal to a specification function. For example,
`Store.Store.ApplyBatch` leaves `Applied(old(Contents()), b)`, and
`Backfill.BackfillChannel` ends in `Run(ctx, Start(now), replies)`. The
promised properties are lemmas about those functions.

Behaviour of the code that the model keeps as written:

- **Reaction grouping.** Reactions are grouped by runs of adjacent equal
  emoji. `Store.SplitRunLosesCount` shows the effect: reactions `a, c, a`
  are stored with a count of 1 for `a`.
- **Retry bound.** The download gives up only when `attempts > 10`: 11
  tries, sleeping 2^0 … 2^10 seconds after the failed ones.
- **Cursor.** The cursor is always set to the first message's timestamp
  minus 1 after a non-empty page; nothing else ends the loop but an empty
  page or an error other than a rate limit.
- **Crashes of the attachment worker.** A due sticker whose conversion
  failed is indexed anyway, and a blob whose media type has no known
  extension makes `filename += None` raise; `gather` passes that on. Either
  ends the worker task for good (`Attachments.WorkerOutcome.Crashed`): its
  `while True` loop has no `try`, `task_done` is never called for that
  message, and so `attachment_queue.join()` never returns.
- **Fetch target.** Every fetch names the requested thread id; the rows use
  the resolved channel id.

## Model

| member | source | states |
|---|---|---|
| Normalize.SliceBound | commands/dump.py:522 | a Python slice bound lands inside the text and is the bound itself when already inside |
| Normalize.UnnamedRangesSkipped | commands/dump.py:517-522 | ranges without an entity id change nothing: substituting only the named ranges gives the same text |
| Normalize.SubstituteFrame | commands/dump.py:517-522 | substituting ranges that lie inside a prefix leaves the text after the prefix untouched |
| Normalize.WovenLast | commands/dump.py:517-522 | the left-to-right reading ends with the last named range's token followed by the text after that range |
| Normalize.WovenSkipLast | commands/dump.py:520-521 | a last range without an entity id is dropped from the left-to-right reading |
| Normalize.SubstituteIsWoven | commands/dump.py:517-522 | for well-placed ranges, substituting from the last range to the first replaces each named range in place by `<@id>` and keeps the text before, between and after them |
| Normalize.MessageTextCases | commands/dump.py:509-523 | the stored text is `*snippet*` for a system message, "" for a user message without body, and, for well-placed ranges, the rendered left-to-right substitution |
| Normalize.ReactionRows | commands/dump.py:550-562 | one row per run of equal adjacent emoji: no more rows than reactions, each count at least 1, neighbouring rows with different emoji, all of this message |
| Normalize.ReactionRowsExpand | commands/dump.py:550-562 | expanding the rows (each emoji repeated `count` times) gives back the reaction list |
| Normalize.ReactionRowsTotal | commands/dump.py:550-562 | the counts add up to the number of reactions |
| Normalize.ConvertMessage | commands/dump.py:504-564 | exactly one user row (sender id, name or "Facebook user", "") and one message row with the channel id, timestamp, unsent timestamp and stored text; no attachment section; a reply edge iff the parent has a message with a non-empty id; reaction rows iff there are reactions, expanding back to them |
| Store.InsertAllKeeps | commands/dump.py:375-412 | insert-if-absent never modifies a stored row and stores every key of the rows |
| Store.InsertAllOnlyRows | commands/dump.py:375-412 | insert-if-absent adds no key other than those of the rows |
| Store.InsertAllFirst | commands/dump.py:375-412 | a key not stored before gets the first row that carries it |
| Store.InsertAllMeaning | commands/dump.py:375-412 | insert-if-absent keeps stored rows, adds exactly the keys of the rows, and a new key holds its first row |
| Store.InsertAllPresent | commands/dump.py:375-412 | inserting rows whose keys are all stored changes nothing |
| Store.InsertAllIdempotent | commands/dump.py:375-412 | inserting the same rows twice equals inserting them once |
| Store.UpsertAllLast | commands/dump.py:413-420 | the upsert stores for each key the last row that carries it |
| Store.UpsertAllOthers | commands/dump.py:413-420 | the upsert leaves other keys' rows as they were and adds no other key |
| Store.UpsertAllMeaning | commands/dump.py:413-420 | the upsert stores the last row of each key, whatever was stored, and leaves other keys alone |
| Store.UpsertAllOverlay | commands/dump.py:413-420 | upserting into a table lays the table of the rows alone over it |
| Store.UpsertAllIdempotent | commands/dump.py:413-420 | upserting the same rows twice equals upserting them once |
| Store.AppliedIdempotent | commands/dump.py:369-422 | applying the same batch twice leaves the same tables as applying it once |
| Store.AppliedKeepsRows | commands/dump.py:372-420 | stored user, message, reply and attachment rows are never modified, no reaction key disappears, the channel table is untouched, and a table whose section is absent is unchanged |
| Store.AppliedReactionCount | commands/dump.py:413-420 | a reaction's stored count becomes the count of the batch's last row for it |
| Store.AppliedNewMessage | commands/dump.py:382-393 | the message row is stored, and holds the batch's row iff its id was not stored or already held that row |
| Store.ExecuteInsert | commands/dump.py:375-381 | `executemany` of an insert-if-absent statement leaves the table `InsertAll` describes |
| Store.ExecuteUpsert | commands/dump.py:414-420 | `executemany` of the reaction upsert leaves the table `UpsertAll` describes |
| Store.InsertSection | commands/dump.py:404-412 | a present section is inserted if absent; an absent one leaves the table as it was |
| Store.UpsertSection | commands/dump.py:413-420 | a present section is upserted; an absent one leaves the table as it was |
| Store.Transaction | commands/dump.py:372-422 | the writes of one batch, section by section, leave the tables `Applied` describes |
| Store.SplitRunLosesCount | commands/dump.py:550-562 | reactions `a, c, a` are stored with count 1 for `a`, because adjacent runs are grouped and the upsert keeps the last run |
| Store.MergeParticipantsAvatar | commands/dump.py:644-651 | `coalesce`: every stored user's avatar is the last non-null avatar given for it, else the one it had (`LastAvatar`) |
| Store.MergeParticipantsMeaning | commands/dump.py:644-651 | after the participant upsert every user stays, each participant holds the last name given, its avatar is the last non-null one given else the one it had, a set avatar never goes back to null, and users not given are unchanged |
| Store.Store.ApplyBatch | commands/dump.py:369-425 | the tables become `Applied(old tables, batch)` and the message counter rises by 1 iff the batch has a message |
| Store.Store.UpsertChannel | commands/dump.py:607-610 | the channel row for the id now holds the name; nothing else changes |
| Store.Store.UpsertParticipants | commands/dump.py:644-651 | only the users table changes, to the participant merge of the rows |
| Channel.ResolveChannel | commands/dump.py:584-604 | no channel without thread information; otherwise the id the information names, which may differ from the requested one or be absent |
| Channel.ChannelName | commands/dump.py:609 | the thread's non-empty name, else "No name" |
| Channel.ParticipantName | commands/dump.py:616-624 | the structured name when present, else the first non-empty of nickname and username, else "Facebook user" |
| Channel.ParticipantRow | commands/dump.py:614-639 | the row has the participant's id and name; an avatar iff webhooks are configured, a profile picture exists and its re-upload succeeded, and then the re-hosted URL |
| Channel.ParticipantRows | commands/dump.py:641-643 | one row per participant, in order |
| Channel.SetUpChannel | commands/dump.py:584-651 | returns the resolved channel; a skipped channel leaves the store untouched; otherwise the channel row is upserted with its name and the participant rows are merged into the users |
| Channel.PoolSize | commands/dump.py:712 | the pool is `max(n-1, 2) // 2` workers, n being 3 when the count is unknown: at least 1, one for up to four cores, otherwise about half of n-1 |
| Rehost.WaitSeconds | commands/dump.py:205-217 | 60 seconds without a reset header, the reset-after value when present, else the time left until the reset |
| Rehost.DownloadFrom | commands/dump.py:219-240 | the download makes at most 11 GETs; a run that gives up sleeps after every GET, any other sleeps after all but the last |
| Rehost.Download | commands/dump.py:219-240 | the download loop ends as `DownloadFrom` from try 0 describes |
| Rehost.UploadFromMeaning | commands/dump.py:256-271 | the upload posts until the first answer that is not retried, sleeping the header wait after each retried one; it gives no file exactly on JSON with neither attachment nor retry-after, and the file comes from the last answer |
| Rehost.Upload | commands/dump.py:256-271 | the upload loop ends as `UploadFrom` describes |
| Rehost.ReuploadFile | commands/dump.py:197-271 | the re-upload ends as `Reupload` describes: no post unless the download completed |
| Rehost.FailingDownloadFrom | commands/dump.py:219-240 | from try a on, a download that always fails gives up after the remaining tries, sleeping 2^k after try k |
| Rehost.FailingDownloadGivesUp | commands/dump.py:219-240 | a download that always fails makes 11 GETs, sleeps 1, 2, …, 1024 seconds, posts nothing and returns no file |
| Rehost.OversizeFrom | commands/dump.py:231-233 | after failures, a response over the limit ends the download there as too large |
| Rehost.OversizeNeverPosted | commands/dump.py:231-233 | a file declared longer than 25 000 000 bytes is never posted and gives no file |
| Rehost.ReuploadOutcomes | commands/dump.py:197-271 | there is a post only after a completed download; no file after a download means the host answered JSON with neither attachment nor retry-after; a file comes from the host's answer |
| Attachments.SelectSource | commands/dump.py:321-347 | image→image, animated image→gif, audio→audioclip, video→video, file→file, any other type→none; an image's URL is the full-screen one, except that it is the lookup's non-empty URL exactly when the original is larger (tuple order) |
| Attachments.FileName | commands/dump.py:316-319 | a filename with a dot or without media type is kept; otherwise the guessed extension is appended, and an unknown media type raises |
| Attachments.ConvertAttachment | commands/dump.py:308-361 | it raises iff the filename needs an extension its media type does not have; otherwise a conversion exists iff the type is supported and the re-upload succeeded, and then holds the host's name and URL, the type string and the attachment's id |
| Attachments.ConvertAttachmentKeepsId | commands/dump.py:356-361 | a converted blob carries the attachment's id |
| Attachments.StickerImageOf | commands/dump.py:285-290 | an animated sticker's animated image as gif, else its thread image as png |
| Attachments.ConvertSticker | commands/dump.py:274-305 | a conversion exists iff the lookup succeeded and the re-upload succeeded, and then holds the host's name and URL and the image's dimensions |
| Attachments.StickerFileChoice | commands/dump.py:285-298 | the re-uploaded file is `sticker-<id>.gif` from the animated image, or `sticker-<id>.png` from the thread image, with an empty referer |
| Attachments.Pending | commands/dump.py:476-477 | the blobs kept are exactly those whose ids are not archived yet |
| Attachments.Conversions | commands/dump.py:467-479 | one conversion per pending blob, in order |
| Attachments.BlobRowsMeaning | commands/dump.py:480-497 | every blob row comes from a successful conversion, and every successful conversion gives a row |
| Attachments.BlobRowsFresh | commands/dump.py:480-497 | rows made from conversions of ids not archived yet carry such ids, the message's id and null dimensions |
| Attachments.GatherConversions | commands/dump.py:467-479 | the gathered conversions are those of the blobs not archived yet, in order, and it reports a raise iff one of those conversions raised |
| Attachments.AppendBlobRows | commands/dump.py:480-497 | the append loop adds a row per successful conversion, in order, after the rows already there |
| Attachments.AttachmentWorker | commands/dump.py:437-501 | one worker turn yields what `WorkerResult` describes |
| Attachments.PendingBlobRows | commands/dump.py:463-497 | the blob rows belong to the message, have null dimensions and ids not archived yet, and every pending blob converted successfully has its row |
| Attachments.WorkerResultMeaning | commands/dump.py:437-501 | the worker crashes iff a due sticker failed to convert or the conversion of a blob not archived yet raised; otherwise it forwards only an attachment section, present iff a sticker is due or the message has blobs, and the progress moves by its row count |
| Attachments.WorkerRows | commands/dump.py:441-497 | the forwarded rows belong to the message and have ids not archived yet; the due sticker's row comes first with its dimensions; blob rows have null dimensions; every converted pending blob has its row |
| Backfill.QuotaSignal | commands/dump.py:734-739 | a response error is retried iff its code is "1675004" and it has no subcode |
| Backfill.QueuePage | commands/dump.py:752-770 | one page puts on the writer's queue the batches of its messages not archived yet, and on the pool's queue every message when re-hosting is configured |
| Backfill.BackfillChannel | commands/dump.py:720-772 | the loop ends in the state `Run` describes from the clock reading; the writer got the batches of the unarchived received messages and the pool every received message |
| Backfill.StepStops | commands/dump.py:723-772 | one turn makes one fetch, stops iff the answer is an empty page or an error other than a rate limit, and adds one cooldown per rate limit |
| Backfill.FirstStopMeaning | commands/dump.py:723-750 | the answers consumed run up to the first empty page or non-rate-limit error, and how that answer ends the loop |
| Backfill.RunStops | commands/dump.py:723-750 | the loop makes one fetch per answer up to the first one that stops it, none after it, ends exhausted or failed accordingly, and sleeps one cooldown per rate-limit answer consumed |
| Backfill.RunExtends | commands/dump.py:725-729 | a run only appends fetches, at most one per answer |
| Backfill.RunCursors | commands/dump.py:721-772 | every fetch names the requested thread and 95 messages; the first uses the starting cursor, and each next one the first message's timestamp minus 1 after a page, or the same cursor after a rate limit |
| Backfill.RunReceives | commands/dump.py:746-772 | the loop receives the messages of the pages among the answers it consumed, in order |
| Backfill.BackfillReceives | commands/dump.py:720-772 | from the start, the messages received are exactly those of the pages fetched |
| Backfill.NewBatchesAppend | commands/dump.py:752-767 | the writer's batches for two runs of pages are those of each, in order |
| Backfill.NewBatchesMeaning | commands/dump.py:762-767 | the writer gets a batch for a message iff its id is not archived, and each batch is that message's normalisation |

## Left out

- `escape_markdown` and `utf16_surrogate.remove`: a regex-driven escaper. Both are the function parameter `render`.
- `get_credentials`: file I/O, interactive prompts and a network login.
- Remote calls (`fetch_messages`, `fetch_thread_info`, `fetch_stickers`, `get_image_url`, `get_file_url`, `raw_http_get`, `http_post`): given as outcomes, scripts of outcomes or function parameters. Multipart form building is not modelled.
- The source's answers are a script in the order they are consumed, not a function of the cursor. A function of the cursor is one particular script.
- asyncio queues, `gather`, task creation, cancellation and the `join` ordering: the workers are sequential producers and consumers of batches. Interleavings between workers are not modelled.
- SQL text, the schema file and aiosqlite: the tables are maps. The `SELECT`s that preload archived message ids and attachment ids become the sets `known`.
- tqdm progress bars: only the writer's message counter and the worker's row count are kept. The attachment bar's total (commands/dump.py:753-760) is display only.
- `random.choice` of a webhook: the target is not part of a re-upload request.
- `mimetypes.guess_extension`: the function parameter `guessExtension`, which answers none for an unknown media type.
- Wall-clock and float time in `parse_ratelimit_header`: an integer `now`. Sleeps are recorded, not taken.
- Rehost.DownloadTry: exceptions that escape `reupload_fb_file` are not modelled. These are a response without a `Content-Length` header (a `KeyError`), header values that do not parse, a GET failure other than a payload error, an OS error or a timeout, a failure of the POST itself, and an `attachments` value that is empty or null. `reupload_fb_file` is called from two places. In `attachment_worker` such an exception ends the worker task for good, as the crashes modelled in `WorkerResult` do, and `attachment_queue.join()` never returns. In `user_data_worker` (the participant avatar of `Channel.ParticipantRow`) it leaves through the `asyncio.gather` of the participants and ends all of `execute`, so no later channel is archived.
- Attachments.ConvertSticker: a sticker conversion either succeeds or gives none. A raise inside it (an empty `nodes` list, or an exception that escapes `reupload_fb_file`) is not modelled.
- Rehost.UploadFrom: the host may ask to retry forever. The model reads a finite script of answers, and a run that is still retrying when the answers run out ends as `Unfinished`.
- Backfill.Run: the loop may fetch forever. The model reads a finite script, and a run still fetching when the answers run out keeps the status `Fetching`.
- Store.ReplyKey: the schema is not part of this model, so the conflict key of the reply table is taken to be the message id (one parent per message).
- Message, attachment, sticker and reply ids are strings. User and channel ids are unbounded integers, which is how Python's `int` behaves.
- Records.Message.senderId: the source stores `message.message_sender.id` unconverted (commands/dump.py:528, 535) but a participant's id as `int(pcp.id)` (commands/dump.py:639). The model gives both the type `int` and treats them as one key of the users table, which assumes the schema's column type makes the two agree.
- Surrogate code units: Dafny's `char` is a Unicode scalar value, so a lone UTF-16 surrogate unit has no literal in the model. The substitution never looks at the characters, only at their positions, so the proved properties do not depend on which units occur.
- A structured name whose text is null: the model has the structured name's text as an optional string and uses it whenever it is present.
- commands/export.py is not part of this model: it reads the store back and has no coherent behaviour to state.
- maufbapi/http/upload.py is not part of this model: it assembles request headers for the network client.
