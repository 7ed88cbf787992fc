/**
 * Attachment conversion: which URL is re-hosted for each kind of attachment
 * (`convert_attachment`, `convert_sticker`) and how a worker of the
 * attachment pool turns one message into a write-batch of attachment rows
 * (`attachment_worker`). The lookups and the re-upload are given outcomes.
 */
module Attachments {
  import opened Wrappers
  import opened Records

  // ---------------------------------------------------------------------------
  // Blob attachments
  // ---------------------------------------------------------------------------

  /** Python's tuple comparison `(w, h) > (w', h')`: the widths decide unless they are equal. */
  predicate LexGreater(a: (int, int), b: (int, int))
  {
    a.0 > b.0 || (a.0 == b.0 && a.1 > b.1)
  }

  /** The URL to re-host, the stored type string, and the referer the download names. */
  datatype Source = Source(url: string, kind: string, referer: string)

  /**
   * The type and URL selection of `convert_attachment`. `imageUrl` is what
   * the higher-resolution lookup answers (asked only when the original is
   * larger than the inline rendition) and `fileUrl` what the file lookup
   * answers.
   */
  function SelectSource(a: Attachment, imageUrl: Option<string>, fileUrl: string): (r: Option<Source>)
    ensures r.None? <==> a.typename.Unsupported?
    ensures a.typename == Image ==> r.value.kind == "image"
    ensures a.typename == AnimatedImage ==> r.value.kind == "gif"
    ensures a.typename == Audio ==> r == Some(Source(a.playableUrl, "audioclip", "unknown"))
    ensures a.typename == Video ==> r == Some(Source(a.videoUrl, "video", "unknown"))
    ensures a.typename == File ==> r == Some(Source(fileUrl, "file", "unknown"))
    ensures a.typename in {Image, AnimatedImage} ==>
              var full := if a.typename == Image then a.imageFullScreen else a.animatedImageFullScreen;
              var original := if a.typename == Image then a.originalDimensions else a.animatedImageOriginalDimensions;
              && r.value.referer == "messenger_thread_photo"
              && (r.value.url != full.uri ==>
                    LexGreater(original, full.dimensions) && imageUrl.Some? && imageUrl.value != "" && r.value.url == imageUrl.value)
              && (LexGreater(original, full.dimensions) && imageUrl.Some? && imageUrl.value != "" ==> r.value.url == imageUrl.value)
  {
    match a.typename
    case Image =>
      var url := a.imageFullScreen.uri;
      var better := LexGreater(a.originalDimensions, a.imageFullScreen.dimensions) && imageUrl.Some? && imageUrl.value != "";
      Some(Source(if better then imageUrl.value else url, "image", "messenger_thread_photo"))
    case AnimatedImage =>
      var url := a.animatedImageFullScreen.uri;
      var better := LexGreater(a.animatedImageOriginalDimensions, a.animatedImageFullScreen.dimensions)
                    && imageUrl.Some? && imageUrl.value != "";
      Some(Source(if better then imageUrl.value else url, "gif", "messenger_thread_photo"))
    case Audio => Some(Source(a.playableUrl, "audioclip", "unknown"))
    case Video => Some(Source(a.videoUrl, "video", "unknown"))
    case File => Some(Source(fileUrl, "file", "unknown"))
    case Unsupported(_) => None
  }

  /** The filename needs the extension of its media type: it has a media type and no dot. */
  predicate NeedsExtension(a: Attachment)
  {
    a.mimetype.Some? && a.mimetype.value != "" && '.' !in a.filename
  }

  /**
   * The filename, extended by the guessed extension of its media type when
   * it has none; `guessExtension` answers none for a media type it does not
   * know, and appending that none raises, which `None` stands for here.
   */
  function FileName(a: Attachment, guessExtension: string -> Option<string>): (name: Option<string>)
    ensures !NeedsExtension(a) ==> name == Some(a.filename)
    ensures NeedsExtension(a) && guessExtension(a.mimetype.value).Some? ==>
              name == Some(a.filename + guessExtension(a.mimetype.value).value)
    ensures name.None? <==> NeedsExtension(a) && guessExtension(a.mimetype.value).None?
    ensures name.Some? ==> a.filename <= name.value
  {
    if NeedsExtension(a) then
      var ext := guessExtension(a.mimetype.value);
      if ext.Some? then Some(a.filename + ext.value) else None
    else Some(a.filename)
  }

  /** A converted blob: the host's name and URL, the type string and the attachment's id. */
  datatype Converted = Converted(name: string, url: string, kind: string, id: string)

  /** How `convert_attachment` ends: it raises, it returns `None`, or it returns a converted blob. */
  datatype Conversion = Raised | Dropped | Done(converted: Converted)

  /** The value a conversion returns, when it returns. */
  function Outcome(c: Conversion): Option<Converted>
  {
    if c.Done? then Some(c.converted) else None
  }

  /**
   * `convert_attachment`, given the outcomes of the lookups and of the
   * re-upload. The filename is built first, so an unknown media type raises
   * whatever the attachment's type.
   */
  function ConvertAttachment(a: Attachment, guessExtension: string -> Option<string>, imageUrl: Option<string>, fileUrl: string,
                             rehost: RehostRequest -> Option<Hosted>): (c: Conversion)
    ensures c.Raised? <==> FileName(a, guessExtension).None?
    ensures var src := SelectSource(a, imageUrl, fileUrl);
            var name := FileName(a, guessExtension);
            && (c.Done? <==> name.Some? && src.Some? && rehost(RehostRequest(src.value.url, name.value, src.value.referer)).Some?)
            && (c.Done? ==>
                  var hosted := rehost(RehostRequest(src.value.url, name.value, src.value.referer)).value;
                  c.converted == Converted(hosted.name, hosted.url, src.value.kind, a.id))
  {
    var name := FileName(a, guessExtension);
    if name.None? then Raised
    else
      var src := SelectSource(a, imageUrl, fileUrl);
      if src.None? then Dropped
      else
        var hosted := rehost(RehostRequest(src.value.url, name.value, src.value.referer));
        if hosted.None? then Dropped
        else Done(Converted(hosted.value.name, hosted.value.url, src.value.kind, a.id))
  }

  /** A blob converted by `convert_attachment` keeps the attachment's id, as the worker's rows need (`WorkerRows`). */
  lemma ConvertAttachmentKeepsId(a: Attachment, guessExtension: string -> Option<string>, imageUrl: Option<string>,
                                 fileUrl: string, rehost: RehostRequest -> Option<Hosted>)
    ensures var c := ConvertAttachment(a, guessExtension, imageUrl, fileUrl, rehost);
            c.Done? ==> c.converted.id == a.id
  {
  }

  // ---------------------------------------------------------------------------
  // Stickers
  // ---------------------------------------------------------------------------

  datatype StickerImage = StickerImage(uri: string, width: int, height: int)

  /** The first sticker the sticker lookup returns. */
  datatype StickerInfo = StickerInfo(id: string, animatedImage: Option<StickerImage>, threadImage: StickerImage)

  datatype ConvertedSticker = ConvertedSticker(name: string, url: string, width: int, height: int)

  /** The rendition of a sticker that is re-hosted, and its file extension. */
  function StickerImageOf(s: StickerInfo): (r: (StickerImage, string))
    ensures s.animatedImage.Some? ==> r == (s.animatedImage.value, "gif")
    ensures s.animatedImage.None? ==> r == (s.threadImage, "png")
  {
    if s.animatedImage.Some? then (s.animatedImage.value, "gif") else (s.threadImage, "png")
  }

  function StickerRequest(s: StickerInfo): RehostRequest
  {
    var (image, extension) := StickerImageOf(s);
    RehostRequest(image.uri, "sticker-" + s.id + "." + extension, "")
  }

  /**
   * `convert_sticker`, given what the sticker lookup returned (`None` when it
   * failed with a response type error) and the outcome of the re-upload.
   */
  function ConvertSticker(fetched: Option<StickerInfo>, rehost: RehostRequest -> Option<Hosted>): (c: Option<ConvertedSticker>)
    ensures c.Some? <==> fetched.Some? && rehost(StickerRequest(fetched.value)).Some?
    ensures c.Some? ==>
              var image := StickerImageOf(fetched.value).0;
              var hosted := rehost(StickerRequest(fetched.value)).value;
              c.value == ConvertedSticker(hosted.name, hosted.url, image.width, image.height)
  {
    if fetched.None? then None
    else
      var image := StickerImageOf(fetched.value).0;
      var hosted := rehost(StickerRequest(fetched.value));
      if hosted.None? then None
      else Some(ConvertedSticker(hosted.value.name, hosted.value.url, image.width, image.height))
  }

  /** An animated sticker is re-hosted from its animated image as a gif, any other from its thread image as a png. */
  lemma StickerFileChoice(s: StickerInfo)
    ensures var req := StickerRequest(s);
            && req.referer == ""
            && (s.animatedImage.Some? ==> req.url == s.animatedImage.value.uri && req.filename == "sticker-" + s.id + ".gif")
            && (s.animatedImage.None? ==> req.url == s.threadImage.uri && req.filename == "sticker-" + s.id + ".png")
  {
  }

  // ---------------------------------------------------------------------------
  // The attachment worker
  // ---------------------------------------------------------------------------

  /** The blobs not yet archived, in order. */
  function Pending(blobs: seq<Attachment>, known: set<string>): (p: seq<Attachment>)
    ensures |p| <= |blobs|
    ensures forall a :: a in p <==> a in blobs && a.id !in known
    decreases |blobs|
  {
    if blobs == [] then []
    else
      var init, last := blobs[..|blobs| - 1], blobs[|blobs| - 1];
      assert blobs == init + [last];
      if last.id !in known then Pending(init, known) + [last] else Pending(init, known)
  }

  function BlobRow(messageId: string, c: Converted): AttachmentRow
  {
    AttachmentRow(c.id, messageId, c.name, c.kind, c.url, None, None)
  }

  /** The rows of the converted blobs, in order, the failed conversions dropped. */
  function BlobRows(messageId: string, results: seq<Option<Converted>>): (rows: seq<AttachmentRow>)
    ensures |rows| <= |results|
    decreases |results|
  {
    if results == [] then []
    else
      var init, last := results[..|results| - 1], results[|results| - 1];
      if last.Some? then BlobRows(messageId, init) + [BlobRow(messageId, last.value)] else BlobRows(messageId, init)
  }

  /** Every row of `rows` is the row of a successful conversion among `results`. */
  predicate RowsFromResults(rows: seq<AttachmentRow>, messageId: string, results: seq<Option<Converted>>)
  {
    forall j :: 0 <= j < |rows| ==>
      exists i :: 0 <= i < |results| && results[i].Some? && rows[j] == BlobRow(messageId, results[i].value)
  }

  /** Every successful conversion among `results` has its row in `rows`. */
  predicate ResultsHaveRows(rows: seq<AttachmentRow>, messageId: string, results: seq<Option<Converted>>)
  {
    forall i :: 0 <= i < |results| && results[i].Some? ==> BlobRow(messageId, results[i].value) in rows
  }

  /** Every row comes from a successful conversion, and every successful conversion gives a row. */
  lemma {:induction false} BlobRowsMeaning(messageId: string, results: seq<Option<Converted>>)
    ensures RowsFromResults(BlobRows(messageId, results), messageId, results)
    ensures ResultsHaveRows(BlobRows(messageId, results), messageId, results)
    decreases |results|
  {
    if results != [] {
      var init, last := results[..|results| - 1], results[|results| - 1];
      BlobRowsMeaning(messageId, init);
      var prev := BlobRows(messageId, init);
      var rows := BlobRows(messageId, results);
      assert rows == if last.Some? then prev + [BlobRow(messageId, last.value)] else prev;
      forall j | 0 <= j < |rows|
        ensures exists i :: 0 <= i < |results| && results[i].Some? && rows[j] == BlobRow(messageId, results[i].value)
      {
        if j < |prev| {
          assert rows[j] == prev[j];
          var i :| 0 <= i < |init| && init[i].Some? && prev[j] == BlobRow(messageId, init[i].value);
          assert results[i] == init[i];
        } else {
          assert results[|results| - 1].Some? && rows[j] == BlobRow(messageId, results[|results| - 1].value);
        }
      }
      assert RowsFromResults(rows, messageId, results);
      forall i | 0 <= i < |results| && results[i].Some?
        ensures BlobRow(messageId, results[i].value) in rows
      {
        if i < |init| {
          assert init[i] == results[i];
          assert BlobRow(messageId, init[i].value) in prev;
        }
      }
    }
  }

  /** Rows of the message `messageId`, of ids not archived yet, with null dimensions. */
  predicate FreshBlobRows(rows: seq<AttachmentRow>, messageId: string, known: set<string>)
  {
    forall j :: 0 <= j < |rows| ==>
      rows[j].messageId == messageId && rows[j].id !in known && rows[j].width.None? && rows[j].height.None?
  }

  /** Rows made from conversions of ids not archived yet have such ids too, null dimensions and the message's id. */
  lemma {:induction false} BlobRowsFresh(messageId: string, results: seq<Option<Converted>>, known: set<string>)
    requires forall i :: 0 <= i < |results| && results[i].Some? ==> results[i].value.id !in known
    ensures FreshBlobRows(BlobRows(messageId, results), messageId, known)
    decreases |results|
  {
    if results != [] {
      var init, last := results[..|results| - 1], results[|results| - 1];
      assert forall i :: 0 <= i < |init| ==> init[i] == results[i];
      BlobRowsFresh(messageId, init, known);
      var prev := BlobRows(messageId, init);
      if last.Some? {
        assert last.value.id !in known;
        var rows := prev + [BlobRow(messageId, last.value)];
        assert rows == BlobRows(messageId, results);
        assert forall j :: 0 <= j < |prev| ==> rows[j] == prev[j];
      }
    }
  }

  function StickerRow(m: Message, c: ConvertedSticker): AttachmentRow
    requires m.sticker.Some?
  {
    AttachmentRow(m.sticker.value.id, m.id, c.name, "sticker", c.url, Some(c.width), Some(c.height))
  }

  /** The worker's queue item, or the crash of the worker task. */
  datatype WorkerOutcome = Forwarded(batch: Batch, progress: nat) | Crashed

  /** The sticker is converted when the message has one that is not archived yet. */
  predicate StickerDue(m: Message, known: set<string>)
  {
    m.sticker.Some? && m.sticker.value.id !in known
  }

  /** The conversion of some blob not archived yet raises, which `gather` passes on. */
  predicate BlobRaises(m: Message, known: set<string>, convert: Attachment -> Conversion)
  {
    exists a :: a in m.blobs && a.id !in known && convert(a).Raised?
  }

  /** What the conversions of `pending` return, in order. */
  function Conversions(pending: seq<Attachment>, convert: Attachment -> Conversion): (results: seq<Option<Converted>>)
    ensures |results| == |pending|
    ensures forall i :: 0 <= i < |pending| ==> results[i] == Outcome(convert(pending[i]))
  {
    seq(|pending|, i requires 0 <= i < |pending| => Outcome(convert(pending[i])))
  }

  /** The sticker's row when it is due and converted. */
  function StickerRows(m: Message, known: set<string>, sticker: Option<ConvertedSticker>): seq<AttachmentRow>
  {
    if StickerDue(m, known) && sticker.Some? then [StickerRow(m, sticker.value)] else []
  }

  /** The rows of the blobs not archived yet whose conversion succeeded. */
  function PendingRows(m: Message, known: set<string>, convert: Attachment -> Conversion): seq<AttachmentRow>
  {
    if |m.blobs| > 0 then BlobRows(m.id, Conversions(Pending(m.blobs, known), convert)) else []
  }

  /**
   * What `attachment_worker` does with one message: `sticker` is the outcome
   * of the sticker conversion and `convert` that of each blob conversion. A
   * due sticker whose conversion failed is indexed anyway, and a blob
   * conversion that raises is passed on by `gather`: either ends the worker.
   * The `attachments` section is present as soon as a sticker is due or the
   * message has blobs, even when no row results.
   */
  function WorkerResult(m: Message, known: set<string>, sticker: Option<ConvertedSticker>,
                        convert: Attachment -> Conversion): WorkerOutcome
  {
    if (StickerDue(m, known) && sticker.None?) || BlobRaises(m, known, convert) then Crashed
    else
      var rows := StickerRows(m, known, sticker) + PendingRows(m, known, convert);
      var section := if StickerDue(m, known) || |m.blobs| > 0 then Some(rows) else None;
      Forwarded(Batch(None, None, None, section, None), |rows|)
  }

  lemma PendingLast(blobs: seq<Attachment>, known: set<string>, b: Attachment)
    ensures Pending(blobs + [b], known) == Pending(blobs, known) + (if b.id !in known then [b] else [])
  {
    assert (blobs + [b])[..|blobs|] == blobs;
  }

  lemma ConversionsLast(pending: seq<Attachment>, a: Attachment, convert: Attachment -> Conversion)
    ensures Conversions(pending + [a], convert) == Conversions(pending, convert) + [Outcome(convert(a))]
  {
  }

  /** One more blob adds its conversion when it is not archived yet. */
  lemma GatherStep(blobs: seq<Attachment>, i: nat, known: set<string>, convert: Attachment -> Conversion)
    requires i < |blobs|
    ensures Conversions(Pending(blobs[..i + 1], known), convert)
            == Conversions(Pending(blobs[..i], known), convert)
               + (if blobs[i].id !in known then [Outcome(convert(blobs[i]))] else [])
  {
    assert blobs[..i + 1] == blobs[..i] + [blobs[i]];
    PendingLast(blobs[..i], known, blobs[i]);
    if blobs[i].id !in known {
      ConversionsLast(Pending(blobs[..i], known), blobs[i], convert);
    }
  }

  /** The conversion of some blob of `blobs` not archived yet raises. */
  predicate SomeRaises(blobs: seq<Attachment>, known: set<string>, convert: Attachment -> Conversion)
  {
    exists j :: 0 <= j < |blobs| && blobs[j].id !in known && convert(blobs[j]).Raised?
  }

  lemma RaisesStep(blobs: seq<Attachment>, i: nat, known: set<string>, convert: Attachment -> Conversion)
    requires i < |blobs|
    ensures SomeRaises(blobs[..i + 1], known, convert)
            <==> SomeRaises(blobs[..i], known, convert) || (blobs[i].id !in known && convert(blobs[i]).Raised?)
  {
    var prefix := blobs[..i + 1];
    assert forall j :: 0 <= j < i ==> prefix[j] == blobs[..i][j];
    if SomeRaises(prefix, known, convert) {
      var j :| 0 <= j < |prefix| && prefix[j].id !in known && convert(prefix[j]).Raised?;
      if j < i {
        assert blobs[..i][j] == prefix[j];
      }
    }
    if SomeRaises(blobs[..i], known, convert) {
      var j :| 0 <= j < i && blobs[..i][j].id !in known && convert(blobs[..i][j]).Raised?;
      assert prefix[j] == blobs[..i][j];
    }
    if blobs[i].id !in known && convert(blobs[i]).Raised? {
      assert prefix[i] == blobs[i];
    }
  }

  lemma SomeRaisesMembers(blobs: seq<Attachment>, known: set<string>, convert: Attachment -> Conversion)
    ensures SomeRaises(blobs, known, convert) <==> exists a :: a in blobs && a.id !in known && convert(a).Raised?
  {
    if exists a :: a in blobs && a.id !in known && convert(a).Raised? {
      var a :| a in blobs && a.id !in known && convert(a).Raised?;
      var j :| 0 <= j < |blobs| && blobs[j] == a;
    }
  }

  /**
   * The `gather` of `attachment_worker`: the conversions of the blobs not yet
   * archived, in order, and whether one of them raised.
   */
  method GatherConversions(blobs: seq<Attachment>, known: set<string>, convert: Attachment -> Conversion)
    returns (results: seq<Option<Converted>>, raised: bool)
    ensures results == Conversions(Pending(blobs, known), convert)
    ensures raised <==> exists a :: a in blobs && a.id !in known && convert(a).Raised?
  {
    results, raised := [], false;
    var i := 0;
    while i < |blobs|
      invariant 0 <= i <= |blobs|
      invariant results == Conversions(Pending(blobs[..i], known), convert)
      invariant raised == SomeRaises(blobs[..i], known, convert)
    {
      GatherStep(blobs, i, known, convert);
      RaisesStep(blobs, i, known, convert);
      if blobs[i].id !in known {
        var c := convert(blobs[i]);
        results := results + [Outcome(c)];
        raised := raised || c.Raised?;
      }
      i := i + 1;
    }
    assert blobs[..|blobs|] == blobs;
    SomeRaisesMembers(blobs, known, convert);
  }

  /** The append loop of `attachment_worker`: a row for every successful conversion, after `rows`. */
  method AppendBlobRows(rows: seq<AttachmentRow>, messageId: string, results: seq<Option<Converted>>)
    returns (all: seq<AttachmentRow>)
    ensures all == rows + BlobRows(messageId, results)
  {
    all := rows;
    var j := 0;
    while j < |results|
      invariant 0 <= j <= |results|
      invariant all == rows + BlobRows(messageId, results[..j])
    {
      assert results[..j + 1][..j] == results[..j];
      if results[j].Some? {
        all := all + [BlobRow(messageId, results[j].value)];
      }
      j := j + 1;
    }
    assert results[..|results|] == results;
  }

  /** `attachment_worker` handling one message of its queue. */
  method AttachmentWorker(m: Message, known: set<string>, sticker: Option<ConvertedSticker>,
                          convert: Attachment -> Conversion) returns (out: WorkerOutcome)
    ensures out == WorkerResult(m, known, sticker, convert)
  {
    var rows: seq<AttachmentRow> := [];
    var hasSection := false;
    if m.sticker.Some? && m.sticker.value.id !in known {
      hasSection := true;
      if sticker.None? {
        return Crashed;
      }
      rows := rows + [StickerRow(m, sticker.value)];
    }
    ghost var stickerRows := rows;
    assert stickerRows == StickerRows(m, known, sticker);
    if |m.blobs| > 0 {
      hasSection := true;
      var results, raised := GatherConversions(m.blobs, known, convert);
      if raised {
        return Crashed;
      }
      rows := AppendBlobRows(rows, m.id, results);
    } else {
      assert !BlobRaises(m, known, convert);
      assert rows == stickerRows + [];
    }
    var section := if hasSection then Some(rows) else None;
    out := Forwarded(Batch(None, None, None, section, None), |rows|);
  }

  /**
   * The blob rows of a message: each belongs to the message, has null width
   * and height and an id not archived yet, and every pending blob whose
   * conversion succeeded has its row.
   */
  lemma PendingBlobRows(m: Message, known: set<string>, convert: Attachment -> Conversion)
    requires forall a :: convert(a).Done? ==> convert(a).converted.id == a.id
    ensures FreshBlobRows(PendingRows(m, known, convert), m.id, known)
    ensures forall a :: a in m.blobs && a.id !in known && convert(a).Done? ==>
              BlobRow(m.id, convert(a).converted) in PendingRows(m, known, convert)
  {
    if |m.blobs| > 0 {
      var pending := Pending(m.blobs, known);
      var results := Conversions(pending, convert);
      var rows := BlobRows(m.id, results);
      BlobRowsMeaning(m.id, results);
      forall i | 0 <= i < |results| && results[i].Some? ensures results[i].value.id !in known {
        assert pending[i] in pending;
      }
      BlobRowsFresh(m.id, results, known);
      forall a | a in m.blobs && a.id !in known && convert(a).Done?
        ensures BlobRow(m.id, convert(a).converted) in rows
      {
        assert a in pending;
        var i :| 0 <= i < |pending| && pending[i] == a;
        assert results[i] == Some(convert(a).converted);
      }
    }
  }

  /**
   * The worker forwards only the attachment section of this message, present
   * as soon as a sticker is due or the message has blobs; the progress
   * counter moves by the number of rows; it crashes exactly when a due
   * sticker failed to convert or the conversion of a blob not archived yet
   * raised.
   */
  lemma WorkerResultMeaning(m: Message, known: set<string>, sticker: Option<ConvertedSticker>,
                            convert: Attachment -> Conversion)
    ensures var out := WorkerResult(m, known, sticker, convert);
            && (out.Crashed? <==>
                  (StickerDue(m, known) && sticker.None?)
                  || (exists a :: a in m.blobs && a.id !in known && convert(a).Raised?))
            && (out.Forwarded? ==>
                  var b := out.batch;
                  && b.users.None? && b.message.None? && b.repliedTo.None? && b.reactions.None?
                  && (b.attachments.Some? <==> StickerDue(m, known) || |m.blobs| > 0)
                  && out.progress == |OptRows(b.attachments)|)
  {
  }

  /**
   * The rows the worker forwards all belong to the message and have ids not
   * archived yet: first the sticker row (with its dimensions) when due, then
   * one row per pending blob whose conversion succeeded, each with null
   * width and height.
   */
  lemma WorkerRows(m: Message, known: set<string>, sticker: Option<ConvertedSticker>,
                   convert: Attachment -> Conversion)
    requires forall a :: convert(a).Done? ==> convert(a).converted.id == a.id
    requires WorkerResult(m, known, sticker, convert).Forwarded?
    ensures var rows := OptRows(WorkerResult(m, known, sticker, convert).batch.attachments);
            && (forall j :: 0 <= j < |rows| ==>
                  && rows[j].messageId == m.id && rows[j].id !in known
                  && (j == 0 && StickerDue(m, known) ==>
                        rows[j].kind == "sticker" && rows[j].id == m.sticker.value.id
                        && rows[j].width == Some(sticker.value.width) && rows[j].height == Some(sticker.value.height))
                  && (j > 0 || !StickerDue(m, known) ==> rows[j].width.None? && rows[j].height.None?))
            && (forall a :: a in m.blobs && a.id !in known && convert(a).Done? ==> BlobRow(m.id, convert(a).converted) in rows)
  {
    PendingBlobRows(m, known, convert);
    var stickerRows, blobRows := StickerRows(m, known, sticker), PendingRows(m, known, convert);
    var rows := stickerRows + blobRows;
    forall j | |stickerRows| <= j < |rows|
      ensures rows[j].messageId == m.id && rows[j].id !in known && rows[j].width.None? && rows[j].height.None?
    {
      assert rows[j] == blobRows[j - |stickerRows|];
    }
    forall a | a in m.blobs && a.id !in known && convert(a).Done?
      ensures BlobRow(m.id, convert(a).converted) in rows
    {
      assert BlobRow(m.id, convert(a).converted) in blobRows;
    }
  }
}
