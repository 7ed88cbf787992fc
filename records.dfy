/**
 * The records the archiver reads from the remote message source and the rows
 * it writes into the store. Each `char` of a message text stands for one
 * UTF-16 code unit, which is what the mention offsets count.
 */
module Records {
  import opened Wrappers

  // ---------------------------------------------------------------------------
  // Records received from the message source
  // ---------------------------------------------------------------------------

  /** The entity a mention range points at; an id that is absent is written "". */
  datatype Entity = Entity(id: string)

  /** A mention: `length` code units starting at `offset` name `entity`. */
  datatype MentionRange = MentionRange(offset: int, length: int, entity: Option<Entity>)

  /** The text body of a user message, with its mention ranges in the order the source lists them. */
  datatype Body = Body(text: string, ranges: seq<MentionRange>)

  /** The message a reply points at, as far as the source still knows it. */
  datatype ParentMessage = ParentMessage(messageId: Option<string>)
  datatype RepliedTo = RepliedTo(message: Option<ParentMessage>)

  datatype StickerRef = StickerRef(id: string)

  /** The attachment kinds the source reports; any other kind keeps its type name. */
  datatype AttachmentType = Image | AnimatedImage | Audio | Video | File | Unsupported(typename: string)

  /** A rendition of an image: its URL and its (width, height). */
  datatype Rendition = Rendition(uri: string, dimensions: (int, int))

  /**
   * A blob attachment. Which of the URL and dimension fields mean anything
   * depends on `typename`, as in the source's record.
   */
  datatype Attachment = Attachment(
    id: string,
    fbid: string,
    filename: string,
    mimetype: Option<string>,
    typename: AttachmentType,
    imageFullScreen: Rendition,
    originalDimensions: (int, int),
    animatedImageFullScreen: Rendition,
    animatedImageOriginalDimensions: (int, int),
    playableUrl: string,
    videoUrl: string)

  /** One message of a history page. `reactions` lists the emoji of each reaction in source order. */
  datatype Message = Message(
    id: string,
    senderId: int,
    senderName: Option<string>,
    isUserGenerated: bool,
    snippet: Option<string>,
    body: Option<Body>,
    timestamp: int,
    unsentTimestamp: Option<int>,
    repliedTo: Option<RepliedTo>,
    reactions: seq<string>,
    sticker: Option<StickerRef>,
    blobs: seq<Attachment>)

  // ---------------------------------------------------------------------------
  // Re-hosting on the file host
  // ---------------------------------------------------------------------------

  /** A request to re-host the file at `url` under `filename`; `referer` is the last part of the referer header. */
  datatype RehostRequest = RehostRequest(url: string, filename: string, referer: string)

  /** The file host's answer to a successful upload: the stored name and its URL. */
  datatype Hosted = Hosted(name: string, url: string)

  // ---------------------------------------------------------------------------
  // Rows of the store and the write-batch that carries them
  // ---------------------------------------------------------------------------

  datatype UserRow = UserRow(id: int, name: string, avatar: Option<string>)

  datatype MessageRow = MessageRow(
    id: string,
    senderId: int,
    channelId: int,
    text: string,
    timestamp: int,
    unsentTimestamp: Option<int>)

  datatype ReplyRow = ReplyRow(messageId: string, repliedToId: string)

  datatype AttachmentRow = AttachmentRow(
    id: string,
    messageId: string,
    name: string,
    kind: string,
    url: string,
    width: Option<int>,
    height: Option<int>)

  datatype ReactionRow = ReactionRow(messageId: string, emoji: string, count: int)

  /** A write-batch: every section is optional, as the keys of the source's dictionary are. */
  datatype Batch = Batch(
    users: Option<seq<UserRow>>,
    message: Option<MessageRow>,
    repliedTo: Option<ReplyRow>,
    attachments: Option<seq<AttachmentRow>>,
    reactions: Option<seq<ReactionRow>>)

  /** The rows of an optional batch section: none when the section is absent. */
  function OptRows<T>(rows: Option<seq<T>>): seq<T>
  {
    if rows.Some? then rows.value else []
  }

  /** The row of an optional batch section, as a sequence of at most one. */
  function OptRow<T>(row: Option<T>): seq<T>
  {
    if row.Some? then [row.value] else []
  }
}
