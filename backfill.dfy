/**
 * The backfill loop of `execute`: fetch pages of history backward in time
 * from the clock reading at the start, send every message not archived yet
 * to the writer, every message to the attachment pool when re-hosting is
 * configured, move the cursor below the first message of each page, wait
 * and retry on a rate limit, stop on the first empty page and give up on any
 * other error. The answers of the message source are given, in order.
 */
module Backfill {
  import opened Wrappers
  import opened Records
  import opened Normalize

  /** The page size of every fetch. */
  const PageSize := 95
  /** The wait after a rate limit, in seconds. */
  const Cooldown := 300
  /** The error code string that means the quota is exceeded. */
  const QuotaCode := "1675004"

  /**
   * A fetch failure: the structured rate-limit error, or a response error
   * with its code rendered as text ("" when absent) and its two subcode
   * fields rendered as text when present and non-zero.
   */
  datatype SourceError = RateLimitExceeded | ResponseError(code: string, subcode: Option<string>, errorSubcode: Option<string>)

  /** The source's answer to one fetch. */
  datatype FetchReply = Page(nodes: seq<Message>) | Raised(error: SourceError)

  /** A fetch: the thread, the cursor (messages strictly before it) and the page size. */
  datatype FetchRequest = FetchRequest(threadId: int, before: int, count: int)

  /** `code.subcode`, or the code alone when neither subcode field is set. */
  function CodeString(e: SourceError): string
    requires e.ResponseError?
  {
    var sub := if e.subcode.Some? then e.subcode else e.errorSubcode;
    if sub.Some? then e.code + "." + sub.value else e.code
  }

  /** The failures after which the loop waits and fetches the same page again. */
  predicate Retryable(e: SourceError)
  {
    e.RateLimitExceeded? || CodeString(e) == QuotaCode
  }

  /** A response error is the quota signal exactly when it has no subcode and its code is 1675004. */
  lemma QuotaSignal(e: SourceError)
    requires e.ResponseError?
    ensures Retryable(e) <==> e.code == QuotaCode && e.subcode.None? && e.errorSubcode.None?
  {
    var sub := if e.subcode.Some? then e.subcode else e.errorSubcode;
    if sub.Some? {
      var s := e.code + "." + sub.value;
      assert s[|e.code|] == '.';
      assert '.' !in QuotaCode;
      assert s != QuotaCode;
    }
  }

  // ---------------------------------------------------------------------------
  // The loop as a state machine
  // ---------------------------------------------------------------------------

  datatype Status = Fetching | Exhausted | Failed(error: SourceError)

  /**
   * The loop's state: its status and cursor, the fetches made, the cooldowns
   * slept and every message received. What it queues to the writer and to
   * the attachment pool is a function of the messages received
   * (`NewBatches`, `AttachmentQueue`).
   */
  datatype LoopState = LoopState(
    status: Status,
    cursor: int,
    requests: seq<FetchRequest>,
    cooldowns: nat,
    received: seq<Message>)

  /**
   * The channel being archived: `threadId` is the id the fetches use (the
   * requested one) and `channelId` the resolved one the rows use; `known`
   * holds the ids of the messages already archived.
   */
  datatype Context = Context(threadId: int, channelId: int, known: set<string>, attachmentsEnabled: bool,
                             render: string -> string)

  function Start(now: int): LoopState
  {
    LoopState(Fetching, now, [], 0, [])
  }

  /** The writer's batches for the messages of a page that are not archived yet, in order. */
  function NewBatches(ctx: Context, ms: seq<Message>): seq<Batch>
    decreases |ms|
  {
    if ms == [] then []
    else
      var last := ms[|ms| - 1];
      NewBatches(ctx, ms[..|ms| - 1])
      + (if last.id !in ctx.known then [ConvertMessage(last, ctx.channelId, ctx.render)] else [])
  }

  function AttachmentQueue(ctx: Context, ms: seq<Message>): seq<Message>
  {
    if ctx.attachmentsEnabled then ms else []
  }

  /** One turn of the loop for the source's answer `reply`. */
  function Step(ctx: Context, s: LoopState, reply: FetchReply): LoopState
    requires s.status == Fetching
  {
    var fetched := s.(requests := s.requests + [FetchRequest(ctx.threadId, s.cursor, PageSize)]);
    match reply
    case Raised(e) =>
      if Retryable(e) then fetched.(cooldowns := s.cooldowns + 1) else fetched.(status := Failed(e))
    case Page(nodes) =>
      if |nodes| == 0 then fetched.(status := Exhausted)
      else
        fetched.(
          cursor := nodes[0].timestamp - 1,
          received := s.received + nodes)
  }

  /** The loop over the source's answers, until it stops or the answers run out. */
  function Run(ctx: Context, s: LoopState, replies: seq<FetchReply>): LoopState
    decreases |replies|
  {
    if s.status != Fetching || replies == [] then s
    else Run(ctx, Step(ctx, s, replies[0]), replies[1..])
  }

  // ---------------------------------------------------------------------------
  // The loop as the source writes it
  // ---------------------------------------------------------------------------

  /** One more message adds its batch exactly when it is not archived yet. */
  lemma NewBatchesLast(ctx: Context, ms: seq<Message>, m: Message)
    ensures NewBatches(ctx, ms + [m])
            == NewBatches(ctx, ms) + (if m.id !in ctx.known then [ConvertMessage(m, ctx.channelId, ctx.render)] else [])
  {
    assert (ms + [m])[..|ms|] == ms;
  }

  /** One more message of the page: the queues as they stand after it. */
  lemma QueueStep(ctx: Context, nodes: seq<Message>, j: nat)
    requires j < |nodes|
    ensures NewBatches(ctx, nodes[..j + 1])
            == NewBatches(ctx, nodes[..j]) + (if nodes[j].id !in ctx.known then [ConvertMessage(nodes[j], ctx.channelId, ctx.render)] else [])
    ensures AttachmentQueue(ctx, nodes[..j + 1]) == AttachmentQueue(ctx, nodes[..j]) + (if ctx.attachmentsEnabled then [nodes[j]] else [])
  {
    assert nodes[..j + 1] == nodes[..j] + [nodes[j]];
    NewBatchesLast(ctx, nodes[..j], nodes[j]);
  }

  /** The inner `for message in messages` loop: what one page puts on the writer's and the attachment pool's queues. */
  method QueuePage(ctx: Context, nodes: seq<Message>) returns (toWriter: seq<Batch>, toPool: seq<Message>)
    ensures toWriter == NewBatches(ctx, nodes)
    ensures toPool == AttachmentQueue(ctx, nodes)
  {
    toWriter, toPool := [], [];
    var j := 0;
    while j < |nodes|
      invariant 0 <= j <= |nodes|
      invariant toWriter == NewBatches(ctx, nodes[..j])
      invariant toPool == AttachmentQueue(ctx, nodes[..j])
    {
      var message := nodes[j];
      QueueStep(ctx, nodes, j);
      if message.id !in ctx.known {
        toWriter := toWriter + [ConvertMessage(message, ctx.channelId, ctx.render)];
      }
      if ctx.attachmentsEnabled {
        toPool := toPool + [message];
      }
      j := j + 1;
    }
    assert nodes[..|nodes|] == nodes;
  }

  /** The loop from answer `i` on, after one more turn. */
  lemma RunFrom(ctx: Context, s: LoopState, replies: seq<FetchReply>, i: nat)
    requires s.status == Fetching && i < |replies|
    ensures Run(ctx, s, replies[i..]) == Run(ctx, Step(ctx, s, replies[i]), replies[i + 1..])
  {
    assert replies[i..][0] == replies[i] && replies[i..][1..] == replies[i + 1..];
  }

  /**
   * The `while backfill_more` loop, started at the clock reading `now`;
   * `replies` are the source's answers to its fetches, in order. Besides the
   * loop's state it returns what it put on the writer's queue and on the
   * attachment pool's queue.
   */
  method BackfillChannel(ctx: Context, now: int, replies: seq<FetchReply>)
    returns (s: LoopState, toWriter: seq<Batch>, toPool: seq<Message>)
    ensures s == Run(ctx, Start(now), replies)
    ensures toWriter == NewBatches(ctx, s.received)
    ensures toPool == AttachmentQueue(ctx, s.received)
  {
    var status := Fetching;
    var beforeTimeMs := now;
    var requests: seq<FetchRequest> := [];
    var cooldowns: nat := 0;
    var received: seq<Message> := [];
    toWriter, toPool := [], [];
    var i := 0;
    while status == Fetching && i < |replies|
      invariant 0 <= i <= |replies|
      invariant Run(ctx, LoopState(status, beforeTimeMs, requests, cooldowns, received), replies[i..])
                == Run(ctx, Start(now), replies)
      invariant toWriter == NewBatches(ctx, received)
      invariant toPool == AttachmentQueue(ctx, received)
      decreases |replies| - i
    {
      ghost var before := LoopState(status, beforeTimeMs, requests, cooldowns, received);
      RunFrom(ctx, before, replies, i);
      requests := requests + [FetchRequest(ctx.threadId, beforeTimeMs, PageSize)];
      var reply := replies[i];
      i := i + 1;
      if reply.Raised? {
        if reply.error.RateLimitExceeded? || CodeString(reply.error) == QuotaCode {
          cooldowns := cooldowns + 1;
          continue;
        }
        status := Failed(reply.error);
        break;
      }
      var messages := reply.nodes;
      if |messages| == 0 {
        status := Exhausted;
        break;
      }
      var pageBatches, pagePool := QueuePage(ctx, messages);
      assert toWriter + pageBatches == NewBatches(ctx, received + messages) by {
        NewBatchesAppend(ctx, received, messages);
      }
      toWriter := toWriter + pageBatches;
      toPool := toPool + pagePool;
      received := received + messages;
      beforeTimeMs := messages[0].timestamp - 1;
      assert LoopState(status, beforeTimeMs, requests, cooldowns, received) == Step(ctx, before, reply);
    }
    s := LoopState(status, beforeTimeMs, requests, cooldowns, received);
    assert status == Fetching ==> replies[i..] == [];
  }

  // ---------------------------------------------------------------------------
  // Properties of the loop
  // ---------------------------------------------------------------------------

  /** An answer after which the loop fetches again: a non-empty page or a rate-limit signal. */
  predicate Continues(reply: FetchReply)
  {
    (reply.Page? && |reply.nodes| > 0) || (reply.Raised? && Retryable(reply.error))
  }

  /** The number of fetches `Run` makes from `s`. */
  function Fetches(ctx: Context, s: LoopState, replies: seq<FetchReply>): int
  {
    |Run(ctx, s, replies).requests| - |s.requests|
  }

  /** A run only appends fetches, at most one per answer. */
  lemma {:induction false} RunExtends(ctx: Context, s: LoopState, replies: seq<FetchReply>)
    ensures var r := Run(ctx, s, replies);
            && |s.requests| <= |r.requests| <= |s.requests| + |replies|
            && r.requests[..|s.requests|] == s.requests
    decreases |replies|
  {
    if s.status == Fetching && replies != [] {
      var s1 := Step(ctx, s, replies[0]);
      RunExtends(ctx, s1, replies[1..]);
      assert s1.requests[..|s.requests|] == s.requests;
    }
  }

  /** The rate-limit answers among `replies`. */
  function Cooldowns(replies: seq<FetchReply>): nat
    decreases |replies|
  {
    if replies == [] then 0
    else (if replies[0].Raised? && Retryable(replies[0].error) then 1 else 0) + Cooldowns(replies[1..])
  }

  /** The number of answers up to and including the first one that stops the loop (all of them if none does). */
  function FirstStop(replies: seq<FetchReply>): nat
    decreases |replies|
  {
    if replies == [] then 0
    else if !Continues(replies[0]) then 1
    else 1 + FirstStop(replies[1..])
  }

  /** How the loop ends for these answers: by the first answer that stops it, or still fetching. */
  function Ending(replies: seq<FetchReply>): Status
    decreases |replies|
  {
    if replies == [] then Fetching
    else if !Continues(replies[0]) then (if replies[0].Page? then Exhausted else Failed(replies[0].error))
    else Ending(replies[1..])
  }

  /**
   * `FirstStop` counts the answers up to the first empty page or non-rate-limit
   * error, and `Ending` names how that answer stops the loop.
   */
  lemma {:induction false} FirstStopMeaning(replies: seq<FetchReply>)
    ensures var n, e := FirstStop(replies), Ending(replies);
            && n <= |replies|
            && (forall k :: 0 <= k < n - 1 ==> Continues(replies[k]))
            && (e == Fetching <==> n == |replies| && forall k :: 0 <= k < |replies| ==> Continues(replies[k]))
            && (e == Exhausted ==> n > 0 && replies[n - 1] == Page([]))
            && (e.Failed? ==> n > 0 && replies[n - 1] == Raised(e.error) && !Retryable(e.error))
            && (forall k :: 0 <= k < |replies| && !Continues(replies[k]) && (forall j :: 0 <= j < k ==> Continues(replies[j])) ==>
                  n == k + 1)
    decreases |replies|
  {
    if replies != [] && Continues(replies[0]) {
      var tail := replies[1..];
      FirstStopMeaning(tail);
      forall k | 0 <= k < |replies| && !Continues(replies[k]) && (forall j :: 0 <= j < k ==> Continues(replies[j]))
        ensures FirstStop(replies) == k + 1
      {
        assert k > 0;
        assert !Continues(tail[k - 1]);
        forall j | 0 <= j < k - 1 ensures Continues(tail[j]) {
          assert Continues(replies[j + 1]);
        }
      }
      if Ending(replies) == Fetching {
        forall k | 0 <= k < |replies| ensures Continues(replies[k]) {
          if k > 0 {
            assert Continues(tail[k - 1]);
          }
        }
      }
    } else if replies != [] && replies[0].Page? {
      assert replies[0].nodes == [];
    }
  }

  /** One turn stops the loop exactly on an answer that does not say to go on. */
  lemma StepStops(ctx: Context, s: LoopState, reply: FetchReply)
    requires s.status == Fetching
    ensures var s1 := Step(ctx, s, reply);
            && |s1.requests| == |s.requests| + 1
            && (s1.status == Fetching <==> Continues(reply))
            && (!Continues(reply) ==> s1.status == (if reply.Page? then Exhausted else Failed(reply.error)))
            && s1.cooldowns == s.cooldowns + (if reply.Raised? && Retryable(reply.error) then 1 else 0)
  {
  }

  /**
   * The loop makes one fetch per answer it consumes and stops at the first
   * answer that is an empty page (exhausted) or an error other than a rate
   * limit (failed), making no further fetch; it sleeps one cooldown per
   * rate-limit answer it consumed.
   */
  lemma {:induction false} RunStops(ctx: Context, s: LoopState, replies: seq<FetchReply>)
    requires s.status == Fetching
    ensures Fetches(ctx, s, replies) == FirstStop(replies)
    ensures Run(ctx, s, replies).status == Ending(replies)
    ensures FirstStop(replies) <= |replies|
    ensures Run(ctx, s, replies).cooldowns == s.cooldowns + Cooldowns(replies[..FirstStop(replies)])
    decreases |replies|
  {
    if replies == [] {
      assert replies[..0] == [];
    } else {
      var s1 := Step(ctx, s, replies[0]);
      var tail := replies[1..];
      StepStops(ctx, s, replies[0]);
      if Continues(replies[0]) {
        RunStops(ctx, s1, tail);
        var n1 := FirstStop(tail);
        assert replies[..n1 + 1] == [replies[0]] + tail[..n1];
        assert ([replies[0]] + tail[..n1])[1..] == tail[..n1];
      } else {
        assert replies[..1] == [replies[0]];
        assert [replies[0]][1..] == [];
      }
    }
  }

  /** The cursor after an answer: below the first message of a non-empty page, unchanged otherwise. */
  function NextCursor(cursor: int, reply: FetchReply): int
  {
    if reply.Page? && |reply.nodes| > 0 then reply.nodes[0].timestamp - 1 else cursor
  }

  /**
   * Every fetch asks for the requested thread (not the resolved channel) and
   * 95 messages; the first fetch uses the current cursor, and each next one
   * the cursor below the first message of the previous page, or the same
   * cursor again after a rate limit.
   */
  lemma {:induction false} RunCursors(ctx: Context, s: LoopState, replies: seq<FetchReply>)
    requires s.status == Fetching
    ensures |s.requests| <= |Run(ctx, s, replies).requests| <= |s.requests| + |replies|
    ensures var r := Run(ctx, s, replies);
            var made := r.requests[|s.requests|..];
            && (forall k :: 0 <= k < |made| ==> made[k].threadId == ctx.threadId && made[k].count == PageSize)
            && (|made| > 0 ==> made[0].before == s.cursor)
            && (forall k :: 0 <= k < |made| - 1 ==> made[k + 1].before == NextCursor(made[k].before, replies[k]))
    decreases |replies|
  {
    RunExtends(ctx, s, replies);
    if replies != [] {
      var s1 := Step(ctx, s, replies[0]);
      var tail := replies[1..];
      var r := Run(ctx, s, replies);
      if s1.status == Fetching {
        RunCursors(ctx, s1, tail);
        var made := r.requests[|s.requests|..];
        var made1 := r.requests[|s1.requests|..];
        RunExtends(ctx, s1, tail);
        assert r.requests[..|s1.requests|] == s1.requests;
        assert made == [s1.requests[|s.requests|]] + made1;
        assert s1.cursor == NextCursor(s.cursor, replies[0]);
        forall k | 0 <= k < |made| - 1
          ensures made[k + 1].before == NextCursor(made[k].before, replies[k])
        {
          if k > 0 {
            assert made[k + 1] == made1[k] && made[k] == made1[k - 1] && replies[k] == tail[k - 1];
          }
        }
      }
    }
  }

  /** The messages of the pages among `replies`, in order. */
  function PagesOf(replies: seq<FetchReply>): seq<Message>
    decreases |replies|
  {
    if replies == [] then []
    else PageOf(replies[0]) + PagesOf(replies[1..])
  }

  lemma {:induction false} NewBatchesAppend(ctx: Context, a: seq<Message>, b: seq<Message>)
    ensures NewBatches(ctx, a + b) == NewBatches(ctx, a) + NewBatches(ctx, b)
    decreases |b|
  {
    if b == [] {
      assert a + b == a;
    } else {
      var init := b[..|b| - 1];
      assert (a + b)[..|a + b| - 1] == a + init;
      NewBatchesAppend(ctx, a, init);
    }
  }

  /** The messages of one answer: a page's, or none. */
  function PageOf(reply: FetchReply): seq<Message>
  {
    if reply.Page? then reply.nodes else []
  }

  lemma PagesOfPrefix(replies: seq<FetchReply>, n: nat)
    requires 0 < n <= |replies|
    ensures PagesOf(replies[..n]) == PageOf(replies[0]) + PagesOf(replies[1..][..n - 1])
  {
    assert replies[..n][1..] == replies[1..][..n - 1];
  }

  /** The loop receives the messages of the pages among the answers it consumed, in order. */
  lemma {:induction false} RunReceives(ctx: Context, s: LoopState, replies: seq<FetchReply>)
    requires s.status == Fetching
    ensures 0 <= Fetches(ctx, s, replies) <= |replies|
    ensures Run(ctx, s, replies).received == s.received + PagesOf(replies[..Fetches(ctx, s, replies)])
    decreases |replies|
  {
    RunExtends(ctx, s, replies);
    if replies == [] {
      assert replies[..0] == [];
    } else {
      var s1 := Step(ctx, s, replies[0]);
      var tail := replies[1..];
      var page := PageOf(replies[0]);
      assert s1.received == s.received + page;
      if s1.status == Fetching {
        RunReceives(ctx, s1, tail);
        var n1 := Fetches(ctx, s1, tail);
        assert Fetches(ctx, s, replies) == n1 + 1;
        PagesOfPrefix(replies, n1 + 1);
        assert Run(ctx, s, replies).received == s.received + (page + PagesOf(tail[..n1]));
      } else {
        assert Fetches(ctx, s, replies) == 1;
        PagesOfPrefix(replies, 1);
        assert PagesOf(tail[..0]) == [];
        assert page == [];
      }
    }
  }

  /**
   * From the start, the loop receives exactly the messages of the pages it
   * fetched, so the writer gets the batches of those not archived yet and
   * the attachment pool, when re-hosting is configured, all of them.
   */
  lemma BackfillReceives(ctx: Context, now: int, replies: seq<FetchReply>)
    ensures var n := Fetches(ctx, Start(now), replies);
            && 0 <= n <= |replies|
            && Run(ctx, Start(now), replies).received == PagesOf(replies[..n])
  {
    RunReceives(ctx, Start(now), replies);
  }

  /**
   * Resume: the writer gets a batch for a message exactly when its id is not
   * among the archived ones, and every such batch is that message's
   * normalisation.
   */
  lemma {:induction false} NewBatchesMeaning(ctx: Context, ms: seq<Message>)
    ensures var bs := NewBatches(ctx, ms);
            && (forall b :: b in bs ==> exists m :: m in ms && m.id !in ctx.known && b == ConvertMessage(m, ctx.channelId, ctx.render))
            && (forall m :: m in ms && m.id !in ctx.known ==> ConvertMessage(m, ctx.channelId, ctx.render) in bs)
            && (forall b :: b in bs ==> b.message.Some? && b.message.value.id !in ctx.known)
    decreases |ms|
  {
    if ms != [] {
      var init := ms[..|ms| - 1];
      NewBatchesMeaning(ctx, init);
      assert ms == init + [ms[|ms| - 1]];
    }
  }
}
