/**
 * `reupload_fb_file`: download a file from the message source, retrying
 * transport errors with exponential backoff, refuse files over the host's
 * size limit, then post it to the file host until the host answers with a
 * JSON body that either holds the upload or refuses it. Each GET and each
 * POST is an outcome given to the model; sleeps are recorded, not taken.
 */
module Rehost {
  import opened Wrappers
  import opened Records

  /** The file host's upload limit, in bytes. */
  const MaxUploadBytes := 25_000_000
  /** The download gives up once more than this many retries have failed. */
  const RetryLimit := 10
  /** The wait when the host sends no reset header, in seconds. */
  const DefaultWait := 60

  // ---------------------------------------------------------------------------
  // Rate-limit headers
  // ---------------------------------------------------------------------------

  /** `X-Ratelimit-Reset` (an epoch time) and `X-Ratelimit-Reset-After` (seconds), when present and non-empty. */
  datatype RateLimitHeaders = RateLimitHeaders(reset: Option<int>, resetAfter: Option<int>)

  /**
   * `parse_ratelimit_header`: how long to wait, given the clock `now`. Without
   * a reset header the wait is 60 seconds even when a reset-after header is
   * sent; otherwise the reset-after value, else the time left until the reset.
   */
  function WaitSeconds(h: RateLimitHeaders, now: int): (w: int)
    ensures h.reset.None? ==> w == DefaultWait
    ensures h.reset.Some? && h.resetAfter.Some? ==> w == h.resetAfter.value
    ensures h.reset.Some? && h.resetAfter.None? ==> now + w == h.reset.value
  {
    if h.reset.None? then DefaultWait
    else if h.resetAfter.None? then h.reset.value - now
    else h.resetAfter.value
  }

  // ---------------------------------------------------------------------------
  // Download phase
  // ---------------------------------------------------------------------------

  /** One GET: a transport error (connection, payload or timeout), or a response with its declared length and whether its body was read. */
  datatype DownloadTry = TransportError | Response(contentLength: int, bodyRead: bool)

  datatype DownloadEnd = Downloaded | TooLarge | GaveUp

  /** How the download phase ended, how many GETs it made and the sleeps between them. */
  datatype DownloadRun = DownloadRun(end: DownloadEnd, gets: nat, sleeps: seq<int>)

  function Pow2(k: nat): (p: nat)
    ensures p >= 1
  {
    if k == 0 then 1 else 2 * Pow2(k - 1)
  }

  /** A try that is retried: a transport error, or a body that could not be read from a response within the limit. */
  predicate Fails(t: DownloadTry)
  {
    t.TransportError? || (t.contentLength <= MaxUploadBytes && !t.bodyRead)
  }

  /** The download loop from the try numbered `attempts` on; `tries(k)` is the outcome of try `k`. */
  function DownloadFrom(tries: nat -> DownloadTry, attempts: nat): (d: DownloadRun)
    ensures attempts <= RetryLimit + 1 ==> d.gets <= RetryLimit + 1 - attempts
    ensures d.end.GaveUp? ==> |d.sleeps| == d.gets && (attempts <= RetryLimit + 1 ==> d.gets == RetryLimit + 1 - attempts)
    ensures !d.end.GaveUp? ==> |d.sleeps| + 1 == d.gets
    decreases RetryLimit + 1 - attempts
  {
    if attempts > RetryLimit then DownloadRun(GaveUp, 0, [])
    else
      var t := tries(attempts);
      if t.Response? && t.contentLength > MaxUploadBytes then DownloadRun(TooLarge, 1, [])
      else if t.Response? && t.bodyRead then DownloadRun(Downloaded, 1, [])
      else
        var rest := DownloadFrom(tries, attempts + 1);
        DownloadRun(rest.end, rest.gets + 1, [Pow2(attempts)] + rest.sleeps)
  }

  // ---------------------------------------------------------------------------
  // Upload phase
  // ---------------------------------------------------------------------------

  /** The body of the host's answer: not JSON, or JSON with its first attachment (if any) and whether it asks to retry. */
  datatype UploadBody = NotJson | Json(attachment: Option<Hosted>, retryAfter: bool)

  /** The host's answer to one POST, with the clock reading at which its headers are parsed. */
  datatype UploadReply = UploadReply(headers: RateLimitHeaders, now: int, body: UploadBody)

  datatype UploadEnd = Uploaded(hosted: Hosted) | Refused | Unfinished

  /** How the upload phase ended, how many POSTs it made and the sleeps between them. */
  datatype UploadRun = UploadRun(end: UploadEnd, posts: nat, sleeps: seq<int>)

  /** An answer after which the same POST is sent again. */
  predicate Retried(r: UploadReply)
  {
    r.body.NotJson? || (r.body.attachment.None? && r.body.retryAfter)
  }

  /** The upload loop over the host's answers; `Unfinished` when the answers run out while it still retries. */
  function UploadFrom(replies: seq<UploadReply>): UploadRun
    decreases |replies|
  {
    if replies == [] then UploadRun(Unfinished, 0, [])
    else
      var r := replies[0];
      if r.body.Json? && r.body.attachment.Some? then UploadRun(Uploaded(r.body.attachment.value), 1, [])
      else if Retried(r) then
        var rest := UploadFrom(replies[1..]);
        UploadRun(rest.end, rest.posts + 1, [WaitSeconds(r.headers, r.now)] + rest.sleeps)
      else UploadRun(Refused, 1, [])
  }

  /**
   * The upload loop posts until the first answer that is not retried, sleeping
   * the header-directed wait after each retried one; it ends without a file
   * exactly when that answer is JSON with neither an attachment nor a
   * retry-after field.
   */
  lemma {:induction false} UploadFromMeaning(replies: seq<UploadReply>)
    ensures var u := UploadFrom(replies);
            && u.posts <= |replies|
            && (forall j :: 0 <= j < |u.sleeps| ==>
                  j < |replies| && Retried(replies[j]) && u.sleeps[j] == WaitSeconds(replies[j].headers, replies[j].now))
            && (u.end.Unfinished? ==> u.posts == |u.sleeps| == |replies|)
            && (!u.end.Unfinished? ==> 0 < u.posts && u.posts == |u.sleeps| + 1 && !Retried(replies[u.posts - 1]))
            && (u.end.Refused? ==> replies[u.posts - 1].body == Json(None, false))
            && (u.end.Uploaded? ==> replies[u.posts - 1].body.Json? && replies[u.posts - 1].body.attachment == Some(u.end.hosted))
            && (forall i :: 0 <= i < |replies| && !Retried(replies[i]) && (forall j :: 0 <= j < i ==> Retried(replies[j])) ==>
                  u.posts == i + 1)
    decreases |replies|
  {
    if replies != [] && Retried(replies[0]) && !(replies[0].body.Json? && replies[0].body.attachment.Some?) {
      var tail := replies[1..];
      UploadFromMeaning(tail);
      var u := UploadFrom(replies);
      forall i | 0 <= i < |replies| && !Retried(replies[i]) && (forall j :: 0 <= j < i ==> Retried(replies[j]))
        ensures u.posts == i + 1
      {
        assert i > 0;
        assert !Retried(tail[i - 1]);
        assert forall j :: 0 <= j < i - 1 ==> Retried(tail[j]) by {
          forall j | 0 <= j < i - 1 ensures Retried(tail[j]) {
            assert Retried(replies[j + 1]);
          }
        }
      }
    }
  }

  // ---------------------------------------------------------------------------
  // The whole re-upload
  // ---------------------------------------------------------------------------

  /** `Rehosted` with the host's name and URL, `NoFile` for the `None` result, `StillUploading` when the answers ran out. */
  datatype ReuploadEnd = Rehosted(hosted: Hosted) | NoFile | StillUploading

  datatype Trace = Trace(end: ReuploadEnd, gets: nat, posts: nat, sleeps: seq<int>)

  /** What `reupload_fb_file` does for the given GET outcomes and host answers. */
  function Reupload(tries: nat -> DownloadTry, replies: seq<UploadReply>): Trace
  {
    var d := DownloadFrom(tries, 0);
    if !d.end.Downloaded? then Trace(NoFile, d.gets, 0, d.sleeps)
    else
      var u := UploadFrom(replies);
      var end := match u.end
        case Uploaded(h) => Rehosted(h)
        case Refused => NoFile
        case Unfinished => StillUploading;
      Trace(end, d.gets, u.posts, d.sleeps + u.sleeps)
  }

  /** What is done, followed by the run from a later try. */
  function Carried(rest: DownloadRun, gets: nat, sleeps: seq<int>): DownloadRun
  {
    DownloadRun(rest.end, gets + rest.gets, sleeps + rest.sleeps)
  }

  /** The whole run is what is done followed by the run from try `attempts` on. */
  predicate CarriesTo(tries: nat -> DownloadTry, attempts: nat, gets: nat, sleeps: seq<int>, whole: DownloadRun)
  {
    Carried(DownloadFrom(tries, attempts), gets, sleeps) == whole
  }

  /** One turn of the download loop: a failed try moves its GET and its sleep to what is done; any other try ends the run. */
  lemma DownloadStep(tries: nat -> DownloadTry, attempts: nat, gets: nat, sleeps: seq<int>, whole: DownloadRun)
    requires attempts <= RetryLimit && CarriesTo(tries, attempts, gets, sleeps, whole)
    ensures var t := tries(attempts);
            if t.Response? && t.contentLength > MaxUploadBytes then DownloadRun(TooLarge, gets + 1, sleeps) == whole
            else if t.Response? && t.bodyRead then DownloadRun(Downloaded, gets + 1, sleeps) == whole
            else CarriesTo(tries, attempts + 1, gets + 1, sleeps + [Pow2(attempts)], whole)
  {
    var next := DownloadFrom(tries, attempts + 1);
    if Fails(tries(attempts)) {
      assert DownloadFrom(tries, attempts) == DownloadRun(next.end, next.gets + 1, [Pow2(attempts)] + next.sleeps);
      assert sleeps + ([Pow2(attempts)] + next.sleeps) == (sleeps + [Pow2(attempts)]) + next.sleeps;
    } else {
      assert sleeps + [] == sleeps;
    }
  }

  /** The download loop of `reupload_fb_file`. */
  method Download(tries: nat -> DownloadTry) returns (d: DownloadRun)
    ensures d == DownloadFrom(tries, 0)
  {
    var attempts: nat := 0;
    var gets: nat := 0;
    var sleeps: seq<int> := [];
    ghost var whole := DownloadFrom(tries, 0);
    assert [] + whole.sleeps == whole.sleeps;
    while attempts <= RetryLimit
      invariant attempts <= RetryLimit + 1
      invariant CarriesTo(tries, attempts, gets, sleeps, whole)
      decreases RetryLimit + 1 - attempts
    {
      var response := tries(attempts);
      DownloadStep(tries, attempts, gets, sleeps, whole);
      if response.Response? && response.contentLength > MaxUploadBytes {
        return DownloadRun(TooLarge, gets + 1, sleeps);
      }
      if response.Response? && response.bodyRead {
        return DownloadRun(Downloaded, gets + 1, sleeps);
      }
      gets := gets + 1;
      sleeps := sleeps + [Pow2(attempts)];
      attempts := attempts + 1;
    }
    assert sleeps + [] == sleeps;
    d := DownloadRun(GaveUp, gets, sleeps);
  }

  /** The whole upload run is what is done followed by the run over the answers from position `i` on. */
  predicate UploadCarriesTo(replies: seq<UploadReply>, i: nat, posts: nat, waits: seq<int>, whole: UploadRun)
    requires i <= |replies|
  {
    var rest := UploadFrom(replies[i..]);
    UploadRun(rest.end, posts + rest.posts, waits + rest.sleeps) == whole
  }

  /** One turn of the upload loop: a retried answer moves its POST and its wait to what is done; any other answer ends the run. */
  lemma UploadStep(replies: seq<UploadReply>, i: nat, posts: nat, waits: seq<int>, whole: UploadRun)
    requires i < |replies| && UploadCarriesTo(replies, i, posts, waits, whole)
    ensures var r := replies[i];
            if r.body.Json? && r.body.attachment.Some? then UploadRun(Uploaded(r.body.attachment.value), posts + 1, waits) == whole
            else if Retried(r) then UploadCarriesTo(replies, i + 1, posts + 1, waits + [WaitSeconds(r.headers, r.now)], whole)
            else UploadRun(Refused, posts + 1, waits) == whole
  {
    var r, rest := replies[i], UploadFrom(replies[i + 1..]);
    assert replies[i..][0] == r;
    assert replies[i..][1..] == replies[i + 1..];
    if !(r.body.Json? && r.body.attachment.Some?) && Retried(r) {
      assert waits + ([WaitSeconds(r.headers, r.now)] + rest.sleeps) == (waits + [WaitSeconds(r.headers, r.now)]) + rest.sleeps;
    } else {
      assert waits + [] == waits;
    }
  }

  /** The upload loop of `reupload_fb_file`, over the host's answers in order. */
  method Upload(replies: seq<UploadReply>) returns (u: UploadRun)
    ensures u == UploadFrom(replies)
  {
    var i := 0;
    var posts: nat := 0;
    var waits: seq<int> := [];
    var end := Unfinished;
    ghost var whole := UploadFrom(replies);
    assert replies[0..] == replies && [] + whole.sleeps == whole.sleeps;
    while i < |replies| && end.Unfinished?
      invariant 0 <= i <= |replies|
      invariant !end.Unfinished? ==> UploadRun(end, posts, waits) == whole
      invariant end.Unfinished? ==> UploadCarriesTo(replies, i, posts, waits, whole)
      decreases |replies| - i
    {
      var reply := replies[i];
      UploadStep(replies, i, posts, waits, whole);
      posts := posts + 1;
      var wait := WaitSeconds(reply.headers, reply.now);
      if reply.body.NotJson? {
        waits := waits + [wait];
      } else if reply.body.attachment.None? {
        if reply.body.retryAfter {
          waits := waits + [wait];
        } else {
          end := Refused;
        }
      } else {
        end := Uploaded(reply.body.attachment.value);
      }
      i := i + 1;
    }
    if end.Unfinished? {
      assert replies[i..] == [] && waits + [] == waits;
    }
    u := UploadRun(end, posts, waits);
  }

  /** `reupload_fb_file`: download, then upload when the download completed. */
  method ReuploadFile(tries: nat -> DownloadTry, replies: seq<UploadReply>) returns (t: Trace)
    ensures t == Reupload(tries, replies)
  {
    var d := Download(tries);
    if !d.end.Downloaded? {
      return Trace(NoFile, d.gets, 0, d.sleeps);
    }
    var u := Upload(replies);
    var end := match u.end
      case Uploaded(h) => Rehosted(h)
      case Refused => NoFile
      case Unfinished => StillUploading;
    t := Trace(end, d.gets, u.posts, d.sleeps + u.sleeps);
  }

  // ---------------------------------------------------------------------------
  // Properties of the retry policy
  // ---------------------------------------------------------------------------

  /** `sleeps[k]` is 2^(a+k): the back-off of the tries from `a` on. */
  predicate PowersFrom(sleeps: seq<int>, a: nat)
  {
    forall k :: 0 <= k < |sleeps| ==> sleeps[k] == Pow2(a + k)
  }

  lemma PowersCons(sleeps: seq<int>, a: nat)
    requires PowersFrom(sleeps, a + 1)
    ensures PowersFrom([Pow2(a)] + sleeps, a)
  {
    var all := [Pow2(a)] + sleeps;
    forall k | 0 < k < |all| ensures all[k] == Pow2(a + k) {
      assert all[k] == sleeps[k - 1];
    }
  }

  /** From try `a` on, a download whose every try fails gives up after the remaining tries, sleeping 2^k after try k. */
  lemma {:induction false} FailingDownloadFrom(tries: nat -> DownloadTry, a: nat)
    requires a <= RetryLimit + 1
    requires forall k :: Fails(tries(k))
    ensures var d := DownloadFrom(tries, a);
            && d.end == GaveUp && d.gets == RetryLimit + 1 - a
            && |d.sleeps| == RetryLimit + 1 - a
            && PowersFrom(d.sleeps, a)
    decreases RetryLimit + 1 - a
  {
    if a <= RetryLimit {
      FailingDownloadFrom(tries, a + 1);
      var rest := DownloadFrom(tries, a + 1);
      assert Fails(tries(a));
      assert DownloadFrom(tries, a) == DownloadRun(rest.end, rest.gets + 1, [Pow2(a)] + rest.sleeps);
      PowersCons(rest.sleeps, a);
    }
  }

  /**
   * A download that fails every time is tried 11 times, sleeping 2^k seconds
   * after failure k (1, 2, …, 1024), and nothing is posted or returned.
   */
  lemma FailingDownloadGivesUp(tries: nat -> DownloadTry, replies: seq<UploadReply>)
    requires forall k :: Fails(tries(k))
    ensures var t := Reupload(tries, replies);
            && t.end == NoFile && t.gets == 11 && t.posts == 0
            && |t.sleeps| == 11 && forall k :: 0 <= k < 11 ==> t.sleeps[k] == Pow2(k)
  {
    FailingDownloadFrom(tries, 0);
  }

  /** From try `a` on: after failures up to try `k`, a response longer than the limit ends the download there. */
  lemma {:induction false} OversizeFrom(tries: nat -> DownloadTry, a: nat, k: nat)
    requires a <= k <= RetryLimit
    requires forall j :: a <= j < k ==> Fails(tries(j))
    requires tries(k).Response? && tries(k).contentLength > MaxUploadBytes
    ensures DownloadFrom(tries, a).end == TooLarge && DownloadFrom(tries, a).gets == k - a + 1
    decreases k - a
  {
    if a < k {
      OversizeFrom(tries, a + 1, k);
    }
  }

  /** A file whose declared length is over 25 000 000 bytes is never posted: the result is no file. */
  lemma OversizeNeverPosted(tries: nat -> DownloadTry, replies: seq<UploadReply>, k: nat)
    requires k <= RetryLimit
    requires forall j :: 0 <= j < k ==> Fails(tries(j))
    requires tries(k).Response? && tries(k).contentLength > MaxUploadBytes
    ensures var t := Reupload(tries, replies);
            t.end == NoFile && t.posts == 0 && t.gets == k + 1
  {
    OversizeFrom(tries, 0, k);
  }

  /**
   * The re-upload gives no file only when the download did not complete or
   * the host answered with JSON holding neither an attachment nor a
   * retry-after field; it gives a file only from the host's answer.
   */
  lemma ReuploadOutcomes(tries: nat -> DownloadTry, replies: seq<UploadReply>)
    ensures var t := Reupload(tries, replies);
            && (t.posts > 0 ==> DownloadFrom(tries, 0).end == Downloaded)
            && (t.end == NoFile && DownloadFrom(tries, 0).end == Downloaded ==>
                  0 < t.posts <= |replies| && replies[t.posts - 1].body == Json(None, false))
            && (t.end.Rehosted? ==>
                  0 < t.posts <= |replies| && replies[t.posts - 1].body.Json?
                  && replies[t.posts - 1].body.attachment == Some(t.end.hosted))
  {
    UploadFromMeaning(replies);
  }
}
