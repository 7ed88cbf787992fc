/**
 * Message normalisation (`convert_message`): a message of a history page
 * becomes a write-batch with a sender row, a message row, an optional reply
 * edge and optional reaction rows. Markdown escaping and the surrogate
 * bookkeeping around it are the parameter `render`.
 */
module Normalize {
  import opened Wrappers
  import opened Records

  // ---------------------------------------------------------------------------
  // Mention substitution
  // ---------------------------------------------------------------------------

  /** Where a Python slice bound `i` lands in a sequence of length `n`: negative bounds count from the end, every bound is clamped. */
  function SliceBound(i: int, n: nat): (r: nat)
    ensures r <= n
    ensures 0 <= i <= n ==> r == i
  {
    if i < 0 then (if i + n < 0 then 0 else i + n)
    else if i > n then n
    else i
  }

  function MentionToken(id: string): string
  {
    "<@" + id + ">"
  }

  /** A range takes part only when it names an entity with a non-empty id. */
  predicate HasEntity(m: MentionRange)
  {
    m.entity.Some? && m.entity.value.id != ""
  }

  /** One turn of the mention loop: `text[:offset] + token + text[offset + length:]`, or no change. */
  function ApplyRange(text: string, m: MentionRange): string
  {
    if !HasEntity(m) then text
    else
      text[..SliceBound(m.offset, |text|)] + MentionToken(m.entity.value.id)
      + text[SliceBound(m.offset + m.length, |text|)..]
  }

  /** The mention loop over `reversed(ranges)`: the last range is substituted first. */
  function SubstituteMentions(text: string, ranges: seq<MentionRange>): string
    decreases |ranges|
  {
    if ranges == [] then text
    else SubstituteMentions(ApplyRange(text, ranges[|ranges| - 1]), ranges[..|ranges| - 1])
  }

  /** Ranges that lie inside a text of length `n`, each ending before the next one starts. */
  predicate WellPlaced(ranges: seq<MentionRange>, n: int)
  {
    && (forall i :: 0 <= i < |ranges| ==>
          0 <= ranges[i].offset && 0 <= ranges[i].length && ranges[i].offset + ranges[i].length <= n)
    && (forall i :: 0 < i < |ranges| ==> ranges[i - 1].offset + ranges[i - 1].length <= ranges[i].offset)
  }

  /**
   * The reference reading of the substitution, left to right over the
   * original text: the text from `from` onward, where every range that names
   * an entity is replaced by its token and everything else is kept.
   */
  function Woven(text: string, ranges: seq<MentionRange>, from: nat): string
    requires from <= |text|
    requires WellPlaced(ranges, |text|)
    requires |ranges| > 0 ==> from <= ranges[0].offset
    decreases |ranges|
  {
    if ranges == [] then text[from..]
    else
      var r := ranges[0];
      assert |ranges| > 1 ==> ranges[1..][0] == ranges[1];
      if HasEntity(r) then
        text[from..r.offset] + MentionToken(r.entity.value.id) + Woven(text, ranges[1..], r.offset + r.length)
      else Woven(text, ranges[1..], from)
  }

  /** The ranges that name an entity, in their order. */
  function Named(ranges: seq<MentionRange>): (r: seq<MentionRange>)
    decreases |ranges|
  {
    if ranges == [] then []
    else if HasEntity(ranges[|ranges| - 1]) then Named(ranges[..|ranges| - 1]) + [ranges[|ranges| - 1]]
    else Named(ranges[..|ranges| - 1])
  }

  /** Ranges without an entity id change nothing: substituting only the named ones gives the same text. */
  lemma {:induction false} UnnamedRangesSkipped(text: string, ranges: seq<MentionRange>)
    ensures SubstituteMentions(text, ranges) == SubstituteMentions(text, Named(ranges))
    decreases |ranges|
  {
    if ranges != [] {
      var r, init := ranges[|ranges| - 1], ranges[..|ranges| - 1];
      if HasEntity(r) {
        UnnamedRangesSkipped(ApplyRange(text, r), init);
        var named := Named(init) + [r];
        assert named[..|named| - 1] == Named(init);
      } else {
        UnnamedRangesSkipped(text, init);
      }
    }
  }

  /** Well-placed ranges end, each of them, before every later one starts. */
  lemma {:induction false} WellPlacedOrdered(ranges: seq<MentionRange>, n: int, i: int, j: int)
    requires WellPlaced(ranges, n) && 0 <= i < j < |ranges|
    ensures ranges[i].offset + ranges[i].length <= ranges[j].offset
    decreases j - i
  {
    if i + 1 < j {
      WellPlacedOrdered(ranges, n, i + 1, j);
    }
  }

  /** Dropping the last of well-placed ranges leaves ranges that end before it starts. */
  lemma WellPlacedInit(ranges: seq<MentionRange>, n: int)
    requires |ranges| > 0 && WellPlaced(ranges, n)
    ensures WellPlaced(ranges[..|ranges| - 1], ranges[|ranges| - 1].offset)
  {
    var last := |ranges| - 1;
    forall i | 0 <= i < last
      ensures ranges[i].offset + ranges[i].length <= ranges[last].offset
    {
      WellPlacedOrdered(ranges, n, i, last);
    }
  }

  /** Substituting ranges that lie inside `p` leaves whatever follows `p` untouched. */
  lemma {:induction false} SubstituteFrame(p: string, q: string, ranges: seq<MentionRange>)
    requires WellPlaced(ranges, |p|)
    ensures SubstituteMentions(p + q, ranges) == SubstituteMentions(p, ranges) + q
    decreases |ranges|
  {
    if ranges != [] {
      var r, init := ranges[|ranges| - 1], ranges[..|ranges| - 1];
      WellPlacedInit(ranges, |p|);
      if HasEntity(r) {
        var p' := ApplyRange(p, r);
        assert (p + q)[..r.offset] == p[..r.offset];
        assert (p + q)[r.offset + r.length..] == p[r.offset + r.length..] + q;
        assert ApplyRange(p + q, r) == p' + q;
        assert WellPlaced(init, |p'|);
        SubstituteFrame(p', q, init);
      } else {
        assert WellPlaced(init, |p|);
        SubstituteFrame(p, q, init);
      }
    }
  }

  /** Reading `Woven` from its last named range: what precedes it, its token, then the rest of the text. */
  lemma {:induction false} WovenLast(text: string, ranges: seq<MentionRange>, from: nat)
    requires from <= |text| && WellPlaced(ranges, |text|) && |ranges| > 0 && from <= ranges[0].offset
    requires HasEntity(ranges[|ranges| - 1])
    ensures var r := ranges[|ranges| - 1];
            && WellPlaced(ranges[..|ranges| - 1], r.offset)
            && from <= r.offset
            && Woven(text, ranges, from)
               == Woven(text[..r.offset], ranges[..|ranges| - 1], from) + MentionToken(r.entity.value.id)
                  + text[r.offset + r.length..]
    decreases |ranges|, 1
  {
    var r := ranges[|ranges| - 1];
    WellPlacedInit(ranges, |text|);
    if |ranges| == 1 {
      assert text[..r.offset][from..] == text[from..r.offset];
    } else {
      WovenLastStep(text, ranges, from);
    }
  }

  /** The inductive step of `WovenLast`, over the first range. */
  lemma {:induction false} WovenLastStep(text: string, ranges: seq<MentionRange>, from: nat)
    requires from <= |text| && WellPlaced(ranges, |text|) && |ranges| > 1 && from <= ranges[0].offset
    requires HasEntity(ranges[|ranges| - 1])
    requires WellPlaced(ranges[..|ranges| - 1], ranges[|ranges| - 1].offset)
    ensures var r := ranges[|ranges| - 1];
            Woven(text, ranges, from)
            == Woven(text[..r.offset], ranges[..|ranges| - 1], from) + MentionToken(r.entity.value.id)
               + text[r.offset + r.length..]
    decreases |ranges|, 0
  {
    var r, init := ranges[|ranges| - 1], ranges[..|ranges| - 1];
    var r0, tail := ranges[0], ranges[1..];
    var middle := tail[..|tail| - 1];
    assert init[0] == r0 && init[1..] == middle;
    assert tail[0] == ranges[1] && tail[|tail| - 1] == r;
    var prefix := text[..r.offset];
    if HasEntity(r0) {
      var mid := r0.offset + r0.length;
      WovenLast(text, tail, mid);
      var head := text[from..r0.offset];
      SliceOfPrefix(text, r.offset, from, r0.offset);
      var tok0, tok := MentionToken(r0.entity.value.id), MentionToken(r.entity.value.id);
      var between, suffix := Woven(prefix, middle, mid), text[r.offset + r.length..];
      assert Woven(prefix, init, from) == head + tok0 + between;
      assert Woven(text, ranges, from) == (head + tok0) + ((between + tok) + suffix);
      Regroup(head + tok0, between, tok, suffix);
    } else {
      WovenLast(text, tail, from);
    }
  }

  lemma SliceOfPrefix(text: string, k: int, a: int, b: int)
    requires 0 <= a <= b <= k <= |text|
    ensures text[..k][a..b] == text[a..b]
  {
  }

  lemma Regroup(x: string, b: string, t: string, s: string)
    ensures x + ((b + t) + s) == ((x + b) + t) + s
  {
  }

  /** Reading `Woven` from its last range when that range names no entity: it is simply dropped. */
  lemma {:induction false} WovenSkipLast(text: string, ranges: seq<MentionRange>, from: nat)
    requires from <= |text| && WellPlaced(ranges, |text|) && |ranges| > 0 && from <= ranges[0].offset
    requires !HasEntity(ranges[|ranges| - 1])
    ensures Woven(text, ranges, from) == Woven(text, ranges[..|ranges| - 1], from)
    decreases |ranges|
  {
    if |ranges| > 1 {
      var r0, tail := ranges[0], ranges[1..];
      var init := ranges[..|ranges| - 1];
      assert tail[..|tail| - 1] == init[1..];
      assert tail[0] == ranges[1] && init[0] == r0;
      if HasEntity(r0) {
        WovenSkipLast(text, tail, r0.offset + r0.length);
      } else {
        WovenSkipLast(text, tail, from);
      }
    }
  }

  /**
   * The substitution from the last range to the first gives exactly the
   * left-to-right reading: each named range is replaced in place by its
   * token, and the text before, between and after the ranges is unchanged.
   */
  lemma {:induction false} SubstituteIsWoven(text: string, ranges: seq<MentionRange>)
    requires WellPlaced(ranges, |text|)
    ensures SubstituteMentions(text, ranges) == Woven(text, ranges, 0)
    decreases |ranges|
  {
    if ranges != [] {
      var r, init := ranges[|ranges| - 1], ranges[..|ranges| - 1];
      if HasEntity(r) {
        var rest := MentionToken(r.entity.value.id) + text[r.offset + r.length..];
        assert ApplyRange(text, r) == text[..r.offset] + rest;
        WellPlacedInit(ranges, |text|);
        SubstituteFrame(text[..r.offset], rest, init);
        SubstituteIsWoven(text[..r.offset], init);
        WovenLast(text, ranges, 0);
      } else {
        assert WellPlaced(init, |text|);
        SubstituteIsWoven(text, init);
        WovenSkipLast(text, ranges, 0);
      }
    }
  }

  // ---------------------------------------------------------------------------
  // Reactions
  // ---------------------------------------------------------------------------

  /**
   * `itertools.groupby` over the emoji of the reactions: one row per maximal
   * run of equal ADJACENT emoji, counting the run.
   */
  function ReactionRows(messageId: string, emojis: seq<string>): (rows: seq<ReactionRow>)
    ensures |rows| <= |emojis|
    ensures |emojis| > 0 ==> |rows| > 0 && rows[0].emoji == emojis[0]
    ensures forall i :: 0 <= i < |rows| ==> rows[i].messageId == messageId && rows[i].count >= 1
    ensures forall i :: 0 <= i < |rows| - 1 ==> rows[i].emoji != rows[i + 1].emoji
    decreases |emojis|
  {
    if emojis == [] then []
    else
      var rest := ReactionRows(messageId, emojis[1..]);
      if rest != [] && rest[0].emoji == emojis[0] then [rest[0].(count := rest[0].count + 1)] + rest[1..]
      else [ReactionRow(messageId, emojis[0], 1)] + rest
  }

  function Repeat(e: string, n: int): seq<string>
    decreases n
  {
    if n <= 0 then [] else [e] + Repeat(e, n - 1)
  }

  /** The reaction list the rows describe: each row's emoji, `count` times, row after row. */
  function Expand(rows: seq<ReactionRow>): seq<string>
    decreases |rows|
  {
    if rows == [] then [] else Repeat(rows[0].emoji, rows[0].count) + Expand(rows[1..])
  }

  function TotalCount(rows: seq<ReactionRow>): int
    decreases |rows|
  {
    if rows == [] then 0 else rows[0].count + TotalCount(rows[1..])
  }

  /** The rows are the run-length encoding of the reaction list: expanding them gives the list back. */
  lemma {:induction false} ReactionRowsExpand(messageId: string, emojis: seq<string>)
    ensures Expand(ReactionRows(messageId, emojis)) == emojis
    decreases |emojis|
  {
    if emojis != [] {
      var rest := ReactionRows(messageId, emojis[1..]);
      ReactionRowsExpand(messageId, emojis[1..]);
      if rest != [] && rest[0].emoji == emojis[0] {
        var rows := [rest[0].(count := rest[0].count + 1)] + rest[1..];
        assert rows[1..] == rest[1..];
        assert Repeat(emojis[0], rest[0].count + 1) == [emojis[0]] + Repeat(emojis[0], rest[0].count);
      } else {
        var rows := [ReactionRow(messageId, emojis[0], 1)] + rest;
        assert rows[1..] == rest;
        assert Repeat(emojis[0], 1) == [emojis[0]];
      }
    }
  }

  /** The counts of the rows add up to the number of reactions. */
  lemma {:induction false} ReactionRowsTotal(messageId: string, emojis: seq<string>)
    ensures TotalCount(ReactionRows(messageId, emojis)) == |emojis|
    decreases |emojis|
  {
    if emojis != [] {
      var rest := ReactionRows(messageId, emojis[1..]);
      ReactionRowsTotal(messageId, emojis[1..]);
      if rest != [] && rest[0].emoji == emojis[0] {
        var rows := [rest[0].(count := rest[0].count + 1)] + rest[1..];
        assert rows[1..] == rest[1..];
      } else {
        var rows := [ReactionRow(messageId, emojis[0], 1)] + rest;
        assert rows[1..] == rest;
      }
    }
  }

  // ---------------------------------------------------------------------------
  // The write-batch of one message
  // ---------------------------------------------------------------------------

  /** The sender's name, or the placeholder when the source has none (or an empty one). */
  function SenderName(m: Message): string
  {
    if m.senderName.Some? && m.senderName.value != "" then m.senderName.value else "Facebook user"
  }

  /** How an f-string renders an optional snippet. */
  function SnippetText(snippet: Option<string>): string
  {
    match snippet
    case Some(s) => s
    case None => "None"
  }

  /** The stored text: the emphasised snippet of a system message, the rendered body of a user message, or "". */
  function MessageText(m: Message, render: string -> string): string
  {
    if !m.isUserGenerated then "*" + SnippetText(m.snippet) + "*"
    else if m.body.Some? then render(SubstituteMentions(m.body.value.text, m.body.value.ranges))
    else ""
  }

  /** The three cases of the stored text, the body case read left to right over well-placed ranges. */
  lemma MessageTextCases(m: Message, render: string -> string)
    ensures !m.isUserGenerated ==> MessageText(m, render) == "*" + SnippetText(m.snippet) + "*"
    ensures m.isUserGenerated && m.body.None? ==> MessageText(m, render) == ""
    ensures m.isUserGenerated && m.body.Some? && WellPlaced(m.body.value.ranges, |m.body.value.text|) ==>
              MessageText(m, render) == render(Woven(m.body.value.text, m.body.value.ranges, 0))
  {
    if m.isUserGenerated && m.body.Some? && WellPlaced(m.body.value.ranges, |m.body.value.text|) {
      SubstituteIsWoven(m.body.value.text, m.body.value.ranges);
    }
  }

  /** The id of the replied-to message, when the parent still exists, still has its message and that message has an id. */
  function ReplyTarget(m: Message): Option<string>
  {
    if m.repliedTo.Some? && m.repliedTo.value.message.Some?
       && m.repliedTo.value.message.value.messageId.Some?
       && m.repliedTo.value.message.value.messageId.value != ""
    then Some(m.repliedTo.value.message.value.messageId.value)
    else None
  }

  /** `convert_message`: the write-batch of one message of channel `threadId`. */
  function ConvertMessage(m: Message, threadId: int, render: string -> string): (b: Batch)
    ensures b.users.Some? && |b.users.value| == 1
    ensures b.users.value[0].id == m.senderId && b.users.value[0].avatar == Some("")
    ensures m.senderName.Some? && m.senderName.value != "" ==> b.users.value[0].name == m.senderName.value
    ensures m.senderName.None? || m.senderName == Some("") ==> b.users.value[0].name == "Facebook user"
    ensures b.message.Some? && b.message.value.id == m.id && b.message.value.senderId == m.senderId
    ensures b.message.value.channelId == threadId && b.message.value.timestamp == m.timestamp
    ensures b.message.value.unsentTimestamp == m.unsentTimestamp
    ensures b.message.value.text == MessageText(m, render)
    ensures b.attachments.None?
    ensures b.repliedTo.Some? <==>
              (&& m.repliedTo.Some? && m.repliedTo.value.message.Some?
               && m.repliedTo.value.message.value.messageId.Some?
               && m.repliedTo.value.message.value.messageId.value != "")
    ensures b.repliedTo.Some? ==>
              b.repliedTo.value == ReplyRow(m.id, m.repliedTo.value.message.value.messageId.value)
    ensures b.reactions.Some? <==> |m.reactions| > 0
    ensures b.reactions.Some? ==>
              && (forall i :: 0 <= i < |b.reactions.value| ==> b.reactions.value[i].messageId == m.id)
              && Expand(b.reactions.value) == m.reactions
  {
    var reply := ReplyTarget(m);
    ReactionRowsExpand(m.id, m.reactions);
    Batch(
      Some([UserRow(m.senderId, SenderName(m), Some(""))]),
      Some(MessageRow(m.id, m.senderId, threadId, MessageText(m, render), m.timestamp, m.unsentTimestamp)),
      if reply.Some? then Some(ReplyRow(m.id, reply.value)) else None,
      None,
      if |m.reactions| > 0 then Some(ReactionRows(m.id, m.reactions)) else None)
  }
}
