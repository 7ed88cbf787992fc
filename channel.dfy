/**
 * The per-channel setup in `execute`: which channel id is archived, the
 * channel and participant rows written before the backfill, and the size of
 * the attachment worker pool.
 */
module Channel {
  import opened Wrappers
  import opened Records
  import Store

  datatype Picture = Picture(uri: string)

  /** The messaging actor of a participant; `structuredName` is the text of its structured name. */
  datatype Actor = Actor(
    structuredName: Option<string>,
    nicknameForViewer: Option<string>,
    username: Option<string>,
    profilePicLarge: Option<Picture>,
    profilePicMedium: Option<Picture>,
    profilePicSmall: Option<Picture>)

  datatype Participant = Participant(id: int, actor: Actor)

  /** The first entry of the thread information the source returns. */
  datatype ThreadInfo = ThreadInfo(threadKeyId: Option<int>, name: Option<string>, participants: seq<Participant>)

  /** A Python `or` over an optional string: the value when present and non-empty. */
  predicate Truthy(s: Option<string>)
  {
    s.Some? && s.value != ""
  }

  /**
   * The channel that is archived: the id the thread information names, which
   * may differ from the requested one; none when there is no information or
   * it names no id.
   */
  function ResolveChannel(requested: int, info: Option<ThreadInfo>): (r: Option<int>)
    ensures info.None? ==> r.None?
    ensures info.Some? ==> r == info.value.threadKeyId
  {
    if info.None? then None
    else if info.value.threadKeyId != Some(requested) then info.value.threadKeyId
    else Some(requested)
  }

  /** The stored channel name: the thread's name, or "No name" when it has none. */
  function ChannelName(name: Option<string>): (r: string)
    ensures r != ""
    ensures Truthy(name) ==> r == name.value
    ensures !Truthy(name) ==> r == "No name"
  {
    if Truthy(name) then name.value else "No name"
  }

  /**
   * A participant's name: the structured name when there is one (even an
   * empty one), else the first non-empty of nickname and username, else the
   * placeholder.
   */
  function ParticipantName(a: Actor): (r: string)
    ensures a.structuredName.Some? ==> r == a.structuredName.value
    ensures a.structuredName.None? && Truthy(a.nicknameForViewer) ==> r == a.nicknameForViewer.value
    ensures a.structuredName.None? && !Truthy(a.nicknameForViewer) && Truthy(a.username) ==> r == a.username.value
    ensures a.structuredName.None? && !Truthy(a.nicknameForViewer) && !Truthy(a.username) ==> r == "Facebook user"
    ensures a.structuredName.None? ==> r != ""
  {
    if a.structuredName.Some? then a.structuredName.value
    else if Truthy(a.nicknameForViewer) then a.nicknameForViewer.value
    else if Truthy(a.username) then a.username.value
    else "Facebook user"
  }

  /** The largest profile picture the actor has. */
  function ProfilePicture(a: Actor): Option<Picture>
  {
    if a.profilePicLarge.Some? then a.profilePicLarge
    else if a.profilePicMedium.Some? then a.profilePicMedium
    else a.profilePicSmall
  }

  /** The decimal digits of a natural number. */
  function Decimal(n: nat): (s: string)
    ensures |s| > 0
    decreases n
  {
    var d := ['0', '1', '2', '3', '4', '5', '6', '7', '8', '9'][n % 10];
    if n < 10 then [d] else Decimal(n / 10) + [d]
  }

  /** How an int renders in an f-string. */
  function IntText(n: int): string
  {
    if n < 0 then "-" + Decimal(-n) else Decimal(n)
  }

  /**
   * `user_data_worker`: the row of one participant. The avatar is the
   * re-hosted URL of its largest profile picture, fetched only when upload
   * targets are configured; `rehost` is the outcome of that re-upload.
   */
  function ParticipantRow(p: Participant, webhooksConfigured: bool, rehost: RehostRequest -> Option<Hosted>): (r: UserRow)
    ensures r.id == p.id && r.name == ParticipantName(p.actor)
    ensures r.avatar.Some? <==>
              webhooksConfigured && ProfilePicture(p.actor).Some?
              && rehost(RehostRequest(ProfilePicture(p.actor).value.uri, "profile_picture-" + IntText(p.id) + ".jpg", "unknown")).Some?
    ensures r.avatar.Some? ==>
              r.avatar.value
              == rehost(RehostRequest(ProfilePicture(p.actor).value.uri, "profile_picture-" + IntText(p.id) + ".jpg", "unknown")).value.url
  {
    var pic := ProfilePicture(p.actor);
    var avatar :=
      if pic.Some? && webhooksConfigured then
        var hosted := rehost(RehostRequest(pic.value.uri, "profile_picture-" + IntText(p.id) + ".jpg", "unknown"));
        if hosted.Some? then Some(hosted.value.url) else None
      else None;
    UserRow(p.id, ParticipantName(p.actor), avatar)
  }

  /** The rows of all participants, in order. */
  function ParticipantRows(ps: seq<Participant>, webhooksConfigured: bool, rehost: RehostRequest -> Option<Hosted>): (rows: seq<UserRow>)
    ensures |rows| == |ps|
    ensures forall i :: 0 <= i < |ps| ==> rows[i] == ParticipantRow(ps[i], webhooksConfigured, rehost)
  {
    seq(|ps|, i requires 0 <= i < |ps| => ParticipantRow(ps[i], webhooksConfigured, rehost))
  }

  /**
   * The setup of one channel up to the backfill: resolve the channel id,
   * upsert the channel row, then upsert every participant. Returns the
   * channel id, or none when the channel is skipped, in which case the
   * store is not touched.
   */
  method SetUpChannel(store: Store.Store, requested: int, info: Option<ThreadInfo>,
                      webhooksConfigured: bool, rehost: RehostRequest -> Option<Hosted>)
    returns (channel: Option<int>)
    modifies store
    ensures channel == ResolveChannel(requested, info)
    ensures channel.None? ==> store.Contents() == old(store.Contents())
    ensures channel.Some? ==>
              store.Contents()
              == old(store.Contents()).(
                   channels := old(store.channels)[channel.value := ChannelName(info.value.name)],
                   users := Store.MergeParticipants(old(store.users), ParticipantRows(info.value.participants, webhooksConfigured, rehost)))
    ensures store.messagesPersisted == old(store.messagesPersisted)
  {
    channel := ResolveChannel(requested, info);
    if channel.None? {
      return;
    }
    var thread := info.value;
    store.UpsertChannel(channel.value, ChannelName(thread.name));
    var rows := ParticipantRows(thread.participants, webhooksConfigured, rehost);
    store.UpsertParticipants(rows);
  }

  /** The number of attachment workers for `cpuCount` cores (3 when the count is unknown or 0). */
  function PoolSize(cpuCount: Option<int>): (r: int)
    ensures r >= 1
    ensures var n := if cpuCount.None? || cpuCount.value == 0 then 3 else cpuCount.value;
            && (n <= 4 ==> r == 1)
            && (n >= 3 ==> 2 * r <= n - 1 < 2 * r + 2)
  {
    var n := if cpuCount.None? || cpuCount.value == 0 then 3 else cpuCount.value;
    (if n - 1 > 2 then n - 1 else 2) / 2
  }
}
