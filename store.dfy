/**
 * The store and its only writer. `db_worker` applies a write-batch table by
 * table; the channel and participant upserts of the per-channel setup are the
 * two other writes. Tables are maps from their key to the stored row.
 */
module Store {
  import opened Wrappers
  import opened Records
  import opened Normalize

  // ---------------------------------------------------------------------------
  // Conflict policies, as functions on one table
  // ---------------------------------------------------------------------------

  /** `INSERT … ON CONFLICT DO NOTHING` for each row in turn. */
  function InsertAll<K(==), R>(m: map<K, R>, rows: seq<R>, key: R -> K): map<K, R>
    decreases |rows|
  {
    if rows == [] then m
    else
      var prev := InsertAll(m, rows[..|rows| - 1], key);
      var row := rows[|rows| - 1];
      if key(row) in prev then prev else prev[key(row) := row]
  }

  /** `INSERT … ON CONFLICT DO UPDATE` overwriting the whole non-key part, for each row in turn. */
  function UpsertAll<K(==), R>(m: map<K, R>, rows: seq<R>, key: R -> K): map<K, R>
    decreases |rows|
  {
    if rows == [] then m
    else UpsertAll(m, rows[..|rows| - 1], key)[key(rows[|rows| - 1]) := rows[|rows| - 1]]
  }

  /** `rows[i]` is the first row with its key. */
  predicate FirstWithKey<K(==), R>(rows: seq<R>, key: R -> K, i: int)
    requires 0 <= i < |rows|
  {
    forall j :: 0 <= j < i ==> key(rows[j]) != key(rows[i])
  }

  /** `rows[i]` is the last row with its key. */
  predicate LastWithKey<K(==), R>(rows: seq<R>, key: R -> K, i: int)
    requires 0 <= i < |rows|
  {
    forall j :: i < j < |rows| ==> key(rows[j]) != key(rows[i])
  }

  /** Insert-if-absent never modifies a stored row and stores every key of the rows. */
  lemma {:induction false} InsertAllKeeps<K, R>(m: map<K, R>, rows: seq<R>, key: R -> K)
    ensures var r := InsertAll(m, rows, key);
            && (forall k :: k in m ==> k in r && r[k] == m[k])
            && (forall i :: 0 <= i < |rows| ==> key(rows[i]) in r)
    decreases |rows|
  {
    if rows != [] {
      InsertAllKeeps(m, rows[..|rows| - 1], key);
    }
  }

  /** Insert-if-absent adds no key other than those of the rows. */
  lemma {:induction false} InsertAllOnlyRows<K, R>(m: map<K, R>, rows: seq<R>, key: R -> K)
    ensures forall k :: k in InsertAll(m, rows, key) ==> k in m || exists i :: 0 <= i < |rows| && key(rows[i]) == k
    decreases |rows|
  {
    if rows != [] {
      var init := rows[..|rows| - 1];
      InsertAllOnlyRows(m, init, key);
      forall k | k in InsertAll(m, rows, key)
        ensures k in m || exists i :: 0 <= i < |rows| && key(rows[i]) == k
      {
        if k !in m && k != key(rows[|rows| - 1]) {
          var i :| 0 <= i < |init| && key(init[i]) == k;
          assert key(rows[i]) == k;
        }
      }
    }
  }

  /** A last row whose key is neither stored nor carried by an earlier row is stored as it is. */
  lemma InsertAllNewLast<K, R>(m: map<K, R>, rows: seq<R>, key: R -> K)
    requires rows != [] && key(rows[|rows| - 1]) !in m && FirstWithKey(rows, key, |rows| - 1)
    ensures key(rows[|rows| - 1]) in InsertAll(m, rows, key)
    ensures InsertAll(m, rows, key)[key(rows[|rows| - 1])] == rows[|rows| - 1]
  {
    var init, n := rows[..|rows| - 1], |rows| - 1;
    InsertAllOnlyRows(m, init, key);
    forall j | 0 <= j < |init| ensures key(init[j]) != key(rows[n]) {
      assert init[j] == rows[j];
    }
    assert key(rows[n]) !in InsertAll(m, init, key);
  }

  /** A key that was not stored gets the first row that carries it. */
  lemma {:induction false} InsertAllFirst<K, R>(m: map<K, R>, rows: seq<R>, key: R -> K)
    ensures forall i :: 0 <= i < |rows| && key(rows[i]) !in m && FirstWithKey(rows, key, i) ==>
              key(rows[i]) in InsertAll(m, rows, key) && InsertAll(m, rows, key)[key(rows[i])] == rows[i]
    decreases |rows|
  {
    if rows != [] {
      var init, n := rows[..|rows| - 1], |rows| - 1;
      InsertAllFirst(m, init, key);
      var prev, last := InsertAll(m, init, key), rows[n];
      assert InsertAll(m, rows, key) == if key(last) in prev then prev else prev[key(last) := last];
      forall i | 0 <= i < |rows| && key(rows[i]) !in m && FirstWithKey(rows, key, i)
        ensures key(rows[i]) in InsertAll(m, rows, key) && InsertAll(m, rows, key)[key(rows[i])] == rows[i]
      {
        if i < n {
          assert init[i] == rows[i];
          assert FirstWithKey(init, key, i);
          assert key(rows[i]) in prev && prev[key(rows[i])] == rows[i];
        } else {
          InsertAllNewLast(m, rows, key);
        }
      }
    }
  }

  /**
   * Insert-if-absent never modifies a stored row, adds exactly the keys of
   * the rows, and a new key gets the first row that carries it.
   */
  lemma InsertAllMeaning<K, R>(m: map<K, R>, rows: seq<R>, key: R -> K)
    ensures var r := InsertAll(m, rows, key);
            && (forall k :: k in m ==> k in r && r[k] == m[k])
            && (forall i :: 0 <= i < |rows| ==> key(rows[i]) in r)
            && (forall k :: k in r ==> k in m || exists i :: 0 <= i < |rows| && key(rows[i]) == k)
            && (forall i :: 0 <= i < |rows| && key(rows[i]) !in m && FirstWithKey(rows, key, i) ==>
                  r[key(rows[i])] == rows[i])
  {
    InsertAllKeeps(m, rows, key);
    InsertAllOnlyRows(m, rows, key);
    InsertAllFirst(m, rows, key);
  }

  /** Inserting rows whose keys are all stored already changes nothing. */
  lemma {:induction false} InsertAllPresent<K, R>(m: map<K, R>, rows: seq<R>, key: R -> K)
    requires forall i :: 0 <= i < |rows| ==> key(rows[i]) in m
    ensures InsertAll(m, rows, key) == m
    decreases |rows|
  {
    if rows != [] {
      InsertAllPresent(m, rows[..|rows| - 1], key);
    }
  }

  /** Inserting the same rows a second time changes nothing. */
  lemma InsertAllIdempotent<K, R>(m: map<K, R>, rows: seq<R>, key: R -> K)
    ensures InsertAll(InsertAll(m, rows, key), rows, key) == InsertAll(m, rows, key)
  {
    InsertAllMeaning(m, rows, key);
    InsertAllPresent(InsertAll(m, rows, key), rows, key);
  }

  /** An upsert stores, for every key of the rows, the last row with that key. */
  lemma {:induction false} UpsertAllLast<K, R>(m: map<K, R>, rows: seq<R>, key: R -> K)
    ensures forall i :: 0 <= i < |rows| && LastWithKey(rows, key, i) ==>
              key(rows[i]) in UpsertAll(m, rows, key) && UpsertAll(m, rows, key)[key(rows[i])] == rows[i]
    decreases |rows|
  {
    if rows != [] {
      var init := rows[..|rows| - 1];
      UpsertAllLast(m, init, key);
      forall i | 0 <= i < |rows| - 1 && LastWithKey(rows, key, i)
        ensures key(rows[i]) in UpsertAll(m, rows, key) && UpsertAll(m, rows, key)[key(rows[i])] == rows[i]
      {
        assert init[i] == rows[i];
        assert LastWithKey(init, key, i);
      }
    }
  }

  /** An upsert leaves the keys the rows do not carry as they were, and adds no other key. */
  lemma {:induction false} UpsertAllOthers<K, R>(m: map<K, R>, rows: seq<R>, key: R -> K)
    ensures var r := UpsertAll(m, rows, key);
            && (forall k :: k in m && (forall i :: 0 <= i < |rows| ==> key(rows[i]) != k) ==>
                  k in r && r[k] == m[k])
            && (forall k :: k in r ==> k in m || exists i :: 0 <= i < |rows| && key(rows[i]) == k)
    decreases |rows|
  {
    if rows != [] {
      var init := rows[..|rows| - 1];
      UpsertAllOthers(m, init, key);
      var r := UpsertAll(m, rows, key);
      forall k | k in m && (forall i :: 0 <= i < |rows| ==> key(rows[i]) != k)
        ensures k in r && r[k] == m[k]
      {
        forall i | 0 <= i < |init| ensures key(init[i]) != k {
          assert init[i] == rows[i];
        }
        assert key(rows[|rows| - 1]) != k;
      }
      forall k | k in r
        ensures k in m || exists i :: 0 <= i < |rows| && key(rows[i]) == k
      {
        if k !in m && k != key(rows[|rows| - 1]) {
          var i :| 0 <= i < |init| && key(init[i]) == k;
          assert key(rows[i]) == k;
        }
      }
    }
  }

  /**
   * An upsert stores, for every key of the rows, the last row with that key,
   * whatever was stored before; other keys keep their rows.
   */
  lemma UpsertAllMeaning<K, R>(m: map<K, R>, rows: seq<R>, key: R -> K)
    ensures var r := UpsertAll(m, rows, key);
            && (forall i :: 0 <= i < |rows| && LastWithKey(rows, key, i) ==>
                  key(rows[i]) in r && r[key(rows[i])] == rows[i])
            && (forall k :: k in m && (forall i :: 0 <= i < |rows| ==> key(rows[i]) != k) ==>
                  k in r && r[k] == m[k])
            && (forall k :: k in r ==> k in m || exists i :: 0 <= i < |rows| && key(rows[i]) == k)
  {
    UpsertAllLast(m, rows, key);
    UpsertAllOthers(m, rows, key);
  }

  /** Every key of the rows has a last row. */
  lemma LastRowExists<K, R>(rows: seq<R>, key: R -> K, i: int)
    requires 0 <= i < |rows|
    ensures exists j :: i <= j < |rows| && key(rows[j]) == key(rows[i]) && LastWithKey(rows, key, j)
    decreases |rows| - i
  {
    if !LastWithKey(rows, key, i) {
      var j :| i < j < |rows| && key(rows[j]) == key(rows[i]);
      LastRowExists(rows, key, j);
    }
  }

  /** Upserting into a table is laying the table of the rows alone over it. */
  lemma {:induction false} UpsertAllOverlay<K, R>(m: map<K, R>, rows: seq<R>, key: R -> K)
    ensures UpsertAll(m, rows, key) == m + UpsertAll(map[], rows, key)
    decreases |rows|
  {
    if rows != [] {
      var init, last := rows[..|rows| - 1], rows[|rows| - 1];
      UpsertAllOverlay(m, init, key);
      var u := UpsertAll(map[], init, key);
      assert (m + u)[key(last) := last] == m + u[key(last) := last];
    }
  }

  /** Upserting the same rows a second time changes nothing. */
  lemma UpsertAllIdempotent<K, R>(m: map<K, R>, rows: seq<R>, key: R -> K)
    ensures UpsertAll(UpsertAll(m, rows, key), rows, key) == UpsertAll(m, rows, key)
  {
    var u := UpsertAll(map[], rows, key);
    UpsertAllOverlay(m, rows, key);
    UpsertAllOverlay(m + u, rows, key);
    assert (m + u) + u == m + u;
  }

  // ---------------------------------------------------------------------------
  // The tables and one write-batch
  // ---------------------------------------------------------------------------

  function UserKey(u: UserRow): int { u.id }
  function MessageKey(m: MessageRow): string { m.id }
  function ReplyKey(r: ReplyRow): string { r.messageId }
  function AttachmentKey(a: AttachmentRow): string { a.id }
  function ReactionKey(r: ReactionRow): (string, string) { (r.messageId, r.emoji) }

  /** The contents of the six tables. */
  datatype Tables = Tables(
    channels: map<int, string>,
    users: map<int, UserRow>,
    messages: map<string, MessageRow>,
    repliedTo: map<string, ReplyRow>,
    attachments: map<string, AttachmentRow>,
    reactions: map<(string, string), ReactionRow>)

  /** The tables after `db_worker` has applied one batch and committed. */
  function Applied(t: Tables, b: Batch): Tables
  {
    Tables(
      t.channels,
      InsertAll(t.users, OptRows(b.users), UserKey),
      InsertAll(t.messages, OptRow(b.message), MessageKey),
      InsertAll(t.repliedTo, OptRow(b.repliedTo), ReplyKey),
      InsertAll(t.attachments, OptRows(b.attachments), AttachmentKey),
      UpsertAll(t.reactions, OptRows(b.reactions), ReactionKey))
  }

  /** Applying the same batch twice leaves the same tables as applying it once. */
  lemma AppliedIdempotent(t: Tables, b: Batch)
    ensures Applied(Applied(t, b), b) == Applied(t, b)
  {
    InsertAllIdempotent(t.users, OptRows(b.users), UserKey);
    InsertAllIdempotent(t.messages, OptRow(b.message), MessageKey);
    InsertAllIdempotent(t.repliedTo, OptRow(b.repliedTo), ReplyKey);
    InsertAllIdempotent(t.attachments, OptRows(b.attachments), AttachmentKey);
    UpsertAllIdempotent(t.reactions, OptRows(b.reactions), ReactionKey);
  }

  /**
   * Stored user, message, reply and attachment rows are never modified, the
   * channel table is never touched, and a table whose section is absent
   * from the batch is left as it was.
   */
  lemma AppliedKeepsRows(t: Tables, b: Batch)
    ensures var a := Applied(t, b);
            && a.channels == t.channels
            && (forall k :: k in t.users ==> k in a.users && a.users[k] == t.users[k])
            && (forall k :: k in t.messages ==> k in a.messages && a.messages[k] == t.messages[k])
            && (forall k :: k in t.repliedTo ==> k in a.repliedTo && a.repliedTo[k] == t.repliedTo[k])
            && (forall k :: k in t.attachments ==> k in a.attachments && a.attachments[k] == t.attachments[k])
            && (forall k :: k in t.reactions ==> k in a.reactions)
            && (b.users.None? ==> a.users == t.users)
            && (b.message.None? ==> a.messages == t.messages)
            && (b.repliedTo.None? ==> a.repliedTo == t.repliedTo)
            && (b.attachments.None? ==> a.attachments == t.attachments)
            && (b.reactions.None? ==> a.reactions == t.reactions)
  {
    InsertAllMeaning(t.users, OptRows(b.users), UserKey);
    InsertAllMeaning(t.messages, OptRow(b.message), MessageKey);
    InsertAllMeaning(t.repliedTo, OptRow(b.repliedTo), ReplyKey);
    InsertAllMeaning(t.attachments, OptRows(b.attachments), AttachmentKey);
    var a := Applied(t, b);
    forall k | k in t.reactions
      ensures k in a.reactions
    {
      UpsertAllMeaning(t.reactions, OptRows(b.reactions), ReactionKey);
      if exists i :: 0 <= i < |OptRows(b.reactions)| && ReactionKey(OptRows(b.reactions)[i]) == k {
        var i :| 0 <= i < |OptRows(b.reactions)| && ReactionKey(OptRows(b.reactions)[i]) == k;
        LastRowExists(OptRows(b.reactions), ReactionKey, i);
      }
    }
  }

  /** After the batch, a reaction's stored count is the count of the batch's last row for it. */
  lemma AppliedReactionCount(t: Tables, b: Batch, i: int)
    requires b.reactions.Some? && 0 <= i < |b.reactions.value|
    requires LastWithKey(b.reactions.value, ReactionKey, i)
    ensures var row := b.reactions.value[i];
            var a := Applied(t, b);
            (row.messageId, row.emoji) in a.reactions
            && a.reactions[(row.messageId, row.emoji)].count == row.count
  {
    UpsertAllMeaning(t.reactions, b.reactions.value, ReactionKey);
  }

  /** A new message row is stored exactly when its id was not stored before. */
  lemma AppliedNewMessage(t: Tables, b: Batch)
    requires b.message.Some?
    ensures var a := Applied(t, b);
            var row := b.message.value;
            row.id in a.messages
            && (a.messages[row.id] == row <==> row.id !in t.messages || t.messages[row.id] == row)
  {
    InsertAllMeaning(t.messages, OptRow(b.message), MessageKey);
    assert FirstWithKey([b.message.value], MessageKey, 0);
  }

  /** `executemany` of an insert-if-absent statement: the table afterwards. */
  method ExecuteInsert<K(==), R>(m: map<K, R>, rows: seq<R>, key: R -> K) returns (r: map<K, R>)
    ensures r == InsertAll(m, rows, key)
  {
    r := m;
    var i := 0;
    while i < |rows|
      invariant 0 <= i <= |rows|
      invariant r == InsertAll(m, rows[..i], key)
    {
      assert rows[..i + 1][..i] == rows[..i];
      if key(rows[i]) !in r {
        r := r[key(rows[i]) := rows[i]];
      }
      i := i + 1;
    }
    assert rows[..|rows|] == rows;
  }

  /** `executemany` of an upsert statement: the table afterwards. */
  method ExecuteUpsert<K(==), R>(m: map<K, R>, rows: seq<R>, key: R -> K) returns (r: map<K, R>)
    ensures r == UpsertAll(m, rows, key)
  {
    r := m;
    var i := 0;
    while i < |rows|
      invariant 0 <= i <= |rows|
      invariant r == UpsertAll(m, rows[..i], key)
    {
      assert rows[..i + 1][..i] == rows[..i];
      r := r[key(rows[i]) := rows[i]];
      i := i + 1;
    }
    assert rows[..|rows|] == rows;
  }

  /** A single-row section as a section of at most one row. */
  function OptSection<R>(row: Option<R>): (rows: Option<seq<R>>)
    ensures OptRows(rows) == OptRow(row)
  {
    if row.Some? then Some([row.value]) else None
  }

  /** `if batch.get(section): executemany(insert-if-absent, …)`. */
  method InsertSection<K(==), R>(m: map<K, R>, rows: Option<seq<R>>, key: R -> K) returns (r: map<K, R>)
    ensures r == InsertAll(m, OptRows(rows), key)
  {
    r := m;
    if rows.Some? {
      r := ExecuteInsert(m, rows.value, key);
    }
  }

  /** `if batch.get(section): executemany(upsert, …)`. */
  method UpsertSection<K(==), R>(m: map<K, R>, rows: Option<seq<R>>, key: R -> K) returns (r: map<K, R>)
    ensures r == UpsertAll(m, OptRows(rows), key)
  {
    r := m;
    if rows.Some? {
      r := ExecuteUpsert(m, rows.value, key);
    }
  }

  /** The writes of one batch, section by section, inside its transaction. */
  method Transaction(t: Tables, b: Batch) returns (r: Tables)
    ensures r == Applied(t, b)
  {
    var users := InsertSection(t.users, b.users, UserKey);
    var messages := InsertSection(t.messages, OptSection(b.message), MessageKey);
    var repliedTo := InsertSection(t.repliedTo, OptSection(b.repliedTo), ReplyKey);
    var attachments := InsertSection(t.attachments, b.attachments, AttachmentKey);
    var reactions := UpsertSection(t.reactions, b.reactions, ReactionKey);
    r := Tables(t.channels, users, messages, repliedTo, attachments, reactions);
  }

  /**
   * Reactions are grouped by adjacent runs, and the upsert keeps the last
   * run's count: a message whose reactions are `a, c, a` ends up with a
   * stored count of 1 for `a`, although `a` was given twice.
   */
  lemma SplitRunLosesCount(t: Tables, m: Message, threadId: int, render: string -> string, a: string, c: string)
    requires a != c && m.reactions == [a, c, a]
    ensures var stored := Applied(t, ConvertMessage(m, threadId, render)).reactions;
            (m.id, a) in stored && stored[(m.id, a)].count == 1
  {
    var b := ConvertMessage(m, threadId, render);
    assert ReactionRows(m.id, [a]) == [ReactionRow(m.id, a, 1)];
    assert [c, a][1..] == [a];
    assert ReactionRows(m.id, [c, a]) == [ReactionRow(m.id, c, 1), ReactionRow(m.id, a, 1)];
    assert [a, c, a][1..] == [c, a];
    var rows := b.reactions.value;
    assert rows == [ReactionRow(m.id, a, 1), ReactionRow(m.id, c, 1), ReactionRow(m.id, a, 1)];
    assert LastWithKey(rows, ReactionKey, 2);
    AppliedReactionCount(t, b, 2);
  }

  // ---------------------------------------------------------------------------
  // The per-channel setup upserts
  // ---------------------------------------------------------------------------

  /**
   * The participant upsert: the name is overwritten, and the avatar becomes
   * the new one only when that is not null (`coalesce(excluded.avatar_url, avatar_url)`).
   */
  function MergeParticipants(m: map<int, UserRow>, rows: seq<UserRow>): map<int, UserRow>
    decreases |rows|
  {
    if rows == [] then m
    else
      var prev := MergeParticipants(m, rows[..|rows| - 1]);
      var row := rows[|rows| - 1];
      if row.id in prev && row.avatar.None? then prev[row.id := row.(avatar := prev[row.id].avatar)]
      else prev[row.id := row]
  }

  /**
   * The avatar user `k` ends up with: the last non-null avatar given for it,
   * else the one it had, else none.
   */
  function LastAvatar(m: map<int, UserRow>, rows: seq<UserRow>, k: int): Option<string>
    decreases |rows|
  {
    if rows == [] then (if k in m then m[k].avatar else None)
    else if rows[|rows| - 1].id == k && rows[|rows| - 1].avatar.Some? then rows[|rows| - 1].avatar
    else LastAvatar(m, rows[..|rows| - 1], k)
  }

  /** `coalesce(excluded.avatar_url, avatar_url)`: every stored user holds the last non-null avatar given, else the one it had. */
  lemma {:induction false} MergeParticipantsAvatar(m: map<int, UserRow>, rows: seq<UserRow>)
    ensures var r := MergeParticipants(m, rows);
            && (forall k :: k in r ==> r[k].avatar == LastAvatar(m, rows, k))
            && (forall k :: k !in r ==> LastAvatar(m, rows, k).None?)
    decreases |rows|
  {
    if rows != [] {
      var init, row := rows[..|rows| - 1], rows[|rows| - 1];
      MergeParticipantsAvatar(m, init);
      var prev, r := MergeParticipants(m, init), MergeParticipants(m, rows);
      forall k | k in r ensures r[k].avatar == LastAvatar(m, rows, k) {
        if k != row.id {
          assert r[k] == prev[k];
        }
      }
    }
  }

  /**
   * After the participant upsert: every user stays, every participant is
   * stored, its name is the last one given, a non-null avatar given last wins,
   * and an avatar that was set never goes back to null.
   */
  lemma {:induction false} MergeParticipantsMeaning(m: map<int, UserRow>, rows: seq<UserRow>)
    ensures var r := MergeParticipants(m, rows);
            && m.Keys <= r.Keys
            && (forall k :: k in r ==> r[k].id == k || (k in m && r[k] == m[k]))
            && (forall k :: k in m && m[k].avatar.Some? ==> r[k].avatar.Some?)
            && (forall k :: k in m && (forall i :: 0 <= i < |rows| ==> rows[i].id != k) ==> r[k] == m[k])
            && (forall i :: 0 <= i < |rows| && LastWithKey(rows, UserKey, i) ==>
                  && rows[i].id in r
                  && r[rows[i].id].name == rows[i].name
                  && (rows[i].avatar.Some? ==> r[rows[i].id].avatar == rows[i].avatar))
            && (forall k :: k in r ==> r[k].avatar == LastAvatar(m, rows, k))
    decreases |rows|
  {
    MergeParticipantsAvatar(m, rows);
    if rows != [] {
      var init := rows[..|rows| - 1];
      MergeParticipantsMeaning(m, init);
      forall i | 0 <= i < |init| && LastWithKey(rows, UserKey, i)
        ensures LastWithKey(init, UserKey, i)
      {
      }
    }
  }

  /** The store of one archive run: its tables and the messages-persisted progress counter. */
  class Store {
    var channels: map<int, string>
    var users: map<int, UserRow>
    var messages: map<string, MessageRow>
    var repliedTo: map<string, ReplyRow>
    var attachments: map<string, AttachmentRow>
    var reactions: map<(string, string), ReactionRow>
    var messagesPersisted: nat

    function Contents(): Tables
      reads this
    {
      Tables(channels, users, messages, repliedTo, attachments, reactions)
    }

    constructor ()
      ensures Contents() == Tables(map[], map[], map[], map[], map[], map[])
      ensures messagesPersisted == 0
    {
      channels, users, messages, repliedTo, attachments, reactions := map[], map[], map[], map[], map[], map[];
      messagesPersisted := 0;
    }

    /**
     * `db_worker` handling one queue item: users, message, reply edge and
     * attachments are inserted if absent, reactions are upserted, and the
     * progress counter moves only for a batch that carries a message.
     */
    method ApplyBatch(b: Batch)
      modifies this
      ensures Contents() == Applied(old(Contents()), b)
      ensures messagesPersisted == old(messagesPersisted) + (if b.message.Some? then 1 else 0)
    {
      // The transaction: every section is written, then all take effect at the commit.
      var next := Transaction(Contents(), b);
      users, messages, repliedTo, attachments, reactions := next.users, next.messages, next.repliedTo, next.attachments, next.reactions;
      if b.message.Some? {
        messagesPersisted := messagesPersisted + 1;
      }
    }

    /** The channel upsert: the row for `id` now holds `name`; nothing else changes. */
    method UpsertChannel(id: int, name: string)
      modifies this
      ensures Contents() == old(Contents()).(channels := old(channels)[id := name])
      ensures messagesPersisted == old(messagesPersisted)
    {
      channels := channels[id := name];
    }

    /** The participant upsert over all participant rows; only the users table changes. */
    method UpsertParticipants(rows: seq<UserRow>)
      modifies this
      ensures Contents() == old(Contents()).(users := MergeParticipants(old(users), rows))
      ensures messagesPersisted == old(messagesPersisted)
    {
      var users' := users;
      var i := 0;
      while i < |rows|
        invariant 0 <= i <= |rows|
        invariant users' == MergeParticipants(users, rows[..i])
      {
        assert rows[..i + 1][..i] == rows[..i];
        var row := rows[i];
        if row.id in users' && row.avatar.None? {
          users' := users'[row.id := row.(avatar := users'[row.id].avatar)];
        } else {
          users' := users'[row.id := row];
        }
        i := i + 1;
      }
      assert rows[..|rows|] == rows;
      users := users';
    }
  }
}
