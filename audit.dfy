/**
 * The two audit logs: `deleted_db.sqlite` records deleted messages and
 * `edited_db.sqlite` records edits. Each has its own `users` and `servers`
 * tables and one table of records, whose attachment columns hold cache
 * filenames joined with ", ".
 */
module Audit {
  import opened Wrappers
  import opened Strings
  import opened Naming
  import opened Cache

  /** A Discord identifier. */
  type Snowflake = nat

  datatype User = User(id: Snowflake, name: string, discriminator: string, avatarUrl: string)

  datatype Server = Server(id: Snowflake, name: string)

  /** A message as an event delivers it, with its attachments' URLs in order. */
  datatype Message = Message(
    id: Snowflake,
    content: string,
    author: User,
    guild: Server,
    channelId: Snowflake,
    attachments: seq<Url>)

  /** A row of a `users` table, keyed by the user id. */
  datatype UserRow = UserRow(username: string, discriminator: string, profilePic: string)

  /** A row of `deleted_messages`; the `entry_id` is its position in the table, from 1. */
  datatype DeletedRow = DeletedRow(
    id: Snowflake,
    content: string,
    authorId: Snowflake,
    serverId: Snowflake,
    channelId: Snowflake,
    timestamp: string,
    attachments: string)

  /** A row of `edited_messages`; the `entry_id` is its position in the table, from 1. */
  datatype EditedRow = EditedRow(
    id: Snowflake,
    oldContent: string,
    newContent: string,
    editTimestamp: string,
    authorId: Snowflake,
    serverId: Snowflake,
    channelId: Snowflake,
    attachments: string,
    attachmentRemoved: string)

  const AttachmentSeparator: string := ", "

  /** The URLs of a list of attachments, as a Python set comprehension. */
  function UrlSet(urls: seq<Url>): set<Url> {
    set u | u in urls
  }

  /** `old_attachment_urls - new_attachment_urls`: the URLs an edit took away. */
  function RemovedUrls(before: seq<Url>, after: seq<Url>): (removed: set<Url>)
    ensures forall u :: u in removed <==> u in before && u !in after
  {
    UrlSet(before) - UrlSet(after)
  }

  /** A list has at least as many entries as it has distinct URLs. */
  lemma {:induction false} UrlSetSize(urls: seq<Url>)
    ensures |UrlSet(urls)| <= |urls|
    decreases |urls|
  {
    if |urls| > 0 {
      var n := |urls| - 1;
      UrlSetSize(urls[..n]);
      assert UrlSet(urls) == UrlSet(urls[..n]) + {urls[n]} by {
        assert urls == urls[..n] + [urls[n]];
      }
    }
  }

  /** An edit removes at most as many attachments as the message had. */
  lemma RemovedUrlsSize(before: seq<Url>, after: seq<Url>)
    ensures |RemovedUrls(before, after)| <= |before|
  {
    UrlSetSize(before);
    assert RemovedUrls(before, after) <= UrlSet(before);
  }

  /**
   * Any order in which the removed set may be iterated lists each removed URL
   * exactly once, and nothing else.
   */
  lemma RemovedOrderEnumerates(before: seq<Url>, after: seq<Url>, order: seq<Url>)
    requires multiset(order) == multiset(RemovedUrls(before, after))
    ensures forall u :: u in order <==> u in before && u !in after
    ensures |order| == |RemovedUrls(before, after)|
    ensures forall i, j :: 0 <= i < j < |order| ==> order[i] != order[j]
  {
    var removed := RemovedUrls(before, after);
    forall u
      ensures u in order <==> u in before && u !in after
    {
      assert u in order <==> u in multiset(order);
      assert u in removed <==> u in multiset(removed);
    }
    assert |order| == |multiset(order)| == |multiset(removed)| == |removed|;
    forall i, j | 0 <= i < j < |order|
      ensures order[i] != order[j]
    {
      assert order == order[..j] + order[j..];
      assert multiset(order) == multiset(order[..j]) + multiset(order[j..]);
      assert order[i] in order[..j] && order[j] in order[j..];
      assert multiset(order)[order[j]] <= 1 by {
        assert multiset(removed)[order[j]] <= 1;
      }
    }
  }

  /** The filenames of the successful downloads, in order: the `attachments` list of `save_deleted_message`. */
  function Successes(refs: seq<Option<Filename>>): (names: seq<Filename>)
    ensures |names| <= |refs|
    decreases |refs|
  {
    if |refs| == 0 then []
    else
      var n := |refs| - 1;
      Successes(refs[..n]) + (if refs[n].Some? then [refs[n].value] else [])
  }

  /** A download appended to the list adds its name, if it has one. */
  lemma SuccessesSnoc(refs: seq<Option<Filename>>, r: Option<Filename>)
    ensures Successes(refs + [r]) == Successes(refs) + (if r.Some? then [r.value] else [])
  {
    assert (refs + [r])[..|refs|] == refs;
  }

  /** Every kept name is the result of one of the downloads. */
  lemma {:induction false} SuccessesAreResults(refs: seq<Option<Filename>>)
    ensures forall j :: 0 <= j < |Successes(refs)| ==> Some(Successes(refs)[j]) in refs
    decreases |refs|
  {
    if |refs| > 0 {
      var n := |refs| - 1;
      SuccessesAreResults(refs[..n]);
      assert forall r :: r in refs[..n] ==> r in refs;
    }
  }

  /** The positions whose download returned a name. */
  function Resolved(refs: seq<Option<Filename>>): set<nat> {
    set i: nat | i < |refs| && refs[i].Some?
  }

  /**
   * Every name a download returned is kept, and exactly one name is kept per
   * download that returned one.
   */
  lemma {:induction false} SuccessesKeepsResults(refs: seq<Option<Filename>>)
    ensures forall i :: 0 <= i < |refs| && refs[i].Some? ==> refs[i].value in Successes(refs)
    ensures |Successes(refs)| == |Resolved(refs)|
    decreases |refs|
  {
    if |refs| > 0 {
      var n := |refs| - 1;
      var front := refs[..n];
      SuccessesKeepsResults(front);
      assert Successes(refs) == Successes(front) + (if refs[n].Some? then [refs[n].value] else []);
      forall i | 0 <= i < |refs| && refs[i].Some?
        ensures refs[i].value in Successes(refs)
      {
        if i < n {
          assert front[i] == refs[i];
        }
      }
      assert n !in Resolved(front);
      assert Resolved(refs) == Resolved(front) + (if refs[n].Some? then {n} else {});
    }
  }

  predicate AllResolved(refs: seq<Option<Filename>>) {
    forall i :: 0 <= i < |refs| ==> refs[i].Some?
  }

  /** Keeping the successes of a concatenation keeps those of each part, in order. */
  lemma {:induction false} SuccessesOfConcat(xs: seq<Option<Filename>>, ys: seq<Option<Filename>>)
    ensures Successes(xs + ys) == Successes(xs) + Successes(ys)
    decreases |ys|
  {
    if |ys| == 0 {
      assert xs + ys == xs;
    } else {
      var n := |ys| - 1;
      SuccessesOfConcat(xs, ys[..n]);
      assert (xs + ys)[..|xs + ys| - 1] == xs + ys[..n];
      assert (xs + ys)[|xs + ys| - 1] == ys[n];
    }
  }

  /** With no failure, the successes are all the filenames, position by position. */
  lemma {:induction false} SuccessesOfAllResolved(refs: seq<Option<Filename>>)
    requires AllResolved(refs)
    ensures |Successes(refs)| == |refs|
    ensures forall i :: 0 <= i < |refs| ==> Successes(refs)[i] == refs[i].value
    decreases |refs|
  {
    if |refs| > 0 {
      SuccessesOfAllResolved(refs[..|refs| - 1]);
    }
  }

  /** There are no successes exactly when every download failed (or there were none). */
  lemma {:induction false} SuccessesEmpty(refs: seq<Option<Filename>>)
    ensures Successes(refs) == [] <==> forall i :: 0 <= i < |refs| ==> refs[i].None?
    decreases |refs|
  {
    if |refs| > 0 {
      SuccessesEmpty(refs[..|refs| - 1]);
    }
  }

  /**
   * `', '.join(results)` on a list that may hold `None`: Python raises a
   * `TypeError` (here `None`) unless every element is a filename.
   */
  function JoinResults(refs: seq<Option<Filename>>): (r: Option<string>)
    ensures r.Some? <==> AllResolved(refs)
    ensures r.Some? ==> r.value == Join(seq(|refs|, i requires 0 <= i < |refs| && refs[i].Some? => refs[i].value),
                                        AttachmentSeparator)
  {
    if AllResolved(refs) then
      SuccessesOfAllResolved(refs);
      assert Successes(refs) == seq(|refs|, i requires 0 <= i < |refs| && refs[i].Some? => refs[i].value);
      Some(Join(Successes(refs), AttachmentSeparator))
    else None
  }

  /**
   * The `attachments` column of a deletion record is empty exactly when no
   * attachment was stored, since a stored name is never empty.
   */
  lemma DeletionFieldEmpty(refs: seq<Option<Filename>>)
    requires forall i :: 0 <= i < |refs| && refs[i].Some? ==> IsCacheFilename(refs[i].value)
    ensures Join(Successes(refs), AttachmentSeparator) == "" <==> forall i :: 0 <= i < |refs| ==> refs[i].None?
  {
    var names := Successes(refs);
    JoinIsEmpty(names, AttachmentSeparator);
    SuccessesEmpty(refs);
    SuccessesAreResults(refs);
  }

  /**
   * The `attachments` column splits back into the stored names, provided
   * there is one and no name holds a comma (an extension may).
   */
  lemma DeletionFieldSplits(refs: seq<Option<Filename>>)
    requires Successes(refs) != []
    requires forall i :: 0 <= i < |refs| && refs[i].Some? ==> ',' !in refs[i].value
    ensures Split(Join(Successes(refs), AttachmentSeparator), AttachmentSeparator) == Successes(refs)
  {
    var names := Successes(refs);
    SuccessesAreResults(refs);
    SplitJoin(names, AttachmentSeparator);
  }

  /**
   * When every download succeeded, an edit record's attachment column holds
   * one name per attachment, in attachment order: it splits back into them
   * provided no name holds a comma.
   */
  lemma EditFieldSplits(refs: seq<Option<Filename>>)
    requires AllResolved(refs) && refs != []
    requires forall i :: 0 <= i < |refs| && refs[i].Some? ==> ',' !in refs[i].value
    ensures var names := Split(JoinResults(refs).value, AttachmentSeparator);
      && |names| == |refs|
      && forall i :: 0 <= i < |refs| ==> names[i] == refs[i].value
  {
    SuccessesOfAllResolved(refs);
    DeletionFieldSplits(refs);
  }

  /** One audit database: its `users` and `servers` tables and its table of records. */
  class AuditDb<Row> {
    var users: map<Snowflake, UserRow>
    var servers: map<Snowflake, string>
    var rows: seq<Row>

    constructor ()
      ensures users == map[] && servers == map[] && rows == []
    {
      users, servers, rows := map[], map[], [];
    }

    /** `save_user`: insert, or overwrite the row with the same id. */
    method SaveUser(user: User)
      modifies this
      ensures users == old(users)[user.id := UserRow(user.name, user.discriminator, user.avatarUrl)]
      ensures servers == old(servers) && rows == old(rows)
    {
      users := users[user.id := UserRow(user.name, user.discriminator, user.avatarUrl)];
    }

    /** `save_server`: `INSERT OR IGNORE`, so the first name seen for an id stays. */
    method SaveServer(server: Server)
      modifies this
      ensures server.id in old(servers) ==> servers == old(servers)
      ensures server.id !in old(servers) ==> servers == old(servers)[server.id := server.name]
      ensures users == old(users) && rows == old(rows)
    {
      if server.id !in servers {
        servers := servers[server.id := server.name];
      }
    }

    /** An `INSERT` of a record; `entry_id` autoincrements, so records are only appended. */
    method Append(row: Row)
      modifies this
      ensures rows == old(rows) + [row]
      ensures users == old(users) && servers == old(servers)
    {
      rows := rows + [row];
    }
  }

  /**
   * `save_deleted_message`: download every attachment in order, keep the
   * names that came back, and append one record whatever failed.
   * `env[i]` decides the download of the `i`-th attachment; `now` is the
   * timestamp taken when the row is built.
   */
  method SaveDeletedMessage(message: Message, now: string, cache: AttachmentCache,
                            db: AuditDb<DeletedRow>, env: seq<Outcome>)
    requires cache.Valid() && |env| == |message.attachments|
    requires forall i :: 0 <= i < |env| ==> IsToken(env[i].token)
    modifies cache, db
    ensures cache.Valid()
    ensures var batch := ResolveEach(old(cache.Snapshot()), cache.digest, message.attachments, env);
      && cache.Snapshot() == batch.store
      && db.rows == old(db.rows) + [DeletedRow(message.id, message.content, message.author.id,
                                               message.guild.id, message.channelId, now,
                                               Join(Successes(batch.refs), AttachmentSeparator))]
    ensures db.users == old(db.users) && db.servers == old(db.servers)
  {
    var urls := message.attachments;
    ghost var start := cache.Snapshot();
    ghost var refs: seq<Option<Filename>> := [];
    var attachments: seq<Filename> := [];
    var i := 0;
    while i < |urls|
      invariant 0 <= i <= |urls|
      invariant cache.Valid()
      invariant Batch(cache.Snapshot(), refs) == ResolveEach(start, cache.digest, urls[..i], env[..i])
      invariant attachments == Successes(refs)
      invariant db.rows == old(db.rows) && db.users == old(db.users) && db.servers == old(db.servers)
    {
      var o := env[i];
      ResolveEachStep(start, cache.digest, urls, env, i);
      var filename := cache.Resolve(urls[i], o.fetched, o.token, o.diskOk);
      SuccessesSnoc(refs, filename);
      // `if filename:` also skips an empty name, which a stored name never is
      if filename.Some? && filename.value != "" {
        attachments := attachments + [filename.value];
      }
      refs := refs + [filename];
      i := i + 1;
    }
    assert urls[..i] == urls && env[..i] == env;
    assert Batch(cache.Snapshot(), refs) == ResolveEach(start, cache.digest, urls, env);
    db.Append(DeletedRow(message.id, message.content, message.author.id, message.guild.id,
                         message.channelId, now, Join(attachments, AttachmentSeparator)));
  }

  /**
   * `handle_edit`: download every attachment the message had before the
   * edit, then every removed one, in `removedOrder` (the order in which the
   * Python set happened to be iterated), and append a record only when
   * every download returned a name.
   */
  method HandleEdit(before: Message, after: Message, now: string, cache: AttachmentCache,
                    db: AuditDb<EditedRow>, oldEnv: seq<Outcome>,
                    removedOrder: seq<Url>, removedEnv: seq<Outcome>)
    requires cache.Valid()
    requires |oldEnv| == |before.attachments| && |removedEnv| == |removedOrder|
    requires forall i :: 0 <= i < |oldEnv| ==> IsToken(oldEnv[i].token)
    requires forall i :: 0 <= i < |removedEnv| ==> IsToken(removedEnv[i].token)
    requires multiset(removedOrder) == multiset(RemovedUrls(before.attachments, after.attachments))
    modifies cache, db
    ensures cache.Valid()
    ensures var olds := ResolveEach(old(cache.Snapshot()), cache.digest, before.attachments, oldEnv);
      var removed := ResolveEach(olds.store, cache.digest, removedOrder, removedEnv);
      var oldField, removedField := JoinResults(olds.refs), JoinResults(removed.refs);
      && cache.Snapshot() == removed.store
      && db.rows == if oldField.Some? && removedField.Some?
         then old(db.rows) + [EditedRow(before.id, before.content, after.content, now,
                                        before.author.id, before.guild.id, before.channelId,
                                        oldField.value, removedField.value)]
         else old(db.rows)
    ensures db.users == old(db.users) && db.servers == old(db.servers)
  {
    var oldAttachments := cache.ResolveAll(before.attachments, oldEnv);
    var removedAttachments := cache.ResolveAll(removedOrder, removedEnv);
    var oldField := JoinResults(oldAttachments);
    var removedField := JoinResults(removedAttachments);
    if oldField.Some? && removedField.Some? {
      db.Append(EditedRow(before.id, before.content, after.content, now, before.author.id,
                          before.guild.id, before.channelId, oldField.value, removedField.value));
    }
  }
}
