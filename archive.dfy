/** The `archive` command: turns the channel it is used in into a read-only
    archived channel under an "Archive" category, keeping view access for exactly
    the human members who could see it before. */
module Archive {
  import opened Text
  import opened Platform

  /** The channel kinds the command accepts. */
  predicate SupportedKind(kind: ChannelKind)
  {
    kind == GuildText || kind == GuildVoice || kind == GuildForum || kind == GuildAnnouncement
  }

  /** The platform's answer to "can this member view the channel?", or the error it threw. */
  datatype ViewCheck = CanView | CannotView | CheckFailed

  /** What the platform answers to each call the workflow makes. */
  datatype Effects = Effects(
    roster: Option<seq<Member>>,    // `members.fetch()`: None when it throws
    view: Member -> ViewCheck,      // `permissionsFor(member).has(ViewChannel)`
    created: Option<Id>,            // `channels.create(...)`: the new id, None when it throws
    setParentOk: bool,              // `setParent(...)` succeeds
    deleteOk: Id -> bool,           // `permissionOverwrites.delete(id)` succeeds
    denyEveryoneOk: bool,           // the `@everyone` edit succeeds
    restoreOk: Id -> bool)          // the read-only edit for a member succeeds

  /** The progress lines, in the order the command pushes them. */
  datatype StatusLine =
    | Archiving(channelName: string)
    | FoundMembers(count: nat)
    | CreatedCategory
    | MovedChannel
    | ClearedPermissions
    | RestoredMembers(count: nat)
    | Archived

  /** The two failures the command does not catch; they end the command where they happen. */
  datatype Fatal = CreateCategoryFailed | SetParentFailed

  /** How the command ends. */
  datatype Reply =
    | NotAdmin           // ephemeral "only server admins" reply
    | UnsupportedKind    // ephemeral "only text, voice, forum or announcement" reply
    | FetchFailed        // the remediation message about the members intent
    | Aborted(cause: Fatal)
    | Done(restored: nat)

  /** One step of the restore loop: a member's edit succeeded or failed, or the loop paused. */
  datatype RestoreEvent = Granted(member: Id) | RestoreFailed(member: Id) | Paused

  /** The name searched for, case-insensitively, and the name a new category gets. */
  const ArchiveLabel := "archive"
  const ArchiveName := "Archive"

  /** A successful restore pauses after every this many successes. */
  const ThrottleEvery := 10

  /** The edit applied to `@everyone`. */
  const HideChannel: Options := map[ViewChannel := false]

  /** The read-only bundle applied to every restored member. */
  const ReadOnlyAccess: Options := map[
    ViewChannel := true, ReadMessageHistory := true,
    SendMessages := false, AddReactions := false, Connect := false, Speak := false,
    SendMessagesInThreads := false, CreatePublicThreads := false, CreatePrivateThreads := false,
    AttachFiles := false, EmbedLinks := false, UseExternalEmojis := false,
    UseExternalStickers := false, MentionEveryone := false, ManageMessages := false,
    ManageThreads := false]

  const ReadOnlyAllowed: set<Perm> := {ViewChannel, ReadMessageHistory}
  const ReadOnlyDenied: set<Perm> := {
    SendMessages, AddReactions, Connect, Speak, SendMessagesInThreads, CreatePublicThreads,
    CreatePrivateThreads, AttachFiles, EmbedLinks, UseExternalEmojis, UseExternalStickers,
    MentionEveryone, ManageMessages, ManageThreads}

  // ---------------------------------------------------------------------------
  // Snapshot of the members with access

  /** A member is kept when it is not a bot and the view check says yes. */
  predicate Keeps(m: Member, view: Member -> ViewCheck)
  {
    !m.bot && view(m) == CanView
  }

  /** The ids of the kept members, in roster order. */
  function Snapshot(roster: seq<Member>, view: Member -> ViewCheck): (s: seq<Id>)
    ensures |s| <= |roster|
    ensures forall x :: x in s <==> exists i :: 0 <= i < |roster| && roster[i].id == x && Keeps(roster[i], view)
    decreases |roster|
  {
    if roster == [] then []
    else
      var prev := Snapshot(roster[..|roster| - 1], view);
      var m := roster[|roster| - 1];
      if Keeps(m, view) then prev + [m.id] else prev
  }

  function Ids(roster: seq<Member>): (r: seq<Id>)
    ensures |r| == |roster| && forall i :: 0 <= i < |roster| ==> r[i] == roster[i].id
  {
    seq(|roster|, i requires 0 <= i < |roster| => roster[i].id)
  }

  /** `s` is `t` with some elements left out, the rest in their order. */
  ghost predicate Subsequence(s: seq<Id>, t: seq<Id>)
    decreases |t|
  {
    if s == [] then true
    else if t == [] then false
    else (s[|s| - 1] == t[|t| - 1] && Subsequence(s[..|s| - 1], t[..|t| - 1]))
         || Subsequence(s, t[..|t| - 1])
  }

  /** The snapshot keeps roster order: it is a subsequence of the roster's ids. */
  lemma {:induction false} SnapshotInRosterOrder(roster: seq<Member>, view: Member -> ViewCheck)
    ensures Subsequence(Snapshot(roster, view), Ids(roster))
    decreases |roster|
  {
    if roster != [] {
      var init := roster[..|roster| - 1];
      SnapshotInRosterOrder(init, view);
      assert Ids(roster)[..|roster| - 1] == Ids(init);
    }
  }

  /** With distinct roster ids (the roster is keyed by id), bots, members who cannot
      view and members whose check failed are never in the snapshot. */
  lemma SnapshotExcludes(roster: seq<Member>, view: Member -> ViewCheck, i: nat)
    requires i < |roster|
    requires forall j, k :: 0 <= j < k < |roster| ==> roster[j].id != roster[k].id
    requires !Keeps(roster[i], view)
    ensures roster[i].id !in Snapshot(roster, view)
  {
  }

  /** The loop of the source that builds the snapshot. */
  method CollectSnapshot(roster: seq<Member>, view: Member -> ViewCheck) returns (withAccess: seq<Id>)
    ensures withAccess == Snapshot(roster, view)
  {
    withAccess := [];
    for i := 0 to |roster|
      invariant withAccess == Snapshot(roster[..i], view)
    {
      var member := roster[i];
      assert roster[..i + 1][..i] == roster[..i];
      if !member.bot {
        var check := view(member);
        if check == CanView {
          withAccess := withAccess + [member.id];
        }
      }
    }
    assert roster[..|roster|] == roster;
  }

  // ---------------------------------------------------------------------------
  // The archive category

  predicate IsArchiveCategory(c: GuildChannel)
  {
    c.kind == GuildCategory && LowerStr(c.name) == ArchiveLabel
  }

  /** `cache.find(...)`: the first category whose lower-cased name is "archive". */
  function FindArchive(cache: seq<GuildChannel>): (r: Option<GuildChannel>)
    ensures r.Some? ==> r.value in cache && IsArchiveCategory(r.value)
    ensures r.None? <==> forall c :: c in cache ==> !IsArchiveCategory(c)
  {
    if cache == [] then None
    else if IsArchiveCategory(cache[0]) then Some(cache[0])
    else FindArchive(cache[1..])
  }

  /** The category found is the first match in enumeration order. */
  lemma {:induction false} FindArchiveIsFirst(cache: seq<GuildChannel>)
    requires FindArchive(cache).Some?
    ensures exists i :: 0 <= i < |cache| && cache[i] == FindArchive(cache).value
                        && forall j :: 0 <= j < i ==> !IsArchiveCategory(cache[j])
  {
    if !IsArchiveCategory(cache[0]) {
      FindArchiveIsFirst(cache[1..]);
      var i :| 0 <= i < |cache[1..]| && cache[1..][i] == FindArchive(cache[1..]).value
               && forall j :: 0 <= j < i ==> !IsArchiveCategory(cache[1..][j]);
      assert cache[i + 1] == FindArchive(cache).value;
      forall j | 0 <= j < i + 1
        ensures !IsArchiveCategory(cache[j])
      {
        if j > 0 {
          assert cache[j] == cache[1..][j - 1];
        }
      }
    } else {
      assert cache[0] == FindArchive(cache).value;
    }
  }

  /** The category the command creates when none matches. */
  function NewArchiveCategory(id: Id): GuildChannel
  {
    GuildChannel(id, GuildCategory, ArchiveName, map[])
  }

  /** A category the command created is found by the next search, so a second run reuses it. */
  lemma CreatedCategoryIsFound(cache: seq<GuildChannel>, id: Id)
    ensures FindArchive(cache + [NewArchiveCategory(id)]).Some?
  {
    assert LowerStr(ArchiveName) == ArchiveLabel;
    assert NewArchiveCategory(id) in cache + [NewArchiveCategory(id)];
  }

  // ---------------------------------------------------------------------------
  // Stripping the overwrites

  /** The table after one delete attempt per entry: only the entries whose delete failed remain. */
  function Stripped(table: Table, deleteOk: Id -> bool): Table
  {
    map k | k in table && !deleteOk(k) :: table[k]
  }

  /** A failed delete leaves that one entry as it was; a successful one removes it. */
  lemma StrippedKeepsOnlyFailures(table: Table, deleteOk: Id -> bool, k: Id)
    ensures k in Stripped(table, deleteOk) <==> k in table && !deleteOk(k)
    ensures k in Stripped(table, deleteOk) ==> Stripped(table, deleteOk)[k] == table[k]
  {
  }

  /** With no failed delete the table ends empty. */
  lemma StrippedWithoutFailuresIsEmpty(table: Table, deleteOk: Id -> bool)
    requires forall k :: k in table ==> deleteOk(k)
    ensures Stripped(table, deleteOk) == map[]
  {
  }

  /** The loop over the overwrites captured when it starts: one delete attempt each. */
  method StripOverwrites(channel: Channel, deleteOk: Id -> bool) returns (attempted: seq<Id>)
    modifies channel`overwrites
    ensures channel.overwrites == Stripped(old(channel.overwrites), deleteOk)
    ensures forall k :: k in attempted <==> k in old(channel.overwrites)
    ensures forall i, j :: 0 <= i < j < |attempted| ==> attempted[i] != attempted[j]
  {
    ghost var table := channel.overwrites;
    var pending := channel.overwrites.Keys;
    attempted := [];
    while pending != {}
      invariant pending <= table.Keys
      invariant forall k :: k in attempted <==> k in table && k !in pending
      invariant forall i, j :: 0 <= i < j < |attempted| ==> attempted[i] != attempted[j]
      invariant channel.overwrites == map k | k in table && (k in pending || !deleteOk(k)) :: table[k]
      decreases pending
    {
      var principal :| principal in pending;
      var _ := channel.DeleteOverwrite(principal, deleteOk(principal));
      attempted := attempted + [principal];
      pending := pending - {principal};
    }
  }

  /** The table before restoration: stripped, then `@everyone` denied view when that edit succeeds. */
  function Hidden(table: Table, everyone: Id, e: Effects): Table
  {
    var stripped := Stripped(table, e.deleteOk);
    if e.denyEveryoneOk then Edit(stripped, everyone, HideChannel) else stripped
  }

  /** After a successful `@everyone` edit, `@everyone` is denied view and not allowed it. */
  lemma HiddenDeniesEveryone(table: Table, everyone: Id, e: Effects)
    requires e.denyEveryoneOk
    ensures everyone in Hidden(table, everyone, e)
    ensures ViewChannel in Hidden(table, everyone, e)[everyone].deny
    ensures ViewChannel !in Hidden(table, everyone, e)[everyone].allow
  {
  }

  /** With no failed delete and a successful `@everyone` edit, the one entry left is the `@everyone` deny. */
  lemma HiddenWithoutFailures(table: Table, everyone: Id, e: Effects)
    requires forall k :: k in table ==> e.deleteOk(k)
    requires e.denyEveryoneOk
    ensures Hidden(table, everyone, e) == map[everyone := Overwrite({}, {ViewChannel})]
  {
    StrippedWithoutFailuresIsEmpty(table, e.deleteOk);
    var r := ApplyOptions(NoOverwrite, HideChannel);
    assert r.allow == {};
    assert r.deny == {ViewChannel};
  }

  // ---------------------------------------------------------------------------
  // Restoring read-only access

  /** The number of members in `ids` whose restore succeeds. */
  function Successes(ids: seq<Id>, ok: Id -> bool): (n: nat)
    ensures n <= |ids|
    decreases |ids|
  {
    if ids == [] then 0
    else Successes(ids[..|ids| - 1], ok) + (if ok(ids[|ids| - 1]) then 1 else 0)
  }

  /** The events of the restore loop over `ids`: one outcome per member, in order, and a
      pause right after each success that brings the count of successes to a multiple of 10. */
  function RestoreEvents(ids: seq<Id>, ok: Id -> bool): seq<RestoreEvent>
    decreases |ids|
  {
    if ids == [] then []
    else
      var prev := RestoreEvents(ids[..|ids| - 1], ok);
      var id := ids[|ids| - 1];
      if ok(id) then
        prev + [Granted(id)] + (if Successes(ids, ok) % ThrottleEvery == 0 then [Paused] else [])
      else prev + [RestoreFailed(id)]
  }

  /** The table after the restore loop: each successful member edited with the read-only bundle. */
  function RestoreTable(table: Table, ids: seq<Id>, ok: Id -> bool): Table
    decreases |ids|
  {
    if ids == [] then table
    else
      var prev := RestoreTable(table, ids[..|ids| - 1], ok);
      var id := ids[|ids| - 1];
      if ok(id) then Edit(prev, id, ReadOnlyAccess) else prev
  }

  function Grants(events: seq<RestoreEvent>): nat
    decreases |events|
  {
    if events == [] then 0
    else Grants(events[..|events| - 1]) + (if events[|events| - 1].Granted? then 1 else 0)
  }

  function Pauses(events: seq<RestoreEvent>): nat
    decreases |events|
  {
    if events == [] then 0
    else Pauses(events[..|events| - 1]) + (if events[|events| - 1].Paused? then 1 else 0)
  }

  /** The member of every non-pause event, in order. */
  function Attempts(events: seq<RestoreEvent>): seq<Id>
    decreases |events|
  {
    if events == [] then []
    else
      var prev := Attempts(events[..|events| - 1]);
      var last := events[|events| - 1];
      if last.Paused? then prev else prev + [last.member]
  }

  /** The outcome recorded for every attempted member matches the platform's answer. */
  ghost predicate OutcomesMatch(events: seq<RestoreEvent>, ok: Id -> bool)
  {
    forall i :: 0 <= i < |events| ==> (events[i].Granted? ==> ok(events[i].member))
                                      && (events[i].RestoreFailed? ==> !ok(events[i].member))
  }

  lemma {:induction false} CountsAppend(a: seq<RestoreEvent>, b: seq<RestoreEvent>)
    ensures Grants(a + b) == Grants(a) + Grants(b)
    ensures Pauses(a + b) == Pauses(a) + Pauses(b)
    ensures Attempts(a + b) == Attempts(a) + Attempts(b)
    decreases |b|
  {
    if b != [] {
      var b' := b[..|b| - 1];
      assert (a + b)[..|a + b| - 1] == a + b';
      assert (a + b)[|a + b| - 1] == b[|b| - 1];
      CountsAppend(a, b');
    } else {
      assert a + b == a;
    }
  }

  /** The last step of the restore loop, as a tail appended to the events before it. */
  function StepEvents(ids: seq<Id>, ok: Id -> bool): seq<RestoreEvent>
    requires ids != []
  {
    var id := ids[|ids| - 1];
    if ok(id) then
      if Successes(ids, ok) % ThrottleEvery == 0 then [Granted(id), Paused] else [Granted(id)]
    else [RestoreFailed(id)]
  }

  lemma RestoreEventsUnfold(ids: seq<Id>, ok: Id -> bool)
    requires ids != []
    ensures RestoreEvents(ids, ok) == RestoreEvents(ids[..|ids| - 1], ok) + StepEvents(ids, ok)
  {
    var id := ids[|ids| - 1];
    if ok(id) && Successes(ids, ok) % ThrottleEvery == 0 {
      assert [Granted(id)] + [Paused] == [Granted(id), Paused];
    }
  }

  lemma StepCounts(ids: seq<Id>, ok: Id -> bool)
    requires ids != []
    ensures Attempts(StepEvents(ids, ok)) == [ids[|ids| - 1]]
    ensures Grants(StepEvents(ids, ok)) == (if ok(ids[|ids| - 1]) then 1 else 0)
    ensures Pauses(StepEvents(ids, ok)) == (if ok(ids[|ids| - 1]) && Successes(ids, ok) % ThrottleEvery == 0 then 1 else 0)
  {
    var id := ids[|ids| - 1];
    if ok(id) {
      if Successes(ids, ok) % ThrottleEvery == 0 {
        GrantPauseCounts(id);
      } else {
        SingleCounts(Granted(id));
      }
    } else {
      SingleCounts(RestoreFailed(id));
    }
  }

  lemma SingleCounts(ev: RestoreEvent)
    requires !ev.Paused?
    ensures Attempts([ev]) == [ev.member]
    ensures Grants([ev]) == (if ev.Granted? then 1 else 0)
    ensures Pauses([ev]) == 0
  {
    assert [ev][..0] == [];
  }

  lemma GrantPauseCounts(id: Id)
    ensures Attempts([Granted(id), Paused]) == [id]
    ensures Grants([Granted(id), Paused]) == 1
    ensures Pauses([Granted(id), Paused]) == 1
  {
    assert [Granted(id), Paused][..1] == [Granted(id)];
    SingleCounts(Granted(id));
  }

  /** Every snapshot member gets exactly one attempt, in order. */
  lemma {:induction false} RestoreAttemptsEveryMember(ids: seq<Id>, ok: Id -> bool)
    ensures Attempts(RestoreEvents(ids, ok)) == ids
    decreases |ids|
  {
    if ids != [] {
      var init := ids[..|ids| - 1];
      RestoreAttemptsEveryMember(init, ok);
      RestoreEventsUnfold(ids, ok);
      CountsAppend(RestoreEvents(init, ok), StepEvents(ids, ok));
      StepCounts(ids, ok);
      assert ids == init + [ids[|ids| - 1]];
    }
  }

  /** Each attempt records the platform's answer for that member. */
  lemma {:induction false} RestoreOutcomesMatch(ids: seq<Id>, ok: Id -> bool)
    ensures OutcomesMatch(RestoreEvents(ids, ok), ok)
    decreases |ids|
  {
    if ids != [] {
      RestoreOutcomesMatch(ids[..|ids| - 1], ok);
      RestoreEventsUnfold(ids, ok);
    }
  }

  /** The successes are the granted events. */
  lemma {:induction false} RestoreGrantsCount(ids: seq<Id>, ok: Id -> bool)
    ensures Grants(RestoreEvents(ids, ok)) == Successes(ids, ok)
    decreases |ids|
  {
    if ids != [] {
      var init := ids[..|ids| - 1];
      RestoreGrantsCount(init, ok);
      RestoreEventsUnfold(ids, ok);
      CountsAppend(RestoreEvents(init, ok), StepEvents(ids, ok));
      StepCounts(ids, ok);
    }
  }

  lemma DivStep(n: nat, d: nat)
    requires d == n || d == n + 1
    ensures d / ThrottleEvery == n / ThrottleEvery + (if d != n && d % ThrottleEvery == 0 then 1 else 0)
  {
  }

  /** There is one pause per ten successes. */
  lemma {:induction false} RestorePausesCount(ids: seq<Id>, ok: Id -> bool)
    ensures Pauses(RestoreEvents(ids, ok)) == Successes(ids, ok) / ThrottleEvery
    decreases |ids|
  {
    if ids != [] {
      var init := ids[..|ids| - 1];
      RestorePausesCount(init, ok);
      RestoreEventsUnfold(ids, ok);
      CountsAppend(RestoreEvents(init, ok), StepEvents(ids, ok));
      StepCounts(ids, ok);
      DivStep(Successes(init, ok), Successes(ids, ok));
    }
  }

  /** The pause at index `i` of `ev` is there exactly when the event before it is a success
      that brings the number of successes to a multiple of 10. */
  ghost predicate PauseRuleAt(ev: seq<RestoreEvent>, i: nat)
    requires i < |ev|
  {
    ev[i].Paused? <==> i > 0 && ev[i - 1].Granted? && Grants(ev[..i]) % ThrottleEvery == 0
  }

  ghost predicate PausesWellPlaced(ev: seq<RestoreEvent>)
  {
    forall i: nat :: i < |ev| ==> PauseRuleAt(ev, i)
  }

  /** A pause comes right after the success that makes the count a multiple of 10, and nowhere
      else; in particular a failure is never followed by a pause. */
  lemma {:induction false} PausesFollowEveryTenthGrant(ids: seq<Id>, ok: Id -> bool)
    ensures PausesWellPlaced(RestoreEvents(ids, ok))
    decreases |ids|
  {
    if ids != [] {
      var init := ids[..|ids| - 1];
      var prev := RestoreEvents(init, ok);
      var tail := StepEvents(ids, ok);
      PausesFollowEveryTenthGrant(init, ok);
      RestoreGrantsCount(init, ok);
      RestoreEventsUnfold(ids, ok);
      if init != [] {
        LastGrantIsNotTenth(init, ok);
      }
      forall i: nat | i < |prev + tail|
        ensures PauseRuleAt(prev + tail, i)
      {
        PauseAt(prev, tail, ids, ok, i);
      }
    }
  }

  /** When the events end in a success, that success did not make the count a multiple of 10. */
  lemma LastGrantIsNotTenth(ids: seq<Id>, ok: Id -> bool)
    requires ids != []
    ensures var ev := RestoreEvents(ids, ok);
            ev != [] && ev[|ev| - 1].Granted? ==> Grants(ev) % ThrottleEvery != 0
  {
    var ev := RestoreEvents(ids, ok);
    RestoreGrantsCount(ids, ok);
    RestoreEventsUnfold(ids, ok);
    var tail := StepEvents(ids, ok);
    assert ev[|ev| - 1] == tail[|tail| - 1];
  }

  /** One index of the step of PausesFollowEveryTenthGrant. */
  lemma PauseAt(prev: seq<RestoreEvent>, tail: seq<RestoreEvent>, ids: seq<Id>, ok: Id -> bool, i: nat)
    requires ids != []
    requires prev == RestoreEvents(ids[..|ids| - 1], ok) && tail == StepEvents(ids, ok)
    requires Grants(prev) == Successes(ids[..|ids| - 1], ok)
    requires PausesWellPlaced(prev)
    requires prev != [] && prev[|prev| - 1].Granted? ==> Grants(prev) % ThrottleEvery != 0
    requires i < |prev + tail|
    ensures PauseRuleAt(prev + tail, i)
  {
    var ev := prev + tail;
    var id := ids[|ids| - 1];
    if i < |prev| {
      assert PauseRuleAt(prev, i);
      assert ev[..i] == prev[..i];
      assert ev[i] == prev[i];
      if i > 0 { assert ev[i - 1] == prev[i - 1]; }
    } else if i == |prev| {
      assert ev[..i] == prev;
      assert ev[i] == tail[0];
      if i > 0 { assert ev[i - 1] == prev[|prev| - 1]; }
    } else {
      assert tail == [Granted(id), Paused] && i == |prev| + 1;
      assert ev[..i] == prev + [Granted(id)];
      CountsAppend(prev, [Granted(id)]);
      SingleCounts(Granted(id));
    }
  }

  /** What the restore loop does to the table: each member whose edit succeeded carries the
      read-only bundle merged over its entry from before the loop; every other entry is as it was. */
  lemma {:induction false} RestoreTableEntries(table: Table, ids: seq<Id>, ok: Id -> bool, k: Id)
    ensures k in RestoreTable(table, ids, ok) <==> k in table || (k in ids && ok(k))
    ensures k in ids && ok(k) ==>
              RestoreTable(table, ids, ok)[k] == ApplyOptions(EntryOf(table, k), ReadOnlyAccess)
    ensures !(k in ids && ok(k)) && k in table ==> RestoreTable(table, ids, ok)[k] == table[k]
    decreases |ids|
  {
    if ids != [] {
      var init := ids[..|ids| - 1];
      var id := ids[|ids| - 1];
      RestoreTableEntries(table, init, ok, k);
      assert ids == init + [id];
      if ok(id) && k == id && k in init {
        ApplyOptionsIdempotent(EntryOf(table, k), ReadOnlyAccess);
      }
    }
  }

  /** A member with no entry left before the loop gets exactly the read-only bundle. */
  lemma ReadOnlyBundleExactly()
    ensures ApplyOptions(NoOverwrite, ReadOnlyAccess) == Overwrite(ReadOnlyAllowed, ReadOnlyDenied)
  {
    var r := ApplyOptions(NoOverwrite, ReadOnlyAccess);
    assert r.allow == ReadOnlyAllowed;
    assert r.deny == ReadOnlyDenied;
  }

  /** The restore loop: one edit per snapshot member, counting successes, pausing after every tenth. */
  method RestoreAccess(channel: Channel, snapshot: seq<Id>, restoreOk: Id -> bool)
    returns (restored: nat, events: seq<RestoreEvent>)
    modifies channel`overwrites
    ensures restored == Successes(snapshot, restoreOk)
    ensures events == RestoreEvents(snapshot, restoreOk)
    ensures channel.overwrites == RestoreTable(old(channel.overwrites), snapshot, restoreOk)
  {
    restored := 0;
    events := [];
    for i := 0 to |snapshot|
      invariant restored == Successes(snapshot[..i], restoreOk)
      invariant events == RestoreEvents(snapshot[..i], restoreOk)
      invariant channel.overwrites == RestoreTable(old(channel.overwrites), snapshot[..i], restoreOk)
    {
      var memberId := snapshot[i];
      assert snapshot[..i + 1][..i] == snapshot[..i];
      var edited := channel.EditOverwrite(memberId, ReadOnlyAccess, restoreOk(memberId));
      if edited {
        restored := restored + 1;
        events := events + [Granted(memberId)];
        if restored % ThrottleEvery == 0 {
          events := events + [Paused];
        }
      } else {
        events := events + [RestoreFailed(memberId)];
      }
    }
    assert snapshot[..|snapshot|] == snapshot;
  }

  // ---------------------------------------------------------------------------
  // The whole command

  /** The progress lines of a run that got past the category step. */
  function ArchivedLog(channelName: string, snapshot: seq<Id>, created: bool, restored: nat): seq<StatusLine>
  {
    [Archiving(channelName), FoundMembers(|snapshot|)] + LogAfterSnapshot(created, restored)
  }

  /** The line posted when the category had to be created. */
  function CategoryLog(created: bool): seq<StatusLine>
  {
    if created then [CreatedCategory] else []
  }

  /** The lines of a completed run after the member count. */
  function LogAfterSnapshot(created: bool, restored: nat): seq<StatusLine>
  {
    CategoryLog(created) + [MovedChannel, ClearedPermissions, RestoredMembers(restored), Archived]
  }

  /** The first category of the cache named `archive` in any case, or else a new category
      `Archive` when the platform creates one (`createdNew`), or None when it does not. */
  method ReuseOrCreateCategory(guild: Guild, created: Option<Id>) returns (category: Option<GuildChannel>, createdNew: bool)
    modifies guild`channels
    ensures var found := FindArchive(old(guild.channels));
            if found.Some? then category == found && !createdNew && guild.channels == old(guild.channels)
            else if created.None? then category.None? && !createdNew && guild.channels == old(guild.channels)
            else category == Some(NewArchiveCategory(created.value)) && createdNew
                 && guild.channels == old(guild.channels) + [category.value]
  {
    var found := FindArchive(guild.channels);
    if found.Some? {
      return found, false;
    }
    category := guild.CreateCategory(ArchiveName, created);
    createdNew := category.Some?;
  }

  /** The steps after the move, on the channel's overwrite table: strip every overwrite,
      deny `@everyone` the view flag, then give each snapshot member the read-only bundle,
      every failure of the platform being logged and skipped. */
  method LockDown(channel: Channel, everyone: Id, snapshot: seq<Id>, e: Effects)
    returns (restored: nat, events: seq<RestoreEvent>)
    modifies channel`overwrites
    ensures channel.overwrites == RestoreTable(Hidden(old(channel.overwrites), everyone, e), snapshot, e.restoreOk)
    ensures restored == Successes(snapshot, e.restoreOk)
    ensures events == RestoreEvents(snapshot, e.restoreOk)
  {
    // delete every overwrite, best effort
    var _ := StripOverwrites(channel, e.deleteOk);

    // deny @everyone, best effort
    var _ := channel.EditOverwrite(everyone, HideChannel, e.denyEveryoneOk);

    // give the snapshot read-only access back
    restored, events := RestoreAccess(channel, snapshot, e.restoreOk);
  }

  /** The command once the roster is in hand and `snapshot` taken: find or create the
      category, move the channel under it, lock it down. `status` holds the lines posted
      from here on. */
  method ArchiveSnapshot(channel: Channel, guild: Guild, snapshot: seq<Id>, e: Effects)
    returns (reply: Reply, status: seq<StatusLine>, events: seq<RestoreEvent>)
    modifies channel, guild`channels
    ensures var found := FindArchive(old(guild.channels));
            if found.None? && e.created.None? then
              reply == Aborted(CreateCategoryFailed) && status == [] && events == []
              && unchanged(channel) && guild.channels == old(guild.channels)
            else
              var category := if found.Some? then found.value else NewArchiveCategory(e.created.value);
              guild.channels == (if found.Some? then old(guild.channels) else old(guild.channels) + [category])
              && if !e.setParentOk then
                   reply == Aborted(SetParentFailed) && channel.parent == old(channel.parent)
                   && channel.overwrites == old(channel.overwrites) && events == []
                   && status == CategoryLog(found.None?)
                 else
                   var restored := Successes(snapshot, e.restoreOk);
                   reply == Done(restored)
                   && status == LogAfterSnapshot(found.None?, restored)
                   && channel.parent == Some(category.id)
                   && channel.overwrites == RestoreTable(Hidden(category.overwrites, guild.everyone, e), snapshot, e.restoreOk)
                   && events == RestoreEvents(snapshot, e.restoreOk)
  {
    events := [];
    status := [];

    // reuse or create the category
    var category, createdNew := ReuseOrCreateCategory(guild, e.created);
    if category.None? {
      return Aborted(CreateCategoryFailed), status, events;
    }
    var archiveCategory := category.value;
    if createdNew {
      status := status + [CreatedCategory];
    }

    // move the channel and lock its permissions to the category's
    var moved := channel.SetParent(archiveCategory, e.setParentOk);
    if !moved {
      return Aborted(SetParentFailed), status, events;
    }
    status := status + [MovedChannel];

    var restored;
    restored, events := LockDown(channel, guild.everyone, snapshot, e);
    status := status + [ClearedPermissions, RestoredMembers(restored), Archived];
    reply := Done(restored);
  }

  /** `execute` of the `archive` command, run by a caller who is (`isAdmin`) or is not an
      administrator, on `channel` of `guild`, with the platform answering as `e` says. */
  method Execute(isAdmin: bool, channel: Channel, guild: Guild, e: Effects)
    returns (reply: Reply, status: seq<StatusLine>, events: seq<RestoreEvent>)
    modifies channel, guild`channels
    // the gates
    ensures reply.NotAdmin? <==> !isAdmin
    ensures reply.UnsupportedKind? <==> isAdmin && !SupportedKind(channel.kind)
    ensures reply.FetchFailed? <==> isAdmin && SupportedKind(channel.kind) && e.roster.None?
    ensures reply.NotAdmin? || reply.UnsupportedKind? ==> status == []
    ensures reply.FetchFailed? ==> status == [Archiving(channel.name)]
    // nothing changes before the roster is in hand, nor when the category cannot be had
    ensures reply.NotAdmin? || reply.UnsupportedKind? || reply.FetchFailed? || reply == Aborted(CreateCategoryFailed)
            ==> unchanged(channel) && unchanged(guild) && events == []
    // past the gates
    ensures isAdmin && SupportedKind(channel.kind) && e.roster.Some? ==>
              var snapshot := Snapshot(e.roster.value, e.view);
              var found := FindArchive(old(guild.channels));
              var head := [Archiving(channel.name), FoundMembers(|snapshot|)];
              if found.None? && e.created.None? then
                reply == Aborted(CreateCategoryFailed) && status == head
              else
                var category := if found.Some? then found.value else NewArchiveCategory(e.created.value);
                guild.channels == (if found.Some? then old(guild.channels) else old(guild.channels) + [category])
                && if !e.setParentOk then
                     reply == Aborted(SetParentFailed) && channel.parent == old(channel.parent)
                     && channel.overwrites == old(channel.overwrites) && events == []
                     && status == head + CategoryLog(found.None?)
                   else
                     var restored := Successes(snapshot, e.restoreOk);
                     reply == Done(restored)
                     && status == ArchivedLog(channel.name, snapshot, found.None?, restored)
                     && channel.parent == Some(category.id)
                     && channel.overwrites == RestoreTable(Hidden(category.overwrites, guild.everyone, e), snapshot, e.restoreOk)
                     && events == RestoreEvents(snapshot, e.restoreOk)
  {
    events := [];
    if !isAdmin {
      return NotAdmin, [], events;
    }
    if !SupportedKind(channel.kind) {
      return UnsupportedKind, [], events;
    }
    status := [Archiving(channel.name)];

    // the member roster, or the remediation message
    if e.roster.None? {
      return FetchFailed, status, events;
    }

    // who can see the channel now
    var membersWithAccess := CollectSnapshot(e.roster.value, e.view);
    status := status + [FoundMembers(|membersWithAccess|)];

    var rest;
    reply, rest, events := ArchiveSnapshot(channel, guild, membersWithAccess, e);
    status := status + rest;
  }
}
