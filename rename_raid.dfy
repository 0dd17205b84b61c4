/** The `rename-raid` command: renames a raid's roles and channels from the name of
    its main role to a new name, keeping each role's and channel's suffix. */
module RenameRaid {
  import opened Text
  import opened Platform

  /** The progress lines, in the order the command pushes them. */
  datatype RaidLine =
    | Renaming(oldName: string, newName: string)
    | RenamedRole(role: Id)
    | RenamedChannel(channel: Id)
    | RaidRenamed(newName: string)

  /** How the command ends: refused, stopped by a rename the platform rejected, or done. */
  datatype RenameReply = RenameNotAdmin | RenameAborted | RaidDone

  /** The longest channel name the command produces. */
  const MaxChannelName := 100

  // ---------------------------------------------------------------------------
  // Names

  /** A role belongs to the raid when it is named `oldName` or `oldName` followed by a space. */
  predicate RoleSelected(name: string, oldName: string)
  {
    name == oldName || StartsWith(name, oldName + " ")
  }

  /** The new role name: `newName` followed by what came after `oldName`. */
  function NewRoleName(name: string, oldName: string, newName: string): string
  {
    newName + SliceFrom(name, |oldName|)
  }

  /** A selected role named exactly `oldName` becomes `newName`; any other keeps a suffix
      that starts with the space after `oldName`. */
  lemma RoleNameShape(name: string, oldName: string, newName: string)
    requires RoleSelected(name, oldName)
    ensures name == oldName ==> NewRoleName(name, oldName, newName) == newName
    ensures name != oldName ==>
              |name| > |oldName| && name[|oldName|] == ' '
              && NewRoleName(name, oldName, newName) == newName + name[|oldName|..]
  {
    if name != oldName {
      assert name[..|oldName| + 1] == oldName + " ";
      assert name[|oldName|] == (oldName + " ")[|oldName|];
    } else {
      assert name[|oldName|..] == [];
    }
  }

  /** Renaming a raid back undoes the rename: the renamed role is selected by the new name,
      and renaming it from `newName` to `oldName` gives the original name. */
  lemma RoleRenameReversible(name: string, oldName: string, newName: string)
    requires RoleSelected(name, oldName)
    ensures RoleSelected(NewRoleName(name, oldName, newName), newName)
    ensures NewRoleName(NewRoleName(name, oldName, newName), newName, oldName) == name
  {
    RoleNameShape(name, oldName, newName);
    var renamed := NewRoleName(name, oldName, newName);
    var suffix := name[|oldName|..];
    assert name == oldName + suffix;
    assert renamed == newName + suffix;
    assert renamed[|newName|..] == suffix;
    if name != oldName {
      assert renamed[..|newName| + 1] == newName + " ";
    }
  }

  /** A channel belongs to the raid when it is named the lower-cased `oldName`, starts with the
      lower-cased `oldName` and a dash, or is named exactly `oldName`. */
  predicate ChannelSelected(name: string, oldName: string)
  {
    name == LowerStr(oldName) || StartsWith(name, LowerStr(oldName) + "-") || name == oldName
  }

  /** The new channel name before truncation. */
  function FullChannelName(name: string, oldName: string, newName: string): string
  {
    if LowerStr(name) == LowerStr(oldName) then newName else newName + SliceFrom(name, |oldName|)
  }

  /** `slice(0, 100)` of the new channel name. */
  function NewChannelName(name: string, oldName: string, newName: string): (r: string)
    ensures |r| <= MaxChannelName
    ensures |r| <= |FullChannelName(name, oldName, newName)|
    ensures r == FullChannelName(name, oldName, newName)[..|r|]
    ensures |FullChannelName(name, oldName, newName)| <= MaxChannelName ==> r == FullChannelName(name, oldName, newName)
  {
    Truncate(FullChannelName(name, oldName, newName), MaxChannelName)
  }

  /** A selected channel whose name equals `oldName` up to case becomes `newName`; any other
      selected channel keeps a suffix that starts with the dash after `oldName`. */
  lemma ChannelNameShape(name: string, oldName: string, newName: string)
    requires ChannelSelected(name, oldName)
    ensures LowerStr(name) == LowerStr(oldName) ==> FullChannelName(name, oldName, newName) == newName
    ensures LowerStr(name) != LowerStr(oldName) ==>
              StartsWith(name, LowerStr(oldName) + "-") && |name| > |oldName| && name[|oldName|] == '-'
              && FullChannelName(name, oldName, newName) == newName + name[|oldName|..]
  {
    if LowerStr(name) != LowerStr(oldName) {
      LowerStrIdempotent(oldName);
      assert name != LowerStr(oldName) && name != oldName;
      var p := LowerStr(oldName) + "-";
      assert name[..|p|] == p;
      assert name[|oldName|] == p[|oldName|];
    }
  }

  // ---------------------------------------------------------------------------
  // What gets renamed

  /** `roles.cache.filter(...)`: the raid's roles, in cache order. */
  function MatchingRoles(roles: seq<Role>, oldName: string): (r: seq<Role>)
    ensures |r| <= |roles|
    decreases |roles|
  {
    if roles == [] then []
    else
      var prev := MatchingRoles(roles[..|roles| - 1], oldName);
      var last := roles[|roles| - 1];
      if RoleSelected(last.name, oldName) then prev + [last] else prev
  }

  /** `channels.cache.filter(...)`: the raid's channels, in cache order. */
  function MatchingChannels(channels: seq<GuildChannel>, oldName: string): (r: seq<GuildChannel>)
    ensures |r| <= |channels|
    decreases |channels|
  {
    if channels == [] then []
    else
      var prev := MatchingChannels(channels[..|channels| - 1], oldName);
      var last := channels[|channels| - 1];
      if ChannelSelected(last.name, oldName) then prev + [last] else prev
  }

  /** Exactly the selected roles are matched. */
  lemma {:induction false} MatchingRolesMembers(roles: seq<Role>, oldName: string, x: Role)
    ensures x in MatchingRoles(roles, oldName) <==> x in roles && RoleSelected(x.name, oldName)
    decreases |roles|
  {
    if roles != [] {
      MatchingRolesMembers(roles[..|roles| - 1], oldName, x);
      assert roles == roles[..|roles| - 1] + [roles[|roles| - 1]];
    }
  }

  /** Exactly the selected channels are matched. */
  lemma {:induction false} MatchingChannelsMembers(channels: seq<GuildChannel>, oldName: string, x: GuildChannel)
    ensures x in MatchingChannels(channels, oldName) <==> x in channels && ChannelSelected(x.name, oldName)
    decreases |channels|
  {
    if channels != [] {
      MatchingChannelsMembers(channels[..|channels| - 1], oldName, x);
      assert channels == channels[..|channels| - 1] + [channels[|channels| - 1]];
    }
  }

  /** The roles after renaming each of `targets`, in order. */
  function RenameRoles(roles: seq<Role>, targets: seq<Role>, oldName: string, newName: string): (r: seq<Role>)
    ensures |r| == |roles| && forall i :: 0 <= i < |roles| ==> r[i].id == roles[i].id
    decreases |targets|
  {
    if targets == [] then roles
    else
      var t := targets[|targets| - 1];
      WithRoleName(RenameRoles(roles, targets[..|targets| - 1], oldName, newName), t.id, NewRoleName(t.name, oldName, newName))
  }

  /** The channels after renaming each of `targets`, in order. */
  function RenameChannels(channels: seq<GuildChannel>, targets: seq<GuildChannel>, oldName: string, newName: string)
    : (r: seq<GuildChannel>)
    ensures |r| == |channels| && forall i :: 0 <= i < |channels| ==> r[i].id == channels[i].id
    decreases |targets|
  {
    if targets == [] then channels
    else
      var t := targets[|targets| - 1];
      WithChannelName(RenameChannels(channels, targets[..|targets| - 1], oldName, newName), t.id, NewChannelName(t.name, oldName, newName))
  }

  function RoleIds(roles: seq<Role>): (r: seq<Id>)
    ensures |r| == |roles| && forall i :: 0 <= i < |roles| ==> r[i] == roles[i].id
  {
    seq(|roles|, i requires 0 <= i < |roles| => roles[i].id)
  }

  function ChannelIds(channels: seq<GuildChannel>): (r: seq<Id>)
    ensures |r| == |channels| && forall i :: 0 <= i < |channels| ==> r[i] == channels[i].id
  {
    seq(|channels|, i requires 0 <= i < |channels| => channels[i].id)
  }

  /** How many of `ids` the platform renames before the first rename it rejects. */
  function LeadingSuccesses(ids: seq<Id>, ok: Id -> bool): (k: nat)
    ensures k <= |ids|
    ensures forall i :: 0 <= i < k ==> ok(ids[i])
    ensures k < |ids| ==> !ok(ids[k])
  {
    if ids == [] || !ok(ids[0]) then 0 else 1 + LeadingSuccesses(ids[1..], ok)
  }

  /** The count is determined by the first rejected rename. */
  lemma {:induction false} LeadingSuccessesIs(ids: seq<Id>, ok: Id -> bool, k: nat)
    requires k <= |ids|
    requires forall i :: 0 <= i < k ==> ok(ids[i])
    requires k < |ids| ==> !ok(ids[k])
    ensures LeadingSuccesses(ids, ok) == k
  {
    if k > 0 {
      LeadingSuccessesIs(ids[1..], ok, k - 1);
    }
  }

  /** A success at position `k` inside the leading run extends it past `k`. */
  lemma LeadingSuccessesStep(ids: seq<Id>, ok: Id -> bool, k: nat)
    requires k < |ids| && k <= LeadingSuccesses(ids, ok) && ok(ids[k])
    ensures k + 1 <= LeadingSuccesses(ids, ok)
  {
  }

  /** A failure at position `k` inside the leading run ends it at `k`. */
  lemma LeadingSuccessesStop(ids: seq<Id>, ok: Id -> bool, k: nat)
    requires k < |ids| && k <= LeadingSuccesses(ids, ok) && !ok(ids[k])
    ensures LeadingSuccesses(ids, ok) == k
  {
  }

  function RoleLines(roles: seq<Role>): (r: seq<RaidLine>)
    ensures |r| == |roles| && forall i :: 0 <= i < |roles| ==> r[i] == RenamedRole(roles[i].id)
  {
    seq(|roles|, i requires 0 <= i < |roles| => RenamedRole(roles[i].id))
  }

  function ChannelLines(channels: seq<GuildChannel>): (r: seq<RaidLine>)
    ensures |r| == |channels| && forall i :: 0 <= i < |channels| ==> r[i] == RenamedChannel(channels[i].id)
  {
    seq(|channels|, i requires 0 <= i < |channels| => RenamedChannel(channels[i].id))
  }

  // ---------------------------------------------------------------------------
  // Every selected entry renamed once

  ghost predicate DistinctRoleIds(roles: seq<Role>)
  {
    forall i, j :: 0 <= i < j < |roles| ==> roles[i].id != roles[j].id
  }

  ghost predicate DistinctChannelIds(channels: seq<GuildChannel>)
  {
    forall i, j :: 0 <= i < j < |channels| ==> channels[i].id != channels[j].id
  }

  /** A role after the whole rename: renamed once if selected, else as it was. */
  function RoleAfterRename(r: Role, oldName: string, newName: string): Role
  {
    if RoleSelected(r.name, oldName) then r.(name := NewRoleName(r.name, oldName, newName)) else r
  }

  /** A channel after the whole rename: renamed once if selected, else as it was. */
  function ChannelAfterRename(c: GuildChannel, oldName: string, newName: string): GuildChannel
  {
    if ChannelSelected(c.name, oldName) then c.(name := NewChannelName(c.name, oldName, newName)) else c
  }

  lemma MatchingRolesSnoc(roles: seq<Role>, oldName: string, j: nat)
    requires 0 < j <= |roles|
    ensures MatchingRoles(roles[..j], oldName)
            == MatchingRoles(roles[..j - 1], oldName) + (if RoleSelected(roles[j - 1].name, oldName) then [roles[j - 1]] else [])
  {
    assert roles[..j][..j - 1] == roles[..j - 1];
  }

  lemma RenameRolesSnoc(roles: seq<Role>, targets: seq<Role>, t: Role, oldName: string, newName: string)
    ensures RenameRoles(roles, targets + [t], oldName, newName)
            == WithRoleName(RenameRoles(roles, targets, oldName, newName), t.id, NewRoleName(t.name, oldName, newName))
  {
    assert (targets + [t])[..|targets|] == targets;
  }

  /** `r` is `roles` with the selected ones among the first `j` renamed, and the rest as they were. */
  ghost predicate RolesRenamedUpTo(roles: seq<Role>, r: seq<Role>, j: nat, oldName: string, newName: string)
  {
    |r| == |roles| &&
    forall i :: 0 <= i < |roles| ==> r[i] == if i < j then RoleAfterRename(roles[i], oldName, newName) else roles[i]
  }

  /** With ids distinct, renaming the matches of the first `j` roles renames exactly the
      selected ones among them, each once, and leaves the rest. */
  lemma {:induction false} RenameRolesPrefix(roles: seq<Role>, oldName: string, newName: string, j: nat)
    requires DistinctRoleIds(roles)
    requires j <= |roles|
    ensures RolesRenamedUpTo(roles, RenameRoles(roles, MatchingRoles(roles[..j], oldName), oldName, newName), j, oldName, newName)
  {
    if j > 0 {
      RenameRolesPrefix(roles, oldName, newName, j - 1);
      RolePrefixStep(roles, oldName, newName, j);
    }
  }

  /** The step of RenameRolesPrefix: one more entry of `roles` considered. */
  lemma RolePrefixStep(roles: seq<Role>, oldName: string, newName: string, j: nat)
    requires DistinctRoleIds(roles)
    requires 0 < j <= |roles|
    requires RolesRenamedUpTo(roles, RenameRoles(roles, MatchingRoles(roles[..j - 1], oldName), oldName, newName), j - 1, oldName, newName)
    ensures RolesRenamedUpTo(roles, RenameRoles(roles, MatchingRoles(roles[..j], oldName), oldName, newName), j, oldName, newName)
  {
    var prevTargets := MatchingRoles(roles[..j - 1], oldName);
    var prev := RenameRoles(roles, prevTargets, oldName, newName);
    var last := roles[j - 1];
    MatchingRolesSnoc(roles, oldName, j);
    if RoleSelected(last.name, oldName) {
      RenameRolesSnoc(roles, prevTargets, last, oldName, newName);
      RenameOneRole(roles, prev, oldName, newName, j);
    } else {
      assert prevTargets + [] == prevTargets;
      SkipOneRole(roles, prev, oldName, newName, j);
    }
  }

  /** The step of RenameRolesPrefix for a selected role: renaming it by its id touches that role only. */
  lemma RenameOneRole(roles: seq<Role>, prev: seq<Role>, oldName: string, newName: string, j: nat)
    requires DistinctRoleIds(roles)
    requires 0 < j <= |roles|
    requires RoleSelected(roles[j - 1].name, oldName)
    requires RolesRenamedUpTo(roles, prev, j - 1, oldName, newName)
    ensures RolesRenamedUpTo(roles, WithRoleName(prev, roles[j - 1].id, NewRoleName(roles[j - 1].name, oldName, newName)),
                             j, oldName, newName)
  {
    var last := roles[j - 1];
    forall i | 0 <= i < |roles| && i != j - 1
      ensures prev[i].id != last.id
    {
      assert prev[i].id == roles[i].id;
    }
  }

  /** The step of RenameRolesPrefix for a role that is not selected. */
  lemma SkipOneRole(roles: seq<Role>, prev: seq<Role>, oldName: string, newName: string, j: nat)
    requires 0 < j <= |roles|
    requires !RoleSelected(roles[j - 1].name, oldName)
    requires RolesRenamedUpTo(roles, prev, j - 1, oldName, newName)
    ensures RolesRenamedUpTo(roles, prev, j, oldName, newName)
  {
  }

  /** The whole role loop, when every rename succeeds: the selected roles are renamed, each once. */
  lemma RenameRolesAll(roles: seq<Role>, oldName: string, newName: string)
    requires DistinctRoleIds(roles)
    ensures var r := RenameRoles(roles, MatchingRoles(roles, oldName), oldName, newName);
            forall i :: 0 <= i < |roles| ==> r[i] == RoleAfterRename(roles[i], oldName, newName)
  {
    RenameRolesPrefix(roles, oldName, newName, |roles|);
    assert roles[..|roles|] == roles;
    assert RolesRenamedUpTo(roles, RenameRoles(roles, MatchingRoles(roles, oldName), oldName, newName), |roles|, oldName, newName);
  }

  /** The first `k` matches of `roles` are the matches of some prefix of `roles`. */
  lemma {:induction false} MatchingRolesPrefix(roles: seq<Role>, oldName: string, k: nat) returns (j: nat)
    requires k <= |MatchingRoles(roles, oldName)|
    ensures j <= |roles|
    ensures MatchingRoles(roles[..j], oldName) == MatchingRoles(roles, oldName)[..k]
    decreases |roles|
  {
    if k == 0 {
      j := 0;
      assert roles[..0] == [];
    } else {
      var init := roles[..|roles| - 1];
      if k <= |MatchingRoles(init, oldName)| {
        j := MatchingRolesPrefix(init, oldName, k);
        assert init[..j] == roles[..j];
      } else {
        j := |roles|;
        assert roles[..j] == roles;
      }
    }
  }

  /** With ids distinct, an entry is among the matches of the first `j` entries exactly when
      it is one of them and it is selected. */
  lemma RoleInPrefixMatches(roles: seq<Role>, oldName: string, j: nat, i: nat)
    requires DistinctRoleIds(roles)
    requires j <= |roles| && i < |roles|
    ensures roles[i] in MatchingRoles(roles[..j], oldName) <==> i < j && RoleSelected(roles[i].name, oldName)
  {
    MatchingRolesMembers(roles[..j], oldName, roles[i]);
    if roles[i] in roles[..j] {
      var i' :| 0 <= i' < j && roles[..j][i'] == roles[i];
      assert roles[i'].id == roles[i].id;
    }
    if i < j {
      assert roles[..j][i] == roles[i];
    }
  }

  /** A run stopped after the first `k` matches, as when the platform rejects the next rename:
      with ids distinct, exactly the roles among those `k` matches carry their new name, renamed
      once, and every other entry is as it was. */
  lemma RenameRolesUpTo(roles: seq<Role>, oldName: string, newName: string, k: nat)
    requires DistinctRoleIds(roles)
    requires k <= |MatchingRoles(roles, oldName)|
    ensures var targets := MatchingRoles(roles, oldName)[..k];
            var r := RenameRoles(roles, targets, oldName, newName);
            |r| == |roles|
            && forall i :: 0 <= i < |roles| ==>
                 r[i] == if roles[i] in targets then roles[i].(name := NewRoleName(roles[i].name, oldName, newName)) else roles[i]
  {
    var j := MatchingRolesPrefix(roles, oldName, k);
    RenameRolesPrefix(roles, oldName, newName, j);
    var targets := MatchingRoles(roles, oldName)[..k];
    var r := RenameRoles(roles, targets, oldName, newName);
    assert RolesRenamedUpTo(roles, r, j, oldName, newName);
    forall i | 0 <= i < |roles|
      ensures r[i] == if roles[i] in targets then roles[i].(name := NewRoleName(roles[i].name, oldName, newName)) else roles[i]
    {
      RoleInPrefixMatches(roles, oldName, j, i);
    }
  }

  lemma MatchingChannelsSnoc(channels: seq<GuildChannel>, oldName: string, j: nat)
    requires 0 < j <= |channels|
    ensures MatchingChannels(channels[..j], oldName)
            == MatchingChannels(channels[..j - 1], oldName)
               + (if ChannelSelected(channels[j - 1].name, oldName) then [channels[j - 1]] else [])
  {
    assert channels[..j][..j - 1] == channels[..j - 1];
  }

  lemma RenameChannelsSnoc(channels: seq<GuildChannel>, targets: seq<GuildChannel>, t: GuildChannel, oldName: string, newName: string)
    ensures RenameChannels(channels, targets + [t], oldName, newName)
            == WithChannelName(RenameChannels(channels, targets, oldName, newName), t.id, NewChannelName(t.name, oldName, newName))
  {
    assert (targets + [t])[..|targets|] == targets;
  }

  /** `r` is `channels` with the selected ones among the first `j` renamed, and the rest as they were. */
  ghost predicate ChannelsRenamedUpTo(channels: seq<GuildChannel>, r: seq<GuildChannel>, j: nat, oldName: string, newName: string)
  {
    |r| == |channels| &&
    forall i :: 0 <= i < |channels| ==> r[i] == if i < j then ChannelAfterRename(channels[i], oldName, newName) else channels[i]
  }

  /** With ids distinct, renaming the matches of the first `j` channels renames exactly the
      selected ones among them, each once, and leaves the rest. */
  lemma {:induction false} RenameChannelsPrefix(channels: seq<GuildChannel>, oldName: string, newName: string, j: nat)
    requires DistinctChannelIds(channels)
    requires j <= |channels|
    ensures ChannelsRenamedUpTo(channels, RenameChannels(channels, MatchingChannels(channels[..j], oldName), oldName, newName),
                                j, oldName, newName)
  {
    if j > 0 {
      RenameChannelsPrefix(channels, oldName, newName, j - 1);
      ChannelPrefixStep(channels, oldName, newName, j);
    }
  }

  /** The step of RenameChannelsPrefix: one more entry of `channels` considered. */
  lemma ChannelPrefixStep(channels: seq<GuildChannel>, oldName: string, newName: string, j: nat)
    requires DistinctChannelIds(channels)
    requires 0 < j <= |channels|
    requires ChannelsRenamedUpTo(channels, RenameChannels(channels, MatchingChannels(channels[..j - 1], oldName), oldName, newName), j - 1, oldName, newName)
    ensures ChannelsRenamedUpTo(channels, RenameChannels(channels, MatchingChannels(channels[..j], oldName), oldName, newName), j, oldName, newName)
  {
    var prevTargets := MatchingChannels(channels[..j - 1], oldName);
    var prev := RenameChannels(channels, prevTargets, oldName, newName);
    var last := channels[j - 1];
    MatchingChannelsSnoc(channels, oldName, j);
    if ChannelSelected(last.name, oldName) {
      RenameChannelsSnoc(channels, prevTargets, last, oldName, newName);
      RenameOneChannel(channels, prev, oldName, newName, j);
    } else {
      assert prevTargets + [] == prevTargets;
      SkipOneChannel(channels, prev, oldName, newName, j);
    }
  }

  /** The step of RenameChannelsPrefix for a selected channel: renaming it by its id touches that channel only. */
  lemma RenameOneChannel(channels: seq<GuildChannel>, prev: seq<GuildChannel>, oldName: string, newName: string, j: nat)
    requires DistinctChannelIds(channels)
    requires 0 < j <= |channels|
    requires ChannelSelected(channels[j - 1].name, oldName)
    requires ChannelsRenamedUpTo(channels, prev, j - 1, oldName, newName)
    ensures ChannelsRenamedUpTo(channels, WithChannelName(prev, channels[j - 1].id, NewChannelName(channels[j - 1].name, oldName, newName)),
                                j, oldName, newName)
  {
    var last := channels[j - 1];
    forall i | 0 <= i < |channels| && i != j - 1
      ensures prev[i].id != last.id
    {
      assert prev[i].id == channels[i].id;
    }
  }

  /** The step of RenameChannelsPrefix for a channel that is not selected. */
  lemma SkipOneChannel(channels: seq<GuildChannel>, prev: seq<GuildChannel>, oldName: string, newName: string, j: nat)
    requires 0 < j <= |channels|
    requires !ChannelSelected(channels[j - 1].name, oldName)
    requires ChannelsRenamedUpTo(channels, prev, j - 1, oldName, newName)
    ensures ChannelsRenamedUpTo(channels, prev, j, oldName, newName)
  {
  }

  /** The whole channel loop, when every rename succeeds: the selected channels are renamed, each once. */
  lemma RenameChannelsAll(channels: seq<GuildChannel>, oldName: string, newName: string)
    requires DistinctChannelIds(channels)
    ensures var r := RenameChannels(channels, MatchingChannels(channels, oldName), oldName, newName);
            forall i :: 0 <= i < |channels| ==> r[i] == ChannelAfterRename(channels[i], oldName, newName)
  {
    RenameChannelsPrefix(channels, oldName, newName, |channels|);
    assert channels[..|channels|] == channels;
    assert ChannelsRenamedUpTo(channels, RenameChannels(channels, MatchingChannels(channels, oldName), oldName, newName),
                               |channels|, oldName, newName);
  }

  /** The first `k` matches of `channels` are the matches of some prefix of `channels`. */
  lemma {:induction false} MatchingChannelsPrefix(channels: seq<GuildChannel>, oldName: string, k: nat) returns (j: nat)
    requires k <= |MatchingChannels(channels, oldName)|
    ensures j <= |channels|
    ensures MatchingChannels(channels[..j], oldName) == MatchingChannels(channels, oldName)[..k]
    decreases |channels|
  {
    if k == 0 {
      j := 0;
      assert channels[..0] == [];
    } else {
      var init := channels[..|channels| - 1];
      if k <= |MatchingChannels(init, oldName)| {
        j := MatchingChannelsPrefix(init, oldName, k);
        assert init[..j] == channels[..j];
      } else {
        j := |channels|;
        assert channels[..j] == channels;
      }
    }
  }

  /** With ids distinct, an entry is among the matches of the first `j` entries exactly when
      it is one of them and it is selected. */
  lemma ChannelInPrefixMatches(channels: seq<GuildChannel>, oldName: string, j: nat, i: nat)
    requires DistinctChannelIds(channels)
    requires j <= |channels| && i < |channels|
    ensures channels[i] in MatchingChannels(channels[..j], oldName) <==> i < j && ChannelSelected(channels[i].name, oldName)
  {
    MatchingChannelsMembers(channels[..j], oldName, channels[i]);
    if channels[i] in channels[..j] {
      var i' :| 0 <= i' < j && channels[..j][i'] == channels[i];
      assert channels[i'].id == channels[i].id;
    }
    if i < j {
      assert channels[..j][i] == channels[i];
    }
  }

  /** A run stopped after the first `k` matches, as when the platform rejects the next rename:
      with ids distinct, exactly the channels among those `k` matches carry their new name, renamed
      once, and every other entry is as it was. */
  lemma RenameChannelsUpTo(channels: seq<GuildChannel>, oldName: string, newName: string, k: nat)
    requires DistinctChannelIds(channels)
    requires k <= |MatchingChannels(channels, oldName)|
    ensures var targets := MatchingChannels(channels, oldName)[..k];
            var r := RenameChannels(channels, targets, oldName, newName);
            |r| == |channels|
            && forall i :: 0 <= i < |channels| ==>
                 r[i] == if channels[i] in targets then channels[i].(name := NewChannelName(channels[i].name, oldName, newName)) else channels[i]
  {
    var j := MatchingChannelsPrefix(channels, oldName, k);
    RenameChannelsPrefix(channels, oldName, newName, j);
    var targets := MatchingChannels(channels, oldName)[..k];
    var r := RenameChannels(channels, targets, oldName, newName);
    assert ChannelsRenamedUpTo(channels, r, j, oldName, newName);
    forall i | 0 <= i < |channels|
      ensures r[i] == if channels[i] in targets then channels[i].(name := NewChannelName(channels[i].name, oldName, newName)) else channels[i]
    {
      ChannelInPrefixMatches(channels, oldName, j, i);
    }
  }

  // ---------------------------------------------------------------------------
  // The command

  /** One more successful rename in the role loop. */
  lemma RoleLoopStep(roles: seq<Role>, targets: seq<Role>, k: nat, oldName: string, newName: string)
    requires k < |targets|
    ensures RenameRoles(roles, targets[..k + 1], oldName, newName)
            == WithRoleName(RenameRoles(roles, targets[..k], oldName, newName), targets[k].id, NewRoleName(targets[k].name, oldName, newName))
    ensures RoleLines(targets[..k + 1]) == RoleLines(targets[..k]) + [RenamedRole(targets[k].id)]
  {
    assert targets[..k + 1] == targets[..k] + [targets[k]];
    RenameRolesSnoc(roles, targets[..k], targets[k], oldName, newName);
  }

  /** One more successful rename in the channel loop. */
  lemma ChannelLoopStep(channels: seq<GuildChannel>, targets: seq<GuildChannel>, k: nat, oldName: string, newName: string)
    requires k < |targets|
    ensures RenameChannels(channels, targets[..k + 1], oldName, newName)
            == WithChannelName(RenameChannels(channels, targets[..k], oldName, newName), targets[k].id,
                               NewChannelName(targets[k].name, oldName, newName))
    ensures ChannelLines(targets[..k + 1]) == ChannelLines(targets[..k]) + [RenamedChannel(targets[k].id)]
  {
    assert targets[..k + 1] == targets[..k] + [targets[k]];
    RenameChannelsSnoc(channels, targets[..k], targets[k], oldName, newName);
  }

  /** The loop over the matching roles: renames them in order until the platform rejects one,
      and returns how many it renamed. */
  method RenameMatchingRoles(guild: Guild, matchingRoles: seq<Role>, oldName: string, newName: string, renameOk: Id -> bool)
    returns (renamed: nat, lines: seq<RaidLine>)
    modifies guild`roles
    ensures renamed == LeadingSuccesses(RoleIds(matchingRoles), renameOk)
    ensures guild.roles == RenameRoles(old(guild.roles), matchingRoles[..renamed], oldName, newName)
    ensures lines == RoleLines(matchingRoles[..renamed])
  {
    ghost var ids := RoleIds(matchingRoles);
    lines := [];
    renamed := 0;
    while renamed < |matchingRoles|
      invariant renamed <= |matchingRoles|
      invariant renamed <= LeadingSuccesses(ids, renameOk)
      invariant guild.roles == RenameRoles(old(guild.roles), matchingRoles[..renamed], oldName, newName)
      invariant lines == RoleLines(matchingRoles[..renamed])
    {
      var role := matchingRoles[renamed];
      var ok := guild.SetRoleName(role.id, NewRoleName(role.name, oldName, newName), renameOk(role.id));
      assert ids[renamed] == role.id;
      if !ok {
        LeadingSuccessesStop(ids, renameOk, renamed);
        return;
      }
      LeadingSuccessesStep(ids, renameOk, renamed);
      lines := lines + [RenamedRole(role.id)];
      RoleLoopStep(old(guild.roles), matchingRoles, renamed, oldName, newName);
      renamed := renamed + 1;
    }
  }

  /** The loop over the matching channels: renames them in order, truncated, until the platform
      rejects one, and returns how many it renamed. */
  method RenameMatchingChannels(guild: Guild, matchingChannels: seq<GuildChannel>, oldName: string, newName: string, renameOk: Id -> bool)
    returns (renamed: nat, lines: seq<RaidLine>)
    modifies guild`channels
    ensures renamed == LeadingSuccesses(ChannelIds(matchingChannels), renameOk)
    ensures guild.channels == RenameChannels(old(guild.channels), matchingChannels[..renamed], oldName, newName)
    ensures lines == ChannelLines(matchingChannels[..renamed])
  {
    ghost var ids := ChannelIds(matchingChannels);
    lines := [];
    renamed := 0;
    while renamed < |matchingChannels|
      invariant renamed <= |matchingChannels|
      invariant renamed <= LeadingSuccesses(ids, renameOk)
      invariant guild.channels == RenameChannels(old(guild.channels), matchingChannels[..renamed], oldName, newName)
      invariant lines == ChannelLines(matchingChannels[..renamed])
    {
      var channel := matchingChannels[renamed];
      var newChannelName := NewChannelName(channel.name, oldName, newName);
      var ok := guild.SetChannelName(channel.id, newChannelName, renameOk(channel.id));
      assert ids[renamed] == channel.id;
      if !ok {
        LeadingSuccessesStop(ids, renameOk, renamed);
        return;
      }
      LeadingSuccessesStep(ids, renameOk, renamed);
      lines := lines + [RenamedChannel(channel.id)];
      ChannelLoopStep(old(guild.channels), matchingChannels, renamed, oldName, newName);
      renamed := renamed + 1;
    }
  }

  /** `execute` of the `rename-raid` command: `oldName` is the name of the tagged role, and
      `renameOk` says which `setName` calls the platform accepts; the first it rejects ends the command. */
  method Execute(isAdmin: bool, guild: Guild, oldName: string, newName: string, renameOk: Id -> bool)
    returns (reply: RenameReply, status: seq<RaidLine>)
    modifies guild`roles, guild`channels
    ensures !isAdmin ==> reply == RenameNotAdmin && status == []
                         && guild.roles == old(guild.roles) && guild.channels == old(guild.channels)
    ensures isAdmin ==>
              var roleTargets := MatchingRoles(old(guild.roles), oldName);
              var kr := LeadingSuccesses(RoleIds(roleTargets), renameOk);
              guild.roles == RenameRoles(old(guild.roles), roleTargets[..kr], oldName, newName)
              && if kr < |roleTargets| then
                   reply == RenameAborted && guild.channels == old(guild.channels)
                   && status == [Renaming(oldName, newName)] + RoleLines(roleTargets[..kr])
                 else
                   var channelTargets := MatchingChannels(old(guild.channels), oldName);
                   var kc := LeadingSuccesses(ChannelIds(channelTargets), renameOk);
                   guild.channels == RenameChannels(old(guild.channels), channelTargets[..kc], oldName, newName)
                   && reply == (if kc < |channelTargets| then RenameAborted else RaidDone)
                   && status == [Renaming(oldName, newName)] + RoleLines(roleTargets) + ChannelLines(channelTargets[..kc])
                                + (if kc < |channelTargets| then [] else [RaidRenamed(newName)])
  {
    if !isAdmin {
      return RenameNotAdmin, [];
    }
    status := [Renaming(oldName, newName)];

    var matchingRoles := MatchingRoles(guild.roles, oldName);
    var rolesRenamed, roleLines := RenameMatchingRoles(guild, matchingRoles, oldName, newName, renameOk);
    status := status + roleLines;
    if rolesRenamed < |matchingRoles| {
      return RenameAborted, status;
    }
    assert matchingRoles[..rolesRenamed] == matchingRoles;

    var matchingChannels := MatchingChannels(guild.channels, oldName);
    var channelsRenamed, channelLines := RenameMatchingChannels(guild, matchingChannels, oldName, newName, renameOk);
    status := status + channelLines;
    if channelsRenamed < |matchingChannels| {
      return RenameAborted, status;
    }
    status := status + [RaidRenamed(newName)];
    reply := RaidDone;
  }
}
