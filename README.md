# Archive and rename-raid commands of a guild bot, in Dafny

This project models two slash commands of a guild bot for a chat platform, and proves
what each one does to the guild's state.

- **`archive`** is run in a channel. It checks that the caller is an administrator and that
  the channel kind is supported. Next it fetches the member roster and records the human
  members who can see the channel. It then reuses the first category named `archive`
  (compared in lower case) or creates a category `Archive`, and moves the channel under
  it with its permissions locked to the category's. After that it deletes every
  permission overwrite, best effort, and denies `@everyone` the view flag. Finally it
  gives each recorded member a fixed read-only bundle, counting successes and pausing
  after every tenth.
- **`rename-raid`** renames a raid group. A role is renamed when it is named exactly
  `oldName` or starts with `oldName` and a space. A channel is renamed when it is named
  the lower-cased `oldName`, starts with the lower-cased `oldName` and a dash, or is named
  exactly `oldName`. Each rename keeps the suffix after the old name, and new channel
  names are truncated to 100 characters.

Modules:

- `Text` (`text.dfy`): ASCII `toLowerCase`, `startsWith` and `slice` on `seq<char>`.
- `Platform` (`platform.dfy`): permission flags, overwrite tables, the
  `permissionOverwrites.edit` merge, and the `Channel` and `Guild` classes. Their methods
  are the platform calls, and each takes the platform's answer (success or failure) as an
  argument.
- `Archive` (`archive.dfy`): the `archive` command. `Effects` bundles every answer the
  platform gives during one run.
- `RenameRaid` (`rename_raid.dfy`): the `rename-raid` command. `renameOk` says which
  `setName` calls the platform accepts.

The loops of the source are `while`/`for` loops in methods. Each method is proved equal to
a specification function over the sequence it walks: `Snapshot`, `Stripped`,
`RestoreTable`, `RestoreEvents`, `Successes`, `RenameRoles`, `RenameChannels` and
`LeadingSuccesses`. The source's promises are then proved as lemmas about those
functions.

Two failures in `archive` are not caught: category creation (`commands/archive.js:68`) and
`setParent` (`commands/archive.js:78`). Both end the command where they happen, as
`Aborted(..)`, with whatever was already done left in place. `rename-raid` catches no
`setName` failure either, so the first rejected rename ends that command
(`RenameAborted`), with the earlier renames kept.

## Model

| member | source | states |
|---|---|---|
| Archive.Execute | commands/archive.js:12-134 | For a non-admin caller, a reply of NotAdmin with no status lines and nothing changed. For an unsupported channel kind, UnsupportedKind and nothing changed. When the roster fetch fails, FetchFailed after the header line only, with channel and guild unchanged. Otherwise the snapshot decides the count line. A category is reused if one matches, and created (and appended to the cache) only if none does. A failed creation aborts with channel and guild unchanged. A failed setParent aborts with parent and overwrites unchanged and no restore events. On success, the parent is the category's id, and the table is the category's table stripped, hidden from `@everyone` and restored for the snapshot. The restored count is the number of successes, and the status log ends with the count line and the success line whatever failed. |
| Archive.ArchiveSnapshot | commands/archive.js:62-134 | From the category step on: the same outcomes as Execute, with the status lines this part posts. |
| Archive.ReuseOrCreateCategory | commands/archive.js:63-75 | Returns the first matching cached category with the cache unchanged. With no match, returns a new `Archive` category appended to the cache, or None with the cache unchanged when creation fails. `createdNew` holds exactly when one was created. |
| Archive.LockDown | commands/archive.js:82-130 | The table after strip, `@everyone` deny and restore equals `RestoreTable(Hidden(old table))`. The count is the number of successes, and the events are `RestoreEvents` of the snapshot. |
| Archive.SupportedKind | commands/archive.js:22-27 | The kinds the command accepts: GuildText, GuildVoice, GuildForum and GuildAnnouncement. Execute replies UnsupportedKind exactly for an admin in any other kind. |
| Archive.Keeps | commands/archive.js:49-51 | A member is kept when it is not a bot and its view check says it can view. A check that throws counts as not kept. Snapshot's membership clause and SnapshotExcludes are stated through it. |
| Archive.IsArchiveCategory | commands/archive.js:64 | A channel matches when it is a category whose ASCII lower-cased name is `archive`. FindArchive, FindArchiveIsFirst and CreatedCategoryIsFound are stated through it. |
| Archive.Stripped | commands/archive.js:83-89 | The table after one delete attempt per entry. StripOverwrites is proved to produce it, StrippedKeepsOnlyFailures says which entries survive, and StrippedWithoutFailuresIsEmpty says it is empty when no delete fails. |
| Archive.Hidden | commands/archive.js:83-100 | The stripped table with the `@everyone` edit applied when it succeeds. HiddenDeniesEveryone and HiddenWithoutFailures give its `@everyone` entry and its exact content. |
| Archive.RestoreTable | commands/archive.js:104-129 | The table after the restore loop. RestoreAccess is proved to produce it, and RestoreTableEntries gives every entry of it. |
| Archive.RestoreEvents | commands/archive.js:104-130 | The grants, failures and pauses of the restore loop, in order. RestoreAccess is proved to produce them. RestoreAttemptsEveryMember, RestoreOutcomesMatch, RestoreGrantsCount, RestorePausesCount and PausesFollowEveryTenthGrant state their properties. |
| Archive.CollectSnapshot | commands/archive.js:47-57 | The loop's result equals `Snapshot(roster, view)`. |
| Archive.Snapshot | commands/archive.js:47-57 | No longer than the roster. An id is in it iff some roster member with that id is not a bot and its view check says yes. |
| Archive.SnapshotInRosterOrder | commands/archive.js:47-57 | The snapshot is a subsequence of the roster's ids, so roster order is kept. |
| Archive.SnapshotExcludes | commands/archive.js:49-55 | With distinct roster ids, a bot, a member who cannot view and a member whose check threw are never in the snapshot. |
| Archive.FindArchive | commands/archive.js:63-65 | A result is in the cache and is a category whose lower-cased name is `archive`. None iff no cached channel matches. |
| Archive.FindArchiveIsFirst | commands/archive.js:63-65 | The found category is the first match in cache order. |
| Archive.CreatedCategoryIsFound | commands/archive.js:67-72 | A created `Archive` category matches the search, so a second run reuses it instead of creating another. |
| Archive.StripOverwrites | commands/archive.js:83-89 | Over the keys captured when the loop starts, each entry gets exactly one delete attempt and no key is attempted twice. The table ends as `Stripped`: only the entries whose delete failed, unchanged. |
| Archive.StrippedKeepsOnlyFailures | commands/archive.js:83-89 | An entry survives iff it was there and its delete failed, and a surviving entry is as it was. |
| Archive.StrippedWithoutFailuresIsEmpty | commands/archive.js:83-89 | With no failed delete, the table ends empty. |
| Archive.HiddenDeniesEveryone | commands/archive.js:94-97 | After a successful `@everyone` edit, `@everyone` has an entry that denies and does not allow ViewChannel. |
| Archive.HiddenWithoutFailures | commands/archive.js:83-100 | With no failed delete and a successful `@everyone` edit, the table holds exactly one entry: `@everyone` denied ViewChannel. |
| Archive.RestoreAccess | commands/archive.js:103-130 | The loop's count equals `Successes`, its events equal `RestoreEvents`, and its table equals `RestoreTable` of the snapshot. |
| Archive.Successes | commands/archive.js:103-124 | The restored count is at most the snapshot size. |
| Archive.RestoreTableEntries | commands/archive.js:104-129 | A member whose edit succeeded carries the read-only bundle merged over its prior entry. Every other entry is unchanged, and an entry is new only for a successful member. |
| Archive.ReadOnlyBundleExactly | commands/archive.js:106-123 | On an empty entry, the bundle allows exactly ViewChannel and ReadMessageHistory and denies exactly the 14 listed flags. |
| Archive.RestoreAttemptsEveryMember | commands/archive.js:104-130 | Every snapshot member gets exactly one attempt, in snapshot order. |
| Archive.RestoreOutcomesMatch | commands/archive.js:105-129 | Each attempt records the platform's answer for that member. |
| Archive.RestoreGrantsCount | commands/archive.js:124 | The number of granted events equals the restored count. |
| Archive.RestorePausesCount | commands/archive.js:124-126 | The number of pauses is the restored count divided by 10. |
| Archive.PausesFollowEveryTenthGrant | commands/archive.js:124-128 | A pause comes exactly right after a success that brings the count to a multiple of 10, and nowhere else. In particular, no failure is followed by a pause. |
| Platform.ApplyOptions | commands/archive.js:95-97 | An edit allows each flag it lists as true and denies each it lists as false. Flags it does not list keep their previous allow and deny bits. |
| Platform.ApplyOptionsIdempotent | commands/archive.js:106-123 | Applying the same edit twice equals applying it once. |
| Platform.Edit | commands/archive.js:95-123 | Only the edited principal's entry changes, and that principal gets an entry. |
| Platform.Channel.SetParent | commands/archive.js:78 | On success, the parent is the category and the overwrites are the category's table (lockPermissions). On failure, nothing changes. |
| Platform.Channel.DeleteOverwrite | commands/archive.js:85 | On success, the principal's entry is gone; on failure, the table is unchanged. |
| Platform.Channel.EditOverwrite | commands/archive.js:95-97 | On success, the table is `Edit` of the old one; on failure, it is unchanged. |
| Platform.Guild.CreateCategory | commands/archive.js:68-72 | On success, a new empty-table category named as given is appended to the cache; on failure, nothing changes. |
| Platform.Guild.SetRoleName | commands/rename-raid.js:39 | On success, the role with that id bears the new name; on failure, nothing changes. |
| Platform.Guild.SetChannelName | commands/rename-raid.js:62 | On success, the channel with that id bears the new name; on failure, nothing changes. |
| Text.LowerStr | commands/rename-raid.js:46 | ASCII lower-casing keeps the length and lowers each character in place. |
| Text.LowerStrIdempotent | commands/rename-raid.js:52 | Lower-casing twice is lower-casing once. |
| Text.StartsWith | commands/rename-raid.js:34 | `startsWith`: the string's first characters are the prefix. The role and channel filters use it. |
| Text.SliceFrom | commands/rename-raid.js:38 | `slice(start)`: everything from `start` on, or "" past the end. RoleNameShape and ChannelNameShape state the suffix it yields. |
| Text.Truncate | commands/rename-raid.js:60 | `slice(0, n)` is a prefix of at most n characters; it is the whole string when that fits, and exactly n long otherwise. |
| RenameRaid.RoleSelected | commands/rename-raid.js:33-35 | A role belongs to the raid when it is named `oldName` or starts with `oldName` and a space. MatchingRolesMembers proves the filter selects exactly these. |
| RenameRaid.NewRoleName | commands/rename-raid.js:38-39 | `newName` followed by what came after `oldName`. RoleNameShape and RoleRenameReversible state its shape and that it can be undone. |
| RenameRaid.ChannelSelected | commands/rename-raid.js:45-47 | A channel belongs to the raid when it is named the lower-cased `oldName`, starts with it and a dash, or is named exactly `oldName`. MatchingChannelsMembers proves the filter selects exactly these. |
| RenameRaid.FullChannelName | commands/rename-raid.js:52-57 | The new channel name before truncation. ChannelNameShape states both of its branches. |
| RenameRaid.MatchingRoles | commands/rename-raid.js:33-35 | The filter is no longer than the cache. MatchingRolesMembers gives its membership, and MatchingRolesPrefix gives its order. |
| RenameRaid.MatchingRolesPrefix | commands/rename-raid.js:33-35 | The first k matches are exactly the matches of some prefix of the cache, so the filter keeps cache order. |
| RenameRaid.MatchingChannels | commands/rename-raid.js:45-47 | The filter is no longer than the cache. MatchingChannelsMembers gives its membership, and MatchingChannelsPrefix gives its order. |
| RenameRaid.MatchingChannelsPrefix | commands/rename-raid.js:45-47 | The first k matches are exactly the matches of some prefix of the cache, so the filter keeps cache order. |
| RenameRaid.RoleNameShape | commands/rename-raid.js:33-39 | A selected role named exactly `oldName` becomes exactly `newName`. Any other selected role has a space right after `oldName` and becomes `newName` followed by its suffix. |
| RenameRaid.RoleRenameReversible | commands/rename-raid.js:33-39 | A renamed role is selected by the new name, and renaming it back gives the original name. |
| RenameRaid.ChannelNameShape | commands/rename-raid.js:45-57 | A selected channel equal to `oldName` up to case gets `newName` before truncation. Otherwise it starts with the lower-cased `oldName` and a dash, and gets `newName` followed by its suffix, which starts with the dash. |
| RenameRaid.NewChannelName | commands/rename-raid.js:59-60 | The final name is at most 100 characters and a prefix of the untruncated name. It equals that name when the name fits in 100 characters. |
| RenameRaid.MatchingRolesMembers | commands/rename-raid.js:33-35 | A role is matched iff it is in the cache and is named `oldName` or starts with `oldName` and a space. |
| RenameRaid.MatchingChannelsMembers | commands/rename-raid.js:45-47 | A channel is matched iff it is in the cache and is named the lower-cased `oldName`, starts with it and a dash, or is named exactly `oldName`. |
| RenameRaid.RenameRoles | commands/rename-raid.js:37-42 | Renaming keeps the number of roles and every role's id. |
| RenameRaid.RenameChannels | commands/rename-raid.js:49-65 | Renaming keeps the number of channels and every channel's id. |
| RenameRaid.RenameRolesAll | commands/rename-raid.js:33-42 | With distinct ids, after renaming every match, each selected role bears its new name, renamed once, and every other role is as it was. |
| RenameRaid.RenameChannelsAll | commands/rename-raid.js:45-65 | With distinct ids, after renaming every match, each selected channel bears its truncated new name, renamed once, and every other channel is as it was. |
| RenameRaid.RenameRolesUpTo | commands/rename-raid.js:33-42 | With distinct ids, take a run stopped after the first k matches, as Execute leaves it when the next `setName` is rejected. Exactly the roles among those k matches bear their new name, renamed once. Every other role is as it was. |
| RenameRaid.RenameChannelsUpTo | commands/rename-raid.js:45-65 | With distinct ids, take a run stopped after the first k matching channels. Exactly the channels among them bear their truncated new name, renamed once. Every other channel is as it was. |
| RenameRaid.LeadingSuccesses | commands/rename-raid.js:37-65 | The count k of renames done before the first rejected one: all of the first k are accepted, and the next, if any, is rejected. |
| RenameRaid.LeadingSuccessesIs | commands/rename-raid.js:37-65 | Any k with that property is the count, so the count is well defined. |
| RenameRaid.RenameMatchingRoles | commands/rename-raid.js:37-42 | The loop renames the matching roles in order until one is rejected. The count is `LeadingSuccesses`, the roles are the matches up to there renamed, and one status line is added per rename. |
| RenameRaid.RenameMatchingChannels | commands/rename-raid.js:49-65 | The loop renames the matching channels in order, truncated, until one is rejected. The count is `LeadingSuccesses`, the channels are the matches up to there renamed, and one status line is added per rename. |
| RenameRaid.Execute | commands/rename-raid.js:16-68 | A non-admin caller gets a refusal with nothing renamed. Otherwise all roles are handled before any channel. A rejected role rename aborts with the channels unchanged. The status log is the header line, then one line per role and one per channel renamed, then the success line only when nothing was rejected. |

## Left out

- `index.js` (command loading, client wiring, login, the generic error reply to an uncaught failure) and `commands/create-raid.js` (one fixed reply) are not part of this model.
- The platform's permission resolution behind `permissionsFor(member).has(ViewChannel)` is an oracle returning can view, cannot view or an error.
- How the platform carries out `members.fetch`, `channels.create`, `setParent`, overwrite `delete`/`edit` and `setName` is not modelled: each is a state update plus a success oracle. Two points of platform behaviour are modelled: `lockPermissions` copies the category's overwrite table onto the channel, and `edit` merges the listed flags into the principal's existing entry.
- The 500 ms timer, `deferReply`/`editReply`/`reply` and async scheduling are left out. A pause is a counted event, and only the final cumulative status log is kept, not each intermediate `editReply` post.
- A rejected `deferReply` or `editReply` is not modelled as a failure. In the source it is uncaught and ends the command at that call, as a failed `setParent` does. The call sites are `commands/archive.js:34, 60, 74, 80, 91, 134` and `commands/rename-raid.js:25, 28, 41, 64, 68`. The model assumes every one of these calls succeeds.
- `console.error` logging, emoji and Markdown in the status text, ephemeral flags and the slash-command metadata are left out. Status lines are a datatype.
- Text.LowerStr: ASCII-only lower-casing. Unicode case mapping, which can change a string's length, is left out.
- Strings are sequences of characters; the UTF-16 code-unit semantics of `slice` are left out.
- Archive.StripOverwrites: deletes in an arbitrary order of the captured keys, not the cache's enumeration order. The final table does not depend on the order.
- RenameRaid.Execute: a status line names the renamed role or channel by id, not by `role.name`/`channel.name`. The name read after `setName` depends on when the platform's update reaches the cache.
- RenameRaid.RenameRolesAll: requires distinct role ids (the cache is keyed by id). RenameRaid.RenameChannelsAll, RenameRaid.RenameRolesUpTo and RenameRaid.RenameChannelsUpTo do the same.
- The idempotence of a second `archive` run is covered only as far as reusing the created category (`Archive.CreatedCategoryIsFound`). The second run's permission edits are not composed with the first's.
