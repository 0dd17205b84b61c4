/** The community platform as the two commands see it: ids, channel kinds,
    permission flags, per-principal permission overwrites, and the channel and
    guild objects whose state the platform calls change. Each call takes the
    platform's answer (success or failure) as an argument, since the platform
    itself is not part of the model. */
module Platform {

  /** A snowflake id; users, roles and channels share one id space. */
  type Id = nat

  datatype Option<T> = None | Some(value: T)

  /** The channel types of the platform. */
  datatype ChannelKind =
    | GuildText | DM | GuildVoice | GroupDM | GuildCategory | GuildAnnouncement
    | AnnouncementThread | PublicThread | PrivateThread | GuildStageVoice
    | GuildDirectory | GuildForum | GuildMedia

  /** The permission flags the commands name, and every other flag by its bit. */
  datatype Perm =
    | Administrator | ViewChannel | ReadMessageHistory | SendMessages | AddReactions
    | Connect | Speak | SendMessagesInThreads | CreatePublicThreads | CreatePrivateThreads
    | AttachFiles | EmbedLinks | UseExternalEmojis | UseExternalStickers
    | MentionEveryone | ManageMessages | ManageThreads
    | OtherPerm(bit: nat)

  /** One channel-scoped grant/denial record for one principal. */
  datatype Overwrite = Overwrite(allow: set<Perm>, deny: set<Perm>)

  /** A channel's overwrite table: principal id to its overwrite. */
  type Table = map<Id, Overwrite>

  /** The argument of `permissionOverwrites.edit`: `true` allows a flag, `false` denies it. */
  type Options = map<Perm, bool>

  const NoOverwrite := Overwrite({}, {})

  /** The overwrite that an edit with `opts` leaves: each listed flag is allowed or
      denied as listed, and each unlisted flag keeps what `existing` said of it. */
  function ApplyOptions(existing: Overwrite, opts: Options): (r: Overwrite)
    ensures forall p :: p in opts ==> (p in r.allow <==> opts[p]) && (p in r.deny <==> !opts[p])
    ensures forall p :: p !in opts ==> (p in r.allow <==> p in existing.allow) && (p in r.deny <==> p in existing.deny)
  {
    Overwrite((existing.allow - opts.Keys) + (set p | p in opts && opts[p]),
              (existing.deny - opts.Keys) + (set p | p in opts && !opts[p]))
  }

  /** Editing twice with the same options is editing once. */
  lemma ApplyOptionsIdempotent(existing: Overwrite, opts: Options)
    ensures ApplyOptions(ApplyOptions(existing, opts), opts) == ApplyOptions(existing, opts)
  {
  }

  /** The existing entry of `principal`, or an empty one. */
  function EntryOf(table: Table, principal: Id): Overwrite
  {
    if principal in table then table[principal] else NoOverwrite
  }

  /** The table after a successful `permissionOverwrites.edit(principal, opts)`. */
  function Edit(table: Table, principal: Id, opts: Options): (r: Table)
    ensures r.Keys == table.Keys + {principal}
    ensures forall k :: k in table && k != principal ==> r[k] == table[k]
  {
    table[principal := ApplyOptions(EntryOf(table, principal), opts)]
  }

  /** A fetched guild member; `bot` is `member.user.bot`. */
  datatype Member = Member(id: Id, bot: bool)

  datatype Role = Role(id: Id, name: string)

  /** An entry of the guild's channel cache. Its overwrite table is what a child
      inherits when it is moved under this entry with its permissions locked. */
  datatype GuildChannel = GuildChannel(id: Id, kind: ChannelKind, name: string, overwrites: Table)

  /** `roles` with the role of id `id` renamed to `name`. */
  function WithRoleName(roles: seq<Role>, id: Id, name: string): seq<Role>
  {
    seq(|roles|, i requires 0 <= i < |roles| => if roles[i].id == id then roles[i].(name := name) else roles[i])
  }

  /** `channels` with the channel of id `id` renamed to `name`. */
  function WithChannelName(channels: seq<GuildChannel>, id: Id, name: string): seq<GuildChannel>
  {
    seq(|channels|, i requires 0 <= i < |channels| => if channels[i].id == id then channels[i].(name := name) else channels[i])
  }

  /** The channel a command acts on: its parent and its overwrite table change in place. */
  class Channel {
    const id: Id
    const name: string
    const kind: ChannelKind
    var parent: Option<Id>
    var overwrites: Table

    constructor (id: Id, name: string, kind: ChannelKind, parent: Option<Id>, overwrites: Table)
      ensures this.id == id && this.name == name && this.kind == kind
      ensures this.parent == parent && this.overwrites == overwrites
    {
      this.id := id;
      this.name := name;
      this.kind := kind;
      this.parent := parent;
      this.overwrites := overwrites;
    }

    /** `setParent(category.id, { lockPermissions: true })`: when the platform accepts it,
        the channel sits under `category` and carries the category's overwrites. */
    method SetParent(category: GuildChannel, ok: bool) returns (moved: bool)
      modifies this
      ensures moved == ok
      ensures parent == (if ok then Some(category.id) else old(parent))
      ensures overwrites == (if ok then category.overwrites else old(overwrites))
    {
      moved := ok;
      if ok {
        parent := Some(category.id);
        overwrites := category.overwrites;
      }
    }

    /** `permissionOverwrites.delete(principal)`. */
    method DeleteOverwrite(principal: Id, ok: bool) returns (deleted: bool)
      modifies this`overwrites
      ensures deleted == ok
      ensures overwrites == (if ok then old(overwrites) - {principal} else old(overwrites))
    {
      deleted := ok;
      if ok {
        overwrites := overwrites - {principal};
      }
    }

    /** `permissionOverwrites.edit(principal, opts)`. */
    method EditOverwrite(principal: Id, opts: Options, ok: bool) returns (edited: bool)
      modifies this`overwrites
      ensures edited == ok
      ensures overwrites == (if ok then Edit(old(overwrites), principal, opts) else old(overwrites))
    {
      edited := ok;
      if ok {
        overwrites := Edit(overwrites, principal, opts);
      }
    }
  }

  /** The guild: its `@everyone` role id and its role and channel caches, in enumeration order. */
  class Guild {
    const everyone: Id
    var roles: seq<Role>
    var channels: seq<GuildChannel>

    constructor (everyone: Id, roles: seq<Role>, channels: seq<GuildChannel>)
      ensures this.everyone == everyone && this.roles == roles && this.channels == channels
    {
      this.everyone := everyone;
      this.roles := roles;
      this.channels := channels;
    }

    /** `channels.create({ name, type: GuildCategory })`; `created` is the id the platform
        assigns, or None when the call fails. A new category has no overwrites. */
    method CreateCategory(name: string, created: Option<Id>) returns (category: Option<GuildChannel>)
      modifies this`channels
      ensures category == (if created.Some? then Some(GuildChannel(created.value, GuildCategory, name, map[])) else None)
      ensures channels == (if created.Some? then old(channels) + [category.value] else old(channels))
    {
      if created.Some? {
        category := Some(GuildChannel(created.value, GuildCategory, name, map[]));
        channels := channels + [category.value];
      } else {
        category := None;
      }
    }

    /** `role.setName(name)` on the role of id `id`. */
    method SetRoleName(id: Id, name: string, ok: bool) returns (renamed: bool)
      modifies this`roles
      ensures renamed == ok
      ensures roles == (if ok then WithRoleName(old(roles), id, name) else old(roles))
    {
      renamed := ok;
      if ok {
        roles := WithRoleName(roles, id, name);
      }
    }

    /** `channel.setName(name)` on the channel of id `id`. */
    method SetChannelName(id: Id, name: string, ok: bool) returns (renamed: bool)
      modifies this`channels
      ensures renamed == ok
      ensures channels == (if ok then WithChannelName(old(channels), id, name) else old(channels))
    {
      renamed := ok;
      if ok {
        channels := WithChannelName(channels, id, name);
      }
    }
  }
}
