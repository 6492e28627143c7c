/**
 * The part of a chat-platform guild the hunt bot works on: its channels
 * (categories included) and its roles, with the platform operations the bot
 * calls. Every operation succeeds; new objects get fresh ids handed out in
 * increasing order.
 */
module Discord {
  import opened Wrappers

  type Id = nat

  datatype ChannelType = Text | Voice | Category | OtherChannel(code: int)

  datatype OverwriteType = RoleOverwrite | MemberOverwrite

  /** Permission sets, opaque apart from the three named ones the bot uses. */
  datatype Permissions = NoPermissions | AllText | AllVoice | AllPermissions | Bits(mask: int)

  datatype Overwrite = Overwrite(target: Id, kind: OverwriteType, allow: Permissions, deny: Permissions)

  datatype Channel = Channel(id: Id, name: string, kind: ChannelType, parent: Option<Id>, overwrites: seq<Overwrite>)

  datatype Role = Role(id: Id, name: string)

  datatype GuildState = GuildState(channels: seq<Channel>, roles: seq<Role>, nextId: Id)

  predicate DistinctChannelIds(s: seq<Channel>) {
    forall i, j :: 0 <= i < j < |s| ==> s[i].id != s[j].id
  }

  predicate DistinctRoleIds(s: seq<Role>) {
    forall i, j :: 0 <= i < j < |s| ==> s[i].id != s[j].id
  }

  /** Ids are unique per table and all below the next fresh id. */
  predicate ValidState(st: GuildState) {
    (forall c :: c in st.channels ==> c.id < st.nextId) &&
    (forall r :: r in st.roles ==> r.id < st.nextId) &&
    DistinctChannelIds(st.channels) && DistinctRoleIds(st.roles)
  }

  /** Creating a channel: it gets the next fresh id and is appended to the channel list. */
  function NewChannel(st: GuildState, kind: ChannelType, name: string, parent: Option<Id>, overwrites: seq<Overwrite>)
    : (r: (Channel, GuildState))
    ensures r.0 == Channel(st.nextId, name, kind, parent, overwrites)
    ensures r.1.channels == st.channels + [r.0] && r.1.roles == st.roles && r.1.nextId == st.nextId + 1
    ensures ValidState(st) ==> ValidState(r.1)
  {
    var c := Channel(st.nextId, name, kind, parent, overwrites);
    (c, st.(channels := st.channels + [c], nextId := st.nextId + 1))
  }

  /** Creating a role: it gets the next fresh id and is appended to the role list. */
  function NewRole(st: GuildState, name: string): (r: (Role, GuildState))
    ensures r.0 == Role(st.nextId, name)
    ensures r.1.roles == st.roles + [r.0] && r.1.channels == st.channels && r.1.nextId == st.nextId + 1
    ensures ValidState(st) ==> ValidState(r.1)
  {
    var role := Role(st.nextId, name);
    (role, st.(roles := st.roles + [role], nextId := st.nextId + 1))
  }

  /** The channels of s other than the one with id cid. */
  function WithoutChannel(s: seq<Channel>, cid: Id): seq<Channel> {
    if s == [] then []
    else
      var c := s[|s| - 1];
      WithoutChannel(s[..|s| - 1], cid) + (if c.id == cid then [] else [c])
  }

  /** s with the channel of id cid renamed, reparented and given new overwrites. */
  function EditedChannels(s: seq<Channel>, cid: Id, name: string, parent: Option<Id>, overwrites: seq<Overwrite>)
    : (r: seq<Channel>)
    ensures |r| == |s|
  {
    if s == [] then []
    else
      var c := s[|s| - 1];
      EditedChannels(s[..|s| - 1], cid, name, parent, overwrites) +
        [if c.id == cid then c.(name := name, parent := parent, overwrites := overwrites) else c]
  }

  /** An edit touches exactly the channel with the given id, and only the three edited fields. */
  lemma {:induction false} EditedChannelsAt(s: seq<Channel>, cid: Id, name: string, parent: Option<Id>,
                                            overwrites: seq<Overwrite>, i: nat)
    requires i < |s|
    ensures var r := EditedChannels(s, cid, name, parent, overwrites);
            r[i] == if s[i].id == cid then s[i].(name := name, parent := parent, overwrites := overwrites) else s[i]
  {
    if i < |s| - 1 {
      EditedChannelsAt(s[..|s| - 1], cid, name, parent, overwrites, i);
    }
  }

  /** The roles of s other than the one with id rid. */
  function WithoutRole(s: seq<Role>, rid: Id): seq<Role> {
    if s == [] then []
    else
      var x := s[|s| - 1];
      WithoutRole(s[..|s| - 1], rid) + (if x.id == rid then [] else [x])
  }

  /** A guild as the bot sees it through the platform. */
  class Guild {
    /** The guild's id, which is also the id of its default ("everyone") role. */
    const id: Id
    var channels: seq<Channel>
    var roles: seq<Role>
    var nextId: Id

    function State(): GuildState
      reads this
    {
      GuildState(channels, roles, nextId)
    }

    ghost predicate Valid()
      reads this
    {
      id < nextId && ValidState(State())
    }

    constructor (id: Id, st: GuildState)
      requires id < st.nextId && ValidState(st)
      ensures Valid() && this.id == id && State() == st
    {
      this.id := id;
      channels, roles, nextId := st.channels, st.roles, st.nextId;
    }

    method CreateChannel(kind: ChannelType, name: string, parent: Option<Id>, overwrites: seq<Overwrite>)
      returns (c: Channel)
      requires Valid()
      modifies this
      ensures Valid()
      ensures (c, State()) == NewChannel(old(State()), kind, name, parent, overwrites)
    {
      c := Channel(nextId, name, kind, parent, overwrites);
      channels := channels + [c];
      nextId := nextId + 1;
    }

    method CreateRole(name: string) returns (r: Role)
      requires Valid()
      modifies this
      ensures Valid()
      ensures (r, State()) == NewRole(old(State()), name)
    {
      r := Role(nextId, name);
      roles := roles + [r];
      nextId := nextId + 1;
    }

    method DeleteChannel(cid: Id)
      modifies this
      ensures channels == WithoutChannel(old(channels), cid)
      ensures roles == old(roles) && nextId == old(nextId)
    {
      channels := WithoutChannel(channels, cid);
    }

    method EditChannel(cid: Id, name: string, parent: Option<Id>, overwrites: seq<Overwrite>)
      modifies this
      ensures channels == EditedChannels(old(channels), cid, name, parent, overwrites)
      ensures roles == old(roles) && nextId == old(nextId)
    {
      channels := EditedChannels(channels, cid, name, parent, overwrites);
    }

    method DeleteRole(rid: Id)
      modifies this
      ensures roles == WithoutRole(old(roles), rid)
      ensures channels == old(channels) && nextId == old(nextId)
    {
      roles := WithoutRole(roles, rid);
    }
  }
}
