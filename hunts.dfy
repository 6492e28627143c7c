/**
 * The hunt lifecycle: resolving the active and archive categories, creating
 * a hunt (a role plus a text and a voice channel under the active
 * category), and archiving one. Each operation is a method on a Guild,
 * proved equal to a function on GuildState; the lemmas below state what
 * those functions promise.
 */
module Hunts {
  import opened Wrappers
  import opened Naming
  import opened Discord

  const DefaultActiveCategory: string := "Active hunts"
  const DefaultArchiveCategory: string := "Archived hunts"

  const CreatedPrefix: string := "Hunt created: "
  const RejectedMessage: string := "That channel doesn't seem to be an active hunt channel. Do better."
  const ArchivedMessage: string := "Hunt archived"

  predicate IsCategoryNamed(c: Channel, name: string) {
    c.kind == Category && c.name == name
  }

  /** The first channel that is a category called name, if any. */
  function FirstCategory(chans: seq<Channel>, name: string): (r: Option<Channel>)
    ensures r.None? <==> forall c :: c in chans ==> !IsCategoryNamed(c, name)
    ensures r.Some? ==> exists i :: 0 <= i < |chans| && chans[i] == r.value && IsCategoryNamed(r.value, name) &&
                          forall k :: 0 <= k < i ==> !IsCategoryNamed(chans[k], name)
  {
    if chans == [] then None
    else if IsCategoryNamed(chans[0], name) then Some(chans[0])
    else FirstCategory(chans[1..], name)
  }

  /** Find-first-or-create: the category called name, and the guild after the lookup. */
  function ResolveCategory(st: GuildState, name: string): (Channel, GuildState) {
    match FirstCategory(st.channels, name)
    case Some(c) => (c, st)
    case None => NewChannel(st, Category, name, None, [])
  }

  /** A lookup after a failed one finds the category appended at the end. */
  lemma {:induction false} FirstCategoryAppend(chans: seq<Channel>, c: Channel, name: string)
    requires forall d :: d in chans ==> !IsCategoryNamed(d, name)
    requires IsCategoryNamed(c, name)
    ensures FirstCategory(chans + [c], name) == Some(c)
  {
    if chans != [] {
      assert (chans + [c])[1..] == chans[1..] + [c];
      FirstCategoryAppend(chans[1..], c, name);
    }
  }

  /**
   * ResolveCategory returns the first category called name when there is
   * one and changes nothing; otherwise it appends exactly one new category
   * called name with no parent and returns it. Either way a later lookup
   * finds the returned category.
   */
  lemma ResolveCategorySpec(st: GuildState, name: string)
    ensures var (cat, st') := ResolveCategory(st, name);
            IsCategoryNamed(cat, name) && st'.roles == st.roles &&
            FirstCategory(st'.channels, name) == Some(cat) &&
            (FirstCategory(st.channels, name).Some? ==> cat == FirstCategory(st.channels, name).value && st' == st) &&
            (FirstCategory(st.channels, name).None? ==>
               cat == Channel(st.nextId, name, Category, None, []) &&
               st'.channels == st.channels + [cat] && st'.nextId == st.nextId + 1)
  {
    if FirstCategory(st.channels, name).None? {
      FirstCategoryAppend(st.channels, Channel(st.nextId, name, Category, None, []), name);
    }
  }

  /** A channel the category lookup may append: a category with no parent and no overwrites. */
  predicate NewCategory(c: Channel) {
    c.kind == Category && c.parent == None && c.overwrites == []
  }

  /** The lookup only ever appends one new category; it leaves the old channels and roles as they were. */
  lemma ResolveCategoryGrows(st: GuildState, name: string)
    ensures var st' := ResolveCategory(st, name).1;
            st'.roles == st.roles &&
            |st.channels| <= |st'.channels| <= |st.channels| + 1 &&
            st'.channels[..|st.channels|] == st.channels &&
            forall i :: |st.channels| <= i < |st'.channels| ==> NewCategory(st'.channels[i])
  {
    ResolveCategorySpec(st, name);
    var st' := ResolveCategory(st, name).1;
    assert st'.channels[..|st.channels|] == st.channels;
  }

  /** The lookup keeps every id below the next fresh one and all ids distinct. */
  lemma ResolveCategoryValid(st: GuildState, name: string)
    requires ValidState(st)
    ensures ValidState(ResolveCategory(st, name).1)
  {
  }

  /** Scans the guild's channels for the category called name, creating it when absent. */
  method FindCategory(g: Guild, name: string) returns (cat: Channel)
    requires g.Valid()
    modifies g
    ensures g.Valid()
    ensures (cat, g.State()) == ResolveCategory(old(g.State()), name)
  {
    var i := 0;
    while i < |g.channels|
      invariant 0 <= i <= |g.channels|
      invariant FirstCategory(g.channels, name) == FirstCategory(g.channels[i..], name)
    {
      if g.channels[i].kind == Category && g.channels[i].name == name {
        return g.channels[i];
      }
      assert g.channels[i..][1..] == g.channels[i + 1..];
      i := i + 1;
    }
    cat := g.CreateChannel(Category, name, None, []);
  }

  // ---- Creating a hunt ----

  /** The two overwrites of a hunt channel: perms for the hunt role, nothing for everyone else. */
  function HuntOverwrites(roleId: Id, perms: Permissions, guildId: Id): seq<Overwrite> {
    [Overwrite(roleId, RoleOverwrite, perms, NoPermissions),
     Overwrite(guildId, RoleOverwrite, NoPermissions, AllPermissions)]
  }

  /** The guild after adding the hunt's role, text channel and voice channel, in that order. */
  function AddHunt(st: GuildState, catId: Id, guildId: Id, slug: string): GuildState
  {
    var (role, st1) := NewRole(st, RoleName(slug));
    var (_, st2) := NewChannel(st1, Text, slug, Some(catId), HuntOverwrites(role.id, AllText, guildId));
    var (_, st3) := NewChannel(st2, Voice, slug, Some(catId), HuntOverwrites(role.id, AllVoice, guildId));
    st3
  }

  /** The guild after creating the hunt called name, and the bot's response. */
  function CreateHuntSpec(st: GuildState, guildId: Id, activeName: string, name: string): (GuildState, string)
  {
    var slug := Normalise(name);
    var (cat, st1) := ResolveCategory(st, activeName);
    (AddHunt(st1, cat.id, guildId, slug), CreatedPrefix + slug)
  }

  /** The hunt's role gets the first fresh id, its text and voice channels the next two. */
  lemma AddHuntEffect(st: GuildState, catId: Id, guildId: Id, slug: string)
    ensures var r := AddHunt(st, catId, guildId, slug);
            var roleId := st.nextId;
            r.roles == st.roles + [Role(roleId, RoleName(slug))] &&
            r.channels == st.channels + [
              Channel(roleId + 1, slug, Text, Some(catId), HuntOverwrites(roleId, AllText, guildId)),
              Channel(roleId + 2, slug, Voice, Some(catId), HuntOverwrites(roleId, AllVoice, guildId))] &&
            r.nextId == st.nextId + 3
  {
  }

  /** Creating a hunt keeps every id below the next fresh one and all ids distinct. */
  lemma CreateHuntValid(st: GuildState, guildId: Id, activeName: string, name: string)
    requires ValidState(st)
    ensures ValidState(CreateHuntSpec(st, guildId, activeName, name).0)
  {
    ResolveCategoryValid(st, activeName);
    var (cat, st1) := ResolveCategory(st, activeName);
    var slug := Normalise(name);
    var (role, st2) := NewRole(st1, RoleName(slug));
    var (_, st3) := NewChannel(st2, Text, slug, Some(cat.id), HuntOverwrites(role.id, AllText, guildId));
    var (_, st4) := NewChannel(st3, Voice, slug, Some(cat.id), HuntOverwrites(role.id, AllVoice, guildId));
    assert ValidState(st4);
  }

  /** Creates the hunt's role, then its text channel, then its voice channel. */
  method CreateHunt(g: Guild, activeName: string, name: string) returns (response: string)
    requires g.Valid()
    modifies g
    ensures g.Valid()
    ensures (g.State(), response) == CreateHuntSpec(old(g.State()), g.id, activeName, name)
  {
    var slug := Normalise(name);
    var roleName := RoleName(slug);
    var category := FindCategory(g, activeName);
    var role := g.CreateRole(roleName);
    var _ := g.CreateChannel(Text, slug, Some(category.id), HuntOverwrites(role.id, AllText, g.id));
    var _ := g.CreateChannel(Voice, slug, Some(category.id), HuntOverwrites(role.id, AllVoice, g.id));
    response := CreatedPrefix + slug;
  }

  /**
   * A hunt is active: a role "hunt-" + slug, and a text and a voice channel
   * called slug under the active category, each giving that role its
   * permissions and denying the guild's default role everything.
   */
  predicate HuntActive(st: GuildState, slug: string, activeId: Id, guildId: Id) {
    exists role, text, voice ::
      role in st.roles && text in st.channels && voice in st.channels &&
      role.name == RoleName(slug) &&
      text == Channel(text.id, slug, Text, Some(activeId), HuntOverwrites(role.id, AllText, guildId)) &&
      voice == Channel(voice.id, slug, Voice, Some(activeId), HuntOverwrites(role.id, AllVoice, guildId))
  }

  /**
   * CreateHunt adds exactly one role, called "hunt-" + slug, and exactly two
   * channels after the guild as the category lookup left it (which is the
   * old guild, or the old guild plus a new active category): a text and a
   * voice channel called slug, parented to the active category, each with
   * the two hunt overwrites. Existing roles are unchanged, and the response
   * names the slug.
   */
  lemma CreateHuntEffect(st: GuildState, guildId: Id, activeName: string, name: string)
    ensures var slug := Normalise(name);
            var cat := ResolveCategory(st, activeName).0;
            var base := ResolveCategory(st, activeName).1;
            var r := CreateHuntSpec(st, guildId, activeName, name);
            var roleId := base.nextId;
            r.1 == CreatedPrefix + slug &&
            r.0.roles == st.roles + [Role(roleId, RoleName(slug))] &&
            r.0.channels == base.channels + [
              Channel(roleId + 1, slug, Text, Some(cat.id), HuntOverwrites(roleId, AllText, guildId)),
              Channel(roleId + 2, slug, Voice, Some(cat.id), HuntOverwrites(roleId, AllVoice, guildId))]
  {
    ResolveCategorySpec(st, activeName);
    var cat := ResolveCategory(st, activeName).0;
    var base := ResolveCategory(st, activeName).1;
    AddHuntEffect(base, cat.id, guildId, Normalise(name));
  }

  /** Adding the hunt's role and channels makes the hunt active under that category. */
  lemma AddHuntActivates(st: GuildState, catId: Id, guildId: Id, slug: string)
    ensures HuntActive(AddHunt(st, catId, guildId, slug), slug, catId, guildId)
  {
    AddHuntEffect(st, catId, guildId, slug);
    var r := AddHunt(st, catId, guildId, slug);
    var role := Role(st.nextId, RoleName(slug));
    assert r.roles[|st.roles|] == role;
    assert r.channels[|st.channels|] == Channel(st.nextId + 1, slug, Text, Some(catId), HuntOverwrites(role.id, AllText, guildId));
    assert r.channels[|st.channels| + 1] == Channel(st.nextId + 2, slug, Voice, Some(catId), HuntOverwrites(role.id, AllVoice, guildId));
  }

  /** After CreateHunt the hunt is active under the active category it resolved. */
  lemma CreateHuntActivates(st: GuildState, guildId: Id, activeName: string, name: string)
    ensures HuntActive(CreateHuntSpec(st, guildId, activeName, name).0, Normalise(name),
                       ResolveCategory(st, activeName).0.id, guildId)
  {
    var (cat, base) := ResolveCategory(st, activeName);
    AddHuntActivates(base, cat.id, guildId, Normalise(name));
  }

  // ---- Archiving a hunt ----

  /** A channel the archive step acts on: named like the target and parented to the archive category. */
  predicate Targeted(c: Channel, name: string, archive: Channel) {
    c.name == name && c.parent == Some(archive.id)
  }

  /** A text channel as archived: date-prefixed, under the archive category, with its overwrites. */
  function ArchivedText(c: Channel, archive: Channel, yearMonth: string): Channel {
    c.(name := yearMonth + "-" + c.name, parent := Some(archive.id), overwrites := archive.overwrites)
  }

  /** What the archive step leaves of one channel. */
  function ArchiveOne(c: Channel, name: string, archive: Channel, yearMonth: string): seq<Channel> {
    if Targeted(c, name, archive) && c.kind == Voice then []
    else if Targeted(c, name, archive) && c.kind == Text then [ArchivedText(c, archive, yearMonth)]
    else [c]
  }

  /** The channel list after the archive step, one channel at a time. */
  function ArchiveChannels(s: seq<Channel>, name: string, archive: Channel, yearMonth: string): (r: seq<Channel>)
    ensures |r| <= |s|
  {
    if s == [] then []
    else ArchiveChannels(s[..|s| - 1], name, archive, yearMonth) + ArchiveOne(s[|s| - 1], name, archive, yearMonth)
  }

  /**
   * The archive step deletes every targeted voice channel, archives every
   * targeted text channel in place, and leaves every other channel as it
   * was; it produces nothing else.
   */
  lemma {:induction false} ArchiveChannelsEffect(s: seq<Channel>, name: string, archive: Channel, yearMonth: string)
    ensures var r := ArchiveChannels(s, name, archive, yearMonth);
            (forall c :: c in s && !Targeted(c, name, archive) ==> c in r) &&
            (forall c :: c in s && Targeted(c, name, archive) && c.kind != Voice && c.kind != Text ==> c in r) &&
            (forall c :: c in s && Targeted(c, name, archive) && c.kind == Text ==> ArchivedText(c, archive, yearMonth) in r) &&
            (forall c :: c in r ==> !(Targeted(c, name, archive) && c.kind == Voice)) &&
            (forall c :: c in r ==>
               (c in s && !(Targeted(c, name, archive) && (c.kind == Voice || c.kind == Text))) ||
               (exists d :: d in s && Targeted(d, name, archive) && d.kind == Text && c == ArchivedText(d, archive, yearMonth)))
  {
    if s != [] {
      var init, last := s[..|s| - 1], s[|s| - 1];
      ArchiveChannelsEffect(init, name, archive, yearMonth);
      assert s == init + [last];
    }
  }

  /** The roles of s not called n. */
  function WithoutRolesNamed(s: seq<Role>, n: string): (r: seq<Role>)
    ensures |r| <= |s|
  {
    if s == [] then []
    else
      var x := s[|s| - 1];
      WithoutRolesNamed(s[..|s| - 1], n) + (if x.name == n then [] else [x])
  }

  /** Exactly the roles called n are dropped. */
  lemma {:induction false} WithoutRolesNamedMembers(s: seq<Role>, n: string)
    ensures forall x :: x in WithoutRolesNamed(s, n) <==> x in s && x.name != n
  {
    if s != [] {
      WithoutRolesNamedMembers(s[..|s| - 1], n);
      assert s == s[..|s| - 1] + [s[|s| - 1]];
    }
  }

  /** The guild after archiving target's hunt, and the bot's response. */
  function ArchiveHuntSpec(st: GuildState, activeName: string, archiveName: string, target: Channel, yearMonth: string)
    : (r: (GuildState, string))
  {
    var (active, st1) := ResolveCategory(st, activeName);
    var (archive, st2) := ResolveCategory(st1, archiveName);
    if target.parent != Some(active.id) then (st2, RejectedMessage)
    else
      (st2.(channels := ArchiveChannels(st2.channels, target.name, archive, yearMonth),
            roles := WithoutRolesNamed(st2.roles, RoleName(target.name))),
       ArchivedMessage)
  }

  lemma {:induction false} WithoutChannelAppend(a: seq<Channel>, b: seq<Channel>, cid: Id)
    ensures WithoutChannel(a + b, cid) == WithoutChannel(a, cid) + WithoutChannel(b, cid)
  {
    if b == [] {
      assert a + b == a;
    } else {
      var init, last := b[..|b| - 1], b[|b| - 1];
      var kept := if last.id == cid then [] else [last];
      WithoutChannelAppend(a, init, cid);
      var ab := a + b;
      assert ab[..|ab| - 1] == a + init && ab[|ab| - 1] == last;
      calc {
        WithoutChannel(ab, cid);
        WithoutChannel(a + init, cid) + kept;
        WithoutChannel(a, cid) + WithoutChannel(init, cid) + kept;
        WithoutChannel(a, cid) + (WithoutChannel(init, cid) + kept);
        WithoutChannel(a, cid) + WithoutChannel(b, cid);
      }
    }
  }

  lemma {:induction false} WithoutChannelAbsent(s: seq<Channel>, cid: Id)
    requires forall i :: 0 <= i < |s| ==> s[i].id != cid
    ensures WithoutChannel(s, cid) == s
  {
    if s != [] {
      WithoutChannelAbsent(s[..|s| - 1], cid);
      assert s[..|s| - 1] + [s[|s| - 1]] == s;
    }
  }

  /** Deleting c by id from x + [c] + y leaves x + y when x and y have no entry with that id. */
  lemma WithoutChannelSpliceCore(x: seq<Channel>, c: Channel, y: seq<Channel>)
    requires WithoutChannel(x, c.id) == x && WithoutChannel(y, c.id) == y
    ensures WithoutChannel(x + [c] + y, c.id) == x + y
  {
    WithoutChannelAppend(x + [c], y, c.id);
    WithoutChannelAppend(x, [c], c.id);
    assert [c][..0] == [];
  }

  /** Deleting the channel c by id from x + [c] + y leaves x + y when its id is unique. */
  lemma WithoutChannelSplice(x: seq<Channel>, c: Channel, y: seq<Channel>)
    requires forall a :: a in x ==> a.id != c.id
    requires forall b :: b in y ==> b.id != c.id
    ensures WithoutChannel(x + [c] + y, c.id) == x + y
  {
    WithoutChannelAbsent(x, c.id);
    WithoutChannelAbsent(y, c.id);
    WithoutChannelSpliceCore(x, c, y);
  }

  lemma {:induction false} WithoutRoleAppend(a: seq<Role>, b: seq<Role>, rid: Id)
    ensures WithoutRole(a + b, rid) == WithoutRole(a, rid) + WithoutRole(b, rid)
  {
    if b == [] {
      assert a + b == a;
    } else {
      var init, last := b[..|b| - 1], b[|b| - 1];
      var kept := if last.id == rid then [] else [last];
      WithoutRoleAppend(a, init, rid);
      var ab := a + b;
      assert ab[..|ab| - 1] == a + init && ab[|ab| - 1] == last;
      calc {
        WithoutRole(ab, rid);
        WithoutRole(a + init, rid) + kept;
        WithoutRole(a, rid) + WithoutRole(init, rid) + kept;
        WithoutRole(a, rid) + (WithoutRole(init, rid) + kept);
        WithoutRole(a, rid) + WithoutRole(b, rid);
      }
    }
  }

  lemma {:induction false} WithoutRoleAbsent(s: seq<Role>, rid: Id)
    requires forall i :: 0 <= i < |s| ==> s[i].id != rid
    ensures WithoutRole(s, rid) == s
  {
    if s != [] {
      WithoutRoleAbsent(s[..|s| - 1], rid);
      assert s[..|s| - 1] + [s[|s| - 1]] == s;
    }
  }

  /** Deleting r by id from x + [r] + y leaves x + y when x and y have no entry with that id. */
  lemma WithoutRoleSpliceCore(x: seq<Role>, r: Role, y: seq<Role>)
    requires WithoutRole(x, r.id) == x && WithoutRole(y, r.id) == y
    ensures WithoutRole(x + [r] + y, r.id) == x + y
  {
    WithoutRoleAppend(x + [r], y, r.id);
    WithoutRoleAppend(x, [r], r.id);
    assert [r][..0] == [];
  }

  /** Deleting the role r by id from x + [r] + y leaves x + y when its id is unique. */
  lemma WithoutRoleSplice(x: seq<Role>, r: Role, y: seq<Role>)
    requires forall a :: a in x ==> a.id != r.id
    requires forall b :: b in y ==> b.id != r.id
    ensures WithoutRole(x + [r] + y, r.id) == x + y
  {
    WithoutRoleAbsent(x, r.id);
    WithoutRoleAbsent(y, r.id);
    WithoutRoleSpliceCore(x, r, y);
  }

  /** Editing the channel c by id in x + [c] + y changes only c when its id is unique. */
  lemma EditedChannelsSplice(x: seq<Channel>, c: Channel, y: seq<Channel>, name: string, parent: Option<Id>,
                             overwrites: seq<Overwrite>)
    requires forall a :: a in x ==> a.id != c.id
    requires forall b :: b in y ==> b.id != c.id
    ensures EditedChannels(x + [c] + y, c.id, name, parent, overwrites) ==
              x + [c.(name := name, parent := parent, overwrites := overwrites)] + y
  {
    var s := x + [c] + y;
    var e := EditedChannels(s, c.id, name, parent, overwrites);
    var t := x + [c.(name := name, parent := parent, overwrites := overwrites)] + y;
    forall i | 0 <= i < |s| ensures e[i] == t[i] {
      EditedChannelsAt(s, c.id, name, parent, overwrites, i);
      if i < |x| {
        assert s[i] in x;
      } else if i > |x| {
        assert s[i] == y[i - |x| - 1];
        assert s[i] in y;
      }
    }
  }

  /** In a list with unique ids, the entry at i shares its id with nothing before or after it. */
  lemma ChannelIdUnique(s: seq<Channel>, i: nat)
    requires DistinctChannelIds(s) && i < |s|
    ensures forall a :: a in s[..i] ==> a.id != s[i].id
    ensures forall b :: b in s[i + 1..] ==> b.id != s[i].id
  {
    forall a | a in s[..i] ensures a.id != s[i].id {
      var k :| 0 <= k < i && s[..i][k] == a;
    }
    forall b | b in s[i + 1..] ensures b.id != s[i].id {
      var k :| 0 <= k < |s| - i - 1 && s[i + 1..][k] == b;
      assert s[i + 1 + k] == b;
    }
  }

  lemma RoleIdUnique(s: seq<Role>, i: nat)
    requires DistinctRoleIds(s) && i < |s|
    ensures forall a :: a in s[..i] ==> a.id != s[i].id
    ensures forall b :: b in s[i + 1..] ==> b.id != s[i].id
  {
    forall a | a in s[..i] ensures a.id != s[i].id {
      var k :| 0 <= k < i && s[..i][k] == a;
    }
    forall b | b in s[i + 1..] ensures b.id != s[i].id {
      var k :| 0 <= k < |s| - i - 1 && s[i + 1..][k] == b;
      assert s[i + 1 + k] == b;
    }
  }

  /** Archived channels keep the id of the channel they come from. */
  lemma {:induction false} ArchiveChannelsIds(s: seq<Channel>, name: string, archive: Channel, yearMonth: string, cid: Id)
    requires forall d :: d in s ==> d.id != cid
    ensures forall a :: a in ArchiveChannels(s, name, archive, yearMonth) ==> a.id != cid
  {
    if s != [] {
      var init := s[..|s| - 1];
      forall d | d in init ensures d.id != cid {
        assert d in s;
      }
      ArchiveChannelsIds(init, name, archive, yearMonth, cid);
      assert s[|s| - 1] in s;
    }
  }

  /** Every channel the archive step leaves has the id of a channel it was given. */
  lemma {:induction false} ArchiveChannelsFrom(s: seq<Channel>, name: string, archive: Channel, yearMonth: string)
    ensures forall a :: a in ArchiveChannels(s, name, archive, yearMonth) ==> exists d :: d in s && d.id == a.id
  {
    if s != [] {
      var init := s[..|s| - 1];
      ArchiveChannelsFrom(init, name, archive, yearMonth);
      forall a | a in ArchiveChannels(s, name, archive, yearMonth)
        ensures exists d :: d in s && d.id == a.id
      {
        if a in ArchiveChannels(init, name, archive, yearMonth) {
          var d :| d in init && d.id == a.id;
          assert d in s;
        } else {
          assert s[|s| - 1] in s;
        }
      }
    }
  }

  /** The archive step keeps the channel ids unique and below the next fresh id. */
  lemma {:induction false} ArchiveChannelsDistinct(s: seq<Channel>, name: string, archive: Channel, yearMonth: string)
    requires DistinctChannelIds(s)
    ensures DistinctChannelIds(ArchiveChannels(s, name, archive, yearMonth))
  {
    if s != [] {
      var init, c := s[..|s| - 1], s[|s| - 1];
      var w := ArchiveChannels(init, name, archive, yearMonth);
      ArchiveChannelsDistinct(init, name, archive, yearMonth);
      ChannelIdUnique(s, |s| - 1);
      ArchiveChannelsIds(init, name, archive, yearMonth, c.id);
      var r := w + ArchiveOne(c, name, archive, yearMonth);
      forall i, j | 0 <= i < j < |r| ensures r[i].id != r[j].id {
        if j >= |w| {
          assert r[i] in w;
        }
      }
    }
  }

  lemma ArchiveChannelsValid(st: GuildState, name: string, archive: Channel, yearMonth: string)
    requires ValidState(st)
    ensures ValidState(st.(channels := ArchiveChannels(st.channels, name, archive, yearMonth)))
  {
    ArchiveChannelsFrom(st.channels, name, archive, yearMonth);
    ArchiveChannelsDistinct(st.channels, name, archive, yearMonth);
  }

  /** Dropping roles keeps the role ids unique. */
  lemma {:induction false} WithoutRolesNamedDistinct(s: seq<Role>, n: string)
    requires DistinctRoleIds(s)
    ensures DistinctRoleIds(WithoutRolesNamed(s, n))
  {
    if s != [] {
      var init, x := s[..|s| - 1], s[|s| - 1];
      var w := WithoutRolesNamed(init, n);
      WithoutRolesNamedDistinct(init, n);
      WithoutRolesNamedMembers(init, n);
      RoleIdUnique(s, |s| - 1);
      if x.name != n {
        var r := w + [x];
        forall i, j | 0 <= i < j < |r| ensures r[i].id != r[j].id {
          if j == |w| {
            assert r[i] in w;
          }
        }
      }
    }
  }

  lemma WithoutRolesNamedValid(st: GuildState, n: string)
    requires ValidState(st)
    ensures ValidState(st.(roles := WithoutRolesNamed(st.roles, n)))
  {
    WithoutRolesNamedMembers(st.roles, n);
    WithoutRolesNamedDistinct(st.roles, n);
  }

  /** What the archive step does to the live channel list for one listed channel. */
  function ArchiveApply(s: seq<Channel>, c: Channel, name: string, archive: Channel, yearMonth: string): seq<Channel> {
    if Targeted(c, name, archive) && c.kind == Voice then WithoutChannel(s, c.id)
    else if Targeted(c, name, archive) && c.kind == Text then
      EditedChannels(s, c.id, yearMonth + "-" + c.name, Some(archive.id), archive.overwrites)
    else s
  }

  /** One step of the channel walk, on the list as it stands after the first i channels. */
  lemma ArchiveStep(channels: seq<Channel>, i: nat, name: string, archive: Channel, yearMonth: string)
    requires DistinctChannelIds(channels) && i < |channels|
    ensures ArchiveApply(ArchiveChannels(channels[..i], name, archive, yearMonth) + channels[i..], channels[i], name, archive, yearMonth)
            == ArchiveChannels(channels[..i + 1], name, archive, yearMonth) + channels[i + 1..]
  {
    var c := channels[i];
    var done := ArchiveChannels(channels[..i], name, archive, yearMonth);
    var rest := channels[i + 1..];
    ChannelIdUnique(channels, i);
    ArchiveChannelsIds(channels[..i], name, archive, yearMonth, c.id);
    assert channels[i..] == [c] + rest;
    assert done + channels[i..] == done + [c] + rest;
    assert channels[..i + 1][..i] == channels[..i];
    var next := ArchiveChannels(channels[..i + 1], name, archive, yearMonth);
    assert next == done + ArchiveOne(c, name, archive, yearMonth);
    if Targeted(c, name, archive) && c.kind == Voice {
      WithoutChannelSplice(done, c, rest);
      assert next == done;
    } else if Targeted(c, name, archive) && c.kind == Text {
      EditedChannelsSplice(done, c, rest, yearMonth + "-" + c.name, Some(archive.id), archive.overwrites);
    } else {
      assert next + rest == done + [c] + rest;
    }
  }

  /** The body of the channel walk: delete a targeted voice channel, archive a targeted text channel. */
  method ArchiveChannel(g: Guild, c: Channel, name: string, archive: Channel, yearMonth: string)
    modifies g
    ensures g.channels == ArchiveApply(old(g.channels), c, name, archive, yearMonth)
    ensures g.roles == old(g.roles) && g.nextId == old(g.nextId)
  {
    if c.name == name && c.parent == Some(archive.id) {
      if c.kind == Voice {
        g.DeleteChannel(c.id);
      } else if c.kind == Text {
        g.EditChannel(c.id, yearMonth + "-" + c.name, Some(archive.id), archive.overwrites);
      }
    }
  }

  /**
   * The channel walk of the archive step: every channel of the listed
   * snapshot that is named like the target and sits in the archive category
   * is deleted if it is a voice channel and archived if it is a text channel.
   */
  method ArchiveListedChannels(g: Guild, name: string, archive: Channel, yearMonth: string)
    requires DistinctChannelIds(g.channels)
    modifies g
    ensures g.channels == ArchiveChannels(old(g.channels), name, archive, yearMonth)
    ensures g.roles == old(g.roles) && g.nextId == old(g.nextId)
  {
    var channels := g.channels;
    var i := 0;
    assert channels[..0] == [] && channels[0..] == channels;
    while i < |channels|
      invariant 0 <= i <= |channels|
      invariant g.roles == old(g.roles) && g.nextId == old(g.nextId)
      invariant g.channels == ArchiveChannels(channels[..i], name, archive, yearMonth) + channels[i..]
    {
      ArchiveStep(channels, i, name, archive, yearMonth);
      ArchiveChannel(g, channels[i], name, archive, yearMonth);
      i := i + 1;
    }
    assert channels[..|channels|] == channels;
  }

  /** What the archive step does to the live role list for one listed role. */
  function DeleteApply(s: seq<Role>, r: Role, roleName: string): seq<Role> {
    if r.name == roleName then WithoutRole(s, r.id) else s
  }

  /** One step of the role walk, on the list as it stands after the first j roles. */
  lemma DeleteRoleStep(roles: seq<Role>, j: nat, roleName: string)
    requires DistinctRoleIds(roles) && j < |roles|
    ensures DeleteApply(WithoutRolesNamed(roles[..j], roleName) + roles[j..], roles[j], roleName)
            == WithoutRolesNamed(roles[..j + 1], roleName) + roles[j + 1..]
  {
    var r := roles[j];
    var kept := WithoutRolesNamed(roles[..j], roleName);
    var rest := roles[j + 1..];
    RoleIdUnique(roles, j);
    WithoutRolesNamedMembers(roles[..j], roleName);
    assert roles[j..] == [r] + rest;
    assert kept + roles[j..] == kept + [r] + rest;
    assert roles[..j + 1][..j] == roles[..j];
    if r.name == roleName {
      WithoutRoleSplice(kept, r, rest);
      assert WithoutRolesNamed(roles[..j + 1], roleName) == kept + [];
    } else {
      assert WithoutRolesNamed(roles[..j + 1], roleName) == kept + [r];
    }
  }

  /** The body of the role walk: delete the role if it is called roleName. */
  method DeleteNamedRole(g: Guild, r: Role, roleName: string)
    modifies g
    ensures g.roles == DeleteApply(old(g.roles), r, roleName)
    ensures g.channels == old(g.channels) && g.nextId == old(g.nextId)
  {
    if r.name == roleName {
      g.DeleteRole(r.id);
    }
  }

  /** The role walk of the archive step: every listed role called roleName is deleted. */
  method DeleteListedRoles(g: Guild, roleName: string)
    requires DistinctRoleIds(g.roles)
    modifies g
    ensures g.roles == WithoutRolesNamed(old(g.roles), roleName)
    ensures g.channels == old(g.channels) && g.nextId == old(g.nextId)
  {
    var roles := g.roles;
    var j := 0;
    assert roles[..0] == [] && roles[0..] == roles;
    while j < |roles|
      invariant 0 <= j <= |roles|
      invariant g.channels == old(g.channels) && g.nextId == old(g.nextId)
      invariant g.roles == WithoutRolesNamed(roles[..j], roleName) + roles[j..]
    {
      DeleteRoleStep(roles, j, roleName);
      DeleteNamedRole(g, roles[j], roleName);
      j := j + 1;
    }
    assert roles[..|roles|] == roles;
  }

  /**
   * Resolves both categories, rejects a target outside the active category,
   * then walks the guild's channels and then its roles.
   */
  method ArchiveHunt(g: Guild, activeName: string, archiveName: string, target: Channel, yearMonth: string)
    returns (response: string)
    requires g.Valid()
    modifies g
    ensures g.Valid()
    ensures (g.State(), response) == ArchiveHuntSpec(old(g.State()), activeName, archiveName, target, yearMonth)
  {
    var active := FindCategory(g, activeName);
    var archive := FindCategory(g, archiveName);

    if target.parent != Some(active.id) {
      response := RejectedMessage;
      return;
    }

    ghost var before := g.State();
    ArchiveListedChannels(g, target.name, archive, yearMonth);
    ArchiveChannelsValid(before, target.name, archive, yearMonth);
    ghost var archived := g.State();
    DeleteListedRoles(g, RoleName(target.name));
    WithoutRolesNamedValid(archived, RoleName(target.name));
    response := ArchivedMessage;
  }

  /**
   * A rejected archive touches no role and no existing channel: the only
   * change is the (at most two) categories the two lookups may have created.
   */
  lemma ArchiveRejected(st: GuildState, activeName: string, archiveName: string, target: Channel, yearMonth: string)
    requires target.parent != Some(ResolveCategory(st, activeName).0.id)
    ensures var r := ArchiveHuntSpec(st, activeName, archiveName, target, yearMonth);
            r.1 == RejectedMessage && r.0.roles == st.roles &&
            |st.channels| <= |r.0.channels| <= |st.channels| + 2 &&
            r.0.channels[..|st.channels|] == st.channels &&
            forall i :: |st.channels| <= i < |r.0.channels| ==> NewCategory(r.0.channels[i])
  {
    var st1 := ResolveCategory(st, activeName).1;
    var st2 := ResolveCategory(st1, archiveName).1;
    ResolveCategoryGrows(st, activeName);
    ResolveCategoryGrows(st1, archiveName);
    assert st2.channels[..|st.channels|] == st1.channels[..|st1.channels|][..|st.channels|];
    forall i | |st.channels| <= i < |st2.channels| ensures NewCategory(st2.channels[i]) {
      if i < |st1.channels| {
        assert st2.channels[i] == st2.channels[..|st1.channels|][i];
      }
    }
  }

  /**
   * An accepted archive answers "Hunt archived", drops exactly the roles
   * called "hunt-" + the target's name, and applies the channel walk to the
   * guild as the two lookups left it, under the archive category they found.
   */
  lemma ArchiveAccepted(st: GuildState, activeName: string, archiveName: string, target: Channel, yearMonth: string)
    requires target.parent == Some(ResolveCategory(st, activeName).0.id)
    ensures var st1 := ResolveCategory(st, activeName).1;
            var archive := ResolveCategory(st1, archiveName).0;
            var st2 := ResolveCategory(st1, archiveName).1;
            var r := ArchiveHuntSpec(st, activeName, archiveName, target, yearMonth);
            r.1 == ArchivedMessage && r.0.nextId == st2.nextId &&
            IsCategoryNamed(archive, archiveName) &&
            (forall x :: x in r.0.roles <==> x in st.roles && x.name != RoleName(target.name)) &&
            r.0.channels == ArchiveChannels(st2.channels, target.name, archive, yearMonth)
  {
    var st1 := ResolveCategory(st, activeName).1;
    ResolveCategorySpec(st, activeName);
    ResolveCategorySpec(st1, archiveName);
    WithoutRolesNamedMembers(st.roles, RoleName(target.name));
  }

  /** A category already found stays the first match whatever is appended after it. */
  lemma {:induction false} FirstCategoryExtend(s: seq<Channel>, t: seq<Channel>, name: string)
    requires FirstCategory(s, name).Some?
    ensures FirstCategory(s + t, name) == FirstCategory(s, name)
  {
    if !IsCategoryNamed(s[0], name) {
      assert (s + t)[1..] == s[1..] + t;
      FirstCategoryExtend(s[1..], t, name);
    }
  }

  /** In a valid guild, two categories with different names have different ids. */
  lemma CategoryIdsDiffer(st: GuildState, a: Channel, b: Channel)
    requires ValidState(st) && a in st.channels && b in st.channels && a.name != b.name
    ensures a.id != b.id
  {
    var i :| 0 <= i < |st.channels| && st.channels[i] == a;
    var j :| 0 <= j < |st.channels| && st.channels[j] == b;
  }

  /** The lookup keeps every channel the guild already had. */
  lemma ResolveCategoryKeeps(st: GuildState, name: string)
    ensures forall c :: c in st.channels ==> c in ResolveCategory(st, name).1.channels
  {
    ResolveCategorySpec(st, name);
  }

  /** A lookup of another name returns a category other than cat. */
  lemma ResolveOtherCategory(st: GuildState, cat: Channel, name: string)
    requires ValidState(st) && cat in st.channels && cat.name != name
    ensures ResolveCategory(st, name).0.id != cat.id
  {
    var found := ResolveCategory(st, name).0;
    ResolveCategorySpec(st, name);
    if FirstCategory(st.channels, name).Some? {
      var i :| 0 <= i < |st.channels| && st.channels[i] == found;
      CategoryIdsDiffer(st, cat, found);
    }
  }

  /** After creating a hunt, the active category resolves to the same category, with no change. */
  lemma CreatedResolvesSame(st: GuildState, guildId: Id, activeName: string, name: string)
    requires ValidState(st)
    ensures var cat := ResolveCategory(st, activeName).0;
            var created := CreateHuntSpec(st, guildId, activeName, name).0;
            ValidState(created) && cat in created.channels &&
            ResolveCategory(created, activeName) == (cat, created)
  {
    var (cat, base) := ResolveCategory(st, activeName);
    var created := CreateHuntSpec(st, guildId, activeName, name).0;
    ResolveCategorySpec(st, activeName);
    CreateHuntEffect(st, guildId, activeName, name);
    CreateHuntValid(st, guildId, activeName, name);
    var tail := created.channels[|base.channels|..];
    assert created.channels == base.channels + tail;
    FirstCategoryExtend(base.channels, tail, activeName);
    var i :| 0 <= i < |base.channels| && base.channels[i] == cat;
    assert created.channels[i] == cat;
  }

  /**
   * The archive filter matches channels already under the archive category,
   * so archiving a freshly created hunt through its own text channel drops
   * the hunt's role but leaves both of its channels where they are, under the
   * active category (when the two categories have different names).
   */
  lemma ArchiveFreshHunt(st: GuildState, guildId: Id, activeName: string, archiveName: string, name: string,
                         yearMonth: string)
    requires ValidState(st) && activeName != archiveName
    ensures var slug := Normalise(name);
            var cat := ResolveCategory(st, activeName).0;
            var roleId := ResolveCategory(st, activeName).1.nextId;
            var text := Channel(roleId + 1, slug, Text, Some(cat.id), HuntOverwrites(roleId, AllText, guildId));
            var voice := Channel(roleId + 2, slug, Voice, Some(cat.id), HuntOverwrites(roleId, AllVoice, guildId));
            var created := CreateHuntSpec(st, guildId, activeName, name).0;
            var r := ArchiveHuntSpec(created, activeName, archiveName, text, yearMonth);
            text in created.channels && voice in created.channels &&
            r.1 == ArchivedMessage && text in r.0.channels && voice in r.0.channels &&
            forall x :: x in r.0.roles ==> x.name != RoleName(slug)
  {
    var slug := Normalise(name);
    var (cat, base) := ResolveCategory(st, activeName);
    var roleId := base.nextId;
    var text := Channel(roleId + 1, slug, Text, Some(cat.id), HuntOverwrites(roleId, AllText, guildId));
    var voice := Channel(roleId + 2, slug, Voice, Some(cat.id), HuntOverwrites(roleId, AllVoice, guildId));
    var created := CreateHuntSpec(st, guildId, activeName, name).0;
    CreateHuntEffect(st, guildId, activeName, name);
    assert created.channels[|base.channels|] == text && created.channels[|base.channels| + 1] == voice;
    CreatedResolvesSame(st, guildId, activeName, name);
    ResolveCategorySpec(st, activeName);
    ResolveOtherCategory(created, cat, archiveName);
    ResolveCategoryKeeps(created, archiveName);
    var (archive, st2) := ResolveCategory(created, archiveName);
    assert !Targeted(text, slug, archive) && !Targeted(voice, slug, archive);
    ArchiveChannelsEffect(st2.channels, slug, archive, yearMonth);
    ArchiveAccepted(created, activeName, archiveName, text, yearMonth);
  }
}
