# venari hunt lifecycle, in Dafny

venari is a Discord bot that organises puzzle hunts. `/hunt <name>` creates
a hunt: it normalises the name to a slug, finds or creates the "Active
hunts" category, creates a role `hunt-<slug>`, and creates a text channel
and a voice channel called `<slug>` under that category, each open to the
hunt role and closed to everyone else. `/archive <channel>` archives a
hunt. When the target sits in the active category, every channel named like
the target under the "Archived hunts" category is processed:

- voice channels are deleted;
- text channels are date-prefixed, moved under the archive category and
  given its overwrites.

Then every role `hunt-<target name>` is deleted. At start-up the bot also
synchronises its two slash commands with the platform.

This project models that core and proves what it promises. It is split into
five modules:

- `Wrappers` (`wrappers.dfy`): the `Option` type.
- `Naming` (`naming.dfy`): the slug normaliser and the role name, as pure
  functions.
- `Commands` (`commands.dfy`): the command catalog as data, and the
  registration decision. `UpdateCommands` is a method with the source's
  nested loop and its mutable `update` flag. It is proved equal to the
  specification function `Pending`.
- `Discord` (`discord.dfy`): the guild, which is a table of channels, a
  table of roles and a fresh-id counter.
  - `GuildState` is the value form of the guild.
  - `Guild` is the class whose fields the operations update in place.
  - Its primitive methods (create, delete and edit a channel; create and
    delete a role) stand for the REST calls the bot makes.
- `Hunts` (`hunts.dfy`): `FindCategory`, `CreateHunt` and `ArchiveHunt`.
  - Each is a method on a `Guild`, written with the source's loops and
    early returns.
  - Each is proved equal to a function on `GuildState`: `ResolveCategory`,
    `CreateHuntSpec` or `ArchiveHuntSpec`.
  - Lemmas state what those functions guarantee. They cover
    find-first-or-create, exactly one role and two channels added, and a
    rejected archive changing nothing but categories. They also cover an
    accepted archive deleting, editing and keeping exactly the right
    channels and roles.

Validity of a guild (`Discord.ValidState`) means two things. Every id is
below the fresh-id counter. Channel ids are distinct, and so are role ids.
`CreateChannel`, `CreateRole`, `FindCategory`, `CreateHunt` and
`ArchiveHunt` require it and keep it. The delete and edit primitives and the
two archive walks do not carry it in their own contracts: the walks need
only distinct ids. `ArchiveHunt` restores validity after each walk with
`ArchiveChannelsValid` and `WithoutRolesNamedValid`.

The archive filter is modelled as written. It matches channels already
under the archive category, not the target channel itself.
`Hunts.ArchiveFreshHunt` proves the consequence. Archive a freshly created
hunt through its own text channel, with distinct category names. The hunt's
role is deleted, and both of its channels stay where they were.

## Model

| member | source | states |
|---|---|---|
| Naming.StripDisallowed | cmd/venari/main.go:143 | every character of the result is in `[a-zA-Z0-9-]`, and the result is no longer than the input |
| Naming.StripDisallowedMembers | cmd/venari/main.go:143-146 | a character is in the result exactly when it is in the input and in `[a-zA-Z0-9-]`: allowed characters are kept and nothing else appears |
| Naming.RoleName | cmd/venari/main.go:147 | the role name is `hunt-` followed by exactly the slug |
| Naming.NormaliseCons | cmd/venari/main.go:146 | normalising works character by character: lower-case, space to `-`, drop the rest |
| Naming.NormaliseIsSlug | cmd/venari/main.go:143-146 | the slug only contains `[a-z0-9-]` |
| Naming.NormaliseFixesSlug | cmd/venari/main.go:146 | a string that is already a slug normalises to itself |
| Naming.NormaliseIdempotent | cmd/venari/main.go:146 | normalising twice is the same as normalising once |
| Naming.NormaliseAppend | cmd/venari/main.go:146 | normalising distributes over concatenation |
| Naming.SpaceBecomesHyphen | cmd/venari/main.go:146 | a space between two parts becomes one `-` and is not dropped |
| Naming.NormaliseWord | cmd/venari/main.go:146 | a name each of whose characters maps to one given character normalises to those characters |
| Naming.MysteryHuntExample | cmd/venari/main.go:146 | `Mystery Hunt 2024!` normalises to `mystery-hunt-2024` |
| Commands.CatalogDistinct | cmd/venari/main.go:26-51 | the two catalog commands, `hunt` and `archive`, have distinct names |
| Commands.LastNamed | cmd/venari/main.go:92-97 | none exactly when no remote command has the name, else the last remote command with it |
| Commands.NeedsUpdateIff | cmd/venari/main.go:91-97 | a command is pushed iff no remote command has its name, or the last one that does differs in description or options |
| Commands.Pending | cmd/venari/main.go:89-106 | a command is pushed exactly when it is in the catalog and needs an update, and no more commands are pushed than the catalog holds |
| Commands.UpdateCommands | cmd/venari/main.go:82-107 | the nested loop with its `update` flag registers exactly `Pending(catalog, existing)` |
| Commands.WithoutNamed | cmd/venari/main.go:101 | the platform's upsert drops exactly the remote commands of that name |
| Commands.Upsert | cmd/venari/main.go:101 | after an upsert the command is the last entry, and the list holds exactly it and the remote commands of other names |
| Commands.LastNamedRegistered | cmd/venari/main.go:101 | after registrations the last command of a name is the last one registered with it, else the old one |
| Commands.SyncKeepsRemoteOnly | cmd/venari/main.go:88-106 | a remote command whose name is not in the catalog survives the sync |
| Commands.SyncIdempotent | cmd/venari/main.go:88-106 | a second sync right after the first pushes nothing |
| Commands.AlreadySynced | cmd/venari/main.go:88-106 | when the remote list equals the catalog, nothing is pushed |
| Commands.StaleHuntExample | cmd/venari/main.go:94-99 | a remote `hunt` with a stale description is re-pushed and an unchanged `archive` is not |
| Discord.NewChannel | cmd/venari/main.go:161-177 | the created channel has the next fresh id and exactly the requested kind, name, parent and overwrites; it is appended, roles are untouched, and the guild stays valid |
| Discord.NewRole | cmd/venari/main.go:151-156 | the created role has the next fresh id and exactly the requested name; it is appended, channels are untouched, and the guild stays valid |
| Discord.EditedChannelsAt | cmd/venari/main.go:233-237 | an edit changes the name, parent and overwrites of the channel with that id only |
| Discord.Guild.CreateChannel | cmd/venari/main.go:161-177 | the in-place create is `NewChannel` on the guild's state |
| Discord.Guild.CreateRole | cmd/venari/main.go:151-156 | the in-place create is `NewRole` on the guild's state |
| Discord.Guild.DeleteChannel | cmd/venari/main.go:226 | only the channel table changes, to `WithoutChannel` |
| Discord.Guild.EditChannel | cmd/venari/main.go:233-237 | only the channel table changes, to `EditedChannels` |
| Discord.Guild.DeleteRole | cmd/venari/main.go:252 | only the role table changes, to `WithoutRole` |
| Hunts.FirstCategory | cmd/venari/main.go:268-272 | none iff no channel is a category with that name, else the first such channel (other kinds are skipped) |
| Hunts.FirstCategoryAppend | cmd/venari/main.go:274-281 | after a miss, a lookup finds the category appended at the end |
| Hunts.ResolveCategorySpec | cmd/venari/main.go:262-282 | a hit returns the first match and changes nothing; a miss appends exactly one parentless category with that name and returns it |
| Hunts.ResolveCategoryGrows | cmd/venari/main.go:262-282 | the lookup keeps the old channels as a prefix and roles as they are, and adds at most one new category |
| Hunts.ResolveCategoryValid | cmd/venari/main.go:262-282 | the lookup keeps the guild valid |
| Hunts.ResolveCategoryKeeps | cmd/venari/main.go:262-282 | every existing channel survives the lookup |
| Hunts.ResolveOtherCategory | cmd/venari/main.go:209-210 | looking up a different name yields a category with a different id |
| Hunts.FirstCategoryExtend | cmd/venari/main.go:268-272 | appending channels does not change a lookup that already succeeds |
| Hunts.FindCategory | cmd/venari/main.go:262-282 | the scan with early return, then create, is `ResolveCategory` on the guild's state |
| Hunts.AddHuntEffect | cmd/venari/main.go:151-198 | the role gets the first fresh id and the text and voice channels the next two, each with the two hunt overwrites |
| Hunts.CreateHuntEffect | cmd/venari/main.go:145-204 | creating a hunt appends exactly one role `hunt-<slug>` and exactly two channels called slug under the active category, and responds `Hunt created: <slug>` |
| Hunts.CreateHuntValid | cmd/venari/main.go:145-204 | creating a hunt keeps the guild valid |
| Hunts.AddHuntActivates | cmd/venari/main.go:151-198 | after the three creates the guild holds the hunt's role and both of its channels |
| Hunts.CreateHuntActivates | cmd/venari/main.go:145-204 | after creating a hunt, the hunt is active under the resolved active category |
| Hunts.CreatedResolvesSame | cmd/venari/main.go:149 | after creating a hunt, looking up the active category again finds the same one and changes nothing |
| Hunts.CreateHunt | cmd/venari/main.go:145-204 | the method's sequence of creates is `CreateHuntSpec` on the guild's state |
| Hunts.ArchiveChannelsEffect | cmd/venari/main.go:222-242 | targeted voice channels are gone, targeted text channels are archived, everything else is kept, and nothing else appears |
| Hunts.WithoutRolesNamedMembers | cmd/venari/main.go:249-257 | exactly the roles with that name are dropped |
| Hunts.ArchiveChannelsValid | cmd/venari/main.go:222-242 | the channel walk keeps the guild valid |
| Hunts.WithoutRolesNamedValid | cmd/venari/main.go:249-257 | the role walk keeps the guild valid |
| Hunts.ArchiveStep | cmd/venari/main.go:222-242 | one iteration of the channel walk on the live list advances it by one listed channel |
| Hunts.ArchiveChannel | cmd/venari/main.go:223-241 | the loop body deletes a targeted voice channel, edits a targeted text channel, and leaves the rest |
| Hunts.ArchiveListedChannels | cmd/venari/main.go:217-242 | the channel walk over the listed snapshot yields `ArchiveChannels` of the old channels; roles and ids are unchanged |
| Hunts.DeleteRoleStep | cmd/venari/main.go:249-257 | one iteration of the role walk on the live list advances it by one listed role |
| Hunts.DeleteNamedRole | cmd/venari/main.go:250-256 | the loop body deletes a role only when its name matches |
| Hunts.DeleteListedRoles | cmd/venari/main.go:244-257 | the role walk over the listed snapshot yields `WithoutRolesNamed` of the old roles; channels and ids are unchanged |
| Hunts.ArchiveHunt | cmd/venari/main.go:206-260 | the method (two lookups, guard, channel walk, role walk) is `ArchiveHuntSpec` on the guild's state, and keeps it valid |
| Hunts.ArchiveRejected | cmd/venari/main.go:209-215 | a target outside the active category gets the rejection text; roles and old channels are unchanged; at most two new categories are added |
| Hunts.ArchiveAccepted | cmd/venari/main.go:217-259 | an accepted archive responds `Hunt archived`, drops exactly the roles `hunt-<target name>` and applies the channel walk under the archive category found |
| Hunts.ArchiveFreshHunt | cmd/venari/main.go:223 | archiving a fresh hunt through its own text channel drops its role but leaves both of its channels in place |

## Left out

- `main` (cmd/venari/main.go:53-80): flag and environment parsing, opening the session, signal handling. The two default category names are kept as constants, and the operations take the category names as parameters.
- `handleInteraction` (cmd/venari/main.go:109-141): the deferred acknowledgement, the follow-up message and the goroutine per interaction. The routing by command name is not modelled either. Each operation returns its response text instead of calling `respond`.
- The REST calls and the state cache. Every call is taken to succeed, so the `log.Fatalf` exits on errors are not modelled. The state cache that `findCategory` reads is taken to be the same guild the REST listings return.
- New ids come from a counter in the guild, not from the platform's snowflakes. The guild's own id, which the deny-all overwrite names, is only required to be below that counter. The model does not relate it to any channel or role id; on the platform it is also the id of the default role.
- `time.Now().Format("2006-01")` (cmd/venari/main.go:233) is a `yearMonth` parameter.
- Naming.Lower: only ASCII `A`-`Z` are lower-cased. Go's Unicode case mapping is not modelled. That mapping can turn a non-ASCII letter into an ASCII one (the Kelvin sign becomes `k`).
- Commands.Differs: `reflect.DeepEqual` (cmd/venari/main.go:95) is structural equality on the modelled fields: description, and each option's type, name, description and required flag. Other fields of the platform's command objects are not modelled.
- Commands.Registered: the platform's create-or-replace semantics for a registration (same name replaces) is an assumption about the platform. It is used only by the sync lemmas.
- Discord.Guild.EditChannel: the edit always replaces the overwrites with the archive category's. The client library omits an empty overwrite list from the request, and that case is not modelled.
- Permission bit values (`PermissionAllText`, `PermissionAllVoice`, `PermissionAll`) are opaque constructors.
- Concurrent interactions and races between category creations are not modelled. The model is sequential.
