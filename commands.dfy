/**
 * The command catalog and the synchroniser that pushes catalog entries to
 * the platform. A catalog command is (re)registered unless the last remote
 * command of the same name already has its description and options.
 * Registration on the platform is an upsert keyed by name; remote commands
 * that are not in the catalog are never touched.
 */
module Commands {
  import opened Wrappers

  datatype OptionType = StringOption | ChannelOption | OtherOption(code: int)

  datatype CommandOption = CommandOption(kind: OptionType, name: string, description: string, required: bool)

  datatype Command = Command(name: string, description: string, options: seq<CommandOption>)

  /** The two slash commands the bot offers. */
  const Catalog: seq<Command> := [
    Command("hunt", "Create a new hunt with the given name",
      [CommandOption(StringOption, "name", "Name of the puzzle hunt", true)]),
    Command("archive", "Archives a hunt",
      [CommandOption(ChannelOption, "channel", "Channel to be archived", true)])
  ]

  predicate DistinctNames(cmds: seq<Command>) {
    forall i, j :: 0 <= i < j < |cmds| ==> cmds[i].name != cmds[j].name
  }

  /** Two same-named commands differ for the synchroniser when their description or options do. */
  predicate Differs(remote: Command, local: Command) {
    remote.description != local.description || remote.options != local.options
  }

  /** The last command in cmds named n, if any. */
  function LastNamed(cmds: seq<Command>, n: string): (r: Option<Command>)
    ensures r.None? <==> forall e :: e in cmds ==> e.name != n
    ensures r.Some? ==> exists i :: 0 <= i < |cmds| && cmds[i] == r.value && r.value.name == n &&
                          forall k :: i < k < |cmds| ==> cmds[k].name != n
  {
    if cmds == [] then None
    else if cmds[|cmds| - 1].name == n then Some(cmds[|cmds| - 1])
    else
      assert cmds == cmds[..|cmds| - 1] + [cmds[|cmds| - 1]];
      LastNamed(cmds[..|cmds| - 1], n)
  }

  /** Whether the synchroniser registers the catalog command c against the remote list. */
  predicate NeedsUpdate(c: Command, remote: seq<Command>) {
    match LastNamed(remote, c.name)
    case None => true
    case Some(e) => Differs(e, c)
  }

  /**
   * The registration rule spelled out: c is registered iff no remote command
   * has its name, or the last remote command with its name differs from it.
   */
  lemma NeedsUpdateIff(c: Command, remote: seq<Command>)
    ensures NeedsUpdate(c, remote) <==>
              (forall e :: e in remote ==> e.name != c.name) ||
              (exists i :: 0 <= i < |remote| && remote[i].name == c.name && Differs(remote[i], c) &&
                 forall k :: i < k < |remote| ==> remote[k].name != c.name)
  {
    var last := LastNamed(remote, c.name);
    if last.Some? {
      var i :| 0 <= i < |remote| && remote[i] == last.value && last.value.name == c.name &&
               forall k :: i < k < |remote| ==> remote[k].name != c.name;
      forall j | 0 <= j < |remote| && remote[j].name == c.name &&
                 forall k :: j < k < |remote| ==> remote[k].name != c.name
        ensures j == i
      {
      }
    }
  }

  /** The registrations the synchroniser issues, in catalog order. */
  function Pending(catalog: seq<Command>, remote: seq<Command>): (r: seq<Command>)
    ensures |r| <= |catalog|
    ensures forall c :: c in r <==> c in catalog && NeedsUpdate(c, remote)
  {
    if catalog == [] then []
    else
      var c := catalog[|catalog| - 1];
      Pending(catalog[..|catalog| - 1], remote) + (if NeedsUpdate(c, remote) then [c] else [])
  }

  /**
   * Decides, for each catalog command in turn, whether to register it: the
   * inner loop lets every same-named remote command overwrite the decision,
   * so the last one wins. Returns the commands registered, in order.
   */
  method UpdateCommands(catalog: seq<Command>, existing: seq<Command>) returns (registered: seq<Command>)
    ensures registered == Pending(catalog, existing)
  {
    registered := [];
    for i := 0 to |catalog|
      invariant registered == Pending(catalog[..i], existing)
    {
      var c := catalog[i];
      var update := true;
      for j := 0 to |existing|
        invariant update == NeedsUpdate(c, existing[..j])
      {
        var e := existing[j];
        if e.name == c.name {
          update := e.description != c.description || e.options != c.options;
        }
        assert existing[..j + 1][..j] == existing[..j];
      }
      assert existing[..|existing|] == existing;
      if update {
        registered := registered + [c];
      }
      assert catalog[..i + 1][..i] == catalog[..i];
    }
    assert catalog[..|catalog|] == catalog;
  }

  // The platform side: registering a command replaces every remote command
  // of that name.

  /** The commands of cmds whose name is not n, in order. */
  function WithoutNamed(cmds: seq<Command>, n: string): (r: seq<Command>)
    ensures forall e :: e in r <==> e in cmds && e.name != n
  {
    if cmds == [] then []
    else
      var e := cmds[|cmds| - 1];
      WithoutNamed(cmds[..|cmds| - 1], n) + (if e.name == n then [] else [e])
  }

  /** The remote list after registering c. */
  function Upsert(remote: seq<Command>, c: Command): (r: seq<Command>)
    ensures |r| > 0 && r[|r| - 1] == c
    ensures forall e :: e in r <==> e == c || (e in remote && e.name != c.name)
  {
    WithoutNamed(remote, c.name) + [c]
  }

  /** The remote list after registering cmds one after another. */
  function Registered(remote: seq<Command>, cmds: seq<Command>): seq<Command> {
    if cmds == [] then remote
    else Upsert(Registered(remote, cmds[..|cmds| - 1]), cmds[|cmds| - 1])
  }

  /** Dropping the commands of another name does not change which command named n is last. */
  lemma {:induction false} LastNamedWithout(cmds: seq<Command>, m: string, n: string)
    requires m != n
    ensures LastNamed(WithoutNamed(cmds, m), n) == LastNamed(cmds, n)
  {
    if cmds != [] {
      var init, e := cmds[..|cmds| - 1], cmds[|cmds| - 1];
      LastNamedWithout(init, m, n);
      var w := WithoutNamed(init, m);
      if e.name != m {
        assert (w + [e])[..|w + [e]| - 1] == w;
      } else {
        assert w + [] == w;
      }
    }
  }

  /**
   * After a run of registrations, the last remote command named n is the
   * last registered one of that name, or the old one if none was registered.
   */
  lemma {:induction false} LastNamedRegistered(remote: seq<Command>, cmds: seq<Command>, n: string)
    ensures LastNamed(Registered(remote, cmds), n) ==
              match LastNamed(cmds, n)
              case Some(d) => Some(d)
              case None => LastNamed(remote, n)
  {
    if cmds != [] {
      var init, d := cmds[..|cmds| - 1], cmds[|cmds| - 1];
      LastNamedRegistered(remote, init, n);
      var y := Registered(remote, init);
      var w := WithoutNamed(y, d.name);
      assert (w + [d])[..|w + [d]| - 1] == w;
      if d.name != n {
        LastNamedWithout(y, d.name, n);
      }
    }
  }

  /** Remote commands whose name is never registered survive the registrations. */
  lemma {:induction false} RegisteredKeeps(remote: seq<Command>, cmds: seq<Command>, e: Command)
    requires e in remote
    requires forall d :: d in cmds ==> d.name != e.name
    ensures e in Registered(remote, cmds)
  {
    if cmds != [] {
      RegisteredKeeps(remote, cmds[..|cmds| - 1], e);
    }
  }

  /** A remote command absent from the catalog by name is still there after synchronising. */
  lemma SyncKeepsRemoteOnly(catalog: seq<Command>, remote: seq<Command>, e: Command)
    requires e in remote
    requires forall c :: c in catalog ==> c.name != e.name
    ensures e in Registered(remote, Pending(catalog, remote))
  {
    RegisteredKeeps(remote, Pending(catalog, remote), e);
  }

  /** When nothing in the catalog needs updating, nothing is registered. */
  lemma PendingEmpty(catalog: seq<Command>, remote: seq<Command>)
    requires forall c :: c in catalog ==> !NeedsUpdate(c, remote)
    ensures Pending(catalog, remote) == []
  {
  }

  /** In a catalog with distinct names, a command is determined by its name. */
  lemma SameNameSame(catalog: seq<Command>, c: Command, d: Command)
    requires DistinctNames(catalog)
    requires c in catalog && d in catalog && c.name == d.name
    ensures c == d
  {
    var i :| 0 <= i < |catalog| && catalog[i] == c;
    var j :| 0 <= j < |catalog| && catalog[j] == d;
    assert !(i < j) && !(j < i);
  }

  /** After one run, no catalog command needs updating any more. */
  lemma SyncedCommand(catalog: seq<Command>, remote: seq<Command>, c: Command)
    requires DistinctNames(catalog) && c in catalog
    ensures !NeedsUpdate(c, Registered(remote, Pending(catalog, remote)))
  {
    var p := Pending(catalog, remote);
    LastNamedRegistered(remote, p, c.name);
    var last := LastNamed(p, c.name);
    if last.Some? {
      SameNameSame(catalog, c, last.value);
    } else {
      assert c !in p;
    }
  }

  /**
   * Synchronising is idempotent: after the registrations of one run have
   * been applied, a second run registers nothing.
   */
  lemma SyncIdempotent(catalog: seq<Command>, remote: seq<Command>)
    requires DistinctNames(catalog)
    ensures Pending(catalog, Registered(remote, Pending(catalog, remote))) == []
  {
    var after := Registered(remote, Pending(catalog, remote));
    forall c | c in catalog
      ensures !NeedsUpdate(c, after)
    {
      SyncedCommand(catalog, remote, c);
    }
    PendingEmpty(catalog, after);
  }

  /** A remote list that already equals the catalog draws no registration. */
  lemma {:induction false} AlreadySynced(catalog: seq<Command>)
    requires DistinctNames(catalog)
    ensures Pending(catalog, catalog) == []
  {
    forall c | c in catalog
      ensures !NeedsUpdate(c, catalog)
    {
      var i :| 0 <= i < |catalog| && catalog[i] == c;
      var e := LastNamed(catalog, c.name).value;
      var j :| 0 <= j < |catalog| && catalog[j] == e && e.name == c.name &&
               forall k :: j < k < |catalog| ==> catalog[k].name != c.name;
      assert i == j;
    }
    PendingEmpty(catalog, catalog);
  }

  lemma CatalogDistinct()
    ensures DistinctNames(Catalog)
  {
  }

  /** A remote "hunt" with a stale description draws exactly one registration, for "hunt". */
  lemma StaleHuntExample(remote: seq<Command>)
    requires remote == [Catalog[0].(description := "Make a hunt"), Catalog[1]]
    ensures Pending(Catalog, remote) == [Catalog[0]]
  {
    assert Catalog[..1] == [Catalog[0]];
    assert remote[..1] == [remote[0]];
  }
}
