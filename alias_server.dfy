/** The alias server: the in-memory alias map, kept in step with the alias
    file. The class models both revisions of the program, the `server`
    package (server/aliasserver.go) and the older main-package copy
    (aliasServer.go). In the operations modelled here the two differ only
    in the default block they write. */
module Server {
  import opened GoStrings
  import opened AliasFormat
  import opened Files
  import opened ShellNotifier
  import Texts

  /** The first loop of writeAliases: one FormatLine per entry of `m`,
      appended in the order Go ranges over the map, recorded in `order`. */
  method FormatAliases(m: map<string, string>) returns (aliasStr: string, ghost order: seq<string>)
    ensures IsEnumeration(order, m.Keys)
    ensures aliasStr == Serialize(m, order)
  {
    aliasStr := "";
    var remaining := m.Keys;
    order := [];
    while remaining != {}
      invariant remaining <= m.Keys
      invariant forall i :: 0 <= i < |order| ==> order[i] in m && order[i] !in remaining
      invariant forall k :: k in m ==> k in order || k in remaining
      invariant forall i, j :: 0 <= i < j < |order| ==> order[i] != order[j]
      invariant aliasStr == Serialize(m, order)
      decreases |remaining|
    {
      var k :| k in remaining;
      SerializeSnoc(m, order, k);
      aliasStr := aliasStr + FormatLine(k, m[k]);
      order := order + [k];
      remaining := remaining - {k};
    }
  }

  class AliasServer {
    /** name → expansion */
    var aliases: map<string, string>
    /** The alias file, `zsh_alias` in the alias directory. */
    const aliasFile: TextFile
    /** The default block this revision writes into a new alias file. */
    const defaults: string

    ghost predicate Valid()
      reads this, aliasFile
    {
      aliasFile.Valid() && defaults != ""
    }

    /** The server package's aliasServer, before Setup. */
    constructor ForServer(aliasFile: TextFile)
      requires aliasFile.Valid()
      ensures Valid()
      ensures this.aliasFile == aliasFile && defaults == Texts.ServerDefaultAliases
      ensures aliases == map[]
    {
      this.aliasFile := aliasFile;
      defaults := Texts.ServerDefaultAliases;
      aliases := map[];
    }

    /** The main-package aliasServer, before Start. */
    constructor ForMain(aliasFile: TextFile)
      requires aliasFile.Valid()
      ensures Valid()
      ensures this.aliasFile == aliasFile && defaults == Texts.DefaultAliases
      ensures aliases == map[]
    {
      this.aliasFile := aliasFile;
      defaults := Texts.DefaultAliases;
      aliases := map[];
    }

    /** Setup (Start in the main package): an empty map, the alias file
        made ready, then read into the map. The process ends with status 1
        when the file cannot be created and with status 2 when a line of
        it panics the decoder. */
    method Setup(env: Env) returns (status: Status)
      requires Valid()
      modifies this, aliasFile
      ensures Valid()
      ensures status == Exited(1) <==> env.mkdirOk && !old(aliasFile.present) && !env.createOk
      ensures status == Running || status == Exited(1) || status == Exited(2)
      ensures status != Exited(1) ==> aliasFile.present == (old(aliasFile.present) || env.mkdirOk)
      ensures status != Exited(1) ==>
                aliasFile.text == if old(aliasFile.present) || !env.mkdirOk then old(aliasFile.text)
                                  else if env.writeOk then defaults else ""
      ensures status == Exited(1) ==> !aliasFile.present && aliasFile.text == old(aliasFile.text)
      ensures status == Running && aliasFile.present && env.readOk ==>
                Load(map[], aliasFile.text) == Loaded(aliases)
      ensures status == Running && !(aliasFile.present && env.readOk) ==> aliases == map[]
      ensures status == Exited(2) ==> aliasFile.present && env.readOk && Load(map[], aliasFile.text) == Crashed
    {
      aliases := map[];
      status := SetupAliasFile(env);
      if status != Running {
        return;
      }
      status := CheckAliases(env);
    }

    /** setupAliasFile: when the directory exists but the file does not,
        the file is created and the default block written into it; an
        existing file is not touched. */
    method SetupAliasFile(env: Env) returns (status: Status)
      requires Valid()
      modifies aliasFile
      ensures Valid()
      ensures !env.mkdirOk || old(aliasFile.present) ==>
                status == Running && aliasFile.present == old(aliasFile.present) && aliasFile.text == old(aliasFile.text)
      ensures env.mkdirOk && !old(aliasFile.present) && !env.createOk ==>
                status == Exited(1) && !aliasFile.present && aliasFile.text == old(aliasFile.text)
      ensures env.mkdirOk && !old(aliasFile.present) && env.createOk ==>
                status == Running && aliasFile.present && aliasFile.text == (if env.writeOk then defaults else "")
    {
      status := Running;
      if !env.mkdirOk {
        return;
      }
      // os.OpenFile without O_CREATE fails with a not-exist error exactly
      // when the file is missing.
      if !aliasFile.present {
        if !env.createOk {
          return Exited(1);
        }
        aliasFile.present, aliasFile.text := true, "";
        WriteDefaultAliases(env);
        EmptyLacksBlock(defaults);
      }
    }

    /** writeDefaultAliases, given the handle os.Create returned: the file
        was just truncated, so the write lands at its start. */
    method WriteDefaultAliases(env: Env)
      requires Valid() && aliasFile.present && aliasFile.text == ""
      modifies aliasFile
      ensures Valid() && aliasFile.present
      ensures aliasFile.text == AfterAppend(old(aliasFile.text), defaults, env.readOk, env.writeOk)
    {
      AppendUnlessContained(aliasFile, defaults, true, env.readOk, env.writeOk);
    }

    /** checkAliases: every complete line of the file is decoded in turn
        and its entry stored into the map, which is never cleared first.
        A file that cannot be opened leaves the map as it is. */
    method CheckAliases(env: Env) returns (status: Status)
      requires Valid()
      modifies this
      ensures Valid()
      ensures !(aliasFile.present && env.readOk) ==> status == Running && aliases == old(aliases)
      ensures aliasFile.present && env.readOk ==>
                && (status == Running <==> Load(old(aliases), aliasFile.text).Loaded?)
                && (status == Running ==> Load(old(aliases), aliasFile.text) == Loaded(aliases))
                && (status != Running ==> status == Exited(2))
    {
      status := Running;
      if !(aliasFile.present && env.readOk) {
        return;
      }
      var rest := aliasFile.text;
      while FirstIndex(rest, '\n') < |rest|
        invariant Load(aliases, rest) == Load(old(aliases), aliasFile.text)
        decreases |rest|
      {
        var i := FirstIndex(rest, '\n');
        var line := rest[..i + 1];
        ghost var tail := CompleteLines(rest[i + 1..]);
        assert CompleteLines(rest) == [line] + tail;
        assert ([line] + tail)[1..] == tail;
        rest := rest[i + 1..];
        match DecodeLine(line)
        case Skip =>
        case Entry(k, v) =>
          aliases := aliases[k := v];
        case OutOfRange =>
          return Exited(2);
      }
    }

    /** writeAliases: one `alias k='v'` line per entry, in the order Go
        happens to range over the map (`order`), replaces the file's
        contents, and the running shells are signalled (`signalled` are
        the pids that get SIGUSR1). When the file cannot be opened nothing
        is written and no shell is signalled. */
    method WriteAliases(env: Env) returns (signalled: seq<string>, ghost order: seq<string>)
      requires Valid()
      modifies aliasFile
      ensures Valid()
      ensures IsEnumeration(order, aliases.Keys)
      ensures env.open != Opened ==>
                aliasFile.present == old(aliasFile.present) && aliasFile.text == old(aliasFile.text) && signalled == []
      ensures env.open == Opened ==>
                && aliasFile.present
                && aliasFile.text == (if env.truncateOk then "" else old(aliasFile.text))
                                     + (if env.writeOk then Serialize(aliases, order) else "")
                && signalled == Pids(ShellLines(env.psOutput))
    {
      var aliasStr;
      aliasStr, order := FormatAliases(aliases);
      signalled := [];
      if env.open != Opened {
        return;
      }
      // O_CREATE: the file exists from here on, empty if it was missing.
      aliasFile.present := true;
      if env.truncateOk {
        aliasFile.text := "";
      }
      if env.writeOk {
        // O_APPEND: the write lands at the end of whatever is left.
        aliasFile.text := aliasFile.text + aliasStr;
      }
      signalled := UpdateAllRunningShells(env.psOutput);
    }

    /** createAlias: `name` now expands to `fn`, whatever it expanded to
        before; every other entry is kept; then the file is rewritten. */
    method CreateAlias(name: string, fn: string, env: Env) returns (signalled: seq<string>, ghost order: seq<string>)
      requires Valid()
      modifies this, aliasFile
      ensures Valid()
      ensures aliases == old(aliases)[name := fn]
      ensures IsEnumeration(order, aliases.Keys)
      ensures env.open != Opened ==>
                aliasFile.present == old(aliasFile.present) && aliasFile.text == old(aliasFile.text) && signalled == []
      ensures env.open == Opened ==>
                && aliasFile.present
                && aliasFile.text == (if env.truncateOk then "" else old(aliasFile.text))
                                     + (if env.writeOk then Serialize(aliases, order) else "")
                && signalled == Pids(ShellLines(env.psOutput))
    {
      aliases := aliases[name := fn];
      signalled, order := WriteAliases(env);
    }

    /** removeAlias: `alias` is no longer a key, every other entry is
        kept, and removing a missing key changes nothing in the map; then
        the file is rewritten. */
    method RemoveAlias(alias: string, env: Env) returns (signalled: seq<string>, ghost order: seq<string>)
      requires Valid()
      modifies this, aliasFile
      ensures Valid()
      ensures aliases == old(aliases) - {alias}
      ensures alias !in old(aliases) ==> aliases == old(aliases)
      ensures IsEnumeration(order, aliases.Keys)
      ensures env.open != Opened ==>
                aliasFile.present == old(aliasFile.present) && aliasFile.text == old(aliasFile.text) && signalled == []
      ensures env.open == Opened ==>
                && aliasFile.present
                && aliasFile.text == (if env.truncateOk then "" else old(aliasFile.text))
                                     + (if env.writeOk then Serialize(aliases, order) else "")
                && signalled == Pids(ShellLines(env.psOutput))
    {
      aliases := aliases - {alias};
      signalled, order := WriteAliases(env);
    }

    /** listAliases: the file is read into the map again, then one
        `name : expansion` line per entry is shown, in map order. */
    method ListAliases(env: Env) returns (status: Status, shown: seq<string>, ghost order: seq<string>)
      requires Valid()
      modifies this
      ensures Valid()
      ensures !(aliasFile.present && env.readOk) ==> status == Running && aliases == old(aliases)
      ensures aliasFile.present && env.readOk ==>
                && (status == Running <==> Load(old(aliases), aliasFile.text).Loaded?)
                && (status == Running ==> Load(old(aliases), aliasFile.text) == Loaded(aliases))
                && (status != Running ==> status == Exited(2))
      ensures status == Running ==> IsEnumeration(order, aliases.Keys) && |shown| == |order| == |aliases|
      ensures status == Running ==> forall i :: 0 <= i < |order| ==> shown[i] == order[i] + " : " + aliases[order[i]]
    {
      shown, order := [], [];
      status := CheckAliases(env);
      if status != Running {
        return;
      }
      var remaining := aliases.Keys;
      while remaining != {}
        invariant remaining <= aliases.Keys
        invariant |shown| == |order|
        invariant forall i :: 0 <= i < |order| ==> order[i] in aliases && order[i] !in remaining
        invariant forall k :: k in aliases ==> k in order || k in remaining
        invariant forall i, j :: 0 <= i < j < |order| ==> order[i] != order[j]
        invariant forall i :: 0 <= i < |order| ==> shown[i] == order[i] + " : " + aliases[order[i]]
        decreases |remaining|
      {
        var k :| k in remaining;
        shown := shown + [k + " : " + aliases[k]];
        order := order + [k];
        remaining := remaining - {k};
      }
      EnumerationSize(order, aliases.Keys);
    }
  }
}
