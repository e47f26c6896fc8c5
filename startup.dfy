/** What main.go does before it starts the alias server: make sure
    `.zshrc` imports the alias file, and make sure the alias file holds
    the default aliases. Both follow the same contains-then-append rule on
    a file opened in append mode. */
module Startup {
  import opened Files
  import Texts

  /** os.OpenFile(path, O_APPEND|O_CREATE|O_WRONLY), falling back to
      os.Create on a not-exist error, as setupRC and setupAliasFile do.
      `haveHandle` says whether a usable *os.File came out of it. Any other
      error leaves the handle nil; a failed os.Create ends the process with
      status 1. */
  method OpenForAppend(f: TextFile, env: Env) returns (status: Status, haveHandle: bool)
    requires f.Valid()
    modifies f
    ensures f.Valid()
    ensures haveHandle ==> f.present && status == Running
    ensures env.open == Opened ==> status == Running && haveHandle && f.text == old(f.text)
    ensures env.open == NotExist && env.createOk ==> status == Running && haveHandle && f.text == ""
    ensures env.open == NotExist && !env.createOk ==>
              status == Exited(1) && f.present == old(f.present) && f.text == old(f.text)
    ensures env.open == OtherError ==>
              status == Running && !haveHandle && f.present == old(f.present) && f.text == old(f.text)
  {
    status, haveHandle := Running, false;
    match env.open
    case Opened =>
      // O_CREATE: a missing file is created empty.
      f.present := true;
      haveHandle := true;
    case NotExist =>
      if !env.createOk {
        return Exited(1), false;
      }
      f.present, f.text := true, "";
      haveHandle := true;
    case OtherError =>
  }

  /** The shared body of setupRC and setupAliasFile after the directory
      check: open, read, and append `block` unless the text holds it. */
  method EnsureBlock(f: TextFile, block: string, env: Env) returns (status: Status)
    requires f.Valid()
    modifies f
    ensures f.Valid()
    ensures status == Running || status == Exited(1)
    ensures status == Exited(1) <==> env.open == NotExist && !env.createOk
    ensures status == Exited(1) || env.open == OtherError ==>
              f.present == old(f.present) && f.text == old(f.text)
    ensures status == Running && env.open != OtherError ==>
              f.present && f.text == AfterAppend(OpenedText(old(f.text), env), block, env.readOk, env.writeOk)
  {
    var haveHandle;
    status, haveHandle := OpenForAppend(f, env);
    if status != Running {
      return;
    }
    AppendUnlessContained(f, block, haveHandle, env.readOk, env.writeOk);
  }

  /** The text right after a successful open: as it was, or empty when
      the file had to be made with os.Create. */
  function OpenedText(text: string, env: Env): string
    requires env.open != OtherError
  {
    if env.open == Opened then text else ""
  }

  /** setupRC: `.zshrc` ends up importing the alias file. */
  method SetupRC(rc: TextFile, env: Env) returns (status: Status)
    requires rc.Valid()
    modifies rc
    ensures rc.Valid()
    ensures status == Running || status == Exited(1)
    ensures status == Exited(1) <==> env.open == NotExist && !env.createOk
    ensures status == Exited(1) || env.open == OtherError ==>
              rc.present == old(rc.present) && rc.text == old(rc.text)
    ensures status == Running && env.open != OtherError ==>
              rc.present && rc.text == AfterAppend(OpenedText(old(rc.text), env), Texts.ImportAlias, env.readOk, env.writeOk)
    ensures status == Running && env.open == Opened && env.readOk && env.writeOk ==>
              rc.text == EnsureContains(old(rc.text), Texts.ImportAlias)
  {
    status := EnsureBlock(rc, Texts.ImportAlias, env);
  }

  /** setupAliasFile of main.go: when the alias directory can be made,
      the alias file ends up holding the default block. */
  method SetupAliasFile(aliasFile: TextFile, env: Env) returns (status: Status)
    requires aliasFile.Valid()
    modifies aliasFile
    ensures aliasFile.Valid()
    ensures status == Running || status == Exited(1)
    ensures status == Exited(1) <==> env.mkdirOk && env.open == NotExist && !env.createOk
    ensures !env.mkdirOk || status == Exited(1) || env.open == OtherError ==>
              aliasFile.present == old(aliasFile.present) && aliasFile.text == old(aliasFile.text)
    ensures env.mkdirOk && status == Running && env.open != OtherError ==>
              && aliasFile.present
              && aliasFile.text == AfterAppend(OpenedText(old(aliasFile.text), env), Texts.DefaultAliases, env.readOk, env.writeOk)
    ensures env.mkdirOk && env.open == Opened && env.readOk && env.writeOk ==>
              aliasFile.text == EnsureContains(old(aliasFile.text), Texts.DefaultAliases)
  {
    status := Running;
    if !env.mkdirOk {
      return;
    }
    status := EnsureBlock(aliasFile, Texts.DefaultAliases, env);
  }

  /** The open fails with a not-exist error and os.Create fails too: the
      process ends with status 1. */
  predicate CreateFails(env: Env)
  {
    env.open == NotExist && !env.createOk
  }

  /** The start of main: setupRC, then setupAliasFile, each with what the
      system answers to it. An exit in setupRC ends the process before the
      alias file is looked at. */
  method PrepareFiles(rc: TextFile, aliasFile: TextFile, rcEnv: Env, aliasEnv: Env) returns (status: Status)
    requires rc != aliasFile
    requires rc.Valid() && aliasFile.Valid()
    modifies rc, aliasFile
    ensures rc.Valid() && aliasFile.Valid()
    ensures status == Running || status == Exited(1)
    ensures status == Exited(1) <==> CreateFails(rcEnv) || (aliasEnv.mkdirOk && CreateFails(aliasEnv))
    // .zshrc
    ensures CreateFails(rcEnv) || rcEnv.open == OtherError ==>
              rc.present == old(rc.present) && rc.text == old(rc.text)
    ensures !CreateFails(rcEnv) && rcEnv.open != OtherError ==>
              && rc.present
              && rc.text == AfterAppend(OpenedText(old(rc.text), rcEnv), Texts.ImportAlias, rcEnv.readOk, rcEnv.writeOk)
    // the alias file
    ensures CreateFails(rcEnv) || !aliasEnv.mkdirOk || CreateFails(aliasEnv) || aliasEnv.open == OtherError ==>
              aliasFile.present == old(aliasFile.present) && aliasFile.text == old(aliasFile.text)
    ensures !CreateFails(rcEnv) && aliasEnv.mkdirOk && !CreateFails(aliasEnv) && aliasEnv.open != OtherError ==>
              && aliasFile.present
              && aliasFile.text == AfterAppend(OpenedText(old(aliasFile.text), aliasEnv), Texts.DefaultAliases, aliasEnv.readOk, aliasEnv.writeOk)
    ensures status == Running && rcEnv.open == Opened && rcEnv.readOk && rcEnv.writeOk ==>
              rc.text == EnsureContains(old(rc.text), Texts.ImportAlias)
    ensures status == Running && aliasEnv.mkdirOk && aliasEnv.open == Opened && aliasEnv.readOk && aliasEnv.writeOk ==>
              aliasFile.text == EnsureContains(old(aliasFile.text), Texts.DefaultAliases)
  {
    status := SetupRC(rc, rcEnv);
    if status != Running {
      return;
    }
    status := SetupAliasFile(aliasFile, aliasEnv);
  }
}
