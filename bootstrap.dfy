/** Start-up of `config/config.go`: choosing the configuration file from the
    command line and the environment, reading the local document, enabling
    the remote layer, and replacing the remote document whenever the
    configuration service pushes a change. */
module Bootstrap {
  import opened Wrappers
  import opened GoStrings
  import opened Config

  const ConfigEnvVar: string := "ARES_CONFIG_FILE"
  const DefaultConfigFile: string := "config.json"

  /** A command-line argument that names the configuration file. */
  predicate IsConfigArg(arg: string) {
    HasPrefix(arg, "config=") || HasPrefix(arg, "-config=") || HasPrefix(arg, "--config=")
  }

  /** The flag name in front of the first `=` of a configuration argument. */
  function FlagLength(arg: string): (n: nat)
    requires IsConfigArg(arg)
    ensures n < |arg| && arg[n] == '=' && '=' !in arg[..n]
  {
    if HasPrefix(arg, "config=") then
      assert arg[..6] == "config=" [..6] && arg[6] == "config=" [6];
      6
    else if HasPrefix(arg, "-config=") then
      assert arg[..7] == "-config=" [..7] && arg[7] == "-config=" [7];
      7
    else
      assert arg[..8] == "--config=" [..8] && arg[8] == "--config=" [8];
      8
  }

  /** `strings.Split(arg, "=")[1]`: the text between the first `=` and the
      next one (or the end). */
  function ArgValue(arg: string): (v: string)
    requires IsConfigArg(arg)
    ensures '=' !in v
    ensures v == Split(arg[FlagLength(arg) + 1..], '=')[0]
  {
    var n := FlagLength(arg);
    assert arg == arg[..n] + ['='] + arg[n + 1..];
    SplitAfterPiece(arg[..n], '=', arg[n + 1..]);
    Split(arg, '=')[1]
  }

  /** `flag=...` is a configuration argument for each accepted spelling. */
  lemma ConfigArgOf(flag: string, w: string)
    requires flag in {"config", "-config", "--config"}
    ensures IsConfigArg(flag + "=" + w)
  {
    var a := flag + "=" + w;
    assert a[..|flag| + 1] == flag + "=";
  }

  /** `--config=app.json` names `app.json`; anything after a second `=` is
      dropped. */
  lemma ArgValueOf(flag: string, v: string, rest: string)
    requires flag in {"config", "-config", "--config"} && '=' !in v
    ensures IsConfigArg(flag + "=" + v) && ArgValue(flag + "=" + v) == v
    ensures IsConfigArg(flag + "=" + v + "=" + rest) && ArgValue(flag + "=" + v + "=" + rest) == v
  {
    ConfigArgOf(flag, v);
    ConfigArgOf(flag, v + "=" + rest);
    assert '=' !in flag;
    SecondField(flag, v, '=', rest);
    assert flag + "=" + v == flag + ['='] + v;
    assert flag + "=" + v + "=" + rest == flag + ['='] + v + ['='] + rest;
  }

  /** The value of the last configuration argument, "" when there is none. */
  function LastConfigValue(args: seq<string>): (v: string)
    ensures '=' !in v
  {
    if args == [] then ""
    else if IsConfigArg(args[|args| - 1]) then ArgValue(args[|args| - 1])
    else LastConfigValue(args[..|args| - 1])
  }

  /** A file the command line names is the value of one of its
      configuration arguments. */
  lemma {:induction false} LastConfigValueOrigin(args: seq<string>)
    ensures LastConfigValue(args) != "" ==>
              exists k | 0 <= k < |args| :: IsConfigArg(args[k]) && ArgValue(args[k]) == LastConfigValue(args)
  {
    if args != [] && !IsConfigArg(args[|args| - 1]) && LastConfigValue(args) != "" {
      var init := args[..|args| - 1];
      LastConfigValueOrigin(init);
      var k :| 0 <= k < |init| && IsConfigArg(init[k]) && ArgValue(init[k]) == LastConfigValue(init);
      assert args[k] == init[k];
    }
  }

  /** The last configuration argument wins over every earlier one. */
  lemma {:induction false} LastConfigWins(before: seq<string>, arg: string, after: seq<string>)
    requires IsConfigArg(arg)
    requires forall k | 0 <= k < |after| :: !IsConfigArg(after[k])
    ensures LastConfigValue(before + [arg] + after) == ArgValue(arg)
    decreases |after|
  {
    var args := before + [arg] + after;
    if after == [] {
      assert args[|args| - 1] == arg;
    } else {
      var shorter := after[..|after| - 1];
      assert args[..|args| - 1] == before + [arg] + shorter;
      assert args[|args| - 1] == after[|after| - 1];
      LastConfigWins(before, arg, shorter);
    }
  }

  /** Without a configuration argument the command line names nothing. */
  lemma {:induction false} NoConfigArg(args: seq<string>)
    requires forall k | 0 <= k < |args| :: !IsConfigArg(args[k])
    ensures LastConfigValue(args) == ""
  {
    if args != [] {
      NoConfigArg(args[..|args| - 1]);
    }
  }

  /** The configuration file `init` reads: the command line, else
      `ARES_CONFIG_FILE`, else `config.json`. */
  function ConfigFile(args: seq<string>, environ: map<string, string>): (f: string)
    ensures f != ""
    ensures f in {LastConfigValue(args), Getenv(environ, ConfigEnvVar), DefaultConfigFile}
  {
    if LastConfigValue(args) != "" then LastConfigValue(args)
    else if Getenv(environ, ConfigEnvVar) != "" then Getenv(environ, ConfigEnvVar)
    else DefaultConfigFile
  }

  /** The order of the fallbacks. */
  lemma ConfigFileFallbacks(args: seq<string>, environ: map<string, string>)
    ensures LastConfigValue(args) != "" ==> ConfigFile(args, environ) == LastConfigValue(args)
    ensures LastConfigValue(args) == "" && Getenv(environ, ConfigEnvVar) != "" ==>
              ConfigFile(args, environ) == Getenv(environ, ConfigEnvVar)
    ensures LastConfigValue(args) == "" && Getenv(environ, ConfigEnvVar) == "" ==>
              ConfigFile(args, environ) == DefaultConfigFile
  {
  }

  /** The selection loop of `init`, with its environment check made twice as
      in the source. */
  method SelectConfigFile(args: seq<string>, environ: map<string, string>) returns (configFile: string)
    ensures configFile == ConfigFile(args, environ)
  {
    configFile := "";
    var i := 0;
    while i < |args|
      invariant 0 <= i <= |args|
      invariant configFile == LastConfigValue(args[..i])
    {
      if IsConfigArg(args[i]) {
        configFile := ArgValue(args[i]);
      }
      assert args[..i + 1][..i] == args[..i];
      i := i + 1;
    }
    assert args[..|args|] == args;
    if configFile == "" {
      configFile := Getenv(environ, ConfigEnvVar);
    }
    if configFile == "" {
      configFile := Getenv(environ, ConfigEnvVar);
    }
    if configFile == "" {
      configFile := DefaultConfigFile;
    }
  }

  /** `readFile`: the parsed file at `path`, or an empty document when it
      cannot be opened. The override store of `config/local.go` loads its
      file the same way. */
  function ReadFile<V>(files: map<string, map<string, V>>, path: string): map<string, V> {
    if path in files then files[path] else map[]
  }

  /** The remote layer is switched on only when the local document names the
      servers and the data id. */
  predicate RemoteEnabled(local: Document) {
    "nacos.serverConfigs" in local && "nacos.dataId" in local
  }

  /** Without its configuration file the process starts from an empty local
      document, and so with the remote layer switched off. */
  lemma MissingConfigFile(args: seq<string>, environ: map<string, string>, files: map<string, Document>)
    requires ConfigFile(args, environ) !in files
    ensures ReadFile(files, ConfigFile(args, environ)) == map[]
    ensures !RemoteEnabled(ReadFile(files, ConfigFile(args, environ)))
  {
  }

  /** The process-wide configuration record `conf`. */
  class Conf {
    var local: Document
    var nacos: Option<Document>

    /** `init`: read the selected file; when the remote layer is enabled,
        `fetched` is the document the configuration service returned. */
    constructor Init(args: seq<string>, environ: map<string, string>, files: map<string, Document>, fetched: Document)
      ensures local == ReadFile(files, ConfigFile(args, environ))
      ensures nacos == (if RemoteEnabled(local) then Some(fetched) else None)
    {
      var path := SelectConfigFile(args, environ);
      var doc := ReadFile(files, path);
      local := doc;
      nacos := if RemoteEnabled(doc) then Some(fetched) else None;
    }

    /** The change listener: the pushed document replaces the remote one
        wholesale; the local document is untouched. */
    method OnChange(data: Document)
      requires nacos.Some?
      modifies this
      ensures nacos == Some(data) && local == old(local)
    {
      nacos := Some(data);
    }
  }
}
