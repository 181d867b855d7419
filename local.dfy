/** The local override store of `config/local.go`: a string map created on
    first write, rewritten in full to a file in the user's home directory
    after every change, and loaded from that file once per process. */
module LocalEnvStore {
  import opened Wrappers
  import Config
  import opened Bootstrap
  import opened GoStrings

  type Store = map<string, string>

  /** The files the store reads and writes: the JSON object saved at each
      path, taken as the map it encodes. */
  class Disk {
    var files: map<string, Store>

    constructor (initial: map<string, Store>)
      ensures files == initial
    {
      files := initial;
    }
  }

  /** The copy loop of `refreshLocalFile` and `loadEnv`: every entry of `l`
      stored into a new map. */
  method CopyEntries(l: Store) returns (m: Store)
    ensures m == l
  {
    m := map[];
    var todo := l.Keys;
    while todo != {}
      invariant todo <= l.Keys
      invariant m.Keys == l.Keys - todo
      invariant forall k | k in m :: m[k] == l[k]
      decreases |todo|
    {
      var k :| k in todo;
      m := m[k := l[k]];
      todo := todo - {k};
    }
  }

  /** `refreshLocalFile`: the file at `path` is replaced by the whole of `l`. */
  method RefreshLocalFile(l: Store, disk: Disk, path: string)
    modifies disk
    ensures disk.files == old(disk.files)[path := l]
  {
    var m := CopyEntries(l);
    disk.files := disk.files[path := m];
  }

  /** `getLocalFile`: `home + "/" + GetString("local", "ares.env")`. */
  function LocalFile(home: string, src: Config.Sources, fuel: nat): (r: Option<string>)
    ensures r.Some? ==> HasPrefix(r.value, home + "/")
  {
    match Config.GetString(src, "local", ["ares.env"], fuel)
    case None => None
    case Some(name) => Some(home + "/" + name)
  }

  /** Unless the configuration names another file, the store lives in
      `ares.env` in the home directory. */
  lemma DefaultLocalFile(home: string, src: Config.Sources, fuel: nat)
    requires Config.Getenv(src.env, "local") == ""
    requires Config.RemoteValue(src, "local").None? && Config.LocalValue(src, "local").None?
    ensures LocalFile(home, src, fuel) == Some(home + "/ares.env")
  {
    Config.NoOpeningUnchanged(src, "ares.env", fuel);
    assert Config.GetString(src, "local", ["ares.env"], fuel) == Some("ares.env");
    assert home + "/" + "ares.env" == home + "/ares.env";
  }

  /** `localEnv`: `local` is `None` while the map has not been created. */
  class LocalEnv {
    var local: Option<Store>

    constructor (initial: Option<Store>)
      ensures local == initial
    {
      local := initial;
    }

    /** `Get`: the stored value, or "" when the map does not exist yet or has
        no entry for `key`. */
    function Get(key: string): (v: string)
      reads this
      ensures v != "" ==> local.Some? && key in local.value && local.value[key] == v
      ensures local.Some? && key in local.value ==> v == local.value[key]
    {
      if local.Some? && key in local.value then local.value[key] else ""
    }

    /** The file at `path` holds exactly what the store holds. */
    predicate SavedAt(disk: Disk, path: string)
      reads this, disk
    {
      local.Some? && ReadFile(disk.files, path) == local.value
    }

    /** `Set`: creates the map if needed, stores the entry and rewrites the
        file with the whole map. */
    method Set(key: string, val: string, disk: Disk, path: string)
      modifies this, disk
      ensures local == Some(old(local).GetOr(map[])[key := val])
      ensures disk.files == old(disk.files)[path := local.value]
      ensures SavedAt(disk, path)
      ensures Get(key) == val
      ensures forall k | k != key :: Get(k) == old(Get(k))
    {
      if local.None? {
        local := Some(map[]);
      }
      local := Some(local.value[key := val]);
      RefreshLocalFile(local.value, disk, path);
    }

    /** `Delete`: nothing happens while the map does not exist; otherwise the
        entry goes and the file is rewritten with the whole map. */
    method Delete(key: string, disk: Disk, path: string)
      modifies this, disk
      ensures old(local).None? ==> local == old(local) && disk.files == old(disk.files)
      ensures old(local).Some? ==> local == Some(old(local).value - {key})
      ensures old(local).Some? ==> disk.files == old(disk.files)[path := local.value] && SavedAt(disk, path)
      ensures Get(key) == ""
      ensures forall k | k != key :: Get(k) == old(Get(k))
    {
      if local.None? {
        return;
      }
      local := Some(local.value - {key});
      RefreshLocalFile(local.value, disk, path);
    }
  }

  /** The package state: the store `env`, null until `loadEnv` runs. */
  class Process {
    var env: LocalEnv?

    constructor ()
      ensures env == null
    {
      env := null;
    }

    /** `loadEnv`: once only, creates the store from the file at `path`, or
        an empty one when there is no file. */
    method LoadEnv(disk: Disk, path: string)
      modifies this
      ensures old(env) != null ==> env == old(env)
      ensures old(env) == null ==> env != null && fresh(env) && env.local == Some(ReadFile(disk.files, path))
      ensures env.SavedAt(disk, path) || old(env) != null
    {
      if env != null {
        return;
      }
      if path !in disk.files {
        env := new LocalEnv(Some(map[]));
        return;
      }
      var m := CopyEntries(disk.files[path]);
      env := new LocalEnv(Some(m));
    }
  }

  /** A value set in one process is read back by the next one. */
  method SetThenReload(store: LocalEnv, key: string, val: string, disk: Disk, path: string) returns (got: string)
    modifies store, disk
    ensures got == val
  {
    store.Set(key, val, disk, path);
    var next := new Process();
    next.LoadEnv(disk, path);
    got := next.env.Get(key);
  }

  /** A key deleted in one process is absent in the next one. */
  method DeleteThenReload(store: LocalEnv, key: string, disk: Disk, path: string) returns (got: string)
    requires store.local.Some?
    modifies store, disk
    ensures got == ""
  {
    store.Delete(key, disk, path);
    var next := new Process();
    next.LoadEnv(disk, path);
    got := next.env.Get(key);
  }
}
