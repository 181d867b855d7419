# ares-nacos configuration core, modelled in Dafny

This project models the three parts of `ares-nacos` that have behaviour of
their own.

- **Configuration lookup (`config/config.go`).** A lookup reads three layers:
  - the environment;
  - the document pushed by the nacos configuration service (the remote
    layer);
  - the local JSON document chosen at start-up.

  `GetString` checks a non-empty environment variable named after the key,
  then the remote document, then the local document, then the caller's
  default. Every string it returns goes through `GetValue`. `GetValue`
  finds the `${...}` placeholders in the string and replaces each one by
  `GetString` of the key it names. `GetBool`, `GetInt64` and `GetInt` skip
  the environment. The array getters use a layer only when it holds an
  array. `GetStruct` goes by existence alone. Start-up picks the
  configuration file from the command line, then `ARES_CONFIG_FILE`, then
  `config.json`. The remote layer is switched on only when the local
  document names both `nacos.serverConfigs` and `nacos.dataId`. A change
  notification replaces the remote document wholesale.
- **Local override store (`config/local.go`).** A string map that is
  created on first write. After every change it is rewritten in full to a
  file in the home directory. It is loaded from that file once per
  process.
- **Service-discovery wrapper (`naming/naming.go`).** Three argument
  validators check in a fixed order and report fixed messages. Each of the
  five operations returns the validator's error, or builds a parameter
  record for the naming client.

Files:

- `wrappers.dfy` defines `Option`.
- `gostrings.dfy` covers the Go `strings` functions the code calls
  (`HasPrefix`, `Split`, `ReplaceAll`).
- `placeholder.dfy` implements the two fixed regular expressions as
  scanners:
  - `\$\{(\s+)?(\S)+(\s+)?\}` with `FindAllString`;
  - `(\w+(\.)?)+` with `FindString`.
- `config.dfy` holds the accessors and the interpolation.
- `bootstrap.dfy` holds start-up and the `Conf` record with its change
  listener.
- `local.dfy` holds the override store.
- `naming.dfy` holds the validators and operations.

Modelling choices:

- **Documents.** A document is a map from path to a `Value`. `Value`
  records what gjson's accessors return (`IsArray`, `String`, `Bool`,
  `Int`, `Array`, `Raw`). `Get(path).Exists()` is map membership.
- **Interpolation depth.** Interpolation is recursive in the code:
  `GetString` calls `GetValue` on the text it found (`config/config.go`
  lines 198-209), and `GetValue` calls `GetString` for each key (line 254).
  A value that is itself a placeholder is therefore expanded again
  (`Config.NestedExpansion`). A key that refers to itself never finishes
  expanding (`Config.SelfReferenceDiverges`).
  - The recursion carries a `fuel` bound. `None` means the bound was
    reached.
  - `Config.GetStringFuel` proves that any result found is the result
    found with more fuel.
- **Regex matching.** Go's regexp package picks the leftmost match and
  prefers the choices a backtracking matcher would try first. For the
  placeholder pattern this is the longest match at the leftmost start
  (`Placeholder.MatchAtLongest`). Because `\S` also matches `}`, two
  placeholders written back to back form a single match whose key is the
  first one's (`Config.AdjacentPlaceholdersUseFirstKey`). Go's `\s` is
  `[\t\n\f\r ]`.
- **Local store.** The override file is the map it encodes, and JSON
  encoding is the identity. The persisted copy is a field of a `Disk`
  object.
- **OS inputs.** `os.Args`, the environment and the home directory are
  parameters.

## Model

| member | source | states |
|---|---|---|
| `GoStrings.Split` | config/config.go:31 | `strings.Split` with a one-character separator gives one more piece than there are separators. No piece contains the separator. Joining the pieces with it gives back the input. |
| `GoStrings.SecondField` | config/config.go:31 | `Split(s, "=")[1]` is the text between the first `=` and the second one, or the end of the string. |
| `GoStrings.ReplaceAll` | config/config.go:254 | Replacing a string by itself leaves the text unchanged. Which occurrences are replaced is stated in `ReplaceAllAbsent` and `ReplaceAllFirst`. |
| `GoStrings.ReplaceAllAbsent` | config/config.go:254 | A text in which the pattern does not occur is left unchanged. |
| `GoStrings.ReplaceAllRepeat` | config/config.go:254 | Each of n back-to-back occurrences of the pattern is replaced. |
| `GoStrings.ReplaceAllFront` | config/config.go:254 | An occurrence at the front is replaced, and the scan resumes after it. |
| `GoStrings.ReplaceAllSkip` | config/config.go:254 | A first character that cannot start the pattern is kept as it is. |
| `GoStrings.ReplaceAllFirst` | config/config.go:254 | The text before the first occurrence is kept, that occurrence is replaced, and the scan resumes after it. Together with `ReplaceAllAbsent` this fixes the result for every input: each non-overlapping occurrence, from left to right. |
| `Placeholder.SpaceEndSpec` | config/config.go:251 | The whitespace scan stops exactly at the first character outside Go's `\s`. |
| `Placeholder.NonSpaceEndSpec` | config/config.go:251 | The `\S` scan stops exactly at the first whitespace character. |
| `Placeholder.LastCloseSpec` | config/config.go:251 | The backtracking step finds the last `}` inside the run, or reports that the run has none. |
| `Placeholder.MatchAt` | config/config.go:251 | A match chosen at a position starts with `${` and is at least 4 characters long. Its full characterisation is in `MatchAtSound` and `MatchAtLongest`. |
| `Placeholder.MatchAtSound` | config/config.go:251 | The span chosen at a position is a match of `\$\{(\s+)?(\S)+(\s+)?\}`. |
| `Placeholder.MatchAtLongest` | config/config.go:251 | If the pattern matches at a position, a match is chosen there, and it is the longest one. |
| `Placeholder.FindAll` | config/config.go:252 | The spans `FindAllString` reports lie in the text, in order, without overlapping. Each is at least 4 characters long. |
| `Placeholder.FindAllMatches` | config/config.go:252 | Each reported span is the match chosen at its start. |
| `Placeholder.FindAllCovers` | config/config.go:252 | Every position where a match could start lies inside a reported span, so the scan misses no match. |
| `Placeholder.Placeholders` | config/config.go:252 | Every placeholder found is at least `${x}` long. |
| `Placeholder.NoPlaceholders` | config/config.go:251-252 | No placeholder is found if and only if the pattern matches nowhere in the text. |
| `Placeholder.NoOpeningNoPlaceholders` | config/config.go:251-252 | A text without `${` has no placeholders. |
| `Placeholder.KeyEnd` | config/config.go:254 | The greedy match of `(\w+(\.)?)+` is a run of word characters with single dots inside it, and it cannot be extended. |
| `Placeholder.KeyEndLongest` | config/config.go:254 | No match of the key pattern at the same start is longer than the greedy one. |
| `Placeholder.Key` | config/config.go:254 | The key is "" exactly when the placeholder holds no word character. |
| `Placeholder.WholePlaceholder` | config/config.go:251-252 | A text matching the pattern as a whole is its own only placeholder. |
| `Placeholder.KeyAfterSpaces` | config/config.go:254 | The key is the dotted path after `${` and any whitespace. |
| `Placeholder.PlaceholderKey` | config/config.go:251-254 | `${ key }` with any whitespace around a dotted key is found whole, and it names exactly that key. |
| `Placeholder.KeyDropsWhitespace` | config/config.go:254 | `${ s.d  }` is one placeholder with key `s.d`. |
| `Placeholder.NestedKeyDropsWhitespace` | config/config_test.go:30-35 | `${s1.s.s.a_d  }` names the key `s1.s.s.a_d`. |
| `Placeholder.AdjacentPlaceholdersMerge` | config/config.go:251-254 | `${a}${b}` is one placeholder, and its key is `a`. |
| `Placeholder.SeparatedPlaceholders` | config/config.go:251-252 | `${a} ${a}` holds two placeholders, each with key `a`. |
| `Placeholder.MatchesInText` | config/config_test.go:19-22 | In `a ${s.d  },${s.dd}`, matches start at 2 and 11 and end at 10 and 18. No match starts at 0, 1 or 10. |
| `Placeholder.PlaceholdersInText` | config/config_test.go:19-22 | `a ${s.d  },${s.dd}` holds the placeholders `${s.d  }` and `${s.dd}`, in that order. |
| `Placeholder.KeysInText` | config/config_test.go:19-26 | The two placeholders of the test string name `s.d` and `s.dd`. |
| `Config.GetString` | config/config.go:196-212 | The layer-by-layer definition of `GetString`, recursive through `Interpolated`. Its precedence is stated in `GetStringPrecedence` and its fuel bound in `GetStringFuel`. |
| `Config.Interpolated` | config/config.go:250-257 | `GetValue` as a function: the replacement steps over the placeholders of the original value. `GetValue` is proved equal to it. |
| `Config.Substitute` | config/config.go:253-255 | One step per placeholder: look up its key with default "", then replace every occurrence. The result is `None` once the recursion bound is reached. |
| `Config.GetStringPrecedence` | config/config.go:196-212 | `GetString` goes by the first layer that has the key: a non-empty environment variable, then the remote document, then the local document, then the first default. That text is interpolated. With no layer, the result is "". |
| `Config.GetValue` | config/config.go:250-257 | The replacement loop over the placeholders of the original value computes `Interpolated`. |
| `Config.NoOpeningUnchanged` | config/config.go:250-257 | A value without `${` is returned unchanged. |
| `Config.GetStringFuel` | config/config.go:196-212 | Once `GetString` has a result, more recursion depth gives the same result. |
| `Config.InterpolatedFuel` | config/config.go:250-257 | Once interpolation has a result, more recursion depth gives the same result. |
| `Config.SubstituteFuel` | config/config.go:253-255 | The same holds for the remaining steps of the replacement loop. |
| `Config.WholeResolves` | config/config.go:253-255 | A value that is a single placeholder becomes `GetString(key, "")`. |
| `Config.UnresolvedKeyEmpty` | config/config.go:254 | A placeholder whose key is in no layer is replaced by "". |
| `Config.RefResolves` | config/config.go:253-255 | `${key}` becomes the value of `key`. |
| `Config.NestedExpansion` | config/config.go:196-257 | With `a = ${b}`, `b = ${c}` and `c = x`, `GetString(a)` is `x`, because replacement texts are expanded again. |
| `Config.SelfReferenceDiverges` | config/config.go:196-257 | A key whose value is `${itself}` has no result at any recursion depth. |
| `Config.AdjacentPlaceholdersUseFirstKey` | config/config.go:251-255 | `${a}${b}` is replaced as a whole by the value of `a`. |
| `Config.EveryOccurrenceReplaced` | config/config.go:253-255 | With `a = 1`, `${a} ${a}` becomes `1 1`. |
| `Config.GetBool` | config/config.go:214-225 | The definition of `GetBool`. Its precedence is stated in `GetBoolPrecedence`. |
| `Config.GetInt64` | config/config.go:227-238 | The definition of `GetInt64`. Its precedence is stated in `GetInt64Precedence`. |
| `Config.GetBoolPrecedence` | config/config.go:214-225 | `GetBool` reads the remote value, then the local one, then the first default, then `false`. |
| `Config.GetInt64Precedence` | config/config.go:227-238 | `GetInt64` reads the remote value, then the local one, then the first default, then 0. |
| `Config.TypedGettersIgnoreEnv` | config/config.go:214-238 | The environment never changes what `GetBool` or `GetInt64` return. |
| `Config.Narrow` | config/config.go:247 | `int(x)` lies in the range of the target width, is `x` when `x` fits, and agrees with `x` modulo 2^width. |
| `Config.GetInt` | config/config.go:240-248 | `GetInt` lies in the range of Go's `int`. |
| `Config.GetInt64Bit` | config/config.go:240-248 | On a 64-bit platform `GetInt` equals `GetInt64`. |
| `Config.GetIntDefault` | config/config.go:241-247 | When no document has the key, the first default comes back unchanged. |
| `Config.ArrayIn` | config/config.go:142 | A layer qualifies exactly when it has the key and the value there is an array. |
| `Config.ArraySource` | config/config.go:140-162 | The array getters convert the first qualifying layer, remote before local. |
| `Config.NonArrayRemoteFallsThrough` | config/config.go:141-148 | A remote value that is not an array does not hide a local array. |
| `Config.ConvertResult2ArrayInt64` | config/config.go:172-178 | One `Int()` per element, in order. |
| `Config.ConvertResult2ArrayString` | config/config.go:164-170 | One interpolated `String()` per element, in order. The result is `None` exactly when some element's expansion does not finish. |
| `Config.GetArrayInt64` | config/config.go:152-162 | The converted qualifying array, or an empty list when neither layer qualifies. |
| `Config.GetArrayString` | config/config.go:140-150 | The interpolated qualifying array, or an empty list when neither layer qualifies. The result is `None` exactly when some element's expansion does not finish. |
| `Config.GetStruct` | config/config.go:180-190 | The remote raw JSON, else the local one, by existence alone. With neither, the result is nil and the destination is untouched. |
| `Config.PushedPayloadWins` | config/config.go:99-101 | After a push, `GetBool`, `GetInt64` and `GetStruct` read a key in the new payload from it, and a key not in it as if there were no remote document, so the old payload is never visible. The same holds for the array getters' choice of source array. `GetString` also takes the text of a key in the payload from the payload (unless the environment overrides it). That text's placeholders, however, resolve against the new payload, so for `GetString` the result is not that of a state without a remote document. |
| `Bootstrap.ArgValue` | config/config.go:31 | The value of a configuration argument is the first field after the flag's `=`, and it contains no `=`. |
| `Bootstrap.ArgValueOf` | config/config.go:28-31 | `config=`, `-config=` and `--config=` are recognised. Their value is the text up to the next `=`. |
| `Bootstrap.LastConfigValue` | config/config.go:27-33 | The file the command line names contains no `=`. |
| `Bootstrap.LastConfigValueOrigin` | config/config.go:27-33 | A file the command line names (not "") is the value of one of its configuration arguments. |
| `Bootstrap.LastConfigWins` | config/config.go:27-33 | The last configuration argument decides, whatever came earlier. |
| `Bootstrap.NoConfigArg` | config/config.go:27-33 | With no configuration argument, the command line names nothing. |
| `Bootstrap.ConfigFile` | config/config.go:26-44 | The selected file name is never empty. It is the command-line value, `ARES_CONFIG_FILE` or `config.json`. |
| `Bootstrap.ConfigFileFallbacks` | config/config.go:35-44 | The command line comes first, then `ARES_CONFIG_FILE` when the command line gives "", then `config.json`. |
| `Bootstrap.SelectConfigFile` | config/config.go:26-44 | The argument loop, with the doubled environment check, selects `ConfigFile`. |
| `Bootstrap.RemoteEnabled` | config/config.go:49-51 | The condition for the remote layer: the local document has both `nacos.serverConfigs` and `nacos.dataId`. `Conf.Init` uses it. |
| `Bootstrap.MissingConfigFile` | config/config.go:45-51 | When the selected file cannot be opened, `readFile` (lines 110-114) gives an empty document, so the local document is empty and the remote layer stays off. With `Conf.Init` this gives `local == map[]` and `nacos == None`. |
| `Bootstrap.Conf.Init` | config/config.go:46-52 | The local document is the selected file. The remote document is present only when `nacos.serverConfigs` and `nacos.dataId` both exist locally. |
| `Bootstrap.Conf.OnChange` | config/config.go:99-101 | A push replaces the remote document wholesale and leaves the local one alone. |
| `LocalEnvStore.CopyEntries` | config/local.go:62-65 | The copy loop stores every entry and nothing else. |
| `LocalEnvStore.RefreshLocalFile` | config/local.go:54-69 | The file is replaced by the whole map, not appended to. |
| `LocalEnvStore.LocalFile` | config/local.go:47-50 | The store file lies in the home directory: `home + "/"` followed by `GetString("local", "ares.env")`. |
| `LocalEnvStore.DefaultLocalFile` | config/local.go:47-50 | Unless configured otherwise, the store file is `home + "/ares.env"`. |
| `LocalEnvStore.LocalEnv.Get` | config/local.go:20-28 | A non-empty answer is the stored value. A stored key gives its value. A missing map or key gives "". |
| `LocalEnvStore.LocalEnv.Set` | config/local.go:30-37 | Creates the map if needed. Afterwards `Get(key)` is `val` and every other key is unchanged. The file holds the whole new map. |
| `LocalEnvStore.LocalEnv.Delete` | config/local.go:39-45 | Without a map, nothing changes and no file is written. Otherwise only `key` goes, and the file holds the whole new map. |
| `LocalEnvStore.Process.LoadEnv` | config/local.go:71-99 | Runs once: an existing store stays. Otherwise a fresh store holds exactly the saved entries (`Bootstrap.ReadFile` of the store file), or none when there is no file. |
| `LocalEnvStore.SetThenReload` | config/local.go:30-99 | A value set in one process is read back by the next one. |
| `LocalEnvStore.DeleteThenReload` | config/local.go:39-99 | A key deleted in one process reads as "" in the next one. |
| `Naming.CheckArgs0` | naming/naming.go:134-145 | Succeeds exactly when ip, port and service name are all given. The flag is true exactly when the error is nil. |
| `Naming.CheckArgs1` | naming/naming.go:146-157 | Succeeds exactly when service name, clusters and callback are all given. The flag is true exactly when the error is nil. |
| `Naming.CheckArgs2` | naming/naming.go:158-166 | Succeeds exactly when service name and clusters are given. The flag is true exactly when the error is nil. |
| `Naming.CheckArgs0Order` | naming/naming.go:134-145 | Reports the first failing check, in the order ip, port, service name, with its fixed message. |
| `Naming.CheckArgs1Order` | naming/naming.go:146-157 | Reports the first failing check, in the order service name, clusters, callback. |
| `Naming.CheckArgs2Order` | naming/naming.go:158-166 | Reports the first failing check, in the order service name, clusters. |
| `Naming.ClusterNameIgnored` | naming/naming.go:134-145 | The cluster name never affects `checkArgs0`. |
| `Naming.CallbackGivenSameAsCheckArgs2` | naming/naming.go:146-166 | With a callback, `checkArgs1` answers as `checkArgs2` does. |
| `Naming.Guard` | naming/naming.go:58-61 | A failing check is returned with its error and the client is not called. A passing check hands the client the record unchanged. The same guard opens each operation (lines 78-81, 94-97, 108-111, 122-125). |
| `Naming.RegisterService` | naming/naming.go:57-74 | Rejected, with `checkArgs0`'s error, exactly when the checks fail. Otherwise the client gets the arguments unchanged, with weight 10 and enabled, healthy and ephemeral set. |
| `Naming.LogoutService` | naming/naming.go:77-90 | Rejected, with `checkArgs0`'s error, exactly when the checks fail. Otherwise the client gets `Cluster = clusterName` and `Ephemeral = false`. |
| `Naming.AddListener` | naming/naming.go:93-104 | Rejected with `checkArgs1`'s error exactly when it fails. Otherwise the client gets the subscription. |
| `Naming.SelectServices` | naming/naming.go:107-118 | Rejected with `checkArgs2`'s error (and nil instances) exactly when it fails. Otherwise the client gets the selection with `HealthyOnly`. |
| `Naming.SelectAllServices` | naming/naming.go:121-131 | Rejected with `checkArgs2`'s error (and nil instances) exactly when it fails. Otherwise the client gets the selection. |
| `Naming.RegisterLogoutAgree` | naming/naming.go:57-90 | Registering and deregistering reject the same arguments, with the same error. |
| `Naming.SelectionsAgree` | naming/naming.go:107-131 | Both selections reject the same arguments, with the same error. |
| `Naming.EmptyClusterRegisters` | naming/naming_test.go:9 | Registering `localhost:8080` as `test` with an empty cluster name reaches the client. |
| `Naming.IpCheckedFirst` | naming/naming.go:134-137 | An empty ip is reported before any other problem. |

## Left out

- Calls into the nacos SDK are not modelled. That covers creating the configuration and naming clients, `GetConfig`, `ListenConfig`, `RegisterInstance` and the rest. The document the service returns at start-up is a parameter of `Bootstrap.Conf.Init`, and a client call is the outcome `Naming.Delegated`.
- The `os.Exit` paths are left out.
- Building the server list through `arraylist` and a JSON round trip is left out (config/config.go:56-67, naming/naming.go:20-32). The client settings are left out too.
- gjson parsing and its coercions are not modelled. `String()`, `Bool()`, `Int()`, `IsArray()`, `Array()` and `Raw` are fields of `Config.Value`. A file that does not parse is not distinguished from the document it yields.
- `readString` is not modelled. The pushed payload arrives already parsed.
- The getters `GetLocalConfig`, `GeNacosConfig`, `GeNacosClient` and `GetLocal` only return a field, so they have no members of their own.
- `Config.GetStruct`: decoding the raw JSON into the destination with `json.Unmarshal` is left out. The model stops at which raw text is decoded.
- JSON encoding and decoding of the override file is not modelled: the file holds the map itself. A file that exists but cannot be read or decoded is not modelled.
- Concurrency is left out: `sync.Map`, the file lock, and the atomicity of replacing the remote document. The gap between `os.Remove` and `WriteFile` is modelled as a single replacement.
- The environment, the command line, the home directory and the files are parameters, not OS calls.
- `LocalEnvStore.LocalEnv.Set`, `LocalEnvStore.LocalEnv.Delete` and `LocalEnvStore.Process.LoadEnv` take the store file's path as a parameter. The Go code recomputes it through `getLocalFile()` on every write and every load (config/local.go:57, 75). That reads `GetString("local", "ares.env")`, which a remote push can change. `LocalEnvStore.SetThenReload` and `LocalEnvStore.DeleteThenReload` assume the path is unchanged between a write and the next load.
- Only the two fixed regular expressions are modelled, not Go's regexp engine. Strings are sequences of characters, not UTF-8 bytes.
- `Config.GetString`: the Go recursion has no bound. The model carries a `fuel` bound, and `None` means the bound was reached, where Go would keep recursing.
- `Config.GetArrayString`: for the same reason it returns an `Option`.
- `Naming.RegisterService`: the `float64` weight is modelled as the real number 10.0.
- `Naming.SelectServices` and `Naming.SelectAllServices`: what the client returns when it is called is left out.
