/** The layered configuration lookup of `config/config.go`: a local JSON
    document, an optional document fetched from the nacos configuration
    service, and the process environment, queried key by key; and the
    interpolation of `${key}` placeholders in string values. */
module Config {
  import opened Wrappers
  import opened GoStrings
  import opened Placeholder

  /** Go's `int64`. */
  type Int64 = x: int | -0x8000_0000_0000_0000 <= x < 0x8000_0000_0000_0000

  /** What gjson answers about the value found at a path: `IsArray()`,
      `String()`, `Bool()`, `Int()`, `Array()` and `Raw`. How gjson coerces
      a JSON value to each of these is not modelled, so each one is simply
      a field. */
  datatype Value = Value(
    isArray: bool,
    str: string,
    boolean: bool,
    int64: Int64,
    items: seq<Value>,
    raw: string)

  /** A parsed document: the values found at each path (`Get(path).Exists()`
      is membership). */
  type Document = map<string, Value>

  /** The state every accessor reads: the local document, the remote one
      (absent until the remote layer is enabled) and the environment. */
  datatype Sources = Sources(local: Document, nacos: Option<Document>, env: map<string, string>)

  /** `os.Getenv`: an unset variable reads as "". */
  function Getenv(env: map<string, string>, name: string): string {
    if name in env then env[name] else ""
  }

  /** The remote document's value at `name`, when there is a remote document
      and it holds `name`. */
  function RemoteValue(src: Sources, name: string): Option<Value> {
    if src.nacos.Some? && name in src.nacos.value then Some(src.nacos.value[name]) else None
  }

  function LocalValue(src: Sources, name: string): Option<Value> {
    if name in src.local then Some(src.local[name]) else None
  }

  // ---------------------------------------------------------------------
  // Precedence, stated once
  // ---------------------------------------------------------------------

  /** All of `layers` are absent. */
  predicate AllAbsent<T>(layers: seq<Option<T>>) {
    forall k | 0 <= k < |layers| :: layers[k].None?
  }

  /** The position of the first layer that has a value, or `|layers|`. */
  function FirstIndex<T>(layers: seq<Option<T>>): (k: nat)
    ensures k <= |layers| && AllAbsent(layers[..k])
    ensures k < |layers| ==> layers[k].Some?
  {
    if |layers| == 0 || layers[0].Some? then 0
    else
      var k := FirstIndex(layers[1..]);
      assert layers[..k + 1] == [layers[0]] + layers[1..][..k];
      k + 1
  }

  /** The first layer that has a value: the reference definition that every
      accessor's precedence is stated against. */
  function FirstPresent<T>(layers: seq<Option<T>>): (r: Option<T>)
    ensures r.None? <==> AllAbsent(layers)
    ensures r.Some? ==> exists k | 0 <= k < |layers| :: layers[k] == r && AllAbsent(layers[..k])
  {
    var k := FirstIndex(layers);
    if k == |layers| then
      assert layers[..k] == layers;
      None
    else layers[k]
  }

  /** `FirstPresent` looks at the head layer first. */
  lemma FirstPresentCons<T>(head: Option<T>, tail: seq<Option<T>>)
    ensures FirstPresent([head] + tail) == if head.Some? then head else FirstPresent(tail)
  {
    var layers := [head] + tail;
    assert layers[1..] == tail;
  }

  /** With two layers: the first one if present, else the second. */
  lemma FirstPresent2<T>(x: Option<T>, y: Option<T>)
    ensures FirstPresent([x, y]) == if x.Some? then x else y
  {
    FirstPresentCons(x, [y]);
    FirstPresentCons(y, []);
    assert [x, y] == [x] + [y] && [y] == [y] + [];
  }

  function StringOf(v: Option<Value>): Option<string> {
    match v
    case Some(x) => Some(x.str)
    case None => None
  }

  function FirstDefault<T>(defaults: seq<T>): Option<T> {
    if |defaults| > 0 then Some(defaults[0]) else None
  }

  // ---------------------------------------------------------------------
  // GetString and the interpolation it applies (mutually recursive)
  // ---------------------------------------------------------------------

  /** `GetString(name, defaults...)`: a non-empty environment variable named
      `name`, else the remote value, else the local value, else the first
      default, each passed through interpolation; "" when there is none.
      Interpolation calls back into `GetString`, so the recursion is bounded
      by `fuel`; `None` means the bound was reached before the expansion
      ended (the Go code would keep recursing). */
  function GetString(src: Sources, name: string, defaults: seq<string>, fuel: nat): Option<string>
    decreases fuel, 2, 0
  {
    if Getenv(src.env, name) != "" then Interpolated(src, Getenv(src.env, name), fuel)
    else if RemoteValue(src, name).Some? then Interpolated(src, RemoteValue(src, name).value.str, fuel)
    else if LocalValue(src, name).Some? then Interpolated(src, LocalValue(src, name).value.str, fuel)
    else if |defaults| > 0 then Interpolated(src, defaults[0], fuel)
    else Some("")
  }

  /** `GetValue(val)`: every placeholder found in `val` is, in order,
      replaced everywhere by `GetString(key, "")`. */
  function Interpolated(src: Sources, val: string, fuel: nat): Option<string>
    decreases fuel, 1, 0
  {
    Substitute(src, val, Placeholders(val), fuel)
  }

  /** The replacement loop of `GetValue` over the placeholders `ps` still to
      be replaced, starting from the text `cur`. */
  function Substitute(src: Sources, cur: string, ps: seq<string>, fuel: nat): Option<string>
    requires forall k | 0 <= k < |ps| :: ps[k] != []
    decreases fuel, 0, |ps|
  {
    if ps == [] then Some(cur)
    else if fuel == 0 then None
    else
      match GetString(src, Key(ps[0]), [""], fuel - 1)
      case None => None
      case Some(rep) => Substitute(src, ReplaceAll(cur, ps[0], rep), ps[1..], fuel)
  }

  /** `GetValue`, as the Go code runs it: a loop that rewrites `val` once per
      placeholder found in the original text. */
  method GetValue(src: Sources, val: string, fuel: nat) returns (r: Option<string>)
    ensures r == Interpolated(src, val, fuel)
  {
    var ps := Placeholders(val);
    var cur := val;
    var i := 0;
    while i < |ps|
      invariant 0 <= i <= |ps|
      invariant Substitute(src, cur, ps[i..], fuel) == Substitute(src, val, ps, fuel)
    {
      if fuel == 0 {
        return None;
      }
      var rep := GetString(src, Key(ps[i]), [""], fuel - 1);
      if rep.None? {
        return None;
      }
      assert ps[i..][1..] == ps[i + 1..];
      cur := ReplaceAll(cur, ps[i], rep.value);
      i := i + 1;
    }
    return Some(cur);
  }

  /** A value with no `${` in it is returned unchanged. */
  lemma NoOpeningUnchanged(src: Sources, val: string, fuel: nat)
    requires forall i | 0 <= i < |val| - 1 :: !(val[i] == '$' && val[i + 1] == '{')
    ensures Interpolated(src, val, fuel) == Some(val)
  {
    NoOpeningNoPlaceholders(val);
  }

  /** The text `GetString` interpolates, layer by layer: the environment
      (when non-empty), the remote document, the local document, the first
      default. */
  function StringLayers(src: Sources, name: string, defaults: seq<string>): seq<Option<string>> {
    [ if Getenv(src.env, name) != "" then Some(Getenv(src.env, name)) else None,
      StringOf(RemoteValue(src, name)),
      StringOf(LocalValue(src, name)),
      FirstDefault(defaults) ]
  }

  /** Precedence of `GetString`: the first layer that has a text decides and
      that text is interpolated; "" when no layer has one. An environment
      variable set to "" counts as unset. */
  lemma GetStringPrecedence(src: Sources, name: string, defaults: seq<string>, fuel: nat)
    ensures GetString(src, name, defaults, fuel) ==
      match FirstPresent(StringLayers(src, name, defaults))
      case None => Some("")
      case Some(t) => Interpolated(src, t, fuel)
  {
    var l := StringLayers(src, name, defaults);
    FirstPresentCons(l[0], l[1..]);
    FirstPresentCons(l[1], l[2..]);
    FirstPresentCons(l[2], l[3..]);
    FirstPresentCons(l[3], l[4..]);
    assert l == [l[0]] + l[1..] && l[1..] == [l[1]] + l[2..] && l[2..] == [l[2]] + l[3..];
    assert l[3..] == [l[3]] + l[4..] && l[4..] == [];
  }

  // Fuel only bounds the recursion: a result found with some fuel is the
  // result found with any larger fuel.

  lemma {:induction false} GetStringFuel(src: Sources, name: string, defaults: seq<string>, fuel: nat)
    ensures GetString(src, name, defaults, fuel).Some? ==>
            GetString(src, name, defaults, fuel + 1) == GetString(src, name, defaults, fuel)
    decreases fuel, 2, 0
  {
    if Getenv(src.env, name) != "" {
      InterpolatedFuel(src, Getenv(src.env, name), fuel);
    } else if RemoteValue(src, name).Some? {
      InterpolatedFuel(src, RemoteValue(src, name).value.str, fuel);
    } else if LocalValue(src, name).Some? {
      InterpolatedFuel(src, LocalValue(src, name).value.str, fuel);
    } else if |defaults| > 0 {
      InterpolatedFuel(src, defaults[0], fuel);
    }
  }

  lemma {:induction false} InterpolatedFuel(src: Sources, val: string, fuel: nat)
    ensures Interpolated(src, val, fuel).Some? ==>
            Interpolated(src, val, fuel + 1) == Interpolated(src, val, fuel)
    decreases fuel, 1, 0
  {
    SubstituteFuel(src, val, Placeholders(val), fuel);
  }

  lemma {:induction false} SubstituteFuel(src: Sources, cur: string, ps: seq<string>, fuel: nat)
    requires forall k | 0 <= k < |ps| :: ps[k] != []
    ensures Substitute(src, cur, ps, fuel).Some? ==>
            Substitute(src, cur, ps, fuel + 1) == Substitute(src, cur, ps, fuel)
    decreases fuel, 0, |ps|
  {
    if ps != [] && fuel > 0 {
      GetStringFuel(src, Key(ps[0]), [""], fuel - 1);
      match GetString(src, Key(ps[0]), [""], fuel - 1)
      case None =>
      case Some(rep) =>
        SubstituteFuel(src, ReplaceAll(cur, ps[0], rep), ps[1..], fuel);
    }
  }

  /** A text that is one placeholder as a whole is replaced by the value
      of its key. */
  lemma WholeResolves(src: Sources, t: string, fuel: nat)
    requires Placeholders(t) == [t] && fuel > 0
    ensures Interpolated(src, t, fuel) == GetString(src, Key(t), [""], fuel - 1)
  {
    match GetString(src, Key(t), [""], fuel - 1)
    case None =>
    case Some(rep) =>
      ReplaceAllFront(t, rep, "");
      assert t + "" == t && rep + "" == rep;
      assert ReplaceAll(t, t, rep) == rep;
      assert [t][1..] == [];
      assert Substitute(src, rep, [], fuel) == Some(rep);
      assert Substitute(src, t, [t], fuel) == Substitute(src, rep, [], fuel);
  }

  /** A placeholder whose key no layer holds is replaced by "". */
  lemma UnresolvedKeyEmpty(src: Sources, ws1: string, key: string, ws2: string, fuel: nat)
    requires AllSpace(ws1) && IsDottedKey(key) && AllSpace(ws2)
    requires Getenv(src.env, key) == "" && RemoteValue(src, key).None? && LocalValue(src, key).None?
    requires fuel > 0
    ensures Interpolated(src, "${" + ws1 + key + ws2 + "}", fuel) == Some("")
  {
    var t := "${" + ws1 + key + ws2 + "}";
    PlaceholderKey(ws1, key, ws2);
    WholeResolves(src, t, fuel);
    NoOpeningUnchanged(src, "", fuel - 1);
  }

  // ---------------------------------------------------------------------
  // Nested, cyclic and adjacent references
  // ---------------------------------------------------------------------

  /** `name` is read from the local document, as the text `s`. */
  predicate LocalString(src: Sources, name: string, s: string) {
    && Getenv(src.env, name) == ""
    && RemoteValue(src, name).None?
    && LocalValue(src, name).Some?
    && LocalValue(src, name).value.str == s
  }

  lemma LocalLookup(src: Sources, name: string, s: string, defaults: seq<string>, fuel: nat)
    requires LocalString(src, name, s)
    ensures GetString(src, name, defaults, fuel) == Interpolated(src, s, fuel)
  {
  }

  /** A value with no `${` in it. */
  predicate Plain(x: string) {
    forall i | 0 <= i < |x| - 1 :: !(x[i] == '$' && x[i + 1] == '{')
  }

  /** The reference `${key}` is replaced by the value of `key`. */
  lemma RefResolves(src: Sources, key: string, fuel: nat)
    requires IsDottedKey(key) && fuel > 0
    ensures Interpolated(src, Ref(key), fuel) == GetString(src, key, [""], fuel - 1)
  {
    PlaceholderKey("", key, "");
    assert "${" + "" + key + "" + "}" == Ref(key);
    WholeResolves(src, Ref(key), fuel);
  }

  /** A reference whose value is itself a reference is expanded again: with
      `a = "${b}"`, `b = "${c}"` and `c = x`, `a` reads as `x`, where a
      single pass of replacement would leave `${c}`. */
  lemma NestedExpansion(src: Sources, a: string, b: string, c: string, x: string, defaults: seq<string>, fuel: nat)
    requires IsDottedKey(b) && IsDottedKey(c) && Plain(x)
    requires LocalString(src, a, Ref(b)) && LocalString(src, b, Ref(c)) && LocalString(src, c, x)
    requires fuel >= 2
    ensures GetString(src, a, defaults, fuel) == Some(x)
  {
    calc {
      GetString(src, a, defaults, fuel);
      { LocalLookup(src, a, Ref(b), defaults, fuel); }
      Interpolated(src, Ref(b), fuel);
      { RefResolves(src, b, fuel); }
      GetString(src, b, [""], fuel - 1);
      { LocalLookup(src, b, Ref(c), [""], fuel - 1); }
      Interpolated(src, Ref(c), fuel - 1);
      { RefResolves(src, c, fuel - 1); }
      GetString(src, c, [""], fuel - 2);
      { LocalLookup(src, c, x, [""], fuel - 2); }
      Interpolated(src, x, fuel - 2);
      { NoOpeningUnchanged(src, x, fuel - 2); }
      Some(x);
    }
  }

  /** A key whose value refers to the key itself never finishes expanding,
      whatever the bound. */
  lemma {:induction false} SelfReferenceDiverges(src: Sources, a: string, defaults: seq<string>, fuel: nat)
    requires IsDottedKey(a) && LocalString(src, a, Ref(a))
    ensures GetString(src, a, defaults, fuel) == None
    decreases fuel
  {
    if fuel > 0 {
      SelfReferenceStep(src, a, defaults, fuel);
      SelfReferenceDiverges(src, a, [""], fuel - 1);
    } else {
      SelfReferenceNoFuel(src, a, defaults);
    }
  }

  lemma SelfReferenceNoFuel(src: Sources, a: string, defaults: seq<string>)
    requires IsDottedKey(a) && LocalString(src, a, Ref(a))
    ensures GetString(src, a, defaults, 0) == None
  {
    calc {
      GetString(src, a, defaults, 0);
      { LocalLookup(src, a, Ref(a), defaults, 0); }
      Interpolated(src, Ref(a), 0);
      { PlaceholderKey("", a, "");
        assert "${" + "" + a + "" + "}" == Ref(a); }
      Substitute(src, Ref(a), [Ref(a)], 0);
      None;
    }
  }

  /** One expansion of a self-reference leads back to the same lookup. */
  lemma SelfReferenceStep(src: Sources, a: string, defaults: seq<string>, fuel: nat)
    requires IsDottedKey(a) && LocalString(src, a, Ref(a)) && fuel > 0
    ensures GetString(src, a, defaults, fuel) == GetString(src, a, [""], fuel - 1)
  {
    LocalLookup(src, a, Ref(a), defaults, fuel);
    RefResolves(src, a, fuel);
  }

  /** Two placeholders written back to back form one match, so only the
      first key is looked up and the text of both is replaced by its value. */
  lemma AdjacentPlaceholdersUseFirstKey(src: Sources, a: string, b: string, fuel: nat)
    requires IsDottedKey(a) && IsDottedKey(b) && fuel > 0
    ensures Interpolated(src, Ref(a) + Ref(b), fuel) == GetString(src, a, [""], fuel - 1)
  {
    AdjacentPlaceholdersMerge(a, b);
    WholeResolves(src, Ref(a) + Ref(b), fuel);
  }

  /** Every occurrence of a placeholder is replaced. */
  lemma EveryOccurrenceReplaced(src: Sources, fuel: nat)
    requires LocalString(src, "a", "1") && fuel > 1
    ensures Interpolated(src, "${a} ${a}", fuel) == Some("1 1")
  {
    var p := "${a}";
    var s := "${a} ${a}";
    assert ReplaceAll(s, p, "1") == "1 1" by {
      assert s == p + (" " + p);
      ReplaceAllFront(p, "1", " " + p);
      ReplaceAllSkip(' ', p, p, "1");
      ReplaceAllFront(p, "1", "");
      assert p + "" == p;
    }
    assert Key(p) == "a" by {
      PlaceholderKey("", "a", "");
      assert "${" + "" + "a" + "" + "}" == p;
    }
    calc {
      Interpolated(src, s, fuel);
      { SeparatedPlaceholders(); }
      Substitute(src, s, [p, p], fuel);
      { LocalLookup(src, "a", "1", [""], fuel - 1);
        NoOpeningUnchanged(src, "1", fuel - 1);
        assert [p, p][1..] == [p]; }
      Substitute(src, "1 1", [p], fuel);
      { LocalLookup(src, "a", "1", [""], fuel - 1);
        NoOpeningUnchanged(src, "1", fuel - 1);
        assert [p][1..] == []; }
      Substitute(src, ReplaceAll("1 1", p, "1"), [], fuel);
      Some("1 1");
    }
  }

  // ---------------------------------------------------------------------
  // GetBool, GetInt64, GetInt
  // ---------------------------------------------------------------------

  /** `GetBool(name, defaults...)`: remote, then local, then the first
      default, then false; the environment is not consulted. */
  function GetBool(src: Sources, name: string, defaults: seq<bool>): bool {
    if RemoteValue(src, name).Some? then RemoteValue(src, name).value.boolean
    else if LocalValue(src, name).Some? then LocalValue(src, name).value.boolean
    else if |defaults| > 0 then defaults[0]
    else false
  }

  /** `GetInt64(name, defaults...)`: remote, then local, then the first
      default, then 0; the environment is not consulted. */
  function GetInt64(src: Sources, name: string, defaults: seq<Int64>): Int64 {
    if RemoteValue(src, name).Some? then RemoteValue(src, name).value.int64
    else if LocalValue(src, name).Some? then LocalValue(src, name).value.int64
    else if |defaults| > 0 then defaults[0]
    else 0
  }

  lemma GetBoolPrecedence(src: Sources, name: string, defaults: seq<bool>)
    ensures GetBool(src, name, defaults) ==
      match FirstPresent([RemoteValue(src, name), LocalValue(src, name)])
      case Some(v) => v.boolean
      case None => FirstDefault(defaults).GetOr(false)
  {
    FirstPresent2(RemoteValue(src, name), LocalValue(src, name));
  }

  lemma GetInt64Precedence(src: Sources, name: string, defaults: seq<Int64>)
    ensures GetInt64(src, name, defaults) ==
      match FirstPresent([RemoteValue(src, name), LocalValue(src, name)])
      case Some(v) => v.int64
      case None => FirstDefault(defaults).GetOr(0)
  {
    FirstPresent2(RemoteValue(src, name), LocalValue(src, name));
  }

  /** The environment has no effect on `GetBool` and `GetInt64`. */
  lemma TypedGettersIgnoreEnv(src: Sources, env: map<string, string>, name: string, bs: seq<bool>, ns: seq<Int64>)
    ensures GetBool(src.(env := env), name, bs) == GetBool(src, name, bs)
    ensures GetInt64(src.(env := env), name, ns) == GetInt64(src, name, ns)
  {
  }

  /** The widths Go's `int` can have. */
  predicate IntWidth(bits: nat) {
    bits == 32 || bits == 64
  }

  function Pow2(bits: nat): (p: nat)
    requires IntWidth(bits)
    ensures p > 0
  {
    if bits == 32 then 0x1_0000_0000 else 0x1_0000_0000_0000_0000
  }

  predicate InIntRange(x: int, bits: nat)
    requires IntWidth(bits)
  {
    -(Pow2(bits) / 2) <= x < Pow2(bits) / 2
  }

  /** The conversion `int(x)` from `int64` to an `int` of `bits` bits: two's
      complement truncation. */
  function Narrow(x: Int64, bits: nat): (r: int)
    requires IntWidth(bits)
    ensures InIntRange(r, bits)
    ensures InIntRange(x, bits) ==> r == x
    ensures (x - r) % Pow2(bits) == 0
  {
    var half := Pow2(bits) / 2;
    (x + half) % Pow2(bits) - half
  }

  /** `GetInt(name, defaults...)`: `GetInt64` with the first default widened
      to `int64`, narrowed back to `int`. */
  function GetInt(src: Sources, name: string, defaults: seq<int>, bits: nat): (r: int)
    requires IntWidth(bits)
    requires |defaults| > 0 ==> InIntRange(defaults[0], bits)
    ensures InIntRange(r, bits)
  {
    if |defaults| > 0 then Narrow(GetInt64(src, name, [defaults[0]]), bits)
    else Narrow(GetInt64(src, name, []), bits)
  }

  /** On a 64-bit platform `GetInt` is `GetInt64`. */
  lemma GetInt64Bit(src: Sources, name: string, defaults: seq<Int64>)
    ensures GetInt(src, name, defaults, 64) == GetInt64(src, name, defaults)
  {
  }

  /** The default reaches the caller unchanged when no document has the key. */
  lemma GetIntDefault(src: Sources, name: string, d: int, more: seq<int>, bits: nat)
    requires IntWidth(bits) && InIntRange(d, bits)
    requires RemoteValue(src, name).None? && LocalValue(src, name).None?
    ensures GetInt(src, name, [d] + more, bits) == d
  {
  }

  // ---------------------------------------------------------------------
  // Arrays and structs
  // ---------------------------------------------------------------------

  /** The layer's value at `name`, when it exists and is an array. */
  function ArrayIn(doc: Option<Document>, name: string): (r: Option<Value>)
    ensures r.Some? ==> r.value.isArray && doc.Some? && name in doc.value && doc.value[name] == r.value
    ensures r.None? ==> doc.None? || name !in doc.value || !doc.value[name].isArray
  {
    if doc.Some? && name in doc.value && doc.value[name].isArray then Some(doc.value[name]) else None
  }

  /** The array that `GetArrayString` and `GetArrayInt64` convert. */
  function ArraySource(src: Sources, name: string): (r: Option<Value>)
    ensures r == FirstPresent([ArrayIn(src.nacos, name), ArrayIn(Some(src.local), name)])
  {
    FirstPresent2(ArrayIn(src.nacos, name), ArrayIn(Some(src.local), name));
    if ArrayIn(src.nacos, name).Some? then ArrayIn(src.nacos, name) else ArrayIn(Some(src.local), name)
  }

  /** A remote value that is not an array does not hide a local array. */
  lemma NonArrayRemoteFallsThrough(src: Sources, name: string)
    requires src.nacos.Some? && name in src.nacos.value && !src.nacos.value[name].isArray
    ensures ArraySource(src, name) == ArrayIn(Some(src.local), name)
  {
  }

  /** `convertResult2ArrayInt64`: `Int()` of each element, in order. */
  method ConvertResult2ArrayInt64(result: Value) returns (r: seq<Int64>)
    ensures |r| == |result.items|
    ensures forall k | 0 <= k < |r| :: r[k] == result.items[k].int64
  {
    r := [];
    var i := 0;
    while i < |result.items|
      invariant 0 <= i <= |result.items|
      invariant |r| == i
      invariant forall k | 0 <= k < i :: r[k] == result.items[k].int64
    {
      r := r + [result.items[i].int64];
      i := i + 1;
    }
  }

  /** `convertResult2ArrayString`: each element's `String()` passed through
      `GetValue`, in order; `None` when an expansion runs out of fuel. */
  method ConvertResult2ArrayString(src: Sources, result: Value, fuel: nat) returns (r: Option<seq<string>>)
    ensures r.Some? <==> forall k | 0 <= k < |result.items| :: Interpolated(src, result.items[k].str, fuel).Some?
    ensures r.Some? ==> |r.value| == |result.items|
    ensures r.Some? ==>
              forall k | 0 <= k < |r.value| :: Some(r.value[k]) == Interpolated(src, result.items[k].str, fuel)
  {
    var acc: seq<string> := [];
    var i := 0;
    while i < |result.items|
      invariant 0 <= i <= |result.items|
      invariant |acc| == i
      invariant forall k | 0 <= k < i :: Some(acc[k]) == Interpolated(src, result.items[k].str, fuel)
    {
      var v := GetValue(src, result.items[i].str, fuel);
      if v.None? {
        return None;
      }
      acc := acc + [v.value];
      i := i + 1;
    }
    return Some(acc);
  }

  /** `GetArrayInt64`: the converted array of the first layer holding an
      array at `name`; empty when neither does. */
  method GetArrayInt64(src: Sources, name: string) returns (r: seq<Int64>)
    ensures ArraySource(src, name).None? ==> r == []
    ensures ArraySource(src, name).Some? ==>
              var items := ArraySource(src, name).value.items;
              |r| == |items| && forall k | 0 <= k < |r| :: r[k] == items[k].int64
  {
    var v := ArraySource(src, name);
    if v.None? {
      return [];
    }
    r := ConvertResult2ArrayInt64(v.value);
  }

  /** `GetArrayString`: the converted array of the first layer holding an
      array at `name`; empty when neither does. */
  method GetArrayString(src: Sources, name: string, fuel: nat) returns (r: Option<seq<string>>)
    ensures ArraySource(src, name).None? ==> r == Some([])
    ensures ArraySource(src, name).Some? ==>
              var items := ArraySource(src, name).value.items;
              (r.Some? <==> forall k | 0 <= k < |items| :: Interpolated(src, items[k].str, fuel).Some?)
    ensures ArraySource(src, name).Some? && r.Some? ==>
              var items := ArraySource(src, name).value.items;
              |r.value| == |items| &&
              forall k | 0 <= k < |items| :: Some(r.value[k]) == Interpolated(src, items[k].str, fuel)
  {
    var v := ArraySource(src, name);
    if v.None? {
      return Some([]);
    }
    r := ConvertResult2ArrayString(src, v.value, fuel);
  }

  /** `GetStruct`: the raw JSON text of the remote value, else of the local
      one, that is decoded into the destination; `None` when neither layer
      has `name`, in which case nil is returned and the destination is left
      alone. Only existence decides: the value's kind is not checked. */
  function GetStruct(src: Sources, name: string): (r: Option<string>)
    ensures r.None? <==> RemoteValue(src, name).None? && LocalValue(src, name).None?
    ensures r == (match FirstPresent([RemoteValue(src, name), LocalValue(src, name)])
                  case Some(v) => Some(v.raw)
                  case None => None)
  {
    FirstPresent2(RemoteValue(src, name), LocalValue(src, name));
    if RemoteValue(src, name).Some? then Some(RemoteValue(src, name).value.raw)
    else if LocalValue(src, name).Some? then Some(LocalValue(src, name).value.raw)
    else None
  }

  // ---------------------------------------------------------------------
  // Remote push
  // ---------------------------------------------------------------------

  /** After a change notification replaces the remote document with `data`,
      a key in `data` is read from `data`, and a key not in it is read as if
      there were no remote document: nothing of the previous payload is
      visible. For `GetString` the text is taken from `data` in the same way,
      but the placeholders inside it are resolved against the new state as a
      whole, so the result is not that of a state without a remote document. */
  lemma PushedPayloadWins(src: Sources, data: Document, name: string, ds: seq<string>, bs: seq<bool>,
                          ns: seq<Int64>, fuel: nat)
    ensures var pushed := src.(nacos := Some(data));
            Getenv(src.env, name) == "" && name in data ==>
              GetString(pushed, name, ds, fuel) == Interpolated(pushed, data[name].str, fuel)
    ensures var pushed := src.(nacos := Some(data));
            var bare := src.(nacos := None);
            ArraySource(pushed, name) == (if ArrayIn(Some(data), name).Some? then ArrayIn(Some(data), name)
                                          else ArraySource(bare, name))
    ensures var pushed := src.(nacos := Some(data));
            var bare := src.(nacos := None);
            && GetBool(pushed, name, bs) == (if name in data then data[name].boolean else GetBool(bare, name, bs))
            && GetInt64(pushed, name, ns) == (if name in data then data[name].int64 else GetInt64(bare, name, ns))
            && GetStruct(pushed, name) == (if name in data then Some(data[name].raw) else GetStruct(bare, name))
  {
  }
}
