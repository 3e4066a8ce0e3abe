/** Start-up configuration of the measurement node (`getConfiguration`): every
    setting is looked up in the process environment, then in the device's
    persisted key/value storage, then falls back to a fixed default, except
    that a stored sensor kind beats the environment and the network port is
    never stored. The resolved values are written back to storage. */
module Configuration {
  import opened Wrappers
  import Text

  /** A value held by the environment or by storage. */
  datatype Value = Num(n: int) | Flag(b: bool) | Str(s: string)

  /** The environment's variables, or the device storage context, by key. */
  type Store = map<string, Value>

  const DefaultInterval := 60
  const DefaultPasscode := 20202021
  const DefaultDiscriminator := 3840
  const DefaultVendorId := 0xfff1
  const DefaultProductId := 0x8000
  const DefaultPort := 5540
  const DeviceName := "Matter test device"
  const VendorName := "matter-node.js"

  /** Storage keys that the write-back sets. */
  const PersistedKeys: set<string> :=
    {"passcode", "discriminator", "vendorid", "productid", "interval", "isTemperature", "uniqueid"}

  /** Environment keys read with precedence over storage. */
  const OverrideKeys: set<string> :=
    {"passcode", "discriminator", "vendorid", "productid", "interval", "uniqueid"}

  function NumberAt(m: Store, key: string): Option<int> {
    if key in m && m[key].Num? then Some(m[key].n) else None
  }

  function FlagAt(m: Store, key: string): Option<bool> {
    if key in m && m[key].Flag? then Some(m[key].b) else None
  }

  function StringAt(m: Store, key: string): Option<string> {
    if key in m && m[key].Str? then Some(m[key].s) else None
  }

  /** `r` is the first present of `first` and `second`, else `default`. */
  predicate Layered<T(==)>(r: T, first: Option<T>, second: Option<T>, default: T) {
    && (first.Some? ==> r == first.value)
    && (first.None? && second.Some? ==> r == second.value)
    && (first.None? && second.None? ==> r == default)
  }

  datatype Config = Config(
    isTemperature: bool,
    interval: int,
    deviceName: string,
    vendorName: string,
    passcode: int,
    discriminator: int,
    vendorId: int,
    productName: string,
    productId: int,
    port: int,
    uniqueId: string)

  /** `env ?? storage.get(key, default)` for a numeric setting. */
  function NumberSetting(env: Store, storage: Store, key: string, default: int): (r: int)
    ensures Layered(r, NumberAt(env, key), NumberAt(storage, key), default)
  {
    NumberAt(env, key).GetOr(NumberAt(storage, key).GetOr(default))
  }

  /** The sensor kind. A stored kind wins; otherwise any `type` other than
      `"humidity"`, including none at all, means temperature. */
  function ResolveIsTemperature(env: Store, storage: Store): (b: bool)
    ensures FlagAt(storage, "isTemperature").Some? ==> b == FlagAt(storage, "isTemperature").value
    ensures FlagAt(storage, "isTemperature").None? ==>
              (!b <==> "type" in env && env["type"] == Str("humidity"))
  {
    FlagAt(storage, "isTemperature").GetOr(!("type" in env && env["type"] == Str("humidity")))
  }

  /** The sampling interval in seconds, with values below one replaced by the
      default. */
  function ResolveInterval(env: Store, storage: Store): (i: int)
    ensures i >= 1
    ensures forall v :: Layered(v, NumberAt(env, "interval"), NumberAt(storage, "interval"), DefaultInterval) ==>
              (v >= 1 ==> i == v) && (v < 1 ==> i == DefaultInterval)
  {
    var v := NumberSetting(env, storage, "interval", DefaultInterval);
    if v < 1 then DefaultInterval else v
  }

  function ProductName(isTemperature: bool): string {
    "node-matter OnOff " + (if isTemperature then "Temperature" else "Humidity")
  }

  /** The resolved settings. `nowMs` is the clock reading whose decimal text
      becomes the unique id when neither source has one. */
  function Resolve(env: Store, storage: Store, nowMs: nat): (c: Config)
    ensures c.isTemperature == ResolveIsTemperature(env, storage)
    ensures c.interval == ResolveInterval(env, storage) && c.interval >= 1
    ensures c.deviceName == DeviceName && c.vendorName == VendorName
    ensures c.productName == ProductName(c.isTemperature)
    ensures Layered(c.passcode, NumberAt(env, "passcode"), NumberAt(storage, "passcode"), DefaultPasscode)
    ensures Layered(c.discriminator, NumberAt(env, "discriminator"), NumberAt(storage, "discriminator"), DefaultDiscriminator)
    ensures Layered(c.vendorId, NumberAt(env, "vendorid"), NumberAt(storage, "vendorid"), DefaultVendorId)
    ensures Layered(c.productId, NumberAt(env, "productid"), NumberAt(storage, "productid"), DefaultProductId)
    ensures Layered(c.uniqueId, StringAt(env, "uniqueid"), StringAt(storage, "uniqueid"), Text.DecimalText(nowMs))
    ensures Layered(c.port, NumberAt(env, "port"), None, DefaultPort)
  {
    var isTemperature := ResolveIsTemperature(env, storage);
    Config(
      isTemperature := isTemperature,
      interval := ResolveInterval(env, storage),
      deviceName := DeviceName,
      vendorName := VendorName,
      passcode := NumberSetting(env, storage, "passcode", DefaultPasscode),
      discriminator := NumberSetting(env, storage, "discriminator", DefaultDiscriminator),
      vendorId := NumberSetting(env, storage, "vendorid", DefaultVendorId),
      productName := ProductName(isTemperature),
      productId := NumberSetting(env, storage, "productid", DefaultProductId),
      port := NumberAt(env, "port").GetOr(DefaultPort),
      uniqueId := StringAt(env, "uniqueid").GetOr(StringAt(storage, "uniqueid").GetOr(Text.DecimalText(nowMs))))
  }

  /** `deviceStorage.set({...})`: the persisted settings overwrite their keys;
      every other stored key, `port` included, is left alone. */
  function WriteBack(storage: Store, c: Config): (s: Store)
    ensures s.Keys == storage.Keys + PersistedKeys
    ensures NumberAt(s, "passcode") == Some(c.passcode)
    ensures NumberAt(s, "discriminator") == Some(c.discriminator)
    ensures NumberAt(s, "vendorid") == Some(c.vendorId)
    ensures NumberAt(s, "productid") == Some(c.productId)
    ensures NumberAt(s, "interval") == Some(c.interval)
    ensures FlagAt(s, "isTemperature") == Some(c.isTemperature)
    ensures StringAt(s, "uniqueid") == Some(c.uniqueId)
    ensures forall k :: k in storage && k !in PersistedKeys ==> s[k] == storage[k]
    ensures "port" in s <==> "port" in storage
  {
    storage["passcode" := Num(c.passcode)]
           ["discriminator" := Num(c.discriminator)]
           ["vendorid" := Num(c.vendorId)]
           ["productid" := Num(c.productId)]
           ["interval" := Num(c.interval)]
           ["isTemperature" := Flag(c.isTemperature)]
           ["uniqueid" := Str(c.uniqueId)]
  }

  /** The whole start-up step: the settings and the storage after write-back. */
  function GetConfiguration(env: Store, storage: Store, nowMs: nat): (Config, Store) {
    var c := Resolve(env, storage, nowMs);
    (c, WriteBack(storage, c))
  }

  /** An environment that sets none of the overridable settings. */
  predicate NoOverrides(env: Store) {
    forall k :: k in OverrideKeys ==> k !in env
  }

  /** Resolving again from the written-back storage, under an environment with
      no overrides, reproduces every setting; only the port, which is never
      stored, follows the new environment. */
  lemma ResolveAfterWriteBack(env: Store, storage: Store, nowMs: nat, env': Store, nowMs': nat)
    requires NoOverrides(env')
    ensures var (c, stored) := GetConfiguration(env, storage, nowMs);
            Resolve(env', stored, nowMs') == c.(port := NumberAt(env', "port").GetOr(DefaultPort))
  {
    var (c, stored) := GetConfiguration(env, storage, nowMs);
    var c' := Resolve(env', stored, nowMs');
    assert "interval" !in env' && "uniqueid" !in env';
    assert "passcode" !in env' && "discriminator" !in env';
    assert "vendorid" !in env' && "productid" !in env';
  }

  /** Restarting with an empty environment gives back the same settings with
      the default port. */
  lemma RestartWithEmptyEnvironment(env: Store, storage: Store, nowMs: nat, nowMs': nat)
    ensures var (c, stored) := GetConfiguration(env, storage, nowMs);
            Resolve(map[], stored, nowMs') == c.(port := DefaultPort)
  {
    ResolveAfterWriteBack(env, storage, nowMs, map[], nowMs');
  }

  /** The write-back is stable: a second start-up under an environment with no
      overrides stores exactly what the first one did. */
  lemma WriteBackStable(env: Store, storage: Store, nowMs: nat, env': Store, nowMs': nat)
    requires NoOverrides(env')
    ensures var (_, stored) := GetConfiguration(env, storage, nowMs);
            GetConfiguration(env', stored, nowMs').1 == stored
  {
    var (c, stored) := GetConfiguration(env, storage, nowMs);
    ResolveAfterWriteBack(env, storage, nowMs, env', nowMs');
    var c' := Resolve(env', stored, nowMs');
    assert c'.passcode == c.passcode && c'.discriminator == c.discriminator;
    assert c'.vendorId == c.vendorId && c'.productId == c.productId;
    assert c'.interval == c.interval && c'.isTemperature == c.isTemperature && c'.uniqueId == c.uniqueId;
    WriteBackOfStoredValues(stored, c');
  }

  /** Writing back values that storage already holds changes nothing. */
  lemma WriteBackOfStoredValues(s: Store, c: Config)
    requires NumberAt(s, "passcode") == Some(c.passcode)
    requires NumberAt(s, "discriminator") == Some(c.discriminator)
    requires NumberAt(s, "vendorid") == Some(c.vendorId)
    requires NumberAt(s, "productid") == Some(c.productId)
    requires NumberAt(s, "interval") == Some(c.interval)
    requires FlagAt(s, "isTemperature") == Some(c.isTemperature)
    requires StringAt(s, "uniqueid") == Some(c.uniqueId)
    ensures WriteBack(s, c) == s
  {
    var w := WriteBack(s, c);
    assert w.Keys == s.Keys;
    forall k | k in s
      ensures w[k] == s[k]
    {
    }
  }
}
