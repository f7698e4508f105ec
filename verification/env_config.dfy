/**
 * datastruct/reflect_test.go: `readconfig` fills the string fields of a
 * struct from environment variables named after each field's `json` tag,
 * and the field-name cache maps each field name to its index. Reflection
 * and the process environment become values: a struct type is its list of
 * fields and the environment is a map.
 */
module EnvConfig {
  import opened Go

  /** A struct field as reflection sees it: its name and its tag, already
      split into `key:"value"` pairs. */
  datatype Field = Field(name: seq<byte>, tags: map<seq<byte>, seq<byte>>)

  /** The ASCII upper-case of one character; everything else is kept. */
  function UpperChar(c: byte): (u: byte)
    ensures !('a' <= u <= 'z')
    ensures 'a' <= c <= 'z' ==> u as int == c as int - 32
    ensures !('a' <= c <= 'z') ==> u == c
  {
    if 'a' <= c <= 'z' then (c as int - 32) as char else c
  }

  /** `strings.ToUpper` on ASCII text. */
  function ToUpper(s: seq<byte>): (r: seq<byte>)
    ensures |r| == |s|
  {
    seq(|s|, i requires 0 <= i < |s| => UpperChar(s[i]))
  }

  /** `strings.ReplaceAll(s, old, new)` for a one-character `old` (here `target`) and `new` (here `replacement`). */
  function ReplaceChar(s: seq<byte>, target: byte, replacement: byte): (r: seq<byte>)
    ensures |r| == |s|
  {
    seq(|s|, i requires 0 <= i < |s| => if s[i] == target then replacement else s[i])
  }

  const Prefix: seq<byte> := "CONFIG_"

  /** `fmt.Sprintf("CONFIG_%s", strings.ReplaceAll(strings.ToUpper(v), "-", "_"))`. */
  function EnvKey(v: seq<byte>): (key: seq<byte>)
    ensures |key| == |Prefix| + |v| && key[..|Prefix|] == Prefix
  {
    Prefix + ReplaceChar(ToUpper(v), '-', '_')
  }

  /** What one character of the tag becomes in the key. */
  function KeyChar(c: byte): (k: byte) {
    if c == '-' then '_' else UpperChar(c)
  }

  /** The key is the prefix followed by the tag, character by character
      upper-cased with dashes turned into underscores; so it holds no
      lower-case letter and no dash. */
  lemma EnvKeyChars(v: seq<byte>)
    ensures forall k :: 0 <= k < |v| ==> EnvKey(v)[|Prefix| + k] == KeyChar(v[k])
    ensures forall k :: 0 <= k < |EnvKey(v)| ==> EnvKey(v)[k] != '-' && !('a' <= EnvKey(v)[k] <= 'z')
  {
    var key := EnvKey(v);
    var body := ReplaceChar(ToUpper(v), '-', '_');
    assert key == Prefix + body;
    forall k | 0 <= k < |v|
      ensures key[|Prefix| + k] == KeyChar(v[k])
    {
      assert key[|Prefix| + k] == body[k];
    }
    forall k | 0 <= k < |key|
      ensures key[k] != '-' && !('a' <= key[k] <= 'z')
    {
      if k < |Prefix| {
        assert key[k] == Prefix[k];
      } else {
        assert key[k] == body[k - |Prefix|] == KeyChar(v[k - |Prefix|]);
      }
    }
  }

  /** Tags that differ only in letter case or in `-` against `_` name the
      same variable. */
  lemma EnvKeyIgnoresCaseAndDash(a: seq<byte>, b: seq<byte>)
    requires |a| == |b| && forall k :: 0 <= k < |a| ==> KeyChar(a[k]) == KeyChar(b[k])
    ensures EnvKey(a) == EnvKey(b)
  {
    EnvKeyChars(a);
    EnvKeyChars(b);
  }

  /** The four keys of `Config`, as the comments beside its fields say. */
  lemma ConfigKeys()
    ensures EnvKey("server-name") == "CONFIG_SERVER_NAME"
    ensures EnvKey("server-ip") == "CONFIG_SERVER_IP"
    ensures EnvKey("server-url") == "CONFIG_SERVER_URL"
    ensures EnvKey("timeout") == "CONFIG_TIMEOUT"
  {
    ServerNameKey();
    ServerIpKey();
    ServerUrlKey();
    TimeoutKey();
  }

  lemma ServerNameKey()
    ensures EnvKey("server-name") == "CONFIG_SERVER_NAME"
  {
    KeyOf("server-name", "SERVER-NAME", "SERVER_NAME");
  }

  lemma ServerIpKey()
    ensures EnvKey("server-ip") == "CONFIG_SERVER_IP"
  {
    KeyOf("server-ip", "SERVER-IP", "SERVER_IP");
  }

  lemma ServerUrlKey()
    ensures EnvKey("server-url") == "CONFIG_SERVER_URL"
  {
    KeyOf("server-url", "SERVER-URL", "SERVER_URL");
  }

  lemma TimeoutKey()
    ensures EnvKey("timeout") == "CONFIG_TIMEOUT"
  {
    KeyOf("timeout", "TIMEOUT", "TIMEOUT");
  }

  /** The key of `v`, given the upper-cased tag `upper` and the result
      `replaced` of replacing its dashes. */
  lemma KeyOf(v: seq<byte>, upper: seq<byte>, replaced: seq<byte>)
    requires |v| == |upper| == |replaced|
    requires forall k :: 0 <= k < |v| ==> UpperChar(v[k]) == upper[k]
    requires forall k :: 0 <= k < |v| ==> (if upper[k] == '-' then '_' else upper[k]) == replaced[k]
    ensures EnvKey(v) == Prefix + replaced
  {
    assert ToUpper(v) == upper;
    assert ReplaceChar(upper, '-', '_') == replaced;
  }

  predicate DistinctNames(fields: seq<Field>) {
    forall i, j :: 0 <= i < j < |fields| ==> fields[i].name != fields[j].name
  }

  /** `FieldByName`: the index of the field called `name`, if there is one. */
  function FieldByName(fields: seq<Field>, name: seq<byte>): (r: int)
    ensures -1 <= r < |fields|
    ensures 0 <= r ==> fields[r].name == name && forall k :: 0 <= k < r ==> fields[k].name != name
    ensures r == -1 ==> forall k :: 0 <= k < |fields| ==> fields[k].name != name
  {
    if |fields| == 0 then -1
    else if fields[0].name == name then 0
    else var r := FieldByName(fields[1..], name); if r == -1 then -1 else r + 1
  }

  /** What `readconfig` stores in field `i`: the variable named after its
      `json` tag when the tag and the variable both exist, and otherwise
      the zero string. */
  function ConfiguredValue(f: Field, env: map<seq<byte>, seq<byte>>): (value: seq<byte>) {
    if "json" in f.tags && EnvKey(f.tags["json"]) in env then env[EnvKey(f.tags["json"])] else ""
  }

  /**
   * `readconfig`: visit the fields in order and, for a field with a `json`
   * tag whose variable is set, store the variable's value through
   * `FieldByName(ft.Name)`. The result lists the field values by index.
   */
  method ReadConfig(fields: seq<Field>, env: map<seq<byte>, seq<byte>>) returns (values: seq<seq<byte>>)
    requires DistinctNames(fields)
    ensures |values| == |fields|
    ensures forall i :: 0 <= i < |fields| ==> values[i] == ConfiguredValue(fields[i], env)
  {
    values := seq(|fields|, _ => "");
    for i := 0 to |fields|
      invariant |values| == |fields|
      invariant forall k :: 0 <= k < i ==> values[k] == ConfiguredValue(fields[k], env)
      invariant forall k :: i <= k < |fields| ==> values[k] == ""
    {
      var ft := fields[i];
      if "json" in ft.tags {
        var key := EnvKey(ft.tags["json"]);
        if key in env {
          var index := FieldByName(fields, ft.name);
          assert index == i;
          values := values[index := env[key]];
        }
      }
    }
  }

  /** `Config`'s four fields and their tags. */
  const ConfigFields: seq<Field> := [
    Field("Name", map["json" := "server-name"]),
    Field("IP", map["json" := "server-ip"]),
    Field("URL", map["json" := "server-url"]),
    Field("Timeout", map["json" := "timeout"])]

  /** The environment `TestConfig` sets up with `os.Setenv`. */
  const TestEnv: map<seq<byte>, seq<byte>> := map["CONFIG_SERVER_NAME" := "global_server", "CONFIG_SERVER_IP" := "10.0.0.1",
                                                  "CONFIG_SERVER_URL" := "sungn.com"]

  /** What `readconfig` stores in each field of `Config` under `TestEnv`. */
  lemma TestEnvValues()
    ensures ConfiguredValue(ConfigFields[0], TestEnv) == "global_server"
    ensures ConfiguredValue(ConfigFields[1], TestEnv) == "10.0.0.1"
    ensures ConfiguredValue(ConfigFields[2], TestEnv) == "sungn.com"
    ensures ConfiguredValue(ConfigFields[3], TestEnv) == ""
  {
    ConfigKeys();
    assert "CONFIG_TIMEOUT" !in TestEnv;
  }

  /** `TestConfig` sets three of the four variables; `Timeout` stays empty. */
  method TestConfig() returns (values: seq<seq<byte>>)
    ensures values == ["global_server", "10.0.0.1", "sungn.com", ""]
  {
    values := ReadConfig(ConfigFields, TestEnv);
    TestEnvValues();
  }

  /** The field-name cache of `BenchmarkReflect_FieldByNameCacheSet`:
      `cache[typ.Field(i).Name] = i` for every field in order. */
  method BuildNameCache(fields: seq<Field>) returns (cache: map<seq<byte>, int>)
    ensures cache.Keys == set k | 0 <= k < |fields| :: fields[k].name
    ensures forall name :: name in cache ==>
      0 <= cache[name] < |fields| && fields[cache[name]].name == name
      && forall k :: cache[name] < k < |fields| ==> fields[k].name != name
  {
    cache := map[];
    for i := 0 to |fields|
      invariant cache.Keys == set k | 0 <= k < i :: fields[k].name
      invariant forall name :: name in cache ==>
        0 <= cache[name] < i && fields[cache[name]].name == name
        && forall k :: cache[name] < k < i ==> fields[k].name != name
    {
      cache := cache[fields[i].name := i];
    }
  }

  /** With distinct names the cache answers what `FieldByName` answers, so
      `ins.Field(cache[name])` is `ins.FieldByName(name)`. */
  lemma CacheAgreesWithFieldByName(fields: seq<Field>, cache: map<seq<byte>, int>, name: seq<byte>)
    requires DistinctNames(fields)
    requires cache.Keys == set k | 0 <= k < |fields| :: fields[k].name
    requires forall n :: n in cache ==> 0 <= cache[n] < |fields| && fields[cache[n]].name == n
    ensures name in cache <==> FieldByName(fields, name) != -1
    ensures name in cache ==> cache[name] == FieldByName(fields, name)
  {
    if FieldByName(fields, name) != -1 {
      assert name in cache;
    }
  }
}
