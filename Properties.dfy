/**
 * Per-resource configuration: the value of `key` for resource `name` is
 * stored under `resource.<name>.<key>`; typed getters parse the stored text
 * and fall back to a default when the key is absent.
 */
module ResourceProperties {
  import opened Wrappers
  import opened Decimal

  /** The resource name and the configuration store it reads. */
  datatype Properties = Properties(name: string, properties: map<string, string>)

  const KeyPrefix: string := "resource."

  /** `key(key)`: the store key under which `key` of this resource lives. */
  function Key(p: Properties, key: string): (r: string)
    ensures |r| == |KeyPrefix| + |p.name| + 1 + |key|
    ensures r[..|KeyPrefix|] == KeyPrefix
    ensures r[|KeyPrefix|..|KeyPrefix| + |p.name|] == p.name
    ensures r[|KeyPrefix| + |p.name|] == '.'
    ensures r[|r| - |key|..] == key
  {
    KeyPrefix + p.name + "." + key
  }

  /** Different keys of one resource are stored under different store keys. */
  lemma KeyInjective(p: Properties, k1: string, k2: string)
    ensures Key(p, k1) == Key(p, k2) <==> k1 == k2
  {
    if Key(p, k1) == Key(p, k2) {
      var n := |KeyPrefix| + |p.name| + 1;
      assert k1 == Key(p, k1)[n..];
      assert k2 == Key(p, k2)[n..];
    }
  }

  /** `getString`: the stored value of the composed key, or `defaultValue`. */
  function GetString(p: Properties, key: string, defaultValue: string): string
  {
    var k := Key(p, key);
    if k in p.properties then p.properties[k] else defaultValue
  }

  /**
   * Put/get: after storing `v` under the composed key of `k1`, `getString(k1)`
   * answers `v`; storing under another key of the same resource leaves
   * `getString(k1)` as it was.
   */
  lemma GetStringAfterPut(p: Properties, k1: string, k2: string, v: string, defaultValue: string)
    ensures GetString(Properties(p.name, p.properties[Key(p, k1) := v]), k1, defaultValue) == v
    ensures k1 != k2 ==>
      GetString(Properties(p.name, p.properties[Key(p, k2) := v]), k1, defaultValue) == GetString(p, k1, defaultValue)
  {
    KeyInjective(p, k1, k2);
  }

  /**
   * Keys are not namespaced unambiguously: a resource whose name contains a
   * dot shares store keys with another resource.
   */
  lemma KeysCollideAcrossNames(store: map<string, string>)
    ensures Key(Properties("a.b", store), "c") == Key(Properties("a", store), "b.c")
  {
  }

  // ---------------------------------------------------------------------
  // Booleans

  function ToLowerAscii(c: char): char
  {
    if 'A' <= c <= 'Z' then (c as int - 'A' as int + 'a' as int) as char else c
  }

  /**
   * `Boolean.parseBoolean(s)`: `"true"` ignoring case. For the four letters of
   * "true", Java's case-insensitive comparison matches exactly their ASCII
   * upper- and lower-case forms.
   */
  function ParseBoolean(s: string): bool
  {
    |s| == 4 && forall i :: 0 <= i < 4 ==> ToLowerAscii(s[i]) == "true"[i]
  }

  /** `Boolean.toString(b)`. */
  function BooleanToString(b: bool): string
  {
    if b then "true" else "false"
  }

  lemma ParseBooleanOfToString(b: bool)
    ensures ParseBoolean(BooleanToString(b)) == b
  {
  }

  /** `getBoolean`: parses the stored value, or the default's own text. */
  function GetBoolean(p: Properties, key: string, defaultValue: bool): bool
  {
    var value := GetString(p, key, BooleanToString(defaultValue));
    ParseBoolean(value)
  }

  /**
   * An absent key answers the default; a present one answers true exactly
   * when its value is "true" in any mix of cases.
   */
  lemma GetBooleanSpec(p: Properties, key: string, defaultValue: bool)
    ensures Key(p, key) !in p.properties ==> GetBoolean(p, key, defaultValue) == defaultValue
    ensures Key(p, key) in p.properties ==>
      (GetBoolean(p, key, defaultValue) <==>
        var v := p.properties[Key(p, key)];
        |v| == 4 && (v[0] == 't' || v[0] == 'T') && (v[1] == 'r' || v[1] == 'R')
                 && (v[2] == 'u' || v[2] == 'U') && (v[3] == 'e' || v[3] == 'E'))
  {
    ParseBooleanOfToString(defaultValue);
    if Key(p, key) in p.properties {
      var v := p.properties[Key(p, key)];
      if |v| == 4 {
        assert ToLowerAscii(v[0]) == 't' <==> v[0] == 't' || v[0] == 'T';
        assert ToLowerAscii(v[1]) == 'r' <==> v[1] == 'r' || v[1] == 'R';
        assert ToLowerAscii(v[2]) == 'u' <==> v[2] == 'u' || v[2] == 'U';
        assert ToLowerAscii(v[3]) == 'e' <==> v[3] == 'e' || v[3] == 'E';
      }
    }
  }

  // ---------------------------------------------------------------------
  // Integers

  /** `getInteger`: `Integer.parseInt` of the stored value, or of the default's own text. */
  function GetInteger(p: Properties, key: string, defaultValue: int32): Result<int32, NumberFormatException>
  {
    var value := GetString(p, key, IntToDecimal(defaultValue as int));
    ParseInt(value)
  }

  /**
   * An absent key answers the default; a present one answers its decimal
   * value, or `NumberFormatException` when the text is not an `int`.
   */
  lemma GetIntegerSpec(p: Properties, key: string, defaultValue: int32)
    ensures Key(p, key) !in p.properties ==> GetInteger(p, key, defaultValue) == Success(defaultValue)
    ensures Key(p, key) in p.properties ==>
      var v := p.properties[Key(p, key)];
      && (GetInteger(p, key, defaultValue).Success? <==>
            IsDecimalSyntax(v) && -0x8000_0000 <= SyntaxValue(v) < 0x8000_0000)
      && (GetInteger(p, key, defaultValue).Success? ==> GetInteger(p, key, defaultValue).value as int == SyntaxValue(v))
      && (GetInteger(p, key, defaultValue).Failure? ==> GetInteger(p, key, defaultValue).error == NumberFormatException(v))
  {
    ParseIntOfDecimal(defaultValue);
  }
}
