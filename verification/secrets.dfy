/** `loadSecrets`: every secret identifier is routed by its literal prefix
    to the parameter store or the secret manager, fetched, and written into
    the config's values, overriding a static value of the same name. */
module Secrets {
  import opened Results
  import opened Values
  import opened GoStrings
  import opened Configs

  const ParameterStorePrefix: string := "aws_parameter_store:"
  const SecretManagerPrefix: string := "aws_secret_manager:"

  /** One secret-store read: the stored string, or the store's error text.
      The AWS clients stand behind these; the model never sees them. */
  type Fetch = string -> Result<string, string>

  /** The two stores `loadSecrets` reads: the SSM parameter store (with
      decryption) and the secrets manager. */
  datatype Stores = Stores(parameterStore: Fetch, secretManager: Fetch)

  datatype SecretError =
    | ParameterLoadError(key: string, cause: string)
    | SecretLoadError(key: string, cause: string)
    | UnknownProvider(identifier: string)
  {
    /** The error text Go's `fmt.Errorf` produces. */
    function Message(): string {
      match this
      case ParameterLoadError(key, cause) => "error loading parameter " + key + ": " + cause
      case SecretLoadError(key, cause) => "error loading secret " + key + ": " + cause
      case UnknownProvider(identifier) => "unknown secret provider for " + identifier
    }
  }

  /** One pass of the loop body for the identifier `path`: the `switch`
      over the two prefixes, the prefix stripped once, the fetch, and the
      error wrapped with the stripped key. */
  function Resolve(stores: Stores, path: string): (r: Result<string, SecretError>)
    ensures r.Err? && r.error.UnknownProvider? <==>
      !HasPrefix(path, ParameterStorePrefix) && !HasPrefix(path, SecretManagerPrefix)
    ensures r.Err? && r.error.UnknownProvider? ==> r.error.identifier == path
    ensures r.Err? && r.error.ParameterLoadError? ==> ParameterStorePrefix + r.error.key == path
    ensures r.Err? && r.error.SecretLoadError? ==> SecretManagerPrefix + r.error.key == path
  {
    if HasPrefix(path, ParameterStorePrefix) then
      var key := TrimPrefix(path, ParameterStorePrefix);
      match stores.parameterStore(key)
      case Err(cause) => Err(ParameterLoadError(key, cause))
      case Ok(v) => Ok(v)
    else if HasPrefix(path, SecretManagerPrefix) then
      var key := TrimPrefix(path, SecretManagerPrefix);
      match stores.secretManager(key)
      case Err(cause) => Err(SecretLoadError(key, cause))
      case Ok(v) => Ok(v)
    else
      Err(UnknownProvider(path))
  }

  /** `order` visits every key of `keys` exactly once: one possible
      iteration order of a Go map, which the language leaves unspecified. */
  ghost predicate IsEnumeration(order: seq<string>, keys: set<string>) {
    && (forall i, j :: 0 <= i < j < |order| ==> order[i] != order[j])
    && (forall i :: 0 <= i < |order| ==> order[i] in keys)
    && (forall k :: k in keys ==> k in order)
  }

  /** The values after resolving the identifiers of `names` in turn and
      writing each fetched string over `values`: the loop of `loadSecrets`
      as a recursion. The first identifier that fails ends it. */
  function Overlay(stores: Stores, secrets: map<string, string>, values: map<string, Value>, names: seq<string>)
    : (r: Result<map<string, Value>, SecretError>)
    requires forall j :: 0 <= j < |names| ==> names[j] in secrets
    ensures r.Ok? <==> forall j :: 0 <= j < |names| ==> Resolve(stores, secrets[names[j]]).Ok?
    ensures r.Ok? ==> forall k :: k in r.value <==> k in values || k in names
    decreases |names|
  {
    if |names| == 0 then Ok(values)
    else
      match Resolve(stores, secrets[names[0]])
      case Err(e) => Err(e)
      case Ok(v) =>
        var r := Overlay(stores, secrets, values[names[0] := Str(v)], names[1..]);
        assert forall j :: 0 < j < |names| ==> names[j] == names[1..][j - 1];
        assert forall k :: k in names <==> k == names[0] || k in names[1..];
        r
  }

  /** On success, every name of `names` holds its fetched string and every
      other value is untouched, provided no name comes twice. */
  lemma {:induction false} OverlayWrites(stores: Stores, secrets: map<string, string>, values: map<string, Value>, names: seq<string>)
    requires forall j :: 0 <= j < |names| ==> names[j] in secrets
    requires forall i, j :: 0 <= i < j < |names| ==> names[i] != names[j]
    requires Overlay(stores, secrets, values, names).Ok?
    ensures var m := Overlay(stores, secrets, values, names).value;
      && (forall j :: 0 <= j < |names| ==> m[names[j]] == Str(Resolve(stores, secrets[names[j]]).value))
      && (forall k :: k in values && k !in names ==> m[k] == values[k])
    decreases |names|
  {
    if |names| > 0 {
      var n := names[0];
      var rest := names[1..];
      var v := Resolve(stores, secrets[n]).value;
      var values' := values[n := Str(v)];
      assert Overlay(stores, secrets, values, names) == Overlay(stores, secrets, values', rest);
      OverlayWrites(stores, secrets, values', rest);
      var m := Overlay(stores, secrets, values', rest).value;
      forall j | 0 <= j < |names|
        ensures m[names[j]] == Str(Resolve(stores, secrets[names[j]]).value)
      {
        if j == 0 {
          assert n !in rest by {
            assert forall i :: 0 <= i < |rest| ==> rest[i] == names[i + 1];
          }
        } else {
          assert names[j] == rest[j - 1];
        }
      }
      forall k | k in values && k !in names
        ensures m[k] == values[k]
      {
        assert k != n && k !in rest;
      }
    }
  }

  /** Overlaying the secrets of `config` in an order that visits each once:
      it succeeds exactly when every identifier resolves, and then each
      secret name holds its fetched string and every other value is kept. */
  lemma OverlayEnumeration(stores: Stores, config: Config, order: seq<string>)
    requires IsEnumeration(order, config.secrets.Keys)
    ensures var o := Overlay(stores, config.secrets, config.values, order);
      && (o.Ok? <==> forall name :: name in config.secrets ==> Resolve(stores, config.secrets[name]).Ok?)
      && (o.Ok? ==> o.value.Keys == config.values.Keys + config.secrets.Keys)
      && (o.Ok? ==> forall name :: name in config.secrets ==>
            o.value[name] == Str(Resolve(stores, config.secrets[name]).value))
      && (o.Ok? ==> forall name :: name in config.values && name !in config.secrets ==>
            o.value[name] == config.values[name])
  {
    var o := Overlay(stores, config.secrets, config.values, order);
    if o.Ok? {
      OverlayWrites(stores, config.secrets, config.values, order);
      forall name | name in config.secrets
        ensures o.value[name] == Str(Resolve(stores, config.secrets[name]).value)
      {
        var j :| 0 <= j < |order| && order[j] == name;
      }
    } else {
      var j :| 0 <= j < |order| && Resolve(stores, config.secrets[order[j]]).Err?;
      assert order[j] in config.secrets;
    }
  }

  /** `loadSecrets(config)`, visiting the secrets in `order`. On success
      every secret name holds its fetched string, whatever the static value
      was, and every other value is untouched; the result does not depend
      on the order. The first identifier that fails stops the pass, and its
      error is the result. */
  method LoadSecrets(stores: Stores, config: Config, order: seq<string>)
    returns (r: Result<Config, SecretError>)
    requires IsEnumeration(order, config.secrets.Keys)
    ensures r.Ok? <==> forall name :: name in config.secrets ==> Resolve(stores, config.secrets[name]).Ok?
    ensures r.Ok? ==> r.value.secrets == config.secrets && r.value.configName == config.configName
    ensures r.Ok? ==> r.value.values.Keys == config.values.Keys + config.secrets.Keys
    ensures r.Ok? ==> forall name :: name in config.secrets ==>
      Resolve(stores, config.secrets[name]).Ok? &&
      r.value.values[name] == Str(Resolve(stores, config.secrets[name]).value)
    ensures r.Ok? ==> forall name :: name in config.values && name !in config.secrets ==>
      r.value.values[name] == config.values[name]
    ensures r.Err? ==> exists i ::
      (&& 0 <= i < |order|
       && Resolve(stores, config.secrets[order[i]]) == Err(r.error)
       && (forall j :: 0 <= j < i ==> Resolve(stores, config.secrets[order[j]]).Ok?))
  {
    var values := config.values;
    var i := 0;
    while i < |order|
      invariant 0 <= i <= |order|
      invariant forall j :: 0 <= j < i ==> Resolve(stores, config.secrets[order[j]]).Ok?
      invariant Overlay(stores, config.secrets, values, order[i..]) ==
        Overlay(stores, config.secrets, config.values, order)
    {
      var name := order[i];
      assert order[i..][1..] == order[i + 1..];
      match Resolve(stores, config.secrets[name])
      case Err(e) =>
        assert Resolve(stores, config.secrets[order[i]]) == Err(e);
        assert order[i..][0] == name;
        assert Overlay(stores, config.secrets, values, order[i..]) == Err(e);
        OverlayEnumeration(stores, config, order);
        return Err(e);
      case Ok(v) =>
        values := values[name := Str(v)];
      i := i + 1;
    }
    OverlayEnumeration(stores, config, order);
    r := Ok(config.(values := values));
  }

  // ---------------------------------------------------------------------
  // Routing

  /** No identifier carries both prefixes, so at most one branch of the
      switch can match. */
  lemma PrefixesDisjoint(path: string)
    ensures !(HasPrefix(path, ParameterStorePrefix) && HasPrefix(path, SecretManagerPrefix))
  {
    if HasPrefix(path, ParameterStorePrefix) {
      assert path[4] == ParameterStorePrefix[4] == 'p';
      assert SecretManagerPrefix[4] == 's';
    }
  }

  /** A parameter-store identifier is fetched with the prefix removed
      exactly once, even when the key itself starts with the prefix. */
  lemma ResolveParameterStore(stores: Stores, key: string)
    ensures Resolve(stores, ParameterStorePrefix + key) ==
      match stores.parameterStore(key)
      case Err(cause) => Err(ParameterLoadError(key, cause))
      case Ok(v) => Ok(v)
  {
    var path := ParameterStorePrefix + key;
    assert path[|ParameterStorePrefix|..] == key;
  }

  /** A secret-manager identifier is fetched with the prefix removed
      exactly once. */
  lemma ResolveSecretManager(stores: Stores, key: string)
    ensures Resolve(stores, SecretManagerPrefix + key) ==
      match stores.secretManager(key)
      case Err(cause) => Err(SecretLoadError(key, cause))
      case Ok(v) => Ok(v)
  {
    var path := SecretManagerPrefix + key;
    assert path[|SecretManagerPrefix|..] == key;
    PrefixesDisjoint(path);
  }

  /** An identifier with neither prefix fails naming the whole identifier,
      and no store is consulted. */
  lemma ResolveUnknown(stores: Stores, path: string)
    requires !HasPrefix(path, ParameterStorePrefix) && !HasPrefix(path, SecretManagerPrefix)
    ensures Resolve(stores, path) == Err(UnknownProvider(path))
    ensures Resolve(stores, path).error.Message() == "unknown secret provider for " + path
  {
  }

  /** Resolution succeeds only for a routed identifier, and then yields
      exactly what its store returned for the stripped key. */
  lemma ResolveOk(stores: Stores, path: string)
    requires Resolve(stores, path).Ok?
    ensures
      || (exists key :: path == ParameterStorePrefix + key
            && stores.parameterStore(key) == Ok(Resolve(stores, path).value))
      || (exists key :: path == SecretManagerPrefix + key
            && stores.secretManager(key) == Ok(Resolve(stores, path).value))
  {
    if HasPrefix(path, ParameterStorePrefix) {
      var key := path[|ParameterStorePrefix|..];
      assert path == ParameterStorePrefix + key;
    } else {
      var key := path[|SecretManagerPrefix|..];
      assert path == SecretManagerPrefix + key;
    }
  }
}
