/**
 * `load_alias_mappings_from_env`: every environment variable whose name
 * starts with `ALIAS_` and whose value has the form
 * `email_alias|bluesky_handle|bluesky_password` maps that e-mail alias to
 * the Bluesky credentials. The environment is given as the sequence of its
 * `(name, value)` pairs, in the order Python walks `os.environ`.
 */
module Aliases {
  import opened PyStrings

  datatype Credentials = Credentials(handle: string, password: string)

  const AliasPrefix: string := "ALIAS_"
  const FieldSeparator: char := '|'

  /** The fields of an alias value. */
  function Fields(value: string): (r: seq<string>)
    ensures |r| == Count(value, FieldSeparator) + 1
  {
    SplitCount(value, FieldSeparator);
    SplitOn(value, [FieldSeparator])
  }

  /** An environment entry that defines an alias. */
  predicate Defines(entry: (string, string))
  {
    StartsWith(entry.0, AliasPrefix) && |Fields(entry.1)| == 3
  }

  /** The alias an entry defines and the credentials it gives it. */
  function AliasOf(entry: (string, string)): string
    requires Defines(entry)
  {
    Fields(entry.1)[0]
  }

  function CredentialsOf(entry: (string, string)): Credentials
    requires Defines(entry)
  {
    Credentials(Fields(entry.1)[1], Fields(entry.1)[2])
  }

  /** The mapping after the entries of `env` have been read in order: at
      most one alias per entry. */
  function Mappings(env: seq<(string, string)>): (r: map<string, Credentials>)
    ensures |r| <= |env|
  {
    if env == [] then map[]
    else
      var before := Mappings(env[..|env| - 1]);
      var last := env[|env| - 1];
      if Defines(last) then before[AliasOf(last) := CredentialsOf(last)] else before
  }

  /** `load_alias_mappings_from_env()`, as the loop that fills `alias_dict`. */
  method LoadAliasMappings(env: seq<(string, string)>) returns (aliasDict: map<string, Credentials>)
    ensures aliasDict == Mappings(env)
  {
    aliasDict := map[];
    var i := 0;
    while i < |env|
      invariant 0 <= i <= |env|
      invariant aliasDict == Mappings(env[..i])
    {
      var (key, value) := env[i];
      assert env[..i + 1][..i] == env[..i];
      if StartsWith(key, AliasPrefix) {
        var parts := SplitOn(value, [FieldSeparator]);
        if |parts| == 3 {
          aliasDict := aliasDict[parts[0] := Credentials(parts[1], parts[2])];
        }
      }
      i := i + 1;
    }
    assert env[..|env|] == env;
  }

  // ---------------------------------------------------------------------
  // Properties of the mapping

  /** A value defines an alias exactly when it holds two separators, so a
      password containing `|` makes the whole entry ignored. */
  lemma DefinesIff(entry: (string, string))
    ensures Defines(entry) <==> StartsWith(entry.0, AliasPrefix) && Count(entry.1, FieldSeparator) == 2
  {
  }

  /** An entry that defines nothing leaves the mapping unchanged. */
  lemma IgnoredEntry(env: seq<(string, string)>, entry: (string, string))
    requires !Defines(entry)
    ensures Mappings(env + [entry]) == Mappings(env)
  {
    assert (env + [entry])[..|env|] == env;
  }

  /** An alias is mapped exactly when some entry defines it. */
  lemma {:induction false} MappingsDefined(env: seq<(string, string)>, alias: string)
    ensures alias in Mappings(env) <==>
      exists i :: 0 <= i < |env| && Defines(env[i]) && AliasOf(env[i]) == alias
    decreases |env|
  {
    if env != [] {
      var init := env[..|env| - 1];
      MappingsDefined(init, alias);
      assert forall i :: 0 <= i < |init| ==> init[i] == env[i];
    }
  }

  /** A mapped alias holds the credentials of the last entry that defines
      it. */
  lemma {:induction false} MappingsLastWins(env: seq<(string, string)>, alias: string)
    ensures alias in Mappings(env) ==>
      exists i :: 0 <= i < |env| && Defines(env[i]) && AliasOf(env[i]) == alias
        && Mappings(env)[alias] == CredentialsOf(env[i])
        && forall j :: i < j < |env| && Defines(env[j]) ==> AliasOf(env[j]) != alias
    decreases |env|
  {
    if env != [] {
      var init := env[..|env| - 1];
      var last := env[|env| - 1];
      MappingsLastWins(init, alias);
      assert forall i :: 0 <= i < |init| ==> init[i] == env[i];
      if Defines(last) && AliasOf(last) == alias {
        assert Mappings(env)[alias] == CredentialsOf(env[|env| - 1]);
      } else if alias in Mappings(init) {
        var i :| 0 <= i < |init| && Defines(init[i]) && AliasOf(init[i]) == alias
          && Mappings(init)[alias] == CredentialsOf(init[i])
          && forall j :: i < j < |init| && Defines(init[j]) ==> AliasOf(init[j]) != alias;
        LastWinsKept(env, alias, i);
      }
    }
  }

  /** The step of `MappingsLastWins` when the last entry does not define
      the alias: the earlier winner stays. */
  lemma LastWinsKept(env: seq<(string, string)>, alias: string, i: nat)
    requires env != [] && !(Defines(env[|env| - 1]) && AliasOf(env[|env| - 1]) == alias)
    requires i < |env| - 1 && Defines(env[i]) && AliasOf(env[i]) == alias
    requires alias in Mappings(env[..|env| - 1]) && Mappings(env[..|env| - 1])[alias] == CredentialsOf(env[i])
    requires forall j :: i < j < |env| - 1 && Defines(env[j]) ==> AliasOf(env[j]) != alias
    ensures alias in Mappings(env) && Mappings(env)[alias] == CredentialsOf(env[i])
    ensures forall j :: i < j < |env| && Defines(env[j]) ==> AliasOf(env[j]) != alias
  {
    var init := env[..|env| - 1];
    var last := env[|env| - 1];
    if Defines(last) {
      assert Mappings(env) == Mappings(init)[AliasOf(last) := CredentialsOf(last)];
    } else {
      assert Mappings(env) == Mappings(init);
    }
    forall j | i < j < |env| && Defines(env[j])
      ensures AliasOf(env[j]) != alias
    {
      if j == |env| - 1 {
        assert env[j] == last;
      }
    }
  }

  /** An entry built from separator-free fields defines exactly that alias. */
  lemma AliasRoundTrip(suffix: string, alias: string, handle: string, password: string)
    requires Count(alias, FieldSeparator) == 0 && Count(handle, FieldSeparator) == 0
    requires Count(password, FieldSeparator) == 0
    ensures Mappings([(AliasPrefix + suffix, Join([alias, handle, password], [FieldSeparator]))])
      == map[alias := Credentials(handle, password)]
  {
    var ps := [alias, handle, password];
    SplitOfJoin(ps, FieldSeparator);
    var entry := (AliasPrefix + suffix, Join(ps, [FieldSeparator]));
    assert StartsWith(entry.0, AliasPrefix);
    assert [entry][..0] == [];
  }
}
