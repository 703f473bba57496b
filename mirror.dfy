/** `fetch-node-website`'s default mirror (`src/main/deps/fetch-node-website/mirror.ts`):
    the first of four environment variables that is set to a non-empty value. */
module Mirror {
  import opened Wrappers

  const MirrorVariables: seq<string> := ["NODE_MIRROR", "NVM_NODEJS_ORG_MIRROR", "N_NODE_MIRROR", "NODIST_NODE_MIRROR"]
  const DefaultMirror := "https://nodejs.org/dist"

  /** Whether `env[name]` is truthy. */
  predicate IsSet(env: map<string, string>, name: string)
  {
    name in env && env[name] != ""
  }

  /** `names.map(getEnv).find(Boolean)`. */
  function FirstSet(env: map<string, string>, names: seq<string>): (r: Option<string>)
    ensures r.Some? ==> exists i :: (0 <= i < |names| && IsSet(env, names[i]) && r.value == env[names[i]]
      && forall j :: 0 <= j < i ==> !IsSet(env, names[j]))
    ensures r.None? <==> forall i :: 0 <= i < |names| ==> !IsSet(env, names[i])
    decreases |names|
  {
    if names == [] then None
    else if IsSet(env, names[0]) then Some(env[names[0]])
    else
      var rest := FirstSet(env, names[1..]);
      assert forall i :: 1 <= i < |names| ==> names[i] == names[1..][i - 1];
      rest
  }

  /** `getDefaultMirror`. */
  function GetDefaultMirror(env: map<string, string>): string
  {
    FirstSet(env, MirrorVariables).UnwrapOr(DefaultMirror)
  }

  /** The earliest variable that is set wins, empty values are skipped, and with none set
      the mirror is nodejs.org. */
  lemma DefaultMirrorChoice(env: map<string, string>)
    ensures IsSet(env, "NODE_MIRROR") ==> GetDefaultMirror(env) == env["NODE_MIRROR"]
    ensures !IsSet(env, "NODE_MIRROR") && IsSet(env, "NVM_NODEJS_ORG_MIRROR") ==>
      GetDefaultMirror(env) == env["NVM_NODEJS_ORG_MIRROR"]
    ensures !IsSet(env, "NODE_MIRROR") && !IsSet(env, "NVM_NODEJS_ORG_MIRROR") && IsSet(env, "N_NODE_MIRROR") ==>
      GetDefaultMirror(env) == env["N_NODE_MIRROR"]
    ensures (!IsSet(env, "NODE_MIRROR") && !IsSet(env, "NVM_NODEJS_ORG_MIRROR") && !IsSet(env, "N_NODE_MIRROR")
      && IsSet(env, "NODIST_NODE_MIRROR")) ==> GetDefaultMirror(env) == env["NODIST_NODE_MIRROR"]
    ensures (forall i :: 0 <= i < |MirrorVariables| ==> !IsSet(env, MirrorVariables[i])) ==>
      GetDefaultMirror(env) == DefaultMirror
  {
    var names := MirrorVariables;
    assert names[1..][1..][1..][1..] == [];
  }
}
