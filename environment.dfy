/**
 * The credential checks of app.py: `check_environment_variables`
 * (lines 33-38), run at start-up, and `initialize_github_client`
 * (lines 26-31), which reads the GitHub token again. The process environment
 * is a map from names to values; `os.getenv(name)` is falsy when the name is
 * absent or its value is the empty string.
 */
module Environment {
  import opened Wrappers

  type Env = map<string, string>

  /** The names checked, in the order they are checked (line 34). */
  const RequiredVars: seq<string> := ["OPENAI_API_KEY", "GITHUB_TOKEN", "ACTIVELOOP_TOKEN"]

  const GithubTokenVar: string := "GITHUB_TOKEN"

  /** `os.getenv(name)` is truthy. */
  predicate IsSet(env: Env, name: string) {
    name in env && env[name] != ""
  }

  /** Index of the first name in `names` that is not set, or `|names|` when all are. */
  function FirstMissingIndex(env: Env, names: seq<string>): (k: nat)
    ensures k <= |names|
    ensures forall j :: 0 <= j < k ==> IsSet(env, names[j])
    ensures k < |names| ==> !IsSet(env, names[k])
  {
    if names == [] || !IsSet(env, names[0]) then 0
    else 1 + FirstMissingIndex(env, names[1..])
  }

  /** The three properties above pin the index down. */
  lemma FirstMissingIndexUnique(env: Env, names: seq<string>, i: nat)
    requires i <= |names|
    requires forall j :: 0 <= j < i ==> IsSet(env, names[j])
    requires i < |names| ==> !IsSet(env, names[i])
    ensures FirstMissingIndex(env, names) == i
  {
  }

  /** The name `check_environment_variables` reports before stopping, if any. */
  function MissingVariable(env: Env): (r: Option<string>)
    ensures r == None <==> forall i :: 0 <= i < |RequiredVars| ==> IsSet(env, RequiredVars[i])
    ensures r.Some? ==> r.value in RequiredVars && !IsSet(env, r.value)
  {
    var k := FirstMissingIndex(env, RequiredVars);
    if k < |RequiredVars| then Some(RequiredVars[k]) else None
  }

  /** The first missing name wins, in the order of `RequiredVars`. */
  lemma MissingVariableOrder(env: Env)
    ensures !IsSet(env, "OPENAI_API_KEY") ==> MissingVariable(env) == Some("OPENAI_API_KEY")
    ensures IsSet(env, "OPENAI_API_KEY") && !IsSet(env, "GITHUB_TOKEN") ==>
              MissingVariable(env) == Some("GITHUB_TOKEN")
    ensures IsSet(env, "OPENAI_API_KEY") && IsSet(env, "GITHUB_TOKEN") && !IsSet(env, "ACTIVELOOP_TOKEN") ==>
              MissingVariable(env) == Some("ACTIVELOOP_TOKEN")
  {
    if !IsSet(env, "OPENAI_API_KEY") {
      FirstMissingIndexUnique(env, RequiredVars, 0);
    } else if !IsSet(env, "GITHUB_TOKEN") {
      FirstMissingIndexUnique(env, RequiredVars, 1);
    } else if !IsSet(env, "ACTIVELOOP_TOKEN") {
      FirstMissingIndexUnique(env, RequiredVars, 2);
    }
  }

  /**
   * `check_environment_variables()`: looks the names up in order; at the first
   * one not set it reports it (`st.error`) and stops (`st.stop`). `missing` is
   * the reported name; `inspected` lists the names looked up, in order.
   */
  method CheckEnvironmentVariables(env: Env) returns (missing: Option<string>, inspected: seq<string>)
    ensures missing == MissingVariable(env)
    ensures inspected <= RequiredVars
    ensures missing.None? ==> inspected == RequiredVars
    ensures missing.Some? ==> inspected != [] && inspected[|inspected| - 1] == missing.value
    ensures forall i :: 0 <= i < |inspected| - 1 ==> IsSet(env, inspected[i])
  {
    inspected := [];
    for i := 0 to |RequiredVars|
      invariant inspected == RequiredVars[..i]
      invariant forall j :: 0 <= j < i ==> IsSet(env, RequiredVars[j])
    {
      var name := RequiredVars[i];
      inspected := inspected + [name];
      if !IsSet(env, name) {
        FirstMissingIndexUnique(env, RequiredVars, i);
        return Some(name), inspected;
      }
    }
    FirstMissingIndexUnique(env, RequiredVars, |RequiredVars|);
    missing := None;
  }

  /** `initialize_github_client()`: the token it builds the client from, or `None` when it stops. */
  function GithubToken(env: Env): (r: Option<string>)
    ensures r.Some? <==> IsSet(env, GithubTokenVar)
    ensures r.Some? ==> r.value == env[GithubTokenVar] && r.value != ""
  {
    if IsSet(env, GithubTokenVar) then Some(env[GithubTokenVar]) else None
  }

  /** Once the start-up check has passed, creating the GitHub client cannot stop the script. */
  lemma GithubTokenAfterCheck(env: Env)
    requires MissingVariable(env) == None
    ensures GithubToken(env).Some?
  {
    assert RequiredVars[1] == GithubTokenVar;
  }

  /** The check stops the script exactly when some required name is unset. */
  lemma CheckStopsIff(env: Env)
    ensures MissingVariable(env).Some? <==> exists name :: name in RequiredVars && !IsSet(env, name)
  {
    if MissingVariable(env).None? {
      forall name | name in RequiredVars ensures IsSet(env, name) {
        var i :| 0 <= i < |RequiredVars| && RequiredVars[i] == name;
      }
    }
  }
}
