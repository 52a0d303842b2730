/**
 * The process configuration: the lower and upper directories and the debug
 * flag, read from the environment once at load time and stored in a
 * process-wide slot that every redirection decision reads.
 */
module Config {
  import opened Wrappers

  /** A value in the environment: text, or bytes that are not valid Unicode. */
  datatype EnvValue = Text(text: string) | NotUnicode

  type Env = map<string, EnvValue>

  const LowerDirVar: string := "LIBOVERLAY_LOWER_DIR"
  const UpperDirVar: string := "LIBOVERLAY_UPPER_DIR"
  const DebugVar: string := "LIBOVERLAY_DEBUG"

  /** The directories are kept exactly as the environment spells them. */
  datatype Config = Config(lowerDir: string, upperDir: string, debug: bool)

  /** `std::env::var`: the value when it is set and is Unicode text. */
  function Var(env: Env, key: string): (v: Option<string>)
    ensures v.Some? <==> key in env && env[key].Text?
    ensures v.Some? ==> env[key] == Text(v.value)
  {
    if key in env && env[key].Text? then Some(env[key].text) else None
  }

  /**
   * `Config::from_env`: both directories must be readable; the debug flag is
   * on only for the exact value "1" and never makes the configuration absent.
   */
  function FromEnv(env: Env): (c: Option<Config>)
    ensures c.Some? <==> Var(env, LowerDirVar).Some? && Var(env, UpperDirVar).Some?
    ensures c.Some? ==> c.value.lowerDir == env[LowerDirVar].text
    ensures c.Some? ==> c.value.upperDir == env[UpperDirVar].text
    ensures c.Some? ==> (c.value.debug <==> DebugVar in env && env[DebugVar] == Text("1"))
  {
    match Var(env, LowerDirVar)
    case None => None
    case Some(lower) =>
      match Var(env, UpperDirVar)
      case None => None
      case Some(upper) =>
        var debug := match Var(env, DebugVar) case Some(v) => v == "1" case None => false;
        Some(Config(lower, upper, debug))
  }

  /** Whether diagnostics are on: a configuration exists and its debug flag is set. */
  predicate DebugEnabled(cfg: Option<Config>) {
    cfg.Some? && cfg.value.debug
  }

  /**
   * `if_debug`: runs the callback, modelled as a transformation of whatever
   * state it affects, exactly when diagnostics are on.
   */
  function IfDebug<S>(cfg: Option<Config>, callback: S -> S, state: S): S {
    if DebugEnabled(cfg) then callback(state) else state
  }

  /** The debug variable alone never decides whether a configuration exists, nor its directories. */
  lemma DebugVarDoesNotGate(env: Env, v: EnvValue)
    ensures var before, after := FromEnv(env), FromEnv(env[DebugVar := v]);
      after.Some? == before.Some? &&
      (after.Some? ==> after.value.lowerDir == before.value.lowerDir && after.value.upperDir == before.value.upperDir)
  {
    assert DebugVar != LowerDirVar && DebugVar != UpperDirVar by {
      assert |DebugVar| != |LowerDirVar| && |DebugVar| != |UpperDirVar|;
    }
  }

  /** Run on the configuration read from `env`, the callback runs exactly when both directories and "1" are set. */
  lemma IfDebugFromEnv<S>(env: Env, callback: S -> S, state: S)
    ensures IfDebug(FromEnv(env), callback, state) ==
      if LowerDirVar in env && env[LowerDirVar].Text? && UpperDirVar in env && env[UpperDirVar].Text?
         && DebugVar in env && env[DebugVar] == Text("1")
      then callback(state) else state
  {
  }

  /**
   * The process-wide configuration slot (`static mut CONFIG`): absent until
   * load-time initialisation stores the configuration read from the
   * environment, and written by nothing else.
   */
  class Process {
    var config: Option<Config>
    /** Whether load-time initialisation has run; it runs once. */
    ghost var initialized: bool
    /** The environment initialisation read. */
    ghost var loadEnv: Env

    /** The slot holds nothing before initialisation and what `from_env` gave for the load-time environment after it. */
    ghost predicate Valid()
      reads this
    {
      if initialized then config == FromEnv(loadEnv) else config == None
    }

    /** The slot as the program starts, before initialisation. */
    constructor ()
      ensures Valid() && GetConfig() == None && !initialized
    {
      config := None;
      initialized := false;
      loadEnv := map[];
    }

    /** `init_config_impl`: the single store into the slot. */
    method InitConfig(env: Env)
      requires !initialized
      modifies this
      ensures Valid() && initialized && loadEnv == env && GetConfig() == FromEnv(env)
    {
      config := FromEnv(env);
      initialized := true;
      loadEnv := env;
    }

    /** `get_config`: the stored configuration, if any. */
    function GetConfig(): Option<Config>
      reads this
    {
      config
    }
  }

  /** `get_config` returns nothing before initialisation and, after it, what `from_env` gave for the load-time environment. */
  lemma GetConfigReturnsStored(p: Process)
    requires p.Valid()
    ensures !p.initialized ==> p.GetConfig() == None
    ensures p.initialized ==> p.GetConfig() == FromEnv(p.loadEnv)
  {
  }
}
