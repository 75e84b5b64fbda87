/**
 * init_lua_runtime of src/lua/runtime.cpp: the static initialized flag that
 * makes every call after a completed one do nothing, the module scripts
 * loaded in list order with missing ones skipped, the user config that
 * must exist for the flag to be set, and the catch that still sets it.
 * The file system and the Lua interpreter are given as answers (Env).
 */
module Runtime {
  import opened Basics

  /** A Lua value the runtime stores in a global. */
  datatype LuaValue =
    | Text(s: string)
    | Table(fields: map<string, LuaValue>)
    | Function(cpp: string)  // a C++ function bound with set_function

  /**
   * What the outside world answers during one call: the paths fs::exists
   * reports, the paths on which fs::exists throws filesystem_error (with its
   * message), the scripts whose run fails (with the error's message), and
   * whether /tmp/hyprlua.log opens for appending.
   */
  datatype Env = Env(existing: set<string>, existsThrows: map<string, string>,
                     failing: map<string, string>, logOpens: bool)

  /** The Lua scripts loaded from the modules directory, in order. */
  const MODULE_SCRIPTS: seq<string> := ["monitors.lua"]

  /** The standard libraries opened before anything else. */
  const LIBRARIES: set<string> := {"base", "package", "math", "table", "string"}

  /** The global hypr table: the version string and an empty monitors table. */
  const HYPR_TABLE: LuaValue := Table(map["version" := Text("0.1.0"), "monitors" := Table(map[])])

  /**
   * The state the runtime keeps: the flag, the opened libraries, the Lua
   * globals the plug-in sets, the scripts run so far, the notifications sent
   * and the lines appended to /tmp/hyprlua.log.
   */
  datatype RuntimeState = RuntimeState(
    initialized: bool,
    libraries: set<string>,
    globals: map<string, LuaValue>,
    ran: seq<string>,
    notifications: seq<string>,
    crashLog: seq<string>)

  /** bind_monitors: one notification and the two functions bound as globals. */
  function BindMonitors(st: RuntimeState): (r: RuntimeState)
    ensures r.globals.Keys == st.globals.Keys + {"__hypr_add_monitor", "__hypr_disable_monitor"}
    ensures r.globals["__hypr_add_monitor"] == Function("add_monitor")
    ensures r.globals["__hypr_disable_monitor"] == Function("disable_monitor")
    ensures forall g :: g in st.globals && g !in {"__hypr_add_monitor", "__hypr_disable_monitor"} ==> r.globals[g] == st.globals[g]
    ensures r.notifications == st.notifications + ["Binding monitors module"]
    ensures r.(globals := st.globals, notifications := st.notifications) == st
  {
    st.(notifications := st.notifications + ["Binding monitors module"],
        globals := st.globals["__hypr_add_monitor" := Function("add_monitor")]
                             ["__hypr_disable_monitor" := Function("disable_monitor")])
  }

  /** Everything before the try block: libraries opened, monitors bound, hypr table set. */
  function Prepared(st: RuntimeState): RuntimeState
  {
    var bound := BindMonitors(st.(libraries := st.libraries + LIBRARIES));
    bound.(globals := bound.globals["hypr" := HYPR_TABLE])
  }

  /** The module loop so far: the state, and the message of the exception that left it, if one did. */
  datatype Progress = Progress(st: RuntimeState, threw: Option<string>)

  /**
   * One module script: an fs::exists that throws ends the loop; a missing
   * script is skipped with a notification; otherwise it is run, and a
   * failing run throws.
   */
  function LoadStep(p: Progress, path: string, env: Env): Progress
  {
    if path in env.existsThrows then Progress(p.st, Some(env.existsThrows[path]))
    else if path !in env.existing then
      Progress(p.st.(notifications := p.st.notifications + ["Module not found: " + path]), p.threw)
    else
      var ran := p.st.(ran := p.st.ran + [path]);
      if path in env.failing then Progress(ran, Some(env.failing[path])) else Progress(ran, p.threw)
  }

  /** The module loop over scripts, in order, stopping at the first exception. */
  function LoadModules(start: Progress, modulesPath: string, scripts: seq<string>, env: Env): Progress
  {
    if scripts == [] then start
    else
      var p := LoadModules(start, modulesPath, scripts[..|scripts| - 1], env);
      if p.threw.Some? then p else LoadStep(p, modulesPath + "/" + scripts[|scripts| - 1], env)
  }

  /**
   * init_lua_runtime: nothing when already initialized; otherwise prepare,
   * load the modules, then run the user config. A missing config returns
   * before the flag is set; an exception, from a module script or from the
   * existence check of the config, is logged and the flag is set.
   */
  function InitRuntime(st: RuntimeState, modulesPath: string, userConfigPath: string, env: Env): RuntimeState
  {
    if st.initialized then st
    else AfterModules(LoadModules(Progress(Prepared(st), None), modulesPath, MODULE_SCRIPTS, env), userConfigPath, env)
  }

  /**
   * The rest of the try block and the catch, after the module loop: the
   * config's existence check, which may throw, then the config run, or the
   * exception logged.
   */
  function AfterModules(p: Progress, userConfigPath: string, env: Env): RuntimeState
  {
    var threw := if p.threw.None? && userConfigPath in env.existsThrows
                 then Some(env.existsThrows[userConfigPath]) else p.threw;
    match threw
    case Some(what) =>
      var logged := if env.logOpens then ["[hyprlua] Exception during runtime initialization: " + what] else [];
      p.st.(initialized := true, crashLog := p.st.crashLog + logged)
    case None =>
      if userConfigPath !in env.existing then
        p.st.(notifications := p.st.notifications + ["Cant find: " + userConfigPath])
      else
        var failed := if userConfigPath in env.failing then ["Error executing: " + userConfigPath] else [];
        p.st.(initialized := true, ran := p.st.ran + [userConfigPath], notifications := p.st.notifications + failed)
  }

  /** Loading two lists of scripts one after the other is loading their concatenation. */
  lemma {:induction false} LoadModulesAppend(start: Progress, modulesPath: string, a: seq<string>, b: seq<string>, env: Env)
    ensures LoadModules(start, modulesPath, a + b, env)
            == LoadModules(LoadModules(start, modulesPath, a, env), modulesPath, b, env)
    decreases |b|
  {
    if b == [] {
      assert a + b == a;
    } else {
      assert (a + b)[..|a + b| - 1] == a + b[..|b| - 1];
      LoadModulesAppend(start, modulesPath, a, b[..|b| - 1], env);
    }
  }

  /** After an exception no further script runs and nothing else changes. */
  lemma {:induction false} ThrownStops(p: Progress, modulesPath: string, scripts: seq<string>, env: Env)
    requires p.threw.Some?
    ensures LoadModules(p, modulesPath, scripts, env) == p
  {
    if scripts != [] {
      ThrownStops(p, modulesPath, scripts[..|scripts| - 1], env);
    }
  }

  /** A missing module script only adds its notification: the loop goes on with the next script. */
  lemma MissingScriptSkipped(start: Progress, modulesPath: string, a: seq<string>, m: string, b: seq<string>, env: Env)
    requires modulesPath + "/" + m !in env.existing && modulesPath + "/" + m !in env.existsThrows
    requires LoadModules(start, modulesPath, a, env).threw.None?
    ensures var p := LoadModules(start, modulesPath, a, env);
            var skipped := Progress(p.st.(notifications := p.st.notifications + ["Module not found: " + modulesPath + "/" + m]), None);
            LoadModules(start, modulesPath, a + [m] + b, env) == LoadModules(skipped, modulesPath, b, env)
  {
    LoadModulesAppend(start, modulesPath, a + [m], b, env);
    LoadModulesAppend(start, modulesPath, a, [m], env);
    var p := LoadModules(start, modulesPath, a, env);
    assert [m][..0] == [];
    var path := modulesPath + "/" + m;
    assert "Module not found: " + path == "Module not found: " + modulesPath + "/" + m;
    assert LoadModules(p, modulesPath, [m], env) == LoadStep(p, path, env);
  }

  /**
   * A module script that exists is run: its path is appended to the scripts
   * run. A failing run ends the loop with its message; otherwise the loop
   * goes on with the next script.
   */
  lemma ExistingScriptRuns(start: Progress, modulesPath: string, a: seq<string>, m: string, b: seq<string>, env: Env)
    requires modulesPath + "/" + m in env.existing && modulesPath + "/" + m !in env.existsThrows
    requires LoadModules(start, modulesPath, a, env).threw.None?
    ensures var p := LoadModules(start, modulesPath, a, env);
            var path := modulesPath + "/" + m;
            var ran := p.st.(ran := p.st.ran + [path]);
            LoadModules(start, modulesPath, a + [m] + b, env)
            == if path in env.failing then Progress(ran, Some(env.failing[path]))
               else LoadModules(Progress(ran, None), modulesPath, b, env)
  {
    LoadModulesAppend(start, modulesPath, a + [m], b, env);
    LoadModulesAppend(start, modulesPath, a, [m], env);
    var p := LoadModules(start, modulesPath, a, env);
    assert [m][..0] == [];
    var path := modulesPath + "/" + m;
    assert LoadModules(p, modulesPath, [m], env) == LoadStep(p, path, env);
    if path in env.failing {
      ThrownStops(LoadStep(p, path, env), modulesPath, b, env);
    }
  }

  /** A script whose existence check throws is not run, and the loop ends there with that message. */
  lemma ModuleCheckThrowStops(start: Progress, modulesPath: string, a: seq<string>, m: string, b: seq<string>, env: Env)
    requires modulesPath + "/" + m in env.existsThrows
    requires LoadModules(start, modulesPath, a, env).threw.None?
    ensures var p := LoadModules(start, modulesPath, a, env);
            LoadModules(start, modulesPath, a + [m] + b, env)
            == Progress(p.st, Some(env.existsThrows[modulesPath + "/" + m]))
  {
    LoadModulesAppend(start, modulesPath, a + [m], b, env);
    LoadModulesAppend(start, modulesPath, a, [m], env);
    var p := LoadModules(start, modulesPath, a, env);
    assert [m][..0] == [];
    var path := modulesPath + "/" + m;
    assert LoadModules(p, modulesPath, [m], env) == LoadStep(p, path, env);
    ThrownStops(LoadStep(p, path, env), modulesPath, b, env);
  }

  /** Scripts run in list order: a run appends its path and nothing else is ever removed from the list. */
  lemma {:induction false} LoadModulesKeeps(start: Progress, modulesPath: string, scripts: seq<string>, env: Env)
    ensures var p := LoadModules(start, modulesPath, scripts, env);
            start.st.ran <= p.st.ran && start.st.notifications <= p.st.notifications
            && p.st.globals == start.st.globals && p.st.initialized == start.st.initialized
            && p.st.libraries == start.st.libraries && p.st.crashLog == start.st.crashLog
  {
    if scripts != [] {
      LoadModulesKeeps(start, modulesPath, scripts[..|scripts| - 1], env);
    }
  }

  /** Once initialized, a call changes nothing. */
  lemma InitOnce(st: RuntimeState, modulesPath: string, userConfigPath: string, env: Env, env': Env)
    ensures var st' := InitRuntime(st, modulesPath, userConfigPath, env);
            st'.initialized ==> InitRuntime(st', modulesPath, userConfigPath, env') == st'
  {
  }

  /** The module loop of a call, from a state not yet initialized. */
  function ModulesOf(st: RuntimeState, modulesPath: string, env: Env): Progress
  {
    LoadModules(Progress(Prepared(st), None), modulesPath, MODULE_SCRIPTS, env)
  }

  /**
   * The flag ends up set exactly when it already was, or a module script
   * threw, or checking the user config threw, or the config exists; a
   * failing config or an exception still sets it.
   */
  lemma InitializedExactly(st: RuntimeState, modulesPath: string, userConfigPath: string, env: Env)
    ensures InitRuntime(st, modulesPath, userConfigPath, env).initialized
            <==> st.initialized || ModulesOf(st, modulesPath, env).threw.Some?
                 || userConfigPath in env.existsThrows || userConfigPath in env.existing
  {
    LoadModulesKeeps(Progress(Prepared(st), None), modulesPath, MODULE_SCRIPTS, env);
  }

  /**
   * A missing user config leaves the flag clear after its notification, so
   * a later call, with the config in place, prepares and loads again and
   * sets the flag, having run the config unless an exception came first.
   */
  lemma MissingConfigRetried(st: RuntimeState, modulesPath: string, userConfigPath: string, env: Env, env': Env)
    requires !st.initialized && userConfigPath !in env.existing && userConfigPath !in env.existsThrows
    requires ModulesOf(st, modulesPath, env).threw.None?
    requires userConfigPath in env'.existing
    ensures var st1 := InitRuntime(st, modulesPath, userConfigPath, env);
            !st1.initialized && st1.notifications[|st1.notifications| - 1] == "Cant find: " + userConfigPath
            && var st2 := InitRuntime(st1, modulesPath, userConfigPath, env');
               st2.initialized
               && (ModulesOf(st1, modulesPath, env').threw.None? && userConfigPath !in env'.existsThrows
                   ==> |st2.ran| > 0 && st2.ran[|st2.ran| - 1] == userConfigPath)
  {
    LoadModulesKeeps(Progress(Prepared(st), None), modulesPath, MODULE_SCRIPTS, env);
    var st1 := InitRuntime(st, modulesPath, userConfigPath, env);
    LoadModulesKeeps(Progress(Prepared(st1), None), modulesPath, MODULE_SCRIPTS, env');
    InitializedExactly(st1, modulesPath, userConfigPath, env');
  }

  /** A config that fails to run is reported and the flag is still set. */
  lemma ConfigErrorStillInitializes(st: RuntimeState, modulesPath: string, userConfigPath: string, env: Env)
    requires !st.initialized && userConfigPath in env.existing && userConfigPath in env.failing
    requires userConfigPath !in env.existsThrows
    requires ModulesOf(st, modulesPath, env).threw.None?
    ensures var st' := InitRuntime(st, modulesPath, userConfigPath, env);
            st'.initialized && st'.notifications[|st'.notifications| - 1] == "Error executing: " + userConfigPath
  {
  }

  /** An exception in the module loop skips the user config, is logged when the log opens, and the flag is still set. */
  lemma ExceptionStillInitializes(st: RuntimeState, modulesPath: string, userConfigPath: string, env: Env)
    requires !st.initialized && ModulesOf(st, modulesPath, env).threw.Some?
    ensures var p := ModulesOf(st, modulesPath, env);
            var st' := InitRuntime(st, modulesPath, userConfigPath, env);
            st'.initialized && st'.ran == p.st.ran && st'.notifications == p.st.notifications
            && (env.logOpens ==> st'.crashLog[|st'.crashLog| - 1]
                                 == "[hyprlua] Exception during runtime initialization: " + p.threw.value)
  {
  }

  /**
   * When fs::exists throws on the user config, the exception reaches the
   * catch: the config is not run, nothing is notified, the message is logged
   * when the log opens, and the flag is still set.
   */
  lemma ConfigCheckThrowStillInitializes(st: RuntimeState, modulesPath: string, userConfigPath: string, env: Env)
    requires !st.initialized && ModulesOf(st, modulesPath, env).threw.None?
    requires userConfigPath in env.existsThrows
    ensures var p := ModulesOf(st, modulesPath, env);
            var st' := InitRuntime(st, modulesPath, userConfigPath, env);
            st'.initialized && st'.ran == p.st.ran && st'.notifications == p.st.notifications
            && (env.logOpens ==> st'.crashLog == p.st.crashLog
                                 + ["[hyprlua] Exception during runtime initialization: " + env.existsThrows[userConfigPath]])
            && (!env.logOpens ==> st'.crashLog == p.st.crashLog)
  {
  }

  /** A call that does anything sets hypr.version to "0.1.0" with an empty hypr.monitors table, and binds the monitor functions. */
  lemma InitSetsGlobals(st: RuntimeState, modulesPath: string, userConfigPath: string, env: Env)
    requires !st.initialized
    ensures var g := InitRuntime(st, modulesPath, userConfigPath, env).globals;
            "hypr" in g && g["hypr"] == Table(map["version" := Text("0.1.0"), "monitors" := Table(map[])])
            && "__hypr_add_monitor" in g && "__hypr_disable_monitor" in g
  {
    LoadModulesKeeps(Progress(Prepared(st), None), modulesPath, MODULE_SCRIPTS, env);
  }

  /** The static state of runtime.cpp: the initialized flag and the Lua state behind get_lua_state. */
  class LuaRuntime {
    var initialized: bool
    var libraries: set<string>
    var globals: map<string, LuaValue>
    var ran: seq<string>
    var notifications: seq<string>
    var crashLog: seq<string>

    function State(): RuntimeState
      reads this
    {
      RuntimeState(initialized, libraries, globals, ran, notifications, crashLog)
    }

    /** Program start: the flag is clear and the Lua state is empty. */
    constructor ()
      ensures State() == RuntimeState(false, {}, map[], [], [], [])
    {
      initialized := false;
      libraries := {};
      globals := map[];
      ran := [];
      notifications := [];
      crashLog := [];
    }

    /** bind_monitors(lua). */
    method BindMonitorsInto()
      modifies this
      ensures State() == BindMonitors(old(State()))
    {
      notifications := notifications + ["Binding monitors module"];
      globals := globals["__hypr_add_monitor" := Function("add_monitor")];
      globals := globals["__hypr_disable_monitor" := Function("disable_monitor")];
    }

    /** The module loop inside the try block; an exception ends it with its message. */
    method LoadModuleScripts(modulesPath: string, env: Env) returns (threw: Option<string>)
      modifies this
      ensures Progress(State(), threw) == LoadModules(Progress(old(State()), None), modulesPath, MODULE_SCRIPTS, env)
    {
      ghost var start := Progress(State(), None);
      threw := None;
      var i := 0;
      while i < |MODULE_SCRIPTS|
        invariant 0 <= i <= |MODULE_SCRIPTS|
        invariant Progress(State(), threw) == LoadModules(start, modulesPath, MODULE_SCRIPTS[..i], env)
        invariant threw.None?
      {
        assert MODULE_SCRIPTS[..i + 1][..i] == MODULE_SCRIPTS[..i];
        var scriptPath := modulesPath + "/" + MODULE_SCRIPTS[i];
        if scriptPath in env.existsThrows {
          threw := Some(env.existsThrows[scriptPath]);
          ThrownStops(Progress(State(), threw), modulesPath, MODULE_SCRIPTS[i + 1..], env);
          LoadModulesAppend(start, modulesPath, MODULE_SCRIPTS[..i + 1], MODULE_SCRIPTS[i + 1..], env);
          assert MODULE_SCRIPTS[..i + 1] + MODULE_SCRIPTS[i + 1..] == MODULE_SCRIPTS;
          return;
        }
        if scriptPath !in env.existing {
          notifications := notifications + ["Module not found: " + scriptPath];
          i := i + 1;
          continue;
        }
        ran := ran + [scriptPath];
        if scriptPath in env.failing {
          threw := Some(env.failing[scriptPath]);
          ThrownStops(Progress(State(), threw), modulesPath, MODULE_SCRIPTS[i + 1..], env);
          LoadModulesAppend(start, modulesPath, MODULE_SCRIPTS[..i + 1], MODULE_SCRIPTS[i + 1..], env);
          assert MODULE_SCRIPTS[..i + 1] + MODULE_SCRIPTS[i + 1..] == MODULE_SCRIPTS;
          return;
        }
        i := i + 1;
      }
      assert MODULE_SCRIPTS[..i] == MODULE_SCRIPTS;
    }

    /** init_lua_runtime(modules_path, user_config_path). */
    method Init(modulesPath: string, userConfigPath: string, env: Env)
      modifies this
      ensures State() == InitRuntime(old(State()), modulesPath, userConfigPath, env)
    {
      if initialized {
        return;
      }
      libraries := libraries + LIBRARIES;
      BindMonitorsInto();
      globals := globals["hypr" := HYPR_TABLE];
      var threw := LoadModuleScripts(modulesPath, env);
      RunUserConfig(userConfigPath, env, threw);
    }

    /** The user config step and the catch, once the module loop has ended. */
    method RunUserConfig(userConfigPath: string, env: Env, threw: Option<string>)
      modifies this
      ensures State() == AfterModules(Progress(old(State()), threw), userConfigPath, env)
    {
      var caught := threw;
      if caught.None? && userConfigPath in env.existsThrows {
        caught := Some(env.existsThrows[userConfigPath]);
      }
      if caught.Some? {
        if env.logOpens {
          crashLog := crashLog + ["[hyprlua] Exception during runtime initialization: " + caught.value];
        }
      } else {
        if userConfigPath !in env.existing {
          notifications := notifications + ["Cant find: " + userConfigPath];
          return;
        }
        ran := ran + [userConfigPath];
        if userConfigPath in env.failing {
          notifications := notifications + ["Error executing: " + userConfigPath];
        }
      }
      initialized := true;
    }
  }
}
