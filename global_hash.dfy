/**
 The environment part of the global hash inputs
 (crates/turborepo-lib/src/run/global_hash.rs): from the snapshot of the
 environment taken when execution starts, the user's global patterns and
 the default list, build the detailed map `all` / `explicit` / `matching`.
 */
module GlobalHash {
  import opened Wildcard
  import opened EnvMap

  const VERCEL_ANALYTICS_ID: string := "VERCEL_ANALYTICS_ID"

  /** Variables that are hashed without being declared. */
  const DEFAULT_ENV_VARS: seq<string> := [VERCEL_ANALYTICS_ID]

  /** The variables of `all`, split by where they came from. */
  datatype BySource = BySource(explicit: EnvironmentVariableMap, matching: EnvironmentVariableMap)

  /** `all` is the task-hash input; `bySource` is shown in run summaries. */
  datatype DetailedMap = DetailedMap(all: EnvironmentVariableMap, bySource: BySource)

  /** The contents of the three maps of a detailed map. */
  datatype Breakdown = Breakdown(all: map<string, string>, explicit: map<string, string>, matching: map<string, string>)

  /**
   The three maps made of the resolved defaults and the unresolved user
   inclusions and exclusions: user exclusions are removed last from each.
   */
  function Assemble(inclusions: map<string, string>, defaults: map<string, string>, exclusions: set<string>): Breakdown
  {
    Breakdown(
      WithoutKeys(Overwritten(Overwritten(map[], inclusions), defaults), exclusions),
      WithoutKeys(Overwritten(map[], inclusions), exclusions),
      WithoutKeys(Overwritten(map[], defaults), exclusions))
  }

  /**
   The breakdown of a snapshot: the defaults resolved on their own, the
   user patterns kept unresolved.
   */
  function GlobalEnvBreakdown(snapshot: map<string, string>, globalEnv: seq<string>): Breakdown
  {
    Assemble(Selected(snapshot, globalEnv, false), Resolved(snapshot, DEFAULT_ENV_VARS), Selected(snapshot, globalEnv, true).Keys)
  }

  /**
   Builds the detailed map by successive unions and differences on fresh
   maps.  The snapshot is only read.
   */
  method GetGlobalHashInputs(envAtExecutionStart: EnvironmentVariableMap, globalEnv: seq<string>)
    returns (resolvedEnvVars: DetailedMap)
    ensures fresh(resolvedEnvVars.all) && fresh(resolvedEnvVars.bySource.explicit) && fresh(resolvedEnvVars.bySource.matching)
    ensures resolvedEnvVars.all != resolvedEnvVars.bySource.explicit
         && resolvedEnvVars.all != resolvedEnvVars.bySource.matching
         && resolvedEnvVars.bySource.explicit != resolvedEnvVars.bySource.matching
    ensures resolvedEnvVars.all.vars == GlobalEnvBreakdown(envAtExecutionStart.vars, globalEnv).all
    ensures resolvedEnvVars.bySource.explicit.vars == GlobalEnvBreakdown(envAtExecutionStart.vars, globalEnv).explicit
    ensures resolvedEnvVars.bySource.matching.vars == GlobalEnvBreakdown(envAtExecutionStart.vars, globalEnv).matching
    ensures envAtExecutionStart.vars == old(envAtExecutionStart.vars)
  {
    var defaultEnvVarMap := envAtExecutionStart.FromWildcards(DEFAULT_ENV_VARS);
    var userEnvVarSet := envAtExecutionStart.FromWildcardsUnresolved(globalEnv);
    ghost var b := Assemble(userEnvVarSet.inclusions.vars, defaultEnvVarMap.vars, userEnvVarSet.exclusions.vars.Keys);

    var allEnvVarMap := new EnvironmentVariableMap();
    allEnvVarMap.Union(userEnvVarSet.inclusions);
    allEnvVarMap.Union(defaultEnvVarMap);
    allEnvVarMap.Difference(userEnvVarSet.exclusions);

    var explicitEnvVarMap := new EnvironmentVariableMap();
    explicitEnvVarMap.Union(userEnvVarSet.inclusions);
    explicitEnvVarMap.Difference(userEnvVarSet.exclusions);

    var matchingEnvVarMap := new EnvironmentVariableMap();
    matchingEnvVarMap.Union(defaultEnvVarMap);
    matchingEnvVarMap.Difference(userEnvVarSet.exclusions);

    assert envAtExecutionStart.vars == old(envAtExecutionStart.vars);
    assert b == GlobalEnvBreakdown(envAtExecutionStart.vars, globalEnv);
    resolvedEnvVars := DetailedMap(allEnvVarMap, BySource(explicitEnvVarMap, matchingEnvVarMap));
  }

  // ---------------------------------------------------------------------
  // Properties of the breakdown

  /** The default list selects the analytics variable and nothing else. */
  lemma DefaultsOnlyAnalyticsId(snapshot: map<string, string>)
    ensures Resolved(snapshot, DEFAULT_ENV_VARS)
         == if VERCEL_ANALYTICS_ID in snapshot then map[VERCEL_ANALYTICS_ID := snapshot[VERCEL_ANALYTICS_ID]] else map[]
  {
    assert DEFAULT_ENV_VARS[..0] == [];
    assert Bodies(DEFAULT_ENV_VARS, false) == [VERCEL_ANALYTICS_ID];
    assert Bodies(DEFAULT_ENV_VARS, true) == [];
    assert NoWildcard(VERCEL_ANALYTICS_ID);
    SingleBodySelects(snapshot, DEFAULT_ENV_VARS, false, VERCEL_ANALYTICS_ID);
  }

  /**
   What the assembly guarantees: no user-excluded name survives in any of
   the three maps; `all` holds exactly the names of `explicit` and
   `matching`, and agrees with both; every value is the snapshot's; and
   `matching` holds at most the analytics variable.
   */
  lemma BreakdownProperties(snapshot: map<string, string>, globalEnv: seq<string>, k: string)
    ensures var b := GlobalEnvBreakdown(snapshot, globalEnv);
      && (k in b.all || k in b.explicit || k in b.matching ==> !Selects(Bodies(globalEnv, true), k))
      && (k in b.all <==> k in b.explicit || k in b.matching)
      && (k in b.explicit ==> b.all[k] == b.explicit[k])
      && (k in b.matching ==> b.all[k] == b.matching[k])
      && (k in b.all ==> k in snapshot && b.all[k] == snapshot[k])
      && (k in b.matching ==> k == VERCEL_ANALYTICS_ID)
  {
    DefaultsOnlyAnalyticsId(snapshot);
  }

  /** `explicit` holds the names a user inclusion and no user exclusion selects. */
  lemma ExplicitIsUserResolution(snapshot: map<string, string>, globalEnv: seq<string>)
    ensures GlobalEnvBreakdown(snapshot, globalEnv).explicit == Resolved(snapshot, globalEnv)
  {
    var inclusions := Selected(snapshot, globalEnv, false);
    assert Overwritten(map[], inclusions) == inclusions;
  }

  // ---------------------------------------------------------------------
  // A worked configuration: `globalEnv` is `["FOO", "!BAR"]`

  const SNAPSHOT: map<string, string> := map["FOO" := "1", "BAR" := "2", VERCEL_ANALYTICS_ID := "x"]
  const GLOBAL_ENV: seq<string> := ["FOO", "!BAR"]

  /** `FOO` is the one inclusion and `BAR` the one exclusion. */
  lemma ExampleBodies()
    ensures Bodies(GLOBAL_ENV, false) == ["FOO"]
    ensures Bodies(GLOBAL_ENV, true) == ["BAR"]
  {
    assert GLOBAL_ENV[..1] == ["FOO"];
    assert GLOBAL_ENV[..1][..0] == [];
    assert Classify("!BAR") == Exclude("BAR");
  }

  /** The user patterns select `FOO` to include and `BAR` to exclude. */
  lemma ExampleSelections()
    ensures Selected(SNAPSHOT, GLOBAL_ENV, false) == map["FOO" := "1"]
    ensures Selected(SNAPSHOT, GLOBAL_ENV, true).Keys == {"BAR"}
  {
    ExampleBodies();
    assert NoWildcard("FOO") && NoWildcard("BAR");
    SingleBodySelects(SNAPSHOT, GLOBAL_ENV, false, "FOO");
    SingleBodySelects(SNAPSHOT, GLOBAL_ENV, true, "BAR");
    assert "FOO" in SNAPSHOT && SNAPSHOT["FOO"] == "1" && "BAR" in SNAPSHOT;
  }

  /**
   The breakdown of the example: `FOO` is explicit, the analytics variable
   is matched by default, and `BAR` is in none of the maps.
   */
  lemma ExampleBreakdown()
    ensures GlobalEnvBreakdown(SNAPSHOT, GLOBAL_ENV)
         == Breakdown(map["FOO" := "1", VERCEL_ANALYTICS_ID := "x"], map["FOO" := "1"], map[VERCEL_ANALYTICS_ID := "x"])
  {
    var foo := map["FOO" := "1"];
    var analytics := map[VERCEL_ANALYTICS_ID := "x"];
    assert Selected(SNAPSHOT, GLOBAL_ENV, false) == foo && Selected(SNAPSHOT, GLOBAL_ENV, true).Keys == {"BAR"} by {
      ExampleSelections();
    }
    assert Resolved(SNAPSHOT, DEFAULT_ENV_VARS) == analytics by {
      DefaultsOnlyAnalyticsId(SNAPSHOT);
    }
    SingletonAssembly("FOO", "1", VERCEL_ANALYTICS_ID, "x", "BAR");
  }

  /** Assembling one inclusion and one default, with a third name excluded. */
  lemma SingletonAssembly(f: string, x: string, a: string, y: string, e: string)
    requires f != a && e != f && e != a
    ensures WithoutKeys(Overwritten(map[], map[f := x]), {e}) == map[f := x]
    ensures WithoutKeys(Overwritten(map[], map[a := y]), {e}) == map[a := y]
    ensures WithoutKeys(Overwritten(Overwritten(map[], map[f := x]), map[a := y]), {e}) == map[f := x, a := y]
  {
  }
}
