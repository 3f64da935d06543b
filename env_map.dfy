/**
 The environment-variable map of crates/turborepo-env/src/lib.rs and its
 wildcard resolver.

 An `EnvironmentVariableMap` owns a name-to-value map that `Insert`,
 `Union` and `Difference` update in place.  `WildcardMapFromWildcards`
 sorts user patterns into inclusion and exclusion lists, compiles each with
 the wildcard compiler and keeps, in two fresh maps, the variables whose
 names fully match some alternative of each list.  `Resolve` removes from
 the inclusions every name that is also an exclusion.
 */
module EnvMap {
  import opened Wildcard
  import opened LexOrder
  import opened Pairs

  // ---------------------------------------------------------------------
  // Specification of the map algebra

  /** `base` with every entry of `top` written over it. */
  function Overwritten(base: map<string, string>, top: map<string, string>): (r: map<string, string>)
    ensures r.Keys == base.Keys + top.Keys
    ensures forall k :: k in top ==> r[k] == top[k]
    ensures forall k :: k in base && k !in top ==> r[k] == base[k]
  {
    base + top
  }

  /** `m` without the names in `keys`; the values of the other names are kept. */
  function WithoutKeys(m: map<string, string>, keys: set<string>): (r: map<string, string>)
    ensures r.Keys == m.Keys - keys
    ensures forall k :: k in r ==> r[k] == m[k]
  {
    m - keys
  }

  // ---------------------------------------------------------------------
  // Specification of pattern selection

  /** Where a user pattern goes, and the wildcard body that is compiled for it. */
  datatype Classified = Include(body: string) | Exclude(body: string)

  /**
   A leading `!` makes the rest an exclusion; a leading `\!` is an
   inclusion of everything after the backslash (a name starting with `!`);
   anything else is an inclusion taken verbatim.
   */
  function Classify(p: string): (c: Classified)
    ensures c.Exclude? <==> |p| > 0 && p[0] == '!'
    ensures c.Exclude? ==> p == ['!'] + c.body
    ensures c.Include? && |p| >= 2 && p[0] == WILDCARD_ESCAPE && p[1] == '!' ==> p == [WILDCARD_ESCAPE] + c.body
    ensures c.Include? && !(|p| >= 2 && p[0] == WILDCARD_ESCAPE && p[1] == '!') ==> c.body == p
  {
    if |p| > 0 && p[0] == '!' then Exclude(p[1..])
    else if |p| >= 2 && p[0] == WILDCARD_ESCAPE && p[1] == '!' then Include(p[1..])
    else Include(p)
  }

  /** The bodies, in order, of the patterns that `Classify` sends to one side. */
  function Bodies(ps: seq<string>, exclusion: bool): seq<string>
  {
    if ps == [] then []
    else
      var c := Classify(ps[|ps| - 1]);
      Bodies(ps[..|ps| - 1], exclusion) + (if c.Exclude? == exclusion then [c.body] else [])
  }

  /** A list of pattern bodies selects a name when one of them matches it. */
  predicate Selects(bodies: seq<string>, name: string)
  {
    exists i :: 0 <= i < |bodies| && Matches(bodies[i], name)
  }

  /** The entries of `env` whose names one side of `ps` selects. */
  function Selected(env: map<string, string>, ps: seq<string>, exclusion: bool): (r: map<string, string>)
    ensures forall k :: k in r <==> k in env && Selects(Bodies(ps, exclusion), k)
    ensures forall k :: k in r ==> r[k] == env[k]
  {
    map k | k in env && Selects(Bodies(ps, exclusion), k) :: env[k]
  }

  /** What `from_wildcards` keeps: selected inclusions minus selected exclusions. */
  function Resolved(env: map<string, string>, ps: seq<string>): map<string, string>
  {
    WithoutKeys(Selected(env, ps, false), Selected(env, ps, true).Keys)
  }

  /**
   Full match of the anchored alternation `^(r1|...|rn)$`.  With no
   alternative the regex is `^()$`, which matches only the empty name.
   */
  predicate AlternationMatches(regexes: seq<string>, name: string): (r: bool)
    ensures regexes == [] ==> (r <==> name == [])
  {
    if regexes == [] then FragmentMatches([], name)
    else exists i :: 0 <= i < |regexes| && FragmentMatches(regexes[i], name)
  }

  /** `regexes` are the compiled forms of `bodies`, one for one. */
  predicate CompiledFrom(regexes: seq<string>, bodies: seq<string>)
  {
    |regexes| == |bodies| && forall i :: 0 <= i < |bodies| ==> regexes[i] == Unparse(Tokenize(bodies[i]))
  }

  // ---------------------------------------------------------------------
  // The map object

  class EnvironmentVariableMap {
    var vars: map<string, string>

    /** `EnvironmentVariableMap::default()`. */
    constructor ()
      ensures vars == map[]
    {
      vars := map[];
    }

    /** A map wrapping a snapshot (the `From<HashMap>` conversion). */
    constructor FromMap(m: map<string, string>)
      ensures vars == m
    {
      vars := m;
    }

    method Insert(key: string, value: string)
      modifies this
      ensures vars == old(vars)[key := value]
    {
      vars := vars[key := value];
    }

    /** Adds every entry of `another`, overwriting values already present. */
    method Union(another: EnvironmentVariableMap)
      modifies this
      ensures vars == Overwritten(old(vars), old(another.vars))
      ensures another != this ==> another.vars == old(another.vars)
    {
      var source := another.vars;
      var pending := source.Keys;
      while pending != {}
        invariant pending <= source.Keys
        invariant vars == old(vars) + (source - pending)
        decreases pending
      {
        var key :| key in pending;
        vars := vars[key := source[key]];
        pending := pending - {key};
      }
      assert source - {} == source;
    }

    /** Removes every name that is a key of `another`, whatever its value there. */
    method Difference(another: EnvironmentVariableMap)
      modifies this
      ensures vars == WithoutKeys(old(vars), old(another.vars).Keys)
      ensures another != this ==> another.vars == old(another.vars)
    {
      var names := another.vars.Keys;
      var pending := names;
      while pending != {}
        invariant pending <= names
        invariant vars == old(vars) - (names - pending)
        decreases pending
      {
        var key :| key in pending;
        vars := vars - {key};
        pending := pending - {key};
      }
    }

    /**
     Compiles the patterns and partitions this map's entries into fresh
     inclusion and exclusion maps.
     */
    method WildcardMapFromWildcards(wildcardPatterns: seq<string>) returns (output: WildcardMaps)
      ensures fresh(output) && fresh(output.inclusions) && fresh(output.exclusions)
      ensures output.Valid()
      ensures output.inclusions.vars == Selected(vars, wildcardPatterns, false)
      ensures output.exclusions.vars == Selected(vars, wildcardPatterns, true)
    {
      var includePatterns, excludePatterns := CompilePatterns(wildcardPatterns);
      output := new WildcardMaps();
      var pending := vars.Keys;
      while pending != {}
        invariant pending <= vars.Keys
        invariant fresh(output.inclusions) && fresh(output.exclusions) && output.Valid()
        invariant output.inclusions.vars == Selected(vars - pending, wildcardPatterns, false)
        invariant output.exclusions.vars == Selected(vars - pending, wildcardPatterns, true)
        decreases pending
      {
        var envVar :| envVar in pending;
        AlternationAgrees(includePatterns, Bodies(wildcardPatterns, false), envVar);
        AlternationAgrees(excludePatterns, Bodies(wildcardPatterns, true), envVar);
        if |includePatterns| > 0 && AlternationMatches(includePatterns, envVar) {
          output.inclusions.Insert(envVar, vars[envVar]);
        }
        if |excludePatterns| > 0 && AlternationMatches(excludePatterns, envVar) {
          output.exclusions.Insert(envVar, vars[envVar]);
        }
        SelectedStep(vars, pending, envVar, wildcardPatterns, false);
        SelectedStep(vars, pending, envVar, wildcardPatterns, true);
        pending := pending - {envVar};
      }
      assert vars - {} == vars;
    }

    /**
     The variables that match the patterns, user exclusions removed.  An
     empty pattern list gives an empty map without compiling anything.
     */
    method FromWildcards(wildcardPatterns: seq<string>) returns (r: EnvironmentVariableMap)
      ensures fresh(r)
      ensures r.vars == Resolved(vars, wildcardPatterns)
    {
      if |wildcardPatterns| == 0 {
        r := new EnvironmentVariableMap();
        NoPatternsSelectNothing(vars, wildcardPatterns);
        return;
      }
      var resolvedSet := WildcardMapFromWildcards(wildcardPatterns);
      r := resolvedSet.Resolve();
    }

    /** The inclusions and exclusions of the patterns, kept apart. */
    method FromWildcardsUnresolved(wildcardPatterns: seq<string>) returns (output: WildcardMaps)
      ensures fresh(output) && fresh(output.inclusions) && fresh(output.exclusions)
      ensures output.Valid()
      ensures output.inclusions.vars == Selected(vars, wildcardPatterns, false)
      ensures output.exclusions.vars == Selected(vars, wildcardPatterns, true)
    {
      if |wildcardPatterns| == 0 {
        output := new WildcardMaps();
        NoPatternsSelectNothing(vars, wildcardPatterns);
        return;
      }
      output := WildcardMapFromWildcards(wildcardPatterns);
    }
 
    /** The variable names, each once, in ascending order. */
    method Names() returns (names: seq<string>)
      ensures Sorted(names)
      ensures multiset(names) == multiset(vars.Keys)
    {
      var collected: seq<string> := [];
      var pending := vars.Keys;
      while pending != {}
        invariant pending <= vars.Keys
        invariant multiset(collected) == multiset(vars.Keys - pending)
        decreases pending
      {
        var key :| key in pending;
        assert vars.Keys - (pending - {key}) == (vars.Keys - pending) + {key};
        collected := collected + [key];
        pending := pending - {key};
      }
      assert vars.Keys - {} == vars.Keys;
      names := SortStrings(collected);
    }

    /**
     One string per entry, made by `transformer`, sorted as strings (the
     formatted strings are sorted, not the names).
     */
    method MapToPair(transformer: (string, string) -> string) returns (pairs: seq<string>)
      ensures Sorted(pairs)
      ensures multiset(pairs) == Image(vars, transformer)
    {
      var collected := CollectPairs(vars, transformer);
      pairs := SortStrings(collected);
    }

    /** The sorted `k=v` strings of the map: the task-hash input. */
    method ToHashable() returns (pairs: seq<string>)
      ensures Sorted(pairs)
      ensures multiset(pairs) == Image(vars, HashableTransformer())
      ensures forall i :: 0 <= i < |pairs| ==> exists k :: k in vars && pairs[i] == HashablePair(k, vars[k])
      ensures forall k :: k in vars ==> HashablePair(k, vars[k]) in pairs
    {
      pairs := MapToPair(HashableTransformer());
      forall i | 0 <= i < |pairs|
        ensures exists k :: k in vars && pairs[i] == HashablePair(k, vars[k])
      {
        assert pairs[i] in multiset(pairs);
        ImageOverMembers(vars, HashableTransformer(), vars.Keys, pairs[i]);
      }
      forall k | k in vars
        ensures HashablePair(k, vars[k]) in pairs
      {
        ImageOverMembers(vars, HashableTransformer(), vars.Keys, HashablePair(k, vars[k]));
        assert HashablePair(k, vars[k]) in multiset(pairs);
      }
    }

    /**
     The sorted `k=` strings with each non-empty value replaced by the hex
     of its digest: what is shown in place of the task-hash input.
     */
    method ToSecretHashable(sha256: string -> Digest) returns (pairs: seq<string>)
      ensures Sorted(pairs)
      ensures multiset(pairs) == Image(vars, SecretTransformer(sha256))
      ensures forall i :: 0 <= i < |pairs| ==> exists k :: k in vars && pairs[i] == SecretPair(sha256, k, vars[k])
      ensures forall k :: k in vars ==> SecretPair(sha256, k, vars[k]) in pairs
    {
      pairs := MapToPair(SecretTransformer(sha256));
      forall i | 0 <= i < |pairs|
        ensures exists k :: k in vars && pairs[i] == SecretPair(sha256, k, vars[k])
      {
        assert pairs[i] in multiset(pairs);
        ImageOverMembers(vars, SecretTransformer(sha256), vars.Keys, pairs[i]);
      }
      forall k | k in vars
        ensures SecretPair(sha256, k, vars[k]) in pairs
      {
        ImageOverMembers(vars, SecretTransformer(sha256), vars.Keys, SecretPair(sha256, k, vars[k]));
        assert SecretPair(sha256, k, vars[k]) in multiset(pairs);
      }
    }
 }

  /** `iter().map(|(k, v)| transformer(k, v)).collect()`: one string per entry, in iteration order. */
  method CollectPairs(m: map<string, string>, transformer: (string, string) -> string) returns (collected: seq<string>)
    ensures multiset(collected) == Image(m, transformer)
  {
    collected := [];
    var pending := m.Keys;
    ghost var done: set<string> := {};
    while pending != {}
      invariant done + pending == m.Keys && done !! pending
      invariant multiset(collected) == ImageOver(m, transformer, done)
      decreases pending
    {
      var key :| key in pending;
      ImageOverAdd(m, transformer, done, key);
      collected := collected + [transformer(key, m[key])];
      done := done + {key};
      pending := pending - {key};
    }
  }

  /**
   The first loop of `wildcard_map_from_wildcards`: each pattern is
   classified and its body compiled onto the inclusion or exclusion list.
   */
  method CompilePatterns(wildcardPatterns: seq<string>) returns (includePatterns: seq<string>, excludePatterns: seq<string>)
    ensures CompiledFrom(includePatterns, Bodies(wildcardPatterns, false))
    ensures CompiledFrom(excludePatterns, Bodies(wildcardPatterns, true))
  {
    includePatterns := [];
    excludePatterns := [];
    for j := 0 to |wildcardPatterns|
      invariant CompiledFrom(includePatterns, Bodies(wildcardPatterns[..j], false))
      invariant CompiledFrom(excludePatterns, Bodies(wildcardPatterns[..j], true))
    {
      var p := wildcardPatterns[j];
      assert wildcardPatterns[..j + 1][..j] == wildcardPatterns[..j];
      if |p| > 0 && p[0] == '!' {
        var excludePattern := WildcardToRegexPattern(p[1..]);
        excludePatterns := excludePatterns + [excludePattern];
      } else if |p| >= 2 && p[0] == WILDCARD_ESCAPE && p[1] == '!' {
        var includePattern := WildcardToRegexPattern(p[1..]);
        includePatterns := includePatterns + [includePattern];
      } else {
        var includePattern := WildcardToRegexPattern(p);
        includePatterns := includePatterns + [includePattern];
      }
    }
    assert wildcardPatterns[..|wildcardPatterns|] == wildcardPatterns;
  }

  /** A pair of maps: the variables included and the variables excluded. */
  class WildcardMaps {
    const inclusions: EnvironmentVariableMap
    const exclusions: EnvironmentVariableMap

    /** The two maps are distinct objects. */
    predicate Valid()
    {
      inclusions != exclusions
    }

    constructor ()
      ensures Valid() && fresh(inclusions) && fresh(exclusions)
      ensures inclusions.vars == map[] && exclusions.vars == map[]
    {
      inclusions := new EnvironmentVariableMap();
      exclusions := new EnvironmentVariableMap();
    }

    /**
     Collapses the pair into one map: the inclusions, consumed and returned,
     with every exclusion name removed (crates/turborepo-env takes `self`).
     */
    method Resolve() returns (output: EnvironmentVariableMap)
      requires Valid()
      modifies inclusions
      ensures output == inclusions
      ensures output.vars == WithoutKeys(old(inclusions.vars), exclusions.vars.Keys)
      ensures exclusions.vars == old(exclusions.vars)
    {
      output := inclusions;
      var names := exclusions.vars.Keys;
      var pending := names;
      while pending != {}
        invariant pending <= names
        invariant output == inclusions
        invariant exclusions.vars == old(exclusions.vars)
        invariant output.vars == old(inclusions.vars) - (names - pending)
        decreases pending
      {
        var key :| key in pending;
        output.vars := output.vars - {key};
        pending := pending - {key};
      }
    }

    /**
     The crates/turborepo-lib copy: borrows the pair, leaves it as it is and
     returns a new map.
     */
    method ResolveCopy() returns (output: EnvironmentVariableMap)
      ensures fresh(output)
      ensures output.vars == WithoutKeys(inclusions.vars, exclusions.vars.Keys)
    {
      output := new EnvironmentVariableMap.FromMap(inclusions.vars);
      var names := exclusions.vars.Keys;
      var pending := names;
      while pending != {}
        invariant pending <= names
        invariant fresh(output)
        invariant output.vars == inclusions.vars - (names - pending)
        decreases pending
      {
        var key :| key in pending;
        output.vars := output.vars - {key};
        pending := pending - {key};
      }
    }
  }

  // ---------------------------------------------------------------------
  // Properties of selection

  /** Removing the remaining keys one at a time adds the key to the selection. */
  lemma SelectedStep(env: map<string, string>, pending: set<string>, key: string, ps: seq<string>, exclusion: bool)
    requires key in pending && pending <= env.Keys
    ensures Selected(env - (pending - {key}), ps, exclusion)
         == if Selects(Bodies(ps, exclusion), key)
            then Selected(env - pending, ps, exclusion)[key := env[key]]
            else Selected(env - pending, ps, exclusion)
  {
    assert env - (pending - {key}) == (env - pending)[key := env[key]];
  }

  /**
   The guarded alternation test of the partition loop agrees with the
   selection rule: a non-empty list whose compiled alternation matches.
   */
  lemma AlternationAgrees(regexes: seq<string>, bodies: seq<string>, name: string)
    requires CompiledFrom(regexes, bodies)
    ensures |regexes| > 0 && AlternationMatches(regexes, name) <==> Selects(bodies, name)
  {
    if Selects(bodies, name) {
      var i :| 0 <= i < |bodies| && Matches(bodies[i], name);
      FragmentMatchesPattern(bodies[i], name);
    }
    if |regexes| > 0 && AlternationMatches(regexes, name) {
      var i :| 0 <= i < |regexes| && FragmentMatches(regexes[i], name);
      FragmentMatchesPattern(bodies[i], name);
    }
  }

  /**
   Without the non-empty guard the empty list would select the empty name,
   since `^()$` matches it.
   */
  lemma EmptyAlternationMatchesEmptyName()
    ensures AlternationMatches([], "")
    ensures !Selects([], "")
  {
    assert ParseFragment([]) == Some([]);
  }

  lemma NoPatternsSelectNothing(env: map<string, string>, ps: seq<string>)
    requires ps == []
    ensures Selected(env, ps, false) == map[] && Selected(env, ps, true) == map[]
    ensures Resolved(env, ps) == map[]
  {
  }

  /**
   Exclusion wins: a variable survives `from_wildcards` exactly when some
   inclusion and no exclusion matches its name, and keeps its value.
   */
  lemma ExclusionWins(env: map<string, string>, ps: seq<string>, name: string)
    ensures name in Resolved(env, ps)
        <==> name in env && Selects(Bodies(ps, false), name) && !Selects(Bodies(ps, true), name)
    ensures name in Resolved(env, ps) ==> Resolved(env, ps)[name] == env[name]
  {
  }

  /** A single wildcard-free body selects exactly its own name. */
  lemma SingleBodySelects(env: map<string, string>, ps: seq<string>, exclusion: bool, body: string)
    requires Bodies(ps, exclusion) == [body] && NoWildcard(body)
    ensures Selected(env, ps, exclusion) == if body in env then map[body := env[body]] else map[]
  {
    forall k
      ensures Selects([body], k) <==> k == body
    {
      NoWildcardMatchesExactly(body, k);
      assert [body][0] == body;
    }
  }

  /**
   A name can be both included and excluded; resolution then drops it.
   With `A` in the map, `["A", "!A"]` puts `A` on both sides.
   */
  lemma IncludedAndExcluded(env: map<string, string>)
    requires "A" in env
    ensures "A" in Selected(env, ["A", "!A"], false)
    ensures "A" in Selected(env, ["A", "!A"], true)
    ensures "A" !in Resolved(env, ["A", "!A"])
  {
    var ps := ["A", "!A"];
    assert ps[..1] == ["A"] && ps[..1][..0] == [];
    assert Classify("!A") == Exclude("A");
    assert Bodies(ps, false) == ["A"] && Bodies(ps, true) == ["A"];
    assert NoWildcard("A");
    SingleBodySelects(env, ps, false, "A");
    SingleBodySelects(env, ps, true, "A");
  }

  /**
   `difference` does not undo `union`: removing the names of `b` from `a`
   overwritten by `b` removes them from `a` too, so `a` comes back exactly
   when it shares no name with `b`.
   */
  lemma UnionThenDifference(a: map<string, string>, b: map<string, string>)
    ensures WithoutKeys(Overwritten(a, b), b.Keys) == WithoutKeys(a, b.Keys)
    ensures WithoutKeys(Overwritten(a, b), b.Keys) == a <==> a.Keys !! b.Keys
  {
    var r := WithoutKeys(Overwritten(a, b), b.Keys);
    assert r.Keys == WithoutKeys(a, b.Keys).Keys;
    if r == a {
      assert a.Keys == a.Keys - b.Keys;
    }
  }

  // ---------------------------------------------------------------------
  // Properties of the serialised forms

  /** A sorted list holding each element of a set once is strictly ascending. */
  lemma NamesStrictlyAscending(names: seq<string>, keys: set<string>)
    requires Sorted(names) && multiset(names) == multiset(keys)
    ensures forall i, j :: 0 <= i < j < |names| ==> names[i] != names[j] && LexLe(names[i], names[j])
  {
    forall i, j | 0 <= i < j < |names|
      ensures names[i] != names[j] && LexLe(names[i], names[j])
    {
      SortedPairwise(names, i, j);
      var x := names[i];
      assert names == names[..j] + names[j..];
      assert names[..j][i] == x && names[j..][0] == names[j];
      assert multiset(names[..j])[x] >= 1 && multiset(names[j..])[names[j]] >= 1;
      assert multiset(names)[x] == multiset(names[..j])[x] + multiset(names[j..])[x];
      assert multiset(keys)[x] <= 1;
    }
  }

  /**
   The pairs of a map are determined by the map alone: two sorted
   arrangements of its image are the same sequence.
   */
  lemma PairsDeterministic(m: map<string, string>, f: (string, string) -> string, a: seq<string>, b: seq<string>)
    requires Sorted(a) && multiset(a) == Image(m, f)
    requires Sorted(b) && multiset(b) == Image(m, f)
    ensures a == b
  {
    SortedUnique(a, b);
  }

  /** The `k=v` image of the two-entry map `{A: x, A0: y}`. */
  lemma ExampleImage()
    ensures Image(map["A" := "x", "A0" := "y"], HashableTransformer()) == multiset(["A0=y", "A=x"])
  {
    var m1: map<string, string> := map["A" := "x"];
    assert map[]["A" := "x"] == m1;
    ImageAdd(map[], HashableTransformer(), "A", "x");
    assert Image(map[], HashableTransformer()) == multiset{};
    ImageAdd(m1, HashableTransformer(), "A0", "y");
    assert HashableTransformer()("A", "x") == "A=x";
    assert HashableTransformer()("A0", "y") == "A0=y";
    assert m1["A0" := "y"] == map["A" := "x", "A0" := "y"];
    assert multiset(["A0=y", "A=x"]) == multiset{"A=x", "A0=y"};
  }

  lemma ExamplePairsSorted()
    ensures Sorted(["A0=y", "A=x"])
  {
    assert LexLe("A0=y", "A=x");
  }

  /** The names of `{A: x, A0: y}` come in the order `A, A0`: a prefix sorts first. */
  lemma NamesOrderExample(names: seq<string>)
    requires Sorted(names) && multiset(names) == multiset(map["A" := "x", "A0" := "y"].Keys)
    ensures names == ["A", "A0"]
  {
    assert multiset(["A", "A0"]) == multiset(map["A" := "x", "A0" := "y"].Keys) by {
      assert map["A" := "x", "A0" := "y"].Keys == {"A", "A0"};
    }
    assert Sorted(["A", "A0"]) by {
      assert LexLe("A", "A0");
    }
    SortedUnique(names, ["A", "A0"]);
  }

  /**
   Sorting happens after formatting: the pairs of `{A: x, A0: y}` come in
   the order `A0=y, A=x`, because `0` sorts before `=`, although the names
   come in the order `A, A0`.
   */
  lemma SortAfterFormatExample(pairs: seq<string>)
    requires Sorted(pairs) && multiset(pairs) == Image(map["A" := "x", "A0" := "y"], HashableTransformer())
    ensures pairs == ["A0=y", "A=x"]
  {
    ExampleImage();
    ExamplePairsSorted();
    SortedUnique(pairs, ["A0=y", "A=x"]);
  }
}
