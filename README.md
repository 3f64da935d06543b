# Environment-variable selection for turborepo task hashes

This project models the part of turborepo that decides which environment
variables feed a task's cache key, and how they are written into it.

- **Wildcard compiler** (`Wildcard`, `wildcard.dfy`). `wildcard_to_regex_pattern`
  turns a pattern into a regex fragment. In a pattern, `*` is a wildcard,
  `\*` is a literal asterisk, and every other character is literal.
  - The meaning of a pattern is its atom list, `Tokenize`. Each atom is a
    literal character or a wildcard.
  - The compiler's output is the regex text of that list (`Unparse`):
    `regex::escape` of each literal and `.*` for each wildcard.
  - `ParseFragment` reads that sub-grammar back. Full-match semantics
    (`AtomsMatch`) stand in for the regex engine's anchored match.
- **Environment-variable map** (`EnvMap`, `env_map.dfy`). This is the class
  `EnvironmentVariableMap`, which holds a name-to-value map.
  - `Insert`, `Union` and `Difference` update the map in place.
  - `WildcardMapFromWildcards` classifies and compiles the patterns. It
    then partitions the map's entries into fresh inclusion and exclusion
    maps (class `WildcardMaps`).
  - `Resolve` removes every excluded name from the inclusions.
  - The serialisers are `Names`, `MapToPair`, `ToHashable` and
    `ToSecretHashable`.
  - Which names a pattern list selects is specified by `Classify`,
    `Bodies`, `Selected` and `Resolved`.
- **String order and sorting** (`LexOrder`, `lex_order.dfy`). Rust orders
  `String` values byte-wise on their UTF-8 encoding. This is the same as
  lexicographic order on code points. `Vec::sort` is specified by its
  result: sorted, and a permutation of its input.
- **Pair strings** (`Pairs`, `env_pairs.dfy`).
  - The plain pair is `k=v`.
  - The secret pair is `k=` followed by the 64 lowercase hex digits of
    the value's SHA-256 digest. An empty value gives just `k=`.
  - `Image` is the multiset of strings a transformer makes of a map's
    entries.
- **Global hash inputs** (`GlobalHash`, `global_hash.dfy`). This is the
  environment part of `get_global_hash_inputs`.
  - The default list `[VERCEL_ANALYTICS_ID]` is resolved on its own.
  - The user's `globalEnv` patterns are kept unresolved.
  - The three maps `all`, `explicit` and `matching` are built by
    successive unions and differences on fresh maps. User exclusions are
    removed last from each.

The shared logic appears twice in the source:
crates/turborepo-env/src/lib.rs and crates/turborepo-lib/src/env.rs.

- **Which copy the model follows.** It follows the first copy. It uses the
  second for the serialisers and for the borrowing `resolve`
  (`WildcardMaps.ResolveCopy`).
- **The second copy does not compile.** It is read as follows:
  - `evm` stands for the map itself;
  - the self-call at env.rs:168 stands for the partition step;
  - the `WildcardMaps` returned at env.rs:186 stands for that step's result;
  - `EnvironmentVariableMap::new()` at env.rs:118-119, 165 and 181-182 stands
    for `default()`, the empty map;
  - `difference` at env.rs:61 takes the map as its first argument `evm`; it
    stands for the method that global_hash.rs:50, 54 and 58 call;
  - iterating over the wrapper, and its `keys()` and `remove`, at
    env.rs:39-40, 54 and 62-63 stand for the same operations on the inner
    map.
- **Its star compiler differs.** It is modelled as written, in
  `WildcardToRegexPatternBareStar`; see "## Findings".

Two points where the code does less than its own comments say. The
model follows the code in both.

- **Adjacent wildcards are not collapsed.** The comment at lib.rs:194
  says a `.*` is added only when it is not adjacent to another one. The
  check at lib.rs:196 compares the `.*` segment with the escaped run
  pushed just before it, and that run never equals `.*`. So `**` compiles to `.*.*`
  (`EscapeIsNeverWildcardSegment`, `DoubleStar`). The two forms match the
  same names.
- **The secret form does not hide every value.** The comment at
  crates/turborepo-lib/src/env.rs:91-93 says the values are
  cryptographically hashed. But the form begins with the name, so a value
  equal to its own name appears in it in full
  (`Pairs.SecretPairShowsNamedValue`). The model states only what the
  code does (`Pairs.SecretPair`).

## Model

| member | source | states |
|---|---|---|
| Wildcard.WildcardToRegexPattern | crates/turborepo-env/src/lib.rs:175-212 | the result is the regex text of the pattern's atoms, and it parses back as exactly those atoms |
| Wildcard.StarSegment | crates/turborepo-env/src/lib.rs:181-203 | at each `*`, the pushed segments extend the text of the prefix up to the cut to the text of the prefix through this `*` |
| Wildcard.TokenizeAtLiteralStar | crates/turborepo-env/src/lib.rs:182-188 | a `*` after `\` adds the run before the backslash and one literal `*`, and no wildcard |
| Wildcard.TokenizeAtWildcard | crates/turborepo-env/src/lib.rs:189-199 | an unescaped `*` adds the run since the cut (possibly empty) and one wildcard |
| Wildcard.CompiledThroughLiteralStar | crates/turborepo-env/src/lib.rs:185-188 | the text for a `\*` is `escape(run + "*")`, with the backslash dropped |
| Wildcard.CompiledThroughWildcard | crates/turborepo-env/src/lib.rs:192-199 | the text for an unescaped `*` is `escape(run)` then `.*` |
| Wildcard.CompiledThroughEnd | crates/turborepo-env/src/lib.rs:208-211 | the last run is appended escaped, and the pieces are joined with no separator |
| Wildcard.EscapeIsNeverWildcardSegment | crates/turborepo-env/src/lib.rs:194-199 | an escaped run is never `.*`, so the adjacency test always pushes `.*` |
| Wildcard.DoubleStar | crates/turborepo-env/src/lib.rs:192-199 | `**` compiles to `.*.*`, which matches exactly the names `*` matches |
| Wildcard.AdjacentWildcards | crates/turborepo-env/src/lib.rs:192-199 | two adjacent wildcards accept exactly what one accepts, whatever follows |
| Wildcard.NoWildcardCompilesToEscape | crates/turborepo-env/src/lib.rs:208-211 | a pattern without `*` compiles to the escape of the whole pattern, as one literal run |
| Wildcard.NoWildcardMatchesExactly | crates/turborepo-env/src/lib.rs:175-212 | a pattern without `*` matches its own text and no other name |
| Wildcard.StarMatchesEverything | crates/turborepo-env/src/lib.rs:189-199 | the pattern `*` matches every name, including the empty one |
| Wildcard.EscapedStarIsLiteral | crates/turborepo-env/src/lib.rs:182-188 | `A\*B` matches exactly the name `A*B` |
| Wildcard.LiteralStarText | crates/turborepo-env/src/lib.rs:185-188 | a literal asterisk is rendered `\*` |
| Wildcard.LiteralStarSuffix | crates/turborepo-env/src/lib.rs:222-226 | a run without `*` followed by `\*` compiles to the escaped run and `\*`, for every such run |
| Wildcard.Escape | crates/turborepo-env/src/lib.rs:185-192 | `regex::escape` puts a backslash before each of `\ . + * ? ( ) \| [ ] { } ^ $ # & - ~` and nothing else: the output is between one and two times as long, and starts with a backslash exactly when the input starts with a metacharacter |
| Wildcard.Concat | crates/turborepo-env/src/lib.rs:211 | `join("")` of the pushed segments; it is empty exactly when every segment is |
| Wildcard.LiteralStarTestCase | crates/turborepo-env/src/lib.rs:222-226 | the pattern `LITERAL_\*` compiles to `LITERAL_\*` |
| Wildcard.EscapePlain | crates/turborepo-env/src/lib.rs:192 | the escape leaves text without metacharacters unchanged |
| Wildcard.InnerLiteralMatches | crates/turborepo-env/src/lib.rs:180-211 | `A*B*C` matches `A`, anything, `B`, anything, `C` |
| Wildcard.InnerLiteralRequired | crates/turborepo-env/src/lib.rs:180-211 | `A*B*C` rejects `AXC`, because the literal `B` is required |
| Wildcard.ParseUnparse | crates/turborepo-env/src/lib.rs:175-212 | the compiler's output language reads back as the atoms it renders |
| Wildcard.ParsedIsUnparsed | crates/turborepo-env/src/lib.rs:175-212 | the output language is unambiguous: only the rendering of an atom list parses to it |
| Wildcard.FragmentMatchesPattern | crates/turborepo-env/src/lib.rs:175-212 | the compiled fragment fully matches a name exactly when the pattern does |
| Wildcard.WildcardToRegexPatternBareStar | crates/turborepo-lib/src/env.rs:194-233 | the env.rs compiler as written: the rendering with a bare `*` for each literal asterisk |
| Wildcard.BareStarSegment | crates/turborepo-lib/src/env.rs:199-225 | the env.rs loop step at a `*`, against the bare-star rendering |
| Wildcard.BareStarAgrees | crates/turborepo-lib/src/env.rs:204-207 | on atom lists without a literal asterisk, the two renderings are the same text |
| Wildcard.BareStarLength | crates/turborepo-lib/src/env.rs:204-207 | the env.rs text is shorter than the other copy's by exactly one character per literal asterisk |
| Wildcard.NoLiteralStarAtoms | crates/turborepo-lib/src/env.rs:199-207 | a pattern with no `*` right after a `\` has no literal-asterisk atom |
| Wildcard.EscapedStarIsLiteralAtom | crates/turborepo-lib/src/env.rs:199-207 | every `\*` in a pattern, wherever it stands, gives a literal-asterisk atom |
| Wildcard.BareStarAgreesExactly | crates/turborepo-lib/src/env.rs:204-207 | the two copies of the compiler produce the same text for a pattern exactly when it has no `\*` |
| Wildcard.BareStarCounterexample | crates/turborepo-lib/src/env.rs:204-207 | on `A\*` the env.rs copy emits `A*`, which is outside the escaped grammar; the other copy emits `A\*`, which matches the name `A*` |
| EnvMap.EnvironmentVariableMap.constructor | crates/turborepo-env/src/lib.rs:9-10 | the derived `default()` is the empty map; the derive of the env.rs copy at crates/turborepo-lib/src/env.rs:8 is the same, and it is the fresh map that global_hash.rs:47, 52 and 56 start from |
| EnvMap.EnvironmentVariableMap.FromMap | crates/turborepo-env/src/lib.rs:45-49 | wraps a snapshot unchanged |
| EnvMap.EnvironmentVariableMap.Insert | crates/turborepo-env/src/lib.rs:90-92 | sets one name to one value; every other entry is unchanged; the copy at crates/turborepo-lib/src/env.rs:67-69 is the same |
| EnvMap.EnvironmentVariableMap.Union | crates/turborepo-env/src/lib.rs:76-80 | the new map is the old one overwritten by `another`; `another` is unchanged; the copy at crates/turborepo-lib/src/env.rs:53-57 is the same |
| EnvMap.Overwritten | crates/turborepo-env/src/lib.rs:76-80 | keys of the union are both key sets; `another`'s values win; keys only in `self` keep their values |
| EnvMap.EnvironmentVariableMap.Difference | crates/turborepo-env/src/lib.rs:84-88 | removes exactly the keys of `another`, whatever their values; `another` is unchanged; the copy at crates/turborepo-lib/src/env.rs:61-65 is the same |
| EnvMap.WithoutKeys | crates/turborepo-env/src/lib.rs:84-88 | the remaining keys are the old keys minus the removed ones, each with its old value |
| EnvMap.UnionThenDifference | crates/turborepo-env/src/lib.rs:76-88 | `difference(B)` after `union(B)` equals `difference(B)` alone; it restores the map exactly when no name is shared |
| EnvMap.Classify | crates/turborepo-env/src/lib.rs:107-120 | a leading `!` gives an exclusion of the rest; a leading `\!` gives an inclusion of everything after the backslash; anything else is included verbatim (both directions) |
| EnvMap.CompilePatterns | crates/turborepo-env/src/lib.rs:104-120 | the include and exclude lists are the compiled bodies of each side, in order |
| EnvMap.Selected | crates/turborepo-env/src/lib.rs:127-134 | a sub-map of the snapshot with the same values; a name is in it exactly when it is in the snapshot and some body of that side matches it |
| EnvMap.AlternationMatches | crates/turborepo-env/src/lib.rs:122-131 | the anchored alternation `^(r1\|…\|rn)$` matches a name when some fragment fully matches it; with no fragment, `^()$` matches exactly the empty name |
| EnvMap.AlternationAgrees | crates/turborepo-env/src/lib.rs:122-131 | the guarded test "list non-empty and the anchored alternation matches" holds exactly when some pattern body matches |
| EnvMap.EmptyAlternationMatchesEmptyName | crates/turborepo-env/src/lib.rs:122-128 | `^()$` matches the empty name, so the non-empty guard is what keeps an empty list from selecting it |
| EnvMap.EnvironmentVariableMap.WildcardMapFromWildcards | crates/turborepo-env/src/lib.rs:95-137 | two fresh maps holding the entries the inclusions select and the entries the exclusions select; a name may be in both; the copy at crates/turborepo-lib/src/env.rs:113-156 is the same except on patterns containing `\*`, which it compiles with its own bare-star compiler (see "## Findings") |
| EnvMap.SelectedStep | crates/turborepo-env/src/lib.rs:127-134 | visiting one more entry adds it to a side exactly when that side selects its name |
| EnvMap.SingleBodySelects | crates/turborepo-env/src/lib.rs:122-134 | a single wildcard-free pattern selects its own name, if present, and nothing else |
| EnvMap.IncludedAndExcluded | crates/turborepo-env/src/lib.rs:127-134 | with `["A", "!A"]` the name `A` lands on both sides, and resolution drops it |
| EnvMap.WildcardMaps.constructor | crates/turborepo-env/src/lib.rs:99-102 | two distinct, empty maps |
| EnvMap.WildcardMaps.Resolve | crates/turborepo-env/src/lib.rs:36-42 | consumes the inclusions and returns them without every exclusion key |
| EnvMap.WildcardMaps.ResolveCopy | crates/turborepo-lib/src/env.rs:37-43 | returns a new map: a copy of the inclusions without every exclusion key; the pair is left as it is |
| EnvMap.EnvironmentVariableMap.FromWildcards | crates/turborepo-env/src/lib.rs:141-151 | the selected inclusions minus the selected exclusions, as a fresh map; empty for an empty list; the copy at crates/turborepo-lib/src/env.rs:160-170 is the same except on patterns containing `\*`, which it compiles with its own bare-star compiler (see "## Findings") |
| EnvMap.NoPatternsSelectNothing | crates/turborepo-env/src/lib.rs:145-147 | an empty pattern list selects nothing on either side, and resolves to the empty map |
| EnvMap.ExclusionWins | crates/turborepo-env/src/lib.rs:139-151 | a name survives `from_wildcards` exactly when some inclusion and no exclusion matches it, and it keeps its value |
| EnvMap.EnvironmentVariableMap.FromWildcardsUnresolved | crates/turborepo-env/src/lib.rs:156-168 | both sides kept apart in fresh maps; empty maps for an empty list; the copy at crates/turborepo-lib/src/env.rs:175-187 is the same except on patterns containing `\*`, which it compiles with its own bare-star compiler (see "## Findings") |
| EnvMap.EnvironmentVariableMap.Names | crates/turborepo-lib/src/env.rs:72-76 | the names in ascending order, as a permutation of the key set |
| EnvMap.NamesStrictlyAscending | crates/turborepo-lib/src/env.rs:72-76 | so every name appears exactly once, in strictly ascending order |
| EnvMap.NamesOrderExample | crates/turborepo-lib/src/env.rs:72-76 | the names of `{A: x, A0: y}` come out as `A, A0`, because a prefix sorts first |
| EnvMap.CollectPairs | crates/turborepo-lib/src/env.rs:85-86 | collecting in any iteration order yields one transformed string per entry |
| EnvMap.EnvironmentVariableMap.MapToPair | crates/turborepo-lib/src/env.rs:81-89 | the transformed strings, one per entry, sorted as strings |
| EnvMap.PairsDeterministic | crates/turborepo-lib/src/env.rs:81-89 | the sorted pairs depend only on the map, not on the order it was filled in |
| EnvMap.SortAfterFormatExample | crates/turborepo-lib/src/env.rs:85-87 | the strings are sorted after formatting: `{A: x, A0: y}` gives `A0=y, A=x` although its names sort `A, A0` |
| EnvMap.EnvironmentVariableMap.ToHashable | crates/turborepo-lib/src/env.rs:105-110 | sorted; each element is the `k=v` of some entry, and every entry's `k=v` is present |
| EnvMap.EnvironmentVariableMap.ToSecretHashable | crates/turborepo-lib/src/env.rs:91-103 | sorted; each element is the secret pair of some entry, and every entry's secret pair is present |
| LexOrder.LexLe | crates/turborepo-lib/src/env.rs:74 | the order `sort` uses on `String`; a prefix sorts before the longer string |
| LexOrder.LexLeFirstDifference | crates/turborepo-lib/src/env.rs:74 | past a common prefix, the first differing character decides the order, in both directions |
| LexOrder.LexLeTotal | crates/turborepo-lib/src/env.rs:74 | any two strings are comparable |
| LexOrder.LexLeAntisymmetric | crates/turborepo-lib/src/env.rs:74 | strings that sort both ways are equal |
| LexOrder.LexLeTransitive | crates/turborepo-lib/src/env.rs:74 | the string order is transitive |
| LexOrder.SortStrings | crates/turborepo-lib/src/env.rs:74 | `sort` returns a sorted permutation of its input |
| LexOrder.SortedUnique | crates/turborepo-lib/src/env.rs:87 | a multiset of strings has exactly one sorted arrangement |
| Pairs.HashablePair | crates/turborepo-lib/src/env.rs:109 | `k=v` has length `|k| + 1 + |v|` |
| Pairs.HashablePairSplits | crates/turborepo-lib/src/env.rs:109 | for a name without `=`, cutting `k=v` at the first `=` recovers the name and the raw value |
| Pairs.SecretPair | crates/turborepo-lib/src/env.rs:95-102 | starts with `k=`; an empty value gives exactly `k=`; otherwise exactly 64 lowercase hex digits follow |
| Pairs.SecretPairShowsNamedValue | crates/turborepo-lib/src/env.rs:95-102 | a value equal to its name stands in full at the head of its secret pair |
| Pairs.SecretPairRecoversDigest | crates/turborepo-lib/src/env.rs:97-98 | the digits after `=` read back as the value's SHA-256 digest |
| Pairs.Hex | crates/turborepo-lib/src/env.rs:98 | `{:x}` gives two lowercase hex digits per byte |
| Pairs.UnhexHex | crates/turborepo-lib/src/env.rs:98 | the hex rendering loses nothing: it reads back as the same bytes |
| Pairs.ImageOverRemove | crates/turborepo-lib/src/env.rs:85-86 | the multiset of transformed entries does not depend on which entry is visited first |
| Pairs.ImageOverMembers | crates/turborepo-lib/src/env.rs:85-86 | a string is among the transformed entries exactly when the transformer makes it of some entry |
| Pairs.ImageAdd | crates/turborepo-lib/src/env.rs:85-86 | a new entry adds its string to the multiset |
| GlobalHash.GetGlobalHashInputs | crates/turborepo-lib/src/run/global_hash.rs:43-66 | three fresh, pairwise distinct maps equal to `all`, `explicit` and `matching` of the breakdown; the snapshot is only read |
| GlobalHash.DefaultsOnlyAnalyticsId | crates/turborepo-lib/src/run/global_hash.rs:43 | the default list (line 15) resolves to the analytics variable with its snapshot value, or to nothing |
| GlobalHash.BreakdownProperties | crates/turborepo-lib/src/run/global_hash.rs:47-58 | no user-excluded name is in any map; `all`'s names are those of `explicit` and `matching`; both agree with `all`; every value is the snapshot's; `matching` holds at most the analytics variable |
| GlobalHash.ExplicitIsUserResolution | crates/turborepo-lib/src/run/global_hash.rs:52-54 | `explicit` is the user patterns resolved, with exclusion winning |
| GlobalHash.ExampleSelections | crates/turborepo-lib/src/run/global_hash.rs:45 | `["FOO", "!BAR"]` selects `FOO` to include and `BAR` to exclude |
| GlobalHash.ExampleBreakdown | crates/turborepo-lib/src/run/global_hash.rs:43-66 | for `{FOO: 1, BAR: 2, VERCEL_ANALYTICS_ID: x}`, `all` is `FOO` and the analytics variable, `explicit` is `FOO` and `matching` is the analytics variable |

## Left out

- `infer` (process environment): the snapshot is a parameter (`FromMap`, `envAtExecutionStart`).
- The regex crate's engine:
  - the joined text `^(r1|…|rn)$` is not built as a string;
  - the alternation is modelled as "some fragment fully matches" (`AlternationMatches`), over the fragments' own parse (`ParseFragment`).
- `Regex::new` failure and the crate's size limits: compilation is taken to succeed, and the `?` error paths are not modelled. For the crates/turborepo-env compiler this loses nothing, because every fragment it emits is proved to lie in the escaped sub-grammar (`WildcardToRegexPattern`). The env.rs compiler does not have this property: it turns `\*` into `^(*)$`, which `Regex::new` rejects, so on that copy the error path can be reached.
- The partition in crates/turborepo-lib/src/env.rs (lines 127, 132 and 135) calls that file's own compiler. The maps built from its patterns (`WildcardMapFromWildcards`, `FromWildcards`, `FromWildcardsUnresolved`) use the crates/turborepo-env compiler. They differ from the env.rs copy on patterns that contain `\*`.
- `GetGlobalHashInputs` uses the crates/turborepo-env compiler, although global_hash.rs:10 imports the env.rs copy through `crate::env`. Its results therefore differ from the code as written for `globalEnv` patterns that contain `\*`.
- The regex `.` does not match a line feed. The model's wildcard matches any run of characters, so names that contain a line feed are not modelled.
- `Sha256::digest` and the UTF-8 bytes of a value: SHA-256 of the value's text is a function parameter returning 32 bytes.
- `Deref`, `DerefMut` and `into_inner` (lib.rs:51-72): plumbing. The map is the field `vars`.
- The non-environment inputs of `get_global_hash_inputs` (global_hash.rs:31-41): lockfile, package manager, file dependencies, pass-through list, env mode, framework inference and dot-env files are unused there. The other fields of `GlobalHashableInputs` are left at their defaults and are not modelled.
- cli/internal/run/global_hash_rust.go only forwards to the Rust code.
- cli/internal/run/global_hash_test.go expects an empty `DetailedMap`, which the Rust assembly does not produce. Its placeholder case is not encoded.
- Byte versus character positions:
  - the scan counts characters but slices by byte offset;
  - the model indexes characters, which agrees with the source on ASCII pattern text only.
- Iteration order of `HashMap`: map iteration is a nondeterministic choice of the next key. Results are proved for every order.
- Both crates' `EnvironmentVariableMap` and `WildcardMaps` are modelled by one class each. The env.rs `resolve` is the separate method `WildcardMaps.ResolveCopy`.

## Findings

| source | as written | input that shows it | evidently intended | confidence | as-written member | corrected member |
|---|---|---|---|---|---|---|
| crates/turborepo-lib/src/env.rs:204-207 | the `\*` branch pushes `escape(run)` followed by a bare `*` | the pattern `A\*` compiles to `A*`, a regex that repeats `A` and does not match the name `A*` | `escape(run + "*")`, as in crates/turborepo-env/src/lib.rs:185-188: `A\*`, matching exactly `A*` | high (not executed) | Wildcard.BareStarCounterexample | Wildcard.WildcardToRegexPattern |
