/**
 Compiler from the wildcard dialect used for environment-variable names
 to regular-expression fragments (`wildcard_to_regex_pattern`).

 Dialect: `*` is a wildcard, a `*` whose preceding character is `\` is a
 literal asterisk (the backslash is dropped), and every other character is
 literal.  The meaning of a pattern is its atom list (`Tokenize`); the
 compiler's output is the regex text of that atom list (`Unparse`), and
 `ParseFragment` reads such text back, so the regex denotes exactly the
 pattern's atoms.
 */
module Wildcard {

  datatype Option<T> = None | Some(value: T)

  /** One unit of a compiled pattern: a literal character or the wildcard `.*`. */
  datatype Atom = Char(c: char) | Wild

  const WILDCARD: char := '*'
  const WILDCARD_ESCAPE: char := '\\'
  const REGEX_WILDCARD_SEGMENT: string := ".*"

  predicate NoWildcard(s: string)
  {
    forall i :: 0 <= i < |s| ==> s[i] != WILDCARD
  }

  /** No `*` in p[lo..hi]. */
  predicate NoWildcardBetween(p: string, lo: nat, hi: nat)
    requires lo <= hi <= |p|
  {
    forall j :: lo <= j < hi ==> p[j] != WILDCARD
  }

  lemma NoWildcardSlice(p: string, lo: nat, hi: nat)
    requires lo <= hi <= |p| && NoWildcardBetween(p, lo, hi)
    ensures NoWildcard(p[lo..hi])
  {
    assert forall j :: 0 <= j < hi - lo ==> p[lo..hi][j] == p[lo + j];
  }

  /** The characters that the regex crate's `escape` prefixes with a backslash. */
  predicate IsMeta(c: char)
  {
    || c == '\\' || c == '.' || c == '+' || c == '*' || c == '?' || c == '(' || c == ')'
    || c == '|' || c == '[' || c == ']' || c == '{' || c == '}' || c == '^' || c == '$'
    || c == '#' || c == '&' || c == '-' || c == '~'
  }

  /** Model of `regex::escape`: every metacharacter gets a backslash in front. */
  function Escape(s: string): (r: string)
    ensures |s| <= |r| <= 2 * |s|
    ensures s != [] ==> (r[0] == WILDCARD_ESCAPE <==> IsMeta(s[0]))
  {
    if s == [] then [] else (if IsMeta(s[0]) then [WILDCARD_ESCAPE, s[0]] else [s[0]]) + Escape(s[1..])
  }

  /**
   The meaning of a wildcard pattern as a list of atoms, read from the end
   the way the source looks back at the previous character.
   */
  function Tokenize(p: string): seq<Atom>
    decreases |p|
  {
    if p == [] then []
    else if p[|p| - 1] == WILDCARD && |p| >= 2 && p[|p| - 2] == WILDCARD_ESCAPE then
      Tokenize(p[..|p| - 2]) + [Char(WILDCARD)]
    else if p[|p| - 1] == WILDCARD then
      Tokenize(p[..|p| - 1]) + [Wild]
    else
      Tokenize(p[..|p| - 1]) + [Char(p[|p| - 1])]
  }

  /** A literal run as atoms. */
  function Chars(s: string): (t: seq<Atom>)
    ensures |t| == |s|
    ensures forall i :: 0 <= i < |s| ==> t[i] == Char(s[i])
  {
    seq(|s|, i requires 0 <= i < |s| => Char(s[i]))
  }

  /** The regex text of one atom. */
  function AtomText(a: Atom): string
  {
    match a
    case Char(c) => Escape([c])
    case Wild => REGEX_WILDCARD_SEGMENT
  }

  /** The regex text of an atom list. */
  function Unparse(t: seq<Atom>): string
  {
    if t == [] then [] else AtomText(t[0]) + Unparse(t[1..])
  }

  function Prepend(a: Atom, r: Option<seq<Atom>>): Option<seq<Atom>>
  {
    match r
    case None => None
    case Some(t) => Some([a] + t)
  }

  /**
   Reads the regex sub-grammar the compiler emits: `\m` for a metacharacter
   m, `.*`, and any non-metacharacter.  Anything else (a bare metacharacter,
   a lone `.`) is outside the sub-grammar and gives None.
   */
  function ParseFragment(r: string): Option<seq<Atom>>
    decreases |r|
  {
    if r == [] then Some([])
    else if r[0] == WILDCARD_ESCAPE then
      if |r| >= 2 && IsMeta(r[1]) then Prepend(Char(r[1]), ParseFragment(r[2..])) else None
    else if r[0] == '.' then
      if |r| >= 2 && r[1] == WILDCARD then Prepend(Wild, ParseFragment(r[2..])) else None
    else if IsMeta(r[0]) then None
    else Prepend(Char(r[0]), ParseFragment(r[1..]))
  }

  /** Full-match semantics of an atom list (the anchored `^...$` match). */
  predicate AtomsMatch(t: seq<Atom>, s: string)
    decreases |t|
  {
    if t == [] then s == []
    else match t[0]
      case Char(c) => |s| > 0 && s[0] == c && AtomsMatch(t[1..], s[1..])
      case Wild => exists k :: 0 <= k <= |s| && AtomsMatch(t[1..], s[k..])
  }

  /** A name fully matches a wildcard pattern body. */
  predicate Matches(body: string, name: string)
  {
    AtomsMatch(Tokenize(body), name)
  }

  /** Full match of a regex fragment produced by the compiler. */
  predicate FragmentMatches(f: string, name: string)
  {
    match ParseFragment(f)
    case Some(t) => AtomsMatch(t, name)
    case None => false
  }

  /** `join("")` of the pushed segments. */
  function Concat(pieces: seq<string>): (r: string)
    ensures r == [] <==> forall i :: 0 <= i < |pieces| ==> pieces[i] == []
  {
    if pieces == [] then [] else Concat(pieces[..|pieces| - 1]) + pieces[|pieces| - 1]
  }

  // ---------------------------------------------------------------------
  // Algebra of the rendering functions

  lemma {:induction false} EscapeAppend(a: string, b: string)
    ensures Escape(a + b) == Escape(a) + Escape(b)
    decreases |a|
  {
    if a == [] {
      assert a + b == b;
    } else {
      var head := if IsMeta(a[0]) then [WILDCARD_ESCAPE, a[0]] else [a[0]];
      assert (a + b)[0] == a[0];
      assert (a + b)[1..] == a[1..] + b;
      EscapeAppend(a[1..], b);
      calc {
        Escape(a + b);
        head + Escape(a[1..] + b);
        head + (Escape(a[1..]) + Escape(b));
        (head + Escape(a[1..])) + Escape(b);
        Escape(a) + Escape(b);
      }
    }
  }

  lemma {:induction false} UnparseAppend(a: seq<Atom>, b: seq<Atom>)
    ensures Unparse(a + b) == Unparse(a) + Unparse(b)
    decreases |a|
  {
    if a == [] {
      assert a + b == b;
    } else {
      assert (a + b)[0] == a[0];
      assert (a + b)[1..] == a[1..] + b;
      UnparseAppend(a[1..], b);
      calc {
        Unparse(a + b);
        AtomText(a[0]) + Unparse(a[1..] + b);
        AtomText(a[0]) + (Unparse(a[1..]) + Unparse(b));
        (AtomText(a[0]) + Unparse(a[1..])) + Unparse(b);
      }
    }
  }

  /** A literal run renders as its escape. */
  lemma {:induction false} UnparseChars(s: string)
    ensures Unparse(Chars(s)) == Escape(s)
    decreases |s|
  {
    if s != [] {
      var t := Chars(s);
      assert t[0] == Char(s[0]);
      assert t[1..] == Chars(s[1..]);
      UnparseChars(s[1..]);
      assert [s[0]][1..] == [];
      assert AtomText(t[0]) == Escape([s[0]]) == (if IsMeta(s[0]) then [WILDCARD_ESCAPE, s[0]] else [s[0]]) + [];
    }
  }

  /** Appending a run without `*` appends its characters as literal atoms. */
  lemma {:induction false} TokenizeAppendPlain(p: string, w: string)
    requires NoWildcard(w)
    ensures Tokenize(p + w) == Tokenize(p) + Chars(w)
    decreases |w|
  {
    if w == [] {
      assert p + w == p;
    } else {
      var w' := w[..|w| - 1];
      var pw := p + w;
      assert pw[|pw| - 1] == w[|w| - 1] != WILDCARD;
      assert pw[..|pw| - 1] == p + w';
      TokenizeAppendPlain(p, w');
      assert Chars(w) == Chars(w') + [Char(w[|w| - 1])];
    }
  }

  /**
   The atoms of a pattern prefix that ends with `\*` at index i, when the
   previous cut is at prev: the atoms up to the cut, the literal run, then
   a literal asterisk.
   */
  lemma TokenizeAtLiteralStar(p: string, prev: nat, i: nat)
    requires prev <= i < |p| && p[i] == WILDCARD && i >= 1 && p[i - 1] == WILDCARD_ESCAPE
    requires NoWildcardBetween(p, prev, i)
    requires prev == 0 || p[prev - 1] == WILDCARD
    ensures prev <= i - 1
    ensures Tokenize(p[..i + 1]) == Tokenize(p[..prev]) + Chars(p[prev..i - 1]) + [Char(WILDCARD)]
  {
    var q := p[..i + 1];
    assert q[|q| - 1] == WILDCARD;
    assert prev != i;
    assert q[|q| - 2] == WILDCARD_ESCAPE;
    assert q[..|q| - 2] == p[..prev] + p[prev..i - 1];
    NoWildcardSlice(p, prev, i - 1);
    TokenizeAppendPlain(p[..prev], p[prev..i - 1]);
  }

  /**
   The atoms of a pattern prefix that ends with an unescaped `*` at index
   i: the atoms up to the cut, the literal run, then a wildcard.
   */
  lemma TokenizeAtWildcard(p: string, prev: nat, i: nat)
    requires prev <= i < |p| && p[i] == WILDCARD && !(i >= 1 && p[i - 1] == WILDCARD_ESCAPE)
    requires NoWildcardBetween(p, prev, i)
    requires prev == 0 || p[prev - 1] == WILDCARD
    ensures Tokenize(p[..i + 1]) == Tokenize(p[..prev]) + Chars(p[prev..i]) + [Wild]
  {
    var q := p[..i + 1];
    assert q[|q| - 1] == WILDCARD;
    assert q[..|q| - 1] == p[..prev] + p[prev..i];
    NoWildcardSlice(p, prev, i);
    TokenizeAppendPlain(p[..prev], p[prev..i]);
  }

  /** Rendering atoms, a literal run and one more atom. */
  lemma UnparseRunThen(t: seq<Atom>, run: string, a: Atom)
    ensures Unparse(t + Chars(run) + [a]) == Unparse(t) + Escape(run) + AtomText(a)
  {
    UnparseAppend(t + Chars(run), [a]);
    UnparseAppend(t, Chars(run));
    UnparseChars(run);
    assert Unparse([a]) == AtomText(a) + Unparse([a][1..]);
    assert [a][1..] == [];
  }

  /** The regex text of a prefix ending in `\*`, from the text up to the previous cut. */
  lemma CompiledThroughLiteralStar(p: string, prev: nat, i: nat)
    requires prev <= i < |p| && p[i] == WILDCARD && i >= 1 && p[i - 1] == WILDCARD_ESCAPE
    requires NoWildcardBetween(p, prev, i)
    requires prev == 0 || p[prev - 1] == WILDCARD
    ensures prev <= i - 1
    ensures Unparse(Tokenize(p[..i + 1])) == Unparse(Tokenize(p[..prev])) + Escape(p[prev..i - 1] + [WILDCARD])
  {
    TokenizeAtLiteralStar(p, prev, i);
    var run := p[prev..i - 1];
    UnparseRunThen(Tokenize(p[..prev]), run, Char(WILDCARD));
    EscapeAppend(run, [WILDCARD]);
  }

  /** The regex text of a prefix ending in an unescaped `*`, from the text up to the previous cut. */
  lemma CompiledThroughWildcard(p: string, prev: nat, i: nat)
    requires prev <= i < |p| && p[i] == WILDCARD && !(i >= 1 && p[i - 1] == WILDCARD_ESCAPE)
    requires NoWildcardBetween(p, prev, i)
    requires prev == 0 || p[prev - 1] == WILDCARD
    ensures Unparse(Tokenize(p[..i + 1])) == Unparse(Tokenize(p[..prev])) + Escape(p[prev..i]) + REGEX_WILDCARD_SEGMENT
  {
    TokenizeAtWildcard(p, prev, i);
    UnparseRunThen(Tokenize(p[..prev]), p[prev..i], Wild);
  }

  /** The regex text of the whole pattern, from the text up to the last cut. */
  lemma CompiledThroughEnd(p: string, prev: nat)
    requires prev <= |p| && NoWildcardBetween(p, prev, |p|)
    ensures Unparse(Tokenize(p)) == Unparse(Tokenize(p[..prev])) + Escape(p[prev..])
  {
    NoWildcardSlice(p, prev, |p|);
    assert p[prev..] == p[prev..|p|];
    assert p == p[..prev] + p[prev..];
    TokenizeAppendPlain(p[..prev], p[prev..]);
    UnparseAppend(Tokenize(p[..prev]), Chars(p[prev..]));
    UnparseChars(p[prev..]);
  }

  lemma ConcatPush(pieces: seq<string>, x: string)
    ensures Concat(pieces + [x]) == Concat(pieces) + x
  {
    assert (pieces + [x])[..|pieces|] == pieces;
  }

  /**
   An escaped run never renders as the wildcard segment `.*`: its first
   character is either a non-metacharacter or a backslash.  So the
   adjacency test at crates/turborepo-env/src/lib.rs:196 always succeeds
   and adjacent wildcards are never collapsed.
   */
  lemma EscapeIsNeverWildcardSegment(s: string)
    ensures Escape(s) != REGEX_WILDCARD_SEGMENT
  {
    if s != [] {
      var e := Escape(s);
      assert e[0] == (if IsMeta(s[0]) then WILDCARD_ESCAPE else s[0]);
      assert e[0] != '.';
    }
  }

  // ---------------------------------------------------------------------
  // The compiler

  /**
   What the loop of `wildcard_to_regex_pattern` pushes for the `*` at
   index `i`: the escaped run and an escaped asterisk after a backslash,
   otherwise the escaped run (possibly empty) and `.*`.
   */
  method StarSegment(pattern: string, pieces: seq<string>, previousIndex: nat, previousChar: Option<char>, i: nat)
    returns (pieces': seq<string>)
    requires previousIndex <= i < |pattern| && pattern[i] == WILDCARD
    requires previousIndex == 0 || pattern[previousIndex - 1] == WILDCARD
    requires NoWildcardBetween(pattern, previousIndex, i)
    requires previousChar == if i == 0 then None else Some(pattern[i - 1])
    requires Concat(pieces) == Unparse(Tokenize(pattern[..previousIndex]))
    ensures Concat(pieces') == Unparse(Tokenize(pattern[..i + 1]))
  {
    if previousChar == Some(WILDCARD_ESCAPE) {
      // A literal `*`: the backslash is dropped and the asterisk escaped.
      var piece := Escape(pattern[previousIndex..i - 1] + [WILDCARD]);
      CompiledThroughLiteralStar(pattern, previousIndex, i);
      ConcatPush(pieces, piece);
      pieces' := pieces + [piece];
    } else {
      // A wildcard: the static run (possibly empty), then `.*`.
      var piece := Escape(pattern[previousIndex..i]);
      CompiledThroughWildcard(pattern, previousIndex, i);
      ConcatPush(pieces, piece);
      ConcatPush(pieces + [piece], REGEX_WILDCARD_SEGMENT);
      pieces' := pieces + [piece];
      EscapeIsNeverWildcardSegment(pattern[previousIndex..i]);
      if pieces'[|pieces'| - 1] != REGEX_WILDCARD_SEGMENT {
        pieces' := pieces' + [REGEX_WILDCARD_SEGMENT];
      }
    }
  }

  /**
   Models `wildcard_to_regex_pattern`: scans the pattern, pushing the
   escaped literal run before each `*` and then either `.*` (a wildcard)
   or a literal asterisk (after a backslash), and finally the last run.
   The result is the regex text of the pattern's atoms, and it reads back
   as exactly those atoms.
   */
  method WildcardToRegexPattern(pattern: string) returns (regex: string)
    ensures regex == Unparse(Tokenize(pattern))
    ensures ParseFragment(regex) == Some(Tokenize(pattern))
  {
    var pieces: seq<string> := [];
    var previousIndex := 0;
    var previousChar: Option<char> := None;
    var i := 0;
    while i < |pattern|
      invariant 0 <= previousIndex <= i <= |pattern|
      invariant previousIndex == 0 || pattern[previousIndex - 1] == WILDCARD
      invariant NoWildcardBetween(pattern, previousIndex, i)
      invariant previousChar == if i == 0 then None else Some(pattern[i - 1])
      invariant Concat(pieces) == Unparse(Tokenize(pattern[..previousIndex]))
    {
      var c := pattern[i];
      if c == WILDCARD {
        pieces := StarSegment(pattern, pieces, previousIndex, previousChar, i);
        previousIndex := i + 1;
      }
      previousChar := Some(c);
      i := i + 1;
    }
    var piece := Escape(pattern[previousIndex..]);
    CompiledThroughEnd(pattern, previousIndex);
    ConcatPush(pieces, piece);
    pieces := pieces + [piece];
    regex := Concat(pieces);
    ParseUnparse(Tokenize(pattern));
  }

  // ---------------------------------------------------------------------
  // The fragment grammar is unambiguous

  /** Reading past the text of one atom yields that atom. */
  lemma ParseAtomText(a: Atom, rest: string)
    ensures ParseFragment(AtomText(a) + rest) == Prepend(a, ParseFragment(rest))
  {
    var r := AtomText(a) + rest;
    match a
    case Wild =>
      assert r[..2] == ".*" && r[2..] == rest;
    case Char(c) =>
      if IsMeta(c) {
        assert AtomText(a) == [WILDCARD_ESCAPE, c] by {
          assert Escape([c]) == [WILDCARD_ESCAPE, c] + Escape([]);
        }
        assert r[0] == WILDCARD_ESCAPE && r[1] == c && r[2..] == rest;
      } else {
        assert AtomText(a) == [c] by {
          assert Escape([c]) == [c] + Escape([]);
        }
        assert r[0] == c && r[1..] == rest;
      }
  }

  /** Reading the rendered text of an atom list gives the atom list back. */
  lemma {:induction false} ParseUnparse(t: seq<Atom>)
    ensures ParseFragment(Unparse(t)) == Some(t)
    decreases |t|
  {
    if t != [] {
      ParseUnparse(t[1..]);
      ParseAtomText(t[0], Unparse(t[1..]));
      assert [t[0]] + t[1..] == t;
    }
  }

  /** The first atom read from a fragment is the rendering of its first `n` characters. */
  lemma ParsedHead(r: string, t: seq<Atom>) returns (n: nat)
    requires r != [] && ParseFragment(r) == Some(t)
    ensures 1 <= n <= |r| && t != []
    ensures ParseFragment(r[n..]) == Some(t[1..])
    ensures AtomText(t[0]) == r[..n]
  {
    n := if r[0] == WILDCARD_ESCAPE || r[0] == '.' then 2 else 1;
    if r[0] == WILDCARD_ESCAPE {
      assert t[0] == Char(r[1]) && IsMeta(r[1]);
      assert Escape([r[1]]) == [WILDCARD_ESCAPE, r[1]] + Escape([]);
    } else if r[0] == '.' {
      assert t[0] == Wild && r[1] == WILDCARD;
    } else {
      assert t[0] == Char(r[0]) && !IsMeta(r[0]);
      assert Escape([r[0]]) == [r[0]] + Escape([]);
    }
  }

  /** Only the rendering of an atom list parses to that atom list. */
  lemma {:induction false} ParsedIsUnparsed(r: string, t: seq<Atom>)
    requires ParseFragment(r) == Some(t)
    ensures r == Unparse(t)
    decreases |r|
  {
    if r == [] {
      assert t == [];
    } else {
      var n := ParsedHead(r, t);
      ParsedIsUnparsed(r[n..], t[1..]);
      assert Unparse(t) == AtomText(t[0]) + Unparse(t[1..]);
      assert r == r[..n] + r[n..];
    }
  }

  /** The compiled fragment matches exactly the names the pattern matches. */
  lemma FragmentMatchesPattern(body: string, name: string)
    ensures FragmentMatches(Unparse(Tokenize(body)), name) <==> Matches(body, name)
  {
    ParseUnparse(Tokenize(body));
  }

  // ---------------------------------------------------------------------
  // Compiled forms and matching behaviour

  /** A pattern without `*` compiles to the escape of the whole pattern. */
  lemma NoWildcardCompilesToEscape(p: string)
    requires NoWildcard(p)
    ensures Tokenize(p) == Chars(p)
    ensures Unparse(Tokenize(p)) == Escape(p)
  {
    TokenizeAppendPlain([], p);
    assert [] + p == p;
    UnparseChars(p);
  }

  lemma {:induction false} CharsMatchExactly(w: string, s: string)
    ensures AtomsMatch(Chars(w), s) <==> s == w
    decreases |w|
  {
    if w != [] {
      assert Chars(w)[1..] == Chars(w[1..]);
      CharsMatchExactly(w[1..], if |s| > 0 then s[1..] else s);
      if |s| > 0 && s[0] == w[0] && s[1..] == w[1..] {
        assert s == [s[0]] + s[1..];
        assert w == [w[0]] + w[1..];
      }
    } else {
      assert Chars(w) == [];
    }
  }

  /** A pattern without `*` matches exactly itself and nothing else. */
  lemma NoWildcardMatchesExactly(p: string, name: string)
    requires NoWildcard(p)
    ensures Matches(p, name) <==> name == p
  {
    NoWildcardCompilesToEscape(p);
    CharsMatchExactly(p, name);
  }

  /** The pattern `*` matches every name, the empty one included. */
  lemma StarMatchesEverything(name: string)
    ensures Matches("*", name)
  {
    assert Tokenize("*") == [Wild];
    assert AtomsMatch([], name[|name|..]);
  }

  /** `\*` is a literal asterisk: `A\*B` matches exactly `A*B`. */
  lemma EscapedStarIsLiteral(name: string)
    ensures Matches("A\\*B", name) <==> name == "A*B"
  {
    var p := "A\\*B";
    assert p[..|p| - 1] == "A\\*";
    assert "A\\*"[..1] == "A";
    assert "A"[..0] == [];
    assert Tokenize(p) == Chars("A*B");
    CharsMatchExactly("A*B", name);
  }

  /** Text without metacharacters is left as it is by the escape. */
  lemma {:induction false} EscapePlain(s: string)
    requires forall i :: 0 <= i < |s| ==> !IsMeta(s[i])
    ensures Escape(s) == s
    decreases |s|
  {
    if s != [] {
      EscapePlain(s[1..]);
      assert s == [s[0]] + s[1..];
    }
  }

  /** A literal asterisk is rendered as `\\*`. */
  lemma LiteralStarText()
    ensures Unparse([Char(WILDCARD)]) == [WILDCARD_ESCAPE, WILDCARD]
  {
    assert [Char(WILDCARD)][1..] == [];
    assert Escape([WILDCARD]) == [WILDCARD_ESCAPE, WILDCARD] + Escape([]);
  }

  /**
   A run without `*` followed by `\\*` compiles to the escaped run and an
   escaped asterisk (the source's `LITERAL_\\*` case, for every run).
   */
  lemma LiteralStarSuffix(w: string)
    requires NoWildcard(w)
    ensures Unparse(Tokenize(w + [WILDCARD_ESCAPE, WILDCARD])) == Escape(w) + [WILDCARD_ESCAPE, WILDCARD]
  {
    var p := w + [WILDCARD_ESCAPE, WILDCARD];
    assert p[..|p| - 2] == w;
    NoWildcardCompilesToEscape(w);
    assert Tokenize(p) == Chars(w) + [Char(WILDCARD)];
    UnparseAppend(Chars(w), [Char(WILDCARD)]);
    LiteralStarText();
  }

  /** The `LITERAL_\*` case: it compiles to itself. */
  lemma LiteralStarTestCase()
    ensures Unparse(Tokenize("LITERAL_\\*")) == "LITERAL_\\*"
  {
    var w := "LITERAL_";
    assert NoWildcard(w);
    EscapePlain(w);
    assert w + [WILDCARD_ESCAPE, WILDCARD] == "LITERAL_\\*";
    LiteralStarSuffix(w);
  }

  lemma TokenizeStars()
    ensures Tokenize("*") == [Wild]
    ensures Tokenize("**") == [Wild, Wild]
  {
    assert "*"[..0] == [];
    assert "**"[..1] == "*";
  }

  /** `**` is not collapsed: it compiles to `.*.*`, which means the same as `.*`. */
  lemma DoubleStar(name: string)
    ensures Unparse(Tokenize("**")) == ".*.*"
    ensures Matches("**", name) <==> Matches("*", name)
  {
    TokenizeStars();
    assert Unparse([Wild, Wild]) == ".*.*" by {
      assert [Wild, Wild][1..] == [Wild];
      assert [Wild][1..] == [];
    }
    AdjacentWildcards([], name);
    assert [Wild, Wild] + [] == [Wild, Wild];
    assert [Wild] + [] == [Wild];
  }

  /** Two adjacent wildcards accept exactly what one accepts. */
  lemma AdjacentWildcards(t: seq<Atom>, s: string)
    ensures AtomsMatch([Wild, Wild] + t, s) <==> AtomsMatch([Wild] + t, s)
  {
    var two := [Wild, Wild] + t;
    var one := [Wild] + t;
    assert two[1..] == one;
    assert one[1..] == t;
    if AtomsMatch(two, s) {
      var k1 :| 0 <= k1 <= |s| && AtomsMatch(one, s[k1..]);
      var k2 :| 0 <= k2 <= |s[k1..]| && AtomsMatch(t, s[k1..][k2..]);
      assert s[k1..][k2..] == s[k1 + k2..];
    }
    if AtomsMatch(one, s) {
      assert s[0..] == s;
    }
  }

  /** The atoms of the pattern `A*B*C`, built one character at a time. */
  lemma TokenizeInner()
    ensures Tokenize("A*B*C") == [Char('A'), Wild, Char('B'), Wild, Char('C')]
  {
    assert "A"[..0] == [];
    assert Tokenize("A") == [Char('A')];
    assert "A*"[..1] == "A";
    assert Tokenize("A*") == [Char('A'), Wild];
    assert "A*B"[..2] == "A*";
    assert Tokenize("A*B") == [Char('A'), Wild, Char('B')];
    assert "A*B*"[..3] == "A*B";
    assert Tokenize("A*B*") == [Char('A'), Wild, Char('B'), Wild];
    assert "A*B*C"[..4] == "A*B*";
  }

  /** `A*B*C` matches `A`, anything, `B`, anything, `C`. */
  lemma InnerLiteralMatches(x: string, y: string)
    ensures Matches("A*B*C", "A" + x + "B" + y + "C")
  {
    TokenizeInner();
    var t := [Char('A'), Wild, Char('B'), Wild, Char('C')];
    var s := "A" + x + "B" + y + "C";
    var s1 := s[1..];
    assert s1 == x + "B" + y + "C";
    var s2 := s1[|x|..];
    assert s2 == "B" + y + "C";
    var s3 := s2[1..];
    assert s3 == y + "C";
    var s4 := s3[|y|..];
    assert s4 == "C";
    assert AtomsMatch(t[5..], s4[1..]) by { assert t[5..] == []; assert s4[1..] == []; }
    assert t[4..][1..] == t[5..];
    assert AtomsMatch(t[4..], s4);
    assert t[3..][1..] == t[4..];
    assert AtomsMatch(t[3..], s3);
    assert t[2..][1..] == t[3..];
    assert AtomsMatch(t[2..], s2);
    assert t[1..][1..] == t[2..];
    assert AtomsMatch(t[1..], s1);
    assert t[0..][1..] == t[1..] && t[0..] == t;
  }

  /** `A*B*C` needs its middle `B`: it rejects `AXC`. */
  lemma InnerLiteralRequired()
    ensures !Matches("A*B*C", "AXC")
  {
    TokenizeInner();
    var t := [Char('A'), Wild, Char('B'), Wild, Char('C')];
    var s1 := "AXC"[1..];
    assert s1 == "XC";
    forall k | 0 <= k <= |s1|
      ensures !AtomsMatch(t[2..], s1[k..])
    {
      if k == 0 { assert s1[k..][0] == 'X'; }
      else if k == 1 { assert s1[k..][0] == 'C'; }
      else { assert s1[k..] == []; }
    }
    assert t[1..][1..] == t[2..];
  }

  // ---------------------------------------------------------------------
  // The copy in crates/turborepo-lib/src/env.rs, as written

  /** The regex text of one atom when a literal asterisk is emitted bare. */
  function BareStarAtomText(a: Atom): string
  {
    match a
    case Char(c) => if c == WILDCARD then [WILDCARD] else Escape([c])
    case Wild => REGEX_WILDCARD_SEGMENT
  }

  /** The regex text of an atom list when a literal asterisk is emitted bare. */
  function UnparseBareStar(t: seq<Atom>): string
  {
    if t == [] then [] else BareStarAtomText(t[0]) + UnparseBareStar(t[1..])
  }

  lemma {:induction false} UnparseBareStarAppend(a: seq<Atom>, b: seq<Atom>)
    ensures UnparseBareStar(a + b) == UnparseBareStar(a) + UnparseBareStar(b)
    decreases |a|
  {
    if a == [] {
      assert a + b == b;
    } else {
      assert (a + b)[0] == a[0];
      assert (a + b)[1..] == a[1..] + b;
      UnparseBareStarAppend(a[1..], b);
      calc {
        UnparseBareStar(a + b);
        BareStarAtomText(a[0]) + UnparseBareStar(a[1..] + b);
        BareStarAtomText(a[0]) + (UnparseBareStar(a[1..]) + UnparseBareStar(b));
        (BareStarAtomText(a[0]) + UnparseBareStar(a[1..])) + UnparseBareStar(b);
      }
    }
  }

  /** Without literal asterisks both renderings agree. */
  lemma {:induction false} BareStarAgrees(t: seq<Atom>)
    requires forall i :: 0 <= i < |t| ==> t[i] != Char(WILDCARD)
    ensures UnparseBareStar(t) == Unparse(t)
    decreases |t|
  {
    if t != [] {
      BareStarAgrees(t[1..]);
    }
  }

  /** Each literal asterisk costs the bare rendering one backslash. */
  lemma {:induction false} BareStarLength(t: seq<Atom>)
    ensures |Unparse(t)| == |UnparseBareStar(t)| + multiset(t)[Char(WILDCARD)]
    decreases |t|
  {
    if t != [] {
      BareStarLength(t[1..]);
      assert t == [t[0]] + t[1..];
      assert multiset(t) == multiset([t[0]]) + multiset(t[1..]);
      if t[0] == Char(WILDCARD) {
        assert AtomText(t[0]) == [WILDCARD_ESCAPE, WILDCARD] + Escape([]);
      }
    }
  }

  /** No `*` of the pattern has a backslash just before it. */
  predicate NoEscapedStar(p: string)
  {
    forall i :: 0 < i < |p| && p[i] == WILDCARD ==> p[i - 1] != WILDCARD_ESCAPE
  }

  /** A pattern without an escaped `*` has no literal-asterisk atom. */
  lemma {:induction false} NoLiteralStarAtoms(p: string)
    requires NoEscapedStar(p)
    ensures Char(WILDCARD) !in Tokenize(p)
    decreases |p|
  {
    if p != [] {
      var q := p[..|p| - 1];
      assert NoEscapedStar(q) by {
        forall i | 0 < i < |q| && q[i] == WILDCARD
          ensures q[i - 1] != WILDCARD_ESCAPE
        {
          assert q[i] == p[i] && q[i - 1] == p[i - 1];
        }
      }
      NoLiteralStarAtoms(q);
      if p[|p| - 1] == WILDCARD && |p| >= 2 {
        assert p[|p| - 2] != WILDCARD_ESCAPE;
      }
    }
  }

  /** An escaped `*` anywhere in the pattern becomes a literal-asterisk atom. */
  lemma {:induction false} EscapedStarIsLiteralAtom(p: string, i: nat)
    requires 0 < i < |p| && p[i] == WILDCARD && p[i - 1] == WILDCARD_ESCAPE
    ensures Char(WILDCARD) in Tokenize(p)
    decreases |p|
  {
    if i < |p| - 1 {
      if p[|p| - 1] == WILDCARD && p[|p| - 2] == WILDCARD_ESCAPE {
        var q := p[..|p| - 2];
        assert i != |p| - 2;
        assert q[i] == p[i] && q[i - 1] == p[i - 1];
        EscapedStarIsLiteralAtom(q, i);
      } else {
        var q := p[..|p| - 1];
        assert q[i] == p[i] && q[i - 1] == p[i - 1];
        EscapedStarIsLiteralAtom(q, i);
      }
    }
  }

  /**
   The env.rs compiler and the crates/turborepo-env compiler produce the
   same regex text exactly for the patterns without an escaped `*`.
   */
  lemma BareStarAgreesExactly(p: string)
    ensures UnparseBareStar(Tokenize(p)) == Unparse(Tokenize(p)) <==> NoEscapedStar(p)
  {
    if NoEscapedStar(p) {
      NoLiteralStarAtoms(p);
      BareStarAgrees(Tokenize(p));
    } else {
      var i :| 0 < i < |p| && p[i] == WILDCARD && p[i - 1] == WILDCARD_ESCAPE;
      EscapedStarIsLiteralAtom(p, i);
      BareStarLength(Tokenize(p));
    }
  }

  /** Runs without `*` render the same either way. */
  lemma UnparseBareStarChars(s: string)
    requires NoWildcard(s)
    ensures UnparseBareStar(Chars(s)) == Escape(s)
  {
    BareStarAgrees(Chars(s));
    UnparseChars(s);
  }

  lemma BareStarRunThen(t: seq<Atom>, run: string, a: Atom)
    requires NoWildcard(run)
    ensures UnparseBareStar(t + Chars(run) + [a]) == UnparseBareStar(t) + Escape(run) + BareStarAtomText(a)
  {
    UnparseBareStarAppend(t + Chars(run), [a]);
    UnparseBareStarAppend(t, Chars(run));
    UnparseBareStarChars(run);
    assert UnparseBareStar([a]) == BareStarAtomText(a) + UnparseBareStar([a][1..]);
    assert [a][1..] == [];
  }

  lemma BareStarThroughLiteralStar(p: string, prev: nat, i: nat)
    requires prev <= i < |p| && p[i] == WILDCARD && i >= 1 && p[i - 1] == WILDCARD_ESCAPE
    requires NoWildcardBetween(p, prev, i)
    requires prev == 0 || p[prev - 1] == WILDCARD
    ensures prev <= i - 1
    ensures UnparseBareStar(Tokenize(p[..i + 1])) == UnparseBareStar(Tokenize(p[..prev])) + (Escape(p[prev..i - 1]) + [WILDCARD])
  {
    TokenizeAtLiteralStar(p, prev, i);
    NoWildcardSlice(p, prev, i - 1);
    BareStarRunThen(Tokenize(p[..prev]), p[prev..i - 1], Char(WILDCARD));
  }

  lemma BareStarThroughWildcard(p: string, prev: nat, i: nat)
    requires prev <= i < |p| && p[i] == WILDCARD && !(i >= 1 && p[i - 1] == WILDCARD_ESCAPE)
    requires NoWildcardBetween(p, prev, i)
    requires prev == 0 || p[prev - 1] == WILDCARD
    ensures UnparseBareStar(Tokenize(p[..i + 1])) == UnparseBareStar(Tokenize(p[..prev])) + Escape(p[prev..i]) + REGEX_WILDCARD_SEGMENT
  {
    TokenizeAtWildcard(p, prev, i);
    NoWildcardSlice(p, prev, i);
    BareStarRunThen(Tokenize(p[..prev]), p[prev..i], Wild);
  }

  lemma BareStarThroughEnd(p: string, prev: nat)
    requires prev <= |p| && NoWildcardBetween(p, prev, |p|)
    ensures UnparseBareStar(Tokenize(p)) == UnparseBareStar(Tokenize(p[..prev])) + Escape(p[prev..])
  {
    NoWildcardSlice(p, prev, |p|);
    assert p[prev..] == p[prev..|p|];
    assert p == p[..prev] + p[prev..];
    TokenizeAppendPlain(p[..prev], p[prev..]);
    UnparseBareStarAppend(Tokenize(p[..prev]), Chars(p[prev..]));
    UnparseBareStarChars(p[prev..]);
  }

  /** What the env.rs loop pushes for the `*` at index `i`. */
  method BareStarSegment(pattern: string, pieces: seq<string>, previousIndex: nat, previousChar: Option<char>, i: nat)
    returns (pieces': seq<string>)
    requires previousIndex <= i < |pattern| && pattern[i] == WILDCARD
    requires previousIndex == 0 || pattern[previousIndex - 1] == WILDCARD
    requires NoWildcardBetween(pattern, previousIndex, i)
    requires previousChar == if i == 0 then None else Some(pattern[i - 1])
    requires Concat(pieces) == UnparseBareStar(Tokenize(pattern[..previousIndex]))
    ensures Concat(pieces') == UnparseBareStar(Tokenize(pattern[..i + 1]))
  {
    if previousChar == Some(WILDCARD_ESCAPE) {
      var piece := Escape(pattern[previousIndex..i - 1]) + [WILDCARD];
      BareStarThroughLiteralStar(pattern, previousIndex, i);
      ConcatPush(pieces, piece);
      pieces' := pieces + [piece];
    } else {
      var piece := Escape(pattern[previousIndex..i]);
      BareStarThroughWildcard(pattern, previousIndex, i);
      ConcatPush(pieces, piece);
      ConcatPush(pieces + [piece], REGEX_WILDCARD_SEGMENT);
      pieces' := pieces + [piece];
      EscapeIsNeverWildcardSegment(pattern[previousIndex..i]);
      if pieces'[|pieces'| - 1] != REGEX_WILDCARD_SEGMENT {
        pieces' := pieces' + [REGEX_WILDCARD_SEGMENT];
      }
    }
  }

  /**
   The compiler as written in crates/turborepo-lib/src/env.rs: on `\*` it
   appends the escaped run followed by a bare, unescaped `*`.  Its `else`
   arm at env.rs:218-220 cannot run, since a segment was pushed just before.
   */
  method WildcardToRegexPatternBareStar(pattern: string) returns (regex: string)
    ensures regex == UnparseBareStar(Tokenize(pattern))
  {
    var pieces: seq<string> := [];
    var previousIndex := 0;
    var previousChar: Option<char> := None;
    var i := 0;
    while i < |pattern|
      invariant 0 <= previousIndex <= i <= |pattern|
      invariant previousIndex == 0 || pattern[previousIndex - 1] == WILDCARD
      invariant NoWildcardBetween(pattern, previousIndex, i)
      invariant previousChar == if i == 0 then None else Some(pattern[i - 1])
      invariant Concat(pieces) == UnparseBareStar(Tokenize(pattern[..previousIndex]))
    {
      var c := pattern[i];
      if c == WILDCARD {
        pieces := BareStarSegment(pattern, pieces, previousIndex, previousChar, i);
        previousIndex := i + 1;
      }
      previousChar := Some(c);
      i := i + 1;
    }
    var piece := Escape(pattern[previousIndex..]);
    BareStarThroughEnd(pattern, previousIndex);
    ConcatPush(pieces, piece);
    pieces := pieces + [piece];
    regex := Concat(pieces);
  }

  /**
   On `A\*` the env.rs copy emits `A*`, a regex whose `*` repeats the `A`
   (it matches the empty name and `AA`, not `A*`); it lies outside the
   escaped sub-grammar, whereas the crates/turborepo-env copy emits `A\*`.
   */
  lemma BareStarCounterexample()
    ensures UnparseBareStar(Tokenize("A\\*")) == "A*"
    ensures ParseFragment("A*") == None
    ensures Unparse(Tokenize("A\\*")) == "A\\*"
    ensures Matches("A\\*", "A*")
  {
    var p := "A\\*";
    assert p[..|p| - 2] == "A";
    assert "A"[..0] == [];
    assert Tokenize(p) == [Char('A'), Char('*')];
    assert Tokenize(p) == Chars("A*");
    CharsMatchExactly("A*", "A*");
  }
}
