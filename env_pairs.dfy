/**
 The `k=v` strings that stand for an environment map in task hashes
 (crates/turborepo-lib/src/env.rs): the plain form `k=v`, the secret form
 `k=<lowercase hex of SHA-256 of v>`, and the multiset of strings a
 transformer makes of a map's entries.  SHA-256 itself is a parameter.
 */
module Pairs {

  newtype byte = x: int | 0 <= x < 256

  /** A SHA-256 digest: 32 bytes. */
  type Digest = s: seq<byte> | |s| == 32 witness seq(32, i => 0 as byte)

  /** A lowercase hexadecimal digit. */
  predicate IsHexDigit(c: char)
  {
    '0' <= c <= '9' || 'a' <= c <= 'f'
  }

  /** The lowercase digit of a nibble. */
  function HexDigit(n: int): (c: char)
    requires 0 <= n < 16
    ensures IsHexDigit(c)
  {
    if n < 10 then ('0' as int + n) as char else ('a' as int + n - 10) as char
  }

  /** The value of a lowercase hexadecimal digit. */
  function HexValue(c: char): (n: int)
    requires IsHexDigit(c)
    ensures 0 <= n < 16 && HexDigit(n) == c
  {
    if '0' <= c <= '9' then c as int - '0' as int else c as int - 'a' as int + 10
  }

  lemma HexValueOfDigit(n: int)
    requires 0 <= n < 16
    ensures HexValue(HexDigit(n)) == n
  {
  }

  /** `{:x}` of a byte array: two lowercase digits per byte, high nibble first. */
  function Hex(d: seq<byte>): (h: string)
    ensures |h| == 2 * |d|
    ensures forall i :: 0 <= i < |h| ==> IsHexDigit(h[i])
  {
    if d == [] then []
    else [HexDigit(d[0] as int / 16), HexDigit(d[0] as int % 16)] + Hex(d[1..])
  }

  /** Reads lowercase hexadecimal text back into bytes. */
  function Unhex(h: string): (d: seq<byte>)
    requires |h| % 2 == 0
    requires forall i :: 0 <= i < |h| ==> IsHexDigit(h[i])
    ensures 2 * |d| == |h|
  {
    if h == [] then []
    else [(HexValue(h[0]) * 16 + HexValue(h[1])) as byte] + Unhex(h[2..])
  }

  /** The hex rendering loses nothing: it reads back as the same bytes. */
  lemma {:induction false} UnhexHex(d: seq<byte>)
    ensures Unhex(Hex(d)) == d
    decreases |d|
  {
    if d != [] {
      var h := Hex(d);
      var b := d[0] as int;
      assert h[0] == HexDigit(b / 16) && h[1] == HexDigit(b % 16) && h[2..] == Hex(d[1..]);
      HexValueOfDigit(b / 16);
      HexValueOfDigit(b % 16);
      assert (b / 16) * 16 + b % 16 == b;
      UnhexHex(d[1..]);
      assert d == [d[0]] + d[1..];
    }
  }

  /** `format!("{}={}", k, v)`. */
  function HashablePair(k: string, v: string): (r: string)
    ensures |r| == |k| + 1 + |v|
  {
    k + "=" + v
  }

  /**
   A name without `=` is recovered from its pair by cutting at the first
   `=`; the rest is the value.
   */
  lemma HashablePairSplits(k: string, v: string)
    requires forall i :: 0 <= i < |k| ==> k[i] != '='
    ensures var r := HashablePair(k, v);
      (forall i :: 0 <= i < |k| ==> r[i] != '=') && r[|k|] == '=' && r[..|k|] == k && r[|k| + 1..] == v
  {
  }

  /**
   The secret pair: `k=` for an empty value, otherwise `k=` followed by the
   64 lowercase hex digits of the value's digest.
   */
  function SecretPair(sha256: string -> Digest, k: string, v: string): (r: string)
    ensures |r| > |k| && r[..|k| + 1] == k + "="
    ensures v == [] ==> |r| == |k| + 1
    ensures v != [] ==> |r| == |k| + 1 + 64 && forall i :: |k| + 1 <= i < |r| ==> IsHexDigit(r[i])
  {
    if v != [] then k + "=" + Hex(sha256(v)) else k + "="
  }

  /** The digits of a secret pair are the digest of the value, and nothing else. */
  lemma SecretPairRecoversDigest(sha256: string -> Digest, k: string, v: string)
    requires v != []
    ensures var r := SecretPair(sha256, k, v);
      |r[|k| + 1..]| % 2 == 0 && Unhex(r[|k| + 1..]) == sha256(v)
  {
    var r := SecretPair(sha256, k, v);
    assert r[|k| + 1..] == Hex(sha256(v));
    UnhexHex(sha256(v));
  }

  /**
   The secret pair does not hide a value equal to its own name: the value
   stands in full at the head of the pair.
   */
  lemma SecretPairShowsNamedValue(sha256: string -> Digest, k: string)
    ensures var r := SecretPair(sha256, k, k); |r| > |k| && r[..|k|] == k
  {
    var r := SecretPair(sha256, k, k);
    assert r[..|k|] == r[..|k| + 1][..|k|];
  }

  /** The transformer of `to_hashable`. */
  function HashableTransformer(): (string, string) -> string
  {
    (k: string, v: string) => HashablePair(k, v)
  }

  /** The transformer of `to_secret_hashable`. */
  function SecretTransformer(sha256: string -> Digest): (string, string) -> string
  {
    (k: string, v: string) => SecretPair(sha256, k, v)
  }

  /** The transformed entries of `m` whose names are in `keys`, as a multiset. */
  ghost function ImageOver(m: map<string, string>, f: (string, string) -> string, keys: set<string>): multiset<string>
    requires keys <= m.Keys
    decreases keys
  {
    if keys == {} then multiset{}
    else
      var k :| k in keys;
      ImageOver(m, f, keys - {k}) + multiset{f(k, m[k])}
  }

  /** The transformed entries of `m`, as a multiset: one string per entry. */
  ghost function Image(m: map<string, string>, f: (string, string) -> string): multiset<string>
  {
    ImageOver(m, f, m.Keys)
  }

  /** Any entry can be taken out first: the image does not depend on the order. */
  lemma {:induction false} ImageOverRemove(m: map<string, string>, f: (string, string) -> string, keys: set<string>, k: string)
    requires k in keys && keys <= m.Keys
    ensures ImageOver(m, f, keys) == ImageOver(m, f, keys - {k}) + multiset{f(k, m[k])}
    decreases keys
  {
    var j :| j in keys && ImageOver(m, f, keys) == ImageOver(m, f, keys - {j}) + multiset{f(j, m[j])};
    if j != k {
      ImageOverRemove(m, f, keys - {j}, k);
      ImageOverRemove(m, f, keys - {k}, j);
      assert keys - {j} - {k} == keys - {k} - {j};
    }
  }

  /** The image of a map grown by one new entry. */
  lemma ImageAdd(m: map<string, string>, f: (string, string) -> string, k: string, v: string)
    requires k !in m
    ensures Image(m[k := v], f) == Image(m, f) + multiset{f(k, v)}
  {
    var m' := m[k := v];
    ImageOverRemove(m', f, m'.Keys, k);
    assert m'.Keys - {k} == m.Keys;
    ImageOverSame(m', m, f, m.Keys);
  }

  /** The image over one more key. */
  lemma ImageOverAdd(m: map<string, string>, f: (string, string) -> string, keys: set<string>, k: string)
    requires keys <= m.Keys && k in m && k !in keys
    ensures ImageOver(m, f, keys + {k}) == ImageOver(m, f, keys) + multiset{f(k, m[k])}
  {
    ImageOverRemove(m, f, keys + {k}, k);
    assert keys + {k} - {k} == keys;
  }

  /** The image over `keys` reads only the entries of those keys. */
  lemma {:induction false} ImageOverSame(m1: map<string, string>, m2: map<string, string>, f: (string, string) -> string, keys: set<string>)
    requires keys <= m1.Keys && keys <= m2.Keys
    requires forall k :: k in keys ==> m1[k] == m2[k]
    ensures ImageOver(m1, f, keys) == ImageOver(m2, f, keys)
    decreases keys
  {
    if keys != {} {
      var k :| k in keys;
      ImageOverRemove(m1, f, keys, k);
      ImageOverRemove(m2, f, keys, k);
      ImageOverSame(m1, m2, f, keys - {k});
    }
  }

  /** A string is in the image exactly when the transformer makes it of some entry. */
  lemma {:induction false} ImageOverMembers(m: map<string, string>, f: (string, string) -> string, keys: set<string>, s: string)
    requires keys <= m.Keys
    ensures s in ImageOver(m, f, keys) <==> exists k :: k in keys && s == f(k, m[k])
    decreases keys
  {
    if keys != {} {
      var k :| k in keys;
      ImageOverRemove(m, f, keys, k);
      ImageOverMembers(m, f, keys - {k}, s);
    }
  }
}
