/**
  The import map of the compiler: `ImportHashMap` is what a configuration
  file deserialises to (plain hash maps), and `ImportMap::from_hashmap`
  copies it into insertion-ordered maps, the top-level `imports` and one
  inner map per entry of `scopes`.

  An insertion-ordered map is its sequence of keys, in insertion order,
  together with the key-to-value map. The hash maps are iterated in an
  order nobody specifies, so each loop here takes its next key by choice
  from the keys not yet copied.
*/
module ImportMaps {
  import opened Strings

  /** An `IndexMap<String, V>`: distinct keys in insertion order, each with its value. */
  datatype IndexMap<V> = IndexMap(keys: seq<string>, entries: map<string, V>) {

    /** The keys are distinct and are exactly the keys that have a value. */
    predicate Valid() {
      && (forall i, j :: 0 <= i < j < |keys| ==> keys[i] != keys[j])
      && (forall k :: k in entries ==> k in keys)
      && (forall i :: 0 <= i < |keys| ==> keys[i] in entries)
    }

    function Get(k: string): (r: Option<V>)
      ensures r.Some? <==> k in entries
    {
      if k in entries then Some(entries[k]) else None
    }

    /**
      `insert`: a new key goes last; a key already present keeps its place
      and only its value changes.
    */
    function Insert(k: string, v: V): (r: IndexMap<V>)
      requires Valid()
      ensures r.Valid()
      ensures r.Get(k) == Some(v)
      ensures forall k' :: k' != k ==> r.Get(k') == Get(k')
      ensures k in entries ==> r.keys == keys
      ensures k !in entries ==> r.keys == keys + [k]
    {
      if k in entries then
        IndexMap(keys, entries[k := v])
      else
        AppendFreshKey(keys, k);
        IndexMap(keys + [k], entries[k := v])
    }
  }

  /** Appending a key not yet in a sequence of distinct keys keeps them distinct. */
  lemma AppendFreshKey(keys: seq<string>, k: string)
    requires forall i, j :: 0 <= i < j < |keys| ==> keys[i] != keys[j]
    requires k !in keys
    ensures forall i, j :: 0 <= i < j < |keys + [k]| ==> (keys + [k])[i] != (keys + [k])[j]
  {
  }

  function Empty<V>(): (r: IndexMap<V>)
    ensures r.Valid() && |r.keys| == 0 && r.entries == map[]
  {
    IndexMap([], map[])
  }

  /** Distinct keys: as many keys in the order as keys with a value. */
  lemma ValidSize<V>(m: IndexMap<V>)
    requires m.Valid()
    ensures |m.keys| == |m.entries|
  {
    DistinctSize(m.keys);
    assert m.entries.Keys == set k | k in m.keys;
  }

  lemma {:induction false} DistinctSize(s: seq<string>)
    requires forall i, j :: 0 <= i < j < |s| ==> s[i] != s[j]
    ensures |set k | k in s| == |s|
  {
    if s != [] {
      var t := s[..|s| - 1];
      DistinctSize(t);
      assert (set k | k in s) == (set k | k in t) + {s[|s| - 1]};
      assert s[|s| - 1] !in t by {
        forall i | 0 <= i < |t| ensures t[i] != s[|s| - 1] {
          assert t[i] == s[i];
        }
      }
    }
  }

  /** `ImportHashMap`. */
  datatype ImportHashMap = ImportHashMap(imports: map<string, string>, scopes: map<string, map<string, string>>)

  /** `ImportMap`. */
  datatype ImportMap = ImportMap(imports: IndexMap<string>, scopes: IndexMap<IndexMap<string>>)

  /** `ImportHashMap::default()`. */
  function DefaultImportHashMap(): (m: ImportHashMap)
    ensures |m.imports| == 0 && |m.scopes| == 0
  {
    ImportHashMap(map[], map[])
  }

  /** `dst` holds exactly the pairs of `src`. */
  predicate CopyOf(dst: IndexMap<string>, src: map<string, string>) {
    dst.Valid() && dst.entries == src
  }

  /** `r` holds exactly the pairs of `m`, scope by scope. */
  predicate Converted(r: ImportMap, m: ImportHashMap) {
    && CopyOf(r.imports, m.imports)
    && r.scopes.Valid()
    && r.scopes.entries.Keys == m.scopes.Keys
    && forall k :: k in m.scopes ==> CopyOf(r.scopes.entries[k], m.scopes[k])
  }

  /** The copy loop's invariant: the pairs outside `remaining` are copied. */
  ghost predicate PairsCopied(dst: IndexMap<string>, src: map<string, string>, remaining: set<string>) {
    && dst.Valid()
    && remaining <= src.Keys
    && dst.entries.Keys == src.Keys - remaining
    && forall k :: k in dst.entries ==> dst.entries[k] == src[k]
  }

  lemma PairsCopiedStep(dst: IndexMap<string>, src: map<string, string>, remaining: set<string>, k: string)
    requires PairsCopied(dst, src, remaining) && k in remaining
    ensures PairsCopied(dst.Insert(k, src[k]), src, remaining - {k})
  {
  }

  /** One copy loop: every pair of `src` inserted in turn into an empty map. */
  method CopyPairs(src: map<string, string>) returns (dst: IndexMap<string>)
    ensures CopyOf(dst, src)
    ensures |dst.keys| == |src|
  {
    dst := Empty();
    var remaining := src.Keys;
    while remaining != {}
      invariant PairsCopied(dst, src, remaining)
      decreases |remaining|
    {
      var k :| k in remaining;
      PairsCopiedStep(dst, src, remaining, k);
      dst := dst.Insert(k, src[k]);
      remaining := remaining - {k};
    }
    ValidSize(dst);
  }

  /** The outer loop's invariant: the scopes outside `remaining` are copied. */
  ghost predicate ScopesCopied(scopes: IndexMap<IndexMap<string>>, src: map<string, map<string, string>>, remaining: set<string>) {
    && scopes.Valid()
    && remaining <= src.Keys
    && scopes.entries.Keys == src.Keys - remaining
    && forall k :: k in scopes.entries ==> CopyOf(scopes.entries[k], src[k])
  }

  lemma ScopesCopiedStep(scopes: IndexMap<IndexMap<string>>, src: map<string, map<string, string>>, remaining: set<string>, k: string, inner: IndexMap<string>)
    requires ScopesCopied(scopes, src, remaining) && k in remaining && CopyOf(inner, src[k])
    ensures ScopesCopied(scopes.Insert(k, inner), src, remaining - {k})
  {
    var next := scopes.Insert(k, inner);
    forall k' | k' in next.entries ensures CopyOf(next.entries[k'], src[k']) {
      if k' != k {
        assert next.Get(k') == scopes.Get(k');
      }
    }
  }

  /** `ImportMap::from_hashmap`. */
  method FromHashMap(m: ImportHashMap) returns (r: ImportMap)
    ensures Converted(r, m)
    ensures |r.imports.keys| == |m.imports| && |r.scopes.keys| == |m.scopes|
    ensures forall k :: k in m.scopes ==> |r.scopes.entries[k].keys| == |m.scopes[k]|
  {
    var imports := CopyPairs(m.imports);
    var scopes: IndexMap<IndexMap<string>> := Empty();
    var remaining := m.scopes.Keys;
    while remaining != {}
      invariant ScopesCopied(scopes, m.scopes, remaining)
      decreases |remaining|
    {
      var k :| k in remaining;
      var inner := CopyPairs(m.scopes[k]);
      ScopesCopiedStep(scopes, m.scopes, remaining, k, inner);
      scopes := scopes.Insert(k, inner);
      remaining := remaining - {k};
    }
    r := ImportMap(imports, scopes);
    ConvertedKeepsSizes(r, m);
  }

  /** Converting the default hash map gives an import map with no imports and no scopes. */
  method FromDefault() returns (r: ImportMap)
    ensures r.imports.keys == [] && r.scopes.keys == []
    ensures r.imports.entries == map[] && r.scopes.entries == map[]
  {
    r := FromHashMap(DefaultImportHashMap());
  }

  /** Nothing is added: every key of the result, at either level, comes from the input with its value. */
  lemma ConvertedAddsNothing(r: ImportMap, m: ImportHashMap)
    requires Converted(r, m)
    ensures forall i :: 0 <= i < |r.imports.keys| ==> r.imports.keys[i] in m.imports
    ensures forall i :: 0 <= i < |r.scopes.keys| ==> r.scopes.keys[i] in m.scopes
    ensures forall k, v :: k in m.scopes && r.scopes.Get(k) == Some(v) ==>
              forall i :: 0 <= i < |v.keys| ==> v.keys[i] in m.scopes[k] && v.Get(v.keys[i]) == Some(m.scopes[k][v.keys[i]])
  {
  }

  /** Conversion keeps the sizes of both levels: no pair overwrites another. */
  lemma ConvertedKeepsSizes(r: ImportMap, m: ImportHashMap)
    requires Converted(r, m)
    ensures |r.imports.keys| == |m.imports| && |r.scopes.keys| == |m.scopes|
    ensures forall k :: k in m.scopes ==> |r.scopes.entries[k].keys| == |m.scopes[k]|
  {
    ValidSize(r.imports);
    ValidSize(r.scopes);
    forall k | k in m.scopes ensures |r.scopes.entries[k].keys| == |m.scopes[k]| {
      ValidSize(r.scopes.entries[k]);
    }
  }

  /** Conversion is determined up to order: two results hold the same pairs. */
  lemma ConvertedUniqueUpToOrder(r1: ImportMap, r2: ImportMap, m: ImportHashMap)
    requires Converted(r1, m) && Converted(r2, m)
    ensures r1.imports.entries == r2.imports.entries
    ensures r1.scopes.entries.Keys == r2.scopes.entries.Keys
    ensures forall k :: k in r1.scopes.entries ==> r1.scopes.entries[k].entries == r2.scopes.entries[k].entries
  {
  }

  /** Inserting a key already present changes neither the order nor the size. */
  lemma InsertExistingKeepsOrder<V>(m: IndexMap<V>, k: string, v: V)
    requires m.Valid() && k in m.entries
    ensures m.Insert(k, v).keys == m.keys
    ensures |m.Insert(k, v).entries| == |m.entries|
  {
    assert m.Insert(k, v).entries.Keys == m.entries.Keys;
  }
}
