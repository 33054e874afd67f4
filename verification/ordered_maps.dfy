/**
 * Insertion-ordered maps: the shape of Python's dict and OrderedDict, whose
 * iteration order is the order in which keys were first inserted.
 */
module OrderedMaps {

  /** No element of s occurs twice. */
  predicate Distinct<T(==)>(s: seq<T>) {
    forall i, j | 0 <= i < j < |s| :: s[i] != s[j]
  }

  /** The elements of ks that are not keys of m, in the order of ks. */
  function Absent<K(==), V>(ks: seq<K>, m: map<K, V>): seq<K>
  {
    if ks == [] then []
    else if ks[0] in m then Absent(ks[1..], m)
    else [ks[0]] + Absent(ks[1..], m)
  }

  /** Giving m a key that ks does not list changes nothing about Absent(ks, m). */
  lemma {:induction false} AbsentIgnoresOtherKeys<K, V>(ks: seq<K>, m: map<K, V>, k: K, v: V)
    requires k !in ks
    ensures Absent(ks, m[k := v]) == Absent(ks, m)
  {
    if ks != [] {
      AbsentIgnoresOtherKeys(ks[1..], m, k, v);
    }
  }

  /** Absent(ks, m) holds exactly the elements of ks that are not keys of m. */
  lemma {:induction false} AbsentMembers<K, V>(ks: seq<K>, m: map<K, V>)
    ensures forall k | k in Absent(ks, m) :: k in ks && k !in m
    ensures forall k | k in ks && k !in m :: k in Absent(ks, m)
  {
    if ks != [] {
      AbsentMembers(ks[1..], m);
      assert ks == [ks[0]] + ks[1..];
    }
  }

  /** When every element of ks is a key of m, nothing is absent. */
  lemma {:induction false} AbsentOfKeys<K, V>(ks: seq<K>, m: map<K, V>)
    requires forall k | k in ks :: k in m
    ensures Absent(ks, m) == []
  {
    if ks != [] {
      assert ks[0] in ks;
      AbsentOfKeys(ks[1..], m);
    }
  }

  /** Filtering keeps the elements of a sequence without repeats distinct. */
  lemma {:induction false} AbsentDistinct<K, V>(ks: seq<K>, m: map<K, V>)
    requires Distinct(ks)
    ensures Distinct(Absent(ks, m))
  {
    if ks != [] {
      assert Distinct(ks[1..]) by {
        forall i, j | 0 <= i < j < |ks| - 1 ensures ks[1..][i] != ks[1..][j] {
          assert ks[1..][i] == ks[i + 1] && ks[1..][j] == ks[j + 1];
        }
      }
      AbsentDistinct(ks[1..], m);
      AbsentMembers(ks[1..], m);
      if ks[0] !in m {
        var rest := Absent(ks[1..], m);
        assert ks[0] !in rest by {
          forall i | 1 <= i < |ks| ensures ks[i] != ks[0] {
          }
        }
        DistinctCons(ks[0], rest);
      }
    }
  }

  /** Putting a new element in front of a sequence without repeats keeps it so. */
  lemma DistinctCons<T>(x: T, s: seq<T>)
    requires Distinct(s) && x !in s
    ensures Distinct([x] + s)
  {
    forall i, j | 0 <= i < j < |s| + 1 ensures ([x] + s)[i] != ([x] + s)[j] {
      if i == 0 {
        assert ([x] + s)[j] == s[j - 1];
      } else {
        assert ([x] + s)[i] == s[i - 1] && ([x] + s)[j] == s[j - 1];
      }
    }
  }

  /** Two sequences without repeats and with no element in common concatenate to one. */
  lemma DistinctConcat<T>(a: seq<T>, b: seq<T>)
    requires Distinct(a) && Distinct(b)
    requires forall x | x in a :: x !in b
    ensures Distinct(a + b)
  {
    forall i, j | 0 <= i < j < |a| + |b| ensures (a + b)[i] != (a + b)[j] {
      if j < |a| {
      } else if i < |a| {
        assert (a + b)[i] in a && (a + b)[j] == b[j - |a|];
      } else {
        assert (a + b)[i] == b[i - |a|] && (a + b)[j] == b[j - |a|];
      }
    }
  }

  /** The keys of a list of key-value pairs, in order. */
  function KeysOf<K, V>(kvs: seq<(K, V)>): (ks: seq<K>)
    ensures |ks| == |kvs| && forall i | 0 <= i < |kvs| :: ks[i] == kvs[i].0
  {
    if kvs == [] then [] else [kvs[0].0] + KeysOf(kvs[1..])
  }

  /** The pairs of ks and vs, position by position. */
  function Zip<K, V>(ks: seq<K>, vs: seq<V>): (kvs: seq<(K, V)>)
    requires |ks| == |vs|
    ensures KeysOf(kvs) == ks
    ensures |kvs| == |vs| && forall i | 0 <= i < |vs| :: kvs[i].1 == vs[i]
  {
    if ks == [] then [] else [(ks[0], vs[0])] + Zip(ks[1..], vs[1..])
  }

  /** keys lists the domain of entries, each key once, in insertion order. */
  datatype OMap<K(==), V> = OMap(keys: seq<K>, entries: map<K, V>) {

    predicate Valid() {
      && Distinct(keys)
      && (forall k | k in keys :: k in entries)
      && (forall k | k in entries :: k in keys)
    }

    /** d[k] = v: a present key keeps its position, a new key goes last. */
    function Put(k: K, v: V): (r: OMap<K, V>)
      requires Valid()
      ensures r.Valid()
      ensures r.entries == entries[k := v]
      ensures k in entries ==> r.keys == keys
      ensures k !in entries ==> r.keys == keys + [k]
    {
      if k in entries then OMap(keys, entries[k := v])
      else OMap(keys + [k], entries[k := v])
    }

    /**
     * `for k in ks: if k not in d: d[k] = values[k]`: each missing key is
     * added with its value from values, after the existing keys and in the
     * order of ks.
     */
    function Extend(ks: seq<K>, values: map<K, V>): (r: OMap<K, V>)
      requires Valid() && Distinct(ks)
      requires forall k | k in ks && k !in entries :: k in values
      ensures r.Valid()
      ensures forall k | k in entries :: k in r.entries && r.entries[k] == entries[k]
      ensures forall k | k in ks && k !in entries :: k in r.entries && r.entries[k] == values[k]
      ensures forall k | k in r.entries :: k in entries || k in ks
      ensures r.keys == keys + Absent(ks, entries)
    {
      AbsentMembers(ks, entries);
      AbsentDistinct(ks, entries);
      DistinctConcat(keys, Absent(ks, entries));
      var added := map k | k in ks && k !in entries :: values[k];
      OMap(keys + Absent(ks, entries), entries + added)
    }

    /**
     * `for k, v in kvs: d[k] = v`, with each key given once; what it
     * computes is stated by PutAllSets below.
     */
    function PutAll(kvs: seq<(K, V)>): (r: OMap<K, V>)
      requires Valid() && Distinct(KeysOf(kvs))
      ensures r.Valid()
      decreases |kvs|
    {
      if kvs == [] then this
      else
        DistinctTail(KeysOf(kvs));
        assert KeysOf(kvs[1..]) == KeysOf(kvs)[1..];
        Put(kvs[0].0, kvs[0].1).PutAll(kvs[1..])
    }
  }

  /** The first key of kvs is not among the others. */
  lemma FirstKeyOnce<K, V>(kvs: seq<(K, V)>)
    requires kvs != [] && Distinct(KeysOf(kvs))
    ensures KeysOf(kvs[1..]) == KeysOf(kvs)[1..]
    ensures Distinct(KeysOf(kvs[1..]))
    ensures kvs[0].0 !in KeysOf(kvs[1..])
  {
    var ks := KeysOf(kvs);
    assert KeysOf(kvs[1..]) == ks[1..];
    DistinctTail(ks);
    forall i | 0 <= i < |ks| - 1 ensures ks[1..][i] != ks[0] {
      assert ks[1..][i] == ks[i + 1];
    }
  }

  /** Every pair's value is set. */
  lemma {:induction false} PutAllSets<K, V>(m: OMap<K, V>, kvs: seq<(K, V)>, i: nat)
    requires m.Valid() && Distinct(KeysOf(kvs)) && i < |kvs|
    ensures kvs[i].0 in m.PutAll(kvs).entries && m.PutAll(kvs).entries[kvs[i].0] == kvs[i].1
    decreases |kvs|
  {
    FirstKeyOnce(kvs);
    var m1 := m.Put(kvs[0].0, kvs[0].1);
    if i == 0 {
      PutAllKeeps(m1, kvs[1..], kvs[0].0);
    } else {
      assert kvs[1..][i - 1] == kvs[i];
      PutAllSets(m1, kvs[1..], i - 1);
    }
  }

  /** A key kvs does not give keeps its presence and value. */
  lemma {:induction false} PutAllKeeps<K, V>(m: OMap<K, V>, kvs: seq<(K, V)>, k: K)
    requires m.Valid() && Distinct(KeysOf(kvs)) && k !in KeysOf(kvs)
    ensures k in m.PutAll(kvs).entries <==> k in m.entries
    ensures k in m.entries ==> m.PutAll(kvs).entries[k] == m.entries[k]
    decreases |kvs|
  {
    if kvs != [] {
      FirstKeyOnce(kvs);
      assert KeysOf(kvs)[0] == kvs[0].0;
      PutAllKeeps(m.Put(kvs[0].0, kvs[0].1), kvs[1..], k);
    }
  }

  /** Keys not there before go last, in the order of kvs. */
  lemma {:induction false} PutAllOrder<K, V>(m: OMap<K, V>, kvs: seq<(K, V)>)
    requires m.Valid() && Distinct(KeysOf(kvs))
    ensures m.PutAll(kvs).keys == m.keys + Absent(KeysOf(kvs), m.entries)
    decreases |kvs|
  {
    if kvs != [] {
      var ks := KeysOf(kvs);
      FirstKeyOnce(kvs);
      var m1 := m.Put(kvs[0].0, kvs[0].1);
      var added := if kvs[0].0 in m.entries then [] else [kvs[0].0];
      assert m1.keys == m.keys + added;
      assert Absent(ks, m.entries) == added + Absent(ks[1..], m.entries);
      PutAllOrder(m1, kvs[1..]);
      AbsentIgnoresOtherKeys(ks[1..], m.entries, kvs[0].0, kvs[0].1);
      assert m.PutAll(kvs) == m1.PutAll(kvs[1..]);
      ConcatAssoc(m.keys, added, Absent(ks[1..], m.entries));
    }
  }

  lemma ConcatAssoc<T>(a: seq<T>, b: seq<T>, c: seq<T>)
    ensures a + b + c == a + (b + c)
  {
  }

  /** Dropping the first element keeps a sequence without repeats so. */
  lemma DistinctTail<T>(s: seq<T>)
    requires Distinct(s) && s != []
    ensures Distinct(s[1..])
  {
    forall i, j | 0 <= i < j < |s| - 1 ensures s[1..][i] != s[1..][j] {
      assert s[1..][i] == s[i + 1] && s[1..][j] == s[j + 1];
    }
  }

  /** Setting the same pairs a second time changes nothing. */
  lemma PutAllIdempotent<K, V>(m: OMap<K, V>, kvs: seq<(K, V)>)
    requires m.Valid() && Distinct(KeysOf(kvs))
    ensures m.PutAll(kvs).PutAll(kvs) == m.PutAll(kvs)
  {
    var r := m.PutAll(kvs);
    var r2 := r.PutAll(kvs);
    var ks := KeysOf(kvs);
    forall k | k in ks ensures k in r.entries {
      var i :| 0 <= i < |ks| && ks[i] == k;
      PutAllSets(m, kvs, i);
    }
    AbsentOfKeys(ks, r.entries);
    PutAllOrder(r, kvs);
    assert r2.keys == r.keys;
    forall k | k in r.entries || k in r2.entries ensures k in r.entries && k in r2.entries && r2.entries[k] == r.entries[k] {
      if k in ks {
        var i :| 0 <= i < |ks| && ks[i] == k;
        PutAllSets(m, kvs, i);
        PutAllSets(r, kvs, i);
      } else {
        PutAllKeeps(r, kvs, k);
      }
    }
    assert r2.entries == r.entries;
  }
}
