/** ConcurrentProcessorStorage with its two variants: a store of maps kept in
    two indices (by path key and by content hash), a selected path with a
    cached selected index, and the operations that add, replace, remove,
    select and name maps.  The variant (RecognizeProcessorStorage or
    ImageProcessorStorage) is the store's `kind`. */
module Storage {
  import opened Wrappers
  import opened Text
  import opened Paths
  import opened Names
  import opened Processors
  import CrcIntCalc
  import opened OrderedDict
  import opened StoreIndex
  import opened StoreRules
  import opened Loading

  /** SelectedIndex as the store computes it: -1 when no path is selected,
      otherwise the position of the selected path's key in the key order,
      or -1 when the key is absent. */
  function SelectedIndexFor(d: Dict<ProcPath>, selectedPath: string): (r: int)
    ensures -1 <= r < d.Count()
    ensures r >= 0 ==> d.Keys()[r] == GetStringKey(selectedPath) && selectedPath != []
    ensures r == -1 <==> selectedPath == [] || !d.ContainsKey(GetStringKey(selectedPath))
  {
    if selectedPath == [] then -1
    else
      var p := IndexOf(d.Keys(), GetStringKey(selectedPath));
      if p < d.Count() then p else -1
  }

  /** IntSelectedIndex is either reset (-1) or the selected index. */
  predicate CacheValidFor(d: Dict<ProcPath>, selectedPath: string, cached: int) {
    cached == -1 || cached == SelectedIndexFor(d, selectedPath)
  }

  /** The processors of the entries whose key starts with `prefix`, ignoring
      case, in key order: the maps RemoveProcessor(string) removes for a
      directory. */
  function MatchingMaps(e: seq<(string, ProcPath)>, prefix: string): (r: seq<Processor>)
    ensures |r| <= |e|
  {
    if e == [] then []
    else (if StartsWithIgnoreCase(e[0].0, prefix) then [e[0].1.processor] else []) + MatchingMaps(e[1..], prefix)
  }

  /** A map is listed exactly when some entry with a matching key holds it. */
  lemma {:induction false} MatchingMember(e: seq<(string, ProcPath)>, prefix: string, x: Processor)
    ensures x in MatchingMaps(e, prefix) <==> exists j :: 0 <= j < |e| && StartsWithIgnoreCase(e[j].0, prefix) && e[j].1.processor == x
  {
    if e != [] {
      var t := e[1..];
      MatchingMember(t, prefix, x);
      if x in MatchingMaps(t, prefix) {
        var j :| 0 <= j < |t| && StartsWithIgnoreCase(t[j].0, prefix) && t[j].1.processor == x;
        assert e[j + 1] == t[j];
      }
      if exists j :: 1 <= j < |e| && StartsWithIgnoreCase(e[j].0, prefix) && e[j].1.processor == x {
        var j :| 1 <= j < |e| && StartsWithIgnoreCase(e[j].0, prefix) && e[j].1.processor == x;
        assert t[j - 1] == e[j];
      }
    }
  }

  /** The entries whose map is not among `gone`, in their order: what the
      key index holds once the maps `gone` have been removed one by one. */
  function Keep(e: seq<(string, ProcPath)>, gone: seq<Processor>): (r: seq<(string, ProcPath)>)
    ensures |r| <= |e|
  {
    if e == [] then []
    else (if e[0].1.processor in gone then [] else [e[0]]) + Keep(e[1..], gone)
  }

  lemma {:induction false} KeepMember(e: seq<(string, ProcPath)>, gone: seq<Processor>, z: (string, ProcPath))
    ensures z in Keep(e, gone) <==> z in e && z.1.processor !in gone
  {
    if e != [] {
      KeepMember(e[1..], gone, z);
      assert e == [e[0]] + e[1..];
    }
  }

  lemma DistinctTail(e: seq<(string, ProcPath)>)
    requires e != [] && DistinctMaps(e)
    ensures DistinctMaps(e[1..])
    ensures forall z :: z in e[1..] ==> z.1.processor.id != e[0].1.processor.id
  {
    var t := e[1..];
    forall i, j | 0 <= i < j < |t| ensures t[i].1.processor.id != t[j].1.processor.id {
      assert t[i] == e[i + 1] && t[j] == e[j + 1];
    }
    forall z | z in t ensures z.1.processor.id != e[0].1.processor.id {
      var k :| 0 <= k < |t| && t[k] == z;
      assert e[k + 1] == z;
    }
  }

  /** Removing a map that no entry holds keeps every entry. */
  lemma {:induction false} KeepIrrelevant(e: seq<(string, ProcPath)>, gone: seq<Processor>, x: Processor)
    requires forall z :: z in e ==> z.1.processor != x
    ensures Keep(e, gone + [x]) == Keep(e, gone)
  {
    if e != [] {
      assert e[0] in e;
      forall z | z in e[1..] ensures z.1.processor != x {
        assert z in e;
      }
      KeepIrrelevant(e[1..], gone, x);
    }
  }

  /** Deleting position q > 0 of a sequence with head h deletes position
      q - 1 of its tail. */
  lemma DeleteInTail<T>(h: T, t: seq<T>, q: nat)
    requires 0 < q <= |t|
    ensures ([h] + t)[..q] + ([h] + t)[q + 1..] == [h] + (t[..q - 1] + t[q..])
  {
    assert ([h] + t)[..q] == [h] + t[..q - 1];
    assert ([h] + t)[q + 1..] == t[q..];
  }

  /** The first kept entry holds x: no later entry holds it. */
  lemma KeepRemoveFirst(e: seq<(string, ProcPath)>, gone: seq<Processor>, x: Processor)
    requires e != [] && DistinctMaps(e) && e[0].1.processor == x && x !in gone
    ensures Keep(e, gone)[1..] == Keep(e, gone + [x])
  {
    DistinctTail(e);
    forall z | z in e[1..] ensures z.1.processor != x {}
    KeepIrrelevant(e[1..], gone, x);
  }

  /** Deleting from the kept entries the one holding x is keeping the
      entries without x too. */
  lemma {:induction false} KeepRemove(e: seq<(string, ProcPath)>, gone: seq<Processor>, x: Processor, q: nat)
    requires DistinctMaps(e) && x !in gone
    requires q < |Keep(e, gone)| && Keep(e, gone)[q].1.processor == x
    ensures Keep(e, gone)[..q] + Keep(e, gone)[q + 1..] == Keep(e, gone + [x])
  {
    var h, t := e[0], e[1..];
    DistinctTail(e);
    var kt := Keep(t, gone);
    if h.1.processor in gone {
      assert Keep(e, gone) == kt;
      KeepRemove(t, gone, x, q);
    } else if q == 0 {
      KeepRemoveFirst(e, gone, x);
    } else {
      assert Keep(e, gone) == [h] + kt;
      assert kt[q - 1] in kt;
      KeepMember(t, gone, kt[q - 1]);
      KeepRemove(t, gone, x, q - 1);
      DeleteInTail(h, kt, q);
    }
  }

  /** A value of the kept entries is a value of the entries whose map is not
      among `gone`. */
  lemma KeepValues(e: seq<(string, ProcPath)>, gone: seq<Processor>, y: ProcPath)
    ensures y in ValuesOf(Keep(e, gone)) <==> y in ValuesOf(e) && y.processor !in gone
  {
    var k := Keep(e, gone);
    if y in ValuesOf(k) {
      var i :| 0 <= i < |k| && ValuesOf(k)[i] == y;
      assert k[i] in k;
      KeepMember(e, gone, k[i]);
      var j :| 0 <= j < |e| && e[j] == k[i];
      assert ValuesOf(e)[j] == y;
    }
    if y in ValuesOf(e) && y.processor !in gone {
      var j :| 0 <= j < |e| && ValuesOf(e)[j] == y;
      assert e[j] in e;
      KeepMember(e, gone, e[j]);
      var i :| 0 <= i < |k| && k[i] == e[j];
      assert ValuesOf(k)[i] == y;
    }
  }

  lemma KeepNothing(e: seq<(string, ProcPath)>)
    ensures Keep(e, []) == e
  {
  }

  /** Some entry of e carries the map p. */
  predicate HeldIn(e: seq<(string, ProcPath)>, p: Processor) {
    exists i :: 0 <= i < |e| && e[i].1.processor == p
  }

  /** A map not among those already removed is still held. */
  lemma HeldKeep(e: seq<(string, ProcPath)>, gone: seq<Processor>, p: Processor)
    requires HeldIn(e, p) && p !in gone
    ensures HeldIn(Keep(e, gone), p)
  {
    var j :| 0 <= j < |e| && e[j].1.processor == p;
    assert e[j] in e;
    KeepMember(e, gone, e[j]);
    var k :| 0 <= k < |Keep(e, gone)| && Keep(e, gone)[k] == e[j];
  }

  /** One more step of the removal loop: dropping the entry of arr[i] from
      Keep(e, arr[..i]) gives Keep(e, arr[..i + 1]). */
  lemma KeepStep(e: seq<(string, ProcPath)>, arr: seq<Processor>, i: nat, q: nat)
    requires DistinctMaps(e) && DistinctSeq(arr)
    requires i < |arr| && q < |Keep(e, arr[..i])| && Keep(e, arr[..i])[q].1.processor == arr[i]
    ensures Keep(e, arr[..i])[..q] + Keep(e, arr[..i])[q + 1..] == Keep(e, arr[..i + 1])
  {
    assert arr[..i + 1] == arr[..i] + [arr[i]];
    assert arr[i] !in arr[..i];
    KeepRemove(e, arr[..i], arr[i], q);
  }

  /** e' is e with x inserted at some position, the others keeping their
      order. */
  ghost predicate Inserted(e': seq<(string, ProcPath)>, e: seq<(string, ProcPath)>, x: (string, ProcPath)) {
    exists p :: 0 <= p <= |e| && e' == e[..p] + [x] + e[p..]
  }

  /** Every map in the entries was made before identity n. */
  ghost predicate IdsBelow(e: seq<(string, ProcPath)>, n: nat) {
    forall i :: 0 <= i < |e| ==> e[i].1.processor.id < n
  }

  /** The invariant of the store's indices: the two indices in step, and
      every map made before identity n. */
  ghost predicate Stored(d: Dict<ProcPath>, byHash: Buckets, n: nat) {
    IndexValid(d, byHash) && IdsBelow(d.Entries(), n)
  }

  /** What BaseAddElement needs to put x into the indices without throwing:
      a path that is not blank, whose key is new, and a map not yet held. */
  ghost predicate Addable(d: Dict<ProcPath>, x: ProcPath, n: nat) {
    d.Valid() && !IsBlank(x.path) && !d.ContainsKey(GetStringKey(x.path)) &&
    FreshMap(d, x.processor) && x.processor.id < n
  }

  /** BaseAddElement on the values: the two indices stay in step, the new
      entry joins the enumeration and is the one its key finds. */
  lemma AddStep(d: Dict<ProcPath>, byHash: Buckets, x: ProcPath, n: nat) returns (p: nat)
    requires Stored(d, byHash, n) && Addable(d, x, n)
    ensures Stored(d.Add(GetStringKey(x.path), x), BucketAdd(byHash, CrcIntCalc.GetHash(x.processor), x), n)
    ensures p <= |d.Entries()|
    ensures d.Add(GetStringKey(x.path), x).Entries() == d.Entries()[..p] + [(GetStringKey(x.path), x)] + d.Entries()[p..]
    ensures Inserted(d.Add(GetStringKey(x.path), x).Entries(), d.Entries(), (GetStringKey(x.path), x))
    ensures d.Add(GetStringKey(x.path), x).Get(GetStringKey(x.path)) == Some(x)
  {
    var key := GetStringKey(x.path);
    p := InsertKeepsIndex(d, byHash, x);
    IdsBelowInsert(d.Entries(), p, (key, x), n);
    KeyPosition(d.Add(key, x), p);
  }

  lemma IdsBelowInsert(e: seq<(string, ProcPath)>, p: nat, x: (string, ProcPath), n: nat)
    requires p <= |e| && IdsBelow(e, n) && x.1.processor.id < n
    ensures IdsBelow(e[..p] + [x] + e[p..], n)
  {
    var e' := e[..p] + [x] + e[p..];
    forall i | 0 <= i < |e'| ensures e'[i].1.processor.id < n {
      if i < p {
        assert e'[i] == e[i];
      } else if i > p {
        assert e'[i] == e[i - 1];
      }
    }
  }

  /** e' is e with entry q deleted, the others keeping their order. */
  ghost predicate DeletedAt(e': seq<(string, ProcPath)>, e: seq<(string, ProcPath)>, q: nat) {
    q < |e| && e' == e[..q] + e[q + 1..]
  }

  /** The values of e' are those of e but the ones holding the map p. */
  ghost predicate ValuesWithoutMap(e': seq<(string, ProcPath)>, e: seq<(string, ProcPath)>, p: Processor) {
    forall y :: y in ValuesOf(e') <==> y in ValuesOf(e) && y.processor != p
  }

  /** RemoveProcessor on the values: deleting bucket entry i keeps the two
      indices in step, and the values left are the old ones but those of
      that map. */
  /** (d', b') is the index (d, b) after removing entry i of bucket h,
      which sat at position p of the key order. */
  ghost predicate Removed(d': Dict<ProcPath>, b': Buckets, d: Dict<ProcPath>, b: Buckets, h: int, i: nat, p: nat, n: nat)
    requires h in b && i < |b[h]|
  {
    Stored(d', b', n) && p < |d.Entries()| && d.Entries()[p].1 == b[h][i] &&
    DeletedAt(d'.Entries(), d.Entries(), p) && ValuesWithoutMap(d'.Entries(), d.Entries(), b[h][i].processor)
  }

  lemma RemoveStep(d: Dict<ProcPath>, byHash: Buckets, h: int, i: nat, n: nat, d': Dict<ProcPath>, b': Buckets) returns (p: nat)
    requires Stored(d, byHash, n) && h in byHash && i < |byHash[h]|
    requires d' == d.Remove(GetStringKey(byHash[h][i].path)).0 && b' == BucketRemove(byHash, h, i)
    ensures d.ContainsKey(GetStringKey(byHash[h][i].path))
    ensures Removed(d', b', d, byHash, h, i, p, n)
  {
    p := DeleteKeepsIndex(d, byHash, h, i);
    IdsBelowDelete(d.Entries(), p, n);
    forall y ensures y in ValuesOf(d.Entries()[..p] + d.Entries()[p + 1..]) <==>
                     y in ValuesOf(d.Entries()) && y.processor != d.Entries()[p].1.processor {
      ValuesWithout(d.Entries(), p, y);
    }
  }

  lemma IdsBelowDelete(e: seq<(string, ProcPath)>, p: nat, n: nat)
    requires p < |e| && IdsBelow(e, n)
    ensures IdsBelow(e[..p] + e[p + 1..], n)
  {
    var e' := e[..p] + e[p + 1..];
    forall j | 0 <= j < |e'| ensures e'[j].1.processor.id < n {
      assert e'[j] == if j < p then e[j] else e[j + 1];
    }
  }

  /** With distinct maps, deleting entry p removes exactly the values of its
      map. */
  lemma ValuesWithout(e: seq<(string, ProcPath)>, p: nat, y: ProcPath)
    requires p < |e| && DistinctMaps(e)
    ensures y in ValuesOf(e[..p] + e[p + 1..]) <==> y in ValuesOf(e) && y.processor != e[p].1.processor
  {
    ValuesDelete(e, p, y);
    if y in ValuesOf(e) && y != e[p].1 {
      var j :| 0 <= j < |e| && ValuesOf(e)[j] == y;
      assert j != p;
      assert e[j].1.processor.id != e[p].1.processor.id;
    }
  }

  /** No element is listed twice. */
  predicate DistinctSeq<T(==)>(s: seq<T>) {
    forall a, b :: 0 <= a < b < |s| ==> s[a] != s[b]
  }

  /** Some key of e is covered by the path. */
  predicate AnyCovered(e: seq<(string, ProcPath)>, fullPath: string) {
    exists i :: 0 <= i < |e| && Covers(fullPath, e[i].0)
  }

  /** The values of e' are those of e whose keys the path does not cover. */
  ghost predicate ValuesUncovered(e': seq<(string, ProcPath)>, e: seq<(string, ProcPath)>, fullPath: string) {
    forall y :: y in ValuesOf(e') <==> y in ValuesOf(e) && !Covers(fullPath, GetStringKey(y.path))
  }

  /** A map not held: its values are all of another map. */
  lemma NotHeldValues(e: seq<(string, ProcPath)>, p: Processor)
    requires !HeldIn(e, p)
    ensures ValuesWithoutMap(e, e, p)
  {
    forall y | y in ValuesOf(e) ensures y.processor != p {
      var i :| 0 <= i < |e| && ValuesOf(e)[i] == y;
    }
  }

  /** No value is of the map p, so p is not held. */
  lemma NotHeldAfter(e': seq<(string, ProcPath)>, e: seq<(string, ProcPath)>, p: Processor)
    requires ValuesWithoutMap(e', e, p)
    ensures !HeldIn(e', p)
  {
    forall i | 0 <= i < |e'| ensures e'[i].1.processor != p {
      assert ValuesOf(e')[i] == e'[i].1;
    }
  }

  /** A map is held exactly when its hash bucket lists it. */
  lemma HeldIffBucketed(d: Dict<ProcPath>, byHash: Buckets, x: Processor)
    requires IndexValid(d, byHash)
    ensures HeldIn(d.Entries(), x) <==>
            (CrcIntCalc.GetHash(x) in byHash && exists j :: 0 <= j < |byHash[CrcIntCalc.GetHash(x)]| && byHash[CrcIntCalc.GetHash(x)][j].processor == x)
  {
    var e := d.Entries();
    if HeldIn(e, x) {
      HeldThenBucketed(e, byHash, x);
    }
    if CrcIntCalc.GetHash(x) in byHash && exists j :: 0 <= j < |byHash[CrcIntCalc.GetHash(x)]| && byHash[CrcIntCalc.GetHash(x)][j].processor == x {
      BucketedThenHeld(e, byHash, x);
    }
  }

  lemma HeldThenBucketed(e: seq<(string, ProcPath)>, byHash: Buckets, x: Processor)
    requires EntriesBucketed(e, byHash) && HeldIn(e, x)
    ensures CrcIntCalc.GetHash(x) in byHash
    ensures exists j :: 0 <= j < |byHash[CrcIntCalc.GetHash(x)]| && byHash[CrcIntCalc.GetHash(x)][j].processor == x
  {
    var h := CrcIntCalc.GetHash(x);
    var i :| 0 <= i < |e| && e[i].1.processor == x;
    assert e[i].1 in byHash[h];
    var j :| 0 <= j < |byHash[h]| && byHash[h][j] == e[i].1;
  }

  lemma BucketedThenHeld(e: seq<(string, ProcPath)>, byHash: Buckets, x: Processor)
    requires BucketsHeld(e, byHash) && CrcIntCalc.GetHash(x) in byHash
    requires exists j :: 0 <= j < |byHash[CrcIntCalc.GetHash(x)]| && byHash[CrcIntCalc.GetHash(x)][j].processor == x
    ensures HeldIn(e, x)
  {
    var h := CrcIntCalc.GetHash(x);
    var j :| 0 <= j < |byHash[h]| && byHash[h][j].processor == x;
    assert byHash[h][j] in byHash[h];
    var i :| 0 <= i < |e| && ValuesOf(e)[i] == byHash[h][j];
    assert e[i].1.processor == x;
  }

  /** The keys RemoveProcessor(string) deletes: for a directory path every
      key that starts with it (ignoring case), otherwise the key of the path
      itself, which the indexer finds only for a path that is not blank. */
  predicate Covers(fullPath: string, key: string) {
    fullPath != [] &&
    if IsDirectory(fullPath) then StartsWithIgnoreCase(key, fullPath)
    else !IsBlank(fullPath) && key == GetStringKey(fullPath)
  }

  /** In a valid key index, two values share a map exactly when they share a
      key. */
  lemma SameMapSameKey(e: seq<(string, ProcPath)>, j: nat, y: ProcPath)
    requires Keyed(e) && DistinctMaps(e) && KeysDistinct(e)
    requires j < |e| && y in ValuesOf(e)
    ensures y.processor == e[j].1.processor <==> GetStringKey(y.path) == e[j].0
  {
    var k :| 0 <= k < |e| && ValuesOf(e)[k] == y;
    assert e[k].1 == y;
    if k != j {
      assert e[k].1.processor.id != e[j].1.processor.id by {
        if k < j {} else {}
      }
      assert e[k].0 != e[j].0 by {
        if k < j {} else {}
      }
    }
  }

  /** A key that is absent is the key of no value. */
  lemma AbsentKey(e: seq<(string, ProcPath)>, key: string, y: ProcPath)
    requires Keyed(e) && key !in KeysOf(e) && y in ValuesOf(e)
    ensures GetStringKey(y.path) != key
  {
    var k :| 0 <= k < |e| && ValuesOf(e)[k] == y;
    assert KeysOf(e)[k] == e[k].0;
  }

  /** The maps of the matching entries are listed once each. */
  lemma {:induction false} MatchingDistinct(e: seq<(string, ProcPath)>, prefix: string)
    requires DistinctMaps(e)
    ensures forall a, b :: 0 <= a < b < |MatchingMaps(e, prefix)| ==> MatchingMaps(e, prefix)[a] != MatchingMaps(e, prefix)[b]
  {
    if e != [] {
      var t := e[1..];
      assert DistinctMaps(t) by {
        forall i, j | 0 <= i < j < |t| ensures t[i].1.processor.id != t[j].1.processor.id {
          assert t[i] == e[i + 1] && t[j] == e[j + 1];
        }
      }
      MatchingDistinct(t, prefix);
      if StartsWithIgnoreCase(e[0].0, prefix) {
        var rest := MatchingMaps(t, prefix);
        var m := MatchingMaps(e, prefix);
        assert m == [e[0].1.processor] + rest;
        forall x | x in rest ensures x != e[0].1.processor {
          MatchingMember(t, prefix, x);
          var j :| 0 <= j < |t| && StartsWithIgnoreCase(t[j].0, prefix) && t[j].1.processor == x;
          assert t[j] == e[j + 1];
        }
        forall a, b | 0 <= a < b < |m| ensures m[a] != m[b] {
          assert m[b] == rest[b - 1];
          if a > 0 {
            assert m[a] == rest[a - 1];
          } else {
            assert rest[b - 1] in rest;
          }
        }
      }
    }
  }

  /** For a value of the index, its map is among the matching maps exactly
      when its key starts with the prefix. */
  lemma MatchingIff(e: seq<(string, ProcPath)>, prefix: string, y: ProcPath)
    requires Keyed(e) && DistinctMaps(e) && y in ValuesOf(e)
    ensures y.processor in MatchingMaps(e, prefix) <==> StartsWithIgnoreCase(GetStringKey(y.path), prefix)
  {
    var k :| 0 <= k < |e| && ValuesOf(e)[k] == y;
    assert e[k].1 == y;
    MatchingMember(e, prefix, y.processor);
    if y.processor in MatchingMaps(e, prefix) {
      var j :| 0 <= j < |e| && StartsWithIgnoreCase(e[j].0, prefix) && e[j].1.processor == y.processor;
      assert j == k;
    }
  }

  /** Removing every matching map leaves exactly the values whose keys do
      not start with the directory path, and something is removed exactly
      when some key starts with it. */
  lemma DirectoryRemoved(e: seq<(string, ProcPath)>, prefix: string)
    requires Keyed(e) && DistinctMaps(e) && IsDirectory(prefix)
    ensures (|MatchingMaps(e, prefix)| > 0) <==> AnyCovered(e, prefix)
    ensures ValuesUncovered(Keep(e, MatchingMaps(e, prefix)), e, prefix)
  {
    var arr := MatchingMaps(e, prefix);
    if |arr| > 0 {
      MatchingMember(e, prefix, arr[0]);
    }
    if exists i :: 0 <= i < |e| && Covers(prefix, e[i].0) {
      var i :| 0 <= i < |e| && Covers(prefix, e[i].0);
      MatchingMember(e, prefix, e[i].1.processor);
    }
    forall y ensures y in ValuesOf(Keep(e, arr)) <==> y in ValuesOf(e) && !Covers(prefix, GetStringKey(y.path)) {
      KeepValues(e, arr, y);
      if y in ValuesOf(e) {
        MatchingIff(e, prefix, y);
      }
    }
  }

  /** For a file path the indexer finds at most the one entry the path
      covers: removing its map removes exactly the covered values, and when
      it finds nothing no key is covered. */
  lemma FileCovered(e: seq<(string, ProcPath)>, fullPath: string, found: Option<ProcPath>)
    requires Keyed(e) && DistinctMaps(e) && KeysDistinct(e)
    requires fullPath != [] && !IsDirectory(fullPath)
    requires found.None? ==> IsBlank(fullPath) || GetStringKey(fullPath) !in KeysOf(e)
    requires found.Some? ==> !IsBlank(fullPath) && (GetStringKey(fullPath), found.value) in e
    ensures found.Some? ==> HeldIn(e, found.value.processor)
    ensures found.Some? <==> AnyCovered(e, fullPath)
    ensures found.Some? ==> forall e' :: ValuesWithoutMap(e', e, found.value.processor) ==> ValuesUncovered(e', e, fullPath)
    ensures found.None? ==> ValuesUncovered(e, e, fullPath)
  {
    if found.Some? {
      var j :| 0 <= j < |e| && e[j] == (GetStringKey(fullPath), found.value);
      FileFound(e, fullPath, j);
    } else {
      FileAbsent(e, fullPath);
    }
  }

  /** The entry found for a file path is the only one it covers. */
  lemma FileFound(e: seq<(string, ProcPath)>, fullPath: string, j: nat)
    requires Keyed(e) && DistinctMaps(e) && KeysDistinct(e)
    requires fullPath != [] && !IsDirectory(fullPath) && !IsBlank(fullPath)
    requires j < |e| && e[j].0 == GetStringKey(fullPath)
    ensures HeldIn(e, e[j].1.processor) && AnyCovered(e, fullPath)
    ensures forall e' :: ValuesWithoutMap(e', e, e[j].1.processor) ==> ValuesUncovered(e', e, fullPath)
  {
    assert Covers(fullPath, e[j].0);
    forall y | y in ValuesOf(e) ensures y.processor == e[j].1.processor <==> Covers(fullPath, GetStringKey(y.path)) {
      SameMapSameKey(e, j, y);
    }
  }

  /** A file path whose key is absent, or which is blank, covers nothing. */
  lemma FileAbsent(e: seq<(string, ProcPath)>, fullPath: string)
    requires Keyed(e)
    requires IsBlank(fullPath) || GetStringKey(fullPath) !in KeysOf(e)
    requires fullPath != [] && !IsDirectory(fullPath)
    ensures !AnyCovered(e, fullPath) && ValuesUncovered(e, e, fullPath)
  {
    forall y | y in ValuesOf(e) ensures !Covers(fullPath, GetStringKey(y.path)) {
      if !IsBlank(fullPath) {
        AbsentKey(e, GetStringKey(fullPath), y);
      }
    }
    forall i | 0 <= i < |e| ensures !Covers(fullPath, e[i].0) {
      assert ValuesOf(e)[i] == e[i].1;
    }
  }

  /** The selection once maps have been removed from the entries e, leaving
      e': RemoveProcessor clears it whenever it removes the entry of a path
      equal to it ignoring case, that is the entry under its key, so it is
      cleared exactly when that key was held and is held no more. */
  function SelectionAfter(e': seq<(string, ProcPath)>, e: seq<(string, ProcPath)>, selected: string): string {
    var k := GetStringKey(selected);
    if k in KeysOf(e) && k !in KeysOf(e') then [] else selected
  }

  /** The selection once the entry a map file path covers is removed from
      e: cleared exactly when e held an entry under the path and the
      selected path equals it, ignoring case. */
  function SelectionAfterFile(e: seq<(string, ProcPath)>, fullPath: string, selected: string): string {
    if AnyCovered(e, fullPath) && EqualsIgnoreCase(fullPath, selected) then [] else selected
  }

  /** Every key of e' is a key of e: nothing was added. */
  ghost predicate KeysWithin(e': seq<(string, ProcPath)>, e: seq<(string, ProcPath)>) {
    forall k :: k in KeysOf(e') ==> k in KeysOf(e)
  }

  /** Deleting entry q removes its key and keeps every other key. */
  lemma DeletedKeys(e': seq<(string, ProcPath)>, e: seq<(string, ProcPath)>, q: nat)
    requires DeletedAt(e', e, q) && KeysDistinct(e)
    ensures KeysWithin(e', e)
    ensures e[q].0 !in KeysOf(e')
    ensures forall k :: k in KeysOf(e) && k != e[q].0 ==> k in KeysOf(e')
  {
    forall k | k in KeysOf(e') ensures k in KeysOf(e) {
      var j :| 0 <= j < |e'| && KeysOf(e')[j] == k;
      var m := if j < q then j else j + 1;
      assert e'[j] == e[m];
      assert KeysOf(e)[m] == k;
    }
    forall j | 0 <= j < |e'| ensures KeysOf(e')[j] != e[q].0 {
      var m := if j < q then j else j + 1;
      assert e'[j] == e[m];
    }
    forall k | k in KeysOf(e) && k != e[q].0 ensures k in KeysOf(e') {
      var m :| 0 <= m < |e| && KeysOf(e)[m] == k;
      var j := if m < q then m else m - 1;
      assert e'[j] == e[m];
      assert KeysOf(e')[j] == k;
    }
  }

  /** The rule of RemoveProcessor for one deleted entry is SelectionAfter. */
  lemma SelectionStep(e': seq<(string, ProcPath)>, e: seq<(string, ProcPath)>, q: nat, selected: string)
    requires DeletedAt(e', e, q) && Keyed(e) && KeysDistinct(e)
    ensures KeysWithin(e', e)
    ensures SelectionAfter(e', e, selected) == if EqualsIgnoreCase(e[q].1.path, selected) then [] else selected
  {
    DeletedKeys(e', e, q);
    GetStringKeyIgnoresCase(e[q].1.path, selected);
    assert e[q].0 == GetStringKey(e[q].1.path) && KeysOf(e)[q] == e[q].0;
  }

  /** Two rounds of removals select as one. */
  lemma SelectionCompose(e2: seq<(string, ProcPath)>, e1: seq<(string, ProcPath)>, e0: seq<(string, ProcPath)>, selected: string)
    requires KeysWithin(e2, e1) && KeysWithin(e1, e0)
    ensures KeysWithin(e2, e0)
    ensures SelectionAfter(e2, e1, SelectionAfter(e1, e0, selected)) == SelectionAfter(e2, e0, selected)
  {
  }

  /** Once the values a path covers are removed, the selection is cleared
      exactly when its key was held and the path covers that key. */
  lemma SelectionUncovered(e': seq<(string, ProcPath)>, e: seq<(string, ProcPath)>, fullPath: string, selected: string)
    requires Keyed(e) && Keyed(e') && ValuesUncovered(e', e, fullPath)
    ensures SelectionAfter(e', e, selected) ==
              if GetStringKey(selected) in KeysOf(e) && Covers(fullPath, GetStringKey(selected)) then [] else selected
  {
    var k := GetStringKey(selected);
    if k in KeysOf(e) {
      var j :| 0 <= j < |e| && KeysOf(e)[j] == k;
      var y := e[j].1;
      assert ValuesOf(e)[j] == y;
      if !Covers(fullPath, k) {
        var j' :| 0 <= j' < |e'| && ValuesOf(e')[j'] == y;
        assert KeysOf(e')[j'] == k;
      }
    }
  }

  /** For a map file path, the selection after its covered entry is removed
      is SelectionAfterFile. */
  lemma SelectionFile(e': seq<(string, ProcPath)>, e: seq<(string, ProcPath)>, fullPath: string, selected: string)
    requires Keyed(e) && Keyed(e') && ValuesUncovered(e', e, fullPath)
    requires !IsBlank(fullPath) && !IsDirectory(fullPath)
    ensures SelectionAfter(e', e, selected) == SelectionAfterFile(e, fullPath, selected)
  {
    SelectionUncovered(e', e, fullPath, selected);
    GetStringKeyIgnoresCase(fullPath, selected);
    var k := GetStringKey(fullPath);
    if AnyCovered(e, fullPath) {
      var i :| 0 <= i < |e| && Covers(fullPath, e[i].0);
      assert KeysOf(e)[i] == k;
    }
    if k in KeysOf(e) {
      var i :| 0 <= i < |e| && KeysOf(e)[i] == k;
      assert Covers(fullPath, e[i].0);
    }
  }

  /** The values of e' are those of e the path does not cover, and x. */
  ghost predicate ValuesReplaced(e': seq<(string, ProcPath)>, e: seq<(string, ProcPath)>, fullPath: string, x: ProcPath) {
    forall y :: y in ValuesOf(e') <==> y == x || (y in ValuesOf(e) && !Covers(fullPath, GetStringKey(y.path)))
  }

  /** A map file path is neither blank nor a directory. */
  lemma ProcessorFileNotBlank(path: string, ext: string)
    requires ext != [] && IsProcessorFile(path, ext)
    ensures !IsBlank(path) && !IsDirectory(path)
  {
    var e := GetExtension(path);
    assert |Lower(e)| == |Lower("." + ext)|;
    assert path[|path| - |e|] == e[0] == '.';
    ProcessorFileIsNotDirectory(path, ext);
  }

  /** Once the values a file path covers are gone, its key is free, and a
      map that was not held is still not held. */
  lemma ClearedForAdd(d: Dict<ProcPath>, e: seq<(string, ProcPath)>, fullPath: string, p: Processor)
    requires Keyed(d.Entries()) && ValuesUncovered(d.Entries(), e, fullPath)
    requires !IsBlank(fullPath) && !IsDirectory(fullPath)
    requires forall i :: 0 <= i < |e| ==> e[i].1.processor.id != p.id
    ensures !d.ContainsKey(GetStringKey(fullPath)) && FreshMap(d, p)
  {
    var e' := d.Entries();
    forall i | 0 <= i < |e'| ensures e'[i].0 != GetStringKey(fullPath) && e'[i].1.processor.id != p.id {
      var y := e'[i].1;
      assert ValuesOf(e')[i] == y;
      var k :| 0 <= k < |e| && ValuesOf(e)[k] == y;
    }
  }

  /** Inserting x adds its value to the values and nothing else. */
  lemma InsertedValues(e': seq<(string, ProcPath)>, e: seq<(string, ProcPath)>, x: (string, ProcPath))
    requires Inserted(e', e, x)
    ensures forall y :: y in ValuesOf(e') <==> y == x.1 || y in ValuesOf(e)
  {
    var p :| 0 <= p <= |e| && e' == e[..p] + [x] + e[p..];
    var v := ValuesOf(e);
    assert ValuesOf(e') == v[..p] + [x.1] + v[p..];
    assert v == v[..p] + v[p..];
  }

  /** The files of a listing that are map files of the extension, in order
      (the filter of QueryProcessorFiles). */
  function FilesIn(listing: seq<string>, ext: string): (r: seq<string>)
    ensures forall f :: f in r <==> f in listing && IsProcessorFile(f, ext)
    ensures |r| <= |listing|
  {
    if listing == [] then []
    else (if IsProcessorFile(listing[0], ext) then [listing[0]] else []) + FilesIn(listing[1..], ext)
  }

  /** The files AddProcessor loads for a path: the path itself when it is a
      map file, the map files of the listing below it when it is a
      directory, none otherwise. */
  function Targets(fullPath: string, listing: seq<string>, ext: string): (r: seq<string>)
    ensures forall f :: f in r ==> IsProcessorFile(f, ext)
  {
    if IsProcessorFile(fullPath, ext) then [fullPath]
    else if IsDirectory(fullPath) then FilesIn(listing, ext)
    else []
  }

  /** How AddProcessor reads one file: the map the file holds, taking the
      identity given, or the failure to add it. */
  function Reader(kind: Kind, images: string -> Option<Image>): (string, nat) -> Result<Processor, StoreError> {
    (f: string, n: nat) => AddingProcessor(kind, f, images(f), n)
  }

  /** `read` reads every file as AddProcessor does. */
  ghost predicate ReadsAs(read: (string, nat) -> Result<Processor, StoreError>, kind: Kind,
                          images: string -> Option<Image>) {
    forall f: string, n: nat {:trigger AddingProcessor(kind, f, images(f), n)} ::
      read(f, n) == AddingProcessor(kind, f, images(f), n)
  }

  /** Reader reads every file as AddProcessor does. */
  lemma ReaderReads(kind: Kind, images: string -> Option<Image>)
    ensures ReadsAs(Reader(kind, images), kind, images)
  {
  }

  /** What AddProcessor's loop gives for the files. */
  function Loaded(kind: Kind, files: seq<string>, images: string -> Option<Image>, id: nat)
    : (r: (seq<Processor>, seq<StoreError>))
    ensures |r.0| + |r.1| == |files|
  {
    Run(Reader(kind, images), files, id)
  }

  /** Loaded of the single file AddProcessor loads for a map file path. */
  lemma LoadedOne(kind: Kind, f: string, images: string -> Option<Image>, id: nat)
    ensures var a := AddingProcessor(kind, f, images(f), id);
            Loaded(kind, [f], images, id) == if a.Ok? then ([a.value], []) else ([], [a.error])
  {
    var read := Reader(kind, images);
    assert [f][..0] == [] && [f][..1] == [f];
    RunAppend(read, [f], id, 0, ([], []));
    var a := AddingProcessor(kind, f, images(f), id);
    assert read(f, id) == a;
    var c := Collect(([], []), a);
    if a.Ok? {
      assert c.0 == [a.value] && c.1 == [];
    } else {
      assert c.0 == [] && c.1 == [a.error];
    }
  }

  /** The maps read take consecutive identities from `id` on, so no two
      of them share one. */
  lemma {:induction false} LoadedIds(kind: Kind, files: seq<string>, images: string -> Option<Image>, id: nat)
    ensures var r := Loaded(kind, files, images, id).0;
            forall j :: 0 <= j < |r| ==> r[j].id == id + j
    decreases |files|
  {
    if files != [] {
      var read := Reader(kind, images);
      var init, f := files[..|files| - 1], files[|files| - 1];
      RunUnfold(read, files, id);
      LoadedIds(kind, init, images, id);
      var prev := Run(read, init, id);
      var a := AddingProcessor(kind, f, images(f), id + |prev.0|);
      assert read(f, id + |prev.0|) == a;
      CollectIds(prev, a, id);
    }
  }

  /** A map read with the next identity continues consecutive identities. */
  lemma CollectIds(acc: (seq<Processor>, seq<StoreError>), a: Result<Processor, StoreError>, id: nat)
    requires forall j :: 0 <= j < |acc.0| ==> acc.0[j].id == id + j
    requires a.Ok? ==> a.value.id == id + |acc.0|
    ensures var r := Collect(acc, a).0;
            forall j :: 0 <= j < |r| ==> r[j].id == id + j
  {
  }

  /** Every failure is a failure to add one of the files. */
  lemma {:induction false} LoadedFailures(kind: Kind, files: seq<string>, images: string -> Option<Image>, id: nat)
    ensures var r := Loaded(kind, files, images, id).1;
            forall j :: 0 <= j < |r| ==> r[j].AddingFailed? && r[j].path in files
    decreases |files|
  {
    if files != [] {
      RunUnfold(Reader(kind, images), files, id);
      var init := files[..|files| - 1];
      LoadedFailures(kind, init, images, id);
      assert forall g :: g in init ==> g in files;
    }
  }

  /** Every map read holds the picture of one of the files. */
  lemma {:induction false} LoadedPictures(kind: Kind, files: seq<string>, images: string -> Option<Image>, id: nat)
    ensures var r := Loaded(kind, files, images, id).0;
            forall j :: 0 <= j < |r| ==> exists k :: 0 <= k < |files| && images(files[k]) == Some(r[j].cells)
    decreases |files|
  {
    if files != [] {
      RunUnfold(Reader(kind, images), files, id);
      var init := files[..|files| - 1];
      LoadedPictures(kind, init, images, id);
      var r := Loaded(kind, files, images, id).0;
      var prev := Loaded(kind, init, images, id).0;
      forall j | 0 <= j < |r| ensures exists k :: 0 <= k < |files| && images(files[k]) == Some(r[j].cells) {
        if j < |prev| {
          assert r[j] == prev[j];
          var k :| 0 <= k < |init| && images(init[k]) == Some(prev[j].cells);
          assert files[k] == init[k];
        } else {
          assert images(files[|files| - 1]) == Some(r[j].cells);
        }
      }
    }
  }

  /** Whether a file reads as a map does not depend on the identity the map
      would get. */
  lemma AddingIdFree(kind: Kind, path: string, image: Option<Image>, id: nat, id': nat)
    ensures AddingProcessor(kind, path, image, id).Ok? == AddingProcessor(kind, path, image, id').Ok?
    ensures AddingProcessor(kind, path, image, id).Err? ==>
              AddingProcessor(kind, path, image, id).error == AddingProcessor(kind, path, image, id').error
  {
  }

  /** The file reads as a map (whatever identity the map would get). */
  predicate Reads(kind: Kind, images: string -> Option<Image>, f: string) {
    AddingProcessor(kind, f, images(f), 0).Ok?
  }

  /** The last file adds a failure exactly when it does not read. */
  lemma LoadedLast(kind: Kind, files: seq<string>, images: string -> Option<Image>, id: nat)
    requires files != []
    ensures Loaded(kind, files, images, id).1 == [] <==>
              Loaded(kind, files[..|files| - 1], images, id).1 == [] && Reads(kind, images, files[|files| - 1])
  {
    RunUnfold(Reader(kind, images), files, id);
    var prev := Loaded(kind, files[..|files| - 1], images, id);
    var f := files[|files| - 1];
    AddingIdFree(kind, f, images(f), id + |prev.0|, 0);
  }

  /** AddProcessor reports no failure exactly when every file reads as a map. */
  lemma {:induction false} LoadedAllRead(kind: Kind, files: seq<string>, images: string -> Option<Image>, id: nat)
    ensures Loaded(kind, files, images, id).1 == [] <==> forall k :: 0 <= k < |files| ==> Reads(kind, images, files[k])
    decreases |files|
  {
    if files != [] {
      var init := files[..|files| - 1];
      LoadedAllRead(kind, init, images, id);
      LoadedLast(kind, files, images, id);
      EveryOfInit(files, init, f => Reads(kind, images, f));
    }
  }

  /** The values of the key index, as a set. */
  function ValueSet(e: seq<(string, ProcPath)>): set<ProcPath> {
    set y | y in ValuesOf(e)
  }

  /** What IntAddProcessor does to the store's values when the file is to
      be added and `a` is how it reads: the values the path covers go, and
      the map read, if any, takes their place under the path. */
  function LoadStep(vs: set<ProcPath>, f: string, a: Result<Processor, StoreError>): set<ProcPath> {
    if a.Ok? then Uncovered(vs, f) + {ProcPath(a.value, f)} else Uncovered(vs, f)
  }

  /** The values the path does not cover. */
  function Uncovered(vs: set<ProcPath>, f: string): set<ProcPath> {
    set y | y in vs && !Covers(f, GetStringKey(y.path))
  }

  /** For a map file path, the value under the path after a step is the
      map read, if any, and every value under another key stays. */
  lemma LoadStepUnderPath(vs: set<ProcPath>, f: string, a: Result<Processor, StoreError>, y: ProcPath)
    requires !IsBlank(f) && !IsDirectory(f)
    ensures GetStringKey(y.path) == GetStringKey(f) ==>
              (y in LoadStep(vs, f, a) <==> a.Ok? && y == ProcPath(a.value, f))
    ensures GetStringKey(y.path) != GetStringKey(f) ==>
              (y in LoadStep(vs, f, a) <==> y in vs)
  {
    assert f != [] by {
      assert IsBlank(f) <== f == [];
    }
    assert Covers(f, GetStringKey(y.path)) <==> GetStringKey(y.path) == GetStringKey(f);
    assert y in Uncovered(vs, f) <==> y in vs && !Covers(f, GetStringKey(y.path));
  }

  /** The store's values once AddProcessor's loop has added the first n
      files, one after another, to a store holding vs, the maps read taking
      consecutive identities from id on as in Run. */
  ghost function ValuesAfterLoad(read: (string, nat) -> Result<Processor, StoreError>, files: seq<string>, n: nat,
                                 id: nat, vs: set<ProcPath>): set<ProcPath>
    requires n <= |files|
  {
    if n == 0 then vs
    else LoadStep(ValuesAfterLoad(read, files, n - 1, id, vs), files[n - 1],
                  read(files[n - 1], id + |Run(read, files[..n - 1], id).0|))
  }

  /** The step of the file after the first i, read with the identity that
      follows the maps read so far, extends the fold by one file. */
  lemma LoadedOneMore(read: (string, nat) -> Result<Processor, StoreError>, files: seq<string>, id: nat,
                      vs: set<ProcPath>, i: nat, count: nat, before: set<ProcPath>, after: set<ProcPath>)
    requires i < |files| && count == |Run(read, files[..i], id).0|
    requires before == ValuesAfterLoad(read, files, i, id, vs)
    requires after == LoadStep(before, files[i], read(files[i], id + count))
    ensures after == ValuesAfterLoad(read, files, i + 1, id, vs)
  {
    assert ValuesAfterLoad(read, files, i + 1, id, vs) ==
           LoadStep(ValuesAfterLoad(read, files, i, id, vs), files[i], read(files[i], id + |Run(read, files[..i], id).0|));
  }

  /** Loading a single file is one step. */
  lemma ValuesAfterLoadOne(kind: Kind, images: string -> Option<Image>, f: string, id: nat, vs: set<ProcPath>)
    ensures ValuesAfterLoad(Reader(kind, images), [f], 1, id, vs) == LoadStep(vs, f, AddingProcessor(kind, f, images(f), id))
  {
    assert [f][..0] == [];
  }

  /** A file that failed to read leaves the values the path does not cover. */
  lemma UncoveredStep(e': seq<(string, ProcPath)>, e: seq<(string, ProcPath)>, f: string, a: Result<Processor, StoreError>)
    requires a.Err? && ValuesUncovered(e', e, f)
    ensures ValueSet(e') == LoadStep(ValueSet(e), f, a)
  {
  }

  /** A file that read as a map leaves those values and the new one. */
  lemma ReplacedStep(e': seq<(string, ProcPath)>, e: seq<(string, ProcPath)>, f: string, a: Result<Processor, StoreError>)
    requires a.Ok? && ValuesReplaced(e', e, f, ProcPath(a.value, f))
    ensures ValueSet(e') == LoadStep(ValueSet(e), f, a)
  {
  }

  /** The hint GetUniqueProcessor gets for a tag: the batch SaveToFile
      de-masks it and hints no number; GetUniquePath keeps it and hints the
      number 0 when it reads as masked. */
  function Hint(tag: string, demask: bool): (Option<nat>, string)
    requires tag != []
  {
    if demask then (None, Demask(tag).1)
    else (if Demask(tag).0.None? then None else Some(0), tag)
  }

  /** The name UniqueNames takes from a stored map: the file name without
      extension, lower-cased. */
  function StoredTitle(pp: ProcPath): string {
    Lower(GetFileNameWithoutExtension(pp.path))
  }

  /** Some name the hint can give is taken, in lower case. */
  ghost predicate Claimed(tagSet: set<string>, hint: (Option<nat>, string)) {
    exists t :: NamedFrom(hint, t) && Lower(t) in tagSet
  }

  /** The names UniqueNames finds taken by the stored maps: one lower-case
      name per map, a name each map's de-masked title can give. */
  ghost predicate TakenBy(tagSet: set<string>, e: seq<(string, ProcPath)>) {
    TakenUpTo(tagSet, e, |e|)
  }

  /** TakenBy for the first n maps. */
  ghost predicate TakenUpTo(tagSet: set<string>, e: seq<(string, ProcPath)>, n: nat)
    requires n <= |e|
  {
    |tagSet| == n && AllLower(tagSet) && ClaimsUpTo(tagSet, e, n)
  }

  ghost predicate AllLower(tagSet: set<string>) {
    forall t {:trigger t in tagSet} :: t in tagSet ==> Lower(t) == t
  }

  ghost predicate ClaimsUpTo(tagSet: set<string>, e: seq<(string, ProcPath)>, n: nat)
    requires n <= |e|
  {
    forall k :: 0 <= k < n ==> StoredTitle(e[k].1) != [] && Claimed(tagSet, Demask(StoredTitle(e[k].1)))
  }

  /** Claims stay claimed in a larger set. */
  lemma ClaimsGrow(tagSet: set<string>, next: set<string>, e: seq<(string, ProcPath)>, n: nat)
    requires n <= |e| && ClaimsUpTo(tagSet, e, n) && tagSet <= next
    ensures ClaimsUpTo(next, e, n)
  {
    forall k | 0 <= k < n
      ensures Claimed(next, Demask(StoredTitle(e[k].1)))
    {
      var t :| NamedFrom(Demask(StoredTitle(e[k].1)), t) && Lower(t) in tagSet;
    }
  }

  /** The claims of the first i maps and one for map i. */
  lemma ClaimsExtend(tagSet: set<string>, e: seq<(string, ProcPath)>, i: nat, name: string)
    requires i < |e| && ClaimsUpTo(tagSet, e, i) && StoredTitle(e[i].1) != []
    requires NamedFrom(Demask(StoredTitle(e[i].1)), name) && Lower(name) in tagSet
    ensures ClaimsUpTo(tagSet, e, i + 1)
  {
    assert Claimed(tagSet, Demask(StoredTitle(e[i].1)));
  }

  /** Claiming a new name for the next map keeps the names taken so far. */
  lemma ClaimNext(tagSet: set<string>, e: seq<(string, ProcPath)>, i: nat, name: string)
    requires i < |e| && TakenUpTo(tagSet, e, i) && StoredTitle(e[i].1) != []
    requires NamedFrom(Demask(StoredTitle(e[i].1)), name) && Lower(name) !in tagSet
    ensures TakenUpTo(tagSet + {Lower(name)}, e, i + 1)
  {
    var next := tagSet + {Lower(name)};
    assert AllLower(next) by {
      LowerIdempotent(name);
    }
    assert ClaimsUpTo(next, e, i) by {
      ClaimsGrow(tagSet, next, e, i);
    }
    assert ClaimsUpTo(next, e, i + 1) by {
      assert Lower(name) in next;
      ClaimsExtend(next, e, i, name);
    }
    assert |next| == i + 1;
  }

  /** What GetUniqueProcessor answers for one request with name hint
      `hint`, whose path to save to checks out as `check` (CheckImagePath):
      that path when it names a map file, otherwise `name`, one the hint can
      give, in the folder the path checks out as. */
  ghost predicate Placed(hint: (Option<nat>, string), check: (bool, string), path: string, name: string, ext: string) {
    (check.0 ==> path == check.1) &&
    (!check.0 ==> NamedFrom(hint, name) && path == CreateImagePath(check.1, name, ext))
  }

  /** Number hints are ulongs. */
  predicate HintsInRange(args: seq<((Option<nat>, string), string)>) {
    forall i :: 0 <= i < |args| ==> args[i].0.0.Some? ==> args[i].0.0.value < ULongLimit
  }

  /** The names given to the first i requests (those not saved to a file
      path) differ, ignoring case. */
  ghost predicate NamesDiffer(checks: seq<(bool, string)>, names: seq<string>, i: nat)
    requires i <= |checks| && i <= |names|
  {
    forall j, k | 0 <= j < k < i && !checks[j].0 && !checks[k].0 :: Lower(names[j]) != Lower(names[k])
  }

  /** The loop invariant of GetUniqueProcessor after i requests: how their
      paths checked out and their answers; the names the stored maps take
      (`taken`, once computed); and the names in use (`tagSet`), which hold
      those and the names given. */
  ghost predicate Picked(args: seq<((Option<nat>, string), string)>, checks: seq<(bool, string)>,
                         paths: seq<string>, names: seq<string>,
                         taken: set<string>, tagSet: Option<set<string>>, e: seq<(string, ProcPath)>, ext: string, i: nat)
    requires i <= |args|
  {
    |checks| == i && |paths| == i && |names| == i &&
    PlacedUpTo(args, checks, paths, names, ext, i) &&
    (tagSet.None? ==> forall j :: 0 <= j < i ==> checks[j].0) &&
    (tagSet.Some? ==> TakenBy(taken, e) && taken <= tagSet.value) &&
    InUse(checks, names, taken, tagSet, i) &&
    NamesDiffer(checks, names, i)
  }

  ghost predicate PlacedUpTo(args: seq<((Option<nat>, string), string)>, checks: seq<(bool, string)>,
                             paths: seq<string>, names: seq<string>, ext: string, i: nat)
    requires i <= |args| && i <= |checks| && i <= |paths| && i <= |names|
  {
    forall j :: 0 <= j < i ==> Placed(args[j].0, checks[j], paths[j], names[j], ext)
  }

  /** The names given so far are in use, and none is taken by a stored map. */
  ghost predicate InUse(checks: seq<(bool, string)>, names: seq<string>,
                        taken: set<string>, tagSet: Option<set<string>>, i: nat)
    requires i <= |checks| && i <= |names|
  {
    forall j :: 0 <= j < i && !checks[j].0 ==>
      tagSet.Some? && Lower(names[j]) in tagSet.value && Lower(names[j]) !in taken
  }

  /** A request whose path names a map file is answered with that path. */
  lemma PickedFile(args: seq<((Option<nat>, string), string)>, checks: seq<(bool, string)>,
                   paths: seq<string>, names: seq<string>,
                   taken: set<string>, tagSet: Option<set<string>>, e: seq<(string, ProcPath)>, ext: string,
                   i: nat, check: (bool, string))
    requires i < |args| && Picked(args, checks, paths, names, taken, tagSet, e, ext, i) && check.0
    ensures Picked(args, checks + [check], paths + [check.1], names + [[]], taken, tagSet, e, ext, i + 1)
  {
    var checks', paths', names' := checks + [check], paths + [check.1], names + [[]];
    assert forall j :: 0 <= j < i ==> checks'[j] == checks[j] && paths'[j] == paths[j] && names'[j] == names[j];
  }

  /** The names the stored maps take, computed before the first name is
      given. */
  lemma PickedTaken(args: seq<((Option<nat>, string), string)>, checks: seq<(bool, string)>,
                    paths: seq<string>, names: seq<string>,
                    taken: set<string>, t: set<string>, e: seq<(string, ProcPath)>, ext: string, i: nat)
    requires i <= |args| && Picked(args, checks, paths, names, taken, None, e, ext, i) && TakenBy(t, e)
    ensures Picked(args, checks, paths, names, t, Some(t), e, ext, i)
  {
  }

  /** A request that needs a name gets one that is not in use. */
  lemma PickedName(args: seq<((Option<nat>, string), string)>, checks: seq<(bool, string)>,
                   paths: seq<string>, names: seq<string>,
                   taken: set<string>, ts: set<string>, e: seq<(string, ProcPath)>, ext: string,
                   i: nat, check: (bool, string), name: string)
    requires i < |args| && Picked(args, checks, paths, names, taken, Some(ts), e, ext, i) && !check.0
    requires NamedFrom(args[i].0, name) && Lower(name) !in ts
    ensures Picked(args, checks + [check], paths + [CreateImagePath(check.1, name, ext)], names + [name],
                   taken, Some(ts + {Lower(name)}), e, ext, i + 1)
  {
    var checks', paths', names' := checks + [check], paths + [CreateImagePath(check.1, name, ext)], names + [name];
    assert forall j :: 0 <= j < i ==> checks'[j] == checks[j] && paths'[j] == paths[j] && names'[j] == names[j];
    assert PlacedUpTo(args, checks', paths', names', ext, i + 1);
    assert InUse(checks', names', taken, Some(ts + {Lower(name)}), i + 1);
    assert NamesDiffer(checks', names', i + 1) by {
      NamesDifferNext(checks, names, i, check, name);
    }
  }

  /** A name that differs from those given so far keeps them different. */
  lemma NamesDifferNext(checks: seq<(bool, string)>, names: seq<string>, i: nat, check: (bool, string), name: string)
    requires i == |checks| == |names| && NamesDiffer(checks, names, i)
    requires forall j :: 0 <= j < i && !checks[j].0 ==> Lower(names[j]) != Lower(name)
    ensures NamesDiffer(checks + [check], names + [name], i + 1)
  {
    var checks', names' := checks + [check], names + [name];
    forall j, k | 0 <= j < k < i + 1 && !checks'[j].0 && !checks'[k].0
      ensures Lower(names'[j]) != Lower(names'[k])
    {
      if k == i {
        assert names'[j] == names[j] && names'[k] == name;
      } else {
        assert names'[j] == names[j] && names'[k] == names[k] && checks'[j] == checks[j] && checks'[k] == checks[k];
      }
    }
  }

  /** Within one folder, the image path determines the name, for names that
      are not rooted paths. */
  lemma ImagePathsInjective(folder: string, a: string, b: string, ext: string)
    requires a != [] && b != [] && !IsPathRooted(a) && !IsPathRooted(b)
    ensures CreateImagePath(folder, a, ext) == CreateImagePath(folder, b, ext) ==> a == b
  {
    var p := if folder == [] then "" else if IsPathBreak(folder[|folder| - 1]) then folder else folder + "\\";
    assert CreateImagePath(folder, a, ext) == p + a + ("." + ext) by {
      assert Combine(folder, a) == p + a;
    }
    assert CreateImagePath(folder, b, ext) == p + b + ("." + ext) by {
      assert Combine(folder, b) == p + b;
    }
    if CreateImagePath(folder, a, ext) == CreateImagePath(folder, b, ext) {
      SameBetween(p, a, b, "." + ext);
    }
  }

  /** A sequence framed by the same prefix and suffix is determined by the
      whole. */
  lemma SameBetween(p: string, a: string, b: string, s: string)
    requires p + a + s == p + b + s
    ensures a == b
  {
    var x := p + a + s;
    assert |a| == |b|;
    assert a == x[|p|..|p| + |a|];
  }

  /** A name that is not a rooted path stays so when masked or de-masked. */
  lemma NamedNotRooted(hint: (Option<nat>, string), name: string)
    requires hint.1 != [] && !IsPathRooted(hint.1) && NamedFrom(hint, name)
    ensures name != [] && !IsPathRooted(name)
  {
    if name != hint.1 {
      var k: nat :| k < ULongLimit && name == Masked(hint.1, k);
      assert name[0] == hint.1[0];
      if |hint.1| >= 2 {
        assert name[1] == hint.1[1];
      } else {
        assert name[1] == TagSeparatorChar;
      }
    }
  }

  /** The de-masked part of a tag that is not a rooted path is not one
      either. */
  lemma DemaskNotRooted(tag: string)
    requires tag != [] && !IsPathRooted(tag)
    ensures !IsPathRooted(Demask(tag).1)
  {
    var n := Demask(tag).1;
    if n != tag {
      assert n[0] == tag[0];
      if |n| >= 2 {
        assert n[1] == tag[1];
      }
    }
  }

  /** The folder the batch SaveToFile saves to: the folder name with its
      invalid characters replaced, combined with the working directory, with
      an ending separator. */
  function BatchFolder(workingDirectory: string, folderName: string, invalid: set<char>): string {
    AddEndingSlash(Combine(workingDirectory, ReplaceInvalidPathChars(folderName, invalid)))
  }

  /** The batch folder, when it checks out, is a folder (or, when empty, the
      working directory, which is then empty too). */
  lemma BatchFolderChecks(workingDirectory: string, folderName: string, invalid: set<char>, ext: string)
    ensures var folder := BatchFolder(workingDirectory, folderName, invalid);
            CheckImagePath(folder, workingDirectory, ext).Ok? ==> CheckImagePath(folder, workingDirectory, ext).value == (false, folder)
  {
    var folder := BatchFolder(workingDirectory, folderName, invalid);
    if folder != [] {
      assert IsDirectory(folder);
    }
  }

  /** Maps whose tags are not rooted paths, saved under names that differ
      ignoring case, go to different files of the folder. */
  lemma BatchPathsDistinct(folder: string, tags: seq<string>, names: seq<string>, ext: string, j: nat, k: nat)
    requires |names| == |tags| && j < k < |tags|
    requires tags[j] != [] && !IsPathRooted(tags[j]) && NamedFrom((None, Demask(tags[j]).1), names[j])
    requires tags[k] != [] && !IsPathRooted(tags[k]) && NamedFrom((None, Demask(tags[k]).1), names[k])
    requires Lower(names[j]) != Lower(names[k])
    ensures CreateImagePath(folder, names[j], ext) != CreateImagePath(folder, names[k], ext)
  {
    DemaskNotRooted(tags[j]);
    DemaskNotRooted(tags[k]);
    NamedNotRooted((None, Demask(tags[j]).1), names[j]);
    NamedNotRooted((None, Demask(tags[k]).1), names[k]);
    ImagePathsInjective(folder, names[j], names[k], ext);
  }

  /** What GetUniqueProcessor's answer means for a batch: every request
      goes to the one folder, under a name its de-masked tag can give, and
      the paths differ when no tag is a rooted path. */
  lemma BatchAnswers(ps: seq<Processor>, folder: string, args: seq<((Option<nat>, string), string)>,
                     paths: seq<string>, checks: seq<(bool, string)>, names: seq<string>,
                     workingDirectory: string, ext: string)
    requires |args| == |ps| == |paths| == |checks| == |names|
    requires forall j :: 0 <= j < |ps| ==> ps[j].tag != [] && args[j] == ((None, Demask(ps[j].tag).1), folder)
    requires forall j :: 0 <= j < |args| ==> CheckImagePath(args[j].1, workingDirectory, ext) == Ok(checks[j])
    requires forall j :: 0 <= j < |args| ==> Placed(args[j].0, checks[j], paths[j], names[j], ext)
    requires NamesDiffer(checks, names, |args|)
    requires CheckImagePath(folder, workingDirectory, ext).Ok? ==> CheckImagePath(folder, workingDirectory, ext).value == (false, folder)
    ensures forall j :: 0 <= j < |ps| ==>
              !checks[j].0 && NamedFrom((None, Demask(ps[j].tag).1), names[j]) && paths[j] == CreateImagePath(folder, names[j], ext)
    ensures forall j, k :: 0 <= j < k < |ps| ==> Lower(names[j]) != Lower(names[k])
    ensures (forall j :: 0 <= j < |ps| ==> !IsPathRooted(ps[j].tag)) ==>
              forall j, k :: 0 <= j < k < |ps| ==> paths[j] != paths[k]
  {
    forall j | 0 <= j < |ps|
      ensures !checks[j].0 && NamedFrom((None, Demask(ps[j].tag).1), names[j]) && paths[j] == CreateImagePath(folder, names[j], ext)
    {
      assert args[j].1 == folder;
    }
    if forall j :: 0 <= j < |ps| ==> !IsPathRooted(ps[j].tag) {
      var tags := seq(|ps|, i requires 0 <= i < |ps| => ps[i].tag);
      forall j, k | 0 <= j < k < |ps| ensures paths[j] != paths[k] {
        BatchPathsDistinct(folder, tags, names, ext, j, k);
      }
    }
  }

  /** Adding a key into a freed slot moves the keys after it: with "a",
      a freed slot and "c", where "c" is selected at cached index 1, adding
      "b" fills the freed slot and puts "c" at index 2.  BaseAddElement as
      written keeps the cached index, so SelectedIndex then answers 1, the
      index of "b"; resetting the cache (as BaseAddElement here does) keeps
      it right. */
  lemma StaleSelectedIndex(pa: ProcPath, pb: ProcPath, pc: ProcPath)
    ensures var d := Dict([Some(("a", pa)), None, Some(("c", pc))], [1]);
            d.Valid() && CacheValidFor(d, "c", 1) && !d.ContainsKey(GetStringKey("b")) &&
            !CacheValidFor(d.Add(GetStringKey("b"), pb), "c", 1) &&
            SelectedIndexFor(d.Add(GetStringKey("b"), pb), "c") == 2
  {
    var d := Dict([Some(("a", pa)), None, Some(("c", pc))], [1]);
    StaleBefore(d, pa, pc);
    assert GetStringKey("b") == "b" && GetStringKey("c") == "c";
    StaleAfter(d.Add("b", pb), pa, pb, pc);
  }

  /** Before the add: "c" is at index 1 and "b" is absent. */
  lemma StaleBefore(d: Dict<ProcPath>, pa: ProcPath, pc: ProcPath)
    requires d == Dict([Some(("a", pa)), None, Some(("c", pc))], [1])
    ensures d.Valid() && d.Keys() == ["a", "c"] && SelectedIndexFor(d, "c") == 1
  {
    ThreeSlots(Some(("a", pa)), None, Some(("c", pc)));
    assert GetStringKey("c") == "c";
    assert IndexOf(["a", "c"], "c") == 1 by {
      assert ["a", "c"][1..] == ["c"];
    }
  }

  /** After the add: "b" fills the freed slot and "c" is at index 2. */
  lemma StaleAfter(d': Dict<ProcPath>, pa: ProcPath, pb: ProcPath, pc: ProcPath)
    requires d'.slots == [Some(("a", pa)), Some(("b", pb)), Some(("c", pc))]
    ensures SelectedIndexFor(d', "c") == 2
  {
    ThreeSlots(Some(("a", pa)), Some(("b", pb)), Some(("c", pc)));
    assert d'.Keys() == ["a", "b", "c"];
    assert GetStringKey("c") == "c";
    assert IndexOf(["a", "b", "c"], "c") == 2 by {
      assert ["a", "b", "c"][1..] == ["b", "c"] && ["b", "c"][1..] == ["c"];
    }
  }

  /** The entries of three slots, slot by slot. */
  lemma ThreeSlots(x: Option<(string, ProcPath)>, y: Option<(string, ProcPath)>, z: Option<(string, ProcPath)>)
    ensures EntriesOf([x, y, z]) == OneSlot(x) + OneSlot(y) + OneSlot(z)
  {
    assert [x, y, z] == [x] + [y] + [z];
    EntriesOfAppend([x] + [y], [z]);
    EntriesOfAppend([x], [y]);
    assert [x][1..] == [] && [y][1..] == [] && [z][1..] == [];
  }

  function OneSlot(x: Option<(string, ProcPath)>): seq<(string, ProcPath)> {
    if x.Some? then [x.value] else []
  }

  lemma EmptyIndex()
    ensures IndexValid(Dict.Empty(), map[])
  {
  }

  class ProcessorStorage {
    /** DictionaryByKey. */
    var byKey: Dict<ProcPath>
    /** DictionaryByHash. */
    var byHash: Buckets
    /** _selectedPath. */
    var selectedPath: string
    /** IntSelectedIndex: the cached SelectedIndex, or -1. */
    var intSelectedIndex: int
    /** LongOperationsAllowed. */
    var longOperationsAllowed: bool
    /** The identity the next map read from a file gets (a fresh object in
        the source). */
    var nextId: nat
    const kind: Kind
    const workingDirectory: string
    const extImg: string

    ghost predicate Valid()
      reads this`byKey, this`byHash, this`nextId, this`selectedPath, this`intSelectedIndex
    {
      Stored(byKey, byHash, nextId) && CacheValidFor(byKey, selectedPath, intSelectedIndex)
    }


    function Count(): nat
      reads this`byKey
    {
      byKey.Count()
    }

    function Entries(): seq<(string, ProcPath)>
      reads this`byKey
    {
      byKey.Entries()
    }

    /** The map `p` is held by the store. */
    predicate Holds(p: Processor)
      reads this`byKey
    {
      HeldIn(Entries(), p)
    }

    ghost function SelectedIndexSpec(): int
      reads this`byKey, this`selectedPath
    {
      SelectedIndexFor(byKey, selectedPath)
    }

    constructor (kind: Kind, workingDirectory: string, extImg: string)
      ensures this.kind == kind && this.workingDirectory == workingDirectory && this.extImg == extImg
      ensures Valid() && Entries() == [] && byHash == map[]
      ensures selectedPath == [] && intSelectedIndex == -1 && longOperationsAllowed
    {
      this.kind := kind;
      this.workingDirectory := workingDirectory;
      this.extImg := extImg;
      byKey := Dict.Empty();
      byHash := map[];
      selectedPath := [];
      intSelectedIndex := -1;
      longOperationsAllowed := true;
      nextId := 0;
    }

    /** RecognizeProcessorStorage's constructor: a blank extension is
        refused. */
    static method NewRecognize(path: string, minWidth: int, maxWidth: int, minHeight: int, maxHeight: int, extImg: string)
      returns (r: Result<ProcessorStorage, StoreError>)
      ensures IsBlank(extImg) <==> r.Err?
      ensures r.Err? ==> r.error == BlankExtension
      ensures r.Ok? ==> fresh(r.value) && r.value.Valid() && r.value.Entries() == [] &&
                        r.value.kind == RecognizeStore(minWidth, maxWidth, minHeight, maxHeight) &&
                        r.value.workingDirectory == path && r.value.extImg == extImg
    {
      if IsBlank(extImg) {
        return Err(BlankExtension);
      }
      var s := new ProcessorStorage(RecognizeStore(minWidth, maxWidth, minHeight, maxHeight), path, extImg);
      return Ok(s);
    }

    /** The indexer this[int]: the map and path at a position of the key
        order, or (null, "") for a position outside the store; with the
        count either way. */
    function At(index: int): (r: (Option<Processor>, string, nat))
      reads this`byKey
      ensures r.2 == Count()
      ensures r.0.Some? <==> 0 <= index < Count()
      ensures r.0.None? ==> r.1 == []
      ensures r.0.Some? ==> ProcPath(r.0.value, r.1) == Entries()[index].1
    {
      if index < 0 || index >= Count() then (None, [], Count())
      else (Some(Entries()[index].1.processor), Entries()[index].1.path, Count())
    }

    /** The indexer this[string]: the map stored under the key of `fullPath`,
        or (null, "") for a blank path or an absent key; with the count. */
    function AtPath(fullPath: string): (r: (Option<Processor>, string, nat))
      reads this`byKey
      ensures r.2 == Count()
      ensures r.0.Some? <==> !IsBlank(fullPath) && byKey.ContainsKey(GetStringKey(fullPath))
      ensures r.0.None? ==> r.1 == []
      ensures r.0.Some? ==> (GetStringKey(fullPath), ProcPath(r.0.value, r.1)) in Entries()
    {
      if IsBlank(fullPath) then (None, [], Count())
      else
        match byKey.Get(GetStringKey(fullPath))
        case Some(pp) => (Some(pp.processor), pp.path, Count())
        case None => (None, [], Count())
    }

    /** The two indexers agree: the entry at a position is the one found by
        its own path, and that path names the same key. */
    lemma IndexersAgree(index: int)
      requires Valid() && 0 <= index < Count()
      ensures AtPath(At(index).1) == At(index)
      ensures GetStringKey(At(index).1) == byKey.Keys()[index]
    {
      var e := Entries();
      KeyPosition(byKey, index);
      assert e[index].0 == GetStringKey(e[index].1.path);
    }

    /** IsSelectedOne: the recognition store asks only whether a path is
        selected; the image store (its override) whether the cached index is
        set or the selected path is a key of the store. */
    function IsSelectedOne(): bool
      reads this
    {
      if kind.RecognizeStore? then selectedPath != []
      else intSelectedIndex > -1 || (selectedPath != [] && byKey.ContainsKey(GetStringKey(selectedPath)))
    }

    /** In the image store a map is selected exactly when the selected path
        is held, that is when SelectedIndex is not -1. */
    lemma ImageIsSelectedOne()
      requires Valid() && kind.ImageStore?
      ensures IsSelectedOne() <==> SelectedIndexSpec() >= 0
      ensures IsSelectedOne() <==> selectedPath != [] && byKey.ContainsKey(GetStringKey(selectedPath))
    {
    }

    /** The SelectedPath setter: any assignment resets the cached index. */
    method SetSelectedPath(value: string)
      requires Valid()
      modifies this`selectedPath, this`intSelectedIndex
      ensures Valid()
      ensures selectedPath == value && intSelectedIndex == -1
    {
      selectedPath := value;
      intSelectedIndex := -1;
    }

    /** The SelectedIndex getter: the cached value when set, else the
        position of the selected path's key, which is then cached. */
    method GetSelectedIndex() returns (r: int)
      requires Valid()
      modifies this`intSelectedIndex
      ensures Valid()
      ensures r == SelectedIndexSpec() && intSelectedIndex == r
    {
      if intSelectedIndex > -1 {
        return intSelectedIndex;
      }
      if selectedPath == [] {
        return -1;
      }
      var findKey := GetStringKey(selectedPath);
      var index := IndexOf(byKey.Keys(), findKey);
      intSelectedIndex := if index < byKey.Count() then index else -1;
      return intSelectedIndex;
    }

    /** BaseAddElement: puts the map under the key of its path in the key
        index and appends it to its hash bucket, creating the bucket when
        there is none.  A blank path or a key already present is refused
        before either index changes.  The cached selected index is reset,
        since the new entry may take a freed slot before the selected one. */
    method BaseAddElement(fullPath: string, processor: Processor) returns (r: Result<(), StoreError>)
      requires Valid()
      requires FreshMap(byKey, processor) && processor.id < nextId
      modifies this
      ensures Valid()
      ensures IsBlank(fullPath) ==> r == Err(BlankPath)
      ensures !IsBlank(fullPath) && old(byKey.ContainsKey(GetStringKey(fullPath))) ==>
                r == Err(DuplicateKey(GetStringKey(fullPath)))
      ensures r.Ok? <==> !IsBlank(fullPath) && !old(byKey.ContainsKey(GetStringKey(fullPath)))
      ensures r.Err? ==> byKey == old(byKey) && byHash == old(byHash) && intSelectedIndex == old(intSelectedIndex)
      ensures r.Ok? ==> byKey == old(byKey).Add(GetStringKey(fullPath), ProcPath(processor, fullPath)) &&
                        byHash == BucketAdd(old(byHash), CrcIntCalc.GetHash(processor), ProcPath(processor, fullPath)) &&
                        intSelectedIndex == -1
      ensures selectedPath == old(selectedPath) && longOperationsAllowed == old(longOperationsAllowed) && nextId == old(nextId)
    {
      var key := GetStringKey(fullPath);
      if IsBlank(fullPath) {
        return Err(BlankPath);
      }
      if byKey.ContainsKey(key) {
        return Err(DuplicateKey(key));
      }
      intSelectedIndex := -1;
      AddNew(fullPath, processor);
      return Ok(());
    }

    /** BaseAddElement as the source writes it: IntSelectedIndex is left as
        it was.  The indices stay in step, but the cached index may no longer
        be the selected one (see StaleSelectedIndex). */
    method BaseAddElementAsWritten(fullPath: string, processor: Processor) returns (r: Result<(), StoreError>)
      requires Stored(byKey, byHash, nextId) && FreshMap(byKey, processor) && processor.id < nextId
      modifies this
      ensures Stored(byKey, byHash, nextId)
      ensures IsBlank(fullPath) ==> r == Err(BlankPath)
      ensures !IsBlank(fullPath) && old(byKey.ContainsKey(GetStringKey(fullPath))) ==>
                r == Err(DuplicateKey(GetStringKey(fullPath)))
      ensures r.Ok? <==> !IsBlank(fullPath) && !old(byKey.ContainsKey(GetStringKey(fullPath)))
      ensures r.Err? ==> byKey == old(byKey) && byHash == old(byHash)
      ensures r.Ok? ==> byKey == old(byKey).Add(GetStringKey(fullPath), ProcPath(processor, fullPath)) &&
                        byHash == BucketAdd(old(byHash), CrcIntCalc.GetHash(processor), ProcPath(processor, fullPath))
      ensures intSelectedIndex == old(intSelectedIndex) && selectedPath == old(selectedPath)
      ensures longOperationsAllowed == old(longOperationsAllowed) && nextId == old(nextId)
    {
      var key := GetStringKey(fullPath);
      if IsBlank(fullPath) {
        return Err(BlankPath);
      }
      if byKey.ContainsKey(key) {
        return Err(DuplicateKey(key));
      }
      AddNew(fullPath, processor);
      return Ok(());
    }

    /** The insertion both forms of BaseAddElement share, for a path that is
        not blank and a key not yet present; the cached index is untouched. */
    method AddNew(fullPath: string, processor: Processor)
      requires Stored(byKey, byHash, nextId) && Addable(byKey, ProcPath(processor, fullPath), nextId)
      modifies this`byKey, this`byHash
      ensures Stored(byKey, byHash, nextId)
      ensures byKey == old(byKey).Add(GetStringKey(fullPath), ProcPath(processor, fullPath))
      ensures byHash == BucketAdd(old(byHash), CrcIntCalc.GetHash(processor), ProcPath(processor, fullPath))
    {
      var pp := ProcPath(processor, fullPath);
      ghost var p := AddStep(byKey, byHash, pp, nextId);
      byKey, byHash := byKey.Add(GetStringKey(fullPath), pp), BucketAdd(byHash, CrcIntCalc.GetHash(processor), pp);
    }

    /** RemoveProcessor(Processor): finds the map (by identity) in its hash
        bucket, deletes it from both indices, drops the bucket once empty,
        clears SelectedPath when it names the removed path (ignoring case)
        and resets the cached index. */
    method RemoveProcessor(processor: Option<Processor>) returns (result: bool, ghost q: nat)
      requires Valid()
      modifies this`byKey, this`byHash, this`selectedPath, this`intSelectedIndex
      ensures Valid()
      ensures result <==> processor.Some? && old(Holds(processor.value))
      ensures !result ==> byKey == old(byKey) && byHash == old(byHash) &&
                          selectedPath == old(selectedPath) && intSelectedIndex == old(intSelectedIndex)
      ensures result ==> q < old(Count()) && old(Entries())[q].1.processor == processor.value &&
                         DeletedAt(Entries(), old(Entries()), q) && intSelectedIndex == -1 &&
                         selectedPath == (if EqualsIgnoreCase(old(Entries())[q].1.path, old(selectedPath)) then [] else old(selectedPath))
      ensures processor.Some? ==> ValuesWithoutMap(Entries(), old(Entries()), processor.value)
      ensures selectedPath == SelectionAfter(Entries(), old(Entries()), old(selectedPath))
      ensures KeysWithin(Entries(), old(Entries()))
    {
      ghost var e0, s0 := Entries(), selectedPath;
      q := 0;
      if processor.None? {
        return false, q;
      }
      var p := processor.value;
      var hashCode := CrcIntCalc.GetHash(p);
      HeldIffBucketed(byKey, byHash, p);
      if hashCode !in byHash {
        NotHeldValues(Entries(), p);
        return false, q;
      }
      var ph := byHash[hashCode];
      var index := 0;
      while index < |ph| && ph[index].processor != p
        invariant 0 <= index <= |ph|
        invariant forall j :: 0 <= j < index ==> ph[j].processor != p
      {
        index := index + 1;
      }
      if index == |ph| {
        NotHeldValues(Entries(), p);
        return false, q;
      }
      q := RemoveEntry(hashCode, index);
      SelectionStep(Entries(), e0, q, s0);
      return true, q;
    }

    /** The removal step of RemoveProcessor, for entry i of bucket h. */
    method RemoveEntry(h: int, i: nat) returns (ghost q: nat)
      requires Valid() && h in byHash && i < |byHash[h]|
      modifies this`byKey, this`byHash, this`selectedPath, this`intSelectedIndex
      ensures Removed(byKey, byHash, old(byKey), old(byHash), h, i, q, nextId) && intSelectedIndex == -1
      ensures selectedPath == (if EqualsIgnoreCase(old(byHash[h][i].path), old(selectedPath)) then [] else old(selectedPath))
    {
      var path := byHash[h][i].path;
      var d, b := byKey.Remove(GetStringKey(path)).0, BucketRemove(byHash, h, i);
      q := RemoveStep(byKey, byHash, h, i, nextId, d, b);
      var sp := if EqualsIgnoreCase(path, selectedPath) then [] else selectedPath;
      byKey, byHash, selectedPath, intSelectedIndex := d, b, sp, -1;
    }

    /** GetLatestProcessor: on an empty store the index becomes 0 and nothing
        is returned; otherwise an index outside the store moves to the last
        entry, whose path becomes the selection. */
    method GetLatestProcessor(index: int) returns (newIndex: int, processor: Option<Processor>, path: string, count: nat)
      requires Valid()
      modifies this`selectedPath, this`intSelectedIndex
      ensures Valid()
      ensures count == Count()
      ensures Count() == 0 ==> newIndex == 0 && processor.None? && path == [] &&
                               selectedPath == old(selectedPath) && intSelectedIndex == old(intSelectedIndex)
      ensures Count() > 0 ==> newIndex == (if 0 <= index < Count() then index else Count() - 1)
      ensures Count() > 0 ==> processor == Some(Entries()[newIndex].1.processor) && path == Entries()[newIndex].1.path
      ensures Count() > 0 ==> selectedPath == path && SelectedIndexSpec() == newIndex
    {
      if Count() == 0 {
        return 0, None, [], 0;
      }
      count := Count();
      newIndex := index;
      if newIndex < 0 || newIndex >= count {
        newIndex := count - 1;
      }
      var r := At(newIndex);
      processor, path := r.0, r.1;
      IndexersAgree(newIndex);
      KeyPosition(byKey, newIndex);
      SetSelectedPath(path);
    }

    /** GetFirstProcessor: on an empty store the index becomes 0 and the
        selected path is returned; with useLastIndex the selected index is
        used, and when nothing is selected nothing is returned; an index
        outside the store moves to the first entry, whose path becomes the
        selection. */
    method GetFirstProcessor(index: int, useLastIndex: bool) returns (newIndex: int, processor: Option<Processor>, path: string, count: nat)
      requires Valid()
      modifies this`selectedPath, this`intSelectedIndex
      ensures Valid()
      ensures count == Count()
      ensures Count() == 0 ==> newIndex == 0 && processor.None? && path == old(selectedPath) &&
                               selectedPath == old(selectedPath) && intSelectedIndex == old(intSelectedIndex)
      ensures Count() > 0 && useLastIndex && old(SelectedIndexSpec()) < 0 ==>
                newIndex == index && processor.None? && path == old(selectedPath) &&
                selectedPath == old(selectedPath) && intSelectedIndex == -1
      ensures Count() > 0 && (!useLastIndex || old(SelectedIndexSpec()) >= 0) ==>
                var start := if useLastIndex then old(SelectedIndexSpec()) else index;
                newIndex == (if 0 <= start < Count() then start else 0) &&
                processor == Some(Entries()[newIndex].1.processor) && path == Entries()[newIndex].1.path &&
                selectedPath == path && SelectedIndexSpec() == newIndex
      ensures Count() > 0 && useLastIndex && old(SelectedIndexSpec()) >= 0 ==>
                GetStringKey(path) == GetStringKey(old(selectedPath))
    {
      if Count() == 0 {
        return 0, None, selectedPath, 0;
      }
      count := Count();
      newIndex := index;
      if useLastIndex {
        var lastIndex := GetSelectedIndex();
        if lastIndex < 0 {
          return newIndex, None, selectedPath, count;
        }
        newIndex := lastIndex;
      }
      if newIndex < 0 || newIndex >= count {
        newIndex := 0;
      }
      var r := At(newIndex);
      processor, path := r.0, r.1;
      IndexersAgree(newIndex);
      KeyPosition(byKey, newIndex);
      SetSelectedPath(path);
    }

    /** Clear: empties both indices and the selection; LongOperationsAllowed
        is left as it is. */
    method Clear()
      requires Valid()
      modifies this
      ensures Valid()
      ensures Entries() == [] && byHash == map[] && selectedPath == [] && intSelectedIndex == -1
      ensures longOperationsAllowed == old(longOperationsAllowed) && nextId == old(nextId)
    {
      EmptyIndex();
      byKey := Dict.Empty();
      byHash := map[];
      selectedPath := [];
      intSelectedIndex := -1;
    }

    /** RemoveProcessor(string): an empty path removes nothing; a file path
        removes the map stored under its key; a directory path removes, while
        LongOperationsAllowed holds, every map whose key starts with it
        (ignoring case).  `cancelAt` is the step at which another thread
        clears LongOperationsAllowed, if any: the removal then stops and
        reports false, the maps already removed staying removed. */
    method RemoveProcessorPath(fullPath: string, cancelAt: Option<nat>) returns (result: bool)
      requires Valid()
      modifies this`byKey, this`byHash, this`selectedPath, this`intSelectedIndex, this`longOperationsAllowed
      ensures Valid()
      ensures selectedPath == SelectionAfter(Entries(), old(Entries()), old(selectedPath))
      ensures !IsDirectory(fullPath) || (old(longOperationsAllowed) &&
                (cancelAt.None? || cancelAt.value >= |MatchingMaps(old(Entries()), fullPath)|)) ==>
                longOperationsAllowed == old(longOperationsAllowed) &&
                (result <==> AnyCovered(old(Entries()), fullPath)) &&
                ValuesUncovered(Entries(), old(Entries()), fullPath) &&
                selectedPath == (if GetStringKey(old(selectedPath)) in KeysOf(old(Entries())) &&
                                    Covers(fullPath, GetStringKey(old(selectedPath))) then [] else old(selectedPath))
      ensures IsDirectory(fullPath) && !old(longOperationsAllowed) ==>
                !result && !longOperationsAllowed && byKey == old(byKey) && byHash == old(byHash) && selectedPath == old(selectedPath)
      ensures IsDirectory(fullPath) && old(longOperationsAllowed) &&
              cancelAt.Some? && cancelAt.value < |MatchingMaps(old(Entries()), fullPath)| ==>
                !result && !longOperationsAllowed &&
                Entries() == Keep(old(Entries()), MatchingMaps(old(Entries()), fullPath)[..cancelAt.value])
    {
      ghost var e0, s0 := Entries(), selectedPath;
      if fullPath == [] {
        result := false;
      } else if !IsDirectory(fullPath) {
        result := RemoveFile(fullPath);
      } else if !longOperationsAllowed {
        result := false;
      } else {
        result := RemoveDirectory(fullPath, cancelAt);
      }
      if ValuesUncovered(Entries(), e0, fullPath) {
        SelectionUncovered(Entries(), e0, fullPath, s0);
      }
    }

    /** RemoveProcessor(string) for a file path: the map found by the
        indexer, if any, is removed. */
    method RemoveFile(fullPath: string) returns (result: bool)
      requires Valid() && fullPath != [] && !IsDirectory(fullPath)
      modifies this`byKey, this`byHash, this`selectedPath, this`intSelectedIndex
      ensures Valid()
      ensures result <==> AnyCovered(old(Entries()), fullPath)
      ensures ValuesUncovered(Entries(), old(Entries()), fullPath)
      ensures selectedPath == SelectionAfter(Entries(), old(Entries()), old(selectedPath))
      ensures selectedPath == SelectionAfterFile(old(Entries()), fullPath, old(selectedPath))
    {
      ghost var e0, s0 := Entries(), selectedPath;
      var found := AtPath(fullPath);
      FileCovered(Entries(), fullPath, if found.0.Some? then Some(ProcPath(found.0.value, found.1)) else None);
      ghost var q;
      result, q := RemoveProcessor(found.0);
      SelectionFile(Entries(), e0, fullPath, s0);
    }

    /** RemoveProcessor(string) for a directory path, while
        LongOperationsAllowed holds: the maps of the keys that start with the
        path are collected first, then removed one by one. */
    method RemoveDirectory(fullPath: string, cancelAt: Option<nat>) returns (result: bool)
      requires Valid() && IsDirectory(fullPath) && longOperationsAllowed
      modifies this`byKey, this`byHash, this`selectedPath, this`intSelectedIndex, this`longOperationsAllowed
      ensures Valid()
      ensures selectedPath == SelectionAfter(Entries(), old(Entries()), old(selectedPath))
      ensures cancelAt.None? || cancelAt.value >= |MatchingMaps(old(Entries()), fullPath)| ==>
                longOperationsAllowed &&
                (result <==> AnyCovered(old(Entries()), fullPath)) &&
                ValuesUncovered(Entries(), old(Entries()), fullPath)
      ensures cancelAt.Some? && cancelAt.value < |MatchingMaps(old(Entries()), fullPath)| ==>
                !result && !longOperationsAllowed &&
                Entries() == Keep(old(Entries()), MatchingMaps(old(Entries()), fullPath)[..cancelAt.value])
    {
      ghost var e := Entries();
      var arrNeedRemove := MatchingMaps(Entries(), fullPath);
      MatchingDistinct(e, fullPath);
      forall x | x in arrNeedRemove ensures HeldIn(e, x) {
        MatchingMember(e, fullPath, x);
      }
      result := RemoveEach(arrNeedRemove, cancelAt);
      if cancelAt.None? || cancelAt.value >= |arrNeedRemove| {
        DirectoryRemoved(e, fullPath);
      }
    }

    /** The removal loop of RemoveProcessor(string): each map in turn, until
        the step `cancelAt` at which LongOperationsAllowed is cleared. */
    method RemoveEach(arr: seq<Processor>, cancelAt: Option<nat>) returns (result: bool)
      requires Valid() && longOperationsAllowed && DistinctSeq(arr)
      requires forall x :: x in arr ==> HeldIn(Entries(), x)
      modifies this`byKey, this`byHash, this`selectedPath, this`intSelectedIndex, this`longOperationsAllowed
      ensures Valid()
      ensures selectedPath == SelectionAfter(Entries(), old(Entries()), old(selectedPath))
      ensures cancelAt.Some? && cancelAt.value < |arr| ==>
                Entries() == Keep(old(Entries()), arr[..cancelAt.value]) && !longOperationsAllowed && !result
      ensures cancelAt.None? || cancelAt.value >= |arr| ==>
                Entries() == Keep(old(Entries()), arr) && longOperationsAllowed && (result <==> |arr| > 0)
    {
      var n := if cancelAt.Some? && cancelAt.value < |arr| then cancelAt.value else |arr|;
      result := RemovePrefix(arr, n);
      if n < |arr| {
        longOperationsAllowed := false;
        result := false;
      } else {
        assert arr[..n] == arr;
      }
    }

    /** The first n steps of the removal loop, none of them cancelled. */
    method RemovePrefix(arr: seq<Processor>, n: nat) returns (result: bool)
      requires Valid() && DistinctSeq(arr) && n <= |arr|
      requires forall x :: x in arr ==> HeldIn(Entries(), x)
      modifies this`byKey, this`byHash, this`selectedPath, this`intSelectedIndex
      ensures Valid()
      ensures selectedPath == SelectionAfter(Entries(), old(Entries()), old(selectedPath))
      ensures Entries() == Keep(old(Entries()), arr[..n])
      ensures result <==> n > 0
    {
      ghost var e0, s0 := Entries(), selectedPath;
      KeepNothing(e0);
      result := false;
      var i := 0;
      while i < n
        invariant i <= n
        invariant Valid()
        invariant selectedPath == SelectionAfter(Entries(), e0, s0) && KeysWithin(Entries(), e0)
        invariant result <==> i > 0
        invariant Entries() == Keep(e0, arr[..i])
      {
        ghost var e1 := Entries();
        var removed := RemoveNext(e0, arr, i);
        SelectionCompose(Entries(), e1, e0, s0);
        result := result || removed;
        i := i + 1;
      }
    }

    /** One step of the removal loop: RemoveProcessor(Processor) on arr[i],
        which the store still holds; only the entry that carried it goes. */
    method RemoveNext(ghost e0: seq<(string, ProcPath)>, arr: seq<Processor>, i: nat) returns (removed: bool)
      requires Valid() && DistinctMaps(e0) && DistinctSeq(arr) && i < |arr| && HeldIn(e0, arr[i])
      requires Entries() == Keep(e0, arr[..i])
      modifies this`byKey, this`byHash, this`selectedPath, this`intSelectedIndex
      ensures Valid() && removed
      ensures Entries() == Keep(e0, arr[..i + 1])
      ensures selectedPath == SelectionAfter(Entries(), old(Entries()), old(selectedPath))
      ensures KeysWithin(Entries(), old(Entries()))
    {
      HeldKeep(e0, arr[..i], arr[i]);
      ghost var q;
      removed, q := RemoveProcessor(Some(arr[i]));
      KeepStep(e0, arr, i, q);
    }

    /** ReplaceElement: RemoveProcessor(fullPath) drops the map the key of
        the path holds, if any; while LongOperationsAllowed holds, the new
        map is then added under the path.  The recognition store's override
        also selects the path when a map was replaced. */
    method ReplaceElement(fullPath: string, processor: Processor)
      requires Valid() && extImg != [] && IsProcessorFile(fullPath, extImg)
      requires FreshMap(byKey, processor) && processor.id < nextId
      modifies this
      ensures Valid() && nextId == old(nextId) && longOperationsAllowed == old(longOperationsAllowed)
      ensures !longOperationsAllowed ==> ValuesUncovered(Entries(), old(Entries()), fullPath)
      ensures longOperationsAllowed ==>
                ValuesReplaced(Entries(), old(Entries()), fullPath, ProcPath(processor, fullPath)) &&
                byKey.Get(GetStringKey(fullPath)) == Some(ProcPath(processor, fullPath))
      ensures kind.RecognizeStore? && longOperationsAllowed && AnyCovered(old(Entries()), fullPath) ==>
                selectedPath == fullPath
      ensures !(kind.RecognizeStore? && longOperationsAllowed && AnyCovered(old(Entries()), fullPath)) ==>
                selectedPath == SelectionAfterFile(old(Entries()), fullPath, old(selectedPath))
    {
      ghost var e0 := Entries();
      ProcessorFileNotBlank(fullPath, extImg);
      // fullPath names a map file, so RemoveProcessor(string) takes its
      // branch for a single file.
      var needReplace := RemoveFile(fullPath);
      if !longOperationsAllowed {
        return;
      }
      AddSelected(fullPath, processor, e0, needReplace);
    }

    /** What ReplaceElement does once the old maps under fullPath are
        removed: the new map is added and, in a recognition store, selected
        when it replaced one (RecognizeProcessorStorage's override). */
    method AddSelected(fullPath: string, processor: Processor, ghost e0: seq<(string, ProcPath)>, replaced: bool)
      requires Valid() && ValuesUncovered(Entries(), e0, fullPath)
      requires !IsBlank(fullPath) && !IsDirectory(fullPath)
      requires (forall i :: 0 <= i < |e0| ==> e0[i].1.processor.id != processor.id) && processor.id < nextId
      modifies this
      ensures Valid() && ValuesReplaced(Entries(), e0, fullPath, ProcPath(processor, fullPath))
      ensures byKey.Get(GetStringKey(fullPath)) == Some(ProcPath(processor, fullPath))
      ensures longOperationsAllowed == old(longOperationsAllowed) && nextId == old(nextId)
      ensures kind.RecognizeStore? && replaced ==> selectedPath == fullPath
      ensures !(kind.RecognizeStore? && replaced) ==> selectedPath == old(selectedPath)
    {
      AddCleared(fullPath, processor, e0);
      if kind.RecognizeStore? && replaced {
        SetSelectedPath(fullPath);
      }
    }

    /** The add half of ReplaceElement: once nothing under fullPath is left
        of the entries e0, BaseAddElement succeeds and the new map is the
        only value that was not in e0. */
    method AddCleared(fullPath: string, processor: Processor, ghost e0: seq<(string, ProcPath)>)
      requires Valid() && ValuesUncovered(Entries(), e0, fullPath)
      requires !IsBlank(fullPath) && !IsDirectory(fullPath)
      requires (forall i :: 0 <= i < |e0| ==> e0[i].1.processor.id != processor.id) && processor.id < nextId
      modifies this
      ensures Valid() && ValuesReplaced(Entries(), e0, fullPath, ProcPath(processor, fullPath))
      ensures byKey.Get(GetStringKey(fullPath)) == Some(ProcPath(processor, fullPath))
      ensures selectedPath == old(selectedPath) && longOperationsAllowed == old(longOperationsAllowed) && nextId == old(nextId)
    {
      ClearedForAdd(byKey, e0, fullPath, processor);
      ghost var d1, b1 := byKey, byHash;
      var r := BaseAddElement(fullPath, processor);
      assert r.Ok? && byKey == d1.Add(GetStringKey(fullPath), ProcPath(processor, fullPath));
      ghost var p := AddStep(d1, b1, ProcPath(processor, fullPath), nextId);
      InsertedValues(Entries(), d1.Entries(), (GetStringKey(fullPath), ProcPath(processor, fullPath)));
    }

    /** IntAddProcessor: reads the map at a map file path (`image` is the
        picture the file holds, None when it cannot be read) as a new map.
        When that fails and the path is to be added, whatever the store holds
        under it is removed; when it succeeds, the map replaces it.  With
        LongOperationsAllowed cleared the answer is null; otherwise a failure
        is reported as the error. */
    method IntAddProcessor(fullPath: string, needAdd: bool, image: Option<Image>)
      returns (r: Result<Option<Processor>, StoreError>)
      requires Valid() && extImg != [] && IsProcessorFile(fullPath, extImg)
      modifies this
      ensures Valid() && longOperationsAllowed == old(longOperationsAllowed)
      ensures !longOperationsAllowed ==> r == Ok(None)
      ensures var a := AddingProcessor(kind, fullPath, image, old(nextId));
              a.Err? ==> nextId == old(nextId) &&
                         (longOperationsAllowed ==> r == Err(a.error)) &&
                         (needAdd ==> ValuesUncovered(Entries(), old(Entries()), fullPath)) &&
                         (!needAdd ==> byKey == old(byKey))
      ensures var a := AddingProcessor(kind, fullPath, image, old(nextId));
              a.Ok? ==> nextId == old(nextId) + 1 &&
                        (longOperationsAllowed ==> r == Ok(Some(a.value))) &&
                        (!needAdd || !longOperationsAllowed ==> byKey == old(byKey)) &&
                        (needAdd && longOperationsAllowed ==>
                           ValuesReplaced(Entries(), old(Entries()), fullPath, ProcPath(a.value, fullPath)) &&
                           byKey.Get(GetStringKey(fullPath)) == Some(ProcPath(a.value, fullPath)))
      ensures var a := AddingProcessor(kind, fullPath, image, old(nextId));
              a.Err? ==> selectedPath == if needAdd then SelectionAfterFile(old(Entries()), fullPath, old(selectedPath))
                                         else old(selectedPath)
      ensures var a := AddingProcessor(kind, fullPath, image, old(nextId));
              a.Ok? ==> selectedPath == if !needAdd || !longOperationsAllowed then old(selectedPath)
                                        else if kind.RecognizeStore? && AnyCovered(old(Entries()), fullPath) then fullPath
                                        else SelectionAfterFile(old(Entries()), fullPath, old(selectedPath))
      ensures var a := AddingProcessor(kind, fullPath, image, old(nextId));
              needAdd && (a.Err? || longOperationsAllowed) ==> ValueSet(Entries()) == LoadStep(ValueSet(old(Entries())), fullPath, a)
    {
      ghost var e0 := Entries();
      var adding := AddingProcessor(kind, fullPath, image, nextId);
      if adding.Err? {
        if needAdd {
          ghost var s0 := selectedPath;
          ProcessorFileNotBlank(fullPath, extImg);
          var _ := RemoveProcessorPath(fullPath, None);
          SelectionFile(Entries(), e0, fullPath, s0);
          UncoveredStep(Entries(), e0, fullPath, adding);
        }
        if !longOperationsAllowed {
          return Ok(None);
        }
        return Err(adding.error);
      }
      nextId := nextId + 1;
      if !longOperationsAllowed {
        return Ok(None);
      }
      if !needAdd {
        return Ok(Some(adding.value));
      }
      ReplaceElement(fullPath, adding.value);
      if longOperationsAllowed {
        ReplacedStep(Entries(), e0, fullPath, adding);
      }
      return Ok(if longOperationsAllowed then Some(adding.value) else None);
    }

    /** The loop of AddProcessor over the map files of a directory
        (QueryProcessorFiles): it goes on while LongOperationsAllowed holds;
        `cancelAt` is the file before which another thread clears the flag,
        if any, so the turns before it are LoadPrefix.  Failures are
        collected rather than thrown. */
    method AddEach(files: seq<string>, needAdd: bool, images: string -> Option<Image>,
                   ghost read: (string, nat) -> Result<Processor, StoreError>, cancelAt: Option<nat>)
      returns (maps: seq<Processor>, errors: seq<StoreError>)
      requires Valid() && extImg != [] && forall f :: f in files ==> IsProcessorFile(f, extImg)
      requires ReadsAs(read, kind, images)
      modifies this
      ensures Valid()
      ensures longOperationsAllowed == (old(longOperationsAllowed) && (cancelAt.None? || cancelAt.value >= |files|))
      ensures var n := if !old(longOperationsAllowed) then 0
                       else if cancelAt.Some? && cancelAt.value < |files| then cancelAt.value else |files|;
              (maps, errors) == Run(read, files[..n], old(nextId)) &&
              (needAdd ==> ValueSet(Entries()) == ValuesAfterLoad(read, files, n, old(nextId), ValueSet(old(Entries())))) &&
              (!needAdd ==> byKey == old(byKey))
      ensures longOperationsAllowed ==>
                (maps, errors) == Run(read, files, old(nextId)) &&
                (needAdd ==> ValueSet(Entries()) == ValuesAfterLoad(read, files, |files|, old(nextId), ValueSet(old(Entries()))))
    {
      var n := if !longOperationsAllowed then 0
               else if cancelAt.Some? && cancelAt.value < |files| then cancelAt.value else |files|;
      if longOperationsAllowed {
        maps, errors := LoadPrefix(files, n, needAdd, images, read);
        if n < |files| {
          longOperationsAllowed := false;
        } else {
          assert files[..n] == files;
        }
      } else {
        maps, errors := [], [];
      }
    }

    /** The first n turns of the loop of AddProcessor, none of them
        cancelled. */
    method LoadPrefix(files: seq<string>, n: nat, needAdd: bool, images: string -> Option<Image>,
                      ghost read: (string, nat) -> Result<Processor, StoreError>)
      returns (maps: seq<Processor>, errors: seq<StoreError>)
      requires Valid() && extImg != [] && longOperationsAllowed && n <= |files|
      requires forall f :: f in files ==> IsProcessorFile(f, extImg)
      requires ReadsAs(read, kind, images)
      modifies this
      ensures Valid() && longOperationsAllowed
      ensures (maps, errors) == Run(read, files[..n], old(nextId))
      ensures needAdd ==> ValueSet(Entries()) == ValuesAfterLoad(read, files, n, old(nextId), ValueSet(old(Entries())))
      ensures !needAdd ==> byKey == old(byKey)
    {
      ghost var id0, v0 := nextId, ValueSet(Entries());
      maps, errors := [], [];
      for i := 0 to n
        invariant Valid() && longOperationsAllowed
        invariant (maps, errors) == Run(read, files[..i], id0) && nextId == id0 + |maps|
        invariant needAdd ==> ValueSet(Entries()) == ValuesAfterLoad(read, files, i, id0, v0)
        invariant !needAdd ==> byKey == old(byKey)
      {
        maps, errors := LoadUpTo(files, i, needAdd, images, read, id0, v0, maps, errors);
      }
    }

    /** One turn of the loop of AddProcessor, in terms of the whole list:
        after it, the first i + 1 files are loaded. */
    method LoadUpTo(files: seq<string>, i: nat, needAdd: bool, images: string -> Option<Image>,
                    ghost read: (string, nat) -> Result<Processor, StoreError>, ghost id0: nat, ghost v0: set<ProcPath>,
                    maps: seq<Processor>, errors: seq<StoreError>)
      returns (maps': seq<Processor>, errors': seq<StoreError>)
      requires Valid() && extImg != [] && longOperationsAllowed && ReadsAs(read, kind, images)
      requires i < |files| && IsProcessorFile(files[i], extImg)
      requires (maps, errors) == Run(read, files[..i], id0) && nextId == id0 + |maps|
      requires needAdd ==> ValueSet(Entries()) == ValuesAfterLoad(read, files, i, id0, v0)
      modifies this
      ensures Valid() && longOperationsAllowed
      ensures (maps', errors') == Run(read, files[..i + 1], id0) && nextId == id0 + |maps'|
      ensures needAdd ==> ValueSet(Entries()) == ValuesAfterLoad(read, files, i + 1, id0, v0)
      ensures !needAdd ==> byKey == old(byKey)
    {
      RunAppend(read, files, id0, i, (maps, errors));
      ghost var before := ValueSet(Entries());
      maps', errors' := LoadNext(files[i], needAdd, images, read, maps, errors);
      if needAdd {
        LoadedOneMore(read, files, id0, v0, i, |maps|, before, ValueSet(Entries()));
      }
    }

    /** One turn of the loop of AddProcessor: the file is read, added or
        its failure collected. */
    method LoadNext(f: string, needAdd: bool, images: string -> Option<Image>,
                    ghost read: (string, nat) -> Result<Processor, StoreError>,
                    maps: seq<Processor>, errors: seq<StoreError>)
      returns (maps': seq<Processor>, errors': seq<StoreError>)
      requires Valid() && extImg != [] && longOperationsAllowed && IsProcessorFile(f, extImg)
      requires ReadsAs(read, kind, images)
      modifies this
      ensures Valid() && longOperationsAllowed
      ensures (maps', errors') == Collect((maps, errors), read(f, old(nextId)))
      ensures nextId == old(nextId) + |maps'| - |maps|
      ensures needAdd ==> ValueSet(Entries()) == LoadStep(ValueSet(old(Entries())), f, read(f, old(nextId)))
      ensures !needAdd ==> byKey == old(byKey)
    {
      var one := IntAddProcessor(f, needAdd, images(f));
      if one.Err? {
        maps', errors' := maps, errors + [one.error];
      } else {
        maps', errors' := maps + [one.value.value], errors;
      }
    }

    /** AddProcessor: loads the map file, or the map files of the directory,
        at fullPath (`listing` is what the directory holds, `images` what
        each file holds).  Maps are added to the store when the path lies in
        the working directory.  With LongOperationsAllowed cleared the
        answer is empty; otherwise a single failure is reported as itself,
        several together, and no failure gives the maps read. */
    method AddProcessor(fullPath: string, listing: seq<string>, images: string -> Option<Image>, cancelAt: Option<nat>)
      returns (r: Result<seq<Processor>, StoreError>)
      requires Valid() && extImg != []
      modifies this
      ensures Valid()
      ensures fullPath == [] ==> r == Err(EmptyPathArgument) && byKey == old(byKey) && nextId == old(nextId)
      ensures fullPath != [] && !longOperationsAllowed ==> r == Ok([])
      ensures fullPath != [] && longOperationsAllowed ==>
                var loaded := Loaded(kind, Targets(fullPath, listing, extImg), images, old(nextId));
                (|loaded.1| == 0 ==> r == Ok(loaded.0)) &&
                (|loaded.1| == 1 ==> r == Err(loaded.1[0])) &&
                (|loaded.1| > 1 ==> r == Err(Aggregate(loaded.1)))
      ensures fullPath != [] && old(longOperationsAllowed) && cancelAt.None? ==>
                if IsWorkingDirectory(fullPath, workingDirectory, false) == Ok(true) then
                  var files := Targets(fullPath, listing, extImg);
                  ValueSet(Entries()) == ValuesAfterLoad(Reader(kind, images), files, |files|, old(nextId), ValueSet(old(Entries())))
                else byKey == old(byKey)
    {
      if fullPath == [] {
        return Err(EmptyPathArgument);
      }
      var needAdd := IsWorkingDirectory(fullPath, workingDirectory, false).value;
      var maps, errors;
      if IsProcessorFile(fullPath, extImg) {
        LoadedOne(kind, fullPath, images, nextId);
        ValuesAfterLoadOne(kind, images, fullPath, nextId, ValueSet(Entries()));
        var one := IntAddProcessor(fullPath, needAdd, images(fullPath));
        if one.Err? {
          return Err(one.error);
        }
        maps, errors := if one.value.Some? then [one.value.value] else [], [];
      } else if IsDirectory(fullPath) {
        ReaderReads(kind, images);
        maps, errors := AddEach(FilesIn(listing, extImg), needAdd, images, Reader(kind, images), cancelAt);
      } else {
        maps, errors := [], [];
      }
      if !longOperationsAllowed {
        return Ok([]);
      }
      var count := |errors|;
      if count > 1 {
        return Err(Aggregate(errors));
      }
      if count == 1 {
        return Err(errors[0]);
      }
      return Ok(maps);
    }

    /** UniqueNames: the names of the stored maps, each claimed in turn with
        IntGetUniqueProcessor from its de-masked lower-case title, so that
        every map holds one name of its own.  A map whose file name is empty
        makes ParseName fail. */
    method UniqueNames() returns (r: Result<set<string>, StoreError>)
      ensures r.Ok? ==> TakenBy(r.value, Entries())
      ensures r.Err? ==> r.error.NameFailure?
    {
      var e := byKey.Entries();
      var tagSet: set<string> := {};
      for i := 0 to |e|
        invariant TakenUpTo(tagSet, e, i)
      {
        var parsed := ParseName(StoredTitle(e[i].1));
        if parsed.Err? {
          return Err(NameFailure(parsed.error));
        }
        var name, next := IntGetUniqueName(tagSet, parsed.value);
        if name.Err? {
          return Err(NameFailure(name.error));
        }
        ClaimNext(tagSet, e, i, name.value);
        tagSet := next;
      }
      return Ok(tagSet);
    }

    /** GetUniqueProcessor: for each request (a name hint and a path to save
        to), the path itself when it is a map file of the working directory;
        otherwise a name the hint can give, free of the names the stored
        maps take (UniqueNames, computed once, when first needed) and of the
        names given before, in the folder.  A path outside the working
        directory, or to a file of another type, is an error. */
    method GetUniqueProcessor(args: seq<((Option<nat>, string), string)>)
      returns (r: Result<seq<string>, StoreError>, ghost checks: seq<(bool, string)>,
               ghost names: seq<string>, ghost taken: set<string>)
      requires HintsInRange(args)
      ensures r.Ok? ==> |r.value| == |args| == |checks| == |names|
      ensures r.Ok? ==> forall j :: 0 <= j < |args| ==> CheckImagePath(args[j].1, workingDirectory, extImg) == Ok(checks[j])
      ensures r.Ok? ==> forall j :: 0 <= j < |args| ==> Placed(args[j].0, checks[j], r.value[j], names[j], extImg)
      ensures r.Ok? ==> NamesDiffer(checks, names, |args|)
      ensures r.Ok? ==> forall j :: 0 <= j < |args| && !checks[j].0 ==> TakenBy(taken, Entries()) && Lower(names[j]) !in taken
      ensures (exists j :: 0 <= j < |args| && CheckImagePath(args[j].1, workingDirectory, extImg).Err?) ==> r.Err?
      ensures |args| > 0 && CheckImagePath(args[0].1, workingDirectory, extImg).Err? ==>
                r == Err(CheckImagePath(args[0].1, workingDirectory, extImg).error)
      ensures r.Err? ==> r.error.NotInWorkingDirectory? || r.error.WrongExtension? || r.error.NameFailure?
      ensures r.Err? && (forall j :: 0 <= j < |args| ==> CheckImagePath(args[j].1, workingDirectory, extImg).Ok?) ==>
                r.error.NameFailure?
    {
      var tagSet: Option<set<string>> := None;
      var paths: seq<string> := [];
      checks, names, taken := [], [], {};
      for i := 0 to |args|
        invariant Picked(args, checks, paths, names, taken, tagSet, Entries(), extImg, i)
        invariant forall j :: 0 <= j < i ==> CheckImagePath(args[j].1, workingDirectory, extImg) == Ok(checks[j])
      {
        var checked := CheckImagePath(args[i].1, workingDirectory, extImg);
        if checked.Err? {
          r := Err(checked.error);
          return;
        }
        if checked.value.0 {
          PickedFile(args, checks, paths, names, taken, tagSet, Entries(), extImg, i, checked.value);
          checks, paths, names := checks + [checked.value], paths + [checked.value.1], names + [[]];
          continue;
        }
        if tagSet.None? {
          var u := UniqueNames();
          if u.Err? {
            r := Err(u.error);
            return;
          }
          PickedTaken(args, checks, paths, names, taken, u.value, Entries(), extImg, i);
          tagSet, taken := Some(u.value), u.value;
        }
        var name, next := IntGetUniqueName(tagSet.value, args[i].0);
        if name.Err? {
          r := Err(NameFailure(name.error));
          return;
        }
        PickedName(args, checks, paths, names, taken, tagSet.value, Entries(), extImg, i, checked.value, name.value);
        tagSet := Some(next);
        checks := checks + [checked.value];
        paths, names := paths + [CreateImagePath(checked.value.1, name.value, extImg)], names + [name.value];
      }
      r := Ok(paths);
    }

    /** GetUniquePath: a free name for the tag in the working directory.
        The hint is the whole tag, with the number 0 when the tag itself
        reads as masked, so that the file name reads back as the tag.  An
        empty tag makes ParseName fail. */
    method GetUniquePath(tag: string) returns (r: Result<string, StoreError>, ghost name: string, ghost taken: set<string>)
      ensures tag == [] ==> r == Err(NameFailure(EmptyName))
      ensures r.Ok? ==> tag != [] && NamedFrom(Hint(tag, false), name) &&
                        r.value == CreateImagePath(workingDirectory, name, extImg)
      ensures r.Ok? ==> TakenBy(taken, Entries()) && Lower(name) !in taken
      ensures r.Err? ==> r.error.NameFailure?
    {
      var parsed := ParseName(tag);
      if parsed.Err? {
        return Err(NameFailure(parsed.error)), [], {};
      }
      var hint := (if parsed.value.0.None? then None else Some(0), tag);
      var res;
      ghost var checks, names;
      res, checks, names, taken := GetUniqueProcessor([(hint, [])]);
      assert CheckImagePath([(hint, [])][0].1, workingDirectory, extImg).Ok?;
      if res.Err? {
        return Err(res.error), [], taken;
      }
      r, name := Ok(res.value[0]), names[0];
    }

    /** SaveToFile of one map: a missing map is an error; otherwise the map
        gets a free path in the working directory (GetUniquePath of its tag),
        which becomes the selected path.  Writing the picture is not part of
        this model.  The file name reads back as the tag. */
    method SaveToFile(processor: Option<Processor>) returns (r: Result<string, StoreError>, ghost name: string, ghost taken: set<string>)
      requires Valid()
      modifies this`selectedPath, this`intSelectedIndex
      ensures Valid()
      ensures processor.None? ==> r == Err(NullArgument)
      ensures r.Err? ==> selectedPath == old(selectedPath) && intSelectedIndex == old(intSelectedIndex)
      ensures r.Ok? ==> processor.Some? && selectedPath == r.value && intSelectedIndex == -1
      ensures r.Ok? ==> processor.value.tag != [] && NamedFrom(Hint(processor.value.tag, false), name) &&
                        r.value == CreateImagePath(workingDirectory, name, extImg) &&
                        TakenBy(taken, Entries()) && Lower(name) !in taken
      ensures r.Ok? && NoPathBreak(processor.value.tag) && IsPlainExtension(extImg) ==>
                RecognizeTag(r.value) == Ok(processor.value.tag)
    {
      if processor.None? {
        return Err(NullArgument), [], {};
      }
      var path;
      path, name, taken := GetUniquePath(processor.value.tag);
      if path.Err? {
        return Err(path.error), name, taken;
      }
      if NoPathBreak(processor.value.tag) && IsPlainExtension(extImg) {
        RecognizeTagRoundTrip(workingDirectory, processor.value.tag, name, extImg);
      }
      SetSelectedPath(path.value);
      r := Ok(path.value);
    }

    /** SaveToFile of a batch: a missing list is an error; otherwise each map
        gets a free path in the batch folder, named from the de-masked part
        of its tag (ParseName fails on an empty tag).  Writing the pictures
        and creating the folder are not part of this model. */
    method SaveBatch(folderName: string, processors: Option<seq<Processor>>, invalid: set<char>)
      returns (r: Result<seq<(Processor, string)>, StoreError>, ghost names: seq<string>, ghost taken: set<string>)
      ensures processors.None? ==> r == Err(NullArgument)
      ensures processors.Some? && (exists j :: 0 <= j < |processors.value| && processors.value[j].tag == []) ==>
                r == Err(NameFailure(EmptyName))
      ensures r.Ok? ==> processors.Some? && |r.value| == |processors.value| == |names|
      ensures r.Ok? ==> forall j :: 0 <= j < |r.value| ==>
                          r.value[j].0 == processors.value[j] &&
                          NamedFrom((None, Demask(processors.value[j].tag).1), names[j]) &&
                          r.value[j].1 == CreateImagePath(BatchFolder(workingDirectory, folderName, invalid), names[j], extImg)
      ensures r.Ok? && |r.value| > 0 ==> TakenBy(taken, Entries())
      ensures r.Ok? ==> forall j :: 0 <= j < |r.value| ==> Lower(names[j]) !in taken
      ensures r.Ok? ==> forall j, k :: 0 <= j < k < |r.value| ==> Lower(names[j]) != Lower(names[k])
      ensures r.Ok? && (forall j :: 0 <= j < |r.value| ==> !IsPathRooted(processors.value[j].tag)) ==>
                forall j, k :: 0 <= j < k < |r.value| ==> r.value[j].1 != r.value[k].1
    {
      if processors.None? {
        return Err(NullArgument), [], {};
      }
      var ps := processors.value;
      if exists j :: 0 <= j < |ps| && ps[j].tag == [] {
        return Err(NameFailure(EmptyName)), [], {};
      }
      var folder := BatchFolder(workingDirectory, folderName, invalid);
      BatchFolderChecks(workingDirectory, folderName, invalid, extImg);
      r, names, taken := SaveAllTo(ps, folder);
    }

    /** Names every map of a batch in the one folder, which checks out as a
        folder whenever it checks out at all. */
    method SaveAllTo(ps: seq<Processor>, folder: string)
      returns (r: Result<seq<(Processor, string)>, StoreError>, ghost names: seq<string>, ghost taken: set<string>)
      requires forall j :: 0 <= j < |ps| ==> ps[j].tag != []
      requires CheckImagePath(folder, workingDirectory, extImg).Ok? ==>
                 CheckImagePath(folder, workingDirectory, extImg).value == (false, folder)
      ensures r.Ok? ==> |r.value| == |ps| == |names|
      ensures r.Ok? ==> forall j :: 0 <= j < |r.value| ==>
                          r.value[j].0 == ps[j] &&
                          NamedFrom((None, Demask(ps[j].tag).1), names[j]) &&
                          r.value[j].1 == CreateImagePath(folder, names[j], extImg)
      ensures r.Ok? && |r.value| > 0 ==> TakenBy(taken, Entries())
      ensures r.Ok? ==> forall j :: 0 <= j < |r.value| ==> Lower(names[j]) !in taken
      ensures r.Ok? ==> forall j, k :: 0 <= j < k < |r.value| ==> Lower(names[j]) != Lower(names[k])
      ensures r.Ok? && (forall j :: 0 <= j < |r.value| ==> !IsPathRooted(ps[j].tag)) ==>
                forall j, k :: 0 <= j < k < |r.value| ==> r.value[j].1 != r.value[k].1
    {
      var args := seq(|ps|, j requires 0 <= j < |ps| => ((None, Demask(ps[j].tag).1), folder));
      var res;
      ghost var checks;
      res, checks, names, taken := GetUniqueProcessor(args);
      if res.Err? {
        return Err(res.error), names, taken;
      }
      BatchAnswers(ps, folder, args, res.value, checks, names, workingDirectory, extImg);
      r := Ok(seq(|ps|, j requires 0 <= j < |ps| => (ps[j], res.value[j])));
    }
  }
}
