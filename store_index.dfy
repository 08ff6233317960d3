/** The two indices of the store: DictionaryByKey maps the lower-case path of
    each map file to its entry (ProcPath: the map and its path), and
    DictionaryByHash groups the same entries into buckets (ProcHash lists)
    by the content hash of the map.  This module states what keeps the two
    in step and proves that adding and removing an entry keeps them so. */
module StoreIndex {
  import opened Wrappers
  import opened Text
  import opened Paths
  import opened Processors
  import CrcIntCalc
  import opened OrderedDict

  /** ProcPath: a map and the path it is stored under. */
  datatype ProcPath = ProcPath(processor: Processor, path: string)

  /** DictionaryByHash: hash code to the bucket of entries with that hash. */
  type Buckets = map<int, seq<ProcPath>>

  /** The values of the key index, in enumeration order. */
  function ValuesOf(e: seq<(string, ProcPath)>): (vs: seq<ProcPath>)
    ensures |vs| == |e|
    ensures forall i :: 0 <= i < |e| ==> vs[i] == e[i].1
  {
    seq(|e|, i requires 0 <= i < |e| => e[i].1)
  }

  /** Each entry is stored under the key of its own path, and no path is
      blank (the ProcPath constructor refuses one). */
  ghost predicate Keyed(e: seq<(string, ProcPath)>) {
    forall i :: 0 <= i < |e| ==> e[i].0 == GetStringKey(e[i].1.path) && !IsBlank(e[i].1.path)
  }

  /** No map object is stored under two paths. */
  ghost predicate DistinctMaps(e: seq<(string, ProcPath)>) {
    forall i, j :: 0 <= i < j < |e| ==> e[i].1.processor.id != e[j].1.processor.id
  }

  predicate NoRepeats(b: seq<ProcPath>) {
    forall i, j :: 0 <= i < j < |b| ==> b[i] != b[j]
  }

  /** No bucket is empty and none lists an entry twice. */
  ghost predicate BucketsNonEmpty(byHash: Buckets) {
    forall h :: h in byHash ==> byHash[h] != [] && NoRepeats(byHash[h])
  }

  /** Every bucket entry is an entry of the key index, with that hash. */
  ghost predicate BucketsHeld(e: seq<(string, ProcPath)>, byHash: Buckets) {
    forall h, x :: h in byHash && x in byHash[h] ==>
      CrcIntCalc.GetHash(x.processor) == h && x in ValuesOf(e)
  }

  /** Every entry of the key index is in the bucket of its map's hash. */
  ghost predicate EntriesBucketed(e: seq<(string, ProcPath)>, byHash: Buckets) {
    forall i :: 0 <= i < |e| ==>
      CrcIntCalc.GetHash(e[i].1.processor) in byHash &&
      e[i].1 in byHash[CrcIntCalc.GetHash(e[i].1.processor)]
  }

  /** The hash index holds exactly the entries of the key index, each once,
      in the bucket of its map's hash, and no bucket is empty. */
  ghost predicate Bucketed(e: seq<(string, ProcPath)>, byHash: Buckets) {
    BucketsNonEmpty(byHash) && BucketsHeld(e, byHash) && EntriesBucketed(e, byHash)
  }

  /** The invariant of the two indices. */
  ghost predicate IndexValid(d: Dict<ProcPath>, byHash: Buckets) {
    d.Valid() && Keyed(d.Entries()) && DistinctMaps(d.Entries()) && Bucketed(d.Entries(), byHash)
  }

  /** A map object that the store does not hold yet. */
  predicate FreshMap(d: Dict<ProcPath>, p: Processor) {
    forall i :: 0 <= i < |d.Entries()| ==> d.Entries()[i].1.processor.id != p.id
  }

  /** ProcHash.AddProcessor, or a new ProcHash when the hash has no bucket. */
  function BucketAdd(byHash: Buckets, h: int, x: ProcPath): (r: Buckets)
    ensures r.Keys == byHash.Keys + {h}
    ensures r[h] == (if h in byHash then byHash[h] else []) + [x]
    ensures forall g :: g in byHash && g != h ==> r[g] == byHash[g]
  {
    if h in byHash then byHash[h := byHash[h] + [x]] else byHash[h := [x]]
  }

  /** ProcHash.RemoveProcessor(i), then DictionaryByHash.Remove(h) once the
      bucket is empty. */
  function BucketRemove(byHash: Buckets, h: int, i: nat): (r: Buckets)
    requires h in byHash && i < |byHash[h]|
    ensures var b := byHash[h][..i] + byHash[h][i + 1..];
            (b == [] ==> r == byHash - {h}) && (b != [] ==> r == byHash[h := b])
  {
    var b := byHash[h][..i] + byHash[h][i + 1..];
    if b == [] then byHash - {h} else byHash[h := b]
  }

  /** The values after an insertion are the old ones and the new one. */
  lemma ValuesInsert(e: seq<(string, ProcPath)>, p: nat, x: (string, ProcPath), y: ProcPath)
    requires p <= |e|
    ensures y in ValuesOf(e[..p] + [x] + e[p..]) <==> y in ValuesOf(e) || y == x.1
  {
    var E := e[..p] + [x] + e[p..];
    if y in ValuesOf(E) {
      var i :| 0 <= i < |E| && ValuesOf(E)[i] == y;
      if i < p {
        assert ValuesOf(e)[i] == y;
      } else if i > p {
        assert ValuesOf(e)[i - 1] == y;
      }
    }
    if y in ValuesOf(e) {
      var i :| 0 <= i < |e| && ValuesOf(e)[i] == y;
      if i < p {
        assert ValuesOf(E)[i] == y;
      } else {
        assert ValuesOf(E)[i + 1] == y;
      }
    }
    if y == x.1 {
      assert ValuesOf(E)[p] == y;
    }
  }

  /** A value left after a deletion was there before, and is not the
      deleted one when no two entries share a map. */
  lemma ValuesDeleteLeft(e: seq<(string, ProcPath)>, p: nat, y: ProcPath)
    requires p < |e| && DistinctMaps(e) && y in ValuesOf(e[..p] + e[p + 1..])
    ensures y in ValuesOf(e) && y != e[p].1
  {
    var E := e[..p] + e[p + 1..];
    var i :| 0 <= i < |E| && ValuesOf(E)[i] == y;
    var j := if i < p then i else i + 1;
    assert E[i] == e[j];
    assert ValuesOf(e)[j] == y;
    assert e[j].1.processor.id != e[p].1.processor.id;
  }

  /** A value other than the deleted one is left after the deletion. */
  lemma ValuesDeleteKept(e: seq<(string, ProcPath)>, p: nat, y: ProcPath)
    requires p < |e| && y in ValuesOf(e) && y != e[p].1
    ensures y in ValuesOf(e[..p] + e[p + 1..])
  {
    var E := e[..p] + e[p + 1..];
    var j :| 0 <= j < |e| && ValuesOf(e)[j] == y;
    var i := if j < p then j else j - 1;
    assert E[i] == e[j];
    assert ValuesOf(E)[i] == y;
  }

  /** The values after a deletion are the old ones but the deleted one, when
      no two entries share a map. */
  lemma ValuesDelete(e: seq<(string, ProcPath)>, p: nat, y: ProcPath)
    requires p < |e| && DistinctMaps(e)
    ensures y in ValuesOf(e[..p] + e[p + 1..]) <==> y in ValuesOf(e) && y != e[p].1
  {
    if y in ValuesOf(e[..p] + e[p + 1..]) {
      ValuesDeleteLeft(e, p, y);
    }
    if y in ValuesOf(e) && y != e[p].1 {
      ValuesDeleteKept(e, p, y);
    }
  }

  lemma KeyedInsert(e: seq<(string, ProcPath)>, p: nat, x: ProcPath)
    requires p <= |e| && Keyed(e) && !IsBlank(x.path)
    ensures Keyed(e[..p] + [(GetStringKey(x.path), x)] + e[p..])
  {
    var E := e[..p] + [(GetStringKey(x.path), x)] + e[p..];
    forall i | 0 <= i < |E|
      ensures E[i].0 == GetStringKey(E[i].1.path) && !IsBlank(E[i].1.path)
    {
      if i < p {
        assert E[i] == e[i];
      } else if i > p {
        assert E[i] == e[i - 1];
      }
    }
  }

  lemma DistinctMapsInsert(e: seq<(string, ProcPath)>, p: nat, x: (string, ProcPath))
    requires p <= |e| && DistinctMaps(e)
    requires forall i :: 0 <= i < |e| ==> e[i].1.processor.id != x.1.processor.id
    ensures DistinctMaps(e[..p] + [x] + e[p..])
  {
    var E := e[..p] + [x] + e[p..];
    forall i, j | 0 <= i < j < |E|
      ensures E[i].1.processor.id != E[j].1.processor.id
    {
      var i' := if i < p then i else i - 1;
      var j' := if j < p then j else j - 1;
      if i != p && j != p {
        assert E[i] == e[i'] && E[j] == e[j'];
      } else if i == p {
        assert E[j] == e[j'];
      } else {
        assert E[i] == e[i'];
      }
    }
  }

  lemma SubsequenceKeeps(e: seq<(string, ProcPath)>, p: nat)
    requires p < |e| && Keyed(e) && DistinctMaps(e)
    ensures Keyed(e[..p] + e[p + 1..]) && DistinctMaps(e[..p] + e[p + 1..])
  {
    var E := e[..p] + e[p + 1..];
    forall i | 0 <= i < |E|
      ensures E[i] == e[if i < p then i else i + 1]
    {
    }
  }

  lemma NonEmptyInsert(e: seq<(string, ProcPath)>, byHash: Buckets, x: ProcPath)
    requires BucketsNonEmpty(byHash) && BucketsHeld(e, byHash)
    requires forall i :: 0 <= i < |e| ==> e[i].1.processor.id != x.processor.id
    ensures BucketsNonEmpty(BucketAdd(byHash, CrcIntCalc.GetHash(x.processor), x))
  {
    var hx := CrcIntCalc.GetHash(x.processor);
    if hx in byHash {
      var b := byHash[hx];
      forall y | y in b ensures y != x {
        assert y in ValuesOf(e);
        var j :| 0 <= j < |e| && ValuesOf(e)[j] == y;
      }
      var nb := b + [x];
      forall i, j | 0 <= i < j < |nb| ensures nb[i] != nb[j] {
        if j == |b| {
          assert nb[i] == b[i];
        } else {
          assert nb[i] == b[i] && nb[j] == b[j];
        }
      }
    }
  }

  lemma HeldInsert(e: seq<(string, ProcPath)>, byHash: Buckets, p: nat, x: ProcPath)
    requires p <= |e| && BucketsHeld(e, byHash)
    ensures BucketsHeld(e[..p] + [(GetStringKey(x.path), x)] + e[p..],
                        BucketAdd(byHash, CrcIntCalc.GetHash(x.processor), x))
  {
    var E := e[..p] + [(GetStringKey(x.path), x)] + e[p..];
    var hx := CrcIntCalc.GetHash(x.processor);
    var B := BucketAdd(byHash, hx, x);
    forall h, y: ProcPath | h in B && y in B[h]
      ensures CrcIntCalc.GetHash(y.processor) == h && y in ValuesOf(E)
    {
      ValuesInsert(e, p, (GetStringKey(x.path), x), y);
      if h == hx && y != x {
        assert y in byHash[hx];
      }
    }
  }

  lemma EntriesBucketedInsert(e: seq<(string, ProcPath)>, byHash: Buckets, p: nat, x: ProcPath)
    requires p <= |e| && EntriesBucketed(e, byHash)
    ensures EntriesBucketed(e[..p] + [(GetStringKey(x.path), x)] + e[p..],
                            BucketAdd(byHash, CrcIntCalc.GetHash(x.processor), x))
  {
    var E := e[..p] + [(GetStringKey(x.path), x)] + e[p..];
    var hx := CrcIntCalc.GetHash(x.processor);
    var B := BucketAdd(byHash, hx, x);
    forall i | 0 <= i < |E|
      ensures CrcIntCalc.GetHash(E[i].1.processor) in B &&
              E[i].1 in B[CrcIntCalc.GetHash(E[i].1.processor)]
    {
      if i != p {
        var y := E[i].1;
        assert y == e[if i < p then i else i - 1].1;
        var g := CrcIntCalc.GetHash(y.processor);
        assert y in byHash[g];
        if g == hx {
          assert B[g] == byHash[g] + [x];
        }
      }
    }
  }

  /** BaseAddElement on the two indices: a new key, a non-blank path and a
      map not yet held keep the indices in step; the entry joins the key
      enumeration at the position the dictionary chooses. */
  lemma InsertKeepsIndex(d: Dict<ProcPath>, byHash: Buckets, x: ProcPath) returns (p: nat)
    requires IndexValid(d, byHash)
    requires !IsBlank(x.path) && !d.ContainsKey(GetStringKey(x.path)) && FreshMap(d, x.processor)
    ensures IndexValid(d.Add(GetStringKey(x.path), x), BucketAdd(byHash, CrcIntCalc.GetHash(x.processor), x))
    ensures p <= |d.Entries()|
    ensures d.Add(GetStringKey(x.path), x).Entries() == d.Entries()[..p] + [(GetStringKey(x.path), x)] + d.Entries()[p..]
    ensures d.free == [] ==> p == |d.Entries()|
  {
    var k := GetStringKey(x.path);
    p := AddEntries(d, k, x);
    KeyedInsert(d.Entries(), p, x);
    DistinctMapsInsert(d.Entries(), p, (k, x));
    NonEmptyInsert(d.Entries(), byHash, x);
    HeldInsert(d.Entries(), byHash, p, x);
    EntriesBucketedInsert(d.Entries(), byHash, p, x);
  }

  /** The entry in the bucket is the one stored under its path's key. */
  lemma BucketEntryStored(d: Dict<ProcPath>, byHash: Buckets, h: int, i: nat) returns (p: nat)
    requires d.Valid() && Keyed(d.Entries()) && BucketsHeld(d.Entries(), byHash)
    requires h in byHash && i < |byHash[h]|
    ensures d.ContainsKey(GetStringKey(byHash[h][i].path))
    ensures p == IndexOf(d.Keys(), GetStringKey(byHash[h][i].path))
    ensures p < |d.Entries()| && d.Entries()[p].1 == byHash[h][i]
  {
    var e := d.Entries();
    var x := byHash[h][i];
    assert x in byHash[h];
    assert x in ValuesOf(e);
    var j :| 0 <= j < |e| && ValuesOf(e)[j] == x;
    KeyPosition(d, j);
    p := j;
  }

  lemma NonEmptyDelete(byHash: Buckets, h: int, i: nat)
    requires BucketsNonEmpty(byHash) && h in byHash && i < |byHash[h]|
    ensures BucketsNonEmpty(BucketRemove(byHash, h, i))
  {
    var b := byHash[h];
    var nb := b[..i] + b[i + 1..];
    forall a, c | 0 <= a < c < |nb| ensures nb[a] != nb[c] {
      assert nb[a] == b[if a < i then a else a + 1];
      assert nb[c] == b[if c < i then c else c + 1];
    }
  }

  /** What the removal leaves in a bucket was there before, and the removed
      entry is gone from its bucket. */
  lemma InRemovedBucket(byHash: Buckets, h: int, i: nat, g: int, y: ProcPath)
    requires BucketsNonEmpty(byHash) && h in byHash && i < |byHash[h]|
    requires g in BucketRemove(byHash, h, i) && y in BucketRemove(byHash, h, i)[g]
    ensures g in byHash && y in byHash[g]
    ensures g == h ==> y != byHash[h][i]
  {
    if g == h {
      var b := byHash[h];
      var nb := b[..i] + b[i + 1..];
      var a :| 0 <= a < |nb| && nb[a] == y;
      var a' := if a < i then a else a + 1;
      assert b[a'] == y && a' != i;
    }
  }

  lemma HeldDelete(e: seq<(string, ProcPath)>, byHash: Buckets, h: int, i: nat, p: nat)
    requires BucketsNonEmpty(byHash) && BucketsHeld(e, byHash) && DistinctMaps(e)
    requires h in byHash && i < |byHash[h]| && p < |e| && e[p].1 == byHash[h][i]
    ensures BucketsHeld(e[..p] + e[p + 1..], BucketRemove(byHash, h, i))
  {
    var E := e[..p] + e[p + 1..];
    var B := BucketRemove(byHash, h, i);
    assert byHash[h][i] in byHash[h];
    forall g, y: ProcPath | g in B && y in B[g]
      ensures CrcIntCalc.GetHash(y.processor) == g && y in ValuesOf(E)
    {
      InRemovedBucket(byHash, h, i, g, y);
      ValuesDelete(e, p, y);
    }
  }

  lemma EntriesBucketedDelete(e: seq<(string, ProcPath)>, byHash: Buckets, h: int, i: nat, p: nat)
    requires BucketsNonEmpty(byHash) && EntriesBucketed(e, byHash) && DistinctMaps(e)
    requires h in byHash && i < |byHash[h]| && p < |e| && e[p].1 == byHash[h][i]
    ensures EntriesBucketed(e[..p] + e[p + 1..], BucketRemove(byHash, h, i))
  {
    var E := e[..p] + e[p + 1..];
    var B := BucketRemove(byHash, h, i);
    var b := byHash[h];
    var nb := b[..i] + b[i + 1..];
    forall j | 0 <= j < |E|
      ensures CrcIntCalc.GetHash(E[j].1.processor) in B &&
              E[j].1 in B[CrcIntCalc.GetHash(E[j].1.processor)]
    {
      var j' := if j < p then j else j + 1;
      assert E[j] == e[j'];
      var y := e[j'].1;
      var g := CrcIntCalc.GetHash(y.processor);
      assert y in byHash[g];
      if g == h {
        assert y.processor.id != e[p].1.processor.id;
        var a :| 0 <= a < |b| && b[a] == y;
        assert a != i;
        assert nb[if a < i then a else a - 1] == y;
      }
    }
  }

  /** The indices stay in step once entry p, the one of bucket entry i, is
      deleted from the key enumeration and from its bucket. */
  lemma DeletedIndexValid(d': Dict<ProcPath>, e: seq<(string, ProcPath)>, byHash: Buckets, h: int, i: nat, p: nat)
    requires Keyed(e) && DistinctMaps(e) && Bucketed(e, byHash)
    requires h in byHash && i < |byHash[h]| && p < |e| && e[p].1 == byHash[h][i]
    requires d'.Valid() && d'.Entries() == e[..p] + e[p + 1..]
    ensures IndexValid(d', BucketRemove(byHash, h, i))
  {
    SubsequenceKeeps(e, p);
    NonEmptyDelete(byHash, h, i);
    HeldDelete(e, byHash, h, i, p);
    EntriesBucketedDelete(e, byHash, h, i, p);
  }

  /** Removing a held key takes exactly its entry out of the key
      enumeration, the others keeping their order. */
  lemma RemoveHeld(d: Dict<ProcPath>, k: string, p: nat)
    requires d.Valid() && d.ContainsKey(k) && p == IndexOf(d.Keys(), k)
    ensures d.Remove(k).0.Valid()
    ensures d.Remove(k).0.Entries() == d.Entries()[..p] + d.Entries()[p + 1..]
  {
    var q := RemoveEntries(d, k);
  }

  /** RemoveProcessor on the two indices: deleting bucket entry i and the key
      of its path keeps the indices in step, and the key enumeration loses
      exactly that entry, the others keeping their order. */
  lemma DeleteKeepsIndex(d: Dict<ProcPath>, byHash: Buckets, h: int, i: nat) returns (p: nat)
    requires IndexValid(d, byHash) && h in byHash && i < |byHash[h]|
    ensures d.ContainsKey(GetStringKey(byHash[h][i].path))
    ensures p == IndexOf(d.Keys(), GetStringKey(byHash[h][i].path))
    ensures p < |d.Entries()| && d.Entries()[p].1 == byHash[h][i]
    ensures d.Remove(GetStringKey(byHash[h][i].path)).0.Entries() == d.Entries()[..p] + d.Entries()[p + 1..]
    ensures IndexValid(d.Remove(GetStringKey(byHash[h][i].path)).0, BucketRemove(byHash, h, i))
  {
    assert BucketsHeld(d.Entries(), byHash);
    p := BucketEntryStored(d, byHash, h, i);
    RemoveHeld(d, GetStringKey(byHash[h][i].path), p);
    DeletedIndexValid(d.Remove(GetStringKey(byHash[h][i].path)).0, d.Entries(), byHash, h, i, p);
  }
}
