/** The Dictionary<string, V> of the store, with the enumeration order the
    store depends on: entries live in slots, enumeration visits the occupied
    slots in slot order, Remove frees a slot, and Add fills the most recently
    freed slot before it appends a new one. */
module OrderedDict {
  import opened Wrappers

  function EntriesOf<V>(slots: seq<Option<(string, V)>>): seq<(string, V)> {
    if slots == [] then []
    else (if slots[0].Some? then [slots[0].value] else []) + EntriesOf(slots[1..])
  }

  lemma {:induction false} EntriesOfAppend<V>(a: seq<Option<(string, V)>>, b: seq<Option<(string, V)>>)
    ensures EntriesOf(a + b) == EntriesOf(a) + EntriesOf(b)
  {
    if a == [] {
      assert a + b == b;
    } else {
      assert (a + b)[0] == a[0];
      assert (a + b)[1..] == a[1..] + b;
      EntriesOfAppend(a[1..], b);
    }
  }

  /** Writing slot s splits the entries around it. */
  lemma EntriesOfUpdate<V>(slots: seq<Option<(string, V)>>, s: nat, x: Option<(string, V)>)
    requires s < |slots|
    ensures EntriesOf(slots[s := x]) == EntriesOf(slots[..s]) + EntriesOf([x]) + EntriesOf(slots[s + 1..])
    ensures EntriesOf(slots) == EntriesOf(slots[..s]) + EntriesOf([slots[s]]) + EntriesOf(slots[s + 1..])
  {
    assert slots[s := x] == slots[..s] + [x] + slots[s + 1..];
    assert slots == slots[..s] + [slots[s]] + slots[s + 1..];
    EntriesOfAppend(slots[..s] + [x], slots[s + 1..]);
    EntriesOfAppend(slots[..s], [x]);
    EntriesOfAppend(slots[..s] + [slots[s]], slots[s + 1..]);
    EntriesOfAppend(slots[..s], [slots[s]]);
  }

  lemma {:induction false} EntriesOfIn<V>(slots: seq<Option<(string, V)>>, e: (string, V))
    ensures e in EntriesOf(slots) <==> Some(e) in slots
  {
    if slots != [] {
      EntriesOfIn(slots[1..], e);
      assert slots == [slots[0]] + slots[1..];
    }
  }

  function KeysOf<V>(entries: seq<(string, V)>): (keys: seq<string>)
    ensures |keys| == |entries|
    ensures forall i :: 0 <= i < |entries| ==> keys[i] == entries[i].0
  {
    seq(|entries|, i requires 0 <= i < |entries| => entries[i].0)
  }

  predicate KeysDistinct<V>(entries: seq<(string, V)>) {
    forall i, j :: 0 <= i < j < |entries| ==> entries[i].0 != entries[j].0
  }

  /** The position of key k in the key order, or |keys| when k is absent:
      DictionaryByKey.Keys.TakeWhile(key => key != k).Count(). */
  function IndexOf(keys: seq<string>, k: string): (p: nat)
    ensures p <= |keys|
    ensures forall i :: 0 <= i < p ==> keys[i] != k
    ensures p < |keys| ==> keys[p] == k
  {
    if keys == [] then 0
    else if keys[0] == k then 0
    else 1 + IndexOf(keys[1..], k)
  }

  datatype Dict<V> = Dict(slots: seq<Option<(string, V)>>, free: seq<nat>) {

    /** The free list holds exactly the empty slots, once each, and no key is
        stored twice. */
    ghost predicate Valid() {
      FreeListValid(slots, free) && KeysDistinct(Entries())
    }

    /** The (key, value) pairs in enumeration order. */
    function Entries(): seq<(string, V)> {
      EntriesOf(slots)
    }

    function Keys(): seq<string> {
      KeysOf(Entries())
    }

    function Count(): nat {
      |Entries()|
    }

    predicate ContainsKey(k: string) {
      k in Keys()
    }

    /** TryGetValue. */
    function Get(k: string): (r: Option<V>)
      ensures r.Some? <==> ContainsKey(k)
      ensures r.Some? ==> (k, r.value) in Entries()
    {
      var p := IndexOf(Keys(), k);
      if p < |Keys()| then Some(Entries()[p].1) else None
    }

    /** Add, for a key not yet present. */
    function Add(k: string, v: V): Dict<V>
      requires Valid()
    {
      if free == [] then Dict(slots + [Some((k, v))], free)
      else Dict(slots[free[|free| - 1] := Some((k, v))], free[..|free| - 1])
    }

    /** Remove: frees the slot of k and reports whether k was present. */
    function Remove(k: string): (Dict<V>, bool) {
      var p := SlotOf(slots, k, 0);
      if p == |slots| then (this, false)
      else (Dict(slots[p := None], free + [p]), true)
    }

    static function Empty(): (d: Dict<V>)
      ensures d.Valid() && d.Entries() == []
    {
      Dict([], [])
    }
  }

  /** The free list holds exactly the empty slots, once each. */
  ghost predicate FreeListValid<V>(slots: seq<Option<(string, V)>>, free: seq<nat>) {
    (forall i :: 0 <= i < |free| ==> free[i] < |slots| && slots[free[i]].None?) &&
    (forall i, j :: 0 <= i < j < |free| ==> free[i] != free[j]) &&
    (forall s :: 0 <= s < |slots| && slots[s].None? ==> s in free)
  }

  /** Inserting an entry with a new key keeps the keys distinct. */
  lemma DistinctAfterInsert<V>(e: seq<(string, V)>, p: nat, x: (string, V))
    requires p <= |e| && KeysDistinct(e)
    requires forall i :: 0 <= i < |e| ==> e[i].0 != x.0
    ensures KeysDistinct(e[..p] + [x] + e[p..])
  {
    var E := e[..p] + [x] + e[p..];
    forall i, j | 0 <= i < j < |E|
      ensures E[i].0 != E[j].0
    {
      var i' := if i < p then i else i - 1;
      var j' := if j < p then j else j - 1;
      if i != p && j != p {
        assert E[i] == e[i'] && E[j] == e[j'];
      } else if i == p {
        assert E[j] == e[j'];
      } else {
        assert E[i] == e[i'];
      }
    }
  }

  /** Deleting an entry keeps the keys distinct. */
  lemma DistinctAfterDelete<V>(e: seq<(string, V)>, p: nat)
    requires p < |e| && KeysDistinct(e)
    ensures KeysDistinct(e[..p] + e[p + 1..])
  {
    var E := e[..p] + e[p + 1..];
    forall i, j | 0 <= i < j < |E|
      ensures E[i].0 != E[j].0
    {
      var i' := if i < p then i else i + 1;
      var j' := if j < p then j else j + 1;
      assert E[i] == e[i'] && E[j] == e[j'];
    }
  }

  /** The first slot at or after `from` holding key k, or |slots|. */
  function SlotOf<V>(slots: seq<Option<(string, V)>>, k: string, from: nat): (s: nat)
    requires from <= |slots|
    ensures from <= s <= |slots|
    ensures s < |slots| ==> slots[s].Some? && slots[s].value.0 == k
    ensures forall t :: from <= t < s ==> slots[t].None? || slots[t].value.0 != k
    decreases |slots| - from
  {
    if from == |slots| then from
    else if slots[from].Some? && slots[from].value.0 == k then from
    else SlotOf(slots, k, from + 1)
  }

  /** A key is present exactly when some slot holds it. */
  lemma KeyInSlots<V>(d: Dict<V>, k: string)
    ensures d.ContainsKey(k) <==> SlotOf(d.slots, k, 0) < |d.slots|
  {
    var s := SlotOf(d.slots, k, 0);
    if s < |d.slots| {
      EntriesOfIn(d.slots, d.slots[s].value);
      var i :| 0 <= i < |d.Entries()| && d.Entries()[i] == d.slots[s].value;
      assert d.Keys()[i] == k;
    }
    if d.ContainsKey(k) {
      var i :| 0 <= i < |d.Keys()| && d.Keys()[i] == k;
      EntriesOfIn(d.slots, d.Entries()[i]);
    }
  }

  lemma AddFreeList<V>(d: Dict<V>, k: string, v: V)
    requires d.Valid()
    ensures FreeListValid(d.Add(k, v).slots, d.Add(k, v).free)
  {
    var d' := d.Add(k, v);
    if d.free != [] {
      var s := d.free[|d.free| - 1];
      forall t | 0 <= t < |d'.slots| && d'.slots[t].None?
        ensures t in d'.free
      {
        assert t != s && d.slots[t].None?;
        var i :| 0 <= i < |d.free| && d.free[i] == t;
        assert i < |d.free| - 1;
      }
    }
  }

  /** Add puts (k, v) at the end when no slot is free, otherwise at the
      position of the most recently freed slot. */
  lemma AddOrder<V>(d: Dict<V>, k: string, v: V) returns (p: nat)
    requires d.Valid()
    ensures p <= |d.Entries()|
    ensures d.Add(k, v).Entries() == d.Entries()[..p] + [(k, v)] + d.Entries()[p..]
    ensures d.free == [] ==> p == |d.Entries()|
  {
    var e := d.Entries();
    if d.free == [] {
      EntriesOfAppend(d.slots, [Some((k, v))]);
      p := |e|;
      assert e[..p] == e && e[p..] == [];
    } else {
      var s := d.free[|d.free| - 1];
      EntriesOfUpdate(d.slots, s, Some((k, v)));
      p := |EntriesOf(d.slots[..s])|;
      assert e[..p] == EntriesOf(d.slots[..s]);
      assert e[p..] == EntriesOf(d.slots[s + 1..]);
    }
  }

  /** Adding a new key keeps the dictionary valid and inserts (k, v) into the
      enumeration: at the end when no slot is free, otherwise at the position
      of the most recently freed slot. */
  lemma AddEntries<V>(d: Dict<V>, k: string, v: V) returns (p: nat)
    requires d.Valid() && !d.ContainsKey(k)
    ensures d.Add(k, v).Valid()
    ensures p <= |d.Entries()|
    ensures d.Add(k, v).Entries() == d.Entries()[..p] + [(k, v)] + d.Entries()[p..]
    ensures d.free == [] ==> p == |d.Entries()|
  {
    AddFreeList(d, k, v);
    p := AddOrder(d, k, v);
    var e := d.Entries();
    assert forall i :: 0 <= i < |e| ==> e[i].0 == d.Keys()[i];
    DistinctAfterInsert(e, p, (k, v));
  }

  lemma RemoveFreeList<V>(d: Dict<V>, s: nat)
    requires d.Valid() && s < |d.slots| && d.slots[s].Some?
    ensures FreeListValid(d.slots[s := None], d.free + [s])
  {
    var slots', free' := d.slots[s := None], d.free + [s];
    assert s !in d.free;
    forall i | 0 <= i < |free'|
      ensures free'[i] < |slots'| && slots'[free'[i]].None?
    {
      if i < |d.free| {
        assert free'[i] == d.free[i];
      }
    }
    forall i, j | 0 <= i < j < |free'|
      ensures free'[i] != free'[j]
    {
      if j == |d.free| {
        assert d.free[i] in d.free;
      }
    }
    forall t | 0 <= t < |slots'| && slots'[t].None?
      ensures t in free'
    {
      if t != s {
        assert d.slots[t].None?;
        assert t in d.free;
      }
    }
  }

  /** Emptying occupied slot s deletes the entry at position q, the number
      of entries in the slots before s. */
  lemma EmptySlot<V>(slots: seq<Option<(string, V)>>, s: nat) returns (q: nat)
    requires s < |slots| && slots[s].Some?
    ensures q < |EntriesOf(slots)| && EntriesOf(slots)[q] == slots[s].value
    ensures EntriesOf(slots[s := None]) == EntriesOf(slots)[..q] + EntriesOf(slots)[q + 1..]
  {
    var e := EntriesOf(slots);
    EntriesOfUpdate(slots, s, None);
    q := |EntriesOf(slots[..s])|;
    assert EntriesOf([slots[s]]) == [slots[s].value];
    assert e[..q] == EntriesOf(slots[..s]);
    assert e[q + 1..] == EntriesOf(slots[s + 1..]);
  }

  /** Removing a present key keeps the dictionary valid and deletes its entry
      from the enumeration, keeping the others in order; removing an absent
      key changes nothing. */
  lemma RemoveEntries<V>(d: Dict<V>, k: string) returns (p: nat)
    requires d.Valid()
    ensures d.Remove(k).0.Valid()
    ensures d.Remove(k).1 <==> d.ContainsKey(k)
    ensures !d.ContainsKey(k) ==> d.Remove(k).0 == d
    ensures d.ContainsKey(k) ==>
              p == IndexOf(d.Keys(), k) && p < |d.Entries()| &&
              d.Remove(k).0.Entries() == d.Entries()[..p] + d.Entries()[p + 1..]
  {
    KeyInSlots(d, k);
    p := IndexOf(d.Keys(), k);
    if d.ContainsKey(k) {
      RemoveSlot(d, k, SlotOf(d.slots, k, 0));
    }
  }

  /** Removing the key held in slot s frees that slot and deletes the
      key's entry from the enumeration. */
  lemma RemoveSlot<V>(d: Dict<V>, k: string, s: nat)
    requires d.Valid() && s < |d.slots| && d.slots[s].Some? && d.slots[s].value.0 == k
    requires d.Remove(k).0 == Dict(d.slots[s := None], d.free + [s])
    ensures d.Remove(k).0.Valid()
    ensures IndexOf(d.Keys(), k) < |d.Entries()|
    ensures d.Remove(k).0.Entries() == d.Entries()[..IndexOf(d.Keys(), k)] + d.Entries()[IndexOf(d.Keys(), k) + 1..]
  {
    RemoveFreeList(d, s);
    var q := EmptySlot(d.slots, s);
    KeyPosition(d, q);
    DistinctAfterDelete(d.Entries(), q);
  }

  /** In a valid dictionary an entry's position is the IndexOf its key. */
  lemma KeyPosition<V>(d: Dict<V>, j: nat)
    requires d.Valid() && j < |d.Entries()|
    ensures d.ContainsKey(d.Entries()[j].0)
    ensures IndexOf(d.Keys(), d.Entries()[j].0) == j
  {
    var keys := d.Keys();
    var k := d.Entries()[j].0;
    assert keys[j] == k;
    var p := IndexOf(keys, k);
    assert p <= j && keys[p] == k;
    assert d.Entries()[p].0 == d.Entries()[j].0;
  }
}
