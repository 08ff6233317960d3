/** Map names and their masks: a map saved under a name that is already
    taken gets the suffix "!k" (ImageRect.TagSeparatorChar and a ulong k);
    ParseName takes such a suffix off again and IntGetUniqueProcessor picks
    the first free k. */
module Names {
  import opened Wrappers
  import opened Text

  const TagSeparatorChar: char := '!'

  datatype NameError =
    | EmptyName                                   // ParseName of ""
    | NoFreeName(name: string, number: Option<nat>) // every name!k is taken

  /** Scanning name[1..i] from its end: the position of the last '!'. */
  function SeparatorBefore(name: string, i: nat): (r: Option<nat>)
    requires i <= |name|
    ensures r.Some? ==> 0 < r.value < i && name[r.value] == TagSeparatorChar
    ensures r.Some? ==> forall j :: r.value < j < i ==> name[j] != TagSeparatorChar
    ensures r.None? ==> forall j :: 0 < j < i ==> name[j] != TagSeparatorChar
  {
    if i <= 1 then None
    else if name[i - 1] == TagSeparatorChar then Some(i - 1)
    else SeparatorBefore(name, i - 1)
  }

  /** What ParseName computes: split at the last '!' that is not the first
      character when the rest reads as a ulong, else the whole name with no
      number. */
  function Demask(name: string): (r: (Option<nat>, string))
    requires name != []
    ensures r.1 != []
    ensures r.0.None? ==> r.1 == name
    ensures r.0.Some? ==> r.0.value < ULongLimit && |r.1| < |name| &&
                          name[..|r.1|] == r.1 && name[|r.1|] == TagSeparatorChar &&
                          ParseULong(name[|r.1| + 1..]) == r.0 &&
                          forall j :: |r.1| < j < |name| ==> name[j] != TagSeparatorChar
  {
    match SeparatorBefore(name, |name|)
    case None => (None, name)
    case Some(k) =>
      match ParseULong(name[k + 1..])
      case Some(n) => (Some(n), name[..k])
      case None => (None, name)
  }

  /** ParseName: an empty name is an error; otherwise the loop looks for the
      last '!' at a position above 0. */
  method ParseName(name: string) returns (r: Result<(Option<nat>, string), NameError>)
    ensures name == [] ==> r == Err(EmptyName)
    ensures name != [] ==> r == Ok(Demask(name))
  {
    if name == [] {
      return Err(EmptyName);
    }
    var k := |name| - 1;
    while k > 0
      invariant 0 <= k < |name|
      invariant SeparatorBefore(name, |name|) == SeparatorBefore(name, k + 1)
    {
      if name[k] == TagSeparatorChar {
        var number := ParseULong(name[k + 1..]);
        if number.Some? {
          return Ok((number, name[..k]));
        }
        return Ok((None, name));
      }
      k := k - 1;
    }
    return Ok((None, name));
  }

  /** The masked form base + "!" + k. */
  function Masked(base: string, k: nat): string {
    base + [TagSeparatorChar] + DecimalString(k)
  }

  lemma {:induction false} SeparatorBeforeMasked(base: string, k: nat, i: nat)
    requires base != []
    requires |base| + 1 <= i <= |Masked(base, k)|
    ensures SeparatorBefore(Masked(base, k), i) == Some(|base|)
  {
    var m := Masked(base, k);
    if i > |base| + 1 {
      assert m[i - 1] == DecimalString(k)[i - 1 - |base| - 1];
      SeparatorBeforeMasked(base, k, i - 1);
    }
  }

  /** ParseName undoes the mask: a non-empty base with suffix "!k" parses back
      to (k, base). */
  lemma DemaskMasked(base: string, k: nat)
    requires base != [] && k < ULongLimit
    ensures Demask(Masked(base, k)) == (Some(k), base)
  {
    var m := Masked(base, k);
    SeparatorBeforeMasked(base, k, |m|);
    assert m[|base| + 1..] == DecimalString(k);
    ParseDecimalString(k);
    assert m[..|base|] == base;
  }

  /** Lower-casing a masked name lower-cases its base only. */
  lemma LowerMasked(base: string, k: nat)
    ensures Lower(Masked(base, k)) == Masked(Lower(base), k)
  {
    LowerAppend(base + [TagSeparatorChar], DecimalString(k));
    LowerAppend(base, [TagSeparatorChar]);
    LowerDecimalString(k);
  }

  /** The k-th name probed after `start`, counting with ulong wrap-around. */
  function Probe(start: nat, i: nat): nat {
    (start + i) % ULongLimit
  }

  /** The probe after Probe(start, i), with ulong wrap-around; it is back
      at start only after ULongLimit probes. */
  lemma ProbeNext(start: nat, i: nat)
    requires start < ULongLimit && i < ULongLimit
    ensures (Probe(start, i) + 1) % ULongLimit == Probe(start, i + 1)
    ensures Probe(start, i + 1) == start <==> i + 1 == ULongLimit
  {
  }

  /** Probing ULongLimit times from any start reaches every ulong. */
  lemma ProbeCovers(start: nat, k: nat)
    requires start < ULongLimit && k < ULongLimit
    ensures var i := (k - start) % ULongLimit; i < ULongLimit && Probe(start, i) == k
  {
  }

  /** Every mask of nm is in the set. */
  ghost predicate AllTaken(tagSet: set<string>, nm: string) {
    forall k :: 0 <= k < ULongLimit ==> Masked(nm, k) in tagSet
  }

  /** The first i masks probed from start are in the set. */
  ghost predicate TakenBefore(tagSet: set<string>, nm: string, start: nat, i: nat) {
    forall j :: 0 <= j < i ==> Masked(nm, Probe(start, j)) in tagSet
  }

  lemma TakenAfterFullCycle(tagSet: set<string>, nm: string, start: nat)
    requires start < ULongLimit
    requires TakenBefore(tagSet, nm, start, ULongLimit)
    ensures AllTaken(tagSet, nm)
  {
    forall k | 0 <= k < ULongLimit
      ensures Masked(nm, k) in tagSet
    {
      ProbeCovers(start, k);
    }
  }

  /** A name IntGetUniqueProcessor can give for a hint: the name itself when
      no number is hinted, or the name masked with a number. */
  ghost predicate NamedFrom(hint: (Option<nat>, string), name: string) {
    (hint.0.None? && name == hint.1) || (exists k: nat :: k < ULongLimit && name == Masked(hint.1, k))
  }

  /** IntGetUniqueProcessor, on the name: with no number hint, a name whose
      lower-case form is new is kept; otherwise name!k for the first k from
      the hint (or 0) on, wrapping at 2^64, whose lower-case form is new.  The
      set gains the lower-case form of the result; when all 2^64 masks are
      taken the result is an error and the set is unchanged. */
  method IntGetUniqueName(maskedTagSet: set<string>, hint: (Option<nat>, string))
    returns (r: Result<string, NameError>, tagSet: set<string>)
    requires hint.0.Some? ==> hint.0.value < ULongLimit
    ensures r.Ok? ==> Lower(r.value) !in maskedTagSet && tagSet == maskedTagSet + {Lower(r.value)}
    ensures r.Ok? ==> NamedFrom(hint, r.value)
    ensures r.Err? ==> tagSet == maskedTagSet && r.error == NoFreeName(hint.1, hint.0)
    ensures hint.0.None? && Lower(hint.1) !in maskedTagSet ==> r == Ok(hint.1)
    ensures hint.0.Some? || Lower(hint.1) in maskedTagSet ==>
              (r.Err? <==> AllTaken(maskedTagSet, Lower(hint.1)))
    ensures hint.0.Some? || Lower(hint.1) in maskedTagSet ==>
              var start := if hint.0.Some? then hint.0.value else 0;
              r.Ok? ==> exists i :: 0 <= i < ULongLimit && r.value == Masked(hint.1, Probe(start, i)) &&
                                    TakenBefore(maskedTagSet, Lower(hint.1), start, i)
  {
    var nm := Lower(hint.1);
    if hint.0.None? && nm !in maskedTagSet {
      return Ok(hint.1), maskedTagSet + {nm};
    }
    var start := if hint.0.Some? then hint.0.value else 0;
    var k := start;
    ghost var i := 0;
    while true
      invariant 0 <= i < ULongLimit && k == Probe(start, i)
      invariant TakenBefore(maskedTagSet, nm, start, i)
      decreases ULongLimit - i
    {
      var att := Masked(nm, k);
      if att !in maskedTagSet {
        LowerMasked(hint.1, k);
        assert !AllTaken(maskedTagSet, nm);
        return Ok(Masked(hint.1, k)), maskedTagSet + {att};
      }
      ProbeNext(start, i);
      k := (k + 1) % ULongLimit;
      i := i + 1;
      if k == start {
        break;
      }
    }
    assert i == ULongLimit;
    TakenAfterFullCycle(maskedTagSet, nm, start);
    return Err(NoFreeName(hint.1, hint.0)), maskedTagSet;
  }
}
