/** CRCIntCalc: the content hash that buckets the store's maps.  It uses the
    same table as HashCreator, but folds one step per cell value (its low
    byte), visiting the cells row by row. */
module CrcIntCalc {
  import opened HashCreator
  import opened Processors

  /** GetInts: the cell values, row after row (j outer, i inner). */
  function GetInts(rows: seq<seq<int32>>): (ints: seq<int32>)
  {
    if rows == [] then [] else rows[0] + GetInts(rows[1..])
  }

  /** On a rectangular grid of width w, GetInts lists h * w values. */
  lemma {:induction false} GetIntsLength(rows: seq<seq<int32>>, w: nat)
    requires forall j :: 0 <= j < |rows| ==> |rows[j]| == w
    ensures |GetInts(rows)| == |rows| * w
  {
    if rows != [] {
      GetIntsLength(rows[1..], w);
      MulStep(|rows| - 1, w);
    }
  }

  /** GetInts visits the cells row by row: on a rectangular grid of width w
      cell (i, j) is at position j * w + i. */
  lemma {:induction false} GetIntsAt(rows: seq<seq<int32>>, w: nat, j: nat, i: nat)
    requires forall j :: 0 <= j < |rows| ==> |rows[j]| == w
    requires j < |rows| && i < w
    ensures j * w + i < |GetInts(rows)| && GetInts(rows)[j * w + i] == rows[j][i]
  {
    GetIntsLength(rows, w);
    GetIntsLength(rows[1..], w);
    assert GetInts(rows) == rows[0] + GetInts(rows[1..]);
    if j > 0 {
      GetIntsAt(rows[1..], w, j - 1, i);
      MulStep(j - 1, w);
    }
  }

  lemma MulStep(a: nat, w: nat)
    ensures (a + 1) * w == w + a * w
  {
  }

  /** The Aggregate fold: acc := Table[(byte)(acc ^ t)] for each value t.
      The low byte of acc ^ t is the xor of the two low bytes. */
  function IntFold(acc: int, ints: seq<int32>): int
    decreases |ints|
  {
    if ints == [] then acc
    else IntFold(TableEntry(Xor(LowByte(acc), LowByte(ints[0]))), ints[1..])
  }

  /** GetHash(Processor): the fold from 255 over the cells. */
  function GetHash(p: Processor): int {
    IntFold(255, GetInts(p.cells))
  }

  /** The low byte of each value. */
  function LowBytes(ints: seq<int32>): (bs: seq<byte>)
    ensures |bs| == |ints|
  {
    if ints == [] then [] else [LowByte(ints[0])] + LowBytes(ints[1..])
  }

  /** The low byte is the first of the four BitConverter bytes. */
  lemma LowByteIsFirstByte(v: int32)
    ensures LowByte(v) == IntBytes(v)[0]
  {
    var u: int := if v < 0 then v as int + 0x1_0000_0000 else v;
    assert u % 0x100 == v % 0x100;
  }

  /** CRCIntCalc's fold is HashCreator's byte fold over each value's low
      byte only: the other three bytes of a value never reach the hash. */
  lemma {:induction false} IntFoldIsLowByteFold(acc: int, ints: seq<int32>)
    ensures IntFold(acc, ints) == Fold(acc, LowBytes(ints))
    decreases |ints|
  {
    if ints != [] {
      assert LowBytes(ints)[0] == LowByte(ints[0]);
      assert LowBytes(ints)[1..] == LowBytes(ints[1..]);
      IntFoldIsLowByteFold(TableEntry(Xor(LowByte(acc), LowByte(ints[0]))), ints[1..]);
    }
  }

  /** Two value sequences that agree on every low byte hash alike. */
  lemma {:induction false} IntFoldLowBytesOnly(acc: int, a: seq<int32>, b: seq<int32>)
    requires |a| == |b|
    requires forall k :: 0 <= k < |a| ==> LowByte(a[k]) == LowByte(b[k])
    ensures IntFold(acc, a) == IntFold(acc, b)
    decreases |a|
  {
    if a != [] {
      IntFoldLowBytesOnly(TableEntry(Xor(LowByte(acc), LowByte(a[0]))), a[1..], b[1..]);
    }
  }

  /** The hash depends on the cell values only, never on the tag or the
      identity, and two maps whose cells agree on their low bytes collide. */
  lemma GetHashCellsOnly(p: Processor, q: Processor)
    requires |GetInts(p.cells)| == |GetInts(q.cells)|
    requires forall k :: 0 <= k < |GetInts(p.cells)| ==> LowByte(GetInts(p.cells)[k]) == LowByte(GetInts(q.cells)[k])
    ensures GetHash(p) == GetHash(q)
  {
    IntFoldLowBytesOnly(255, GetInts(p.cells), GetInts(q.cells));
  }

  /** A map with no cells hashes to the seed; any other hash is a table
      entry, so every hash lies in [0, 2^16). */
  lemma {:induction false} IntFoldRange(acc: int, ints: seq<int32>)
    requires 0 <= acc < 0x1_0000
    ensures 0 <= IntFold(acc, ints) < 0x1_0000
    ensures ints == [] ==> IntFold(acc, ints) == acc
    ensures ints != [] ==> exists k: byte :: IntFold(acc, ints) == TableEntry(k)
    decreases |ints|
  {
    if ints != [] {
      var next := TableEntry(Xor(LowByte(acc), LowByte(ints[0])));
      IntFoldRange(next, ints[1..]);
      if ints[1..] == [] {
        assert IntFold(acc, ints) == next;
      }
    }
  }
}
