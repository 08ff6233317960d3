/** HashCreator: a CRC-style hash of a map's cell values, taken byte by byte
    over each value's four bytes, with a 256-entry table for the polynomial
    0x31 (Dallas/Maxim) and the seed 255. */
module HashCreator {

  /** C#'s 32-bit int. */
  type int32 = x: int | -0x8000_0000 <= x < 0x8000_0000

  /** A byte, 0..255. */
  type byte = x: int | 0 <= x < 256

  /** `(byte)x` in an unchecked context: the low eight bits, also for a
      negative x (two's complement). */
  function LowByte(x: int): byte {
    x % 256
  }

  /** `a ^ b` on two bytes. */
  function Xor(a: byte, b: byte): byte {
    ((a as bv8) ^ (b as bv8)) as int
  }

  /** One step of the table construction: `(num << 1) ^ 49` when bit 7 is
      set, else `num << 1`, on a 32-bit int. */
  function Step(num: bv32): bv32 {
    if num & 128 != 0 then (num << 1) ^ 49 else num << 1
  }

  /** `k` after `n` steps. */
  function Steps(k: bv32, n: nat): bv32 {
    if n == 0 then k else Step(Steps(k, n - 1))
  }

  /** Each step at most doubles the bound, so eight steps from a byte stay
      below 2^16 and the table holds no negative int. */
  lemma StepsOfByteBelow(k: bv32)
    requires k < 256
    ensures Steps(k, 8) < 0x1_0000
  {
    assert Steps(k, 1) < 0x200;
    assert Steps(k, 2) < 0x400;
    assert Steps(k, 3) < 0x800;
    assert Steps(k, 4) < 0x1000;
    assert Steps(k, 5) < 0x2000;
    assert Steps(k, 6) < 0x4000;
    assert Steps(k, 7) < 0x8000;
  }

  /** Table[k]: k after eight steps, read as a (non-negative) C# int. */
  function TableEntry(k: byte): (t: int)
    ensures 0 <= t < 0x1_0000
  {
    StepsOfByteBelow(k as bv32);
    Steps(k as bv32, 8) as int
  }

  /** The inner loop of the static constructor: eight steps from k. */
  method ComputeEntry(k: byte) returns (num: bv32)
    ensures num as int == TableEntry(k)
  {
    num := k as bv32;
    var i := 0;
    while i < 8
      invariant 0 <= i <= 8
      invariant num == Steps(k as bv32, i)
    {
      if num & 128 != 0 {
        num := (num << 1) ^ 49;
      } else {
        num := num << 1;
      }
      i := i + 1;
    }
  }

  /** The static constructor: fills the 256-entry table. */
  method BuildTable() returns (table: array<int>)
    ensures fresh(table) && table.Length == 256
    ensures forall k :: 0 <= k < 256 ==> table[k] == TableEntry(k)
  {
    table := new int[256];
    var k := 0;
    while k < 256
      invariant 0 <= k <= 256
      invariant forall j :: 0 <= j < k ==> table[j] == TableEntry(j)
    {
      var num := ComputeEntry(k);
      table[k] := num as int;
      k := k + 1;
    }
  }

  /** BitConverter.GetBytes(i) on a little-endian machine: the four bytes of
      the 32-bit two's complement of i, least significant first. */
  function IntBytes(i: int32): (bs: seq<byte>)
    ensures |bs| == 4
  {
    var u := if i < 0 then i + 0x1_0000_0000 else i;
    var q1 := u / 0x100;
    var q2 := q1 / 0x100;
    var q3 := q2 / 0x100;
    [u % 0x100, q1 % 0x100, q2 % 0x100, q3]
  }

  /** BitConverter.ToInt32: the int whose bytes these are. */
  function BytesToInt(bs: seq<byte>): int32
    requires |bs| == 4
  {
    var u: int := bs[0] as int + 0x100 * (bs[1] as int + 0x100 * (bs[2] as int + 0x100 * bs[3] as int));
    if u >= 0x8000_0000 then u - 0x1_0000_0000 else u
  }

  /** The four bytes carry the whole int. */
  lemma IntBytesRoundTrip(i: int32)
    ensures BytesToInt(IntBytes(i)) == i
  {
    var u := if i < 0 then i + 0x1_0000_0000 else i;
    var q1 := u / 0x100;
    var q2 := q1 / 0x100;
    var q3 := q2 / 0x100;
    assert u == u % 0x100 + 0x100 * q1;
    assert q1 == q1 % 0x100 + 0x100 * q2;
    assert q2 == q2 % 0x100 + 0x100 * q3;
  }

  /** GetProcessorBytes: the bytes of every value, in input order. */
  function GetProcessorBytes(p: seq<int32>): (bs: seq<byte>)
    ensures |bs| == 4 * |p|
  {
    if p == [] then [] else IntBytes(p[0]) + GetProcessorBytes(p[1..])
  }

  /** Byte n of the stream is byte n % 4 of value n / 4. */
  lemma {:induction false} GetProcessorBytesAt(p: seq<int32>, n: nat)
    requires n < 4 * |p|
    ensures GetProcessorBytes(p)[n] == IntBytes(p[n / 4])[n % 4]
  {
    if n >= 4 {
      GetProcessorBytesAt(p[1..], n - 4);
      assert (n - 4) / 4 == n / 4 - 1 && (n - 4) % 4 == n % 4;
    }
  }

  /** Each value contributes exactly its own four bytes. */
  lemma {:induction false} GetProcessorBytesAppend(p: seq<int32>, v: int32)
    ensures GetProcessorBytes(p + [v]) == GetProcessorBytes(p) + IntBytes(v)
  {
    if p == [] {
      assert p + [v] == [v];
      assert [v][1..] == [];
    } else {
      assert (p + [v])[1..] == p[1..] + [v];
      assert (p + [v])[0] == p[0];
      GetProcessorBytesAppend(p[1..], v);
    }
  }

  /** The Aggregate fold: acc := Table[(byte)(acc ^ b)] for each byte in
      order. */
  function Fold(acc: int, bytes: seq<byte>): int
    decreases |bytes|
  {
    if bytes == [] then acc
    else Fold(TableEntry(Xor(LowByte(acc), bytes[0])), bytes[1..])
  }

  /** Folding a concatenation folds the second part from where the first one
      ended. */
  lemma {:induction false} FoldAppend(acc: int, a: seq<byte>, b: seq<byte>)
    ensures Fold(acc, a + b) == Fold(Fold(acc, a), b)
    decreases |a|
  {
    if a == [] {
      assert a + b == b;
    } else {
      assert (a + b)[0] == a[0];
      assert (a + b)[1..] == a[1..] + b;
      FoldAppend(TableEntry(Xor(LowByte(acc), a[0])), a[1..], b);
    }
  }

  /** A fold over at least one byte ends on a table entry. */
  lemma {:induction false} FoldEndsOnTableEntry(acc: int, bytes: seq<byte>)
    requires bytes != []
    ensures Fold(acc, bytes) == TableEntry(Xor(LowByte(Fold(acc, bytes[..|bytes| - 1])), bytes[|bytes| - 1]))
  {
    var init, last := bytes[..|bytes| - 1], bytes[|bytes| - 1];
    assert bytes == init + [last];
    FoldAppend(acc, init, [last]);
  }

  /** GetHash: the fold from 255 over the values' bytes. */
  function GetHash(p: seq<int32>): int {
    Fold(255, GetProcessorBytes(p))
  }

  /** The hash of an empty sequence is the seed; otherwise it is the table
      entry reached by the last byte of the last value, so it always lies in
      [0, 2^16). */
  lemma GetHashRange(p: seq<int32>)
    ensures p == [] ==> GetHash(p) == 255
    ensures p != [] ==> exists k: byte :: GetHash(p) == TableEntry(k)
    ensures 0 <= GetHash(p) < 0x1_0000
  {
    if p != [] {
      FoldEndsOnTableEntry(255, GetProcessorBytes(p));
    }
  }

  /** Adding one more value continues the hash of the shorter sequence over
      that value's four bytes. */
  lemma GetHashAppend(p: seq<int32>, v: int32)
    ensures GetHash(p + [v]) == Fold(GetHash(p), IntBytes(v))
  {
    GetProcessorBytesAppend(p, v);
    FoldAppend(255, GetProcessorBytes(p), IntBytes(v));
  }
}
