/** The MPQ cipher table (src/formats/mpq/encryption.ts): 1280 32-bit values drawn
    from a linear congruential generator, shared by the string hash and the word
    stream cipher. */
module MpqCipherTable {
  import opened Bytes

  const InitialSeed: int := 0x00100001
  /** Number of table slots: five interleaved passes of 256. */
  const TableSize: int := 0x500

  /** One generator step: multiplier 125, increment 3, modulus 0x2AAAAB. */
  function LcgNext(seed: int): (r: int)
    ensures 0 <= r < 0x2AAAAB
  {
    (seed * 125 + 3) % 0x2AAAAB
  }

  /** The generator state after `n` steps from the initial seed. */
  function LcgNth(n: nat): (r: int)
    ensures 0 <= r < 0x2AAAAB
  {
    if n == 0 then InitialSeed else LcgNext(LcgNth(n - 1))
  }

  /** `((hi & 0xFFFF) << 16) | (lo & 0xFFFF)` on non-negative integers: the masks keep
      the low 16 bits and the two halves do not overlap, so `|` is `+`. */
  function Combine(hi: int, lo: int): (r: int)
    requires 0 <= hi && 0 <= lo
    ensures 0 <= r < Two32
  {
    (hi % 0x1_0000) * 0x1_0000 + lo % 0x1_0000
  }

  /** The combined value holds the low half of `hi` above the low half of `lo`. */
  lemma CombineHalves(hi: int, lo: int)
    requires 0 <= hi && 0 <= lo
    ensures Combine(hi, lo) / 0x1_0000 == hi % 0x1_0000 && Combine(hi, lo) % 0x1_0000 == lo % 0x1_0000
  {
  }

  /** The value of the slot written at outer index `i`, inner index `j`: generator
      outputs number 2(5i+j)+1 and 2(5i+j)+2. */
  function SlotValue(i: nat, j: nat): (r: int)
    ensures 0 <= r < Two32
  {
    var steps := 2 * (5 * i + j);
    Combine(LcgNth(steps + 1), LcgNth(steps + 2))
  }

  /** Slot `i + 0x100 * j` of the table. */
  function Entry(index: int): (r: int)
    requires 0 <= index < TableSize
    ensures 0 <= r < Two32
  {
    SlotValue(index % 0x100, index / 0x100)
  }

  /** The whole table, keyed 0 .. 0x4FF. */
  function Table(): (t: map<int, int>)
    ensures forall k :: k in t <==> 0 <= k < TableSize
    ensures forall k :: k in t ==> 0 <= t[k] < Two32
  {
    map k | 0 <= k < TableSize :: Entry(k)
  }

  /** The slots written once the outer loop is at `i` and the inner loop at `j`. */
  ghost predicate Written(index: int, i: int, j: int) {
    index % 0x100 < i || (index % 0x100 == i && index / 0x100 < j)
  }

  /** The part of the table written at that point of the nested loop. */
  ghost function Partial(i: int, j: int): map<int, int> {
    map k | 0 <= k < TableSize && Written(k, i, j) :: Entry(k)
  }

  /** Slot `i + 0x100 * j` splits back into its two loop indices. */
  lemma SlotIndex(i: int, j: int)
    requires 0 <= i < 256 && 0 <= j < 5
    ensures (i + 0x100 * j) % 0x100 == i && (i + 0x100 * j) / 0x100 == j
  {
  }

  /** Writing slot i + 0x100 * j moves the written part on by one inner step. */
  lemma PartialStep(i: int, j: int, m: map<int, int>, index: int, v: int)
    requires 0 <= i < 256 && 0 <= j < 5 && index == i + 0x100 * j
    requires m == Partial(i, j) && 0 <= index < TableSize && v == Entry(index)
    ensures m[index := v] == Partial(i, j + 1)
  {
    SlotIndex(i, j);
    forall k | 0 <= k < TableSize
      ensures Written(k, i, j + 1) <==> (Written(k, i, j) || k == index)
    {
      if k % 0x100 == i && k / 0x100 == j {
        assert k == index;
      }
    }
  }

  lemma PartialNextRow(i: int)
    requires 0 <= i < 256
    ensures Partial(i, 5) == Partial(i + 1, 0)
  {
    forall k | 0 <= k < TableSize
      ensures Written(k, i, 5) <==> Written(k, i + 1, 0)
    {
    }
  }

  lemma PartialAll()
    ensures Partial(256, 0) == Table()
  {
    forall k | 0 <= k < TableSize
      ensures Written(k, 256, 0)
    {
    }
  }

  lemma EntryAt(i: int, j: int)
    requires 0 <= i < 256 && 0 <= j < 5
    ensures 0 <= i + 0x100 * j < TableSize
    ensures Entry(i + 0x100 * j) == SlotValue(i, j)
  {
    SlotIndex(i, j);
  }

  /** The two generator steps of one inner iteration, from the state after `n` steps. */
  lemma TwoSteps(n: nat)
    ensures LcgNext(LcgNth(n)) == LcgNth(n + 1) && LcgNext(LcgNth(n + 1)) == LcgNth(n + 2)
  {
  }

  /** The module-level loop of encryption.ts: a single generator state runs through
      the 256 x 5 nested loop, two steps per slot. */
  method BuildTable() returns (table: map<int, int>)
    ensures table == Table()
  {
    table := map[];
    var seed := InitialSeed;
    var i := 0;
    assert Partial(0, 0) == map[];
    while i < 256
      invariant 0 <= i <= 256
      invariant seed == LcgNth(10 * i)
      invariant table == Partial(i, 0)
    {
      table, seed := FillRow(table, i, seed);
      PartialNextRow(i);
      i := i + 1;
    }
    PartialAll();
  }

  /** The inner loop for outer index `i`: slots i, i + 0x100, ..., i + 0x400. */
  method FillRow(table0: map<int, int>, i: int, seed0: int) returns (table: map<int, int>, seed: int)
    requires 0 <= i < 256 && seed0 == LcgNth(10 * i) && table0 == Partial(i, 0)
    ensures seed == LcgNth(10 * i + 10) && table == Partial(i, 5)
  {
    table, seed := table0, seed0;
    var index := i;
    var j := 0;
    while j < 5
      invariant 0 <= j <= 5
      invariant index == i + 0x100 * j
      invariant seed == LcgNth(10 * i + 2 * j)
      invariant table == Partial(i, j)
    {
      var value;
      value, seed := NextSlot(i, j, seed);
      EntryAt(i, j);
      PartialStep(i, j, table, index, value);
      table := table[index := value];
      index := index + 0x100;
      j := j + 1;
    }
  }

  /** One inner iteration: two generator steps, their low halves combined into the
      value of slot (i, j). */
  method NextSlot(i: nat, j: nat, seed0: int) returns (value: int, seed: int)
    requires seed0 == LcgNth(10 * i + 2 * j)
    ensures value == SlotValue(i, j) && seed == LcgNth(10 * i + 2 * j + 2)
  {
    seed := LcgNext(seed0);
    var temp1 := (seed % 0x1_0000) * 0x1_0000;
    seed := LcgNext(seed);
    var temp2 := seed % 0x1_0000;
    TwoSteps(10 * i + 2 * j);
    value := temp1 + temp2;
  }

  /** The first slot agrees with the constant every MPQ implementation publishes. */
  lemma FirstEntryIsStandard()
    ensures Entry(0) == 0x55C636E2
  {
    assert LcgNth(1) == LcgNext(0x100001) == 0x2555C6;
    assert LcgNth(2) == LcgNext(0x2555C6) == 0x1036E2;
    assert Entry(0) == Combine(0x2555C6, 0x1036E2);
  }

  /** Each slot is written by exactly one iteration: the loop indices map onto the
      keys one to one. */
  lemma {:induction false} SlotIndexInjective(i1: int, j1: int, i2: int, j2: int)
    requires 0 <= i1 < 256 && 0 <= j1 < 5 && 0 <= i2 < 256 && 0 <= j2 < 5
    requires i1 + 0x100 * j1 == i2 + 0x100 * j2
    ensures i1 == i2 && j1 == j2
  {
    SlotIndex(i1, j1);
    SlotIndex(i2, j2);
  }
}
