/** `make_weapons`: the weapon parameter table. The table is anchored at the
    UTF-16LE text "EquipParamWeapon"; a 16-bit record count sits 74 bytes
    after the anchor, `count` index triples of three little-endian uint32
    start 112 bytes after it, and `count` packed records of `size` bytes
    follow the triples. A record is kept as its raw bytes. */
module WeaponParams {
  import opened Bytes
  import opened Results

  /** One 12-byte index entry: the weapon ID, the offset of its struct and a
      third field of unknown meaning. */
  datatype IndexTriple = IndexTriple(id: nat, structOffset: nat, aux: nat)

  datatype Weapon = Weapon(index: IndexTriple, record: seq<Byte>)

  datatype WeaponTableError =
    | AnchorNotFound    // `find` gives -1: "Weapon params not found."
    | EmptyTable        // a zero count leaves the loop variable unbound
    | TruncatedIndex    // `struct.unpack` meets fewer than 12 bytes
    | TruncatedRecord   // `from_buffer_copy` meets fewer than `size` bytes

  const AnchorName: string := "EquipParamWeapon"

  /** The bytes `make_weapons` searches for. */
  const Anchor: seq<Byte> := [
      0x45, 0x00, 0x71, 0x00, 0x75, 0x00, 0x69, 0x00,
      0x70, 0x00, 0x50, 0x00, 0x61, 0x00, 0x72, 0x00,
      0x61, 0x00, 0x6D, 0x00, 0x57, 0x00, 0x65, 0x00,
      0x61, 0x00, 0x70, 0x00, 0x6F, 0x00, 0x6E, 0x00
    ]

  /** The anchor is `"EquipParamWeapon".encode('utf_16_le')`: it decodes
      to the characters of the name, one code unit each. */
  lemma AnchorIsEncodedName()
    ensures InBmp(AnchorName) && Anchor == EncodeUtf16Le(AnchorName)
  {
    AnchorInBmp();
    AnchorUnits();
    EncodingFromUnits(AnchorName, Anchor);
  }

  /** Every character of the name is one UTF-16 code unit. */
  lemma AnchorInBmp()
    ensures InBmp(AnchorName)
  {
  }

  /** The code units of the anchor are the characters of the name. */
  lemma AnchorUnits()
    ensures |Anchor| == 2 * |AnchorName|
    ensures Units(Anchor) == seq(|AnchorName|, i requires 0 <= i < |AnchorName| => AnchorName[i] as int)
  {
    var units := Units(Anchor);
    forall i | 0 <= i < |AnchorName|
      ensures units[i] == AnchorName[i] as int
    {
      UnitOfAnchor(i);
    }
  }

  /** Code unit `i` of the anchor is character `i` of the name. */
  lemma UnitOfAnchor(i: nat)
    requires i < 16
    ensures Units(Anchor)[i] == AnchorName[i] as int
  {
    // Halving the range of `i` keeps each literal lookup small.
    if i < 8 {
      if i < 4 {
        if i < 2 { } else { }
      } else {
        if i < 6 { } else { }
      }
    } else {
      if i < 12 {
        if i < 10 { } else { }
      } else {
        if i < 14 { } else { }
      }
    }
  }

  /* Layout relative to the anchor `idx` */

  /** The little-endian 16-bit record count at `idx + 74`. */
  function RecordCount(m: seq<Byte>, idx: nat): nat
  {
    LeUint(Slice(m, idx + 74, idx + 76))
  }

  /** Where the `k`-th triple starts. */
  function TripleOffset(idx: nat, k: nat): nat
  {
    idx + 112 + 12 * k
  }

  /** The records start right after the last of the `n` triples. */
  function RecordsStart(idx: nat, n: nat): nat
  {
    idx + 112 + 12 * n
  }

  /** Where the `k`-th record starts. */
  function RecordOffset(idx: nat, n: nat, size: nat, k: nat): nat
  {
    RecordsStart(idx, n) + size * k
  }

  /** `struct.unpack('III', memory[at:at+12])` on twelve bytes. */
  function ReadTriple(m: seq<Byte>, at: nat): IndexTriple
    requires at + 12 <= |m|
  {
    IndexTriple(U32At(m, at), U32At(m, at + 4), U32At(m, at + 8))
  }

  /** The `k`-th triple. */
  function TripleAt(m: seq<Byte>, idx: nat, k: nat): IndexTriple
    requires TripleOffset(idx, k) + 12 <= |m|
  {
    ReadTriple(m, TripleOffset(idx, k))
  }

  /** The first `n` triples, or None when one of them has fewer than 12
      bytes left. */
  function Triples(m: seq<Byte>, idx: nat, n: nat): Option<seq<IndexTriple>>
  {
    if n > 0 && |m| < RecordsStart(idx, n) then None
    else Some(seq(n, k requires 0 <= k < n => TripleAt(m, idx, k)))
  }

  /** `a * b` as repeated addition. Record positions are computed with it,
      so that each proof about them steps one record at a time by linear
      arithmetic. */
  function Mul(a: nat, b: nat): nat
  {
    if b == 0 then 0 else Mul(a, b - 1) + a
  }

  /** Mul is multiplication. */
  lemma {:induction false} MulIsProduct(a: nat, b: nat)
    ensures Mul(a, b) == a * b
  {
    if b > 0 {
      MulIsProduct(a, b - 1);
    }
  }

  /** `a * x <= a * y` for `x <= y`. */
  lemma {:induction false} ScaleMonotone(a: nat, x: nat, y: nat)
    requires x <= y
    ensures Mul(a, x) <= Mul(a, y)
  {
    if x < y {
      ScaleMonotone(a, x, y - 1);
    }
  }

  /** `memory[i:i+size]` for the `k`-th record from `start`. */
  function RecordAt(m: seq<Byte>, start: nat, size: nat, k: nat): seq<Byte>
  {
    Slice(m, start + Mul(size, k), start + Mul(size, k) + size)
  }

  /** The `n` records of `size` bytes from `start`, or None when the last of
      them has fewer than `size` bytes left. */
  function Records(m: seq<Byte>, start: nat, n: nat, size: nat): Option<seq<seq<Byte>>>
  {
    if n > 0 && |m| < start + Mul(size, n) then None
    else Some(seq(n, k requires 0 <= k < n => RecordAt(m, start, size, k)))
  }

  /** `[(ids[i], params[i]) for i in range(num_structs)]`. */
  function Pair(ids: seq<IndexTriple>, params: seq<seq<Byte>>): (r: seq<Weapon>)
    requires |ids| == |params|
  {
    seq(|ids|, k requires 0 <= k < |ids| => Weapon(ids[k], params[k]))
  }

  /** What `make_weapons` returns or raises, for records of `size` bytes. */
  function WeaponTable(m: seq<Byte>, size: nat): Result<seq<Weapon>, WeaponTableError>
  {
    var idx := Find(m, Anchor);
    if idx < 0 then Failure(AnchorNotFound)
    else
      var n := RecordCount(m, idx);
      match Triples(m, idx, n)
      case None => Failure(TruncatedIndex)
      case Some(ids) =>
        if n == 0 then Failure(EmptyTable)
        else match Records(m, RecordsStart(idx, n), n, size)
          case None => Failure(TruncatedRecord)
          case Some(params) => Success(Pair(ids, params))
  }

  /* The loops of `make_weapons` */

  /** The index loop. `last` is the loop variable after the loop: None when
      the loop never ran, which is what leaves `i` unbound. */
  method ReadTriples(m: seq<Byte>, idx: nat, n: nat)
    returns (ids: Option<seq<IndexTriple>>, last: Option<nat>)
    ensures ids == Triples(m, idx, n)
    ensures ids.Some? ==> (last.None? <==> n == 0)
    ensures ids.Some? && n > 0 ==> last == Some(TripleOffset(idx, n - 1))
  {
    var start := idx + 112;
    var found: seq<IndexTriple> := [];
    last := None;
    var i := start;
    while i < start + 12 * n
      invariant i == TripleOffset(idx, |found|) && |found| <= n
      invariant i > start ==> i <= |m|
      invariant forall k :: 0 <= k < |found| ==> found[k] == TripleAt(m, idx, k)
      invariant last.None? <==> i == start
      invariant i > start ==> last == Some(i - 12)
      decreases start + 12 * n - i
    {
      if |m| < i + 12 {
        return None, last;
      }
      found := found + [ReadTriple(m, i)];
      last := Some(i);
      i := i + 12;
    }
    assert found == seq(n, k requires 0 <= k < n => TripleAt(m, idx, k));
    return Some(found), last;
  }

  /** The record loop: `n` slices of `size` bytes from `start`. */
  method ReadRecords(m: seq<Byte>, start: nat, n: nat, size: nat) returns (params: Option<seq<seq<Byte>>>)
    requires size > 0
    ensures params == Records(m, start, n, size)
  {
    var found: seq<seq<Byte>> := [];
    var i := start;
    var stop := start + size * n;
    MulIsProduct(size, n);
    while i < stop
      invariant i == start + Mul(size, |found|) && |found| <= n
      invariant i > start ==> i <= |m|
      invariant forall k :: 0 <= k < |found| ==> found[k] == RecordAt(m, start, size, k)
      decreases stop - i
    {
      NextRecord(start, size, |found|, n);
      if |m| < i + size {
        return None;
      }
      found := found + [Slice(m, i, i + size)];
      i := i + size;
    }
    AllRecords(start, size, |found|, n);
    assert found == Records(m, start, n, size).value;
    return Some(found);
  }

  /** Inside the loop another record is due, and it ends by the region's end. */
  lemma NextRecord(start: nat, size: nat, j: nat, n: nat)
    requires size > 0 && j <= n && start + Mul(size, j) < start + Mul(size, n)
    ensures j < n
    ensures start + Mul(size, j + 1) == start + Mul(size, j) + size <= start + Mul(size, n)
  {
    if n <= j {
      ScaleMonotone(size, n, j);
    }
    ScaleMonotone(size, j + 1, n);
  }

  /** When the loop stops, all `n` records have been read. */
  lemma AllRecords(start: nat, size: nat, j: nat, n: nat)
    requires size > 0 && j <= n && start + Mul(size, n) <= start + Mul(size, j)
    ensures j == n
  {
    if j < n {
      ScaleMonotone(size, j + 1, n);
    }
  }

  /** `make_weapons(memory)` with `ctypes.sizeof(EQUIP_PARAM_WEAPON_ST) == size`. */
  method MakeWeapons(m: seq<Byte>, size: nat) returns (r: Result<seq<Weapon>, WeaponTableError>)
    requires size > 0
    ensures r == WeaponTable(m, size)
  {
    var idx := Find(m, Anchor);
    if idx < 0 {
      return Failure(AnchorNotFound);
    }
    var numStructs := LeUint(Slice(m, idx + 74, idx + 76));
    var ids, last := ReadTriples(m, idx, numStructs);
    if ids.None? {
      return Failure(TruncatedIndex);
    }
    if last.None? {
      return Failure(EmptyTable);
    }
    var start := last.value + 12;
    assert start == RecordsStart(idx, numStructs);
    var params := ReadRecords(m, start, numStructs, size);
    if params.None? {
      return Failure(TruncatedRecord);
    }
    return Success(Pair(ids.value, params.value));
  }

  /* What the table promises */

  /** The count is a 16-bit value. */
  lemma RecordCountBound(m: seq<Byte>, idx: nat)
    ensures RecordCount(m, idx) < 0x1_0000
  {
    var b := Slice(m, idx + 74, idx + 76);
    LeUintBound(b);
    assert Pow(0x100, 2) == 0x1_0000;
    if |b| < 2 {
      assert Pow(0x100, |b|) <= 0x100;
    }
  }

  /** How `make_weapons` fails: no anchor; a count whose triples run past the
      end of the dump; a zero count; or records that run past the end. */
  lemma WeaponTableFailures(m: seq<Byte>, size: nat)
    ensures WeaponTable(m, size) == Failure(AnchorNotFound) <==> Find(m, Anchor) < 0
    ensures WeaponTable(m, size) == Failure(TruncatedIndex) <==>
      Find(m, Anchor) >= 0 && RecordCount(m, Find(m, Anchor)) > 0 &&
      |m| < RecordsStart(Find(m, Anchor), RecordCount(m, Find(m, Anchor)))
    ensures WeaponTable(m, size) == Failure(EmptyTable) <==>
      Find(m, Anchor) >= 0 && RecordCount(m, Find(m, Anchor)) == 0
    ensures WeaponTable(m, size) == Failure(TruncatedRecord) <==>
      Find(m, Anchor) >= 0 && RecordCount(m, Find(m, Anchor)) > 0 &&
      RecordsStart(Find(m, Anchor), RecordCount(m, Find(m, Anchor))) <= |m| <
        RecordsStart(Find(m, Anchor), RecordCount(m, Find(m, Anchor))) + size * RecordCount(m, Find(m, Anchor))
  {
    if Find(m, Anchor) >= 0 {
      MulIsProduct(size, RecordCount(m, Find(m, Anchor)));
    }
  }

  /** A returned table has `count` pairs; pair `k` holds the triple at
      `idx + 112 + 12k` and the `size` bytes at
      `idx + 112 + 12 * count + k * size`. */
  lemma WeaponTableEntries(m: seq<Byte>, size: nat)
    ensures WeaponTable(m, size).Success? ==>
      var idx := Find(m, Anchor);
      var n := RecordCount(m, idx);
      idx >= 0 && n > 0 && |WeaponTable(m, size).value| == n &&
      RecordOffset(idx, n, size, n) <= |m| &&
      forall k :: 0 <= k < n ==>
        TripleOffset(idx, k) + 12 <= |m| &&
        WeaponTable(m, size).value[k].index == TripleAt(m, idx, k) &&
        RecordOffset(idx, n, size, k) + size <= |m| &&
        WeaponTable(m, size).value[k].record == m[RecordOffset(idx, n, size, k)..RecordOffset(idx, n, size, k) + size]
  {
    if WeaponTable(m, size).Success? {
      var idx := Find(m, Anchor);
      var n := RecordCount(m, idx);
      var r := WeaponTable(m, size).value;
      var ids := Triples(m, idx, n).value;
      var params := Records(m, RecordsStart(idx, n), n, size).value;
      assert r == Pair(ids, params);
      MulIsProduct(size, n);
      forall k | 0 <= k < n
        ensures TripleOffset(idx, k) + 12 <= |m| && r[k].index == TripleAt(m, idx, k)
        ensures RecordOffset(idx, n, size, k) + size <= |m|
        ensures r[k].record == m[RecordOffset(idx, n, size, k)..RecordOffset(idx, n, size, k) + size]
      {
        assert r[k] == Weapon(ids[k], params[k]);
        assert params[k] == RecordAt(m, RecordsStart(idx, n), size, k);
        RecordAtOffset(m, idx, n, size, k);
      }
    }
  }

  /** Record `k < n` is the `size` bytes at `RecordOffset`, inside the dump
      when the last record is. */
  lemma RecordAtOffset(m: seq<Byte>, idx: nat, n: nat, size: nat, k: nat)
    requires k < n && RecordOffset(idx, n, size, n) <= |m|
    ensures RecordOffset(idx, n, size, k) + size <= |m|
    ensures RecordAt(m, RecordsStart(idx, n), size, k) ==
      m[RecordOffset(idx, n, size, k)..RecordOffset(idx, n, size, k) + size]
  {
    RecordInBounds(idx, n, size, k);
    MulIsProduct(size, k);
  }

  /** Record `k < n` ends no later than the last record. */
  lemma RecordInBounds(idx: nat, n: nat, size: nat, k: nat)
    requires k < n
    ensures RecordOffset(idx, n, size, k) + size <= RecordOffset(idx, n, size, n)
  {
    MulIsProduct(size, k);
    MulIsProduct(size, k + 1);
    MulIsProduct(size, n);
    ScaleMonotone(size, k + 1, n);
  }

  /** `struct.pack('III', ...)` of a triple, little-endian. */
  function EncodeTriple(t: IndexTriple): (r: seq<Byte>)
    ensures |r| == 12
  {
    LeBytes(t.id, 4) + LeBytes(t.structOffset, 4) + LeBytes(t.aux, 4)
  }

  /** Reading a triple loses nothing: packing it again gives back the twelve
      bytes it was read from. */
  lemma TripleRoundTrip(m: seq<Byte>, at: nat)
    requires at + 12 <= |m|
    ensures EncodeTriple(ReadTriple(m, at)) == m[at..at + 12]
  {
    LeBytesOfLeUint(m[at..at + 4]);
    LeBytesOfLeUint(m[at + 4..at + 8]);
    LeBytesOfLeUint(m[at + 8..at + 12]);
    assert m[at..at + 12] == m[at..at + 4] + m[at + 4..at + 8] + m[at + 8..at + 12];
  }

  /** A triple of 32-bit values packed and read back is the same triple. */
  lemma TripleOfEncoding(t: IndexTriple)
    requires t.id < 0x1_0000_0000 && t.structOffset < 0x1_0000_0000 && t.aux < 0x1_0000_0000
    ensures ReadTriple(EncodeTriple(t), 0) == t
  {
    var e := EncodeTriple(t);
    assert Pow(0x100, 4) == 0x1_0000_0000;
    assert e[0..4] == LeBytes(t.id, 4);
    assert e[4..8] == LeBytes(t.structOffset, 4);
    assert e[8..12] == LeBytes(t.aux, 4);
    LeUintOfLeBytes(t.id, 4);
    LeUintOfLeBytes(t.structOffset, 4);
    LeUintOfLeBytes(t.aux, 4);
  }

  /** The byte sequences laid end to end. */
  function Concat(rs: seq<seq<Byte>>): seq<Byte>
  {
    if rs == [] then [] else Concat(rs[..|rs| - 1]) + rs[|rs| - 1]
  }

  /** Records `0 .. n - 1` from `start`, built one record at a time. */
  function Tiles(m: seq<Byte>, start: nat, size: nat, n: nat): seq<seq<Byte>>
  {
    if n == 0 then [] else Tiles(m, start, size, n - 1) + [RecordAt(m, start, size, n - 1)]
  }

  /** Built one at a time or all at once, the records are the same. */
  lemma {:induction false} TilesAreRecords(m: seq<Byte>, start: nat, size: nat, n: nat)
    requires Records(m, start, n, size).Some?
    ensures Tiles(m, start, size, n) == Records(m, start, n, size).value
  {
    if n > 0 {
      ScaleMonotone(size, n - 1, n);
      TilesAreRecords(m, start, size, n - 1);
      var rs := Records(m, start, n, size).value;
      assert rs[..n - 1] == Records(m, start, n - 1, size).value;
      assert rs == rs[..n - 1] + [rs[n - 1]];
    }
  }

  /** The first `n` records laid end to end are the `size * n` bytes from
      `start`. */
  lemma {:induction false} ConcatRecords(m: seq<Byte>, start: nat, size: nat, n: nat)
    requires start + Mul(size, n) <= |m|
    ensures Concat(Tiles(m, start, size, n)) == m[start..start + Mul(size, n)]
  {
    if n > 0 {
      var mid := start + Mul(size, n - 1);
      ConcatRecords(m, start, size, n - 1);
      ConcatStep(m, start, mid, mid + size, Tiles(m, start, size, n - 1), RecordAt(m, start, size, n - 1));
    }
  }

  /** One more record, adjacent to the ones before it. */
  lemma ConcatStep(m: seq<Byte>, start: nat, mid: nat, end: nat, prefix: seq<seq<Byte>>, r: seq<Byte>)
    requires start <= mid <= end <= |m|
    requires Concat(prefix) == m[start..mid]
    requires r == Slice(m, mid, end)
    ensures Concat(prefix + [r]) == m[start..end]
  {
    assert (prefix + [r])[..|prefix|] == prefix;
    assert m[start..end] == m[start..mid] + m[mid..end];
  }

  /** The records are packed: laid end to end they are exactly the
      `size * n` bytes from `start`. */
  lemma RecordsTileRegion(m: seq<Byte>, start: nat, n: nat, size: nat)
    requires Records(m, start, n, size).Some?
    ensures Concat(Records(m, start, n, size).value) == Slice(m, start, start + size * n)
  {
    MulIsProduct(size, n);
    TilesAreRecords(m, start, size, n);
    if n > 0 {
      ConcatRecords(m, start, size, n);
      assert Slice(m, start, start + size * n) == m[start..start + size * n];
    }
  }
}
