/** `make_strings`: decoding an indexed UTF-16LE string table found by a
    12-byte marker, and the ID -> name dictionary built from its result.

    Layout, relative to the first occurrence `idx` of the marker:
      idx + 12 .. idx + 16   block count, little-endian uint32
      idx + 28 ..            one 12-byte index block per count:
                             (unused, startId, endId), three uint32
      then                   one little-endian uint32 offset per ID,
                             relative to idx
    and at `idx + offset` each string, as 16-bit code units up to a zero
    code unit looked for among the first `maxLen` units. */
module StringTables {
  import opened Bytes
  import opened Results

  datatype IndexBlock = IndexBlock(unused: nat, startId: nat, endId: nat)

  datatype StringEntry = StringEntry(id: nat, offset: nat, text: seq<CodeUnit>)

  datatype StringTableError =
    | HeaderNotFound       // the marker does not occur in the dump
    | TruncatedIndexBlock  // an index block has fewer than 12 bytes left
    | UndecodableText      // a string's byte slice has odd length

  /* Header layout */

  function BlockCount(m: seq<Byte>, idx: nat): nat
  {
    LeUint(Slice(m, idx + 12, idx + 16))
  }

  function OffsetsStart(m: seq<Byte>, idx: nat): nat
  {
    idx + 28 + 12 * BlockCount(m, idx)
  }

  predicate BlockFits(m: seq<Byte>, idx: nat, j: nat)
  {
    idx + 28 + 12 * (j + 1) <= |m|
  }

  /** Every index block is read whole: none declared, or the last one ends
      inside the dump. */
  predicate BlocksInBounds(m: seq<Byte>, idx: nat)
  {
    BlockCount(m, idx) == 0 || OffsetsStart(m, idx) <= |m|
  }

  /** The `j`-th index block, read as three little-endian uint32. */
  function Block(m: seq<Byte>, idx: nat, j: nat): IndexBlock
    requires BlockFits(m, idx, j)
  {
    var at := idx + 28 + 12 * j;
    IndexBlock(U32At(m, at), U32At(m, at + 4), U32At(m, at + 8))
  }

  /** The first `count` index blocks. */
  function Blocks(m: seq<Byte>, idx: nat, count: nat): seq<IndexBlock>
    requires count == 0 || BlockFits(m, idx, count - 1)
  {
    seq(count, j requires 0 <= j < count => Block(m, idx, j))
  }

  function HeaderBlocks(m: seq<Byte>, idx: nat): seq<IndexBlock>
    requires BlocksInBounds(m, idx)
  {
    Blocks(m, idx, BlockCount(m, idx))
  }

  /** The number of IDs in `range(startId, endId + 1)`. */
  function RangeSize(b: IndexBlock): nat
  {
    if b.startId <= b.endId then b.endId - b.startId + 1 else 0
  }

  /** `range(startId, endId + 1)`. */
  function IdRange(b: IndexBlock): seq<nat>
  {
    seq(RangeSize(b), i requires 0 <= i => b.startId + i)
  }

  /** The IDs the blocks declare, in block order: what `IDs += range(...)`
      accumulates. */
  function ExpandIds(blocks: seq<IndexBlock>): seq<nat>
  {
    if blocks == [] then []
    else ExpandIds(blocks[..|blocks| - 1]) + IdRange(blocks[|blocks| - 1])
  }

  /** The sum over the blocks of `max(0, endId - startId + 1)`. */
  function IdCount(blocks: seq<IndexBlock>): nat
  {
    if blocks == [] then 0
    else IdCount(blocks[..|blocks| - 1]) + RangeSize(blocks[|blocks| - 1])
  }

  function HeaderIds(m: seq<Byte>, idx: nat): seq<nat>
    requires BlocksInBounds(m, idx)
  {
    ExpandIds(HeaderBlocks(m, idx))
  }

  /** The offset read for the `k`-th ID: four bytes at `OffsetsStart + 4k`,
      short if the dump ends first. */
  function OffsetAt(m: seq<Byte>, idx: nat, k: nat): nat
  {
    var at := OffsetsStart(m, idx) + 4 * k;
    LeUint(Slice(m, at, at + 4))
  }

  /* Strings */

  /** The `j`-th code unit of the string at `s`; a unit past the end of the
      dump reads short (and 0 when no byte of it is left). */
  function CodeUnitAt(m: seq<Byte>, s: nat, j: nat): nat
  {
    LeUint(Slice(m, s + 2 * j, s + 2 * j + 2))
  }

  /** The first zero code unit at index `j` or later and below `maxLen`, or -1. */
  function FirstZeroUnit(m: seq<Byte>, s: nat, j: nat, maxLen: int): (r: int)
    ensures r == -1 || (j <= r < maxLen && CodeUnitAt(m, s, r) == 0)
    ensures r == -1 ==> forall t: nat :: j <= t < maxLen ==> CodeUnitAt(m, s, t) != 0
    ensures r >= 0 ==> forall t: nat :: j <= t < r ==> CodeUnitAt(m, s, t) != 0
    decreases maxLen - j
  {
    if maxLen <= j then -1
    else if CodeUnitAt(m, s, j) == 0 then j
    else FirstZeroUnit(m, s, j + 1, maxLen)
  }

  /** Where the string at `s` ends: at its first zero code unit among the
      first `maxLen`, otherwise after one code unit. */
  function TextEnd(m: seq<Byte>, s: nat, maxLen: int): nat
  {
    var z := FirstZeroUnit(m, s, 0, maxLen);
    if z < 0 then s + 2 else s + 2 * z
  }

  /** `memory[s:end].decode('utf_16_le')`, stopped at code units; None when
      the slice has an odd number of bytes. */
  function Text(m: seq<Byte>, s: nat, maxLen: int): Option<seq<CodeUnit>>
  {
    var b := Slice(m, s, TextEnd(m, s, maxLen));
    if |b| % 2 == 0 then Some(Units(b)) else None
  }

  /** The IDs `make_strings` expands from the index blocks at `idx`, or None
      when `struct.unpack` meets a block with fewer than 12 bytes left. */
  function DeclaredIds(m: seq<Byte>, idx: nat): Option<seq<nat>>
  {
    if BlocksInBounds(m, idx) then Some(HeaderIds(m, idx)) else None
  }

  /** The first `count` offsets after the index blocks at `idx`. */
  function Offsets(m: seq<Byte>, idx: nat, count: nat): seq<nat>
  {
    seq(count, k requires 0 <= k => OffsetAt(m, idx, k))
  }

  /** The strings at `idx + off` for each offset, or None if the codec
      rejects any of them. */
  ghost function Texts(m: seq<Byte>, idx: nat, offsets: seq<nat>, maxLen: int): Option<seq<seq<CodeUnit>>>
  {
    if forall k :: 0 <= k < |offsets| ==> Text(m, idx + offsets[k], maxLen).Some?
    then Some(seq(|offsets|, k requires 0 <= k < |offsets| => Text(m, idx + offsets[k], maxLen).value))
    else None
  }

  /** `list(zip(IDs, str_offsets, strings))`. */
  function Zip(ids: seq<nat>, offsets: seq<nat>, texts: seq<seq<CodeUnit>>): (r: seq<StringEntry>)
    requires |ids| == |offsets| == |texts|
  {
    seq(|ids|, k requires 0 <= k < |ids| => StringEntry(ids[k], offsets[k], texts[k]))
  }

  /** What `make_strings(memory, header, MAX_LEN)` returns, or the exception
      it raises. */
  ghost function StringTable(m: seq<Byte>, header: seq<Byte>, maxLen: int)
    : Result<seq<StringEntry>, StringTableError>
  {
    var idx := Find(m, header);
    if idx < 0 then Failure(HeaderNotFound)
    else match DeclaredIds(m, idx)
      case None => Failure(TruncatedIndexBlock)
      case Some(ids) =>
        var offsets := Offsets(m, idx, |ids|);
        match Texts(m, idx, offsets, maxLen)
        case None => Failure(UndecodableText)
        case Some(texts) => Success(Zip(ids, offsets, texts))
  }

  /** `entries` is the table at `idx`: one entry per declared ID, in order,
      with the offset read for it and the string found at that offset. */
  ghost predicate DecodedAs(m: seq<Byte>, idx: nat, maxLen: int, entries: seq<StringEntry>)
  {
    BlocksInBounds(m, idx) && EntriesFor(m, idx, maxLen, HeaderIds(m, idx), entries)
  }

  /** Entry `k` carries `ids[k]`, the `k`-th offset and the string there. */
  ghost predicate EntriesFor(m: seq<Byte>, idx: nat, maxLen: int, ids: seq<nat>, entries: seq<StringEntry>)
  {
    |entries| == |ids| &&
    forall k :: 0 <= k < |entries| ==>
      entries[k].id == ids[k] &&
      entries[k].offset == OffsetAt(m, idx, k) &&
      Text(m, idx + OffsetAt(m, idx, k), maxLen) == Some(entries[k].text)
  }

  /* The loops of make_strings */

  /** The block loop: read the block count at `idx + 12`, then unpack each
      12-byte block from `idx + 28` and append its inclusive ID range. */
  method ExpandBlocks(m: seq<Byte>, idx: nat) returns (ids: Option<seq<nat>>)
    ensures ids == DeclaredIds(m, idx)
  {
    var numBlocks := LeUint(Slice(m, idx + 12, idx + 16));
    var found: seq<nat> := [];
    var start := idx + 28;
    for j := 0 to numBlocks
      invariant j == 0 || BlockFits(m, idx, j - 1)
      invariant found == ExpandIds(Blocks(m, idx, j))
    {
      var i := start + 12 * j;
      if |m| < i + 12 {
        return None;
      }
      var block := IndexBlock(U32At(m, i), U32At(m, i + 4), U32At(m, i + 8));
      ExpandNextBlock(m, idx, j);
      found := found + IdRange(block);
    }
    return Some(found);
  }

  /** One more block appends its inclusive ID range. */
  lemma ExpandNextBlock(m: seq<Byte>, idx: nat, j: nat)
    requires BlockFits(m, idx, j)
    ensures ExpandIds(Blocks(m, idx, j + 1)) == ExpandIds(Blocks(m, idx, j)) + IdRange(Block(m, idx, j))
  {
    var next := Blocks(m, idx, j + 1);
    assert next[..j] == Blocks(m, idx, j);
    assert next[j] == Block(m, idx, j);
  }

  /** The offset loop: one four-byte little-endian read per ID, contiguous
      from just after the index blocks. */
  method ReadOffsets(m: seq<Byte>, idx: nat, count: nat) returns (offsets: seq<nat>)
    ensures offsets == Offsets(m, idx, count)
  {
    var offStart := idx + 28 + 12 * LeUint(Slice(m, idx + 12, idx + 16));
    offsets := [];
    var i := offStart;
    while i < offStart + 4 * count
      invariant offStart <= i <= offStart + 4 * count && (i - offStart) % 4 == 0
      invariant |offsets| == (i - offStart) / 4
      invariant forall k :: 0 <= k < |offsets| ==> offsets[k] == OffsetAt(m, idx, k)
    {
      offsets := offsets + [LeUint(Slice(m, i, i + 4))];
      i := i + 4;
    }
  }

  /** One pass of the string loop: step two bytes at a time from `s` over at
      most `maxLen` code units, stopping at a zero one, then decode the bytes
      before the stop. */
  method DecodeText(m: seq<Byte>, s: nat, maxLen: int) returns (t: Option<seq<CodeUnit>>)
    ensures t == Text(m, s, maxLen)
  {
    var end := s + 2;
    var i := s;
    ghost var j: nat := 0;
    while i < s + 2 * maxLen
      invariant i == s + 2 * j
      invariant FirstZeroUnit(m, s, 0, maxLen) == FirstZeroUnit(m, s, j, maxLen)
      invariant end == s + 2
      decreases s + 2 * maxLen - i
    {
      if LeUint(Slice(m, i, i + 2)) == 0 {
        end := i;
        break;
      }
      i := i + 2;
      j := j + 1;
    }
    assert end == TextEnd(m, s, maxLen);
    var bytes := Slice(m, s, end);
    if |bytes| % 2 == 1 {
      return None;
    }
    return Some(Units(bytes));
  }

  /** The string loop: decode the string at `idx + off` for each offset in
      turn, giving up at the first one the codec rejects. */
  method DecodeTexts(m: seq<Byte>, idx: nat, offsets: seq<nat>, maxLen: int)
    returns (texts: Option<seq<seq<CodeUnit>>>)
    ensures texts == Texts(m, idx, offsets, maxLen)
  {
    var strings: seq<seq<CodeUnit>> := [];
    for k := 0 to |offsets|
      invariant |strings| == k
      invariant forall k' :: 0 <= k' < k ==> Text(m, idx + offsets[k'], maxLen) == Some(strings[k'])
    {
      var text := DecodeText(m, idx + offsets[k], maxLen);
      if text.None? {
        return None;
      }
      strings := strings + [text.value];
    }
    assert forall k :: 0 <= k < |offsets| ==> Text(m, idx + offsets[k], maxLen).Some?;
    assert Texts(m, idx, offsets, maxLen).value == strings;
    return Some(strings);
  }

  /** `make_strings(memory, header, MAX_LEN=64)`. */
  method MakeStrings(m: seq<Byte>, header: seq<Byte>, maxLen: int := 64)
    returns (r: Result<seq<StringEntry>, StringTableError>)
    ensures r == StringTable(m, header, maxLen)
  {
    var idx := Find(m, header);
    if idx < 0 {
      return Failure(HeaderNotFound);
    }
    var expanded := ExpandBlocks(m, idx);
    if expanded.None? {
      return Failure(TruncatedIndexBlock);
    }
    var ids := expanded.value;
    var offsets := ReadOffsets(m, idx, |ids|);
    var texts := DecodeTexts(m, idx, offsets, maxLen);
    if texts.None? {
      return Failure(UndecodableText);
    }
    r := Success(Zip(ids, offsets, texts.value));
  }

  /* What make_strings promises */

  /** `make_strings` raises for a missing marker or a cut-off block table,
      and only then, before any string is looked at. */
  lemma StringTableHeaderFailures(m: seq<Byte>, header: seq<Byte>, maxLen: int)
    ensures StringTable(m, header, maxLen) == Failure(HeaderNotFound) <==> Find(m, header) < 0
    ensures StringTable(m, header, maxLen) == Failure(TruncatedIndexBlock) <==>
      Find(m, header) >= 0 && !BlocksInBounds(m, Find(m, header))
  {
  }

  /** `make_strings` raises from the codec exactly when the string of some
      declared ID has an odd number of bytes. */
  lemma StringTableUndecodable(m: seq<Byte>, header: seq<Byte>, maxLen: int)
    ensures StringTable(m, header, maxLen) == Failure(UndecodableText) <==>
      Find(m, header) >= 0 && BlocksInBounds(m, Find(m, header)) &&
      exists k :: 0 <= k < |HeaderIds(m, Find(m, header))| &&
        Text(m, Find(m, header) + OffsetAt(m, Find(m, header), k), maxLen).None?
  {
    if Find(m, header) >= 0 && BlocksInBounds(m, Find(m, header)) {
      UndecodableOnSoundHeader(m, header, maxLen, Find(m, header));
    } else {
      StringTableHeaderFailures(m, header, maxLen);
    }
  }

  /** Past a sound header at `idx`, the codec error is a rejected string. */
  lemma UndecodableOnSoundHeader(m: seq<Byte>, header: seq<Byte>, maxLen: int, idx: nat)
    requires Find(m, header) == idx && BlocksInBounds(m, idx)
    ensures StringTable(m, header, maxLen) == Failure(UndecodableText) <==>
      exists k :: 0 <= k < |HeaderIds(m, idx)| && Text(m, idx + OffsetAt(m, idx, k), maxLen).None?
  {
    StringTableOnSoundHeader(m, header, maxLen);
    TextsNoneIff(m, idx, |HeaderIds(m, idx)|, maxLen);
  }

  /** Past a sound header, `make_strings` fails exactly when the string loop
      gives up. */
  lemma StringTableOnSoundHeader(m: seq<Byte>, header: seq<Byte>, maxLen: int)
    requires Find(m, header) >= 0 && BlocksInBounds(m, Find(m, header))
    ensures StringTable(m, header, maxLen) == Failure(UndecodableText) <==>
      Texts(m, Find(m, header), Offsets(m, Find(m, header), |HeaderIds(m, Find(m, header))|), maxLen).None?
  {
    assert DeclaredIds(m, Find(m, header)) == Some(HeaderIds(m, Find(m, header)));
  }

  /** The string loop gives up exactly when the string of some ID is rejected. */
  lemma TextsNoneIff(m: seq<Byte>, idx: nat, count: nat, maxLen: int)
    ensures Texts(m, idx, Offsets(m, idx, count), maxLen).None? <==>
      exists k :: 0 <= k < count && Text(m, idx + OffsetAt(m, idx, k), maxLen).None?
  {
    if Texts(m, idx, Offsets(m, idx, count), maxLen).None? {
      var k := TextsNoneWitness(m, idx, Offsets(m, idx, count), maxLen);
      OffsetsAt(m, idx, count, k);
    } else {
      TextsSomeAll(m, idx, count, maxLen);
    }
  }

  /** When the string loop succeeds, the string of every ID decodes. */
  lemma TextsSomeAll(m: seq<Byte>, idx: nat, count: nat, maxLen: int)
    requires Texts(m, idx, Offsets(m, idx, count), maxLen).Some?
    ensures forall k :: 0 <= k < count ==> Text(m, idx + OffsetAt(m, idx, k), maxLen).Some?
  {
    var offsets := Offsets(m, idx, count);
    forall k | 0 <= k < count
      ensures Text(m, idx + OffsetAt(m, idx, k), maxLen).Some?
    {
      TextsSomeAt(m, idx, offsets, maxLen, k);
      OffsetsAt(m, idx, count, k);
    }
  }

  /** Offset `k` of the offset column. */
  lemma OffsetsAt(m: seq<Byte>, idx: nat, count: nat, k: nat)
    requires k < count
    ensures |Offsets(m, idx, count)| == count && Offsets(m, idx, count)[k] == OffsetAt(m, idx, k)
  {
  }

  /** The first offset whose string the codec rejects. */
  lemma TextsNoneWitness(m: seq<Byte>, idx: nat, offsets: seq<nat>, maxLen: int) returns (k: nat)
    requires Texts(m, idx, offsets, maxLen).None?
    ensures k < |offsets| && Text(m, idx + offsets[k], maxLen).None?
  {
    k :| 0 <= k < |offsets| && Text(m, idx + offsets[k], maxLen).None?;
  }

  /** The `k`-th decoded text is the string at the `k`-th offset. */
  lemma TextsSomeAt(m: seq<Byte>, idx: nat, offsets: seq<nat>, maxLen: int, k: nat)
    requires Texts(m, idx, offsets, maxLen).Some? && k < |offsets|
    ensures |Texts(m, idx, offsets, maxLen).value| == |offsets|
    ensures Text(m, idx + offsets[k], maxLen) == Some(Texts(m, idx, offsets, maxLen).value[k])
  {
  }

  /** Zipping the IDs with their offsets and decoded strings gives entries
      that satisfy EntriesFor. */
  lemma ZipDecoded(m: seq<Byte>, idx: nat, maxLen: int, ids: seq<nat>, texts: seq<seq<CodeUnit>>)
    requires Texts(m, idx, Offsets(m, idx, |ids|), maxLen) == Some(texts)
    ensures |texts| == |ids|
    ensures EntriesFor(m, idx, maxLen, ids, Zip(ids, Offsets(m, idx, |ids|), texts))
  {
    var offsets := Offsets(m, idx, |ids|);
    assert |texts| == |ids|;
    var es := Zip(ids, offsets, texts);
    forall k | 0 <= k < |es|
      ensures es[k].id == ids[k] && es[k].offset == OffsetAt(m, idx, k)
      ensures Text(m, idx + OffsetAt(m, idx, k), maxLen) == Some(es[k].text)
    {
      ZipEntryAt(m, idx, maxLen, ids, texts, k);
    }
  }

  /** Entry `k` of the zipped table. */
  lemma ZipEntryAt(m: seq<Byte>, idx: nat, maxLen: int, ids: seq<nat>, texts: seq<seq<CodeUnit>>, k: nat)
    requires Texts(m, idx, Offsets(m, idx, |ids|), maxLen) == Some(texts) && k < |ids|
    ensures |texts| == |ids|
    ensures Zip(ids, Offsets(m, idx, |ids|), texts)[k].id == ids[k]
    ensures Zip(ids, Offsets(m, idx, |ids|), texts)[k].offset == OffsetAt(m, idx, k)
    ensures Text(m, idx + OffsetAt(m, idx, k), maxLen) == Some(Zip(ids, Offsets(m, idx, |ids|), texts)[k].text)
  {
    var offsets := Offsets(m, idx, |ids|);
    OffsetsAt(m, idx, |ids|, k);
    TextsSomeAt(m, idx, offsets, maxLen, k);
    assert Zip(ids, offsets, texts)[k] == StringEntry(ids[k], offsets[k], texts[k]);
  }

  /** A returned table has one entry per declared ID, as many as the blocks'
      inclusive ranges add up to; entry `k` carries the `k`-th ID, the
      `k`-th offset and the string at that offset. */
  lemma StringTableEntries(m: seq<Byte>, header: seq<Byte>, maxLen: int)
    ensures StringTable(m, header, maxLen).Success? ==>
      Find(m, header) >= 0 &&
      DecodedAs(m, Find(m, header), maxLen, StringTable(m, header, maxLen).value) &&
      |StringTable(m, header, maxLen).value| == IdCount(HeaderBlocks(m, Find(m, header)))
  {
    var idx := Find(m, header);
    if StringTable(m, header, maxLen).Success? {
      var ids := HeaderIds(m, idx);
      var texts := Texts(m, idx, Offsets(m, idx, |ids|), maxLen).value;
      assert StringTable(m, header, maxLen).value == Zip(ids, Offsets(m, idx, |ids|), texts);
      ZipDecoded(m, idx, maxLen, ids, texts);
      ExpandIdsCount(HeaderBlocks(m, idx));
    }
  }

  /** The block count decides truncation: every block fits exactly when the
      last one does. */
  lemma BlocksInBoundsIffEachFits(m: seq<Byte>, idx: nat)
    ensures BlocksInBounds(m, idx) <==>
      forall j :: 0 <= j < BlockCount(m, idx) ==> BlockFits(m, idx, j)
  {
    if !BlocksInBounds(m, idx) {
      assert !BlockFits(m, idx, BlockCount(m, idx) - 1);
    }
  }

  /** The number of IDs is the sum over the blocks of `max(0, endId - startId + 1)`. */
  lemma {:induction false} ExpandIdsCount(blocks: seq<IndexBlock>)
    ensures |ExpandIds(blocks)| == IdCount(blocks)
  {
    if blocks != [] {
      ExpandIdsCount(blocks[..|blocks| - 1]);
    }
  }

  /** Block order, then ID order: the `t`-th ID of block `j` comes right after
      the IDs of the blocks before it. */
  lemma {:induction false} ExpandIdsAt(blocks: seq<IndexBlock>, j: nat, t: nat)
    requires j < |blocks| && t < RangeSize(blocks[j])
    ensures IdCount(blocks[..j]) + t < |ExpandIds(blocks)|
    ensures ExpandIds(blocks)[IdCount(blocks[..j]) + t] == blocks[j].startId + t
  {
    var init := blocks[..|blocks| - 1];
    ExpandIdsCount(init);
    if j < |blocks| - 1 {
      ExpandIdsAt(init, j, t);
      assert init[..j] == blocks[..j];
    } else {
      assert init == blocks[..j];
    }
  }

  /** `range(startId, endId + 1)` holds exactly the IDs between the two, inclusive. */
  lemma IdRangeMembership(b: IndexBlock, id: nat)
    ensures id in IdRange(b) <==> b.startId <= id <= b.endId
  {
    if b.startId <= id <= b.endId {
      assert IdRange(b)[id - b.startId] == id;
    }
  }

  /** An ID is declared exactly when some block's inclusive range holds it. */
  lemma {:induction false} ExpandIdsMembership(blocks: seq<IndexBlock>, id: nat)
    ensures id in ExpandIds(blocks) <==>
      exists j :: 0 <= j < |blocks| && blocks[j].startId <= id <= blocks[j].endId
  {
    if blocks != [] {
      var c := |blocks| - 1;
      var init := blocks[..c];
      ExpandIdsMembership(init, id);
      IdRangeMembership(blocks[c], id);
      assert ExpandIds(blocks) == ExpandIds(init) + IdRange(blocks[c]);
      assert id in ExpandIds(blocks) <==> id in ExpandIds(init) || id in IdRange(blocks[c]);
      if exists j :: 0 <= j < |blocks| && blocks[j].startId <= id <= blocks[j].endId {
        var j :| 0 <= j < |blocks| && blocks[j].startId <= id <= blocks[j].endId;
        if j < c {
          assert init[j] == blocks[j];
        }
      }
      if exists j :: 0 <= j < c && init[j].startId <= id <= init[j].endId {
        var j :| 0 <= j < c && init[j].startId <= id <= init[j].endId;
        assert init[j] == blocks[j];
      }
    }
  }

  /* What a decoded string is */

  /** A string is never longer than `max(1, maxLen - 1)` code units. */
  lemma TextLength(m: seq<Byte>, s: nat, maxLen: int)
    ensures Text(m, s, maxLen).Some? ==>
      |Text(m, s, maxLen).value| <= if maxLen <= 1 then 1 else maxLen - 1
  {
  }

  /** A string is a run of the code units stored from `s`; when the scan
      looked at one unit or more, none of them is zero. */
  lemma TextFromDump(m: seq<Byte>, s: nat, maxLen: int)
    ensures Text(m, s, maxLen).Some? ==>
      forall i :: 0 <= i < |Text(m, s, maxLen).value| ==> Text(m, s, maxLen).value[i] == CodeUnitAt(m, s, i)
    ensures Text(m, s, maxLen).Some? && 1 <= maxLen ==>
      forall i :: 0 <= i < |Text(m, s, maxLen).value| ==> Text(m, s, maxLen).value[i] != 0
  {
    var e := TextEnd(m, s, maxLen);
    var b := Slice(m, s, e);
    if |b| % 2 == 0 {
      var t := Units(b);
      forall i | 0 <= i < |t|
        ensures t[i] == CodeUnitAt(m, s, i)
      {
        UnitsAt(b, i);
        assert b[2 * i..2 * i + 2] == Slice(m, s + 2 * i, s + 2 * i + 2);
      }
    }
  }

  /** With a scan of one unit or more and two bytes at `s`, the string is
      empty exactly when its first code unit is zero. */
  lemma TextEmptyIffFirstUnitZero(m: seq<Byte>, s: nat, maxLen: int)
    requires 1 <= maxLen && s + 2 <= |m|
    ensures Text(m, s, maxLen) == Some([]) <==> CodeUnitAt(m, s, 0) == 0
  {
    if CodeUnitAt(m, s, 0) != 0 {
      assert FirstZeroUnit(m, s, 0, maxLen) != 0;
    }
  }

  /** A zero code unit at `j`, below `maxLen` and with none before it, ends
      the string after `j` units. */
  lemma TextTerminated(m: seq<Byte>, s: nat, maxLen: int, j: nat)
    requires j < maxLen && CodeUnitAt(m, s, j) == 0
    requires forall t: nat :: t < j ==> CodeUnitAt(m, s, t) != 0
    requires s + 2 * j <= |m|
    ensures Text(m, s, maxLen).Some? && |Text(m, s, maxLen).value| == j
  {
    var z := FirstZeroUnit(m, s, 0, maxLen);
    assert z == j;
  }

  /** With no zero among the first `maxLen` code units, the string is the
      first code unit alone, not the scanned prefix. */
  lemma TextUnterminated(m: seq<Byte>, s: nat, maxLen: int)
    requires s + 2 <= |m|
    requires forall t: nat :: t < maxLen ==> CodeUnitAt(m, s, t) != 0
    ensures Text(m, s, maxLen).Some? && |Text(m, s, maxLen).value| == 1
    ensures Text(m, s, maxLen).value[0] == CodeUnitAt(m, s, 0)
  {
    TextFromDump(m, s, maxLen);
  }

  /* The ID -> name dictionary */

  /** `{k: v for (k, o, v) in entries}`. */
  function NameTable(entries: seq<StringEntry>): map<nat, seq<CodeUnit>>
  {
    if entries == [] then map[]
    else
      var last := entries[|entries| - 1];
      NameTable(entries[..|entries| - 1])[last.id := last.text]
  }

  /** The dictionary's keys are exactly the IDs of the entries. */
  lemma {:induction false} NameTableKeys(entries: seq<StringEntry>)
    ensures forall id :: id in NameTable(entries) <==>
      exists k :: 0 <= k < |entries| && entries[k].id == id
  {
    if entries != [] {
      var init := entries[..|entries| - 1];
      NameTableKeys(init);
      forall id
        ensures id in NameTable(entries) <==> exists k :: 0 <= k < |entries| && entries[k].id == id
      {
        assert NameTable(entries) == NameTable(init)[entries[|entries| - 1].id := entries[|entries| - 1].text];
        if id in NameTable(entries) && id != entries[|entries| - 1].id {
          var k :| 0 <= k < |init| && init[k].id == id;
          assert entries[k] == init[k];
        }
        if exists k :: 0 <= k < |entries| && entries[k].id == id {
          var k :| 0 <= k < |entries| && entries[k].id == id;
          if k < |init| {
            assert init[k] == entries[k];
          }
        }
      }
    }
  }

  /** A repeated ID names the string of its last occurrence. */
  lemma {:induction false} NameTableLastWins(entries: seq<StringEntry>, k: nat)
    requires k < |entries|
    requires forall k' :: k < k' < |entries| ==> entries[k'].id != entries[k].id
    ensures entries[k].id in NameTable(entries)
    ensures NameTable(entries)[entries[k].id] == entries[k].text
  {
    if k < |entries| - 1 {
      var init := entries[..|entries| - 1];
      assert init[k] == entries[k];
      NameTableLastWins(init, k);
    }
  }

  /* A worked table */

  /** The item-name marker `00 00 01 00 60 2F 00 00 01 00 00 00`. */
  const ItemNamesHeader: seq<Byte> := [0x00, 0x00, 0x01, 0x00, 0x60, 0x2F, 0x00, 0x00, 0x01, 0x00, 0x00, 0x00]

  /** A dump holding one table at 0: one block `(0, 5, 6)`, offsets 48 and
      54, and the strings "AB" and "C" there, each ended by a zero unit. */
  const SampleDump: seq<Byte> := ItemNamesHeader +
    [0x01, 0x00, 0x00, 0x00] + [0, 0, 0, 0, 0, 0, 0, 0, 0, 0, 0, 0] +
    [0, 0, 0, 0, 5, 0, 0, 0, 6, 0, 0, 0] +
    [48, 0, 0, 0, 54, 0, 0, 0] +
    [0x41, 0x00, 0x42, 0x00, 0x00, 0x00] +
    [0x43, 0x00, 0x00, 0x00]

  /** On the sample dump, the item-name marker yields IDs 5 and 6 named
      "AB" and "C", with the offsets they were read from; the name
      dictionary built from them maps 5 to "AB" and 6 to "C". */
  lemma SampleTable(m: seq<Byte>, header: seq<Byte>)
    requires m == SampleDump && header == ItemNamesHeader
    ensures StringTable(m, header, 64) ==
      Success([StringEntry(5, 48, [0x41, 0x42]), StringEntry(6, 54, [0x43])])
    ensures NameTable(StringTable(m, header, 64).value) == map[5 := [0x41, 0x42], 6 := [0x43]]
  {
    SampleHeader(m, header);
    SampleIds(m);
    SampleOffsets(m);
    SampleTextAB(m);
    SampleTextC(m);
    var ids: seq<nat> := [5, 6];
    var offsets: seq<nat> := [48, 54];
    var texts: seq<seq<CodeUnit>> := [[0x41, 0x42], [0x43]];
    TableOfTwo(m, header, ids, offsets, 64, texts);
    NameTableOfTwo(StringEntry(5, 48, [0x41, 0x42]), StringEntry(6, 54, [0x43]));
  }

  /** The dictionary of a two-entry table. */
  lemma NameTableOfTwo(e0: StringEntry, e1: StringEntry)
    ensures NameTable([e0, e1]) == map[e0.id := e0.text][e1.id := e1.text]
  {
    assert [e0, e1][..1] == [e0];
    assert [e0][..0] == [];
    assert NameTable([e0]) == NameTable([])[e0.id := e0.text];
    assert NameTable([e0, e1]) == NameTable([e0])[e1.id := e1.text];
  }

  /** A two-entry table put together from its parts. */
  lemma TableOfTwo(m: seq<Byte>, header: seq<Byte>, ids: seq<nat>, offsets: seq<nat>, maxLen: int,
                   texts: seq<seq<CodeUnit>>)
    requires |ids| == 2 && |offsets| == 2 && |texts| == 2
    requires Find(m, header) == 0 && BlocksInBounds(m, 0) && HeaderIds(m, 0) == ids
    requires Offsets(m, 0, 2) == offsets
    requires Text(m, offsets[0], maxLen) == Some(texts[0]) && Text(m, offsets[1], maxLen) == Some(texts[1])
    ensures StringTable(m, header, maxLen) ==
      Success([StringEntry(ids[0], offsets[0], texts[0]), StringEntry(ids[1], offsets[1], texts[1])])
  {
    assert 0 + offsets[0] == offsets[0] && 0 + offsets[1] == offsets[1];
    TextsOfTwo(m, 0, offsets, maxLen, texts);
    StringTableOfParts(m, header, 0, maxLen, ids, offsets, texts);
    ZipOfTwo(ids, offsets, texts);
  }

  /** Two strings that decode make the texts of a two-entry table. */
  lemma TextsOfTwo(m: seq<Byte>, idx: nat, offsets: seq<nat>, maxLen: int, texts: seq<seq<CodeUnit>>)
    requires |offsets| == 2 && |texts| == 2
    requires Text(m, idx + offsets[0], maxLen) == Some(texts[0])
    requires Text(m, idx + offsets[1], maxLen) == Some(texts[1])
    ensures Texts(m, idx, offsets, maxLen) == Some(texts)
  {
    forall k | 0 <= k < |offsets|
      ensures Text(m, idx + offsets[k], maxLen) == Some(texts[k])
    {
      if k == 1 {
        assert k == 1;
      }
    }
    TextsAllSome(m, idx, offsets, maxLen, texts);
  }

  /** The table assembled from its parts. */
  lemma StringTableOfParts(m: seq<Byte>, header: seq<Byte>, idx: nat, maxLen: int,
                           ids: seq<nat>, offsets: seq<nat>, texts: seq<seq<CodeUnit>>)
    requires Find(m, header) == idx && BlocksInBounds(m, idx) && HeaderIds(m, idx) == ids
    requires Offsets(m, idx, |ids|) == offsets && Texts(m, idx, offsets, maxLen) == Some(texts)
    ensures |ids| == |offsets| == |texts|
    ensures StringTable(m, header, maxLen) == Success(Zip(ids, offsets, texts))
  {
    assert DeclaredIds(m, idx) == Some(ids);
  }

  /** Zipping two-element columns. */
  lemma ZipOfTwo(ids: seq<nat>, offsets: seq<nat>, texts: seq<seq<CodeUnit>>)
    requires |ids| == |offsets| == |texts| == 2
    ensures Zip(ids, offsets, texts) == [StringEntry(ids[0], offsets[0], texts[0]), StringEntry(ids[1], offsets[1], texts[1])]
  {
  }

  /** The marker opens the sample dump, which declares one block. */
  lemma SampleHeader(m: seq<Byte>, header: seq<Byte>)
    requires m == SampleDump && header == ItemNamesHeader
    ensures |m| == 58 && Find(m, header) == 0 && BlockCount(m, 0) == 1
  {
    assert m[0..12] == header;
    assert Slice(m, 12, 16) == [1, 0, 0, 0];
    LeUintOfFour(Slice(m, 12, 16));
  }

  /** The one block `(0, 5, 6)` declares IDs 5 and 6. */
  lemma SampleIds(m: seq<Byte>)
    requires m == SampleDump && |m| == 58 && BlockCount(m, 0) == 1
    ensures BlocksInBounds(m, 0) && HeaderIds(m, 0) == [5, 6]
  {
    assert m[28..32] == [0, 0, 0, 0];
    assert m[32..36] == [5, 0, 0, 0];
    assert m[36..40] == [6, 0, 0, 0];
    LeUintOfFour(m[28..32]);
    LeUintOfFour(m[32..36]);
    LeUintOfFour(m[36..40]);
    var bs := HeaderBlocks(m, 0);
    assert bs == [IndexBlock(0, 5, 6)];
    assert ExpandIds(bs) == ExpandIds(bs[..0]) + IdRange(bs[0]);
    assert bs[..0] == [];
    assert IdRange(bs[0]) == [5, 6];
  }

  /** The two offsets after the block are 48 and 54. */
  lemma SampleOffsets(m: seq<Byte>)
    requires m == SampleDump && |m| == 58 && BlockCount(m, 0) == 1
    ensures Offsets(m, 0, 2) == [48, 54]
  {
    assert Slice(m, 40, 44) == [48, 0, 0, 0];
    assert Slice(m, 44, 48) == [54, 0, 0, 0];
    LeUintOfFour(Slice(m, 40, 44));
    LeUintOfFour(Slice(m, 44, 48));
  }

  /** "AB" is stored at 48, then a zero unit. */
  lemma SampleTextAB(m: seq<Byte>)
    requires m == SampleDump
    ensures Text(m, 48, 64) == Some([0x41, 0x42])
  {
    assert |m| == 58 && m[48..54] == [0x41, 0x00, 0x42, 0x00, 0x00, 0x00];
    SampleText(m, 48, [0x41, 0x42]);
  }

  /** "C" is stored at 54, then a zero unit. */
  lemma SampleTextC(m: seq<Byte>)
    requires m == SampleDump
    ensures Text(m, 54, 64) == Some([0x43])
  {
    assert |m| == 58 && m[54..58] == [0x43, 0x00, 0x00, 0x00];
    SampleText(m, 54, [0x43]);
  }

  /** When every string decodes, the texts are those strings. */
  lemma TextsAllSome(m: seq<Byte>, idx: nat, offsets: seq<nat>, maxLen: int, texts: seq<seq<CodeUnit>>)
    requires |texts| == |offsets|
    requires forall k :: 0 <= k < |offsets| ==> Text(m, idx + offsets[k], maxLen) == Some(texts[k])
    ensures Texts(m, idx, offsets, maxLen) == Some(texts)
  {
    assert forall k :: 0 <= k < |offsets| ==> Text(m, idx + offsets[k], maxLen).Some?;
    var t := seq(|offsets|, k requires 0 <= k < |offsets| => Text(m, idx + offsets[k], maxLen).value);
    assert Texts(m, idx, offsets, maxLen) == Some(t);
    assert t == texts;
  }

  /** A four-byte little-endian value. */
  lemma LeUintOfFour(s: seq<Byte>)
    requires |s| == 4
    ensures LeUint(s) == s[0] as int + 0x100 * s[1] as int + 0x1_0000 * s[2] as int + 0x100_0000 * s[3] as int
  {
    var s1, s2, s3 := s[1..], s[2..], s[3..];
    assert s1[1..] == s2 && s2[1..] == s3 && s3[1..] == [];
    assert LeUint(s3) == s[3];
    assert LeUint(s2) == s[2] + 0x100 * LeUint(s3);
    assert LeUint(s1) == s[1] + 0x100 * LeUint(s2);
  }

  /** The string at `s` is `units`: they are stored there, none is zero, a
      zero unit follows them and the scan reaches it. */
  lemma SampleText(m: seq<Byte>, s: nat, units: seq<CodeUnit>)
    requires |units| < 64 && s + 2 * |units| + 2 <= |m|
    requires forall j :: 0 <= j < |units| ==> m[s + 2 * j] == units[j] && m[s + 2 * j + 1] == 0 && units[j] != 0
    requires m[s + 2 * |units|] == 0 && m[s + 2 * |units| + 1] == 0
    ensures Text(m, s, 64) == Some(units)
  {
    var n := |units|;
    forall t: nat | t <= n
      ensures CodeUnitAt(m, s, t) == if t < n then units[t] else 0
    {
      LeUintOfTwo(Slice(m, s + 2 * t, s + 2 * t + 2));
    }
    TextTerminated(m, s, 64, n);
    TextFromDump(m, s, 64);
    var t := Text(m, s, 64).value;
    forall i | 0 <= i < n
      ensures t[i] == units[i]
    {
      assert t[i] == CodeUnitAt(m, s, i);
    }
    assert t == units;
  }
}
