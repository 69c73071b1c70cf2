/** The UF2 block of src/uf2.h: its 512 bytes on disk, and the pieces src/uf2_pack.c cuts a
    file into. */
module Uf2Format {
  import opened Bytes
  import opened Numbers

  const UF2_MAGIC_1: U32 := 0x0A324655
  const UF2_MAGIC_2: U32 := 0x9E5D5157
  const UF2_MAGIC_3: U32 := 0x0AB16F30
  const UF2_FLAG_FILE: U32 := 0x00001000
  const UF2_FILENAME_MAX := 150
  const UF2_PAYLOAD_MAX := 466
  const UF2_FILE_MAX := 64 * 1024 * 1024
  const DATA_SIZE := 476
  const BLOCK_SIZE := 512

  datatype Block = Block(
    magic1: U32, magic2: U32, flags: U32, fileOffset: U32, dataBytes: U32,
    blockNumber: U32, blockCount: U32, fileSize: U32, data: seq<Byte>, magic3: U32)
  {
    predicate Valid() { |data| == DATA_SIZE }
  }

  /** The bytes of a block; every number is little-endian. */
  function Encode(b: Block): (s: seq<Byte>)
    requires b.Valid()
    ensures |s| == BLOCK_SIZE
  {
    Le32(b.magic1) + Le32(b.magic2) + Le32(b.flags) + Le32(b.fileOffset) + Le32(b.dataBytes) +
    Le32(b.blockNumber) + Le32(b.blockCount) + Le32(b.fileSize) + b.data + Le32(b.magic3)
  }

  function Decode(s: seq<Byte>): (b: Block)
    requires |s| == BLOCK_SIZE
    ensures b.Valid()
  {
    Block(FromLe32(s[0..4]), FromLe32(s[4..8]), FromLe32(s[8..12]), FromLe32(s[12..16]), FromLe32(s[16..20]),
          FromLe32(s[20..24]), FromLe32(s[24..28]), FromLe32(s[28..32]), s[32..508], FromLe32(s[508..512]))
  }

  lemma DecodeEncode(b: Block)
    requires b.Valid()
    ensures Decode(Encode(b)) == b
  {
    hide Le32, FromLe32;
    var s := Encode(b);
    assert s[0..4] == Le32(b.magic1) && s[4..8] == Le32(b.magic2) && s[8..12] == Le32(b.flags);
    assert s[12..16] == Le32(b.fileOffset) && s[16..20] == Le32(b.dataBytes) && s[20..24] == Le32(b.blockNumber);
    assert s[24..28] == Le32(b.blockCount) && s[28..32] == Le32(b.fileSize) && s[508..512] == Le32(b.magic3);
    assert s[32..508] == b.data;
    FromLe32Inverse(b.magic1);
    FromLe32Inverse(b.magic2);
    FromLe32Inverse(b.flags);
    FromLe32Inverse(b.fileOffset);
    FromLe32Inverse(b.dataBytes);
    FromLe32Inverse(b.blockNumber);
    FromLe32Inverse(b.blockCount);
    FromLe32Inverse(b.fileSize);
    FromLe32Inverse(b.magic3);
  }

  // ----- streams of blocks -----

  predicate AllValid(blocks: seq<Block>) { forall i :: 0 <= i < |blocks| ==> blocks[i].Valid() }

  function EncodeAll(blocks: seq<Block>): (s: seq<Byte>)
    requires AllValid(blocks)
    ensures |s| == BLOCK_SIZE * |blocks|
  {
    if blocks == [] then [] else EncodeAll(blocks[..|blocks| - 1]) + Encode(blocks[|blocks| - 1])
  }

  /** The blocks a reader finds; an incomplete block at the end is not read. */
  function DecodeAll(stream: seq<Byte>): (blocks: seq<Block>)
    ensures AllValid(blocks) && |blocks| == |stream| / BLOCK_SIZE
    decreases |stream|
  {
    if |stream| < BLOCK_SIZE then [] else [Decode(stream[..BLOCK_SIZE])] + DecodeAll(stream[BLOCK_SIZE..])
  }

  lemma {:induction false} EncodeAllConcat(a: seq<Block>, b: seq<Block>)
    requires AllValid(a) && AllValid(b)
    ensures AllValid(a + b) && EncodeAll(a + b) == EncodeAll(a) + EncodeAll(b)
  {
    hide Encode;
    if b == [] {
      assert a + b == a;
    } else {
      assert (a + b)[..|a + b| - 1] == a + b[..|b| - 1];
      EncodeAllConcat(a, b[..|b| - 1]);
    }
  }

  lemma {:induction false} DecodeEncodeAll(blocks: seq<Block>)
    requires AllValid(blocks)
    ensures DecodeAll(EncodeAll(blocks)) == blocks
    decreases |blocks|
  {
    hide Encode, Decode;
    if blocks != [] {
      var first, rest := blocks[0], blocks[1..];
      assert [first] + rest == blocks;
      EncodeAllConcat([first], rest);
      assert EncodeAll([first]) == EncodeAll([]) + Encode(first);
      DecodeEncode(first);
      DecodeEncodeAll(rest);
      var s := EncodeAll(blocks);
      assert s[..BLOCK_SIZE] == Encode(first) && s[BLOCK_SIZE..] == EncodeAll(rest);
    }
  }

  // ----- the pieces of a file -----

  /** Payload bytes that fit beside the name and its terminating NUL. */
  function MaxPayload(name: seq<Byte>): (n: int)
    requires |name| <= UF2_FILENAME_MAX
    ensures 325 <= n <= UF2_PAYLOAD_MAX && n + |name| + 1 <= DATA_SIZE
  {
    Min(DATA_SIZE - |name| - 1, UF2_PAYLOAD_MAX)
  }

  function PieceCount(name: seq<Byte>, size: nat): nat
    requires |name| <= UF2_FILENAME_MAX
  {
    (size + MaxPayload(name) - 1) / MaxPayload(name)
  }

  /** Piece k starts at PieceStart and ends at PieceEnd. */
  function PieceStart(name: seq<Byte>, k: nat): nat
    requires |name| <= UF2_FILENAME_MAX
  {
    k * MaxPayload(name)
  }

  function PieceEnd(name: seq<Byte>, size: nat, k: nat): int
    requires |name| <= UF2_FILENAME_MAX
  {
    Min(PieceStart(name, k) + MaxPayload(name), size)
  }

  lemma PieceBounds(name: seq<Byte>, size: nat, k: nat)
    requires |name| <= UF2_FILENAME_MAX
    ensures k < PieceCount(name, size) <==> PieceStart(name, k) < size
    ensures PieceStart(name, k + 1) == PieceStart(name, k) + MaxPayload(name)
    ensures k < PieceCount(name, size) && PieceEnd(name, size, k) == size ==> k + 1 == PieceCount(name, size)
  {
    hide MaxPayload;
    var m := MaxPayload(name);
    CeilingBound(size, m, k);
    CeilingBound(size, m, k + 1);
    assert (k + 1) * m == k * m + m;
  }

  lemma CeilingBound(size: nat, m: int, k: nat)
    requires m > 0
    ensures k < (size + m - 1) / m <==> k * m < size
  {
    var q := (size + m - 1) / m;
    DivisionBound(size + m - 1, m);
    if k < q {
      MultipleMonotone(k + 1, q, m);
      assert (k + 1) * m == k * m + m;
    } else {
      MultipleMonotone(q, k, m);
    }
  }

  lemma MultipleMonotone(a: int, b: int, m: int)
    requires a <= b && m > 0
    ensures a * m <= b * m
  {}

  /** The pieces cover the file: position i is in piece i / MaxPayload. */
  lemma PieceCovers(name: seq<Byte>, size: nat, i: nat) returns (k: nat)
    requires |name| <= UF2_FILENAME_MAX && i < size
    ensures k < PieceCount(name, size) && PieceStart(name, k) <= i < PieceEnd(name, size, k)
  {
    hide MaxPayload;
    k := CoveringMultiple(i, MaxPayload(name), size);
  }

  lemma CoveringMultiple(i: nat, m: int, size: nat) returns (k: nat)
    requires m > 0 && i < size
    ensures k < (size + m - 1) / m && k * m <= i < Min(k * m + m, size)
  {
    k := i / m;
    DivisionBound(i, m);
    QuotientNonnegative(i, m);
    CeilingBound(size, m, i / m);
  }

  lemma QuotientNonnegative(i: nat, m: int)
    requires m > 0
    ensures i / m >= 0
  {}

  lemma DivisionBound(i: nat, m: int)
    requires m > 0
    ensures i / m * m <= i < i / m * m + m
  {
    EuclideanDivision(i, m);
  }

  lemma EuclideanDivision(i: nat, m: int)
    requires m > 0
    ensures i == i / m * m + i % m
  {
  }

  /** Block k of a file: payload, name, NULs. */
  function Piece(name: seq<Byte>, content: seq<Byte>, k: nat, number: U32, count: U32): (b: Block)
    requires |name| <= UF2_FILENAME_MAX && |content| <= 0x7FFF_FFFF && k < PieceCount(name, |content|)
    ensures b.Valid()
  {
    PieceBounds(name, |content|, k);
    var from, to := PieceStart(name, k), PieceEnd(name, |content|, k);
    var payload := content[from..to];
    Block(UF2_MAGIC_1, UF2_MAGIC_2, UF2_FLAG_FILE, from, to - from, number, count, |content|,
          payload + name + Zeros(DATA_SIZE - |payload| - |name|), UF2_MAGIC_3)
  }
}
