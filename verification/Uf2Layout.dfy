/** The UF2 file that uf2_pack leaves on disk, byte by byte: where src/uf2.h:17-28 puts each
    field of a block, and what src/uf2_pack.c:116-186 writes there. */
module Uf2Layout {
  import opened Bytes
  import opened Numbers
  import opened Uf2Format
  import opened Uf2Names
  import opened Uf2Pack

  /** Four bytes hold n, byte i the digit of 256^i. */
  predicate Spells(s: seq<Byte>, n: nat) {
    s == [n % 0x100, n / 0x100 % 0x100, n / 0x1_0000 % 0x100, n / 0x100_0000 % 0x100]
  }

  lemma Le32Spells(n: U32)
    ensures Spells(Le32(n), n)
  {
    assert n / 0x100 / 0x100 == n / 0x1_0000;
    assert n / 0x1_0000 / 0x100 == n / 0x100_0000;
  }

  /** The numbers of a block. */
  lemma NumbersOnDisk(b: Block)
    requires b.Valid()
    ensures var s := Encode(b);
      && Spells(s[12..16], b.fileOffset) && Spells(s[16..20], b.dataBytes)
      && Spells(s[20..24], b.blockNumber) && Spells(s[24..28], b.blockCount) && Spells(s[28..32], b.fileSize)
  {
    hide Le32, Spells;
    var s := Encode(b);
    assert s[12..16] == Le32(b.fileOffset) && s[16..20] == Le32(b.dataBytes) && s[20..24] == Le32(b.blockNumber);
    assert s[24..28] == Le32(b.blockCount) && s[28..32] == Le32(b.fileSize);
    Le32Spells(b.fileOffset);
    Le32Spells(b.dataBytes);
    Le32Spells(b.blockNumber);
    Le32Spells(b.blockCount);
    Le32Spells(b.fileSize);
  }

  lemma MarksSpelled()
    ensures Le32(UF2_MAGIC_1) == [0x55, 0x46, 0x32, 0x0A] && Le32(UF2_MAGIC_2) == [0x57, 0x51, 0x5D, 0x9E]
    ensures Le32(UF2_FLAG_FILE) == [0x00, 0x10, 0x00, 0x00] && Le32(UF2_MAGIC_3) == [0x30, 0x6F, 0xB1, 0x0A]
  {}

  /** The marks of a block, and its data between them. */
  lemma MarksOnDisk(b: Block)
    requires b.Valid() && b.magic1 == UF2_MAGIC_1 && b.magic2 == UF2_MAGIC_2 && b.magic3 == UF2_MAGIC_3
    requires b.flags == UF2_FLAG_FILE
    ensures var s := Encode(b);
      && s[0..4] == [0x55, 0x46, 0x32, 0x0A] && s[4..8] == [0x57, 0x51, 0x5D, 0x9E]
      && s[8..12] == [0x00, 0x10, 0x00, 0x00] && s[508..512] == [0x30, 0x6F, 0xB1, 0x0A] && s[32..508] == b.data
  {
    hide Le32;
    var s := Encode(b);
    MarksSpelled();
    assert s[0..4] == Le32(b.magic1) && s[4..8] == Le32(b.magic2) && s[8..12] == Le32(b.flags);
    assert s[508..512] == Le32(b.magic3);
  }

  /** The 512 bytes of piece k of a file: the three magic numbers and the file flag; the piece's
      offset and length, the block's number, the total, the size of the file; then the file's
      bytes from the offset, the name, and zeros. */
  predicate OnDisk(s: seq<Byte>, name: seq<Byte>, content: seq<Byte>, k: nat, number: nat, total: nat)
    requires |name| <= 150
  {
    var m := Min(475 - |name|, 466);
    var (from, to) := (k * m, Min(k * m + m, |content|));
    && |s| == 512 && 0 <= from < to && 32 + (to - from) + |name| < 508
    && s[0..4] == [0x55, 0x46, 0x32, 0x0A] && s[4..8] == [0x57, 0x51, 0x5D, 0x9E]
    && s[8..12] == [0x00, 0x10, 0x00, 0x00] && s[508..512] == [0x30, 0x6F, 0xB1, 0x0A]
    && Spells(s[12..16], from) && Spells(s[16..20], to - from) && Spells(s[20..24], number)
    && Spells(s[24..28], total) && Spells(s[28..32], |content|)
    && s[32..508] == content[from..to] + name + Zeros(476 - (to - from) - |name|)
  }

  lemma PieceOnDisk(name: seq<Byte>, content: seq<Byte>, k: nat, number: U32, n: U32)
    requires |name| <= UF2_FILENAME_MAX && |content| <= 0x7FFF_FFFF && k < PieceCount(name, |content|)
    ensures OnDisk(Encode(Piece(name, content, k, number, n)), name, content, k, number, n)
  {
    hide Encode, Spells;
    PieceBounds(name, |content|, k);
    var b := Piece(name, content, k, number, n);
    NumbersOnDisk(b);
    MarksOnDisk(b);
  }

  // ----- the stream -----

  lemma SliceOfStream(prefix: seq<Byte>, all: seq<Byte>, at: nat, one: seq<Byte>)
    requires at + |one| <= |all| && forall j :: 0 <= j < |one| ==> one[j] == all[at + j]
    ensures (prefix + all)[|prefix| + at..|prefix| + at + |one|] == one
  {}

  lemma BlockOfStream(prefix: seq<Byte>, blocks: seq<Block>, b: nat)
    requires AllValid(blocks) && b < |blocks|
    ensures var (r, at) := (prefix + EncodeAll(blocks), |prefix| + BLOCK_SIZE * b);
      at + BLOCK_SIZE <= |r| && r[at..at + BLOCK_SIZE] == Encode(blocks[b])
  {
    hide Encode, EncodeAll;
    var (all, one) := (EncodeAll(blocks), Encode(blocks[b]));
    forall j | 0 <= j < |one|
      ensures one[j] == all[BLOCK_SIZE * b + j]
    {
      EncodeAllAt(blocks, b, j);
    }
    SliceOfStream(prefix, all, BLOCK_SIZE * b, one);
  }

  /** The blocks of file i follow those of the files before it, as many as its payload needs. */
  lemma BlocksOfFile(destdir: seq<Byte>, files: seq<Input>, i: nat)
    requires SizesFit(files) && i < |files|
    ensures |Packed(destdir, files[..0])| == 0 && files[..|files|] == files
    ensures |Packed(destdir, files[..i + 1])| ==
      |Packed(destdir, files[..i])| + PieceCount(Uf2Name(destdir, files[i].path), |files[i].content|)
  {
    hide EncodeAll, Pieces, PieceCount, Uf2Name;
    PackOneMore(destdir, files, i);
  }

  /** The bytes of the packed stream, without the functions that encode it: block k of file i
      stands behind the blocks of the files before it and the k before it, with its number, and
      with the number of all blocks if it is one of the first 2^23. */
  lemma StreamOnDisk(destdir: seq<Byte>, files: seq<Input>, prefix: seq<Byte>, i: nat, k: nat)
    requires SizesFit(files) && |Packed(destdir, files)| <= 0x7FFF_FFFF
    requires i < |files| && k < PieceCount(Uf2Name(destdir, files[i].path), |files[i].content|)
    ensures var (n, b) := (|Packed(destdir, files)|, |Packed(destdir, files[..i])| + k);
      var (r, at) := (prefix + EncodeAll(WithCount(Packed(destdir, files), n)), |prefix| + 512 * b);
      var path := destdir + [47] + Basename(files[i].path, false);
      && b < n && |r| == |prefix| + 512 * n && r[..|prefix|] == prefix
      && OnDisk(r[at..at + 512], path[..Min(|path|, 150)], files[i].content, k, b, if b < 0x80_0000 then n else 0)
  {
    hide Encode, EncodeAll, OnDisk, Piece, Packed, WithCount, PieceCount, Basename, Uf2Name;
    var (blocks, n, name) := (Packed(destdir, files), |Packed(destdir, files)|, Uf2Name(destdir, files[i].path));
    var b := PackedHas(destdir, files, i, k);
    NumbersCountUp(destdir, files, b);
    CountedBlock(blocks, n, b);
    PieceNumber(name, files[i].content, k, b, 0);
    BlockOfStream(prefix, WithCount(blocks, n), b);
    PieceOnDisk(name, files[i].content, k, b, if b < COUNT_REACH then n else 0);
    NameComputed(destdir, files[i].path);
  }

  /** Every block of the stream is one of these. */
  lemma EveryBlock(destdir: seq<Byte>, files: seq<Input>, b: nat) returns (i: nat, k: nat)
    requires SizesFit(files) && b < |Packed(destdir, files)|
    ensures i < |files| && k < PieceCount(Uf2Name(destdir, files[i].path), |files[i].content|)
    ensures b == |Packed(destdir, files[..i])| + k
  {
    i, k := PackedOnly(destdir, files, b);
  }
}
