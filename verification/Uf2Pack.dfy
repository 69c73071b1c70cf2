/** uf2_pack (src/uf2_pack.c): cutting files into blocks, the second pass that fills in the
    block count, and the round trip through uf2_unpack. */
module Uf2Pack {
  import opened Bytes
  import opened Numbers
  import opened Errors
  import opened Files
  import opened Uf2Format
  import opened Uf2Names
  import opened Uf2Unpack

  // ----- uf2_write_file -----

  function CutName(filename: seq<Byte>): (name: seq<Byte>)
    ensures |name| <= UF2_FILENAME_MAX
  {
    filename[..Min(|filename|, UF2_FILENAME_MAX)]
  }

  /** All blocks of a file, numbered from `number`; the count is filled in later. */
  function Pieces(name: seq<Byte>, content: seq<Byte>, number: nat, n: nat): (blocks: seq<Block>)
    requires |name| <= UF2_FILENAME_MAX && |content| <= 0x7FFF_FFFF && n <= PieceCount(name, |content|)
    ensures |blocks| == n && AllValid(blocks)
  {
    if n == 0 then []
    else Pieces(name, content, number, n - 1) + [Piece(name, content, n - 1, ToU32(number + n - 1), 0)]
  }

  lemma {:induction false} PiecesAt(name: seq<Byte>, content: seq<Byte>, number: nat, n: nat, k: nat)
    requires |name| <= UF2_FILENAME_MAX && |content| <= 0x7FFF_FFFF && k < n <= PieceCount(name, |content|)
    ensures Pieces(name, content, number, n)[k] == Piece(name, content, k, ToU32(number + k), 0)
    decreases n
  {
    hide Piece, PieceCount;
    if k < n - 1 {
      PiecesAt(name, content, number, n - 1, k);
    }
  }

  /** The fields of the reused block that are set once. */
  predicate Prepared(b: Block, fileBytes: nat) {
    && b.magic1 == UF2_MAGIC_1 && b.magic2 == UF2_MAGIC_2 && b.magic3 == UF2_MAGIC_3
    && b.flags == UF2_FLAG_FILE && b.blockCount == 0 && b.fileSize == fileBytes
  }

  /** Fills the reused block for one piece. */
  method FillBlock(old_: Block, payload: seq<Byte>, filename: seq<Byte>, done: nat, number: nat,
      ghost content: seq<Byte>, ghost k: nat)
      returns (block: Block)
    requires |content| <= 0x7FFF_FFFF && k < PieceCount(CutName(filename), |content|)
    requires Prepared(old_, |content|)
    requires done == PieceStart(CutName(filename), k) <= PieceEnd(CutName(filename), |content|, k)
    requires payload == content[done..PieceEnd(CutName(filename), |content|, k)]
    ensures Prepared(block, |content|) && block == Piece(CutName(filename), content, k, ToU32(number), 0)
  {
    var nameChars := Min(|filename|, UF2_FILENAME_MAX);
    var data := payload + filename[..nameChars];
    block := old_.(data := data + Zeros(DATA_SIZE - |data|), fileOffset := done, dataBytes := |payload|,
      blockNumber := ToU32(number));
  }

  /** The next n bytes of a file, as far as it has them. */
  function Upcoming(data: seq<Byte>, pos: nat, n: nat): (content: seq<Byte>)
    ensures |content| == n
  {
    var present := if pos <= |data| then data[pos..Min(pos + n, |data|)] else [];
    present + Zeros(n - |present|)
  }

  lemma UpcomingSlice(data: seq<Byte>, pos: nat, n: nat, from: nat, to: nat)
    requires from <= to <= n && pos + to <= |data|
    ensures data[pos + from..pos + to] == Upcoming(data, pos, n)[from..to]
  {
    var direct, nested := data[pos + from..pos + to], Upcoming(data, pos, n)[from..to];
    assert forall i :: 0 <= i < |direct| ==> direct[i] == nested[i];
  }

  method uf2_write_file(dst: File, src: File, filename: seq<Byte>, startBlock: nat, fileBytes: nat) returns (blks: int)
    requires dst != src && dst.pos == |dst.data| && fileBytes <= 0x7FFF_FFFF
    modifies dst, src`pos
    ensures old(src.pos) + fileBytes <= |src.data| ==>
      && blks == PieceCount(CutName(filename), fileBytes)
      && dst.data == old(dst.data) +
           EncodeAll(Pieces(CutName(filename), Upcoming(src.data, old(src.pos), fileBytes), startBlock, blks))
      && dst.pos == |dst.data|
    ensures fileBytes > 0 && old(src.pos) + fileBytes > |src.data| ==>
      && blks == -ERR_IO
      && exists k :: 0 <= k < PieceCount(CutName(filename), fileBytes) && dst.data == old(dst.data) +
           EncodeAll(Pieces(CutName(filename), Upcoming(src.data, old(src.pos), fileBytes), startBlock, k))
  {
    hide Encode, EncodeAll, Piece, Pieces, PieceCount, PieceStart, MaxPayload, Prepared, Upcoming, Overwrite, CutName;
    ghost var content, name := Upcoming(src.data, src.pos, fileBytes), CutName(filename);
    var block := Block(UF2_MAGIC_1, UF2_MAGIC_2, UF2_FLAG_FILE, 0, 0, 0, 0, fileBytes, Zeros(DATA_SIZE), UF2_MAGIC_3);
    var maxPayload := PayloadLimit(filename);
    blks := 0;
    var done := 0;
    NoPieces(name, content, startBlock);
    StartOfPieces(block, name, fileBytes);
    while done < fileBytes
      invariant 0 <= done <= fileBytes && 0 <= blks <= PieceCount(name, fileBytes)
      invariant if done < fileBytes then done == PieceStart(name, blks) else blks == PieceCount(name, fileBytes)
      invariant src.pos == old(src.pos) + done && (done > 0 ==> src.pos <= |src.data|)
      invariant src.data == old(src.data) && Prepared(block, fileBytes)
      invariant dst.pos == |dst.data| && dst.data == old(dst.data) + EncodeAll(Pieces(name, content, startBlock, blks))
    {
      PieceBounds(name, fileBytes, blks);
      PieceBounds(name, fileBytes, blks + 1);
      var remain := fileBytes - done;
      var req := if remain <= maxPayload then remain else maxPayload;
      var payload := src.Read(req);
      if |payload| != req { return -ERR_IO; }
      UpcomingSlice(src.data, old(src.pos), fileBytes, done, done + req);
      block := FillBlock(block, payload, filename, done, startBlock + blks, content, blks);
      AppendPiece(dst, block, old(dst.data), name, content, startBlock, blks);
      blks := blks + 1;
      done := done + req;
    }
  }

  /** Writes one block at the end of the stream. */
  method AppendPiece(dst: File, block: Block, ghost before: seq<Byte>, ghost name: seq<Byte>,
      ghost content: seq<Byte>, ghost number: nat, ghost k: nat)
    requires |name| <= UF2_FILENAME_MAX && |content| <= 0x7FFF_FFFF && k < PieceCount(name, |content|)
    requires dst.pos == |dst.data| && dst.data == before + EncodeAll(Pieces(name, content, number, k))
    requires block == Piece(name, content, k, ToU32(number + k), 0)
    modifies dst
    ensures dst.pos == |dst.data| && dst.data == before + EncodeAll(Pieces(name, content, number, k + 1))
  {
    hide Encode, EncodeAll, Piece, Pieces, PieceCount;
    OneMorePiece(name, content, number, k);
    dst.Write(Encode(block));
  }

  method PayloadLimit(filename: seq<Byte>) returns (maxPayload: int)
    ensures maxPayload == MaxPayload(CutName(filename))
  {
    var nameChars := Min(|filename|, UF2_FILENAME_MAX);
    maxPayload := DATA_SIZE - nameChars - 1;
    if maxPayload > UF2_PAYLOAD_MAX {
      maxPayload := UF2_PAYLOAD_MAX;
    }
  }

  lemma StartOfPieces(block: Block, name: seq<Byte>, size: nat)
    requires |name| <= UF2_FILENAME_MAX && size <= 0x7FFF_FFFF
    requires block == Block(UF2_MAGIC_1, UF2_MAGIC_2, UF2_FLAG_FILE, 0, 0, 0, 0, size, Zeros(DATA_SIZE), UF2_MAGIC_3)
    ensures Prepared(block, size) && PieceStart(name, 0) == 0 && (size == 0 ==> PieceCount(name, size) == 0)
  {
    PieceBounds(name, size, 0);
  }

  lemma NoPieces(name: seq<Byte>, content: seq<Byte>, number: nat)
    requires |name| <= UF2_FILENAME_MAX && |content| <= 0x7FFF_FFFF
    ensures EncodeAll(Pieces(name, content, number, 0)) == []
  {}

  lemma OneMorePiece(name: seq<Byte>, content: seq<Byte>, number: nat, n: nat)
    requires |name| <= UF2_FILENAME_MAX && |content| <= 0x7FFF_FFFF && n < PieceCount(name, |content|)
    ensures EncodeAll(Pieces(name, content, number, n + 1)) ==
      EncodeAll(Pieces(name, content, number, n)) + Encode(Piece(name, content, n, ToU32(number + n), 0))
  {
    hide Encode, Piece;
    var all := Pieces(name, content, number, n + 1);
    assert all[..|all| - 1] == Pieces(name, content, number, n);
  }

  // ----- uf2_write_all -----

  /** An input file: its path on the host and what it contains. */
  datatype Input = Input(path: seq<Byte>, content: seq<Byte>)

  function Uf2Name(destdir: seq<Byte>, path: seq<Byte>): (name: seq<Byte>)
    ensures |name| <= UF2_FILENAME_MAX
  {
    CutName(destdir + [SLASH] + Basename(path, false))
  }

  predicate SizesFit(files: seq<Input>) { forall f :: f in files ==> |f.content| <= 0x7FFF_FFFF }

  function FilePieces(destdir: seq<Byte>, f: Input, number: nat): (blocks: seq<Block>)
    requires |f.content| <= 0x7FFF_FFFF
    ensures AllValid(blocks)
  {
    var name := Uf2Name(destdir, f.path);
    Pieces(name, f.content, number, PieceCount(name, |f.content|))
  }

  /** The blocks of all files after the first pass. */
  function Packed(destdir: seq<Byte>, files: seq<Input>): (blocks: seq<Block>)
    requires SizesFit(files)
    ensures AllValid(blocks)
  {
    if files == [] then []
    else
      var before := Packed(destdir, files[..|files| - 1]);
      before + FilePieces(destdir, files[|files| - 1], |before|)
  }

  // blocks before this one get their count: the offset is computed modulo 2^32
  const COUNT_REACH := 0x80_0000

  function WithCount(blocks: seq<Block>, n: U32): (r: seq<Block>)
    requires AllValid(blocks)
    ensures |r| == |blocks| && AllValid(r)
  {
    seq(|blocks|, i requires 0 <= i < |blocks| => if i < COUNT_REACH then blocks[i].(blockCount := n) else blocks[i])
  }

  // ----- uf2_fixup_block_count -----

  /** The offset the second pass computes in 32-bit arithmetic. */
  function CountOffset(blk: nat): nat {
    ToU32(512 * blk) + 24
  }

  /** The file after the first k counts are written. */
  function Patched(data: seq<Byte>, start: nat, n: nat, k: nat): seq<Byte> {
    if k == 0 then data else Overwrite(Patched(data, start, n, k - 1), start + CountOffset(k - 1), Le32(ToU32(n)))
  }

  method uf2_fixup_block_count(dst: File, start: nat, blocks: nat) returns (ret: int)
    modifies dst
    ensures ret == blocks && dst.data == Patched(old(dst.data), start, blocks, ToU32(blocks))
  {
    hide Overwrite, Le32;
    var blks := ToU32(blocks);
    var blk: U32 := 0;
    while blk < blks
      invariant blk <= blks && dst.data == Patched(old(dst.data), start, blocks, blk)
    {
      dst.Seek(start + CountOffset(blk));
      dst.Write(Le32(blks));
      blk := blk + 1;
    }
    ret := blocks;
  }

  lemma OverwriteAt(data: seq<Byte>, at: nat, bytes: seq<Byte>, i: nat)
    requires at + |bytes| <= |data| && bytes != [] && i < |data|
    ensures var r := Overwrite(data, at, bytes);
      |r| == |data| && r[i] == if at <= i < at + |bytes| then bytes[i - at] else data[i]
  {}

  lemma OffsetWraps(blk: nat)
    ensures CountOffset(blk) == BLOCK_SIZE * (blk % COUNT_REACH) + 24
  {
    var q, r := blk / COUNT_REACH, blk % COUNT_REACH;
    assert 512 * blk == q * 0x1_0000_0000 + 512 * r;
  }

  /** Byte q of a stream is in the count field of one of the first k blocks. */
  predicate InCount(q: int, k: int) { 0 <= q && q / BLOCK_SIZE < k && 24 <= q % BLOCK_SIZE < 28 }

  function CountByte(n: U32, q: int): Byte {
    if 24 <= q % BLOCK_SIZE < 28 then Le32(n)[q % BLOCK_SIZE - 24] else 0
  }

  lemma InCountStep(q: int, k: int)
    requires k > 0
    ensures InCount(q, k) <==> InCount(q, k - 1) || BLOCK_SIZE * (k - 1) + 24 <= q < BLOCK_SIZE * (k - 1) + 28
    ensures BLOCK_SIZE * (k - 1) + 24 <= q < BLOCK_SIZE * (k - 1) + 28 ==> q % BLOCK_SIZE == q - BLOCK_SIZE * (k - 1)
  {}

  predicate PatchedAt(data: seq<Byte>, r: seq<Byte>, start: nat, n: U32, k: int, i: int)
    requires |r| == |data| && 0 <= i < |data|
  {
    r[i] == if InCount(i - start, Min(k, COUNT_REACH)) then CountByte(n, i - start) else data[i]
  }

  /** Beyond 2^23 blocks the second pass comes back to count fields it has already written. */
  lemma InCountAgain(q: int, c: int)
    requires 0 <= c < COUNT_REACH && BLOCK_SIZE * c + 24 <= q < BLOCK_SIZE * c + 28
    ensures InCount(q, COUNT_REACH) && q % BLOCK_SIZE == q - BLOCK_SIZE * c
  {}

  /** The count fields of the first 2^23 blocks are overwritten, and nothing else. */
  lemma {:induction false} PatchedBytes(data: seq<Byte>, start: nat, n: nat, k: nat)
    requires k <= n <= 0x7FFF_FFFF && start + BLOCK_SIZE * n <= |data|
    ensures var r := Patched(data, start, n, k);
      |r| == |data| && forall i :: 0 <= i < |data| ==> PatchedAt(data, r, start, n, k, i)
  {
    hide Le32, Overwrite, InCount, CountOffset, PatchedAt;
    if k == 0 {
      forall i | 0 <= i < |data|
        ensures PatchedAt(data, data, start, n, 0, i)
      {
        NothingPatched(data, start, n, i);
      }
    } else {
      PatchedBytes(data, start, n, k - 1);
      var before, at := Patched(data, start, n, k - 1), start + CountOffset(k - 1);
      CountInside(n, k - 1);
      OverwriteAt(before, at, Le32(n), at);
      forall i | 0 <= i < |data|
        ensures PatchedAt(data, Overwrite(before, at, Le32(n)), start, n, k, i)
      {
        assert PatchedAt(data, before, start, n, k - 1, i);
        PatchedStep(data, before, start, n, k, i);
      }
    }
  }

  lemma CountInside(n: nat, blk: nat)
    requires blk < n
    ensures CountOffset(blk) + 4 <= BLOCK_SIZE * n
  {
    OffsetWraps(blk);
  }

  /** One more count written, seen at byte i. */
  lemma PatchedStep(data: seq<Byte>, before: seq<Byte>, start: nat, n: U32, k: nat, i: nat)
    requires 0 < k <= n && start + BLOCK_SIZE * n <= |data| == |before| && i < |data|
    requires PatchedAt(data, before, start, n, k - 1, i)
    ensures var r := Overwrite(before, start + CountOffset(k - 1), Le32(n));
      |r| == |data| && PatchedAt(data, r, start, n, k, i)
  {
    hide Le32, Overwrite, InCount, CountOffset;
    var c := (k - 1) % COUNT_REACH;
    var at := start + BLOCK_SIZE * c + 24;
    OffsetWraps(k - 1);
    CountInside(n, k - 1);
    OverwriteAt(before, at, Le32(n), i);
    if k <= COUNT_REACH {
      InCountStep(i - start, k);
    } else if at <= i < at + 4 {
      InCountAgain(i - start, c);
    }
  }

  lemma NothingPatched(data: seq<Byte>, start: nat, n: U32, i: nat)
    requires i < |data|
    ensures PatchedAt(data, data, start, n, 0, i)
  {
    NoCount(i - start);
  }

  lemma NoCount(q: int)
    ensures !InCount(q, 0)
  {
    if q >= 0 {
      assert q / BLOCK_SIZE >= 0;
    }
  }

  ghost predicate Reached(n: nat, b: nat) { exists c: nat :: c < n && CountOffset(c) == BLOCK_SIZE * b + 24 }

  /** The 32-bit offset is the limit: every block gets its count if and only if there are at
      most 2^23 blocks. */
  lemma EveryCountReached(n: nat)
    ensures (forall b: nat :: b < n ==> Reached(n, b)) <==> n <= 0x80_0000
  {
    if n <= 0x80_0000 {
      forall b: nat | b < n
        ensures Reached(n, b)
      {
        OffsetWraps(b);
        assert CountOffset(b) == BLOCK_SIZE * b + 24;
      }
    } else {
      forall c: nat
        ensures CountOffset(c) != BLOCK_SIZE * 0x80_0000 + 24
      {
        OffsetWraps(c);
      }
      assert !Reached(n, 0x80_0000);
    }
  }

  /** Two files of almost 2 GiB make more blocks than the second pass reaches: the count of a
      block in the middle of the stream stays 0. */
  lemma MoreBlocksThanCounts(destdir: seq<Byte>, path: seq<Byte>) returns (files: seq<Input>)
    ensures SizesFit(files) && |files| == 2 && COUNT_REACH < |Packed(destdir, files)| <= 0x7FFF_FFFF
    ensures WithCount(Packed(destdir, files), |Packed(destdir, files)|)[COUNT_REACH].blockCount == 0
  {
    hide Piece, Pieces, PieceCount, Uf2Name;
    var f := Input(path, Zeros(0x7FFF_FFFF));
    files := [f, f];
    var n := PieceCount(Uf2Name(destdir, path), 0x7FFF_FFFF);
    ManyPieces(Uf2Name(destdir, path));
    assert files[..1] == [f] && [f][..0] == [];
    assert |Packed(destdir, [f])| == n && |Packed(destdir, files)| == n + n;
    NumbersCountUp(destdir, files, COUNT_REACH);
  }

  lemma ManyPieces(name: seq<Byte>)
    requires |name| <= UF2_FILENAME_MAX
    ensures 0x7FFF_FFFF / 466 < PieceCount(name, 0x7FFF_FFFF) <= 0x3FFF_FFFF
  {
    PieceBounds(name, 0x7FFF_FFFF, 0x7FFF_FFFF / 466);
    PieceBounds(name, 0x7FFF_FFFF, 0x3FFF_FFFF);
    StartAtLeast(MaxPayload(name), 0x3FFF_FFFF);
    StartAtMost(MaxPayload(name), 0x7FFF_FFFF / 466);
  }

  lemma StartAtLeast(m: int, k: nat)
    requires 325 <= m
    ensures k * m >= 325 * k
  {}

  lemma StartAtMost(m: int, k: nat)
    requires m <= UF2_PAYLOAD_MAX
    ensures k * m <= UF2_PAYLOAD_MAX * k
  {}

  // ----- from bytes back to blocks -----

  lemma {:induction false} EncodeAllAt(blocks: seq<Block>, b: nat, j: nat)
    requires AllValid(blocks) && b < |blocks| && j < BLOCK_SIZE
    ensures EncodeAll(blocks)[BLOCK_SIZE * b + j] == Encode(blocks[b])[j]
    decreases |blocks|
  {
    hide Encode;
    if b < |blocks| - 1 {
      EncodeAllAt(blocks[..|blocks| - 1], b, j);
    }
  }

  lemma EncodeWithCount(b: Block, n: U32, j: nat)
    requires b.Valid() && j < BLOCK_SIZE
    ensures Encode(b.(blockCount := n))[j] == if 24 <= j < 28 then Le32(n)[j - 24] else Encode(b)[j]
  {
    hide Le32;
  }

  /** The second pass turns the stream into the same blocks, the first 2^23 of them with the
      total as their count. */
  lemma PatchedIsWithCount(prefix: seq<Byte>, blocks: seq<Block>)
    requires AllValid(blocks) && |blocks| <= 0x7FFF_FFFF
    ensures Patched(prefix + EncodeAll(blocks), |prefix|, |blocks|, |blocks|) ==
      prefix + EncodeAll(WithCount(blocks, |blocks|))
  {
    hide EncodeAll, Patched, WithCount, PatchedAt;
    var data, s := prefix + EncodeAll(blocks), prefix + EncodeAll(WithCount(blocks, |blocks|));
    var r := Patched(data, |prefix|, |blocks|, |blocks|);
    PatchedBytes(data, |prefix|, |blocks|, |blocks|);
    SameBytes(prefix, blocks, data, r, s);
  }

  lemma SameBytes(prefix: seq<Byte>, blocks: seq<Block>, data: seq<Byte>, r: seq<Byte>, s: seq<Byte>)
    requires AllValid(blocks) && |blocks| <= 0x7FFF_FFFF && |r| == |data|
    requires data == prefix + EncodeAll(blocks) && s == prefix + EncodeAll(WithCount(blocks, |blocks|))
    requires forall i :: 0 <= i < |data| ==> PatchedAt(data, r, |prefix|, |blocks|, |blocks|, i)
    ensures r == s
  {
    hide EncodeAll, WithCount, PatchedAt, AllValid;
    forall i | 0 <= i < |data|
      ensures r[i] == s[i]
    {
      assert PatchedAt(data, r, |prefix|, |blocks|, |blocks|, i);
      PatchedByte(prefix, blocks, r, i);
    }
  }

  lemma PatchedByte(prefix: seq<Byte>, blocks: seq<Block>, r: seq<Byte>, i: nat)
    requires AllValid(blocks) && |blocks| <= 0x7FFF_FFFF && i < |prefix + EncodeAll(blocks)| == |r|
    requires PatchedAt(prefix + EncodeAll(blocks), r, |prefix|, |blocks|, |blocks|, i)
    ensures r[i] == (prefix + EncodeAll(WithCount(blocks, |blocks|)))[i]
  {
    hide EncodeAll, InCount, CountByte, WithCount;
    if i < |prefix| {
      BeforeCounts(i - |prefix|, Min(|blocks|, COUNT_REACH));
    } else {
      CountedByte(blocks, |blocks|, i - |prefix|);
    }
  }

  lemma BeforeCounts(q: int, n: int)
    requires q < 0
    ensures !InCount(q, n)
  {}

  lemma CountedByte(blocks: seq<Block>, n: U32, q: nat)
    requires AllValid(blocks) && q < BLOCK_SIZE * |blocks|
    ensures EncodeAll(WithCount(blocks, n))[q] ==
      if InCount(q, Min(|blocks|, COUNT_REACH)) then CountByte(n, q) else EncodeAll(blocks)[q]
  {
    hide EncodeAll, Le32, WithCount, InCount, CountByte;
    var b, j := BlockOfByte(q, |blocks|);
    CountedInBlock(blocks, n, b, j);
  }

  lemma InCountOf(b: nat, j: nat, n: U32, k: nat)
    requires j < BLOCK_SIZE
    ensures InCount(BLOCK_SIZE * b + j, k) <==> b < k && 24 <= j < 28
    ensures CountByte(n, BLOCK_SIZE * b + j) == if 24 <= j < 28 then Le32(n)[j - 24] else 0
  {
    hide Le32;
    assert (BLOCK_SIZE * b + j) / BLOCK_SIZE == b && (BLOCK_SIZE * b + j) % BLOCK_SIZE == j;
  }

  lemma CountedInBlock(blocks: seq<Block>, n: U32, b: nat, j: nat)
    requires AllValid(blocks) && b < |blocks| && j < BLOCK_SIZE
    ensures EncodeAll(WithCount(blocks, n))[BLOCK_SIZE * b + j] ==
      if InCount(BLOCK_SIZE * b + j, Min(|blocks|, COUNT_REACH)) then CountByte(n, BLOCK_SIZE * b + j)
      else EncodeAll(blocks)[BLOCK_SIZE * b + j]
  {
    hide Encode, EncodeAll, Le32, WithCount, InCount, CountByte;
    InCountOf(b, j, n, Min(|blocks|, COUNT_REACH));
    CountedBlock(blocks, n, b);
    EncodeAllAt(blocks, b, j);
    EncodeAllAt(WithCount(blocks, n), b, j);
    EncodeWithCount(blocks[b], n, j);
  }

  lemma BlockOfByte(q: nat, n: nat) returns (b: nat, j: nat)
    requires q < BLOCK_SIZE * n
    ensures b < n && j < BLOCK_SIZE && q == BLOCK_SIZE * b + j
  {
    b, j := q / BLOCK_SIZE, q % BLOCK_SIZE;
  }

  lemma CountFields(b: Block)
    requires b.Valid()
    ensures FromLe32(Encode(b)[20..24]) == b.blockNumber && FromLe32(Encode(b)[24..28]) == b.blockCount
  {
    hide Le32, FromLe32;
    assert Encode(b)[20..24] == Le32(b.blockNumber) && Encode(b)[24..28] == Le32(b.blockCount);
    FromLe32Inverse(b.blockNumber);
    FromLe32Inverse(b.blockCount);
  }

  lemma BlockBytes(blocks: seq<Block>, b: nat, from: nat, to: nat)
    requires AllValid(blocks) && b < |blocks| && from <= to <= BLOCK_SIZE
    ensures EncodeAll(blocks)[BLOCK_SIZE * b + from..BLOCK_SIZE * b + to] == Encode(blocks[b])[from..to]
  {
    hide Encode, EncodeAll;
    var all, one := EncodeAll(blocks), Encode(blocks[b]);
    forall j | from <= j < to
      ensures one[j] == all[BLOCK_SIZE * b + j]
    {
      EncodeAllAt(blocks, b, j);
    }
    EqualSlices(all, BLOCK_SIZE * b, one, from, to);
  }

  lemma EqualSlices(all: seq<Byte>, at: nat, one: seq<Byte>, from: nat, to: nat)
    requires from <= to <= |one| && at + |one| <= |all|
    requires forall j :: from <= j < to ==> one[j] == all[at + j]
    ensures all[at + from..at + to] == one[from..to]
  {
  }

  /** Byte level: after both passes the number fields count up, the count fields of the first
      2^23 blocks hold the total (the others still 0), and the second pass changed no other byte. */
  lemma SecondPass(destdir: seq<Byte>, files: seq<Input>, prefix: seq<Byte>)
    requires SizesFit(files) && |Packed(destdir, files)| <= 0x7FFF_FFFF
    ensures var blocks := Packed(destdir, files);
      var (n, first) := (|blocks|, prefix + EncodeAll(blocks));
      var r := Patched(first, |prefix|, n, n);
      && |r| == |first| == |prefix| + BLOCK_SIZE * n
      && (forall i :: 0 <= i < |r| ==> PatchedAt(first, r, |prefix|, n, n, i))
      && forall b :: 0 <= b < n ==> var at := |prefix| + BLOCK_SIZE * b;
           FromLe32(r[at + 20..at + 24]) == b && FromLe32(r[at + 24..at + 28]) == if b < COUNT_REACH then n else 0
  {
    hide Encode, EncodeAll, FromLe32, Patched, Packed, WithCount, PatchedAt;
    var blocks := Packed(destdir, files);
    var n, first := |blocks|, prefix + EncodeAll(blocks);
    var r := Patched(first, |prefix|, n, n);
    PatchedBytes(first, |prefix|, n, n);
    PatchedIsWithCount(prefix, blocks);
    forall b | 0 <= b < n
      ensures var at := |prefix| + BLOCK_SIZE * b;
        FromLe32(r[at + 20..at + 24]) == b && FromLe32(r[at + 24..at + 28]) == if b < COUNT_REACH then n else 0
    {
      var at := |prefix| + BLOCK_SIZE * b;
      var counted := WithCount(blocks, n);
      CountedBlock(blocks, n, b);
      BlockBytes(counted, b, 20, 24);
      BlockBytes(counted, b, 24, 28);
      NumbersCountUp(destdir, files, b);
      CountFields(counted[b]);
      assert r[at + 20..at + 24] == Encode(counted[b])[20..24];
      assert r[at + 24..at + 28] == Encode(counted[b])[24..28];
    }
  }

  lemma CountedBlock(blocks: seq<Block>, n: U32, b: nat)
    requires AllValid(blocks) && b < |blocks|
    ensures WithCount(blocks, n)[b] == if b < COUNT_REACH then blocks[b].(blockCount := n) else blocks[b]
  {}

  lemma {:induction false} NumbersCountUp(destdir: seq<Byte>, files: seq<Input>, b: nat)
    requires SizesFit(files) && b < |Packed(destdir, files)| <= 0x7FFF_FFFF
    ensures Packed(destdir, files)[b].blockNumber == b && Packed(destdir, files)[b].blockCount == 0
  {
    hide Uf2Name, PieceCount, Piece, Pieces, ToU32;
    var f, before := files[|files| - 1], Packed(destdir, files[..|files| - 1]);
    SmallU32(b);
    if b < |before| {
      NumbersCountUp(destdir, files[..|files| - 1], b);
    } else {
      PiecesAt(Uf2Name(destdir, f.path), f.content, |before|, PieceCount(Uf2Name(destdir, f.path), |f.content|),
        b - |before|);
      PieceNumber(Uf2Name(destdir, f.path), f.content, b - |before|, ToU32(b), 0);
    }
  }

  lemma SmallU32(n: nat)
    requires n <= 0x7FFF_FFFF
    ensures ToU32(n) == n
  {}

  /** How many files can be opened one after the other before the first that cannot. */
  function Openable(files: seq<Input>, missing: set<seq<Byte>>): (n: nat)
    ensures n <= |files| && (forall i :: 0 <= i < n ==> files[i].path !in missing)
    ensures n < |files| ==> files[n].path in missing
  {
    if files == [] then 0
    else
      var n := Openable(files[..|files| - 1], missing);
      if n == |files| - 1 && files[n].path !in missing then n + 1 else n
  }

  /** The files in `missing` cannot be opened: then the blocks of the files before are left
      without a count. */
  method uf2_write_all(dst: File, destdir: seq<Byte>, files: seq<Input>, missing: set<seq<Byte>>) returns (ret: int)
    requires dst.pos == |dst.data| && SizesFit(files) && |Packed(destdir, files)| <= 0x7FFF_FFFF
    modifies dst
    ensures Openable(files, missing) == |files| ==>
      var blocks := Packed(destdir, files);
      ret == |blocks| && dst.data == old(dst.data) + EncodeAll(WithCount(blocks, |blocks|))
    ensures Openable(files, missing) < |files| ==>
      ret == -ERR_IO && dst.data == old(dst.data) + EncodeAll(Packed(destdir, files[..Openable(files, missing)]))
  {
    hide EncodeAll, Uf2Name, WithCount, Pieces, Packed, PieceCount, Patched, Upcoming;
    var blks := 0;
    var start := dst.pos;
    NoBlocks(destdir);
    for i := 0 to |files|
      invariant blks == |Packed(destdir, files[..i])| && dst.pos == |dst.data|
      invariant dst.data == old(dst.data) + EncodeAll(Packed(destdir, files[..i]))
      invariant i <= Openable(files, missing)
    {
      var base := uf2_basename(files[i].path, false);
      var s := destdir + [SLASH] + base;
      var uf2Name := s[..Min(|s|, UF2_FILENAME_MAX)];
      NameComputed(destdir, files[i].path);
      if files[i].path in missing { return -ERR_IO; }
      var src := new File(files[i].content);
      WholeContent(files[i].content);
      var ret := uf2_write_file(dst, src, uf2Name, blks, |files[i].content|);
      PackOneMore(destdir, files, i);
      blks := blks + ret;
    }
    assert files[..|files|] == files;
    ret := uf2_fixup_block_count(dst, start, blks);
    PatchedIsWithCount(old(dst.data), Packed(destdir, files));
  }

  lemma NoBlocks(destdir: seq<Byte>)
    ensures EncodeAll(Packed(destdir, [])) == []
  {}

  lemma WholeContent(content: seq<Byte>)
    ensures Upcoming(content, 0, |content|) == content
  {}

  lemma NameComputed(destdir: seq<Byte>, path: seq<Byte>)
    ensures var s := destdir + [SLASH] + Basename(path, false);
      Uf2Name(destdir, path) == s[..Min(|s|, UF2_FILENAME_MAX)] == CutName(s[..Min(|s|, UF2_FILENAME_MAX)])
  {}

  lemma PackOneMore(destdir: seq<Byte>, files: seq<Input>, i: nat)
    requires SizesFit(files) && i < |files|
    ensures var before := Packed(destdir, files[..i]);
      && Packed(destdir, files[..i + 1]) == before + FilePieces(destdir, files[i], |before|)
      && EncodeAll(Packed(destdir, files[..i + 1])) ==
        EncodeAll(before) + EncodeAll(FilePieces(destdir, files[i], |before|))
  {
    hide EncodeAll, FilePieces;
    assert files[..i + 1][..i] == files[..i];
    EncodeAllConcat(Packed(destdir, files[..i]), FilePieces(destdir, files[i], |Packed(destdir, files[..i])|));
  }

  // ----- round trip -----

  function Sources(destdir: seq<Byte>, files: seq<Input>): (s: seq<Source>)
    ensures |s| == |files|
  {
    seq(|files|, i requires 0 <= i < |files| => Source(Uf2Name(destdir, files[i].path), files[i].content))
  }

  /** Files the command line can carry: 1 byte to 64 MiB, distinct last components, names and
      destinations that are not cut. */
  ghost predicate Transferable(destdir: seq<Byte>, files: seq<Input>, t: Target) {
    && NoNul(destdir)
    && (forall i :: 0 <= i < |files| ==> Fits(destdir, files[i], t))
    && forall i, j :: 0 <= i < j < |files| ==> Basename(files[i].path, false) != Basename(files[j].path, false)
  }

  ghost predicate Fits(destdir: seq<Byte>, f: Input, t: Target) {
    && NoNul(f.path) && 1 <= |f.content| <= UF2_FILE_MAX
    && |destdir| + 1 + |Basename(f.path, false)| <= UF2_FILENAME_MAX
    && |LongPath(t.dstdir, Uf2Name(destdir, f.path), t.usePaths)| < REALNAME_SIZE
    && t.Allows(t.PathOf(Uf2Name(destdir, f.path)))
  }

  lemma NameKeepsBase(destdir: seq<Byte>, f: Input, t: Target)
    requires NoNul(destdir) && Fits(destdir, f, t)
    ensures Basename(Uf2Name(destdir, f.path), false) == Basename(f.path, false) && NoNul(Uf2Name(destdir, f.path))
  {
    hide LongPath, MapPath, Parents, BaseStart;
    PlainHasNoSlash(f.path);
    BasenameOfJoined(destdir, Basename(f.path, false));
    assert forall c :: c in Basename(f.path, false) ==> c in f.path;
  }

  lemma TransferableIsUnpackable(destdir: seq<Byte>, files: seq<Input>, t: Target)
    requires Transferable(destdir, files, t)
    ensures Unpackable(Sources(destdir, files), t)
  {
    hide LongPath, MapPath, Parents, Uf2Name, Basename;
    forall i | 0 <= i < |files|
      ensures Source(Uf2Name(destdir, files[i].path), files[i].content).Sendable()
      ensures t.Allows(t.PathOf(Uf2Name(destdir, files[i].path)))
      ensures Basename(Uf2Name(destdir, files[i].path), false) == Basename(files[i].path, false)
      ensures |LongPath(t.dstdir, Uf2Name(destdir, files[i].path), t.usePaths)| < REALNAME_SIZE
    {
      assert Fits(destdir, files[i], t);
      NameKeepsBase(destdir, files[i], t);
    }
    forall i, j | 0 <= i < j < |files|
      ensures t.PathOf(Uf2Name(destdir, files[i].path)) != t.PathOf(Uf2Name(destdir, files[j].path))
    {
      MapPathInjective(t.dstdir, Uf2Name(destdir, files[i].path), Uf2Name(destdir, files[j].path), t.usePaths);
    }
  }

  /** Where the blocks of file i are in the packed stream. */
  lemma {:induction false} PackedHas(destdir: seq<Byte>, files: seq<Input>, i: nat, k: nat) returns (b: nat)
    requires SizesFit(files) && i < |files|
    requires k < PieceCount(Uf2Name(destdir, files[i].path), |files[i].content|)
    ensures b == |Packed(destdir, files[..i])| + k < |Packed(destdir, files)|
    ensures var block := Packed(destdir, files)[b];
      block == Piece(Uf2Name(destdir, files[i].path), files[i].content, k, block.blockNumber, 0)
    decreases |files|
  {
    hide Piece, Uf2Name, PieceCount;
    var before := Packed(destdir, files[..|files| - 1]);
    assert i < |files| - 1 ==> files[..|files| - 1][..i] == files[..i];
    if i < |files| - 1 {
      b := PackedHas(destdir, files[..|files| - 1], i, k);
    } else {
      b := |before| + k;
      PiecesAt(Uf2Name(destdir, files[i].path), files[i].content, |before|,
        PieceCount(Uf2Name(destdir, files[i].path), |files[i].content|), k);
      PieceNumber(Uf2Name(destdir, files[i].path), files[i].content, k, ToU32(|before| + k), 0);
    }
  }

  lemma PieceNumber(name: seq<Byte>, content: seq<Byte>, k: nat, number: U32, count: U32)
    requires |name| <= UF2_FILENAME_MAX && |content| <= 0x7FFF_FFFF && k < PieceCount(name, |content|)
    ensures var b := Piece(name, content, k, number, count);
      b.blockNumber == number && b.blockCount == count
      && forall c :: b.(blockCount := c) == Piece(name, content, k, number, c)
  {}

  /** Every packed block is a piece of one of the files. */
  lemma {:induction false} PackedOnly(destdir: seq<Byte>, files: seq<Input>, b: nat) returns (i: nat, k: nat)
    requires SizesFit(files) && b < |Packed(destdir, files)|
    ensures i < |files| && k < PieceCount(Uf2Name(destdir, files[i].path), |files[i].content|)
    ensures b == |Packed(destdir, files[..i])| + k
    ensures var block := Packed(destdir, files)[b];
      block == Piece(Uf2Name(destdir, files[i].path), files[i].content, k, block.blockNumber, 0)
    decreases |files|
  {
    hide Piece, Uf2Name, PieceCount;
    var before := Packed(destdir, files[..|files| - 1]);
    if b < |before| {
      i, k := PackedOnly(destdir, files[..|files| - 1], b);
      assert files[..|files| - 1][..i] == files[..i];
    } else {
      i, k := |files| - 1, b - |before|;
      PiecesAt(Uf2Name(destdir, files[i].path), files[i].content, |before|,
        PieceCount(Uf2Name(destdir, files[i].path), |files[i].content|), k);
      PieceNumber(Uf2Name(destdir, files[i].path), files[i].content, k, ToU32(|before| + k), 0);
    }
  }

  lemma PackedPieces(destdir: seq<Byte>, files: seq<Input>, n: U32)
    requires SizesFit(files) && forall i :: 0 <= i < |files| ==> Sources(destdir, files)[i].Sendable()
    ensures var blocks := WithCount(Packed(destdir, files), n);
      OnlyPieces(blocks, Sources(destdir, files)) && AllPieces(blocks, Sources(destdir, files))
  {
    hide Piece, Uf2Name, PieceCount, Accepted;
    var first, blocks, sources := Packed(destdir, files), WithCount(Packed(destdir, files), n), Sources(destdir, files);
    forall c | c in blocks
      ensures PieceOfSome(c, sources)
    {
      var b :| 0 <= b < |blocks| && blocks[b] == c;
      var i, k := PackedOnly(destdir, files, b);
      PieceNumber(sources[i].name, sources[i].content, k, first[b].blockNumber, 0);
      assert IsPiece(c, sources[i], k);
    }
    forall i, k | 0 <= i < |sources| && 0 <= k < PieceCount(sources[i].name, |sources[i].content|)
      ensures HasPiece(blocks, sources[i], k)
    {
      var b := PackedHas(destdir, files, i, k);
      PieceNumber(sources[i].name, sources[i].content, k, first[b].blockNumber, 0);
      assert IsPiece(blocks[b], sources[i], k);
    }
  }

  /** Round trip: unpacking what uf2_write_all writes puts exactly the source bytes at every
      mapped path, whatever was there, and touches nothing else. */
  lemma RoundTrip(destdir: seq<Byte>, files: seq<Input>, t: Target, before: FileMap)
    requires Transferable(destdir, files, t) && SizesFit(files) && |Packed(destdir, files)| <= 0x7FFF_FFFF
    ensures var blocks := Packed(destdir, files);
      var o := Unpack(before, DecodeAll(EncodeAll(WithCount(blocks, |blocks|))), t);
      && o.ok && SameElsewhere(before, o.files, Sources(destdir, files), t)
      && forall i :: 0 <= i < |files| ==>
           var path := t.PathOf(Uf2Name(destdir, files[i].path)); path in o.files && o.files[path] == files[i].content
  {
    hide EncodeAll, DecodeAll, Packed, WithCount, Unpack, OnlyPieces, AllPieces, SameElsewhere, Transferable;
    var blocks := WithCount(Packed(destdir, files), |Packed(destdir, files)|);
    DecodeEncodeAll(blocks);
    TransferableIsUnpackable(destdir, files, t);
    PackedPieces(destdir, files, |Packed(destdir, files)|);
    AnyOrderUnpacks(before, blocks, Sources(destdir, files), t);
    var o := Unpack(before, blocks, t);
    forall i | 0 <= i < |files|
      ensures var path := t.PathOf(Uf2Name(destdir, files[i].path));
        path in o.files && o.files[path] == files[i].content
    {
      assert Sources(destdir, files)[i] == Source(Uf2Name(destdir, files[i].path), files[i].content);
    }
  }

  /** An empty file leaves no block behind, so it is not extracted. */
  lemma EmptyFileHasNoBlock(destdir: seq<Byte>, f: Input, number: nat)
    ensures |f.content| <= 0x7FFF_FFFF ==> (FilePieces(destdir, f, number) == [] <==> f.content == [])
  {
    PieceBounds(Uf2Name(destdir, f.path), |f.content|, 0);
  }
}
