/** uf2_unpack (src/uf2_unpack.c:30-75) and uf2_write_into (POSIX, src/uf2_helper.c:123-136):
    blocks may come in any order, more than once, and mixed with blocks that are not ours. */
module Uf2Unpack {
  import opened Bytes
  import opened Errors
  import opened Files
  import opened Uf2Format
  import opened Uf2Names

  // ----- one block -----

  predicate FlagSet(flags: U32, bit: U32)
    requires bit > 0
  {
    flags / bit % 2 == 1
  }

  /** The data area after the code has forced a NUL at its end. */
  function Closed(data: seq<Byte>): (r: seq<Byte>)
    requires |data| == DATA_SIZE
    ensures |r| == DATA_SIZE
  {
    data[475 := 0]
  }

  /** The header checks. */
  predicate HeaderOk(b: Block) {
    && b.magic1 == UF2_MAGIC_1 && b.magic2 == UF2_MAGIC_2 && b.magic3 == UF2_MAGIC_3
    && !FlagSet(b.flags, 1) && FlagSet(b.flags, 0x1000)
    && b.dataBytes <= UF2_PAYLOAD_MAX && b.fileSize <= UF2_FILE_MAX && b.fileOffset < b.fileSize
  }

  function NameOf(b: Block): seq<Byte>
    requires b.Valid() && b.dataBytes <= UF2_PAYLOAD_MAX
  {
    CString(Closed(b.data)[b.dataBytes..])
  }

  predicate Accepted(b: Block)
    requires b.Valid()
  {
    HeaderOk(b) && |NameOf(b)| <= UF2_FILENAME_MAX
  }

  /** The filter in numbers: bit 0 of the flags (to be ignored) is clear and bit 12 (a file) is
      set; at most 466 payload bytes, 64 MiB, and 150 characters of the name, which starts behind
      the payload and ends before a NUL or at the last data byte. */
  lemma AcceptedExactly(b: Block, n: nat)
    requires b.Valid()
    requires b.dataBytes <= 466 ==>
      && b.dataBytes + n <= 475 && (b.dataBytes + n < 475 ==> b.data[b.dataBytes + n] == 0)
      && 0 !in b.data[b.dataBytes..b.dataBytes + n]
    ensures Accepted(b) <==>
      && b.magic1 == 0x0A324655 && b.magic2 == 0x9E5D5157 && b.magic3 == 0x0AB16F30
      && b.flags % 2 == 0 && b.flags / 4096 % 2 == 1
      && b.dataBytes <= 466 && b.fileSize <= 67108864 && b.fileOffset < b.fileSize && n <= 150
    ensures b.dataBytes <= 466 ==> NameOf(b) == b.data[b.dataBytes..b.dataBytes + n]
  {
    if b.dataBytes <= 466 {
      var rest := Closed(b.data)[b.dataBytes..];
      assert rest == b.data[b.dataBytes..b.dataBytes + n] + rest[n..];
      CStringOf(b.data[b.dataBytes..b.dataBytes + n], rest[n..]);
    }
  }

  function Resize(content: seq<Byte>, size: nat): (r: seq<Byte>)
    ensures |r| == size
    ensures forall i :: 0 <= i < size ==> r[i] == if i < |content| then content[i] else 0
  {
    if size <= |content| then content[..size] else content + Zeros(size - |content|)
  }

  /** What uf2_write_into leaves in the file. */
  function WriteInto(content: seq<Byte>, data: seq<Byte>, offset: nat, size: nat): seq<Byte> {
    Overwrite(Resize(content, size), offset, data)
  }

  /** Byte by byte: the payload at its offset, the old content elsewhere, zeros behind it. */
  lemma WrittenByte(content: seq<Byte>, data: seq<Byte>, offset: nat, size: nat, i: nat)
    requires i < size && data != [] && offset + |data| <= size
    ensures var r := WriteInto(content, data, offset, size);
      |r| == size
      && r[i] == if offset <= i < offset + |data| then data[i - offset] else if i < |content| then content[i] else 0
  {}

  type FileMap = map<seq<Byte>, seq<Byte>>

  function ContentAt(files: FileMap, path: seq<Byte>): seq<Byte> {
    if path in files then files[path] else []
  }

  // ----- a stream of blocks -----

  datatype Outcome = Outcome(files: FileMap, ok: bool)

  datatype Target = Target(dstdir: seq<Byte>, usePaths: bool, refused: set<seq<Byte>>) {
    function PathOf(name: seq<Byte>): seq<Byte> { MapPath(dstdir, name, usePaths) }

    /** The system lets the file and the directories above it be created. */
    ghost predicate Allows(path: seq<Byte>) { Parents(path) !! refused && path !in refused }
  }

  ghost function UnpackBlock(files: FileMap, b: Block, t: Target): Outcome
    requires b.Valid()
  {
    if !Accepted(b) then Outcome(files, true)
    else
      var path := t.PathOf(NameOf(b));
      if !t.Allows(path) then Outcome(files, false)
      else
        var content := WriteInto(ContentAt(files, path), Closed(b.data)[..b.dataBytes], b.fileOffset, b.fileSize);
        Outcome(files[path := content], true)
  }

  /** Extraction of all blocks in order; it stops at the first refusal. */
  ghost function Unpack(files: FileMap, blocks: seq<Block>, t: Target): Outcome
    requires AllValid(blocks)
  {
    if blocks == [] then Outcome(files, true)
    else
      var o := Unpack(files, blocks[..|blocks| - 1], t);
      if o.ok then UnpackBlock(o.files, blocks[|blocks| - 1], t) else o
  }

  /** The directories above the files that the blocks name. */
  ghost function Made(blocks: seq<Block>, t: Target): set<seq<Byte>>
    requires AllValid(blocks)
  {
    if blocks == [] then {} else Made(blocks[..|blocks| - 1], t) + MadeFor(blocks[|blocks| - 1], t)
  }

  ghost function MadeFor(b: Block, t: Target): set<seq<Byte>>
    requires b.Valid()
  {
    if Accepted(b) then Parents(t.PathOf(NameOf(b))) else {}
  }

  // ----- the methods -----

  method uf2_write_into(fs: FileSystem, realname: seq<Byte>, data: seq<Byte>, dataBytes: nat, fileOffset: nat,
      fileSize: nat)
      returns (ret: int)
    requires dataBytes <= |data|
    modifies fs`files
    ensures realname in fs.refused ==> ret == -1 && fs.files == old(fs.files)
    ensures realname !in fs.refused ==>
      var content := WriteInto(ContentAt(old(fs.files), realname), data[..dataBytes], fileOffset, fileSize);
      ret == 0 && fs.files == old(fs.files)[realname := content]
  {
    if realname in fs.refused { return -1; }
    var fd := new File(if realname in fs.files then fs.files[realname] else []);
    fd.data := Resize(fd.data, fileSize);
    fd.Seek(fileOffset);
    fd.Write(data[..dataBytes]);
    fs.files := fs.files[realname := fd.data];
    ret := 0;
  }

  method uf2_unpack(fs: FileSystem, fp: File, dstdir: seq<Byte>, usePaths: bool) returns (retval: int)
    requires NoNul(dstdir) && fp.pos <= |fp.data|
    modifies fs`files, fs`dirs, fp`pos
    ensures var o := Unpack(old(fs.files), DecodeAll(fp.data[old(fp.pos)..]), Target(dstdir, usePaths, fs.refused));
      fs.files == o.files && retval == (if o.ok then ERR_UNK else ERR_IO)
    ensures var made := Made(DecodeAll(fp.data[old(fp.pos)..]), Target(dstdir, usePaths, fs.refused));
      if retval == ERR_UNK then fs.dirs == old(fs.dirs) + made
      else old(fs.dirs) <= fs.dirs <= old(fs.dirs) + made
  {
    hide Encode, Decode, UnpackBlock, HeaderOk, MadeFor;
    ghost var stream, t := fp.data[fp.pos..], Target(dstdir, usePaths, fs.refused);
    ghost var blocks := DecodeAll(stream);
    ghost var n := 0;
    while true
      invariant 0 <= n <= |blocks| && fp.pos == old(fp.pos) + BLOCK_SIZE * n
      invariant Unpack(old(fs.files), blocks[..n], t) == Outcome(fs.files, true)
      invariant fp.data == old(fp.data) && fs.dirs == old(fs.dirs) + Made(blocks[..n], t)
      decreases |blocks| - n
    {
      var bytes := fp.Read(BLOCK_SIZE);
      if |bytes| != BLOCK_SIZE {
        assert blocks[..n] == blocks;
        return ERR_UNK;
      }
      assert bytes == stream[BLOCK_SIZE * n..BLOCK_SIZE * n + BLOCK_SIZE];
      DecodeAllAt(stream, n);
      var block := Decode(bytes);
      assert blocks[..n + 1][..n] == blocks[..n];
      var ret := ExtractBlock(fs, block, dstdir, usePaths);
      n := n + 1;
      if ret < 0 {
        StopsAt(old(fs.files), blocks, n, t);
        MadeGrows(blocks, n, t);
        return ERR_IO;
      }
    }
  }

  /** The body of the extraction loop: the filter, the path, the write. */
  method ExtractBlock(fs: FileSystem, block: Block, dstdir: seq<Byte>, usePaths: bool) returns (ret: int)
    requires block.Valid() && NoNul(dstdir)
    modifies fs`files, fs`dirs
    ensures UnpackBlock(old(fs.files), block, Target(dstdir, usePaths, fs.refused)) == Outcome(fs.files, ret == 0)
      && ret <= 0
    ensures var made := MadeFor(block, Target(dstdir, usePaths, fs.refused));
      if ret == 0 then fs.dirs == old(fs.dirs) + made else old(fs.dirs) <= fs.dirs <= old(fs.dirs) + made
  {
    hide WriteInto, MapPath, NameOf, Parents;
    ghost var t := Target(dstdir, usePaths, fs.refused);
    if block.magic1 != UF2_MAGIC_1 || block.magic2 != UF2_MAGIC_2 || block.magic3 != UF2_MAGIC_3 {
      return 0;
    }
    if FlagSet(block.flags, 1) || !FlagSet(block.flags, 0x1000) {
      return 0;
    }
    if block.dataBytes > UF2_PAYLOAD_MAX || block.fileSize > UF2_FILE_MAX || block.fileOffset >= block.fileSize {
      return 0;
    }
    var data := Closed(block.data);
    NameIs(block);
    var name := CString(data[block.dataBytes..]);
    if |name| > UF2_FILENAME_MAX {
      return 0;
    }
    var realname := uf2_map(dstdir, name, usePaths);
    MapPathNoNul(dstdir, name, usePaths);
    ret := uf2_mkdir_for(fs, realname);
    if ret < 0 { return; }
    ret := uf2_write_into(fs, realname, data, block.dataBytes, block.fileOffset, block.fileSize);
  }

  lemma {:induction false} MadeGrows(blocks: seq<Block>, n: nat, t: Target)
    requires AllValid(blocks) && n <= |blocks|
    ensures Made(blocks[..n], t) <= Made(blocks, t)
    decreases |blocks| - n
  {
    hide MadeFor;
    if n == |blocks| {
      assert blocks[..n] == blocks;
    } else {
      assert blocks[..n + 1][..n] == blocks[..n];
      MadeGrows(blocks, n + 1, t);
    }
  }

  /** Extraction makes the directory of every file it writes. */
  lemma DirectoryMade(blocks: seq<Block>, n: nat, t: Target, dir: seq<Byte>, base: seq<Byte>)
    requires AllValid(blocks) && n < |blocks| && Accepted(blocks[n])
    requires t.PathOf(NameOf(blocks[n])) == dir + [47] + base && dir != [] && dir[|dir| - 1] != 47
    ensures dir in Made(blocks, t)
  {
    hide Accepted, MapPath, NameOf, Parents;
    DirectoryIsParent(dir, base);
    assert blocks[..n + 1][..n] == blocks[..n];
    MadeGrows(blocks, n + 1, t);
  }

  lemma NameIs(b: Block)
    requires b.Valid() && b.dataBytes <= UF2_PAYLOAD_MAX
    ensures NameOf(b) == CString(Closed(b.data)[b.dataBytes..]) && NoNul(NameOf(b))
  {}

  lemma MapPathNoNul(dstdir: seq<Byte>, name: seq<Byte>, usePaths: bool)
    requires NoNul(dstdir) && NoNul(name)
    ensures NoNul(MapPath(dstdir, name, usePaths))
  {
    assert forall c :: c in Basename(name, false) ==> c in name;
    assert forall c :: c in FirstPart(name) ==> c in name;
  }

  lemma {:induction false} DecodeAllAt(stream: seq<Byte>, n: nat)
    requires BLOCK_SIZE * n + BLOCK_SIZE <= |stream|
    ensures n < |DecodeAll(stream)|
    ensures DecodeAll(stream)[n] == Decode(stream[BLOCK_SIZE * n..BLOCK_SIZE * n + BLOCK_SIZE])
    decreases n
  {
    hide Decode;
    if n == 0 {
      assert DecodeAll(stream)[0] == Decode(stream[..BLOCK_SIZE]);
    } else {
      hide DecodeAll;
      DecodeAllAt(stream[BLOCK_SIZE..], n - 1);
      AfterFirst(stream, BLOCK_SIZE * (n - 1));
      DecodeTail(stream, n);
    }
  }

  lemma DecodeTail(stream: seq<Byte>, n: nat)
    requires n > 0 && BLOCK_SIZE * n + BLOCK_SIZE <= |stream|
    ensures n < |DecodeAll(stream)| && n - 1 < |DecodeAll(stream[BLOCK_SIZE..])|
    ensures DecodeAll(stream)[n] == DecodeAll(stream[BLOCK_SIZE..])[n - 1]
  {
    hide Decode;
  }

  lemma AfterFirst(stream: seq<Byte>, at: nat)
    requires BLOCK_SIZE + at + BLOCK_SIZE <= |stream|
    ensures stream[BLOCK_SIZE..][at..at + BLOCK_SIZE] == stream[BLOCK_SIZE + at..BLOCK_SIZE + at + BLOCK_SIZE]
  {
  }

  lemma {:induction false} StopsAt(files: FileMap, blocks: seq<Block>, n: nat, t: Target)
    requires AllValid(blocks) && n <= |blocks| && !Unpack(files, blocks[..n], t).ok
    ensures Unpack(files, blocks, t) == Unpack(files, blocks[..n], t)
    decreases |blocks| - n
  {
    hide UnpackBlock;
    if n == |blocks| {
      assert blocks[..n] == blocks;
    } else {
      assert blocks[..n + 1][..n] == blocks[..n];
      StopsAt(files, blocks, n + 1, t);
    }
  }

  // ----- packed files -----

  datatype Source = Source(name: seq<Byte>, content: seq<Byte>) {
    /** A file the format can carry: a C string as its name, 1 byte to 64 MiB. */
    predicate Sendable() {
      |name| <= UF2_FILENAME_MAX && NoNul(name) && 1 <= |content| <= UF2_FILE_MAX
    }
  }

  /** Piece k of a file, whatever its block number and count. */
  predicate IsPiece(b: Block, f: Source, k: nat) {
    f.Sendable() && k < PieceCount(f.name, |f.content|) && b == Piece(f.name, f.content, k, b.blockNumber, b.blockCount)
  }

  /** The filter lets a piece through and reads back its name, place and payload. */
  lemma PieceAccepted(b: Block, f: Source, k: nat)
    requires IsPiece(b, f, k)
    ensures b.Valid() && Accepted(b) && NameOf(b) == f.name && b.fileSize == |f.content|
    ensures b.fileOffset == PieceStart(f.name, k) && b.fileOffset + b.dataBytes == PieceEnd(f.name, |f.content|, k)
    ensures b.fileOffset + b.dataBytes <= |f.content|
    ensures Closed(b.data)[..b.dataBytes] == f.content[b.fileOffset..b.fileOffset + b.dataBytes]
  {
    hide CString, Closed;
    PieceBounds(f.name, |f.content|, k);
    var payload := f.content[b.fileOffset..b.fileOffset + b.dataBytes];
    PieceData(payload, f.name, b.data);
  }

  lemma PieceData(payload: seq<Byte>, name: seq<Byte>, data: seq<Byte>)
    requires NoNul(name) && |payload| + |name| < DATA_SIZE
    requires data == payload + name + Zeros(DATA_SIZE - |payload| - |name|)
    ensures Closed(data)[..|payload|] == payload && CString(Closed(data)[|payload|..]) == name
  {
    var rest := Zeros(DATA_SIZE - |payload| - |name|);
    assert data[475] == rest[|rest| - 1];
    assert Closed(data) == data;
    assert data[|payload|..] == name + rest;
    CStringOf(name, rest);
  }

  ghost predicate HasPiece(blocks: seq<Block>, f: Source, k: nat) { exists b :: b in blocks && IsPiece(b, f, k) }

  ghost predicate PieceOfSome(b: Block, files: seq<Source>) {
    exists i, k :: 0 <= i < |files| && IsPiece(b, files[i], k)
  }

  /** Every block the filter accepts is a piece of one of the files. */
  ghost predicate OnlyPieces(blocks: seq<Block>, files: seq<Source>) {
    AllValid(blocks) && forall i :: 0 <= i < |blocks| && Accepted(blocks[i]) ==> PieceOfSome(blocks[i], files)
  }

  /** No piece of any of the files is missing. */
  ghost predicate AllPieces(blocks: seq<Block>, files: seq<Source>) {
    forall i, k ::
      0 <= i < |files| && files[i].Sendable() && 0 <= k < PieceCount(files[i].name, |files[i].content|) ==>
        HasPiece(blocks, files[i], k)
  }

  /** Names fit, places differ, and the system refuses none of them. */
  ghost predicate Unpackable(files: seq<Source>, t: Target) {
    && (forall i :: 0 <= i < |files| ==> files[i].Sendable() && t.Allows(t.PathOf(files[i].name)))
    && forall i, j :: 0 <= i < j < |files| ==> t.PathOf(files[i].name) != t.PathOf(files[j].name)
  }

  // ----- the invariant of extraction -----

  /** Byte p of a file is in one of the pieces extracted so far. */
  ghost predicate Covered(blocks: seq<Block>, f: Source, p: int) {
    exists k :: HasPiece(blocks, f, k) && InPiece(f, k, p)
  }

  predicate InPiece(f: Source, k: nat, p: int)
    requires |f.name| <= UF2_FILENAME_MAX
  {
    PieceStart(f.name, k) <= p < PieceEnd(f.name, |f.content|, k)
  }

  ghost predicate Begun(blocks: seq<Block>, f: Source) { exists k :: HasPiece(blocks, f, k) }

  /** Byte p of a file once it is begun: its own where a piece was extracted, otherwise what was
      there before, at the new size. */
  ghost predicate RightByte(before: FileMap, now: seq<Byte>, f: Source, path: seq<Byte>, blocks: seq<Block>, p: int)
    requires |now| == |f.content| && 0 <= p < |f.content| && |f.name| <= UF2_FILENAME_MAX
  {
    now[p] == if Covered(blocks, f, p) then f.content[p] else Resize(ContentAt(before, path), |f.content|)[p]
  }

  /** What the blocks extracted so far have made of one file. */
  ghost predicate HoldsPieces(before: FileMap, now: FileMap, f: Source, path: seq<Byte>, blocks: seq<Block>)
    requires |f.name| <= UF2_FILENAME_MAX
  {
    if Begun(blocks, f) then
      && path in now && |now[path]| == |f.content|
      && forall p :: 0 <= p < |f.content| ==> RightByte(before, now[path], f, path, blocks, p)
    else SameAt(before, now, path)
  }

  predicate SameAt(before: FileMap, now: FileMap, path: seq<Byte>) {
    (path in before <==> path in now) && (path in before ==> before[path] == now[path])
  }

  ghost predicate Elsewhere(path: seq<Byte>, sources: seq<Source>, t: Target) {
    forall i :: 0 <= i < |sources| ==> path != t.PathOf(sources[i].name)
  }

  ghost predicate SameElsewhere(before: FileMap, after: FileMap, sources: seq<Source>, t: Target) {
    forall path :: Elsewhere(path, sources, t) ==> SameAt(before, after, path)
  }

  /** Writing a piece: its bytes become right, all others of the file keep their value. */
  lemma WritePiece(old_: seq<Byte>, f: Source, k: nat, b: Block, p: int)
    requires IsPiece(b, f, k) && 0 <= p < |f.content|
    ensures var r := WriteInto(old_, Closed(b.data)[..b.dataBytes], b.fileOffset, b.fileSize);
      && |r| == |f.content|
      && r[p] == if InPiece(f, k, p) then f.content[p] else Resize(old_, |f.content|)[p]
  {
    hide Closed, Piece;
    PieceAccepted(b, f, k);
    var data := Closed(b.data)[..b.dataBytes];
    var base := Resize(old_, b.fileSize);
    var r := Overwrite(base, b.fileOffset, data);
    if InPiece(f, k, p) {
      assert r[p] == data[p - b.fileOffset];
    } else {
      assert r[p] == base[p];
    }
  }

  lemma CoveredMore(blocks: seq<Block>, b: Block, f: Source, k: nat, p: int)
    requires IsPiece(b, f, k)
    ensures Covered(blocks + [b], f, p) <==> Covered(blocks, f, p) || InPiece(f, k, p)
  {
    hide IsPiece, Accepted, NameOf;
    PieceAccepted(b, f, k);
    forall l | HasPiece(blocks + [b], f, l) && InPiece(f, l, p)
      ensures Covered(blocks, f, p) || InPiece(f, k, p)
    {
      var c :| c in blocks + [b] && IsPiece(c, f, l);
      PieceAccepted(c, f, l);
      if c != b {
        assert c in blocks;
        assert HasPiece(blocks, f, l);
      }
    }
    forall l | HasPiece(blocks, f, l)
      ensures HasPiece(blocks + [b], f, l)
    {
      var c :| c in blocks && IsPiece(c, f, l);
      assert c in blocks + [b];
    }
    assert b in blocks + [b];
    assert HasPiece(blocks + [b], f, k);
  }

  lemma HoldsMore(before: FileMap, now: FileMap, f: Source, path: seq<Byte>, blocks: seq<Block>, b: Block, k: nat)
    requires IsPiece(b, f, k) && HoldsPieces(before, now, f, path, blocks)
    ensures var r := WriteInto(ContentAt(now, path), Closed(b.data)[..b.dataBytes], b.fileOffset, b.fileSize);
      HoldsPieces(before, now[path := r], f, path, blocks + [b])
  {
    hide WriteInto, IsPiece, Closed, Accepted, NameOf, Covered, InPiece;
    PieceAccepted(b, f, k);
    var r := WriteInto(ContentAt(now, path), Closed(b.data)[..b.dataBytes], b.fileOffset, b.fileSize);
    assert b in blocks + [b];
    assert HasPiece(blocks + [b], f, k);
    SendablePiece(b, f, k);
    WritePiece(ContentAt(now, path), f, k, b, 0);
    forall p | 0 <= p < |f.content|
      ensures RightByte(before, r, f, path, blocks + [b], p)
    {
      WritePiece(ContentAt(now, path), f, k, b, p);
      CoveredMore(blocks, b, f, k, p);
      if Begun(blocks, f) {
        assert RightByte(before, now[path], f, path, blocks, p);
        assert Resize(now[path], |f.content|) == now[path];
      } else {
        NotBegun(blocks, f, p);
      }
    }
  }

  lemma SendablePiece(b: Block, f: Source, k: nat)
    requires IsPiece(b, f, k)
    ensures f.Sendable()
  {}

  lemma NotBegun(blocks: seq<Block>, f: Source, p: int)
    requires !Begun(blocks, f) && |f.name| <= UF2_FILENAME_MAX
    ensures !Covered(blocks, f, p)
  {}

  /** A block that is no piece of a file, written elsewhere or not at all, changes nothing. */
  lemma HoldsOther(before: FileMap, now: FileMap, after: FileMap, f: Source, path: seq<Byte>, blocks: seq<Block>,
      b: Block)
    requires |f.name| <= UF2_FILENAME_MAX && HoldsPieces(before, now, f, path, blocks)
    requires SameAt(now, after, path) && forall k :: !IsPiece(b, f, k)
    ensures HoldsPieces(before, after, f, path, blocks + [b])
  {
    hide IsPiece, InPiece;
    forall k
      ensures HasPiece(blocks + [b], f, k) <==> HasPiece(blocks, f, k)
    {
      SamePiecesWithout(blocks, b, f, k);
    }
    forall p
      ensures Covered(blocks + [b], f, p) <==> Covered(blocks, f, p)
    {}
    if Begun(blocks, f) {
      assert forall p :: 0 <= p < |f.content| && RightByte(before, now[path], f, path, blocks, p) ==>
          RightByte(before, after[path], f, path, blocks + [b], p);
    }
  }

  lemma SamePiecesWithout(blocks: seq<Block>, b: Block, f: Source, k: nat)
    requires !IsPiece(b, f, k)
    ensures HasPiece(blocks + [b], f, k) <==> HasPiece(blocks, f, k)
  {
    hide IsPiece;
    if c :| c in blocks + [b] && IsPiece(c, f, k) {
      assert c in blocks;
    }
    if c :| c in blocks && IsPiece(c, f, k) {
      assert c in blocks + [b];
    }
  }

  ghost predicate NamesFit(sources: seq<Source>) {
    forall i :: 0 <= i < |sources| ==> |sources[i].name| <= UF2_FILENAME_MAX
  }

  /** Every file is as its pieces make it, and nothing else has changed. */
  ghost predicate Progress(files: FileMap, now: FileMap, blocks: seq<Block>, sources: seq<Source>, t: Target) {
    && NamesFit(sources) && SameElsewhere(files, now, sources, t)
    && forall i :: 0 <= i < |sources| ==> HoldsPieces(files, now, sources[i], t.PathOf(sources[i].name), blocks)
  }

  lemma {:induction false} UnpackInvariant(files: FileMap, blocks: seq<Block>, sources: seq<Source>, t: Target)
    requires OnlyPieces(blocks, sources) && Unpackable(sources, t)
    ensures var o := Unpack(files, blocks, t); o.ok && Progress(files, o.files, blocks, sources, t)
  {
    hide Progress, Unpackable, Accepted, PieceOfSome;
    if blocks == [] {
      NoProgress(files, sources, t);
    } else {
      var n := |blocks| - 1;
      assert blocks[..n] + [blocks[n]] == blocks;
      UnpackInvariant(files, blocks[..n], sources, t);
      var o := Unpack(files, blocks[..n], t);
      if Accepted(blocks[n]) {
        AcceptedStep(files, o.files, blocks[..n], blocks[n], sources, t);
      } else {
        SkippedStep(files, o.files, blocks[..n], blocks[n], sources, t);
      }
    }
  }

  lemma NoProgress(files: FileMap, sources: seq<Source>, t: Target)
    requires Unpackable(sources, t)
    ensures Progress(files, files, [], sources, t)
  {
    hide IsPiece, MapPath, Parents;
    assert forall i :: 0 <= i < |sources| ==> sources[i].Sendable();
  }

  lemma SkippedStep(files: FileMap, now: FileMap, blocks: seq<Block>, b: Block, sources: seq<Source>, t: Target)
    requires b.Valid() && !Accepted(b) && Progress(files, now, blocks, sources, t)
    ensures Progress(files, now, blocks + [b], sources, t)
  {
    hide HoldsPieces, Accepted, SameElsewhere, IsPiece;
    forall i | 0 <= i < |sources|
      ensures HoldsPieces(files, now, sources[i], t.PathOf(sources[i].name), blocks + [b])
    {
      forall k
        ensures !IsPiece(b, sources[i], k)
      {
        if IsPiece(b, sources[i], k) {
          PieceAccepted(b, sources[i], k);
          assert false;
        }
      }
      HoldsOther(files, now, now, sources[i], t.PathOf(sources[i].name), blocks, b);
    }
  }

  lemma AcceptedStep(files: FileMap, now: FileMap, blocks: seq<Block>, b: Block, sources: seq<Source>, t: Target)
    requires b.Valid() && Accepted(b) && PieceOfSome(b, sources) && Unpackable(sources, t)
    requires Progress(files, now, blocks, sources, t)
    ensures var o := UnpackBlock(now, b, t); o.ok && Progress(files, o.files, blocks + [b], sources, t)
  {
    hide HoldsPieces, Accepted, IsPiece, WriteInto, Closed, SameElsewhere, MapPath, NameOf;
    var i, k :| 0 <= i < |sources| && IsPiece(b, sources[i], k);
    PieceAccepted(b, sources[i], k);
    var path := t.PathOf(sources[i].name);
    var r := WriteInto(ContentAt(now, path), Closed(b.data)[..b.dataBytes], b.fileOffset, b.fileSize);
    StillSameElsewhere(files, now, i, r, sources, t);
    forall j | 0 <= j < |sources|
      ensures HoldsPieces(files, now[path := r], sources[j], t.PathOf(sources[j].name), blocks + [b])
    {
      if j == i {
        HoldsMore(files, now, sources[i], path, blocks, b, k);
      } else {
        NotPieceOfOther(b, sources, i, k, j, t);
        HoldsOther(files, now, now[path := r], sources[j], t.PathOf(sources[j].name), blocks, b);
      }
    }
  }

  lemma StillSameElsewhere(files: FileMap, now: FileMap, i: nat, r: seq<Byte>, sources: seq<Source>, t: Target)
    requires i < |sources| && SameElsewhere(files, now, sources, t)
    ensures SameElsewhere(files, now[t.PathOf(sources[i].name) := r], sources, t)
  {
    hide MapPath;
    forall path | Elsewhere(path, sources, t)
      ensures SameAt(files, now[t.PathOf(sources[i].name) := r], path)
    {
      assert path != t.PathOf(sources[i].name) && SameAt(files, now, path);
    }
  }

  lemma NotPieceOfOther(b: Block, sources: seq<Source>, i: nat, k: nat, j: nat, t: Target)
    requires i < |sources| && j < |sources| && i != j && IsPiece(b, sources[i], k) && Unpackable(sources, t)
    ensures forall l :: !IsPiece(b, sources[j], l)
    ensures t.PathOf(sources[i].name) != t.PathOf(sources[j].name)
  {
    hide IsPiece, MapPath, Accepted, NameOf, Parents;
    PieceAccepted(b, sources[i], k);
    forall l
      ensures !IsPiece(b, sources[j], l)
    {
      if IsPiece(b, sources[j], l) {
        PieceAccepted(b, sources[j], l);
        assert false;
      }
    }
  }

  // ----- main results -----

  /** Extraction does not depend on the order of the blocks, on repetitions or on foreign
      blocks: if no piece is missing and everything accepted is a piece, every file arrives
      exactly, whatever was there before, and nothing else changes. */
  lemma AnyOrderUnpacks(files: FileMap, blocks: seq<Block>, sources: seq<Source>, t: Target)
    requires OnlyPieces(blocks, sources) && AllPieces(blocks, sources) && Unpackable(sources, t)
    ensures var o := Unpack(files, blocks, t);
      && o.ok && SameElsewhere(files, o.files, sources, t)
      && forall i :: 0 <= i < |sources| ==>
           var path := t.PathOf(sources[i].name); path in o.files && o.files[path] == sources[i].content
  {
    hide IsPiece, HoldsPieces, MapPath, Parents;
    UnpackInvariant(files, blocks, sources, t);
    var o := Unpack(files, blocks, t);
    forall i | 0 <= i < |sources|
      ensures t.PathOf(sources[i].name) in o.files && o.files[t.PathOf(sources[i].name)] == sources[i].content
    {
      AllHeldIsContent(files, o.files, sources[i], t.PathOf(sources[i].name), blocks, sources, i);
    }
  }

  lemma AllHeldIsContent(files: FileMap, now: FileMap, f: Source, path: seq<Byte>, blocks: seq<Block>,
      sources: seq<Source>, i: int)
    requires 0 <= i < |sources| && sources[i] == f && f.Sendable() && AllPieces(blocks, sources)
    requires HoldsPieces(files, now, f, path, blocks)
    ensures path in now && now[path] == f.content
  {
    hide HasPiece;
    var first := PieceCovers(f.name, |f.content|, 0);
    assert HasPiece(blocks, sources[i], first);
    forall p | 0 <= p < |f.content|
      ensures now[path][p] == f.content[p]
    {
      var k := PieceCovers(f.name, |f.content|, p);
      assert HasPiece(blocks, sources[i], k) && InPiece(f, k, p);
      assert RightByte(files, now[path], f, path, blocks, p);
    }
  }

  ghost predicate SamePieces(blocks: seq<Block>, others: seq<Block>, f: Source) {
    forall k :: HasPiece(blocks, f, k) <==> HasPiece(others, f, k)
  }

  /** Two streams with the same pieces, complete or not, extract to the same file system. */
  lemma OrderIndependence(files: FileMap, blocks: seq<Block>, others: seq<Block>, sources: seq<Source>, t: Target)
    requires OnlyPieces(blocks, sources) && OnlyPieces(others, sources) && Unpackable(sources, t)
    requires forall i :: 0 <= i < |sources| ==> SamePieces(blocks, others, sources[i])
    ensures Unpack(files, blocks, t) == Unpack(files, others, t)
  {
    hide IsPiece, HoldsPieces, MapPath, Parents, Unpack, SamePieces;
    UnpackInvariant(files, blocks, sources, t);
    UnpackInvariant(files, others, sources, t);
    var a, b := Unpack(files, blocks, t).files, Unpack(files, others, t).files;
    forall path
      ensures SameAt(a, b, path)
    {
      if i :| 0 <= i < |sources| && path == t.PathOf(sources[i].name) {
        SameMade(files, a, b, sources[i], path, blocks, others);
      } else {
        assert Elsewhere(path, sources, t);
        assert SameAt(files, a, path) && SameAt(files, b, path);
      }
    }
    assert forall path :: SameAt(a, b, path) ==> (path in a <==> path in b);
    assert a == b;
  }

  lemma SameMade(files: FileMap, a: FileMap, b: FileMap, f: Source, path: seq<Byte>, blocks: seq<Block>,
      others: seq<Block>)
    requires |f.name| <= UF2_FILENAME_MAX && SamePieces(blocks, others, f)
    requires HoldsPieces(files, a, f, path, blocks) && HoldsPieces(files, b, f, path, others)
    ensures SameAt(a, b, path)
  {
    hide HasPiece, InPiece;
    assert Begun(blocks, f) <==> Begun(others, f);
    if Begun(blocks, f) {
      forall p | 0 <= p < |f.content|
        ensures a[path][p] == b[path][p]
      {
        assert RightByte(files, a[path], f, path, blocks, p) && RightByte(files, b[path], f, path, others, p);
        assert Covered(blocks, f, p) <==> Covered(others, f, p);
      }
    }
  }
}
