/** Copying a file to the brick (src/up.c) and back (src/dl.c), against a small model of the
    file that the brick keeps open. */
module Transfer {
  import opened Bytes
  import opened Errors
  import opened Sequences

  const CHUNK_SIZE := 1000
  const UINT32_MAX := 0xFFFF_FFFF

  // bytes of a packet on the wire before the variable part
  const PREFIX_SIZE := 3
  const CONTINUE_DOWNLOAD_SIZE := 8
  const BEGIN_UPLOAD_REPLY_SIZE := 12
  const CONTINUE_UPLOAD_REPLY_SIZE := 8

  predicate Denied(a: Answer) { a.Reply? && a.type_ == VM_ERROR }

  /** What the brick does with a request for file bytes: it hands over some of them. */
  datatype Service = Fails | Denies | Gives(n: nat)

  datatype UploadReply = UploadReply(packetLen: int, fileSize: U32, bytes: seq<Byte>)

  class Brick {
    var file: seq<Byte>
    var served: nat

    /** Stores the chunk of a CONTINUE_DOWNLOAD packet: packetLen counts the bytes after it. */
    method ContinueDownload(packetLen: int, fileChunk: array<Byte>, denied: bool)
      requires 0 <= packetLen + PREFIX_SIZE - CONTINUE_DOWNLOAD_SIZE <= fileChunk.Length
      modifies this`file
      ensures file == old(file) + if denied then [] else fileChunk[..packetLen + PREFIX_SIZE - CONTINUE_DOWNLOAD_SIZE]
    {
      if !denied {
        file := file + fileChunk[..packetLen + PREFIX_SIZE - CONTINUE_DOWNLOAD_SIZE];
      }
    }

    /** Serves at least `least` and at most maxBytes of the bytes not served yet. */
    method Upload(header: nat, least: nat, maxBytes: nat, n: nat) returns (reply: UploadReply)
      requires served <= |file| <= UINT32_MAX && header >= 2 && least <= maxBytes && served + least <= |file|
      modifies this`served
      ensures old(served) + least <= served <= |file| && served <= old(served) + maxBytes
      ensures reply == UploadReply(header + served - old(served) - 2, |file|, file[old(served)..served])
    {
      var size := if n < least then least else if n > maxBytes then maxBytes else n;
      if size > |file| - served { size := |file| - served; }
      reply := UploadReply(header + size - 2, |file|, file[served..served + size]);
      served := served + size;
    }
  }

  // ----- up -----

  /** The pieces of a file: full chunks, then the rest. */
  predicate Chunked(chunks: seq<seq<Byte>>, file: seq<Byte>) {
    && Concat(chunks) == file
    && |chunks| == (|file| + CHUNK_SIZE - 1) / CHUNK_SIZE
    && (forall i :: 0 <= i < |chunks| ==> 0 < |chunks[i]| <= CHUNK_SIZE)
    && (forall i :: 0 <= i < |chunks| - 1 ==> |chunks[i]| == CHUNK_SIZE)
  }

  /** What the brick stores: the chunks it does not deny. */
  function Kept(chunks: seq<seq<Byte>>, answers: nat -> Answer): seq<Byte> {
    if chunks == [] then []
    else Kept(chunks[..|chunks| - 1], answers) + if Denied(answers(|chunks|)) then [] else chunks[|chunks| - 1]
  }

  ghost function UpError(file: seq<Byte>, answers: nat -> Answer): int {
    var n := (|file| + CHUNK_SIZE - 1) / CHUNK_SIZE;
    if |file| > UINT32_MAX then ERR_FTOOBIG
    else if Denied(answers(0)) then ERR_VM
    else if exists i: nat :: i <= n && !answers(i).Reply? then ERR_COMM
    else if Denied(answers(n)) then ERR_VM
    else ERR_UNK
  }

  /** answers(0) is the answer to BEGIN_DOWNLOAD and answers(i) the one to chunk i. */
  method up(brick: Brick, file: seq<Byte>, answers: nat -> Answer) returns (err: int, ghost chunks: seq<seq<Byte>>)
    modifies brick`file
    ensures err == UpError(file, answers)
    ensures Concat(chunks) <= file
    ensures err == ERR_COMM <==> |file| <= UINT32_MAX && !answers(|chunks|).Reply?
    ensures chunks != [] ==>
      brick.file == Kept(if answers(|chunks|).WriteFails? then chunks[..|chunks| - 1] else chunks, answers)
    ensures err == ERR_UNK ==> Chunked(chunks, file) && brick.file == Kept(chunks, answers)
  {
    hide Concat, Kept;
    NothingSent(answers);
    chunks := [];
    if |file| > UINT32_MAX { return ERR_FTOOBIG, chunks; }
    var finalChunkSize, count := |file| % CHUNK_SIZE, |file| / CHUNK_SIZE;
    if finalChunkSize == 0 {
      finalChunkSize := CHUNK_SIZE;
    } else {
      count := count + 1;
    }
    var answer := answers(0);
    if !answer.Reply? { return ERR_COMM, chunks; }
    if answer.type_ == VM_ERROR { return ERR_VM, chunks; }
    brick.file := [];

    var packetLen := CONTINUE_DOWNLOAD_SIZE + CHUNK_SIZE - PREFIX_SIZE;
    var fileChunk := new Byte[CHUNK_SIZE];
    var pos, i := 0, 0;
    while i < count
      invariant 0 <= i <= count && pos == (if i == count then |file| else CHUNK_SIZE * i) && 0 <= pos <= |file|
      invariant i < count ==> packetLen == CONTINUE_DOWNLOAD_SIZE + CHUNK_SIZE - PREFIX_SIZE
      invariant |chunks| == i && Concat(chunks) == file[..pos] && brick.file == Kept(chunks, answers)
      invariant forall k :: 0 <= k < i ==> 0 < |chunks[k]| <= CHUNK_SIZE
      invariant forall k :: 0 <= k < i && k < count - 1 ==> |chunks[k]| == CHUNK_SIZE
      invariant forall k: nat :: k <= i ==> answers(k).Reply?
      invariant answer == answers(i)
    {
      if i == count - 1 {
        packetLen := CONTINUE_DOWNLOAD_SIZE + finalChunkSize - PREFIX_SIZE;
      }
      var size := if i == count - 1 then finalChunkSize else CHUNK_SIZE;
      assert pos + size <= |file| && (i == count - 1 ==> pos + size == |file|);
      forall k | 0 <= k < size { fileChunk[k] := file[pos + k]; }
      assert fileChunk[..size] == file[pos..pos + size];
      OneMoreSent(chunks, file, pos, size, answers);
      chunks := chunks + [file[pos..pos + size]];
      pos, i := pos + size, i + 1;
      answer := answers(i);
      if answer.WriteFails? { return ERR_COMM, chunks; }
      brick.ContinueDownload(packetLen, fileChunk, Denied(answer));
      if answer.ReadFails? { return ERR_COMM, chunks; }
    }
    if answer.type_ == VM_ERROR { return ERR_VM, chunks; }
    err := ERR_UNK;
  }

  /** The error in terms of the n chunks that are needed: only the answers to the request and to
      the last chunk are looked at for a denial. */
  lemma UpErrorIs(file: seq<Byte>, n: nat, answers: nat -> Answer)
    requires 1000 * (n - 1) < |file| <= 1000 * n
    ensures UpError(file, answers) == ERR_FTOOBIG <==> |file| > 0xFFFF_FFFF
    ensures UpError(file, answers) == ERR_COMM <==>
      |file| <= 0xFFFF_FFFF && !Denied(answers(0)) && exists i: nat :: i <= n && !answers(i).Reply?
    ensures UpError(file, answers) == ERR_UNK <==>
      && |file| <= 0xFFFF_FFFF && !Denied(answers(0)) && !Denied(answers(n))
      && forall i: nat :: i <= n ==> answers(i).Reply?
  {
    assert n == (|file| + CHUNK_SIZE - 1) / CHUNK_SIZE;
  }

  lemma NothingSent(answers: nat -> Answer)
    ensures Concat<Byte>([]) == [] && Kept([], answers) == []
  {}

  lemma OneMoreSent(chunks: seq<seq<Byte>>, file: seq<Byte>, pos: nat, size: nat, answers: nat -> Answer)
    requires pos + size <= |file| && Concat(chunks) == file[..pos]
    ensures var more := chunks + [file[pos..pos + size]];
      && Concat(more) == file[..pos + size]
      && Kept(more, answers) == Kept(chunks, answers) +
           if Denied(answers(|chunks| + 1)) then [] else file[pos..pos + size]
  {
    ConcatOneMore(chunks, file[pos..pos + size]);
    assert (chunks + [file[pos..pos + size]])[..|chunks|] == chunks;
  }

  lemma {:induction false} KeptOrLost(chunks: seq<seq<Byte>>, answers: nat -> Answer)
    requires forall i :: 0 <= i < |chunks| ==> chunks[i] != []
    ensures |Kept(chunks, answers)| <= |Concat(chunks)|
    ensures if forall i :: 1 <= i <= |chunks| ==> !Denied(answers(i))
      then Kept(chunks, answers) == Concat(chunks)
      else |Kept(chunks, answers)| < |Concat(chunks)|
  {
    if chunks != [] {
      KeptOrLost(chunks[..|chunks| - 1], answers);
    }
  }

  /** The brick ends with the file exactly when it denied no chunk. */
  lemma StoredExactly(file: seq<Byte>, chunks: seq<seq<Byte>>, answers: nat -> Answer)
    requires Chunked(chunks, file)
    ensures Kept(chunks, answers) == file <==> forall i :: 1 <= i <= |chunks| ==> !Denied(answers(i))
  {
    KeptOrLost(chunks, answers);
  }

  /** Only the last reply's type is looked at: the first of two chunks is denied, nothing is
      reported, and the brick is left with half of the file. */
  lemma LostChunkUnreported(file: seq<Byte>, answers: nat -> Answer)
    requires |file| == 2 * CHUNK_SIZE && forall i :: answers(i) == Reply(if i == 1 then VM_ERROR else VM_OK)
    ensures UpError(file, answers) == ERR_UNK
    ensures forall chunks: seq<seq<Byte>> :: Chunked(chunks, file) ==> Kept(chunks, answers) == file[CHUNK_SIZE..]
  {
    forall chunks: seq<seq<Byte>> | Chunked(chunks, file)
      ensures Kept(chunks, answers) == file[CHUNK_SIZE..]
    {
      var first, second := chunks[0], chunks[1];
      assert [] + [first] == [first] && [first] + [second] == chunks;
      ConcatOneMore([], first);
      ConcatOneMore([first], second);
      assert chunks[..1] == [first] && chunks[..1][..0] == [];
      assert Denied(answers(1)) && !Denied(answers(2));
      assert Kept(chunks[..1], answers) == [];
      assert second == file[CHUNK_SIZE..];
    }
  }

  // ----- dl -----

  ghost predicate AllGive(services: nat -> Service, n: nat) { forall i :: 0 <= i < n ==> services(i).Gives? }

  /** services(0) is how the brick meets BEGIN_UPLOAD, services(i) how it meets the i-th
      CONTINUE_UPLOAD. The output is a prefix of the stored file, and on success all of it. */
  method dl(brick: Brick, services: nat -> Service) returns (err: int, output: seq<Byte>, ghost requests: nat)
    requires |brick.file| <= UINT32_MAX
    modifies brick`served
    ensures output <= brick.file && brick.served <= |brick.file| && output == brick.file[..brick.served]
    ensures |output| + 2 >= requests
    ensures 1 <= requests <= |brick.file| + 1 && AllGive(services, requests - 1)
    ensures err == ERR_UNK <==> services(requests - 1).Gives?
    ensures err == ERR_UNK ==> output == brick.file
    ensures err == ERR_COMM <==> services(requests - 1).Fails?
    ensures err == ERR_VM <==> services(requests - 1).Denies?
  {
    var maxBytes := CHUNK_SIZE;
    var bufferSize := BEGIN_UPLOAD_REPLY_SIZE + maxBytes;
    output, requests := [], 1;
    brick.served := 0;
    var service := services(0);
    if service.Fails? { return ERR_COMM, output, requests; }
    if service.Denies? { return ERR_VM, output, requests; }
    var reply := brick.Upload(BEGIN_UPLOAD_REPLY_SIZE, 0, maxBytes, service.n);
    assert reply.packetLen + 2 <= bufferSize;
    var readSoFar := reply.packetLen + 2 - BEGIN_UPLOAD_REPLY_SIZE;
    output := output + reply.bytes[..readSoFar];
    var total := reply.fileSize;

    maxBytes := CHUNK_SIZE + BEGIN_UPLOAD_REPLY_SIZE - CONTINUE_UPLOAD_REPLY_SIZE;
    var i := 0;
    while readSoFar < total
      invariant 0 <= readSoFar <= total == |brick.file| && brick.served == readSoFar
      invariant output == brick.file[..readSoFar]
      invariant requests == i + 1 && 0 <= i <= readSoFar && AllGive(services, requests)
    {
      i, requests := i + 1, requests + 1;
      service := services(i);
      if service.Fails? { return ERR_COMM, output, requests; }
      if service.Denies? { return ERR_VM, output, requests; }
      reply := brick.Upload(CONTINUE_UPLOAD_REPLY_SIZE, 1, maxBytes, service.n);
      assert reply.packetLen + 2 <= bufferSize;  // the reply fits the buffer
      var readThisTime := reply.packetLen + 2 - CONTINUE_UPLOAD_REPLY_SIZE;
      output := output + reply.bytes[..readThisTime];
      readSoFar := readSoFar + readThisTime;
    }
    err := ERR_UNK;
  }

  /** A file sent with every chunk accepted comes back unchanged, however the brick cuts it. */
  method UpThenDown(brick: Brick, file: seq<Byte>, answers: nat -> Answer, services: nat -> Service)
      returns (upErr: int, dlErr: int, output: seq<Byte>)
    requires forall i :: !Denied(answers(i))
    modifies brick
    ensures upErr == UpError(file, answers)
    ensures upErr == ERR_UNK && dlErr == ERR_UNK ==> output == file
  {
    dlErr, output := ERR_COMM, [];
    ghost var chunks;
    upErr, chunks := up(brick, file, answers);
    if upErr == ERR_UNK {
      StoredExactly(file, chunks, answers);
      ghost var requests;
      dlErr, output, requests := dl(brick, services);
    }
  }
}
