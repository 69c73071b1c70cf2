/** Flashing the firmware (src/bl_install.c): bootloader_send and the decision of
    bootloader_install, with the CRC of src/crc32.c. */
module Flash {
  import opened Errors
  import opened Numbers
  import opened Sequences
  import opened Words
  import opened Crc32

  const FLASH_SIZE := 16 * 1000 * 1024

  // largest length for which the progress computation fits an int
  const LENGTH_LIMIT := 0x7FFF_FFFF / 100

  const PREFIX_SIZE := 3
  const DATA_HEADER := 7  // sizeof(FW_DOWNLOAD_DATA)

  /** The file cut or zero-padded to the flash region. */
  function Image(file: seq<bv8>, total: nat): (image: seq<bv8>)
    ensures |image| == total
    ensures forall i :: 0 <= i < total ==> image[i] == if i < |file| then file[i] else 0
  {
    file[..Min(|file|, total)] + seq(total - Min(|file|, total), _ => 0)
  }

  /** The answers the transfer goes on after: success, or its own packet looped back. */
  predicate Good(a: Answer) { a.Reply? && (a.type_ == VM_OK || a.type_ == VM_SYS_RQ) }

  /** These are the types 3 and 1. */
  lemma GoodTypes(a: Answer)
    ensures Good(a) <==> a == Reply(3) || a == Reply(1)
  {}

  function AnswerError(a: Answer): int {
    match a
    case WriteFails => ERR_COMM
    case ReadFails => ERR_COMM
    case Reply(t) => if t == VM_OK || t == VM_SYS_RQ then ERR_UNK else ERR_VM
  }

  /** fread of n bytes at pos. */
  function ReadAt(file: seq<bv8>, pos: nat, n: nat): (s: seq<bv8>)
    ensures |s| <= n
  {
    if pos >= |file| then [] else file[pos..Min(pos + n, |file|)]
  }

  lemma ImageSlice(file: seq<bv8>, total: nat, from: nat, n: nat)
    requires from + n <= total
    ensures Image(file, total)[from..from + n] ==
      ReadAt(file, from, n) + seq(n - |ReadAt(file, from, n)|, _ => 0)
  {
    var direct := ReadAt(file, from, n) + seq(n - |ReadAt(file, from, n)|, _ => 0);
    var slice := Image(file, total)[from..from + n];
    forall i | 0 <= i < n
      ensures slice[i] == direct[i]
    {
      assert slice[i] == Image(file, total)[from + i];
    }
  }

  /** The greatest multiple of five not above the percentage. */
  function ShownPercent(sent: nat, total: nat): (percent: int)
    requires total > 0
    ensures percent % 5 == 0 && percent <= sent * 100 / total < percent + 5
  {
    sent * 100 / total / 5 * 5
  }

  /** The payloads the bootloader has accepted: an error comes from the last one. */
  ghost function Accepted(err: int, payloads: seq<seq<bv8>>): seq<seq<bv8>> {
    if err == ERR_UNK || payloads == [] then payloads else payloads[..|payloads| - 1]
  }

  /** The data transfer: answers(i) is the bootloader's answer to packet i. The payloads sent
      so far are always a prefix of the image, and on success they are the whole image. */
  method bootloader_send(file: seq<bv8>, length: nat, answers: nat -> Answer)
      returns (err: int, crc32: bv32, payloads: seq<seq<bv8>>, shown: int)
    requires length <= LENGTH_LIMIT
    ensures Concat(payloads) <= Image(file, length)
    ensures forall i :: 0 <= i < |payloads| ==> DATA_HEADER - 1 + |payloads[i]| <= 1024
    ensures forall i :: 0 <= i < |payloads| - 1 ==> DATA_HEADER - 1 + |payloads[i]| == 1024
    ensures err == ERR_UNK <==> forall i :: 0 <= i < |payloads| ==> Good(answers(i))
    ensures err == ERR_UNK ==> Concat(payloads) == Image(file, length) && crc32 == Crc(0, Image(file, length))
    ensures err != ERR_UNK ==>
      && crc32 == 0 && payloads != [] && err == AnswerError(answers(|payloads| - 1))
      && !Good(answers(|payloads| - 1)) && err == if answers(|payloads| - 1).Reply? then ERR_VM else ERR_COMM
    ensures length > 0 ==> shown == ShownPercent(|Concat(Accepted(err, payloads))|, length)
  {
    hide Image, ReadAt, Crc, ShownPercent, Concat;
    var maxPayload := 1024 - (DATA_HEADER - PREFIX_SIZE + 2);
    var total := length;
    var sentSoFar, filePos, fileEnded := 0, 0, false;
    var crc: bv32 := 0;
    var payload: seq<bv8>;
    shown := 0;
    payloads := [];
    SendStart(file, length);
    while sentSoFar < total
      invariant 0 <= sentSoFar <= total && (total > 0 ==> shown == ShownPercent(sentSoFar, total))
      invariant if fileEnded then filePos >= |file| && sentSoFar >= |file| else filePos == sentSoFar
      invariant Concat(payloads) == Image(file, length)[..sentSoFar] && crc == Crc(0, Image(file, length)[..sentSoFar])
      invariant forall i :: 0 <= i < |payloads| ==> |payloads[i]| <= maxPayload && Good(answers(i))
      invariant forall i :: 0 <= i < |payloads| && sentSoFar < total ==> |payloads[i]| == maxPayload
      invariant forall i :: 0 <= i < |payloads| - 1 ==> |payloads[i]| == maxPayload
    {
      var remaining := total - sentSoFar;
      var thisBlock := if remaining <= maxPayload then remaining else maxPayload;
      ImageSlice(file, length, sentSoFar, thisBlock);
      BlockOf(file, sentSoFar, thisBlock);
      if !fileEnded {
        var data := ReadAt(file, filePos, thisBlock);
        filePos := filePos + |data|;
        if |data| < thisBlock {
          fileEnded := true;
        }
        payload := data + seq(thisBlock - |data|, _ => 0);
      } else {
        payload := seq(thisBlock, _ => 0);
      }
      assert payload == Image(file, length)[sentSoFar..sentSoFar + thisBlock];
      ghost var before := crc;
      crc := ComputeCrc32(crc, payload);
      var packetLen := DATA_HEADER - PREFIX_SIZE + thisBlock;
      assert packetLen + PREFIX_SIZE - 1 <= 1024;  // after the HID report byte
      SendMore(file, length, payloads, sentSoFar, thisBlock, before);
      payloads := payloads + [payload];
      var answer := answers(|payloads| - 1);
      if answer.WriteFails? || answer.ReadFails? {
        return ERR_COMM, 0, payloads, shown;
      }
      if answer.type_ != VM_OK && answer.type_ != VM_SYS_RQ {
        return ERR_VM, 0, payloads, shown;
      }
      assert (sentSoFar + thisBlock) * 100 <= 0x7FFF_FFFF;
      shown := Progress(shown, sentSoFar, sentSoFar + thisBlock, total);
      sentSoFar := sentSoFar + thisBlock;
    }
    assert Image(file, length)[..length] == Image(file, length);
    err, crc32 := ERR_UNK, crc;
  }

  /** The progress output: it advances in steps of five percent and never falls behind. */
  method Progress(lastPercent: int, ghost before: nat, sentSoFar: nat, total: nat) returns (percent: int)
    requires 0 < total && before <= sentSoFar <= total && lastPercent == ShownPercent(before, total)
    ensures percent == ShownPercent(sentSoFar, total)
  {
    hide ShownPercent;
    percent := lastPercent;
    var newPercent := sentSoFar * 100 / total;
    QuotientGrows(before * 100, sentSoFar * 100, total);
    UniqueStep(percent, newPercent, sentSoFar, total);
    if newPercent >= percent + 5 {
      percent := percent + ((newPercent - percent) / 5) * 5;
    }
  }

  lemma UniqueStep(percent: int, newPercent: int, sent: nat, total: nat)
    requires 0 < total && newPercent == sent * 100 / total && percent % 5 == 0 && percent <= newPercent
    ensures ShownPercent(sent, total) ==
      if newPercent >= percent + 5 then percent + ((newPercent - percent) / 5) * 5 else percent
  {}

  lemma QuotientGrows(a: nat, b: nat, d: nat)
    requires a <= b && d > 0
    ensures 0 <= a / d <= b / d
  {
    SmallerQuotient(a, a / d, b, b / d, d);
  }

  lemma SmallerQuotient(a: nat, q: int, b: nat, r: int, d: nat)
    requires a <= b && d * q <= a && b < d * (r + 1) && d > 0
    ensures q <= r
  {}


  lemma BlockOf(file: seq<bv8>, from: nat, n: nat)
    ensures |ReadAt(file, from, n)| < n ==> from + |ReadAt(file, from, n)| >= |file| && from + n >= |file|
    ensures from >= |file| ==> ReadAt(file, from, n) == []
    ensures n > 0 && |ReadAt(file, from, n)| == n ==> from + n <= |file|
  {}

  lemma SendStart(file: seq<bv8>, total: nat)
    ensures Concat<bv8>([]) == Image(file, total)[..0] && Crc(0, Image(file, total)[..0]) == 0
    ensures total > 0 ==> ShownPercent(0, total) == 0
  {
    assert Image(file, total)[..0] == [];
    CrcOfNothing();
  }

  lemma CrcOfNothing()
    ensures Crc(0, []) == 0
  {
    hide Xor;
    XorTwice(0, ONES);
  }

  lemma SendMore(file: seq<bv8>, total: nat, payloads: seq<seq<bv8>>, sent: nat, n: nat, crc: bv32)
    requires sent + n <= total && Concat(payloads) == Image(file, total)[..sent]
    requires crc == Crc(0, Image(file, total)[..sent])
    ensures var payload := Image(file, total)[sent..sent + n];
      && Concat(payloads + [payload]) == Image(file, total)[..sent + n]
      && Crc(crc, payload) == Crc(0, Image(file, total)[..sent + n])
  {
    hide Image, Crc, Concat;
    var image := Image(file, total);
    ConcatOneMore(payloads, image[sent..sent + n]);
    Chaining(0, image[..sent], image[sent..sent + n]);
    assert image[..sent + n] == image[..sent] + image[sent..sent + n];
  }

  // ----- bootloader_install -----

  /** What the bootloader answers to the checksum request. */
  datatype Checksum = Checksum(err: int, crc32: bv32)

  method bootloader_install(file: seq<bv8>, eraseErr: int, startErr: int, answers: nat -> Answer, checksum: Checksum,
      exitErr: int)
      returns (err: int, reboots: bool, payloads: seq<seq<bv8>>)
    ensures reboots <==> (eraseErr == ERR_UNK && startErr == ERR_UNK && Concat(payloads) == Image(file, FLASH_SIZE) &&
      (forall i :: 0 <= i < |payloads| ==> Good(answers(i))) &&
      (checksum.err == ERR_USBLOOP || (checksum.err == ERR_UNK && checksum.crc32 == Crc(0, Image(file, FLASH_SIZE)))))
    ensures reboots ==> err == exitErr
    ensures !reboots ==> err != ERR_UNK
    ensures eraseErr != ERR_UNK ==> err == eraseErr && payloads == []
    ensures eraseErr == ERR_UNK && startErr != ERR_UNK ==> err == startErr && payloads == []
    ensures eraseErr == ERR_UNK && startErr == ERR_UNK ==>
      var ok := forall i :: 0 <= i < |payloads| ==> Good(answers(i));
      if !ok then
        payloads != [] && err == if answers(|payloads| - 1).Reply? then ERR_VM else ERR_COMM
      else if checksum.err != ERR_UNK && checksum.err != ERR_USBLOOP then err == checksum.err
      else checksum.err == ERR_UNK && checksum.crc32 != Crc(0, Image(file, FLASH_SIZE)) ==> err == ERR_IO
  {
    hide Image, Crc, Concat, Good;
    reboots, payloads := false, [];
    EmptyIsNotImage(file);
    if eraseErr != ERR_UNK { return eraseErr, false, []; }
    if startErr != ERR_UNK { return startErr, false, []; }
    var sendErr, localCrc32, shown;
    sendErr, localCrc32, payloads, shown := bootloader_send(file, FLASH_SIZE, answers);
    if sendErr != ERR_UNK { return sendErr, false, payloads; }
    if checksum.err == ERR_USBLOOP {
      // not checked
    } else if checksum.err == ERR_UNK {
      if localCrc32 != checksum.crc32 { return ERR_IO, false, payloads; }
    } else {
      return checksum.err, false, payloads;
    }
    err, reboots := exitErr, true;
  }

  lemma EmptyIsNotImage(file: seq<bv8>)
    ensures Concat<bv8>([]) != Image(file, FLASH_SIZE)
  {
    assert |Image(file, FLASH_SIZE)| == FLASH_SIZE;
  }

  /** If the flash holds anything that differs from the image only within some 32 consecutive
      bits, its checksum is not the one the installer accepts. */
  lemma DamagedFlashRejected(file: seq<bv8>, flash: seq<bv8>, from: nat, width: nat)
    requires |flash| == FLASH_SIZE && flash != Image(file, FLASH_SIZE)
    requires width <= 32 && from + width <= 8 * FLASH_SIZE
    requires forall k :: 0 <= k < 8 * FLASH_SIZE && !(from <= k < from + width) ==>
      Bits(flash)[k] == Bits(Image(file, FLASH_SIZE))[k]
    ensures Crc(0, flash) != Crc(0, Image(file, FLASH_SIZE))
  {
    hide Image, Bits, Crc;
    BurstDetected(0, flash, Image(file, FLASH_SIZE), from, width);
  }
}
