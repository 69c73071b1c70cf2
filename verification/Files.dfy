/** Open files with a position, as stdio presents them: reading, overwriting, seeking. */
module Files {
  import opened Bytes
  import opened Numbers

  /** Writing bytes over a file at a position; a gap is filled with zeros. */
  function Overwrite(data: seq<Byte>, at: nat, bytes: seq<Byte>): (r: seq<Byte>)
    ensures bytes != [] ==> forall i :: at <= i < at + |bytes| ==> i < |r| && r[i] == bytes[i - at]
    ensures forall i :: 0 <= i < |data| && !(at <= i < at + |bytes|) ==> i < |r| && r[i] == data[i]
    ensures at + |bytes| <= |data| ==> |r| == |data|
    ensures at == |data| ==> r == data + bytes
  {
    if bytes == [] then data
    else if at <= |data| then data[..at] + bytes + data[Min(at + |bytes|, |data|)..]
    else data + Zeros(at - |data|) + bytes
  }

  class File {
    var data: seq<Byte>
    var pos: nat

    constructor (content: seq<Byte>)
      ensures data == content && pos == 0
    {
      data, pos := content, 0;
    }

    /** fread: everything that is left, up to n bytes. */
    method Read(n: nat) returns (bytes: seq<Byte>)
      modifies this`pos
      ensures old(pos) <= |data| ==> bytes == data[old(pos)..Min(old(pos) + n, |data|)]
      ensures old(pos) > |data| ==> bytes == []
      ensures pos == old(pos) + |bytes|
    {
      if pos > |data| {
        bytes := [];
      } else {
        bytes := data[pos..Min(pos + n, |data|)];
        pos := pos + |bytes|;
      }
    }

    /** fwrite of a whole object. */
    method Write(bytes: seq<Byte>)
      modifies this
      ensures data == Overwrite(old(data), old(pos), bytes) && pos == old(pos) + |bytes|
    {
      data := Overwrite(data, pos, bytes);
      pos := pos + |bytes|;
    }

    /** fseek with SEEK_SET. */
    method Seek(at: nat)
      modifies this`pos
      ensures pos == at
    {
      pos := at;
    }
  }
}
