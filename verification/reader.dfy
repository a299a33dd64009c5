/** Reading from an SFF file, modelled as an immutable byte sequence and a
    cursor position. A read either yields its value and the advanced cursor
    or fails; nothing is ever zero-filled. */
module Reader {
  import opened LittleEndian

  /** Why a header could not be decoded. `Truncated` stands for the end-of-file
      errors of the underlying reads; the other two are format errors. */
  datatype DecodeError =
    | Truncated
    | BadSignature
    | UnsupportedVersion(ver0: uint8)

  datatype Result<+T> = Ok(value: T) | Fail(error: DecodeError) {
    predicate IsFailure() {
      Fail?
    }

    function PropagateFailure<U>(): Result<U>
      requires Fail?
    {
      Fail(error)
    }

    function Extract(): T
      requires Ok?
    {
      value
    }
  }

  /** A value read and the cursor position just after it. */
  datatype Read<+T> = Read(value: T, next: nat)

  /** "ElecbyteSpr" followed by a NUL byte. */
  const Signature: seq<uint8> :=
    [0x45, 0x6c, 0x65, 0x63, 0x62, 0x79, 0x74, 0x65, 0x53, 0x70, 0x72, 0x00]

  predicate HasSignature(data: seq<uint8>) {
    |data| >= 12 && data[..12] == Signature
  }

  /** One read of up to 12 bytes into the signature buffer. A read at end of
      file is an error; a shorter read is not, and leaves fewer than 12 bytes
      to compare, which is then a signature mismatch. */
  function ReadSignature(data: seq<uint8>): (r: Result<nat>)
    ensures r.Ok? <==> HasSignature(data)
    ensures r.Ok? ==> r.value == |Signature|
    ensures r == Fail(Truncated) <==> |data| == 0
    ensures r.Fail? ==> r.error in {Truncated, BadSignature}
  {
    var n := if |data| < 12 then |data| else 12;
    if n == 0 then Fail(Truncated)
    else if data[..n] != Signature then Fail(BadSignature)
    else Ok(n)
  }

  /** A single byte at the cursor. */
  function ReadU8(data: seq<uint8>, pos: nat): (r: Result<Read<uint8>>)
    requires pos <= |data|
    ensures r.Ok? <==> pos < |data|
    ensures r.Ok? ==> r.value.next == pos + 1 && [r.value.value] == data[pos..pos + 1]
    ensures r.Fail? ==> r.error == Truncated
  {
    if pos < |data| then Ok(Read(data[pos], pos + 1)) else Fail(Truncated)
  }

  /** A little-endian uint32 at the cursor; fails unless four whole bytes remain. */
  function ReadU32(data: seq<uint8>, pos: nat): (r: Result<Read<uint32>>)
    requires pos <= |data|
    ensures r.Ok? <==> pos + 4 <= |data|
    ensures r.Ok? ==> r.value.next == pos + 4 && EncodeLE32(r.value.value) == data[pos..pos + 4]
    ensures r.Fail? ==> r.error == Truncated
  {
    if pos + 4 <= |data| then
      EncodeOfLE32(data, pos);
      Ok(Read(LE32(data, pos), pos + 4))
    else
      Fail(Truncated)
  }

  /** `count` uint32 reads whose values are thrown away. */
  function SkipU32s(data: seq<uint8>, pos: nat, count: nat): (r: Result<nat>)
    requires pos <= |data|
    ensures r.Ok? <==> pos + 4 * count <= |data|
    ensures r.Ok? ==> r.value == pos + 4 * count
    ensures r.Fail? ==> r.error == Truncated
    decreases count
  {
    if count == 0 then Ok(pos)
    else
      var skipped :- ReadU32(data, pos);
      SkipU32s(data, skipped.next, count - 1)
  }
}
