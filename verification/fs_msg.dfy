/** The file-system request message of Applications/app-file.h: which
    operation a client asks of the file-system actor, on which path and with
    which buffer, and the return code the file-system actor writes back. */
module FsRequest {
  import opened Types

  /** FsOptEnum: the kinds of request. */
  datatype FsOpt =
    | OptNone
    | DirOpen
    | DirRead
    | DirMake
    | FileOpen
    | FileRead
    | FileWrite
    | FileWriteAndMake
    | FileCreateNew
    | FileAppend
    | Remove

  /** The enumerators in declaration order. */
  const Declared: seq<FsOpt> := [OptNone, DirOpen, DirRead, DirMake, FileOpen, FileRead,
                                 FileWrite, FileWriteAndMake, FileCreateNew, FileAppend, Remove]

  /** An enumerator's value: its place in the declaration. */
  function Ordinal(o: FsOpt): (v: nat)
    ensures v < |Declared| && Declared[v] == o
  {
    match o
    case OptNone => 0
    case DirOpen => 1
    case DirRead => 2
    case DirMake => 3
    case FileOpen => 4
    case FileRead => 5
    case FileWrite => 6
    case FileWriteAndMake => 7
    case FileCreateNew => 8
    case FileAppend => 9
    case Remove => 10
  }

  /** The declaration lists every kind once: position and value agree. */
  lemma OrdinalOfDeclared(i: nat)
    requires i < |Declared|
    ensures Ordinal(Declared[i]) == i
  {}

  /** The path length after the constructor loop has looked at the bytes
      below `i`: the index of the last zero byte among them, and 0 while
      there is none. */
  function LastZero(bytes: seq<u8>, i: nat): (r: nat)
    requires i <= |bytes|
    ensures i > 0 ==> r < i
    ensures (exists j :: 0 <= j < i && bytes[j] == 0) ==> bytes[r] == 0
    ensures forall j :: r < j < i ==> bytes[j] != 0
    ensures (forall j :: 0 <= j < i ==> bytes[j] != 0) ==> r == 0
  {
    if i == 0 then 0
    else if bytes[i - 1] == 0 then i - 1
    else LastZero(bytes, i - 1)
  }

  /** The path length is the last terminator within the first 255 bytes,
      not the first: with two zero bytes there, it lies at or after the
      second. */
  lemma PathLenNotFirstZero(bytes: seq<u8>, a: nat, b: nat)
    requires a < b < 0xFF <= |bytes| && bytes[a] == 0 && bytes[b] == 0
    ensures LastZero(bytes, 0xFF) >= b > a
  {}

  /** The loop both constructors run over the first 255 bytes at `path`
      (a `uint8_t` counter below 0xFF): every zero byte sets the path
      length to its index. */
  method ScanPathLen(bytes: seq<u8>) returns (len: u8)
    requires |bytes| >= 0xFF
    ensures len == LastZero(bytes, 0xFF)
    ensures len < 0xFF
  {
    len := 0;
    for i := 0 to 0xFF
      invariant len == LastZero(bytes, i)
    {
      if bytes[i] == 0 {
        len := i;
      }
    }
  }

  /** The `uint16_t` a caller hands to setReturn for an `int16_t` result
      code (the usual two's-complement conversion). */
  function FromInt16(e: i16): (v: u16)
    ensures (v - e) % 0x1_0000 == 0
  {
    if e < 0 then e + 0x1_0000 else e
  }

  /** Storing into the `int16_t` field gives back any signed code... */
  lemma ReturnCodeRoundTrip(e: i16)
    ensures ToInt16(FromInt16(e)) == e
  {}

  /** ...and every `uint16_t` is the conversion of the code it is stored as. */
  lemma ReturnCodeFromBits(v: u16)
    ensures FromInt16(ToInt16(v)) == v
  {}

  class FsMsg {
    var opt: FsOpt
    var path: Ptr
    var pathLen: u8
    var buffer: Ptr
    var bufferLen: u16
    var ret: i16

    /** The four-argument constructor: opt, path, buffer and length are
        stored as given; `bytes` are the 255 bytes the scan reads at
        `path`. */
    constructor (opt: FsOpt, path: Ptr, bytes: seq<u8>, buffer: Ptr, bufferLen: u16)
      requires |bytes| >= 0xFF
      ensures this.opt == opt && this.path == path
      ensures this.buffer == buffer && this.bufferLen == bufferLen
      ensures pathLen == LastZero(bytes, 0xFF) && ret == 0
    {
      var n := ScanPathLen(bytes);
      this.opt := opt;
      this.path := path;
      this.buffer := buffer;
      this.bufferLen := bufferLen;
      pathLen := n;
      ret := 0;
    }

    /** The two-argument constructor: no buffer, length 0. */
    constructor WithoutBuffer(opt: FsOpt, path: Ptr, bytes: seq<u8>)
      requires |bytes| >= 0xFF
      ensures this.opt == opt && this.path == path
      ensures buffer == Null && bufferLen == 0
      ensures pathLen == LastZero(bytes, 0xFF) && ret == 0
    {
      var n := ScanPathLen(bytes);
      this.opt := opt;
      this.path := path;
      buffer := Null;
      bufferLen := 0;
      pathLen := n;
      ret := 0;
    }

    function GetOpt(): FsOpt
      reads this
    {
      opt
    }

    function GetPath(): Ptr
      reads this
    {
      path
    }

    function GetPathLen(): u8
      reads this
    {
      pathLen
    }

    function GetBuffer(): Ptr
      reads this
    {
      buffer
    }

    function GetBufferLen(): u16
      reads this
    {
      bufferLen
    }

    function GetReturn(): i16
      reads this
    {
      ret
    }

    /** setReturn: the `uint16_t` argument narrowed into the `int16_t`
        field; nothing else changes. */
    method SetReturn(v: u16)
      modifies this`ret
      ensures ret == ToInt16(v)
      ensures (ret - v) % 0x1_0000 == 0 && (ret < 0 <==> v >= 0x8000)
    {
      ret := ToInt16(v);
    }
  }
}
