/** The W25Qxx flash driver (Drivers/Devices/w25qxx.cpp): every operation
    builds a list of phase elements and hands it to the SPI layer; the
    "async" enquiries also queue assignments that asyncRxCallback later
    resolves from the receive scratch buffer into the ID and status fields. */
module Device {
  import opened Types
  import opened Inst
  import opened Elements
  import opened Encoder

  /** Size of the receive scratch buffer `_pRxBuff`. */
  const RX_BUFF_SIZE: nat := 128

  // ---------------------------------------------------------------------
  // The ID and status fields, as bytes

  /** The fields an assignment may target. */
  datatype Field =
    | ManufacturerId | DeviceId16 | DeviceId8 | UniqueId
    | StatusReg1 | StatusReg2 | StatusReg3 | SfdpReg

  /** Width in bytes of each field's C type. */
  function Width(f: Field): (w: nat)
    ensures 1 <= w <= 8
  {
    match f
    case ManufacturerId => 1
    case DeviceId16 => 2
    case DeviceId8 => 1
    case UniqueId => 8
    case StatusReg1 => 1
    case StatusReg2 => 1
    case StatusReg3 => 1
    case SfdpReg => 8
  }

  /** Where each field's bytes sit in the model's byte image of the fields;
      fields are laid out one after another. */
  function Offset(f: Field): (o: nat)
    ensures o + Width(f) <= REGS_SIZE
  {
    match f
    case ManufacturerId => 0
    case DeviceId16 => 1
    case DeviceId8 => 3
    case UniqueId => 4
    case StatusReg1 => 12
    case StatusReg2 => 13
    case StatusReg3 => 14
    case SfdpReg => 15
  }

  const REGS_SIZE: nat := 23

  /** Distinct fields occupy disjoint bytes. */
  lemma FieldsDisjoint(f: Field, g: Field)
    requires f != g
    ensures Offset(f) + Width(f) <= Offset(g) || Offset(g) + Width(g) <= Offset(f)
  {
  }

  /** W25QxxRxOpt: "copy `len` bytes into field `dest`". */
  datatype RxOpt = RxOpt(dest: Field, len: u16)

  /** Every pending assignment stays within its field. */
  predicate OptsFit(opts: seq<RxOpt>)
  {
    forall k :: 0 <= k < |opts| ==> opts[k].len <= Width(opts[k].dest)
  }

  /** Every pending assignment targets a different field. */
  predicate DestsDistinct(opts: seq<RxOpt>)
  {
    forall a, b :: 0 <= a < b < |opts| ==> opts[a].dest != opts[b].dest
  }

  /** The bytes the assignments from the `k`-th on take from the scratch
      buffer. */
  function LenFrom(opts: seq<RxOpt>, k: nat): nat
    requires k <= |opts|
    decreases |opts| - k
  {
    if k == |opts| then 0 else opts[k].len + LenFrom(opts, k + 1)
  }

  /** The bytes all pending assignments take. */
  function TotalLen(opts: seq<RxOpt>): nat
  {
    LenFrom(opts, 0)
  }

  /** The bytes the assignments `k` to `j - 1` take, that is where the
      `j`-th assignment's bytes start counted from where the `k`-th's do. */
  function Span(opts: seq<RxOpt>, k: nat, j: nat): nat
    requires k <= j <= |opts|
    decreases j - k
  {
    if k == j then 0 else opts[k].len + Span(opts, k + 1, j)
  }

  lemma {:induction false} SpanFits(opts: seq<RxOpt>, k: nat, j: nat)
    requires k <= j < |opts|
    ensures Span(opts, k, j) + opts[j].len <= LenFrom(opts, k)
    decreases j - k
  {
    if k < j {
      SpanFits(opts, k + 1, j);
    }
  }

  /** No assignment from the `k`-th on writes byte `pos` of the fields. */
  predicate Untouched(pos: nat, opts: seq<RxOpt>, k: nat)
  {
    forall t :: k <= t < |opts| ==> !(Offset(opts[t].dest) <= pos < Offset(opts[t].dest) + opts[t].len)
  }

  /** A byte of the `k`-th assignment's field is written by none of the
      later assignments, whose targets are other fields. */
  lemma OthersMiss(opts: seq<RxOpt>, k: nat, pos: nat)
    requires OptsFit(opts) && DestsDistinct(opts) && k < |opts|
    requires Offset(opts[k].dest) <= pos < Offset(opts[k].dest) + Width(opts[k].dest)
    ensures Untouched(pos, opts, k + 1)
  {
    forall t | k + 1 <= t < |opts|
      ensures !(Offset(opts[t].dest) <= pos < Offset(opts[t].dest) + opts[t].len)
    {
      FieldsDisjoint(opts[k].dest, opts[t].dest);
    }
  }

  /** The bytes of the `j`-th assignment's field above its `len` are
      written by no assignment. */
  lemma AboveUntouched(opts: seq<RxOpt>, j: nat, pos: nat)
    requires OptsFit(opts) && DestsDistinct(opts) && j < |opts|
    requires Offset(opts[j].dest) + opts[j].len <= pos < Offset(opts[j].dest) + Width(opts[j].dest)
    ensures Untouched(pos, opts, 0)
  {
    forall t | 0 <= t < |opts| && t != j
      ensures !(Offset(opts[t].dest) <= pos < Offset(opts[t].dest) + opts[t].len)
    {
      FieldsDisjoint(opts[j].dest, opts[t].dest);
    }
  }

  // ---------------------------------------------------------------------
  // Byte order

  /** The bytes of `s` in reverse order. */
  function Reverse(s: seq<u8>): (r: seq<u8>)
    ensures |r| == |s|
  {
    seq(|s|, i requires 0 <= i < |s| => s[|s| - 1 - i])
  }

  /** The number whose little-endian bytes are `s` (the byte order of the
      target for multi-byte fields). */
  function LittleEndian(s: seq<u8>): nat
    decreases |s|
  {
    if s == [] then 0 else s[0] + 0x100 * LittleEndian(s[1..])
  }

  /** The number whose big-endian bytes are `s` (the order in which the
      flash clocks out multi-byte IDs). */
  function BigEndian(s: seq<u8>): nat
    decreases |s|
  {
    if s == [] then 0 else 0x100 * BigEndian(s[..|s| - 1]) + s[|s| - 1]
  }

  function Pow256(n: nat): (r: nat)
    ensures r >= 1
  {
    if n == 0 then 1 else 0x100 * Pow256(n - 1)
  }

  /** Reversing big-endian bytes into a little-endian field preserves the
      number: this is why the driver copies in reverse order. */
  lemma {:induction false} LittleEndianOfReverse(s: seq<u8>)
    ensures LittleEndian(Reverse(s)) == BigEndian(s)
    decreases |s|
  {
    if s != [] {
      var r := Reverse(s);
      assert r[1..] == Reverse(s[..|s| - 1]);
      LittleEndianOfReverse(s[..|s| - 1]);
    }
  }

  lemma {:induction false} LittleEndianAppend(a: seq<u8>, b: seq<u8>)
    ensures LittleEndian(a + b) == LittleEndian(a) + Pow256(|a|) * LittleEndian(b)
    decreases |a|
  {
    if a == [] {
      assert a + b == b;
    } else {
      assert (a + b)[1..] == a[1..] + b;
      LittleEndianAppend(a[1..], b);
    }
  }

  lemma {:induction false} LittleEndianBound(s: seq<u8>)
    ensures LittleEndian(s) < Pow256(|s|)
    decreases |s|
  {
    if s != [] {
      LittleEndianBound(s[1..]);
    }
  }

  /** The value of field `f` in a byte image of the fields. */
  function FieldOf(mem: seq<u8>, f: Field): nat
    requires |mem| == REGS_SIZE
  {
    LittleEndian(mem[Offset(f)..Offset(f) + Width(f)])
  }

  // ---------------------------------------------------------------------
  // Resolving the pending assignments

  /** The byte image after `bytes` are copied to the start of field `f`. */
  function Store(mem: seq<u8>, f: Field, bytes: seq<u8>): (r: seq<u8>)
    requires |mem| == REGS_SIZE && |bytes| <= Width(f)
    ensures |r| == REGS_SIZE
  {
    mem[..Offset(f)] + bytes + mem[Offset(f) + |bytes|..]
  }

  /** Field `f` of `mem` starts with the `n` bytes of `src` from `at`,
      reversed. */
  predicate Holds(mem: seq<u8>, f: Field, src: seq<u8>, at: nat, n: nat)
    requires |mem| == REGS_SIZE && n <= Width(f) && at + n <= |src|
  {
    mem[Offset(f)..Offset(f) + n] == Reverse(src[at..at + n])
  }

  lemma StoreReadsBack(mem: seq<u8>, f: Field, bytes: seq<u8>)
    requires |mem| == REGS_SIZE && |bytes| <= Width(f)
    ensures Store(mem, f, bytes)[Offset(f)..Offset(f) + |bytes|] == bytes
  {
  }

  lemma StoreElsewhere(mem: seq<u8>, f: Field, bytes: seq<u8>, pos: nat)
    requires |mem| == REGS_SIZE && |bytes| <= Width(f) && pos < REGS_SIZE
    requires !(Offset(f) <= pos < Offset(f) + |bytes|)
    ensures Store(mem, f, bytes)[pos] == mem[pos]
  {
  }

  lemma SplitSlice<T>(s: seq<T>, lo: nat, mid: nat, hi: nat)
    requires lo <= mid <= hi <= |s|
    ensures s[lo..hi] == s[lo..mid] + s[mid..hi]
  {
  }

  lemma SliceAgree(a: seq<u8>, b: seq<u8>, lo: nat, hi: nat)
    requires lo <= hi <= |a| && hi <= |b|
    requires forall pos | lo <= pos < hi :: a[pos] == b[pos]
    ensures a[lo..hi] == b[lo..hi]
  {
  }

  /** Specification of asyncRxCallback from the `k`-th pending assignment
      on, the scratch buffer being read from `index`: the assignments are
      served in order, each taking the next `len` bytes, reversed. */
  function ResolveFrom(mem: seq<u8>, opts: seq<RxOpt>, k: nat, src: seq<u8>, index: nat): (r: seq<u8>)
    requires |mem| == REGS_SIZE && OptsFit(opts) && k <= |opts|
    requires index + LenFrom(opts, k) <= |src|
    ensures |r| == REGS_SIZE
    decreases |opts| - k
  {
    if k == |opts| then mem
    else
      var o := opts[k];
      ResolveFrom(Store(mem, o.dest, Reverse(src[index..index + o.len])), opts, k + 1, src, index + o.len)
  }

  /** Every pending assignment served, from the start of the scratch
      buffer. */
  function Resolve(mem: seq<u8>, opts: seq<RxOpt>, src: seq<u8>): (r: seq<u8>)
    requires |mem| == REGS_SIZE && OptsFit(opts) && TotalLen(opts) <= |src|
    ensures |r| == REGS_SIZE
  {
    ResolveFrom(mem, opts, 0, src, 0)
  }

  /** Bytes no assignment writes keep their values. */
  lemma {:induction false} ResolveFrame(mem: seq<u8>, opts: seq<RxOpt>, k: nat, src: seq<u8>, index: nat, pos: nat)
    requires |mem| == REGS_SIZE && OptsFit(opts) && k <= |opts|
    requires index + LenFrom(opts, k) <= |src|
    requires pos < REGS_SIZE && Untouched(pos, opts, k)
    ensures ResolveFrom(mem, opts, k, src, index)[pos] == mem[pos]
    decreases |opts| - k
  {
    if k < |opts| {
      var o := opts[k];
      var bytes := Reverse(src[index..index + o.len]);
      StoreElsewhere(mem, o.dest, bytes, pos);
      ResolveFrame(Store(mem, o.dest, bytes), opts, k + 1, src, index + o.len, pos);
    }
  }

  /** The `k`-th assignment leaves in the first `len` bytes of its field
      the next `len` bytes of the scratch buffer, reversed: the later
      assignments (targets all distinct) write other fields. */
  lemma ResolveOwn(mem: seq<u8>, opts: seq<RxOpt>, k: nat, src: seq<u8>, index: nat)
    requires |mem| == REGS_SIZE && OptsFit(opts) && DestsDistinct(opts)
    requires k < |opts|
    requires index + LenFrom(opts, k) <= |src|
    ensures index + opts[k].len <= |src|
    ensures Holds(ResolveFrom(mem, opts, k, src, index), opts[k].dest, src, index, opts[k].len)
  {
    var o := opts[k];
    var lo, hi := Offset(o.dest), Offset(o.dest) + o.len;
    var bytes := Reverse(src[index..index + o.len]);
    var m := Store(mem, o.dest, bytes);
    var r := ResolveFrom(m, opts, k + 1, src, index + o.len);
    assert ResolveFrom(mem, opts, k, src, index) == r;
    forall pos | lo <= pos < hi ensures r[pos] == m[pos] {
      OthersMiss(opts, k, pos);
      ResolveFrame(m, opts, k + 1, src, index + o.len, pos);
    }
    SliceAgree(r, m, lo, hi);
    StoreReadsBack(mem, o.dest, bytes);
  }

  /** The `j`-th assignment leaves in the first `len` bytes of its field
      the reversed slice of the scratch buffer that starts at `at`, after
      the bytes of the assignments before it. */
  lemma {:induction false} ResolveWrites(mem: seq<u8>, opts: seq<RxOpt>, k: nat, src: seq<u8>, index: nat, j: nat, at: nat)
    requires |mem| == REGS_SIZE && OptsFit(opts) && DestsDistinct(opts)
    requires k <= j < |opts|
    requires index + LenFrom(opts, k) <= |src|
    requires at == index + Span(opts, k, j)
    ensures at + opts[j].len <= |src|
    ensures Holds(ResolveFrom(mem, opts, k, src, index), opts[j].dest, src, at, opts[j].len)
    decreases j - k, 1
  {
    SpanFits(opts, k, j);
    if k == j {
      ResolveOwn(mem, opts, k, src, index);
    } else {
      ResolveLater(mem, opts, k, src, index, j, at);
    }
  }

  /** The inductive step of ResolveWrites: the `k`-th assignment, served
      first, moves the reading position past its bytes and leaves the
      `j`-th's field to the later ones. */
  lemma {:induction false} ResolveLater(mem: seq<u8>, opts: seq<RxOpt>, k: nat, src: seq<u8>, index: nat, j: nat, at: nat)
    requires |mem| == REGS_SIZE && OptsFit(opts) && DestsDistinct(opts)
    requires k < j < |opts|
    requires index + LenFrom(opts, k) <= |src|
    requires at == index + Span(opts, k, j)
    ensures at + opts[j].len <= |src|
    ensures Holds(ResolveFrom(mem, opts, k, src, index), opts[j].dest, src, at, opts[j].len)
    decreases j - k, 0
  {
    var o := opts[k];
    var m := Store(mem, o.dest, Reverse(src[index..index + o.len]));
    assert ResolveFrom(mem, opts, k, src, index) == ResolveFrom(m, opts, k + 1, src, index + o.len);
    ResolveWrites(m, opts, k + 1, src, index + o.len, j, at);
  }

  /** The bytes of the `j`-th assignment's field above its `len` are left
      as they were. */
  lemma ResolveAbove(mem: seq<u8>, opts: seq<RxOpt>, src: seq<u8>, j: nat)
    requires |mem| == REGS_SIZE && OptsFit(opts) && DestsDistinct(opts)
    requires TotalLen(opts) <= |src|
    requires j < |opts|
    ensures UpperKept(ResolveFrom(mem, opts, 0, src, 0), mem, opts[j].dest, opts[j].len)
  {
    var o := opts[j];
    var r := ResolveFrom(mem, opts, 0, src, 0);
    var mid, hi := Offset(o.dest) + o.len, Offset(o.dest) + Width(o.dest);
    forall pos | mid <= pos < hi ensures r[pos] == mem[pos] {
      AboveUntouched(opts, j, pos);
      ResolveFrame(mem, opts, 0, src, 0, pos);
    }
    SliceAgree(r, mem, mid, hi);
  }

  /** `r` keeps `mem`'s bytes of field `f` above its low `n`. */
  predicate UpperKept(r: seq<u8>, mem: seq<u8>, f: Field, n: nat)
    requires |r| == REGS_SIZE && |mem| == REGS_SIZE && n <= Width(f)
  {
    r[Offset(f) + n..Offset(f) + Width(f)] == mem[Offset(f) + n..Offset(f) + Width(f)]
  }

  /** The number field `f` holds once its low `n` bytes are filled with
      the `n` bytes of `src` from `at`, most significant first, over the
      upper bytes `mem` had. */
  function Assigned(mem: seq<u8>, f: Field, src: seq<u8>, at: nat, n: nat): nat
    requires |mem| == REGS_SIZE && n <= Width(f) && at + n <= |src|
  {
    BigEndian(src[at..at + n]) + Pow256(n) * LittleEndian(mem[Offset(f) + n..Offset(f) + Width(f)])
  }

  /** A field whose low `n` bytes are those of `src` from `at`, reversed,
      and whose other bytes are those of `mem` holds the big-endian number
      they make over `mem`'s upper bytes. */
  lemma FieldFromParts(r: seq<u8>, mem: seq<u8>, f: Field, src: seq<u8>, at: nat, n: nat)
    requires |r| == REGS_SIZE && |mem| == REGS_SIZE && n <= Width(f) && at + n <= |src|
    requires Holds(r, f, src, at, n) && UpperKept(r, mem, f, n)
    ensures FieldOf(r, f) == Assigned(mem, f, src, at, n)
  {
    var lo, mid, hi := Offset(f), Offset(f) + n, Offset(f) + Width(f);
    var piece := src[at..at + n];
    var low, high := Reverse(piece), mem[mid..hi];
    SplitSlice(r, lo, mid, hi);
    LittleEndianAppend(low, high);
    LittleEndianOfReverse(piece);
  }

  /** What the getter of an assigned field returns afterwards: the
      big-endian number read from the scratch buffer in its low `len`
      bytes, with the field's remaining upper bytes as they were. */
  lemma ResolveField(mem: seq<u8>, opts: seq<RxOpt>, src: seq<u8>, j: nat)
    requires |mem| == REGS_SIZE && OptsFit(opts) && DestsDistinct(opts)
    requires TotalLen(opts) <= |src|
    requires j < |opts|
    ensures Span(opts, 0, j) + opts[j].len <= |src|
    ensures FieldOf(Resolve(mem, opts, src), opts[j].dest)
      == Assigned(mem, opts[j].dest, src, Span(opts, 0, j), opts[j].len)
  {
    var at, r := Span(opts, 0, j), Resolve(mem, opts, src);
    ResolveWrites(mem, opts, 0, src, 0, j, at);
    ResolveAbove(mem, opts, src, j);
    assert r == ResolveFrom(mem, opts, 0, src, 0);
    FieldFromParts(r, mem, opts[j].dest, src, at, opts[j].len);
  }

  /** The upper four bytes of a 64-bit field, as a number. */
  lemma UpperHalf(s: seq<u8>)
    requires |s| == 8
    ensures LittleEndian(s) / 0x1_0000_0000 == LittleEndian(s[4..])
  {
    assert s == s[..4] + s[4..];
    LittleEndianAppend(s[..4], s[4..]);
    LittleEndianBound(s[..4]);
    assert Pow256(4) == 0x1_0000_0000;
    var lo, hi := LittleEndian(s[..4]), LittleEndian(s[4..]);
    assert LittleEndian(s) == lo + 0x1_0000_0000 * hi;
  }

  /** The scratch buffer after a receive: every enquiry receives into
      `_pRxBuff` itself, so the flash's bytes land from index 0 and the
      rest of the buffer keeps what it held. */
  function Received(buf: seq<u8>, received: seq<u8>): (r: seq<u8>)
    requires |received| <= |buf|
    ensures |r| == |buf|
  {
    received + buf[|received|..]
  }

  /** The unique id after a unique-id enquiry, made while no other
      assignment was pending, is served: its low four bytes are the four id
      bytes the flash sent (most significant first), and the upper four
      bytes of the 64-bit field are left as they were. */
  lemma UniqueIdResolved(mem: seq<u8>, buf: seq<u8>, received: seq<u8>)
    requires |mem| == REGS_SIZE && |buf| == RX_BUFF_SIZE && |received| == 4
    ensures OptsFit(EnquiryOpts(EnquireUniqueId))
    ensures TotalLen(EnquiryOpts(EnquireUniqueId)) <= |Received(buf, received)|
    ensures FieldOf(Resolve(mem, EnquiryOpts(EnquireUniqueId), Received(buf, received)), UniqueId)
      == BigEndian(received) + 0x1_0000_0000 * (FieldOf(mem, UniqueId) / 0x1_0000_0000)
  {
    var opts, src := EnquiryOpts(EnquireUniqueId), Received(buf, received);
    EnquiryAssignmentsFit(EnquireUniqueId);
    ResolveField(mem, opts, src, 0);
    assert src[0..4] == received;
    UpperHalf(mem[4..12]);
    assert mem[4..12][4..] == mem[8..12];
    assert Pow256(4) == 0x1_0000_0000;
  }

  lemma BigEndianShort(s: seq<u8>)
    ensures |s| == 1 ==> BigEndian(s) == s[0]
    ensures |s| == 2 ==> BigEndian(s) == 0x100 * (s[0] as int) + s[1] as int
  {
    if |s| == 2 {
      assert s[..1][..0] == [];
    }
    if |s| == 1 {
      assert s[..0] == [];
    }
  }

  /** The JEDEC enquiry, made while no other assignment was pending and
      then served, leaves the first byte the flash sent as the manufacturer
      id and the next two, most significant first, as the 16-bit device
      id. */
  lemma JedecIdResolved(mem: seq<u8>, buf: seq<u8>, received: seq<u8>)
    requires |mem| == REGS_SIZE && |buf| == RX_BUFF_SIZE && |received| == 3
    ensures OptsFit(EnquiryOpts(EnquireJedecId))
    ensures TotalLen(EnquiryOpts(EnquireJedecId)) <= |Received(buf, received)|
    ensures var r := Resolve(mem, EnquiryOpts(EnquireJedecId), Received(buf, received));
      FieldOf(r, ManufacturerId) == received[0] &&
      FieldOf(r, DeviceId16) == 0x100 * (received[1] as int) + received[2] as int
  {
    var opts, src := EnquiryOpts(EnquireJedecId), Received(buf, received);
    EnquiryAssignmentsFit(EnquireJedecId);
    ResolveField(mem, opts, src, 0);
    BigEndianShort(src[0..1]);
    assert mem[1..1] == [];
    ResolveField(mem, opts, src, 1);
    assert Span(opts, 0, 1) == 1;
    BigEndianShort(src[1..3]);
    assert mem[3..3] == [];
  }

  /** Two enquiries queued before one callback are misread: each receive
      overwrites the buffer from index 0, but the callback reads the k-th
      assignment after the bytes of the earlier ones. After an SR1 enquiry
      and then a JEDEC enquiry, SR1 gets the manufacturer id, the
      manufacturer id gets the device id's high byte, and the device id is
      built from its low byte and a stale byte of the buffer. */
  lemma QueuedEnquiriesMisread(mem: seq<u8>, buf: seq<u8>, status: u8, jedec: seq<u8>)
    requires |mem| == REGS_SIZE && |buf| == RX_BUFF_SIZE && |jedec| == 3
    ensures var opts := [RxOpt(StatusReg1, 1)] + EnquiryOpts(EnquireJedecId);
      OptsFit(opts) && TotalLen(opts) <= RX_BUFF_SIZE
    ensures var r := Resolve(mem, [RxOpt(StatusReg1, 1)] + EnquiryOpts(EnquireJedecId),
                             Received(Received(buf, [status]), jedec));
      FieldOf(r, StatusReg1) == jedec[0] && FieldOf(r, ManufacturerId) == jedec[1] &&
      FieldOf(r, DeviceId16) == 0x100 * (jedec[2] as int) + buf[3] as int
  {
    var opts := [RxOpt(StatusReg1, 1)] + EnquiryOpts(EnquireJedecId);
    var src := Received(Received(buf, [status]), jedec);
    assert opts == [RxOpt(StatusReg1, 1), RxOpt(ManufacturerId, 1), RxOpt(DeviceId16, 2)];
    assert LenFrom(opts, 3) == 0 && LenFrom(opts, 2) == 2 && LenFrom(opts, 1) == 3;
    assert src[..4] == jedec + [buf[3]];
    ResolveField(mem, opts, src, 0);
    BigEndianShort(src[0..1]);
    ResolveField(mem, opts, src, 1);
    assert Span(opts, 0, 1) == 1;
    BigEndianShort(src[1..2]);
    ResolveField(mem, opts, src, 2);
    assert Span(opts, 0, 2) == 2;
    BigEndianShort(src[2..4]);
  }

  // ---------------------------------------------------------------------
  // Transactions, phase by phase

  /** An address or alternate-byte phase: `bytes` bytes of `value` on the
      lines of `mode`. */
  datatype Phase = NoPhase | Phase(value: u32, bytes: u16, mode: CommMode)

  /** A data phase of `count` bytes on the lines of `mode`. */
  datatype DataPhase = NoData | DataPhase(count: u16, mode: CommMode)

  /** The descriptor of a transaction described phase by phase: the opcode
      as one byte on one line, the optional address and alternate-byte
      phases, `dummy` cycles and the optional data phase, each in the HAL's
      encoding; an absent phase leaves its fields zero. */
  function PhaseCmd(op: Inst, address: Phase, alternate: Phase, dummy: u16, data: DataPhase): Descriptor
  {
    Descriptor(
      instruction := Opcode(op), instructionMode := INSTRUCTION_1_LINE, instructionSize := 0,
      address := if address.Phase? then address.value else 0,
      addressMode := if address.Phase? then Lines(address.mode) * 0x100 else 0,
      addressSize := if address.Phase? then SizeField(address.bytes, 0x1000) else 0,
      alternateBytes := if alternate.Phase? then alternate.value else 0,
      alternateBytesMode := if alternate.Phase? then Lines(alternate.mode) * 0x1_0000 else 0,
      alternateBytesSize := if alternate.Phase? then SizeField(alternate.bytes, 0x10_0000) else 0,
      dummyCycles := dummy,
      dataMode := if data.DataPhase? then Lines(data.mode) * 0x100_0000 else 0,
      nbData := if data.DataPhase? then data.count else 0)
  }

  // ---------------------------------------------------------------------
  // The element lists the operations build

  /** Operations made of the instruction alone. */
  datatype SimpleCommand =
    | WriteEnable | WriteEnableForVolatileSr | WriteDisable
    | ChipErase | EraseOrProgramSuspend | EraseOrProgramResume
    | PowerDown | PowerOn | GlobalLock | GlobalUnlock | ResetEnable | Reset

  function SimpleCommandInst(c: SimpleCommand): Inst
  {
    match c
    case WriteEnable => WRITE_ENABLE
    case WriteEnableForVolatileSr => WRITE_ENABLE_FOR_SR
    case WriteDisable => WRITE_DISABLE
    case ChipErase => CHIP_ERASE
    case EraseOrProgramSuspend => ERASE_PROGRAM_SUSPEND
    case EraseOrProgramResume => ERASE_PROGRAM_RESUME
    case PowerDown => POWER_DOWN
    case PowerOn => RELEASE_POWER_DOWN
    case GlobalLock => GLOBAL_BLOCK_SECTOR_LOCK
    case GlobalUnlock => GLOBAL_BLOCK_SECTOR_UNLOCK
    case ResetEnable => ENABLE_RESET
    case Reset => RESET_DEVICE
  }

  /** Operations made of the instruction and a 3-byte single-line address. */
  datatype AddressCommand =
    | SectorErase | BlockErase32KB | BlockErase64KB
    | LockBlockOrSector | UnlockBlockOrSector

  function AddressCommandInst(c: AddressCommand): Inst
  {
    match c
    case SectorErase => SECTOR_ERASE
    case BlockErase32KB => BLOCK_ERASE_32KB
    case BlockErase64KB => BLOCK_ERASE_64KB
    case LockBlockOrSector => INDIVIDUAL_BLOCK_SECTOR_LOCK
    case UnlockBlockOrSector => INDIVIDUAL_BLOCK_SECTOR_UNLOCK
  }

  function InstOnly(op: Inst): seq<Element>
  {
    [InstElement(Instruction, op)]
  }

  function WithAddress(op: Inst, address: u32): seq<Element>
  {
    [InstElement(Instruction, op), ValueElement(Address, address, 3, StandardSpi)]
  }

  /** Instruction, single-line 3-byte address, then data: page program,
      quad input page program, security-register program and read. */
  function AddressData(op: Inst, address: u32, pData: Ptr, len: u16, mode: CommMode): seq<Element>
  {
    [InstElement(Instruction, op), ValueElement(Address, address, 3, StandardSpi),
     DataElement(Data, pData, len, mode)]
  }

  /** Instruction then one data byte: status-register read and write, and
      the busy poll. */
  function RegisterAccess(op: Inst, pData: Ptr): seq<Element>
  {
    [InstElement(Instruction, op), DataElement(Data, pData, 1, StandardSpi)]
  }

  /** The six read instructions. */
  datatype ReadVariant =
    | ReadData | FastReadData | FastReadDualOutput | FastReadQuadOutput
    | FastReadDualIO | FastReadQuadIO

  function ReadInst(v: ReadVariant): Inst
  {
    match v
    case ReadData => READ_DATA
    case FastReadData => FAST_READ
    case FastReadDualOutput => FAST_READ_DUAL_OUTPUT
    case FastReadQuadOutput => FAST_READ_QUAD_OUTPUT
    case FastReadDualIO => FAST_READ_DUAL_IO
    case FastReadQuadIO => FAST_READ_QUAD_IO
  }

  /** The lines of the address phase of each read. */
  function ReadAddressMode(v: ReadVariant): CommMode
  {
    match v
    case FastReadDualIO => Dspi
    case FastReadQuadIO => Qspi
    case _ => StandardSpi
  }

  /** The lines of the data phase of each read. */
  function ReadDataMode(v: ReadVariant): CommMode
  {
    match v
    case ReadData => StandardSpi
    case FastReadData => StandardSpi
    case FastReadDualOutput => Dspi
    case FastReadQuadOutput => Qspi
    case FastReadDualIO => Dspi
    case FastReadQuadIO => Qspi
  }

  /** The dummy cycles of each read. */
  function ReadDummy(v: ReadVariant): u16
  {
    match v
    case ReadData => 0
    case FastReadDualIO => 4
    case FastReadQuadIO => 4
    case _ => 8
  }

  /** readData sends instruction, address, data; the fast reads add their
      dummy cycles after the data element. */
  function ReadRequest(v: ReadVariant, address: u32, pData: Ptr, len: u16): seq<Element>
  {
    var inst := InstElement(Instruction, ReadInst(v));
    var addr := ValueElement(Address, address, 3, ReadAddressMode(v));
    var data := DataElement(Data, pData, len, ReadDataMode(v));
    if v == ReadData then [inst, addr, data]
    else [inst, addr, data, DummyElement(DummyCycle, ReadDummy(v))]
  }

  function ReadCmd(v: ReadVariant, address: u32, len: u16): Descriptor
  {
    PhaseCmd(ReadInst(v), Phase(address, 3, ReadAddressMode(v)), NoPhase, ReadDummy(v),
             DataPhase(len, ReadDataMode(v)))
  }

  /** The two page programs. */
  datatype ProgramVariant = PageProgram | QuadInputPageProgram

  function ProgramInst(v: ProgramVariant): Inst
  {
    if v == PageProgram then PAGE_PROGRAM else QUAD_INPUT_PAGE_PROGRAM
  }

  function ProgramDataMode(v: ProgramVariant): CommMode
  {
    if v == PageProgram then StandardSpi else Qspi
  }

  /** The seven ID enquiries that queue assignments. */
  datatype Enquiry =
    | EnquireJedecId | EnquireDeviceId | EnquireUniqueId
    | EnquireManDevId | EnquireManDevIdDualIO | EnquireManDevIdQuadIO
    | EnquireSfdp

  /** The element list of each enquiry, in the order the driver lists it. */
  function EnquiryRequest(q: Enquiry): seq<Element>
  {
    match q
    case EnquireJedecId =>
      [InstElement(Instruction, READ_JEDEC_ID), DataElement(Data, RxScratch, 3, StandardSpi)]
    case EnquireDeviceId =>
      [InstElement(Instruction, DEVICE_ID), DummyElement(DummyCycle, 3 * 8),
       DataElement(Data, RxScratch, 1, StandardSpi)]
    case EnquireUniqueId =>
      [InstElement(Instruction, READ_UNIQUE_ID), DummyElement(DummyCycle, 3 * 8),
       DataElement(Data, RxScratch, 4, StandardSpi), ValueElement(AlternateByte, 0, 1, StandardSpi)]
    case EnquireManDevId =>
      [InstElement(Instruction, READ_MANUFACTURER_DEVICE_ID), DataElement(Data, RxScratch, 2, StandardSpi),
       ValueElement(Address, 0, 3, StandardSpi)]
    case EnquireManDevIdDualIO =>
      [InstElement(Instruction, READ_MANUFACTURER_DEVICE_ID_DUAL_IO), DataElement(Data, RxScratch, 4, Dspi),
       ValueElement(Address, 0, 3, Dspi), DummyElement(DummyCycle, 4)]
    case EnquireManDevIdQuadIO =>
      [InstElement(Instruction, READ_MANUFACTURER_DEVICE_ID_QUAD_IO), DataElement(Data, RxScratch, 6, Qspi),
       ValueElement(Address, 0, 3, Qspi), DummyElement(DummyCycle, 6)]
    case EnquireSfdp =>
      [InstElement(Instruction, READ_SFDP_REGISTER), DataElement(Data, RxScratch, 2, StandardSpi),
       ValueElement(Address, 0, 3, StandardSpi), DummyElement(DummyCycle, 8)]
  }

  /** Each enquiry's phases. */
  function EnquiryCmd(q: Enquiry): Descriptor
  {
    match q
    case EnquireJedecId =>
      PhaseCmd(READ_JEDEC_ID, NoPhase, NoPhase, 0, DataPhase(3, StandardSpi))
    case EnquireDeviceId =>
      PhaseCmd(DEVICE_ID, NoPhase, NoPhase, 24, DataPhase(1, StandardSpi))
    case EnquireUniqueId =>
      PhaseCmd(READ_UNIQUE_ID, NoPhase, Phase(0, 1, StandardSpi), 24, DataPhase(4, StandardSpi))
    case EnquireManDevId =>
      PhaseCmd(READ_MANUFACTURER_DEVICE_ID, Phase(0, 3, StandardSpi), NoPhase, 0, DataPhase(2, StandardSpi))
    case EnquireManDevIdDualIO =>
      PhaseCmd(READ_MANUFACTURER_DEVICE_ID_DUAL_IO, Phase(0, 3, Dspi), NoPhase, 4, DataPhase(4, Dspi))
    case EnquireManDevIdQuadIO =>
      PhaseCmd(READ_MANUFACTURER_DEVICE_ID_QUAD_IO, Phase(0, 3, Qspi), NoPhase, 6, DataPhase(6, Qspi))
    case EnquireSfdp =>
      PhaseCmd(READ_SFDP_REGISTER, Phase(0, 3, StandardSpi), NoPhase, 8, DataPhase(2, StandardSpi))
  }

  /** The assignments each enquiry queues. */
  function EnquiryOpts(q: Enquiry): seq<RxOpt>
  {
    match q
    case EnquireJedecId => [RxOpt(ManufacturerId, 1), RxOpt(DeviceId16, 2)]
    case EnquireDeviceId => [RxOpt(DeviceId8, 1)]
    case EnquireUniqueId => [RxOpt(UniqueId, 4)]
    case EnquireManDevId => [RxOpt(ManufacturerId, 1), RxOpt(DeviceId8, 1)]
    case EnquireManDevIdDualIO => [RxOpt(ManufacturerId, 1), RxOpt(DeviceId8, 1)]
    case EnquireManDevIdQuadIO => [RxOpt(ManufacturerId, 1), RxOpt(DeviceId8, 1)]
    case EnquireSfdp => [RxOpt(SfdpReg, 2)]
  }

  /** Every enquiry assigns no more bytes than its data phase receives,
      into distinct fields, each within its field. */
  lemma EnquiryAssignmentsFit(q: Enquiry)
    ensures OptsFit(EnquiryOpts(q)) && DestsDistinct(EnquiryOpts(q))
    ensures TotalLen(EnquiryOpts(q)) <= EnquiryCmd(q).nbData <= RX_BUFF_SIZE
  {
    var opts := EnquiryOpts(q);
    assert LenFrom(opts, |opts|) == 0;
    if |opts| == 2 {
      assert LenFrom(opts, 1) == opts[1].len;
    }
  }

  /** The status registers, and the security registers' addresses: select
      bits A15-A12 are 1, 2 or 3. */
  predicate IsStatusRegister(sr: Register)
  {
    sr == Sr1 || sr == Sr2 || sr == Sr3
  }

  function ReadStatusInst(sr: Register): Inst
    requires IsStatusRegister(sr)
  {
    match sr
    case Sr1 => READ_SR1
    case Sr2 => READ_SR2
    case Sr3 => READ_SR3
  }

  function WriteStatusInst(sr: Register): Inst
    requires IsStatusRegister(sr)
  {
    match sr
    case Sr1 => WRITE_SR1
    case Sr2 => WRITE_SR2
    case Sr3 => WRITE_SR3
  }

  function StatusField(sr: Register): Field
    requires IsStatusRegister(sr)
  {
    match sr
    case Sr1 => StatusReg1
    case Sr2 => StatusReg2
    case Sr3 => StatusReg3
  }

  /** The bits the driver ORs into a zero word to select a security
      register (none for a status register). */
  function SecuritySelect(sr: Register): (s: bv32)
    ensures s == match sr
      case Sec1 => 0x1000 case Sec2 => 0x2000 case Sec3 => 0x3000 case _ => 0
  {
    match sr
    case Sec1 => (1 as bv32) << 12
    case Sec2 => (1 as bv32) << 13
    case Sec3 => ((1 as bv32) << 12) | ((1 as bv32) << 13)
    case _ => 0
  }

  /** The address of a security register, or None for a status register. */
  function SecurityAddress(sr: Register): (a: Option<u32>)
    ensures a.None? <==> IsStatusRegister(sr)
    ensures sr == Sec1 ==> a == Some(0x1000)
    ensures sr == Sec2 ==> a == Some(0x2000)
    ensures sr == Sec3 ==> a == Some(0x3000)
  {
    if IsStatusRegister(sr) then None else Some(SecuritySelect(sr) as int)
  }

  /** readSecurityRegister's address: the select bits ORed with the low
      byte of `address`, which is the register's address plus `address`. */
  function SecurityByteAddress(sr: Register, address: u8): (a: bv32)
    requires !IsStatusRegister(sr)
    ensures a == SecuritySelect(sr) + (address as bv8) as bv32
  {
    SecuritySelect(sr) | (((address as bv8) as bv32) & 0xFF)
  }

  /** setBurstWithWrap's alternate byte: bit 4 set disables wrapping; bits
      5 and 6 select the length. */
  function WrapByte(w: WrapLen): (b: u8)
    ensures b == match w
      case WrapNone => 0x10 case Wrap8Bytes => 0x00 case Wrap16Bytes => 0x40
      case Wrap32Bytes => 0x20 case Wrap64Bytes => 0x60
  {
    var bits: (bv8, bv8, bv8) :=
      match w
      case WrapNone => (1, 0, 0)
      case Wrap8Bytes => (0, 0, 0)
      case Wrap16Bytes => (0, 0, 1)
      case Wrap32Bytes => (0, 1, 0)
      case Wrap64Bytes => (0, 1, 1);
    ((bits.0 << 4) | (bits.1 << 5) | (bits.2 << 6)) as int
  }

  /** The wrap length an alternate byte selects according to the table
      documented beside SET_BURST_WITH_WRAP: bit 4 set means no wrap, and
      bits 6:5 = 00, 01, 10, 11 mean 8, 16, 32, 64 bytes. */
  function DocWrapLen(b: u8): (w: WrapLen)
    ensures (w == WrapNone) == (b % 0x20 >= 0x10)
  {
    var bit4, bits65 := (b / 0x10) % 2, (b / 0x20) % 4;
    if bit4 == 1 then WrapNone
    else if bits65 == 0 then Wrap8Bytes
    else if bits65 == 1 then Wrap16Bytes
    else if bits65 == 2 then Wrap32Bytes
    else Wrap64Bytes
  }

  /** Different lengths give different alternate bytes. */
  lemma WrapByteInjective(v: WrapLen, w: WrapLen)
    ensures WrapByte(v) == WrapByte(w) <==> v == w
  {
  }

  /** Read back through the documented table, the byte setBurstWithWrap
      sends selects the requested length for no wrap, 8 and 64 bytes, but 32
      bytes for a 16-byte request and 16 bytes for a 32-byte request. */
  lemma WrapByteAgainstDoc(w: WrapLen)
    ensures DocWrapLen(WrapByte(w)) == match w
      case Wrap16Bytes => Wrap32Bytes
      case Wrap32Bytes => Wrap16Bytes
      case _ => w
  {
  }

  function WrapRequest(byte: u8): seq<Element>
  {
    [InstElement(Instruction, SET_BURST_WITH_WRAP), ValueElement(AlternateByte, byte, 1, Qspi),
     DummyElement(DummyCycle, 6)]
  }

  // ---------------------------------------------------------------------
  // Each element list encodes to the descriptor of its phase table

  lemma InstOnlyConfig(op: Inst)
    ensures Config(InstOnly(op), EmptyCmd, Null)
      == Configured(Success, PhaseCmd(op, NoPhase, NoPhase, 0, NoData), Null)
  {
    assert InstOnly(op)[1..] == [];
  }

  lemma WithAddressConfig(op: Inst, address: u32)
    ensures Config(WithAddress(op, address), EmptyCmd, Null)
      == Configured(Success, PhaseCmd(op, Phase(address, 3, StandardSpi), NoPhase, 0, NoData), Null)
  {
    Fold2(WithAddress(op, address), EmptyCmd, Null);
  }

  lemma AddressDataConfig(op: Inst, address: u32, pData: Ptr, len: u16, mode: CommMode)
    ensures Config(AddressData(op, address, pData, len, mode), EmptyCmd, Null)
      == Configured(Success, PhaseCmd(op, Phase(address, 3, StandardSpi), NoPhase, 0, DataPhase(len, mode)), pData)
  {
    Fold3(AddressData(op, address, pData, len, mode), EmptyCmd, Null);
  }

  lemma RegisterAccessConfig(op: Inst, pData: Ptr)
    ensures Config(RegisterAccess(op, pData), EmptyCmd, Null)
      == Configured(Success, PhaseCmd(op, NoPhase, NoPhase, 0, DataPhase(1, StandardSpi)), pData)
  {
    Fold2(RegisterAccess(op, pData), EmptyCmd, Null);
  }

  /** The data pointer after one element of the fold. */
  function NextPtr(e: Element, p: Ptr): Ptr
  {
    if e.typ == Data then e.pData else p
  }

  /** One element that is not NONE, then the rest. */
  lemma Fold1(m: seq<Element>, cmd: Descriptor, p: Ptr)
    requires m != [] && m[0].typ != TypeNone
    ensures Config(m, cmd, p) == Config(m[1..], Apply(cmd, m[0]), NextPtr(m[0], p))
  {
  }

  /** Two elements, neither of them NONE, folded one at a time. */
  lemma Fold2(m: seq<Element>, cmd: Descriptor, p: Ptr)
    requires |m| == 2 && m[0].typ != TypeNone && m[1].typ != TypeNone
    ensures Config(m, cmd, p) == Configured(Success,
      Apply(Apply(cmd, m[0]), m[1]), NextPtr(m[1], NextPtr(m[0], p)))
  {
    var c1, p1 := Apply(cmd, m[0]), NextPtr(m[0], p);
    Fold1(m, cmd, p);
    Fold1(m[1..], c1, p1);
    assert m[1..][1..] == [];
  }

  /** Three elements, none of them NONE, folded one at a time. */
  lemma Fold3(m: seq<Element>, cmd: Descriptor, p: Ptr)
    requires |m| == 3 && m[0].typ != TypeNone && m[1].typ != TypeNone && m[2].typ != TypeNone
    ensures Config(m, cmd, p) == Configured(Success,
      Apply(Apply(Apply(cmd, m[0]), m[1]), m[2]), NextPtr(m[2], NextPtr(m[1], NextPtr(m[0], p))))
  {
    Fold1(m, cmd, p);
    Fold2(m[1..], Apply(cmd, m[0]), NextPtr(m[0], p));
  }

  /** Four elements, none of them NONE, folded one at a time. */
  lemma Fold4(m: seq<Element>, cmd: Descriptor, p: Ptr)
    requires |m| == 4 && m[0].typ != TypeNone && m[1].typ != TypeNone
    requires m[2].typ != TypeNone && m[3].typ != TypeNone
    ensures Config(m, cmd, p) == Configured(Success,
      Apply(Apply(Apply(Apply(cmd, m[0]), m[1]), m[2]), m[3]),
      NextPtr(m[3], NextPtr(m[2], NextPtr(m[1], NextPtr(m[0], p)))))
  {
    Fold1(m, cmd, p);
    Fold3(m[1..], Apply(cmd, m[0]), NextPtr(m[0], p));
  }

  lemma ReadRequestConfig(v: ReadVariant, address: u32, pData: Ptr, len: u16)
    ensures Config(ReadRequest(v, address, pData, len), EmptyCmd, Null)
      == Configured(Success, ReadCmd(v, address, len), pData)
  {
    var m := ReadRequest(v, address, pData, len);
    if v == ReadData {
      Fold3(m, EmptyCmd, Null);
    } else {
      Fold4(m, EmptyCmd, Null);
    }
  }

  /** The shape shared by the manufacturer/device enquiries over two or
      four lines and the SFDP read: instruction, data, a three-byte zero
      address and dummy cycles, address and data on the same lines. */
  lemma AddressedEnquiryConfig(op: Inst, n: u16, mode: CommMode, dummy: u16)
    requires dummy <= 31
    ensures Config([InstElement(Instruction, op), DataElement(Data, RxScratch, n, mode),
                    ValueElement(Address, 0, 3, mode), DummyElement(DummyCycle, dummy)], EmptyCmd, Null)
      == Configured(Success, PhaseCmd(op, Phase(0, 3, mode), NoPhase, dummy, DataPhase(n, mode)), RxScratch)
  {
    Fold4([InstElement(Instruction, op), DataElement(Data, RxScratch, n, mode),
           ValueElement(Address, 0, 3, mode), DummyElement(DummyCycle, dummy)], EmptyCmd, Null);
  }

  lemma EnquiryConfig(q: Enquiry)
    ensures Config(EnquiryRequest(q), EmptyCmd, Null) == Configured(Success, EnquiryCmd(q), RxScratch)
  {
    var m := EnquiryRequest(q);
    match q
    case EnquireJedecId => Fold2(m, EmptyCmd, Null);
    case EnquireDeviceId => Fold3(m, EmptyCmd, Null);
    case EnquireUniqueId => Fold4(m, EmptyCmd, Null);
    case EnquireManDevId => Fold3(m, EmptyCmd, Null);
    case EnquireManDevIdDualIO => AddressedEnquiryConfig(READ_MANUFACTURER_DEVICE_ID_DUAL_IO, 4, Dspi, 4);
    case EnquireManDevIdQuadIO => AddressedEnquiryConfig(READ_MANUFACTURER_DEVICE_ID_QUAD_IO, 6, Qspi, 6);
    case EnquireSfdp => AddressedEnquiryConfig(READ_SFDP_REGISTER, 2, StandardSpi, 8);
  }

  lemma WrapRequestConfig(byte: u8)
    ensures Config(WrapRequest(byte), EmptyCmd, Null)
      == Configured(Success, PhaseCmd(SET_BURST_WITH_WRAP, NoPhase, Phase(byte, 1, Qspi), 6, NoData), Null)
  {
    Fold3(WrapRequest(byte), EmptyCmd, Null);
  }

  // ---------------------------------------------------------------------
  // The driver object

  /** memcpy_reverse_order: walks `dest` forwards from `at` and `src`
      backwards from its last byte, copying `len` bytes. */
  method MemcpyReverseOrder(dest: array<u8>, at: nat, src: array<u8>, from: nat, len: nat)
    requires dest != src
    requires at + len <= dest.Length && from + len <= src.Length
    modifies dest
    ensures dest[..] == old(dest[..at]) + Reverse(src[from..from + len]) + old(dest[at + len..])
  {
    var d := at;
    var s: int := from + len - 1;
    var n := len;
    while n > 0
      invariant 0 <= n <= len
      invariant d == at + (len - n) && s == from + n - 1
      invariant forall j :: at <= j < d ==> dest[j] == src[from + len - 1 - (j - at)]
      invariant forall j :: 0 <= j < dest.Length && !(at <= j < d) ==> dest[j] == old(dest[j])
    {
      dest[d] := src[s];
      d, s, n := d + 1, s - 1, n - 1;
    }
    ReversedSplice(old(dest[..]), dest[..], at, src[from..from + len]);
  }

  /** A buffer that agrees with `before` outside `[at, at + |piece|)` and
      holds `piece` backwards inside it is `before` with that range replaced
      by `Reverse(piece)`. */
  lemma ReversedSplice(before: seq<u8>, after: seq<u8>, at: nat, piece: seq<u8>)
    requires |before| == |after| && at + |piece| <= |after|
    requires forall j :: at <= j < at + |piece| ==> after[j] == piece[|piece| - 1 - (j - at)]
    requires forall j :: 0 <= j < |after| && !(at <= j < at + |piece|) ==> after[j] == before[j]
    ensures after == before[..at] + Reverse(piece) + before[at + |piece|..]
  {
    var r := Reverse(piece);
    var rhs := before[..at] + r + before[at + |piece|..];
    assert |rhs| == |after|;
    forall j | 0 <= j < |after|
      ensures after[j] == rhs[j]
    {
      if j < at {
      } else if j < at + |piece| {
        assert rhs[j] == r[j - at];
      } else {
      }
    }
  }

  /** W25Qxx: the ID and status fields (as one byte image `regs`), the
      receive scratch buffer, the SPI layer, the communication mode and the
      queue of pending assignments. */
  class W25Qxx {
    const regs: array<u8>
    const rxBuff: array<u8>
    const spi: SpiComm
    var commMode: CommMode
    var rxOpts: seq<RxOpt>

    ghost predicate Valid()
      reads this
    {
      regs.Length == REGS_SIZE && rxBuff.Length == RX_BUFF_SIZE && OptsFit(rxOpts)
    }

    /** A new driver: every field zero, the scratch buffer zeroed, no
        pending assignment, no mode set. */
    constructor ()
      ensures Valid() && fresh(regs) && fresh(rxBuff) && fresh(spi)
      ensures forall f :: FieldOf(regs[..], f) == 0
      ensures forall i :: 0 <= i < RX_BUFF_SIZE ==> rxBuff[i] == 0
      ensures commMode == ModeNone && rxOpts == [] && spi.trace == []
    {
      regs := new u8[REGS_SIZE](_ => 0);
      rxBuff := new u8[RX_BUFF_SIZE](_ => 0);
      spi := new SpiComm();
      commMode := ModeNone;
      rxOpts := [];
      new;
      forall f ensures FieldOf(regs[..], f) == 0 {
        ZeroBytes(regs[..][Offset(f)..Offset(f) + Width(f)]);
      }
    }

    /** The value of an ID or status field (getMID, getDevID16, getDevID8,
        getUniqueID, getSFDP, getSR1-3). */
    function Get(f: Field): (v: nat)
      reads this, regs
      requires Valid()
      ensures v < Pow256(Width(f))
    {
      LittleEndianBound(regs[..][Offset(f)..Offset(f) + Width(f)]);
      FieldOf(regs[..], f)
    }

    function BusyBit(): (b: u8)
      reads this, regs
      requires Valid()
      ensures b == Get(StatusReg1) % 2
    {
      OneByte(regs[..], StatusReg1);
      ((regs[Offset(StatusReg1)] as bv8) & 0x01) as int
    }

    function WelBit(): (b: u8)
      reads this, regs
      requires Valid()
      ensures b == if (Get(StatusReg1) / 2) % 2 == 1 then 2 else 0
    {
      OneByte(regs[..], StatusReg1);
      ((regs[Offset(StatusReg1)] as bv8) & 0x02) as int
    }

    function QeBit(): (b: u8)
      reads this, regs
      requires Valid()
      ensures b == if (Get(StatusReg2) / 2) % 2 == 1 then 2 else 0
    {
      OneByte(regs[..], StatusReg2);
      ((regs[Offset(StatusReg2)] as bv8) & 0x02) as int
    }

    function SusBit(): (b: u8)
      reads this, regs
      requires Valid()
      ensures b == if Get(StatusReg2) >= 0x80 then 0x80 else 0
    {
      OneByte(regs[..], StatusReg2);
      ((regs[Offset(StatusReg2)] as bv8) & 0x80) as int
    }

    function WpsBit(): (b: u8)
      reads this, regs
      requires Valid()
      ensures b == if (Get(StatusReg3) / 4) % 2 == 1 then 4 else 0
    {
      OneByte(regs[..], StatusReg3);
      ((regs[Offset(StatusReg3)] as bv8) & 0x04) as int
    }

    method SetCommMode(mode: CommMode)
      modifies this
      ensures commMode == mode && rxOpts == old(rxOpts)
    {
      commMode := mode;
    }

    /** The operations consisting of one instruction (writeEnable,
        writeEnableForVolatileStatusRegister, writeDisable, chipErase,
        eraseOrProgramSuspend/Resume, powerDown, powerOn, globalLock/Unlock,
        resetEnable, reset): issued as a command without data. */
    method Command(c: SimpleCommand) returns (ret: Err)
      modifies spi
      ensures ret == Success
      ensures spi.trace == old(spi.trace) +
        [Transaction(Outbound(true), PhaseCmd(SimpleCommandInst(c), NoPhase, NoPhase, 0, NoData), Null)]
    {
      InstOnlyConfig(SimpleCommandInst(c));
      ret := spi.Transmit(InstOnly(SimpleCommandInst(c)));
    }

    /** sectorErase, blockErase32KB/64KB, lockBlockOrSector,
        unlockBlockOrSector: the instruction and a 3-byte address, no
        validation. */
    method AddressCommand(c: AddressCommand, address: u32) returns (ret: Err)
      modifies spi
      ensures ret == Success
      ensures spi.trace == old(spi.trace) +
        [Transaction(Outbound(true),
                     PhaseCmd(AddressCommandInst(c), Phase(address, 3, StandardSpi), NoPhase, 0, NoData), Null)]
    {
      WithAddressConfig(AddressCommandInst(c), address);
      ret := spi.Transmit(WithAddress(AddressCommandInst(c), address));
    }

    /** enquireBlockOrSectorLock: a receive with no data phase; `isLocked`
        is never written. */
    method EnquireBlockOrSectorLock(address: u32, isLocked: Ptr) returns (ret: Err)
      modifies spi
      ensures ret == Success
      ensures spi.trace == old(spi.trace) +
        [Transaction(Inbound,
                     PhaseCmd(READ_BLOCK_SECTOR_LOCK, Phase(address, 3, StandardSpi), NoPhase, 0, NoData), Null)]
    {
      WithAddressConfig(READ_BLOCK_SECTOR_LOCK, address);
      ret := spi.Receive(WithAddress(READ_BLOCK_SECTOR_LOCK, address));
    }

    /** The six reads: a null buffer or zero length is INVALID and nothing
        is sent; otherwise the read's phases are received into the caller's
        buffer. */
    method Read(v: ReadVariant, address: u32, pData: Ptr, len: u16) returns (ret: Err)
      modifies spi
      ensures pData == Null || len == 0 ==> ret == Invalid && spi.trace == old(spi.trace)
      ensures pData != Null && len != 0 ==>
        ret == Success && spi.trace == old(spi.trace) + [Transaction(Inbound, ReadCmd(v, address, len), pData)]
    {
      if pData == Null {
        return Invalid;
      }
      if len == 0 {
        return Invalid;
      }
      ReadRequestConfig(v, address, pData, len);
      ret := spi.Receive(ReadRequest(v, address, pData, len));
    }

    /** pageProgram and quadInputPageProgram: the same validation; the data
        goes out on one or four lines. */
    method Program(v: ProgramVariant, address: u32, pData: Ptr, len: u16) returns (ret: Err)
      modifies spi
      ensures pData == Null || len == 0 ==> ret == Invalid && spi.trace == old(spi.trace)
      ensures pData != Null && len != 0 ==>
        ret == Success && spi.trace == old(spi.trace) +
          [Transaction(Outbound(false),
             PhaseCmd(ProgramInst(v), Phase(address, 3, StandardSpi), NoPhase, 0,
                      DataPhase(len, ProgramDataMode(v))), pData)]
    {
      if pData == Null {
        return Invalid;
      }
      if len == 0 {
        return Invalid;
      }
      AddressDataConfig(ProgramInst(v), address, pData, len, ProgramDataMode(v));
      ret := spi.Transmit(AddressData(ProgramInst(v), address, pData, len, ProgramDataMode(v)));
    }

    /** setBurstWithWrap: the wrap byte as a 4-line alternate byte, then 6
        dummy cycles. */
    method SetBurstWithWrap(w: WrapLen) returns (ret: Err)
      modifies spi
      ensures ret == Success
      ensures spi.trace == old(spi.trace) +
        [Transaction(Outbound(true),
                     PhaseCmd(SET_BURST_WITH_WRAP, NoPhase, Phase(WrapByte(w), 1, Qspi), 6, NoData), Null)]
    {
      WrapRequestConfig(WrapByte(w));
      ret := spi.Transmit(WrapRequest(WrapByte(w)));
    }

    /** writeRegister: only SR1-3; the byte is sent from a local copy. */
    method WriteRegister(sr: Register, byte: u8) returns (ret: Err)
      modifies spi
      ensures !IsStatusRegister(sr) ==> ret == Invalid && spi.trace == old(spi.trace)
      ensures IsStatusRegister(sr) ==>
        ret == Success && spi.trace == old(spi.trace) +
          [Transaction(Outbound(false),
             PhaseCmd(WriteStatusInst(sr), NoPhase, NoPhase, 0, DataPhase(1, StandardSpi)), StackByte(byte))]
    {
      if !IsStatusRegister(sr) {
        return Invalid;
      }
      RegisterAccessConfig(WriteStatusInst(sr), StackByte(byte));
      ret := spi.Transmit(RegisterAccess(WriteStatusInst(sr), StackByte(byte)));
    }

    /** The data phase of a receive into the scratch buffer: the flash's
        bytes land at its start and the rest keeps what it held. */
    method ReceiveIntoScratch(received: seq<u8>)
      requires Valid() && |received| <= RX_BUFF_SIZE
      modifies rxBuff
      ensures rxBuff[..] == Received(old(rxBuff[..]), received)
    {
      forall i | 0 <= i < |received| {
        rxBuff[i] := received[i];
      }
      assert rxBuff[..] == Received(old(rxBuff[..]), received);
    }

    /** enquireStatusRegisterAsync: only SR1-3; the byte the flash sends
        is received at the start of the scratch buffer and a one-byte
        assignment to the register queued. */
    method EnquireStatusRegisterAsync(sr: Register, received: seq<u8>) returns (ret: Err)
      requires Valid() && |received| == 1
      modifies this, spi, rxBuff
      ensures Valid() && commMode == old(commMode)
      ensures !IsStatusRegister(sr) ==>
        ret == Invalid && spi.trace == old(spi.trace) && rxOpts == old(rxOpts) &&
        rxBuff[..] == old(rxBuff[..])
      ensures IsStatusRegister(sr) ==>
        ret == Success && rxOpts == old(rxOpts) + [RxOpt(StatusField(sr), 1)] &&
        rxBuff[..] == Received(old(rxBuff[..]), received) &&
        spi.trace == old(spi.trace) +
          [Transaction(Inbound,
             PhaseCmd(ReadStatusInst(sr), NoPhase, NoPhase, 0, DataPhase(1, StandardSpi)), RxScratch)]
    {
      if !IsStatusRegister(sr) {
        return Invalid;
      }
      RegisterAccessConfig(ReadStatusInst(sr), RxScratch);
      ret := spi.Receive(RegisterAccess(ReadStatusInst(sr), RxScratch));
      ReceiveIntoScratch(received);
      rxOpts := rxOpts + [RxOpt(StatusField(sr), 1)];
    }

    /** The ID enquiries: receive the flash's bytes at the start of the
        scratch buffer, then queue the enquiry's assignments whatever the
        receive returned. */
    method EnquireAsync(q: Enquiry, received: seq<u8>) returns (ret: Err)
      requires Valid() && |received| == EnquiryCmd(q).nbData
      modifies this, spi, rxBuff
      ensures Valid() && commMode == old(commMode)
      ensures ret == Success
      ensures spi.trace == old(spi.trace) + [Transaction(Inbound, EnquiryCmd(q), RxScratch)]
      ensures |received| <= RX_BUFF_SIZE && rxBuff[..] == Received(old(rxBuff[..]), received)
      ensures rxOpts == old(rxOpts) + EnquiryOpts(q)
    {
      EnquiryConfig(q);
      ret := spi.Receive(EnquiryRequest(q));
      EnquiryAssignmentsFit(q);
      ReceiveIntoScratch(received);
      rxOpts := rxOpts + EnquiryOpts(q);
    }

    /** eraseSecurityRegister: only SEC1-3. */
    method EraseSecurityRegister(sr: Register) returns (ret: Err)
      modifies spi
      ensures IsStatusRegister(sr) ==> ret == Invalid && spi.trace == old(spi.trace)
      ensures !IsStatusRegister(sr) ==>
        ret == Success && spi.trace == old(spi.trace) +
          [Transaction(Outbound(true),
             PhaseCmd(ERASE_SECURITY_REGISTER, Phase(SecurityAddress(sr).value, 3, StandardSpi),
                      NoPhase, 0, NoData), Null)]
    {
      var a := SecurityAddress(sr);
      if a.None? {
        return Invalid;
      }
      WithAddressConfig(ERASE_SECURITY_REGISTER, a.value);
      ret := spi.Transmit(WithAddress(ERASE_SECURITY_REGISTER, a.value));
    }

    /** programSecurityRegister: the length must be exactly 0xFF and the
        buffer non-null; only SEC1-3. */
    method ProgramSecurityRegister(sr: Register, pData: Ptr, len: u8) returns (ret: Err)
      modifies spi
      ensures len != 0xFF || pData == Null || IsStatusRegister(sr) ==>
        ret == Invalid && spi.trace == old(spi.trace)
      ensures len == 0xFF && pData != Null && !IsStatusRegister(sr) ==>
        ret == Success && spi.trace == old(spi.trace) +
          [Transaction(Outbound(false),
             PhaseCmd(PROGRAM_SECURITY_REGISTER, Phase(SecurityAddress(sr).value, 3, StandardSpi),
                      NoPhase, 0, DataPhase(0xFF, StandardSpi)), pData)]
    {
      if len != 0xFF {
        return Invalid;
      }
      if pData == Null {
        return Invalid;
      }
      var a := SecurityAddress(sr);
      if a.None? {
        return Invalid;
      }
      AddressDataConfig(PROGRAM_SECURITY_REGISTER, a.value, pData, 0xFF, StandardSpi);
      ret := spi.Transmit(AddressData(PROGRAM_SECURITY_REGISTER, a.value, pData, 0xFF, StandardSpi));
    }

    /** readSecurityRegister: only a null check on the buffer (any length,
        zero included); only SEC1-3; the byte offset is ORed into the
        register's address. */
    method ReadSecurityRegister(sr: Register, address: u8, pData: Ptr, len: u8) returns (ret: Err)
      modifies spi
      ensures pData == Null || IsStatusRegister(sr) ==> ret == Invalid && spi.trace == old(spi.trace)
      ensures pData != Null && !IsStatusRegister(sr) ==>
        ret == Success && spi.trace == old(spi.trace) +
          [Transaction(Inbound,
             PhaseCmd(READ_SECURITY_REGISTER, Phase(SecurityByteAddress(sr, address) as int, 3, StandardSpi),
                      NoPhase, 0, DataPhase(len, StandardSpi)), pData)]
    {
      if pData == Null {
        return Invalid;
      }
      if IsStatusRegister(sr) {
        return Invalid;
      }
      var a := SecurityByteAddress(sr, address) as int;
      AddressDataConfig(READ_SECURITY_REGISTER, a, pData, len, StandardSpi);
      ret := spi.Receive(AddressData(READ_SECURITY_REGISTER, a, pData, len, StandardSpi));
    }

    /** asyncWaitForFlag: only FREE is supported; it polls SR1 until the
        busy bit reads 0. */
    method AsyncWaitForFlag(s: DeviceState) returns (ret: Err)
      modifies spi
      ensures s != Free ==> ret == Invalid && spi.trace == old(spi.trace)
      ensures s == Free ==>
        ret == Success && spi.trace == old(spi.trace) +
          [Transaction(Polling(PollConfig(0, 1, 2, true, true)),
             PhaseCmd(READ_SR1, NoPhase, NoPhase, 0, DataPhase(1, StandardSpi)), RxScratch)]
    {
      if s != Free {
        return Invalid;
      }
      RegisterAccessConfig(READ_SR1, RxScratch);
      ret := spi.AutoPolling(RegisterAccess(READ_SR1, RxScratch), 0, 1, 2);
    }

    /** asyncRxCallback: serve the queued assignments in order from the
        scratch buffer, then clear the queue. The running index is a
        `uint8_t`; with at most 128 queued bytes it never wraps. */
    method AsyncRxCallback() returns (ret: Err)
      requires Valid() && TotalLen(rxOpts) <= RX_BUFF_SIZE
      modifies this, regs
      ensures Valid() && commMode == old(commMode)
      ensures ret == Success && rxOpts == []
      ensures regs[..] == Resolve(old(regs[..]), old(rxOpts), rxBuff[..])
    {
      var opts := rxOpts;
      ghost var src := rxBuff[..];
      ghost var goal := Resolve(regs[..], opts, src);
      var index: u8 := 0;
      var i := 0;
      while i < |opts|
        modifies regs
        invariant 0 <= i <= |opts|
        invariant index + LenFrom(opts, i) <= RX_BUFF_SIZE
        invariant ResolveFrom(regs[..], opts, i, src, index) == goal
      {
        var o := opts[i];
        ghost var (before, served, at) := (regs[..], i, index);
        MemcpyReverseOrder(regs, Offset(o.dest), rxBuff, index, o.len);
        index := Narrow8(index + o.len);
        i := i + 1;
        CallbackStep(before, regs[..], opts, served, src, at, i, index);
      }
      rxOpts := [];
      ret := Success;
    }
  }

  /** One round of the callback: copying the next assignment's bytes
      reversed into its field leaves the rest of the resolution unchanged. */
  lemma CallbackStep(before: seq<u8>, after: seq<u8>, opts: seq<RxOpt>, i: nat, src: seq<u8>, index: nat,
                      i': nat, index': nat)
    requires |before| == REGS_SIZE && OptsFit(opts) && i < |opts|
    requires index + LenFrom(opts, i) <= |src|
    requires after == before[..Offset(opts[i].dest)] + Reverse(src[index..index + opts[i].len])
                      + before[Offset(opts[i].dest) + opts[i].len..]
    requires i' == i + 1 && index' == index + opts[i].len
    ensures |after| == REGS_SIZE && index' + LenFrom(opts, i') <= |src|
    ensures ResolveFrom(after, opts, i', src, index') == ResolveFrom(before, opts, i, src, index)
  {
    var o := opts[i];
    assert after == Store(before, o.dest, Reverse(src[index..index + o.len]));
  }

  lemma ZeroBytes(s: seq<u8>)
    requires forall i :: 0 <= i < |s| ==> s[i] == 0
    ensures LittleEndian(s) == 0
  {
  }

  lemma OneByte(mem: seq<u8>, f: Field)
    requires |mem| == REGS_SIZE && Width(f) == 1
    ensures FieldOf(mem, f) == mem[Offset(f)]
  {
    var b := mem[Offset(f)..Offset(f) + Width(f)];
    assert |b| == 1 && b[0] == mem[Offset(f)] && b[1..] == [];
    assert LittleEndian(b) == b[0] + 0x100 * LittleEndian(b[1..]);
  }
}
