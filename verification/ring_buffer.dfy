/** The byte ring of Applications/Utils (ringBuffer.h, ringBuffer.cpp): a
    caller-supplied storage array used circularly, the `head`, `tail` and
    `size` counters every operation updates in place, and the FreeRTOS queue
    of message descriptors that tells a reader where each pushed message
    starts. Mutex takes are parameters; the receive semaphore that readers
    give and writers wait on is a boolean field. */
module Ring {
  import opened Types

  /** BufferMsg: where a pushed message starts in the storage and how many
      bytes it has, both as `uint16_t`. */
  datatype BufferMsg = BufferMsg(offset: u16, len: u16)

  // Modular arithmetic on a ring of n positions.

  /** Below twice the modulus, `%` subtracts it at most once. */
  lemma ModWrap(a: int, n: int)
    requires 0 < n && 0 <= a < 2 * n
    ensures a % n == if a < n then a else a - n
  {}

  lemma MulAtLeast(n: int, d: int)
    requires n > 0 && d >= 1
    ensures n * d >= n
  {}

  /** A remainder is determined by any quotient-remainder split. */
  lemma ModUnique(x: int, q: int, r: int, n: int)
    requires n > 0 && 0 <= r < n && x == n * q + r
    ensures x % n == r
  {
    var d := q - x / n;
    assert n * d == x % n - r;
    if d >= 1 {
      MulAtLeast(n, d);
    } else if d <= -1 {
      MulAtLeast(n, -d);
    }
  }

  /** Reducing before an addition does not change the remainder. */
  lemma AddMod(a: int, b: int, n: int)
    requires n > 0
    ensures (a % n + b) % n == (a + b) % n
  {
    ModUnique(a + b, a / n + (a % n + b) / n, (a % n + b) % n, n);
  }

  // The storage as a ring.

  /** How many steps forward position `p` lies from position `h` on a ring
      of `n` positions. */
  function Ahead(h: nat, p: nat, n: nat): nat
    requires h < n && p < n
  {
    if h <= p then p - h else p + n - h
  }

  /** The storage after writing `data` from position `h` onwards, wrapping
      round at the end. */
  function RingWrite(b: seq<u8>, h: nat, data: seq<u8>): (r: seq<u8>)
    requires h < |b| && |data| <= |b|
    ensures |r| == |b|
  {
    seq(|b|, p requires 0 <= p < |b| =>
      if Ahead(h, p, |b|) < |data| then data[Ahead(h, p, |b|)] else b[p])
  }

  /** `len` bytes of the storage read from position `t` onwards, wrapping
      round at the end. */
  function RingRead(b: seq<u8>, t: nat, len: nat): (r: seq<u8>)
    requires |b| > 0
    ensures |r| == len
  {
    seq(len, i requires 0 <= i < len => b[(t + i) % |b|])
  }

  /** One more byte written is one more position overwritten: the byte at
      `h + |d|` round the ring. */
  lemma RingWriteStep(b: seq<u8>, h: nat, d: seq<u8>, x: u8)
    requires h < |b| && |d| < |b|
    ensures RingWrite(b, h, d + [x]) == RingWrite(b, h, d)[(h + |d|) % |b| := x]
  {
    ModWrap(h + |d|, |b|);
  }

  /** Reading back from where a write started gives the written bytes. */
  lemma {:induction false} RingWriteReadsBack(b: seq<u8>, h: nat, d: seq<u8>)
    requires h < |b| && |d| <= |b|
    ensures RingRead(RingWrite(b, h, d), h, |d|) == d
  {
    forall i | 0 <= i < |d|
      ensures RingRead(RingWrite(b, h, d), h, |d|)[i] == d[i]
    {
      ModWrap(h + i, |b|);
    }
  }

  /** The position the `i`-th byte written from position `h` lands on. */
  function Slot(h: nat, i: nat, n: nat): nat
    requires n > 0
  {
    (h + i) % n
  }

  /** Only the `|d|` positions from `h` onwards change. */
  lemma {:induction false} RingWriteOnlyWindow(b: seq<u8>, h: nat, d: seq<u8>, p: nat)
    requires h < |b| && |d| <= |b| && p < |b|
    ensures RingWrite(b, h, d)[p] != b[p] ==> exists i :: 0 <= i < |d| && p == Slot(h, i, |b|)
  {
    var a := Ahead(h, p, |b|);
    if a < |d| {
      ModWrap(h + a, |b|);
      assert p == Slot(h, a, |b|);
    }
  }

  /** Writing at the end of the unread bytes appends to them and leaves them
      intact, as long as everything fits in the storage. */
  lemma {:induction false} PushAppendsUnread(b: seq<u8>, t: nat, s: nat, d: seq<u8>)
    requires t < |b| && s + |d| <= |b|
    ensures RingRead(RingWrite(b, (t + s) % |b|, d), t, s + |d|) == RingRead(b, t, s) + d
  {
    var n := |b|;
    ModWrap(t + s, n);
    forall j | 0 <= j < s + |d|
      ensures RingRead(RingWrite(b, (t + s) % n, d), t, s + |d|)[j] == (RingRead(b, t, s) + d)[j]
    {
      ModWrap(t + j, n);
    }
  }

  /** Consuming `k` bytes at the tail leaves the rest of the unread bytes. */
  lemma {:induction false} DropFront(b: seq<u8>, t: nat, s: nat, k: nat)
    requires t < |b| && k <= s <= |b|
    ensures RingRead(b, (t + k) % |b|, s - k) == RingRead(b, t, s)[k..]
  {
    var n := |b|;
    ModWrap(t + k, n);
    forall i | k <= i < s
      ensures RingRead(b, (t + k) % n, s - k)[i - k] == RingRead(b, t, s)[i]
    {
      ModWrap((t + k) % n + (i - k), n);
      ModWrap(t + i, n);
    }
  }

/** The head arithmetic of a push of `len` bytes. */
  lemma HeadAfterPush(n: int, t: int, s: int, h: int, len: int, h': int, s': int)
    requires n > 0 && h == (t + s) % n && h' == (h + len) % n && s' == s + len
    ensures h' == (t + s') % n
  {
    AddMod(t + s, len, n);
    assert t + s + len == t + s';
  }

  /** The tail arithmetic of consuming `k` bytes. */
  lemma HeadAfterConsume(n: int, t: int, s: int, h: int, k: int, t': int, s': int)
    requires n > 0 && h == (t + s) % n && t' == (t + k) % n && s' == s - k
    ensures h == (t' + s') % n
  {
    AddMod(t + k, s - k, n);
    assert t + k + (s - k) == t + s;
  }

  /** Push keeps the head at the end of the unread bytes and appends its
      bytes to them (`h'`, `s'` and `b'` are the new head, size and
      storage). */
  lemma {:induction false} PushKeepsConsistent(b: seq<u8>, n: nat, t: nat, s: nat, h: nat, d: seq<u8>,
                                               b': seq<u8>, h': nat, s': nat)
    requires |b| == n && t < n && s + |d| <= n && h == (t + s) % n
    requires b' == RingWrite(b, h, d) && h' == (h + |d|) % n && s' == s + |d|
    ensures h' == (t + s') % n
    ensures RingRead(b', t, s') == RingRead(b, t, s) + d
  {
    HeadAfterPush(n, t, s, h, |d|, h', s');
    PushAppendsUnread(b, t, s, d);
  }

  /** Consuming `k` of the unread bytes keeps the head at the end of the
      rest (`t'` and `s'` are the new tail and size). */
  lemma {:induction false} ConsumeKeepsConsistent(b: seq<u8>, n: nat, t: nat, s: nat, h: nat, k: nat,
                                                  t': nat, s': nat)
    requires |b| == n && t < n && k <= s <= n && h == (t + s) % n
    requires t' == (t + k) % n && s' == s - k
    ensures h == (t' + s') % n
    ensures RingRead(b, t', s') == RingRead(b, t, s)[k..]
  {
    HeadAfterConsume(n, t, s, h, k, t', s');
    DropFront(b, t, s, k);
  }

  // What pop reads.

  /** The byte pop copies for storage index `at`, which it never wraps:
      the stored byte inside the storage, and beyond its end whatever the
      memory there holds. */
  function Fetch(b: seq<u8>, at: nat, beyond: nat -> u8): u8
  {
    if at < |b| then b[at] else beyond(at)
  }

  /** The `len` bytes pop copies for a message starting at `offset`. */
  function PopRead(b: seq<u8>, offset: nat, len: nat, beyond: nat -> u8): (r: seq<u8>)
    ensures |r| == len
  {
    seq<u8>(len, i requires 0 <= i < len => Fetch(b, offset + i, beyond))
  }

  /** A message that ends before the end of the storage is read back by pop
      exactly as push wrote it. */
  lemma {:induction false} PopReadsBackPushed(b: seq<u8>, h: nat, d: seq<u8>, beyond: nat -> u8)
    requires h < |b| && h + |d| <= |b|
    ensures PopRead(RingWrite(b, h, d), h, |d|, beyond) == d
  {
    forall i | 0 <= i < |d|
      ensures PopRead(RingWrite(b, h, d), h, |d|, beyond)[i] == d[i]
    {
      assert Ahead(h, h + i, |b|) == i;
      assert RingWrite(b, h, d)[h + i] == d[i];
      assert PopRead(RingWrite(b, h, d), h, |d|, beyond)[i] == Fetch(RingWrite(b, h, d), h + i, beyond);
    }
  }

  /** A message that runs past the end of the storage is not: push put its
      byte number `|b| - h` at position 0, but pop reads that byte from the
      memory just past the storage. */
  lemma {:induction false} PopMissesWrapped(b: seq<u8>, h: nat, d: seq<u8>, beyond: nat -> u8)
    requires h < |b| && |d| <= |b| && h + |d| > |b|
    ensures RingWrite(b, h, d)[0] == d[|b| - h]
    ensures PopRead(RingWrite(b, h, d), h, |d|, beyond)[|b| - h] == beyond(|b|)
  {
    assert Ahead(h, 0, |b|) == |b| - h;
    assert PopRead(RingWrite(b, h, d), h, |d|, beyond)[|b| - h] == Fetch(RingWrite(b, h, d), |b|, beyond);
  }

  class RingBuffer {
    /** The caller's storage and its size. */
    const buffer: array<u8>
    const capacity: nat
    /** How many messages the FreeRTOS queue can hold. */
    const queueSlots: nat
    var head: nat
    var tail: nat
    var size: u32
    /** The messages sent to the queue and not yet received, oldest first. */
    var queue: seq<BufferMsg>
    /** Whether the receive semaphore has been given and not taken since. */
    var received: bool

    /** The counters are positions in the storage. */
    ghost predicate Valid()
      reads this
    {
      buffer.Length == capacity && 0 < capacity < 0x1_0000_0000 &&
      head < capacity && tail < capacity && |queue| <= queueSlots
    }

    /** The unread bytes run from the tail to the head. */
    ghost predicate Consistent()
      reads this
    {
      Valid() && size <= capacity && head == (tail + size) % capacity
    }

    /** The bytes written and not yet consumed, oldest first. */
    ghost function Unread(): (r: seq<u8>)
      requires Valid()
      reads this, buffer
      ensures |r| == size
    {
      RingRead(buffer[..], tail, size)
    }

    /** The constructor: the counters start at 0, the queue given is empty
        and the receive semaphore is created not given. */
    constructor (buffer: array<u8>, capacity: nat, queueSlots: nat)
      requires buffer.Length == capacity && 0 < capacity < 0x1_0000_0000
      ensures this.buffer == buffer && this.capacity == capacity && this.queueSlots == queueSlots
      ensures head == 0 && tail == 0 && size == 0 && queue == [] && !received
      ensures Consistent()
    {
      this.buffer := buffer;
      this.capacity := capacity;
      this.queueSlots := queueSlots;
      head, tail, size := 0, 0, 0;
      queue := [];
      received := false;
    }

    /** The write loop of push and pushFromISR: each byte goes to `head`,
        which then steps forward round the ring, and `size` grows by one. */
    method WriteAtHead(data: seq<u8>)
      requires Valid() && size + |data| <= capacity
      modifies this`head, this`size, buffer
      ensures Valid()
      ensures buffer[..] == RingWrite(old(buffer[..]), old(head), data)
      ensures head == (old(head) + |data|) % capacity && size == old(size) + |data|
      ensures old(Consistent()) ==> Consistent() && Unread() == old(Unread()) + data
    {
      ghost var b0, h0, s0, u0, c0 := buffer[..], head, size, Unread(), Consistent();
      ModWrap(h0, capacity);
      for i := 0 to |data|
        invariant head == (h0 + i) % capacity && size == old(size) + i
        invariant buffer[..] == RingWrite(b0, h0, data[..i])
      {
        ModWrap(h0 + i, capacity);
        ModWrap(h0 + i + 1, capacity);
        ModWrap(head + 1, capacity);
        RingWriteStep(b0, h0, data[..i], data[i]);
        assert data[..i + 1] == data[..i] + [data[i]];
        buffer[head] := data[i];
        head := (head + 1) % capacity;
        size := size + 1;
      }
      assert data[..|data|] == data;
      if c0 {
        PushKeepsConsistent(b0, capacity, tail, s0, h0, data, buffer[..], head, size);
      }
    }

    /** push: with the mutex held and room for the bytes and for one more
        message, write the bytes at the head and queue a message recording
        where they start. Without room the wait loop, which nothing else can
        end here, fails on the receive semaphore or on the timeout: nothing
        is written and a pending receive signal has been consumed. */
    method Push(data: seq<u8>, mutexTaken: bool) returns (ok: bool)
      requires Valid() && size + |data| < 0x1_0000_0000
      modifies this`head, this`size, this`queue, this`received, buffer
      ensures Valid() && tail == old(tail)
      ensures ok <==> mutexTaken && old(size) + |data| <= capacity && |old(queue)| < queueSlots
      ensures ok ==> buffer[..] == RingWrite(old(buffer[..]), old(head), data)
      ensures ok ==> head == (old(head) + |data|) % capacity && size == old(size) + |data|
      ensures ok ==> queue == old(queue) + [BufferMsg(Narrow16(old(head)), Narrow16(|data|))]
      ensures ok ==> received == old(received)
      ensures !ok ==> buffer[..] == old(buffer[..]) && head == old(head) && size == old(size) && queue == old(queue)
      ensures !ok ==> received == (old(received) && !mutexTaken)
      ensures ok && old(Consistent()) ==> Consistent() && Unread() == old(Unread()) + data
    {
      if !mutexTaken {
        return false;
      }
      if size + |data| > capacity || |queue| >= queueSlots {
        received := false;
        return false;
      }
      var offset := head;
      WriteAtHead(data);
      queue := queue + [BufferMsg(Narrow16(offset), Narrow16(|data|))];
      return true;
    }

    /** pushFromISR: the same writes without waiting. The message queued
        records `junk`, whatever the never-initialised offset variable
        holds, instead of the old head; when the queue is full the bytes
        stay written and the call fails. */
    method PushFromIsr(data: seq<u8>, mutexTaken: bool, junk: u16) returns (ok: bool)
      requires Valid() && size + |data| < 0x1_0000_0000
      modifies this`head, this`size, this`queue, buffer
      ensures Valid() && tail == old(tail) && received == old(received)
      ensures ok <==> mutexTaken && old(size) + |data| <= capacity && |old(queue)| < queueSlots
      ensures mutexTaken && old(size) + |data| <= capacity ==>
        buffer[..] == RingWrite(old(buffer[..]), old(head), data) &&
        head == (old(head) + |data|) % capacity && size == old(size) + |data|
      ensures !(mutexTaken && old(size) + |data| <= capacity) ==>
        buffer[..] == old(buffer[..]) && head == old(head) && size == old(size)
      ensures queue == if ok then old(queue) + [BufferMsg(junk, Narrow16(|data|))] else old(queue)
      ensures mutexTaken && old(size) + |data| <= capacity && old(Consistent()) ==>
        Consistent() && Unread() == old(Unread()) + data
    {
      if !mutexTaken {
        return false;
      }
      if size + |data| > capacity {
        return false;
      }
      WriteAtHead(data);
      if |queue| >= queueSlots {
        return false;
      }
      queue := queue + [BufferMsg(junk, Narrow16(|data|))];
      return true;
    }

    /** pop: with the mutex held, receive the oldest message and copy its
        bytes out (CopyOut); then signal the writers. */
    method Pop(data: array<u8>, len: u32, mutexTaken: bool, beyond: nat -> u8) returns (ok: bool, lenOut: u32)
      requires Valid() && data != buffer
      requires queue != [] ==> queue[0].len <= data.Length
      modifies this`tail, this`size, this`queue, this`received, data
      ensures Valid() && head == old(head)
      ensures ok <==> mutexTaken && old(queue) != []
      ensures !ok ==> tail == old(tail) && size == old(size) && queue == old(queue)
      ensures !ok ==> received == old(received) && data[..] == old(data[..]) && lenOut == len
      ensures ok ==> queue == old(queue)[1..] && received
      ensures ok ==> data[..old(queue)[0].len] == PopRead(buffer[..], old(queue)[0].offset, old(queue)[0].len, beyond)
      ensures ok ==> data[old(queue)[0].len..] == old(data[..])[old(queue)[0].len..]
      ensures ok ==> tail == (old(tail) + old(queue)[0].len) % capacity
      ensures ok ==> size == Wrap32(old(size) - old(queue)[0].len)
      ensures ok ==> lenOut == if old(queue)[0].len == 0 then len else old(queue)[0].len - 1
      ensures ok && old(Consistent()) && old(queue)[0].len <= old(size) ==>
        Consistent() && Unread() == old(Unread())[old(queue)[0].len..]
    {
      if !mutexTaken || queue == [] {
        return false, len;
      }
      var m := queue[0];
      queue := queue[1..];
      ghost var t0, s0, u0, c0 := tail, size, Unread(), Consistent();
      lenOut := CopyOut(data, m, len, beyond);
      received := true;
      if c0 && m.len <= s0 {
        ConsumeKeepsConsistent(buffer[..], capacity, t0, s0, head, m.len, tail, size);
      }
      return true, lenOut;
    }

    /** The copy loop of pop: byte `i` of the message comes from storage
        index `offset + i`, never wrapped; each byte advances the tail round
        the ring and decrements the size; `len` ends as the last index
        copied, and keeps its value when the message is empty. */
    method CopyOut(data: array<u8>, m: BufferMsg, len: u32, beyond: nat -> u8) returns (lenOut: u32)
      requires Valid() && data != buffer && m.len <= data.Length
      modifies this`tail, this`size, data
      ensures Valid()
      ensures data[..m.len] == PopRead(buffer[..], m.offset, m.len, beyond)
      ensures data[m.len..] == old(data[..])[m.len..]
      ensures tail == (old(tail) + m.len) % capacity && size == Wrap32(old(size) - m.len)
      ensures lenOut == if m.len == 0 then len else m.len - 1
    {
      lenOut := len;
      ghost var t0, s0, b := tail, size, buffer[..];
      ModWrap(t0, capacity);
      var i: nat := 0;
      while i < m.len
        invariant i <= m.len
        invariant tail < capacity && tail == (t0 + i) % capacity && size == Wrap32(s0 - i)
        invariant forall j :: 0 <= j < i ==> data[j] == Fetch(b, m.offset + j, beyond)
        invariant forall j :: i <= j < data.Length ==> data[j] == old(data[j])
        invariant lenOut == if i == 0 then len else i - 1
      {
        data[i] := if m.offset + i < capacity then buffer[m.offset + i] else beyond(m.offset + i);
        AddMod(t0 + i, 1, capacity);
        AddMod(s0 - i, -1, 0x1_0000_0000);
        tail := (tail + 1) % capacity;
        size := Wrap32(size - 1);
        lenOut := i;
        i := i + 1;
      }
    }

    /** getData: take the byte at the tail and step the tail forward. */
    method GetData() returns (b: u8)
      requires Valid()
      modifies this`tail, this`size
      ensures Valid() && head == old(head) && queue == old(queue)
      ensures b == buffer[old(tail)]
      ensures tail == (old(tail) + 1) % capacity && size == Wrap32(old(size) - 1)
      ensures old(Consistent()) && old(size) > 0 ==>
        Consistent() && b == old(Unread())[0] && Unread() == old(Unread())[1..]
    {
      ghost var t0, s0, c0 := tail, size, Consistent();
      b := buffer[tail];
      tail := (tail + 1) % capacity;
      size := Wrap32(size - 1);
      if c0 && s0 > 0 {
        ModWrap(t0, capacity);
        ConsumeKeepsConsistent(buffer[..], capacity, t0, s0, head, 1, tail, size);
      }
    }

    /** tailIncrease: consume `num` bytes at once and signal the writers. */
    method TailIncrease(num: u16)
      requires Valid()
      modifies this`tail, this`size, this`received
      ensures Valid() && head == old(head) && queue == old(queue) && received
      ensures tail == (old(tail) + num) % capacity && size == Wrap32(old(size) - num)
      ensures old(Consistent()) && num <= old(size) ==>
        Consistent() && Unread() == old(Unread())[num..]
    {
      ghost var t0, s0, c0 := tail, size, Consistent();
      tail := (tail + num) % capacity;
      size := Wrap32(size - num);
      received := true;
      if c0 && num <= s0 {
        ConsumeKeepsConsistent(buffer[..], capacity, t0, s0, head, num, tail, size);
      }
    }

    /** getSize: the size narrowed to `uint16_t`. */
    function GetSize(): (v: u16)
      reads this
      ensures size < 0x1_0000 ==> v == size
      ensures (size - v) % 0x1_0000 == 0
    {
      Narrow16(size)
    }

    /** getCapacity: the capacity narrowed to `uint16_t`. */
    function GetCapacity(): (v: u16)
      ensures capacity < 0x1_0000 ==> v == capacity
      ensures (capacity - v) % 0x1_0000 == 0
    {
      Narrow16(capacity)
    }

    /** getBase: the storage given at construction. */
    function GetBase(): (a: array<u8>)
      ensures a == buffer
    {
      buffer
    }
  }
}
