/** The byte ring buffer: length-prefixed messages in a fixed buffer that wraps around.

    A ring is first treated as raw state, whatever its bytes mean; Represents then says when the bytes are a queue of
    messages, and the two operations are proved to be the queue's. */
module Ring {
  import opened Bytes
  import opened Wrappers

  type Message = seq<byte>

  const PREFIX: nat := 4

  datatype TransportError = MessageTooLarge(size: nat, max: nat)

  datatype RingState = RingState(buffer: seq<byte>, head: nat, tail: nat, size: nat) {
    function Capacity(): nat {
      |buffer|
    }

    predicate WellFormed() {
      && size <= Capacity()
      && (Capacity() > 0 ==> head < Capacity() && tail < Capacity())
    }
  }

  // ---------------------------------------------------------------- bytes on the circle

  /** The n bytes from position pos on, around the circle. */
  function Window(buffer: seq<byte>, pos: nat, n: nat): (r: seq<byte>)
    requires |buffer| > 0
    ensures |r| == n
  {
    hide Wrap;
    seq(n, i requires 0 <= i < n => buffer[Wrap(pos, i, |buffer|)])
  }

  /** The buffer after storing bytes one by one from position pos on, around the circle. */
  function Put(buffer: seq<byte>, pos: nat, bytes: seq<byte>): (r: seq<byte>)
    requires |buffer| > 0
    ensures |r| == |buffer|
  {
    hide Wrap;
    if bytes == [] then buffer
    else
      var n := |bytes| - 1;
      Put(buffer, pos, bytes[..n])[Wrap(pos, n, |buffer|) := bytes[n]]
  }

  lemma {:induction false} PutElsewhere(buffer: seq<byte>, pos: nat, bytes: seq<byte>, at: nat)
    requires |buffer| > 0 && at < |buffer|
    requires forall j :: 0 <= j < |bytes| ==> Wrap(pos, j, |buffer|) != at
    ensures Put(buffer, pos, bytes)[at] == buffer[at]
  {
    hide Wrap;
    if bytes != [] {
      PutElsewhere(buffer, pos, bytes[..|bytes| - 1], at);
    }
  }

  lemma {:induction false} PutHere(buffer: seq<byte>, pos: nat, bytes: seq<byte>, j: nat)
    requires j < |bytes| <= |buffer|
    ensures Put(buffer, pos, bytes)[Wrap(pos, j, |buffer|)] == bytes[j]
  {
    hide Wrap;
    var n := |bytes| - 1;
    if j < n {
      WrapApart(pos, j, n, |buffer|);
      PutHere(buffer, pos, bytes[..n], j);
    }
  }

  /** Bytes put n places after pos, within one round, leave the n bytes before them alone and follow them. */
  lemma PutExtendsWindow(buffer: seq<byte>, pos: nat, n: nat, bytes: seq<byte>)
    requires |buffer| > 0 && n + |bytes| <= |buffer|
    ensures Window(Put(buffer, pos + n, bytes), pos, n + |bytes|) == Window(buffer, pos, n) + bytes
    ensures Window(Put(buffer, pos + n, bytes), pos, n) == Window(buffer, pos, n)
  {
    hide Wrap, Put;
    var c, p := |buffer|, pos + n;
    var after := Put(buffer, p, bytes);
    forall i | 0 <= i < n + |bytes|
      ensures after[Wrap(pos, i, c)] == if i < n then buffer[Wrap(pos, i, c)] else bytes[i - n]
    {
      if i < n {
        forall j | 0 <= j < |bytes|
          ensures Wrap(p, j, c) != Wrap(pos, i, c)
        {
          WrapTwice(pos, n, j, c);
          WrapApart(pos, i, n + j, c);
        }
        PutElsewhere(buffer, p, bytes, Wrap(pos, i, c));
      } else {
        PutHere(buffer, p, bytes, i - n);
        WrapTwice(pos, n, i - n, c);
      }
    }
  }

  /** A window depends on its start only up to full rounds, and so does storing. */
  lemma WindowWraps(buffer: seq<byte>, pos: nat, k: nat, n: nat)
    requires |buffer| > 0
    ensures Window(buffer, Wrap(pos, k, |buffer|), n) == Window(buffer, pos + k, n)
  {
    hide Wrap;
    forall i | 0 <= i < n
      ensures Wrap(Wrap(pos, k, |buffer|), i, |buffer|) == Wrap(pos + k, i, |buffer|)
    {
      WrapTwice(pos, k, i, |buffer|);
    }
  }

  lemma {:induction false} PutWraps(buffer: seq<byte>, pos: nat, k: nat, bytes: seq<byte>)
    requires |buffer| > 0
    ensures Put(buffer, Wrap(pos, k, |buffer|), bytes) == Put(buffer, pos + k, bytes)
  {
    hide Wrap;
    if bytes != [] {
      PutWraps(buffer, pos, k, bytes[..|bytes| - 1]);
      WrapTwice(pos, k, |bytes| - 1, |buffer|);
    }
  }

  lemma {:induction false} PutConcat(buffer: seq<byte>, pos: nat, a: seq<byte>, b: seq<byte>)
    requires |buffer| > 0
    ensures Put(Put(buffer, pos, a), pos + |a|, b) == Put(buffer, pos, a + b)
  {
    hide Wrap;
    if b == [] {
      assert a + b == a;
    } else {
      var n := |b| - 1;
      PutConcat(buffer, pos, a, b[..n]);
      assert (a + b)[..|a| + n] == a + b[..n];
      WrapTwice(pos, |a|, n, |buffer|);
    }
  }

  lemma WindowSplit(buffer: seq<byte>, pos: nat, n: nat, m: nat)
    requires |buffer| > 0
    ensures Window(buffer, pos, n + m) == Window(buffer, pos, n) + Window(buffer, pos + n, m)
    ensures Window(buffer, pos, n + m)[..n] == Window(buffer, pos, n)
    ensures Window(buffer, pos, n + m)[n..] == Window(buffer, pos + n, m)
  {
    hide Wrap;
    var p := pos + n;
    forall i | 0 <= i < m
      ensures Wrap(p, i, |buffer|) == Wrap(pos, n + i, |buffer|)
    {
      WrapTwice(pos, n, i, |buffer|);
    }
  }

  // ---------------------------------------------------------------- frames

  function FrameSize(m: Message): nat {
    PREFIX + |m|
  }

  /** The length as 32 bits, then the bytes. */
  function Frame(m: Message): (r: seq<byte>)
    ensures |r| == FrameSize(m)
  {
    LittleEndian(|m|, PREFIX) + m
  }

  function Frames(q: seq<Message>): seq<byte> {
    if q == [] then [] else Frame(q[0]) + Frames(q[1..])
  }

  lemma {:induction false} FramesConcat(p: seq<Message>, q: seq<Message>)
    ensures Frames(p + q) == Frames(p) + Frames(q)
  {
    if p == [] {
      assert p + q == q;
    } else {
      FramesConcat(p[1..], q);
      assert (p + q)[0] == p[0] && (p + q)[1..] == p[1..] + q;
    }
  }

  lemma FramesAppend(q: seq<Message>, m: Message)
    ensures Frames(q + [m]) == Frames(q) + Frame(m)
  {
    FramesConcat(q, [m]);
    assert [m][1..] == [];
  }

  // ---------------------------------------------------------------- the operations on raw state

  function Written(s: RingState, data: Message): (r: (RingState, Result<(), TransportError>))
    requires s.WellFormed()
    ensures r.0.WellFormed() && r.0.Capacity() == s.Capacity()
  {
    hide Wrap;
    var total := |data| + PREFIX;
    if total > s.Capacity() - s.size then
      (s, Err(MessageTooLarge(total, s.Capacity() - s.size)))
    else
      (RingState(Put(s.buffer, s.tail, Frame(data)), s.head, Wrap(s.tail, total, s.Capacity()), s.size + total), Ok(()))
  }

  /** Where the i-th byte from the tail on is. */
  function Slot(s: RingState, i: nat): nat
    requires s.Capacity() > 0
  {
    (s.tail + i) % s.Capacity()
  }

  /** What an accepted write leaves, byte by byte: from the tail on, around the end, the length's four bytes, lowest first,
      and the message; everything else is as it was. */
  lemma WrittenLayout(s: RingState, data: Message)
    requires s.WellFormed() && 4 + |data| <= s.Capacity() - s.size
    ensures
      var s' := Written(s, data).0;
      && Written(s, data).1.Ok? && s'.Capacity() == s.Capacity() && s'.head == s.head
      && s'.size == s.size + 4 + |data| && s'.tail == Slot(s, 4 + |data|)
      && s'.buffer[Slot(s, 0)] == |data| % 256 && s'.buffer[Slot(s, 1)] == |data| / 256 % 256
      && s'.buffer[Slot(s, 2)] == |data| / 65536 % 256 && s'.buffer[Slot(s, 3)] == |data| / 16777216 % 256
      && (forall i :: 0 <= i < |data| ==> s'.buffer[Slot(s, 4 + i)] == data[i])
      && (forall at :: 0 <= at < s.Capacity() && (forall i :: 0 <= i < 4 + |data| ==> Slot(s, i) != at) ==>
            s'.buffer[at] == s.buffer[at])
  {
    FrameDigits(data);
    PutLayout(s, Frame(data));
    SlotsAreWraps(s);
    hide Put, Frame, Slot;
    assert Written(s, data).0.buffer == Put(s.buffer, s.tail, Frame(data));
    assert forall i :: 0 <= i < |data| ==> Frame(data)[4 + i] == data[i];
  }

  lemma SlotsAreWraps(s: RingState)
    requires s.Capacity() > 0
    ensures forall i: nat :: Slot(s, i) == Wrap(s.tail, i, s.Capacity())
  {
  }

  lemma PutLayout(s: RingState, bytes: seq<byte>)
    requires 0 < s.Capacity() && |bytes| <= s.Capacity()
    ensures
      var after := Put(s.buffer, s.tail, bytes);
      && (forall i :: 0 <= i < |bytes| ==> after[Slot(s, i)] == bytes[i])
      && (forall at :: 0 <= at < s.Capacity() && (forall i :: 0 <= i < |bytes| ==> Slot(s, i) != at) ==>
            after[at] == s.buffer[at])
  {
    SlotsAreWraps(s);
    hide Put, Slot, Wrap;
    forall i | 0 <= i < |bytes|
      ensures Put(s.buffer, s.tail, bytes)[Slot(s, i)] == bytes[i]
    {
      PutHere(s.buffer, s.tail, bytes, i);
    }
    forall at | 0 <= at < s.Capacity() && forall i :: 0 <= i < |bytes| ==> Slot(s, i) != at
      ensures Put(s.buffer, s.tail, bytes)[at] == s.buffer[at]
    {
      assert forall j :: 0 <= j < |bytes| ==> Wrap(s.tail, j, |s.buffer|) == Slot(s, j);
      PutElsewhere(s.buffer, s.tail, bytes, at);
    }
  }

  lemma FrameDigits(data: Message)
    ensures
      var f, n := Frame(data), |data|;
      && f[0] == n % 256 && f[1] == n / 256 % 256 && f[2] == n / 65536 % 256 && f[3] == n / 16777216 % 256
      && f[4..] == data
  {
    PrefixDigits(|data|);
    var p := LittleEndian(|data|, 4);
    hide LittleEndian;
    assert Frame(data) == p + data;
  }

  lemma PrefixDigits(n: nat)
    ensures
      var p := LittleEndian(n, 4);
      p[0] == n % 256 && p[1] == n / 256 % 256 && p[2] == n / 65536 % 256 && p[3] == n / 16777216 % 256
  {
    LittleEndianDigit(n, 4, 0);
    LittleEndianDigit(n, 4, 1);
    LittleEndianDigit(n, 4, 2);
    LittleEndianDigit(n, 4, 3);
    assert Pow256(2) == 65536 && Pow256(3) == 16777216;
  }

  /** The length field of the frame that starts at pos. */
  function LengthAt(buffer: seq<byte>, pos: nat): nat
    requires |buffer| > 0
  {
    FromLittleEndian(Window(buffer, pos, PREFIX))
  }

  function Consumed(s: RingState): (r: (RingState, Option<Message>))
    requires s.WellFormed()
    ensures r.0.WellFormed() && r.0.Capacity() == s.Capacity()
  {
    hide Wrap;
    if s.size < PREFIX then (s, None)
    else
      var len := LengthAt(s.buffer, s.head);
      if s.size < PREFIX + len then (s, None)
      else
        var data := Window(s.buffer, s.head + PREFIX, len);
        (s.(head := Wrap(s.head, PREFIX + len, s.Capacity()), size := s.size - (PREFIX + len)), Some(data))
  }

  // ---------------------------------------------------------------- the queue a ring holds

  /** A length a 32-bit prefix can carry. */
  predicate Sendable(m: Message) {
    |m| < 0x1_0000_0000
  }

  /** The ring's live bytes are the frames of q, and the tail is where they end. */
  ghost predicate Represents(s: RingState, q: seq<Message>) {
    && s.WellFormed()
    && (forall i :: 0 <= i < |q| ==> Sendable(q[i]))
    && s.size == |Frames(q)|
    && (s.Capacity() > 0 ==>
          && s.tail == Wrap(s.head, s.size, s.Capacity())
          && Window(s.buffer, s.head, s.size) == Frames(q))
  }

  lemma {:induction false} FramesAtLeast(q: seq<Message>)
    ensures |Frames(q)| >= PREFIX * |q|
  {
    if q != [] {
      FramesAtLeast(q[1..]);
    }
  }

  /** A frame read back gives its message, whatever follows it. */
  lemma FrameAt(buffer: seq<byte>, pos: nat, m: Message)
    requires |buffer| > 0 && Sendable(m)
    requires Window(buffer, pos, PREFIX + |m|) == Frame(m)
    ensures LengthAt(buffer, pos) == |m|
    ensures Window(buffer, pos + PREFIX, |m|) == m
  {
    hide Window, LengthAt, Frame;
    FrameLength(buffer, pos, m);
  }

  /** write is the queue's enqueue: accepted exactly when the frame fits in what is free, refused without any change. */
  lemma WriteEnqueues(s: RingState, q: seq<Message>, data: Message)
    requires Represents(s, q) && Sendable(data)
    ensures
      var (s', r) := Written(s, data);
      && (r.Ok? <==> |Frames(q)| + PREFIX + |data| <= s.Capacity())
      && (r.Ok? ==> Represents(s', q + [data]))
      && (r.Err? ==> s' == s && r.error == MessageTooLarge(|data| + PREFIX, s.Capacity() - |Frames(q)|))
  {
    hide Wrap, Window, Put, Frame, Frames;
    var (s', r) := Written(s, data);
    if r.Ok? {
      var c, total := s.Capacity(), |data| + PREFIX;
      FramesAppend(q, data);
      PutWraps(s.buffer, s.head, s.size, Frame(data));
      PutExtendsWindow(s.buffer, s.head, s.size, Frame(data));
      WrapTwice(s.head, s.size, total, c);
    }
  }

  /** read is the queue's dequeue: nothing exactly when the queue is empty, else its first message. */
  lemma ReadDequeues(s: RingState, q: seq<Message>)
    requires Represents(s, q)
    ensures
      var (s', r) := Consumed(s);
      && (q == [] ==> r == None && s' == s)
      && (q != [] ==> r == Some(q[0]) && Represents(s', q[1..]))
  {
    hide Wrap, Window, Frame, LengthAt;
    if q != [] {
      var m, rest := q[0], Frames(q[1..]);
      var n := PREFIX + |m|;
      assert s.size == n + |rest|;
      WindowSplit(s.buffer, s.head, n, |rest|);
      FrameAt(s.buffer, s.head, m);
      WindowWraps(s.buffer, s.head, n, |rest|);
      WrapTwice(s.head, n, |rest|, s.Capacity());
    }
  }

  // ---------------------------------------------------------------- any sequence of calls

  datatype Call = Write(data: Message) | Read

  datatype Reply = Accepted | Refused(error: TransportError) | Got(data: Message) | Empty

  function RingReplies(s: RingState, calls: seq<Call>): seq<Reply>
    requires s.WellFormed()
    decreases |calls|
  {
    if calls == [] then []
    else match calls[0]
      case Write(data) =>
        var (s', r) := Written(s, data);
        [if r.Ok? then Accepted else Refused(r.error)] + RingReplies(s', calls[1..])
      case Read =>
        var (s', r) := Consumed(s);
        [if r.Some? then Got(r.value) else Empty] + RingReplies(s', calls[1..])
  }

  /** The reference: a first-in first-out queue that counts four bytes of overhead per message against its capacity. */
  function QueueReplies(capacity: nat, q: seq<Message>, calls: seq<Call>): seq<Reply>
    requires |Frames(q)| <= capacity
    decreases |calls|
  {
    if calls == [] then []
    else match calls[0]
      case Write(data) =>
        FramesAppend(q, data);
        if |Frames(q)| + PREFIX + |data| <= capacity
        then [Accepted] + QueueReplies(capacity, q + [data], calls[1..])
        else [Refused(MessageTooLarge(|data| + PREFIX, capacity - |Frames(q)|))] + QueueReplies(capacity, q, calls[1..])
      case Read =>
        if q == [] then [Empty] + QueueReplies(capacity, q, calls[1..])
        else [Got(q[0])] + QueueReplies(capacity, q[1..], calls[1..])
  }

  lemma RepliesToWrite(s: RingState, q: seq<Message>, data: Message, calls: seq<Call>)
    requires s.WellFormed() && |Frames(q)| <= s.Capacity() && calls != [] && calls[0] == Write(data)
    ensures
      var (s', r) := Written(s, data);
      RingReplies(s, calls) == [if r.Ok? then Accepted else Refused(r.error)] + RingReplies(s', calls[1..])
    ensures |Frames(q)| + PREFIX + |data| <= s.Capacity() ==>
      && |Frames(q + [data])| <= s.Capacity()
      && QueueReplies(s.Capacity(), q, calls) == [Accepted] + QueueReplies(s.Capacity(), q + [data], calls[1..])
    ensures |Frames(q)| + PREFIX + |data| > s.Capacity() ==>
      QueueReplies(s.Capacity(), q, calls)
      == [Refused(MessageTooLarge(|data| + PREFIX, s.Capacity() - |Frames(q)|))]
         + QueueReplies(s.Capacity(), q, calls[1..])
  {
    hide Written, Consumed, Frames, Frame;
    FramesAppend(q, data);
  }

  lemma RepliesToRead(s: RingState, q: seq<Message>, calls: seq<Call>)
    requires s.WellFormed() && |Frames(q)| <= s.Capacity() && calls != [] && calls[0] == Read
    ensures
      var (s', r) := Consumed(s);
      RingReplies(s, calls) == [if r.Some? then Got(r.value) else Empty] + RingReplies(s', calls[1..])
    ensures q == [] ==> QueueReplies(s.Capacity(), q, calls) == [Empty] + QueueReplies(s.Capacity(), q, calls[1..])
    ensures q != [] ==>
      && |Frames(q[1..])| <= s.Capacity()
      && QueueReplies(s.Capacity(), q, calls) == [Got(q[0])] + QueueReplies(s.Capacity(), q[1..], calls[1..])
  {
    hide Written, Consumed;
  }

  /** Over every sequence of calls the ring answers as the queue does. */
  lemma {:induction false} RingRefinesQueue(s: RingState, q: seq<Message>, calls: seq<Call>)
    requires Represents(s, q)
    requires forall i :: 0 <= i < |calls| && calls[i].Write? ==> Sendable(calls[i].data)
    ensures RingReplies(s, calls) == QueueReplies(s.Capacity(), q, calls)
    decreases |calls|
  {
    assert s.WellFormed() && s.size == |Frames(q)| <= s.Capacity() by {
      RepresentedSize(s, q);
    }
    if calls != [] {
      hide Represents, Written, Consumed, RingReplies, QueueReplies, Frames;
      match calls[0]
      case Write(data) =>
        WriteEnqueues(s, q, data);
        RepliesToWrite(s, q, data, calls);
        var (s', r) := Written(s, data);
        RingRefinesQueue(s', if r.Ok? then q + [data] else q, calls[1..]);
      case Read =>
        ReadDequeues(s, q);
        RepliesToRead(s, q, calls);
        RingRefinesQueue(Consumed(s).0, if q == [] then q else q[1..], calls[1..]);
    }
  }

  lemma RepresentedSize(s: RingState, q: seq<Message>)
    requires Represents(s, q)
    ensures s.WellFormed() && s.size == |Frames(q)|
  {
  }

  /** The 32-bit prefix is the one limit: written to an empty ring with room for it, a message comes back exactly when
      its length fits the prefix. */
  lemma MessageComesBackExactlyWhen(s: RingState, m: Message)
    requires s.WellFormed() && s.size == 0 && s.tail == s.head && PREFIX + |m| <= s.Capacity()
    ensures Consumed(Written(s, m).0).1 == Some(m) <==> Sendable(m)
  {
    hide Wrap, Window, Put, Frame, LengthAt;
    var (s', _) := Written(s, m);
    PutExtendsWindow(s.buffer, s.head, 0, Frame(m));
    FrameLength(s'.buffer, s.head, m);
  }

  /** The length field is the message's length modulo 2^32. */
  lemma FrameLength(buffer: seq<byte>, pos: nat, m: Message)
    requires |buffer| > 0 && Window(buffer, pos, PREFIX + |m|) == Frame(m)
    ensures LengthAt(buffer, pos) == |m| % 0x1_0000_0000
    ensures Window(buffer, pos + PREFIX, |m|) == m
  {
    hide Wrap, Window;
    WindowSplit(buffer, pos, PREFIX, |m|);
    Pow256Values();
    LittleEndianTruncates(|m|, PREFIX);
  }

  // ---------------------------------------------------------------- the buffer itself

  class RingBuffer {
    const capacity: nat
    const buffer: array<byte>
    var head: nat
    var tail: nat
    var size: nat

    ghost function State(): RingState
      reads this, buffer
    {
      RingState(buffer[..], head, tail, size)
    }

    ghost predicate Valid()
      reads this, buffer
    {
      buffer.Length == capacity && State().WellFormed()
    }

    constructor (capacity: nat)
      ensures Valid() && fresh(buffer) && this.capacity == capacity
      ensures Represents(State(), [])
    {
      this.capacity := capacity;
      buffer := new byte[capacity](_ => 0);
      head, tail, size := 0, 0, 0;
    }

    method Write(data: Message) returns (r: Result<(), TransportError>)
      requires Valid()
      modifies this, buffer
      ensures Valid()
      ensures (State(), r) == Written(old(State()), data)
    {
      hide Wrap;
      var totalLen := |data| + PREFIX;
      if totalLen > capacity - size {
        return Err(MessageTooLarge(totalLen, capacity - size));
      }
      var lenBytes := LittleEndian(|data|, PREFIX);
      var dataPos := Store(lenBytes, tail);
      PutWraps(buffer[..], tail, PREFIX, data);
      var writePos := Store(data, dataPos);
      PutConcat(old(buffer[..]), tail, lenBytes, data);
      WrapTwice(tail, PREFIX, |data|, capacity);
      tail := writePos;
      size := size + totalLen;
      r := Ok(());
    }

    method Store(bytes: seq<byte>, from: nat) returns (writePos: nat)
      requires Valid() && from < capacity
      modifies buffer
      ensures buffer[..] == Put(old(buffer[..]), from, bytes)
      ensures writePos == Wrap(from, |bytes|, capacity)
    {
      hide Wrap;
      writePos := from;
      WrapNone(from, capacity);
      for i := 0 to |bytes|
        invariant writePos == Wrap(from, i, capacity)
        invariant buffer[..] == Put(old(buffer[..]), from, bytes[..i])
      {
        assert bytes[..i + 1][..i] == bytes[..i];
        buffer[writePos] := bytes[i];
        WrapTwice(from, i, 1, capacity);
        writePos := Wrap(writePos, 1, capacity);
      }
      assert bytes[..|bytes|] == bytes;
    }

    method Read() returns (r: Option<Message>)
      requires Valid()
      modifies this
      ensures Valid()
      ensures (State(), r) == Consumed(old(State()))
    {
      hide Wrap;
      var currentSize := size;
      if currentSize < PREFIX {
        return None;
      }
      var readPos := head;
      var lenBytes: seq<byte> := [];
      WrapNone(head, capacity);
      while |lenBytes| < PREFIX
        modifies {}
        invariant |lenBytes| <= PREFIX
        invariant readPos == Wrap(head, |lenBytes|, capacity)
        invariant lenBytes == Window(buffer[..], head, |lenBytes|)
      {
        WrapTwice(head, |lenBytes|, 1, capacity);
        lenBytes := lenBytes + [buffer[readPos]];
        readPos := Wrap(readPos, 1, capacity);
      }
      var dataLen := FromLittleEndian(lenBytes);
      if currentSize < PREFIX + dataLen {
        return None;
      }
      var data: Message := [];
      while |data| < dataLen
        modifies {}
        invariant |data| <= dataLen
        invariant readPos == Wrap(head, PREFIX + |data|, capacity)
        invariant data == Window(buffer[..], head + PREFIX, |data|)
      {
        WrapTwice(head, PREFIX, |data|, capacity);
        WrapTwice(head, PREFIX + |data|, 1, capacity);
        data := data + [buffer[readPos]];
        readPos := Wrap(readPos, 1, capacity);
      }
      head := readPos;
      size := size - (PREFIX + dataLen);
      r := Some(data);
    }

    method AvailableSpace() returns (n: nat)
      requires Valid()
      ensures forall q :: Represents(State(), q) ==> n == capacity - |Frames(q)|
    {
      n := capacity - size;
    }

    method IsEmpty() returns (b: bool)
      requires Valid()
      ensures forall q :: Represents(State(), q) ==> (b <==> q == [])
    {
      b := size == 0;
      forall q | Represents(State(), q)
        ensures b <==> q == []
      {
        FramesAtLeast(q);
      }
    }
  }
}
