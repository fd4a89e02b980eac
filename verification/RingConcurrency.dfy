/** One writing thread and one reading thread on the same ring, interleaved at every load, locked copy and store.

    The locked section is one step because both threads copy under the same lock. */
module RingConcurrency {
  import opened Bytes
  import opened Collections
  import opened Ring

  datatype Writer =
    | WIdle
    | Checked(msg: Message)
    | TailLoaded(msg: Message, pos: nat)
    | Copied(msg: Message, newPos: nat)
    | TailStored(msg: Message)

  datatype Reader =
    | RIdle
    | SizeLoaded(seen: nat)
    | HeadLoaded(seen: nat, pos: nat)
    | Taken(data: Message, newPos: nat)
    | HeadStored(data: Message)

  /** accepted are the messages whose write has returned Ok, delivered those that read has returned. */
  datatype Machine = Machine(
    ring: RingState,
    w: Writer,
    r: Reader,
    accepted: seq<Message>,
    delivered: seq<Message>)

  datatype Step =
    | CheckSpace(msg: Message) | LoadTail | Copy | StoreTail | AddSize
    | LoadSize | LoadHead | Take | StoreHead | SubtractSize

  /** fetch_sub wraps below zero. */
  function Subtract(size: nat, n: nat): nat
    requires n <= 0x1_0000_0000_0000_0000
  {
    if n <= size then size - n else size + 0x1_0000_0000_0000_0000 - n
  }

  function Initial(capacity: nat): Machine {
    Machine(RingState(seq(capacity, _ => 0), 0, 0, 0), WIdle, RIdle, [], [])
  }

  ghost predicate Next(m: Machine, step: Step, m': Machine) {
    var s := m.ring;
    match step
    case CheckSpace(msg) =>
      && m.w.WIdle? && Sendable(msg)
      && m' == if FrameSize(msg) + s.size > s.Capacity() then m else m.(w := Checked(msg))
    case LoadTail =>
      m.w.Checked? && m' == m.(w := TailLoaded(m.w.msg, s.tail))
    case Copy =>
      && m.w.TailLoaded? && s.Capacity() > 0
      && m' == m.(ring := s.(buffer := Put(s.buffer, m.w.pos, Frame(m.w.msg))),
                  w := Copied(m.w.msg, Wrap(m.w.pos, FrameSize(m.w.msg), s.Capacity())))
    case StoreTail =>
      m.w.Copied? && m' == m.(ring := s.(tail := m.w.newPos), w := TailStored(m.w.msg))
    case AddSize =>
      && m.w.TailStored?
      && m' == m.(ring := s.(size := s.size + FrameSize(m.w.msg)), w := WIdle, accepted := m.accepted + [m.w.msg])
    case LoadSize =>
      m.r.RIdle? && m' == if s.size < PREFIX then m else m.(r := SizeLoaded(s.size))
    case LoadHead =>
      m.r.SizeLoaded? && m' == m.(r := HeadLoaded(m.r.seen, s.head))
    case Take =>
      && m.r.HeadLoaded? && s.Capacity() > 0
      && var len := LengthAt(s.buffer, m.r.pos);
         m' == if m.r.seen < PREFIX + len then m.(r := RIdle)
               else m.(r := Taken(Window(s.buffer, m.r.pos + PREFIX, len),
                                  Wrap(m.r.pos, PREFIX + len, s.Capacity())))
    case StoreHead =>
      m.r.Taken? && m' == m.(ring := s.(head := m.r.newPos), r := HeadStored(m.r.data))
    case SubtractSize =>
      && m.r.HeadStored? && FrameSize(m.r.data) <= 0x1_0000_0000_0000_0000
      && m' == m.(ring := s.(size := Subtract(s.size, FrameSize(m.r.data))), r := RIdle,
                  delivered := m.delivered + [m.r.data])
  }

  ghost predicate Run(capacity: nat, ms: seq<Machine>, steps: seq<Step>) {
    && |ms| == |steps| + 1
    && ms[0] == Initial(capacity)
    && forall i :: 0 <= i < |steps| ==> Next(ms[i], steps[i], ms[i + 1])
  }

  // ---------------------------------------------------------------- invariant

  /** The messages whose bytes are in the buffer or have been: the accepted ones and one copied but not yet counted. */
  function Sent(m: Machine): seq<Message> {
    m.accepted + if m.w.Copied? || m.w.TailStored? then [m.w.msg] else []
  }

  /** Absolute positions, counted from the first byte ever written. */
  function Released(m: Machine): nat {
    |Frames(m.delivered)|
  }

  function Published(m: Machine): nat {
    |Frames(m.accepted)|
  }

  /** The next message to deliver is there. */
  predicate Waiting(m: Machine) {
    |m.delivered| < |m.accepted|
  }

  /** What is live: from the released position on, the buffer holds the frames of what was sent and not delivered. */
  ghost predicate LiveInv(m: Machine) {
    && m.delivered == Collections.Take(m.accepted, |m.delivered|)
    && (forall i :: 0 <= i < |Sent(m)| ==> Sendable(Sent(m)[i]))
    && m.ring.size + Released(m) == Published(m)
    && |Frames(Sent(m))| <= Released(m) + m.ring.Capacity()
    && (m.ring.Capacity() > 0 ==>
          Window(m.ring.buffer, Released(m), |Frames(Undelivered(m))|) == Frames(Undelivered(m)))
  }

  function Undelivered(m: Machine): seq<Message> {
    var n := |m.delivered|;
    if n <= |Sent(m)| then Sent(m)[n..] else []
  }

  ghost predicate WriterInv(m: Machine) {
    var c := m.ring.Capacity();
    && (m.w.Checked? || m.w.TailLoaded? ==>
          Sendable(m.w.msg) && Published(m) + FrameSize(m.w.msg) <= Released(m) + c)
    && (c > 0 ==>
          && (m.w.TailLoaded? ==> m.w.pos == Wrap(0, Published(m), c))
          && (m.w.Copied? ==> m.w.newPos == Wrap(0, Published(m) + FrameSize(m.w.msg), c))
          && m.ring.tail == Wrap(0, Published(m) + if m.w.TailStored? then FrameSize(m.w.msg) else 0, c))
  }

  ghost predicate ReaderInv(m: Machine) {
    var c := m.ring.Capacity();
    && (m.r.RIdle? || Waiting(m))
    && (m.r.SizeLoaded? || m.r.HeadLoaded? ==> FrameSize(m.accepted[|m.delivered|]) <= m.r.seen)
    && (m.r.Taken? || m.r.HeadStored? ==> m.r.data == m.accepted[|m.delivered|])
    && (c > 0 ==>
          && (m.r.HeadLoaded? ==> m.r.pos == Wrap(0, Released(m), c))
          && (m.r.Taken? ==> m.r.newPos == Wrap(0, Released(m) + FrameSize(m.r.data), c))
          && m.ring.head == Wrap(0, Released(m) + if m.r.HeadStored? then FrameSize(m.r.data) else 0, c))
  }

  ghost predicate Inv(m: Machine) {
    LiveInv(m) && WriterInv(m) && ReaderInv(m)
  }

  // ---------------------------------------------------------------- steps

  lemma InitialInv(capacity: nat)
    ensures Inv(Initial(capacity))
  {
    hide Wrap;
    var m := Initial(capacity);
    assert Sent(m) == [] && Undelivered(m) == [];
    if capacity > 0 {
      WrapNone(0, capacity);
      assert Window(m.ring.buffer, 0, 0) == [];
    }
  }

  /** Copying bytes in right after the live ones appends them. */
  lemma CopyAppends(buffer: seq<byte>, rel: nat, live: seq<byte>, bytes: seq<byte>, after: seq<byte>)
    requires |buffer| > 0 && |live| + |bytes| <= |buffer|
    requires Window(buffer, rel, |live|) == live
    requires after == Put(buffer, Wrap(0, rel + |live|, |buffer|), bytes)
    ensures |after| == |buffer|
    ensures Window(after, rel, |live|) == live
    ensures Window(after, rel, |live| + |bytes|) == live + bytes
  {
    hide *;
    PutWraps(buffer, 0, rel + |live|, bytes);
    PutExtendsWindow(buffer, rel, |live|, bytes);
  }

  /** Nothing sent is pending, so the bytes counted by size are the live ones. */
  lemma LiveBytes(m: Machine)
    requires LiveInv(m) && Sent(m) == m.accepted
    ensures |Frames(Undelivered(m))| == m.ring.size
    ensures m.delivered + Undelivered(m) == m.accepted
  {
    hide Wrap, Window, Frames;
    assert m.delivered + Undelivered(m) == m.accepted;
    FramesConcat(m.delivered, Undelivered(m));
  }

  lemma CopyKeepsLiveInv(m: Machine, m': Machine)
    requires Inv(m) && Next(m, Copy, m')
    ensures LiveInv(m')
    ensures Window(m'.ring.buffer, Released(m), m.ring.size) == Window(m.ring.buffer, Released(m), m.ring.size)
  {
    hide Wrap, Window, Put, Frame, Frames;
    var msg, live := m.w.msg, Undelivered(m);
    assert Sent(m) == m.accepted;
    LiveBytes(m);
    FramesAppend(m.accepted, msg);
    assert Sent(m') == m.accepted + [msg];
    assert Undelivered(m') == live + [msg];
    var frames, after := Frames(live), m'.ring.buffer;
    CopyAppends(m.ring.buffer, Released(m), frames, Frame(msg), after);
    FramesAppend(live, msg);
  }

  lemma CopyKeepsInv(m: Machine, m': Machine)
    requires Inv(m) && Next(m, Copy, m')
    ensures Inv(m')
  {
    hide Wrap, Window, Put, Frame, Frames, LiveInv;
    CopyKeepsLiveInv(m, m');
    WrapTwice(0, Published(m), FrameSize(m.w.msg), m.ring.Capacity());
  }

  lemma AddSizeKeepsInv(m: Machine, m': Machine)
    requires Inv(m) && Next(m, AddSize, m')
    ensures Inv(m')
  {
    hide Wrap, Window, Put, Frame, Frames;
    FramesAppend(m.accepted, m.w.msg);
    assert Sent(m') == Sent(m);
  }

  /** What the reader finds at the released position is the next message's frame. */
  lemma NextFrame(m: Machine)
    requires LiveInv(m) && Waiting(m) && m.ring.Capacity() > 0
    ensures
      var next, rest := m.accepted[|m.delivered|], Undelivered(m)[1..];
      && Undelivered(m) != [] && Undelivered(m)[0] == next && Sendable(next)
      && |Frames(Undelivered(m))| == FrameSize(next) + |Frames(rest)|
      && Window(m.ring.buffer, Released(m), FrameSize(next)) == Frame(next)
      && Window(m.ring.buffer, Released(m) + FrameSize(next), |Frames(rest)|) == Frames(rest)
  {
    hide Wrap, Window, Put, Frame;
    var next, rest := m.accepted[|m.delivered|], Undelivered(m)[1..];
    assert Undelivered(m)[0] == next == Sent(m)[|m.delivered|];
    WindowSplit(m.ring.buffer, Released(m), FrameSize(next), |Frames(rest)|);
  }

  lemma TakeDelivers(m: Machine, m': Machine)
    requires Inv(m) && Next(m, Step.Take, m')
    ensures m'.r == Taken(m.accepted[|m.delivered|],
                          Wrap(m.r.pos, FrameSize(m.accepted[|m.delivered|]), m.ring.Capacity()))
  {
    hide Wrap, Window, Put, Frame, LengthAt, Frames, LiveInv, WriterInv;
    var next := m.accepted[|m.delivered|];
    NextFrame(m);
    WindowWraps(m.ring.buffer, 0, Released(m), FrameSize(next));
    FrameAt(m.ring.buffer, m.r.pos, next);
  }

  lemma TakeKeepsInv(m: Machine, m': Machine)
    requires Inv(m) && Next(m, Step.Take, m')
    ensures Inv(m')
  {
    hide Wrap, Window, Put, Frame, Frames, LengthAt;
    TakeDelivers(m, m');
    WrapTwice(0, Released(m), FrameSize(m'.r.data), m.ring.Capacity());
  }

  lemma SubtractSizeKeepsInv(m: Machine, m': Machine)
    requires Inv(m) && Next(m, SubtractSize, m')
    ensures Inv(m')
  {
    hide Wrap, Window, Put, Frame, Frames;
    var next := m.r.data;
    FramesAppend(m.delivered, next);
    assert m'.delivered == m.accepted[..|m.delivered| + 1];
    FramesConcat(m'.delivered, m.accepted[|m'.delivered|..]);
    assert m'.delivered + m.accepted[|m'.delivered|..] == m.accepted;
    assert Undelivered(m') == Undelivered(m)[1..];
    if m.ring.Capacity() > 0 {
      NextFrame(m);
    }
  }

  /** The byte count is below a length prefix exactly when nothing is waiting. */
  lemma SizeTellsWaiting(m: Machine)
    requires LiveInv(m)
    ensures m.ring.size < PREFIX <==> !Waiting(m)
    ensures !Waiting(m) <==> m.accepted == m.delivered
    ensures Waiting(m) ==> FrameSize(m.accepted[|m.delivered|]) <= m.ring.size
  {
    hide Wrap, Window;
    var unread := m.accepted[|m.delivered|..];
    FramesConcat(m.delivered, unread);
    assert m.delivered + unread == m.accepted;
    if unread == [] {
      assert m.accepted == m.delivered;
    } else {
      assert unread[0] == m.accepted[|m.delivered|];
    }
  }

  lemma LoadSizeKeepsInv(m: Machine, m': Machine)
    requires Inv(m) && Next(m, LoadSize, m')
    ensures Inv(m')
    ensures m'.r == RIdle <==> m.accepted == m.delivered
  {
    hide Wrap, Window, Put, Frame, Frames;
    SizeTellsWaiting(m);
    assert Sent(m') == Sent(m);
  }

  lemma NextKeepsInv(m: Machine, step: Step, m': Machine)
    requires Inv(m) && Next(m, step, m')
    ensures Inv(m')
  {
    hide Wrap, Window, Put, Frame, Frames, LengthAt;
    match step
    case Copy => CopyKeepsInv(m, m');
    case AddSize => AddSizeKeepsInv(m, m');
    case LoadSize => LoadSizeKeepsInv(m, m');
    case Take => TakeKeepsInv(m, m');
    case SubtractSize => SubtractSizeKeepsInv(m, m');
    case _ =>
      assert Sent(m') == Sent(m);
  }

  lemma {:induction false} RunKeepsInv(capacity: nat, ms: seq<Machine>, steps: seq<Step>, i: nat)
    requires Run(capacity, ms, steps) && i < |ms|
    ensures Inv(ms[i])
  {
    hide Inv;
    if i == 0 {
      InitialInv(capacity);
    } else {
      RunKeepsInv(capacity, ms, steps, i - 1);
      assert Next(ms[i - 1], steps[i - 1], ms[i - 1 + 1]);
      NextKeepsInv(ms[i - 1], steps[i - 1], ms[i]);
    }
  }

  // ---------------------------------------------------------------- in every run

  /** Whatever the interleaving, what has been read is the beginning of what has been written: every accepted message
      is delivered at most once, in order and unchanged, and the byte count never goes wrong. */
  lemma DeliveredIsPrefixOfAccepted(capacity: nat, ms: seq<Machine>, steps: seq<Step>, i: nat)
    requires Run(capacity, ms, steps) && i < |ms|
    ensures ms[i].delivered <= ms[i].accepted
    ensures ms[i].ring.size == |Frames(ms[i].accepted)| - |Frames(ms[i].delivered)| <= ms[i].ring.Capacity()
  {
    hide Wrap, Window, Frames, WriterInv, ReaderInv;
    RunKeepsInv(capacity, ms, steps, i);
    var m := ms[i];
    assert m.delivered == m.accepted[..|m.delivered|];
    FramesConcat(m.accepted, Sent(m)[|m.accepted|..]);
    assert m.accepted + Sent(m)[|m.accepted|..] == Sent(m);
  }

  /** A read finds nothing exactly when everything accepted so far has been delivered, and once it has seen a size, it
      takes the next message whole: the incomplete-message branch is never taken. */
  lemma ReadFindsNothingOnlyWhenCaughtUp(capacity: nat, ms: seq<Machine>, steps: seq<Step>, i: nat)
    requires Run(capacity, ms, steps) && i < |steps|
    ensures steps[i] == LoadSize ==> (ms[i + 1].r == RIdle <==> ms[i].accepted == ms[i].delivered)
    ensures steps[i] == Step.Take ==>
      |ms[i].delivered| < |ms[i].accepted| && ms[i + 1].r.Taken? &&
      ms[i + 1].r.data == ms[i].accepted[|ms[i].delivered|]
  {
    hide Inv;
    RunKeepsInv(capacity, ms, steps, i);
    assert Next(ms[i], steps[i], ms[i + 1]);
    if steps[i] == LoadSize {
      LoadSizeKeepsInv(ms[i], ms[i + 1]);
    } else if steps[i] == Step.Take {
      TakeDelivers(ms[i], ms[i + 1]);
      RunKeepsInv(capacity, ms, steps, i + 1);
      TakenIsWaiting(ms[i + 1]);
    }
  }

  lemma TakenIsWaiting(m: Machine)
    requires Inv(m) && m.r.Taken?
    ensures Waiting(m)
  {
  }

  /** Copying a message in never touches a byte that is accepted and unread. */
  lemma CopyNeverOverwritesUnread(capacity: nat, ms: seq<Machine>, steps: seq<Step>, i: nat)
    requires Run(capacity, ms, steps) && i < |steps| && steps[i] == Copy
    ensures
      var m, m' := ms[i], ms[i + 1];
      && m.ring.Capacity() > 0 && |m'.ring.buffer| == |m.ring.buffer|
      && Window(m'.ring.buffer, Released(m), m.ring.size) == Window(m.ring.buffer, Released(m), m.ring.size)
  {
    hide Inv, Window;
    RunKeepsInv(capacity, ms, steps, i);
    assert Next(ms[i], steps[i], ms[i + 1]);
    CopyKeepsLiveInv(ms[i], ms[i + 1]);
  }

  /** Between calls the ring is the sequential queue of what is accepted and not delivered. */
  lemma QuiescentRingIsQueue(capacity: nat, ms: seq<Machine>, steps: seq<Step>, i: nat)
    requires Run(capacity, ms, steps) && i < |ms| && ms[i].w.WIdle? && ms[i].r.RIdle?
    ensures |ms[i].delivered| <= |ms[i].accepted|
    ensures Represents(ms[i].ring, ms[i].accepted[|ms[i].delivered|..])
  {
    hide Wrap, Window, Frame, Frames;
    RunKeepsInv(capacity, ms, steps, i);
    var m := ms[i];
    DeliveredIsPrefixOfAccepted(capacity, ms, steps, i);
    var q, c := m.accepted[|m.delivered|..], m.ring.Capacity();
    FramesConcat(m.delivered, q);
    assert m.delivered + q == m.accepted;
    assert Undelivered(m) == q;
    if c > 0 {
      WindowWraps(m.ring.buffer, 0, Released(m), |Frames(q)|);
      WrapTwice(0, Released(m), m.ring.size, c);
    }
  }
}
