/** Any number of threads writing any number of messages to one ring, interleaved at every load, locked copy and store.
    Nothing orders them; this is exactly when they get away with it. */
module RingWriters {
  import opened Bytes
  import opened Ring
  import opened Wrappers

  /** What one thread is doing. base is what the position means: that many bytes from the head. */
  datatype Pc =
    | Idle
    | Checked(msg: Message)
    | Loaded(msg: Message, pos: nat, base: nat)
    | Copied(msg: Message, newPos: nat, base: nat)
    | Stored(msg: Message)

  /** tailAt says where the tail stands in bytes from the head; stored are the messages whose writers have stored the tail,
      in that order; late and lateMsg are the last copy; loads counts the loads of the tail; clash is set when one thread
      loads the tail between another one's load and its store. */
  datatype Many = Many(
    ring: RingState,
    w: seq<Pc>,
    tailAt: nat,
    stored: seq<Message>,
    late: nat,
    lateMsg: Option<Message>,
    loads: nat,
    clash: bool)

  /** It is writer i's turn; if it is idle, it begins to write msg. */
  datatype Turn = Turn(i: nat, msg: Message)

  /** Between the load of the tail and its store. */
  predicate Inside(pc: Pc) {
    pc.Loaded? || pc.Copied?
  }

  predicate AnotherInside(w: seq<Pc>, i: nat) {
    exists j :: 0 <= j < |w| && j != i && Inside(w[j])
  }

  /** The subtraction wraps around when more was counted than there is room for. */
  function Free(s: RingState): nat {
    if s.size <= s.Capacity() then s.Capacity() - s.size
    else (s.Capacity() - s.size) % 0x1_0000_0000_0000_0000
  }

  function Advanced(m: Many, turn: Turn): (m': Many)
    requires turn.i < |m.w|
    ensures |m'.w| == |m.w|
  {
    hide Wrap;
    var s, i, c := m.ring, turn.i, m.ring.Capacity();
    match m.w[i]
    case Idle => if FrameSize(turn.msg) > Free(s) then m else m.(w := m.w[i := Checked(turn.msg)])
    case Checked(msg) =>
      m.(w := m.w[i := Loaded(msg, s.tail, m.tailAt)], loads := m.loads + 1, clash := m.clash || AnotherInside(m.w, i))
    case Loaded(msg, pos, base) =>
      if c == 0 then m
      else m.(ring := s.(buffer := Put(s.buffer, pos, Frame(msg))),
              w := m.w[i := Pc.Copied(msg, Wrap(pos, FrameSize(msg), c), base)], late := i, lateMsg := Some(msg))
    case Copied(msg, newPos, base) =>
      m.(ring := s.(tail := newPos), w := m.w[i := Stored(msg)], tailAt := base + FrameSize(msg),
         stored := m.stored + [msg])
    case Stored(msg) => m.(ring := s.(size := s.size + FrameSize(msg)), w := m.w[i := Idle])
  }

  /** Every turn is some writer's, and messages are short enough for their length to fit its field. */
  predicate Turns(schedule: seq<Turn>, n: nat) {
    forall k :: 0 <= k < |schedule| ==> schedule[k].i < n && Sendable(schedule[k].msg)
  }

  function Start(s: RingState, q: seq<Message>, n: nat): Many {
    Many(s, seq(n, _ => Idle), |Frames(q)|, [], 0, None, 0, false)
  }

  /** n writers after a schedule, from a ring that holds q. */
  function Played(s: RingState, q: seq<Message>, n: nat, schedule: seq<Turn>): (m: Many)
    requires Turns(schedule, n)
    ensures |m.w| == n
  {
    if schedule == [] then Start(s, q, n)
    else Advanced(Played(s, q, n, schedule[..|schedule| - 1]), schedule[|schedule| - 1])
  }

  // ---------------------------------------------------------------- sizes

  function Pending(pc: Pc): nat {
    if pc.Stored? then FrameSize(pc.msg) else 0
  }

  /** The frames that are in the ring but not yet counted. */
  function Uncounted(w: seq<Pc>): nat {
    if w == [] then 0 else Uncounted(w[..|w| - 1]) + Pending(w[|w| - 1])
  }

  lemma {:induction false} UncountedUpdate(w: seq<Pc>, i: nat, pc: Pc)
    requires i < |w|
    ensures Uncounted(w[i := pc]) == Uncounted(w) - Pending(w[i]) + Pending(pc)
  {
    var n := |w| - 1;
    if i < n {
      UncountedUpdate(w[..n], i, pc);
      assert w[i := pc][..n] == w[..n][i := pc];
    } else {
      assert w[i := pc][..n] == w[..n];
    }
  }

  lemma {:induction false} NoneUncounted(w: seq<Pc>)
    requires forall i :: 0 <= i < |w| ==> w[i] == Idle
    ensures Uncounted(w) == 0
  {
    if w != [] {
      NoneUncounted(w[..|w| - 1]);
    }
  }

  /** All bytes that were put behind the head. */
  function Sent(m: Many, q: seq<Message>): nat {
    |Frames(q + m.stored)|
  }

  lemma FramesOne(q: seq<Message>, data: Message)
    ensures |Frames(q + [data])| == |Frames(q)| + FrameSize(data)
  {
    FramesAppend(q, data);
  }

  lemma SentMore(q: seq<Message>, stored: seq<Message>, msg: Message)
    ensures |Frames(q + (stored + [msg]))| == |Frames(q + stored)| + FrameSize(msg)
  {
    assert q + (stored + [msg]) == q + stored + [msg];
    FramesOne(q + stored, msg);
  }

  // ---------------------------------------------------------------- what every schedule keeps

  predicate SizeInv(m: Many, s: RingState, q: seq<Message>) {
    && m.ring.head == s.head && m.ring.Capacity() == s.Capacity()
    && m.ring.size + Uncounted(m.w) == Sent(m, q)
    && m.ring.size >= |Frames(q)|
    && (m.ring.size <= s.Capacity() ==>
          forall i :: 0 <= i < |m.w| && !m.w[i].Idle? ==> |Frames(q)| + FrameSize(m.w[i].msg) <= s.Capacity())
    && (forall i :: 0 <= i < |m.w| && !m.w[i].Idle? ==> Sendable(m.w[i].msg))
    && (forall k :: 0 <= k < |m.stored| ==> Sendable(m.stored[k]))
  }

  predicate PositionInv(m: Many, s: RingState)
    requires s.Capacity() > 0
  {
    && m.ring.tail == Wrap(s.head, m.tailAt, s.Capacity())
    && forall i :: 0 <= i < |m.w| ==>
         && (m.w[i].Loaded? ==> m.w[i].pos == Wrap(s.head, m.w[i].base, s.Capacity()))
         && (m.w[i].Copied? ==>
               m.w[i].newPos == Wrap(s.head, m.w[i].base + FrameSize(m.w[i].msg), s.Capacity()))
  }

  /** At least one frame short of all that was sent. */
  predicate Short(at: nat, sent: nat) {
    at + PREFIX <= sent
  }

  predicate TwoInside(w: seq<Pc>) {
    exists i, j :: 0 <= i < j < |w| && Inside(w[i]) && Inside(w[j])
  }

  predicate OneShort(w: seq<Pc>, sent: nat) {
    exists i :: 0 <= i < |w| && Inside(w[i]) && Short(w[i].base, sent)
  }

  predicate AllShort(m: Many, sent: nat) {
    Short(m.tailAt, sent) && forall i :: 0 <= i < |m.w| && Inside(m.w[i]) ==> Short(m.w[i].base, sent)
  }

  /** Without a clash the tail is where all that was sent ends. After one it never is again, once nobody is inside: two
      have loaded the same tail, or one loaded it too early, or everybody's idea of it is short. */
  predicate TailInv(m: Many, q: seq<Message>) {
    var sent := Sent(m, q);
    && m.tailAt <= sent && (forall i :: 0 <= i < |m.w| && Inside(m.w[i]) ==> m.w[i].base <= sent)
    && (if m.stored == [] then m.tailAt == |Frames(q)| else m.tailAt >= PREFIX)
    && (!m.clash ==>
          && m.tailAt == sent && (forall i :: 0 <= i < |m.w| && Inside(m.w[i]) ==> m.w[i].base == sent)
          && !TwoInside(m.w))
    && (m.clash ==> TwoInside(m.w) || OneShort(m.w, sent) || AllShort(m, sent))
  }

  ghost predicate Holds(buffer: seq<byte>, head: nat, q: seq<Message>)
    requires |buffer| > 0
  {
    Window(buffer, head, |Frames(q)|) == Frames(q)
  }

  /** The messages behind the head in order, a copied one that has not moved the tail yet included. */
  function Laid(m: Many): seq<Message> {
    m.stored + if m.late < |m.w| && m.w[m.late].Copied? then [m.w[m.late].msg] else []
  }

  ghost predicate BytesInv(m: Many, s: RingState, q: seq<Message>)
    requires s.Capacity() > 0 && m.ring.Capacity() == s.Capacity()
  {
    && (!m.clash ==> forall i :: 0 <= i < |m.w| && m.w[i].Copied? ==> m.late == i)
    && (!m.clash && |Frames(q + Laid(m))| <= s.Capacity() ==> Holds(m.ring.buffer, s.head, q + Laid(m)))
  }

  ghost predicate ManyInv(m: Many, s: RingState, q: seq<Message>)
    requires s.Capacity() > 0
  {
    SizeInv(m, s, q) && PositionInv(m, s) && TailInv(m, q) && BytesInv(m, s, q)
  }

  lemma StartKeepsInv(s: RingState, q: seq<Message>, n: nat)
    requires Represents(s, q) && s.Capacity() > 0
    ensures ManyInv(Start(s, q, n), s, q)
  {
    hide Wrap, Window, Frames;
    var m := Start(s, q, n);
    NoneUncounted(m.w);
    assert q + m.stored == q && q + Laid(m) == q;
  }

  lemma KeepsSizes(m: Many, s: RingState, q: seq<Message>, turn: Turn)
    requires turn.i < |m.w| && Sendable(turn.msg) && SizeInv(m, s, q)
    ensures SizeInv(Advanced(m, turn), s, q)
  {
    hide Wrap, Put, Frame, Frames, Uncounted, AnotherInside;
    var m' := Advanced(m, turn);
    UncountedUpdate(m.w, turn.i, m'.w[turn.i]);
    assert m'.w == m.w[turn.i := m'.w[turn.i]];
    if m.w[turn.i].Copied? {
      SentMore(q, m.stored, m.w[turn.i].msg);
    }
  }

  lemma KeepsPositions(m: Many, s: RingState, turn: Turn)
    requires turn.i < |m.w| && s.Capacity() > 0 && m.ring.Capacity() == s.Capacity() && PositionInv(m, s)
    ensures PositionInv(Advanced(m, turn), s)
  {
    hide Wrap, Put, Frame, AnotherInside;
    if m.w[turn.i].Loaded? {
      WrapTwice(s.head, m.w[turn.i].base, FrameSize(m.w[turn.i].msg), s.Capacity());
    }
  }

  lemma KeepsTail(m: Many, q: seq<Message>, turn: Turn)
    requires turn.i < |m.w| && TailInv(m, q)
    ensures TailInv(Advanced(m, turn), q)
  {
    var i := turn.i;
    match m.w[i]
    case Checked(msg) => LoadKeepsTail(m, q, turn);
    case Copied(msg, newPos, base) => StoreKeepsTail(m, q, turn);
    case _ =>
      hide Wrap, Put, Frame, Frames;
      SameInside(m, Advanced(m, turn), q);
  }

  /** Steps that change nobody's idea of the tail. */
  lemma SameInside(m: Many, m': Many, q: seq<Message>)
    requires TailInv(m, q) && |m'.w| == |m.w| && m'.tailAt == m.tailAt && m'.stored == m.stored && m'.clash == m.clash
    requires forall i :: 0 <= i < |m.w| ==>
      (Inside(m'.w[i]) <==> Inside(m.w[i])) && (Inside(m'.w[i]) ==> m'.w[i].base == m.w[i].base)
    ensures TailInv(m', q)
  {
    hide Frames;
  }

  lemma LoadKeepsTail(m: Many, q: seq<Message>, turn: Turn)
    requires turn.i < |m.w| && TailInv(m, q) && m.w[turn.i].Checked?
    ensures TailInv(Advanced(m, turn), q)
  {
    hide Wrap, Put, Frame, Frames;
    var i, m', sent := turn.i, Advanced(m, turn), Sent(m, q);
    if AnotherInside(m.w, i) {
      var j :| 0 <= j < |m.w| && j != i && Inside(m.w[j]);
      assert Inside(m'.w[i]) && Inside(m'.w[j]);
      assert TwoInside(m'.w);
    } else if m.clash {
      assert AllShort(m, sent);
    }
  }

  lemma StoreKeepsTail(m: Many, q: seq<Message>, turn: Turn)
    requires turn.i < |m.w| && TailInv(m, q) && m.w[turn.i].Copied?
    ensures TailInv(Advanced(m, turn), q)
  {
    hide Wrap, Put, Frame, Frames;
    var i, m', sent := turn.i, Advanced(m, turn), Sent(m, q);
    var base := m.w[i].base;
    SentMore(q, m.stored, m.w[i].msg);
    var sent' := Sent(m', q);
    assert forall j :: 0 <= j < |m.w| && j != i && Inside(m.w[j]) ==> Inside(m'.w[j]) && Short(m'.w[j].base, sent');
    if m.clash {
      if Short(base, sent) {
        assert AllShort(m', sent');
      } else {
        OthersLag(m, m', i, sent, sent');
      }
    }
  }

  /** When one stores that was not short, another one that was inside is short now, unless all were already. */
  lemma OthersLag(m: Many, m': Many, i: nat, sent: nat, sent': nat)
    requires i < |m.w| && Inside(m.w[i]) && !Short(m.w[i].base, sent)
    requires TwoInside(m.w) || OneShort(m.w, sent) || AllShort(m, sent)
    requires |m'.w| == |m.w|
    requires forall j :: 0 <= j < |m.w| && j != i && Inside(m.w[j]) ==> Inside(m'.w[j]) && Short(m'.w[j].base, sent')
    ensures OneShort(m'.w, sent')
  {
    var j :| 0 <= j < |m.w| && j != i && Inside(m.w[j]);
    assert Inside(m'.w[j]) && Short(m'.w[j].base, sent');
  }

  // ---------------------------------------------------------------- the bytes

  /** A frame put where the tail of q is can be read behind q. */
  lemma PutBehind(buffer: seq<byte>, head: nat, q: seq<Message>, data: Message, pos: nat)
    requires |buffer| > 0 && |Frames(q)| + FrameSize(data) <= |buffer| && Holds(buffer, head, q)
    requires pos == Wrap(head, |Frames(q)|, |buffer|)
    ensures
      var after := Put(buffer, pos, Frame(data));
      Holds(after, head, q + [data]) && Holds(after, head, q)
  {
    hide Wrap, Window, Put, Frame, Frames;
    PutWraps(buffer, head, |Frames(q)|, Frame(data));
    PutExtendsWindow(buffer, head, |Frames(q)|, Frame(data));
    FramesAppend(q, data);
  }

  lemma KeepsBytes(m: Many, s: RingState, q: seq<Message>, turn: Turn)
    requires turn.i < |m.w| && s.Capacity() > 0 && ManyInv(m, s, q)
    ensures BytesInv(Advanced(m, turn), s, q)
  {
    var i, m' := turn.i, Advanced(m, turn);
    match m.w[i]
    case Loaded(msg, pos, base) => CopyKeepsBytes(m, s, q, turn);
    case Copied(msg, newPos, base) => StoreKeepsBytes(m, s, q, turn);
    case _ =>
      hide Wrap, Put, Frame, Frames, Holds, SizeInv, PositionInv, TailInv;
      if !m'.clash {
        assert Laid(m') == Laid(m);
      }
  }

  lemma StoreKeepsBytes(m: Many, s: RingState, q: seq<Message>, turn: Turn)
    requires turn.i < |m.w| && s.Capacity() > 0 && ManyInv(m, s, q) && m.w[turn.i].Copied?
    ensures BytesInv(Advanced(m, turn), s, q)
  {
    hide Wrap, Put, Frame, Frames, Holds, SizeInv, PositionInv, TailInv;
    var m' := Advanced(m, turn);
    if !m.clash {
      assert m.late == turn.i;
      assert Laid(m') == Laid(m);
    }
  }

  lemma CopyKeepsBytes(m: Many, s: RingState, q: seq<Message>, turn: Turn)
    requires turn.i < |m.w| && s.Capacity() > 0 && ManyInv(m, s, q) && m.w[turn.i].Loaded?
    ensures BytesInv(Advanced(m, turn), s, q)
  {
    var i, m' := turn.i, Advanced(m, turn);
    if !m.clash {
      AloneInside(m, q, i);
      hide Wrap, Put, Frame, Frames, Holds, SizeInv, TwoInside, TailInv;
      var msg := m.w[i].msg;
      assert Laid(m) == m.stored && Laid(m') == m.stored + [msg];
      SentMore(q, m.stored, msg);
      if |Frames(q + Laid(m'))| <= s.Capacity() {
        PutBehind(m.ring.buffer, s.head, q + m.stored, msg, m.w[i].pos);
        assert q + m.stored + [msg] == q + Laid(m');
      }
    }
  }

  lemma AloneInside(m: Many, q: seq<Message>, i: nat)
    requires TailInv(m, q) && !m.clash && i < |m.w| && Inside(m.w[i])
    ensures m.w[i].base == |Frames(q + m.stored)|
    ensures forall j :: 0 <= j < |m.w| && j != i ==> !Inside(m.w[j])
  {
    forall j | 0 <= j < |m.w| && j != i
      ensures !Inside(m.w[j])
    {
      assert !(Inside(m.w[if i < j then i else j]) && Inside(m.w[if i < j then j else i]));
    }
  }

  lemma {:induction false} PlayedKeepsInv(s: RingState, q: seq<Message>, n: nat, schedule: seq<Turn>)
    requires Represents(s, q) && s.Capacity() > 0 && Turns(schedule, n)
    ensures ManyInv(Played(s, q, n, schedule), s, q)
  {
    hide SizeInv, PositionInv, TailInv, BytesInv, Advanced, Represents;
    if schedule == [] {
      StartKeepsInv(s, q, n);
    } else {
      var k := |schedule| - 1;
      PlayedKeepsInv(s, q, n, schedule[..k]);
      var m := Played(s, q, n, schedule[..k]);
      assert m.ring.Capacity() == s.Capacity() by {
        SameCapacity(m, s, q);
      }
      KeepsSizes(m, s, q, schedule[k]);
      KeepsPositions(m, s, schedule[k]);
      KeepsTail(m, q, schedule[k]);
      SameCapacity(Advanced(m, schedule[k]), s, q);
      KeepsBytes(m, s, q, schedule[k]);
    }
  }

  lemma SameCapacity(m: Many, s: RingState, q: seq<Message>)
    requires SizeInv(m, s, q)
    ensures m.ring.Capacity() == s.Capacity()
  {
  }

  // ---------------------------------------------------------------- when it goes well

  predicate AllIdle(m: Many) {
    forall i :: 0 <= i < |m.w| ==> m.w[i] == Idle
  }

  ghost predicate IsQueue(s: RingState) {
    exists q :: Represents(s, q)
  }

  /** Whenever no write is under way, the ring is a queue if and only if no thread ever loaded the tail between another
      one's load and store of it, and no more was counted than there is room for; it then holds all accepted messages
      behind what was there, in the order in which the tail was stored. */
  lemma WritersSafeExactlyWhen(s: RingState, q: seq<Message>, n: nat, schedule: seq<Turn>)
    requires Represents(s, q) && Turns(schedule, n) && AllIdle(Played(s, q, n, schedule))
    ensures
      var m := Played(s, q, n, schedule);
      && (IsQueue(m.ring) <==> !m.clash && m.ring.size <= s.Capacity())
      && (IsQueue(m.ring) ==> Represents(m.ring, q + m.stored))
  {
    var m := Played(s, q, n, schedule);
    if s.Capacity() == 0 {
      NothingHappens(s, q, n, schedule);
      assert q + [] == q;
    } else {
      PlayedKeepsInv(s, q, n, schedule);
      NoneUncounted(m.w);
      hide Played, Represents, SizeInv, PositionInv, TailInv, BytesInv, Uncounted;
      SameCapacity(m, s, q);
      if !m.clash && m.ring.size <= s.Capacity() {
        SerialIsQueue(m, s, q);
      } else if r :| Represents(m.ring, r) {
        FitsCapacity(m.ring, r);
        ClashIsNoQueue(m, s, q, r);
      }
    }
  }

  lemma FitsCapacity(s: RingState, r: seq<Message>)
    requires Represents(s, r)
    ensures s.size <= s.Capacity()
  {
  }

  lemma {:induction false} NothingHappens(s: RingState, q: seq<Message>, n: nat, schedule: seq<Turn>)
    requires Represents(s, q) && s.Capacity() == 0 && Turns(schedule, n)
    ensures Played(s, q, n, schedule) == Start(s, q, n)
  {
    hide Represents;
    assert s.size == 0 by {
      FitsCapacity(s, q);
    }
    if schedule != [] {
      NothingHappens(s, q, n, schedule[..|schedule| - 1]);
    }
  }

  lemma SerialIsQueue(m: Many, s: RingState, q: seq<Message>)
    requires s.Capacity() > 0 && ManyInv(m, s, q) && Represents(s, q)
    requires AllIdle(m) && Uncounted(m.w) == 0 && !m.clash && m.ring.size <= s.Capacity()
    ensures Represents(m.ring, q + m.stored)
  {
    hide Wrap, Window, Frames, TwoInside, OneShort, AllShort;
    assert Laid(m) == m.stored;
    TailInside(m.ring, s.head, m.tailAt);
  }

  lemma TailInside(r: RingState, head: nat, at: nat)
    requires r.Capacity() > 0 && r.tail == Wrap(head, at, r.Capacity())
    ensures r.tail < r.Capacity()
  {
    hide Wrap;
  }

  /** With a clash the tail stands at least one frame short of the size. */
  lemma ClashIsNoQueue(m: Many, s: RingState, q: seq<Message>, r: seq<Message>)
    requires s.Capacity() > 0 && SizeInv(m, s, q) && PositionInv(m, s) && TailInv(m, q)
    requires AllIdle(m) && Uncounted(m.w) == 0 && m.clash && m.ring.size <= s.Capacity()
    ensures !Represents(m.ring, r)
  {
    hide Wrap, Window, Frames;
    assert AllShort(m, Sent(m, q));
    assert m.stored == [] ==> q + m.stored == q;
    WrapApart(s.head, m.tailAt, m.ring.size, s.Capacity());
  }

  // ---------------------------------------------------------------- what a clash loses

  /** The last copy is some writer's that has not moved the tail yet, or has been stored. */
  predicate LateInv(m: Many) {
    && (m.stored != [] ==> m.lateMsg.Some?)
    && (m.lateMsg.Some? ==>
          || (m.late < |m.w| && m.w[m.late].Copied? && m.w[m.late].msg == m.lateMsg.value)
          || m.lateMsg.value in m.stored)
    && (forall i :: 0 <= i < |m.w| && m.w[i].Copied? ==> m.lateMsg.Some?)
  }

  /** While only two writes have got as far as loading the tail, a clash means that both loaded it where q ends. */
  predicate PairInv(m: Many, q: seq<Message>) {
    && (m.loads == 0 ==> !m.clash && m.stored == [] && forall i :: 0 <= i < |m.w| ==> !Inside(m.w[i]))
    && (m.loads == 1 ==> !m.clash && forall i :: 0 <= i < |m.w| && Inside(m.w[i]) ==> m.stored == [])
    && (m.loads <= 2 && m.clash ==> forall i :: 0 <= i < |m.w| && Inside(m.w[i]) ==> m.w[i].base == |Frames(q)|)
  }

  /** The last copy lies where q ends. */
  ghost predicate LastCopyInv(m: Many, s: RingState, q: seq<Message>)
    requires s.Capacity() > 0 && m.ring.Capacity() == s.Capacity()
  {
    m.loads <= 2 && m.clash && m.ring.size <= s.Capacity() ==>
      && Holds(m.ring.buffer, s.head, q)
      && (m.lateMsg.Some? ==>
            && |Frames(q)| + FrameSize(m.lateMsg.value) <= s.Capacity()
            && Sendable(m.lateMsg.value)
            && Holds(m.ring.buffer, s.head, q + [m.lateMsg.value]))
  }

  lemma KeepsLate(m: Many, turn: Turn)
    requires turn.i < |m.w| && LateInv(m)
    ensures LateInv(Advanced(m, turn))
  {
    hide Wrap, Put, Frame, AnotherInside;
  }

  lemma KeepsPair(m: Many, q: seq<Message>, turn: Turn)
    requires turn.i < |m.w| && PairInv(m, q) && TailInv(m, q)
    ensures PairInv(Advanced(m, turn), q)
  {
    hide Wrap, Put, Frame, Frames, TwoInside, OneShort, AllShort, Short;
    assert m.stored == [] ==> q + m.stored == q;
    if m.w[turn.i].Copied? && !m.clash {
      AloneInside(m, q, turn.i);
    }
  }

  lemma KeepsLastCopy(m: Many, s: RingState, q: seq<Message>, turn: Turn)
    requires turn.i < |m.w| && s.Capacity() > 0 && ManyInv(m, s, q) && LateInv(m) && PairInv(m, q) && LastCopyInv(m, s, q)
    requires Advanced(m, turn).ring.Capacity() == s.Capacity()
    ensures LastCopyInv(Advanced(m, turn), s, q)
  {
    hide Wrap, Put, Frame, Frames, Holds, TwoInside, OneShort, AllShort, Short;
    var i, m' := turn.i, Advanced(m, turn);
    match m.w[i]
    case Checked(msg) =>
      if m'.loads <= 2 && m'.clash && m.ring.size <= s.Capacity() {
        ClashFindsLaid(m, s, q, i);
      }
    case Loaded(msg, pos, base) =>
      if m'.loads <= 2 && m'.clash && m.ring.size <= s.Capacity() {
        PutBehind(m.ring.buffer, s.head, q, msg, pos);
      }
    case _ =>
  }

  /** The first clash meets at most one copy, and it lies where q ends. */
  lemma ClashFindsLaid(m: Many, s: RingState, q: seq<Message>, i: nat)
    requires s.Capacity() > 0 && ManyInv(m, s, q) && LateInv(m) && PairInv(m, q) && LastCopyInv(m, s, q)
    requires i < |m.w| && m.w[i].Checked? && m.loads <= 1 && AnotherInside(m.w, i) && m.ring.size <= s.Capacity()
    ensures Holds(m.ring.buffer, s.head, q)
    ensures m.lateMsg.Some? ==>
      && |Frames(q)| + FrameSize(m.lateMsg.value) <= s.Capacity()
      && Sendable(m.lateMsg.value)
      && Holds(m.ring.buffer, s.head, q + [m.lateMsg.value])
  {
    hide Wrap, Put, Frame, Frames, Holds, TwoInside, OneShort, AllShort, Short;
    assert m.stored == [];
    if m.lateMsg.Some? {
      var msg := m.lateMsg.value;
      assert Laid(m) == [msg];
      FramesOne(q, msg);
      HoldsPrefix(m.ring.buffer, s.head, q, [msg]);
    } else {
      assert q + Laid(m) == q;
    }
  }

  /** What can be read of more can be read of less. */
  lemma HoldsPrefix(buffer: seq<byte>, head: nat, q: seq<Message>, more: seq<Message>)
    requires |buffer| > 0 && Holds(buffer, head, q + more)
    ensures Holds(buffer, head, q)
  {
    hide Wrap, Window, Frames;
    FramesConcat(q, more);
    WindowSplit(buffer, head, |Frames(q)|, |Frames(more)|);
  }

  lemma {:induction false} PlayedKeepsLastCopy(s: RingState, q: seq<Message>, n: nat, schedule: seq<Turn>)
    requires Represents(s, q) && s.Capacity() > 0 && Turns(schedule, n)
    ensures
      var m := Played(s, q, n, schedule);
      m.ring.Capacity() == s.Capacity() && LateInv(m) && PairInv(m, q) && LastCopyInv(m, s, q)
  {
    hide SizeInv, PositionInv, TailInv, BytesInv, Advanced, Represents;
    PlayedKeepsInv(s, q, n, schedule);
    SameCapacity(Played(s, q, n, schedule), s, q);
    if schedule != [] {
      hide LateInv, PairInv, LastCopyInv;
      var k := |schedule| - 1;
      PlayedKeepsLastCopy(s, q, n, schedule[..k]);
      PlayedKeepsInv(s, q, n, schedule[..k]);
      var m := Played(s, q, n, schedule[..k]);
      KeepsLate(m, schedule[k]);
      KeepsPair(m, q, schedule[k]);
      KeepsLastCopy(m, s, q, schedule[k]);
    }
  }

  /** After a clash of the first two writes on an empty ring, the last copy is what is read: where it was put, the other
      accepted message had been. */
  lemma ClashLosesMessage(s: RingState, n: nat, schedule: seq<Turn>)
    requires Represents(s, []) && s.Capacity() > 0 && Turns(schedule, n)
    requires
      var m := Played(s, [], n, schedule);
      AllIdle(m) && m.clash && m.loads == 2 && m.ring.size <= s.Capacity()
    ensures
      var m := Played(s, [], n, schedule);
      m.ring.WellFormed() && m.lateMsg.Some? && m.lateMsg.value in m.stored && Consumed(m.ring).1 == m.lateMsg
  {
    var m := Played(s, [], n, schedule);
    PlayedKeepsInv(s, [], n, schedule);
    PlayedKeepsLastCopy(s, [], n, schedule);
    NoneUncounted(m.w);
    hide Played, Consumed, Wrap, Window, Frames, Turns;
    assert AllShort(m, Sent(m, []));
    assert [] + m.stored == m.stored;
    MemberFits(m.stored, m.lateMsg.value);
    LastCopyIsRead(m.ring, s.head, m.tailAt, m.lateMsg.value);
  }

  lemma {:induction false} MemberFits(stored: seq<Message>, msg: Message)
    requires msg in stored
    ensures |Frames(stored)| >= FrameSize(msg)
  {
    if stored[0] != msg {
      MemberFits(stored[1..], msg);
    }
  }

  lemma LastCopyIsRead(r: RingState, head: nat, at: nat, msg: Message)
    requires r.head == head < r.Capacity() && r.tail == Wrap(head, at, r.Capacity())
    requires FrameSize(msg) <= r.size <= r.Capacity() && Sendable(msg) && Holds(r.buffer, head, [] + [msg])
    ensures r.WellFormed() && Consumed(r).1 == Some(msg)
  {
    hide Wrap, Window, LengthAt, Frame;
    assert [] + [msg] == [msg];
    FramesAppend([], msg);
    TailInside(r, head, at);
    FrameAt(r.buffer, head, msg);
  }

  function Alternating(a: Message, b: Message, rounds: nat): (schedule: seq<Turn>)
    ensures Sendable(a) && Sendable(b) ==> Turns(schedule, 2)
  {
    if rounds == 0 then [] else Alternating(a, b, rounds - 1) + [Turn(0, a), Turn(1, b)]
  }

  function BothMove(m: Many, a: Message, b: Message): (m': Many)
    requires |m.w| >= 2
    ensures |m'.w| == |m.w|
  {
    Advanced(Advanced(m, Turn(0, a)), Turn(1, b))
  }

  predicate OthersIdle(m: Many) {
    forall i :: 2 <= i < |m.w| ==> m.w[i] == Idle
  }

  lemma CheckAndLoad(m: Many, a: Message, b: Message)
    requires |m.w| >= 2 && AllIdle(m) && m.stored == [] && m.loads == 0
    requires m.ring.size + FrameSize(a) + FrameSize(b) <= m.ring.Capacity()
    ensures
      var m' := BothMove(BothMove(m, a, b), a, b);
      && |m'.w| >= 2 && m'.w[0].Loaded? && m'.w[1].Loaded? && m'.w[0].msg == a && m'.w[1].msg == b && OthersIdle(m')
      && m'.clash && m'.ring == m.ring && m'.stored == [] && m'.loads == 2
  {
    hide Wrap, Put, Frame;
  }

  lemma CopyAndStore(m: Many, a: Message, b: Message)
    requires |m.w| >= 2 && m.w[0].Loaded? && m.w[1].Loaded? && m.w[0].msg == a && m.w[1].msg == b && OthersIdle(m)
    requires m.clash && m.ring.Capacity() > 0 && m.stored == []
    ensures
      var m' := BothMove(BothMove(m, a, b), a, b);
      && |m'.w| >= 2 && m'.w[0] == Stored(a) && m'.w[1] == Stored(b) && OthersIdle(m')
      && m'.clash && m'.ring.size == m.ring.size && m'.ring.Capacity() == m.ring.Capacity()
      && m'.stored == [a, b] && m'.lateMsg == Some(b) && m'.loads == m.loads
  {
    hide Wrap, Put, Frame, AnotherInside;
  }

  lemma Finish(m: Many, a: Message, b: Message)
    requires |m.w| >= 2 && m.w[0] == Stored(a) && m.w[1] == Stored(b) && OthersIdle(m)
    ensures
      var m' := BothMove(m, a, b);
      && AllIdle(m') && m'.ring == m.ring.(size := m.ring.size + FrameSize(a) + FrameSize(b))
      && m'.clash == m.clash && m'.stored == m.stored && m'.lateMsg == m.lateMsg && m'.loads == m.loads
  {
    hide Wrap, Put, Frame, AnotherInside;
  }

  /** For any two messages that fit there is a schedule that clashes: both check, both load, and so on in turn. */
  lemma AlternatingClashes(s: RingState, q: seq<Message>, n: nat, a: Message, b: Message)
    requires Represents(s, q) && n >= 2 && Sendable(a) && Sendable(b)
    requires |Frames(q)| + FrameSize(a) + FrameSize(b) <= s.Capacity()
    ensures Turns(Alternating(a, b, 5), n)
    ensures
      var m := Played(s, q, n, Alternating(a, b, 5));
      AllIdle(m) && m.clash && m.loads == 2 && m.stored == [a, b] && m.lateMsg == Some(b) && m.ring.size <= s.Capacity()
  {
    hide Advanced, BothMove, Frames, Represents, Turns;
    RepresentedSize(s, q);
    var m1 := TwoTurns(s, q, n, a, b, 0);
    var m2 := TwoTurns(s, q, n, a, b, 1);
    CheckAndLoad(Start(s, q, n), a, b);
    var m3 := TwoTurns(s, q, n, a, b, 2);
    var m4 := TwoTurns(s, q, n, a, b, 3);
    CopyAndStore(m2, a, b);
    var m5 := TwoTurns(s, q, n, a, b, 4);
    Finish(m4, a, b);
  }

  lemma TwoTurns(s: RingState, q: seq<Message>, n: nat, a: Message, b: Message, k: nat) returns (m: Many)
    requires n >= 2 && Sendable(a) && Sendable(b)
    ensures Turns(Alternating(a, b, k), n) && Turns(Alternating(a, b, k + 1), n)
    ensures m == Played(s, q, n, Alternating(a, b, k + 1))
    ensures m == BothMove(Played(s, q, n, Alternating(a, b, k)), a, b)
  {
    hide Advanced;
    var before, after := Alternating(a, b, k), Alternating(a, b, k + 1);
    var between := after[..|after| - 1];
    assert between == before + [Turn(0, a)];
    assert between[..|between| - 1] == before;
    m := Played(s, q, n, after);
  }
}
