/** The EEM link as two queues: what its tasks do between two calls of Yield, in any interleaving. */
module EemSpec {
  import opened Bytes
  import opened EemCodec

  const CAPACITY: int := 2

  // ---- transmission ----

  datatype Transfer = Transfer(end: Endian, frames: seq<Frame>, bytes: seq<byte>)

  /** Accepted frames not yet confirmed, and the transfer handed to the endpoint. */
  datatype TxState = TxState(pending: seq<Frame>, inflight: Option<Transfer>)

  datatype TxEvent =
    | Send(frame: Frame)                    // one pass of USBEEM_Send over its waiting loop
    | Poll(end: Endian, started: bool)      // one pass of the transmit task; did the endpoint take it?
    | Complete(ok: bool)                    // the endpoint reports the end of the transfer

  function TxNext(s: TxState, e: TxEvent): TxState
    requires Sendable(s.pending)
  {
    match e
    case Send(f) =>
      if |f| <= MAX_FRAME && |s.pending| < CAPACITY then s.(pending := s.pending + [f]) else s
    case Poll(end, started) =>
      var n := Fit(s.pending, 0);
      FitIsMaximal(s.pending, 0, 0);
      if s.inflight.Some? || end == Unknown || n == 0 || !started then s
      else s.(inflight := Some(Transfer(end, s.pending[..n], Pack(end, s.pending[..n]))))
    case Complete(ok) =>
      if s.inflight.None? then s
      else if !ok || |s.inflight.value.frames| > |s.pending| then s.(inflight := None)
      else TxState(s.pending[|s.inflight.value.frames|..], None)
  }

  ghost predicate TxInv(s: TxState) {
    && Sendable(s.pending) && |s.pending| <= CAPACITY
    && (s.inflight.Some? ==> Laid(s.inflight.value) && s.inflight.value.frames <= s.pending)
  }

  /** A transfer holds at least one frame, fits the buffer, and is the packing of its frames. */
  ghost predicate Laid(t: Transfer) {
    t.end != Unknown && t.frames != [] && Sendable(t.frames) && t.bytes == Pack(t.end, t.frames) &&
    |t.bytes| <= TRANSFER_SIZE
  }

  function DoneFrames(done: seq<Transfer>): seq<Frame> {
    if done == [] then [] else done[0].frames + DoneFrames(done[1..])
  }

  lemma {:induction false} DoneFramesSnoc(done: seq<Transfer>, t: Transfer)
    ensures DoneFrames(done + [t]) == DoneFrames(done) + t.frames
  {
    if done == [] {
      assert DoneFrames([t]) == t.frames + DoneFrames([]);
    } else {
      assert (done + [t])[1..] == done[1..] + [t];
      DoneFramesSnoc(done[1..], t);
    }
  }

  lemma TxStepKeepsInv(s: TxState, e: TxEvent)
    requires TxInv(s)
    ensures TxInv(TxNext(s, e))
  {
    if e.Poll? {
      var n := Fit(s.pending, 0);
      FitIsMaximal(s.pending, 0, 0);
      FitIsMaximal(s.pending, 0, n);
      PackLength(e.end, s.pending[..n]);
    }
  }

  /** While frames wait and the byte order is known, an idle transmit task whose endpoint is free takes at least one:
      the longest run of frames that fits the buffer, packed in that byte order. */
  lemma TxProgress(s: TxState, end: Endian)
    requires TxInv(s) && s.inflight.None? && s.pending != [] && end != Unknown
    ensures var s' := TxNext(s, Poll(end, true));
            && s'.pending == s.pending && s'.inflight.Some?
            && var t := s'.inflight.value;
               && t.end == end && t.frames != [] && t.frames <= s.pending && t.bytes == Pack(end, t.frames)
               && (|t.frames| < |s.pending| ==> |t.bytes| + |s.pending[|t.frames|]| + 6 > TRANSFER_SIZE)
  {
    TxStepKeepsInv(s, Poll(end, true));
    var n := Fit(s.pending, 0);
    FitIsMaximal(s.pending, 0, 0);
    if n < |s.pending| {
      FitIsMaximal(s.pending, 0, n + 1);
      PackLength(end, s.pending[..n]);
      PackLength(end, s.pending[..n + 1]);
      assert s.pending[..n + 1] == s.pending[..n] + [s.pending[n]];
      hide Pack;
      PackSnoc(end, s.pending[..n], s.pending[n]);
    }
  }

  /** In every other case a poll changes nothing. */
  lemma TxIdlePoll(s: TxState, end: Endian, started: bool)
    requires TxInv(s) && (s.inflight.Some? || s.pending == [] || end == Unknown || !started)
    ensures TxNext(s, Poll(end, started)) == s
  {
    hide Pack;
  }

  /** A successful completion takes exactly the frames in flight off the front of the queue; a failed one takes none
      off. Either way the endpoint is free again. */
  lemma CompletionConsumes(s: TxState, ok: bool)
    requires TxInv(s) && s.inflight.Some?
    ensures var s' := TxNext(s, Complete(ok));
            && s'.inflight.None?
            && (if ok then s.inflight.value.frames else []) + s'.pending == s.pending
  {
    hide Pack, Laid;
    var t := s.inflight.value;
    assert s.pending == t.frames + s.pending[|t.frames|..];
  }

  /** The link together with two logs written from the events alone: the frames whose Send returned a success, and
      the transfers that reached the host. */
  datatype TxHist = TxHist(s: TxState, accepted: seq<Frame>, done: seq<Transfer>)

  /** A send that returns the size of its frame, as USBEEM_Send does with a frame of at most 1518 bytes while fewer than
      two wait. */
  predicate Succeeds(s: TxState, e: TxEvent) {
    e.Send? && |e.frame| <= 1518 && |s.pending| < 2
  }

  ghost function TxStep(h: TxHist, e: TxEvent): (h': TxHist)
    requires TxInv(h.s)
    ensures TxInv(h'.s)
  {
    TxStepKeepsInv(h.s, e);
    TxHist(TxNext(h.s, e),
           if Succeeds(h.s, e) then h.accepted + [e.frame] else h.accepted,
           if e == Complete(true) && h.s.inflight.Some? then h.done + [h.s.inflight.value] else h.done)
  }

  ghost function TxRun(es: seq<TxEvent>): (h: TxHist)
    ensures TxInv(h.s)
  {
    if es == [] then TxHist(TxState([], None), [], []) else TxStep(TxRun(es[..|es| - 1]), es[|es| - 1])
  }

  ghost predicate InOrder(h: TxHist) {
    DoneFrames(h.done) + h.s.pending == h.accepted && forall t :: t in h.done ==> Laid(t)
  }

  /** A send that succeeds appends its frame to the queue, and to nothing else; one that does not changes nothing. */
  lemma SendAppends(s: TxState, f: Frame)
    requires TxInv(s)
    ensures TxNext(s, Send(f)) == if |f| <= 1518 && |s.pending| < 2 then TxState(s.pending + [f], s.inflight) else s
  {
  }

  /** A send appends to both logs or to neither; a poll moves nothing. */
  lemma TxOtherSteps(h: TxHist, e: TxEvent)
    requires TxInv(h.s) && !e.Complete?
    ensures var h' := TxStep(h, e);
            var more := if Succeeds(h.s, e) then [e.frame] else [];
            h'.done == h.done && h'.s.pending == h.s.pending + more && h'.accepted == h.accepted + more
  {
    hide Pack, Laid;
    assert h.s.pending + [] == h.s.pending && h.accepted + [] == h.accepted;
  }

  /** A completion with nothing in flight changes nothing. */
  lemma StrayCompletion(h: TxHist, ok: bool)
    requires TxInv(h.s) && h.s.inflight.None?
    ensures TxStep(h, Complete(ok)) == h
  {
    hide Pack, Laid;
  }

  lemma TxStepInOrder(h: TxHist, e: TxEvent)
    requires TxInv(h.s) && InOrder(h)
    ensures InOrder(TxStep(h, e))
  {
    hide DoneFrames, Laid, TxNext;
    var s' := TxStep(h, e).s;
    if e.Complete? {
      if h.s.inflight.Some? {
        CompletionConsumes(h.s, e.ok);
        DoneFramesSnoc(h.done, h.s.inflight.value);
        Associative(DoneFrames(h.done), h.s.inflight.value.frames, s'.pending);
      } else {
        StrayCompletion(h, e.ok);
      }
    } else {
      TxOtherSteps(h, e);
      Associative(DoneFrames(h.done), h.s.pending, if Succeeds(h.s, e) then [e.frame] else []);
    }
  }

  /** Over every run: the frames of the completed transfers, followed by those still pending, are
      exactly the accepted sends in order, and never more than two are pending. */
  lemma {:induction false} TxInOrder(es: seq<TxEvent>)
    ensures InOrder(TxRun(es)) && |TxRun(es).s.pending| <= CAPACITY
  {
    if es != [] {
      TxInOrder(es[..|es| - 1]);
      TxStepInOrder(TxRun(es[..|es| - 1]), es[|es| - 1]);
    }
  }

  /** What a host that splits every completed transfer in its own byte order has seen. */
  function HostView(host: Endian, done: seq<Transfer>): seq<Frame> {
    if done == [] then []
    else Split(host, |done[0].bytes|, done[0].bytes) + HostView(host, done[1..])
  }

  lemma {:induction false} HostViewIsDoneFrames(host: Endian, done: seq<Transfer>)
    requires forall t :: t in done ==> Laid(t) && t.end == host
    ensures HostView(host, done) == DoneFrames(done)
  {
    if done != [] {
      assert Laid(done[0]);
      PackThenSplit(host, |done[0].bytes|, done[0].frames);
      HostViewIsDoneFrames(host, done[1..]);
    }
  }

  /** The transmit task polls in the byte order of the host, once it knows one. */
  predicate Polls(host: Endian, es: seq<TxEvent>) {
    forall e :: e in es && e.Poll? ==> e.end == host || e.end == Unknown
  }

  lemma {:induction false} SentInOrderOfHost(host: Endian, es: seq<TxEvent>)
    requires Polls(host, es)
    ensures var h := TxRun(es);
            && (h.s.inflight.Some? ==> h.s.inflight.value.end == host)
            && forall t :: t in h.done ==> t.end == host
  {
    hide TxStep, TxInv;
    if es != [] {
      var before, e := es[..|es| - 1], es[|es| - 1];
      SentInOrderOfHost(host, before);
      assert e in es;
      StepInOrderOfHost(host, TxRun(before), e);
    }
  }

  lemma StepInOrderOfHost(host: Endian, h: TxHist, e: TxEvent)
    requires TxInv(h.s) && (e.Poll? ==> e.end == host || e.end == Unknown)
    requires h.s.inflight.Some? ==> h.s.inflight.value.end == host
    ensures var h' := TxStep(h, e);
            && (h'.s.inflight.Some? ==> h'.s.inflight.value.end == host)
            && forall t :: t in h'.done ==> t in h.done || t.end == host
  {
    hide Pack, Laid, TxInv, Fit;
  }

  /** End to end: the host sees a prefix of the accepted frames, and only pending ones are missing. */
  lemma HostSeesAcceptedPrefix(host: Endian, es: seq<TxEvent>)
    requires Polls(host, es)
    ensures var h := TxRun(es); HostView(host, h.done) + h.s.pending == h.accepted
  {
    TxInOrder(es);
    SentInOrderOfHost(host, es);
    HostViewIsDoneFrames(host, TxRun(es).done);
  }

  /** One frame on its way: queued, handed to the endpoint, and with the host after a success; still queued after a
      failure. */
  lemma OneFrameTravels(host: Endian, f: Frame)
    requires host != Unknown && |f| <= 1518
    ensures var sent := [Send(f), Poll(host, true)];
            && TxRun(sent).s.pending == [f] && TxRun(sent).s.inflight.Some?
            && TxRun(sent + [Complete(true)]).s == TxState([], None)
            && HostView(host, TxRun(sent + [Complete(true)]).done) == [f]
            && TxRun(sent + [Complete(false)]).s == TxState([f], None)
            && TxRun(sent + [Complete(false)]).done == []
  {
    hide TxNext, HostView, Pack, Laid, TxRun;
    var sent := [Send(f), Poll(host, true)];
    NothingSent();
    TxRunMore([], Send(f));
    TxRunMore([Send(f)], Poll(host, true));
    assert [] + [Send(f)] == [Send(f)] && [Send(f)] + [Poll(host, true)] == sent;
    TxRunMore(sent, Complete(true));
    TxRunMore(sent, Complete(false));
    SendAppends(TxState([], None), f);
    var s1 := TxRun([Send(f)]).s;
    assert s1.pending == [] + [f] == [f];
    TxProgress(s1, host);
    var s2 := TxRun(sent).s;
    assert s2.inflight.value.frames == [f];
    CompletionConsumes(s2, true);
    CompletionConsumes(s2, false);
    SentAll([f], TxRun(sent + [Complete(true)]).s.pending);
    HostSeesOne(host, f, s2.inflight.value);
    assert TxRun(sent + [Complete(true)]).done == [s2.inflight.value];
  }

  lemma NothingSent()
    ensures TxRun([]) == TxHist(TxState([], None), [], [])
  {
  }

  lemma SentAll(a: seq<Frame>, rest: seq<Frame>)
    ensures a + rest == a ==> rest == []
  {
    if rest != [] {
      assert |a + rest| > |a|;
    }
  }

  lemma HostSeesOne(host: Endian, f: Frame, t: Transfer)
    requires Laid(t) && t.end == host && t.frames == [f]
    ensures HostView(host, [t]) == [f]
  {
    HostViewIsDoneFrames(host, [t]);
    assert DoneFrames([t]) == t.frames + DoneFrames([]);
  }

  /** A run goes on from where it stands. */
  lemma TxRunMore(es: seq<TxEvent>, e: TxEvent)
    ensures TxRun(es + [e]) == TxStep(TxRun(es), e)
  {
    assert (es + [e])[..|es + [e]| - 1] == es;
  }

  // ---- reception ----

  /** The known byte order, the delivered frames, the transfer being split (size and unread part), and
      the payload length of the packet that waits for a free slot. */
  datatype RxState = RxState(mode: Endian, ring: seq<Frame>, size: nat, rest: seq<byte>, hold: Option<nat>)

  datatype RxEvent =
    | Arrive(bytes: seq<byte>)   // an OUT transfer completes while the receive task waits for it
    | Step                       // the receive task parses a header or delivers the packet it holds
    | Take                       // USBEEM_Recv hands the oldest frame to its caller
    | Reset                      // bus reset: the byte order is forgotten

  predicate Idle(s: RxState) {
    s.rest == [] && s.hold.None?
  }

  function Delivered(rest: seq<byte>, len: nat): Frame
    requires 4 <= len && 2 + len <= |rest|
  {
    rest[2..2 + Min(MAX_FRAME, len - 4)]
  }

  /** The unread packets lie inside the transfer. */
  ghost predicate RxInv(s: RxState) {
    && |s.ring| <= CAPACITY && |s.rest| <= s.size <= TRANSFER_SIZE
    && match s.hold
       case None => WellFormed(s.mode, s.size, s.rest)
       case Some(len) => 4 <= len && 2 + len <= |s.rest| && WellFormed(s.mode, s.size, s.rest[2 + len..])
  }

  ghost function RxNext(s: RxState, e: RxEvent): RxState
    requires RxInv(s)
  {
    match e
    case Arrive(bytes) =>
      if Idle(s) then s.(size := |bytes|, rest := bytes) else s
    case Take =>
      if s.ring == [] then s else s.(ring := s.ring[1..])
    case Reset =>
      s.(mode := Unknown)
    case Step =>
      if s.hold.Some? then
        if |s.ring| == CAPACITY then s
        else s.(ring := s.ring + [Delivered(s.rest, s.hold.value)], rest := s.rest[2 + s.hold.value..], hold := None)
      else if s.rest == [] then s
      else
        var h := Fields(s.mode, Raw(s.rest), s.size);
        var s' := s.(mode := Detect(s.mode, Raw(s.rest), s.size));
        if !h.isData then s'.(rest := s.rest[2 + h.len..])
        else if h.len < 4 then s'.(rest := [])
        else s'.(hold := Some(h.len))
  }

  /** Frames the rest of the transfer will still yield. */
  ghost function Left(s: RxState): seq<Frame>
    requires RxInv(s)
  {
    match s.hold
    case None => Split(s.mode, s.size, s.rest)
    case Some(len) => [Delivered(s.rest, len)] + Split(s.mode, s.size, s.rest[2 + len..])
  }

  /** What the splitting loop has not looked at yet. */
  ghost function Unread(s: RxState): seq<byte>
    requires RxInv(s)
  {
    if s.hold.None? then s.rest else s.rest[2 + s.hold.value..]
  }

  /** Packets that a reset leaves to be parsed lie inside the transfer in the unknown mode as well. */
  ghost predicate ResetOk(s: RxState)
    requires RxInv(s)
  {
    WellFormed(Unknown, s.size, Unread(s))
  }

  /** Transfers must be well formed in the mode they meet; a reset must not change how the rest of one is read. */
  ghost predicate RxAllowed(s: RxState, e: RxEvent)
    requires RxInv(s)
  {
    match e
    case Arrive(bytes) => |bytes| <= TRANSFER_SIZE && WellFormed(s.mode, |bytes|, bytes)
    case Reset => ResetOk(s) && Split(Unknown, s.size, Unread(s)) == Split(s.mode, s.size, Unread(s))
    case _ => true
  }

  /** The receive side with two logs: frames of the transfers that arrived, frames handed to callers. */
  datatype RxHist = RxHist(s: RxState, arrived: seq<Frame>, taken: seq<Frame>)

  lemma RxNextKeepsInv(s: RxState, e: RxEvent)
    requires RxInv(s) && RxAllowed(s, e)
    ensures RxInv(RxNext(s, e))
  {
    hide Split, WellFormed, Fields, Detect, Raw, Delivered;
    match e
    case Step =>
      RxStepKeepsFrames(s);
      hide RxInv, RxNext;
    case Reset =>
      ResetKeepsFrames(s);
      hide RxInv, RxNext;
    case Arrive(_) => hide Left;
    case Take => hide Left;
  }

  ghost function RxStep(h: RxHist, e: RxEvent): (h': RxHist)
    requires RxInv(h.s) && RxAllowed(h.s, e)
    ensures RxInv(h'.s)
  {
    RxNextKeepsInv(h.s, e);
    RxHist(RxNext(h.s, e),
           if e.Arrive? && Idle(h.s) then h.arrived + Split(h.s.mode, |e.bytes|, e.bytes) else h.arrived,
           if e.Take? && h.s.ring != [] then h.taken + [h.s.ring[0]] else h.taken)
  }

  /** The state after a run, or None when some event of the run was not allowed where it stands. */
  ghost function RxRun(es: seq<RxEvent>): (h: Option<RxHist>)
    ensures h.Some? ==> RxInv(h.value.s)
  {
    if es == [] then Some(RxHist(RxState(Unknown, [], 0, [], None), [], []))
    else
      var h := RxRun(es[..|es| - 1]);
      if h.None? || !RxAllowed(h.value.s, es[|es| - 1]) then None
      else Some(RxStep(h.value, es[|es| - 1]))
  }

  /** A run goes on with every event that is allowed where it stands, and with no other. */
  lemma RxRunMore(es: seq<RxEvent>, e: RxEvent)
    ensures RxRun([]) == Some(RxHist(RxState(Unknown, [], 0, [], None), [], []))
    ensures RxRun(es + [e]) == if RxRun(es).Some? && RxAllowed(RxRun(es).value.s, e)
                               then Some(RxStep(RxRun(es).value, e)) else None
  {
    assert (es + [e])[..|es + [e]| - 1] == es;
  }

  ghost predicate Conserved(h: RxHist)
    requires RxInv(h.s)
  {
    h.arrived == h.taken + h.s.ring + Left(h.s)
  }

  /** Parsing one header leaves the frames still to come as they were. */
  lemma ParseKeepsFrames(s: RxState)
    requires RxInv(s) && s.hold.None? && s.rest != []
    ensures var s' := RxNext(s, Step);
            RxInv(s') && s'.ring == s.ring && Left(s') == Left(s) && (|s'.rest| + 2 <= |s.rest| || s'.hold.Some?)
  {
    var h := Fields(s.mode, Raw(s.rest), s.size);
    hide Fields, Detect, Raw;
    if h.isData && h.len >= 4 {
      assert Drop(s.rest, 2)[..Min(MAX_FRAME, h.len - 4)] == Delivered(s.rest, h.len);
    }
  }

  /** A step of the receive task moves frames from the transfer to the ring and loses none; unless it
      waits for room it makes progress. */
  lemma RxStepKeepsFrames(s: RxState)
    requires RxInv(s)
    ensures RxInv(RxNext(s, Step))
    ensures RxNext(s, Step).ring + Left(RxNext(s, Step)) == s.ring + Left(s)
    ensures Idle(s) || (s.hold.Some? && |s.ring| == CAPACITY) ||
            |RxNext(s, Step).rest| + 2 <= |s.rest| || (s.hold.None? && RxNext(s, Step).hold.Some?)
  {
    hide Fields, Detect, WellFormed, Split;
    if s.hold.None? && s.rest != [] {
      ParseKeepsFrames(s);
    }
  }

  lemma TakeKeepsFrames(s: RxState)
    requires RxInv(s)
    ensures (if s.ring == [] then [] else [s.ring[0]]) + RxNext(s, Take).ring == s.ring
    ensures Left(RxNext(s, Take)) == Left(s)
  {
    hide WellFormed, Split, Fields, Detect;
  }

  lemma ResetKeepsFrames(s: RxState)
    requires RxInv(s) && RxAllowed(s, Reset)
    ensures var s' := s.(mode := Unknown);
            RxNext(s, Reset) == s' && RxInv(s') && s'.ring == s.ring && Left(s') == Left(s)
  {
    hide Split, WellFormed, Fields, Detect;
  }

  lemma ArriveAddsFrames(s: RxState, bytes: seq<byte>)
    requires RxInv(s) && RxAllowed(s, Arrive(bytes))
    ensures var s' := RxNext(s, Arrive(bytes));
            && s'.ring == s.ring
            && Left(s') == if Idle(s) then Split(s.mode, |bytes|, bytes) else Left(s)
    ensures Idle(s) ==> Left(s) == []
  {
  }

  lemma FramesMove(t: seq<Frame>, r: seq<Frame>, l: seq<Frame>, r': seq<Frame>, l': seq<Frame>)
    requires r + l == r' + l'
    ensures t + r + l == t + r' + l'
  {
    Associative(t, r, l);
    Associative(t, r', l');
  }

  lemma FramesTaken(t: seq<Frame>, head: seq<Frame>, r: seq<Frame>, r': seq<Frame>, l: seq<Frame>)
    requires head + r' == r
    ensures t + r + l == (t + head) + r' + l
  {
    Associative(t, head, r');
  }

  lemma FramesArrive(t: seq<Frame>, r: seq<Frame>, x: seq<Frame>)
    ensures (t + r + []) + x == t + r + x
  {
  }

  lemma RxStepConserves(h: RxHist, e: RxEvent)
    requires RxInv(h.s) && RxAllowed(h.s, e) && Conserved(h)
    ensures Conserved(RxStep(h, e))
  {
    var s := h.s;
    RxNextKeepsInv(s, e);
    match e
    case Step =>
      hide RxInv, RxAllowed, Left;
      RxStepKeepsFrames(s);
      FramesMove(h.taken, s.ring, Left(s), RxNext(s, e).ring, Left(RxNext(s, e)));
      hide RxNext;
    case Reset =>
      hide RxInv, Left;
      ResetKeepsFrames(s);
      hide RxNext;
    case Arrive(bytes) =>
      hide RxInv, RxAllowed, Left;
      ArriveAddsFrames(s, bytes);
      if Idle(s) {
        FramesArrive(h.taken, s.ring, Split(s.mode, |bytes|, bytes));
      }
      hide RxNext;
    case Take =>
      hide RxInv, RxAllowed, Left;
      TakeKeepsFrames(s);
      FramesTaken(h.taken, if s.ring == [] then [] else [s.ring[0]], s.ring, RxNext(s, e).ring, Left(s));
      assert h.taken + [] == h.taken;
      hide RxNext;
  }

  /** Over every run: the frames of all arrived transfers are, in order and without loss or repeat,
      those handed to callers, then those in the ring, then those still in the transfer. */
  lemma {:induction false} RxConserves(es: seq<RxEvent>)
    requires RxRun(es).Some?
    ensures Conserved(RxRun(es).value) && |RxRun(es).value.s.ring| <= CAPACITY
  {
    if es != [] {
      RxConserves(es[..|es| - 1]);
      RxStepConserves(RxRun(es[..|es| - 1]).value, es[|es| - 1]);
    }
  }
}
