/** The endpoint engine and the control stages as one state machine: transfers, the callbacks that end
    them and the transfers those callbacks start in turn (USB 2.0, sections 8.5.3 and 9.4). */
module UsbEngine {
  import opened Bytes
  import opened UsbDevice
  import UsbLayout

  const EBUSY: int := -2
  const EUSB_RESET: int := -20
  const EUSB_EP_DIS: int := -21

  const CTRLEP_SIZE: nat := 64
  const SETUP_BYTES: nat := 24

  /** Slots 0 to 3 are the IN endpoints, 4 to 7 the OUT endpoints. */
  const IN0: nat := 0
  const OUT0: nat := 4

  /** Data handed to the IN endpoint; Wild is memory no request asked for. */
  datatype Payload = Block(bytes: seq<byte>) | Wild(size: nat)

  datatype Start = Start(slot: nat, size: nat, cb: Callback)

  /** The completion callbacks of the core, and those of other users, known by the transfers they start. */
  datatype Callback =
    | NoCb | SetupCb | StatusOutCb | StatusInCb | DataInCb | DataOutCb
    | UserCb(starts: seq<Start>)

  /** usb_ep_t; `serial` numbers the accepted starts. */
  datatype Ep = Ep(ec: int, size: nat, offs: nat, cb: Callback, zlp: bool, serial: nat)

  datatype Ctl = Ctl(ptr: Option<seq<byte>>, size: u32, offset: u32, index: nat, setups: seq<Setup>)

  /** `wire` lists what endpoint 0 IN was given to send, `log` the serials of the callbacks run so far,
      `issued` those of all accepted starts that carried a callback. */
  datatype Usb = Usb(eps: seq<Ep>, ctl: Ctl, dev: Dev,
                     wire: seq<Payload>, log: seq<nat>, issued: set<nat>, next: nat)

  datatype Descs = Descs(device: seq<byte>, configs: seq<seq<byte>>, strings: seq<seq<byte>>, qualifier: seq<byte>)

  /** The descriptor tables, and the subscribers of the request event as a function of what they are shown. */
  datatype Env = Env(descs: Descs, hook: (Setup, Reply) -> Reply)

  predicate Bulk(slot: nat) {
    slot == 2 || slot == 3
  }

  /** Packet sizes of the two bulk endpoints, as the class drivers configure them. */
  function MaxPacket(slot: nat): (n: nat)
    requires Bulk(slot)
    ensures n > 0
  {
    if slot == 2 then 32 else 64
  }

  predicate Shape(u: Usb) {
    |u.eps| == 8 && |u.ctl.setups| == 3 && u.ctl.index < 3 && |u.dev.alternate| == 10
  }

  // ---- starting transfers ----

  function Begin(u: Usb, slot: nat, size: nat, cb: Callback): Usb
    requires Shape(u) && slot < 8
  {
    if u.eps[slot].ec == EBUSY then u
    else
      var zlp := if Bulk(slot) then UsbLayout.NeedsZlp(size, MaxPacket(slot)) else u.eps[slot].zlp;
      u.(eps := u.eps[slot := Ep(EBUSY, size, 0, cb, zlp, u.next)],
         issued := if cb == NoCb then u.issued else u.issued + {u.next},
         next := u.next + 1)
  }

  /** A busy endpoint takes no new transfer: nothing changes and nothing is sent. */
  lemma BusyRefuses(u: Usb, slot: nat, size: nat, cb: Callback, p: Payload)
    requires Shape(u) && slot < 8 && u.eps[slot].ec == EBUSY
    ensures Begin(u, slot, size, cb) == u && (slot == IN0 ==> SendCtl(u, p, size, cb) == u)
  {
  }

  /** The bytes a start on endpoint 0 IN reads. */
  function PayloadAt(ptr: Option<seq<byte>>, offset: nat, n: nat): Payload {
    if n == 0 then Block([])
    else if ptr.Some? && offset + n <= |ptr.value| then Block(ptr.value[offset..offset + n])
    else Wild(n)
  }

  function SendCtl(u: Usb, p: Payload, n: nat, cb: Callback): Usb
    requires Shape(u)
  {
    var u' := Begin(u, IN0, n, cb);
    if u.eps[IN0].ec == EBUSY then u' else u'.(wire := u.wire + [p])
  }

  function StartSetup(u: Usb): Usb
    requires Shape(u)
  {
    Begin(u.(ctl := u.ctl.(ptr := None, size := 0)), OUT0, SETUP_BYTES, SetupCb)
  }

  function StartDataIn(u: Usb, ptr: Option<seq<byte>>, size: u32): Usb
    requires Shape(u)
  {
    var n := Min(CTRLEP_SIZE, size);
    var u1 := u.(ctl := u.ctl.(ptr := ptr, size := size, offset := 0));
    Begin(SendCtl(u1, PayloadAt(ptr, 0, n), n, DataInCb), OUT0, 0, StatusOutCb)
  }

  function StartDataOut(u: Usb, ptr: Option<seq<byte>>, size: u32): Usb
    requires Shape(u)
  {
    Begin(u.(ctl := u.ctl.(ptr := ptr, size := size, offset := 0)), OUT0, Min(CTRLEP_SIZE, size), DataOutCb)
  }

  // ---- requests ----

  function GetDescriptor(env: Env, s: Setup): Reply {
    var kind, i := s.value / 0x100, s.value % 0x100;
    var r :=
      if s.Recipient() == TO_DEVICE then
        if kind == 1 then Reply(EOK, Some(env.descs.device), |env.descs.device|)
        else if kind == 2 then
          if i >= |env.descs.configs| then Reply(EOK, None, 0)
          else Reply(EOK, Some(env.descs.configs[i]), |env.descs.configs[i]|)
        else if kind == 3 then
          if i >= |env.descs.strings| then Reply(EOK, None, 0)
          else Reply(EOK, Some(env.descs.strings[i]), |env.descs.strings[i]|)
        else if kind == 6 then Reply(EOK, Some(env.descs.qualifier), |env.descs.qualifier|)
        else REFUSED
      else if s.Recipient() == TO_IFACE then env.hook(s, REFUSED)
      else REFUSED;
    r.(size := Min(r.size, s.length))
  }

  function Answer(env: Env, d: Dev, s: Setup): Reply
    requires |d.alternate| == 10
  {
    if !s.Standard() || !s.DirIn() then REFUSED
    else if s.request == 6 then GetDescriptor(env, s)
    else if s.request == 8 then GetConfiguration(d, s)
    else if s.request == 0 then GetStatus(d, s)
    else if s.request == 10 then GetInterface(d, s)
    else REFUSED
  }

  function ProcessSetup(env: Env, u: Usb): Usb
    requires Shape(u)
  {
    var s := u.ctl.setups[u.ctl.index];
    if s.length == 0 then
      var (dev, rc) := NoData(u.dev, s);
      var u1 := u.(dev := dev);
      if env.hook(s, Reply(rc, None, 0)).status == EOK then SendCtl(u1, Block([]), 0, StatusInCb) else StartSetup(u1)
    else
      var r := env.hook(s, Answer(env, u.dev, s));
      if r.status != EOK then StartSetup(u)
      else if s.DirIn() then StartDataIn(u, r.ptr, Wrap32(r.size))
      else if u.ctl.ptr.None? then StartDataOut(u, r.ptr, Wrap32(r.size))
      else SendCtl(u, Block([]), 0, StatusInCb)
  }

  // ---- completions ----

  function DataInDone(u: Usb): Usb
    requires Shape(u)
  {
    if Wrap32(u.ctl.size - u.ctl.offset) >= CTRLEP_SIZE then
      var offset := Wrap32(u.ctl.offset + CTRLEP_SIZE);
      var n := Min(CTRLEP_SIZE, Wrap32(u.ctl.size - offset));
      SendCtl(u.(ctl := u.ctl.(offset := offset)), PayloadAt(u.ctl.ptr, offset, n), n, DataInCb)
    else Begin(u, OUT0, 0, StatusOutCb)
  }

  function DataOutDone(env: Env, u: Usb, size: nat): Usb
    requires Shape(u)
  {
    var u1 := u.(ctl := u.ctl.(offset := Wrap32(u.ctl.offset + size)));
    if size == CTRLEP_SIZE
    then Begin(u1, OUT0, Min(CTRLEP_SIZE, Wrap32(u1.ctl.size - u1.ctl.offset)), DataOutCb)
    else ProcessSetup(env, u1)
  }

  /** Several SETUP packets may have arrived back to back; the last one counts. */
  function LastSetup(size: nat, index: nat): nat {
    if size >= 8 && size <= SETUP_BYTES then size / 8 - 1 else index
  }

  /** Transfers that other users start stay off endpoint 0, and so do those their callbacks start. */
  predicate UserStart(s: Start)
    decreases s
  {
    s.slot < 8 && s.slot != IN0 && s.slot != OUT0 && UserCallback(s.cb)
  }

  predicate UserCallback(cb: Callback)
    decreases cb
  {
    match cb
    case NoCb => true
    case UserCb(starts) => forall i :: 0 <= i < |starts| ==> UserStart(starts[i])
    case _ => false
  }

  function BeginAll(u: Usb, starts: seq<Start>): (u': Usb)
    requires Shape(u) && forall i :: 0 <= i < |starts| ==> UserStart(starts[i])
    ensures Shape(u')
    decreases |starts|
  {
    if starts == [] then u
    else
      assert UserStart(starts[0]);
      BeginAll(Begin(u, starts[0].slot, starts[0].size, starts[0].cb), starts[1..])
  }

  function RunCb(env: Env, u: Usb, cb: Callback, error: int, size: nat): Usb
    requires Shape(u) && (cb.UserCb? ==> UserCallback(cb))
  {
    match cb
    case NoCb => u
    case SetupCb =>
      if error == EUSB_RESET then u
      else ProcessSetup(env, u.(ctl := u.ctl.(index := LastSetup(size, u.ctl.index))))
    case StatusOutCb => StartSetup(u)
    case StatusInCb => StartSetup(u)
    case DataInCb => if error == EUSB_RESET then StartSetup(u) else DataInDone(u)
    case DataOutCb => if error == EUSB_RESET then StartSetup(u) else DataOutDone(env, u, size)
    case UserCb(starts) => BeginAll(u, starts)
  }

  /** The record after its transfer has ended: code stored, callback taken out to be run. */
  function Cleared(u: Usb, slot: nat, ec: int): Usb
    requires Shape(u) && slot < 8
  {
    var e := u.eps[slot];
    u.(eps := u.eps[slot := e.(ec := ec, cb := NoCb)], log := if e.cb == NoCb then u.log else u.log + [e.serial])
  }

  /** USB_FinishTransfer: the callback pointer is cleared before the callback runs. */
  function Finish(env: Env, u: Usb, slot: nat, ec: int): Usb
    requires Inv(u) && slot < 8
  {
    RunCb(env, Cleared(u, slot, ec), u.eps[slot].cb, ec, u.eps[slot].offs)
  }

  // ---- what every step keeps ----

  predicate CbFits(slot: nat, cb: Callback) {
    if slot == IN0 then cb == NoCb || cb == StatusInCb || cb == DataInCb
    else if slot == OUT0 then cb == NoCb || cb == SetupCb || cb == StatusOutCb || cb == DataOutCb
    else UserCallback(cb)
  }

  predicate Pending(u: Usb, slot: nat)
    requires |u.eps| == 8 && slot < 8
  {
    u.eps[slot].cb != NoCb
  }

  /** A stored callback means a busy endpoint; every start that carried a callback has it stored in one
      place or run once, and never both. */
  predicate Inv(u: Usb) {
    && Shape(u)
    && (forall i :: 0 <= i < 8 ==> CbFits(i, u.eps[i].cb))
    && (forall i :: 0 <= i < 8 && !Bulk(i) ==> !u.eps[i].zlp)
    && (forall i :: 0 <= i < 8 && Pending(u, i) ==>
          u.eps[i].ec == EBUSY && u.eps[i].serial in u.issued && u.eps[i].serial !in u.log)
    && (forall i, j :: 0 <= i < j < 8 && Pending(u, i) && Pending(u, j) ==> u.eps[i].serial != u.eps[j].serial)
    && (forall i, j :: 0 <= i < j < |u.log| ==> u.log[i] != u.log[j])
    && (forall k :: k in u.log ==> k in u.issued)
    && (forall k :: k in u.issued ==> k < u.next && (k in u.log || Held(u, k)))
  }

  lemma InvShape(u: Usb)
    requires Inv(u)
    ensures Shape(u)
  {
  }

  /** Endpoint 0 waits for SETUP packets and no control transfer is in progress. */
  predicate Listening(u: Usb) {
    Shape(u) && u.eps[OUT0].ec == EBUSY && u.eps[OUT0].cb == SetupCb && u.ctl.ptr == None && u.ctl.size == 0
  }

  predicate Held(u: Usb, serial: nat)
    requires |u.eps| == 8
  {
    exists i :: 0 <= i < 8 && Pending(u, i) && u.eps[i].serial == serial
  }

  lemma BeginKeeps(u: Usb, slot: nat, size: nat, cb: Callback)
    requires Inv(u) && slot < 8 && CbFits(slot, cb)
    ensures Inv(Begin(u, slot, size, cb))
  {
    hide CbFits, UsbLayout.NeedsZlp, MaxPacket;
    if u.eps[slot].ec != EBUSY {
      var u' := Begin(u, slot, size, cb);
      assert !Pending(u, slot);
      assert forall i :: 0 <= i < 8 && i != slot ==> u'.eps[i] == u.eps[i] && Pending(u', i) == Pending(u, i);
      forall k | k in u'.issued
        ensures k < u'.next && (k in u'.log || Held(u', k))
      {
        if k == u.next && cb != NoCb {
          assert Pending(u', slot) && u'.eps[slot].serial == k;
        } else if k !in u.log {
          var i :| 0 <= i < 8 && Pending(u, i) && u.eps[i].serial == k;
          assert Pending(u', i) && u'.eps[i].serial == k;
        }
      }
    }
  }

  /** Only the endpoint records and the logs matter to the invariant. */
  lemma SameEps(u: Usb, u': Usb)
    requires Inv(u) && Shape(u')
    requires u'.eps == u.eps && u'.log == u.log && u'.issued == u.issued && u'.next == u.next
    ensures Inv(u')
  {
    forall k | k in u'.issued
      ensures k < u'.next && (k in u'.log || Held(u', k))
    {
      if k !in u.log {
        var i :| 0 <= i < 8 && Pending(u, i) && u.eps[i].serial == k;
        assert Pending(u', i);
      }
    }
  }

  lemma ClearKeeps(u: Usb, slot: nat, ec: int)
    requires Inv(u) && slot < 8
    ensures Inv(Cleared(u, slot, ec))
  {
    var u' := Cleared(u, slot, ec);
    assert !Pending(u', slot);
    assert forall i :: 0 <= i < 8 && i != slot ==> u'.eps[i] == u.eps[i] && Pending(u', i) == Pending(u, i);
    forall k | k in u'.issued
      ensures k < u'.next && (k in u'.log || Held(u', k))
    {
      if k !in u'.log {
        assert k !in u.log;
        var i :| 0 <= i < 8 && Pending(u, i) && u.eps[i].serial == k;
        assert i != slot && Pending(u', i);
      }
    }
  }

  lemma SendCtlKeeps(u: Usb, p: Payload, n: nat, cb: Callback)
    requires Inv(u) && CbFits(IN0, cb)
    ensures Inv(SendCtl(u, p, n, cb))
  {
    BeginKeeps(u, IN0, n, cb);
    SameEps(Begin(u, IN0, n, cb), SendCtl(u, p, n, cb));
  }

  lemma StartSetupKeeps(u: Usb)
    requires Inv(u)
    ensures Inv(StartSetup(u))
  {
    var u1 := u.(ctl := u.ctl.(ptr := None, size := 0));
    SameEps(u, u1);
    BeginKeeps(u1, OUT0, SETUP_BYTES, SetupCb);
  }

  lemma StartDataInKeeps(u: Usb, ptr: Option<seq<byte>>, size: u32)
    requires Inv(u)
    ensures Inv(StartDataIn(u, ptr, size))
  {
    var n := Min(CTRLEP_SIZE, size);
    var u1 := u.(ctl := u.ctl.(ptr := ptr, size := size, offset := 0));
    SameEps(u, u1);
    SendCtlKeeps(u1, PayloadAt(ptr, 0, n), n, DataInCb);
    BeginKeeps(SendCtl(u1, PayloadAt(ptr, 0, n), n, DataInCb), OUT0, 0, StatusOutCb);
  }

  lemma StartDataOutKeeps(u: Usb, ptr: Option<seq<byte>>, size: u32)
    requires Inv(u)
    ensures Inv(StartDataOut(u, ptr, size))
  {
    var u1 := u.(ctl := u.ctl.(ptr := ptr, size := size, offset := 0));
    SameEps(u, u1);
    BeginKeeps(u1, OUT0, Min(CTRLEP_SIZE, size), DataOutCb);
  }

  lemma ProcessSetupKeeps(env: Env, u: Usb)
    requires Inv(u)
    ensures Inv(ProcessSetup(env, u))
  {
    hide Begin, SendCtl, StartSetup, StartDataIn, StartDataOut, NoData, Answer, Inv;
    InvShape(u);
    var s := u.ctl.setups[u.ctl.index];
    StartSetupKeeps(u);
    SendCtlKeeps(u, Block([]), 0, StatusInCb);
    if s.length == 0 {
      var u1 := u.(dev := NoData(u.dev, s).0);
      SameEps(u, u1);
      StartSetupKeeps(u1);
      SendCtlKeeps(u1, Block([]), 0, StatusInCb);
    } else {
      var r := env.hook(s, Answer(env, u.dev, s));
      StartDataInKeeps(u, r.ptr, Wrap32(r.size));
      StartDataOutKeeps(u, r.ptr, Wrap32(r.size));
    }
  }

  lemma {:induction false} BeginAllKeeps(u: Usb, starts: seq<Start>)
    requires Inv(u) && forall i :: 0 <= i < |starts| ==> UserStart(starts[i])
    ensures Inv(BeginAll(u, starts))
    ensures BeginAll(u, starts).eps[IN0] == u.eps[IN0] && BeginAll(u, starts).eps[OUT0] == u.eps[OUT0]
    ensures BeginAll(u, starts).ctl == u.ctl && BeginAll(u, starts).wire == u.wire
    decreases |starts|
  {
    if starts != [] {
      var s := starts[0];
      assert UserStart(s);
      BeginKeeps(u, s.slot, s.size, s.cb);
      BeginAllKeeps(Begin(u, s.slot, s.size, s.cb), starts[1..]);
    }
  }

  lemma DataInDoneKeeps(u: Usb)
    requires Inv(u)
    ensures Inv(DataInDone(u))
  {
    hide Inv, Begin, SendCtl, PayloadAt;
    InvShape(u);
    if Wrap32(u.ctl.size - u.ctl.offset) >= CTRLEP_SIZE {
      var offset := Wrap32(u.ctl.offset + CTRLEP_SIZE);
      var n := Min(CTRLEP_SIZE, Wrap32(u.ctl.size - offset));
      var u1 := u.(ctl := u.ctl.(offset := offset));
      SameEps(u, u1);
      SendCtlKeeps(u1, PayloadAt(u.ctl.ptr, offset, n), n, DataInCb);
    } else {
      BeginKeeps(u, OUT0, 0, StatusOutCb);
    }
  }

  lemma DataOutDoneKeeps(env: Env, u: Usb, size: nat)
    requires Inv(u)
    ensures Inv(DataOutDone(env, u, size))
  {
    hide Inv, Begin, ProcessSetup, Wrap32;
    InvShape(u);
    var u1 := u.(ctl := u.ctl.(offset := Wrap32(u.ctl.offset + size)));
    SameEps(u, u1);
    if size == CTRLEP_SIZE {
      BeginKeeps(u1, OUT0, Min(CTRLEP_SIZE, Wrap32(u1.ctl.size - u1.ctl.offset)), DataOutCb);
    } else {
      ProcessSetupKeeps(env, u1);
    }
  }

  lemma RunCbKeeps(env: Env, u: Usb, cb: Callback, error: int, size: nat)
    requires Inv(u) && (cb.UserCb? ==> UserCallback(cb))
    ensures Inv(RunCb(env, u, cb, error, size))
  {
    StartSetupKeeps(u);
    match cb
    case NoCb =>
    case SetupCb =>
      var u1 := u.(ctl := u.ctl.(index := LastSetup(size, u.ctl.index)));
      SameEps(u, u1);
      ProcessSetupKeeps(env, u1);
    case StatusOutCb =>
    case StatusInCb =>
    case DataInCb => DataInDoneKeeps(u);
    case DataOutCb => DataOutDoneKeeps(env, u, size);
    case UserCb(starts) => BeginAllKeeps(u, starts);
  }

  lemma FinishKeeps(env: Env, u: Usb, slot: nat, ec: int)
    requires Inv(u) && slot < 8
    ensures Inv(Finish(env, u, slot, ec))
  {
    ClearKeeps(u, slot, ec);
    assert CbFits(slot, u.eps[slot].cb);
    RunCbKeeps(env, Cleared(u, slot, ec), u.eps[slot].cb, ec, u.eps[slot].offs);
  }

  // ---- runs ----

  datatype Event =
    | InComplete(ep: nat)               // XFRC on an IN endpoint
    | OutComplete(ep: nat)              // XFRC or STUP on an OUT endpoint
    | Received(ep: nat, len: nat)       // a packet drained into the buffer of an OUT endpoint
    | HostSetup(setups: seq<Setup>)     // contents of the SETUP buffer
    | Enumerated                        // enumeration done
    | BusReset
    | Stop(slot: nat)
    | UserBegins(s: Start)

  function FinishAll(env: Env, u: Usb, n: nat): (u': Usb)
    requires Inv(u) && n <= 8
    ensures Inv(u')
  {
    if n == 0 then u
    else
      var u1 := FinishAll(env, u, n - 1);
      FinishKeeps(env, u1, n - 1, EUSB_RESET);
      Finish(env, u1, n - 1, EUSB_RESET)
  }

  lemma FinishAllStep(env: Env, u: Usb, n: nat)
    requires Inv(u) && n < 8
    ensures FinishAll(env, u, n + 1) == Finish(env, FinishAll(env, u, n), n, EUSB_RESET)
  {
  }

  /** USB_HandleEnum: IN endpoints, OUT endpoints, then the subscribers. */
  function HandleEnum(env: Env, u: Usb): Usb
    requires Inv(u)
  {
    StartSetup(FinishAll(env, u, 8))
  }

  /** The transfer-complete branch of USB_HandleInEpIsr: an owed empty packet goes out first. */
  function InCompleteNext(env: Env, u: Usb, ep: nat): Usb
    requires Inv(u) && ep < 4
  {
    if u.eps[ep].zlp then u.(eps := u.eps[ep := u.eps[ep].(zlp := false)]) else Finish(env, u, ep, EOK)
  }

  function Next(env: Env, u: Usb, e: Event): Usb
    requires Inv(u)
  {
    match e
    case InComplete(ep) => if ep < 4 then InCompleteNext(env, u, ep) else u
    case OutComplete(ep) => if ep < 4 then Finish(env, u, OUT0 + ep, EOK) else u
    case Received(ep, len) =>
      if ep >= 4 then u
      else
        var o := u.eps[OUT0 + ep];
        var room := if o.ec == EBUSY && o.offs < o.size then o.size - o.offs else 0;
        u.(eps := u.eps[OUT0 + ep := o.(offs := o.offs + Min(room, len))])
    case HostSetup(setups) => if |setups| == 3 then u.(ctl := u.ctl.(setups := setups)) else u
    case Enumerated => HandleEnum(env, u)
    case BusReset => u.(dev := After())
    case Stop(slot) => if slot < 8 && u.eps[slot].ec == EBUSY then Finish(env, u, slot, EUSB_EP_DIS) else u
    case UserBegins(s) => if UserStart(s) then Begin(u, s.slot, s.size, s.cb) else u
  }

  /** Changing one record without touching its callback, code or serial. */
  lemma SameCallbacks(u: Usb, slot: nat, e: Ep)
    requires Inv(u) && slot < 8
    requires e.cb == u.eps[slot].cb && e.ec == u.eps[slot].ec && e.serial == u.eps[slot].serial
    requires e.zlp ==> u.eps[slot].zlp
    ensures Inv(u.(eps := u.eps[slot := e]))
  {
    hide CbFits;
    var u' := u.(eps := u.eps[slot := e]);
    assert forall i :: 0 <= i < 8 ==> Pending(u', i) == Pending(u, i) && u'.eps[i].serial == u.eps[i].serial;
    forall k | k in u'.issued
      ensures k < u'.next && (k in u'.log || Held(u', k))
    {
      if k !in u.log {
        var i :| 0 <= i < 8 && Pending(u, i) && u.eps[i].serial == k;
        assert Pending(u', i);
      }
    }
  }

  lemma UserBeginKeeps(u: Usb, s: Start)
    requires Inv(u)
    ensures UserStart(s) ==> s.slot < 8 && Inv(Begin(u, s.slot, s.size, s.cb))
  {
    if UserStart(s) {
      BeginKeeps(u, s.slot, s.size, s.cb);
    }
  }

  lemma NextKeeps(env: Env, u: Usb, e: Event)
    requires Inv(u)
    ensures Inv(Next(env, u, e))
  {
    hide Finish, FinishAll, Begin, StartSetup, UserStart, UserCallback, UsbLayout.NeedsZlp, Inv;
    InvShape(u);
    match e
    case InComplete(ep) =>
      if ep < 4 {
        SameCallbacks(u, ep, u.eps[ep].(zlp := false));
        FinishKeeps(env, u, ep, EOK);
      }
    case OutComplete(ep) =>
      if ep < 4 {
        FinishKeeps(env, u, OUT0 + ep, EOK);
      }
    case Received(ep, len) =>
      if ep < 4 {
        var o := u.eps[OUT0 + ep];
        var room := if o.ec == EBUSY && o.offs < o.size then o.size - o.offs else 0;
        SameCallbacks(u, OUT0 + ep, o.(offs := o.offs + Min(room, len)));
      }
    case Enumerated => StartSetupKeeps(FinishAll(env, u, 8));
    case Stop(slot) =>
      if slot < 8 {
        FinishKeeps(env, u, slot, EUSB_EP_DIS);
      }
    case UserBegins(s) =>
      UserBeginKeeps(u, s);
    case HostSetup(_) => SameEps(u, Next(env, u, e));
    case BusReset => SameEps(u, Next(env, u, e));
  }

  const IDLE: Ep := Ep(EOK, 0, 0, NoCb, false, 0)

  function PowerUp(): Usb {
    var s := Setup(0, 0, 0, 0, 0);
    Usb([IDLE, IDLE, IDLE, IDLE, IDLE, IDLE, IDLE, IDLE], Ctl(None, 0, 0, 0, [s, s, s]), After(), [], [], {}, 0)
  }

  function Run(env: Env, es: seq<Event>): (u: Usb)
    ensures Inv(u)
  {
    if es == [] then PowerUp()
    else
      var u := Run(env, es[..|es| - 1]);
      NextKeeps(env, u, es[|es| - 1]);
      Next(env, u, es[|es| - 1])
  }

  /** Over every run: an endpoint with a stored callback is busy, and every accepted start that carried a
      callback has had it run exactly once, or still has it stored and not run. */
  lemma CallbacksRunOnce(env: Env, es: seq<Event>, serial: nat)
    ensures var u := Run(env, es);
            && (forall i :: 0 <= i < 8 && Pending(u, i) ==> u.eps[i].ec == EBUSY)
            && (serial in u.issued ==> multiset(u.log)[serial] == if Held(u, serial) then 0 else 1)
            && (serial !in u.issued ==> serial !in u.log && !Held(u, serial))
  {
    var u := Run(env, es);
    CountDistinct(u.log, serial);
    if Held(u, serial) {
      var i :| 0 <= i < 8 && Pending(u, i) && u.eps[i].serial == serial;
    }
  }

  lemma {:induction false} CountDistinct(s: seq<nat>, k: nat)
    requires forall i, j :: 0 <= i < j < |s| ==> s[i] != s[j]
    ensures multiset(s)[k] == if k in s then 1 else 0
  {
    if s != [] {
      CountDistinct(s[1..], k);
      assert s == [s[0]] + s[1..];
    }
  }

  /** A run on from a given state. */
  function RunFrom(env: Env, u: Usb, es: seq<Event>): (u': Usb)
    requires Inv(u)
    ensures Inv(u')
  {
    if es == [] then u
    else
      var u1 := RunFrom(env, u, es[..|es| - 1]);
      NextKeeps(env, u1, es[|es| - 1]);
      Next(env, u1, es[|es| - 1])
  }

  function Completed(es: seq<Event>, ep: nat): nat {
    if es == [] then 0
    else Completed(es[..|es| - 1], ep) + (if es[|es| - 1] == InComplete(ep) then 1 else 0)
  }

  /** An event that ends no transfer on this IN endpoint, except by completing it. */
  predicate Leaves(e: Event, slot: nat) {
    !e.Enumerated? && e != Stop(slot)
  }

  lemma {:induction false} BeginAllLeaves(u: Usb, starts: seq<Start>, slot: nat)
    requires Inv(u) && forall i :: 0 <= i < |starts| ==> UserStart(starts[i])
    requires slot < 8 && u.eps[slot].ec == EBUSY
    ensures BeginAll(u, starts).eps[slot] == u.eps[slot]
    decreases |starts|
  {
    if starts != [] {
      assert UserStart(starts[0]);
      BeginKeeps(u, starts[0].slot, starts[0].size, starts[0].cb);
      BeginAllLeaves(Begin(u, starts[0].slot, starts[0].size, starts[0].cb), starts[1..], slot);
    }
  }

  /** Only the two directions of endpoint 0 differ. */
  ghost predicate OnlyControl(u: Usb, u': Usb) {
    Shape(u) && Shape(u') && forall i :: 0 <= i < 8 && i != IN0 && i != OUT0 ==> u'.eps[i] == u.eps[i]
  }

  lemma StartsOnlyControl(u: Usb, p: Payload, n: nat, cb: Callback, ptr: Option<seq<byte>>, size: u32)
    requires Shape(u)
    ensures OnlyControl(u, Begin(u, OUT0, n, cb)) && OnlyControl(u, SendCtl(u, p, n, cb))
    ensures OnlyControl(u, StartSetup(u))
    ensures OnlyControl(u, StartDataIn(u, ptr, size)) && OnlyControl(u, StartDataOut(u, ptr, size))
  {
    hide UsbLayout.NeedsZlp, PayloadAt;
  }

  lemma SetupOnlyControl(env: Env, u: Usb)
    requires Shape(u)
    ensures OnlyControl(u, ProcessSetup(env, u))
  {
    hide Answer, NoData, Begin, SendCtl, StartSetup, StartDataIn, StartDataOut, OnlyControl;
    var s := u.ctl.setups[u.ctl.index];
    if s.length == 0 {
      var u1 := u.(dev := NoData(u.dev, s).0);
      StartsOnlyControl(u1, Block([]), 0, StatusInCb, None, 0);
      OnlyControlBase(u, u1, ProcessSetup(env, u));
    } else {
      var r := env.hook(s, Answer(env, u.dev, s));
      StartsOnlyControl(u, Block([]), 0, StatusInCb, r.ptr, Wrap32(r.size));
    }
  }

  lemma OnlyControlBase(u: Usb, u1: Usb, u2: Usb)
    requires Shape(u) && u1.eps == u.eps && OnlyControl(u1, u2)
    ensures OnlyControl(u, u2)
  {
  }

  lemma ControlCallback(env: Env, u: Usb, cb: Callback, error: int, size: nat)
    requires Shape(u) && !cb.UserCb?
    ensures OnlyControl(u, RunCb(env, u, cb, error, size))
  {
    hide Begin, SendCtl, StartSetup, StartDataIn, StartDataOut, ProcessSetup, OnlyControl;
    var u1 := u.(ctl := u.ctl.(index := LastSetup(size, u.ctl.index)));
    var u2 := u.(ctl := u.ctl.(offset := Wrap32(u.ctl.offset + size)));
    var offset := Wrap32(u.ctl.offset + CTRLEP_SIZE);
    var u3 := u.(ctl := u.ctl.(offset := offset));
    var n := Min(CTRLEP_SIZE, Wrap32(u.ctl.size - offset));
    var left := Min(CTRLEP_SIZE, Wrap32(u2.ctl.size - u2.ctl.offset));
    Unchanged(u);
    match cb
    case NoCb =>
    case SetupCb =>
      SetupOnlyControl(env, u1);
      OnlyControlBase(u, u1, ProcessSetup(env, u1));
    case DataInCb =>
      StartsOnlyControl(u, Block([]), 0, StatusOutCb, None, 0);
      StartsOnlyControl(u3, PayloadAt(u.ctl.ptr, offset, n), n, DataInCb, None, 0);
      OnlyControlBase(u, u3, SendCtl(u3, PayloadAt(u.ctl.ptr, offset, n), n, DataInCb));
    case DataOutCb =>
      StartsOnlyControl(u, Block([]), 0, StatusOutCb, None, 0);
      SetupOnlyControl(env, u2);
      StartsOnlyControl(u2, Block([]), left, DataOutCb, None, 0);
      OnlyControlBase(u, u2, DataOutDone(env, u, size));
    case StatusOutCb => StartsOnlyControl(u, Block([]), 0, StatusOutCb, None, 0);
    case StatusInCb => StartsOnlyControl(u, Block([]), 0, StatusOutCb, None, 0);
  }

  lemma Unchanged(u: Usb)
    requires Shape(u)
    ensures OnlyControl(u, u)
  {
  }

  lemma FinishLeaves(env: Env, u: Usb, from: nat, ec: int, slot: nat)
    requires Inv(u) && from < 8 && Bulk(slot) && slot != from && u.eps[slot].ec == EBUSY
    ensures Inv(Finish(env, u, from, ec))
    ensures Finish(env, u, from, ec).eps[slot] == u.eps[slot]
  {
    hide RunCb, BeginAll, UserCallback;
    FinishKeeps(env, u, from, ec);
    FinishRuns(env, u, from, ec);
    ClearKeeps(u, from, ec);
    var cb, c := u.eps[from].cb, Cleared(u, from, ec);
    if cb.UserCb? {
      UserRuns(env, c, cb, ec, u.eps[from].offs);
      BeginAllLeaves(c, cb.starts, slot);
    } else {
      ControlCallback(env, c, cb, ec, u.eps[from].offs);
    }
  }

  lemma FinishRuns(env: Env, u: Usb, from: nat, ec: int)
    requires Inv(u) && from < 8
    ensures var cb := u.eps[from].cb;
            (cb.UserCb? ==> UserCallback(cb)) &&
            Finish(env, u, from, ec) == RunCb(env, Cleared(u, from, ec), cb, ec, u.eps[from].offs)
  {
    assert CbFits(from, u.eps[from].cb);
  }

  lemma UserRuns(env: Env, u: Usb, cb: Callback, error: int, size: nat)
    requires Shape(u) && cb.UserCb? && UserCallback(cb)
    ensures forall i :: 0 <= i < |cb.starts| ==> UserStart(cb.starts[i])
    ensures RunCb(env, u, cb, error, size) == BeginAll(u, cb.starts)
  {
  }

  lemma NextLeaves(env: Env, u: Usb, e: Event, slot: nat)
    requires Inv(u) && Bulk(slot) && u.eps[slot].ec == EBUSY && Leaves(e, slot) && e != InComplete(slot)
    ensures Inv(Next(env, u, e))
    ensures Next(env, u, e).eps[slot] == u.eps[slot]
  {
    NextKeeps(env, u, e);
    hide Finish, FinishAll, UserCallback, UsbLayout.NeedsZlp, Inv;
    InvShape(u);
    match e
    case InComplete(ep) => if ep < 4 { FinishLeaves(env, u, ep, EOK, slot); }
    case OutComplete(ep) => if ep < 4 { FinishLeaves(env, u, OUT0 + ep, EOK, slot); }
    case Stop(other) => if other < 8 { FinishLeaves(env, u, other, EUSB_EP_DIS, slot); }
    case _ =>
  }

  /** A bulk IN transfer, whatever goes on elsewhere: until it has completed as often as it must, twice when an
      empty packet is owed and once otherwise, the endpoint stays busy with it; that completion ends it. */
  lemma {:induction false} BulkCompletion(env: Env, u: Usb, ep: nat, size: nat, cb: Callback, es: seq<Event>)
    requires Inv(u) && Bulk(ep) && u.eps[ep].ec != EBUSY && UserCallback(cb)
    requires forall i :: 0 <= i < |es| ==> Leaves(es[i], ep)
    requires var max := if ep == 2 then 32 else 64; Completed(es, ep) < if size > 0 && size % max == 0 then 2 else 1
    ensures var max := if ep == 2 then 32 else 64;
            var need := if size > 0 && size % max == 0 then 2 else 1;
            && Inv(Begin(u, ep, size, cb))
            && var u1 := RunFrom(env, Begin(u, ep, size, cb), es);
               && u1.eps[ep] == Ep(EBUSY, size, 0, cb, Completed(es, ep) + 1 < need, u.next)
               && (Completed(es, ep) + 1 == need ==> Next(env, u1, InComplete(ep)) == Finish(env, u1, ep, EOK))
  {
    hide Finish, UsbLayout.NeedsZlp, UserCallback, Inv;
    InvShape(u);
    UsbLayout.ZlpExact(size, MaxPacket(ep));
    BeginKeeps(u, ep, size, cb);
    if es != [] {
      var before := es[..|es| - 1];
      BulkCompletion(env, u, ep, size, cb, before);
      var u1 := RunFrom(env, Begin(u, ep, size, cb), before);
      InvShape(u1);
      if es[|es| - 1] != InComplete(ep) {
        NextLeaves(env, u1, es[|es| - 1], ep);
      }
    }
  }

  /** Stopping a transfer nobody waits for stores its code; an idle endpoint is left alone. */
  lemma StopEnds(env: Env, u: Usb, slot: nat)
    requires Inv(u) && slot < 8 && (u.eps[slot].ec == EBUSY ==> u.eps[slot].cb == NoCb)
    ensures Next(env, u, Stop(slot)) ==
            if u.eps[slot].ec == EBUSY then u.(eps := u.eps[slot := u.eps[slot].(ec := EUSB_EP_DIS)]) else u
  {
    hide Inv;
    InvShape(u);
  }

  /** A start by another user on a free endpoint is stored, and no other endpoint changes. */
  lemma UserStarts(env: Env, u: Usb, s: Start)
    requires Inv(u) && UserStart(s) && u.eps[s.slot].ec != EBUSY
    ensures var u' := Next(env, u, UserBegins(s));
            && |u'.eps| == 8 && u'.wire == u.wire && u'.ctl == u.ctl && u'.dev == u.dev
            && u'.eps[s.slot].ec == EBUSY && u'.eps[s.slot].cb == s.cb
            && u'.eps[s.slot].size == s.size && u'.eps[s.slot].offs == 0
            && forall i :: 0 <= i < 8 && i != s.slot ==> u'.eps[i] == u.eps[i]
  {
    hide UsbLayout.NeedsZlp, Inv;
    InvShape(u);
  }

  // ---- enumeration ----

  /** Finishing an endpoint with the reset code never leaves a control transfer other than SETUP running. */
  lemma ResetFinish(env: Env, u: Usb, slot: nat)
    requires Inv(u) && slot < 8
    ensures var u' := Finish(env, u, slot, EUSB_RESET);
            && (slot == OUT0 || (u.eps[OUT0].ec == EBUSY ==> u.eps[OUT0].cb == SetupCb)
                ==> (u'.eps[OUT0].ec == EBUSY ==> u'.eps[OUT0].cb == SetupCb))
  {
    var cb := u.eps[slot].cb;
    ClearKeeps(u, slot, EUSB_RESET);
    assert CbFits(slot, cb);
    if cb.UserCb? {
      BeginAllKeeps(Cleared(u, slot, EUSB_RESET), cb.starts);
    }
  }

  lemma {:induction false} FinishAllListens(env: Env, u: Usb, n: nat)
    requires Inv(u) && 5 <= n <= 8
    ensures var u' := FinishAll(env, u, n); u'.eps[OUT0].ec == EBUSY ==> u'.eps[OUT0].cb == SetupCb
  {
    ResetFinish(env, FinishAll(env, u, n - 1), n - 1);
    if n > 5 {
      FinishAllListens(env, u, n - 1);
    }
  }

  /** Whatever was pending, enumeration leaves endpoint 0 listening for SETUP packets. */
  lemma EnumerationListens(env: Env, u: Usb)
    requires Inv(u)
    ensures Listening(HandleEnum(env, u)) && Next(env, u, Enumerated) == HandleEnum(env, u)
  {
    hide Inv, FinishAll, Finish;
    FinishAllListens(env, u, 8);
    InvShape(FinishAll(env, u, 8));
  }

  /** A reset takes a control transfer back to listening wherever it stood, and sends nothing: on endpoint 0 OUT at
      once, on endpoint 0 IN when the other direction is free. A SETUP reception just ends. */
  lemma ResetRestarts(env: Env, u: Usb, slot: nat)
    requires Inv(u) && (slot == IN0 || slot == OUT0)
    ensures var u', cb := Finish(env, u, slot, EUSB_RESET), u.eps[slot].cb;
            && u'.wire == u.wire
            && (cb == NoCb || cb == SetupCb ==>
                  u'.ctl == u.ctl && u'.eps == u.eps[slot := u.eps[slot].(ec := EUSB_RESET, cb := NoCb)])
            && (cb != NoCb && cb != SetupCb && (slot == OUT0 || u.eps[OUT0].ec != EBUSY) ==> Listening(u'))
  {
    assert CbFits(slot, u.eps[slot].cb);
    hide NoData, Answer, ProcessSetup, DataInDone, DataOutDone, Inv;
    InvShape(u);
  }

  // ---- the data stage to the host ----

  /** Full packets, then one short packet, possibly empty. */
  function Chunks(data: seq<byte>): seq<seq<byte>> {
    if |data| < CTRLEP_SIZE then [data] else [data[..CTRLEP_SIZE]] + Chunks(data[CTRLEP_SIZE..])
  }

  lemma {:induction false} ChunksShape(data: seq<byte>)
    ensures Flatten(Chunks(data)) == data
    ensures |Chunks(data)| == |data| / CTRLEP_SIZE + 1
    ensures forall i :: 0 <= i < |Chunks(data)| - 1 ==> |Chunks(data)[i]| == CTRLEP_SIZE
    ensures |Chunks(data)[|Chunks(data)| - 1]| < CTRLEP_SIZE
  {
    if |data| < CTRLEP_SIZE {
      assert Flatten([data]) == data + Flatten([]);
    } else {
      ChunksShape(data[CTRLEP_SIZE..]);
      assert data == data[..CTRLEP_SIZE] + data[CTRLEP_SIZE..];
    }
  }

  lemma {:induction false} ChunkAt(data: seq<byte>, k: nat)
    requires CTRLEP_SIZE * k <= |data|
    ensures k < |Chunks(data)|
    ensures Chunks(data)[k] == data[CTRLEP_SIZE * k..Min(|data|, CTRLEP_SIZE * (k + 1))]
  {
    if k > 0 {
      var rest, end := data[CTRLEP_SIZE..], Min(|data|, CTRLEP_SIZE * (k + 1));
      ChunkAt(rest, k - 1);
      assert Chunks(data)[k] == Chunks(rest)[k - 1];
      assert rest[CTRLEP_SIZE * (k - 1)..end - CTRLEP_SIZE] == data[CTRLEP_SIZE * k..end];
    }
  }

  function Blocks(chunks: seq<seq<byte>>): (ps: seq<Payload>)
    ensures |ps| == |chunks| && forall i :: 0 <= i < |chunks| ==> ps[i] == Block(chunks[i])
  {
    if chunks == [] then [] else [Block(chunks[0])] + Blocks(chunks[1..])
  }

  /** The data stage after k completions: k + 1 packets handed over, the next one due. The host gets the first
      `size` bytes of the buffer. */
  ghost predicate Sending(u: Usb, u0: Usb, buf: seq<byte>, size: u32, k: nat) {
    && Inv(u) && CTRLEP_SIZE * k <= size <= |buf| && k < |Chunks(buf[..size])|
    && u.wire == u0.wire + Blocks(Chunks(buf[..size])[..k + 1])
    && u.ctl == u0.ctl.(ptr := Some(buf), size := size, offset := CTRLEP_SIZE * k)
    && u.eps[IN0].ec == EBUSY && u.eps[IN0].cb == DataInCb
    && u.eps[OUT0].ec == EBUSY && u.eps[OUT0].cb == StatusOutCb
  }

  /** All packets are out; only the status packet is missing. */
  ghost predicate AllSent(u: Usb, u0: Usb, data: seq<byte>) {
    && Inv(u) && u.wire == u0.wire + Blocks(Chunks(data))
    && u.eps[IN0].ec == EOK && u.eps[IN0].cb == NoCb
    && u.eps[OUT0].ec == EBUSY && u.eps[OUT0].cb == StatusOutCb
  }

  /** Where a data stage may begin: both directions of endpoint 0 are free. */
  predicate Ready(u: Usb) {
    Inv(u) && u.eps[IN0].ec != EBUSY && u.eps[OUT0].ec != EBUSY
  }

  lemma PayloadIsChunk(buf: seq<byte>, size: nat, k: nat)
    requires CTRLEP_SIZE * k <= size <= |buf|
    ensures k < |Chunks(buf[..size])|
    ensures var n := Min(CTRLEP_SIZE, size - CTRLEP_SIZE * k);
            PayloadAt(Some(buf), CTRLEP_SIZE * k, n) == Block(Chunks(buf[..size])[k])
  {
    ChunkAt(buf[..size], k);
    var at, n := CTRLEP_SIZE * k, Min(CTRLEP_SIZE, size - CTRLEP_SIZE * k);
    assert buf[..size][at..at + n] == buf[at..at + n];
  }

  lemma DataInFirst(u: Usb, buf: seq<byte>, size: u32)
    requires Ready(u) && size <= |buf|
    ensures Sending(StartDataIn(u, Some(buf), size), u, buf, size, 0)
  {
    StartDataInKeeps(u, Some(buf), size);
    PayloadIsChunk(buf, size, 0);
    var chunks := Chunks(buf[..size]);
    assert chunks[..1] == [chunks[0]];
    assert Blocks(chunks[..1]) == [Block(chunks[0])];
  }

  /** A successful completion on endpoint 0 IN during a data stage. */
  lemma DataInCompletes(env: Env, u: Usb)
    requires Inv(u) && u.eps[IN0].cb == DataInCb
    ensures var c := Cleared(u, IN0, EOK); Inv(c) && Next(env, u, InComplete(0)) == DataInDone(c)
    ensures Inv(Next(env, u, InComplete(0)))
  {
    ClearKeeps(u, IN0, EOK);
    NextKeeps(env, u, InComplete(0));
    assert !Bulk(IN0);
  }

  /** What the completion does next, by the bytes still to go. */
  lemma DataInGoesOn(u: Usb, left: nat)
    requires Shape(u) && u.eps[IN0].ec != EBUSY && left == Wrap32(u.ctl.size - u.ctl.offset)
    ensures left < CTRLEP_SIZE ==> DataInDone(u) == Begin(u, OUT0, 0, StatusOutCb)
    ensures left >= CTRLEP_SIZE ==>
              var u', offset := DataInDone(u), Wrap32(u.ctl.offset + CTRLEP_SIZE);
              var n := Min(CTRLEP_SIZE, left - CTRLEP_SIZE);
              && u'.ctl == u.ctl.(offset := offset)
              && u'.wire == u.wire + [PayloadAt(u.ctl.ptr, offset, n)]
              && u'.eps == u.eps[IN0 := Ep(EBUSY, n, 0, DataInCb, u.eps[IN0].zlp, u.next)]
  {
    WrapStep(u.ctl.size, u.ctl.offset);
  }

  lemma InWord(x: u32)
    ensures Wrap32(x) == x
  {
  }

  lemma WrapStep(size: u32, offset: u32)
    ensures Wrap32(size - offset) >= CTRLEP_SIZE ==>
              Wrap32(size - Wrap32(offset + CTRLEP_SIZE)) == Wrap32(size - offset) - CTRLEP_SIZE
  {
  }

  lemma ChunksGrow(data: seq<byte>, k: nat)
    requires k + 1 < |Chunks(data)|
    ensures Blocks(Chunks(data)[..k + 2]) == Blocks(Chunks(data)[..k + 1]) + [Block(Chunks(data)[k + 1])]
  {
    var chunks := Chunks(data);
    assert chunks[..k + 2] == chunks[..k + 1] + [chunks[k + 1]];
  }

  lemma NoWrap(size: u32, k: nat)
    requires CTRLEP_SIZE * (k + 1) <= size
    ensures Wrap32(size - CTRLEP_SIZE * k) == size - CTRLEP_SIZE * k
    ensures Wrap32(CTRLEP_SIZE * k + CTRLEP_SIZE) == CTRLEP_SIZE * (k + 1)
  {
  }

  /** Every completion but the last hands over the next packet. */
  lemma DataInNext(env: Env, u: Usb, u0: Usb, buf: seq<byte>, size: u32, k: nat)
    requires Sending(u, u0, buf, size, k) && CTRLEP_SIZE * (k + 1) <= size
    ensures Sending(Next(env, u, InComplete(0)), u0, buf, size, k + 1)
  {
    hide Next, DataInDone, Chunks, Blocks, PayloadAt, Inv, Begin, Wrap32;
    InvShape(u);
    DataInCompletes(env, u);
    PayloadIsChunk(buf, size, k + 1);
    ChunksGrow(buf[..size], k);
    NoWrap(size, k);
    DataInGoesOn(Cleared(u, IN0, EOK), size - CTRLEP_SIZE * k);
    assert Next(env, u, InComplete(0)) == DataInDone(Cleared(u, IN0, EOK));
  }

  /** The last completion ends the data stage and leaves only the status packet to wait for. */
  lemma DataInLast(env: Env, u: Usb, u0: Usb, buf: seq<byte>, size: u32, k: nat)
    requires Sending(u, u0, buf, size, k) && CTRLEP_SIZE * (k + 1) > size
    ensures AllSent(Next(env, u, InComplete(0)), u0, buf[..size])
  {
    hide Next, Begin, Blocks, Inv, Wrap32;
    InvShape(u);
    ChunksShape(buf[..size]);
    hide Chunks;
    InWord(size - CTRLEP_SIZE * k);
    assert Chunks(buf[..size])[..k + 1] == Chunks(buf[..size]);
    DataInCompletes(env, u);
    DataInGoesOn(Cleared(u, IN0, EOK), size - CTRLEP_SIZE * k);
    BeginBusy(Cleared(u, IN0, EOK), OUT0, StatusOutCb);
  }

  lemma BeginBusy(u: Usb, slot: nat, cb: Callback)
    requires Shape(u) && slot < 8 && u.eps[slot].ec == EBUSY
    ensures Begin(u, slot, 0, cb) == u
  {
  }

  /** The status packet ends the transfer, whatever the IN side is doing. */
  lemma StatusOutEnds(env: Env, u: Usb)
    requires Inv(u) && u.eps[OUT0].cb == StatusOutCb
    ensures var u' := Next(env, u, OutComplete(0));
            && Inv(u') && Listening(u') && u'.wire == u.wire && u'.eps[IN0] == u.eps[IN0]
            && u'.ctl == u.ctl.(ptr := None, size := 0)
  {
    NextKeeps(env, u, OutComplete(0));
  }

  // ---- a control read among everything else ----

  /** An event that has nothing to do with endpoint 0. */
  predicate Elsewhere(e: Event) {
    match e
    case InComplete(ep) => ep != 0
    case OutComplete(ep) => ep != 0
    case Received(ep, _) => ep != 0
    case Stop(slot) => slot != IN0 && slot != OUT0
    case UserBegins(_) => true
    case _ => false
  }

  lemma FinishElsewhere(env: Env, u: Usb, slot: nat, ec: int)
    requires Inv(u) && slot < 8 && slot != IN0 && slot != OUT0
    ensures var u' := Finish(env, u, slot, ec);
            && Inv(u') && u'.eps[IN0] == u.eps[IN0] && u'.eps[OUT0] == u.eps[OUT0]
            && u'.ctl == u.ctl && u'.wire == u.wire
  {
    FinishKeeps(env, u, slot, ec);
    ClearKeeps(u, slot, ec);
    var cb := u.eps[slot].cb;
    assert CbFits(slot, cb);
    if cb.UserCb? {
      BeginAllKeeps(Cleared(u, slot, ec), cb.starts);
    }
  }

  lemma NextElsewhere(env: Env, u: Usb, e: Event)
    requires Inv(u) && Elsewhere(e)
    ensures var u' := Next(env, u, e);
            && Inv(u') && u'.eps[IN0] == u.eps[IN0] && u'.eps[OUT0] == u.eps[OUT0]
            && u'.ctl == u.ctl && u'.wire == u.wire
  {
    NextKeeps(env, u, e);
    hide Finish, FinishAll, UserCallback, UsbLayout.NeedsZlp;
    match e
    case InComplete(ep) => if ep < 4 { FinishElsewhere(env, u, ep, EOK); }
    case OutComplete(ep) => if ep < 4 { FinishElsewhere(env, u, OUT0 + ep, EOK); }
    case Stop(slot) => if slot < 8 { FinishElsewhere(env, u, slot, EUSB_EP_DIS); }
    case _ =>
  }

  /** The data stage after c completions of endpoint 0, in the middle or at its end. */
  ghost predicate Stage(u: Usb, u0: Usb, buf: seq<byte>, size: u32, c: nat) {
    size <= |buf| &&
    if CTRLEP_SIZE * c <= size then Sending(u, u0, buf, size, c) else AllSent(u, u0, buf[..size])
  }

  /** A completion that nothing waits for changes nothing. */
  lemma IdleCompletion(env: Env, u: Usb, u0: Usb, data: seq<byte>)
    requires AllSent(u, u0, data)
    ensures AllSent(Next(env, u, InComplete(0)), u0, data)
  {
    NextKeeps(env, u, InComplete(0));
    hide Chunks, Blocks;
  }

  lemma StageCompletes(env: Env, u: Usb, u0: Usb, buf: seq<byte>, size: u32, c: nat)
    requires Stage(u, u0, buf, size, c) && Inv(u)
    ensures Stage(Next(env, u, InComplete(0)), u0, buf, size, c + 1)
  {
    hide Sending, AllSent, Inv, Next;
    if CTRLEP_SIZE * (c + 1) <= size {
      DataInNext(env, u, u0, buf, size, c);
    } else if CTRLEP_SIZE * c <= size {
      DataInLast(env, u, u0, buf, size, c);
    } else {
      IdleCompletion(env, u, u0, buf[..size]);
    }
  }

  lemma StageElsewhere(env: Env, u: Usb, u0: Usb, buf: seq<byte>, size: u32, c: nat, e: Event)
    requires Stage(u, u0, buf, size, c) && Inv(u) && Elsewhere(e)
    ensures Stage(Next(env, u, e), u0, buf, size, c)
  {
    NextElsewhere(env, u, e);
    hide Next, Inv, Chunks, Blocks, Elsewhere;
  }

  lemma {:induction false} StageRun(env: Env, u1: Usb, u0: Usb, buf: seq<byte>, size: u32, es: seq<Event>)
    requires Stage(u1, u0, buf, size, 0) && Inv(u1)
    requires forall i :: 0 <= i < |es| ==> Elsewhere(es[i]) || es[i] == InComplete(0)
    ensures Stage(RunFrom(env, u1, es), u0, buf, size, Completed(es, 0))
  {
    hide Stage, Inv, Next, Elsewhere;
    if es != [] {
      var before, e := es[..|es| - 1], es[|es| - 1];
      StageRun(env, u1, u0, buf, size, before);
      var u := RunFrom(env, u1, before);
      if e == InComplete(0) {
        StageCompletes(env, u, u0, buf, size, Completed(before, 0));
      } else {
        ElsewhereIsNot(e);
        StageElsewhere(env, u, u0, buf, size, Completed(before, 0), e);
      }
    }
  }

  lemma ElsewhereIsNot(e: Event)
    ensures e == InComplete(0) ==> !Elsewhere(e)
  {
  }

  /** A data stage of any size up to the buffer's, with anything going on at other endpoints: once the last of its
      packets has completed and then the status packet arrives, what has gone out is the data in full packets
      closed by one short packet, and the device waits for the next SETUP. */
  lemma DataInStage(env: Env, u: Usb, buf: seq<byte>, size: u32, es: seq<Event>)
    requires Ready(u) && size <= |buf|
    requires forall i :: 0 <= i < |es| ==> Elsewhere(es[i]) || es[i] == InComplete(0)
    requires Completed(es, 0) > size / CTRLEP_SIZE
    ensures var u0 := StartDataIn(u, Some(buf), size);
            && Inv(u0)
            && var u2 := Next(env, RunFrom(env, u0, es), OutComplete(0));
               Listening(u2) && u2.wire == u.wire + Blocks(Chunks(buf[..size])) && u2.eps[IN0].ec == EOK
  {
    var u0 := StartDataIn(u, Some(buf), size);
    DataInFirst(u, buf, size);
    hide StartDataIn, Next, Chunks, Blocks, RunFrom, Elsewhere;
    StageRun(env, u0, u, buf, size, es);
    StatusOutEnds(env, RunFrom(env, u0, es));
  }

  /** Endpoint 0 OUT holds whole SETUP packets or nothing new. */
  predicate WholeSetup(u: Usb)
    requires |u.eps| == 8
  {
    u.eps[OUT0].offs == 0 || u.eps[OUT0].offs >= 8
  }

  /** A fresh reception of SETUP packets into which k of them arrive back to back: the last one is the request, or the
      one of before if none arrives, and nothing else has changed. */
  lemma SetupArrives(env: Env, u: Usb, setups: seq<Setup>, k: nat)
    requires Inv(u) && Listening(u) && u.eps[OUT0].offs == 0 && u.eps[OUT0].size == SETUP_BYTES
    requires |setups| == 3 && k <= 3
    ensures var u1 := Next(env, u, HostSetup(setups));
            && Inv(u1)
            && var u2 := Next(env, u1, Received(0, 8 * k));
               && Inv(u2) && Listening(u2) && WholeSetup(u2)
               && u2.ctl.setups[LastSetup(u2.eps[OUT0].offs, u2.ctl.index)] ==
                  setups[if k == 0 then u.ctl.index else k - 1]
               && u2.eps[IN0] == u.eps[IN0] && u2.wire == u.wire && u2.dev == u.dev
  {
    NextKeeps(env, u, HostSetup(setups));
    NextKeeps(env, Next(env, u, HostSetup(setups)), Received(0, 8 * k));
    hide Inv;
  }

  /** Listening begins with a fresh reception. */
  lemma ListensAfresh(u: Usb)
    requires Shape(u) && u.eps[OUT0].ec != EBUSY
    ensures var u' := StartSetup(u);
            && Listening(u') && u'.eps[OUT0].offs == 0 && u'.eps[OUT0].size == SETUP_BYTES
            && u'.ctl == u.ctl.(ptr := None, size := 0)
  {
  }

  /** What a SETUP packet with a data stage to the host starts. */
  lemma SetupStartsDataIn(env: Env, u: Usb, s: Setup, buf: seq<byte>, size: u32)
    requires Inv(u) && Listening(u) && WholeSetup(u) && u.eps[IN0].ec != EBUSY && size <= |buf|
    requires s == u.ctl.setups[LastSetup(u.eps[OUT0].offs, u.ctl.index)] && s.length != 0 && s.DirIn()
    requires env.hook(s, Answer(env, u.dev, s)) == Reply(EOK, Some(buf), size)
    ensures var u0 := Cleared(u, OUT0, EOK).(ctl := u.ctl.(index := LastSetup(u.eps[OUT0].offs, u.ctl.index)));
            Ready(u0) && u0.wire == u.wire && Next(env, u, OutComplete(0)) == StartDataIn(u0, Some(buf), size)
  {
    var c := Cleared(u, OUT0, EOK);
    var u0 := c.(ctl := u.ctl.(index := LastSetup(u.eps[OUT0].offs, u.ctl.index)));
    ClearKeeps(u, OUT0, EOK);
    SameEps(c, u0);
    hide Answer, NoData, Begin, StartDataIn;
    assert Wrap32(size) == size;
  }

  /** A whole control read, from the SETUP packet on: whatever the descriptors or the subscribers answer, and
      however it is cut to the length asked for, the host gets exactly that, and the device listens again. */
  lemma ControlRead(env: Env, u: Usb, s: Setup, buf: seq<byte>, size: u32, es: seq<Event>)
    requires Inv(u) && Listening(u) && WholeSetup(u) && u.eps[IN0].ec != EBUSY && size <= |buf|
    requires s == u.ctl.setups[LastSetup(u.eps[OUT0].offs, u.ctl.index)] && s.length != 0 && s.DirIn()
    requires env.hook(s, Answer(env, u.dev, s)) == Reply(EOK, Some(buf), size)
    requires forall i :: 0 <= i < |es| ==> Elsewhere(es[i]) || es[i] == InComplete(0)
    requires Completed(es, 0) > size / CTRLEP_SIZE
    ensures var u1 := Next(env, u, OutComplete(0));
            && Inv(u1)
            && var u2 := Next(env, RunFrom(env, u1, es), OutComplete(0));
               Listening(u2) && u2.wire == u.wire + Blocks(Chunks(buf[..size])) && u2.eps[IN0].ec == EOK
  {
    SetupStartsDataIn(env, u, s, buf, size);
    hide Inv, Next, Listening, Answer, Chunks, Blocks, StartDataIn, RunFrom, Elsewhere;
    var u0 := Cleared(u, OUT0, EOK).(ctl := u.ctl.(index := LastSetup(u.eps[OUT0].offs, u.ctl.index)));
    DataInStage(env, u0, buf, size, es);
  }

  // ---- a control write among everything else ----

  /** The events of a run that concern endpoint 0. */
  function AtZero(es: seq<Event>): seq<Event> {
    if es == [] then []
    else
      var rest := AtZero(es[..|es| - 1]);
      if Elsewhere(es[|es| - 1]) then rest else rest + [es[|es| - 1]]
  }

  /** k full packets from the host, then the bytes of one more, if any, before its completion is reported. */
  function Arrivals(k: nat, more: Option<nat>): seq<Event>
    decreases k, more.Some?
  {
    match more
    case Some(n) => Arrivals(k, None) + [Received(0, n)]
    case None => if k == 0 then [] else Arrivals(k - 1, Some(CTRLEP_SIZE)) + [OutComplete(0)]
  }

  /** What fits of a packet after k full ones. */
  function Fitting(size: nat, k: nat, more: Option<nat>): nat
    requires CTRLEP_SIZE * k <= size
  {
    match more
    case Some(n) => Min(n, Min(CTRLEP_SIZE, size - CTRLEP_SIZE * k))
    case None => 0
  }

  /** The data stage from the host, after k full packets and `got` bytes of the next. */
  ghost predicate Receiving(u: Usb, u0: Usb, ptr: Option<seq<byte>>, size: u32, k: nat, got: nat) {
    && Inv(u) && Shape(u0) && CTRLEP_SIZE * k + got <= size
    && u.eps[OUT0].ec == EBUSY && u.eps[OUT0].cb == DataOutCb
    && u.eps[OUT0].size == Min(CTRLEP_SIZE, size - CTRLEP_SIZE * k) && u.eps[OUT0].offs == got
    && u.ctl == u0.ctl.(ptr := ptr, size := size, offset := CTRLEP_SIZE * k)
    && u.eps[IN0] == u0.eps[IN0] && u.wire == u0.wire
  }

  lemma DataOutFirst(u: Usb, ptr: Option<seq<byte>>, size: u32)
    requires Inv(u) && u.eps[OUT0].ec != EBUSY
    ensures Receiving(StartDataOut(u, ptr, size), u, ptr, size, 0, 0)
  {
    var u1 := u.(ctl := u.ctl.(ptr := ptr, size := size, offset := 0));
    SameEps(u, u1);
    BeginKeeps(u1, OUT0, Min(CTRLEP_SIZE, size), DataOutCb);
    hide Inv;
  }

  lemma ReceivingElsewhere(env: Env, u: Usb, u0: Usb, ptr: Option<seq<byte>>, size: u32, k: nat, got: nat, e: Event)
    requires Receiving(u, u0, ptr, size, k, got) && Elsewhere(e)
    ensures Receiving(Next(env, u, e), u0, ptr, size, k, got)
  {
    NextElsewhere(env, u, e);
    hide Next, Inv, Elsewhere;
  }

  /** A packet arrives: what fits is stored. */
  lemma ReceivingMore(env: Env, u: Usb, u0: Usb, ptr: Option<seq<byte>>, size: u32, k: nat, n: nat)
    requires Receiving(u, u0, ptr, size, k, 0)
    ensures Receiving(Next(env, u, Received(0, n)), u0, ptr, size, k, Fitting(size, k, Some(n)))
  {
    NextKeeps(env, u, Received(0, n));
    hide Inv;
  }

  lemma DataOutCompletes(env: Env, u: Usb)
    requires Inv(u) && u.eps[OUT0].cb == DataOutCb
    ensures var c := Cleared(u, OUT0, EOK);
            Inv(c) && Next(env, u, OutComplete(0)) == DataOutDone(env, c, u.eps[OUT0].offs)
    ensures Inv(Next(env, u, OutComplete(0)))
  {
    ClearKeeps(u, OUT0, EOK);
    NextKeeps(env, u, OutComplete(0));
  }

  /** A full packet is complete: the next reception starts behind it. */
  lemma ReceivingNext(env: Env, u: Usb, u0: Usb, ptr: Option<seq<byte>>, size: u32, k: nat)
    requires Receiving(u, u0, ptr, size, k, CTRLEP_SIZE)
    ensures Receiving(Next(env, u, OutComplete(0)), u0, ptr, size, k + 1, 0)
  {
    hide Next, Inv, ProcessSetup, Wrap32, UsbLayout.NeedsZlp;
    InvShape(u);
    DataOutCompletes(env, u);
    NoWrap(size, k);
    LeftAfter(size, k);
  }

  lemma LeftAfter(size: u32, k: nat)
    requires CTRLEP_SIZE * (k + 1) <= size
    ensures Wrap32(size - CTRLEP_SIZE * (k + 1)) == size - CTRLEP_SIZE * (k + 1)
  {
  }

  /** Whatever else goes on: after k full packets the stage is still receiving, at the offset they add up to, also
      when they are all the data there is. Only a packet that is not full can end it. */
  lemma {:induction false} DataOutStage(env: Env, u1: Usb, u0: Usb, ptr: Option<seq<byte>>, size: u32,
                                        es: seq<Event>, k: nat, more: Option<nat>)
    requires Receiving(u1, u0, ptr, size, 0, 0) && CTRLEP_SIZE * k <= size
    requires AtZero(es) == Arrivals(k, more)
    ensures Receiving(RunFrom(env, u1, es), u0, ptr, size, k, Fitting(size, k, more))
    decreases |es|
  {
    hide Next, Inv, Elsewhere;
    if es != [] {
      var before, e := es[..|es| - 1], es[|es| - 1];
      var u := RunFrom(env, u1, before);
      if Elsewhere(e) {
        DataOutStage(env, u1, u0, ptr, size, before, k, more);
        ReceivingElsewhere(env, u, u0, ptr, size, k, Fitting(size, k, more), e);
      } else if more.Some? {
        LastArrives(before, e, k, more);
        DataOutStage(env, u1, u0, ptr, size, before, k, None);
        ReceivingMore(env, u, u0, ptr, size, k, more.value);
      } else {
        LastArrives(before, e, k, more);
        DataOutStage(env, u1, u0, ptr, size, before, k - 1, Some(CTRLEP_SIZE));
        ReceivingNext(env, u, u0, ptr, size, k - 1);
      }
    } else {
      assert Arrivals(k, more) == [] && k == 0 && more.None?;
    }
  }

  lemma LastArrives(before: seq<Event>, e: Event, k: nat, more: Option<nat>)
    requires AtZero(before) + [e] == Arrivals(k, more)
    ensures more.Some? ==> e == Received(0, more.value) && AtZero(before) == Arrivals(k, None)
    ensures more.None? ==> k > 0 && e == OutComplete(0) && AtZero(before) == Arrivals(k - 1, Some(CTRLEP_SIZE))
  {
    var all := AtZero(before) + [e];
    assert all[|all| - 1] == e && all[..|all| - 1] == AtZero(before);
    match more
    case Some(n) =>
      var rest := Arrivals(k, None);
      assert all == rest + [Received(0, n)];
      assert all[|all| - 1] == Received(0, n) && all[..|all| - 1] == rest;
    case None =>
      if k > 0 {
        var rest := Arrivals(k - 1, Some(CTRLEP_SIZE));
        assert all == rest + [OutComplete(0)];
        assert all[|all| - 1] == OutComplete(0) && all[..|all| - 1] == rest;
      }
  }

  /** The core never answers a request that brings data: the subscribers are shown the same refusal before the data
      and after it, whatever has become of the device in between. */
  lemma OutAnswer(env: Env, d: Dev, s: Setup)
    requires |d.alternate| == 10 && !s.DirIn()
    ensures Answer(env, d, s) == REFUSED
  {
  }

  /** A packet that is not full ends the stage. The request is processed a second time: with memory to receive into
      the status packet goes out, and its completion leaves the device listening; without, the stage begins anew. */
  lemma DataOutLast(env: Env, u: Usb, u0: Usb, s: Setup, ptr: Option<seq<byte>>, size: u32, k: nat, got: nat)
    requires Receiving(u, u0, ptr, size, k, got) && got < CTRLEP_SIZE && u0.eps[IN0].ec != EBUSY
    requires s == u0.ctl.setups[u0.ctl.index] && s.length != 0 && !s.DirIn()
    requires env.hook(s, REFUSED) == Reply(EOK, ptr, size)
    ensures var u' := Next(env, u, OutComplete(0));
            && Inv(u')
            && if ptr.Some? then StatusDue(u', u0, CTRLEP_SIZE * k + got) else Receiving(u', u0, ptr, size, 0, 0)
  {
    hide Next, Inv, Begin, StartDataOut, Answer, NoData, Wrap32;
    InvShape(u);
    DataOutCompletes(env, u);
    var c := Cleared(u, OUT0, EOK);
    var u1 := c.(ctl := c.ctl.(offset := Wrap32(c.ctl.offset + got)));
    SameEps(c, u1);
    OutAnswer(env, u.dev, s);
    InWord(CTRLEP_SIZE * k + got);
    InWord(size);
    StatusStarts(u1);
    DataOutFirst(u1, ptr, size);
  }

  /** The data are in, and the status packet is on its way to the host. */
  ghost predicate StatusDue(u: Usb, u0: Usb, offset: nat) {
    && Inv(u) && u.ctl.offset == offset && u.wire == u0.wire + [Block([])]
    && u.eps[IN0].ec == EBUSY && u.eps[IN0].cb == StatusInCb && u.eps[OUT0].ec == EOK
  }

  lemma StatusStarts(u: Usb)
    requires Inv(u) && u.eps[IN0].ec != EBUSY
    ensures var u' := SendCtl(u, Block([]), 0, StatusInCb);
            && Shape(u') && u'.ctl == u.ctl && u'.wire == u.wire + [Block([])] && u'.eps[OUT0] == u.eps[OUT0]
            && u'.eps[IN0].ec == EBUSY && u'.eps[IN0].cb == StatusInCb
  {
  }

  /** The completion of the status packet ends the transfer. */
  lemma StatusInEnds(env: Env, u: Usb)
    requires Inv(u) && u.eps[IN0].ec == EBUSY && u.eps[IN0].cb == StatusInCb && u.eps[OUT0].ec == EOK
    ensures Listening(Next(env, u, InComplete(0))) && Next(env, u, InComplete(0)).wire == u.wire
  {
    ClearKeeps(u, IN0, EOK);
    assert !Bulk(IN0);
  }

  /** What a SETUP packet with a data stage from the host starts. */
  lemma SetupStartsDataOut(env: Env, u: Usb, s: Setup, ptr: Option<seq<byte>>, size: u32)
    requires Inv(u) && Listening(u) && WholeSetup(u)
    requires s == u.ctl.setups[LastSetup(u.eps[OUT0].offs, u.ctl.index)] && s.length != 0 && !s.DirIn()
    requires env.hook(s, REFUSED) == Reply(EOK, ptr, size)
    ensures var u0 := Cleared(u, OUT0, EOK).(ctl := u.ctl.(index := LastSetup(u.eps[OUT0].offs, u.ctl.index)));
            && Shape(u0) && u0.wire == u.wire && u0.eps[IN0] == u.eps[IN0] && u0.ctl.setups[u0.ctl.index] == s
            && Receiving(Next(env, u, OutComplete(0)), u0, ptr, size, 0, 0)
  {
    var c := Cleared(u, OUT0, EOK);
    var u0 := c.(ctl := u.ctl.(index := LastSetup(u.eps[OUT0].offs, u.ctl.index)));
    ClearKeeps(u, OUT0, EOK);
    SameEps(c, u0);
    OutAnswer(env, u.dev, s);
    InWord(size);
    DataOutFirst(u0, ptr, size);
    hide Answer, NoData, Begin, StartDataOut, Wrap32, Receiving;
  }

  /** A whole control write, from the SETUP packet on, with anything going on at other endpoints: k full packets and
      one that is not full, or is cut to what is left of the size. Nothing is sent before it; when it completes, the
      offset is the number of bytes taken, one empty packet goes out, and its completion leaves the device
      listening. A subscriber that accepts without giving memory has the stage begin anew instead. */
  lemma ControlWrite(env: Env, u: Usb, s: Setup, ptr: Option<seq<byte>>, size: u32, es: seq<Event>, k: nat, n: nat)
    requires Inv(u) && Listening(u) && WholeSetup(u) && u.eps[IN0].ec != EBUSY
    requires s == u.ctl.setups[LastSetup(u.eps[OUT0].offs, u.ctl.index)] && s.length != 0 && !s.DirIn()
    requires env.hook(s, REFUSED) == Reply(EOK, ptr, size)
    requires CTRLEP_SIZE * k <= size && Fitting(size, k, Some(n)) < CTRLEP_SIZE
    requires AtZero(es) == Arrivals(k, Some(n))
    ensures var u1 := Next(env, u, OutComplete(0));
            && Inv(u1)
            && var u2 := RunFrom(env, u1, es);
               var u3 := Next(env, u2, OutComplete(0));
               && u2.wire == u.wire && Inv(u3)
               && if ptr.None? then Receiving(u3, u2, ptr, size, 0, 0)
                  else
                    && u3.ctl.offset == CTRLEP_SIZE * k + Fitting(size, k, Some(n))
                    && u3.wire == u.wire + [Block([])]
                    && Listening(Next(env, u3, InComplete(0)))
                    && Next(env, u3, InComplete(0)).wire == u3.wire
  {
    var u0 := Cleared(u, OUT0, EOK).(ctl := u.ctl.(index := LastSetup(u.eps[OUT0].offs, u.ctl.index)));
    SetupStartsDataOut(env, u, s, ptr, size);
    hide Next, Inv, RunFrom, AtZero, Arrivals, Fitting, Answer;
    var u1 := Next(env, u, OutComplete(0));
    DataOutStage(env, u1, u0, ptr, size, es, k, Some(n));
    var u2 := RunFrom(env, u1, es);
    DataOutLast(env, u2, u0, s, ptr, size, k, Fitting(size, k, Some(n)));
    if ptr.Some? {
      StatusInEnds(env, Next(env, u2, OutComplete(0)));
    }
  }

  // ---- what the core answers ----

  /** Descriptor types of GET_DESCRIPTOR. */
  const DEVICE_DESC: nat := 1
  const CONFIG_DESC: nat := 2
  const STRING_DESC: nat := 3
  const QUALIFIER_DESC: nat := 6

  /** The table entry that a request for a descriptor of this kind and index is about. */
  predicate Entry(d: Descs, kind: nat, index: nat, data: seq<byte>) {
    || (kind == DEVICE_DESC && data == d.device)
    || (kind == CONFIG_DESC && index < |d.configs| && data == d.configs[index])
    || (kind == STRING_DESC && index < |d.strings| && data == d.strings[index])
    || (kind == QUALIFIER_DESC && data == d.qualifier)
  }

  /** A request of the device for a descriptor. */
  predicate WantsDescriptor(s: Setup, kind: nat, index: nat) {
    s.requestType == 0x80 && s.request == 6 && s.value == 0x100 * kind + index && kind < 0x100 && index < 0x100
  }

  lemma KindAndIndex(value: nat, kind: nat, index: nat)
    requires value == 0x100 * kind + index && index < 0x100
    ensures value / 0x100 == kind && value % 0x100 == index
  {
  }

  /** A descriptor of the tables is answered, cut to the length asked for; a configuration or string that the tables do
      not have is answered with nothing, and any other kind is refused. */
  lemma DescriptorAnswer(env: Env, d: Dev, s: Setup, kind: nat, index: nat)
    requires |d.alternate| == 10 && WantsDescriptor(s, kind, index)
    ensures forall data :: Entry(env.descs, kind, index, data) ==>
              Answer(env, d, s) == Reply(EOK, Some(data), Min(|data|, s.length))
    ensures || (kind == CONFIG_DESC && index >= |env.descs.configs|)
            || (kind == STRING_DESC && index >= |env.descs.strings|) ==>
              Answer(env, d, s) == Reply(EOK, None, 0)
    ensures kind != DEVICE_DESC && kind != CONFIG_DESC && kind != STRING_DESC && kind != QUALIFIER_DESC ==>
              Answer(env, d, s) == REFUSED
  {
    KindAndIndex(s.value, kind, index);
  }

  /** The other requests for data: what the history of requests says, and nothing else. A request that is not standard,
      or brings data, is refused, and a descriptor of an interface is a matter of the subscribers. */
  lemma RequestAnswer(env: Env, es: seq<UsbDevice.Event>, s: Setup)
    ensures var d := UsbDevice.Run(es);
            var r := Answer(env, d, s);
            if !s.Standard() || !s.DirIn() then r == REFUSED
            else if s.request == 0 then
              r == if s.value == 0 && s.length == 2 && HasStatus(d, s)
                   then
                     var halted := s.Recipient() == TO_EP && LastHalt(es, s.EpNum(), s.EpTx());
                     Reply(EOK, Some([if halted then 1 else 0, 0]), 2)
                   else REFUSED
            else if s.request == 8 then
              r == if s.Recipient() == TO_DEVICE && s.value == 0 && s.index == 0 && s.length == 1 && d.address != 0
                   then Reply(EOK, Some([LastConfiguration(es) % 0x100]), 1) else REFUSED
            else if s.request == 10 then
              r == if s.value == 0 && s.length == 1 && s.Recipient() == TO_IFACE && s.Iface() < IFACES
                      && d.configuration != 0
                   then Reply(EOK, Some([LastAlternate(es, s.Iface())]), 1) else REFUSED
            else if s.request == 6 && s.Recipient() == TO_IFACE then
              var h := env.hook(s, REFUSED); r == h.(size := Min(h.size, s.length))
            else s.request != 6 || s.Recipient() != TO_DEVICE ==> r == REFUSED
  {
    GetStatusReportsHistory(es, s);
    GetInterfaceReportsHistory(es, s);
    ConfigurationReported(es, s);
    hide UsbDevice.Run, GetStatus, GetInterface, GetConfiguration;
    hide LastHalt, LastAlternate, LastConfiguration, HasStatus;
  }

  lemma ConfigurationReported(es: seq<UsbDevice.Event>, s: Setup)
    ensures var d := UsbDevice.Run(es);
            GetConfiguration(d, s) ==
            if s.Recipient() == TO_DEVICE && s.value == 0 && s.index == 0 && s.length == 1 && d.address != 0
            then Reply(EOK, Some([LastConfiguration(es) % 0x100]), 1) else REFUSED
  {
    StateAgrees(es);
    ConfigurationIsLast(es);
    GetConfigurationTells(UsbDevice.Run(es), s);
    hide UsbDevice.Run, LastConfiguration;
  }

  /** Over the wire: a request for a descriptor of the tables, left alone by the subscribers, gets exactly that entry,
      cut to the length asked for, and the device listens again. */
  lemma DescriptorRead(env: Env, u: Usb, s: Setup, kind: nat, index: nat, data: seq<byte>, es: seq<Event>)
    requires Inv(u) && Listening(u) && WholeSetup(u) && u.eps[IN0].ec != EBUSY
    requires s == u.ctl.setups[LastSetup(u.eps[OUT0].offs, u.ctl.index)] && s.length != 0
    requires WantsDescriptor(s, kind, index) && Entry(env.descs, kind, index, data)
    requires var r := Reply(EOK, Some(data), Min(|data|, s.length)); env.hook(s, r) == r
    requires forall i :: 0 <= i < |es| ==> Elsewhere(es[i]) || es[i] == InComplete(0)
    requires Completed(es, 0) > Min(|data|, s.length) / CTRLEP_SIZE
    ensures var u1 := Next(env, u, OutComplete(0));
            && Inv(u1)
            && var u2 := Next(env, RunFrom(env, u1, es), OutComplete(0));
               && Listening(u2) && u2.wire == u.wire + Blocks(Chunks(data[..Min(|data|, s.length)]))
  {
    DescriptorAnswer(env, u.dev, s, kind, index);
    hide Answer, Entry, Inv, Next, Listening, Chunks, Blocks, RunFrom, Elsewhere, Completed;
    ControlRead(env, u, s, data, Min(|data|, s.length), es);
  }

  lemma SetupStarts(u: Usb)
    requires Shape(u) && u.eps[OUT0].ec != EBUSY
    ensures var u' := StartSetup(u);
            Listening(u') && u'.wire == u.wire && u'.dev == u.dev && u'.eps[IN0] == u.eps[IN0]
  {
  }

  /** A request that is not accepted: nothing is sent, and the device listens at once. */
  lemma RefusedRead(env: Env, u: Usb, s: Setup)
    requires Inv(u) && Listening(u) && WholeSetup(u)
    requires s == u.ctl.setups[LastSetup(u.eps[OUT0].offs, u.ctl.index)] && s.length != 0
    requires env.hook(s, Answer(env, u.dev, s)).status != EOK
    ensures var u1 := Next(env, u, OutComplete(0));
            Inv(u1) && Listening(u1) && u1.wire == u.wire && u1.eps[IN0] == u.eps[IN0] && u1.dev == u.dev
  {
    NextKeeps(env, u, OutComplete(0));
    SetupStarts(Cleared(u, OUT0, EOK).(ctl := u.ctl.(index := LastSetup(u.eps[OUT0].offs, u.ctl.index))));
    hide Answer, NoData, Begin, StartSetup;
  }

  /** An entry the tables do not have: one empty packet goes out, and the status packet ends the transfer. */
  lemma MissingDescriptorRead(env: Env, u: Usb, s: Setup, es: seq<Event>)
    requires Inv(u) && Listening(u) && WholeSetup(u) && u.eps[IN0].ec != EBUSY
    requires s == u.ctl.setups[LastSetup(u.eps[OUT0].offs, u.ctl.index)] && s.length != 0 && s.DirIn()
    requires env.hook(s, Answer(env, u.dev, s)) == Reply(EOK, None, 0)
    requires forall i :: 0 <= i < |es| ==> Elsewhere(es[i]) || es[i] == InComplete(0)
    ensures var u1 := Next(env, u, OutComplete(0));
            && Inv(u1) && u1.wire == u.wire + [Block([])]
            && var u2 := Next(env, RunFrom(env, u1, es), OutComplete(0));
               Listening(u2) && u2.wire == u1.wire
  {
    hide Answer, NoData, Begin, Next, RunFrom, Elsewhere, Inv;
    EmptyStarts(env, u, s);
    EmptyRun(env, Next(env, u, OutComplete(0)), es);
    StatusOutEnds(env, RunFrom(env, Next(env, u, OutComplete(0)), es));
  }

  /** A data stage of no bytes: only the status packet matters. */
  ghost predicate EmptyStage(u: Usb) {
    && Inv(u) && u.ctl.size == 0 && u.ctl.offset == 0
    && u.eps[OUT0].ec == EBUSY && u.eps[OUT0].cb == StatusOutCb
    && (u.eps[IN0].cb == DataInCb || u.eps[IN0].cb == NoCb)
  }

  lemma EmptyStarts(env: Env, u: Usb, s: Setup)
    requires Inv(u) && Listening(u) && u.eps[IN0].ec != EBUSY
    requires s == u.ctl.setups[LastSetup(u.eps[OUT0].offs, u.ctl.index)] && s.length != 0 && s.DirIn()
    requires env.hook(s, Answer(env, u.dev, s)) == Reply(EOK, None, 0)
    ensures var u1 := Next(env, u, OutComplete(0));
            EmptyStage(u1) && u1.wire == u.wire + [Block([])]
  {
    NextKeeps(env, u, OutComplete(0));
    hide Answer, NoData;
  }

  lemma EmptyCompletes(env: Env, u: Usb)
    requires EmptyStage(u)
    ensures EmptyStage(Next(env, u, InComplete(0))) && Next(env, u, InComplete(0)).wire == u.wire
  {
    if u.eps[IN0].cb == DataInCb {
      hide Next, DataInDone, Begin, Inv, Wrap32;
      InvShape(u);
      DataInCompletes(env, u);
      InWord(0);
      DataInGoesOn(Cleared(u, IN0, EOK), 0);
      BeginBusy(Cleared(u, IN0, EOK), OUT0, StatusOutCb);
    } else {
      EmptyIdle(env, u);
    }
  }

  lemma EmptyIdle(env: Env, u: Usb)
    requires EmptyStage(u) && u.eps[IN0].cb == NoCb
    ensures EmptyStage(Next(env, u, InComplete(0))) && Next(env, u, InComplete(0)).wire == u.wire
  {
    NextKeeps(env, u, InComplete(0));
    assert !Bulk(IN0);
  }

  lemma {:induction false} EmptyRun(env: Env, u: Usb, es: seq<Event>)
    requires EmptyStage(u) && forall i :: 0 <= i < |es| ==> Elsewhere(es[i]) || es[i] == InComplete(0)
    ensures EmptyStage(RunFrom(env, u, es)) && RunFrom(env, u, es).wire == u.wire
  {
    if es != [] {
      hide Next, Inv, Elsewhere;
      var u1 := RunFrom(env, u, es[..|es| - 1]);
      EmptyRun(env, u, es[..|es| - 1]);
      if es[|es| - 1] == InComplete(0) {
        EmptyCompletes(env, u1);
      } else {
        NextElsewhere(env, u1, es[|es| - 1]);
      }
    }
  }

  // ---- requests without data ----

  /** Events elsewhere leave endpoint 0 alone for as long as they last. */
  lemma {:induction false} RunElsewhere(env: Env, u: Usb, es: seq<Event>)
    requires Inv(u) && forall i :: 0 <= i < |es| ==> Elsewhere(es[i])
    ensures var u' := RunFrom(env, u, es);
            && u'.eps[IN0] == u.eps[IN0] && u'.eps[OUT0] == u.eps[OUT0]
            && u'.ctl == u.ctl && u'.wire == u.wire
  {
    InvShape(u);
    if es != [] {
      RunElsewhere(env, u, es[..|es| - 1]);
      NextElsewhere(env, RunFrom(env, u, es[..|es| - 1]), es[|es| - 1]);
      InvShape(RunFrom(env, u, es));
      hide Next, Inv, Elsewhere;
    }
  }

  lemma StartsKeepDev(u: Usb, p: Payload, n: nat, cb: Callback, ptr: Option<seq<byte>>, size: u32)
    requires Shape(u)
    ensures Begin(u, OUT0, n, cb).dev == u.dev && SendCtl(u, p, n, cb).dev == u.dev && StartSetup(u).dev == u.dev
    ensures StartDataIn(u, ptr, size).dev == u.dev && StartDataOut(u, ptr, size).dev == u.dev
  {
    hide UsbLayout.NeedsZlp, PayloadAt;
  }

  /** A request without data changes the device as the request says. If it is accepted, exactly one empty packet goes
      out, and when that has completed, whatever went on elsewhere meanwhile, the device listens again. If it is
      refused, nothing goes out, and the device listens at once. What is accepted is the word of the request, unless
      the subscribers change it. */
  lemma NoDataRequest(env: Env, u: Usb, s: Setup, es: seq<Event>)
    requires Inv(u) && Listening(u) && WholeSetup(u) && u.eps[IN0].ec != EBUSY
    requires s == u.ctl.setups[LastSetup(u.eps[OUT0].offs, u.ctl.index)] && s.length == 0
    requires forall i :: 0 <= i < |es| ==> Elsewhere(es[i])
    ensures var u1 := Next(env, u, OutComplete(0));
            var (dev, rc) := NoData(u.dev, s);
            && Inv(u1) && u1.dev == dev
            && if env.hook(s, Reply(rc, None, 0)).status == EOK
               then
                 && u1.wire == u.wire + [Block([])]
                 && var u2 := RunFrom(env, u1, es);
                    && u2.wire == u1.wire && !Listening(u2)
                    && Listening(Next(env, u2, InComplete(0))) && Next(env, u2, InComplete(0)).wire == u1.wire
               else Listening(u1) && u1.wire == u.wire && u1.eps[IN0] == u.eps[IN0]
  {
    hide NoData, Answer, Begin, RunFrom, Elsewhere, Inv;
    InvShape(u);
    SetupCompletes(env, u, s);
    var u1 := Next(env, u, OutComplete(0));
    var (dev, rc) := NoData(u.dev, s);
    var c := Cleared(u, OUT0, EOK).(ctl := u.ctl.(index := LastSetup(u.eps[OUT0].offs, u.ctl.index)), dev := dev);
    if env.hook(s, Reply(rc, None, 0)).status == EOK {
      StatusStarts(c);
      StartsKeepDev(c, Block([]), 0, StatusInCb, None, 0);
      RunElsewhere(env, u1, es);
      StatusInEnds(env, RunFrom(env, u1, es));
    } else {
      SetupStarts(c);
    }
  }

  /** The completion of a SETUP reception for a request without data. */
  lemma SetupCompletes(env: Env, u: Usb, s: Setup)
    requires Inv(u) && Listening(u)
    requires s == u.ctl.setups[LastSetup(u.eps[OUT0].offs, u.ctl.index)] && s.length == 0
    ensures var (dev, rc) := NoData(u.dev, s);
            var index := LastSetup(u.eps[OUT0].offs, u.ctl.index);
            var c := Cleared(u, OUT0, EOK).(ctl := u.ctl.(index := index), dev := dev);
            && Inv(c) && c.eps[OUT0].ec == EOK
            && Next(env, u, OutComplete(0)) ==
               (if env.hook(s, Reply(rc, None, 0)).status == EOK then SendCtl(c, Block([]), 0, StatusInCb)
                else StartSetup(c))
            && Inv(Next(env, u, OutComplete(0)))
  {
    var (dev, rc) := NoData(u.dev, s);
    var c := Cleared(u, OUT0, EOK);
    ClearKeeps(u, OUT0, EOK);
    SameEps(c, c.(ctl := u.ctl.(index := LastSetup(u.eps[OUT0].offs, u.ctl.index)), dev := dev));
    NextKeeps(env, u, OutComplete(0));
    hide NoData, Answer, Begin;
  }

  // ---- the device over a run of the engine ----

  /** The request that an event has the core process: the last SETUP packet when its reception ends or is stopped, and
      the same one again when data it announced have come in. */
  function Processed(u: Usb, e: Event): Option<Setup>
    requires Shape(u)
  {
    if e == OutComplete(0) || (e == Stop(OUT0) && u.eps[OUT0].ec == EBUSY) then
      if u.eps[OUT0].cb == SetupCb then Some(u.ctl.setups[LastSetup(u.eps[OUT0].offs, u.ctl.index)])
      else if u.eps[OUT0].cb == DataOutCb && u.eps[OUT0].offs != CTRLEP_SIZE then Some(u.ctl.setups[u.ctl.index])
      else None
    else None
  }

  /** Requests and resets of a run, in order. */
  function History(env: Env, es: seq<Event>): seq<UsbDevice.Event> {
    if es == [] then []
    else
      var before, e := es[..|es| - 1], es[|es| - 1];
      InvShape(Run(env, before));
      History(env, before)
      + (if e.BusReset? then [UsbDevice.BusReset]
         else match Processed(Run(env, before), e)
              case Some(s) => [UsbDevice.Request(s)]
              case None => [])
  }

  lemma {:induction false} BeginAllDev(u: Usb, starts: seq<Start>)
    requires Shape(u) && forall i :: 0 <= i < |starts| ==> UserStart(starts[i])
    ensures BeginAll(u, starts).dev == u.dev
    decreases |starts|
  {
    if starts != [] {
      assert UserStart(starts[0]);
      BeginAllDev(Begin(u, starts[0].slot, starts[0].size, starts[0].cb), starts[1..]);
    }
  }

  /** What processing a request does to the device. */
  lemma ProcessedDev(env: Env, u: Usb)
    requires Shape(u)
    ensures var s := u.ctl.setups[u.ctl.index];
            ProcessSetup(env, u).dev == if s.length == 0 then NoData(u.dev, s).0 else u.dev
  {
    hide NoData, Answer, Begin, SendCtl, StartSetup, StartDataIn, StartDataOut;
    var s := u.ctl.setups[u.ctl.index];
    StartsKeepDev(u.(dev := NoData(u.dev, s).0), Block([]), 0, StatusInCb, None, 0);
    var r := env.hook(s, Answer(env, u.dev, s));
    StartsKeepDev(u, Block([]), 0, StatusInCb, r.ptr, Wrap32(r.size));
  }

  /** A callback that processes no request leaves the device alone. */
  lemma RunCbDev(env: Env, u: Usb, cb: Callback, error: int, size: nat)
    requires Shape(u) && (cb.UserCb? ==> UserCallback(cb))
    requires error == EUSB_RESET || !(cb == SetupCb || (cb == DataOutCb && size != CTRLEP_SIZE))
    ensures RunCb(env, u, cb, error, size).dev == u.dev
  {
    hide NoData, Answer, Begin, SendCtl, StartSetup, StartDataIn, StartDataOut, ProcessSetup;
    var offset := Wrap32(u.ctl.offset + CTRLEP_SIZE);
    var u1 := u.(ctl := u.ctl.(offset := offset));
    var u2 := u.(ctl := u.ctl.(offset := Wrap32(u.ctl.offset + size)));
    var n := Min(CTRLEP_SIZE, Wrap32(u.ctl.size - offset));
    StartsKeepDev(u, Block([]), 0, StatusOutCb, None, 0);
    StartsKeepDev(u1, PayloadAt(u.ctl.ptr, offset, n), n, DataInCb, None, 0);
    StartsKeepDev(u2, Block([]), Min(CTRLEP_SIZE, Wrap32(u2.ctl.size - u2.ctl.offset)), DataOutCb, None, 0);
    if cb.UserCb? {
      UserRuns(env, u, cb, error, size);
      BeginAllDev(u, cb.starts);
    }
  }

  lemma FinishDev(env: Env, u: Usb, slot: nat, ec: int)
    requires Inv(u) && slot < 8
    requires ec == EUSB_RESET || slot != OUT0
    ensures Finish(env, u, slot, ec).dev == u.dev
  {
    hide RunCb, UserCallback;
    FinishRuns(env, u, slot, ec);
    assert CbFits(slot, u.eps[slot].cb);
    NotUser(slot, u.eps[slot].cb);
    RunCbDev(env, Cleared(u, slot, ec), u.eps[slot].cb, ec, u.eps[slot].offs);
  }

  lemma NotUser(slot: nat, cb: Callback)
    requires CbFits(slot, cb) && slot < 8
    ensures slot != OUT0 ==> cb != SetupCb && cb != DataOutCb
  {
  }

  lemma {:induction false} FinishAllDev(env: Env, u: Usb, n: nat)
    requires Inv(u) && n <= 8
    ensures FinishAll(env, u, n).dev == u.dev
  {
    if n > 0 {
      hide Finish, Inv;
      FinishAllDev(env, u, n - 1);
      FinishDev(env, FinishAll(env, u, n - 1), n - 1, EUSB_RESET);
    }
  }

  /** The end of a transfer on endpoint 0 OUT, other than by a reset of the device. */
  lemma OutFinishDev(env: Env, u: Usb, ec: int)
    requires Inv(u) && ec != EUSB_RESET
    ensures var cb, c := u.eps[OUT0].cb, Cleared(u, OUT0, ec);
            var index := if cb == SetupCb then LastSetup(u.eps[OUT0].offs, u.ctl.index) else u.ctl.index;
            var s := u.ctl.setups[index];
            Finish(env, u, OUT0, ec).dev ==
            if (cb == SetupCb || (cb == DataOutCb && u.eps[OUT0].offs != CTRLEP_SIZE)) && s.length == 0
            then NoData(u.dev, s).0 else u.dev
  {
    hide ProcessSetup, NoData, DataInDone, StartSetup, UserCallback, BeginAll;
    FinishRuns(env, u, OUT0, ec);
    var cb, c, size := u.eps[OUT0].cb, Cleared(u, OUT0, ec), u.eps[OUT0].offs;
    if cb == SetupCb {
      ProcessedDev(env, c.(ctl := u.ctl.(index := LastSetup(size, u.ctl.index))));
    } else if cb == DataOutCb && size != CTRLEP_SIZE {
      ProcessedDev(env, c.(ctl := c.ctl.(offset := Wrap32(c.ctl.offset + size))));
    } else {
      hide RunCb;
      RunCbDev(env, c, cb, ec, size);
    }
  }

  /** One event changes the device exactly by the reset or the request it stands for. */
  lemma NextDev(env: Env, u: Usb, e: Event)
    requires Inv(u)
    ensures Shape(u)
    ensures Next(env, u, e).dev ==
            if e.BusReset? then After()
            else match Processed(u, e)
                 case Some(s) => if s.length == 0 then NoData(u.dev, s).0 else u.dev
                 case None => u.dev
  {
    hide Finish, FinishAll, UserCallback, UsbLayout.NeedsZlp, Inv, NoData;
    InvShape(u);
    match e
    case InComplete(ep) => if ep < 4 { FinishDev(env, u, ep, EOK); }
    case OutComplete(ep) =>
      if ep == 0 {
        OutFinishDev(env, u, EOK);
      } else if ep < 4 {
        FinishDev(env, u, OUT0 + ep, EOK);
      }
    case Stop(slot) =>
      if slot == OUT0 {
        OutFinishDev(env, u, EUSB_EP_DIS);
      } else if slot < 8 {
        FinishDev(env, u, slot, EUSB_EP_DIS);
      }
    case Enumerated => FinishAllDev(env, u, 8);
    case _ =>
  }

  /** Over every run of the engine the device is what its requests and resets make of it, so everything proved about
      histories holds of it. */
  lemma {:induction false} DeviceFollowsRequests(env: Env, es: seq<Event>)
    ensures Run(env, es).dev == UsbDevice.Run(History(env, es))
  {
    if es != [] {
      var before, e := es[..|es| - 1], es[|es| - 1];
      var u, h := Run(env, before), History(env, before);
      DeviceFollowsRequests(env, before);
      NextDev(env, u, e);
      hide Next, Inv, NoData, Processed;
      var all := History(env, es);
      assert all == h || all[..|all| - 1] == h;
    }
  }

  // ---- the status packet comes first ----

  /** One packet more is handed to the endpoint, or none. */
  predicate Sent(before: Usb, after: Usb, p: Payload) {
    |after.eps| == 8 && after.wire == before.wire + [p] && after.eps[IN0].ec == EBUSY
  }

  predicate Quiet(before: Usb, after: Usb) {
    |after.eps| == 8 && after.wire == before.wire && after.eps[IN0].ec == EOK
  }

  /** The other order: the status packet is handled before the completion that is still due. Then that completion
      sends a packet nobody asked for if and only if it was not the first of the stage: memory at the stale
      offset, or an empty packet in the one stage where the offset wraps to zero. */
  lemma EarlyStatusExact(env: Env, u: Usb, u0: Usb, buf: seq<byte>, size: u32, k: nat)
    requires Sending(u, u0, buf, size, k)
    ensures var u1 := Next(env, u, OutComplete(0));
            && Inv(u1)
            && var u2 := Next(env, u1, InComplete(0));
               if k == 0 then Quiet(u, u2)
               else Sent(u, u2, if CTRLEP_SIZE * (k + 1) == W32 then Block([]) else Wild(CTRLEP_SIZE))
  {
    hide Chunks, Blocks, Next, DataInDone, Begin, Wrap32, Inv;
    InvShape(u);
    StatusOutEnds(env, u);
    var u1 := Next(env, u, OutComplete(0));
    DataInCompletes(env, u1);
    StaleLeft(k);
    var left := if k == 0 then 0 else W32 - CTRLEP_SIZE * k;
    DataInGoesOn(Cleared(u1, IN0, EOK), left);
    BeginOther(Cleared(u1, IN0, EOK), StatusOutCb);
    assert DataInDone(Cleared(u1, IN0, EOK)) == Next(env, u1, InComplete(0));
  }

  lemma StaleLeft(k: nat)
    requires CTRLEP_SIZE * k < W32
    ensures Wrap32(0 - CTRLEP_SIZE * k) == if k == 0 then 0 else W32 - CTRLEP_SIZE * k
    ensures k > 0 ==> W32 - CTRLEP_SIZE * k == CTRLEP_SIZE || W32 - CTRLEP_SIZE * k >= 2 * CTRLEP_SIZE
    ensures Wrap32(CTRLEP_SIZE * k + CTRLEP_SIZE) == if CTRLEP_SIZE * (k + 1) == W32 then 0 else CTRLEP_SIZE * (k + 1)
  {
  }

  lemma BeginOther(u: Usb, cb: Callback)
    requires Shape(u)
    ensures var u' := Begin(u, OUT0, 0, cb); |u'.eps| == 8 && u'.wire == u.wire && u'.eps[IN0] == u.eps[IN0]
  {
  }
}
