/** The endpoint engine and the control endpoint as the driver runs them: records updated in place,
    callbacks called by name. */
module UsbCore {
  import opened Bytes
  import opened UsbDevice
  import opened UsbEngine
  import UsbLayout

  lemma JoinSlots(ins: seq<Ep>, outs: seq<Ep>, ep: nat, e: Ep)
    requires ep < |ins|
    ensures ins[ep := e] + outs == (ins + outs)[ep := e]
  {
  }

  class Core {
    const env: Env
    const epIn: array<Ep>
    const epOut: array<Ep>
    var ctlPtr: Option<seq<byte>>
    var ctlSize: u32
    var ctlOffset: u32
    var ctlIndex: nat
    const ctlSetup: array<Setup>
    const dev: UsbDevice.Block
    var next: nat
    ghost var wire: seq<Payload>
    ghost var log: seq<nat>
    ghost var issued: set<nat>

    ghost predicate Ok()
      reads this, dev
    {
      && epIn.Length == 4 && epOut.Length == 4 && epIn != epOut
      && ctlSetup.Length == 3 && ctlIndex < 3 && dev.Valid()
    }

    ghost function Abs(): (u: Usb)
      requires Ok()
      reads this, epIn, epOut, ctlSetup, dev, dev.alternate
      ensures Shape(u)
      ensures forall i :: 0 <= i < 4 ==> u.eps[i] == epIn[i] && u.eps[OUT0 + i] == epOut[i]
    {
      Usb(epIn[..] + epOut[..], Ctl(ctlPtr, ctlSize, ctlOffset, ctlIndex, ctlSetup[..]), dev.Abs(),
          wire, log, issued, next)
    }

    constructor (env: Env)
      ensures Ok() && this.env == env && Abs() == PowerUp()
      ensures fresh(epIn) && fresh(epOut) && fresh(ctlSetup) && fresh(dev) && fresh(dev.alternate)
    {
      this.env := env;
      epIn := new Ep[4](_ => IDLE);
      epOut := new Ep[4](_ => IDLE);
      ctlSetup := new Setup[3](_ => Setup(0, 0, 0, 0, 0));
      dev := new UsbDevice.Block();
      ctlPtr, ctlSize, ctlOffset, ctlIndex := None, 0, 0, 0;
      next, wire, log, issued := 0, [], [], {};
      new;
      assert epIn[..] + epOut[..] == PowerUp().eps;
      assert ctlSetup[..] == PowerUp().ctl.setups;
    }

    /** Does the packet count divide the size into full packets? */
    static method OwesPacket(size: nat, max: nat) returns (zlp: bool)
      requires max > 0
      ensures zlp == UsbLayout.NeedsZlp(size, max)
    {
      var count := UsbLayout.PacketCount(size, max);
      zlp := count * max == size;
    }

    /** The record of an accepted start. */
    method LoadIN(ep: nat, size: nat, cb: Callback, zlp: bool)
      requires Ok() && ep < 4
      modifies this`next, this`issued, epIn
      ensures Ok() && epIn[ep].ec == EBUSY
      ensures Abs() == var u := old(Abs());
                       u.(eps := u.eps[ep := Ep(EBUSY, size, 0, cb, zlp, u.next)],
                          issued := if cb == NoCb then u.issued else u.issued + {u.next},
                          next := u.next + 1)
    {
      ghost var ins, outs := epIn[..], epOut[..];
      epIn[ep] := Ep(EBUSY, size, 0, cb, zlp, next);
      assert epIn[..] == ins[ep := epIn[ep]] && epOut[..] == outs;
      JoinSlots(ins, outs, ep, epIn[ep]);
      issued := if cb == NoCb then issued else issued + {next};
      next := next + 1;
    }

    /** USB_StartINTransfer; `p` is what `ptr` and `size` designate. */
    method StartIN(ep: nat, p: Payload, size: nat, cb: Callback) returns (rc: int)
      requires Ok() && ep < 4
      modifies this`next, this`wire, this`issued, epIn
      ensures Ok()
      ensures Abs() == if ep == 0 then SendCtl(old(Abs()), p, size, cb) else Begin(old(Abs()), ep, size, cb)
      ensures rc == if old(epIn[ep]).ec == EBUSY then EBUSY else EOK
    {
      hide UsbLayout.NeedsZlp, MaxPacket;
      ghost var u := Abs();
      if epIn[ep].ec == EBUSY {
        return EBUSY;
      }
      var zlp := epIn[ep].zlp;
      if Bulk(ep) {
        zlp := OwesPacket(size, MaxPacket(ep));
      }
      LoadIN(ep, size, cb, zlp);
      if ep == 0 {
        wire := wire + [p];
      }
      rc := EOK;
    }

    /** USB_StartOUTTransfer and USB_StartSETUPTransfer do the same to the record. */
    method StartOUT(ep: nat, size: nat, cb: Callback) returns (rc: int)
      requires Ok() && ep < 4
      modifies this`next, this`issued, epOut
      ensures Ok() && Abs() == Begin(old(Abs()), OUT0 + ep, size, cb)
      ensures rc == if old(epOut[ep]).ec == EBUSY then EBUSY else EOK
    {
      ghost var u := Abs();
      if epOut[ep].ec == EBUSY {
        return EBUSY;
      }
      var zlp := epOut[ep].zlp;
      epOut[ep] := Ep(EBUSY, size, 0, cb, zlp, next);
      issued := if cb == NoCb then issued else issued + {next};
      next := next + 1;
      assert epIn[..] + epOut[..] == u.eps[OUT0 + ep := epOut[ep]];
      rc := EOK;
    }

    method StartSETUPStage()
      requires Ok()
      modifies this, epOut
      ensures Ok() && Abs() == StartSetup(old(Abs()))
    {
      hide Begin;
      ctlPtr, ctlSize := None, 0;
      var rc := StartOUT(0, SETUP_BYTES, SetupCb);
    }

    method StartDataINStage(ptr: Option<seq<byte>>, size: u32)
      requires Ok()
      modifies this, epIn, epOut
      ensures Ok() && Abs() == StartDataIn(old(Abs()), ptr, size)
    {
      hide Begin, SendCtl, PayloadAt;
      ctlPtr, ctlSize, ctlOffset := ptr, size, 0;
      var n := Min(CTRLEP_SIZE, ctlSize);
      var rc := StartIN(0, PayloadAt(ptr, 0, n), n, DataInCb);
      rc := StartOUT(0, 0, StatusOutCb);
    }

    method StartDataOUTStage(ptr: Option<seq<byte>>, size: u32)
      requires Ok()
      modifies this, epOut
      ensures Ok() && Abs() == StartDataOut(old(Abs()), ptr, size)
    {
      hide Begin;
      ctlPtr, ctlSize, ctlOffset := ptr, size, 0;
      var rc := StartOUT(0, Min(CTRLEP_SIZE, ctlSize), DataOutCb);
    }

    method DataINCallback(error: int)
      requires Ok()
      modifies this, epIn, epOut
      ensures Ok() && Abs() == if error == EUSB_RESET then StartSetup(old(Abs())) else DataInDone(old(Abs()))
    {
      hide Begin, SendCtl, PayloadAt, StartSetup;
      if error == EUSB_RESET {
        StartSETUPStage();
        return;
      }
      var rc;
      if Wrap32(ctlSize - ctlOffset) >= CTRLEP_SIZE {
        ctlOffset := Wrap32(ctlOffset + Min(CTRLEP_SIZE, Wrap32(ctlSize - ctlOffset)));
        var n := Min(CTRLEP_SIZE, Wrap32(ctlSize - ctlOffset));
        rc := StartIN(0, PayloadAt(ctlPtr, ctlOffset, n), n, DataInCb);
      } else {
        rc := StartOUT(0, 0, StatusOutCb);
      }
    }

    method DataOUTCallback(error: int, size: nat)
      requires Ok()
      modifies this, epIn, epOut, dev, dev.alternate
      ensures Ok()
      ensures Abs() == if error == EUSB_RESET then StartSetup(old(Abs())) else DataOutDone(env, old(Abs()), size)
    {
      hide Begin, StartSetup, UsbEngine.ProcessSetup;
      if error == EUSB_RESET {
        StartSETUPStage();
        return;
      }
      ctlOffset := Wrap32(ctlOffset + size);
      if size == CTRLEP_SIZE {
        var rc := StartOUT(0, Min(CTRLEP_SIZE, Wrap32(ctlSize - ctlOffset)), DataOutCb);
      } else {
        ProcessSetup();
      }
    }

    method SetupCallback(error: int, size: nat)
      requires Ok()
      modifies this, epIn, epOut, dev, dev.alternate
      ensures Ok() && Abs() == RunCb(env, old(Abs()), SetupCb, error, size)
    {
      hide UsbEngine.ProcessSetup;
      if error == EUSB_RESET {
        return;
      }
      ctlIndex := LastSetup(size, ctlIndex);
      ProcessSetup();
    }

    method ProcessSetup()
      requires Ok()
      modifies this, epIn, epOut, dev, dev.alternate
      ensures Ok() && Abs() == UsbEngine.ProcessSetup(env, old(Abs()))
    {
      var s := ctlSetup[ctlIndex];
      if s.length == 0 {
        ProcessSetupNoData(s);
      } else {
        ProcessSetupData(s);
      }
    }

    method ProcessSetupNoData(s: Setup)
      requires Ok() && s == ctlSetup[ctlIndex] && s.length == 0
      modifies this, epIn, epOut, dev, dev.alternate
      ensures Ok() && Abs() == UsbEngine.ProcessSetup(env, old(Abs()))
    {
      hide Begin, SendCtl, StartSetup, NoData;
      var rc := dev.ProcessNoData(s);
      rc := env.hook(s, Reply(rc, None, 0)).status;
      if rc == EOK {
        rc := StartIN(0, Payload.Block([]), 0, StatusInCb);
      } else {
        StartSETUPStage();
      }
    }

    method ProcessSetupData(s: Setup)
      requires Ok() && s == ctlSetup[ctlIndex] && s.length != 0
      modifies this, epIn, epOut
      ensures Ok() && Abs() == UsbEngine.ProcessSetup(env, old(Abs()))
    {
      hide Begin, SendCtl, StartSetup, StartDataIn, StartDataOut;
      hide GetDescriptor, GetConfiguration, GetStatus, GetInterface;
      var r := REFUSED;
      if s.Standard() {
        if s.DirIn() {
          if s.request == 6 {
            r := GetDescriptor(env, s);
          } else if s.request == 8 {
            r := dev.ProcessGetConfiguration(s);
          } else if s.request == 0 {
            r := dev.ProcessGetStatus(s);
          } else if s.request == 10 {
            r := dev.ProcessGetInterface(s);
          }
        }
      }
      assert r == Answer(env, dev.Abs(), s);
      r := env.hook(s, r);
      if r.status != EOK {
        StartSETUPStage();
      } else if s.DirIn() {
        StartDataINStage(r.ptr, Wrap32(r.size));
      } else if ctlPtr == None {
        StartDataOUTStage(r.ptr, Wrap32(r.size));
      } else {
        var rc := StartIN(0, Payload.Block([]), 0, StatusInCb);
      }
    }

    /** The callback of another user: start its transfers one after the other. */
    method UserCallback(starts: seq<Start>)
      requires Ok() && forall i :: 0 <= i < |starts| ==> UserStart(starts[i])
      modifies this, epIn, epOut
      ensures Ok() && Abs() == BeginAll(old(Abs()), starts)
    {
      ghost var u := Abs();
      for i := 0 to |starts|
        invariant Ok() && BeginAll(Abs(), starts[i..]) == BeginAll(u, starts)
      {
        hide Begin;
        var s := starts[i];
        assert UserStart(s);
        assert starts[i..][0] == s && starts[i..][1..] == starts[i + 1..];
        var rc;
        if s.slot < 4 {
          rc := StartIN(s.slot, Payload.Block([]), s.size, s.cb);
        } else {
          rc := StartOUT(s.slot - 4, s.size, s.cb);
        }
      }
      assert starts[|starts|..] == [];
    }

    method RunCallback(cb: Callback, error: int, size: nat)
      requires Ok() && (cb.UserCb? ==> UsbEngine.UserCallback(cb))
      modifies this, epIn, epOut, dev, dev.alternate
      ensures Ok() && Abs() == RunCb(env, old(Abs()), cb, error, size)
    {
      hide StartSetup, DataInDone, DataOutDone, BeginAll, UsbEngine.ProcessSetup;
      match cb
      case NoCb =>
      case SetupCb => SetupCallback(error, size);
      case StatusOutCb => StartSETUPStage();
      case StatusInCb => StartSETUPStage();
      case DataInCb => DataINCallback(error);
      case DataOutCb => DataOUTCallback(error, size);
      case UserCb(starts) => UserCallback(starts);
    }

    /** USB_FinishTransfer on an IN endpoint. */
    method FinishIN(ep: nat, ec: int)
      requires Ok() && Inv(Abs()) && ep < 4
      modifies this, epIn, epOut, dev, dev.alternate
      ensures Ok() && Inv(Abs()) && Abs() == Finish(env, old(Abs()), ep, ec)
    {
      ghost var u := Abs();
      FinishKeeps(env, u, ep, ec);
      assert CbFits(ep, u.eps[ep].cb);
      hide RunCb, Inv, UsbEngine.UserCallback;
      var e := epIn[ep];
      epIn[ep] := e.(ec := ec, cb := NoCb);
      assert epIn[..] + epOut[..] == u.eps[ep := epIn[ep]];
      if e.cb != NoCb {
        log := log + [e.serial];
      }
      assert Abs() == Cleared(u, ep, ec);
      RunCallback(e.cb, ec, e.offs);
    }

    /** USB_FinishTransfer on an OUT endpoint. */
    method FinishOUT(ep: nat, ec: int)
      requires Ok() && Inv(Abs()) && ep < 4
      modifies this, epIn, epOut, dev, dev.alternate
      ensures Ok() && Inv(Abs()) && Abs() == Finish(env, old(Abs()), OUT0 + ep, ec)
    {
      ghost var u := Abs();
      FinishKeeps(env, u, OUT0 + ep, ec);
      assert CbFits(OUT0 + ep, u.eps[OUT0 + ep].cb);
      hide RunCb, Inv, UsbEngine.UserCallback;
      var e := epOut[ep];
      epOut[ep] := e.(ec := ec, cb := NoCb);
      assert epIn[..] + epOut[..] == u.eps[OUT0 + ep := epOut[ep]];
      if e.cb != NoCb {
        log := log + [e.serial];
      }
      assert Abs() == Cleared(u, OUT0 + ep, ec);
      RunCallback(e.cb, ec, e.offs);
    }

    /** Transfer complete on an IN endpoint. */
    method OnInComplete(ep: nat)
      requires Ok() && Inv(Abs()) && ep < 4
      modifies this, epIn, epOut, dev, dev.alternate
      ensures Ok() && Inv(Abs()) && Abs() == Next(env, old(Abs()), InComplete(ep))
    {
      ghost var u := Abs();
      NextKeeps(env, u, InComplete(ep));
      hide Finish, Inv;
      if epIn[ep].zlp {
        epIn[ep] := epIn[ep].(zlp := false);
        assert epIn[..] + epOut[..] == u.eps[ep := epIn[ep]];
      } else {
        FinishIN(ep, EOK);
      }
    }

    /** Transfer complete or SETUP phase done on an OUT endpoint. */
    method OnOutComplete(ep: nat)
      requires Ok() && Inv(Abs()) && ep < 4
      modifies this, epIn, epOut, dev, dev.alternate
      ensures Ok() && Inv(Abs()) && Abs() == Next(env, old(Abs()), OutComplete(ep))
    {
      FinishOUT(ep, EOK);
    }

    /** The first loop of USB_HandleEnum. */
    method AbortAllIN()
      requires Ok() && Inv(Abs())
      modifies this, epIn, epOut, dev, dev.alternate
      ensures Ok() && Inv(Abs()) && Abs() == FinishAll(env, old(Abs()), OUT0)
    {
      ghost var u := Abs();
      assert FinishAll(env, u, 0) == u;
      hide Finish, FinishAll, Inv;
      for i := 0 to 4
        invariant Ok() && Inv(Abs()) && Abs() == FinishAll(env, u, i)
      {
        FinishAllStep(env, u, i);
        FinishIN(i, EUSB_RESET);
      }
    }

    /** The second loop. */
    method AbortAllOUT(ghost u: Usb)
      requires Ok() && Inv(u) && Inv(Abs()) && Abs() == FinishAll(env, u, OUT0)
      modifies this, epIn, epOut, dev, dev.alternate
      ensures Ok() && Inv(Abs()) && Abs() == FinishAll(env, u, 8)
    {
      hide Finish, FinishAll, Inv;
      for i := 0 to 4
        invariant Ok() && Inv(Abs()) && Abs() == FinishAll(env, u, OUT0 + i)
      {
        FinishAllStep(env, u, OUT0 + i);
        FinishOUT(i, EUSB_RESET);
      }
    }

    /** USB_HandleEnum. */
    method OnEnumerated()
      requires Ok() && Inv(Abs())
      modifies this, epIn, epOut, dev, dev.alternate
      ensures Ok() && Inv(Abs()) && Abs() == HandleEnum(env, old(Abs()))
      ensures Listening(Abs())
    {
      ghost var u := Abs();
      EnumerationListens(env, u);
      hide FinishAll, Inv, StartSetup, Listening;
      StartSetupKeeps(FinishAll(env, u, 8));
      AbortAllIN();
      AbortAllOUT(u);
      StartSETUPStage();
    }

    /** USB_HandleReset, as far as the control block is concerned. */
    method OnBusReset()
      requires Ok() && Inv(Abs())
      modifies dev, dev.alternate
      ensures Ok() && Inv(Abs()) && Abs() == Next(env, old(Abs()), UsbEngine.Event.BusReset)
    {
      NextKeeps(env, Abs(), UsbEngine.Event.BusReset);
      dev.Reset();
    }
  }
}
