/** The device control block of usb_core.c and the standard requests over it (USB 2.0, sections 9.1 and 9.4). */
module UsbDevice {
  import opened Bytes

  const DEFAULT: nat := 0
  const ADDRESS: nat := 1
  const CONFIGURED: nat := 2

  /** Counts published by the descriptor set. */
  const ENDPOINTS: nat := 4
  const IFACES: nat := 3

  datatype Setup = Setup(requestType: byte, request: byte, value: u16, index: u16, length: u16)
  {
    predicate DirIn() { requestType >= 0x80 }
    predicate Standard() { requestType / 0x20 % 4 == 0 }
    function Recipient(): nat { requestType % 0x20 }
    function EpNum(): nat { index % 0x80 }
    predicate EpTx() { index / 0x80 % 2 == 1 }
    function Iface(): nat { index % 0x100 }
  }

  /** The request type is direction, kind and recipient; the low byte of the index is a direction and an endpoint, or
      an interface. */
  lemma SetupFields(s: Setup, dir: bool, kind: nat, recipient: nat, high: nat, tx: bool, ep: nat)
    requires kind < 4 && recipient < 0x20 && high < 0x100 && ep < 0x80
    requires s.requestType == (if dir then 0x80 else 0) + 0x20 * kind + recipient
    requires s.index == 0x100 * high + (if tx then 0x80 else 0) + ep
    ensures (s.DirIn() <==> dir) && (s.Standard() <==> kind == 0) && s.Recipient() == recipient
    ensures (s.EpTx() <==> tx) && s.EpNum() == ep && s.Iface() == (if tx then 0x80 else 0) + ep
  {
    RequestTypeParts(s.requestType, dir, kind, recipient);
    IndexParts(s.index, high, tx, ep);
  }

  lemma RequestTypeParts(x: nat, dir: bool, kind: nat, recipient: nat)
    requires kind < 4 && recipient < 0x20 && x == (if dir then 0x80 else 0) + 0x20 * kind + recipient
    ensures (x >= 0x80 <==> dir) && x % 0x20 == recipient && x / 0x20 % 4 == kind
  {
    assert x / 0x20 == (if dir then 4 else 0) + kind;
  }

  lemma IndexParts(x: nat, high: nat, tx: bool, ep: nat)
    requires high < 0x100 && ep < 0x80 && x == 0x100 * high + (if tx then 0x80 else 0) + ep
    ensures x % 0x80 == ep && (x / 0x80 % 2 == 1 <==> tx) && x % 0x100 == (if tx then 0x80 else 0) + ep
  {
    assert x / 0x80 == 2 * high + (if tx then 1 else 0);
  }

  const TO_DEVICE: nat := 0
  const TO_IFACE: nat := 1
  const TO_EP: nat := 2

  /** The `dev` record, and the address field of the DCFG register. */
  datatype Dev = Dev(state: nat, address: u32, configuration: u32, status: u32,
                     haltTx: bv32, haltRx: bv32, alternate: seq<u32>, dad: nat)

  /** What a request handler reports: status, data pointer (None is the null pointer), size. */
  datatype Reply = Reply(status: int, ptr: Option<seq<byte>>, size: nat)

  const REFUSED: Reply := Reply(EFATAL, None, 0)

  function After(): Dev {
    Dev(DEFAULT, 0, 0, 0, 0, 0, [0, 0, 0, 0, 0, 0, 0, 0, 0, 0], 0)
  }

  /** 1 << n for an endpoint number. */
  function Bit(n: nat): bv32
    requires n < ENDPOINTS
  {
    if n == 0 then 1 else if n == 1 then 2 else if n == 2 then 4 else 8
  }

  function SetAddress(d: Dev, s: Setup): (Dev, int) {
    if d.state == CONFIGURED || s.Recipient() != TO_DEVICE then (d, EFATAL)
    else (d.(address := s.value, state := if s.value == 0 then DEFAULT else ADDRESS,
             dad := s.value % 0x100 % 0x80), EOK)
  }

  function SetConfiguration(d: Dev, s: Setup): (Dev, int) {
    if d.state == DEFAULT || s.Recipient() != TO_DEVICE then (d, EFATAL)
    else (d.(configuration := s.value, state := if s.value == 0 then ADDRESS else CONFIGURED), EOK)
  }

  /** SET_FEATURE and CLEAR_FEATURE: only the halt of endpoints 1 and up is accepted, in any device state. */
  predicate HaltTarget(s: Setup) {
    s.Recipient() == TO_EP && 1 <= s.EpNum() < ENDPOINTS && s.value == 0
  }

  function ChangeHalt(d: Dev, s: Setup, halt: bool): (Dev, int) {
    if !HaltTarget(s) then (d, EFATAL)
    else
      var bit := Bit(s.EpNum());
      (if s.EpTx() then d.(haltTx := if halt then BitSet(d.haltTx, bit) else BitClear(d.haltTx, bit))
       else d.(haltRx := if halt then BitSet(d.haltRx, bit) else BitClear(d.haltRx, bit)), EOK)
  }

  function BitSet(m: bv32, bit: bv32): bv32 { m | bit }

  function BitClear(m: bv32, bit: bv32): bv32 { m & !bit }

  /** Tested on a copy of the mask that keeps eight bits. */
  predicate BitTest(m: bv32, bit: bv32) { m & 0xff & bit != 0 }

  function SetInterface(d: Dev, s: Setup): (Dev, int)
    requires |d.alternate| == 10
  {
    if s.length != 0 || s.Recipient() != TO_IFACE || d.state != CONFIGURED || s.Iface() >= IFACES then (d, EFATAL)
    else (d.(alternate := d.alternate[s.Iface() := s.value % 0x100]), EOK)
  }

  /** Requests without a data stage. */
  function NoData(d: Dev, s: Setup): (r: (Dev, int))
    requires |d.alternate| == 10
    ensures |r.0.alternate| == 10
  {
    if !s.Standard() || s.DirIn() then (d, EFATAL)
    else if s.request == 5 then SetAddress(d, s)
    else if s.request == 9 then SetConfiguration(d, s)
    else if s.request == 1 then ChangeHalt(d, s, false)
    else if s.request == 3 then (if s.length != 0 then (d, EFATAL) else ChangeHalt(d, s, true))
    else if s.request == 11 then SetInterface(d, s)
    else (d, EFATAL)
  }

  function Low(x: u32): byte { x % 0x100 }

  function GetConfiguration(d: Dev, s: Setup): Reply {
    if s.Recipient() == TO_DEVICE && s.value == 0 && s.index == 0 && s.length == 1 && d.state != DEFAULT
    then Reply(EOK, Some([Low(d.configuration)]), 1) else REFUSED
  }

  predicate Halted(d: Dev, ep: nat, tx: bool)
    requires ep < ENDPOINTS
  {
    BitTest(if tx then d.haltTx else d.haltRx, Bit(ep))
  }

  function GetStatus(d: Dev, s: Setup): Reply {
    if s.value != 0 || s.length != 2 then REFUSED
    else if s.Recipient() == TO_DEVICE then
      if s.index == 0 && d.state != DEFAULT then Reply(EOK, Some([Low(d.status), 0]), 2) else REFUSED
    else if s.Recipient() == TO_IFACE then
      if d.state == CONFIGURED && s.Iface() < IFACES then Reply(EOK, Some([0, 0]), 2) else REFUSED
    else if s.Recipient() == TO_EP then
      if (s.EpNum() == 0 && d.state != DEFAULT) || (0 < s.EpNum() < ENDPOINTS && d.state == CONFIGURED)
      then Reply(EOK, Some([if Halted(d, s.EpNum(), s.EpTx()) then 1 else 0, 0]), 2) else REFUSED
    else REFUSED
  }

  function GetInterface(d: Dev, s: Setup): Reply
    requires |d.alternate| == 10
  {
    if s.value == 0 && s.length == 1 && s.Recipient() == TO_IFACE && d.state == CONFIGURED && s.Iface() < IFACES
    then Reply(EOK, Some([Low(d.alternate[s.Iface()])]), 1) else REFUSED
  }

  // ---- histories ----

  datatype Event = Request(s: Setup) | BusReset

  /** The control block after a run since power-up. */
  function Run(es: seq<Event>): (d: Dev)
    ensures |d.alternate| == 10
  {
    if es == [] then After()
    else
      var d, e := Run(es[..|es| - 1]), es[|es| - 1];
      if e.BusReset? then After()
      else if e.s.length == 0 then NoData(d, e.s).0
      else d
  }

  predicate Agrees(d: Dev) {
    && (d.state == CONFIGURED <==> d.configuration != 0)
    && (d.state == DEFAULT <==> d.address == 0)
    && d.state <= CONFIGURED
    && d.dad == d.address % 0x80
  }

  lemma NoDataAgrees(d: Dev, s: Setup)
    requires |d.alternate| == 10 && Agrees(d)
    ensures Agrees(NoData(d, s).0)
  {
    hide SetAddress, SetConfiguration, ChangeHalt, SetInterface, Agrees;
    AddressAgrees(d, s);
    ConfigurationAgrees(d, s);
    OthersAgree(d, s);
  }

  lemma AddressAgrees(d: Dev, s: Setup)
    requires Agrees(d)
    ensures Agrees(SetAddress(d, s).0)
  {
    LowSeven(s.value);
  }

  lemma ConfigurationAgrees(d: Dev, s: Setup)
    requires Agrees(d)
    ensures Agrees(SetConfiguration(d, s).0)
  {
  }

  lemma OthersAgree(d: Dev, s: Setup)
    requires |d.alternate| == 10 && Agrees(d)
    ensures forall halt :: Agrees(ChangeHalt(d, s, halt).0)
    ensures Agrees(SetInterface(d, s).0)
  {
    hide BitSet, BitClear, Bit, HaltTarget;
  }

  lemma LowSeven(v: int)
    ensures v % 0x100 % 0x80 == v % 0x80
  {
  }

  /** Over every run: configured exactly when a configuration is selected, default exactly at address
      zero, and the address register holds the low seven bits of the address. */
  lemma {:induction false} StateAgrees(es: seq<Event>)
    ensures var d := Run(es);
            && (d.state == CONFIGURED <==> d.configuration != 0)
            && (d.state == DEFAULT <==> d.address == 0)
            && d.state <= CONFIGURED
            && d.dad == d.address % 0x80
  {
    if es != [] {
      hide NoData;
      StateAgrees(es[..|es| - 1]);
      var e := es[|es| - 1];
      if e.Request? {
        NoDataAgrees(Run(es[..|es| - 1]), e.s);
      }
    }
  }

  /** The register equals the address exactly when the address is one a host may assign. */
  lemma AddressRegisterExact(es: seq<Event>)
    ensures Run(es).dad == Run(es).address <==> Run(es).address <= 127
  {
    StateAgrees(es);
  }

  /** A value past 127 is accepted and splits the two apart. */
  lemma WideAddressSplits(s: Setup)
    requires s == Setup(0, 5, 200, 0, 0)
    ensures Run([Request(s)]).address == 200 && Run([Request(s)]).dad == 72
  {
    assert [Request(s)][..0] == [];
    assert Run([Request(s)]) == NoData(Run([]), s).0;
  }

  /** An accepted SET_FEATURE or CLEAR_FEATURE for the halt of one endpoint direction. */
  predicate ChangesHalt(s: Setup, ep: nat, tx: bool) {
    s.length == 0 && s.Standard() && !s.DirIn() && (s.request == 1 || s.request == 3) &&
    s.Recipient() == TO_EP && 1 <= s.EpNum() <= 3 && s.value == 0 && s.EpNum() == ep && s.EpTx() == tx
  }

  /** What the last such request said, read off the history alone. */
  function LastHalt(es: seq<Event>, ep: nat, tx: bool): bool {
    if es == [] then false
    else
      var e := es[|es| - 1];
      if e.BusReset? then false
      else if ChangesHalt(e.s, ep, tx) then e.s.request == 3
      else LastHalt(es[..|es| - 1], ep, tx)
  }

  lemma OtherBit(m: bv32, b: bv32, c: bv32)
    requires b & c == 0
    ensures BitTest(BitSet(m, b), c) == BitTest(m, c) && BitTest(BitClear(m, b), c) == BitTest(m, c)
  {
    OtherLane(m, b, c);
  }

  lemma OtherLane(m: bv32, b: bv32, c: bv32)
    requires b & c == 0
    ensures (m | b) & 0xff & c == m & 0xff & c && (m & !b) & 0xff & c == m & 0xff & c
  {
  }

  lemma SameBit(m: bv32, b: bv32)
    requires b & 0xff == b && b != 0
    ensures BitTest(BitSet(m, b), b) && !BitTest(BitClear(m, b), b)
  {
  }

  lemma BitFacts(i: nat, j: nat)
    requires i < ENDPOINTS && j < ENDPOINTS
    ensures Bit(i) & 0xff == Bit(i) && Bit(i) != 0 && (i != j ==> Bit(i) & Bit(j) == 0)
  {
  }

  lemma MaskBits(m: bv32, i: nat, j: nat)
    requires i < ENDPOINTS && j < ENDPOINTS
    ensures BitTest(BitSet(m, Bit(i)), Bit(j)) <==> i == j || BitTest(m, Bit(j))
    ensures BitTest(BitClear(m, Bit(i)), Bit(j)) <==> i != j && BitTest(m, Bit(j))
  {
    hide Bit, BitSet, BitClear, BitTest;
    BitFacts(i, j);
    if i == j {
      SameBit(m, Bit(i));
    } else {
      OtherBit(m, Bit(i), Bit(j));
    }
  }

  lemma {:induction false} HaltIsLastHalt(es: seq<Event>, ep: nat, tx: bool)
    requires ep < ENDPOINTS
    ensures Halted(Run(es), ep, tx) <==> LastHalt(es, ep, tx)
  {
    hide BitSet, BitClear, Bit;
    assert !BitTest(0, Bit(ep));
    if es != [] {
      var d, e := Run(es[..|es| - 1]), es[|es| - 1];
      HaltIsLastHalt(es[..|es| - 1], ep, tx);
      if e.Request? && HaltTarget(e.s) {
        MaskBits(if e.s.EpTx() then d.haltTx else d.haltRx, e.s.EpNum(), ep);
      }
    }
  }

  /** Nothing ever sets the status word. */
  lemma {:induction false} StatusStaysZero(es: seq<Event>)
    ensures Run(es).status == 0
  {
    if es != [] {
      StatusStaysZero(es[..|es| - 1]);
      hide BitSet, BitClear, Bit;
    }
  }

  /** Who may be asked for its status: the addressed device, and in a configured one its interfaces and endpoints;
      endpoint 0 already when addressed. */
  predicate HasStatus(d: Dev, s: Setup) {
    || (s.Recipient() == TO_DEVICE && s.index == 0 && d.address != 0)
    || (s.Recipient() == TO_IFACE && s.Iface() < IFACES && d.configuration != 0)
    || (s.Recipient() == TO_EP && s.EpNum() == 0 && d.address != 0)
    || (s.Recipient() == TO_EP && 1 <= s.EpNum() < ENDPOINTS && d.configuration != 0)
  }

  /** GET_STATUS answers exactly those, with two bytes: zero, but for a halted endpoint one and zero. Halted is what
      the last accepted SET_FEATURE or CLEAR_FEATURE for it said since the last reset. */
  lemma GetStatusReportsHistory(es: seq<Event>, s: Setup)
    ensures var d := Run(es);
            GetStatus(d, s) ==
            if s.value == 0 && s.length == 2 && HasStatus(d, s)
            then Reply(EOK, Some([if s.Recipient() == TO_EP && LastHalt(es, s.EpNum(), s.EpTx()) then 1 else 0, 0]), 2)
            else REFUSED
  {
    StateAgrees(es);
    StatusStaysZero(es);
    if s.EpNum() < ENDPOINTS {
      HaltIsLastHalt(es, s.EpNum(), s.EpTx());
    }
    hide Run, LastHalt, Halted, BitTest;
  }

  /** SET_INTERFACE is accepted for this interface in a configured device. */
  predicate ChangesAlternate(d: Dev, s: Setup, iface: nat) {
    s.length == 0 && s.Standard() && !s.DirIn() && s.request == 11 && s.Recipient() == TO_IFACE &&
    d.configuration != 0 && s.Iface() == iface
  }

  function LastAlternate(es: seq<Event>, iface: nat): byte {
    if es == [] then 0
    else
      var e := es[|es| - 1];
      if e.BusReset? then 0
      else if ChangesAlternate(Run(es[..|es| - 1]), e.s, iface) then e.s.value % 0x100
      else LastAlternate(es[..|es| - 1], iface)
  }

  lemma {:induction false} AlternateIsLast(es: seq<Event>, iface: nat)
    requires iface < IFACES
    ensures Run(es).alternate[iface] == LastAlternate(es, iface)
  {
    if es != [] {
      AlternateIsLast(es[..|es| - 1], iface);
      StateAgrees(es[..|es| - 1]);
    }
  }

  /** GET_INTERFACE answers exactly for the interfaces of a configured device, with the last accepted SET_INTERFACE
      since the last reset. */
  lemma GetInterfaceReportsHistory(es: seq<Event>, s: Setup)
    ensures var d := Run(es);
            GetInterface(d, s) ==
            if s.value == 0 && s.length == 1 && s.Recipient() == TO_IFACE && s.Iface() < IFACES && d.configuration != 0
            then Reply(EOK, Some([LastAlternate(es, s.Iface())]), 1) else REFUSED
  {
    hide Run, LastAlternate, Low;
    StateAgrees(es);
    if s.Iface() < IFACES {
      AlternateIsLast(es, s.Iface());
      LowByte(LastAlternate(es, s.Iface()));
    }
  }

  /** SET_CONFIGURATION is accepted by an addressed device. */
  predicate ChangesConfiguration(d: Dev, s: Setup) {
    s.length == 0 && s.Standard() && !s.DirIn() && s.request == 9 && s.Recipient() == TO_DEVICE && d.address != 0
  }

  function LastConfiguration(es: seq<Event>): u16 {
    if es == [] then 0
    else
      var e := es[|es| - 1];
      if e.BusReset? then 0
      else if ChangesConfiguration(Run(es[..|es| - 1]), e.s) then e.s.value
      else LastConfiguration(es[..|es| - 1])
  }

  lemma {:induction false} ConfigurationIsLast(es: seq<Event>)
    ensures Run(es).configuration == LastConfiguration(es)
  {
    hide BitSet, BitClear, Bit;
    if es != [] {
      ConfigurationIsLast(es[..|es| - 1]);
      StateAgrees(es[..|es| - 1]);
    }
  }

  /** SET_ADDRESS is accepted by a device that is not configured. */
  predicate ChangesAddress(d: Dev, s: Setup) {
    s.length == 0 && s.Standard() && !s.DirIn() && s.request == 5 && s.Recipient() == TO_DEVICE && d.configuration == 0
  }

  function LastAddress(es: seq<Event>): u16 {
    if es == [] then 0
    else
      var e := es[|es| - 1];
      if e.BusReset? then 0
      else if ChangesAddress(Run(es[..|es| - 1]), e.s) then e.s.value
      else LastAddress(es[..|es| - 1])
  }

  lemma {:induction false} AddressIsLast(es: seq<Event>)
    ensures Run(es).address == LastAddress(es)
  {
    hide BitSet, BitClear, Bit;
    if es != [] {
      AddressIsLast(es[..|es| - 1]);
      StateAgrees(es[..|es| - 1]);
    }
  }

  /** A request without data succeeds if and only if it is one of those the histories count; a refused one changes
      nothing. */
  lemma NoDataSucceedsExactly(es: seq<Event>, s: Setup)
    ensures var d := Run(es);
            var (d', rc) := NoData(d, s);
            && (rc == EOK || (rc == EFATAL && d' == d))
            && (s.length == 0 ==>
                  (rc == EOK <==>
                     || ChangesAddress(d, s) || ChangesConfiguration(d, s)
                     || (s.Iface() < IFACES && ChangesAlternate(d, s, s.Iface()))
                     || ChangesHalt(s, s.EpNum(), s.EpTx())))
            && (s.length != 0 && (s.request == 3 || s.request == 11) ==> rc == EFATAL)
  {
    StateAgrees(es);
    hide Run, BitSet, BitClear, Bit;
  }

  /** GET_CONFIGURATION succeeds exactly in an addressed device, and reports the low byte of the last accepted
      SET_CONFIGURATION since the last reset. So it reports what was set if and only if that fits a byte, and tells a
      configured device from one that is not if and only if the value is zero or its low byte is not. */
  lemma GetConfigurationReportsHistory(es: seq<Event>, s: Setup)
    ensures var r, last := GetConfiguration(Run(es), s), LastConfiguration(es);
            && (r.status == EOK <==>
                  s.Recipient() == TO_DEVICE && s.value == 0 && s.index == 0 && s.length == 1 && Run(es).address != 0)
            && (r.status != EOK ==> r == REFUSED)
            && (r.status == EOK ==>
                  && r.size == 1 && r.ptr.Some? && |r.ptr.value| == 1
                  && var told := r.ptr.value[0];
                     && (told == last <==> last < 0x100)
                     && ((told != 0 <==> Run(es).state == CONFIGURED) <==> (last == 0 || last % 0x100 != 0)))
  {
    StateAgrees(es);
    ConfigurationIsLast(es);
    LowByte(LastConfiguration(es));
    hide Run, LastConfiguration, Low;
    GetConfigurationTells(Run(es), s);
  }

  lemma LowByte(x: u16)
    ensures Low(x) == x <==> x < 0x100
    ensures Low(x) == x % 0x100 && (Low(x) != 0 ==> x != 0)
  {
  }

  lemma GetConfigurationTells(d: Dev, s: Setup)
    ensures GetConfiguration(d, s) ==
            if s.Recipient() == TO_DEVICE && s.value == 0 && s.index == 0 && s.length == 1 && d.state != DEFAULT
            then Reply(EOK, Some([Low(d.configuration)]), 1) else REFUSED
  {
  }

  /** A configuration value of 0x0100 is accepted, and the configured device then reports zero. */
  lemma WideConfigurationHides(addr: Setup, config: Setup, get: Setup)
    requires addr == Setup(0, 5, 7, 0, 0) && config == Setup(0, 9, 0x100, 0, 0) && get == Setup(0x80, 8, 0, 0, 1)
    ensures var d := Run([Request(addr), Request(config)]);
            d.state == CONFIGURED && GetConfiguration(d, get) == Reply(EOK, Some([0]), 1)
  {
    var es := [Request(addr), Request(config)];
    assert es[..1] == [Request(addr)] && es[..1][..0] == [];
    assert Run(es[..1]) == NoData(Run([]), addr).0;
    assert Run(es) == NoData(Run(es[..1]), config).0;
  }

  /** A device is given an address and a configuration, an IN endpoint is halted and an interface set to its alternate
      setting, with the codes of USB 2.0, section 9.4; what it then reports. */
  lemma RequestExamples(address: Setup, config: Setup, halt: Setup, iface: Setup)
    requires address == Setup(0x00, 5, 7, 0, 0) && config == Setup(0x00, 9, 1, 0, 0)
    requires halt == Setup(0x02, 3, 0, 0x81, 0) && iface == Setup(0x01, 11, 1, 2, 0)
    ensures var d := Run([Request(address), Request(config), Request(halt), Request(iface)]);
            && d.state == CONFIGURED && d.address == 7 && d.configuration == 1
            && GetStatus(d, Setup(0x82, 0, 0, 0x81, 2)) == Reply(EOK, Some([1, 0]), 2)
            && GetStatus(d, Setup(0x82, 0, 0, 0x01, 2)) == Reply(EOK, Some([0, 0]), 2)
            && GetInterface(d, Setup(0x81, 10, 0, 2, 1)) == Reply(EOK, Some([1]), 1)
            && GetInterface(d, Setup(0x81, 10, 0, 1, 1)) == Reply(EOK, Some([0]), 1)
            && GetConfiguration(d, Setup(0x80, 8, 0, 0, 1)) == Reply(EOK, Some([1]), 1)
  {
    hide BitSet, BitClear;
    assert BitTest(BitSet(0, 2), 2) && !BitTest(0, 2) by {
      SameBit(0, 2);
    }
    var es := [Request(address), Request(config), Request(halt), Request(iface)];
    assert es[..3][..2] == es[..2] && es[..2][..1] == es[..1] && es[..1][..0] == [];
    var d1, d2, d3 := Run(es[..1]), Run(es[..2]), Run(es[..3]);
    assert d1 == NoData(Run([]), address).0;
    assert d2 == NoData(d1, config).0;
    assert d3 == NoData(d2, halt).0;
    assert Run(es) == NoData(d3, iface).0;
  }

  // ---- the block as the driver updates it ----

  class Block {
    var state: nat
    var address: u32
    var configuration: u32
    var status: u32
    var haltTx: bv32
    var haltRx: bv32
    const alternate: array<u32>
    /** The DAD field of DCFG. */
    var dad: nat

    ghost predicate Valid()
      reads this
    {
      alternate.Length == 10
    }

    ghost function Abs(): Dev
      reads this, alternate
    {
      Dev(state, address, configuration, status, haltTx, haltRx, alternate[..], dad)
    }

    constructor ()
      ensures Valid() && Abs() == After() && fresh(alternate)
    {
      alternate := new u32[10](_ => 0);
      state, address, configuration, status, haltTx, haltRx, dad := DEFAULT, 0, 0, 0, 0, 0, 0;
      new;
      assert alternate[..] == After().alternate;
    }

    /** USB_HandleReset and USBCore_ResetCallback: the register field, then the whole record. */
    method Reset()
      requires Valid()
      modifies this, alternate
      ensures Valid() && Abs() == After()
    {
      dad := 0;
      state, address, configuration, status, haltTx, haltRx := 0, 0, 0, 0, 0, 0;
      forall i | 0 <= i < alternate.Length {
        alternate[i] := 0;
      }
      assert alternate[..] == After().alternate;
    }

    /** USB_SetDeviceAddress takes a byte and writes a seven-bit field. */
    method SetDeviceAddress(addr: byte)
      modifies this`dad
      ensures dad == addr % 0x80
    {
      dad := addr % 0x80;
    }

    method ProcessSetAddress(s: Setup) returns (rc: int)
      requires Valid()
      modifies this
      ensures Valid() && (Abs(), rc) == SetAddress(old(Abs()), s)
    {
      rc := EFATAL;
      if state == CONFIGURED {
        return;
      }
      if s.Recipient() != TO_DEVICE {
        return;
      }
      address := s.value;
      state := if address == 0 then DEFAULT else ADDRESS;
      SetDeviceAddress(address % 0x100);
      rc := EOK;
    }

    method ProcessSetConfiguration(s: Setup) returns (rc: int)
      requires Valid()
      modifies this
      ensures Valid() && (Abs(), rc) == SetConfiguration(old(Abs()), s)
    {
      rc := EFATAL;
      if state == DEFAULT {
        return;
      }
      if s.Recipient() != TO_DEVICE {
        return;
      }
      configuration := s.value;
      state := if configuration == 0 then ADDRESS else CONFIGURED;
      rc := EOK;
    }

    method ProcessFeature(s: Setup, halt: bool) returns (rc: int)
      requires Valid()
      modifies this
      ensures Valid() && (Abs(), rc) == ChangeHalt(old(Abs()), s, halt)
    {
      hide BitSet, BitClear, Bit;
      rc := EFATAL;
      if s.Recipient() == TO_EP {
        var epNum, epDir := s.EpNum(), s.EpTx();
        if epNum >= 1 && epNum < ENDPOINTS && s.value == 0 {
          if epDir {
            haltTx := if halt then BitSet(haltTx, Bit(epNum)) else BitClear(haltTx, Bit(epNum));
          } else {
            haltRx := if halt then BitSet(haltRx, Bit(epNum)) else BitClear(haltRx, Bit(epNum));
          }
          rc := EOK;
        }
      }
    }

    method ProcessSetInterface(s: Setup) returns (rc: int)
      requires Valid()
      modifies this, alternate
      ensures Valid() && (Abs(), rc) == SetInterface(old(Abs()), s)
    {
      rc := EFATAL;
      if s.length != 0 {
        return;
      }
      if s.Recipient() == TO_IFACE {
        var i := s.Iface();
        if state == CONFIGURED && i < IFACES {
          ghost var before: seq<u32> := alternate[..];
          var setting: byte := s.value % 0x100;
          alternate[i] := setting;
          assert alternate[..] == before[i := setting];
          rc := EOK;
        }
      }
    }

    /** The switch of USBCore_ProcessSetupNoData. */
    method ProcessNoData(s: Setup) returns (rc: int)
      requires Valid()
      modifies this, alternate
      ensures Valid() && (Abs(), rc) == NoData(old(Abs()), s)
    {
      rc := EFATAL;
      if s.Standard() {
        if !s.DirIn() {
          if s.request == 5 {
            rc := ProcessSetAddress(s);
          } else if s.request == 9 {
            rc := ProcessSetConfiguration(s);
          } else if s.request == 1 {
            rc := ProcessFeature(s, false);
          } else if s.request == 3 {
            if s.length == 0 {
              rc := ProcessFeature(s, true);
            }
          } else if s.request == 11 {
            rc := ProcessSetInterface(s);
          }
        }
      }
    }

    method ProcessGetStatus(s: Setup) returns (r: Reply)
      requires Valid()
      ensures r == GetStatus(Abs(), s)
    {
      r := REFUSED;
      if s.value != 0 || s.length != 2 {
        return;
      }
      if s.Recipient() == TO_DEVICE {
        if s.index == 0 {
          if state != DEFAULT {
            r := Reply(EOK, Some([Low(status), 0]), 2);
          }
        }
      } else if s.Recipient() == TO_IFACE {
        if state == CONFIGURED && s.Iface() < IFACES {
          r := Reply(EOK, Some([0, 0]), 2);
        }
      } else if s.Recipient() == TO_EP {
        var epNum := s.EpNum();
        if (epNum == 0 && state != DEFAULT) || (epNum > 0 && epNum < ENDPOINTS && state == CONFIGURED) {
          var epHalt := if s.EpTx() then haltTx else haltRx;
          r := Reply(EOK, Some([if BitTest(epHalt, Bit(epNum)) then 1 else 0, 0]), 2);
        }
      }
    }

    method ProcessGetInterface(s: Setup) returns (r: Reply)
      requires Valid()
      ensures r == GetInterface(Abs(), s)
    {
      r := REFUSED;
      var i := s.Iface();
      if s.value != 0 || s.length != 1 {
        return;
      }
      if s.Recipient() == TO_IFACE {
        if state == CONFIGURED && i < IFACES {
          r := Reply(EOK, Some([Low(alternate[i])]), 1);
        }
      }
    }

    method ProcessGetConfiguration(s: Setup) returns (r: Reply)
      requires Valid()
      ensures r == GetConfiguration(Abs(), s)
    {
      r := REFUSED;
      if s.Recipient() == TO_DEVICE {
        if s.value == 0 && s.index == 0 && s.length == 1 {
          if state != DEFAULT {
            r := Reply(EOK, Some([Low(configuration)]), 1);
          }
        }
      }
    }
  }
}
