/** DHCP options: the Set functions that write records into a frame, the Get functions and the walker that
    read them (RFC 2132, sections 2, 3 and 9), and the rendering and parsing of a whole option set. */
module Dhcp {
  import opened Bytes

  const SUBNET_MASK: byte := 1
  const ROUTER: byte := 3
  const DNS_SERVERS: byte := 6
  const REQUESTED_IP: byte := 50
  const LEASE_TIME: byte := 51
  const MESSAGE_TYPE: byte := 53
  const DHCP_SERVER: byte := 54
  const PARAM_LIST: byte := 55
  const END: byte := 0xff

  // ---- records ----

  /** What a list of bytes stands for in network order: the first byte weighs most. */
  function Value(bs: seq<byte>): nat {
    if bs == [] then 0 else 0x100 * Value(bs[..|bs| - 1]) + bs[|bs| - 1]
  }

  lemma ValueOfFour(bs: seq<byte>)
    requires |bs| == 4
    ensures var b0: int, b1: int, b2: int, b3: int := bs[0], bs[1], bs[2], bs[3];
            Value(bs) == 0x100_0000 * b0 + 0x1_0000 * b1 + 0x100 * b2 + b3
  {
    var b3, b2, b1 := bs[..3], bs[..2], bs[..1];
    assert b3[..2] == b2 && b2[..1] == b1 && b1[..0] == [];
    assert Value(b1) == bs[0] as int;
    assert Value(b2) == 0x100 * Value(b1) + bs[1] as int && Value(b3) == 0x100 * Value(b2) + bs[2] as int;
  }

  lemma Bytes4(x: u32)
    ensures x == 0x100_0000 * (x / 0x100_0000) + 0x1_0000 * (x / 0x1_0000 % 0x100)
                 + 0x100 * (x / 0x100 % 0x100) + x % 0x100
  {
    var a, b, c := x / 0x100, x / 0x1_0000, x / 0x100_0000;
    assert a / 0x100 == b && b / 0x100 == c;
  }

  function Be32(x: u32): (bs: seq<byte>)
    ensures |bs| == 4 && Value(bs) == x
  {
    Bytes4(x);
    ValueOfFour([x / 0x100_0000, x / 0x1_0000 % 0x100, x / 0x100 % 0x100, x % 0x100]);
    [x / 0x100_0000, x / 0x1_0000 % 0x100, x / 0x100 % 0x100, x % 0x100]
  }

  function FromBe32(bs: seq<byte>): (x: u32)
    requires |bs| >= 4
    ensures x == Value(bs[..4])
  {
    ValueOfFour(bs[..4]);
    var b0: int, b1: int, b2: int, b3: int := bs[0], bs[1], bs[2], bs[3];
    b0 * 0x100_0000 + b1 * 0x1_0000 + b2 * 0x100 + b3
  }

  lemma Be32RoundTrip(x: u32, tail: seq<byte>)
    ensures FromBe32(Be32(x) + tail) == x
  {
    var a, b, c := x / 0x100, x / 0x1_0000, x / 0x100_0000;
    assert a / 0x100 == b && b / 0x100 == c;
    assert x == a * 0x100 + x % 0x100 && a == b * 0x100 + a % 0x100 && b == c * 0x100 + b % 0x100;
  }

  function Be32All(xs: seq<u32>): (bs: seq<byte>)
    ensures |bs| == 4 * |xs|
  {
    if xs == [] then [] else Be32All(xs[..|xs| - 1]) + Be32(xs[|xs| - 1])
  }

  lemma {:induction false} Be32AllAt(xs: seq<u32>, i: nat, tail: seq<byte>)
    requires i < |xs|
    ensures FromBe32((Be32All(xs) + tail)[4 * i..]) == xs[i]
  {
    var n := |xs| - 1;
    if i == n {
      assert (Be32All(xs) + tail)[4 * i..] == Be32(xs[n]) + tail;
      Be32RoundTrip(xs[n], tail);
    } else {
      assert Be32All(xs) + tail == Be32All(xs[..n]) + (Be32(xs[n]) + tail);
      Be32AllAt(xs[..n], i, Be32(xs[n]) + tail);
    }
  }

  datatype Opt =
    | MessageType(kind: byte)
    | Address(code: byte, value: u32)     // the five records that hold one 32-bit value
    | DnsServers(ips: seq<u32>)
    | ParamList(params: seq<byte>)
    | Other(code: byte, payload: seq<byte>)   // a record this code neither writes nor reads

  predicate WordCode(code: byte) {
    code == SUBNET_MASK || code == ROUTER || code == REQUESTED_IP || code == LEASE_TIME || code == DHCP_SERVER
  }

  function Code(opt: Opt): byte {
    match opt
    case MessageType(_) => MESSAGE_TYPE
    case Address(code, _) => code
    case DnsServers(_) => DNS_SERVERS
    case ParamList(_) => PARAM_LIST
    case Other(code, _) => code
  }

  function Payload(opt: Opt): seq<byte> {
    match opt
    case MessageType(kind) => [kind]
    case Address(_, value) => Be32(value)
    case DnsServers(ips) => Be32All(ips)
    case ParamList(params) => params
    case Other(_, payload) => payload
  }

  /** Codes of records that are read. */
  predicate Known(code: byte) {
    code == MESSAGE_TYPE || WordCode(code) || code == DNS_SERVERS || code == PARAM_LIST
  }

  /** The length fits its byte, and the code the record. */
  predicate OptOk(opt: Opt) {
    && |Payload(opt)| <= 255
    && (opt.Address? ==> WordCode(opt.code))
    && (opt.Other? ==> !Known(opt.code) && opt.code != END)
  }

  /** What a Set function leaves in memory; the length byte is truncated. */
  function Encode(opt: Opt): seq<byte> {
    [Code(opt), |Payload(opt)| % 0x100] + Payload(opt)
  }

  function EncodeAll(opts: seq<Opt>): seq<byte> {
    if opts == [] then [] else Encode(opts[0]) + EncodeAll(opts[1..])
  }

  // ---- the writers ----

  method SetOptionsEnd(mem: array<byte>, at: nat, size: nat) returns (next: Option<nat>)
    requires size >= 1 ==> at + 1 <= mem.Length
    modifies mem
    ensures size < 1 ==> next == None && mem[..] == old(mem[..])
    ensures size >= 1 ==> next == Some(at + 1) && mem[..] == Overwrite(old(mem[..]), at, [END])
  {
    if size < 1 {
      return None;
    }
    mem[at] := END;
    next := Some(at + 1);
  }

  method SetMessageType(mem: array<byte>, at: nat, size: nat, kind: byte) returns (next: Option<nat>)
    requires size >= 3 ==> at + 3 <= mem.Length
    modifies mem
    ensures size < 3 ==> next == None && mem[..] == old(mem[..])
    ensures size >= 3 ==> next == Some(at + 3) && mem[..] == Overwrite(old(mem[..]), at, Encode(MessageType(kind)))
    ensures size >= 3 ==> mem[at..at + 3] == [MESSAGE_TYPE, 1, kind]
  {
    if size < 3 {
      return None;
    }
    mem[at], mem[at + 1], mem[at + 2] := MESSAGE_TYPE, 1, kind;
    next := Some(at + 2 + mem[at + 1]);
  }

  /** SetRequestedIP, SetSubnetMask, SetRouterIP, SetLeaseTime and SetDHCPServerIP, by option code. */
  method SetWord(mem: array<byte>, at: nat, size: nat, code: byte, value: u32) returns (next: Option<nat>)
    requires size >= 6 ==> at + 6 <= mem.Length
    modifies mem
    ensures size < 6 ==> next == None && mem[..] == old(mem[..])
    ensures size >= 6 ==> next == Some(at + 6) && mem[..] == Overwrite(old(mem[..]), at, Encode(Address(code, value)))
    ensures size >= 6 ==> mem[at] == code && mem[at + 1] == 4 && Value(mem[at + 2..at + 6]) == value
  {
    if size < 6 {
      return None;
    }
    StoreWord(mem, at, code, value);
    next := Some(at + 6);
  }

  method StoreWord(mem: array<byte>, at: nat, code: byte, value: u32)
    requires at + 6 <= mem.Length
    modifies mem
    ensures mem[..] == Overwrite(old(mem[..]), at, Encode(Address(code, value)))
    ensures mem[at] == code && mem[at + 1] == 4 && Value(mem[at + 2..at + 6]) == value
  {
    hide Be32, Value;
    ghost var before := mem[..];
    Memcpy(mem, at, [code, 4]);
    Memcpy(mem, at + 2, Be32(value));
    OverwriteTwice(before, at, [code, 4], Be32(value));
    assert mem[at + 2..at + 6] == Be32(value);
  }

  method SetParameterRequestList(mem: array<byte>, at: nat, size: nat, list: seq<byte>) returns (next: Option<nat>)
    requires size >= 2 + |list| ==> at + 2 + |list| <= mem.Length
    modifies mem
    ensures size < 2 + |list| ==> next == None && mem[..] == old(mem[..])
    ensures size >= 2 + |list| ==>
              next == Some(at + 2 + |list|) && mem[..] == Overwrite(old(mem[..]), at, Encode(ParamList(list)))
    ensures size >= 2 + |list| ==>
              mem[at] == PARAM_LIST && mem[at + 1] == |list| % 0x100 && mem[at + 2..at + 2 + |list|] == list
  {
    if size < 2 + |list| {
      return None;
    }
    var len: byte := |list| % 0x100;
    ghost var before := mem[..];
    Memcpy(mem, at, [PARAM_LIST, len]);
    assert [PARAM_LIST, len] + list[..0] == [PARAM_LIST, len];
    for i := 0 to |list|
      invariant mem[..] == Overwrite(before, at, [PARAM_LIST, len] + list[..i])
    {
      ghost var now := mem[..];
      mem[at + 2 + i] := list[i];
      StoreOne(before, now, at, [PARAM_LIST, len] + list[..i], list[i]);
      assert [PARAM_LIST, len] + list[..i] + [list[i]] == [PARAM_LIST, len] + list[..i + 1];
      hide Overwrite;
    }
    assert list[..|list|] == list;
    next := Some(at + 2 + |list|);
  }

  lemma StoreOne<T>(mem: seq<T>, now: seq<T>, at: nat, done: seq<T>, b: T)
    requires at + |done| < |mem| && now == Overwrite(mem, at, done)
    ensures now[at + |done| := b] == Overwrite(mem, at, done + [b])
  {
  }

  /** The size check covers the header only; the caller's memory must hold the addresses. */
  method SetDNSServerIP(mem: array<byte>, at: nat, size: nat, ips: seq<u32>) returns (next: Option<nat>)
    requires size >= 2 ==> at + 2 + 4 * |ips| <= mem.Length
    modifies mem
    ensures size < 2 ==> next == None && mem[..] == old(mem[..])
    ensures size >= 2 ==>
              next == Some(at + 2 + 4 * |ips| % 0x100) &&
              mem[..] == Overwrite(old(mem[..]), at, Encode(DnsServers(ips)))
    ensures size >= 2 ==>
              && mem[..][at] == DNS_SERVERS && mem[..][at + 1] == 4 * |ips| % 0x100
              && Groups(mem[..][at + 2..at + 2 + 4 * |ips|], |ips|) == ips
  {
    hide *;
    if size < 2 {
      return None;
    }
    ghost var before := mem[..];
    StoreAddresses(mem, at, ips);
    DnsStored(before, mem[..], at, ips);
    next := Some(at + 2 + 4 * |ips| % 0x100);
  }

  /** The copy loop: header, then one address after the other. */
  method StoreAddresses(mem: array<byte>, at: nat, ips: seq<u32>)
    requires at + 2 + 4 * |ips| <= mem.Length
    modifies mem
    ensures mem[..] == Overwrite(old(mem[..]), at, Encode(DnsServers(ips)))
  {
    hide Be32, Value;
    var len: byte := 4 * |ips| % 0x100;
    ghost var before := mem[..];
    Memcpy(mem, at, [DNS_SERVERS, len]);
    assert ips[..0] == [] && [DNS_SERVERS, len] + Be32All(ips[..0]) == [DNS_SERVERS, len];
    for i := 0 to |ips|
      invariant mem[..] == Overwrite(before, at, [DNS_SERVERS, len] + Be32All(ips[..i]))
    {
      Memcpy(mem, at + 2 + 4 * i, Be32(ips[i]));
      OverwriteTwice(before, at, [DNS_SERVERS, len] + Be32All(ips[..i]), Be32(ips[i]));
      assert ips[..i + 1][..i] == ips[..i];
      assert [DNS_SERVERS, len] + Be32All(ips[..i + 1]) == [DNS_SERVERS, len] + Be32All(ips[..i]) + Be32(ips[i]);
    }
    assert ips[..|ips|] == ips;
  }

  lemma DnsStored(before: seq<byte>, mem: seq<byte>, at: nat, ips: seq<u32>)
    requires at + 2 + 4 * |ips| <= |before| && mem == Overwrite(before, at, Encode(DnsServers(ips)))
    ensures |mem| == |before| && mem[at] == DNS_SERVERS && mem[at + 1] == 4 * |ips| % 0x100
    ensures Groups(mem[at + 2..at + 2 + 4 * |ips|], |ips|) == ips
  {
    hide Value, Be32, Be32All, Groups;
    GroupsOfAll(ips);
    assert mem[at + 2..at + 2 + 4 * |ips|] == Be32All(ips);
  }

  /** The values of the first k groups of four bytes. */
  function Groups(payload: seq<byte>, k: nat): (xs: seq<nat>)
    requires 4 * k <= |payload|
    ensures |xs| == k
  {
    seq(k, i requires 0 <= i < k => Value(payload[4 * i..4 * i + 4]))
  }

  lemma OneGroup(all: seq<byte>, ips: seq<u32>, i: nat)
    requires i < |ips| && all == Be32All(ips)
    ensures Value(all[4 * i..4 * i + 4]) == ips[i]
  {
    hide Value, Be32, Be32All;
    Be32AllAt(ips, i, []);
    hide FromBe32;
    assert all + [] == all;
    assert all[4 * i..][..4] == all[4 * i..4 * i + 4];
  }

  lemma GroupsOfAll(ips: seq<u32>)
    ensures Groups(Be32All(ips), |ips|) == ips
  {
    hide Value, Be32, Be32All, FromBe32;
    forall i | 0 <= i < |ips|
      ensures Groups(Be32All(ips), |ips|)[i] == ips[i]
    {
      OneGroup(Be32All(ips), ips, i);
    }
  }

  /** The pointer returned for a DNS list lands behind it exactly up to 63 addresses, and the record stays
      inside the size given exactly when the size counts the addresses as well as the header. */
  lemma DnsReturnExact(at: nat, size: nat, ips: seq<u32>)
    ensures at + 2 + 4 * |ips| % 0x100 == at + |Encode(DnsServers(ips))| <==> |ips| <= 63
    ensures at + |Encode(DnsServers(ips))| <= at + size <==> size >= 2 + 4 * |ips|
  {
  }

  lemma EncodedDnsLength(ips: seq<u32>)
    ensures |Encode(DnsServers(ips))| == 2 + 4 * |ips|
    ensures |ips| <= 63 ==> 4 * |ips| % 0x100 == 4 * |ips|
  {
  }

  // ---- the readers ----

  /** Option code, payload length, and the bytes from the next record on. */
  datatype Hdr = Hdr(code: byte, len: nat, next: seq<byte>)

  /** DHCPFrameOpt_GetOptionHdr on what is left of the options. */
  function GetOptionHdr(s: seq<byte>): Option<Hdr> {
    if !Whole(s) || s[0] == END then None
    else Some(Hdr(s[0], s[1], s[2 + s[1] as nat..]))
  }

  /** The header fits, and so does the payload it announces. */
  predicate Whole(s: seq<byte>) {
    |s| >= 2 && |s| >= 2 + s[1] as nat
  }

  /** The records met when the walker is called again and again. */
  function Walk(s: seq<byte>): seq<(byte, nat)>
    decreases |s|
  {
    var h := GetOptionHdr(s);
    if h.None? then [] else [(h.value.code, h.value.len)] + Walk(h.value.next)
  }

  function Heads(opts: seq<Opt>): seq<(byte, nat)> {
    if opts == [] then [] else [(Code(opts[0]), |Payload(opts[0])|)] + Heads(opts[1..])
  }

  predicate AllOk(opts: seq<Opt>) {
    forall i :: 0 <= i < |opts| ==> OptOk(opts[i])
  }

  lemma PayloadShort(opt: Opt)
    requires OptOk(opt)
    ensures |Payload(opt)| < 0x100 && |Payload(opt)| % 0x100 == |Payload(opt)| && Code(opt) != END
  {
  }

  lemma FrontRecord(opt: Opt, tail: seq<byte>)
    requires OptOk(opt)
    ensures GetOptionHdr(Encode(opt) + tail) == Some(Hdr(Code(opt), |Payload(opt)|, tail))
    ensures (Encode(opt) + tail)[2..] == Payload(opt) + tail
  {
    PayloadShort(opt);
    hide Payload, OptOk, Code;
    var s := Encode(opt) + tail;
    assert s[1] == |Payload(opt)|;
    assert s[2..] == Payload(opt) + tail;
    assert s[2 + |Payload(opt)|..] == tail;
  }

  /** Whatever the payloads hold, 0xff included, the walk visits the written records in order and stops at
      the end marker, whatever follows it. */
  lemma {:induction false} WalkVisitsAll(opts: seq<Opt>, rest: seq<byte>)
    requires AllOk(opts)
    ensures Walk(EncodeAll(opts) + [END] + rest) == Heads(opts)
  {
    var s := EncodeAll(opts) + [END] + rest;
    if opts == [] {
      assert s == [END] + rest && s[0] == END;
    } else {
      var tail := EncodeAll(opts[1..]) + [END] + rest;
      assert s == Encode(opts[0]) + tail;
      FrontRecord(opts[0], tail);
      WalkVisitsAll(opts[1..], rest);
    }
  }

  function GetMessageType(s: seq<byte>): Option<byte>
    requires Whole(s)
  {
    if s[0] != MESSAGE_TYPE || s[1] != 1 then None else Some(s[2])
  }

  /** GetRequestedIP, GetSubnetMask, GetRouterIP, GetLeaseTime and GetDHCPServerIP, by option code. */
  function GetWord(s: seq<byte>, code: byte): Option<u32>
    requires Whole(s)
  {
    if s[0] != code || s[1] != 4 then None else Some(FromBe32(s[2..]))
  }

  function GetDNSServerIP(s: seq<byte>, index: nat): Option<u32>
    requires Whole(s)
  {
    if s[0] != DNS_SERVERS || s[1] % 4 != 0 then None
    else if s[1] <= 4 * index then None
    else Some(FromBe32(s[2 + 4 * index..]))
  }

  function GetParameterRequestList(s: seq<byte>, index: nat): Option<byte>
    requires Whole(s)
  {
    if s[0] != PARAM_LIST || index >= s[1] then None else Some(s[2 + index])
  }

  /** The matching Get returns the value written, and only the matching one. */
  lemma GetReturnsWritten(opt: Opt, tail: seq<byte>, code: byte, index: nat)
    requires OptOk(opt)
    ensures var s := Encode(opt) + tail;
            && Whole(s)
            && GetMessageType(s) == (if opt.MessageType? then Some(opt.kind) else None)
            && (WordCode(code) ==>
                  GetWord(s, code) == if opt.Address? && opt.code == code then Some(opt.value) else None)
            && GetDNSServerIP(s, index) ==
                 (if opt.DnsServers? && index < |opt.ips| then Some(opt.ips[index]) else None)
            && GetParameterRequestList(s, index) ==
                 (if opt.ParamList? && index < |opt.params| then Some(opt.params[index]) else None)
  {
    hide Be32, FromBe32, Value;
    var s := Encode(opt) + tail;
    FrontRecord(opt, tail);
    match opt
    case Address(_, value) => Be32RoundTrip(value, tail);
    case DnsServers(ips) =>
      if index < |ips| {
        Be32AllAt(ips, index, tail);
        assert s[2 + 4 * index..] == s[2..][4 * index..];
      }
    case _ =>
  }

  // ---- option sets ----

  /** dhcp_optset_t: a field is Some when its flag is set. */
  datatype OptSet = OptSet(msgType: Option<byte>, subnet: Option<u32>, router: Option<u32>, dns: Option<seq<u32>>,
                           requestedIp: Option<u32>, leaseTime: Option<u32>, server: Option<u32>,
                           params: Option<seq<byte>>, end: bool)

  const EMPTY: OptSet := OptSet(None, None, None, None, None, None, None, None, false)

  function WordOpt(code: byte, v: Option<u32>): seq<Opt> {
    if v.Some? then [Address(code, v.value)] else []
  }

  /** The records of a set, in the order DHCPFrame_RenderOptions writes them. */
  function OptionsOf(o: OptSet): seq<Opt> {
    (if o.msgType.Some? then [MessageType(o.msgType.value)] else [])
    + WordOpt(SUBNET_MASK, o.subnet) + WordOpt(ROUTER, o.router)
    + (if o.dns.Some? then [DnsServers(o.dns.value)] else [])
    + WordOpt(REQUESTED_IP, o.requestedIp) + WordOpt(LEASE_TIME, o.leaseTime) + WordOpt(DHCP_SERVER, o.server)
    + (if o.params.Some? then [ParamList(o.params.value)] else [])
  }

  predicate SetOk(o: OptSet) {
    (o.dns.Some? ==> |o.dns.value| <= 63) && (o.params.Some? ==> |o.params.value| <= 255)
  }

  function Rendered(o: OptSet): seq<byte> {
    EncodeAll(OptionsOf(o)) + (if o.end then [END] else [])
  }

  lemma {:induction false} EncodeAllAppend(a: seq<Opt>, b: seq<Opt>)
    ensures EncodeAll(a + b) == EncodeAll(a) + EncodeAll(b)
  {
    if a == [] {
      assert a + b == b;
    } else {
      assert (a + b)[1..] == a[1..] + b;
      EncodeAllAppend(a[1..], b);
    }
  }

  lemma EncodeOne(opt: Opt)
    ensures EncodeAll([opt]) == Encode(opt)
  {
    assert [opt][1..] == [];
  }

  /** The records written so far, and where the next one goes. */
  ghost predicate Emitted(mem0: seq<byte>, mem: seq<byte>, at: nat, opts: seq<Opt>, cur: nat) {
    at + |EncodeAll(opts)| == cur <= |mem0| && mem == Overwrite(mem0, at, EncodeAll(opts))
  }

  lemma EmitOne(mem0: seq<byte>, mem: seq<byte>, mem': seq<byte>, at: nat, opts: seq<Opt>, opt: Opt, cur: nat)
    requires Emitted(mem0, mem, at, opts, cur) && cur + |Encode(opt)| <= |mem0|
    requires mem' == Overwrite(mem, cur, Encode(opt))
    ensures Emitted(mem0, mem', at, opts + [opt], cur + |Encode(opt)|)
  {
    hide Encode;
    EncodeAllAppend(opts, [opt]);
    EncodeOne(opt);
    OverwriteTwice(mem0, at, EncodeAll(opts), Encode(opt));
  }

  /** The fields of a set in the order of the renderer, each at most one record. */
  function Fields(o: OptSet): (fs: seq<seq<Opt>>)
    ensures |fs| == 8 && forall i :: 0 <= i < 8 ==> |fs[i]| <= 1
  {
    [if o.msgType.Some? then [MessageType(o.msgType.value)] else [],
     WordOpt(SUBNET_MASK, o.subnet), WordOpt(ROUTER, o.router),
     if o.dns.Some? then [DnsServers(o.dns.value)] else [],
     WordOpt(REQUESTED_IP, o.requestedIp), WordOpt(LEASE_TIME, o.leaseTime), WordOpt(DHCP_SERVER, o.server),
     if o.params.Some? then [ParamList(o.params.value)] else []]
  }

  /** The first k fields of the set. */
  function Upto(o: OptSet, k: nat): seq<Opt>
    requires k <= 8
  {
    if k == 0 then [] else Upto(o, k - 1) + Fields(o)[k - 1]
  }

  lemma UptoAll(o: OptSet)
    ensures Upto(o, 8) == OptionsOf(o)
  {
    hide WordOpt;
    var f := Fields(o);
    assert Upto(o, 1) == f[0];
    assert Upto(o, 2) == f[0] + f[1];
    assert Upto(o, 3) == f[0] + f[1] + f[2];
    assert Upto(o, 4) == f[0] + f[1] + f[2] + f[3];
    assert Upto(o, 5) == f[0] + f[1] + f[2] + f[3] + f[4];
    assert Upto(o, 6) == f[0] + f[1] + f[2] + f[3] + f[4] + f[5];
    assert Upto(o, 7) == f[0] + f[1] + f[2] + f[3] + f[4] + f[5] + f[6];
    assert Upto(o, 8) == f[0] + f[1] + f[2] + f[3] + f[4] + f[5] + f[6] + f[7];
  }

  lemma RenderedBound(o: OptSet)
    ensures |EncodeAll(OptionsOf(o))| <= |Rendered(o)|
  {
  }

  lemma DnsField(o: OptSet)
    ensures Fields(o)[3] == if o.dns.Some? then [DnsServers(o.dns.value)] else []
    ensures Upto(o, 4) == Upto(o, 3) + Fields(o)[3]
  {
  }

  lemma WordFields(o: OptSet)
    ensures Fields(o)[1] == WordOpt(SUBNET_MASK, o.subnet) && Fields(o)[2] == WordOpt(ROUTER, o.router)
    ensures Fields(o)[4] == WordOpt(REQUESTED_IP, o.requestedIp)
    ensures Fields(o)[5] == WordOpt(LEASE_TIME, o.leaseTime) && Fields(o)[6] == WordOpt(DHCP_SERVER, o.server)
  {
  }

  lemma UptoGrows(o: OptSet, k: nat)
    requires k < 8
    ensures EncodeAll(Upto(o, k + 1)) == EncodeAll(Upto(o, k)) + EncodeAll(Fields(o)[k])
    ensures |EncodeAll(Upto(o, k + 1))| <= |EncodeAll(OptionsOf(o))|
    decreases 8 - k
  {
    hide Fields, OptionsOf;
    EncodeAllAppend(Upto(o, k), Fields(o)[k]);
    if k < 7 {
      UptoGrows(o, k + 1);
    } else {
      UptoAll(o);
    }
  }

  /** Bytes of the first k fields. */
  function Used(o: OptSet, k: nat): nat
    requires k <= 8
  {
    |EncodeAll(Upto(o, k))|
  }

  lemma UsedGrows(o: OptSet, k: nat)
    requires k < 8
    ensures Used(o, k + 1) == Used(o, k) + |EncodeAll(Fields(o)[k])|
    ensures Used(o, k + 1) <= |EncodeAll(OptionsOf(o))| <= |Rendered(o)|
  {
    UptoGrows(o, k);
    RenderedBound(o);
  }

  lemma {:induction false} UsedBound(o: OptSet, k: nat)
    requires SetOk(o) && k <= 8
    ensures Used(o, k) <= 300 * k
  {
    if k > 0 {
      UsedBound(o, k - 1);
      UsedGrows(o, k - 1);
      FieldBound(o, k - 1);
      hide Used, Fields, EncodeAll;
    } else {
      assert Upto(o, 0) == [];
    }
  }

  lemma FieldBound(o: OptSet, k: nat)
    requires SetOk(o) && k < 8
    ensures |EncodeAll(Fields(o)[k])| <= 300
  {
    FieldOk(o, k);
    var f := Fields(o)[k];
    if f != [] {
      assert f == [f[0]];
      EncodeOne(f[0]);
      hide Be32, Be32All, Fields;
    }
  }

  lemma RenderedFits(o: OptSet)
    requires SetOk(o)
    ensures |Rendered(o)| == Used(o, 8) + (if o.end then 1 else 0) && |Rendered(o)| <= 2401
  {
    UptoAll(o);
    UsedBound(o, 8);
    hide EncodeAll, OptionsOf, Upto;
  }

  /** The address list fits its header into the buffer but not itself; the size left then wraps around, and nothing
      stops the rest. */
  predicate Overruns(o: OptSet, size: u32) {
    o.dns.Some? && Used(o, 3) + 2 <= size < Used(o, 4)
  }

  /** The memory holds as much of the set as the size admits, and all of it where the address list overruns. */
  predicate Room(length: nat, at: nat, size: u32, o: OptSet) {
    at + Min(|Rendered(o)|, size) <= length && (Overruns(o, size) ==> at + |Rendered(o)| <= length)
  }

  /** The writer has stopped behind a record, within the size. */
  ghost predicate Stopped(mem0: seq<byte>, mem: seq<byte>, at: nat, size: u32, o: OptSet) {
    exists k :: 0 <= k <= 8 && Used(o, k) <= size && Emitted(mem0, mem, at, Upto(o, k), at + Used(o, k))
  }

  /** The state of the renderer after k fields. */
  ghost predicate Progress(mem0: seq<byte>, mem: seq<byte>, at: nat, size: u32, o: OptSet, k: nat, cur: Option<nat>)
    requires k <= 8
  {
    && |mem| == |mem0|
    && (cur.Some? ==>
          Emitted(mem0, mem, at, Upto(o, k), cur.value) && (Used(o, k) <= size || (k >= 4 && Overruns(o, size))))
    && (cur.None? ==> |Rendered(o)| > size && !Overruns(o, size) && Stopped(mem0, mem, at, size, o))
  }

  lemma ProgressAt(mem0: seq<byte>, mem: seq<byte>, at: nat, size: u32, o: OptSet, k: nat, cur: Option<nat>)
    requires k <= 8 && Progress(mem0, mem, at, size, o, k, cur)
    ensures |mem| == |mem0|
    ensures cur.Some? ==>
              && cur.value == at + Used(o, k) && Emitted(mem0, mem, at, Upto(o, k), cur.value)
              && (Used(o, k) <= size || (k >= 4 && Overruns(o, size)))
  {
    hide Stopped, Overruns, Rendered;
  }

  /** An absent field takes no room. */
  lemma SkipField(mem0: seq<byte>, mem: seq<byte>, at: nat, size: u32, o: OptSet, k: nat, cur: Option<nat>)
    requires k < 8 && Progress(mem0, mem, at, size, o, k, cur) && (cur.Some? ==> Fields(o)[k] == [])
    ensures Progress(mem0, mem, at, size, o, k + 1, cur)
  {
    hide Stopped, Overruns, Rendered;
    if cur.Some? {
      hide Fields;
      assert Upto(o, k + 1) == Upto(o, k) + [] == Upto(o, k);
    }
  }

  /** The room the writer of field k is told, and whether its n bytes fit it. */
  lemma RoomDecides(o: OptSet, length: nat, at: nat, size: u32, k: nat, n: nat)
    requires SetOk(o) && k < 8 && k != 3 && n == |EncodeAll(Fields(o)[k])|
    requires Room(length, at, size, o) && (Used(o, k) <= size || (k >= 4 && Overruns(o, size)))
    ensures var room := Wrap32(size - Used(o, k));
            && (room >= n ==> at + Used(o, k) + n <= length)
            && (room >= n ==> Used(o, k + 1) <= size || (k + 1 >= 4 && Overruns(o, size)))
            && (room < n ==> Used(o, k) <= size && |Rendered(o)| > size && !Overruns(o, size))
  {
    hide Used, Rendered, EncodeAll, Fields, Wrap32, Upto, OptionsOf, SetOk;
    UsedGrows(o, k);
    RenderedFits(o);
    UsedMonotone(o, k + 1, 8);
    UsedMonotone(o, 3, 4);
    if k < 3 {
      UsedMonotone(o, k + 1, 3);
    } else {
      UsedMonotone(o, 4, k);
    }
    RoomArithmetic(size, Used(o, k), n, |Rendered(o)|, Used(o, 3), Used(o, 4), o.dns.Some?, k >= 4);
  }

  lemma RoomArithmetic(size: u32, used: nat, n: nat, all: nat, used3: nat, used4: nat, dns: bool, late: bool)
    requires used + n <= all <= 2401 && used3 <= used4 && (if late then used4 <= used else used + n <= used3)
    requires used <= size || (late && dns && used3 + 2 <= size < used4)
    ensures var room, over := Wrap32(size - used), dns && used3 + 2 <= size < used4;
            && (room >= n ==> used + n <= size || (late && over))
            && (room < n ==> used <= size < all && !over)
  {
    RoomWraps(size, used);
  }

  lemma RoomWraps(size: u32, used: nat)
    requires used <= 2401
    ensures Wrap32(size - used) == if used <= size then size - used else size - used + W32
  {
  }

  lemma {:induction false} UsedMonotone(o: OptSet, i: nat, j: nat)
    requires i <= j <= 8
    ensures Used(o, i) <= Used(o, j)
  {
    if i < j {
      UsedMonotone(o, i, j - 1);
      UsedGrows(o, j - 1);
    }
  }

  /** The field is written. */
  lemma FieldWritten(mem0: seq<byte>, mem: seq<byte>, mem': seq<byte>, at: nat, size: u32, o: OptSet, k: nat, opt: Opt)
    requires k < 8 && Fields(o)[k] == [opt] && |mem| == |mem0|
    requires Emitted(mem0, mem, at, Upto(o, k), at + Used(o, k)) && at + Used(o, k) + |Encode(opt)| <= |mem0|
    requires mem' == Overwrite(mem, at + Used(o, k), Encode(opt))
    requires Used(o, k + 1) <= size || (k + 1 >= 4 && Overruns(o, size))
    ensures Progress(mem0, mem', at, size, o, k + 1, Some(at + Used(o, k) + |Encode(opt)|))
  {
    hide Overruns, Rendered, Stopped, Encode, Emitted;
    EmitOne(mem0, mem, mem', at, Upto(o, k), opt, at + Used(o, k));
    assert Upto(o, k + 1) == Upto(o, k) + [opt];
  }

  /** The field does not fit. */
  lemma FieldRefused(mem0: seq<byte>, mem: seq<byte>, at: nat, size: u32, o: OptSet, k: nat)
    requires k < 8 && |mem| == |mem0| && Emitted(mem0, mem, at, Upto(o, k), at + Used(o, k))
    requires Used(o, k) <= size && |Rendered(o)| > size && !Overruns(o, size)
    ensures Progress(mem0, mem, at, size, o, k + 1, None)
  {
    hide Overruns, Rendered, Emitted;
  }

  /** DHCPFrame_RenderOptions. It succeeds if and only if the set fits the size or the address list overruns it, which
      only the header of that list is checked against. A failure leaves whole records within the size. */
  method RenderOptions(mem: array<byte>, at: nat, size: u32, o: OptSet) returns (next: Option<nat>)
    requires SetOk(o) && Room(mem.Length, at, size, o)
    modifies mem
    ensures next.Some? <==> |Rendered(o)| <= size || Overruns(o, size)
    ensures next.Some? ==>
              next.value == at + |Rendered(o)| <= mem.Length && mem[..] == Overwrite(old(mem[..]), at, Rendered(o))
    ensures next.None? ==> Stopped(old(mem[..]), mem[..], at, size, o)
  {
    ghost var mem0 := mem[..];
    NothingYet(mem0, at, size, o);
    WordFields(o);
    hide *;
    next := EmitType(mem, at, size, Some(at), o, mem0);
    next := EmitField(mem, at, size, next, o, 1, SUBNET_MASK, o.subnet, mem0);
    next := EmitField(mem, at, size, next, o, 2, ROUTER, o.router, mem0);
    next := EmitDns(mem, at, size, next, o, mem0);
    next := EmitField(mem, at, size, next, o, 4, REQUESTED_IP, o.requestedIp, mem0);
    next := EmitField(mem, at, size, next, o, 5, LEASE_TIME, o.leaseTime, mem0);
    next := EmitField(mem, at, size, next, o, 6, DHCP_SERVER, o.server, mem0);
    next := EmitParams(mem, at, size, next, o, mem0);
    next := EmitEnd(mem, at, size, next, o, mem0);
  }

  lemma NothingYet(mem0: seq<byte>, at: nat, size: u32, o: OptSet)
    requires Room(|mem0|, at, size, o)
    ensures Progress(mem0, mem0, at, size, o, 0, Some(at))
  {
    assert Upto(o, 0) == [] && EncodeAll([]) == [];
    assert mem0[..at] + [] + mem0[at..] == mem0;
  }

  /** One present field and the bytes of its record. */
  lemma FieldIs(o: OptSet, k: nat, opt: Opt, n: nat)
    requires k < 8 && Fields(o)[k] == [opt] && n == |Encode(opt)|
    ensures |EncodeAll(Fields(o)[k])| == n
  {
    EncodeOne(opt);
  }

  lemma TypeField(o: OptSet)
    ensures o.msgType.Some? ==>
              Fields(o)[0] == [MessageType(o.msgType.value)] && |Encode(MessageType(o.msgType.value))| == 3
    ensures o.msgType.None? ==> Fields(o)[0] == []
  {
  }

  lemma ParamsField(o: OptSet)
    ensures o.params.Some? ==>
              && Fields(o)[7] == [ParamList(o.params.value)]
              && |Encode(ParamList(o.params.value))| == 2 + |o.params.value|
    ensures o.params.None? ==> Fields(o)[7] == []
  {
  }

  lemma WordField(code: byte, v: Option<u32>)
    ensures v.Some? ==> WordOpt(code, v) == [Address(code, v.value)] && |Encode(Address(code, v.value))| == 6
    ensures v.None? ==> WordOpt(code, v) == []
  {
  }

  method EmitField(mem: array<byte>, at: nat, size: u32, cur: Option<nat>, o: OptSet, ghost k: nat, code: byte,
                   v: Option<u32>, ghost mem0: seq<byte>) returns (next: Option<nat>)
    requires k < 8 && k != 3 && Fields(o)[k] == WordOpt(code, v) && SetOk(o) && Room(mem.Length, at, size, o)
    requires Progress(mem0, mem[..], at, size, o, k, cur)
    modifies mem
    ensures Progress(mem0, mem[..], at, size, o, k + 1, next)
  {
    hide *;
    WordField(code, v);
    if cur.None? || v.None? {
      SkipField(mem0, mem[..], at, size, o, k, cur);
      return cur;
    }
    ghost var opt, before := Address(code, v.value), mem[..];
    FieldIs(o, k, opt, 6);
    ProgressAt(mem0, before, at, size, o, k, cur);
    RoomDecides(o, mem.Length, at, size, k, 6);
    next := SetWord(mem, cur.value, Wrap32(size - (cur.value - at)), code, v.value);
    if next.Some? {
      FieldWritten(mem0, before, mem[..], at, size, o, k, opt);
    } else {
      FieldRefused(mem0, before, at, size, o, k);
    }
  }

  method EmitType(mem: array<byte>, at: nat, size: u32, cur: Option<nat>, o: OptSet, ghost mem0: seq<byte>)
    returns (next: Option<nat>)
    requires SetOk(o) && Room(mem.Length, at, size, o) && Progress(mem0, mem[..], at, size, o, 0, cur)
    modifies mem
    ensures Progress(mem0, mem[..], at, size, o, 1, next)
  {
    hide *;
    TypeField(o);
    if cur.None? || o.msgType.None? {
      SkipField(mem0, mem[..], at, size, o, 0, cur);
      return cur;
    }
    ghost var opt, before := MessageType(o.msgType.value), mem[..];
    FieldIs(o, 0, opt, 3);
    ProgressAt(mem0, before, at, size, o, 0, cur);
    RoomDecides(o, mem.Length, at, size, 0, 3);
    next := SetMessageType(mem, cur.value, Wrap32(size - (cur.value - at)), o.msgType.value);
    if next.Some? {
      FieldWritten(mem0, before, mem[..], at, size, o, 0, opt);
    } else {
      FieldRefused(mem0, before, at, size, o, 0);
    }
  }

  /** The address list: only its header is checked against the room. */
  lemma DnsDecides(o: OptSet, length: nat, at: nat, size: u32)
    requires SetOk(o) && o.dns.Some? && Room(length, at, size, o) && Used(o, 3) <= size
    ensures var room, n := Wrap32(size - Used(o, 3)), |Encode(DnsServers(o.dns.value))|;
            && (room >= 2 ==> at + Used(o, 3) + n <= length && (Used(o, 4) <= size || Overruns(o, size)))
            && (room < 2 ==> |Rendered(o)| > size && !Overruns(o, size))
  {
    hide Used, Rendered, EncodeAll, Fields, Encode, SetOk, Upto, OptionsOf, Wrap32;
    UsedGrows(o, 3);
    RenderedFits(o);
    UsedMonotone(o, 4, 8);
    DnsField(o);
    EncodeOne(DnsServers(o.dns.value));
    HeaderSize(o.dns.value);
    DnsArithmetic(size, Used(o, 3), |Encode(DnsServers(o.dns.value))|, |Rendered(o)|);
  }

  lemma HeaderSize(ips: seq<u32>)
    ensures |Encode(DnsServers(ips))| >= 2
  {
    hide Be32All;
  }

  lemma DnsArithmetic(size: u32, used: nat, n: nat, all: nat)
    requires used <= size && 2 <= n && used + n <= all <= 2401
    ensures Wrap32(size - used) >= 2 <==> used + 2 <= size
  {
    RoomWraps(size, used);
  }

  lemma ShortLists(o: OptSet)
    requires SetOk(o)
    ensures o.dns.Some? ==> |o.dns.value| <= 63
  {
  }

  /** SetDNSServerIP on a list whose length fits its byte. */
  method SetShortList(mem: array<byte>, at: nat, size: nat, ips: seq<u32>) returns (next: Option<nat>)
    requires |ips| <= 63 && (size >= 2 ==> at + |Encode(DnsServers(ips))| <= mem.Length)
    modifies mem
    ensures size < 2 ==> next == None && mem[..] == old(mem[..])
    ensures size >= 2 ==>
              && next == Some(at + |Encode(DnsServers(ips))|)
              && mem[..] == Overwrite(old(mem[..]), at, Encode(DnsServers(ips)))
  {
    EncodedDnsLength(ips);
    hide *;
    next := SetDNSServerIP(mem, at, size, ips);
  }

  method EmitDns(mem: array<byte>, at: nat, size: u32, cur: Option<nat>, o: OptSet, ghost mem0: seq<byte>)
    returns (next: Option<nat>)
    requires SetOk(o) && Room(mem.Length, at, size, o) && Progress(mem0, mem[..], at, size, o, 3, cur)
    modifies mem
    ensures Progress(mem0, mem[..], at, size, o, 4, next)
  {
    hide *;
    ShortLists(o);
    DnsField(o);
    if cur.None? || o.dns.None? {
      SkipField(mem0, mem[..], at, size, o, 3, cur);
      return cur;
    }
    ghost var opt, before := DnsServers(o.dns.value), mem[..];
    ProgressAt(mem0, before, at, size, o, 3, cur);
    DnsDecides(o, mem.Length, at, size);
    next := SetShortList(mem, cur.value, Wrap32(size - (cur.value - at)), o.dns.value);
    if next.Some? {
      FieldWritten(mem0, before, mem[..], at, size, o, 3, opt);
    } else {
      FieldRefused(mem0, before, at, size, o, 3);
    }
  }

  method EmitParams(mem: array<byte>, at: nat, size: u32, cur: Option<nat>, o: OptSet, ghost mem0: seq<byte>)
    returns (next: Option<nat>)
    requires SetOk(o) && Room(mem.Length, at, size, o) && Progress(mem0, mem[..], at, size, o, 7, cur)
    modifies mem
    ensures Progress(mem0, mem[..], at, size, o, 8, next)
  {
    hide *;
    ParamsField(o);
    if cur.None? || o.params.None? {
      SkipField(mem0, mem[..], at, size, o, 7, cur);
      return cur;
    }
    ghost var opt, before := ParamList(o.params.value), mem[..];
    FieldIs(o, 7, opt, 2 + |o.params.value|);
    ProgressAt(mem0, before, at, size, o, 7, cur);
    RoomDecides(o, mem.Length, at, size, 7, 2 + |o.params.value|);
    next := SetParameterRequestList(mem, cur.value, Wrap32(size - (cur.value - at)), o.params.value);
    if next.Some? {
      FieldWritten(mem0, before, mem[..], at, size, o, 7, opt);
    } else {
      FieldRefused(mem0, before, at, size, o, 7);
    }
  }

  /** What the end marker, or its absence, makes of a set whose records are out. */
  lemma EndDecides(mem0: seq<byte>, mem: seq<byte>, at: nat, size: u32, o: OptSet, cur: Option<nat>)
    requires SetOk(o) && Room(|mem0|, at, size, o) && Progress(mem0, mem, at, size, o, 8, cur)
    ensures |mem| == |mem0|
    ensures cur.None? ==> |Rendered(o)| > size && !Overruns(o, size) && Stopped(mem0, mem, at, size, o)
    ensures cur.Some? && !o.end ==>
              && (|Rendered(o)| <= size || Overruns(o, size))
              && cur.value == at + |Rendered(o)| <= |mem0| && mem == Overwrite(mem0, at, Rendered(o))
    ensures cur.Some? && o.end ==>
              var room := Wrap32(size - (cur.value - at));
              && cur.value >= at
              && (room >= 1 ==>
                    && (|Rendered(o)| <= size || Overruns(o, size))
                    && cur.value + 1 == at + |Rendered(o)| <= |mem0|
                    && Overwrite(mem, cur.value, [END]) == Overwrite(mem0, at, Rendered(o)))
              && (room < 1 ==> |Rendered(o)| > size && !Overruns(o, size) && Stopped(mem0, mem, at, size, o))
  {
    if cur.Some? {
      AllWritten(mem0, mem, at, size, o, cur.value);
      EndRoom(o, size, |mem0|, at);
      hide *;
    }
  }

  /** All records are in memory. */
  lemma AllWritten(mem0: seq<byte>, mem: seq<byte>, at: nat, size: u32, o: OptSet, cur: nat)
    requires SetOk(o) && Room(|mem0|, at, size, o) && Progress(mem0, mem, at, size, o, 8, Some(cur))
    ensures |mem| == |mem0| && cur == at + Used(o, 8) <= |mem0|
    ensures Used(o, 8) <= size || Overruns(o, size)
    ensures Used(o, 8) <= size ==> Stopped(mem0, mem, at, size, o)
    ensures !o.end ==> |Rendered(o)| == Used(o, 8) && mem == Overwrite(mem0, at, Rendered(o))
    ensures o.end && cur + 1 <= |mem0| ==>
              at + |Rendered(o)| == cur + 1 && Overwrite(mem, cur, [END]) == Overwrite(mem0, at, Rendered(o))
  {
    hide EncodeAll, OptionsOf, Upto, Overruns, Stopped, Overwrite, SetOk, Wrap32;
    UptoAll(o);
    assert Rendered(o) == EncodeAll(OptionsOf(o)) + (if o.end then [END] else []);
    hide Rendered;
    StoppedAt(mem0, mem, at, size, o);
    if o.end {
      if cur + 1 <= |mem0| {
        OverwriteTwice(mem0, at, EncodeAll(OptionsOf(o)), [END]);
      }
    } else {
      assert EncodeAll(OptionsOf(o)) + [] == EncodeAll(OptionsOf(o));
    }
  }

  lemma EndRoom(o: OptSet, size: u32, length: nat, at: nat)
    requires SetOk(o) && Room(length, at, size, o) && (Used(o, 8) <= size || Overruns(o, size))
    ensures |Rendered(o)| == Used(o, 8) + (if o.end then 1 else 0)
    ensures var room := Wrap32(size - Used(o, 8));
            && (room >= 1 ==>
                  && (Used(o, 8) + 1 <= size || Overruns(o, size))
                  && at + Min(Used(o, 8) + 1, |Rendered(o)|) <= length)
            && (room < 1 ==> Used(o, 8) == size && !Overruns(o, size))
  {
    hide Used, Rendered, Wrap32, SetOk, Upto, OptionsOf, EncodeAll;
    RenderedFits(o);
    UsedMonotone(o, 4, 8);
    UsedMonotone(o, 3, 4);
    RoomArithmetic(size, Used(o, 8), if o.end then 1 else 0, |Rendered(o)|, Used(o, 3), Used(o, 4), o.dns.Some?, true);
    EndArithmetic(size, Used(o, 8));
  }

  lemma EndArithmetic(size: u32, used: nat)
    requires used <= 2401
    ensures Wrap32(size - used) < 1 <==> size == used
  {
    RoomWraps(size, used);
  }

  lemma StoppedAt(mem0: seq<byte>, mem: seq<byte>, at: nat, size: u32, o: OptSet)
    requires Emitted(mem0, mem, at, Upto(o, 8), at + Used(o, 8))
    ensures Used(o, 8) <= size ==> Stopped(mem0, mem, at, size, o)
  {
  }

  method EmitEnd(mem: array<byte>, at: nat, size: u32, cur: Option<nat>, o: OptSet, ghost mem0: seq<byte>)
    returns (next: Option<nat>)
    requires SetOk(o) && Room(mem.Length, at, size, o) && Progress(mem0, mem[..], at, size, o, 8, cur)
    modifies mem
    ensures |mem0| == mem.Length
    ensures next.Some? <==> |Rendered(o)| <= size || Overruns(o, size)
    ensures next.Some? ==> next.value == at + |Rendered(o)| <= mem.Length && mem[..] == Overwrite(mem0, at, Rendered(o))
    ensures next.None? ==> Stopped(mem0, mem[..], at, size, o)
  {
    ProgressLength(mem0, mem[..], at, size, o, cur);
    EndDecides(mem0, mem[..], at, size, o, cur);
    hide *;
    next := cur;
    if cur.Some? && o.end {
      next := SetOptionsEnd(mem, cur.value, Wrap32(size - (cur.value - at)));
    }
  }

  lemma ProgressLength(mem0: seq<byte>, mem: seq<byte>, at: nat, size: u32, o: OptSet, cur: Option<nat>)
    requires Progress(mem0, mem, at, size, o, 8, cur)
    ensures |mem| == |mem0|
  {
  }

  /** Elements that DHCPFrame_ParseOptions has room for. */
  const MAX_DNS: nat := 3
  const MAX_PARAMS: nat := 32

  /** The addresses the parsing loop collects. */
  function DnsFrom(s: seq<byte>, n: nat): seq<u32>
    requires Whole(s)
  {
    if n == 0 then []
    else
      var ip := GetDNSServerIP(s, n - 1);
      if ip.Some? then DnsFrom(s, n - 1) + [ip.value] else DnsFrom(s, n - 1)
  }

  function ParamsFrom(s: seq<byte>, n: nat): seq<byte>
    requires Whole(s)
  {
    if n == 0 then []
    else
      var p := GetParameterRequestList(s, n - 1);
      if p.Some? then ParamsFrom(s, n - 1) + [p.value] else ParamsFrom(s, n - 1)
  }

  /** A list field: the count starts over, the flag is only ever set. */
  function ListField<T>(prev: Option<seq<T>>, found: seq<T>): Option<seq<T>> {
    if found != [] || prev.Some? then Some(found) else None
  }

  function OrElse<T>(found: Option<T>, prev: Option<T>): Option<T> {
    if found.Some? then found else prev
  }

  /** The switch over the option code. */
  function Apply(o: OptSet, s: seq<byte>): OptSet
    requires Whole(s)
  {
    if s[0] == MESSAGE_TYPE then o.(msgType := OrElse(GetMessageType(s), o.msgType))
    else if s[0] == REQUESTED_IP then o.(requestedIp := OrElse(GetWord(s, REQUESTED_IP), o.requestedIp))
    else if s[0] == SUBNET_MASK then o.(subnet := OrElse(GetWord(s, SUBNET_MASK), o.subnet))
    else if s[0] == ROUTER then o.(router := OrElse(GetWord(s, ROUTER), o.router))
    else if s[0] == LEASE_TIME then o.(leaseTime := OrElse(GetWord(s, LEASE_TIME), o.leaseTime))
    else if s[0] == DNS_SERVERS then o.(dns := ListField(o.dns, DnsFrom(s, MAX_DNS)))
    else if s[0] == DHCP_SERVER then o.(server := OrElse(GetWord(s, DHCP_SERVER), o.server))
    else if s[0] == PARAM_LIST then o.(params := ListField(o.params, ParamsFrom(s, MAX_PARAMS)))
    else o
  }

  /** Reading the records of a list: the set, and what follows the end marker if the list has one. */
  function ParseFrom(s: seq<byte>, o: OptSet): (Option<seq<byte>>, OptSet)
    decreases |s|
  {
    if s == [] then (None, o)
    else if s[0] == END then (Some(s[1..]), o.(end := true))
    else
      var h := GetOptionHdr(s);
      if h.None? then (None, o) else ParseFrom(h.value.next, Apply(o, s))
  }

  /** The loop of DHCPFrame_ParseOptions from position `at` on: the byte is looked at before the size is. */
  function ParseAt(mem: seq<byte>, size: nat, at: nat, o: OptSet): (Option<nat>, OptSet)
    requires at <= size < |mem|
    decreases size - at
  {
    if mem[at] == END then (Some(at + 1), o.(end := true))
    else
      var h := GetOptionHdr(mem[at..size]);
      if h.None? then (None, o) else ParseAt(mem, size, at + 2 + h.value.len, Apply(o, mem[at..size]))
  }

  function Parse(mem: seq<byte>, size: nat): (Option<nat>, OptSet)
    requires size == 0 || size < |mem|
  {
    if size == 0 then (None, EMPTY) else ParseAt(mem, size, 0, EMPTY)
  }

  /** DHCPFrame_ParseOptions on `size` bytes of memory, which goes on behind them. */
  method ParseOptions(mem: seq<byte>, size: nat) returns (next: Option<nat>, o: OptSet)
    requires size == 0 || size < |mem|
    ensures (next, o) == Parse(mem, size)
  {
    hide Apply;
    o := EMPTY;
    var at := 0;
    while true
      invariant at <= size && (size == 0 || size < |mem|) && (size == 0 ==> o == EMPTY)
      invariant size > 0 ==> ParseAt(mem, size, at, o) == Parse(mem, size)
      decreases size - at
    {
      if size == 0 {
        return None, o;
      }
      if mem[at] == END {
        return Some(at + 1), o.(end := true);
      }
      var h := GetOptionHdr(mem[at..size]);
      if h.None? {
        return None, o;
      }
      o := Apply(o, mem[at..size]);
      at := at + 2 + h.value.len;
    }
  }

  /** Whole records and nothing else. */
  predicate Fills(s: seq<byte>)
    decreases |s|
  {
    s == [] || (s[0] != END && GetOptionHdr(s).Some? && Fills(GetOptionHdr(s).value.next))
  }

  /** The loop reads the list as it stands in its buffer if and only if the list has an end marker, or does not fill the
      buffer with whole records, or the byte behind the buffer is no end marker. Otherwise that byte is taken for
      one, and success reported with a position past the buffer. */
  lemma {:induction false} ParseAtExact(mem: seq<byte>, size: nat, at: nat, o: OptSet)
    requires at <= size < |mem|
    ensures var (rest, got) := ParseFrom(mem[at..size], o);
            && (rest.Some? ==> |rest.value| <= size)
            && ParseAt(mem, size, at, o) ==
               if rest.Some? then (Some(size - |rest.value|), got)
               else if Fills(mem[at..size]) && mem[size] == END then (Some(size + 1), got.(end := true))
               else (None, got)
    decreases size - at
  {
    hide Apply, ParseAt, ParseFrom, Fills, GetOptionHdr;
    if at < size && mem[at] != END && Whole(mem[at..size]) {
      OneStep(mem, size, at, o);
      ParseAtExact(mem, size, at + 2 + GetOptionHdr(mem[at..size]).value.len, Apply(o, mem[at..size]));
    } else {
      StopsHere(mem, size, at, o);
    }
  }

  /** A whole record in front: both readings go on behind it. */
  lemma OneStep(mem: seq<byte>, size: nat, at: nat, o: OptSet)
    requires at < size < |mem| && mem[at] != END && Whole(mem[at..size])
    ensures var s := mem[at..size];
            var h := GetOptionHdr(s);
            && h.Some? && at + 2 + h.value.len <= size
            && var next := at + 2 + h.value.len;
               && ParseAt(mem, size, at, o) == ParseAt(mem, size, next, Apply(o, s))
               && ParseFrom(s, o) == ParseFrom(mem[next..size], Apply(o, s))
               && Fills(s) == Fills(mem[next..size])
  {
    hide Apply;
    NextRecord(mem, size, at);
    hide GetOptionHdr;
    assert mem[at..size][0] == mem[at];
  }

  /** The end of the buffer, an end marker or a record that is not whole. */
  lemma StopsHere(mem: seq<byte>, size: nat, at: nat, o: OptSet)
    requires at <= size < |mem| && (at == size || mem[at] == END || !Whole(mem[at..size]))
    ensures var s := mem[at..size];
            && ParseFrom(s, o) == (if at < size && mem[at] == END then (Some(s[1..]), o.(end := true)) else (None, o))
            && ParseAt(mem, size, at, o) == (if mem[at] == END then (Some(at + 1), o.(end := true)) else (None, o))
            && Fills(s) == (at == size)
  {
    hide Apply;
    if at < size {
      assert mem[at..size][0] == mem[at];
    }
  }

  lemma NextRecord(mem: seq<byte>, size: nat, at: nat)
    requires at < size < |mem| && Whole(mem[at..size]) && mem[at] != END
    ensures var h := GetOptionHdr(mem[at..size]);
            h.Some? && at + 2 + h.value.len <= size && h.value.next == mem[at + 2 + h.value.len..size]
  {
    var s := mem[at..size];
    var n: nat := 2 + s[1] as nat;
    assert s[0] == mem[at];
    assert s[n..] == mem[at + n..size];
  }

  /** What one record makes of the set, in terms of its value. */
  function Learn(o: OptSet, opt: Opt): OptSet {
    match opt
    case MessageType(kind) => o.(msgType := Some(kind))
    case DnsServers(ips) => o.(dns := ListField(o.dns, ips[..Min(|ips|, MAX_DNS)]))
    case ParamList(params) => o.(params := ListField(o.params, params[..Min(|params|, MAX_PARAMS)]))
    case Address(code, value) =>
      if code == SUBNET_MASK then o.(subnet := Some(value))
      else if code == ROUTER then o.(router := Some(value))
      else if code == REQUESTED_IP then o.(requestedIp := Some(value))
      else if code == LEASE_TIME then o.(leaseTime := Some(value))
      else if code == DHCP_SERVER then o.(server := Some(value))
      else o
    case Other(_, _) => o
  }

  lemma {:induction false} DnsFromWritten(ips: seq<u32>, tail: seq<byte>, n: nat)
    requires |ips| <= 63
    ensures Whole(Encode(DnsServers(ips)) + tail)
    ensures DnsFrom(Encode(DnsServers(ips)) + tail, n) == ips[..Min(|ips|, n)]
  {
    hide GetDNSServerIP, Encode;
    GetReturnsWritten(DnsServers(ips), tail, 0, if n > 0 then n - 1 else 0);
    if n > 0 {
      DnsFromWritten(ips, tail, n - 1);
    }
  }

  lemma {:induction false} ParamsFromWritten(params: seq<byte>, tail: seq<byte>, n: nat)
    requires |params| <= 255
    ensures Whole(Encode(ParamList(params)) + tail)
    ensures ParamsFrom(Encode(ParamList(params)) + tail, n) == params[..Min(|params|, n)]
  {
    GetReturnsWritten(ParamList(params), tail, 0, if n > 0 then n - 1 else 0);
    hide GetParameterRequestList, Encode;
    if n > 0 {
      ParamsFromWritten(params, tail, n - 1);
    }
  }

  lemma ApplyIsLearn(o: OptSet, opt: Opt, tail: seq<byte>)
    requires OptOk(opt)
    ensures Whole(Encode(opt) + tail) && (Encode(opt) + tail)[0] == Code(opt) != END
    ensures Apply(o, Encode(opt) + tail) == Learn(o, opt)
  {
    GetReturnsWritten(opt, tail, Code(opt), 0);
    var s := Encode(opt) + tail;
    assert s[0] == Code(opt);
    match opt
    case DnsServers(ips) => DnsFromWritten(ips, tail, MAX_DNS);
    case ParamList(params) => ParamsFromWritten(params, tail, MAX_PARAMS);
    case _ => hide GetMessageType, GetWord;
  }

  lemma {:induction false} DnsOfAny(s: seq<byte>, n: nat)
    requires Whole(s) && s[0] == DNS_SERVERS
    ensures var len: nat := s[1] as nat;
            DnsFrom(s, n) == if len % 4 == 0 then Groups(s[2..2 + len], Min(n, len / 4)) else []
  {
    hide Value, FromBe32, Groups;
    var len: nat := s[1] as nat;
    if n > 0 {
      DnsOfAny(s, n - 1);
      if len % 4 == 0 && len > 4 * (n - 1) {
        WholeGroup(len, n - 1);
        OneGroupMore(s[2..2 + len], n - 1);
        GroupInside(s, len, n - 1);
      }
    } else {
      NoGroups(s[2..2 + len]);
    }
  }

  lemma OneGroupMore(payload: seq<byte>, i: nat)
    requires 4 * i + 4 <= |payload|
    ensures Groups(payload, i + 1) == Groups(payload, i) + [Value(payload[4 * i..4 * i + 4])]
  {
    hide Value;
  }

  lemma NoGroups(payload: seq<byte>)
    ensures Groups(payload, 0) == []
  {
  }

  lemma GroupInside(s: seq<byte>, len: nat, i: nat)
    requires 4 * i + 4 <= len && 2 + len <= |s|
    ensures s[2..2 + len][4 * i..4 * i + 4] == s[2 + 4 * i..][..4]
  {
    SubSlice(s, 2, 2 + len, 4 * i, 4 * i + 4);
    assert s[2 + 4 * i..][..4] == s[2 + 4 * i..2 + 4 * i + 4];
  }

  lemma WholeGroup(len: nat, i: nat)
    requires len % 4 == 0 && len > 4 * i
    ensures 4 * i + 4 <= len && i + 1 <= len / 4
  {
  }

  lemma {:induction false} ParamsOfAny(s: seq<byte>, n: nat)
    requires Whole(s) && s[0] == PARAM_LIST
    ensures ParamsFrom(s, n) == s[2..2 + Min(n, s[1])]
  {
    if n > 0 {
      ParamsOfAny(s, n - 1);
    }
  }

  /** What any whole record does to the set, well formed or not: a value of the right length is taken, any other leaves
      its field as it was; lists are taken as far as there is room for them, and one of no or odd length empties
      the list noted before; every other record is skipped. */
  lemma ApplyExact(o: OptSet, s: seq<byte>)
    requires Whole(s)
    ensures var code, n: nat, o' := s[0], s[1] as nat, Apply(o, s);
            var payload := s[2..2 + n];
            && (code == MESSAGE_TYPE ==> o' == if n == 1 then o.(msgType := Some(payload[0])) else o)
            && (WordCode(code) && n != 4 ==> o' == o)
            && (WordCode(code) && n == 4 ==>
                  && Value(payload) < W32
                  && (code == SUBNET_MASK ==> o' == o.(subnet := Some(Value(payload))))
                  && (code == ROUTER ==> o' == o.(router := Some(Value(payload))))
                  && (code == REQUESTED_IP ==> o' == o.(requestedIp := Some(Value(payload))))
                  && (code == LEASE_TIME ==> o' == o.(leaseTime := Some(Value(payload))))
                  && (code == DHCP_SERVER ==> o' == o.(server := Some(Value(payload)))))
            && (code == DNS_SERVERS ==>
                  && o' == o.(dns := o'.dns)
                  && if n % 4 == 0 && n > 0 then o'.dns.Some? && o'.dns.value == Groups(payload, Min(MAX_DNS, n / 4))
                     else o'.dns == if o.dns.Some? then Some([]) else None)
            && (code == PARAM_LIST ==>
                  o' == o.(params := if n > 0 then Some(payload[..Min(MAX_PARAMS, n)])
                                     else if o.params.Some? then Some([]) else None))
            && (!Known(code) ==> o' == o)
  {
    hide Value, FromBe32, DnsFrom, ParamsFrom;
    var code, n: nat := s[0], s[1] as nat;
    if code == DNS_SERVERS {
      DnsOfAny(s, MAX_DNS);
    } else if code == PARAM_LIST {
      ParamsOfAny(s, MAX_PARAMS);
      assert s[2..2 + n][..Min(MAX_PARAMS, n)] == s[2..2 + Min(MAX_PARAMS, n)];
    } else if WordCode(code) && n == 4 {
      assert s[2..][..4] == s[2..2 + n];
      assert FromBe32(s[2..]) == Value(s[2..2 + n]);
    }
  }

  function LearnAll(o: OptSet, opts: seq<Opt>): OptSet
    decreases |opts|
  {
    if opts == [] then o else LearnAll(Learn(o, opts[0]), opts[1..])
  }

  lemma {:induction false} ParseLearnsAll(opts: seq<Opt>, o: OptSet, rest: seq<byte>)
    requires AllOk(opts)
    ensures ParseFrom(EncodeAll(opts) + [END] + rest, o) == (Some(rest), LearnAll(o, opts).(end := true))
    decreases |opts|
  {
    var s := EncodeAll(opts) + [END] + rest;
    if opts == [] {
      assert s == [END] + rest && s[1..] == rest;
    } else {
      hide Apply, Learn, Encode;
      var tail := EncodeAll(opts[1..]) + [END] + rest;
      assert s == Encode(opts[0]) + tail;
      FrontRecord(opts[0], tail);
      ApplyIsLearn(o, opts[0], tail);
      ParseLearnsAll(opts[1..], Learn(o, opts[0]), rest);
    }
  }

  /** The set as it comes back: empty lists vanish, long ones are cut, the end marker is noted. */
  function Normal(o: OptSet): OptSet {
    o.(dns := if o.dns.Some? then ListField(None, o.dns.value[..Min(|o.dns.value|, MAX_DNS)]) else None,
       params := if o.params.Some? then ListField(None, o.params.value[..Min(|o.params.value|, MAX_PARAMS)]) else None,
       end := true)
  }

  lemma {:induction false} LearnAppend(o: OptSet, a: seq<Opt>, b: seq<Opt>)
    ensures LearnAll(o, a + b) == LearnAll(LearnAll(o, a), b)
    decreases |a|
  {
    hide Learn;
    if a == [] {
      assert a + b == b;
    } else {
      assert (a + b)[1..] == a[1..] + b;
      LearnAppend(Learn(o, a[0]), a[1..], b);
    }
  }

  lemma LearnOne(o: OptSet, opt: Opt)
    ensures LearnAll(o, [opt]) == Learn(o, opt) && LearnAll(o, []) == o
  {
    assert [opt][1..] == [];
  }

  /** Learning one optional record after the others. */
  lemma LearnNext(o: OptSet, a: seq<Opt>, b: seq<Opt>)
    requires |b| <= 1
    ensures LearnAll(o, a + b) == if b == [] then LearnAll(o, a) else Learn(LearnAll(o, a), b[0])
  {
    LearnAppend(o, a, b);
    if b != [] {
      assert b == [b[0]];
      LearnOne(LearnAll(o, a), b[0]);
    }
  }

  lemma FirstHalfTaught(o: OptSet, l4: seq<Opt>)
    requires l4 == (if o.msgType.Some? then [MessageType(o.msgType.value)] else [])
                   + WordOpt(SUBNET_MASK, o.subnet) + WordOpt(ROUTER, o.router)
                   + (if o.dns.Some? then [DnsServers(o.dns.value)] else [])
    ensures LearnAll(EMPTY, l4) ==
            EMPTY.(msgType := o.msgType, subnet := o.subnet, router := o.router, dns := Normal(o).dns)
  {
    hide LearnAll;
    var l1: seq<Opt> := if o.msgType.Some? then [MessageType(o.msgType.value)] else [];
    var l2 := l1 + WordOpt(SUBNET_MASK, o.subnet);
    var l3 := l2 + WordOpt(ROUTER, o.router);
    var d: seq<Opt> := if o.dns.Some? then [DnsServers(o.dns.value)] else [];
    assert [] + l1 == l1;
    LearnOne(EMPTY, MessageType(0));
    LearnNext(EMPTY, [], l1);
    LearnNext(EMPTY, l1, WordOpt(SUBNET_MASK, o.subnet));
    LearnNext(EMPTY, l2, WordOpt(ROUTER, o.router));
    LearnNext(EMPTY, l3, d);
  }

  lemma OptionsTeachNormal(o: OptSet)
    ensures LearnAll(EMPTY, OptionsOf(o)).(end := true) == Normal(o)
  {
    hide LearnAll;
    var l4 := (if o.msgType.Some? then [MessageType(o.msgType.value)] else [])
              + WordOpt(SUBNET_MASK, o.subnet) + WordOpt(ROUTER, o.router)
              + (if o.dns.Some? then [DnsServers(o.dns.value)] else []);
    var l5 := l4 + WordOpt(REQUESTED_IP, o.requestedIp);
    var l6 := l5 + WordOpt(LEASE_TIME, o.leaseTime);
    var l7 := l6 + WordOpt(DHCP_SERVER, o.server);
    var p: seq<Opt> := if o.params.Some? then [ParamList(o.params.value)] else [];
    assert OptionsOf(o) == l7 + p;
    FirstHalfTaught(o, l4);
    LearnNext(EMPTY, l4, WordOpt(REQUESTED_IP, o.requestedIp));
    LearnNext(EMPTY, l5, WordOpt(LEASE_TIME, o.leaseTime));
    LearnNext(EMPTY, l6, WordOpt(DHCP_SERVER, o.server));
    LearnNext(EMPTY, l7, p);
  }

  /** Parsing what was rendered gives the set back in its normal form and stops behind the end marker, whatever stands
      behind it. */
  lemma RenderThenParse(o: OptSet, mem: seq<byte>, size: nat)
    requires SetOk(o) && size < |mem| && EncodeAll(OptionsOf(o)) + [END] <= mem[..size]
    ensures Parse(mem, size) == (Some(|EncodeAll(OptionsOf(o))| + 1), Normal(o))
  {
    OptionsOk(o);
    OptionsTeachNormal(o);
    hide EncodeAll, OptionsOf, Parse, Normal, LearnAll;
    ParseWritten(OptionsOf(o), mem, size);
  }

  /** A record with a code that is not read changes nothing but the position behind the end marker. */
  lemma UnknownIsSkipped(a: seq<Opt>, b: seq<Opt>, other: Opt, mem: seq<byte>, size: nat, mem': seq<byte>, size': nat)
    requires AllOk(a) && AllOk(b) && OptOk(other) && other.Other? && size < |mem| && size' < |mem'|
    requires EncodeAll(a) + EncodeAll(b) + [END] <= mem[..size]
    requires EncodeAll(a) + Encode(other) + EncodeAll(b) + [END] <= mem'[..size']
    ensures var r, r' := Parse(mem, size), Parse(mem', size');
            && r'.1 == r.1 == LearnAll(EMPTY, a + b).(end := true)
            && r.0 == Some(|EncodeAll(a) + EncodeAll(b)| + 1)
            && r'.0 == Some(r.0.value + 2 + |other.payload|)
  {
    hide EncodeAll, Encode, LearnAll, Learn, Parse, OptOk, Known;
    var with := a + [other] + b;
    WithOther(a, other, b);
    OtherTeachesNothing(LearnAll(EMPTY, a), other);
    assert AllOk(a + b) && AllOk(with);
    hide AllOk;
    ParseWritten(a + b, mem, size);
    ParseWritten(with, mem', size');
  }

  lemma WithOther(a: seq<Opt>, other: Opt, b: seq<Opt>)
    ensures EncodeAll(a + b) == EncodeAll(a) + EncodeAll(b)
    ensures EncodeAll(a + [other] + b) == EncodeAll(a) + Encode(other) + EncodeAll(b)
    ensures LearnAll(EMPTY, a + b) == LearnAll(LearnAll(EMPTY, a), b)
    ensures LearnAll(EMPTY, a + [other] + b) == LearnAll(Learn(LearnAll(EMPTY, a), other), b)
  {
    hide Encode, Learn;
    EncodeAllAppend(a, b);
    EncodeAllAppend(a, [other]);
    EncodeAllAppend(a + [other], b);
    EncodeOne(other);
    LearnAppend(EMPTY, a, b);
    LearnAppend(EMPTY, a, [other]);
    LearnAppend(EMPTY, a + [other], b);
    LearnOne(LearnAll(EMPTY, a), other);
  }

  lemma OtherTeachesNothing(o: OptSet, other: Opt)
    requires other.Other?
    ensures Learn(o, other) == o && |Encode(other)| == 2 + |other.payload|
  {
  }

  /** A written list with its end marker, inside a buffer. */
  lemma ParseWritten(opts: seq<Opt>, mem: seq<byte>, size: nat)
    requires AllOk(opts) && size < |mem| && EncodeAll(opts) + [END] <= mem[..size]
    ensures Parse(mem, size) == (Some(|EncodeAll(opts)| + 1), LearnAll(EMPTY, opts).(end := true))
  {
    hide EncodeAll, ParseFrom, ParseAt, LearnAll, Fills;
    var list, rest := EncodeAll(opts), mem[|EncodeAll(opts)| + 1..size];
    assert mem[0..size] == list + [END] + rest;
    ParseLearnsAll(opts, EMPTY, rest);
    ParseAtExact(mem, size, 0, EMPTY);
  }

  /** One set with every field, byte by byte: codes and order of the records as the standard and the code have them. */
  lemma RenderedBytes(o: OptSet)
    requires o == OptSet(Some(5), Some(0xffff_ff00), Some(0xc0a8_0001), Some([0x0808_0404]), Some(0xc0a8_0002),
                         Some(0x1_5180), Some(0xc0a8_0003), Some([1, 3]), true)
    ensures Rendered(o) == ([53, 1, 5] + [1, 4, 255, 255, 255, 0] + [3, 4, 192, 168, 0, 1] + [6, 4, 8, 8, 4, 4])
                           + ([50, 4, 192, 168, 0, 2] + [51, 4, 0, 1, 81, 128]
                              + [54, 4, 192, 168, 0, 3] + [55, 2, 1, 3])
                           + [255]
  {
    EveryField(o);
    var opts := OptionsOf(o);
    hide OptionsOf, Encode, EncodeAll;
    FourAndFour(opts);
    FirstRecords(opts[0], opts[1], opts[2], opts[3]);
    LastRecords(opts[4], opts[5], opts[6], opts[7]);
  }

  lemma EveryField(o: OptSet)
    requires o == OptSet(Some(5), Some(0xffff_ff00), Some(0xc0a8_0001), Some([0x0808_0404]), Some(0xc0a8_0002),
                         Some(0x1_5180), Some(0xc0a8_0003), Some([1, 3]), true)
    ensures OptionsOf(o) ==
            [MessageType(5), Address(1, 0xffff_ff00), Address(3, 0xc0a8_0001), DnsServers([0x0808_0404]),
             Address(50, 0xc0a8_0002), Address(51, 0x1_5180), Address(54, 0xc0a8_0003), ParamList([1, 3])]
  {
  }

  lemma WordBytes(code: byte, x: u32, bs: seq<byte>)
    requires |bs| == 4 && Be32(x) == bs
    ensures Encode(Address(code, x)) == [code, 4, bs[0], bs[1], bs[2], bs[3]]
  {
    hide Be32;
  }

  lemma FirstRecords(a: Opt, b: Opt, c: Opt, d: Opt)
    requires a == MessageType(5) && b == Address(1, 0xffff_ff00) && c == Address(3, 0xc0a8_0001)
    requires d == DnsServers([0x0808_0404])
    ensures Encode(a) + Encode(b) + Encode(c) + Encode(d) ==
            [53, 1, 5] + [1, 4, 255, 255, 255, 0] + [3, 4, 192, 168, 0, 1] + [6, 4, 8, 8, 4, 4]
  {
    WordBytes(1, b.value, [255, 255, 255, 0]);
    WordBytes(3, c.value, [192, 168, 0, 1]);
    OneAddress(d.ips[0]);
    assert Be32(d.ips[0]) == [8, 8, 4, 4];
    assert Encode(a) == [53, 1, 5];
    hide Be32, Be32All;
    assert Encode(d) == [6, 4, 8, 8, 4, 4];
  }

  lemma LastRecords(a: Opt, b: Opt, c: Opt, d: Opt)
    requires a == Address(50, 0xc0a8_0002) && b == Address(51, 0x1_5180) && c == Address(54, 0xc0a8_0003)
    requires d == ParamList([1, 3])
    ensures Encode(a) + Encode(b) + Encode(c) + Encode(d) ==
            [50, 4, 192, 168, 0, 2] + [51, 4, 0, 1, 81, 128] + [54, 4, 192, 168, 0, 3] + [55, 2, 1, 3]
  {
    WordBytes(50, a.value, [192, 168, 0, 2]);
    WordBytes(51, b.value, [0, 1, 81, 128]);
    WordBytes(54, c.value, [192, 168, 0, 3]);
    assert Encode(d) == [55, 2, 1, 3];
  }

  lemma OneAddress(x: u32)
    ensures Be32All([x]) == Be32(x)
  {
    assert [x][..0] == [] && Be32All([x]) == Be32All([]) + Be32(x);
  }

  lemma FourAndFour(opts: seq<Opt>)
    requires |opts| == 8
    ensures EncodeAll(opts) == (Encode(opts[0]) + Encode(opts[1]) + Encode(opts[2]) + Encode(opts[3]))
                               + (Encode(opts[4]) + Encode(opts[5]) + Encode(opts[6]) + Encode(opts[7]))
  {
    hide Encode;
    EncodeAllFour(opts[..4]);
    EncodeAllFour(opts[4..]);
    assert opts == opts[..4] + opts[4..];
    EncodeAllAppend(opts[..4], opts[4..]);
  }

  lemma EncodeAllFour(opts: seq<Opt>)
    requires |opts| == 4
    ensures EncodeAll(opts) == Encode(opts[0]) + Encode(opts[1]) + Encode(opts[2]) + Encode(opts[3])
  {
    hide Encode;
    EncodeOne(opts[0]);
    EncodeOne(opts[1]);
    EncodeOne(opts[2]);
    EncodeOne(opts[3]);
    EncodeAllAppend([opts[0]], [opts[1]]);
    EncodeAllAppend([opts[0]] + [opts[1]], [opts[2]]);
    EncodeAllAppend([opts[0]] + [opts[1]] + [opts[2]], [opts[3]]);
    assert opts == [opts[0]] + [opts[1]] + [opts[2]] + [opts[3]];
  }

  lemma OptionsOk(o: OptSet)
    requires SetOk(o)
    ensures AllOk(OptionsOf(o))
  {
    UptoAll(o);
    hide OptionsOf;
    UptoOk(o, 8);
  }

  lemma {:induction false} UptoOk(o: OptSet, k: nat)
    requires SetOk(o) && k <= 8
    ensures AllOk(Upto(o, k))
  {
    if k > 0 {
      UptoOk(o, k - 1);
      FieldOk(o, k - 1);
      hide Fields, OptOk;
      assert Upto(o, k) == Upto(o, k - 1) + Fields(o)[k - 1];
    }
  }

  lemma FieldOk(o: OptSet, k: nat)
    requires SetOk(o) && k < 8
    ensures AllOk(Fields(o)[k])
  {
    hide Be32, Be32All;
  }

  lemma NormalExact(o: OptSet)
    requires SetOk(o)
    ensures Normal(o) == o <==>
            && o.end && (o.dns.Some? ==> 1 <= |o.dns.value| <= MAX_DNS)
            && (o.params.Some? ==> 1 <= |o.params.value| <= MAX_PARAMS)
  {
    if o.dns.Some? {
      assert o.dns.value[..|o.dns.value|] == o.dns.value;
    }
    if o.params.Some? {
      assert o.params.value[..|o.params.value|] == o.params.value;
    }
  }

  /** Written records without an end marker: they are learnt, and the byte behind them decides. */
  lemma {:induction false} UnendedExact(opts: seq<Opt>, mem: seq<byte>, size: nat, at: nat, o: OptSet)
    requires AllOk(opts) && at <= size < |mem| && mem[at..size] == EncodeAll(opts)
    ensures ParseAt(mem, size, at, o) ==
            if mem[size] == END then (Some(size + 1), LearnAll(o, opts).(end := true)) else (None, LearnAll(o, opts))
    decreases |opts|
  {
    if opts == [] {
      assert at == size;
      AtTheEnd(mem, size, o);
    } else {
      hide Learn, Encode, ParseAt;
      var tail := EncodeAll(opts[1..]);
      OneRecord(opts[0], tail, mem, size, at, o);
      UnendedExact(opts[1..], mem, size, size - |tail|, Learn(o, opts[0]));
    }
  }

  lemma AtTheEnd(mem: seq<byte>, size: nat, o: OptSet)
    requires size < |mem|
    ensures ParseAt(mem, size, size, o) == if mem[size] == END then (Some(size + 1), o.(end := true)) else (None, o)
  {
  }

  /** A written record in front: it is learnt, and the loop goes on behind it. */
  lemma OneRecord(opt: Opt, tail: seq<byte>, mem: seq<byte>, size: nat, at: nat, o: OptSet)
    requires OptOk(opt) && at <= size < |mem| && mem[at..size] == Encode(opt) + tail
    ensures var next := size - |tail|;
            && at <= next && mem[next..size] == tail
            && ParseAt(mem, size, at, o) == ParseAt(mem, size, next, Learn(o, opt))
  {
    hide Apply, Learn, Encode, OptOk, GetOptionHdr;
    FrontRecord(opt, tail);
    ApplyIsLearn(o, opt, tail);
    var s := mem[at..size];
    assert s[0] == mem[at];
    NextRecord(mem, size, at);
    assert GetOptionHdr(s).value.next == tail;
  }

  /** Three bytes, one whole record, no end marker: an 0xff behind them makes the parser report success, one byte past
      the buffer, with the end marker noted. */
  lemma EndReadBehindTheBuffer(mem: seq<byte>)
    requires mem == [MESSAGE_TYPE, 1, 5, END]
    ensures Parse(mem, 3) == (Some(4), EMPTY.(msgType := Some(5), end := true))
  {
    var opts := [MessageType(5)];
    EncodeOne(opts[0]);
    assert mem[0..3] == EncodeAll(opts);
    UnendedExact(opts, mem, 3, 0, EMPTY);
    LearnOne(EMPTY, opts[0]);
  }

  /** What was rendered parses back to the very same set, to the last byte, whatever stands behind it, if and only if
      the end marker was asked for and each list that is present has at least one element and no more than the
      parser has room for. */
  lemma RoundTripExact(o: OptSet, mem: seq<byte>)
    requires SetOk(o) && Rendered(o) < mem
    ensures Parse(mem, |Rendered(o)|) == (Some(|Rendered(o)|), o) <==>
            && o.end && (o.dns.Some? ==> 1 <= |o.dns.value| <= MAX_DNS)
            && (o.params.Some? ==> 1 <= |o.params.value| <= MAX_PARAMS)
  {
    NormalExact(o);
    OptionsOk(o);
    var size, list := |Rendered(o)|, EncodeAll(OptionsOf(o));
    if o.end {
      assert Rendered(o) == list + [END] == mem[..size];
      hide EncodeAll, OptionsOf, ParseAt, Normal;
      RenderThenParse(o, mem, size);
    } else if size > 0 {
      assert Rendered(o) == list + [] == list == mem[0..size];
      hide EncodeAll, OptionsOf, ParseAt, Normal;
      UnendedExact(OptionsOf(o), mem, size, 0, EMPTY);
    }
  }
}
