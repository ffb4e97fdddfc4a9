/** The flash file system: descriptor tables, the pool of 32 handles and their cursors. */
module Ffs {
  import opened Bytes

  const POOL: nat := 32
  const HALF: int := 0x8000_0000

  type Mode = bv32
  const MODE_R: Mode := 1
  const MODE_W: Mode := 2

  predicate Has(mode: Mode, bit: Mode) {
    mode & bit != 0
  }

  /** Everything asked for is offered. */
  predicate Within(asked: Mode, offered: Mode) {
    asked & !offered == 0
  }

  lemma WithinHas(asked: Mode, offered: Mode, bit: Mode)
    requires Within(asked, offered) && Has(asked, bit)
    ensures Has(offered, bit)
  {
  }

  /** A file: the memory behind it, of which the first `size` bytes are its contents. */
  datatype File = File(name: string, mode: Mode, size: nat, data: seq<byte>)

  /** An entry of the handle pool; `fd` is the null pointer until the entry is first used. */
  datatype Handle = Handle(used: bool, fd: Option<nat>, mode: Mode, position: nat)

  datatype St = St(files: seq<File>, pool: seq<Handle>)

  datatype Whence = Set | Cur | End

  /** A null handle is None. */
  datatype Op =
    | Open(name: string, mode: Mode)
    | Read(h: Option<nat>, size: u32)
    | Write(h: Option<nat>, src: seq<byte>)
    | Seek(h: Option<nat>, offset: u32, whence: Whence)
    | Close(h: Option<nat>)

  datatype Reply = Opened(handle: Option<nat>) | Did(code: int, out: seq<byte>)

  /** A size returned through the signed 32-bit status type. */
  function Signed32(x: u32): int {
    if x < HALF then x else x - W32
  }

  function View(f: File): seq<byte>
    requires f.size <= |f.data|
  {
    f.data[..f.size]
  }

  /** At most n bytes from position p on. */
  function Part(v: seq<byte>, p: nat, n: nat): (r: seq<byte>)
    requires p <= |v|
    ensures |r| == Min(n, |v| - p)
  {
    v[p..p + Min(n, |v| - p)]
  }

  lemma PartSplit(v: seq<byte>, p: nat, a: nat, b: nat)
    requires p <= |v|
    ensures Part(v, p, a) + Part(v, p + |Part(v, p, a)|, b) == Part(v, p, a + b)
  {
  }

  // ---- specification ----

  /** First descriptor of the list with this name. */
  function Search(files: seq<File>, listed: seq<nat>, name: string): (r: Option<nat>)
    requires forall k :: 0 <= k < |listed| ==> listed[k] < |files|
    ensures r.Some? ==> r.value in listed && r.value < |files| && files[r.value].name == name
    ensures r.None? <==> forall k :: 0 <= k < |listed| ==> files[listed[k]].name != name
  {
    if listed == [] then None
    else if files[listed[0]].name == name then Some(listed[0])
    else
      var r := Search(files, listed[1..], name);
      assert r.None? ==> forall k :: 1 <= k < |listed| ==> listed[k] == listed[1..][k - 1];
      r
  }

  /** First unused entry of the pool. */
  function FirstFree(pool: seq<Handle>, from: nat): (r: nat)
    requires from <= |pool|
    ensures from <= r <= |pool| && (r < |pool| ==> !pool[r].used)
    ensures forall k :: from <= k < r ==> pool[k].used
    decreases |pool| - from
  {
    if from < |pool| && pool[from].used then FirstFree(pool, from + 1) else from
  }

  ghost predicate FilesOk(files: seq<File>) {
    forall f :: 0 <= f < |files| ==> files[f].size <= |files[f].data| < W32
  }

  /** The invariant of one entry, in use or not. */
  ghost predicate HandleOk(files: seq<File>, e: Handle) {
    && (e.used || e.mode != 0 ==> e.fd.Some?)
    && (e.fd.Some? ==>
          && e.fd.value < |files|
          && e.position <= files[e.fd.value].size
          && Within(e.mode, files[e.fd.value].mode))
  }

  ghost predicate Inv(s: St) {
    && |s.pool| == POOL
    && FilesOk(s.files)
    && forall i :: 0 <= i < POOL ==> HandleOk(s.files, s.pool[i])
  }

  ghost predicate ListOk(files: seq<File>, listed: seq<nat>) {
    forall k :: 0 <= k < |listed| ==> listed[k] < |files|
  }

  /** What the code asks of its callers: a handle points into the pool, a cursor is moved only after the entry
      was opened once, and the memory behind the file has room for what is written. */
  ghost predicate Allowed(s: St, op: Op)
    requires Inv(s)
  {
    match op
    case Open(_, _) => true
    case Read(h, _) => h.Some? ==> h.value < POOL
    case Write(h, src) =>
      h.Some? ==>
        && h.value < POOL
        && (Has(s.pool[h.value].mode, MODE_W) ==> Room(s, h.value) >= |src|)
    case Seek(h, _, _) => h.Some? ==> h.value < POOL && s.pool[h.value].fd.Some?
    case Close(h) => h.Some? ==> h.value < POOL
  }

  /** Bytes of memory from the cursor to the end of what lies behind the file. */
  ghost function Room(s: St, i: nat): (r: nat)
    requires Inv(s) && i < POOL && Has(s.pool[i].mode, MODE_W)
    ensures s.pool[i].fd.Some? && s.pool[i].fd.value < |s.files|
    ensures s.pool[i].position + r == |s.files[s.pool[i].fd.value].data| < W32
  {
    ModeHasFile(s, i);
    assert HandleOk(s.files, s.pool[i]);
    |s.files[s.pool[i].fd.value].data| - s.pool[i].position
  }

  lemma ModeHasFile(s: St, i: nat)
    requires Inv(s) && i < POOL
    ensures s.pool[i].mode != 0 || s.pool[i].used ==> s.pool[i].fd.Some? && s.pool[i].fd.value < |s.files|
    ensures Has(s.pool[i].mode, MODE_R) || Has(s.pool[i].mode, MODE_W) ==> s.pool[i].mode != 0
  {
    assert HandleOk(s.files, s.pool[i]);
    ZeroHasNothing(MODE_R);
    ZeroHasNothing(MODE_W);
  }

  lemma ZeroHasNothing(bit: Mode)
    ensures !Has(0, bit)
  {
  }

  function OpenSpec(s: St, listed: seq<nat>, name: string, mode: Mode): (St, Option<nat>)
    requires ListOk(s.files, listed)
  {
    if mode == 0 then (s, None)
    else
      match Search(s.files, listed, name)
      case None => (s, None)
      case Some(f) =>
        var i := FirstFree(s.pool, 0);
        if !Within(mode, s.files[f].mode) || i == |s.pool| then (s, None)
        else (s.(pool := s.pool[i := Handle(true, Some(f), mode, 0)]), Some(i))
  }

  ghost function ReadSpec(s: St, i: nat, size: u32): (St, int, seq<byte>)
    requires Inv(s) && i < POOL
  {
    var e := s.pool[i];
    ModeHasFile(s, i);
    if !Has(e.mode, MODE_R) then (s, EFATAL, [])
    else
      assert HandleOk(s.files, e);
      var f := s.files[e.fd.value];
      var out := Part(View(f), e.position, size);
      (s.(pool := s.pool[i := e.(position := e.position + |out|)]), Signed32(|out|), out)
  }

  ghost function WriteSpec(s: St, i: nat, src: seq<byte>): (St, int)
    requires Inv(s) && Allowed(s, Write(Some(i), src))
  {
    var e := s.pool[i];
    ModeHasFile(s, i);
    if !Has(e.mode, MODE_W) then (s, EFATAL)
    else
      assert HandleOk(s.files, e);
      var f := s.files[e.fd.value];
      var end := e.position + |src|;
      (St(s.files[e.fd.value := f.(data := Overwrite(f.data, e.position, src),
                                   size := if end > f.size then end else f.size)],
          s.pool[i := e.(position := end)]),
       Signed32(|src|))
  }

  /** The new cursor in wrapping arithmetic; None when it would lie past the end. */
  function SeekPos(fsize: nat, pos: nat, offset: u32, whence: Whence): Option<nat> {
    var target := Wrap32(SeekBase(fsize, pos, whence) + offset);
    if target > fsize then None else Some(target)
  }

  function SeekBase(fsize: nat, pos: nat, whence: Whence): nat {
    match whence
    case Set => 0
    case Cur => pos
    case End => fsize
  }

  ghost function SeekSpec(s: St, i: nat, offset: u32, whence: Whence): (St, int)
    requires Inv(s) && i < POOL && s.pool[i].fd.Some?
  {
    var e := s.pool[i];
    assert HandleOk(s.files, e);
    match SeekPos(s.files[e.fd.value].size, e.position, offset, whence)
    case None => (s, EFATAL)
    case Some(p) => (s.(pool := s.pool[i := e.(position := p)]), EOK)
  }

  ghost function Next(s: St, listed: seq<nat>, op: Op): (St, Reply)
    requires Inv(s) && ListOk(s.files, listed) && Allowed(s, op)
  {
    match op
    case Open(name, mode) => var r := OpenSpec(s, listed, name, mode); (r.0, Opened(r.1))
    case Read(h, size) =>
      if h.None? then (s, Did(EFATAL, [])) else var r := ReadSpec(s, h.value, size); (r.0, Did(r.1, r.2))
    case Write(h, src) =>
      if h.None? then (s, Did(EFATAL, [])) else var r := WriteSpec(s, h.value, src); (r.0, Did(r.1, []))
    case Seek(h, offset, whence) =>
      if h.None? then (s, Did(EFATAL, [])) else var r := SeekSpec(s, h.value, offset, whence); (r.0, Did(r.1, []))
    case Close(h) =>
      if h.None? || !s.pool[h.value].used then (s, Did(EFATAL, []))
      else (s.(pool := s.pool[h.value := s.pool[h.value].(used := false)]), Did(EOK, []))
  }

  // ---- the cursor arithmetic ----

  /** Seeking with the offset read as a signed number. */
  function SignedSeek(fsize: nat, pos: nat, offset: u32, whence: Whence): Option<nat> {
    var target := SeekBase(fsize, pos, whence) + Signed32(offset);
    if 0 <= target <= fsize then Some(target) else None
  }

  lemma WrapCases(x: int)
    requires -W32 <= x < 2 * W32
    ensures Wrap32(x) == if x < 0 then x + W32 else if x < W32 then x else x - W32
  {
  }

  lemma SeekAgrees(fsize: u32, pos: nat, offset: u32, whence: Whence)
    requires pos <= fsize < SeekBase(fsize, pos, whence) + HALF && SeekBase(fsize, pos, whence) <= HALF
    ensures SeekPos(fsize, pos, offset, whence) == SignedSeek(fsize, pos, offset, whence)
  {
    WrapCases(SeekBase(fsize, pos, whence) + offset);
  }

  /** The wrapping seek is the signed seek for every offset if and only if the end of the file is less than
      2^31 past the base and the base is not above 2^31. */
  lemma SeekExact(fsize: u32, pos: nat, whence: Whence)
    requires pos <= fsize
    ensures (forall offset: u32 :: SeekPos(fsize, pos, offset, whence) == SignedSeek(fsize, pos, offset, whence))
            <==> fsize < SeekBase(fsize, pos, whence) + HALF && SeekBase(fsize, pos, whence) <= HALF
  {
    var base := SeekBase(fsize, pos, whence);
    if fsize >= base + HALF {
      WrapCases(base + HALF);
      assert SeekPos(fsize, pos, HALF, whence) != SignedSeek(fsize, pos, HALF, whence);
    } else if base > HALF {
      WrapCases(base + (HALF - 1));
      assert SeekPos(fsize, pos, HALF - 1, whence) != SignedSeek(fsize, pos, HALF - 1, whence);
    } else {
      forall offset: u32
        ensures SeekPos(fsize, pos, offset, whence) == SignedSeek(fsize, pos, offset, whence)
      {
        SeekAgrees(fsize, pos, offset, whence);
      }
    }
  }

  /** In a file below 2^31 bytes every seek is the signed one, and so accepts exactly the targets in the file. */
  lemma SmallFileSeek(fsize: u32, pos: nat, offset: u32, whence: Whence)
    requires pos <= fsize < HALF
    ensures SeekPos(fsize, pos, offset, whence) == SignedSeek(fsize, pos, offset, whence)
  {
    SeekExact(fsize, pos, whence);
  }

  // ---- what each call does ----

  /** The first descriptor of the list with this name. */
  predicate Foremost(files: seq<File>, listed: seq<nat>, k: nat, name: string)
    requires k < |listed| && forall j :: 0 <= j < |listed| ==> listed[j] < |files|
  {
    files[listed[k]].name == name && forall j :: 0 <= j < k ==> files[listed[j]].name != name
  }

  /** No bit of the mode is lost in what is offered. */
  predicate Masked(asked: Mode, offered: Mode) {
    asked & offered == asked
  }

  lemma WithinIsMasked(asked: Mode, offered: Mode)
    ensures Within(asked, offered) <==> Masked(asked, offered)
  {
  }

  /** It offers everything the mode asks for. */
  predicate Offers(files: seq<File>, listed: seq<nat>, k: nat, name: string, mode: Mode)
    requires k < |listed| && forall j :: 0 <= j < |listed| ==> listed[j] < |files|
  {
    Foremost(files, listed, k, name) && Masked(mode, files[listed[k]].mode)
  }

  lemma OffersWithin(files: seq<File>, listed: seq<nat>, k: nat, name: string, mode: Mode)
    requires ListOk(files, listed) && k < |listed|
    ensures Offers(files, listed, k, name, mode) <==>
            Foremost(files, listed, k, name) && Within(mode, files[listed[k]].mode)
  {
    hide Foremost, Within, Masked;
    WithinIsMasked(mode, files[listed[k]].mode);
  }

  lemma OneForemost(files: seq<File>, listed: seq<nat>, k: nat, k': nat, name: string)
    requires ListOk(files, listed) && k < |listed| && k' < |listed|
    requires Foremost(files, listed, k, name) && Foremost(files, listed, k', name)
    ensures k == k'
  {
  }

  /** Search finds the first position of the name, if there is one. */
  lemma {:induction false} SearchFirst(files: seq<File>, listed: seq<nat>, name: string)
    requires ListOk(files, listed)
    ensures var found := Search(files, listed, name);
            if found.Some?
            then exists k :: 0 <= k < |listed| && found == Some(listed[k]) && Foremost(files, listed, k, name)
            else forall k :: 0 <= k < |listed| ==> !Foremost(files, listed, k, name)
  {
    if listed != [] {
      if files[listed[0]].name == name {
        assert Foremost(files, listed, 0, name) && Search(files, listed, name) == Some(listed[0]);
      } else {
        SearchFirst(files, listed[1..], name);
        var found := Search(files, listed[1..], name);
        if found.Some? {
          var k :| 0 <= k < |listed| - 1 && found == Some(listed[1..][k]) && Foremost(files, listed[1..], k, name);
          assert listed[1..][k] == listed[k + 1];
          ForemostLater(files, listed, k, name);
        }
      }
    }
  }

  lemma ForemostLater(files: seq<File>, listed: seq<nat>, k: nat, name: string)
    requires ListOk(files, listed) && k + 1 < |listed| && files[listed[0]].name != name
    requires ListOk(files, listed[1..]) && Foremost(files, listed[1..], k, name)
    ensures Foremost(files, listed, k + 1, name)
  {
    forall j | 0 <= j < k + 1
      ensures files[listed[j]].name != name
    {
      if j > 0 { assert listed[1..][j - 1] == listed[j]; }
    }
  }

  /** An open succeeds if and only if a mode is asked for, the first descriptor with the name offers it and the pool has
      an unused entry. Then the first unused entry is taken, on that file, in exactly that mode, at its beginning;
      nothing else changes. Otherwise nothing changes at all. */
  lemma OpenExact(s: St, listed: seq<nat>, name: string, mode: Mode)
    requires Inv(s) && ListOk(s.files, listed)
    ensures var (s', reply) := Next(s, listed, Op.Open(name, mode));
            && reply.Opened? && s'.files == s.files && |s'.pool| == |s.pool|
            && (reply.handle.Some? <==>
                  && mode != 0
                  && (exists k :: 0 <= k < |listed| && Offers(s.files, listed, k, name, mode))
                  && exists i :: 0 <= i < |s.pool| && !s.pool[i].used)
            && (reply.handle.None? ==> s' == s)
            && (reply.handle.Some? ==>
                  var i := reply.handle.value;
                  && i < |s.pool| && !s.pool[i].used && (forall j :: 0 <= j < i ==> s.pool[j].used)
                  && s'.pool[i].used && s'.pool[i].mode == mode && s'.pool[i].position == 0
                  && (exists k :: 0 <= k < |listed| && Offers(s.files, listed, k, name, mode)
                                  && s'.pool[i].fd == Some(listed[k]))
                  && forall j :: 0 <= j < |s.pool| && j != i ==> s'.pool[j] == s.pool[j])
  {
    FreeEntry(s.pool);
    FoundOffers(s.files, listed, name, mode);
    hide Within, Search, FirstFree, Offers, HandleOk, FilesOk;
  }

  lemma FreeEntry(pool: seq<Handle>)
    ensures FirstFree(pool, 0) < |pool| <==> exists i :: 0 <= i < |pool| && !pool[i].used
  {
  }

  lemma FoundOffers(files: seq<File>, listed: seq<nat>, name: string, mode: Mode)
    requires ListOk(files, listed)
    ensures var found := Search(files, listed, name);
            if found.Some? && Within(mode, files[found.value].mode)
            then exists k :: 0 <= k < |listed| && Offers(files, listed, k, name, mode) && found == Some(listed[k])
            else forall k :: 0 <= k < |listed| ==> !Offers(files, listed, k, name, mode)
  {
    hide Within, Foremost, Offers, Search;
    SearchFirst(files, listed, name);
    var found := Search(files, listed, name);
    forall k | 0 <= k < |listed|
      ensures Offers(files, listed, k, name, mode) ==>
                Foremost(files, listed, k, name) && Within(mode, files[listed[k]].mode)
      ensures Offers(files, listed, k, name, mode) ==> found == Some(listed[k])
    {
      OffersWithin(files, listed, k, name, mode);
      if found.Some? && Offers(files, listed, k, name, mode) {
        var k' :| 0 <= k' < |listed| && found == Some(listed[k']) && Foremost(files, listed, k', name);
        OneForemost(files, listed, k, k', name);
      }
    }
    if found.Some? {
      var k :| 0 <= k < |listed| && found == Some(listed[k]) && Foremost(files, listed, k, name);
      OffersWithin(files, listed, k, name, mode);
    }
  }

  /** A read needs the right to read; it hands over what is left of the file from the cursor on, up to the size asked
      for, and moves the cursor behind it. The number of bytes is its result, in a signed 32-bit type. */
  lemma ReadExact(s: St, listed: seq<nat>, h: Option<nat>, size: u32)
    requires Inv(s) && ListOk(s.files, listed) && Allowed(s, Op.Read(h, size))
    ensures var (s', reply) := Next(s, listed, Op.Read(h, size));
            if h.None? || s.pool[h.value].mode & MODE_R == 0 then s' == s && reply == Did(EFATAL, [])
            else
              && s.pool[h.value].fd.Some? && s.pool[h.value].fd.value < |s.files|
              && var e, f := s.pool[h.value], s.files[s.pool[h.value].fd.value];
                 && e.position <= f.size <= |f.data| && s'.files == s.files
                 && var n := Min(size, f.size - e.position);
                    && reply.Did? && reply.out == f.data[e.position..e.position + n]
                    && (n < HALF ==> reply.code == n) && (n >= HALF ==> reply.code == n - W32)
                    && s'.pool == s.pool[h.value := e.(position := e.position + n)]
  {
    hide Within, FilesOk;
    if h.Some? {
      ModeHasFile(s, h.value);
      assert HandleOk(s.files, s.pool[h.value]);
      if Has(s.pool[h.value].mode, MODE_R) {
        var f := s.files[s.pool[h.value].fd.value];
        FileFits(s, s.pool[h.value].fd.value);
        PartOfData(f, s.pool[h.value].position, size);
      }
    }
  }

  lemma FileFits(s: St, f: nat)
    requires Inv(s) && f < |s.files|
    ensures s.files[f].size <= |s.files[f].data| < W32
  {
  }

  /** A write needs the right to write; its result is the number of bytes, and the cursor moves behind them. */
  lemma WriteExact(s: St, listed: seq<nat>, h: Option<nat>, src: seq<byte>)
    requires Inv(s) && ListOk(s.files, listed) && Allowed(s, Op.Write(h, src))
    ensures var (s', reply) := Next(s, listed, Op.Write(h, src));
            if h.None? || s.pool[h.value].mode & MODE_W == 0 then s' == s && reply == Did(EFATAL, [])
            else
              && s.pool[h.value].fd.Some? && s.pool[h.value].fd.value < |s.files|
              && var e := s.pool[h.value];
                 && reply.Did? && reply.out == [] && |s'.files| == |s.files|
                 && (|src| < HALF ==> reply.code == |src|) && (|src| >= HALF ==> reply.code == |src| - W32)
                 && s'.pool == s.pool[h.value := e.(position := e.position + |src|)]
                 && forall f :: 0 <= f < |s.files| && Some(f) != e.fd ==> s'.files[f] == s.files[f]
  {
    hide Within, FilesOk, Overwrite;
    if h.Some? {
      ModeHasFile(s, h.value);
      assert HandleOk(s.files, s.pool[h.value]);
      if Has(s.pool[h.value].mode, MODE_W) {
        var room := Room(s, h.value);
      }
    }
  }

  /** In a file below 2^31 bytes a seek goes to the signed offset from the beginning, the cursor or the end, if that
      lies in the file; otherwise it is refused and nothing changes. */
  lemma SeekPlaces(s: St, listed: seq<nat>, h: Option<nat>, offset: u32, whence: Whence)
    requires Inv(s) && ListOk(s.files, listed) && Allowed(s, Op.Seek(h, offset, whence))
    ensures var (s', reply) := Next(s, listed, Op.Seek(h, offset, whence));
            if h.None? then s' == s && reply == Did(EFATAL, [])
            else
              && s.pool[h.value].fd.Some? && s.pool[h.value].fd.value < |s.files|
              && var e, f := s.pool[h.value], s.files[s.pool[h.value].fd.value];
                 f.size < HALF ==>
                   var base := if whence == Set then 0 else if whence == Cur then e.position else f.size;
                   var target := base + if offset < HALF then offset else offset - W32;
                   if 0 <= target <= f.size
                   then s' == s.(pool := s.pool[h.value := e.(position := target)]) && reply == Did(EOK, [])
                   else s' == s && reply == Did(EFATAL, [])
  {
    hide Within, FilesOk, SeekPos;
    if h.Some? {
      assert HandleOk(s.files, s.pool[h.value]);
      var e, f := s.pool[h.value], s.files[s.pool[h.value].fd.value];
      if f.size < HALF {
        SmallFileSeek(f.size, e.position, offset, whence);
      }
    }
  }

  /** Closing a handle in use frees its entry and changes nothing else; any other close is refused. */
  lemma CloseExact(s: St, listed: seq<nat>, h: Option<nat>)
    requires Inv(s) && ListOk(s.files, listed) && Allowed(s, Op.Close(h))
    ensures var (s', reply) := Next(s, listed, Op.Close(h));
            if h.Some? && s.pool[h.value].used
            then
              && reply == Did(EOK, []) && s'.files == s.files && |s'.pool| == |s.pool| && !s'.pool[h.value].used
              && forall j :: 0 <= j < |s.pool| && j != h.value ==> s'.pool[j] == s.pool[j]
            else s' == s && reply == Did(EFATAL, [])
  {
    hide HandleOk, FilesOk;
  }

  // ---- the invariant ----

  /** Growing one file disturbs no handle, whichever file it is on. */
  lemma GrownFile(files: seq<File>, f: nat, f': File, e: Handle)
    requires f < |files| && HandleOk(files, e) && files[f].size <= f'.size && f'.mode == files[f].mode
    ensures HandleOk(files[f := f'], e)
  {
  }

  lemma NextKeeps(s: St, listed: seq<nat>, op: Op)
    requires Inv(s) && ListOk(s.files, listed) && Allowed(s, op)
    ensures Inv(Next(s, listed, op).0) && ListOk(Next(s, listed, op).0.files, listed)
  {
    hide HandleOk, FilesOk, Within, Search, FirstFree, Has;
    match op
    case Open(name, mode) => OpenKeeps(s, listed, name, mode);
    case Write(h, src) => if h.Some? { WriteKeeps(s, h.value, src); }
    case Read(h, size) => if h.Some? { ReadKeeps(s, h.value, size); }
    case Seek(h, offset, whence) => if h.Some? { SeekKeeps(s, h.value, offset, whence); }
    case Close(h) =>
      if h.Some? && s.pool[h.value].used { CloseKeeps(s, h.value); }
  }

  /** An operation that leaves the files alone has only its own entry to answer for. */
  lemma OwnEntry(s: St, i: nat, pool: seq<Handle>)
    requires Inv(s) && i < POOL && |pool| == POOL && HandleOk(s.files, pool[i])
    requires forall k :: 0 <= k < POOL && k != i ==> pool[k] == s.pool[k]
    ensures Inv(St(s.files, pool))
  {
    forall k | 0 <= k < POOL
      ensures HandleOk(s.files, pool[k])
    {
      assert HandleOk(s.files, s.pool[k]);
    }
  }

  lemma OpenKeeps(s: St, listed: seq<nat>, name: string, mode: Mode)
    requires Inv(s) && ListOk(s.files, listed)
    ensures Inv(OpenSpec(s, listed, name, mode).0)
  {
    var r := OpenSpec(s, listed, name, mode);
    if r.1.Some? {
      assert HandleOk(s.files, r.0.pool[r.1.value]);
      OwnEntry(s, r.1.value, r.0.pool);
    }
  }

  lemma CloseKeeps(s: St, i: nat)
    requires Inv(s) && i < POOL && s.pool[i].used
    ensures Inv(s.(pool := s.pool[i := s.pool[i].(used := false)]))
  {
    var pool := s.pool[i := s.pool[i].(used := false)];
    assert HandleOk(s.files, s.pool[i]);
    assert HandleOk(s.files, pool[i]);
    OwnEntry(s, i, pool);
  }

  lemma ReadKeeps(s: St, i: nat, size: u32)
    requires Inv(s) && i < POOL
    ensures Inv(ReadSpec(s, i, size).0)
  {
    var s' := ReadSpec(s, i, size).0;
    assert HandleOk(s.files, s.pool[i]);
    assert HandleOk(s.files, s'.pool[i]);
    OwnEntry(s, i, s'.pool);
  }

  lemma SeekKeeps(s: St, i: nat, offset: u32, whence: Whence)
    requires Inv(s) && i < POOL && s.pool[i].fd.Some?
    ensures Inv(SeekSpec(s, i, offset, whence).0)
  {
    var s' := SeekSpec(s, i, offset, whence).0;
    assert HandleOk(s.files, s.pool[i]);
    assert HandleOk(s.files, s'.pool[i]);
    OwnEntry(s, i, s'.pool);
  }

  lemma WriteKeeps(s: St, i: nat, src: seq<byte>)
    requires Inv(s) && Allowed(s, Write(Some(i), src))
    ensures Inv(WriteSpec(s, i, src).0)
  {
    if Has(s.pool[i].mode, MODE_W) {
      var s' := WriteSpec(s, i, src).0;
      var room := Room(s, i);
      var f := s.pool[i].fd.value;
      assert HandleOk(s.files, s.pool[i]);
      forall k | 0 <= k < POOL && k != i
        ensures HandleOk(s'.files, s'.pool[k])
      {
        assert HandleOk(s.files, s.pool[k]);
        GrownFile(s.files, f, s'.files[f], s.pool[k]);
      }
      assert HandleOk(s'.files, s'.pool[i]);
    }
  }

  // ---- the program ----

  class Fs {
    /** The descriptors, and the arrays of descriptors that are searched in turn. */
    const files: array<File>
    const tables: seq<seq<nat>>
    const fpool: array<Handle>

    ghost function State(): St
      reads files, fpool
    {
      St(files[..], fpool[..])
    }

    ghost predicate Valid()
      reads files, fpool
    {
      Inv(State()) && ListOk(files[..], Flatten(tables))
    }

    constructor (files: array<File>, tables: seq<seq<nat>>)
      requires FilesOk(files[..]) && ListOk(files[..], Flatten(tables))
      ensures Valid() && this.files == files && this.tables == tables && fresh(fpool)
      ensures forall i :: 0 <= i < POOL ==> !fpool[i].used
    {
      this.files := files;
      this.tables := tables;
      fpool := new Handle[POOL](_ => Handle(false, None, 0, 0));
    }

    /** The two nested loops that look a name up. */
    method FindFile(name: string) returns (found: Option<nat>)
      requires Valid()
      ensures found == Search(files[..], Flatten(tables), name)
    {
      hide Inv;
      ghost var fs := files[..];
      found := None;
      var t := 0;
      SearchWhole(tables);
      while t != |tables| && found.None?
        invariant t <= |tables| && ListOk(fs, Flatten(tables[t..]))
        invariant Search(fs, Flatten(tables), name) ==
                  if found.Some? then found else Search(fs, Flatten(tables[t..]), name)
        decreases |tables| - t
      {
        var k := 0;
        SearchSplit(fs, tables[t], Flatten(tables[t + 1..]));
        assert tables[t..][1..] == tables[t + 1..];
        SearchAppend(fs, tables[t], Flatten(tables[t + 1..]), name);
        while k != |tables[t]| && files[tables[t][k]].name != name
          invariant k <= |tables[t]|
          invariant Search(fs, tables[t], name) == Search(fs, tables[t][k..], name)
        {
          k := k + 1;
        }
        if k != |tables[t]| {
          found := Some(tables[t][k]);
        }
        t := t + 1;
      }
    }

    /** The loop that looks for an unused entry. */
    method FindFree() returns (i: nat)
      requires fpool.Length == POOL
      ensures i == FirstFree(fpool[..], 0) <= POOL
    {
      i := 0;
      while i != POOL && fpool[i].used
        invariant i <= POOL && FirstFree(fpool[..], 0) == FirstFree(fpool[..], i)
      {
        i := i + 1;
      }
    }

    method Open(name: Option<string>, mode: Mode) returns (fp: Option<nat>)
      requires Valid()
      modifies fpool
      ensures Valid()
      ensures name.None? ==> fp.None? && State() == old(State())
      ensures name.Some? ==> (State(), Opened(fp)) == Next(old(State()), Flatten(tables), Op.Open(name.value, mode))
    {
      hide Inv, HandleOk, Search, FirstFree, Within, ListOk;
      if mode == 0 || name.None? {
        return None;
      }
      ghost var s := State();
      NextKeeps(s, Flatten(tables), Op.Open(name.value, mode));
      PoolShape(s);
      var fd := FindFile(name.value);
      if fd.None? || !Within(mode, files[fd.value].mode) {
        return None;
      }
      var i := FindFree();
      if i == POOL {
        return None;
      }
      fpool[i] := Handle(true, fd, mode, 0);
      fp := Some(i);
      assert fpool[..] == s.pool[i := Handle(true, fd, mode, 0)];
    }

    method Read(fp: Option<nat>, size: u32) returns (ec: int, out: seq<byte>)
      requires Valid() && Allowed(State(), Op.Read(fp, size))
      modifies fpool
      ensures Valid()
      ensures (State(), Did(ec, out)) == Next(old(State()), Flatten(tables), Op.Read(fp, size))
    {
      ghost var s := State();
      NextKeeps(s, Flatten(tables), Op.Read(fp, size));
      hide Inv, Has, HandleOk, Part, View, Signed32, Wrap32, Within;
      PoolShape(s);
      if fp.None? || !Has(fpool[fp.value].mode, MODE_R) {
        return EFATAL, [];
      }
      var i := fp.value;
      HandleFacts(s, i);
      var f := files[fpool[i].fd.value];
      WrapCases(f.size - fpool[i].position);
      var n := Min(size, Wrap32(f.size - fpool[i].position));
      out := f.data[fpool[i].position..fpool[i].position + n];
      PartOfData(f, fpool[i].position, size);
      WrapCases(fpool[i].position + n);
      fpool[i] := fpool[i].(position := Wrap32(fpool[i].position + n));
      ec := Signed32(n);
    }

    method Write(fp: Option<nat>, src: seq<byte>) returns (ec: int)
      requires Valid() && Allowed(State(), Op.Write(fp, src))
      modifies files, fpool
      ensures Valid()
      ensures (State(), Did(ec, [])) == Next(old(State()), Flatten(tables), Op.Write(fp, src))
    {
      ghost var s, next := State(), Next(State(), Flatten(tables), Op.Write(fp, src)).0;
      NextKeeps(s, Flatten(tables), Op.Write(fp, src));
      hide Inv, Has, HandleOk, Signed32, Wrap32, Within;
      PoolShape(s);
      if fp.None? || !Has(fpool[fp.value].mode, MODE_W) {
        return EFATAL;
      }
      var i := fp.value;
      HandleFacts(s, i);
      var fd := fpool[i].fd.value;
      files[fd] := files[fd].(data := Overwrite(files[fd].data, fpool[i].position, src));
      WrapCases(fpool[i].position + |src|);
      fpool[i] := fpool[i].(position := Wrap32(fpool[i].position + |src|));
      if fpool[i].position > files[fd].size {
        files[fd] := files[fd].(size := fpool[i].position);
      }
      assert files[..] == next.files;
      ec := Signed32(|src|);
    }

    method Seek(fp: Option<nat>, offset: u32, whence: Whence) returns (ec: int)
      requires Valid() && Allowed(State(), Op.Seek(fp, offset, whence))
      modifies fpool
      ensures Valid()
      ensures (State(), Did(ec, [])) == Next(old(State()), Flatten(tables), Op.Seek(fp, offset, whence))
    {
      ghost var s := State();
      NextKeeps(s, Flatten(tables), Op.Seek(fp, offset, whence));
      hide Inv, Has, HandleOk, Wrap32, Within;
      PoolShape(s);
      if fp.None? {
        return EFATAL;
      }
      var i := fp.value;
      HandleFacts(s, i);
      var fsize, fpos := files[fpool[i].fd.value].size, fpool[i].position;
      var newPos: u32;
      match whence {
        case Set => newPos := offset;
        case Cur => newPos := Wrap32(fpos + offset);
        case End => newPos := Wrap32(fsize + offset);
      }
      WrapCases(offset);
      if newPos > fsize {
        return EFATAL;
      }
      fpool[i] := fpool[i].(position := newPos);
      ec := EOK;
    }

    method Close(fp: Option<nat>) returns (ec: int)
      requires Valid() && Allowed(State(), Op.Close(fp))
      modifies fpool
      ensures Valid()
      ensures (State(), Did(ec, [])) == Next(old(State()), Flatten(tables), Op.Close(fp))
    {
      ghost var s := State();
      NextKeeps(s, Flatten(tables), Op.Close(fp));
      hide Inv;
      PoolShape(s);
      if fp.None? || !fpool[fp.value].used {
        return EFATAL;
      }
      fpool[fp.value] := fpool[fp.value].(used := false);
      ec := EOK;
    }
  }

  lemma PoolShape(s: St)
    requires Inv(s)
    ensures |s.pool| == POOL
  {
  }

  lemma HandleFacts(s: St, i: nat)
    requires Inv(s) && i < POOL
    ensures ModeHasFileFacts(s, i)
  {
    ModeHasFile(s, i);
    assert HandleOk(s.files, s.pool[i]);
  }

  ghost predicate ModeHasFileFacts(s: St, i: nat)
    requires i < |s.pool|
  {
    && (Has(s.pool[i].mode, MODE_R) || Has(s.pool[i].mode, MODE_W) || s.pool[i].used ==> s.pool[i].fd.Some?)
    && (s.pool[i].fd.Some? ==>
          && s.pool[i].fd.value < |s.files|
          && s.pool[i].position <= s.files[s.pool[i].fd.value].size <= |s.files[s.pool[i].fd.value].data| < W32)
  }

  lemma SearchWhole(tables: seq<seq<nat>>)
    ensures tables[0..] == tables
  {
  }

  lemma SearchSplit(files: seq<File>, a: seq<nat>, b: seq<nat>)
    requires ListOk(files, a + b)
    ensures ListOk(files, a) && ListOk(files, b)
  {
    forall k | 0 <= k < |a| ensures a[k] < |files| { assert (a + b)[k] == a[k]; }
    forall k | 0 <= k < |b| ensures b[k] < |files| { assert (a + b)[|a| + k] == b[k]; }
  }

  lemma {:induction false} SearchAppend(files: seq<File>, a: seq<nat>, b: seq<nat>, name: string)
    requires ListOk(files, a + b) && ListOk(files, a) && ListOk(files, b)
    ensures Search(files, a + b, name) ==
            if Search(files, a, name).Some? then Search(files, a, name) else Search(files, b, name)
  {
    if a == [] {
      assert a + b == b;
    } else {
      assert (a + b)[1..] == a[1..] + b;
      SearchAppend(files, a[1..], b, name);
    }
  }

  // ---- runs of calls by any number of users ----

  ghost predicate RunAllowed(s: St, listed: seq<nat>, ops: seq<Op>)
    requires Inv(s) && ListOk(s.files, listed)
    decreases |ops|
  {
    || ops == []
    || (Allowed(s, ops[0]) &&
        (NextKeeps(s, listed, ops[0]); RunAllowed(Next(s, listed, ops[0]).0, listed, ops[1..])))
  }

  /** Every state a run reaches satisfies the invariant: no cursor is past the end of its file. */
  ghost function Run(s: St, listed: seq<nat>, ops: seq<Op>): (r: (St, seq<Reply>))
    requires Inv(s) && ListOk(s.files, listed) && RunAllowed(s, listed, ops)
    ensures Inv(r.0) && |r.1| == |ops|
    decreases |ops|
  {
    if ops == [] then (s, []) else
    NextKeeps(s, listed, ops[0]);
    var (s', reply) := Next(s, listed, ops[0]);
    var (end, replies) := Run(s', listed, ops[1..]);
    (end, [reply] + replies)
  }

  /** One call, seen from a handle that is in use and that the call does not close: it stays in use on the same
      file in the same mode, no open returns it, and its cursor moves only in calls on it. */
  lemma HeldStep(s: St, listed: seq<nat>, op: Op, i: nat)
    requires Inv(s) && ListOk(s.files, listed) && Allowed(s, op)
    requires i < POOL && s.pool[i].used && op != Close(Some(i))
    ensures var (s', reply) := Next(s, listed, op);
            && s'.pool[i].used && s'.pool[i].fd == s.pool[i].fd && s'.pool[i].mode == s.pool[i].mode
            && reply != Opened(Some(i))
            && (op.Open? || op.h != Some(i) ==> s'.pool[i] == s.pool[i])
  {
    hide Search, Within, HandleOk;
  }

  /** Open handles never alias: until it is closed, a handle is given to nobody else, whatever the others do. */
  lemma {:induction false} HeldIsExclusive(s: St, listed: seq<nat>, ops: seq<Op>, i: nat)
    requires Inv(s) && ListOk(s.files, listed) && RunAllowed(s, listed, ops)
    requires i < POOL && s.pool[i].used && forall k :: 0 <= k < |ops| ==> ops[k] != Close(Some(i))
    ensures var (end, replies) := Run(s, listed, ops);
            && end.pool[i].used && end.pool[i].fd == s.pool[i].fd && end.pool[i].mode == s.pool[i].mode
            && forall k :: 0 <= k < |replies| ==> replies[k] != Opened(Some(i))
    decreases |ops|
  {
    if ops != [] {
      hide Inv, Next, ListOk, Allowed;
      HeldStep(s, listed, ops[0], i);
      NextKeeps(s, listed, ops[0]);
      HeldIsExclusive(Next(s, listed, ops[0]).0, listed, ops[1..], i);
    }
  }

  /** What one call does to one file: nothing, unless it writes through a handle on it that may write. */
  lemma FileStep(s: St, listed: seq<nat>, op: Op, f: nat)
    requires Inv(s) && ListOk(s.files, listed) && Allowed(s, op) && f < |s.files|
    ensures var s' := Next(s, listed, op).0;
            && |s'.files| == |s.files|
            && s'.files[f].name == s.files[f].name && s'.files[f].mode == s.files[f].mode
            && |s'.files[f].data| == |s.files[f].data|
            && s'.files[f].size >= s.files[f].size
            && (!Has(s.files[f].mode, MODE_W) || !WritesTo(s, op, f) ==> s'.files[f] == s.files[f])
  {
    if op.Write? && op.h.Some? && Has(s.pool[op.h.value].mode, MODE_W) {
      var i := op.h.value;
      ModeHasFile(s, i);
      assert HandleOk(s.files, s.pool[i]);
      WithinHas(s.pool[i].mode, s.files[s.pool[i].fd.value].mode, MODE_W);
    }
  }

  ghost predicate WritesTo(s: St, op: Op, f: nat) {
    op.Write? && op.h.Some? && op.h.value < |s.pool| && s.pool[op.h.value].fd == Some(f)
  }

  /** Over any run files keep their names and modes and never shrink, and a read-only file keeps its contents. */
  lemma {:induction false} ReadOnlyKept(s: St, listed: seq<nat>, ops: seq<Op>, f: nat)
    requires Inv(s) && ListOk(s.files, listed) && RunAllowed(s, listed, ops) && f < |s.files|
    ensures var end := Run(s, listed, ops).0;
            && |end.files| == |s.files|
            && end.files[f].name == s.files[f].name && end.files[f].mode == s.files[f].mode
            && end.files[f].size >= s.files[f].size
            && (!Has(s.files[f].mode, MODE_W) ==> end.files[f] == s.files[f])
    decreases |ops|
  {
    if ops != [] {
      hide Inv, Next, ListOk, Allowed;
      FileStep(s, listed, ops[0], f);
      NextKeeps(s, listed, ops[0]);
      ReadOnlyKept(Next(s, listed, ops[0]).0, listed, ops[1..], f);
    }
  }

  // ---- reading a file through while others work ----

  /** The calls leave handle i to its reader: nobody else moves or closes it, and nobody writes to its file. */
  ghost predicate Undisturbed(s: St, listed: seq<nat>, ops: seq<Op>, i: nat)
    requires Inv(s) && ListOk(s.files, listed) && RunAllowed(s, listed, ops) && i < POOL && s.pool[i].fd.Some?
    decreases |ops|
  {
    ops == [] ||
      (&& !WritesTo(s, ops[0], s.pool[i].fd.value)
       && (ops[0].Seek? || ops[0].Close? ==> ops[0].h != Some(i))
       && (NextKeeps(s, listed, ops[0]);
           var s' := Next(s, listed, ops[0]).0;
           s'.pool[i].fd == s.pool[i].fd && Undisturbed(s', listed, ops[1..], i)))
  }

  /** The bytes the reader of handle i was given, and how many it asked for. */
  function Given(ops: seq<Op>, replies: seq<Reply>, i: nat): seq<byte>
    requires |ops| == |replies|
  {
    if ops == [] then []
    else
      (if ops[0].Read? && ops[0].h == Some(i) && replies[0].Did? then replies[0].out else [])
      + Given(ops[1..], replies[1..], i)
  }

  function Asked(ops: seq<Op>, i: nat): nat {
    if ops == [] then 0 else (if ops[0].Read? && ops[0].h == Some(i) then ops[0].size else 0) + Asked(ops[1..], i)
  }

  lemma ReadStep(s: St, listed: seq<nat>, op: Op, i: nat)
    requires Inv(s) && ListOk(s.files, listed) && Allowed(s, op)
    requires i < POOL && s.pool[i].used && Has(s.pool[i].mode, MODE_R)
    requires s.pool[i].fd.Some? && !WritesTo(s, op, s.pool[i].fd.value)
    requires op.Seek? || op.Close? ==> op.h != Some(i)
    requires s.pool[i].fd.value < |s.files|
    requires s.pool[i].position <= s.files[s.pool[i].fd.value].size <= |s.files[s.pool[i].fd.value].data|
    ensures var (s', reply) := Next(s, listed, op);
            var f := s.pool[i].fd.value;
            var mine := op.Read? && op.h == Some(i);
            var part := Part(View(s.files[f]), s.pool[i].position, if mine then op.size else 0);
            && |s'.files| == |s.files| && s'.files[f] == s.files[f]
            && s'.pool[i] == s.pool[i].(position := s.pool[i].position + |part|)
            && (if mine then reply.Did? && reply.out == part else part == [])
  {
    HeldStep(s, listed, op, i);
    FileStep(s, listed, op, s.pool[i].fd.value);
    hide Search, Within, HandleOk;
  }

  /** Reads through one handle, put together, are the file from the cursor on, as far as was asked: nothing is
      lost or repeated however the calls are cut and whatever goes on at other handles and in other files. */
  lemma {:induction false} ReadsConcatenate(s: St, listed: seq<nat>, ops: seq<Op>, i: nat)
    requires Inv(s) && ListOk(s.files, listed) && RunAllowed(s, listed, ops)
    requires i < POOL && s.pool[i].used && s.pool[i].fd.Some? && Has(s.pool[i].mode, MODE_R)
    requires Undisturbed(s, listed, ops, i)
    ensures s.pool[i].fd.value < |s.files|
    ensures s.pool[i].position <= s.files[s.pool[i].fd.value].size <= |s.files[s.pool[i].fd.value].data|
    ensures var part := Part(View(s.files[s.pool[i].fd.value]), s.pool[i].position, Asked(ops, i));
            && Given(ops, Run(s, listed, ops).1, i) == part
            && Run(s, listed, ops).0.pool[i].position == s.pool[i].position + |part|
    decreases |ops|
  {
    hide Inv, Next, ListOk, Allowed, Has, HandleOk, Part, View, Min, WritesTo;
    PoolShape(s);
    HandleFacts(s, i);
    if ops != [] {
      ReadStep(s, listed, ops[0], i);
      NextKeeps(s, listed, ops[0]);
      var (s', reply) := Next(s, listed, ops[0]);
      ReadsConcatenate(s', listed, ops[1..], i);
      var replies := Run(s', listed, ops[1..]).1;
      assert ([reply] + replies)[1..] == replies;
      var v := View(s.files[s.pool[i].fd.value]);
      var now := if ops[0].Read? && ops[0].h == Some(i) then ops[0].size else 0;
      ViewLength(s.files[s.pool[i].fd.value]);
      PartSplit(v, s.pool[i].position, now, Asked(ops[1..], i));
    } else {
      ViewLength(s.files[s.pool[i].fd.value]);
      PartNone(View(s.files[s.pool[i].fd.value]), s.pool[i].position);
    }
  }

  /** From a successful open on, undisturbed reads are the file from its beginning, as far as was asked. */
  lemma OpenedReadsFile(s: St, listed: seq<nat>, name: string, mode: Mode, ops: seq<Op>)
    requires Inv(s) && ListOk(s.files, listed) && Has(mode, MODE_R)
    requires var (s1, reply) := Next(s, listed, Op.Open(name, mode));
             && Inv(s1) && ListOk(s1.files, listed) && reply.Opened? && reply.handle.Some? && reply.handle.value < POOL
             && s1.pool[reply.handle.value].fd.Some?
             && RunAllowed(s1, listed, ops) && Undisturbed(s1, listed, ops, reply.handle.value)
    ensures var (s1, reply) := Next(s, listed, Op.Open(name, mode));
            var i := reply.handle.value;
            exists k :: 0 <= k < |listed| && Offers(s.files, listed, k, name, mode)
                        && s.files[listed[k]].size <= |s.files[listed[k]].data|
                        && Given(ops, Run(s1, listed, ops).1, i) ==
                           View(s.files[listed[k]])[..Min(Asked(ops, i), s.files[listed[k]].size)]
  {
    var (s1, reply) := Next(s, listed, Op.Open(name, mode));
    var i := reply.handle.value;
    OpenExact(s, listed, name, mode);
    var k :| 0 <= k < |listed| && Offers(s.files, listed, k, name, mode) && s1.pool[i].fd == Some(listed[k]);
    hide Next, Inv, RunAllowed, Undisturbed, Has, Offers;
    ReadsConcatenate(s1, listed, ops, i);
    var f := s.files[listed[k]];
    assert s1.files[listed[k]] == f;
    assert Part(View(f), 0, Asked(ops, i)) == View(f)[..Min(Asked(ops, i), f.size)];
  }

  lemma ViewLength(f: File)
    requires f.size <= |f.data|
    ensures |View(f)| == f.size
  {
  }

  lemma PartOfData(f: File, p: nat, n: nat)
    requires p <= f.size <= |f.data|
    ensures f.data[p..p + Min(n, f.size - p)] == Part(View(f), p, n)
  {
  }

  lemma PartNone(v: seq<byte>, p: nat)
    requires p <= |v|
    ensures Part(v, p, 0) == []
  {
  }

  // ---- writing and reading back ----

  lemma Splice(data: seq<byte>, size: nat, p: nat, src: seq<byte>)
    requires p <= size <= |data| && p + |src| <= |data|
    ensures var end := p + |src|;
            Overwrite(data, p, src)[..if end > size then end else size]
            == data[..size][..p] + src + (if end < size then data[..size][end..] else [])
  {
    var end, r := p + |src|, Overwrite(data, p, src);
    OverwriteParts(data, p, src);
    hide Overwrite;
    assert data[..size][..p] == data[..p];
    assert r[..end] == r[..p] + r[p..end];
    if end < size {
      assert r[..size] == r[..end] + r[end..][..size - end];
      assert data[..size][end..] == data[end..][..size - end];
    }
  }

  /** A write splices into the contents at the cursor, and extends the file where it runs past the end. */
  lemma WriteIsSplice(s: St, i: nat, src: seq<byte>)
    requires Inv(s) && i < POOL && Has(s.pool[i].mode, MODE_W) && Allowed(s, Write(Some(i), src))
    ensures s.pool[i].fd.Some? && s.pool[i].fd.value < |s.files|
    ensures var f, f' := s.files[s.pool[i].fd.value], WriteSpec(s, i, src).0.files[s.pool[i].fd.value];
            var p := s.pool[i].position;
            && p <= f.size <= |f.data| && f'.size <= |f'.data|
            && View(f') == View(f)[..p] + src + (if p + |src| < f.size then View(f)[p + |src|..] else [])
  {
    ModeHasFile(s, i);
    assert HandleOk(s.files, s.pool[i]);
    var f, f' := s.files[s.pool[i].fd.value], WriteSpec(s, i, src).0.files[s.pool[i].fd.value];
    assert f.size <= |f.data|;
    Splice(f.data, f.size, s.pool[i].position, src);
  }

  lemma PartOfSplice(v: seq<byte>, p: nat, src: seq<byte>, v': seq<byte>)
    requires p <= |v| && v' == v[..p] + src + (if p + |src| < |v| then v[p + |src|..] else [])
    ensures p + |src| <= |v'| && Part(v', p, |src|) == src
  {
  }

  /** A negative relative seek, as two's complement. */
  lemma StepBack(s: St, i: nat, n: nat)
    requires Inv(s) && i < POOL && s.pool[i].fd.Some? && 0 < n <= s.pool[i].position && n < W32
    ensures SeekSpec(s, i, W32 - n, Cur) ==
            (s.(pool := s.pool[i := s.pool[i].(position := s.pool[i].position - n)]), EOK)
  {
    assert HandleOk(s.files, s.pool[i]);
    var fsize := s.files[s.pool[i].fd.value].size;
    assert fsize < W32;
    WrapCases(s.pool[i].position + (W32 - n));
  }

  /** Write, step back over what was written, read: the same bytes, and the cursor where the write left it. */
  lemma WriteBackRead(s: St, i: nat, src: seq<byte>)
    requires Inv(s) && i < POOL && Has(s.pool[i].mode, MODE_W) && Has(s.pool[i].mode, MODE_R)
    requires 0 < |src| && Allowed(s, Write(Some(i), src))
    ensures var s1 := WriteSpec(s, i, src).0;
            && Inv(s1) && s1.pool[i].fd.Some? && |src| < W32
            && var s2 := SeekSpec(s1, i, W32 - |src|, Cur).0;
               Inv(s2) && ReadSpec(s2, i, |src|).2 == src && ReadSpec(s2, i, |src|).0 == s1
  {
    hide SeekSpec, SeekPos, FilesOk, Within, Has, Signed32;
    var room := Room(s, i);
    var s1 := WriteSpec(s, i, src).0;
    WriteKeeps(s, i, src);
    WriteIsSplice(s, i, src);
    var p := s.pool[i].position;
    assert s1.pool[i] == s.pool[i].(position := p + |src|);
    StepBack(s1, i, |src|);
    SeekKeeps(s1, i, W32 - |src|, Cur);
    var s2 := SeekSpec(s1, i, W32 - |src|, Cur).0;
    assert s2.pool[i] == s.pool[i];
    var v := View(s1.files[s.pool[i].fd.value]);
    PartOfSplice(View(s.files[s.pool[i].fd.value]), p, src, v);
    assert ReadSpec(s2, i, |src|).0.pool == s1.pool;
  }
}
