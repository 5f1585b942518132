/** `FlashLargeToSmall`: 512-byte pages on larger hardware pages, by asynchronous read-modify-write. */
module FlashAdapter {
  import opened Arithmetic
  import opened Bytes

  const SMALL := 512

  datatype State =
    | Idle
    | Read(pageNumber: nat)
    | Write(pageNumber: nat)
    | Erase(pageNumber: nat)

  /** What the large flash is busy with; it owns the page buffer meanwhile. */
  datatype LargeOp =
    | NoOp
    | Reading(index: nat, page: seq<u8>)
    | Writing(index: nat, page: seq<u8>)

  datatype Adapter = Adapter(
    state: State, pageBuffer: Option<seq<u8>>, clientPageBuffer: Option<seq<u8>>, op: LargeOp)

  /** The call made on the client at the end of a callback, if any. */
  datatype Notice = Nothing | ReadDone(page: seq<u8>) | WriteDone(page: seq<u8>) | EraseDone

  /** The page size, or 4096 while the page buffer is away. */
  function LargeSize(a: Adapter): nat {
    if a.pageBuffer.Some? then |a.pageBuffer.value| else 4096
  }

  /** `get_large_page_index_offset` for a large page of `size` bytes. */
  function IndexOffset(size: nat, small: nat): (nat, nat)
    requires size >= SMALL
  {
    (small / (size / SMALL), small % (size / SMALL))
  }

  predicate ValidAdapter(a: Adapter) {
    LargeSize(a) >= SMALL && (a.clientPageBuffer.Some? ==> |a.clientPageBuffer.value| == SMALL)
  }

  // ---- the client's side: `read_page`, `write_page`, `erase_page` ---------------

  function BeginRead(a: Adapter, n: nat, buf: seq<u8>): (Adapter, bool)
    requires ValidAdapter(a)
  {
    if a.pageBuffer.None? then (a.(clientPageBuffer := None), false)
    else
      (Adapter(Read(n), None, Some(buf), Reading(IndexOffset(LargeSize(a), n).0, a.pageBuffer.value)), true)
  }

  function BeginWrite(a: Adapter, n: nat, buf: seq<u8>): (Adapter, bool)
    requires ValidAdapter(a)
  {
    if a.pageBuffer.None? then (a.(clientPageBuffer := None), false)
    else
      (Adapter(Write(n), None, Some(buf), Reading(IndexOffset(LargeSize(a), n).0, a.pageBuffer.value)), true)
  }

  function BeginErase(a: Adapter, n: nat): (Adapter, bool)
    requires ValidAdapter(a)
  {
    if a.pageBuffer.None? then (a, false)
    else
      (Adapter(Erase(n), None, a.clientPageBuffer, Reading(IndexOffset(LargeSize(a), n).0, a.pageBuffer.value)),
       true)
  }

  // ---- the large flash's callbacks ------------------------------------------------

  /** The callbacks run while the page buffer is away, so the offset is always that of a 4096-byte page. */
  function CallbackOffset(n: nat): (o: nat)
    ensures o == SMALL * (n % 8)
  {
    SMALL * IndexOffset(4096, n).1
  }

  /** The slot the callback touches lies within the page; outside it the index is out of range. */
  predicate InPage(a: Adapter, page: seq<u8>) {
    a.state.Idle? || CallbackOffset(a.state.pageNumber) + SMALL <= |page|
  }

  function AfterRead(a: Adapter, page: seq<u8>): (Adapter, Notice)
    requires ValidAdapter(a) && a.pageBuffer.None? && InPage(a, page)
  {
    match a.state
    case Read(n) =>
      var at := CallbackOffset(n);
      if a.clientPageBuffer.None? then (a, Nothing)
      else (a.(pageBuffer := Some(page), clientPageBuffer := None), ReadDone(page[at..at + SMALL]))
    case Write(n) =>
      if a.clientPageBuffer.None? then (a, Nothing)
      else
        (a.(op := Writing(IndexOffset(4096, n).0, Splice(page, CallbackOffset(n), a.clientPageBuffer.value))),
         Nothing)
    case Erase(n) =>
      (a.(op := Writing(IndexOffset(4096, n).0, Splice(page, CallbackOffset(n), seq(SMALL, _ => 0xFF)))), Nothing)
    case Idle => (a, Nothing)
  }

  function AfterWrite(a: Adapter, page: seq<u8>): (Adapter, Notice) {
    match a.state
    case Write(_) =>
      if a.clientPageBuffer.None? then (a, Nothing)
      else (a.(pageBuffer := Some(page), clientPageBuffer := None), WriteDone(a.clientPageBuffer.value))
    case Erase(_) => (a.(pageBuffer := Some(page)), EraseDone)
    case _ => (a, Nothing)
  }

  // ---- the adapter itself -----------------------------------------------------------

  /** The large flash as the adapter sees it: one operation at a time, always accepted. */
  class LargeFlash {
    var page: array?<u8>
    var index: nat
    var writing: bool

    ghost function View(): LargeOp
      reads this, page
    {
      if page == null then NoOp else if writing then Writing(index, page[..]) else Reading(index, page[..])
    }

    method ReadPage(index: nat, page: array<u8>)
      requires this.page == null
      modifies this
      ensures this.page == page && this.index == index && !writing
    {
      this.page, this.index, writing := page, index, false;
    }

    method WritePage(index: nat, page: array<u8>)
      requires this.page == null
      modifies this
      ensures this.page == page && this.index == index && writing
    {
      this.page, this.index, writing := page, index, true;
    }
  }

  class FlashLargeToSmall {
    const flashLarge: LargeFlash
    var pageBuffer: array?<u8>
    var clientPageBuffer: array?<u8>
    var state: State

    ghost predicate Valid()
      reads this, flashLarge
    {
      && (pageBuffer != null ==> pageBuffer.Length >= SMALL && flashLarge.page == null)
      && (clientPageBuffer != null ==>
            clientPageBuffer.Length == SMALL && clientPageBuffer != pageBuffer && clientPageBuffer != flashLarge.page)
    }

    ghost function View(): (a: Adapter)
      requires Valid()
      reads this, flashLarge, flashLarge.page, pageBuffer, clientPageBuffer
      ensures ValidAdapter(a)
    {
      Adapter(
        state,
        if pageBuffer == null then None else Some(pageBuffer[..]),
        if clientPageBuffer == null then None else Some(clientPageBuffer[..]),
        flashLarge.View())
    }

    constructor (flashLarge: LargeFlash, buffer: array<u8>)
      requires buffer.Length >= SMALL && flashLarge.page == null
      ensures Valid() && View() == Adapter(Idle, Some(buffer[..]), None, NoOp)
      ensures this.flashLarge == flashLarge
    {
      this.flashLarge := flashLarge;
      pageBuffer := buffer;
      clientPageBuffer := null;
      state := Idle;
    }

    method GetLargePageIndexOffset(small: nat) returns (index: nat, offset: nat)
      requires Valid()
      ensures (index, offset) == IndexOffset(LargeSize(View()), small)
      ensures var k := LargeSize(View()) / SMALL; index * k + offset == small && offset < k
    {
      var largeSize := if pageBuffer != null then pageBuffer.Length else 4096;
      var multiplier := largeSize / 512;
      index := small / multiplier;
      offset := small % multiplier;
    }

    method ReadPage(n: nat, buf: array<u8>) returns (ok: bool)
      requires Valid() && buf.Length == SMALL && buf != pageBuffer && buf != flashLarge.page
      modifies this, flashLarge
      ensures Valid() && (View(), ok) == BeginRead(old(View()), n, buf[..])
    {
      var index, _ := GetLargePageIndexOffset(n);
      clientPageBuffer := buf;
      if pageBuffer == null {
        clientPageBuffer := null;
        return false;
      }
      var page := pageBuffer;
      pageBuffer := null;
      state := Read(n);
      flashLarge.ReadPage(index, page);
      ok := true;
    }

    method WritePage(n: nat, buf: array<u8>) returns (ok: bool)
      requires Valid() && buf.Length == SMALL && buf != pageBuffer && buf != flashLarge.page
      modifies this, flashLarge
      ensures Valid() && (View(), ok) == BeginWrite(old(View()), n, buf[..])
    {
      var index, _ := GetLargePageIndexOffset(n);
      clientPageBuffer := buf;
      if pageBuffer == null {
        clientPageBuffer := null;
        return false;
      }
      var page := pageBuffer;
      pageBuffer := null;
      state := Write(n);
      flashLarge.ReadPage(index, page);
      ok := true;
    }

    method ErasePage(n: nat) returns (ok: bool)
      requires Valid()
      modifies this, flashLarge
      ensures Valid() && (View(), ok) == BeginErase(old(View()), n)
    {
      var index, _ := GetLargePageIndexOffset(n);
      if pageBuffer == null {
        return false;
      }
      var page := pageBuffer;
      pageBuffer := null;
      state := Erase(n);
      flashLarge.ReadPage(index, page);
      ok := true;
    }

    method FinishRead(n: nat, page: array<u8>) returns (readDone: array?<u8>)
      requires state == Read(n)
      requires Valid() && pageBuffer == null && flashLarge.page == null && page != clientPageBuffer
      requires page.Length >= SMALL && InPage(View(), page[..])
      modifies this, clientPageBuffer
      ensures Valid()
      ensures View() == AfterRead(old(View()), page[..]).0
      ensures var notice := AfterRead(old(View()), page[..]).1;
        && (notice.ReadDone? <==> readDone != null)
        && (readDone != null ==> readDone == old(clientPageBuffer) && readDone[..] == notice.page)
    {
      readDone := null;
      var _, offset := GetLargePageIndexOffset(n);
      if clientPageBuffer != null {
        readDone := clientPageBuffer;
        clientPageBuffer := null;
        Copy(page, 512 * offset, readDone, 0);
        pageBuffer := page;
      }
    }

    method ContinueWrite(n: nat, page: array<u8>)
      requires state == Write(n)
      requires Valid() && pageBuffer == null && flashLarge.page == null && page != clientPageBuffer
      requires page.Length >= SMALL && InPage(View(), page[..])
      modifies flashLarge, page
      ensures Valid()
      ensures (View(), Nothing) == AfterRead(old(View()), old(page[..]))
    {
      var index, offset := GetLargePageIndexOffset(n);
      if clientPageBuffer != null {
        Copy(clientPageBuffer, 0, page, 512 * offset);
        flashLarge.WritePage(index, page);
        assert clientPageBuffer[..] == clientPageBuffer[0..SMALL];
      }
    }

    method ContinueErase(n: nat, page: array<u8>)
      requires state == Erase(n)
      requires Valid() && pageBuffer == null && flashLarge.page == null && page != clientPageBuffer
      requires page.Length >= SMALL && InPage(View(), page[..])
      modifies flashLarge, page
      ensures Valid()
      ensures (View(), Nothing) == AfterRead(old(View()), old(page[..]))
    {
      var index, offset := GetLargePageIndexOffset(n);
      Fill(page, 512 * offset, 0xFF);
      flashLarge.WritePage(index, page);
    }

    /** The large flash hands the page back full; what the client is called with is returned. */
    method ReadComplete(page: array<u8>) returns (readDone: array?<u8>)
      requires Valid() && pageBuffer == null && flashLarge.page == null && page != clientPageBuffer
      requires page.Length >= SMALL && InPage(View(), page[..])
      modifies this, flashLarge, page, clientPageBuffer
      ensures Valid()
      ensures View() == AfterRead(old(View()), old(page[..])).0
      ensures var notice := AfterRead(old(View()), old(page[..])).1;
        && (notice.ReadDone? <==> readDone != null)
        && (readDone != null ==> readDone == old(clientPageBuffer) && readDone[..] == notice.page)
    {
      readDone := null;
      match state {
        case Read(n) => readDone := FinishRead(n, page);
        case Write(n) => ContinueWrite(n, page);
        case Erase(n) => ContinueErase(n, page);
        case Idle =>
      }
    }

    static method Fill(target: array<u8>, at: nat, value: u8)
      requires at + SMALL <= target.Length
      modifies target
      ensures target[..] == Splice(old(target[..]), at, seq(SMALL, _ => value))
    {
      for i := 0 to 512
        invariant forall k :: 0 <= k < target.Length ==>
          target[k] == if at <= k < at + i then value else old(target[k])
      {
        target[at + i] := value;
      }
    }

    static method Copy(source: array<u8>, from: nat, target: array<u8>, at: nat)
      requires source != target && from + SMALL <= source.Length && at + SMALL <= target.Length
      modifies target
      ensures target[..] == Splice(old(target[..]), at, source[from..from + SMALL])
    {
      for i := 0 to 512
        invariant forall k :: 0 <= k < target.Length ==>
          target[k] == if at <= k < at + i then source[from + k - at] else old(target[k])
      {
        target[at + i] := source[from + i];
      }
    }

    method WriteComplete(page: array<u8>) returns (writeDone: array?<u8>, eraseDone: bool)
      requires Valid() && pageBuffer == null && flashLarge.page == null && page != clientPageBuffer
      requires page.Length >= SMALL
      modifies this
      ensures Valid()
      ensures var (a, notice) := AfterWrite(old(View()), page[..]);
        && View() == a
        && (notice.WriteDone? <==> writeDone != null) && (notice.EraseDone? <==> eraseDone)
        && (writeDone != null ==> writeDone == old(clientPageBuffer) && writeDone[..] == notice.page)
    {
      writeDone, eraseDone := null, false;
      match state {
        case Write(_) =>
          if clientPageBuffer != null {
            writeDone := clientPageBuffer;
            clientPageBuffer := null;
            pageBuffer := page;
          }
        case Erase(_) =>
          pageBuffer := page;
          eraseDone := true;
        case _ =>
      }
    }
  }

  // ---- the small pages, as the client sees them ------------------------------------

  datatype Request = ReadRequest(n: nat, buf: seq<u8>) | WriteRequest(n: nat, data: seq<u8>) | EraseRequest(n: nat)

  /** An array of 512-byte pages over the same bytes. */
  function SmallPage(mem: seq<u8>, n: nat): seq<u8>
    requires SMALL * (n + 1) <= |mem|
  {
    mem[SMALL * n..SMALL * n + SMALL]
  }

  predicate InRange(r: Request, mem: seq<u8>) {
    && SMALL * (r.n + 1) <= |mem|
    && (r.ReadRequest? ==> |r.buf| == SMALL)
    && (r.WriteRequest? ==> |r.data| == SMALL)
  }

  /** What a request does to the array of small pages, and the call the client gets. */
  function Serve(mem: seq<u8>, r: Request): (m: (seq<u8>, Notice))
    requires InRange(r, mem)
    ensures |m.0| == |mem|
  {
    match r
    case ReadRequest(n, _) => (mem, ReadDone(SmallPage(mem, n)))
    case WriteRequest(n, data) => (Splice(mem, SMALL * n, data), WriteDone(data))
    case EraseRequest(n) => (Splice(mem, SMALL * n, seq(SMALL, _ => 0xFF)), EraseDone)
  }

  function Begin(a: Adapter, r: Request): (Adapter, bool)
    requires ValidAdapter(a)
  {
    match r
    case ReadRequest(n, buf) => BeginRead(a, n, buf)
    case WriteRequest(n, data) => BeginWrite(a, n, data)
    case EraseRequest(n) => BeginErase(a, n)
  }

  /** The large flash finishes what it is doing, on pages of `size` bytes. */
  function Complete(a: Adapter, mem: seq<u8>, size: nat): (Adapter, seq<u8>, Notice)
    requires ValidAdapter(a) && a.pageBuffer.None? && a.op != NoOp
    requires size * (a.op.index + 1) <= |mem| && |a.op.page| == size
    requires a.op.Reading? ==> CallbackSlotFits(a, size)
  {
    var idle := a.(op := NoOp);
    match a.op
    case Reading(index, _) =>
      var (a1, notice) := AfterRead(idle, mem[size * index..size * index + size]);
      (a1, mem, notice)
    case Writing(index, page) =>
      var (a1, notice) := AfterWrite(idle, page);
      (a1, Splice(mem, size * index, page), notice)
  }

  predicate CallbackSlotFits(a: Adapter, size: nat) {
    a.state.Idle? || CallbackOffset(a.state.pageNumber) + SMALL <= size
  }

  // ---- refinement -------------------------------------------------------------------

  const LARGE := 4096

  /** Between requests the page buffer is home, the client's buffer is with the client and the flash is idle. */
  predicate AtRest(a: Adapter) {
    a.pageBuffer.Some? && |a.pageBuffer.value| == LARGE && a.clientPageBuffer.None? && a.op.NoOp?
  }

  lemma SlotInLarge(mem: seq<u8>, n: nat)
    requires |mem| % LARGE == 0 && SMALL * (n + 1) <= |mem|
    ensures LARGE * (n / 8) + SMALL * (n % 8) == SMALL * n
    ensures LARGE * (n / 8 + 1) <= |mem|
  {
  }

  /** Reading a large page, replacing one slot and writing it back changes that slot of the memory only. */
  lemma SlotSpliced(mem: seq<u8>, n: nat, data: seq<u8>)
    requires |mem| % LARGE == 0 && SMALL * (n + 1) <= |mem| && |data| == SMALL
    ensures LARGE * (n / 8 + 1) <= |mem| && SMALL * (n % 8) + SMALL <= LARGE
    ensures var page := mem[LARGE * (n / 8)..LARGE * (n / 8) + LARGE];
      Splice(mem, LARGE * (n / 8), Splice(page, SMALL * (n % 8), data)) == Splice(mem, SMALL * n, data)
  {
    SlotInLarge(mem, n);
    hide Splice;
    SpliceOfSplice(mem, LARGE * (n / 8), LARGE, SMALL * (n % 8), data);
  }

  /** A read takes one completion of the large flash: it answers the small page and leaves the memory alone. */
  lemma ReadRefines(a: Adapter, mem: seq<u8>, n: nat, buf: seq<u8>)
    requires AtRest(a) && |mem| % LARGE == 0 && InRange(ReadRequest(n, buf), mem)
    ensures var (a1, ok) := Begin(a, ReadRequest(n, buf));
      var (a2, mem2, notice) := Complete(a1, mem, LARGE);
      ok && AtRest(a2) && (mem2, notice) == Serve(mem, ReadRequest(n, buf))
  {
    SlotRead(mem, n);
    hide SmallPage;
  }

  lemma SlotRead(mem: seq<u8>, n: nat)
    requires |mem| % LARGE == 0 && SMALL * (n + 1) <= |mem|
    ensures LARGE * (n / 8 + 1) <= |mem| && SMALL * (n % 8) + SMALL <= LARGE
    ensures mem[LARGE * (n / 8)..LARGE * (n / 8) + LARGE][SMALL * (n % 8)..SMALL * (n % 8) + SMALL] == SmallPage(mem, n)
  {
    SlotInLarge(mem, n);
  }

  /** A write or an erase takes two: the read in between changes nothing and tells the client nothing. */
  lemma ChangeRefines(a: Adapter, mem: seq<u8>, r: Request)
    requires AtRest(a) && |mem| % LARGE == 0 && InRange(r, mem) && !r.ReadRequest?
    ensures var (a1, ok) := Begin(a, r);
      var (a2, mem2, silent) := Complete(a1, mem, LARGE);
      && ok && mem2 == mem && silent == Nothing && a2.op.Writing? && a2.pageBuffer.None? && ValidAdapter(a2)
      && |a2.op.page| == LARGE && LARGE * (a2.op.index + 1) <= |mem|
      && var (a3, mem3, notice) := Complete(a2, mem2, LARGE);
      AtRest(a3) && (mem3, notice) == Serve(mem, r)
  {
    SlotInLarge(mem, r.n);
    SlotSpliced(mem, r.n, if r.WriteRequest? then r.data else seq(SMALL, _ => 0xFF));
    hide Splice;
  }

  /** One request, run to its client callback. */
  function RunOne(a: Adapter, mem: seq<u8>, r: Request): (Adapter, seq<u8>, Notice)
    requires AtRest(a) && |mem| % LARGE == 0 && InRange(r, mem)
  {
    SlotInLarge(mem, r.n);
    var (a1, _) := Begin(a, r);
    var (a2, mem2, notice) := Complete(a1, mem, LARGE);
    if r.ReadRequest? then (a2, mem2, notice)
    else
      ChangeRefines(a, mem, r);
      Complete(a2, mem2, LARGE)
  }

  predicate AllInRange(rs: seq<Request>, size: nat) {
    forall r :: r in rs ==>
      (SMALL * (r.n + 1) <= size
       && (r.ReadRequest? ==> |r.buf| == SMALL) && (r.WriteRequest? ==> |r.data| == SMALL))
  }

  function ServeAll(mem: seq<u8>, rs: seq<Request>): (seq<u8>, seq<Notice>)
    requires AllInRange(rs, |mem|)
    decreases |rs|
  {
    if rs == [] then (mem, [])
    else
      var (mem1, notice) := Serve(mem, rs[0]);
      var (mem2, notices) := ServeAll(mem1, rs[1..]);
      (mem2, [notice] + notices)
  }

  lemma OneRefines(a: Adapter, mem: seq<u8>, r: Request)
    requires AtRest(a) && |mem| % LARGE == 0 && InRange(r, mem)
    ensures var (a1, mem1, notice) := RunOne(a, mem, r);
      AtRest(a1) && (mem1, notice) == Serve(mem, r)
  {
    if r.ReadRequest? {
      ReadRefines(a, mem, r.n, r.buf);
    } else {
      ChangeRefines(a, mem, r);
    }
  }

  function RunAll(a: Adapter, mem: seq<u8>, rs: seq<Request>): (Adapter, seq<u8>, seq<Notice>)
    requires AtRest(a) && |mem| % LARGE == 0 && AllInRange(rs, |mem|)
    decreases |rs|
  {
    if rs == [] then (a, mem, [])
    else
      OneRefines(a, mem, rs[0]);
      var (a1, mem1, notice) := RunOne(a, mem, rs[0]);
      var (a2, mem2, notices) := RunAll(a1, mem1, rs[1..]);
      (a2, mem2, [notice] + notices)
  }

  /** For every run of reads, writes and erases issued one at a time, the adapter over 4096-byte pages
      answers as an array of 512-byte pages does, and both page buffers are back with their owners. */
  lemma {:induction false} RunRefines(a: Adapter, mem: seq<u8>, rs: seq<Request>)
    requires AtRest(a) && |mem| % LARGE == 0 && AllInRange(rs, |mem|)
    ensures var (a1, mem1, notices) := RunAll(a, mem, rs);
      AtRest(a1) && (mem1, notices) == ServeAll(mem, rs)
    decreases |rs|
  {
    if rs != [] {
      OneRefines(a, mem, rs[0]);
      var (a1, mem1, _) := RunOne(a, mem, rs[0]);
      RunRefines(a1, mem1, rs[1..]);
    }
  }

  /** Serving one small page leaves its siblings alone. */
  lemma SiblingsUnchanged(mem: seq<u8>, r: Request, other: nat)
    requires InRange(r, mem) && other != r.n && SMALL * (other + 1) <= |mem|
    ensures SmallPage(Serve(mem, r).0, other) == SmallPage(mem, other)
  {
    if other < r.n {
      assert SMALL * other + SMALL <= SMALL * r.n;
    } else {
      assert SMALL * r.n + SMALL <= SMALL * other;
    }
  }

  // ---- other large page sizes ----------------------------------------------------------

  /** The bytes of a large page of `k` small ones, where large page `index` begins, and the one `n` lies in. */
  function Size(k: nat): nat {
    SMALL * k
  }

  function Offset(k: nat, index: nat): nat {
    SMALL * (k * index)
  }

  function Index(k: nat, n: nat): nat
    requires k >= 1
  {
    n / k
  }

  /** At rest with a large page of `k` small ones. */
  predicate AtRestOn(a: Adapter, k: nat) {
    a.pageBuffer.Some? && |a.pageBuffer.value| == Size(k) && a.clientPageBuffer.None? && a.op.NoOp?
  }

  /** The request is for a small page of a flash of `pages` large ones. */
  predicate Asks(r: Request, k: nat, pages: nat) {
    && SMALL * (r.n + 1) <= Offset(k, pages)
    && (r.ReadRequest? ==> |r.buf| == SMALL) && (r.WriteRequest? ==> |r.data| == SMALL)
  }

  lemma PlaceOf(k: nat, n: nat)
    requires k >= 1
    ensures Offset(k, Index(k, n)) + SMALL * (n % k) == SMALL * n && n % k < k
  {
    assert n == k * (n / k) + n % k;
  }

  lemma PageThere(r: Request, k: nat, pages: nat)
    requires k >= 1 && Asks(r, k, pages)
    ensures Index(k, r.n) < pages
  {
    assert r.n == k * (r.n / k) + r.n % k;
    if pages <= r.n / k {
      TimesMonotone(k, pages, r.n / k);
      assert false;
    }
  }

  lemma PageBytes(k: nat, pages: nat, index: nat)
    requires index < pages
    ensures Size(k) * index == Offset(k, index) && Size(k) * (index + 1) == Offset(k, index) + Size(k)
    ensures Offset(k, index) + Size(k) <= Offset(k, pages)
  {
    TimesMonotone(k, index + 1, pages);
    TimesNext(k, index);
    TimesNext(SMALL * k, index);
  }

  /** What a write or an erase puts into its small page. */
  function NewData(r: Request): seq<u8>
    requires !r.ReadRequest?
  {
    if r.WriteRequest? then r.data else seq(SMALL, _ => 0xFF)
  }

  lemma NewDataFits(r: Request, k: nat, pages: nat)
    requires Asks(r, k, pages) && !r.ReadRequest?
    ensures |NewData(r)| == SMALL
  {
  }

  lemma Begun(a: Adapter, r: Request, k: nat, pages: nat)
    requires k >= 1 && AtRestOn(a, k) && Asks(r, k, pages)
    ensures ValidAdapter(a)
    ensures var a1 := Begin(a, r).0;
      && ValidAdapter(a1) && a1.pageBuffer.None? && a1.op == Reading(Index(k, r.n), a.pageBuffer.value)
      && |a.pageBuffer.value| == Size(k)
      && (CallbackSlotFits(a1, Size(k)) <==> r.n % 8 < k)
  {
    assert Size(k) / SMALL == k;
  }

  lemma SlotFits(k: nat, n: nat)
    requires n % 8 < k
    ensures SMALL * (n % 8) + SMALL <= Size(k)
  {
  }

  /** The first of the two completions of a write or an erase. */
  lemma ChangeReads(a: Adapter, mem: seq<u8>, r: Request, k: nat, pages: nat)
    requires k >= 1 && AtRestOn(a, k) && Asks(r, k, pages) && !r.ReadRequest? && r.n % 8 < k
    requires |mem| == Offset(k, pages)
    ensures Offset(k, Index(k, r.n)) + Size(k) == Size(k) * (Index(k, r.n) + 1) <= |mem|
    ensures |NewData(r)| == SMALL && SMALL * (r.n % 8) + SMALL <= Size(k)
    ensures var (a1, at) := (Begin(a, r).0, Offset(k, Index(k, r.n)));
      && ValidAdapter(a1) && CallbackSlotFits(a1, Size(k))
      && a1.pageBuffer.None? && a1.op == Reading(Index(k, r.n), a.pageBuffer.value) && |a1.op.page| == Size(k)
      && var (a2, mem2, notice) := Complete(a1, mem, Size(k));
      && mem2 == mem && notice == Nothing
      && a2.op == Writing(r.n / 8, Splice(mem[at..at + Size(k)], SMALL * (r.n % 8), NewData(r)))
      && ValidAdapter(a2) && a2.pageBuffer.None?
      && if r.WriteRequest? then a2.state.Write? && a2.clientPageBuffer == Some(r.data) else a2.state.Erase?
  {
    Begun(a, r, k, pages);
    NewDataFits(r, k, pages);
    PageThere(r, k, pages);
    PageBytes(k, pages, Index(k, r.n));
    SlotFits(k, r.n);
    hide Splice, Offset, Size, Index;
  }

  /** One request on large pages of `k` small ones, run to its client callback. Nothing comes of it if the slot the
      callback takes is not in the page, or the page it writes back to is not in the flash. */
  function RunOn(a: Adapter, mem: seq<u8>, r: Request, k: nat, pages: nat): Option<(seq<u8>, Notice)>
    requires k >= 1 && AtRestOn(a, k) && Asks(r, k, pages) && |mem| == Offset(k, pages)
  {
    hide *;
    PageThere(r, k, pages);
    PageBytes(k, pages, Index(k, r.n));
    Begun(a, r, k, pages);
    var (a1, _) := Begin(a, r);
    if r.n % 8 >= k then None
    else if r.ReadRequest? then
      var (_, mem2, notice) := Complete(a1, mem, Size(k));
      Some((mem2, notice))
    else
      ChangeReads(a, mem, r, k, pages);
      var a2 := Complete(a1, mem, Size(k)).0;
      if r.n / 8 >= pages then None
      else
        PageBytes(k, pages, r.n / 8);
        var (_, mem3, notice3) := Complete(a2, mem, Size(k));
        Some((mem3, notice3))
  }

  /** A read answers small page `n % 8`, not `n % k`, of large page `n / k`. */
  lemma ReadTakes(a: Adapter, mem: seq<u8>, r: Request, k: nat, pages: nat)
    requires k >= 1 && AtRestOn(a, k) && Asks(r, k, pages) && |mem| == Offset(k, pages) && r.ReadRequest?
    ensures Offset(k, Index(k, r.n)) + Size(k) <= |mem| && (r.n % 8 < k ==> SMALL * (r.n % 8) + SMALL <= Size(k))
    ensures var at := Offset(k, Index(k, r.n)) + SMALL * (r.n % 8);
      RunOn(a, mem, r, k, pages) == if r.n % 8 < k then Some((mem, ReadDone(mem[at..at + SMALL]))) else None
  {
    PageThere(r, k, pages);
    PageBytes(k, pages, Index(k, r.n));
    Begun(a, r, k, pages);
    hide Offset, Size, Index;
    if r.n % 8 < k {
      SlotFits(k, r.n);
      SliceOfSlice(mem, Offset(k, Index(k, r.n)), Size(k), SMALL * (r.n % 8), SMALL);
    }
  }

  lemma ChangeWrites(a: Adapter, mem: seq<u8>, size: nat)
    requires ValidAdapter(a) && a.pageBuffer.None? && a.op.Writing? && |a.op.page| == size
    requires size * a.op.index + size == size * (a.op.index + 1) <= |mem|
    requires (a.state.Write? && a.clientPageBuffer.Some?) || a.state.Erase?
    ensures var (_, mem1, notice) := Complete(a, mem, size);
      && mem1 == Splice(mem, size * a.op.index, a.op.page)
      && notice == if a.state.Write? then WriteDone(a.clientPageBuffer.value) else EraseDone
  {
    hide Splice;
  }

  /** The flash after a change of slot `slot` of the page at `from` was stored as the page at `to`. */
  function Moved(mem: seq<u8>, from: nat, to: nat, size: nat, slot: nat, data: seq<u8>): (next: seq<u8>)
    requires from + size <= |mem| && to + size <= |mem| && slot + |data| <= size
    ensures |next| == |mem|
  {
    Splice(mem, to, Splice(mem[from..from + size], slot, data))
  }

  /** A write or an erase changes small page `n % 8` of large page `n / k` and stores the result as large page
      `n / 8`. */
  lemma ChangePuts(a: Adapter, mem: seq<u8>, r: Request, k: nat, pages: nat)
    requires k >= 1 && AtRestOn(a, k) && Asks(r, k, pages) && |mem| == Offset(k, pages) && !r.ReadRequest?
    ensures Offset(k, Index(k, r.n)) + Size(k) <= |mem| && |NewData(r)| == SMALL
    ensures r.n / 8 < pages ==> Offset(k, r.n / 8) + Size(k) <= |mem|
    ensures r.n % 8 < k ==> SMALL * (r.n % 8) + SMALL <= Size(k)
    ensures RunOn(a, mem, r, k, pages)
      == if r.n % 8 >= k || r.n / 8 >= pages then None
         else
           Some((Moved(mem, Offset(k, Index(k, r.n)), Offset(k, r.n / 8), Size(k), SMALL * (r.n % 8), NewData(r)),
             if r.WriteRequest? then WriteDone(r.data) else EraseDone))
  {
    hide Offset, Size, Index, Splice, Complete, Begin, Asks, AtRestOn, NewData;
    PageThere(r, k, pages);
    PageBytes(k, pages, Index(k, r.n));
    NewDataFits(r, k, pages);
    Begun(a, r, k, pages);
    if r.n / 8 < pages {
      PageBytes(k, pages, r.n / 8);
    }
    if r.n % 8 < k {
      SlotFits(k, r.n);
      ChangeReads(a, mem, r, k, pages);
      var a2 := Complete(Begin(a, r).0, mem, Size(k)).0;
      if r.n / 8 < pages {
        ChangeWrites(a2, mem, Size(k));
      }
    }
  }

  /** The request is answered as by an array of small pages, whatever the flash holds. */
  ghost predicate IsServed(r: Request, k: nat, pages: nat)
    requires k >= 1 && Asks(r, k, pages)
  {
    forall a: Adapter, mem: seq<u8> :: AtRestOn(a, k) && |mem| == Offset(k, pages) ==>
      RunOn(a, mem, r, k, pages) == Some(Serve(mem, r))
  }

  function Waiting(k: nat): (a: Adapter)
    ensures AtRestOn(a, k)
  {
    Adapter(Idle, Some(seq(SMALL * k, _ => 0)), None, NoOp)
  }

  /** A flash on which every byte but those of one small page is `x`. */
  function AllBut(size: nat, at: nat, x: u8, y: u8): (mem: seq<u8>)
    ensures |mem| == size
  {
    seq(size, i => if at <= i < at + SMALL then y else x)
  }

  /** A read is served if and only if it takes the right slot. */
  lemma ReadServedIff(r: Request, k: nat, pages: nat)
    requires k >= 1 && Asks(r, k, pages) && r.ReadRequest?
    ensures IsServed(r, k, pages) <==> r.n % k == r.n % 8
  {
    PlaceOf(k, r.n);
    hide Offset, Size, Index, RunOn;
    var from := Offset(k, Index(k, r.n));
    if r.n % k == r.n % 8 {
      forall a: Adapter, mem: seq<u8> | AtRestOn(a, k) && |mem| == Offset(k, pages)
        ensures RunOn(a, mem, r, k, pages) == Some(Serve(mem, r))
      {
        ReadTakes(a, mem, r, k, pages);
      }
    } else {
      var a, mem := Waiting(k), AllBut(Offset(k, pages), SMALL * r.n, 0, 1);
      ReadTakes(a, mem, r, k, pages);
      if r.n % 8 < k {
        var at := from + SMALL * (r.n % 8);
        assert mem[at..at + SMALL][0] == mem[at] == 0 && SmallPage(mem, r.n)[0] == mem[SMALL * r.n] == 1;
      }
    }
  }

  /** A change goes where it should if and only if the large page has 4096 bytes or the small page is one of the first
      eight. */
  lemma ChangePlace(n: nat, k: nat)
    requires k >= 1 && n % 8 < k
    ensures Offset(k, n / 8) % SMALL == 0
    ensures Offset(k, n / 8) + SMALL * (n % 8) == SMALL * n <==> k == 8 || n < 8
  {
    assert n == 8 * (n / 8) + n % 8;
    if n >= 8 && k < 8 {
      TimesMonotone(n / 8, k + 1, 8);
    } else if n >= 8 && k > 8 {
      TimesMonotone(n / 8, 9, k);
    }
  }

  lemma SameQuotients(n: nat, k: nat)
    requires k >= 1 && (k == 8 || n < Min(8, k))
    ensures Index(k, n) == n / 8 && n % k == n % 8 < k
  {
    if n < k {
      DivisionIs(n, k, 0, n);
    }
  }

  lemma ChangeIsServed(a: Adapter, mem: seq<u8>, r: Request, k: nat, pages: nat)
    requires k >= 1 && AtRestOn(a, k) && Asks(r, k, pages) && |mem| == Offset(k, pages) && !r.ReadRequest?
    requires k == 8 || r.n < Min(8, k)
    ensures RunOn(a, mem, r, k, pages) == Some(Serve(mem, r))
  {
    hide Offset, Size, Index, RunOn, Splice, AtRestOn;
    SameQuotients(r.n, k);
    PlaceOf(k, r.n);
    PageThere(r, k, pages);
    ChangePuts(a, mem, r, k, pages);
    SpliceOfSplice(mem, Offset(k, Index(k, r.n)), Size(k), SMALL * (r.n % 8), NewData(r));
  }

  lemma MovedAt(mem: seq<u8>, from: nat, to: nat, size: nat, slot: nat, data: seq<u8>)
    requires from + size <= |mem| && to + size <= |mem| && slot + |data| <= size && data != []
    ensures to + slot < |mem| && Moved(mem, from, to, size, slot, data)[to + slot] == data[0]
  {
  }

  lemma ServedElsewhere(mem: seq<u8>, r: Request, at: nat, x: u8)
    requires InRange(r, mem) && !r.ReadRequest? && mem == AllBut(|mem|, SMALL * r.n, x, x) && at < |mem|
    requires at % SMALL == 0 && at != SMALL * r.n
    ensures Serve(mem, r).0[at] == x
  {
  }

  /** In a memory that holds another byte everywhere, data that is put in the wrong place shows. */
  lemma MisplacedShows(mem: seq<u8>, r: Request, from: nat, to: nat, size: nat, slot: nat, x: u8)
    requires InRange(r, mem) && !r.ReadRequest? && |NewData(r)| == SMALL && x != NewData(r)[0]
    requires mem == AllBut(|mem|, SMALL * r.n, x, x)
    requires from + size <= |mem| && to + size <= |mem| && slot + SMALL <= size
    requires (to + slot) % SMALL == 0 && to + slot != SMALL * r.n
    ensures Moved(mem, from, to, size, slot, NewData(r)) != Serve(mem, r).0
  {
    hide Moved, AllBut, NewData, Serve;
    MovedAt(mem, from, to, size, slot, NewData(r));
    ServedElsewhere(mem, r, to + slot, x);
  }

  lemma OnSmallPage(at: nat, slot: nat)
    requires at % SMALL == 0
    ensures (at + SMALL * slot) % SMALL == 0
  {
  }

  lemma NotServed(a: Adapter, mem: seq<u8>, r: Request, k: nat, pages: nat)
    requires k >= 1 && Asks(r, k, pages) && AtRestOn(a, k) && |mem| == Offset(k, pages)
    requires RunOn(a, mem, r, k, pages) != Some(Serve(mem, r))
    ensures !IsServed(r, k, pages)
  {
    hide RunOn, Serve, AtRestOn, Offset;
  }

  lemma ChangeIsWrong(r: Request, k: nat, pages: nat)
    requires k >= 1 && Asks(r, k, pages) && !r.ReadRequest?
    requires k != 8 && r.n >= Min(8, k)
    ensures !IsServed(r, k, pages)
  {
    hide Offset, Size, Index, RunOn, AllBut, Moved, AtRestOn, NewData, Serve, IsServed;
    NewDataFits(r, k, pages);
    var x: u8 := if NewData(r)[0] == 0 then 1 else 0;
    var a, mem := Waiting(k), AllBut(Offset(k, pages), SMALL * r.n, x, x);
    ChangePuts(a, mem, r, k, pages);
    if r.n % 8 < k && r.n / 8 < pages {
      ChangePlace(r.n, k);
      var to, slot := Offset(k, r.n / 8), SMALL * (r.n % 8);
      OnSmallPage(to, r.n % 8);
      MisplacedShows(mem, r, Offset(k, Index(k, r.n)), to, Size(k), slot, x);
    }
    NotServed(a, mem, r, k, pages);
  }

  /** A write or an erase is served if and only if large pages have 4096 bytes, or the small page is one of the first
      eight and lies in the first large page. */
  lemma ChangeServedIff(r: Request, k: nat, pages: nat)
    requires k >= 1 && Asks(r, k, pages) && !r.ReadRequest?
    ensures IsServed(r, k, pages) <==> k == 8 || r.n < Min(8, k)
  {
    hide RunOn, Serve, Offset, AtRestOn;
    if k == 8 || r.n < Min(8, k) {
      forall a: Adapter, mem: seq<u8> | AtRestOn(a, k) && |mem| == Offset(k, pages)
        ensures RunOn(a, mem, r, k, pages) == Some(Serve(mem, r))
      {
        ChangeIsServed(a, mem, r, k, pages);
      }
    } else {
      ChangeIsWrong(r, k, pages);
    }
  }

  /** Large pages of other sizes are accepted but not served: every request for every flash is served if and only if
      they have 4096 bytes. */
  lemma OnlyLargeIsServed(k: nat)
    requires k >= 1
    ensures (forall r: Request, pages: nat :: Asks(r, k, pages) ==> IsServed(r, k, pages)) <==> SMALL * k == LARGE
  {
    if k == 8 {
      hide IsServed;
      forall r: Request, pages: nat | Asks(r, k, pages) ensures IsServed(r, k, pages) {
        if r.ReadRequest? {
          ReadServedIff(r, k, pages);
        } else {
          ChangeServedIff(r, k, pages);
        }
      }
    } else {
      hide IsServed;
      TimesMonotone(9, 1, k);
      assert Asks(EraseRequest(8), k, 9);
      ChangeServedIff(EraseRequest(8), k, 9);
    }
  }

  /** Two wrong answers on pages of 8192 bytes: a read of small page 8 answers small page 0, and a write of small page
      128, whose slot is right, is stored in small page 256. */
  lemma WrongAnswers(a: Adapter, mem: seq<u8>, buf: seq<u8>, data: seq<u8>)
    requires AtRestOn(a, 16) && |mem| == SMALL * 512 && |buf| == SMALL && |data| == SMALL
    ensures RunOn(a, mem, ReadRequest(8, buf), 16, 32) == Some((mem, ReadDone(SmallPage(mem, 0))))
    ensures 128 % 16 == 128 % 8
    ensures var o := RunOn(a, mem, WriteRequest(128, data), 16, 32);
      && o.Some? && o.value.1 == WriteDone(data) && |o.value.0| == |mem|
      && SmallPage(o.value.0, 256) == data && SmallPage(o.value.0, 128) == SmallPage(mem, 128)
  {
    hide RunOn;
    ReadTakes(a, mem, ReadRequest(8, buf), 16, 32);
    ChangePuts(a, mem, WriteRequest(128, data), 16, 32);
  }

  // ---- a request while another is outstanding ------------------------------------------------

  /** The page buffer is gone and nothing is under way that could bring it back. */
  predicate Dead(a: Adapter) {
    a.pageBuffer.None? && a.op.NoOp?
  }

  lemma {:induction false} DeadForEver(a: Adapter, rs: seq<Request>)
    requires Dead(a) && ValidAdapter(a)
    ensures Dead(AfterRequests(a, rs).0) && AfterRequests(a, rs).1 == seq(|rs|, _ => false)
    decreases |rs|
  {
    if rs != [] {
      DeadForEver(Begin(a, rs[0]).0, rs[1..]);
      assert [false] + seq(|rs[1..]|, _ => false) == seq(|rs|, _ => false);
    }
  }

  /** Requests one after the other, and which of them are accepted. */
  function AfterRequests(a: Adapter, rs: seq<Request>): (r: (Adapter, seq<bool>))
    requires Dead(a) && ValidAdapter(a)
    decreases |rs|
  {
    if rs == [] then (a, [])
    else
      var (a1, ok) := Begin(a, rs[0]);
      var (a2, oks) := AfterRequests(a1, rs[1..]);
      (a2, [ok] + oks)
  }

  /** A request that comes while another is outstanding is refused. It is not harmless: unless one of the two is an
      erase, the refusal drops the client's buffer of the first, which then never ends, and no request is accepted any
      more. */
  lemma SecondRequest(a: Adapter, mem: seq<u8>, first: Request, second: Request, later: seq<Request>)
    requires AtRest(a) && |mem| % LARGE == 0 && InRange(first, mem)
    ensures var a1 := Begin(a, first).0;
      var (a2, ok) := Begin(a1, second);
      && ValidAdapter(a1) && !ok
      && (a2 == a1 <==> first.EraseRequest? || second.EraseRequest?)
      && (!first.EraseRequest? && !second.EraseRequest? ==>
            && LARGE * (a2.op.index + 1) <= |mem|
            && var (a3, mem3, notice) := Complete(a2, mem, LARGE);
            && mem3 == mem && notice == Nothing && Dead(a3) && ValidAdapter(a3)
            && Dead(AfterRequests(a3, later).0) && AfterRequests(a3, later).1 == seq(|later|, _ => false))
  {
    SlotInLarge(mem, first.n);
    var a1 := Begin(a, first).0;
    var a2 := Begin(a1, second).0;
    if !first.EraseRequest? && !second.EraseRequest? {
      var a3 := Complete(a2, mem, LARGE).0;
      hide AfterRequests;
      DeadForEver(a3, later);
    }
  }

  /** So it is while a write is being written back: the small page is changed, but the client is never told. */
  lemma SecondRequestLate(a: Adapter, mem: seq<u8>, first: Request, second: Request, later: seq<Request>)
    requires AtRest(a) && |mem| % LARGE == 0 && InRange(first, mem) && first.WriteRequest? && !second.EraseRequest?
    ensures LARGE * (Begin(a, first).0.op.index + 1) <= |mem|
    ensures var a1 := Complete(Begin(a, first).0, mem, LARGE).0;
      var (a2, ok) := Begin(a1, second);
      && ValidAdapter(a1) && !ok && a2.op.Writing? && |a2.op.page| == LARGE && LARGE * (a2.op.index + 1) <= |mem|
      && var (a3, mem3, notice) := Complete(a2, mem, LARGE);
      && mem3 == Serve(mem, first).0 && notice == Nothing && Dead(a3) && ValidAdapter(a3)
      && AfterRequests(a3, later).1 == seq(|later|, _ => false)
  {
    ChangeRefines(a, mem, first);
    SlotInLarge(mem, first.n);
    var a2 := Begin(Complete(Begin(a, first).0, mem, LARGE).0, second).0;
    var a3 := Complete(a2, mem, LARGE).0;
    hide AfterRequests, Splice;
    DeadForEver(a3, later);
  }
}
