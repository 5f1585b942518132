/** `flashcalw_memset64` and the narrower fills built on it, over the flash array and the user page. */
module FlashFill {
  import opened Arithmetic
  import opened Bytes
  import opened Alignment
  import opened FlashController

  // ---- the pattern --------------------------------------------------------------------

  /** 256 to the power `n`. */
  function Pow256(n: nat): (p: nat)
    ensures p > 0
  {
    if n == 0 then 1 else 256 * Pow256(n - 1)
  }

  /** Byte `k` of a number, counted from the least significant. */
  function ByteOf(v: nat, k: nat): u8 {
    if k == 0 then v % 256 else ByteOf(v / 256, k - 1)
  }

  /** The byte of a number of `width` bytes that is due after `m` bytes, most significant first. */
  function Turn(src: nat, width: nat, m: nat): u8
    requires width > 0
  {
    ByteOf(src, width - 1 - m % width)
  }

  /** The big-endian bytes of a number, over and over. */
  function Repeated(src: nat, width: nat, n: nat): (p: seq<u8>)
    requires width > 0
    ensures |p| == n
    ensures forall m :: 0 <= m < n ==> p[m] == Turn(src, width, m)
  {
    seq(n, m requires 0 <= m < n => Turn(src, width, m))
  }

  /** A byte string read as a big-endian number. */
  function BigEndian(bytes: seq<u8>): nat {
    if bytes == [] then 0 else 256 * BigEndian(bytes[..|bytes| - 1]) + bytes[|bytes| - 1]
  }

  /** One turn of the pattern, read big-endian, is the number. */
  lemma {:induction false} TurnIsBigEndian(src: nat, width: nat)
    requires width > 0 && src < Pow256(width)
    ensures BigEndian(Repeated(src, width, width)) == src
    decreases width
  {
    var turn := Repeated(src, width, width);
    FirstTurn(src, width);
    if width == 1 {
      assert Pow256(0) == 1 && turn[..0] == [];
    } else {
      var shorter := Repeated(src / 256, width - 1, width - 1);
      FirstTurn(src / 256, width - 1);
      forall m | 0 <= m < width - 1 ensures turn[m] == shorter[m] {
        assert ByteOf(src, width - 1 - m) == ByteOf(src / 256, width - 2 - m);
      }
      assert turn[..width - 1] == shorter;
      TurnIsBigEndian(src / 256, width - 1);
    }
  }

  lemma FirstTurn(src: nat, width: nat)
    requires width > 0
    ensures forall m :: 0 <= m < width ==> Repeated(src, width, width)[m] == ByteOf(src, width - 1 - m)
  {
    forall m | 0 <= m < width ensures Repeated(src, width, width)[m] == ByteOf(src, width - 1 - m) {
      assert m % width == m;
    }
  }

  // ---- the source double-word -------------------------------------------------------------

  /** Where byte `k` of the source goes in the double-word. */
  function Slot(dst: nat, k: nat): (i: nat)
    requires k < DWORD
    ensures i < DWORD
  {
    (dst % DWORD + DWORD - 1 - k) % DWORD
  }

  /** At every address the double-word has the byte that is due there. */
  ghost predicate IsSource(source: seq<u8>, dst: nat, src: nat) {
    |source| == DWORD && forall m: nat {:trigger Turn(src, DWORD, m)} :: source[Phase(dst + m)] == Turn(src, DWORD, m)
  }

  /** `done` bytes of the source are in place and `rest` is what is left of it. */
  ghost predicate SourceSoFar(source: seq<u8>, dst: nat, src: nat, rest: nat, done: nat) {
    && done <= DWORD && |source| == DWORD && rest < Pow256(DWORD - done)
    && (forall k: nat :: ByteOf(src, done + k) == ByteOf(rest, k))
    && forall k :: 0 <= k < DWORD ==> source[Slot(dst, k)] == if k < done then ByteOf(src, k) else 0
  }

  lemma NextByte(src: nat, rest: nat, done: nat)
    requires forall k: nat :: ByteOf(src, done + k) == ByteOf(rest, k)
    ensures rest % 256 == ByteOf(src, done)
    ensures forall k: nat :: ByteOf(src, done + 1 + k) == ByteOf(rest / 256, k)
  {
    assert ByteOf(src, done + 0) == ByteOf(rest, 0);
    forall k: nat ensures ByteOf(src, done + 1 + k) == ByteOf(rest / 256, k) {
      assert ByteOf(src, done + (k + 1)) == ByteOf(rest, k + 1);
    }
  }

  lemma SlotsDiffer(dst: nat, j: nat, k: nat)
    requires j < DWORD && k < DWORD && Slot(dst, j) == Slot(dst, k)
    ensures j == k
  {
  }

  lemma NextSlot(dst: nat, done: nat)
    requires done < DWORD - 1
    ensures (Slot(dst, done) + DWORD - 1) % DWORD == Slot(dst, done + 1)
  {
  }

  lemma SourceStep(source: seq<u8>, dst: nat, src: nat, rest: nat, done: nat)
    requires SourceSoFar(source, dst, src, rest, done) && rest != 0
    ensures done < DWORD
    ensures SourceSoFar(source[Slot(dst, done) := rest % 256], dst, src, rest / 256, done + 1)
  {
    hide Slot;
    assert Pow256(0) == 1;
    NextByte(src, rest, done);
    var next := source[Slot(dst, done) := rest % 256];
    forall k | 0 <= k < DWORD
      ensures next[Slot(dst, k)] == if k < done + 1 then ByteOf(src, k) else 0
    {
      if Slot(dst, k) == Slot(dst, done) {
        SlotsDiffer(dst, k, done);
      }
    }
  }

  lemma {:induction false} ZeroBytes(k: nat)
    ensures ByteOf(0, k) == 0
  {
    if k > 0 {
      ZeroBytes(k - 1);
    }
  }

  lemma SlotOf(dst: nat, m: nat)
    ensures Slot(dst, DWORD - 1 - m % DWORD) == Phase(dst + m)
  {
    SumModulo(dst, m);
  }

  lemma SumModulo(a: nat, b: nat)
    ensures (a + b) % DWORD == (a % DWORD + b % DWORD) % DWORD
  {
    assert a + b == DWORD * (a / DWORD + b / DWORD) + (a % DWORD + b % DWORD);
  }

  lemma AllStored(source: seq<u8>, dst: nat, src: nat, done: nat)
    requires SourceSoFar(source, dst, src, 0, done)
    ensures IsSource(source, dst, src)
  {
    hide Slot, Phase;
    forall m: nat ensures source[Phase(dst + m)] == Turn(src, DWORD, m) {
      var k := DWORD - 1 - m % DWORD;
      SlotOf(dst, m);
      if k >= done {
        assert ByteOf(src, done + (k - done)) == ByteOf(0, k - done);
        ZeroBytes(k - done);
      }
    }
  }

  /** The bytes of the source, rotated so that they fall in place at the destination's alignment. */
  method SourceDword(dst: nat, src: nat) returns (source: seq<u8>)
    requires src < Pow256(DWORD)
    ensures IsSource(source, dst, src)
  {
    source := seq(DWORD, _ => 0);
    var rest, i := src, (dst % DWORD + DWORD - 1) % DWORD;
    ghost var done := 0;
    assert SourceSoFar(source, dst, src, rest, done) && i == Slot(dst, 0);
    hide *;
    while rest != 0
      invariant 0 <= i < DWORD && (done < DWORD ==> i == Slot(dst, done))
      invariant SourceSoFar(source, dst, src, rest, done) && |source| == DWORD
      decreases rest
    {
      SourceStep(source, dst, src, rest, done);
      if done < DWORD - 1 {
        NextSlot(dst, done);
      }
      source := source[i := rest % 256];
      rest := rest / 256;
      i := (i + DWORD - 1) % DWORD;
      done := done + 1;
    }
    AllStored(source, dst, src, done);
  }

  // ---- one page ------------------------------------------------------------------------------

  /** From page `page` on, `goal` is the pattern from `dest` to `destEnd` and the flash elsewhere. */
  ghost predicate Repeats(goal: seq<u8>, flash: seq<u8>, page: nat, dest: nat, destEnd: nat, source: seq<u8>) {
    && |source| == DWORD && |goal| == |flash| && page == PageOf(dest) && dest < destEnd <= |flash|
    && PAGE * page + PAGE <= |flash|
    && forall a :: PAGE * page <= a < |flash| ==>
         goal[a] == if dest <= a < destEnd then source[Phase(a)] else flash[a]
  }

  /** The double-word holds what belongs in the last, incomplete double-word of the destination. */
  ghost predicate Completes(goal: seq<u8>, destEnd: nat, dword: seq<u8>) {
    && |dword| == DWORD && destEnd <= |goal|
    && forall k :: 0 <= k < Phase(destEnd) ==> dword[k] == goal[DwordStart(destEnd) + k]
  }

  /** Where the head of a page ends. */
  ghost predicate HeadEnds(page: nat, dest: nat, destEnd: nat, d: nat) {
    && Aligned(d) && PAGE * page <= d <= PAGE * page + PAGE && d <= DwordStart(destEnd) && d < dest + DWORD
    && (d < DwordStart(destEnd) ==> dest <= d)
  }

  /** Current flash data is stored over itself, two words at a time. */
  method KeepDword(fc: FlashController, ghost goal: seq<u8>, ghost page: nat, tmp: nat)
    requires fc.Valid() && Prepared(fc.buffer[..], goal, page, tmp)
    requires tmp + DWORD <= PAGE * page + PAGE <= fc.flash.Length
    requires forall a :: tmp <= a < tmp + DWORD ==> fc.flash[a] == goal[a]
    modifies fc.buffer, fc`current
    ensures Prepared(fc.buffer[..], goal, page, tmp + DWORD) && fc.current == page
  {
    fc.StoreNext(goal, page, tmp, fc.flash[tmp..tmp + 4]);
    fc.StoreNext(goal, page, tmp + 4, fc.flash[tmp + 4..tmp + 8]);
  }

  method KeepDwords(fc: FlashController, ghost goal: seq<u8>, ghost page: nat, from: nat, end: nat)
    requires fc.Valid() && Prepared(fc.buffer[..], goal, page, from)
    requires from <= end <= PAGE * page + PAGE <= fc.flash.Length && Aligned(from) && Aligned(end)
    requires forall a :: from <= a < end ==> fc.flash[a] == goal[a]
    modifies fc.buffer, fc`current
    ensures Prepared(fc.buffer[..], goal, page, end)
    ensures fc.current == if from < end then page else old(fc.current)
  {
    hide Prepared, Repeats, Completes, HeadEnds, Aligned, PageAligned, Phase, DwordStart, PageOf, PageStart;
    var tmp := from;
    while tmp < end
      invariant from <= tmp <= end && Aligned(tmp)
      invariant Prepared(fc.buffer[..], goal, page, tmp)
      invariant fc.current == if from < tmp then page else old(fc.current)
    {
      Gap(tmp, end);
      NextAligned(tmp);
      KeepDword(fc, goal, page, tmp);
      tmp := tmp + DWORD;
    }
  }

  lemma AtPageEnd(page: nat, tmp: nat)
    requires PAGE * page < tmp <= PAGE * page + PAGE && Aligned(tmp)
    ensures PageAligned(tmp) <==> tmp == PAGE * page + PAGE
    ensures tmp < PAGE * page + PAGE ==> tmp + DWORD <= PAGE * page + PAGE
  {
    PagesAligned(page);
    if tmp < PAGE * page + PAGE {
      PageIs(tmp, page);
      Gap(tmp, PAGE * page + PAGE);
    }
  }

  method KeepToPageEnd(fc: FlashController, ghost goal: seq<u8>, ghost page: nat, from: nat)
    requires fc.Valid() && Prepared(fc.buffer[..], goal, page, from)
    requires PAGE * page < from <= PAGE * page + PAGE <= fc.flash.Length && Aligned(from)
    requires forall a :: from <= a < PAGE * page + PAGE ==> fc.flash[a] == goal[a]
    modifies fc.buffer, fc`current
    ensures Prepared(fc.buffer[..], goal, page, PAGE * page + PAGE)
    ensures fc.current == if from < PAGE * page + PAGE then page else old(fc.current)
  {
    hide Prepared, Repeats, Completes, HeadEnds, Aligned, PageAligned, Phase, DwordStart, PageOf, PageStart;
    var tmp := from;
    AtPageEnd(page, tmp);
    while !PageAligned(tmp)
      invariant from <= tmp <= PAGE * page + PAGE && Aligned(tmp)
      invariant PageAligned(tmp) <==> tmp == PAGE * page + PAGE
      invariant Prepared(fc.buffer[..], goal, page, tmp)
      invariant fc.current == if from < tmp then page else old(fc.current)
      decreases PAGE * page + PAGE - tmp
    {
      AtPageEnd(page, tmp);
      KeepDword(fc, goal, page, tmp);
      NextAligned(tmp);
      tmp := tmp + DWORD;
      AtPageEnd(page, tmp);
    }
  }

  /** The double-word `dest` lies in: flash data before it, the pattern from it on. */
  method HeadDword(fc: FlashController, dest: nat, source: seq<u8>) returns (dword: seq<u8>)
    requires fc.Valid() && dest < fc.flash.Length && |source| == DWORD
    ensures |dword| == DWORD
    ensures forall k :: 0 <= k < DWORD ==>
      dword[k] == if k < Phase(dest) then fc.flash[DwordStart(dest) + k] else source[k]
  {
    hide Prepared, Repeats, Completes, HeadEnds, Aligned, PageAligned, Phase, DwordStart, PageOf, PageStart;
    dword := source;
    var tmp := DwordStart(dest);
    for i := 0 to Phase(dest)
      invariant |dword| == DWORD && tmp == DwordStart(dest) + i
      invariant forall k :: 0 <= k < DWORD ==> dword[k] == if k < i then fc.flash[DwordStart(dest) + k] else source[k]
    {
      dword := dword[i := fc.flash[tmp]];
      tmp := tmp + 1;
    }
  }

  /** At a double-word of the destination, the pattern is due as it stands. */
  lemma SourceIsGoal(goal: seq<u8>, flash: seq<u8>, page: nat, dest: nat, destEnd: nat, source: seq<u8>, d: nat)
    requires Repeats(goal, flash, page, dest, destEnd, source)
    requires Aligned(d) && dest <= d && d + DWORD <= destEnd
    ensures source == goal[d..d + DWORD]
  {
    hide Aligned, Phase, PageOf;
    forall k | 0 <= k < DWORD ensures source[k] == goal[d + k] {
      InDword(d, k);
    }
  }

  lemma SourceCompletes(goal: seq<u8>, flash: seq<u8>, page: nat, dest: nat, destEnd: nat, source: seq<u8>)
    requires Repeats(goal, flash, page, dest, destEnd, source) && dest <= DwordStart(destEnd)
    ensures Completes(goal, destEnd, source)
  {
    hide Aligned, Phase, PageOf, DwordStart;
    var d := DwordStart(destEnd);
    DwordStartAligned(destEnd);
    forall k | 0 <= k < Phase(destEnd) ensures source[k] == goal[d + k] {
      InDword(d, k);
    }
  }

  lemma KeptBefore(goal: seq<u8>, flash: seq<u8>, page: nat, dest: nat, destEnd: nat, source: seq<u8>)
    requires Repeats(goal, flash, page, dest, destEnd, source)
    ensures PAGE * page <= DwordStart(dest) && DwordStart(dest) + DWORD <= PAGE * page + PAGE <= |goal|
    ensures Aligned(PAGE * page) && Aligned(DwordStart(dest)) && DwordStart(dest) <= DwordStart(destEnd)
    ensures forall a :: PAGE * page <= a < DwordStart(dest) ==> goal[a] == flash[a]
  {
    DwordInPage(dest);
    PagesAligned(page);
    DwordStartAligned(dest);
    DwordsOrdered(dest, destEnd);
    hide Aligned, Phase, PageOf, DwordStart;
  }

  lemma HeadIsGoal(
      goal: seq<u8>, flash: seq<u8>, page: nat, dest: nat, destEnd: nat, source: seq<u8>, dword: seq<u8>)
    requires Repeats(goal, flash, page, dest, destEnd, source)
    requires DwordStart(dest) <= DwordStart(destEnd) && PAGE * page <= DwordStart(dest)
    requires |dword| == DWORD && forall k :: 0 <= k < DWORD && DwordStart(dest) + k < destEnd ==>
      dword[k] == if k < Phase(dest) then flash[DwordStart(dest) + k] else source[k]
    ensures DwordStart(dest) < DwordStart(destEnd) ==>
      DwordStart(dest) + DWORD <= |goal| && dword == goal[DwordStart(dest)..DwordStart(dest) + DWORD]
    ensures DwordStart(dest) == DwordStart(destEnd) ==> Completes(goal, destEnd, dword)
  {
    var d := DwordStart(dest);
    DwordStartAligned(dest);
    DwordStartAligned(destEnd);
    hide Aligned, Phase, PageOf, DwordStart;
    if d < DwordStart(destEnd) {
      Gap(d, DwordStart(destEnd));
    }
    forall k | 0 <= k < DWORD && d + k < destEnd ensures dword[k] == goal[d + k] {
      InDword(d, k);
    }
  }

  /** The double-word `dest` lies in, unless it is the last one: then it is left for the tail to complete. */
  method SetHeadDword(
      fc: FlashController, ghost goal: seq<u8>, ghost page: nat, dest: nat, destEnd: nat, source: seq<u8>)
    returns (d: nat, dword: seq<u8>)
    requires fc.Valid() && Prepared(fc.buffer[..], goal, page, DwordStart(dest))
    requires Repeats(goal, fc.flash[..], page, dest, destEnd, source) && !Aligned(dest)
    requires DwordStart(dest) > PAGE * page ==> fc.current == page
    modifies fc.buffer, fc`current
    ensures HeadEnds(page, dest, destEnd, d)
    ensures Prepared(fc.buffer[..], goal, page, d) && (d > PAGE * page ==> fc.current == page)
    ensures Completes(goal, destEnd, dword)
  {
    assert |source| == DWORD && dest < fc.flash.Length;
    hide Prepared, Repeats, Completes, HeadEnds, Aligned, PageAligned, Phase, DwordStart, PageOf, PageStart;
    dword := HeadDword(fc, dest, source);
    KeptBefore(goal, fc.flash[..], page, dest, destEnd, source);
    HeadIsGoal(goal, fc.flash[..], page, dest, destEnd, source, dword);
    d := DwordStart(dest);
    if d < DwordStart(destEnd) {
      fc.StoreTwice(goal, page, d, dword);
      HeadDone(page, dest, destEnd, d + DWORD);
      SourceCompletes(goal, fc.flash[..], page, dest, destEnd, source);
      d, dword := d + DWORD, source;
    } else {
      HeadLeft(page, dest, destEnd);
    }
  }

  lemma HeadDone(page: nat, dest: nat, destEnd: nat, d: nat)
    requires d == DwordStart(dest) + DWORD && DwordStart(dest) < DwordStart(destEnd) && !Aligned(dest)
    requires PAGE * page <= DwordStart(dest) && d <= PAGE * page + PAGE
    ensures HeadEnds(page, dest, destEnd, d) && dest <= DwordStart(destEnd)
  {
    DwordStartAligned(dest);
    DwordStartAligned(destEnd);
    NextAligned(DwordStart(dest));
    Gap(DwordStart(dest), DwordStart(destEnd));
    hide Aligned, DwordStart, Phase;
  }

  lemma HeadLeft(page: nat, dest: nat, destEnd: nat)
    requires DwordStart(dest) == DwordStart(destEnd) && PAGE * page <= DwordStart(dest) <= PAGE * page + PAGE
    ensures HeadEnds(page, dest, destEnd, DwordStart(dest))
  {
    DwordStartAligned(dest);
    hide Aligned, DwordStart, Phase;
  }

  /** A destination at a double-word boundary needs no head double-word. */
  lemma HeadAligned(page: nat, dest: nat, destEnd: nat)
    requires page == PageOf(dest) && dest < destEnd && Aligned(dest)
    ensures HeadEnds(page, dest, destEnd, dest) && DwordStart(dest) == dest && dest <= DwordStart(destEnd)
  {
    DwordStartAligned(dest);
    DwordsOrdered(dest, destEnd);
    hide Aligned, DwordStart, PageOf, Phase;
  }

  lemma PageAlignedIsAligned(page: nat, dest: nat)
    requires page == PageOf(dest) && PageAligned(dest)
    ensures dest == PAGE * page && Aligned(dest)
  {
    PageAlignedIs(dest);
    PagesAligned(page);
  }

  /** The beginning of the page: flash data up to the double-word `dest` lies in, and that double-word. */
  method SetHead(fc: FlashController, ghost goal: seq<u8>, ghost page: nat, dest: nat, destEnd: nat, source: seq<u8>)
    returns (d: nat, dword: seq<u8>)
    requires fc.Valid() && Prepared(fc.buffer[..], goal, page, PAGE * page)
    requires Repeats(goal, fc.flash[..], page, dest, destEnd, source)
    modifies fc.buffer, fc`current
    ensures HeadEnds(page, dest, destEnd, d)
    ensures Prepared(fc.buffer[..], goal, page, d) && (d > PAGE * page ==> fc.current == page)
    ensures Completes(goal, destEnd, dword)
  {
    assert page == PageOf(dest) && dest < destEnd && |goal| == fc.flash.Length;
    hide Prepared, Repeats, Completes, HeadEnds, Aligned, PageAligned, Phase, DwordStart, PageOf, PageStart;
    d, dword := dest, source;
    KeptBefore(goal, fc.flash[..], page, dest, destEnd, source);
    if Aligned(dest) {
      HeadAligned(page, dest, destEnd);
      SourceCompletes(goal, fc.flash[..], page, dest, destEnd, source);
    }
    if PageAligned(dest) {
      PageAlignedIsAligned(page, dest);
    } else {
      KeepDwords(fc, goal, page, PageStart(dest), DwordStart(dest));
      if !Aligned(dest) {
        d, dword := SetHeadDword(fc, goal, page, dest, destEnd, source);
      }
    }
  }

  /** Whole double-words of the pattern, `count` of them. */
  method SetMiddle(fc: FlashController, ghost goal: seq<u8>, ghost page: nat, from: nat, count: nat,
      ghost dest: nat, ghost destEnd: nat, source: seq<u8>)
    returns (d: nat)
    requires fc.Valid() && Prepared(fc.buffer[..], goal, page, from) && Aligned(from)
    requires Repeats(goal, fc.flash[..], page, dest, destEnd, source) && |source| == DWORD
    requires count > 0 ==> dest <= from && from + DWORD * count <= destEnd
    requires from + DWORD * count <= PAGE * page + PAGE
    modifies fc.buffer, fc`current
    ensures d == from + DWORD * count && Prepared(fc.buffer[..], goal, page, d)
    ensures fc.current == if count > 0 then page else old(fc.current)
  {
    hide Prepared, Repeats, Completes, HeadEnds, Aligned, PageAligned, Phase, DwordStart, PageOf, PageStart;
    d := from;
    for i := count downto 0
      invariant d == from + DWORD * (count - i) && Aligned(d)
      invariant Prepared(fc.buffer[..], goal, page, d)
      invariant fc.current == if i < count then page else old(fc.current)
    {
      SourceIsGoal(goal, fc.flash[..], page, dest, destEnd, source, d);
      fc.StoreTwice(goal, page, d, source);
      NextAligned(d);
      d := d + DWORD;
    }
  }

  /** The last double-word: what was prepared for it, then flash data. */
  method TailDword(fc: FlashController, destEnd: nat, partial: seq<u8>) returns (dword: seq<u8>)
    requires fc.Valid() && DwordStart(destEnd) + DWORD <= fc.flash.Length && |partial| == DWORD
    ensures |dword| == DWORD
    ensures forall k :: 0 <= k < DWORD ==>
      dword[k] == if k < Phase(destEnd) then partial[k] else fc.flash[DwordStart(destEnd) + k]
  {
    hide Prepared, Repeats, Completes, HeadEnds, Aligned, PageAligned, Phase, DwordStart, PageOf, PageStart;
    dword := partial;
    var tmp := destEnd;
    for i := Phase(destEnd) to DWORD
      invariant |dword| == DWORD && tmp == DwordStart(destEnd) + i
      invariant forall k :: 0 <= k < DWORD ==>
        dword[k] == if k < Phase(destEnd) || k >= i then partial[k] else fc.flash[DwordStart(destEnd) + k]
    {
      dword := dword[i := fc.flash[tmp]];
      tmp := tmp + 1;
    }
  }

  lemma TailIsGoal(goal: seq<u8>, flash: seq<u8>, destEnd: nat, partial: seq<u8>, dword: seq<u8>)
    requires |goal| == |flash| && DwordStart(destEnd) + DWORD <= |goal| && Completes(goal, destEnd, partial)
    requires forall a :: destEnd <= a < |flash| ==> goal[a] == flash[a]
    requires |dword| == DWORD && forall k :: 0 <= k < DWORD ==>
      dword[k] == if k < Phase(destEnd) then partial[k] else flash[DwordStart(destEnd) + k]
    ensures dword == goal[DwordStart(destEnd)..DwordStart(destEnd) + DWORD]
  {
    hide Phase, DwordStart;
  }

  lemma TailPlace(page: nat, destEnd: nat)
    requires PAGE * page < destEnd < PAGE * page + PAGE
    ensures PAGE * page <= DwordStart(destEnd) && DwordStart(destEnd) + DWORD <= PAGE * page + PAGE
    ensures Aligned(DwordStart(destEnd)) && Aligned(DwordStart(destEnd) + DWORD)
    ensures Aligned(destEnd) ==> DwordStart(destEnd) == destEnd
  {
    PageIs(destEnd, page);
    DwordInPage(destEnd);
    DwordStartAligned(destEnd);
    NextAligned(DwordStart(destEnd));
    hide *;
  }

  /** The end of a page in which the destination ends: the last double-word, then current flash data. */
  method SetTail(fc: FlashController, ghost goal: seq<u8>, ghost page: nat, dest: nat, destEnd: nat, partial: seq<u8>)
    returns (d: nat)
    requires fc.Valid() && Prepared(fc.buffer[..], goal, page, dest)
    requires PAGE * page + PAGE <= fc.flash.Length == |goal| && PAGE * page < destEnd < PAGE * page + PAGE
    requires dest == DwordStart(destEnd) && Completes(goal, destEnd, partial) && |partial| == DWORD
    requires forall a :: destEnd <= a < fc.flash.Length ==> goal[a] == fc.flash[a]
    modifies fc.buffer, fc`current
    ensures destEnd <= d <= PAGE * page + PAGE
    ensures Prepared(fc.buffer[..], goal, page, PAGE * page + PAGE) && fc.current == page
  {
    hide Prepared, Repeats, Completes, HeadEnds, Aligned, PageAligned, Phase, DwordStart, PageOf, PageStart;
    TailPlace(page, destEnd);
    var tmp := destEnd;
    d := dest;
    if !Aligned(destEnd) {
      var dword := TailDword(fc, destEnd, partial);
      TailIsGoal(goal, fc.flash[..], destEnd, partial, dword);
      fc.StoreTwice(goal, page, d, dword);
      d := d + DWORD;
      tmp := d;
    }
    KeepToPageEnd(fc, goal, page, tmp);
  }

  /** Whole double-words from the head to the end of the source data in this page. */
  lemma MiddleFits(page: nat, dest: nat, destEnd: nat, d: nat)
    requires page == PageOf(dest) && dest < destEnd && HeadEnds(page, dest, destEnd, d)
    ensures var end := Min(DwordStart(destEnd), PAGE * page + PAGE);
      && d <= end && d + DWORD * ((end - d) / DWORD) == end && ((end - d) / DWORD > 0 ==> dest <= d && end <= destEnd)
    ensures destEnd >= PAGE * page + PAGE ==> DwordStart(destEnd) >= PAGE * page + PAGE
  {
    var end := Min(DwordStart(destEnd), PAGE * page + PAGE);
    DwordStartAligned(destEnd);
    PagesAligned(page);
    if destEnd >= PAGE * page + PAGE {
      DwordsOrdered(PAGE * page + PAGE, destEnd);
      DwordStartAligned(PAGE * page + PAGE);
    }
    WholeDwords(d, end);
  }

  lemma WholeDwords(d: nat, end: nat)
    requires Aligned(d) && Aligned(end) && d <= end
    ensures d + DWORD * ((end - d) / DWORD) == end
  {
    assert d == DWORD * (d / DWORD) && end == DWORD * (end / DWORD);
  }

  lemma EndsInPage(page: nat, dest: nat, destEnd: nat)
    requires page == PageOf(dest) && dest < destEnd
    ensures PageStart(dest) >= PageStart(destEnd) <==> destEnd < PAGE * page + PAGE
    ensures PAGE * page < destEnd
  {
    if destEnd < PAGE * page + PAGE {
      PageIs(destEnd, page);
    }
    hide PageStart, PageOf;
  }

  /** One pass: the page is prepared and written; behind the last page of the flash array comes the user page. */
  method SetPage(fc: FlashController, ghost goal: seq<u8>, ghost mem: seq<u8>, ghost first: nat, ghost page: nat,
      dest: nat, destEnd: nat, source: seq<u8>, erase: bool)
    returns (d: nat)
    requires fc.Valid() && first <= page && Repeats(goal, fc.flash[..], page, dest, destEnd, source)
    requires PAGE * page + PAGE <= fc.size || PAGE * page == USER_PAGE
    requires Written(fc.flash[..], mem, goal, fc.size, first, page, erase)
    modifies fc.flash, fc.buffer, fc`current
    ensures Written(fc.flash[..], mem, goal, fc.size, first, page + 1, erase)
    ensures if PAGE * page + PAGE == fc.size && destEnd >= fc.size then d == USER_PAGE
            else if destEnd < PAGE * page + PAGE then destEnd <= d
            else d == PAGE * page + PAGE
  {
    assert page == PageOf(dest) && dest < destEnd && |source| == DWORD && |goal| == fc.flash.Length;
    assert PAGE * page + PAGE <= fc.flash.Length;
    fc.ClearPageBuffer();
    assert Prepared(fc.buffer[..], goal, page, PAGE * page);
    AfterDestination(goal, fc.flash[..], page, dest, destEnd, source);
    hide Prepared, Written, Repeats, Completes, HeadEnds, Aligned, PageAligned, Phase, DwordStart, PageOf, PageStart;
    var sourceEnd := Min(DwordStart(destEnd), PageStart(dest) + PAGE);
    var incompleteEnd := PageStart(dest) >= PageStart(destEnd);
    EndsInPage(page, dest, destEnd);
    var dword;
    d, dword := SetHead(fc, goal, page, dest, destEnd, source);
    MiddleFits(page, dest, destEnd, d);
    HeadFacts(page, dest, destEnd, d, goal, dword);
    d := SetMiddle(fc, goal, page, d, (sourceEnd - d) / DWORD, dest, destEnd, source);
    if incompleteEnd {
      TailPlace(page, destEnd);
      d := SetTail(fc, goal, page, d, destEnd, dword);
    }
    if d <= USER_PAGE {
      fc.Commit(goal, mem, first, page, false, erase);
      if d >= fc.size {
        d := USER_PAGE;
      }
    } else {
      fc.Commit(goal, mem, first, page, true, erase);
    }
  }

  lemma HeadFacts(page: nat, dest: nat, destEnd: nat, d: nat, goal: seq<u8>, dword: seq<u8>)
    requires HeadEnds(page, dest, destEnd, d) && Completes(goal, destEnd, dword)
    ensures Aligned(d) && PAGE * page <= d <= PAGE * page + PAGE && |dword| == DWORD
  {
  }

  lemma AfterDestination(goal: seq<u8>, flash: seq<u8>, page: nat, dest: nat, destEnd: nat, source: seq<u8>)
    requires Repeats(goal, flash, page, dest, destEnd, source)
    ensures forall a :: destEnd <= a < |flash| ==> goal[a] == flash[a]
  {
  }

  // ---- all pages --------------------------------------------------------------------------------

  /** Before a page is written the rest of the flash is as it was, and the pattern goes on where it stopped. */
  lemma PatternRepeats(mem: seq<u8>, now: seq<u8>, first: nat, page: nat,
      dst: nat, dest: nat, destEnd: nat, source: seq<u8>, src: nat, size: nat, erase: bool)
    requires dst <= dest < destEnd <= |mem| && PageAligned(|mem|) && IsSource(source, dst, src)
    requires Written(now, mem, Splice(mem, dst, Repeated(src, DWORD, destEnd - dst)), size, first, page, erase)
    requires page == PageOf(dest) && (dest == dst || dest == PAGE * page)
    ensures Repeats(Splice(mem, dst, Repeated(src, DWORD, destEnd - dst)), now, page, dest, destEnd, source)
  {
    PageAlignedIs(|mem|);
    var goal := Splice(mem, dst, Repeated(src, DWORD, destEnd - dst));
    assert PAGE * page + PAGE <= |mem|;
    hide And, Turn, Phase, PageOf, PageAligned;
    forall a | PAGE * page <= a < |mem| ensures now[a] == mem[a] {
    }
    forall a | dest <= a < destEnd ensures goal[a] == source[Phase(a)] {
      SourceAt(source, dst, src, a);
    }
  }

  lemma SourceAt(source: seq<u8>, dst: nat, src: nat, a: nat)
    requires IsSource(source, dst, src) && dst <= a
    ensures source[Phase(a)] == Turn(src, DWORD, a - dst)
  {
    hide Turn, Phase;
    var m: nat := a - dst;
    assert source[Phase(dst + m)] == Turn(src, DWORD, m);
  }

  lemma NextPageStarts(page: nat)
    ensures PageOf(PAGE * page + PAGE) == page + 1
  {
  }

  /** The page a destination lies in: where it lies in memory, that page does. */
  lemma PageThere(size: nat, dest: nat, destEnd: nat)
    requires PageAligned(size) && size <= USER_PAGE && dest < destEnd <= SPACE
    requires dest < size || dest >= USER_PAGE
    ensures PAGE * PageOf(dest) + PAGE <= size || PAGE * PageOf(dest) == USER_PAGE
  {
  }

  lemma UserPageIs()
    ensures PageOf(USER_PAGE) == USER_PAGE / PAGE && PAGE * (USER_PAGE / PAGE) == USER_PAGE && PageAligned(SPACE)
  {
  }

  /** No memory lies between the flash array and the user page. */
  lemma WrittenAcross(now: seq<u8>, mem: seq<u8>, goal: seq<u8>, size: nat, first: nat, page: nat, erase: bool)
    requires Written(now, mem, goal, size, first, page, erase) && PAGE * page == size <= USER_PAGE
    ensures Written(now, mem, goal, size, first, USER_PAGE / PAGE, erase)
  {
    hide And;
  }

  /** The loop over the pages, from the first address at or behind `dst` that is in memory. */
  method SetPages(fc: FlashController, ghost dst: nat, start: nat, destEnd: nat, source: seq<u8>, ghost src: nat,
      erase: bool)
    requires fc.Valid() && start < destEnd <= SPACE && (destEnd <= fc.size || destEnd > USER_PAGE)
    requires IsSource(source, dst, src)
    requires if fc.size <= dst < USER_PAGE then start == USER_PAGE else start == dst
    modifies fc.flash, fc.buffer, fc`current
    ensures fc.flash[..]
      == Programmed(old(fc.flash[..]), fc.size, dst, Repeated(src, DWORD, destEnd - dst), erase)
  {
    ghost var mem := fc.flash[..];
    ghost var goal := Splice(mem, dst, Repeated(src, DWORD, destEnd - dst));
    ghost var first, page := PageOf(dst), PageOf(start);
    var dest := start;
    UserPageIs();
    PageThere(fc.size, start, destEnd);
    FirstPage(fc.size, dst, start);
    NothingWritten(mem, goal, fc.size, first, page, erase);
    hide And, Splice, Repeated, Written, Repeats, IsSource, PageOf, PageAligned, Programmed;
    while dest < destEnd
      invariant first <= page && fc.flash.Length == |mem|
      invariant Written(fc.flash[..], mem, goal, fc.size, first, page, erase)
      invariant dest < destEnd ==>
        && page == PageOf(dest) && dst <= dest && (dest == dst || dest == PAGE * page)
        && (PAGE * page + PAGE <= fc.size || PAGE * page == USER_PAGE)
      invariant dest >= destEnd ==> PAGE * page >= destEnd
      decreases destEnd - dest
    {
      PatternRepeats(mem, fc.flash[..], first, page, dst, dest, destEnd, source, src, fc.size, erase);
      dest := SetPage(fc, goal, mem, first, page, dest, destEnd, source, erase);
      if PAGE * page + PAGE == fc.size && destEnd >= fc.size {
        WrittenAcross(fc.flash[..], mem, goal, fc.size, first, page + 1, erase);
        page := USER_PAGE / PAGE;
      } else {
        NextPageStarts(page);
        page := page + 1;
        if dest < destEnd {
          PageThere(fc.size, dest, destEnd);
        }
      }
    }
    WrittenIsProgrammed(fc.flash[..], mem, fc.size, dst, Repeated(src, DWORD, destEnd - dst), first, page, erase);
  }

  lemma FirstPage(size: nat, dst: nat, start: nat)
    requires PageAligned(size) && size <= USER_PAGE
    requires if size <= dst < USER_PAGE then start == USER_PAGE else start == dst
    ensures PageOf(dst) <= PageOf(start) && PAGE * PageOf(dst) <= dst && dst <= start
    ensures PageOf(dst) == PageOf(start) || (size <= PAGE * PageOf(dst) && PAGE * PageOf(start) <= USER_PAGE)
    ensures start == dst || start == PAGE * PageOf(start)
  {
    PageAlignedIs(size);
  }

  /** How much of `n` bytes from an address on lies before the end of the user page. */
  function Reach(dst: nat, n: nat): (r: nat)
    ensures r <= n && (dst <= SPACE ==> dst + r <= SPACE)
  {
    if dst >= SPACE then 0 else Min(n, SPACE - dst)
  }

  /** `n` bytes of a pattern, where there is memory from `dst` on. */
  function Filled(mem: seq<u8>, size: nat, dst: nat, src: nat, width: nat, n: nat, erase: bool): (r: seq<u8>)
    requires |mem| == SPACE && width > 0
  {
    if dst >= SPACE then mem else Programmed(mem, size, dst, Repeated(src, width, Reach(dst, n)), erase)
  }

  /** Where nothing is mapped, nothing is programmed. */
  lemma NothingProgrammed(mem: seq<u8>, size: nat, at: nat, data: seq<u8>, erase: bool)
    requires at + |data| <= |mem| && (|data| == 0 || (size <= at && at + |data| <= USER_PAGE))
    ensures Programmed(mem, size, at, data, erase) == mem
  {
  }

  /** What lies behind the flash array does not count. */
  lemma ProgrammedToEnd(mem: seq<u8>, size: nat, at: nat, src: nat, n: nat, m: nat, erase: bool)
    requires at + n <= |mem| && m <= n && size <= at + m && at + n <= USER_PAGE
    ensures Programmed(mem, size, at, Repeated(src, DWORD, n), erase)
      == Programmed(mem, size, at, Repeated(src, DWORD, m), erase)
  {
    hide And, Turn;
  }

  /** Every byte from `dst` to `dst + n` that lies in the flash array or in the user page becomes the one that is due
      there of the big-endian double-word `src`, repeated from `dst` on; without an erase it becomes the old byte and
      that one. Nothing else changes. */
  method Memset64(fc: FlashController, dst: nat, src: nat, n: nat, erase: bool) returns (r: nat)
    requires fc.Valid() && src < Pow256(DWORD)
    modifies fc.flash, fc.buffer, fc`current
    ensures r == dst && fc.flash[..] == Filled(old(fc.flash[..]), fc.size, dst, src, DWORD, n, erase)
  {
    ghost var mem := fc.flash[..];
    var source := SourceDword(dst, src);
    var dest, destEnd := dst, dst + n;
    if fc.size <= dest < USER_PAGE {
      dest := USER_PAGE;
    }
    if destEnd > USER_PAGE + PAGE {
      destEnd := USER_PAGE + PAGE;
    } else if USER_PAGE >= destEnd > fc.size {
      destEnd := fc.size;
    }
    hide Programmed, Repeated, IsSource;
    if dest < destEnd {
      SetPages(fc, dst, dest, destEnd, source, src, erase);
      if fc.size < dst + n <= USER_PAGE {
        ProgrammedToEnd(mem, fc.size, dst, src, n, destEnd - dst, erase);
      }
    } else if dst < SPACE {
      NothingProgrammed(mem, fc.size, dst, Repeated(src, DWORD, Reach(dst, n)), erase);
    }
    r := dst;
  }

  // ---- the narrower fills ----------------------------------------------------------------------------

  lemma TimesAssociates(a: nat, b: nat, c: nat)
    ensures a * b * c == a * (b * c)
  {
  }

  /** The bytes of a number on top of `t` others. */
  lemma {:induction false} StackedBytes(v: nat, x: nat, t: nat, k: nat)
    requires v < Pow256(t)
    ensures ByteOf(v + Pow256(t) * x, k) == if k < t then ByteOf(v, k) else ByteOf(x, k - t)
    decreases t
  {
    if t > 0 {
      var y := Pow256(t - 1) * x;
      TimesAssociates(256, Pow256(t - 1), x);
      assert v + Pow256(t) * x == v + 256 * y;
      assert (v + 256 * y) / 256 == v / 256 + y && (v + 256 * y) % 256 == v % 256;
      if k > 0 {
        StackedBytes(v / 256, x, t - 1, k - 1);
      }
    }
  }

  lemma StackedFits(v: nat, t: nat)
    requires v < Pow256(t) && (t == 1 || t == 2 || t == 4)
    ensures v + Pow256(t) * v < Pow256(2 * t)
  {
    assert Pow256(1) == 256 * Pow256(0) && Pow256(2) == 256 * Pow256(1) && Pow256(3) == 256 * Pow256(2);
    assert Pow256(4) == 256 * Pow256(3) && Pow256(5) == 256 * Pow256(4) && Pow256(6) == 256 * Pow256(5);
    assert Pow256(7) == 256 * Pow256(6) && Pow256(8) == 256 * Pow256(7);
  }

  lemma HalfTurn(width: nat, m: nat, q: nat, r: nat)
    requires width > 0 && m == 2 * width * q + r && r < 2 * width
    ensures m % (2 * width) == r
    ensures m % width == if r < width then r else r - width
  {
    DivisionIs(m, 2 * width, q, r);
    assert 2 * width * q == width * (2 * q);
    if r < width {
      DivisionIs(m, width, 2 * q, r);
    } else {
      assert width * (2 * q + 1) == width * (2 * q) + width;
      DivisionIs(m, width, 2 * q + 1, r - width);
    }
  }

  lemma TurnDoubles(src: nat, width: nat, m: nat)
    requires width > 0 && src < Pow256(width)
    ensures Turn(src + Pow256(width) * src, 2 * width, m) == Turn(src, width, m)
  {
    HalfTurn(width, m, m / (2 * width), m % (2 * width));
    hide ByteOf, Pow256;
    StackedBytes(src, src, width, 2 * width - 1 - m % (2 * width));
  }

  /** A number written twice repeats as the number does. */
  lemma Doubled(src: nat, width: nat, n: int)
    requires (width == 1 || width == 2 || width == 4) && src < Pow256(width)
    ensures src + Pow256(width) * src < Pow256(2 * width)
    ensures n >= 0 ==> Repeated(src + Pow256(width) * src, 2 * width, n) == Repeated(src, width, n)
  {
    StackedFits(src, width);
    hide Pow256, Turn;
    if n >= 0 {
      var a, b := Repeated(src + Pow256(width) * src, 2 * width, n), Repeated(src, width, n);
      forall m | 0 <= m < n ensures a[m] == b[m] {
        TurnDoubles(src, width, m);
      }
    }
  }

  lemma OneByteRepeated(src: u8, n: int)
    ensures n >= 0 ==> Repeated(src, 1, n) == seq(n, _ => src)
  {
  }

  lemma FilledDoubles(mem: seq<u8>, size: nat, dst: nat, src: nat, width: nat, n: nat, erase: bool)
    requires |mem| == SPACE && (width == 1 || width == 2 || width == 4) && src < Pow256(width)
    ensures src + Pow256(width) * src < Pow256(2 * width)
    ensures Filled(mem, size, dst, src + Pow256(width) * src, 2 * width, n, erase)
      == Filled(mem, size, dst, src, width, n, erase)
  {
    hide Pow256, Programmed, Repeated;
    Doubled(src, width, Reach(dst, n));
  }

  method Memset32(fc: FlashController, dst: nat, src: nat, n: nat, erase: bool) returns (r: nat)
    requires fc.Valid() && src < Pow256(4)
    modifies fc.flash, fc.buffer, fc`current
    ensures r == dst && fc.flash[..] == Filled(old(fc.flash[..]), fc.size, dst, src, 4, n, erase)
  {
    hide Pow256, Filled;
    FilledDoubles(fc.flash[..], fc.size, dst, src, 4, n, erase);
    r := Memset64(fc, dst, src + Pow256(4) * src, n, erase);
  }

  method Memset16(fc: FlashController, dst: nat, src: nat, n: nat, erase: bool) returns (r: nat)
    requires fc.Valid() && src < Pow256(2)
    modifies fc.flash, fc.buffer, fc`current
    ensures r == dst && fc.flash[..] == Filled(old(fc.flash[..]), fc.size, dst, src, 2, n, erase)
  {
    hide Pow256, Filled;
    FilledDoubles(fc.flash[..], fc.size, dst, src, 2, n, erase);
    r := Memset32(fc, dst, src + Pow256(2) * src, n, erase);
  }

  /** Every byte in memory from `dst` to `dst + n` becomes `src`. */
  method Memset8(fc: FlashController, dst: nat, src: u8, n: nat, erase: bool) returns (r: nat)
    requires fc.Valid()
    modifies fc.flash, fc.buffer, fc`current
    ensures r == dst
    ensures fc.flash[..] ==
      if dst >= SPACE then old(fc.flash[..])
      else Programmed(old(fc.flash[..]), fc.size, dst, seq(Reach(dst, n), _ => src), erase)
  {
    assert Pow256(1) == 256 * Pow256(0);
    OneByteRepeated(src, Reach(dst, n));
    FilledDoubles(fc.flash[..], fc.size, dst, src, 1, n, erase);
    hide Pow256, Programmed, Repeated;
    r := Memset16(fc, dst, src + Pow256(1) * src, n, erase);
  }
}
