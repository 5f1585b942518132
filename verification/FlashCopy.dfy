/** `flashcalw_memcpy`, within the flash array or the user page. */
module FlashCopy {
  import opened Bytes
  import opened Alignment
  import opened FlashController

  /** How many source bytes belong before `address`. */
  function Consumed(dst: nat, size: nat, address: nat): (n: nat)
    ensures n <= size
  {
    if address <= dst then 0 else Min(size, address - dst)
  }

  /** From `address` on, `goal` is the flash with the source in its place. */
  ghost predicate Ahead(goal: seq<u8>, flash: seq<u8>, dst: nat, src: seq<u8>, address: nat) {
    && dst + |src| <= |flash| == |goal|
    && forall a :: address <= a < |flash| ==> goal[a] == if dst <= a < dst + |src| then src[a - dst] else flash[a]
  }

  /** A double-word of the flash, updated with the source bytes that belong there. */
  method UpdatedDword(
      fc: FlashController, ghost goal: seq<u8>, dst: nat, src: seq<u8>, address: nat, copied: nat)
    returns (dword: seq<u8>, next: nat)
    requires fc.Valid() && Ahead(goal, fc.flash[..], dst, src, address) && address + DWORD <= fc.flash.Length
    requires copied == Consumed(dst, |src|, address)
    ensures dword == goal[address..address + DWORD]
    ensures next == Consumed(dst, |src|, address + DWORD)
  {
    dword := fc.flash[address..address + DWORD];
    next := copied;
    for i := 0 to DWORD
      invariant |dword| == DWORD
      invariant next == Consumed(dst, |src|, address + i)
      invariant forall k :: 0 <= k < DWORD ==> dword[k] == if k < i then goal[address + k] else fc.flash[address + k]
    {
      if next < |src| && address + i == dst + next {
        dword := dword[i := src[next]];
        next := next + 1;
      }
    }
  }

  lemma AheadLater(goal: seq<u8>, flash: seq<u8>, dst: nat, src: seq<u8>, a: nat, b: nat)
    requires Ahead(goal, flash, dst, src, a) && a <= b
    ensures Ahead(goal, flash, dst, src, b)
  {
  }

  /** The loop in the page. */
  method FillPage(fc: FlashController, ghost goal: seq<u8>, dst: nat, src: seq<u8>, page: nat, copied: nat)
    returns (next: nat)
    requires fc.Valid() && Ahead(goal, fc.flash[..], dst, src, PAGE * page) && PAGE * page + PAGE <= fc.flash.Length
    requires copied == Consumed(dst, |src|, PAGE * page) && Prepared(fc.buffer[..], goal, page, PAGE * page)
    modifies fc.buffer, fc`current
    ensures Prepared(fc.buffer[..], goal, page, PAGE * page + PAGE) && fc.current == page
    ensures next == Consumed(dst, |src|, PAGE * page + PAGE)
  {
    hide Prepared, Ahead, Consumed;
    next := copied;
    var pagePos := 0;
    while pagePos < PAGE
      invariant 0 <= pagePos <= PAGE && pagePos % DWORD == 0
      invariant next == Consumed(dst, |src|, PAGE * page + pagePos)
      invariant Prepared(fc.buffer[..], goal, page, PAGE * page + pagePos) && (pagePos > 0 ==> fc.current == page)
    {
      AheadLater(goal, fc.flash[..], dst, src, PAGE * page, PAGE * page + pagePos);
      var dword: seq<u8>;
      dword, next := UpdatedDword(fc, goal, dst, src, PAGE * page + pagePos, next);
      fc.StoreTwice(goal, page, PAGE * page + pagePos, dword);
      pagePos := pagePos + DWORD;
    }
  }

  lemma WrittenIsAhead(
      now: seq<u8>, mem: seq<u8>, size: nat, dst: nat, src: seq<u8>, first: nat, page: nat, erase: bool)
    requires dst + |src| <= |mem| && Written(now, mem, Splice(mem, dst, src), size, first, page, erase)
    ensures Ahead(Splice(mem, dst, src), now, dst, src, PAGE * page)
  {
  }

  lemma ClearIsPrepared(b: seq<u8>, goal: seq<u8>, page: nat)
    requires |b| == PAGE && PAGE * page + PAGE <= |goal| && forall j :: 0 <= j < PAGE ==> b[j] == 0xFF
    ensures Prepared(b, goal, page, PAGE * page)
  {
  }

  /** One pass: the page is prepared and written. */
  method CopyPage(fc: FlashController, ghost goal: seq<u8>, ghost mem: seq<u8>, dst: nat, src: seq<u8>,
      ghost first: nat, page: nat, copied: nat, user: bool, erase: bool)
    returns (next: nat)
    requires fc.Valid() && dst + |src| <= |mem| && goal == Splice(mem, dst, src)
    requires first <= page && if user then PAGE * page == USER_PAGE else PAGE * page + PAGE <= fc.size
    requires Written(fc.flash[..], mem, goal, fc.size, first, page, erase)
    requires copied == Consumed(dst, |src|, PAGE * page)
    modifies fc.flash, fc.buffer, fc`current
    ensures Written(fc.flash[..], mem, goal, fc.size, first, page + 1, erase)
    ensures next == Consumed(dst, |src|, PAGE * page + PAGE)
  {
    assert |goal| == fc.flash.Length;
    fc.ClearPageBuffer();
    WrittenIsAhead(fc.flash[..], mem, fc.size, dst, src, first, page, erase);
    ClearIsPrepared(fc.buffer[..], goal, page);
    hide Prepared, Written, Ahead, Splice, Consumed;
    next := FillPage(fc, goal, dst, src, page, copied);
    fc.Commit(goal, mem, first, page, user, erase);
  }

  /** While bytes are left, the page they belong in exists, and takes at least one of them. */
  lemma PageFits(dst: nat, size: nat, page: nat, end: nat)
    requires Consumed(dst, size, PAGE * page) < size && dst + size <= end
    requires PageAligned(end) && PageOf(dst) <= page
    ensures PAGE * page + PAGE <= end
    ensures Consumed(dst, size, PAGE * page) < Consumed(dst, size, PAGE * page + PAGE)
  {
    PageAlignedIs(end);
    hide PageOf, PageAligned;
    assert PAGE * page < end;
  }

  lemma InUserPage(dst: nat, page: nat)
    requires USER_PAGE <= dst && PageOf(dst) <= page && PAGE * page + PAGE <= SPACE
    ensures PAGE * page == USER_PAGE
  {
  }

  lemma SpaceIsPages()
    ensures PageAligned(SPACE)
  {
  }

  /** Whatever the alignment and however many pages, exactly `[dst, dst + |src|)` becomes the source; without an
      erase each of those bytes becomes the old byte and the source byte. */
  method Memcpy(fc: FlashController, dst: nat, src: seq<u8>, erase: bool) returns (r: nat)
    requires fc.Valid() && (dst + |src| <= fc.size || (USER_PAGE <= dst && dst + |src| <= SPACE))
    modifies fc.flash, fc.buffer, fc`current
    ensures r == dst && fc.flash[..] == Programmed(old(fc.flash[..]), fc.size, dst, src, erase)
  {
    ghost var mem, goal := fc.flash[..], Splice(fc.flash[..], dst, src);
    var user := dst >= USER_PAGE;
    var copied, page := 0, PageOf(dst);
    ghost var first := page;
    SpaceIsPages();
    NothingWritten(mem, goal, fc.size, first, first, erase);
    hide And, Splice, PageOf, PageAligned, Programmed, Written, Consumed;
    while copied < |src|
      invariant first == PageOf(dst) <= page && copied == Consumed(dst, |src|, PAGE * page)
      invariant Written(fc.flash[..], mem, goal, fc.size, first, page, erase)
      decreases |src| - copied
    {
      PageFits(dst, |src|, page, if user then SPACE else fc.size);
      if user {
        InUserPage(dst, page);
      }
      copied := CopyPage(fc, goal, mem, dst, src, first, page, copied, user, erase);
      page := page + 1;
    }
    if src != [] {
      AllConsumed(dst, |src|, PAGE * page);
    }
    WrittenIsProgrammed(fc.flash[..], mem, fc.size, dst, src, first, page, erase);
    r := dst;
  }

  lemma AllConsumed(dst: nat, size: nat, address: nat)
    requires Consumed(dst, size, address) >= size && size > 0
    ensures dst + size <= address
  {
  }
}
