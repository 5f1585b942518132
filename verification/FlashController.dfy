/** The SAM4L flash controller: pages are written from a page buffer, and writing can only clear bits. */
module FlashController {
  import opened Bytes
  import opened Alignment

  const USER_PAGE := 0x80_0000
  const SPACE := USER_PAGE + PAGE

  /** Memory lies in the flash array, from address 0 on, and in the user page; nothing in between. */
  predicate Mapped(size: nat, a: nat) {
    a < size || a >= USER_PAGE
  }

  function And(a: u8, b: u8): u8 {
    ((a as bv8) & (b as bv8)) as int
  }

  lemma AndOnes(a: u8)
    ensures And(0xFF, a) == a && And(a, 0xFF) == a
  {
  }

  lemma AndSame(a: u8)
    ensures And(a, a) == a
  {
  }

  lemma AndFacts()
    ensures forall a: u8 :: And(0xFF, a) == a
    ensures forall a: u8 :: And(a, 0xFF) == a
    ensures forall a: u8 :: And(a, a) == a
  {
    forall a: u8 ensures And(0xFF, a) == a && And(a, 0xFF) == a { AndOnes(a); }
    forall a: u8 ensures And(a, a) == a { AndSame(a); }
  }

  /** `mem` with `data` programmed at `at`, where there is memory: after an erase the bytes are set, without one they
      are cleared bit by bit. */
  function Programmed(mem: seq<u8>, size: nat, at: nat, data: seq<u8>, erase: bool): (r: seq<u8>)
    requires at + |data| <= |mem|
    ensures |r| == |mem|
  {
    seq(|mem|, i requires 0 <= i < |mem| =>
      if at <= i < at + |data| && Mapped(size, i) then (if erase then data[i - at] else And(mem[i], data[i - at]))
      else mem[i])
  }

  /** The page buffer holds what `goal` says of the page, up to address `upto`, and is clear beyond. */
  ghost predicate Prepared(b: seq<u8>, goal: seq<u8>, page: nat, upto: nat) {
    && |b| == PAGE && PAGE * page <= upto <= PAGE * page + PAGE <= |goal|
    && forall j :: 0 <= j < PAGE ==> b[j] == if PAGE * page + j < upto then goal[PAGE * page + j] else 0xFF
  }

  /** From page `first`, every page before `done` is as `goal` says, where there is memory; every other byte is as in
      `mem`. */
  ghost predicate Written(
      now: seq<u8>, mem: seq<u8>, goal: seq<u8>, size: nat, first: nat, done: nat, erase: bool)
  {
    && |now| == |mem| == |goal|
    && forall a :: 0 <= a < |mem| ==>
         now[a] == if PAGE * first <= a < PAGE * done && Mapped(size, a)
                   then (if erase then goal[a] else And(mem[a], goal[a])) else mem[a]
  }

  class FlashController {
    /** The address space up to the end of the user page. */
    const flash: array<u8>
    /** The size of the flash array. */
    const size: nat
    const buffer: array<u8>
    /** The page of the last page buffer access. */
    var current: nat

    ghost predicate Valid()
      reads this
    {
      && buffer.Length == PAGE && flash.Length == SPACE && flash != buffer
      && PageAligned(size) && size <= USER_PAGE
    }

    constructor (pages: nat)
      requires PAGE * pages <= USER_PAGE
      ensures Valid() && fresh(flash) && fresh(buffer) && size == PAGE * pages
      ensures flash[..] == seq(SPACE, _ => 0xFF)
    {
      flash := new u8[SPACE](_ => 0xFF);
      size := PAGE * pages;
      buffer := new u8[PAGE](_ => 0xFF);
      current := 0;
    }

    /** `flashcalw_clear_page_buffer` */
    method ClearPageBuffer()
      requires Valid()
      modifies buffer
      ensures forall j :: 0 <= j < PAGE ==> buffer[j] == 0xFF
    {
      for i := 0 to PAGE
        invariant forall j :: 0 <= j < i ==> buffer[j] == 0xFF
      {
        buffer[i] := 0xFF;
      }
    }

    /** A store to a flash address goes to the page buffer. */
    method Store(address: nat, data: seq<u8>)
      requires Valid() && address + |data| <= PAGE * PageOf(address) + PAGE
      modifies buffer, this`current
      ensures current == PageOf(address)
      ensures forall j :: 0 <= j < PAGE ==>
        var a := PAGE * current + j;
        buffer[j] == if address <= a < address + |data| then And(old(buffer[j]), data[a - address]) else old(buffer[j])
    {
      hide And, PageOf;
      current := PageOf(address);
      var at := address - PAGE * current;
      for i := 0 to |data|
        invariant current == PageOf(address)
        invariant forall j :: 0 <= j < PAGE ==>
          buffer[j] == if at <= j < at + i then And(old(buffer[j]), data[j - at]) else old(buffer[j])
      {
        buffer[at + i] := And(buffer[at + i], data[i]);
      }
    }

    /** The hardware's erase of the page that begins at `start`. */
    method EraseAt(start: nat)
      requires Valid() && start + PAGE <= flash.Length
      modifies flash
      ensures forall a :: 0 <= a < flash.Length ==>
        flash[a] == if start <= a < start + PAGE then 0xFF else old(flash[a])
    {
      for i := 0 to PAGE
        invariant forall a :: 0 <= a < flash.Length ==>
          flash[a] == if start <= a < start + i then 0xFF else old(flash[a])
      {
        flash[start + i] := 0xFF;
      }
    }

    /** The hardware's write of the page that begins at `start`. */
    method WriteAt(start: nat)
      requires Valid() && start + PAGE <= flash.Length
      modifies flash
      ensures forall a :: 0 <= a < flash.Length ==>
        flash[a] == if start <= a < start + PAGE then And(old(flash[a]), buffer[a - start]) else old(flash[a])
    {
      hide And;
      for i := 0 to PAGE
        invariant forall a :: 0 <= a < flash.Length ==>
          flash[a] == if start <= a < start + i then And(old(flash[a]), buffer[a - start]) else old(flash[a])
      {
        flash[start + i] := And(flash[start + i], buffer[i]);
      }
    }

    /** `flashcalw_erase_page(page, false)`; with -1 for the page, the page of the last page buffer access. */
    method ErasePage(page: nat)
      requires Valid() && PAGE * page + PAGE <= size
      modifies flash
      ensures forall a :: 0 <= a < flash.Length ==>
        flash[a] == if PAGE * page <= a < PAGE * page + PAGE then 0xFF else old(flash[a])
    {
      EraseAt(PAGE * page);
    }

    /** `flashcalw_erase_user_page(false)` */
    method EraseUserPage()
      requires Valid()
      modifies flash
      ensures forall a :: 0 <= a < flash.Length ==> flash[a] == if 0x80_0000 <= a then 0xFF else old(flash[a])
    {
      EraseAt(USER_PAGE);
    }

    /** `flashcalw_write_page(page)` */
    method WritePage(page: nat)
      requires Valid() && PAGE * page + PAGE <= size
      modifies flash
      ensures forall a :: 0 <= a < flash.Length ==>
        flash[a] == if PAGE * page <= a < PAGE * page + PAGE
                    then And(old(flash[a]), buffer[a - PAGE * page]) else old(flash[a])
    {
      WriteAt(PAGE * page);
    }

    /** `flashcalw_write_user_page()` */
    method WriteUserPage()
      requires Valid()
      modifies flash
      ensures forall a :: 0 <= a < flash.Length ==>
        flash[a] == if 0x80_0000 <= a then And(old(flash[a]), buffer[a - 0x80_0000]) else old(flash[a])
    {
      WriteAt(USER_PAGE);
    }

    /** `flashcalw_quick_page_read(page)` */
    method QuickPageRead(page: nat) returns (erased: bool)
      requires Valid() && PAGE * page + PAGE <= size
      ensures erased <==> forall a :: PAGE * page <= a < PAGE * page + PAGE ==> flash[a] == 0xFF
    {
      for i := 0 to PAGE
        invariant forall a :: PAGE * page <= a < PAGE * page + i ==> flash[a] == 0xFF
      {
        if flash[PAGE * page + i] != 0xFF {
          return false;
        }
      }
      return true;
    }

    // ---- preparing a page in order of addresses -----------------------------------------

    /** The next bytes of the page are put in the buffer. */
    method StoreNext(ghost goal: seq<u8>, ghost page: nat, address: nat, data: seq<u8>)
      requires Valid() && Prepared(buffer[..], goal, page, address)
      requires data != [] && address + |data| <= PAGE * page + PAGE && data == goal[address..address + |data|]
      modifies buffer, this`current
      ensures Prepared(buffer[..], goal, page, address + |data|) && current == page
    {
      hide And, PageOf;
      AndFacts();
      PageIs(address, page);
      Store(address, data);
    }

    /** Ones change nothing. */
    method StoreOnes(ghost goal: seq<u8>, ghost page: nat, ghost upto: nat, address: nat, n: nat)
      requires Valid() && Prepared(buffer[..], goal, page, upto)
      requires PAGE * page <= address < address + n <= PAGE * page + PAGE
      modifies buffer, this`current
      ensures Prepared(buffer[..], goal, page, upto)
    {
      hide And, PageOf;
      AndFacts();
      PageIs(address, page);
      Store(address, seq(n, _ => 0xFF));
    }

    /** The workaround of the driver: all ones are stored first. */
    method StoreTwice(ghost goal: seq<u8>, ghost page: nat, address: nat, data: seq<u8>)
      requires Valid() && Prepared(buffer[..], goal, page, address)
      requires |data| == DWORD && address + DWORD <= PAGE * page + PAGE && data == goal[address..address + DWORD]
      modifies buffer, this`current
      ensures Prepared(buffer[..], goal, page, address + DWORD) && current == page
    {
      assert PAGE * page <= address;
      hide Prepared;
      StoreOnes(goal, page, address, address, DWORD);
      StoreNext(goal, page, address, data);
    }

    /** The page is erased if requested, and written from the buffer: a page of the flash array by its number, the user
        page by commands of its own. */
    method Commit(ghost goal: seq<u8>, ghost mem: seq<u8>, ghost first: nat, ghost page: nat, user: bool, erase: bool)
      requires Valid() && Prepared(buffer[..], goal, page, PAGE * page + PAGE) && current == page
      requires if user then PAGE * page == USER_PAGE else PAGE * page + PAGE <= size
      requires first <= page && Written(flash[..], mem, goal, size, first, page, erase)
      modifies flash
      ensures Written(flash[..], mem, goal, size, first, page + 1, erase)
    {
      hide And, Written, Prepared;
      ghost var before := flash[..];
      if erase {
        if user {
          EraseUserPage();
        } else {
          ErasePage(current);
        }
      }
      ghost var between := flash[..];
      if user {
        WriteUserPage();
      } else {
        WritePage(current);
      }
      PageWritten(before, between, buffer[..], flash[..], mem, goal, size, first, page, erase);
    }

    // ---- a whole page, as the bootloader's commands write it -------------------------------

    /** Two words are stored over two words of ones. */
    method StoreWords(ghost goal: seq<u8>, ghost page: nat, address: nat, low: u32, high: u32)
      requires Valid() && Prepared(buffer[..], goal, page, address) && address + DWORD <= PAGE * page + PAGE
      requires LeU32(low) == goal[address..address + 4] && LeU32(high) == goal[address + 4..address + DWORD]
      modifies buffer, this`current
      ensures Prepared(buffer[..], goal, page, address + DWORD) && current == page
    {
      assert PAGE * page <= address;
      hide Prepared, LeU32;
      StoreOnes(goal, page, address, address, 4);
      StoreOnes(goal, page, address, address + 4, 4);
      StoreNext(goal, page, address, LeU32(low));
      StoreNext(goal, page, address + 4, LeU32(high));
    }

    /** A page is erased, loaded into the page buffer word by word, and written. */
    method ReplacePage(page: nat, data: seq<u8>)
      requires Valid() && PAGE * page + PAGE <= size && |data| == PAGE
      modifies flash, buffer, this`current
      ensures flash[..] == Splice(old(flash[..]), PAGE * page, data)
    {
      ghost var mem := flash[..];
      ghost var goal := Splice(mem, PAGE * page, data);
      ErasePage(page);
      ghost var erased := flash[..];
      ClearPageBuffer();
      assert Prepared(buffer[..], goal, page, PAGE * page);
      LoadPage(goal, mem, page, data);
      hide *;
      WritePage(page);
      Replaced(mem, erased, buffer[..], flash[..], page, data);
    }

    /** The page buffer is loaded word by word. */
    method LoadPage(ghost goal: seq<u8>, ghost mem: seq<u8>, page: nat, data: seq<u8>)
      requires Valid() && |data| == PAGE && PAGE * page + PAGE <= |mem| && goal == Splice(mem, PAGE * page, data)
      requires Prepared(buffer[..], goal, page, PAGE * page)
      modifies buffer, this`current
      ensures Prepared(buffer[..], goal, page, PAGE * page + PAGE)
    {
      var i := 0;
      hide Splice, Prepared, LeU32, ReadU32;
      while i < PAGE
        invariant 0 <= i <= PAGE && i % DWORD == 0
        invariant Prepared(buffer[..], goal, page, PAGE * page + i)
      {
        WordsOf(mem, PAGE * page, data, i);
        StoreWords(goal, page, PAGE * page + i, ReadU32(data[i..i + 4]), ReadU32(data[i + 4..i + DWORD]));
        i := i + DWORD;
      }
    }
  }

  lemma PageWritten(before: seq<u8>, between: seq<u8>, buffer: seq<u8>, now: seq<u8>,
      mem: seq<u8>, goal: seq<u8>, size: nat, first: nat, page: nat, erase: bool)
    requires |before| == |between| == |now| && first <= page
    requires PAGE * page + PAGE <= size || PAGE * page == USER_PAGE
    requires Written(before, mem, goal, size, first, page, erase) && Prepared(buffer, goal, page, PAGE * page + PAGE)
    requires if erase
      then forall a :: 0 <= a < |before| ==>
        between[a] == if PAGE * page <= a < PAGE * page + PAGE then 0xFF else before[a]
      else between == before
    requires forall a :: 0 <= a < |before| ==>
      now[a] == if PAGE * page <= a < PAGE * page + PAGE then And(between[a], buffer[a - PAGE * page]) else between[a]
    ensures Written(now, mem, goal, size, first, page + 1, erase)
  {
    hide And;
    AndFacts();
  }

  lemma WordsOf(mem: seq<u8>, start: nat, data: seq<u8>, i: nat)
    requires i + DWORD <= |data| && start + |data| <= |mem|
    ensures var goal := Splice(mem, start, data);
      && LeU32(ReadU32(data[i..i + 4])) == goal[start + i..start + i + 4]
      && LeU32(ReadU32(data[i + 4..i + DWORD])) == goal[start + i + 4..start + i + DWORD]
  {
    LeU32RoundTrip(0, data[i..i + 4]);
    LeU32RoundTrip(0, data[i + 4..i + DWORD]);
    var goal := Splice(mem, start, data);
    assert goal[start + i..start + i + 4] == data[i..i + 4];
    assert goal[start + i + 4..start + i + DWORD] == data[i + 4..i + DWORD];
  }

  lemma Replaced(mem: seq<u8>, erased: seq<u8>, buffer: seq<u8>, now: seq<u8>, page: nat, data: seq<u8>)
    requires |now| == |erased| == |mem| && |data| == PAGE && PAGE * page + PAGE <= |mem|
    requires Prepared(buffer, Splice(mem, PAGE * page, data), page, PAGE * page + PAGE)
    requires forall a :: 0 <= a < |mem| ==>
      erased[a] == if PAGE * page <= a < PAGE * page + PAGE then 0xFF else mem[a]
    requires forall a :: 0 <= a < |mem| ==>
      now[a] == if PAGE * page <= a < PAGE * page + PAGE then And(erased[a], buffer[a - PAGE * page]) else erased[a]
    ensures now == Splice(mem, PAGE * page, data)
  {
    hide And;
    AndFacts();
  }

  /** Before anything is written, and over addresses where there is no memory. */
  lemma NothingWritten(mem: seq<u8>, goal: seq<u8>, size: nat, first: nat, done: nat, erase: bool)
    requires |mem| == |goal| && (first == done || (size <= PAGE * first && PAGE * done <= USER_PAGE))
    ensures Written(mem, mem, goal, size, first, done, erase)
  {
  }

  lemma WrittenIsProgrammed(
      now: seq<u8>, mem: seq<u8>, size: nat, dst: nat, src: seq<u8>, first: nat, done: nat, erase: bool)
    requires dst + |src| <= |mem| && Written(now, mem, Splice(mem, dst, src), size, first, done, erase)
    requires PAGE * first <= dst
    requires forall a :: dst <= a < dst + |src| && Mapped(size, a) ==> a < PAGE * done
    ensures now == Programmed(mem, size, dst, src, erase)
  {
    hide And;
    AndFacts();
  }

  lemma ErasedHolds(mem: seq<u8>, size: nat, at: nat, data: seq<u8>)
    requires at + |data| <= |mem| && (at + |data| <= size || USER_PAGE <= at)
    ensures Programmed(mem, size, at, data, true) == Splice(mem, at, data)
  {
    hide And;
  }

  /** Without an erase the data is what the flash holds afterwards if and only if no bit had to be set. */
  lemma ProgrammedIff(mem: seq<u8>, size: nat, at: nat, data: seq<u8>)
    requires at + |data| <= |mem| && (at + |data| <= size || USER_PAGE <= at)
    ensures Programmed(mem, size, at, data, false) == Splice(mem, at, data)
      <==> forall i :: 0 <= i < |data| ==> And(mem[at + i], data[i]) == data[i]
    ensures Programmed(mem, size, at, data, true) == Splice(mem, at, data)
  {
    hide And;
    ErasedHolds(mem, size, at, data);
    var p, s := Programmed(mem, size, at, data, false), Splice(mem, at, data);
    if p == s {
      forall i | 0 <= i < |data| ensures And(mem[at + i], data[i]) == data[i] {
        assert p[at + i] == s[at + i];
      }
    }
  }
}
