/** The polling bootloader itself: its global variables, its staging buffers and its loop. */
module LegacyBootloader {
  import opened Alignment
  import opened Bytes
  import opened Framing
  import opened R = Responses
  import opened LegacyMachine
  import BM = BootloaderMachine
  import FC = FlashController
  import Crc

  class LegacyBootloader {
    const fc: FC.FlashController
    const tx: array<u8>
    const rx: array<u8>
    const env: Env
    var escape: bool
    var txPtr: nat
    var txLeft: nat
    var rxPtr: nat
    var change: Change
    var newBaud: u32
    var oldBaud: u32
    var baud: u32
    /** What went out, as the transmitter saw it. */
    var sent: seq<Sent>

    ghost predicate Valid()
      reads this, fc
    {
      && fc.Valid() && fc.size == FLASH_SIZE && ValidEnv(env)
      && tx.Length == TXBUFSZ && rx.Length == RXBUFSZ && tx != rx
      && tx != fc.flash && tx != fc.buffer && rx != fc.flash && rx != fc.buffer
      && txPtr + txLeft <= TXBUFSZ && rxPtr <= RXBUFSZ
    }

    ghost function View(): (s: Station)
      requires Valid()
      reads this, fc, fc.flash, tx, rx
      ensures ValidStation(s)
    {
      Station(escape, tx[..], txPtr, txLeft, rx[..], rxPtr, change, newBaud, oldBaud, baud,
        fc.flash[..FLASH_SIZE], fc.flash[FC.USER_PAGE..], sent)
    }

    /** `bl_init`, with the flash as it is. */
    constructor (fc: FC.FlashController, env: Env)
      requires fc.Valid() && fc.size == FLASH_SIZE && ValidEnv(env)
      ensures Valid() && this.fc == fc && this.env == env
      ensures View() == Station(false, tx[..], 0, 0, rx[..], 0, Idle, 0, 0, 115200,
        fc.flash[..FLASH_SIZE], fc.flash[FC.USER_PAGE..], [])
    {
      this.fc, this.env := fc, env;
      tx := new u8[TXBUFSZ](_ => 0);
      rx := new u8[RXBUFSZ](_ => 0);
      escape, txPtr, txLeft, rxPtr := false, 0, 0, 0;
      change, newBaud, oldBaud, baud := Idle, 0, 0, 115200;
      sent := [];
    }

    // ---- staging ---------------------------------------------------------------------

    method CatByte(v: u8)
      requires Valid() && txPtr == 0 && txLeft < TXBUFSZ - 1
      modifies this`txLeft, tx
      ensures Valid()
      ensures txLeft == old(txLeft) + |EscapeByte(v)| <= TXBUFSZ
      ensures tx[..] == Splice(old(tx[..]), old(txLeft), EscapeByte(v))
    {
      if v == ESCAPE_CHAR {
        tx[txLeft] := ESCAPE_CHAR;
        txLeft := txLeft + 1;
      }
      tx[txLeft] := v;
      txLeft := txLeft + 1;
    }

    /** Escaped bytes are added while two are free. */
    method EscapeCat(dat: seq<u8>)
      requires Valid() && txPtr == 0
      modifies this`txLeft, tx
      ensures Valid()
      ensures BM.Filled(tx[..], old(tx[..]), old(txLeft), dat, Taken(dat, old(txLeft)), txLeft)
    {
      ghost var orig, start := tx[..], txLeft;
      BM.FillStarts(orig, start, dat);
      var i := 0;
      hide BM.Filled, Taken, EscapeByte, Splice;
      while i < |dat| && txLeft < TXBUFSZ - 1
        invariant 0 <= i <= |dat| && Valid() && txPtr == 0
        invariant BM.Filled(tx[..], orig, start, dat, i, txLeft)
      {
        FilledNext(tx[..], orig, start, dat, i, txLeft);
        CatByte(dat[i]);
        i := i + 1;
      }
      BM.FillStops(tx[..], orig, start, dat, i, txLeft);
      TakenIs(dat, start);
    }

    /** A header, and the data as far as it fits. */
    method EscapeSet(dat: seq<u8>, cmd: u8)
      requires Valid()
      modifies this`txPtr, this`txLeft, tx
      ensures Valid() && View() == Stage(old(View()), dat, cmd)
    {
      ghost var orig := tx[..];
      txPtr := 0;
      txLeft := 2;
      tx[0] := ESCAPE_CHAR;
      tx[1] := cmd;
      ghost var headed := tx[..];
      if |dat| > 0 {
        EscapeCat(dat);
      } else {
        BM.FillStarts(headed, 2, dat);
        TakenNothing();
      }
      StagedIs(orig, headed, dat, cmd, tx[..], txLeft);
      hide Stage;
    }

    method Answer(cmd: u8)
      requires Valid()
      modifies this`txPtr, this`txLeft, tx
      ensures Valid() && View() == LegacyMachine.Answer(old(View()), cmd)
    {
      EscapeSet([], cmd);
    }

    // ---- the receive buffer --------------------------------------------------------------

    method RxWord(offset: nat) returns (v: u32)
      requires Valid() && offset + 4 <= RXBUFSZ
      ensures LeU32(v) == rx[offset..offset + 4] && v == RxU32(View(), offset)
    {
      LeU32RoundTrip(0, rx[offset..offset + 4]);
      var value: nat := rx[offset];
      value := value + 0x100 * (rx[offset + 1] as nat);
      value := value + 0x1_0000 * (rx[offset + 2] as nat);
      v := value + 0x100_0000 * (rx[offset + 3] as nat);
    }

    method RxHalf(offset: nat) returns (v: u16)
      requires Valid() && offset + 2 <= RXBUFSZ
      ensures LeU16(v) == rx[offset..offset + 2] && v == RxU16(View(), offset)
    {
      LeU16RoundTrip(0, rx[offset..offset + 2]);
      v := (rx[offset] as nat) + 0x100 * (rx[offset + 1] as nat);
    }

    // ---- commands ---------------------------------------------------------------------------

    method Reset()
      requires Valid()
      modifies this`txLeft, this`rxPtr
      ensures Valid() && View() == LegacyMachine.Reset(old(View()))
    {
      txLeft := 0;
      rxPtr := 0;
    }

    method ErasePageCommand()
      requires Valid()
      modifies this`txPtr, this`txLeft, tx, fc.flash
      ensures Valid() && View() == EPage(old(View()))
    {
      hide LegacyMachine.Answer, Splice;
      if rxPtr != 4 {
        Answer(RES_BADARGS);
        return;
      }
      var address := RxWord(0);
      if BadPage(address) {
        Answer(RES_BADADDR);
        return;
      }
      ghost var mem := fc.flash[..];
      PageFits(address);
      ArraySpliced(mem, address, seq(PAGE, _ => 0xFF));
      var erased := fc.QuickPageRead(address / PAGE);
      if erased {
        ErasedAlready(mem, address);
        Answer(RES_OK);
        return;
      }
      fc.ErasePage(address / PAGE);
      ErasedNow(mem, fc.flash[..], address);
      Answer(RES_OK);
    }

    method WritePageCommand()
      requires Valid()
      modifies this`txPtr, this`txLeft, tx, fc.flash, fc.buffer, fc`current
      ensures Valid() && View() == WPage(old(View()))
    {
      hide LegacyMachine.Answer, Splice;
      if rxPtr != 512 + 4 {
        Answer(RES_BADARGS);
        return;
      }
      var address := RxWord(0);
      if BadPage(address) {
        Answer(RES_BADADDR);
        return;
      }
      PageFits(address);
      ArraySpliced(fc.flash[..], address, rx[4..516]);
      fc.ReplacePage(address / PAGE, rx[4..516]);
      Answer(RES_OK);
    }

    method CrcRxCommand()
      requires Valid()
      modifies this`txPtr, this`txLeft, tx
      ensures Valid() && View() == CrcRx(old(View()))
    {
      hide Stage, Crc.Crc32, Crc.RegisterBytes;
      var rv: seq<u8>;
      if rxPtr == 0 {
        rv := [0xFF, 0xFF, 0xFF, 0xFF];
      } else {
        var crc := Crc.LegacyCrc32(0, rx[..rxPtr]);
        assert rx[..][..rxPtr] == rx[..rxPtr];
        rv := Crc.RegisterBytes(crc);
      }
      EscapeSet(LeU16(rxPtr) + rv, RES_CRCRX);
    }

    method ReadRangeCommand()
      requires Valid()
      modifies this`txPtr, this`txLeft, tx
      ensures Valid() && View() == RRange(env, old(View()))
    {
      hide Stage, LegacyMachine.Answer;
      if rxPtr != 6 {
        Answer(RES_BADARGS);
        return;
      }
      var len := RxHalf(4);
      if len >= TXBUFSZ / 2 {
        Answer(RES_BADARGS);
        return;
      }
      var address := RxWord(0);
      if (address + len) % 0x1_0000_0000 > ALLOWED_FLASH_CEILING + 1 {
        Answer(RES_BADADDR);
        return;
      }
      EscapeSet(BytesAt(env, fc.flash[..FLASH_SIZE], address, len), RES_RRANGE);
    }

    method SetAttrCommand()
      requires Valid()
      modifies this`txPtr, this`txLeft, tx, fc.flash, fc.buffer, fc`current
      ensures Valid() && View() == SAttr(old(View()))
    {
      hide LegacyMachine.Answer, Splice;
      var vlen: nat := rx[9];
      if rxPtr != 10 + vlen {
        Answer(RES_BADARGS);
        return;
      }
      var idx: nat := rx[0];
      if idx >= 16 || vlen >= 56 {
        Answer(RES_BADADDR);
        return;
      }
      ReplaceInPage(idx, AttributeData(rx[1..9], rx[10..10 + vlen]));
      Answer(RES_OK);
    }

    /** The attribute's page is read, changed and written back. */
    method ReplaceInPage(idx: nat, data: seq<u8>)
      requires Valid() && idx < 16 && |data| <= SLOT
      modifies fc.flash, fc.buffer, fc`current
      ensures Valid() && View() == old(View()).(flash := Splice(old(fc.flash[..FLASH_SIZE]), AttributeAt(idx), data))
    {
      hide Splice;
      var address: nat := idx * 64 + ATTRIBUTE_FLOOR;
      var page := address / PAGE;
      SlotFits(idx);
      ghost var mem := fc.flash[..];
      var buf := Patched(fc.flash[PAGE * page..PAGE * page + PAGE], (idx % 8) * 64, data);
      fc.ReplacePage(page, buf);
      SpliceOfSplice(mem, PAGE * page, PAGE, (idx % 8) * 64, data);
      ArraySpliced(mem, address, data);
    }

    /** The copy loops into the page buffer. */
    static method Patched(page: seq<u8>, at: nat, data: seq<u8>) returns (buf: seq<u8>)
      requires at + |data| <= |page|
      ensures buf == Splice(page, at, data)
    {
      buf := page;
      for i := 0 to |data|
        invariant |buf| == |page|
        invariant forall k :: 0 <= k < |page| ==> buf[k] == if at <= k < at + i then data[k - at] else page[k]
      {
        buf := buf[at + i := data[i]];
      }
    }

    method GetAttrCommand()
      requires Valid()
      modifies this`txPtr, this`txLeft, tx
      ensures Valid() && View() == GAttr(old(View()))
    {
      hide LegacyMachine.Answer, Stage;
      if rxPtr != 1 {
        Answer(RES_BADARGS);
        return;
      }
      if rx[0] >= 16 {
        Answer(RES_BADADDR);
        return;
      }
      var address: nat := (rx[0] as int) * 64 + ATTRIBUTE_FLOOR;
      FlashSlice(fc.flash[..], address, 64);
      EscapeSet(fc.flash[address..address + 64], RES_GATTR);
    }

    method CrcIfCommand()
      requires Valid()
      modifies this`txPtr, this`txLeft, tx
      ensures Valid() && View() == CrcIf(old(View()))
    {
      hide LegacyMachine.Answer, Stage, Crc.Crc32, Crc.RegisterBytes;
      if rxPtr != 8 {
        Answer(RES_BADARGS);
        return;
      }
      var base := RxWord(0);
      var len := RxWord(4);
      if base >= ALLOWED_FLASH_CEILING || (base + len) % 0x1_0000_0000 > ALLOWED_FLASH_CEILING + 1 || len >= 512 * 1024 {
        Answer(RES_BADADDR);
        return;
      }
      CrcRangeFits(base, len);
      var rv := FlashCrc(base, len);
      EscapeSet(rv, RES_CRCIF);
    }

    method FlashCrc(base: nat, len: nat) returns (rv: seq<u8>)
      requires Valid() && base + len <= FLASH_SIZE
      ensures rv == Crc.RegisterBytes(Crc.Crc32(0, fc.flash[..FLASH_SIZE][base..base + len]))
    {
      hide Crc.Crc32, Crc.RegisterBytes;
      var crc := Crc.LegacyCrc32(0, fc.flash[base..base + len]);
      FlashSlice(fc.flash[..], base, len);
      rv := Crc.RegisterBytes(crc);
    }

    /** The user page is erased and written from the page buffer, its second word stored first. */
    method WriteUserCommand()
      requires Valid()
      modifies this`txPtr, this`txLeft, tx, fc.flash, fc.buffer, fc`current
      ensures Valid() && View() == WUser(old(View()))
    {
      hide LegacyMachine.Answer;
      if rxPtr != 8 {
        Answer(RES_BADARGS);
        return;
      }
      fc.EraseUserPage();
      fc.ClearPageBuffer();
      StoreUserWords();
      ghost var erased, buffer := fc.flash[..], fc.buffer[..];
      fc.WriteUserPage();
      UserWritten(old(fc.flash[..]), erased, buffer, fc.flash[..], rx[4..8] + rx[0..4]);
      Answer(RES_OK);
    }

    /** The two words go into a clear page buffer, over words of ones. */
    method StoreUserWords()
      requires Valid() && rxPtr == 8 && forall j :: 0 <= j < PAGE ==> fc.buffer[j] == 0xFF
      modifies fc.buffer, fc`current
      ensures forall j :: 0 <= j < PAGE ==>
        fc.buffer[j] == if j < 4 then rx[4 + j] else if j < 8 then rx[j - 4] else 0xFF
    {
      hide FC.And, PageOf;
      FC.AndFacts();
      UserPageOf();
      fc.Store(FC.USER_PAGE + 4, seq(4, _ => 0xFF));
      fc.Store(FC.USER_PAGE, seq(4, _ => 0xFF));
      var first := RxWord(0);
      fc.Store(FC.USER_PAGE + 4, LeU32(first));
      var second := RxWord(4);
      fc.Store(FC.USER_PAGE, LeU32(second));
    }

    method ChangeBaudCommand()
      requires Valid()
      modifies this`txPtr, this`txLeft, this`change, this`newBaud, tx
      ensures Valid() && View() == ChangeBaud(old(View()))
    {
      hide LegacyMachine.Answer;
      if rxPtr < 5 {
        Answer(RES_BADARGS);
        return;
      }
      if rxPtr == 5 && rx[0] == SUBCMD_NEW {
        if change != Idle {
          Answer(RES_INTERROR);
          return;
        }
        change := Changing;
        newBaud := RxWord(1);
        Answer(RES_OK);
      } else if rxPtr == 10 && rx[5] == SUBCMD_CONFIRM {
        if change != Waiting {
          Answer(RES_INTERROR);
          return;
        }
        var claimed := RxWord(6);
        if claimed == baud {
          change := Idle;
          Answer(RES_OK);
        } else {
          change := Resetting;
          Answer(RES_CHANGE_BAUD_FAIL);
        }
      } else if change == Waiting {
        change := Resetting;
        Answer(RES_CHANGE_BAUD_FAIL);
      } else {
        Answer(RES_INTERROR);
      }
    }

    /** `bl_cmd` */
    method Command(b: u8)
      requires Valid()
      modifies this, tx, fc.flash, fc.buffer, fc`current
      ensures Valid() && View() == Execute(env, old(View()), b)
    {
      hide LegacyMachine.Answer, Stage, EPage, WPage, CrcRx, RRange, SAttr, GAttr, CrcIf, WUser, ChangeBaud;
      if change == Waiting && b != CMD_CHANGE_BAUD {
        change := Resetting;
        Answer(RES_CHANGE_BAUD_FAIL);
        return;
      }
      match b {
        case 0x01 => Answer(RES_PONG);
        case 0x03 => EscapeSet(env.info, RES_INFO);
        case 0x04 =>
        case 0x05 => Reset();
        case 0x06 => ErasePageCommand();
        case 0x07 => WritePageCommand();
        case 0x10 => CrcRxCommand();
        case 0x11 => ReadRangeCommand();
        case 0x13 => SetAttrCommand();
        case 0x14 => GetAttrCommand();
        case 0x15 => CrcIfCommand();
        case 0x20 => WriteUserCommand();
        case 0x21 => ChangeBaudCommand();
        case _ => Answer(RES_UNKNOWN);
      }
    }

    // ---- the loop -------------------------------------------------------------------------------

    method KeepByte(b: u8)
      requires Valid() && rxPtr < RXBUFSZ
      modifies this`rxPtr, rx
      ensures Valid() && View() == Keep(old(View()), b)
    {
      rx[rxPtr] := b;
      rxPtr := rxPtr + 1;
    }

    /** `bl_rxb` */
    method ReceiveByte(b: u8)
      requires Valid() && rxPtr < RXBUFSZ
      modifies this, tx, rx, fc.flash, fc.buffer, fc`current
      ensures Valid() && View() == LegacyMachine.ReceiveByte(env, old(View()), b)
    {
      hide Execute;
      if escape && b == ESCAPE_CHAR {
        escape := false;
        KeepByte(b);
      } else if escape {
        Command(b);
        escape := false;
      } else if b == ESCAPE_CHAR {
        escape := true;
      } else if change == Waiting && rxPtr > 10 {
        Command(0);
      } else {
        KeepByte(b);
      }
    }

    method ReceivePart(received: Option<u8>)
      requires Valid()
      modifies this, tx, rx, fc.flash, fc.buffer, fc`current
      ensures Valid() && View() == Receive(env, old(View()), received)
    {
      hide LegacyMachine.ReceiveByte;
      match received {
        case None =>
        case Some(b) =>
          if rxPtr >= RXBUFSZ {
            txPtr := 0;
            txLeft := 1;
            tx[0] := RES_OVERFLOW;
          } else {
            ReceiveByte(b);
          }
      }
    }

    method ChangeRate()
      requires Valid()
      modifies this`oldBaud, this`baud
      ensures Valid() && View() == old(View()).(oldBaud := old(baud), baud := newBaud)
    {
      oldBaud := baud;
      baud := newBaud;
    }

    method ResetRate()
      requires Valid()
      modifies this`oldBaud, this`baud
      ensures Valid() && View() == old(View()).(baud := old(oldBaud), oldBaud := 0)
    {
      baud := oldBaud;
      oldBaud := 0;
    }

    method SendPart()
      requires Valid()
      modifies this
      ensures Valid() && View() == Send(old(View()))
    {
      if txLeft > 0 {
        sent := sent + [Sent(tx[txPtr], baud)];
        txPtr := txPtr + 1;
        txLeft := txLeft - 1;
      } else if change == Changing {
        change := Waiting;
        ChangeRate();
      } else if change == Resetting {
        change := Idle;
        ResetRate();
      }
    }

    /** `bl_loop_poll` */
    method LoopPoll(e: Event)
      requires Valid()
      modifies this, tx, rx, fc.flash, fc.buffer, fc`current
      ensures Valid() && View() == Poll(env, old(View()), e)
    {
      hide Receive, Send;
      ReceivePart(e.rx);
      if e.txReady {
        SendPart();
      }
    }
  }

  lemma FilledNext(b: seq<u8>, orig: seq<u8>, start: nat, dat: seq<u8>, i: nat, left: nat)
    requires BM.Filled(b, orig, start, dat, i, left) && i < |dat| && left < |orig| - 1
    ensures left + |EscapeByte(dat[i])| <= |b|
    ensures BM.Filled(Splice(b, left, EscapeByte(dat[i])), orig, start, dat, i + 1, left + |EscapeByte(dat[i])|)
  {
    BM.FillMore(dat, i, left, |orig|, orig, start);
  }

  lemma TakenIs(dat: seq<u8>, left: nat)
    ensures Taken(dat, left) == BM.FillCount(dat, left, TXBUFSZ)
  {
  }

  lemma TakenNothing()
    ensures Taken([], 2) == 0
  {
  }

  /** The header and the data make up the response. */
  lemma StagedIs(orig: seq<u8>, headed: seq<u8>, dat: seq<u8>, cmd: u8, after: seq<u8>, left: nat)
    requires |orig| == |headed| == TXBUFSZ && headed == orig[0 := ESCAPE_CHAR][1 := cmd]
    requires BM.Filled(after, headed, 2, dat, Taken(dat, 2), left)
    ensures var out := ResponseFrame(cmd, dat[..Taken(dat, 2)]);
      left == |out| && |out| <= TXBUFSZ && after == Splice(orig, 0, out)
  {
    hide Taken, Escape;
    var body := Escape(dat[..Taken(dat, 2)]);
    assert [ESCAPE_CHAR, cmd] + body == ResponseFrame(cmd, dat[..Taken(dat, 2)]);
  }

  lemma FlashSlice(mem: seq<u8>, at: nat, n: nat)
    requires |mem| == FC.SPACE && at + n <= FLASH_SIZE
    ensures mem[..FLASH_SIZE][at..at + n] == mem[at..at + n]
  {
  }

  lemma CrcRangeFits(base: u32, len: u32)
    requires base < ALLOWED_FLASH_CEILING && (base + len) % 0x1_0000_0000 <= ALLOWED_FLASH_CEILING + 1
    requires len < FLASH_SIZE
    ensures base + len <= FLASH_SIZE
  {
  }

  /** Stored in the flash array, nothing changes in the user page. */
  lemma ArraySpliced(mem: seq<u8>, at: nat, data: seq<u8>)
    requires |mem| == FC.SPACE && at + |data| <= FLASH_SIZE
    ensures Splice(mem, at, data)[..FLASH_SIZE] == Splice(mem[..FLASH_SIZE], at, data)
    ensures Splice(mem, at, data)[FC.USER_PAGE..] == mem[FC.USER_PAGE..]
  {
  }

  lemma UserPageOf()
    ensures PageOf(FC.USER_PAGE) == PageOf(FC.USER_PAGE + 4) == FC.USER_PAGE / PAGE
    ensures PAGE * (FC.USER_PAGE / PAGE) == FC.USER_PAGE
  {
  }

  lemma UserWritten(mem: seq<u8>, erased: seq<u8>, buffer: seq<u8>, now: seq<u8>, words: seq<u8>)
    requires |mem| == |erased| == |now| == FC.SPACE && |buffer| == PAGE && |words| == 8
    requires forall a :: 0 <= a < |mem| ==> erased[a] == if FC.USER_PAGE <= a then 0xFF else mem[a]
    requires forall j :: 0 <= j < PAGE ==> buffer[j] == if j < 8 then words[j] else 0xFF
    requires forall a :: 0 <= a < |mem| ==>
      now[a] == if FC.USER_PAGE <= a then FC.And(erased[a], buffer[a - FC.USER_PAGE]) else erased[a]
    ensures now[..FLASH_SIZE] == mem[..FLASH_SIZE]
    ensures now[FC.USER_PAGE..] == words + seq(USER_PAGE_SIZE - 8, _ => 0xFF)
  {
    hide FC.And;
    FC.AndFacts();
  }

  lemma SlotFits(idx: nat)
    requires idx < 16
    ensures var address := idx * 64 + ATTRIBUTE_FLOOR;
      && address == AttributeAt(idx) && PAGE * (address / PAGE) + (idx % 8) * 64 == address
      && PAGE * (address / PAGE) + PAGE <= FLASH_SIZE && (idx % 8) * 64 + 64 <= PAGE
  {
    assert idx == 8 * (idx / 8) + idx % 8;
    assert idx * 64 + ATTRIBUTE_FLOOR == PAGE * (3 + idx / 8) + (idx % 8) * 64;
  }

  lemma ErasedAlready(mem: seq<u8>, address: nat)
    requires address + PAGE <= |mem|
    requires forall a :: address <= a < address + PAGE ==> mem[a] == 0xFF
    ensures Splice(mem, address, seq(PAGE, _ => 0xFF)) == mem
  {
  }

  lemma ErasedNow(mem: seq<u8>, now: seq<u8>, address: nat)
    requires |mem| == |now| && address + PAGE <= |mem|
    requires forall a :: 0 <= a < |mem| ==> now[a] == if address <= a < address + PAGE then 0xFF else mem[a]
    ensures now == Splice(mem, address, seq(PAGE, _ => 0xFF))
  {
  }
}
