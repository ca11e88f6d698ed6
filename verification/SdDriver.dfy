/** The block driver: sectors read and written over the SPI bus. */
module SdDriver {
  import opened Bytes
  import opened SdCards

  datatype DResult = ResOk | ResError | ResNotReady

  const PATIENCE := 1000   // bytes a good card needs at most

  /** The card keeps the host waiting. */
  predicate Stalls(c: Card, d: Byte) { c.selected && (c.busy || (c.phase.Reading? && d == IDLE_LINE)) }

  /** The card answers a command with an error, reports a read error, or does
      not accept a block. */
  predicate Refuses(c: Card, d: Byte) {
    c.selected && !c.busy &&
    match c.phase
    case Respond(stuff, wait, r, _) => !stuff && wait == 0 && r != 0
    case Reading(_, _) => d != IDLE_LINE && d != DATA_TOKEN
    case Verdict(_, _, _) => d % 0x20 != 5
    case _ => false
  }

  /** The card takes the next byte for the start of a command. */
  predicate Listens(c: Card) { c.selected && !c.busy && (c.phase.Ready? || c.phase.Reading?) }

  predicate HearsTokens(c: Card) { c.selected && !c.busy }

  /** A multiple-block write waits for a token. */
  predicate Open(c: Card) { c.phase.Receiving? && c.phase.multi }

  /** The same, or the card has begun to take a block. */
  predicate WriteOpen(c: Card) { (c.phase.Receiving? || c.phase.Taking?) && c.phase.multi }

  /** What a command wants of the card. */
  predicate CanIssue(c: Card, cmd: nat) { if cmd == CMD12 then Listens(c) else c.phase.Ready? }

  predicate BlockDue(c: Card, lba: nat, multi: bool) { c.selected && !c.busy && c.phase == Reading(lba, multi) }

  predicate BlockStarted(c: Card, lba: nat, multi: bool) {
    c.selected && !c.busy && c.phase == Sending(lba, multi, 0) && lba < |c.mem|
  }

  predicate TokenDue(c: Card, token: Byte, lba: nat, multi: bool) {
    && c.selected && c.phase == Receiving(lba, multi)
    && (token == (if multi then MULTI_TOKEN else DATA_TOKEN) || (multi && token == STOP_TOKEN))
  }

  /** The bytes of a command argument, in the order they are sent. */
  function ArgumentBytes(arg: nat): (f: seq<Byte>)
    requires arg < DWORD_VALUES
    ensures |f| == 4
  {
    [arg / 0x100_0000, arg / 0x1_0000 % 0x100, arg / 0x100 % 0x100, arg % 0x100]
  }

  /** A card that waits for a token hears no stop token in the argument: a stop
      byte comes, if at all, behind one that starts a block. */
  predicate Deaf(arg: nat)
    requires arg < DWORD_VALUES
  {
    var f := ArgumentBytes(arg);
    forall i :: 0 <= i < 4 && f[i] == STOP_TOKEN ==> MULTI_TOKEN in f[..i]
  }

  /** An open write has gone on at most by taking some of `n` bytes for data. */
  predicate Unheard(c: Card, e: Card, n: nat)
    requires Open(c)
  {
    && e == c.(phase := e.phase)
    && (e.phase == c.phase ||
        (e.phase.Taking? && e.phase.multi && e.phase.lba == c.phase.lba && |e.phase.data| <= n))
  }

  /** The command was not carried out: the write is as open as before. */
  predicate NotHeard(c: Card, e: Card) {
    && e == c.(selected := e.selected, busy := e.busy, phase := e.phase)
    && WriteOpen(e) && Released(e).phase == Released(c).phase
  }

  class Driver {
    var card: Card         // the other end of the bus
    var noInit: bool       // status: not initialised
    var noDisk: bool       // status: no card in the slot
    const isBlock: bool    // card type: addressed by blocks
    const isSd: bool       // card type: an SD card
    ghost var lag: nat     // bytes in a row for which the card kept the host waiting
    ghost var trouble: nat // times it refused, reported an error or kept it waiting too long

    /** An initialised card of the type found. */
    constructor (c: Card, sd: bool)
      requires c.phase.Ready? && c.erase == 0
      ensures Idle() && card == c && isSd == sd && !noInit && !noDisk
    {
      card, isBlock, isSd := c, c.block, sd;
      noInit, noDisk := false, false;
      lag, trouble := 0, 0;
    }

    /** No transfer is open, and no blocks are announced. */
    predicate Idle()
      reads this
    {
      card.phase.Ready? && card.block == isBlock && card.erase == 0
    }

    /** A multiple-block write still waits for its stop token. */
    predicate StillOpen()
      reads this
    {
      Open(card) && card.block == isBlock && card.erase == 0
    }

    /** Clocks one byte each way. */
    method Exchange(out: Byte) returns (d: Byte, ghost ch: Choice)
      modifies this`card, this`lag, this`trouble
      ensures trouble >= old(trouble)
      ensures (card, d) == React(old(card), out, ch)
      ensures lag == if Stalls(old(card), d) then old(lag) + 1 else 0
      ensures trouble == old(trouble) + if Refuses(old(card), d) || lag >= PATIENCE then 1 else 0
    {
      var choice: Choice := *;
      var c;
      c, d := React(card, out, choice).0, React(card, out, choice).1;
      lag := if Stalls(card, d) then lag + 1 else 0;
      trouble := trouble + if Refuses(card, d) || lag >= PATIENCE then 1 else 0;
      card, ch := c, choice;
    }

    method Receive() returns (d: Byte, ghost ch: Choice)
      modifies this`card, this`lag, this`trouble
      ensures trouble >= old(trouble)
      ensures (card, d) == React(old(card), IDLE_LINE, ch)
      ensures lag == if Stalls(old(card), d) then old(lag) + 1 else 0
      ensures trouble == old(trouble) + if Refuses(old(card), d) || lag >= PATIENCE then 1 else 0
    {
      d, ch := Exchange(IDLE_LINE);
    }

    /** Listening for a command or a token, perhaps still busy. */
    predicate Waiting()
      reads this
    {
      card.selected && (card.phase.Ready? || card.phase.Receiving?)
    }

    method WaitReady() returns (ok: bool)
      modifies this`card, this`lag, this`trouble
      ensures trouble >= old(trouble)
      ensures old(Waiting()) ==> card == old(card).(busy := card.busy)
      ensures old(Waiting()) ==> if ok then !card.busy else trouble > old(trouble) && old(card).busy
    {
      ghost var w := Waiting();
      var tmr := 5000;
      while tmr > 0
        invariant 0 <= tmr <= 5000 && trouble >= old(trouble)
        invariant w ==> card == old(card).(busy := card.busy)
        invariant w && (tmr < 5000 || card.busy) ==> old(card).busy
        invariant w ==> lag >= 5000 - tmr && (tmr <= 4000 ==> trouble > old(trouble))
      {
        var d, _ := Receive();
        if d == IDLE_LINE { break; }
        tmr := tmr - 1;
      }
      ok := tmr > 0;
    }

    method Deselect()
      modifies this`card, this`lag, this`trouble
      ensures trouble >= old(trouble)
      ensures card == Released(old(card))
    {
      card := Released(card);
      var _, _ := Receive();
    }

    method Select() returns (ok: bool)
      modifies this`card, this`lag, this`trouble
      ensures trouble >= old(trouble)
      ensures old(card).phase.Ready? || Open(old(card)) ==>
                && card == old(card).(selected := ok, busy := card.busy)
                && if ok then !card.busy else trouble > old(trouble) && old(card).busy
    {
      card := card.(selected := true);
      var _, _ := Receive();
      ok := WaitReady();
      if !ok { Deselect(); }
    }

    // ---- commands ---------------------------------------------------------

    /** Clocks a command frame out. A card that listens carries it out at the last
        byte; one that waits for a token hears none in it if it is `Deaf` to it. */
    method SendFrame(cmd: nat, arg: nat) returns (ghost r: Byte, ghost junk: seq<Sector>, ghost wait: nat)
      requires cmd < 0x40 && arg < DWORD_VALUES
      modifies this`card, this`lag, this`trouble
      ensures trouble >= old(trouble)
      ensures Listens(old(card)) ==>
                && r < 0x80 && wait <= 8 && Sensible(old(card), cmd, arg, r)
                && card == Answering(old(card), cmd, arg, r, junk, wait)
      ensures HearsTokens(old(card)) && Open(old(card)) && Deaf(arg) ==> Unheard(old(card), card, 6)
    {
      hide Done;
      ghost var listens, deaf := Listens(card), HearsTokens(card) && Open(card) && Deaf(arg);
      var buf: seq<Byte> := [0x40 + cmd, arg / 0x100_0000, arg / 0x1_0000 % 0x100, arg / 0x100 % 0x100, arg % 0x100,
                             if cmd == 0 then 0x95 else if cmd == 8 then 0x87 else 0x01];
      FrameArgument(buf, arg);
      ghost var ch := Choice(0, false, 0, [], false, ZeroSector());
      var d, i := 0, 0;
      assert IsStart(buf[0]) && buf[..1] == [buf[0]];
      while i < 6
        invariant 0 <= i <= 6 && trouble >= old(trouble)
        invariant i == 0 ==> card == old(card)
        invariant listens && 0 < i < 6 ==> card == old(card).(phase := Frame(buf[..i]))
        invariant listens && i == 6 ==> card == Execute(old(card).(phase := Frame(buf[..5])), buf, ch)
        invariant deaf ==> Unheard(old(card), card, i) && (Open(card) ==> MULTI_TOKEN !in buf[..i])
      {
        assert buf[..i + 1] == buf[..i] + [buf[i]];
        if deaf { StopNotHeard(buf, arg, i, Open(card)); }
        d, ch := Exchange(buf[i]);
        i := i + 1;
        assert buf[..6] == buf;
      }
      r := R1(old(card), cmd, arg, ch);
      junk, wait := ch.junk, ch.wait % 9;
      ExecuteIs(old(card), buf, cmd, arg, ch);
    }

    /** A command and its response. Any command but CMD12 waits for the card
        first. A card with an open write does not hear it. */
    method SendCmd(cmd0: nat, arg: nat) returns (d: Byte)
      requires cmd0 % 0x80 < 0x40 && cmd0 < 0x100 && cmd0 != 0x80 + CMD12 && arg < DWORD_VALUES
      modifies this`card, this`lag, this`trouble
      ensures trouble >= old(trouble)
      ensures cmd0 < 0x80 && CanIssue(old(card), cmd0) ==>
                Issued(old(card), cmd0, arg, d, card) && (d != 0 ==> trouble > old(trouble))
      ensures cmd0 == 0x80 + CMD23 && old(card).phase.Ready? && old(card).erase == 0 ==> Announced(old(card), arg, card)
      ensures cmd0 != CMD12 && WriteOpen(old(card)) && (cmd0 >= 0x80 || Deaf(arg)) ==>
                d == IDLE_LINE && NotHeard(old(card), card)
      decreases cmd0
    {
      hide Done, Answering, Released, Deaf, NotHeard, Unheard;
      ghost var can := CanIssue(card, cmd0 % 0x80);
      ghost var open := cmd0 != CMD12 && WriteOpen(card) && (cmd0 >= 0x80 || Deaf(arg));
      DeafToZero();
      var cmd := cmd0;
      if cmd >= 0x80 {
        cmd := cmd - 0x80;
        d := SendCmd(CMD55, 0);
        if can { PrefixDone(old(card), d, card); }
        if d > 1 { return; }
      }
      ghost var c := card;
      if cmd != CMD12 {
        if can { ReadyReleased(card); }
        if open { OpenReleased(card); }
        Deselect();
        var ok := Select();
        if !ok {
          if can && cmd0 == 0x80 + CMD23 && old(card).erase == 0 { SecondDone(old(card), c, arg, IDLE_LINE, card); }
          if open { NotSent(c, card); }
          return IDLE_LINE;
        }
      }
      ghost var s := card;
      ghost var r, junk, wait := SendFrame(cmd, arg);
      d := ReadResponse(s, cmd, arg, r, junk, wait);
      if open { SentUnheard(c, s, card, 17); }
      if can {
        DoneIssued(c, s, cmd, arg, d, junk, card);
        if cmd0 == 0x80 + CMD23 && old(card).erase == 0 { SecondDone(old(card), c, arg, d, card); }
      }
    }

    method ReadResponse(ghost s: Card, cmd: nat, arg: nat, ghost r: Byte, ghost junk: seq<Sector>, ghost wait: nat)
      returns (d: Byte)
      modifies this`card, this`lag, this`trouble
      ensures trouble >= old(trouble)
      ensures Listens(s) && r < 0x80 && wait <= 8 && old(card) == Answering(s, cmd, arg, r, junk, wait) ==>
                d == r && card == Done(s, cmd, arg, r, junk) && (r != 0 ==> trouble > old(trouble))
      ensures HearsTokens(s) && Open(s) && Unheard(s, old(card), 6) ==> d == IDLE_LINE && Unheard(s, card, 17)
    {
      ghost var answers := Listens(s) && r < 0x80 && wait <= 8 && card == Answering(s, cmd, arg, r, junk, wait);
      ghost var deaf := HearsTokens(s) && Open(s) && Unheard(s, card, 6);
      DoneKeeps(s, cmd, arg, r, junk);
      hide Done;
      if cmd == CMD12 { var _, _ := Receive(); }
      ghost var w := wait;
      var n := 10;
      d := 0xFF;
      while n > 0 && d >= 0x80
        invariant 0 <= n <= 10 && trouble >= old(trouble)
        invariant answers && d >= 0x80 ==>
                    var e := Done(s, cmd, arg, r, junk);
                    w < n && card == e.(phase := Respond(false, w, r, e.phase))
        invariant answers && d < 0x80 ==>
                    d == r && card == Done(s, cmd, arg, r, junk) && (r != 0 ==> trouble > old(trouble))
        invariant deaf ==> d == IDLE_LINE && Unheard(s, card, 17 - n)
        decreases n, if d >= 0x80 then 1 else 0
      {
        ghost var ch;
        d, ch := Receive();
        if d >= 0x80 {
          n := n - 1;
          w := if w > 0 then w - 1 else 0;
        }
      }
    }

    // ---- data blocks ------------------------------------------------------

    /** Receives the block that is due. */
    method ReceiveBlock(ghost lba: nat, ghost multi: bool) returns (ok: bool, block: Sector)
      modifies this`card, this`lag, this`trouble
      ensures trouble >= old(trouble)
      ensures BlockDue(old(card), lba, multi) ==>
                && card == old(card).(phase := card.phase)
                && if ok then
                     && lba < |card.mem| && block == card.mem[lba]
                     && card.phase == if multi then Reading(lba + 1, true) else Ready
                   else (card.phase == Reading(lba, multi) || (!multi && card.phase.Ready?)) && trouble > old(trouble)
    {
      ghost var due := BlockDue(card, lba, multi);
      var tmr, d := 1000, IDLE_LINE;
      block := ZeroSector();
      while tmr > 0
        invariant 0 <= tmr <= 1000 && trouble >= old(trouble) && d == IDLE_LINE
        invariant due ==> card == old(card) && lag >= 1000 - tmr && (tmr == 0 ==> trouble > old(trouble))
        decreases tmr
      {
        ghost var ch;
        d, ch := Receive();
        if d != IDLE_LINE { break; }
        tmr := tmr - 1;
      }
      if d != DATA_TOKEN { return false, block; }
      block := ReceiveData(lba, multi);
      var _, _ := Receive();
      var _, _ := Receive();
      ok := true;
    }

    method ReceiveData(ghost lba: nat, ghost multi: bool) returns (block: Sector)
      modifies this`card, this`lag, this`trouble
      ensures trouble >= old(trouble)
      ensures BlockStarted(old(card), lba, multi) ==>
                card == old(card).(phase := Sending(lba, multi, 512)) && block == card.mem[lba]
    {
      ghost var started := BlockStarted(card, lba, multi);
      var buff: seq<Byte> := [];
      while |buff| < 512
        invariant trouble >= old(trouble) && |buff| <= 512
        invariant started ==>
                    card == old(card).(phase := Sending(lba, multi, |buff|)) && buff == card.mem[lba][..|buff|]
      {
        var d, _ := Receive();
        buff := buff + [d];
      }
      block := buff;
      if started { assert block == card.mem[lba]; }
    }

    /** Sends a token, and a block unless it is the stop token. */
    method SendBlock(buff: Sector, token: Byte, ghost lba: nat, ghost multi: bool) returns (ok: bool)
      modifies this`card, this`lag, this`trouble
      ensures trouble >= old(trouble)
      ensures TokenDue(old(card), token, lba, multi) ==>
                && card == old(card).(phase := card.phase, busy := card.busy, mem := card.mem, lost := card.lost)
                && (!ok ==> trouble > old(trouble))
                && (token == STOP_TOKEN || !ok ==> card.mem == old(card).mem && card.lost == old(card).lost)
                && if token == STOP_TOKEN then card.phase == if ok then Ready else Receiving(lba, multi)
                   else if ok then
                     && Programmed(old(card), card, lba, buff)
                     && card.phase == if multi then Receiving(lba + 1, true) else Ready
                   else card.phase == if multi || card.phase.Receiving? then Receiving(lba, multi) else Ready
    {
      ok := WaitReady();
      if !ok { return; }
      var _, _ := Exchange(token);
      if token != STOP_TOKEN {
        SendData(buff, lba, multi);
        var d, _ := Receive();
        if d % 0x20 != 5 { ok := false; }
      }
    }

    /** One block has been accepted; it is on the card exactly if it does not
        count as lost. */
    static ghost predicate Programmed(c: Card, e: Card, lba: nat, buff: Sector) {
      && lba < |c.mem| == |e.mem| && e.mem == c.mem[lba := e.mem[lba]]
      && e.lost == if e.mem[lba] == buff then c.lost else c.lost + 1
    }

    /** Clocks a block and a dummy checksum out. */
    method SendData(buff: Sector, ghost lba: nat, ghost multi: bool)
      modifies this`card, this`lag, this`trouble
      ensures trouble >= old(trouble)
      ensures old(card).selected && !old(card).busy && old(card).phase == Taking(lba, multi, []) ==>
                card == old(card).(phase := Verdict(lba, multi, buff))
    {
      ghost var taking := card.selected && !card.busy && card.phase == Taking(lba, multi, []);
      var i := 0;
      while i < 512
        invariant trouble >= old(trouble) && 0 <= i <= 512
        invariant taking ==> card == old(card).(phase := Taking(lba, multi, buff[..i]))
      {
        var _, _ := Exchange(buff[i]);
        assert buff[..i + 1] == buff[..i] + [buff[i]];
        i := i + 1;
      }
      var _, _ := Receive();
      var _, _ := Receive();
      assert (buff[..512] + [IDLE_LINE])[..512] == buff;
    }

    // ---- the block device -------------------------------------------------

    /** Drive 0 is the only one; the slot tells whether a card is in. */
    method DiskStatus(drv: nat)
      modifies this`noInit, this`noDisk
      ensures noInit == (old(noInit) || drv != 0)
    {
      if drv != 0 { noInit := true; }
      var inserted: bool := *;
      noDisk := !inserted;
    }

    /** What is sent for a sector number: the number, or a byte address. */
    function Address(sector: nat): nat {
      if isBlock then sector else sector * 512 % DWORD_VALUES
    }

    /** Reads `count` sectors. A card that still waits for a stop token answers
        with an error and does not hear of it, if it is deaf to the address. */
    method DiskRead(drv: nat, sector: nat, count: nat) returns (res: DResult, data: seq<Sector>)
      requires sector < DWORD_VALUES && count > 0
      modifies this`card, this`lag, this`trouble, this`noInit, this`noDisk
      ensures trouble >= old(trouble)
      ensures noInit == (old(noInit) || drv != 0) && (res.ResNotReady? <==> noInit)
      ensures res.ResNotReady? ==> card == old(card)
      ensures !res.ResNotReady? ==> !card.selected
      ensures old(Idle()) ==> Idle() && card.mem == old(card).mem && card.lost == old(card).lost
      ensures old(Idle()) && res.ResOk? ==>
                var lba := Target(isBlock, sector);
                lba + count <= |card.mem| && data == card.mem[lba..lba + count]
      ensures old(Idle()) && (isBlock || sector * 512 < DWORD_VALUES) ==>
                DriveReads(card.mem, sector, count, res.ResOk?, data)
      ensures old(Idle()) && res.ResError? ==> trouble > old(trouble)
      ensures old(StillOpen()) && Deaf(Address(sector)) ==>
                !res.ResOk? && StillOpen() && card == old(card).(selected := card.selected, busy := card.busy)
    {
      hide Done, React, Target, Deaf, Released;
      ghost var idle, open := Idle(), StillOpen() && Deaf(Address(sector));
      data := [];
      TargetExact(isBlock, sector);
      DiskStatus(drv);
      if noInit { return ResNotReady, []; }
      var sect := Address(sector);
      TargetIs(isBlock, sector, sect);
      var cmd := if count > 1 then CMD18 else CMD17;
      ghost var lba, c := Target(isBlock, sector), card;
      var d := SendCmd(cmd, sect);
      var left := count;
      if idle { ReadIssued(c, cmd, sect, d, card); }
      if d == 0 {
        data := ReadBlocks(lba, count);
        left := count - |data|;
        if cmd == CMD18 {
          ghost var e := card;
          var stop := SendCmd(CMD12, 0);
          if idle { StopIssued(e, stop, card); }
        }
      }
      EndsReady(card);
      if open { OpenAgain(c, card); }
      SelectedOff(card);
      Deselect();
      res := if left > 0 then ResError else ResOk;
    }

    /** Receives blocks until one fails. */
    method ReadBlocks(ghost lba: nat, count: nat) returns (data: seq<Sector>)
      requires count > 0
      modifies this`card, this`lag, this`trouble
      ensures trouble >= old(trouble) && |data| <= count
      ensures BlockDue(old(card), lba, count > 1) && lba < |old(card).mem| ==>
                && card == old(card).(phase := card.phase)
                && lba + |data| <= |card.mem| && data == card.mem[lba..lba + |data|]
                && (card.phase == Reading(lba + |data|, count > 1) || (count == 1 && card.phase.Ready?))
                && (|data| < count ==> trouble > old(trouble))
    {
      hide React;
      ghost var due := BlockDue(card, lba, count > 1) && lba < |card.mem|;
      data := [];
      var ok := true;
      while ok && |data| < count
        invariant |data| <= count && trouble >= old(trouble)
        invariant due ==> card == old(card).(phase := card.phase)
        invariant due ==> lba + |data| <= |card.mem| && data == card.mem[lba..lba + |data|]
        invariant due ==>
                    || card.phase == Reading(lba + |data|, count > 1)
                    || (count == 1 && card.phase.Ready? && (|data| == count || !ok))
        invariant due && !ok ==> trouble > old(trouble)
        decreases count - |data|, ok
      {
        var block;
        ok, block := ReceiveBlock(lba + |data|, count > 1);
        if ok {
          if due { RunGrows(card.mem, lba, |data|); }
          data := data + [block];
        }
      }
    }

    /** Writes sectors, one by one or as a multiple-block write. Whatever comes of
        it, no other sector changes. A card that still waits for a stop token
        answers with an error, if it is deaf to the address. */
    method DiskWrite(drv: nat, sector: nat, data: seq<Sector>) returns (res: DResult)
      requires sector < DWORD_VALUES && 0 < |data| < DWORD_VALUES
      modifies this`card, this`lag, this`trouble, this`noInit, this`noDisk
      ensures trouble >= old(trouble)
      ensures noInit == (old(noInit) || drv != 0) && (res.ResNotReady? <==> noInit)
      ensures res.ResNotReady? ==> card == old(card)
      ensures !res.ResNotReady? ==> !card.selected
      ensures old(Idle()) ==> Idle() || (res.ResError? && |data| > 1 && StillOpen())
      ensures old(Idle()) && res.ResError? ==> trouble > old(trouble)
      ensures old(Idle()) ==>
                OutsideSame(old(card).mem, card.mem, Target(isBlock, sector), |data|) && card.lost >= old(card).lost
      ensures old(Idle()) && res.ResOk? ==>
                var lba := Target(isBlock, sector);
                && lba + |data| <= |card.mem|
                && (card.mem == Blit(old(card).mem, lba, data) <==> card.lost == old(card).lost)
      ensures old(Idle()) && (isBlock || sector * 512 < DWORD_VALUES) && card.lost == old(card).lost ==>
                DriveWrites(old(card).mem, card.mem, sector, data, res.ResOk?)
      ensures old(StillOpen()) && Deaf(Address(sector)) ==>
                !res.ResOk? && StillOpen() && card == old(card).(selected := card.selected, busy := card.busy)
    {
      hide Done, React, Blit, Landed, OutsideSame, Target, Deaf, Released, DriveWrites;
      ghost var idle, open := Idle(), StillOpen() && Deaf(Address(sector));
      SameOutside(card.mem, Target(isBlock, sector), |data|);
      TargetExact(isBlock, sector);
      DriveRefuses(card.mem, sector, data);
      DiskStatus(drv);
      if noInit { return ResNotReady; }
      var sect := Address(sector);
      TargetIs(isBlock, sector, sect);
      var ok;
      if |data| == 1 {
        assert data == [data[0]];
        ok := WriteOne(sect, data[0]);
      } else {
        ok := WriteMany(sect, data);
      }
      if idle {
        BlitIs(old(card).mem, card.mem, Target(isBlock, sector), data);
        AllLanded(old(card), card, Target(isBlock, sector), data);
        DriveWritten(old(card).mem, card.mem, Target(isBlock, sector), data, ok);
      }
      EndsReady(card);
      if open { OpenAgain(old(card), card); }
      SelectedOff(card);
      Deselect();
      res := if ok then ResOk else ResError;
    }

    method WriteOne(sect: nat, block: Sector) returns (ok: bool)
      requires sect < DWORD_VALUES
      modifies this`card, this`lag, this`trouble
      ensures trouble >= old(trouble)
      ensures old(Idle()) ==>
                && (!ok ==> trouble > old(trouble)) && card.block == isBlock && card.erase == 0
                && Landed(old(card), card, Lba(old(card), sect), [block], if ok then 1 else 0)
                && OutsideSame(old(card).mem, card.mem, Lba(old(card), sect), 1)
                && (card.phase.Ready? || (!ok && card.phase.Receiving? && !card.phase.multi))
      ensures old(StillOpen()) && Deaf(sect) ==> !ok && NotHeard(old(card), card)
    {
      hide Done, React, Deaf;
      ghost var c, idle := card, Idle();
      var d := SendCmd(CMD24, sect);
      if idle { WriteIssued(c, CMD24, sect, d, card); }
      ok := d == 0;
      if idle { NoneLanded(c, card, Lba(c, sect), [block]); }
      if ok {
        ghost var b := card;
        ok := SendBlock(block, DATA_TOKEN, Lba(c, sect), false);
        if idle && ok { OneMore(c, 1, b, card, Lba(c, sect), [block], 0); }
      }
    }

    /** Sends blocks until one fails. */
    method WriteBlocks(data: seq<Sector>, ghost lba: nat, ghost c: Card) returns (i: nat)
      modifies this`card, this`lag, this`trouble
      ensures trouble >= old(trouble) && i <= |data|
      ensures BlocksDue(old(card), lba, data, c) ==>
                && (i < |data| ==> trouble > old(trouble))
                && card.selected && card.phase == Receiving(lba + i, true)
                && card.block == old(card).block && card.erase == old(card).erase
                && OutsideSame(c.mem, card.mem, lba, |data|) && Landed(c, card, lba, data, i)
    {
      ghost var due := BlocksDue(card, lba, data, c);
      hide React, OutsideSame, Landed, Driver.Programmed;
      i := 0;
      var ok := true;
      while ok && i < |data|
        invariant 0 <= i <= |data| && trouble >= old(trouble)
        invariant due ==> card.selected && card.phase == Receiving(lba + i, true)
        invariant due ==> card.block == old(card).block && card.erase == old(card).erase
        invariant due ==> OutsideSame(c.mem, card.mem, lba, |data|) && Landed(c, card, lba, data, i)
        invariant due && !ok ==> trouble > old(trouble)
        decreases |data| - i, ok
      {
        ghost var b := card;
        ok := SendBlock(data[i], MULTI_TOKEN, lba + i, true);
        if due {
          if ok { OneMore(c, |data|, b, card, lba, data, i); } else { SameLanded(c, b, card, lba, data, i); }
        }
        if ok { i := i + 1; }
      }
    }

    method WriteMany(sect: nat, data: seq<Sector>) returns (ok: bool)
      requires sect < DWORD_VALUES && 1 < |data| < DWORD_VALUES
      modifies this`card, this`lag, this`trouble
      ensures trouble >= old(trouble)
      ensures old(Idle()) ==>
                && (!ok ==> trouble > old(trouble)) && card.block == isBlock && card.erase == 0
                && (card.phase.Ready? || (!ok && Open(card)))
                && OutsideSame(old(card).mem, card.mem, Lba(old(card), sect), |data|)
                && SomeLanded(old(card), card, Lba(old(card), sect), data, ok)
      ensures old(StillOpen()) && Deaf(sect) ==> !ok && NotHeard(old(card), card)
    {
      hide Done, React, Landed, OutsideSame, Deaf, NotHeard;
      ghost var c, idle, open := card, Idle(), StillOpen() && Deaf(sect);
      SameOutside(c.mem, Lba(c, sect), |data|);
      if isSd { var _ := SendCmd(0x80 + CMD23, |data|); }
      ghost var b := card;
      if open && isSd { StillWriteOpen(c, b); }
      var d := SendCmd(CMD25, sect);
      ghost var lba := Lba(c, sect);
      if open && isSd { NotHeardTwice(c, b, card); }
      if idle {
        WriteIssued(b, CMD25, sect, d, card);
        SmallerReach(c.mem, card.mem, lba, b.erase, |data|);
        NoneLanded(c, card, lba, data);
      }
      var count := |data|;
      if d == 0 {
        var i := WriteBlocks(data, lba, c);
        count := |data| - i;
        ghost var e := card;
        var stopped := SendBlock(ZeroSector(), STOP_TOKEN, lba + i, true);
        if idle { SameLanded(c, e, card, lba, data, i); }
        if !stopped { count := 1; }
      }
      ok := count == 0;
    }
  }

  /** No byte of a frame the card is deaf to stops its write. */
  lemma StopNotHeard(buf: seq<Byte>, arg: nat, i: nat, open: bool)
    requires |buf| == 6 && arg < DWORD_VALUES && buf[1..5] == ArgumentBytes(arg) && Deaf(arg)
    requires buf[0] < 0x80 && buf[5] < 0xF0 && i < 6 && (open ==> MULTI_TOKEN !in buf[..i])
    ensures open ==> buf[i] != STOP_TOKEN
  {
    var f := ArgumentBytes(arg);
    assert forall k :: 0 <= k < 4 ==> f[k] == buf[1..5][k] == buf[k + 1];
    assert forall k :: 0 <= k < i ==> buf[..i][k] == buf[k];
    assert 1 <= i <= 4 ==> f[..i - 1] == buf[..i][1..];
  }

  /** The card after some bytes, and its answer to the last of them. */
  function Fed(c: Card, bytes: seq<Byte>, ch: Choice): (Card, Byte)
    requires bytes != []
  {
    var b := if |bytes| == 1 then c else Fed(c, bytes[..|bytes| - 1], ch).0;
    React(b, bytes[|bytes| - 1], ch)
  }

  lemma FedMore(c: Card, bytes: seq<Byte>, b: Byte, ch: Choice)
    requires bytes != []
    ensures Fed(c, bytes + [b], ch) == React(Fed(c, bytes, ch).0, b, ch)
  {
    assert (bytes + [b])[..|bytes|] == bytes;
  }

  /** The frame of a read of sector 0xFD5100, and the polls behind it. */
  const MISHEARD: seq<Byte> := [0x51, 0, STOP_TOKEN, 0x51, 0, 1, IDLE_LINE, IDLE_LINE, IDLE_LINE, IDLE_LINE]

  const AT_ONCE := Choice(0, false, 0, [], false, ZeroSector())   // no delay, no refusal

  /** A card with an open write is not deaf to that address: it ends the write,
      takes the rest and three polls for a read of sector 0x1FFFF, and accepts. */
  lemma StopInAddress(c: Card)
    requires HearsTokens(c) && Open(c) && c.block && |c.mem| > 0x1_FFFF
    ensures ArgumentBytes(0xFD_5100) == MISHEARD[1..5] && !Deaf(0xFD_5100)
    ensures Fed(c, MISHEARD, AT_ONCE) == (c.(phase := Reading(0x1_FFFF, false), app := false, erase := 0), 0)
  {
    NotDeaf();
    hide Execute, Argument, Deaf, ArgumentBytes, Fed;
    var m := MISHEARD;
    StepsTo(c, m, 1, c);
    StepsTo(c, m, 2, c);
    StepsTo(c, m, 3, c.(phase := Ready));
    var f: seq<Byte> := [0x51, 0, 1, IDLE_LINE, IDLE_LINE, IDLE_LINE];
    FrameTaken(c, m, f, 5);
    ReadMisheard(c, f);
    SixthByte(c.(phase := Frame(f[..5])), f);
    StepsTo(c, m, 9, Execute(c.(phase := Frame(f[..5])), f, AT_ONCE));
    StepsTo(c, m, 10, c.(phase := Reading(0x1_FFFF, false), app := false, erase := 0));
    assert m[..10] == m;
  }

  lemma NotDeaf()
    ensures ArgumentBytes(0xFD_5100) == MISHEARD[1..5] && !Deaf(0xFD_5100)
  {
    var f := ArgumentBytes(0xFD_5100);
    assert f[1] == STOP_TOKEN && MULTI_TOKEN !in f[..1];
    assert f == MISHEARD[1..5];
  }

  lemma {:induction false} FrameTaken(c: Card, m: seq<Byte>, f: seq<Byte>, k: nat)
    requires m == MISHEARD && f == [0x51, 0, 1, IDLE_LINE, IDLE_LINE, IDLE_LINE] && 1 <= k <= 5
    requires HearsTokens(c) && Fed(c, m[..3], AT_ONCE).0 == c.(phase := Ready)
    ensures Fed(c, m[..k + 3], AT_ONCE).0 == c.(phase := Frame(f[..k]))
  {
    hide Execute, Fed;
    assert m[k + 2] == f[k - 1];
    if k > 1 {
      FrameTaken(c, m, f, k - 1);
      assert f[..k - 1] + [f[k - 1]] == f[..k];
    } else {
      assert [f[0]] == f[..1];
    }
    StepsTo(c, m, k + 3, c.(phase := Frame(f[..k])));
  }

  lemma ReadMisheard(c: Card, f: seq<Byte>)
    requires f == [0x51, 0, 1, IDLE_LINE, IDLE_LINE, IDLE_LINE] && c.block && |c.mem| > 0x1_FFFF
    ensures f[..5] + [IDLE_LINE] == f
    ensures Execute(c.(phase := Frame(f[..5])), f, AT_ONCE) ==
            c.(phase := Respond(false, 0, 0, Reading(0x1_FFFF, false)), app := false, erase := 0)
  {
    assert Argument(f) == 0x1_FFFF;
  }

  lemma SixthByte(c: Card, f: seq<Byte>)
    requires |f| == 6 && HearsTokens(c) && c.phase == Frame(f[..5])
    ensures React(c, f[5], AT_ONCE).0 == Execute(c, f, AT_ONCE)
  {
    hide Execute;
    assert f[..5] + [f[5]] == f;
  }

  lemma StepsTo(c: Card, m: seq<Byte>, n: nat, e: Card)
    requires 0 < n <= |m|
    requires e == React(if n == 1 then c else Fed(c, m[..n - 1], AT_ONCE).0, m[n - 1], AT_ONCE).0
    ensures Fed(c, m[..n], AT_ONCE).0 == e
    ensures Fed(c, m[..n], AT_ONCE) == React(if n == 1 then c else Fed(c, m[..n - 1], AT_ONCE).0, m[n - 1], AT_ONCE)
  {
    hide React;
    if n > 1 {
      assert m[..n] == m[..n - 1] + [m[n - 1]];
      FedMore(c, m[..n - 1], m[n - 1], AT_ONCE);
    }
  }

  lemma DeafToZero()
    ensures Deaf(0)
  {
  }

  lemma OpenReleased(c: Card)
    requires WriteOpen(c)
    ensures Open(Released(c))
  {
  }

  lemma NotSent(c: Card, e: Card)
    requires WriteOpen(c) && e == Released(c).(selected := false, busy := e.busy)
    ensures NotHeard(c, e)
  {
  }

  lemma SentUnheard(c: Card, s: Card, e: Card, n: nat)
    requires WriteOpen(c) && Open(s) && s == Released(c).(selected := s.selected, busy := s.busy) && Unheard(s, e, n)
    ensures NotHeard(c, e)
  {
  }

  lemma StillWriteOpen(c: Card, e: Card)
    requires NotHeard(c, e)
    ensures WriteOpen(e)
  {
  }

  lemma NotHeardTwice(c: Card, b: Card, e: Card)
    requires NotHeard(c, b) && NotHeard(b, e)
    ensures NotHeard(c, e)
  {
  }

  /** A zero answer to a block command is for a block on the card. */
  predicate Sensible(c: Card, cmd: nat, arg: nat, r: Byte) {
    r == 0 && cmd in {CMD17, CMD18, CMD24, CMD25} ==> Reachable(c, arg)
  }

  /** The card with a command carried out and its answer due. */
  function Answering(c: Card, cmd: nat, arg: nat, r: Byte, junk: seq<Sector>, wait: nat): Card {
    Done(c, cmd, arg, r, junk).(phase := Respond(cmd == CMD12, wait, r, Done(c, cmd, arg, r, junk).phase))
  }

  lemma ExecuteIs(c: Card, f: seq<Byte>, cmd: nat, arg: nat, ch: Choice)
    requires |f| == 6 && f[0] as int == 0x40 + cmd < 0x80 && Argument(f) == arg
    ensures R1(c.(phase := Frame(f[..5])), cmd, arg, ch) == R1(c, cmd, arg, ch)
    ensures Execute(c.(phase := Frame(f[..5])), f, ch) ==
            Answering(c, cmd, arg, R1(c, cmd, arg, ch), ch.junk, ch.wait % 9)
    ensures Sensible(c, cmd, arg, R1(c, cmd, arg, ch))
  {
  }

  /** The argument arrives as it was sent. */
  lemma FrameArgument(f: seq<Byte>, arg: nat)
    requires |f| == 6 && arg < DWORD_VALUES
    requires f[1] as int == arg / 0x100_0000 && f[2] as int == arg / 0x1_0000 % 0x100
    requires f[3] as int == arg / 0x100 % 0x100 && f[4] as int == arg % 0x100
    ensures Argument(f) == arg
  {
    var a := arg / 0x100;
    var b := a / 0x100;
    assert arg / 0x1_0000 == b && arg / 0x100_0000 == b / 0x100;
  }

  lemma DoneKeeps(c: Card, cmd: nat, arg: nat, r: Byte, junk: seq<Sector>)
    ensures var d := Done(c, cmd, arg, r, junk); d.selected == c.selected && d.busy == c.busy && d.block == c.block
  {
  }

  /** The outcome of a command: not sent, the card being busy too long, or
      carried out and answered. */
  ghost predicate Issued(c: Card, cmd: nat, arg: nat, d: Byte, e: Card) {
    if d == IDLE_LINE then cmd != CMD12 && c.busy && e == c.(selected := false, busy := e.busy)
    else
      && d < 0x80 && Sensible(c, cmd, arg, d)
      && exists junk :: e == Done(c.(selected := true, busy := false), cmd, arg, d, junk)
  }

  lemma DoneIssued(c: Card, s: Card, cmd: nat, arg: nat, d: Byte, junk: seq<Sector>, e: Card)
    requires s == c.(selected := true, busy := false) && d < 0x80
    requires Sensible(s, cmd, arg, d) && e == Done(s, cmd, arg, d, junk)
    ensures Issued(c, cmd, arg, d, e)
  {
    hide Done;
  }

  /** After an announcement of blocks to write: nothing written, the card
      listens, and the announcement is pending only on a card that is not busy
      and so will hear the next command. */
  ghost predicate Announced(c: Card, n: nat, e: Card) {
    && e.mem == c.mem && e.block == c.block && e.lost == c.lost && e.phase.Ready?
    && (e.erase == 0 || (e.erase == n % 0x80_0000 && !e.busy))
  }

  lemma ReadyReleased(c: Card)
    requires c.phase.Ready?
    ensures Released(c) == c.(selected := false)
  {
  }

  lemma PrefixDone(c: Card, d: Byte, e: Card)
    requires c.phase.Ready? && Issued(c, CMD55, 0, d, e)
    ensures e.phase.Ready? && (c.erase == 0 ==> Announced(c, 0, e) && e.erase == 0)
  {
  }

  lemma SecondDone(c: Card, b: Card, n: nat, d: Byte, e: Card)
    requires Announced(c, 0, b) && b.erase == 0
    requires Issued(b, CMD23, n, d, e)
    ensures Announced(c, n, e)
  {
  }

  // ---- what the commands of a transfer do -------------------------------------------

  /** The sector a request goes to. A byte-addressed card is sent the sector
      number times 512 in 32 bits. */
  function Target(block: bool, sector: nat): nat { if block then sector else sector % 0x80_0000 }

  /** That is the sector asked for, unless the byte address wraps. */
  lemma TargetExact(block: bool, sector: nat)
    ensures Target(block, sector) == sector <==> block || sector * 512 < DWORD_VALUES
  {
  }

  /** On a byte-addressed card, sector 2^23 is sector 0, and a read of it that
      works hands sector 0 back. */
  lemma AddressWraps()
    ensures Target(false, 0x80_0000) == 0
    ensures forall a, r, b :: ArrayStep(false, a, Fetch(0x80_0000, 1), r, b) ==> a != [] && r == [a[0]]
  {
  }

  /** A card that has a block due for its answer may accept it and keep something
      else: the driver sees success, and the sector differs. */
  lemma AcceptedAndLost(c: Card, lba: nat, multi: bool, full: Sector, bad: Sector)
    requires c.selected && !c.busy && c.phase == Verdict(lba, multi, full) && lba < |c.mem| && bad != full
    ensures var (e, d) := React(c, IDLE_LINE, Choice(5, false, 0, [], true, bad));
            d % 0x20 == 5 && e.mem[lba] == bad && e.lost == c.lost + 1
  {
  }

  lemma TargetIs(block: bool, sector: nat, sect: nat)
    requires sector < DWORD_VALUES && sect == if block then sector else sector * 512 % DWORD_VALUES
    ensures sect < DWORD_VALUES && forall c: Card :: c.block == block ==> Lba(c, sect) == Target(block, sector)
  {
  }

  lemma ReadIssued(c: Card, cmd: nat, arg: nat, d: Byte, e: Card)
    requires cmd in {CMD17, CMD18} && c.phase.Ready? && c.erase == 0 && Issued(c, cmd, arg, d, e)
    ensures e.mem == c.mem && e.block == c.block && e.erase == 0 && e.lost == c.lost
    ensures if d == 0 then
              e.selected && !e.busy && e.phase == Reading(Lba(c, arg), cmd == CMD18) && Lba(c, arg) < |c.mem|
            else e.phase.Ready?
  {
  }

  lemma StopIssued(c: Card, d: Byte, e: Card)
    requires Issued(c, CMD12, 0, d, e)
    ensures e.mem == c.mem && e.block == c.block && e.phase.Ready? && e.erase == 0 && e.lost == c.lost
  {
  }

  lemma SameOutside(a: seq<Sector>, lba: nat, n: nat)
    ensures OutsideSame(a, a, lba, n)
  {
  }

  lemma SmallerReach(a: seq<Sector>, b: seq<Sector>, lba: nat, m: nat, n: nat)
    requires OutsideSame(a, b, lba, m) && m <= n
    ensures OutsideSame(a, b, lba, n)
  {
  }

  /** What a write command does: an announcement pending on a card that hears it
      is used up, and at most the announced blocks lose their content. */
  lemma WriteIssued(c: Card, cmd: nat, arg: nat, d: Byte, e: Card)
    requires cmd in {CMD24, CMD25} && c.phase.Ready? && Issued(c, cmd, arg, d, e)
    requires c.erase == 0 || !c.busy
    ensures e.block == c.block && e.erase == 0 && e.lost == c.lost
    ensures if d == 0 then
              e.selected && e.phase == Receiving(Lba(c, arg), cmd == CMD25) && Lba(c, arg) < |c.mem|
            else e.phase.Ready? && e.mem == c.mem
    ensures cmd == CMD24 ==> e.mem == c.mem
    ensures OutsideSame(c.mem, e.mem, Lba(c, arg), c.erase)
  {
  }

  /** The first `i` blocks of `data` have been accepted since state `c`; they are
      on the card exactly if none counts as lost. */
  ghost predicate Landed(c: Card, e: Card, lba: nat, data: seq<Sector>, i: nat) {
    && i <= |data| && e.lost >= c.lost && (i > 0 ==> lba + i <= |e.mem|)
    && (i > 0 ==> (e.mem[lba..lba + i] == data[..i] <==> e.lost == c.lost))
    && (i == 0 ==> e.lost == c.lost)
  }

  /** The card waits for the first of `data`, and state `c` is as good as now. */
  ghost predicate BlocksDue(e: Card, lba: nat, data: seq<Sector>, c: Card) {
    && e.selected && e.phase == Receiving(lba, true) && lba < |e.mem|
    && OutsideSame(c.mem, e.mem, lba, |data|) && Landed(c, e, lba, data, 0)
  }

  /** Some blocks have been accepted, all of them if `ok`. */
  ghost predicate SomeLanded(c: Card, e: Card, lba: nat, data: seq<Sector>, ok: bool) {
    exists i :: 0 <= i <= |data| && (ok ==> i == |data|) && Landed(c, e, lba, data, i)
  }

  lemma NoneLanded(c: Card, e: Card, lba: nat, data: seq<Sector>)
    requires e.lost == c.lost
    ensures Landed(c, e, lba, data, 0)
  {
  }

  lemma AllLanded(c: Card, e: Card, lba: nat, data: seq<Sector>)
    requires data != []
    ensures forall i :: Landed(c, e, lba, data, i) ==> e.lost >= c.lost
    ensures Landed(c, e, lba, data, |data|) ==>
              lba + |data| <= |e.mem| && (e.mem[lba..lba + |data|] == data <==> e.lost == c.lost)
  {
    assert data[..|data|] == data;
  }

  lemma SameLanded(c: Card, b: Card, e: Card, lba: nat, data: seq<Sector>, i: nat)
    requires Landed(c, b, lba, data, i) && e.mem == b.mem && e.lost == b.lost
    ensures Landed(c, e, lba, data, i)
  {
  }

  lemma RunGrows(m: seq<Sector>, lba: nat, n: nat)
    requires lba + n < |m|
    ensures m[lba..lba + (n + 1)] == m[lba..lba + n] + [m[lba + n]]
  {
  }

  lemma OneMore(c: Card, n: nat, a: Card, b: Card, lba: nat, data: seq<Sector>, i: nat)
    requires i < |data| <= n && Driver.Programmed(a, b, lba + i, data[i])
    requires OutsideSame(c.mem, a.mem, lba, n) && Landed(c, a, lba, data, i)
    ensures OutsideSame(c.mem, b.mem, lba, n) && Landed(c, b, lba, data, i + 1)
  {
    var x, y := b.mem[lba..lba + (i + 1)], data[..i + 1];
    var u, v := a.mem[lba..lba + i], data[..i];
    assert forall k :: 0 <= k < i ==> x[k] == u[k] && y[k] == v[k];
    assert x[i] == b.mem[lba + i] && y[i] == data[i];
    assert x == y <==> u == v && x[i] == y[i] by {
      assert x == u + [x[i]] && y == v + [y[i]];
    }
  }

  lemma DriveRefuses(m: seq<Sector>, s: nat, data: seq<Sector>)
    ensures DriveWrites(m, m, s, data, false)
  {
  }

  lemma DriveWritten(m: seq<Sector>, k: seq<Sector>, s: nat, data: seq<Sector>, ok: bool)
    requires OutsideSame(m, k, s, |data|)
    ensures !ok || (s + |data| <= |m| && k == Blit(m, s, data)) ==> DriveWrites(m, k, s, data, ok)
  {
    hide Blit;
  }

  lemma OpenAgain(c: Card, e: Card)
    requires Open(c) && NotHeard(c, e)
    ensures Released(e) == c.(selected := false, busy := e.busy)
  {
  }

  lemma SelectedOff(c: Card)
    ensures !Released(c).selected && Released(c).block == c.block && Released(c).erase == c.erase
    ensures Released(c).mem == c.mem && Released(c).lost == c.lost
  {
  }

  lemma EndsReady(c: Card)
    ensures c.phase.Ready? || (c.phase.Reading? && !c.phase.multi) || (c.phase.Receiving? && !c.phase.multi) ==>
              Released(c) == c.(selected := false, phase := Ready)
    ensures c.phase.Receiving? && c.phase.multi ==> Released(c) == c.(selected := false)
  {
  }

  lemma BlitIs(a: seq<Sector>, b: seq<Sector>, lba: nat, data: seq<Sector>)
    requires OutsideSame(a, b, lba, |data|)
    ensures |b| == |a|
    ensures lba + |data| <= |a| ==> (b == Blit(a, lba, data) <==> b[lba..lba + |data|] == data)
  {
    if lba + |data| <= |a| {
      var c := Blit(a, lba, data);
      assert c[lba..lba + |data|] == data;
      if b[lba..lba + |data|] == data {
        assert forall i :: lba <= i < lba + |data| ==> b[i] == b[lba..lba + |data|][i - lba];
        assert b == c;
      }
    }
  }

  // ---- whole runs -----------------------------------------------------------------

  datatype Request = Fetch(sector: nat, count: nat) | Store(sector: nat, data: seq<Sector>)

  predicate Proper(q: Request) {
    && q.sector < DWORD_VALUES
    && if q.Fetch? then q.count > 0 else 0 < |q.data| < DWORD_VALUES
  }

  /** One request to a plain array of sectors; `r` is what it hands back. */
  ghost predicate ArrayStep(block: bool, a: seq<Sector>, q: Request, r: seq<Sector>, b: seq<Sector>) {
    var lba := Target(block, q.sector);
    match q
    case Fetch(_, n) => lba + n <= |a| && r == a[lba..lba + n] && b == a
    case Store(_, d) => lba + |d| <= |a| && b == Blit(a, lba, d)
  }

  ghost predicate ArrayRun(block: bool, states: seq<seq<Sector>>, qs: seq<Request>, rs: seq<seq<Sector>>) {
    && |states| == |qs| + 1 && |rs| == |qs|
    && forall i :: 0 <= i < |qs| ==> ArrayStep(block, states[i], qs[i], rs[i], states[i + 1])
  }

  /** The requests made before an error, and all of them when none is reported,
      are a run of a plain sector array exactly if no accepted block is lost in
      programming; an error is the card's. */
  method Run(v: Driver, qs: seq<Request>) returns (ghost states: seq<seq<Sector>>, rs: seq<seq<Sector>>, ok: bool)
    requires v.Idle() && !v.noInit && forall i :: 0 <= i < |qs| ==> Proper(qs[i])
    modifies v
    ensures |rs| <= |qs| && (ok ==> |rs| == |qs|)
    ensures |states| == |rs| + 1 && states[0] == old(v.card).mem
    ensures if ok then v.Idle() && v.card.mem == states[|qs|] else v.trouble > old(v.trouble)
    ensures v.card.lost >= old(v.card).lost
    ensures ok ==> (ArrayRun(v.isBlock, states, qs, rs) <==> v.card.lost == old(v.card).lost)
    ensures v.card.lost == old(v.card).lost ==> ArrayRun(v.isBlock, states, qs[..|rs|], rs)
    ensures qs != [] ==> !v.card.selected
  {
    hide Blit, Target, OutsideSame, ArrayRun;
    states, rs, ok := [v.card.mem], [], true;
    FirstState(v.isBlock, v.card.mem, qs);
    for i := 0 to |qs|
      invariant v.Idle() && !v.noInit && ok && v.card.lost >= old(v.card).lost
      invariant v.trouble >= old(v.trouble) && |rs| == i && (i > 0 ==> !v.card.selected)
      invariant |states| == i + 1 && states[0] == old(v.card).mem && v.card.mem == states[i]
      invariant ArrayRun(v.isBlock, states, qs[..i], rs) <==> v.card.lost == old(v.card).lost
    {
      var res, data := ResOk, [];
      ghost var before := v.card.lost;
      match qs[i] {
        case Fetch(s, n) => res, data := v.DiskRead(0, s, n);
        case Store(s, d) => res := v.DiskWrite(0, s, d);
      }
      if !res.ResOk? { return states, rs, false; }
      NextState(v.isBlock, states, qs, i, rs, data, v.card.mem);
      states, rs := states + [v.card.mem], rs + [data];
    }
    assert qs[..|qs|] == qs;
  }

  lemma FirstState(block: bool, a: seq<Sector>, qs: seq<Request>)
    ensures ArrayRun(block, [a], qs[..0], [])
  {
  }

  /** A run goes on exactly with a step of the array. */
  lemma NextState(block: bool, states: seq<seq<Sector>>, qs: seq<Request>, i: nat, rs: seq<seq<Sector>>,
                  r: seq<Sector>, b: seq<Sector>)
    requires i < |qs| && |states| == i + 1 && |rs| == i
    ensures ArrayRun(block, states + [b], qs[..i + 1], rs + [r]) <==>
            ArrayRun(block, states, qs[..i], rs) && ArrayStep(block, states[i], qs[i], r, b)
  {
    hide ArrayStep;
    var s, q := states + [b], rs + [r];
    if ArrayRun(block, states, qs[..i], rs) && ArrayStep(block, states[i], qs[i], r, b) {
      forall k | 0 <= k < i + 1 ensures ArrayStep(block, s[k], qs[..i + 1][k], q[k], s[k + 1]) {
        if k < i { assert ArrayStep(block, states[k], qs[..i][k], rs[k], states[k + 1]); }
      }
    }
    if ArrayRun(block, s, qs[..i + 1], q) {
      forall k | 0 <= k < i ensures ArrayStep(block, states[k], qs[..i][k], rs[k], states[k + 1]) {
        assert ArrayStep(block, s[k], qs[..i + 1][k], q[k], s[k + 1]);
      }
      assert ArrayStep(block, s[i], qs[..i + 1][i], q[i], s[i + 1]);
    }
  }
}
