/** A memory card on the SPI bus, byte by byte: what it answers to each byte
    clocked in while it is selected. */
module SdCards {
  import opened Bytes

  const DATA_TOKEN: Byte := 0xFE     // starts a block; also of a single-block write
  const MULTI_TOKEN: Byte := 0xFC    // starts a block of a multiple-block write
  const STOP_TOKEN: Byte := 0xFD     // ends a multiple-block write
  const IDLE_LINE: Byte := 0xFF

  const CMD12 := 12
  const CMD17 := 17
  const CMD18 := 18
  const CMD23 := 23
  const CMD24 := 24
  const CMD25 := 25
  const CMD55 := 55

  datatype Phase =
    | Ready                                             // listens for a command
    | Frame(bytes: seq<Byte>)                           // part of a command has arrived
    | Respond(stuff: bool, wait: nat, r1: Byte, goal: Phase)
    | Reading(lba: nat, multi: bool)                    // a block is due
    | Sending(lba: nat, multi: bool, pos: nat)          // inside a block
    | Receiving(lba: nat, multi: bool)                  // waits for a token
    | Taking(lba: nat, multi: bool, data: seq<Byte>)    // inside a block
    | Verdict(lba: nat, multi: bool, full: Sector)      // the answer to a block is due

  datatype Card = Card(
    mem: seq<Sector>,
    block: bool,      // addressed by blocks, not by bytes
    selected: bool,
    busy: bool,       // holds the line low and hears nothing
    phase: Phase,
    app: bool,        // the next command is an application command
    erase: nat,       // blocks announced for the next multiple-block write
    lost: nat         // accepted blocks that were not programmed as sent
  )

  /** What the card is free to decide at one byte. */
  datatype Choice = Choice(byte: Byte, more: bool, wait: nat, junk: seq<Sector>, fails: bool, bad: Sector)

  predicate IsStart(b: Byte) { 0x40 <= b < 0x80 }

  /** Argument of a command frame. */
  function Argument(f: seq<Byte>): nat
    requires |f| == 6
  {
    f[4] as int + 0x100 * (f[3] as int) + 0x1_0000 * (f[2] as int) + 0x100_0000 * (f[1] as int)
  }

  function Lba(c: Card, arg: nat): nat { if c.block then arg else arg / 512 }

  predicate Reachable(c: Card, arg: nat) { (c.block || arg % 512 == 0) && Lba(c, arg) < |c.mem| }

  /** The first response byte of a command; zero only for a block on the card. */
  function R1(c: Card, cmd: nat, arg: nat, ch: Choice): (r: Byte)
    ensures r < 0x80
  {
    if ch.byte % 0x80 == 0 && cmd in {CMD17, CMD18, CMD24, CMD25} && !Reachable(c, arg) then 0x40
    else ch.byte % 0x80
  }

  /** The first `n` blocks from `lba` on lose their content. */
  function Lost(mem: seq<Sector>, lba: nat, n: nat, junk: seq<Sector>): (m: seq<Sector>)
    ensures |m| == |mem|
    ensures forall i :: 0 <= i < |mem| && !(lba <= i < lba + n) ==> m[i] == mem[i]
  {
    if lba + |junk| <= |mem| && |junk| <= n then Blit(mem, lba, junk) else mem
  }

  /** The card once it has carried out a command and answered `r`. Announced
      blocks have no content until they are written. */
  function Done(c: Card, cmd: nat, arg: nat, r: Byte, junk: seq<Sector>): Card {
    var lba := Lba(c, arg);
    var goal := if r != 0 then Ready
                else if cmd == CMD17 || cmd == CMD18 then Reading(lba, cmd == CMD18)
                else if cmd == CMD24 || cmd == CMD25 then Receiving(lba, cmd == CMD25)
                else Ready;
    var mem := if r == 0 && cmd == CMD25 then Lost(c.mem, lba, c.erase, junk) else c.mem;
    var erase := if c.app && cmd == CMD23 && r == 0 then arg % 0x80_0000 else 0;
    c.(mem := mem, phase := goal, app := cmd == CMD55 && r <= 1, erase := erase)
  }

  /** Carries a complete frame out; the response follows within eight bytes. */
  function Execute(c: Card, f: seq<Byte>, ch: Choice): Card
    requires |f| == 6
  {
    var cmd, arg := f[0] as int % 0x40, Argument(f);
    var r := R1(c, cmd, arg, ch);
    var d := Done(c, cmd, arg, r, ch.junk);
    d.(phase := Respond(cmd == CMD12, ch.wait % 9, r, d.phase))
  }

  /** Programs an accepted block. This may still fail, of which the card tells
      only when asked for its status. */
  function Program(c: Card, lba: nat, full: Sector, ch: Choice): Card
    requires lba < |c.mem|
  {
    var kept := if ch.fails then ch.bad else full;
    c.(mem := c.mem[lba := kept], lost := if kept == full then c.lost else c.lost + 1)
  }

  /** One byte out, one byte in. */
  function React(c: Card, out: Byte, ch: Choice): (Card, Byte) {
    if !c.selected then (c, ch.byte)
    else if c.busy then (c.(busy := ch.more), if ch.byte == IDLE_LINE then 0 else ch.byte)
    else match c.phase
      case Ready => (if IsStart(out) then c.(phase := Frame([out])) else c, IDLE_LINE)
      case Frame(f) =>
        if |f| == 5 then (Execute(c, f + [out], ch), IDLE_LINE) else (c.(phase := Frame(f + [out])), IDLE_LINE)
      case Respond(stuff, wait, r, goal) =>
        if stuff then (c.(phase := Respond(false, wait, r, goal)), ch.byte)
        else if wait > 0 then (c.(phase := Respond(false, wait - 1, r, goal)), IDLE_LINE)
        else (c.(phase := goal), r)
      case Reading(lba, multi) =>
        if IsStart(out) then (c.(phase := Frame([out])), ch.byte)
        else if ch.byte == IDLE_LINE || (ch.byte == DATA_TOKEN && lba >= |c.mem|) then (c, IDLE_LINE)
        else if ch.byte == DATA_TOKEN then (c.(phase := Sending(lba, multi, 0)), DATA_TOKEN)
        else (c.(phase := if multi then Reading(lba, true) else Ready), ch.byte)
      case Sending(lba, multi, pos) =>
        if IsStart(out) then (c.(phase := Frame([out])), ch.byte)
        else if pos < 513 then
          (c.(phase := Sending(lba, multi, pos + 1)), if pos < 512 && lba < |c.mem| then c.mem[lba][pos] else ch.byte)
        else (c.(phase := if multi then Reading(lba + 1, true) else Ready), ch.byte)
      case Receiving(lba, multi) =>
        if out == (if multi then MULTI_TOKEN else DATA_TOKEN) then (c.(phase := Taking(lba, multi, [])), IDLE_LINE)
        else if multi && out == STOP_TOKEN then (c.(phase := Ready, busy := ch.more), IDLE_LINE)
        else (c, IDLE_LINE)
      case Taking(lba, multi, data) =>
        if |data| == 513 then (c.(phase := Verdict(lba, multi, data[..512])), IDLE_LINE)
        else (c.(phase := Taking(lba, multi, data + [out])), IDLE_LINE)
      case Verdict(lba, multi, full) =>
        if ch.byte % 0x20 == 5 && lba < |c.mem| then
          var goal := if multi then Receiving(lba + 1, true) else Ready;
          (Program(c, lba, full, ch).(phase := goal, busy := ch.more), ch.byte)
        else
          (c.(phase := if multi then Receiving(lba, true) else Ready), if ch.byte % 0x20 == 5 then 0x0B else ch.byte)
  }

  // ---- the bytes on the bus ---------------------------------------------------------

  /** What the six bytes of a command do: 0x51 and 0x52 ask for one block or for
      many, 0x58 and 0x59 offer one or many, 0x4C ends a read, 0x77 and 0x57
      announce how many blocks come. The argument goes highest byte first. */
  lemma CommandBytes(c: Card, f: seq<Byte>, ch: Choice)
    requires |f| == 6 && IsStart(f[0])
    ensures var d, arg := Execute(c, f, ch), Value([f[4], f[3], f[2], f[1]]);
            var a := if c.block then arg else arg / 512;
            && d.phase.Respond? && d.phase.r1 < 0x80 && d.phase.wait <= 8 && (d.phase.stuff <==> f[0] == 0x4C)
            && d.phase.goal == (if d.phase.r1 != 0 then Ready
                                else if f[0] == 0x51 then Reading(a, false)
                                else if f[0] == 0x52 then Reading(a, true)
                                else if f[0] == 0x58 then Receiving(a, false)
                                else if f[0] == 0x59 then Receiving(a, true)
                                else Ready)
            && (f[0] in {0x51, 0x52, 0x58, 0x59} && d.phase.r1 == 0 ==> (c.block || arg % 512 == 0) && a < |c.mem|)
            && (d.app <==> f[0] == 0x77 && d.phase.r1 <= 1)
            && d.erase == (if c.app && f[0] == 0x57 && d.phase.r1 == 0 then arg % 0x80_0000 else 0)
            && (f[0] != 0x59 || d.phase.r1 != 0 ==> d.mem == c.mem)
  {
    ArgumentValue(f);
    CommandNumber(f[0]);
  }

  lemma CommandNumber(b: Byte)
    requires IsStart(b)
    ensures b as int % 0x40 == b as int - 0x40
  {
  }

  lemma ArgumentValue(f: seq<Byte>)
    requires |f| == 6
    ensures Argument(f) == Value([f[4], f[3], f[2], f[1]])
  {
    var g := [f[4], f[3], f[2], f[1]];
    DwordValue(g);
    assert g[4..] == [];
  }

  /** The tokens: 0xFE starts a block either way, 0xFC one of many to the card,
      0xFD ends those; 0xFF is the idle line. A block is accepted with five low
      bits 0x05. */
  lemma TokenBytes(c: Card, out: Byte, ch: Choice)
    requires c.selected && !c.busy
    ensures c.phase.Receiving? && !c.phase.multi ==>
              React(c, out, ch) == (if out == 0xFE then c.(phase := Taking(c.phase.lba, false, [])) else c, 0xFF)
    ensures c.phase.Receiving? && c.phase.multi ==>
              React(c, out, ch) == (if out == 0xFC then c.(phase := Taking(c.phase.lba, true, []))
                                    else if out == 0xFD then c.(phase := Ready, busy := ch.more) else c, 0xFF)
    ensures c.phase.Reading? && !(0x40 <= out < 0x80) ==>
              (React(c, out, ch).0.phase.Sending? <==> React(c, out, ch).1 == 0xFE)
              && (React(c, out, ch).1 == 0xFF ==> React(c, out, ch).0 == c)
    ensures c.phase.Verdict? && React(c, out, ch).1 % 0x20 != 0x05 ==> React(c, out, ch).0.mem == c.mem
    ensures c.phase.Verdict? && React(c, out, ch).1 % 0x20 == 0x05 ==>
              && c.phase.lba < |c.mem|
              && React(c, out, ch).0.mem[c.phase.lba] == (if ch.fails then ch.bad else c.phase.full)
  {
  }

  /** Raising the select line ends what is in progress, except a multiple-block
      transfer, which waits for its stop command or token. */
  function Released(c: Card): Card {
    c.(selected := false, phase := match c.phase
         case Reading(lba, multi) => if multi then c.phase else Ready
         case Sending(lba, multi, _) => if multi then Reading(lba, true) else Ready
         case Receiving(lba, multi) => if multi then c.phase else Ready
         case Taking(lba, multi, _) => if multi then Receiving(lba, true) else Ready
         case Verdict(lba, multi, _) => if multi then Receiving(lba, true) else Ready
         case _ => Ready)
  }
}
