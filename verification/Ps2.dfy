/**
 The keyboard controller and its two PS/2 queues: the status register tells at any time which
 queue the next read will drain, and no byte is lost, repeated or reordered on the way.
 */
module Ps2 {
  import opened EntryBits

  const QUEUE_SIZE := 256

  function Next(p: nat): nat {
    if p + 1 == QUEUE_SIZE then 0 else p + 1
  }

  function Before(p: nat): nat {
    if p == 0 then QUEUE_SIZE - 1 else p - 1
  }

  /** The slot `k` places after `r`. */
  function Slot(r: nat, k: nat): nat {
    if r + k >= QUEUE_SIZE then r + k - QUEUE_SIZE else r + k
  }

  /** The `n` bytes of a ring from slot `r` on. */
  ghost function Waiting(d: seq<Byte>, r: nat, n: nat): (c: seq<Byte>)
    requires |d| == QUEUE_SIZE && r < QUEUE_SIZE && n <= QUEUE_SIZE
    ensures |c| == n && forall k :: 0 <= k < n ==> c[k] == d[Slot(r, k)]
  {
    seq(n, k requires 0 <= k < n => d[Slot(r, k)])
  }

  lemma WaitingMore(d: seq<Byte>, r: nat, n: nat, b: Byte)
    requires |d| == QUEUE_SIZE && r < QUEUE_SIZE && n < QUEUE_SIZE
    ensures Waiting(d[Slot(r, n) := b], r, n + 1) == Waiting(d, r, n) + [b]
  {
  }

  lemma WaitingLess(d: seq<Byte>, r: nat, n: nat)
    requires |d| == QUEUE_SIZE && r < QUEUE_SIZE && 0 < n <= QUEUE_SIZE
    ensures Waiting(d, r, n) == [d[r]] + Waiting(d, Next(r), n - 1)
  {
    var a, b := Waiting(d, r, n), [d[r]] + Waiting(d, Next(r), n - 1);
    forall k | 0 <= k < n
      ensures a[k] == b[k]
    {
      if k > 0 { assert Slot(Next(r), k - 1) == Slot(r, k); }
    }
  }

  /** The byte delivered last; the rings are cleared at the start. */
  function LastOf(delivered: seq<Byte>): Byte { if delivered == [] then 0 else delivered[|delivered| - 1] }

  lemma LastDelivered(k: seq<Byte>)
    ensures forall b :: LastOf(k + [b]) == b
  {
  }

  /** A ring of 256 bytes. */
  class Queue {
    const data: array<Byte>
    var rptr: nat
    var wptr: nat
    var count: nat
    /** Every byte ever accepted, and every byte ever delivered. */
    ghost var accepted: seq<Byte>
    ghost var delivered: seq<Byte>

    constructor ()
      ensures Valid() && fresh(data) && accepted == delivered == [] && Contents() == []
    {
      data := new Byte[QUEUE_SIZE](_ => 0);
      rptr, wptr, count := 0, 0, 0;
      accepted, delivered := [], [];
    }

    ghost predicate Shape()
      reads this
    {
      data.Length == QUEUE_SIZE && rptr < QUEUE_SIZE && count <= QUEUE_SIZE && wptr == Slot(rptr, count) && wptr < QUEUE_SIZE
    }

    /** The bytes that wait, oldest first. */
    ghost function Contents(): (c: seq<Byte>)
      reads this, data
      requires Shape()
      ensures |c| == count
    {
      Waiting(data[..], rptr, count)
    }

    /** First in, first out; the slot before the read pointer keeps the byte delivered last. */
    ghost predicate Valid()
      reads this, data
    {
      && Shape() && accepted == delivered + Contents()
      && (count < QUEUE_SIZE ==> data[Before(rptr)] == LastOf(delivered))
    }

    /** `ps2_queue`: a full queue drops the byte. */
    method Put(b: Byte) returns (ok: bool)
      requires Valid()
      modifies this, data
      ensures Valid() && ok == (old(count) < QUEUE_SIZE) && delivered == old(delivered)
      ensures Contents() == if ok then old(Contents()) + [b] else old(Contents())
    {
      hide Waiting;
      if count >= QUEUE_SIZE { return false; }
      ghost var c := Contents();
      WaitingMore(data[..], rptr, count, b);
      data[wptr] := b;
      wptr := Next(wptr);
      count := count + 1;
      assert Contents() == c + [b];
      accepted := accepted + [b];
      assert accepted == delivered + (c + [b]);
      ok := true;
    }

    /** The queue's half of `ps2_read_data`: an empty queue repeats the byte delivered last. */
    method Get() returns (b: Byte)
      requires Valid()
      modifies this
      ensures Valid() && accepted == old(accepted)
      ensures if old(Contents()) == [] then
                Contents() == [] && delivered == old(delivered) && b == LastOf(delivered)
              else
                old(Contents()) == [b] + Contents() && delivered == old(delivered) + [b]
    {
      hide Waiting;
      ghost var c := Contents();
      if count == 0 {
        b := data[Before(rptr)];
      } else {
        WaitingLess(data[..], rptr, count);
        b := data[rptr];
        rptr := Next(rptr);
        count := count - 1;
        assert c == [b] + Contents();
        delivered := delivered + [b];
        assert accepted == delivered + Contents();
      }
    }
  }

  // ---------- what the devices answer ----------

  /** The command byte a device waits to complete; -1 for none. */
  type Pending = int

  /** `ps2_write_keyboard`: the answer, the command it leaves open, and whether scanning is on. */
  function KeyboardAnswer(open: Pending, val: Byte, scan: bool): (seq<Byte>, Pending, bool) {
    if open == 0xed || open == 0xf3 then ([0xfa], -1, scan)
    else
      match val
      case 0x05 => ([0xfe], open, scan)
      case 0xf2 => ([0xfa, 0xab, 0x83], open, scan)
      case 0xee => ([0xee], open, scan)
      case 0xf4 => ([0xfa], open, true)
      case 0xed => ([0xfa], val, scan)
      case 0xf3 => ([0xfa], val, scan)
      case 0xf5 => ([0xfa], open, false)
      case 0xf6 => ([0xfa], open, true)
      case 0xff => ([0xfa, 0xaa], open, true)
      case _ => ([0xfa], open, scan)
  }

  /** Movement not yet reported. */
  datatype Motion = Motion(dx: int, dy: int, dz: int)

  datatype Modes = Modes(enabled: bool, remote: bool, scale21: bool, wrap: bool)

  /** `kind` is 0 for a PS/2 mouse, 3 for IMPS/2 and 4 for IMEX; `detect` is how far its selection has come. */
  datatype Mouse = Mouse(kind: Byte, modes: Modes, resolution: Byte, rate: Byte, detect: nat, open: Pending)

  function Clamp(x: int, most: nat): (r: int)
    ensures -(most as int) <= r <= most && (-(most as int) <= x <= most ==> r == x)
    ensures x > 0 ==> 0 <= r <= x && (most > 0 ==> r > 0)
    ensures x < 0 ==> x <= r <= 0 && (most > 0 ==> r < 0)
  {
    if x > most then most else if x < -(most as int) then -(most as int) else x
  }

  function LowByte(x: int): Byte { x % 0x100 }

  /** What one packet reports; a PS/2 mouse has no wheel and just forgets its movement. */
  function Reported(kind: Byte, m: Motion): Motion {
    Motion(Clamp(m.dx, 127), Clamp(m.dy, 127),
           if kind == 3 then Clamp(m.dz, 127) else if kind == 4 then Clamp(m.dz, 7) else m.dz)
  }

  function Packet(kind: Byte, m: Motion, buttons: Byte): seq<Byte> {
    var r := Reported(kind, m);
    var head: int := 8 + (if r.dx < 0 then 16 else 0) + (if r.dy < 0 then 32 else 0) + buttons % 8;
    var body: seq<Byte> := [head, LowByte(r.dx), LowByte(r.dy)];
    if kind == 3 then body + [LowByte(r.dz)]
    else if kind == 4 then body + [r.dz % 16 + buttons / 8 % 4 * 16]
    else body
  }

  function Minus(a: Motion, b: Motion): Motion {
    Motion(a.dx - b.dx, a.dy - b.dy, a.dz - b.dz)
  }

  const AT_REST := Motion(0, 0, 0)

  function StatusByte(m: Modes): Byte {
    (if m.remote then 0x40 else 0) + (if m.enabled then 0x20 else 0) + if m.scale21 then 0x10 else 0
  }

  const DEFAULTS := Modes(false, false, false, false)

  /** `ps2_write_mouse` for a byte that is not the operand of an open command. */
  function MouseCommand(m: Mouse, motion: Motion, buttons: Byte, val: Byte): (seq<Byte>, Mouse) {
    if m.modes.wrap && val == 0xec then ([0xfa], m.(modes := m.modes.(wrap := false)))
    else if m.modes.wrap && val != 0xff then ([val], m)
    else
      match val
      case 0xe6 => ([0xfa], m.(modes := m.modes.(scale21 := false)))
      case 0xe7 => ([0xfa], m.(modes := m.modes.(scale21 := true)))
      case 0xea => ([0xfa], m.(modes := m.modes.(remote := false)))
      case 0xee => ([0xfa], m.(modes := m.modes.(wrap := true)))
      case 0xf0 => ([0xfa], m.(modes := m.modes.(remote := true)))
      case 0xf2 => ([0xfa, m.kind], m)
      case 0xe8 => ([0xfa], m.(open := val))
      case 0xf3 => ([0xfa], m.(open := val))
      case 0xe9 => ([0xfa, StatusByte(m.modes), m.resolution, m.rate], m)
      case 0xeb => ([0xfa] + Packet(m.kind, motion, buttons), m)
      case 0xf4 => ([0xfa], m.(modes := m.modes.(enabled := true)))
      case 0xf5 => ([0xfa], m.(modes := m.modes.(enabled := false)))
      case 0xf6 => ([0xfa], m.(rate := 100, resolution := 2, modes := DEFAULTS.(wrap := m.modes.wrap)))
      case 0xff => ([0xfa, 0xaa, 0], m.(rate := 100, resolution := 2, kind := 0, modes := DEFAULTS.(wrap := m.modes.wrap)))
      case _ => ([], m)
  }

  /** The operand of an open command; three sample rates in a row select the kind of mouse. */
  function MouseOperand(m: Mouse, val: Byte): (seq<Byte>, Mouse) {
    if m.open == 0xf3 then
      var (detect, kind) :=
        match m.detect
        case 1 => (if val == 100 then 2 else if val == 200 then 3 else 0, m.kind)
        case 2 => (0, if val == 80 then 3 else m.kind)
        case 3 => (0, if val == 80 then 4 else m.kind)
        case _ => (if val == 200 then 1 else m.detect, m.kind);
      ([0xfa], m.(rate := val, detect := detect, kind := kind, open := -1))
    else ([0xfa], m.(resolution := val, open := -1))
  }

  function MouseAnswer(m: Mouse, motion: Motion, buttons: Byte, val: Byte): (seq<Byte>, Mouse) {
    if m.open == 0xf3 || m.open == 0xe8 then MouseOperand(m, val) else MouseCommand(m, motion, buttons, val)
  }

  /** A poll takes the movement that it reports. */
  predicate Polls(m: Mouse, val: Byte) {
    m.open != 0xf3 && m.open != 0xe8 && val == 0xeb && !m.modes.wrap
  }

  // ---------- whole exchanges ----------

  /** The two-byte commands of the keyboard: whatever follows EDh or F3h is taken as their operand. */
  lemma KeyboardOperand(open: Pending, cmd: Byte, val: Byte, scan: bool)
    requires open == -1 && (cmd == 0xed || cmd == 0xf3)
    ensures var (a, o, s) := KeyboardAnswer(open, cmd, scan);
            KeyboardAnswer(o, val, s) == ([0xfa], -1, scan) && a == [0xfa]
  {
  }

  /**
   Scanning is on behind F4h, F6h and FFh, off behind F5h, and otherwise as it was. All but 05h and EEh are acknowledged;
   F2h adds the two bytes that identify the keyboard, and FFh the result of its self test.
   */
  lemma KeyboardScans(val: Byte, scan: bool)
    ensures var (a, o, s) := KeyboardAnswer(-1, val, scan);
            && (s <==> val == 0xf4 || val == 0xf6 || val == 0xff || (val != 0xf5 && scan))
            && (o != -1 <==> val == 0xed || val == 0xf3)
            && (if val == 0x05 then a == [0xfe] else if val == 0xee then a == [0xee] else
                a == [0xfa] + if val == 0xf2 then [0xab, 0x83] else if val == 0xff then [0xaa] else [])
  {
  }

  /** A mouse that awaits no operand and has just been sent the sample rate `r`. */
  function RateSet(m: Mouse, r: Byte): Mouse {
    MouseAnswer(MouseAnswer(m, AT_REST, 0, 0xf3).1, AT_REST, 0, r).1
  }

  predicate Listens(m: Mouse) {
    m.open == -1 && !m.modes.wrap
  }

  /** The rates 200, 100 and 80 in a row make the mouse an IMPS/2 one, 200, 200 and 80 an IMEX one, and no others change it. */
  lemma RatesSelectKind(m: Mouse, a: Byte, b: Byte, c: Byte)
    requires Listens(m) && m.detect == 0
    ensures var m' := RateSet(RateSet(RateSet(m, a), b), c);
            && Listens(m') && m'.rate == c && m'.modes == m.modes && m'.resolution == m.resolution
            && m'.kind == if a == 200 && b == 100 && c == 80 then 3 else if a == 200 && b == 200 && c == 80 then 4 else m.kind
  {
    OneRate(m, a);
    OneRate(RateSet(m, a), b);
    OneRate(RateSet(RateSet(m, a), b), c);
    hide RateSet;
  }

  /** Both operands are acknowledged, and E8h sets the resolution. */
  lemma OperandsAcknowledged(m: Mouse, motion: Motion, buttons: Byte, val: Byte)
    requires m.open == 0xf3 || m.open == 0xe8
    ensures var (a, t) := MouseAnswer(m, motion, buttons, val);
            a == [0xfa] && t.open == -1 && t.modes == m.modes && t.resolution == if m.open == 0xe8 then val else m.resolution
  {
  }

  lemma OneRate(m: Mouse, r: Byte)
    requires Listens(m)
    ensures var m' := RateSet(m, r);
            && m' == m.(rate := r, detect := m'.detect, kind := m'.kind)
            && m'.detect == (if m.detect == 1 then (if r == 100 then 2 else if r == 200 then 3 else 0)
                             else if m.detect == 2 || m.detect == 3 then 0 else if r == 200 then 1 else m.detect)
            && m'.kind == if r == 80 && m.detect == 2 then 3 else if r == 80 && m.detect == 3 then 4 else m.kind
  {
  }

  /** In wrap mode every byte but ECh, which ends it, and FFh comes back and does nothing else. */
  lemma WrapEchoes(m: Mouse, motion: Motion, buttons: Byte, val: Byte)
    requires m.open == -1 && m.modes.wrap && val != 0xff
    ensures MouseAnswer(m, motion, buttons, val) == if val == 0xec then ([0xfa], m.(modes := m.modes.(wrap := false))) else ([val], m)
  {
  }

  /** Outside it, each mode is switched by its two commands, and all but wrap mode by the defaults (F6h) and the reset (FFh). */
  lemma ModesSwitch(m: Mouse, motion: Motion, buttons: Byte, val: Byte)
    requires Listens(m)
    ensures var t := MouseAnswer(m, motion, buttons, val).1.modes;
            && (t.enabled <==> val == 0xf4 || (val !in {0xf5, 0xf6, 0xff} && m.modes.enabled))
            && (t.remote <==> val == 0xf0 || (val !in {0xea, 0xf6, 0xff} && m.modes.remote))
            && (t.scale21 <==> val == 0xe7 || (val !in {0xe6, 0xf6, 0xff} && m.modes.scale21))
            && (t.wrap <==> val == 0xee)
  {
  }

  /** The status byte: remote mode in bit 6, reporting enabled in bit 5, 2:1 scaling in bit 4. */
  lemma StatusBits(m: Modes)
    ensures var b := StatusByte(m);
            && (b / 0x40 % 2 == 1 <==> m.remote) && (b / 0x20 % 2 == 1 <==> m.enabled) && (b / 0x10 % 2 == 1 <==> m.scale21)
            && b % 0x10 == 0 && b < 0x80
  {
  }

  // ---------- the controller ----------

  function Bit0(m: Byte): bool { m % 2 == 1 }
  function Bit1(m: Byte): bool { m / 2 % 2 == 1 }
  function Bit4(m: Byte): bool { m / 0x10 % 2 == 1 }
  function Bit5(m: Byte): bool { m / 0x20 % 2 == 1 }

  /** As many of the bytes as a queue of 256 takes. */
  function Clipped(c: seq<Byte>): seq<Byte> {
    if |c| <= QUEUE_SIZE then c else c[..QUEUE_SIZE]
  }

  // ---------- the controller as the host sees it ----------

  datatype Port = Port(mode: Byte, writeCmd: Byte, selftest: bool)

  datatype Keys = Keys(open: Pending, scan: bool, delayed: seq<Byte>)

  datatype Pointer = Pointer(mouse: Mouse, motion: Motion, buttons: Byte)

  /** What waits in the two queues, the keyboard byte delivered last, and what the commands have set. */
  datatype World = World(kbd: seq<Byte>, aux: seq<Byte>, last: Byte, port: Port, keys: Keys, pointer: Pointer)

  /** Keyboard bytes first, then those of the mouse, then the last byte of the keyboard again. */
  function AfterRead(w: World): (Byte, World) {
    if w.kbd != [] then (w.kbd[0], w.(kbd := w.kbd[1..], last := w.kbd[0]))
    else if w.aux != [] then (w.aux[0], w.(aux := w.aux[1..]))
    else (w.last, w)
  }

  function Sent(w: World, mouseSide: bool, bytes: seq<Byte>): World {
    if mouseSide then w.(aux := Clipped(w.aux + bytes)) else w.(kbd := Clipped(w.kbd + bytes))
  }

  function ModeAfter(mode: Byte, val: Byte): Byte {
    match val
    case 0xa7 => WithBit5(mode, true)
    case 0xa8 => WithBit5(mode, false)
    case 0xad => WithBit4(mode, true)
    case 0xae => WithBit4(mode, false)
    case _ => mode
  }

  lemma ModeKept(mode: Byte, val: Byte)
    ensures val !in {0xa7, 0xa8, 0xad, 0xae} ==> ModeAfter(mode, val) == mode
  {
  }

  /** A7h and A8h disable and enable the mouse in bit 5 of the mode, ADh and AEh the keyboard in bit 4; no other bit changes. */
  lemma ModeBits(mode: Byte, val: Byte)
    ensures var m := ModeAfter(mode, val);
            && (m / 0x20 % 2 == 1 <==> val == 0xa7 || (val != 0xa8 && mode / 0x20 % 2 == 1))
            && (m / 0x10 % 2 == 1 <==> val == 0xad || (val != 0xae && mode / 0x10 % 2 == 1))
            && m % 0x10 == mode % 0x10 && m / 0x40 == mode / 0x40
  {
    var h, b, a, l := mode / 0x40, mode / 0x20 % 2, mode / 0x10 % 2, mode % 0x10;
    assert mode == 0x40 * h + 0x20 * b + 0x10 * a + l;
    ModeFields(h, b, a, l);
    ModeFields(h, 1 - b, a, l);
    ModeFields(h, b, 1 - a, l);
  }

  lemma ModeFields(h: nat, b: nat, a: nat, l: nat)
    requires b <= 1 && a <= 1 && l < 0x10
    ensures var m := 0x40 * h + 0x20 * b + 0x10 * a + l; m / 0x40 == h && m / 0x20 % 2 == b && m / 0x10 % 2 == a && m % 0x10 == l
  {
    var x, y := 0x10 * a + l, 2 * h + b;
    DivideBy(0x40, h, 0x20 * b + x);
    DivideBy(0x20, y, x);
    DivideBy(0x10, 2 * y + a, l);
    Halves(h, b);
    Halves(y, a);
  }

  lemma DivideBy(d: nat, q: nat, r: nat)
    requires d in {0x10, 0x20, 0x40, 0x80} && r < d
    ensures (d * q + r) / d == q && (d * q + r) % d == r
  {
  }

  function TakesOperand(val: Byte): bool { val in {0x60, 0xd1, 0xd2, 0xd3, 0xd4} }

  function PortAfter(p: Port, val: Byte): Port {
    Port(ModeAfter(p.mode, val), if TakesOperand(val) then val else p.writeCmd, p.selftest || val == 0xaa)
  }

  function AfterCommand(w: World, val: Byte): World {
    var (side, bytes) := CommandAnswer(val, w.port.mode, w.kbd != [] || w.aux != [], w.kbd == [] && w.aux != []);
    Sent(w, side, bytes).(port := PortAfter(w.port, val))
  }

  function KeysAfter(k: Keys, cmd: Byte, val: Byte): Keys {
    if cmd == 0 then var (_, open, on) := KeyboardAnswer(k.open, val, k.scan); k.(open := open, scan := on) else k
  }

  function PointerAfter(p: Pointer, cmd: Byte, val: Byte): Pointer {
    if cmd == 0xd4 then
      p.(mouse := MouseAnswer(p.mouse, p.motion, p.buttons, val).1,
         motion := if Polls(p.mouse, val) then Minus(p.motion, Reported(p.mouse.kind, p.motion)) else p.motion)
    else p
  }

  function AfterData(w: World, val: Byte): World {
    var cmd := w.port.writeCmd;
    var (side, bytes) := DataAnswer(val, cmd, w.keys.open, w.pointer.mouse, w.pointer.motion, w.pointer.buttons);
    Sent(w, side, bytes).(port := w.port.(writeCmd := 0, mode := if cmd == 0x60 then val else w.port.mode),
                          keys := KeysAfter(w.keys, cmd, val), pointer := PointerAfter(w.pointer, cmd, val))
  }

  function AfterTick(w: World): World {
    Sent(w, false, w.keys.delayed).(keys := w.keys.(delayed := []))
  }

  function AfterKey(w: World, down: bool, keycode: Keycode): World {
    var (now, later) := KeyBytes(down, keycode);
    Sent(AfterTick(w), false, now).(keys := w.keys.(delayed := later))
  }

  /**
   A command of the controller and the data byte after it: 60h sets the mode, D2h and D3h put the byte into the queue of the
   keyboard or of the mouse, D4h sends it to the mouse, and D1h, whose output port the model leaves out, drops it.
   */
  lemma OperandGoes(w: World, cmd: Byte, val: Byte)
    requires |w.kbd| <= QUEUE_SIZE && |w.aux| <= QUEUE_SIZE && cmd in {0x60, 0xd1, 0xd2, 0xd3, 0xd4}
    ensures var v, p := AfterData(AfterCommand(w, cmd), val), w.pointer;
            v == w.(port := w.port.(writeCmd := 0, mode := if cmd == 0x60 then val else w.port.mode),
                    kbd := if cmd == 0xd2 then Clipped(w.kbd + [val]) else w.kbd,
                    aux := if cmd == 0xd3 then Clipped(w.aux + [val])
                           else if cmd == 0xd4 then Clipped(w.aux + MouseAnswer(p.mouse, p.motion, p.buttons, val).0) else w.aux,
                    pointer := if cmd == 0xd4 then v.pointer else p)
  {
    hide MouseAnswer, KeyboardAnswer, Clipped, Reported, Polls;
    SameClipped(w.kbd);
    SameClipped(w.aux);
    assert CommandAnswer(cmd, w.port.mode, w.kbd != [] || w.aux != [], w.kbd == [] && w.aux != []) == (false, []);
    ModeKept(w.port.mode, cmd);
  }

  /**
   What a command of the controller puts into a queue: 20h the mode, on the mouse's side, AAh the result of the self test, A9h,
   ABh and C0h a zero, and D0h the output port, whose bits 4 and 5 say whether bytes wait and whether only the mouse's do.
   */
  lemma CommandReplies(w: World, val: Byte)
    requires |w.kbd| <= QUEUE_SIZE && |w.aux| <= QUEUE_SIZE
    ensures var v := AfterCommand(w, val);
            var any, mouseOnly := w.kbd != [] || w.aux != [], w.kbd == [] && w.aux != [];
            && v == w.(kbd := v.kbd, aux := v.aux, port := v.port)
            && v.aux == (if val == 0x20 then Clipped(w.aux + [w.port.mode]) else w.aux)
            && v.kbd == (if val == 0xaa then Clipped(w.kbd + [0x55])
                         else if val in {0xa9, 0xab, 0xc0} then Clipped(w.kbd + [0x00])
                         else if val == 0xd0 then Clipped(w.kbd + [3 + (if any then 0x10 else 0) + if mouseOnly then 0x20 else 0])
                         else w.kbd)
            && v.port == Port(v.port.mode, if val in {0x60, 0xd1, 0xd2, 0xd3, 0xd4} then val else w.port.writeCmd, w.port.selftest || val == 0xaa)
  {
    hide Clipped, ModeAfter;
    SameClipped(w.kbd);
    SameClipped(w.aux);
  }

  /** A data byte that no command of the controller announces goes to the keyboard. */
  lemma DataGoesToKeyboard(w: World, val: Byte)
    requires w.port.writeCmd == 0
    ensures var v, a := AfterData(w, val), KeyboardAnswer(w.keys.open, val, w.keys.scan);
            v == w.(kbd := Clipped(w.kbd + a.0), keys := w.keys.(open := a.1, scan := a.2))
  {
    hide Clipped;
  }

  /** Only a poll (EBh) takes movement off, and exactly what its packet reports. */
  lemma OnlyPollsTake(p: Pointer, val: Byte)
    ensures var q := PointerAfter(p, 0xd4, val);
            if val == 0xeb && Listens(p.mouse) then
              && Plus(q.motion, Reported(p.mouse.kind, p.motion)) == p.motion
              && MouseAnswer(p.mouse, p.motion, p.buttons, val) == ([0xfa] + Packet(p.mouse.kind, p.motion, p.buttons), p.mouse)
            else p.mouse.open in {-1, 0xf3, 0xe8} ==> q.motion == p.motion
  {
    hide Reported, Packet;
  }

  /** Packets until the mouse is at rest, at least one. */
  function Packets(kind: Byte, m: Motion, buttons: Byte): seq<Byte>
    decreases Distance(m)
  {
    var rest := Minus(m, Reported(kind, m));
    ReportShrinks(kind, m);
    Packet(kind, m, buttons) + if rest == AT_REST then [] else Packets(kind, rest, buttons)
  }

  /** The movement that the packets report. */
  function Reports(kind: Byte, m: Motion): seq<Motion>
    decreases Distance(m)
  {
    var rest := Minus(m, Reported(kind, m));
    ReportShrinks(kind, m);
    [Reported(kind, m)] + if rest == AT_REST then [] else Reports(kind, rest)
  }

  /** A number below `span` in two's complement. */
  function Decoded(b: Byte, negative: bool, span: nat): int {
    var k: int := b;
    if negative then k - span else k
  }

  /** A packet that the host decodes says what was reported. */
  lemma PacketReports(kind: Byte, m: Motion, buttons: Byte)
    ensures var p, r := Packet(kind, m, buttons), Reported(kind, m);
            && |p| == (if kind == 3 || kind == 4 then 4 else 3) && p[0] % 8 == buttons % 8
            && Decoded(p[1], p[0] / 0x10 % 2 == 1, 0x100) == r.dx
            && Decoded(p[2], p[0] / 0x20 % 2 == 1, 0x100) == r.dy
            && (kind == 3 ==> Decoded(p[3], p[3] >= 0x80, 0x100) == r.dz)
            && (kind == 4 ==> Decoded(p[3] % 16, p[3] % 16 >= 8, 16) == r.dz)
  {
    var r := Reported(kind, m);
    LowByteSigned(r.dx);
    LowByteSigned(r.dy);
    HeadBits(r.dx < 0, r.dy < 0, buttons % 8);
    hide Reported, LowByte;
    if kind == 3 { LowByteSigned(r.dz); }
  }

  /** An IMEX mouse reports its two other buttons beside the wheel. */
  lemma ImexButtons(m: Motion, buttons: Byte)
    ensures Packet(4, m, buttons)[3] / 16 == buttons / 8 % 4
  {
    var low, high := Reported(4, m).dz % 16, buttons / 8 % 4;
    assert (low + high * 16) / 16 == high;
  }

  lemma HeadBits(x: bool, y: bool, k: nat)
    requires k < 8
    ensures var h := 8 + (if x then 16 else 0) + (if y then 32 else 0) + k;
            h < 0x100 && h % 8 == k && (h / 0x10 % 2 == 1 <==> x) && (h / 0x20 % 2 == 1 <==> y)
  {
  }

  lemma LowByteSigned(x: int)
    requires -127 <= x <= 127
    ensures LowByte(x) == if x < 0 then x + 0x100 else x
  {
  }

  /** Together the packets report all of the movement. */
  lemma {:induction false} ReportsAddUp(kind: Byte, m: Motion)
    ensures Total(Reports(kind, m)) == m
    decreases Distance(m)
  {
    hide Total, Reported, Distance;
    var r := Reported(kind, m);
    var rest := Minus(m, r);
    ReportShrinks(kind, m);
    NoReports();
    TotalFirst(r, []);
    if rest != AT_REST {
      ReportsAddUp(kind, rest);
      TotalFirst(r, Reports(kind, rest));
    }
    assert Motion(m.dx, m.dy, m.dz) == m;
  }

  lemma {:induction false} TotalFirst(r: Motion, reports: seq<Motion>)
    ensures Total([r] + reports) == Plus(r, Total(reports))
    decreases |reports|
  {
    if reports == [] {
      assert [r] + [] == [r] && [r][..0] == [];
    } else {
      var n := |reports| - 1;
      TotalFirst(r, reports[..n]);
      assert [r] + reports == ([r] + reports[..n]) + [reports[n]];
      TotalMore([r] + reports[..n], reports[n]);
    }
  }

  /** In how many packets of at most `most` (127, or 7 for the wheel of an IMEX mouse) a movement goes out. */
  function Turns(d: int, most: nat): nat {
    if most == 7 then (AbsInt(d) + 6) / 7 else (AbsInt(d) + 126) / 127
  }

  function Max(a: nat, b: nat): nat { if a < b then b else a }

  /** The axis that needs most decides; the movement of a wheel that a mouse has not is forgotten. */
  function PacketCount(kind: Byte, m: Motion): nat {
    var wheel := if kind == 3 then Turns(m.dz, 127) else if kind == 4 then Turns(m.dz, 7) else 0;
    Max(1, Max(Max(Turns(m.dx, 127), Turns(m.dy, 127)), wheel))
  }

  function PacketSize(kind: Byte): nat {
    if kind == 3 || kind == 4 then 4 else 3
  }

  lemma TurnsLess(d: int, most: nat)
    requires most == 127 || most == 7
    ensures Turns(d - Clamp(d, most), most) == if Turns(d, most) == 0 then 0 else Turns(d, most) - 1
    ensures Turns(d, most) <= 1 <==> d == Clamp(d, most)
  {
    var a := AbsInt(d);
    if a > most {
      assert AbsInt(d - Clamp(d, most)) == a - most;
      if most == 7 { OneLess(a - 1, 7); } else { OneLess(a - 1, 127); }
    }
  }

  lemma OneLess(x: nat, d: nat)
    requires (d == 7 || d == 127) && x >= d
    ensures (x - d + d) / d == x / d && (x + d) / d == x / d + 1
  {
  }

  /** The length of what an event sends. */
  lemma {:induction false} PacketsLength(kind: Byte, m: Motion, buttons: Byte)
    ensures |Packets(kind, m, buttons)| == PacketSize(kind) * PacketCount(kind, m)
    decreases Distance(m)
  {
    hide Packet, Turns, Distance;
    var rest := Minus(m, Reported(kind, m));
    PacketReports(kind, m, buttons);
    ReportShrinks(kind, m);
    CountLess(kind, m);
    if rest != AT_REST { PacketsLength(kind, rest, buttons); }
  }

  lemma CountLess(kind: Byte, m: Motion)
    ensures var rest := Minus(m, Reported(kind, m));
      PacketCount(kind, m) == if rest == AT_REST then 1 else 1 + PacketCount(kind, rest)
  {
    hide Turns, Clamp;
    TurnsLess(m.dx, 127);
    TurnsLess(m.dy, 127);
    if kind == 3 { TurnsLess(m.dz, 127); }
    if kind == 4 { TurnsLess(m.dz, 7); }
  }

  /** No packet of an event is cut exactly if the mouse queue has room for all of them. */
  lemma NothingCut(aux: seq<Byte>, kind: Byte, m: Motion, buttons: Byte)
    requires |aux| <= QUEUE_SIZE
    ensures Clipped(aux + Packets(kind, m, buttons)) == aux + Packets(kind, m, buttons)
            <==> |aux| + PacketSize(kind) * PacketCount(kind, m) <= QUEUE_SIZE
  {
    hide Packets, PacketCount;
    PacketsLength(kind, m, buttons);
  }

  function AfterMove(w: World, dx: int, dy: int, dz: int, buttons: Byte): World {
    if !w.pointer.mouse.modes.enabled then w else
    var m := Plus(w.pointer.motion, Motion(dx, -dy, dz));
    if m == AT_REST && w.pointer.buttons == buttons then w.(pointer := w.pointer.(motion := m))
    else if w.pointer.mouse.modes.remote || |w.aux| >= QUEUE_SIZE - 16 then
      w.(pointer := w.pointer.(motion := m, buttons := buttons))
    else
      Sent(w, true, Packets(w.pointer.mouse.kind, m, buttons)).(pointer := w.pointer.(motion := AT_REST, buttons := buttons))
  }

  /** A move of six packets, when 239 bytes wait and the guard lets it pass: the queue takes 17 of the 18 bytes, and the last is lost. */
  lemma CutExample(aux: seq<Byte>)
    requires |aux| == 239
    ensures var idle := Mouse(0, Modes(true, false, false, false), 2, 100, 0, -1);
      var w := World([], aux, 0, Port(0, 0, false), Keys(-1, false, []), Pointer(idle, AT_REST, 0));
      var w', sent := AfterMove(w, 762, 0, 0, 0), Packets(0, Motion(762, 0, 0), 0);
      |sent| == 18 && |w'.aux| == 256 && w'.aux < aux + sent && w'.pointer.motion == AT_REST
  {
    hide Packets, Clipped;
    CutLength();
    OneTooMany(aux, Packets(0, Motion(762, 0, 0), 0));
  }

  lemma CutLength()
    ensures |Packets(0, Motion(762, 0, 0), 0)| == 18
  {
    hide Packets, Turns;
    SixTurns();
    PacketsLength(0, Motion(762, 0, 0), 0);
  }

  lemma SixTurns()
    ensures Turns(762, 127) == 6 && Turns(0, 127) == 0
  {
  }

  lemma OneTooMany(aux: seq<Byte>, sent: seq<Byte>)
    requires |aux| == 239 && |sent| == 18
    ensures |Clipped(aux + sent)| == 256 && Clipped(aux + sent) < aux + sent
  {
  }

  /** One event; `Read` gives a byte. */
  function Step(w: World, e: Event): (seq<Byte>, World) {
    match e
    case Read => var (b, w') := AfterRead(w); ([b], w')
    case Command(val) => ([], AfterCommand(w, val))
    case Data(val) => ([], AfterData(w, val))
    case Key(down, keycode) => ([], AfterKey(w, down, keycode))
    case Tick => ([], AfterTick(w))
    case Move(dx, dy, dz, state) => ([], AfterMove(w, dx, dy, dz, state))
  }

  function RunWorld(w: World, events: seq<Event>): (seq<Byte>, World)
    decreases |events|
  {
    if events == [] then ([], w) else
    var (o, w1) := Step(w, events[0]);
    var (os, w2) := RunWorld(w1, events[1..]);
    (o + os, w2)
  }

  class Controller {
    const kbd: Queue
    const aux: Queue
    /** Status bits: output buffer full, for the mouse, and self test done. */
    var obf: bool
    var mouseObf: bool
    var selftest: bool
    var mode: Byte
    /** The two bits of `pending`. */
    var pendingKbd: bool
    var pendingAux: bool
    var irqKbd: bool
    var irqMouse: bool
    var writeCmd: Byte
    var keyboardOpen: Pending
    var scan: bool
    var delayed: seq<Byte>
    var mouse: Mouse
    var motion: Motion
    var buttons: Byte

    constructor ()
      ensures Valid() && fresh(kbd) && fresh(kbd.data) && fresh(aux) && fresh(aux.data)
      ensures kbd.accepted == [] && aux.accepted == []
      ensures State() == World([], [], 0, Port(0x43, 0, false), Keys(-1, false, []), Pointer(Mouse(0, DEFAULTS, 0, 0, 0, -1), AT_REST, 0))
    {
      kbd := new Queue();
      aux := new Queue();
      obf, mouseObf, selftest, mode := false, false, false, 0x43;
      pendingKbd, pendingAux, irqKbd, irqMouse := false, false, false, false;
      writeCmd, keyboardOpen, scan, delayed := 0, -1, false, [];
      mouse, motion, buttons := Mouse(0, DEFAULTS, 0, 0, 0, -1), AT_REST, 0;
    }

    ghost predicate Separate() {
      kbd != aux && kbd.data != aux.data && kbd as object != this && aux as object != this
      && kbd.data as object != this && aux.data as object != this && kbd.data as object != aux && aux.data as object != kbd
    }

    /** The status and the interrupt lines say what the pending bits say. */
    ghost predicate Lines()
      reads `obf, `mouseObf, `mode, `pendingKbd, `pendingAux, `irqKbd, `irqMouse
    {
      && obf == (pendingKbd || pendingAux) && mouseObf == (pendingAux && !pendingKbd)
      && irqMouse == (mouseObf && Bit1(mode)) && irqKbd == (pendingKbd && Bit0(mode) && !Bit4(mode))
    }

    ghost predicate Valid()
      reads `obf, `mouseObf, `mode, `pendingKbd, `pendingAux, `irqKbd, `irqMouse, kbd, kbd.data, aux, aux.data
      ensures Valid() ==> Separate() && kbd.Valid() && aux.Valid() && |aux.Contents()| <= QUEUE_SIZE
    {
      && Separate() && kbd.Valid() && aux.Valid()
      && pendingKbd == (kbd.count > 0) && pendingAux == (aux.count > 0) && Lines()
    }

    ghost function State(): World
      reads this, kbd, kbd.data, aux, aux.data
      requires Valid()
    {
      World(kbd.Contents(), aux.Contents(), LastOf(kbd.delivered), Port(mode, writeCmd, selftest),
            Keys(keyboardOpen, scan, delayed), Pointer(mouse, motion, buttons))
    }

    /** `kbd_update_irq`. */
    method UpdateIrq()
      modifies `obf, `mouseObf, `irqKbd, `irqMouse
      ensures Lines()
      ensures irqMouse == (mouseObf && mode / 2 % 2 == 1) && irqKbd == (pendingKbd && mode % 2 == 1 && mode / 0x10 % 2 == 0)
    {
      irqKbd, irqMouse, obf, mouseObf := false, false, false, false;
      if pendingKbd || pendingAux {
        obf := true;
        if pendingAux && !pendingKbd {
          mouseObf := true;
          if Bit1(mode) { irqMouse := true; }
        } else {
          if Bit0(mode) && !Bit4(mode) { irqKbd := true; }
        }
      }
    }

    /** `kbd_update_kbd_irq` and `kbd_update_aux_irq`. */
    method UpdateDevice(mouseSide: bool, level: bool)
      modifies `pendingKbd, `pendingAux, `obf, `mouseObf, `irqKbd, `irqMouse
      ensures Lines()
      ensures pendingAux == (if mouseSide then level else old(pendingAux)) && pendingKbd == if mouseSide then old(pendingKbd) else level
    {
      if mouseSide { pendingAux := level; } else { pendingKbd := level; }
      UpdateIrq();
    }

    /** `kbd_queue`: one byte for the host, from either device. */
    method Put(mouseSide: bool, b: Byte)
      requires Valid()
      modifies `pendingKbd, `pendingAux, `obf, `mouseObf, `irqKbd, `irqMouse, kbd, kbd.data, aux, aux.data
      ensures Valid() && kbd.delivered == old(kbd.delivered) && aux.delivered == old(aux.delivered)
      ensures kbd.Contents() == if mouseSide then old(kbd.Contents()) else Clipped(old(kbd.Contents()) + [b])
      ensures aux.Contents() == if mouseSide then Clipped(old(aux.Contents()) + [b]) else old(aux.Contents())
    {
      hide Lines, Waiting, Slot, LastOf, Clipped, Queue.Contents, Before;
      ClippedOne(if mouseSide then aux.Contents() else kbd.Contents(), b);
      if mouseSide {
        var ok := aux.Put(b);
        if ok { UpdateDevice(true, true); }
      } else {
        var ok := kbd.Put(b);
        if ok { UpdateDevice(false, true); }
      }
    }

    /** `kbd_read_data`: keyboard bytes drain first. */
    method ReadData() returns (b: Byte)
      requires Valid()
      modifies `pendingKbd, `pendingAux, `obf, `mouseObf, `irqKbd, `irqMouse, kbd, aux
      ensures Valid()
      ensures (b, State()) == AfterRead(old(State()))
      ensures if old(kbd.Contents()) != [] then kbd.delivered == old(kbd.delivered) + [b] && aux.delivered == old(aux.delivered)
              else if old(aux.Contents()) != [] then kbd.delivered == old(kbd.delivered) && aux.delivered == old(aux.delivered) + [b]
              else kbd.delivered == old(kbd.delivered) && aux.delivered == old(aux.delivered)
    {
      hide Lines, Waiting, Slot, LastOf;
      LastDelivered(kbd.delivered);
      if pendingAux && !pendingKbd {
        b := aux.Get();
        UpdateDevice(true, false);
        UpdateDevice(true, aux.count != 0);
      } else {
        var any := kbd.count > 0;
        b := kbd.Get();
        if any {
          UpdateDevice(false, false);
          UpdateDevice(false, kbd.count != 0);
        }
      }
    }

    /** Several bytes in a row; those that find the queue full are dropped. */
    method PutAll(mouseSide: bool, bytes: seq<Byte>)
      requires Valid()
      modifies `pendingKbd, `pendingAux, `obf, `mouseObf, `irqKbd, `irqMouse, kbd, kbd.data, aux, aux.data
      ensures Valid() && kbd.delivered == old(kbd.delivered) && aux.delivered == old(aux.delivered)
      ensures kbd.Contents() == if mouseSide then old(kbd.Contents()) else Clipped(old(kbd.Contents()) + bytes)
      ensures aux.Contents() == if mouseSide then Clipped(old(aux.Contents()) + bytes) else old(aux.Contents())
    {
      hide Lines;
      ghost var k0, a0 := kbd.Contents(), aux.Contents();
      assert k0 + [] == k0 && a0 + [] == a0;
      for n := 0 to |bytes|
        invariant Valid() && kbd.delivered == old(kbd.delivered) && aux.delivered == old(aux.delivered)
        invariant kbd.Contents() == if mouseSide then k0 else Clipped(k0 + bytes[..n])
        invariant aux.Contents() == if mouseSide then Clipped(a0 + bytes[..n]) else a0
      {
        ClippedMore(k0, bytes, n);
        ClippedMore(a0, bytes, n);
        Put(mouseSide, bytes[n]);
      }
      assert bytes[..|bytes|] == bytes;
    }

    /** `PutAll` as a step of the whole. */
    method Send(mouseSide: bool, bytes: seq<Byte>)
      requires Valid()
      modifies `pendingKbd, `pendingAux, `obf, `mouseObf, `irqKbd, `irqMouse, kbd, kbd.data, aux, aux.data
      ensures Valid() && State() == Sent(old(State()), mouseSide, bytes)
      ensures kbd.delivered == old(kbd.delivered) && aux.delivered == old(aux.delivered)
    {
      hide Valid, Clipped;
      PutAll(mouseSide, bytes);
    }

    /** The commands that enable and disable the two interfaces. */
    method ChangeMode(val: Byte)
      requires Valid() && val in {0xa7, 0xa8, 0xad, 0xae}
      modifies `mode, `obf, `mouseObf, `irqKbd, `irqMouse
      ensures Valid() && mode == ModeAfter(old(mode), val)
    {
      hide Bit0, Bit1, Bit4;
      MouseBitKeeps(mode);
      match val {
        case 0xa7 => mode := WithBit5(mode, true);
        case 0xa8 => mode := WithBit5(mode, false);
        case 0xad =>
          mode := WithBit4(mode, true);
          UpdateIrq();
        case 0xae =>
          mode := WithBit4(mode, false);
          UpdateIrq();
      }
    }

    /** `kbd_write_command`; a system reset is the caller's to carry out. */
    method WriteCommand(val: Byte) returns (reset: bool)
      requires Valid()
      modifies this, kbd, kbd.data, aux, aux.data
      ensures Valid() && kbd.delivered == old(kbd.delivered) && aux.delivered == old(aux.delivered)
      ensures State() == AfterCommand(old(State()), val)
      ensures reset == (val == 0xfe)
    {
      hide Valid, CommandAnswer, Clipped, PortAfter;
      LinesTell();
      reset := val == 0xfe;
      var (side, bytes) := CommandAnswer(val, mode, obf, mouseObf);
      Send(side, bytes);
      TakeCommand(val);
    }

    /** What a command changes beside the queues. */
    method TakeCommand(val: Byte)
      requires Valid()
      modifies `mode, `obf, `mouseObf, `irqKbd, `irqMouse, `writeCmd, `selftest
      ensures Valid() && Port(mode, writeCmd, selftest) == PortAfter(old(Port(mode, writeCmd, selftest)), val)
    {
      hide Valid, ModeAfter;
      ModeKept(mode, val);
      if TakesOperand(val) { writeCmd := val; }
      if val == 0xaa { selftest := true; }
      if val in {0xa7, 0xa8, 0xad, 0xae} { ChangeMode(val); }
    }

    method SetMode(val: Byte)
      requires Valid()
      modifies `mode, `obf, `mouseObf, `irqKbd, `irqMouse
      ensures Valid() && mode == val
    {
      mode := val;
      UpdateIrq();
    }

    /** `kbd_write_data`: the operand of a controller command, or a byte for the keyboard. */
    method WriteData(val: Byte) returns (reset: bool)
      requires Valid()
      modifies this, kbd, kbd.data, aux, aux.data
      ensures Valid() && kbd.delivered == old(kbd.delivered) && aux.delivered == old(aux.delivered)
      ensures State() == AfterData(old(State()), val)
      ensures reset == (old(writeCmd) == 0xd1 && val % 2 == 0)
    {
      hide Valid, DataAnswer, Clipped, KeysAfter, PointerAfter;
      reset := writeCmd == 0xd1 && val % 2 == 0;
      var (side, bytes) := DataAnswer(val, writeCmd, keyboardOpen, mouse, motion, buttons);
      Send(side, bytes);
      TakeOperand(val);
    }

    /** What a byte for the data port changes beside the queues. */
    method TakeOperand(val: Byte)
      requires Valid()
      modifies `mode, `obf, `mouseObf, `irqKbd, `irqMouse, `writeCmd, `keyboardOpen, `scan, `mouse, `motion
      ensures Valid() && writeCmd == 0 && mode == if old(writeCmd) == 0x60 then val else old(mode)
      ensures Keys(keyboardOpen, scan, delayed) == KeysAfter(old(Keys(keyboardOpen, scan, delayed)), old(writeCmd), val)
      ensures Pointer(mouse, motion, buttons) == PointerAfter(old(Pointer(mouse, motion, buttons)), old(writeCmd), val)
    {
      hide Valid, KeyboardAnswer, MouseAnswer, Polls, Reported, Minus;
      match writeCmd {
        case 0 =>
          var (_, open, on) := KeyboardAnswer(keyboardOpen, val, scan);
          keyboardOpen, scan := open, on;
        case 0x60 => SetMode(val);
        case 0xd4 =>
          var m := MouseAnswer(mouse, motion, buttons, val).1;
          if Polls(mouse, val) { motion := Minus(motion, Reported(mouse.kind, motion)); }
          mouse := m;
        case _ =>
      }
      writeCmd := 0;
    }

    /** `ps2_put_keycode`; the second byte of an extended code waits for `KbdStep`. */
    method PutKeycode(down: bool, keycode: Keycode)
      requires Valid()
      modifies this, kbd, kbd.data, aux, aux.data
      ensures Valid() && kbd.delivered == old(kbd.delivered) && aux.delivered == old(aux.delivered)
      ensures State() == AfterKey(old(State()), down, keycode)
    {
      hide Valid, KeyBytes, Clipped;
      if delayed != [] { KbdStep(); } else { NothingSent(); }
      var (now, later) := KeyBytes(down, keycode);
      Send(false, now);
      delayed := later;
    }

    /** Without a delayed byte the step does nothing. */
    lemma NothingSent()
      requires Valid() && delayed == []
      ensures AfterTick(State()) == State()
    {
      SameClipped(kbd.Contents());
    }

    /** `kbd_step`, once the delay is over. */
    method KbdStep()
      requires Valid()
      modifies this, kbd, kbd.data, aux, aux.data
      ensures Valid() && kbd.delivered == old(kbd.delivered) && aux.delivered == old(aux.delivered)
      ensures State() == AfterTick(old(State()))
    {
      hide Valid, Clipped;
      Send(false, delayed);
      delayed := [];
    }

    /** `ps2_mouse_send_packet`. */
    method SendPacket()
      requires Valid()
      modifies this, kbd, kbd.data, aux, aux.data
      ensures Valid() && kbd.delivered == old(kbd.delivered) && aux.delivered == old(aux.delivered)
      ensures var w := old(State());
        State() == Sent(w, true, Packet(mouse.kind, old(motion), buttons)).(
          pointer := w.pointer.(motion := Minus(old(motion), Reported(mouse.kind, old(motion)))))
      ensures mouse == old(mouse) && buttons == old(buttons)
    {
      hide Valid, Packet, Reported, Clipped, Minus;
      Send(true, Packet(mouse.kind, motion, buttons));
      motion := Minus(motion, Reported(mouse.kind, motion));
    }

    /** `ps2_mouse_event`. */
    method MouseEvent(dx: int, dy: int, dz: int, buttonState: Byte)
      requires Valid()
      modifies this, kbd, kbd.data, aux, aux.data
      ensures Valid() && kbd.delivered == old(kbd.delivered) && aux.delivered == old(aux.delivered)
      ensures State() == AfterMove(old(State()), dx, dy, dz, buttonState)
    {
      hide Clipped, Lines, Plus, Packets;
      if !mouse.modes.enabled { return; }
      motion := Plus(motion, Motion(dx, -dy, dz));
      if motion == AT_REST && buttons == buttonState { return; }
      buttons := buttonState;
      if !mouse.modes.remote && aux.count < QUEUE_SIZE - 16 { SendAll(); }
    }

    /** The loop of `ps2_mouse_event`. */
    method SendAll()
      requires Valid()
      modifies this, kbd, kbd.data, aux, aux.data
      ensures Valid() && kbd.delivered == old(kbd.delivered) && aux.delivered == old(aux.delivered)
      ensures var w := old(State());
        State() == Sent(w, true, Packets(mouse.kind, old(motion), buttons)).(pointer := w.pointer.(motion := AT_REST))
    {
      hide Valid, Packet, Reported, Clipped, Distance, Packets, Minus;
      ghost var w0, all := State(), Packets(mouse.kind, motion, buttons);
      ghost var sent: seq<Byte> := [];
      AuxFits();
      SameClipped(w0.aux);
      assert sent + all == all;
      while true
        invariant Valid() && kbd.delivered == old(kbd.delivered) && aux.delivered == old(aux.delivered)
        invariant State() == Sent(w0, true, sent).(pointer := w0.pointer.(motion := motion))
        invariant sent + Packets(mouse.kind, motion, buttons) == all
        decreases Distance(motion)
      {
        ghost var bytes := Packet(mouse.kind, motion, buttons);
        PacketsStep(mouse.kind, motion, buttons, sent);
        ClippedTwice(w0.aux, sent, bytes);
        SendPacket();
        sent := sent + bytes;
        assert sent + [] == sent;
        if motion == AT_REST { break; }
      }
    }

    lemma AuxFits()
      requires Valid()
      ensures |State().aux| <= QUEUE_SIZE
    {
    }

    /** One event of the host or a device. */
    method Do(e: Event) returns (got: seq<Byte>)
      requires Valid()
      modifies this, kbd, kbd.data, aux, aux.data
      ensures Valid() && old(kbd.delivered) <= kbd.delivered && old(aux.delivered) <= aux.delivered
      ensures (got, State()) == Step(old(State()), e)
    {
      hide Valid, AfterRead, AfterCommand, AfterData, AfterKey, AfterTick, AfterMove;
      got := [];
      match e {
        case Read =>
          var b := ReadData();
          got := [b];
        case Command(val) => var _ := WriteCommand(val);
        case Data(val) => var _ := WriteData(val);
        case Key(down, keycode) => PutKeycode(down, keycode);
        case Tick => KbdStep();
        case Move(dx, dy, dz, state) => MouseEvent(dx, dy, dz, state);
      }
    }

    /**
     Any sequence of events: the host reads what `RunWorld` says, the status register tells which queue
     has bytes, and what a queue has accepted is what it has delivered and what it still holds.
     */
    method Run(events: seq<Event>) returns (got: seq<Byte>)
      requires Valid()
      modifies this, kbd, kbd.data, aux, aux.data
      ensures Valid() && old(kbd.delivered) <= kbd.delivered && old(aux.delivered) <= aux.delivered
      ensures (got, State()) == RunWorld(old(State()), events)
      ensures obf == (kbd.Contents() != [] || aux.Contents() != []) && mouseObf == (kbd.Contents() == [] && aux.Contents() != [])
      ensures kbd.accepted == kbd.delivered + kbd.Contents() && aux.accepted == aux.delivered + aux.Contents()
    {
      hide Valid, Step;
      got := [];
      ghost var w0 := State();
      assert events[0..] == events && [] + RunWorld(w0, events).0 == RunWorld(w0, events).0;
      for n := 0 to |events|
        invariant Valid() && old(kbd.delivered) <= kbd.delivered && old(aux.delivered) <= aux.delivered
        invariant RunWorld(w0, events) == (got + RunWorld(State(), events[n..]).0, RunWorld(State(), events[n..]).1)
      {
        assert events[n..][0] == events[n] && events[n..][1..] == events[n + 1..];
        ghost var before := got;
        var o := Do(events[n]);
        got := got + o;
        assert before + (o + RunWorld(State(), events[n + 1..]).0) == got + RunWorld(State(), events[n + 1..]).0;
      }
      assert got + [] == got;
      LinesTell();
    }

    lemma LinesTell()
      requires Valid()
      ensures obf == (kbd.Contents() != [] || aux.Contents() != []) && mouseObf == (kbd.Contents() == [] && aux.Contents() != [])
      ensures kbd.accepted == kbd.delivered + kbd.Contents() && aux.accepted == aux.delivered + aux.Contents()
    {
    }
  }

  lemma PacketsStep(kind: Byte, m: Motion, buttons: Byte, sent: seq<Byte>)
    ensures var rest := Minus(m, Reported(kind, m));
      && (rest == AT_REST || Distance(rest) < Distance(m))
      && sent + Packets(kind, m, buttons) ==
         (sent + Packet(kind, m, buttons)) + if rest == AT_REST then [] else Packets(kind, rest, buttons)
  {
    hide Packet, Reported, Distance;
    ReportShrinks(kind, m);
  }

  type Keycode = k: nat | k < 0x1_0000

  datatype Event =
    | Read | Command(val: Byte) | Data(val: Byte) | Key(down: bool, keycode: Keycode) | Tick
    | Move(dx: int, dy: int, dz: int, buttons: Byte)

  /** The bytes that a write to the data port puts into a queue, and whether it is the mouse's. */
  function DataAnswer(val: Byte, cmd: Byte, open: Pending, m: Mouse, motion: Motion, buttons: Byte): (bool, seq<Byte>) {
    match cmd
    case 0 => (false, KeyboardAnswer(open, val, false).0)
    case 0xd2 => (false, [val])
    case 0xd3 => (true, [val])
    case 0xd4 => (true, MouseAnswer(m, motion, buttons, val).0)
    case _ => (false, [])
  }

  /** The scancodes of the Linux keycodes 96 to 127. */
  const EXTENDED: seq<Byte> := [
    0x1c, 0x1d, 0x35, 0x00, 0x38, 0x00, 0x47, 0x48, 0x49, 0x4b, 0x4d, 0x4f, 0x50, 0x51, 0x52, 0x53,
    0x00, 0x00, 0x00, 0x00, 0x00, 0x00, 0x00, 0x00, 0x00, 0x00, 0x00, 0x00, 0x00, 0x5b, 0x5c, 0x5d]

  /** The bytes of a key at once, and the one that is held back. */
  function KeyBytes(down: bool, keycode: nat): (seq<Byte>, seq<Byte>)
    requires keycode < 0x1_0000
  {
    var up := if down then 0 else 0x80;
    if keycode >= 0xe000 then ([keycode / 0x100], [keycode % 0x80 + (if keycode / 0x80 % 2 == 1 then 0x80 else up)])
    else if keycode > 127 then ([], [])
    else if keycode >= 96 then
      var code: int := EXTENDED[keycode - 96];
      if code == 0 then ([], []) else ([0xe0], [code + up])
    else ([keycode + up], [])
  }

  /** A release sends what the press sends, with bit 7 of the last byte set. */
  lemma ReleaseIsPress(keycode: Keycode)
    ensures var p, q := KeyBytes(true, keycode), KeyBytes(false, keycode);
            var press, release := p.0 + p.1, q.0 + q.1;
            && |press| == |release| && |p.1| == |q.1|
            && (press != [] ==>
                  var n := |press| - 1;
                  && release[..n] == press[..n] && release[n] == (if press[n] >= 0x80 then press[n] else press[n] + 0x80)
                  && (keycode < 0xe000 ==> press[n] < 0x80))
            && (keycode >= 0xe000 ==> press == [keycode / 0x100, keycode % 0x100]) && (keycode < 96 ==> press == [keycode])
  {
    hide *;
    if keycode >= 0xe000 { LongKey(keycode); } else { ShortKey(keycode); }
  }

  lemma LongKey(keycode: Keycode)
    requires keycode >= 0xe000
    ensures var p, q := KeyBytes(true, keycode), KeyBytes(false, keycode);
            && p.0 == q.0 == [keycode / 0x100] && p.1 == [keycode % 0x100]
            && q.1 == [if keycode % 0x100 >= 0x80 then keycode % 0x100 else keycode % 0x100 + 0x80]
  {
    var low := keycode % 0x100;
    LowByteParts(keycode / 0x100, low);
  }

  lemma LowByteParts(high: nat, low: nat)
    requires low < 0x100
    ensures var k := 0x100 * high + low; k % 0x80 == low % 0x80 && k / 0x80 % 2 == low / 0x80
  {
    var q, t := low / 0x80, low % 0x80;
    assert 0x100 * high + low == 0x80 * (2 * high + q) + t;
    DivideBy(0x80, 2 * high + q, t);
    Halves(high, q);
  }

  lemma ShortKey(keycode: Keycode)
    requires keycode < 0xe000
    ensures var p, q := KeyBytes(true, keycode), KeyBytes(false, keycode);
            && |p.0| == |q.0| && |p.1| == |q.1|
            && (p.1 != [] ==> p.0 == q.0 == [0xe0] && |p.1| == 1 && q.1[0] == p.1[0] + 0x80)
            && (p.1 == [] && p.0 != [] ==> |p.0| == 1 && q.0[0] == p.0[0] + 0x80) && (keycode < 96 ==> p == ([keycode], []))
  {
    EachExtended(keycode);
    hide EXTENDED;
  }

  lemma EachExtended(keycode: nat)
    ensures 96 <= keycode < 128 ==> EXTENDED[keycode - 96] < 0x80
  {
  }

  /** No two keys below 128 that send anything send the same. */
  lemma KeysDiffer(j: nat, k: nat, down: bool)
    requires j < k < 128 && KeyBytes(down, j) == KeyBytes(down, k)
    ensures KeyBytes(down, j) == ([], [])
  {
    if j >= 96 { CodesDiffer(j - 96, k - 96); }
    hide EXTENDED;
  }

  /** The keys below 128 that send nothing. */
  lemma SilentKeys(k: nat, down: bool)
    requires k < 128
    ensures KeyBytes(down, k) == ([], []) <==> k == 99 || k == 101 || 112 <= k <= 124
  {
    if k >= 96 { assert EXTENDED[k - 96] == 0 <==> k == 99 || k == 101 || 112 <= k <= 124; }
    hide EXTENDED;
  }

  lemma CodesDiffer(i: nat, j: nat)
    requires i < j < 32 && EXTENDED[i] == EXTENDED[j]
    ensures EXTENDED[i] == 0
  {
  }

  function Plus(a: Motion, b: Motion): Motion {
    Motion(a.dx + b.dx, a.dy + b.dy, a.dz + b.dz)
  }

  function Total(reports: seq<Motion>): Motion
    decreases |reports|
  {
    if reports == [] then AT_REST else Plus(Total(reports[..|reports| - 1]), reports[|reports| - 1])
  }

  lemma NoReports()
    ensures Total([]) == AT_REST
  {
  }

  lemma TotalMore(reports: seq<Motion>, r: Motion)
    ensures Total(reports + [r]) == Plus(Total(reports), r)
  {
    assert (reports + [r])[..|reports|] == reports;
  }

  function AbsInt(x: int): nat { if x < 0 then -x else x }

  function Distance(m: Motion): nat { AbsInt(m.dx) + AbsInt(m.dy) + AbsInt(m.dz) }

  /** A packet brings the mouse nearer to rest. */
  lemma ReportShrinks(kind: Byte, m: Motion)
    ensures Minus(m, Reported(kind, m)) == AT_REST || Distance(Minus(m, Reported(kind, m))) < Distance(m)
  {
  }

  lemma SameClipped(c: seq<Byte>)
    requires |c| <= QUEUE_SIZE
    ensures Clipped(c + []) == c
  {
    assert c + [] == c;
  }

  lemma ClippedTwice(c: seq<Byte>, a: seq<Byte>, b: seq<Byte>)
    ensures Clipped(c + (a + b)) == Clipped(Clipped(c + a) + b)
  {
    assert c + (a + b) == (c + a) + b;
  }

  /** The bytes that a controller command puts into a queue, and whether it is the mouse's. */
  function CommandAnswer(val: Byte, mode: Byte, obf: bool, mouseObf: bool): (bool, seq<Byte>) {
    match val
    case 0x20 => (true, [mode])
    case 0xa9 => (false, [0])
    case 0xaa => (false, [0x55])
    case 0xab => (false, [0])
    case 0xc0 => (false, [0])
    case 0xd0 => (false, [3 + (if obf then 0x10 else 0) + if mouseObf then 0x20 else 0])
    case _ => (false, [])
  }

  function WithBit5(m: Byte, on: bool): Byte {
    if on == Bit5(m) then m else if on then m + 0x20 else m - 0x20
  }

  function WithBit4(m: Byte, on: bool): Byte {
    if on == Bit4(m) then m else if on then m + 0x10 else m - 0x10
  }

  lemma MouseBitKeeps(m: Byte)
    ensures forall on :: Bit0(WithBit5(m, on)) == Bit0(m) && Bit1(WithBit5(m, on)) == Bit1(m) && Bit4(WithBit5(m, on)) == Bit4(m)
  {
    var h, l := m / 0x20, m % 0x20;
    assert m == 0x20 * h + l;
    LowFive(h, l);
    LowFive(h + 1, l);
    if h > 0 { LowFive(h - 1, l); }
  }

  lemma LowFive(h: nat, l: nat)
    requires l < 0x20
    ensures var m := 0x20 * h + l; m % 2 == l % 2 && m / 2 % 2 == l / 2 % 2 && m / 0x10 % 2 == l / 0x10
  {
    var x, y := l / 2, l % 2;
    assert 0x20 * h + l == 2 * (0x10 * h + x) + y;
    Halves(0x10 * h + x, y);
    assert 0x10 * h + x == 2 * (8 * h + x / 2) + x % 2;
    Halves(8 * h + x / 2, x % 2);
    assert (0x20 * h + l) / 0x10 == 2 * h + l / 0x10;
    Halves(2 * h, l / 0x10);
  }

  lemma Halves(q: nat, r: nat)
    requires r < 2
    ensures (2 * q + r) / 2 == q && (2 * q + r) % 2 == r && (q + r) % 2 == (q % 2 + r) % 2
  {
  }

  lemma ClippedOne(c: seq<Byte>, b: Byte)
    requires |c| <= QUEUE_SIZE
    ensures Clipped(c + [b]) == if |c| < QUEUE_SIZE then c + [b] else c
  {
  }

  lemma ClippedMore(c: seq<Byte>, bytes: seq<Byte>, n: nat)
    requires n < |bytes|
    ensures Clipped(c + bytes[..n + 1]) == Clipped(Clipped(c + bytes[..n]) + [bytes[n]])
  {
    assert c + bytes[..n + 1] == (c + bytes[..n]) + [bytes[n]];
  }
}
