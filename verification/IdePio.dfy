/**
 The hard-disk side of the IDE drive: sector addressing, and PIO transfers of up to 256 sectors
 in blocks that share one buffer.
 */
module IdePio {
  import opened EntryBits
  import A = SplitAccess
  import W = Words

  const SECTOR := 512
  const MAX_MULT := 4
  const BUFFER := 2052

  /** The bits of the status register: the drive is READY, has found its place, has data to transfer, has failed. */
  const READY := 0x40
  const SEEK := 0x10
  const DRQ := 0x08
  const ERR := 0x01

  // ---------- sector addresses ----------

  datatype Geometry = Geometry(heads: nat, sectors: nat)

  /** The ATA task-file registers. `nsector` 0 stands for 256 when a command starts. */
  datatype TaskFile = TaskFile(nsector: Byte, sector: Byte, lcyl: Byte, hcyl: Byte, select: Byte)

  predicate Lba(t: TaskFile) { t.select / 0x40 % 2 == 1 }

  function GetSector(g: Geometry, t: TaskFile): int {
    var low, mid, high, head: int := t.sector, t.lcyl, t.hcyl, t.select % 16;
    if Lba(t) then head * 0x100_0000 + high * 0x1_0000 + mid * 0x100 + low
    else ChsSector(g, high * 0x100 + mid, head, low)
  }

  /** The number of a sector; the sectors of a track count from 1. */
  function ChsSector(g: Geometry, cyl: int, head: int, sector: int): int {
    cyl * g.heads * g.sectors + head * g.sectors + (sector - 1)
  }

  function SetSector(g: Geometry, t: TaskFile, x: nat): TaskFile
    requires g.heads > 0 && g.sectors > 0
  {
    if Lba(t) then
      var select: int := t.select - t.select % 16;
      TaskFile(t.nsector, x % 0x100, x / 0x100 % 0x100, x / 0x1_0000 % 0x100, select + x / 0x100_0000 % 16)
    else
      WithChs(t, Cylinder(g, x) % 0x1_0000_0000, Head(g, x), SectorInTrack(g, x))
  }

  function Cylinder(g: Geometry, x: nat): nat
    requires g.heads > 0 && g.sectors > 0
  {
    x / Track(g)
  }

  function Head(g: Geometry, x: nat): nat
    requires g.heads > 0 && g.sectors > 0
  {
    x % Track(g) / g.sectors
  }

  function SectorInTrack(g: Geometry, x: nat): nat
    requires g.heads > 0 && g.sectors > 0
  {
    x % Track(g) % g.sectors
  }

  function WithChs(t: TaskFile, cyl: nat, head: nat, sector: nat): TaskFile {
    var select: int := t.select - t.select % 16;
    TaskFile(t.nsector, (sector + 1) % 0x100, cyl % 0x100, cyl / 0x100 % 0x100, select + head % 16)
  }

  /** The sectors of one cylinder. */
  function Track(g: Geometry): (n: nat)
    requires g.heads > 0 && g.sectors > 0
    ensures n > 0
  {
    Positive(g.heads, g.sectors);
    g.heads * g.sectors
  }

  lemma Positive(a: nat, b: nat)
    requires a > 0 && b > 0
    ensures a * b > 0
  {
  }

  predicate ValidGeometry(g: Geometry) { 1 <= g.heads <= 16 && 1 <= g.sectors <= 255 }

  /** How many sectors the ATA task-file registers can name. */
  function Capacity(g: Geometry, lba: bool): (n: nat)
    requires ValidGeometry(g)
    ensures n > 0
  {
    if lba then 0x1000_0000 else 0x1_0000 * Track(g)
  }

  /** A command can end before sector `x`. */
  predicate Reachable(g: Geometry, lba: bool, x: int)
    requires ValidGeometry(g)
  {
    0 <= x <= Capacity(g, lba)
  }

  /** What the registers hold when they are set to sector `x`. */
  function Wrapped(g: Geometry, lba: bool, x: nat): nat
    requires ValidGeometry(g)
  {
    x % Capacity(g, lba)
  }

  lemma WrapsAtEnd(g: Geometry, lba: bool, x: nat)
    requires ValidGeometry(g) && Reachable(g, lba, x)
    ensures Wrapped(g, lba, x) == if x < Capacity(g, lba) then x else 0
  {
    hide Capacity;
    if x < Capacity(g, lba) { RemainderIs(x, Capacity(g, lba), 0, x); } else { RemainderIs(x, Capacity(g, lba), 1, 0); }
  }

  lemma RemainderIs(x: nat, d: nat, q: nat, r: nat)
    requires r < d && x == q * d + r
    ensures x % d == r
  {
    var k := x / d - q;
    assert x == x / d * d + x % d && k * d == r - x % d;
  }

  /**
   The registers name sector `n`: with bit 6 of SELECT as a number of 28 bits, the sector register lowest and four bits of
   SELECT highest, and otherwise by its cylinder, head and sector, the sectors of a track counting from 1.
   */
  predicate Names(g: Geometry, t: TaskFile, n: int) {
    var cylinder := t.lcyl + 0x100 * t.hcyl;
    if t.select / 0x40 % 2 == 1 then n == t.sector + 0x100 * cylinder + 0x100_0000 * (t.select % 16)
    else 1 <= t.sector <= g.sectors && t.select % 16 < g.heads && n == (cylinder * g.heads + t.select % 16) * g.sectors + t.sector - 1
  }

  /** A sector number comes back from the ATA task-file registers, modulo their capacity. */
  lemma AddressComesBack(g: Geometry, t: TaskFile, x: nat)
    requires ValidGeometry(g)
    ensures var t' := SetSector(g, t, x); GetSector(g, t') == Wrapped(g, Lba(t), x) && Lba(t') == Lba(t) && t'.nsector == t.nsector
  {
    if Lba(t) { LbaComesBack(g, t, x); } else { ChsComesBack(g, t, x); }
  }

  /** The registers hold the digits of that number. */
  lemma RegistersName(g: Geometry, t: TaskFile, x: nat)
    requires ValidGeometry(g)
    ensures Names(g, SetSector(g, t, x), Wrapped(g, Lba(t), x))
  {
    AddressComesBack(g, t, x);
    if !Lba(t) {
      ChsRegisters(g, t, x);
      var t' := SetSector(g, t, x);
      HeadTerm(t'.lcyl + 0x100 * t'.hcyl, g.heads, t'.select % 16, g.sectors);
    }
  }

  lemma ChsRegisters(g: Geometry, t: TaskFile, x: nat)
    requires ValidGeometry(g) && !Lba(t)
    ensures var t' := SetSector(g, t, x); 1 <= t'.sector <= g.sectors && t'.select % 16 < g.heads
  {
    hide WithChs, Cylinder, Head, SectorInTrack;
    ChsDigits(g, x);
    WithChsFields(t, Cylinder(g, x) % 0x1_0000_0000, Head(g, x), SectorInTrack(g, x));
  }

  lemma HeadTerm(cyl: nat, heads: nat, head: nat, sectors: nat)
    ensures (cyl * heads + head) * sectors == cyl * heads * sectors + head * sectors
  {
  }

  /** After the last sector that LBA can name comes sector 0. */
  lemma LastSectorExample(g: Geometry)
    requires ValidGeometry(g)
    ensures var t := TaskFile(0, 0xff, 0xff, 0xff, 0x4f); GetSector(g, t) == 0xfff_ffff && GetSector(g, SetSector(g, t, GetSector(g, t) + 1)) == 0
  {
    AddressComesBack(g, TaskFile(0, 0xff, 0xff, 0xff, 0x4f), 0x1000_0000);
  }

  lemma LbaComesBack(g: Geometry, t: TaskFile, x: nat)
    requires ValidGeometry(g) && Lba(t)
    ensures var t' := SetSector(g, t, x); GetSector(g, t') == x % 0x1000_0000 && Lba(t') && t'.nsector == t.nsector
  {
    SelectKept(t.select, x / 0x100_0000 % 16);
    LbaDigits(x);
  }

  lemma ChsComesBack(g: Geometry, t: TaskFile, x: nat)
    requires ValidGeometry(g) && !Lba(t)
    ensures var t' := SetSector(g, t, x); GetSector(g, t') == x % (0x1_0000 * Track(g)) && !Lba(t') && t'.nsector == t.nsector
  {
    hide Track, WithChs, GetSector, Cylinder, Head, SectorInTrack;
    ChsDigits(g, x);
    WrappedCylinder(Cylinder(g, x));
    ChsNumber(g, t, Cylinder(g, x) % 0x1_0000_0000, Head(g, x), SectorInTrack(g, x));
    ChsWraps(g, x);
  }

  lemma WrappedCylinder(cyl: nat)
    ensures cyl % 0x1_0000_0000 % 0x1_0000 == cyl % 0x1_0000
  {
    var q, r := cyl / 0x1_0000_0000, cyl % 0x1_0000_0000;
    var h, l := r / 0x1_0000, r % 0x1_0000;
    assert cyl == 0x1_0000 * (0x1_0000 * q + h) + l;
  }

  /** Cylinders beyond the last wrap. */
  lemma ChsWraps(g: Geometry, x: nat)
    requires ValidGeometry(g)
    ensures var cyl := Cylinder(g, x);
      x % (0x1_0000 * Track(g)) == cyl % 0x1_0000 * Track(g) + Head(g, x) * g.sectors + SectorInTrack(g, x)
  {
    hide Track, Cylinder, Head, SectorInTrack;
    ChsDigits(g, x);
    var track, cyl, rest := Track(g), Cylinder(g, x), Head(g, x) * g.sectors + SectorInTrack(g, x);
    CylindersWrap(x, track, cyl, rest);
  }

  lemma CylindersWrap(x: nat, track: nat, cyl: nat, rest: nat)
    requires rest < track && x == cyl * track + rest
    ensures x % (0x1_0000 * track) == cyl % 0x1_0000 * track + rest
  {
    var q, c := cyl / 0x1_0000, cyl % 0x1_0000;
    assert cyl == 0x1_0000 * q + c && c <= 0xffff;
    assert cyl * track == q * (0x1_0000 * track) + c * track;
    assert (0xffff - c) * track >= 0;
    RemainderIs(x, 0x1_0000 * track, q, c * track + rest);
  }

  lemma ChsNumber(g: Geometry, t: TaskFile, cyl: nat, head: nat, sector: nat)
    requires ValidGeometry(g) && !Lba(t) && head < 16 && sector < 255
    ensures var t' := WithChs(t, cyl, head, sector);
            !Lba(t') && t'.nsector == t.nsector && GetSector(g, t') == cyl % 0x1_0000 * Track(g) + head * g.sectors + sector
  {
    hide ChsSector, Track, WithChs, Lba;
    WithChsFields(t, cyl, head, sector);
    TwoBytes(cyl);
    ChsSectorNumber(g, cyl % 0x1_0000, head, sector + 1);
  }

  lemma WithChsFields(t: TaskFile, cyl: nat, head: nat, sector: nat)
    requires head < 16 && sector < 255
    ensures var t' := WithChs(t, cyl, head, sector);
      && t'.nsector == t.nsector && t'.sector == sector + 1 && t'.select % 16 == head && Lba(t') == Lba(t)
      && t'.lcyl == cyl % 0x100 && t'.hcyl == cyl / 0x100 % 0x100
  {
    SelectKept(t.select, head);
  }

  lemma TwoBytes(v: nat)
    ensures v / 0x100 % 0x100 * 0x100 + v % 0x100 == v % 0x1_0000
  {
    var h, l := v / 0x100, v % 0x100;
    assert v == 0x1_0000 * (h / 0x100) + (h % 0x100 * 0x100 + l);
  }

  lemma ChsSectorNumber(g: Geometry, cyl: nat, head: nat, sector: nat)
    requires ValidGeometry(g)
    ensures ChsSector(g, cyl, head, sector) == cyl * Track(g) + head * g.sectors + (sector - 1)
  {
    CylinderTerm(cyl, g.heads, g.sectors);
  }

  lemma SelectKept(select: Byte, low: nat)
    requires low < 16
    ensures var s := select - select % 16 + low; s % 16 == low && s / 0x40 == select / 0x40 && s < 0x100
  {
  }

  lemma LbaDigits(x: nat)
    ensures x % 0x1000_0000 == x / 0x100_0000 % 16 * 0x100_0000 + x / 0x1_0000 % 0x100 * 0x1_0000 + x / 0x100 % 0x100 * 0x100 + x % 0x100
  {
    var a, b, c := x / 0x100, x / 0x1_0000, x / 0x100_0000;
    W.DivByBytes(x);
    assert x == 0x100 * a + x % 0x100 && a == 0x100 * b + a % 0x100 && b == 0x100 * c + b % 0x100 && c == 16 * (c / 16) + c % 16;
    RemainderIs(x, 0x1000_0000, c / 16, c % 16 * 0x100_0000 + b % 0x100 * 0x1_0000 + a % 0x100 * 0x100 + x % 0x100);
  }

  /** The digits of a sector number in cylinder, head and sector. */
  lemma ChsDigits(g: Geometry, x: nat)
    requires ValidGeometry(g)
    ensures Head(g, x) < g.heads && SectorInTrack(g, x) < g.sectors && Head(g, x) * g.sectors + SectorInTrack(g, x) < Track(g)
    ensures x == Cylinder(g, x) * Track(g) + Head(g, x) * g.sectors + SectorInTrack(g, x)
  {
    var track := Track(g);
    Quotients(x, track);
    QuotientBound(x % track, g.sectors, g.heads);
  }

  lemma Quotients(x: nat, d: nat)
    requires d > 0
    ensures x == x / d * d + x % d && x % d < d
  {
  }

  lemma QuotientBound(x: nat, d: nat, q: nat)
    requires d > 0 && x < q * d
    ensures x / d < q && x == x / d * d + x % d && x % d < d
  {
    Order(x / d, q, d);
  }

  lemma Order(a: nat, b: nat, d: nat)
    requires d > 0
    ensures a < b <==> a * d < b * d
  {
    if a < b { assert (b - a) * d > 0; } else { assert (a - b) * d >= 0; }
  }

  lemma CylinderTerm(cyl: nat, heads: nat, sectors: nat)
    ensures cyl * heads * sectors == cyl * (heads * sectors)
  {
  }

  // ---------- transfers ----------

  /** `end_transfer_func`. */
  datatype Next = ReadMore | ReadEnd | WriteBlock | Stop

  /** The count register, and how many sectors one block has. */
  function Sectors(nsector: Byte): (n: nat)
    ensures 1 <= n <= 256
  {
    if nsector == 0 then 256 else nsector
  }

  function BlockSize(nsector: Byte, req: nat): nat {
    if Sectors(nsector) > req then req else Sectors(nsector)
  }

  /** `(nsector - n) & 0xff`. */
  function Fewer(nsector: Byte, n: nat): Byte {
    var k: int := nsector;
    (k - n) % 0x100
  }

  /** What a block leaves of a command that ends at sector `end`. */
  lemma BlockLeaves(g: Geometry, lba: bool, nsector: Byte, req: nat, here: nat, end: nat)
    requires ValidGeometry(g) && 1 <= req <= MAX_MULT && here + Sectors(nsector) == end && Reachable(g, lba, end)
    ensures var n := BlockSize(nsector, req);
            1 <= n <= MAX_MULT && here + n + Fewer(nsector, n) == end && Reachable(g, lba, here + n)
  {
  }

  class Drive {
    const buffer: array<Byte>
    const geo: Geometry
    var task: TaskFile
    var status: nat
    var error: nat
    var mult: nat
    var req: nat
    var io: nat
    var next: Next
    var dataIndex: nat
    var dataEnd: nat
    /** The medium: a block device that refuses what lies outside it. */
    var disk: seq<Byte>

    constructor (geo: Geometry, disk: seq<Byte>)
      requires ValidGeometry(geo)
      ensures Valid() && this.disk == disk && this.geo == geo && fresh(buffer) && next == Stop && mult == MAX_MULT
    {
      buffer := new Byte[BUFFER](_ => 0);
      this.geo, this.disk := geo, disk;
      task := TaskFile(0, 0, 0, 0, 0xa0);
      status, error, mult, req, io := READY + SEEK, 0, MAX_MULT, 0, 0;
      next, dataIndex, dataEnd := Stop, 0, 0;
    }

    ghost predicate Valid()
      reads `mult
    {
      && buffer.Length == BUFFER && ValidGeometry(geo) && mult <= MAX_MULT
    }

    ghost function Here(): int
      reads `task
    {
      GetSector(geo, task)
    }

    /** The registers point behind the block, which may be behind the last sector that they can name. */
    ghost predicate Behind(end: nat)
      reads `task
    {
      ValidGeometry(geo) && task.nsector <= end && Here() == Wrapped(geo, Lba(task), end - task.nsector)
    }

    /**
     A read command that ends at sector `end` and whose next byte is the disk's byte `off`:
     the rest of the block is in the buffer, and the registers point behind it.
     */
    ghost predicate Reading(end: nat, off: nat)
      reads this, buffer
      ensures Reading(end, off) ==> SECTOR * end <= |disk| && off <= SECTOR * end && dataEnd % 4 == 0
      ensures Reading(end, off) ==> if off < SECTOR * end then dataIndex < dataEnd else dataIndex == dataEnd == 0
    {
      && Valid() && Reachable(geo, Lba(task), end) && SECTOR * end <= |disk| && off <= SECTOR * end
      && (off == SECTOR * end ==> next == Stop && dataIndex == dataEnd == 0 && task.nsector == 0 && status == 0x50
                                  && Here() == Wrapped(geo, Lba(task), end))
      && (off < SECTOR * end ==> InBlock(end, off, dataIndex))
    }

    /** The block in the buffer, of which the host takes byte `p` next, holds the disk's bytes from `off` on. */
    ghost predicate InBlock(end: nat, off: nat, p: nat)
      reads `task, `status, `mult, `next, `req, `dataEnd, `disk, buffer
    {
      && Valid() && p < dataEnd <= MAX_MULT * SECTOR && dataEnd % 4 == 0 && 1 <= req <= MAX_MULT && status == 0x58
      && Behind(end) && next == (if task.nsector == 0 then ReadEnd else ReadMore)
      && off == SECTOR * (end - task.nsector) - (dataEnd - p) && SECTOR * end <= |disk|
      && buffer[p..dataEnd] == disk[off..SECTOR * (end - task.nsector)]
    }

    lemma BlockSlice(end: nat, off: nat, k: nat)
      requires Reading(end, off) && k <= dataEnd - dataIndex
      ensures off + k <= SECTOR * end && dataIndex + k <= buffer.Length && buffer[dataIndex..dataIndex + k] == disk[off..off + k]
    {
      hide Behind, Reachable, Wrapped;
      if off < SECTOR * end { SliceSplit(buffer[..], disk, dataIndex, dataEnd, off, k); }
    }

    lemma BlockStarts(end: nat, sector: nat, n: nat)
      requires Valid() && 1 <= n <= MAX_MULT && dataEnd == SECTOR * n && 1 <= req <= MAX_MULT && status == 0x58
      requires next == (if task.nsector == 0 then ReadEnd else ReadMore) && sector + n + task.nsector == end && SECTOR * end <= |disk|
      requires Here() == Wrapped(geo, Lba(task), sector + n) && buffer[..SECTOR * n] == disk[SECTOR * sector..SECTOR * (sector + n)]
      ensures InBlock(end, SECTOR * sector, 0)
    {
      hide Here, Wrapped, Lba;
    }

    lemma StartInBuffer(end: nat, off: nat)
      requires Reading(end, off)
      ensures dataIndex <= dataEnd <= buffer.Length
    {
    }

    /** Less of a block is a block. */
    lemma BlockRest(end: nat, off: nat, p: nat, k: nat)
      requires p + k < dataEnd
      ensures InBlock(end, off, p) ==> InBlock(end, off + k, p + k)
    {
      hide Behind;
      if InBlock(end, off, p) { SliceSplit(buffer[..], disk, p, dataEnd, off, k); }
    }

    /** What a block says of the registers. */
    lemma BlockEnds(end: nat, off: nat)
      ensures InBlock(end, off, dataIndex) ==>
        && Behind(end) && next == (if task.nsector == 0 then ReadEnd else ReadMore) && 1 <= req <= MAX_MULT && dataIndex < dataEnd
        && off + (dataEnd - dataIndex) == SECTOR * (end - task.nsector)
    {
    }

    method TransferStart(size: nat, then_: Next)
      modifies this`next, this`dataIndex, this`dataEnd
      ensures next == then_ && dataIndex == 0 && dataEnd == size
    {
      next, dataIndex, dataEnd := then_, 0, size;
    }

    method TransferStop()
      modifies this`next, this`dataIndex, this`dataEnd
      ensures next == Stop && dataIndex == 0 && dataEnd == 0
    {
      next, dataIndex, dataEnd := Stop, 0, 0;
    }

    method AbortCommand()
      modifies this`status, this`error
      ensures status == 0x41 && error == 4
    {
      status, error := READY + ERR, 4;
    }

    /** The block device: `n` sectors from `sector` on into the buffer. */
    method ReadBlocks(sector: int, n: nat) returns (ok: bool)
      requires buffer.Length == BUFFER && n <= MAX_MULT
      modifies buffer
      ensures ok <==> 0 <= sector && SECTOR * (sector + n) <= |disk|
      ensures ok ==> buffer[..SECTOR * n] == disk[SECTOR * sector..SECTOR * (sector + n)]
    {
      ok := 0 <= sector && SECTOR * (sector + n) <= |disk|;
      if ok {
        var from := SECTOR * sector;
        forall i | 0 <= i < SECTOR * n { buffer[i] := disk[from + i]; }
      }
    }

    /** `ide_sector_read` and `ide_sector_read_cb`: the next block of a read. */
    method SectorRead(ghost end: nat)
      requires Valid() && Reachable(geo, Lba(task), end) && 1 <= req <= MAX_MULT
      requires 0 <= Here() && Here() + Sectors(task.nsector) == end
      modifies this, buffer
      ensures disk == old(disk) && mult == old(mult) && Lba(task) == old(Lba(task)) && Valid()
      ensures SECTOR * end <= |disk| ==> Reading(end, SECTOR * old(Here())) && dataIndex == 0
      ensures SECTOR * (old(Here()) + BlockSize(old(task.nsector), old(req))) > |disk| ==>
                status == 0x41 && task == old(task) && next == old(next)
    {
      hide GetSector, SetSector, Lba, Reachable, Fewer, BlockSize, Sectors, Wrapped, Capacity, InBlock;
      var sector := GetSector(geo, task);
      BlockLeaves(geo, Lba(task), task.nsector, req, sector, end);
      var n := BlockSize(task.nsector, req);
      io := n;
      var ok := ReadBlocks(sector, n);
      if !ok {
        AbortCommand();
        return;
      }
      AddressComesBack(geo, task, sector + n);
      var moved := SetSector(geo, task, sector + n);
      CountKept(geo, moved, Fewer(task.nsector, n));
      task := moved.(nsector := Fewer(task.nsector, n));
      TransferStart(SECTOR * n, if task.nsector == 0 then ReadEnd else ReadMore);
      status, error := READY + SEEK + DRQ, 0;
      if SECTOR * end <= |disk| { BlockStarts(end, sector, n); }
    }

    /** `end_transfer_func` of a read: the next block, or the end of the command. */
    method BlockRead(ghost end: nat)
      requires Valid() && Reachable(geo, Lba(task), end) && SECTOR * end <= |disk| && 1 <= req <= MAX_MULT
      requires Behind(end) && next == (if task.nsector == 0 then ReadEnd else ReadMore)
      modifies this, buffer
      ensures disk == old(disk) && mult == old(mult) && Lba(task) == old(Lba(task))
      ensures Reading(end, SECTOR * (end - old(task.nsector))) && dataIndex == 0
    {
      hide GetSector, SetSector, Lba, Wrapped, Capacity;
      WrapsAtEnd(geo, Lba(task), end - task.nsector);
      SectorsLeft(task.nsector);
      if next == ReadMore {
        SectorRead(end);
      } else {
        status, error := READY + SEEK, 0;
        TransferStop();
      }
    }

    /** The end of a data port access that has moved `data_index` by `k`. */
    method Advance(k: nat, ghost end: nat, ghost off: nat)
      requires Reading(end, off) && dataIndex + k <= dataEnd
      modifies this, buffer
      ensures disk == old(disk) && mult == old(mult) && Lba(task) == old(Lba(task))
      ensures Reading(end, off + k)
      ensures dataIndex == if old(dataIndex) + k < old(dataEnd) then old(dataIndex) + k else 0
    {
      hide Here, InBlock, Behind, Lba, Reachable, Wrapped;
      BlockEnds(end, off);
      if dataIndex + k < dataEnd { BlockRest(end, off, dataIndex, k); }
      dataIndex := dataIndex + k;
      if dataIndex >= dataEnd {
        if next == Stop { TransferStop(); } else { BlockRead(end); }
      }
    }

    /** `ide_data_readw`. */
    method ReadWord(ghost end: nat, ghost off: nat) returns (v: nat, k: nat)
      requires Reading(end, off)
      modifies this, buffer
      ensures disk == old(disk) && mult == old(mult) && Lba(task) == old(Lba(task))
      ensures Reading(end, off + k) && (k == 2 || (k == 0 && v == 0))
      ensures k == 2 <==> old(dataIndex + 2 <= dataEnd)
      ensures k == 2 ==> v == A.Value(disk[off..off + 2])
      ensures k == 2 ==> dataIndex == if old(dataIndex) + k < old(dataEnd) then old(dataIndex) + k else 0
    {
      hide InBlock, Here, Lba, Reachable, Wrapped;
      StartInBuffer(end, off);
      var p := dataIndex;
      if p + 2 > dataEnd { return 0, 0; }
      var b0: int, b1: int := buffer[p], buffer[p + 1];
      v, k := b0 + 0x100 * b1, 2;
      BlockSlice(end, off, 2);
      A.ValueOfBytes(disk[off..off + 2]);
      Advance(2, end, off);
    }

    /** `ide_data_readl`. */
    method ReadDword(ghost end: nat, ghost off: nat) returns (v: nat, k: nat)
      requires Reading(end, off)
      modifies this, buffer
      ensures disk == old(disk) && mult == old(mult) && Lba(task) == old(Lba(task))
      ensures Reading(end, off + k) && (k == 4 || (k == 0 && v == 0))
      ensures k == 4 <==> old(dataIndex + 4 <= dataEnd)
      ensures k == 4 ==> v == A.Value(disk[off..off + 4])
      ensures k == 4 ==> dataIndex == if old(dataIndex) + k < old(dataEnd) then old(dataIndex) + k else 0
    {
      hide InBlock, Here, Lba, Reachable, Wrapped;
      StartInBuffer(end, off);
      var p := dataIndex;
      if p + 4 > dataEnd { return 0, 0; }
      var b0: int, b1: int, b2: int, b3: int := buffer[p], buffer[p + 1], buffer[p + 2], buffer[p + 3];
      v, k := b0 + 0x100 * b1 + 0x1_0000 * b2 + 0x100_0000 * b3, 4;
      BlockSlice(end, off, 4);
      A.ValueOfBytes(disk[off..off + 4]);
      Advance(4, end, off);
    }

    /** `ide_data_read_string`: as many whole elements as the block still has. */
    method ReadString(size: nat, count: nat, ghost end: nat, ghost off: nat) returns (data: seq<Byte>)
      requires Reading(end, off) && (size == 2 || size == 4)
      modifies this, buffer
      ensures disk == old(disk) && mult == old(mult) && Lba(task) == old(Lba(task))
      ensures off + |data| <= SECTOR * end && data == disk[off..off + |data|] && Reading(end, off + |data|)
      ensures var rest := old(dataEnd - dataIndex); |data| == Whole(if size * count > rest then rest else size * count, size)
      ensures dataIndex == if old(dataIndex) + |data| < old(dataEnd) then old(dataIndex) + |data| else 0
    {
      hide InBlock, Here, Lba, Reachable, Wrapped, Whole;
      StartInBuffer(end, off);
      var len := size * count;
      if len > dataEnd - dataIndex { len := dataEnd - dataIndex; }
      len := Whole(len, size);
      data := buffer[dataIndex..dataIndex + len];
      BlockSlice(end, off, len);
      Advance(len, end, off);
    }

    // ---------- writing ----------

    /**
     A write command that ends at sector `end` and puts its next byte at the disk's byte `off`.
     With what lies in the buffer, the disk would be `image`.
     */
    ghost predicate Writing(end: nat, off: nat, image: seq<Byte>)
      reads this, buffer
      ensures Writing(end, off, image) ==> SECTOR * end <= |disk| == |image| && off <= SECTOR * end && dataEnd % 4 == 0
      ensures Writing(end, off, image) ==>
                if off < SECTOR * end then dataIndex < dataEnd && off + (dataEnd - dataIndex) <= SECTOR * end
                else dataIndex == dataEnd == 0 && disk == image
    {
      && Valid() && Reachable(geo, Lba(task), end) && SECTOR * end <= |disk| && off <= SECTOR * end && |image| == |disk|
      && (off == SECTOR * end ==> next == Stop && dataIndex == dataEnd == 0 && task.nsector == 0 && Here() == Wrapped(geo, Lba(task), end)
                                  && status == 0x50 && disk == image)
      && (off < SECTOR * end ==> Filling(end, off, image, dataIndex))
    }

    /** The host has put `p` bytes of the block into the buffer. */
    ghost predicate Filling(end: nat, off: nat, image: seq<Byte>, p: nat)
      reads `task, `status, `mult, `next, `req, `io, `dataEnd, `disk, buffer
    {
      && Valid() && p < dataEnd && dataEnd % 4 == 0 && dataEnd == SECTOR * io && 1 <= req <= MAX_MULT
      && status == 0x58 && next == WriteBlock && SECTOR * end <= |disk|
      && 0 <= Here() && Here() + Sectors(task.nsector) == end && io == BlockSize(task.nsector, req) && io <= MAX_MULT
      && Here() + io <= end && off == SECTOR * Here() + p && image == A.Splice(disk, SECTOR * Here(), buffer[..p])
    }

    /** What a block that is being filled says of the registers. */
    lemma FillingEnds(end: nat, off: nat, image: seq<Byte>, p: nat)
      ensures Filling(end, off, image, p) ==>
        && 0 <= Here() && Here() + Sectors(task.nsector) == end && io == BlockSize(task.nsector, req) && io <= MAX_MULT
        && 1 <= req <= MAX_MULT && Here() + io <= end && off == SECTOR * Here() + p && p < dataEnd == SECTOR * io
    {
    }

    /** More bytes in the buffer. */
    lemma FillsMore(end: nat, off: nat, image: seq<Byte>, p: nat, data: seq<Byte>)
      requires Filling(end, off, image, p) && p + |data| <= dataEnd && buffer[p..p + |data|] == data
      ensures 0 <= Here() && off + |data| <= |image| == |disk| && SECTOR * Here() + p + |data| <= |disk|
      ensures A.Splice(image, off, data) == A.Splice(disk, SECTOR * Here(), buffer[..p + |data|])
      ensures p + |data| < dataEnd ==> Filling(end, off + |data|, A.Splice(image, off, data), p + |data|)
    {
      hide GetSector, BlockSize, Sectors, A.Splice;
      assert buffer[..p] + data == buffer[..p + |data|];
      A.SpliceTwice(disk, SECTOR * Here(), buffer[..p], data);
    }

    /** `ide_sector_write`: the first block of a write. */
    method SectorWrite(ghost end: nat)
      requires Valid() && Reachable(geo, Lba(task), end) && SECTOR * end <= |disk| && 1 <= req <= MAX_MULT
      requires 0 <= Here() && Here() + Sectors(task.nsector) == end
      modifies this
      ensures disk == old(disk) && mult == old(mult) && task == old(task)
      ensures Writing(end, SECTOR * Here(), disk) && dataIndex == 0
    {
      hide GetSector, Lba, Reachable, Fewer, BlockSize, Sectors;
      BlockLeaves(geo, Lba(task), task.nsector, req, Here(), end);
      var n := BlockSize(task.nsector, req);
      io := n;
      TransferStart(SECTOR * n, WriteBlock);
      status := READY + SEEK + DRQ;
      assert A.Splice(disk, SECTOR * Here(), buffer[..0]) == disk;
    }

    /** The block device: `n` sectors of the buffer go to `sector` and after. */
    method WriteBlocks(sector: int, n: nat) returns (ok: bool)
      requires buffer.Length == BUFFER && n <= MAX_MULT
      modifies this`disk
      ensures ok <==> 0 <= sector && SECTOR * (sector + n) <= |old(disk)|
      ensures disk == if ok then A.Splice(old(disk), SECTOR * sector, buffer[..SECTOR * n]) else old(disk)
    {
      ok := 0 <= sector && SECTOR * (sector + n) <= |disk|;
      if ok { disk := A.Splice(disk, SECTOR * sector, buffer[..SECTOR * n]); }
    }

    /** `ide_sector_write_cb2`: a block has been written. */
    method WriteCb2(ghost end: nat)
      requires Valid() && Reachable(geo, Lba(task), end) && 1 <= req <= MAX_MULT
      requires next == Stop && dataIndex == dataEnd == 0
      requires 0 <= Here() && Here() + Sectors(task.nsector) == end && io == BlockSize(task.nsector, req) && io <= MAX_MULT
      modifies this
      ensures disk == old(disk) && mult == old(mult) && Lba(task) == old(Lba(task))
      ensures SECTOR * end <= |disk| ==> Writing(end, SECTOR * (old(Here()) + old(io)), disk) && dataIndex == 0
    {
      hide GetSector, SetSector, Lba, Reachable, Fewer, BlockSize, Sectors, Wrapped, Capacity;
      var n := io;
      var sector := GetSector(geo, task);
      BlockLeaves(geo, Lba(task), task.nsector, req, sector, end);
      AddressComesBack(geo, task, sector + n);
      WrapsAtEnd(geo, Lba(task), sector + n);
      var moved := SetSector(geo, task, sector + n);
      CountKept(geo, moved, Fewer(task.nsector, n));
      SectorsLeft(Fewer(task.nsector, n));
      task := moved.(nsector := Fewer(task.nsector, n));
      if task.nsector == 0 {
        status := READY + SEEK;
      } else {
        BlockLeaves(geo, Lba(task), task.nsector, req, sector + n, end);
        io := BlockSize(task.nsector, req);
        TransferStart(SECTOR * io, WriteBlock);
        status := READY + SEEK + DRQ;
        if SECTOR * end <= |disk| { assert A.Splice(disk, SECTOR * Here(), buffer[..0]) == disk; }
      }
    }

    /** `ide_sector_write_cb1`: a block is full. */
    method BlockWritten(ghost end: nat)
      requires Valid() && Reachable(geo, Lba(task), end) && 1 <= req <= MAX_MULT
      requires 0 <= Here() && Here() + Sectors(task.nsector) == end && io == BlockSize(task.nsector, req) && io <= MAX_MULT
      modifies this
      ensures SECTOR * end <= |old(disk)| ==>
                && mult == old(mult) && Lba(task) == old(Lba(task))
                && SECTOR * (old(Here()) + old(io)) <= |old(disk)|
                && disk == A.Splice(old(disk), SECTOR * old(Here()), buffer[..SECTOR * old(io)])
                && Writing(end, SECTOR * (old(Here()) + old(io)), disk) && dataIndex == 0
      ensures SECTOR * (old(Here()) + old(io)) > |old(disk)| ==>
                status == 0x41 && disk == old(disk) && task == old(task) && next == Stop
    {
      hide GetSector, Lba, Reachable, BlockSize, Sectors;
      BlockLeaves(geo, Lba(task), task.nsector, req, Here(), end);
      TransferStop();
      var ok := WriteBlocks(GetSector(geo, task), io);
      if ok { WriteCb2(end); } else { AbortCommand(); }
    }

    method AdvanceWrite(k: nat, ghost end: nat, ghost off: nat, ghost image: seq<Byte>, ghost data: seq<Byte>)
      requires Writing(end, off, image) && off < SECTOR * end && |data| == k && dataIndex + k <= dataEnd
      requires buffer[dataIndex..dataIndex + k] == data
      modifies this
      ensures mult == old(mult) && Lba(task) == old(Lba(task)) && |disk| == |old(disk)|
      ensures off + k <= SECTOR * end && Writing(end, off + k, A.Splice(image, off, data))
      ensures dataIndex == if old(dataIndex) + k < old(dataEnd) then old(dataIndex) + k else 0
    {
      hide Here, Lba, Reachable, BlockSize, Sectors, Wrapped, Filling, A.Splice;
      FillingEnds(end, off, image, dataIndex);
      FillsMore(end, off, image, dataIndex, data);
      dataIndex := dataIndex + k;
      if dataIndex >= dataEnd { BlockWritten(end); }
    }

    /** `ide_data_writew`: the low 16 bits of `v`. */
    method WriteWord(v: nat, ghost end: nat, ghost off: nat, ghost image: seq<Byte>) returns (k: nat)
      requires Writing(end, off, image)
      modifies this, buffer
      ensures mult == old(mult) && Lba(task) == old(Lba(task)) && |disk| == |old(disk)|
      ensures k == (if old(dataIndex + 2 <= dataEnd) then 2 else 0) && off + k <= SECTOR * end
      ensures Writing(end, off + k, A.Splice(image, off, A.Digits(v, k)))
      ensures k > 0 ==> dataIndex == if old(dataIndex) + k < old(dataEnd) then old(dataIndex) + k else 0
    {
      hide Here, Filling, Lba, Reachable, Wrapped;
      var p := dataIndex;
      if p + 2 > dataEnd {
        assert A.Splice(image, off, []) == image;
        return 0;
      }
      TwoDigits(v);
      PutBytes([v % 0x100, v / 0x100 % 0x100], end, off, image);
      AdvanceWrite(2, end, off, image, A.Digits(v, 2));
      k := 2;
    }

    /** `ide_data_writel`. */
    method WriteDword(v: nat, ghost end: nat, ghost off: nat, ghost image: seq<Byte>) returns (k: nat)
      requires Writing(end, off, image)
      modifies this, buffer
      ensures mult == old(mult) && Lba(task) == old(Lba(task)) && |disk| == |old(disk)|
      ensures k == (if old(dataIndex + 4 <= dataEnd) then 4 else 0) && off + k <= SECTOR * end
      ensures Writing(end, off + k, A.Splice(image, off, A.Digits(v, k)))
      ensures k > 0 ==> dataIndex == if old(dataIndex) + k < old(dataEnd) then old(dataIndex) + k else 0
    {
      hide Here, Filling, Lba, Reachable, Wrapped;
      var p := dataIndex;
      if p + 4 > dataEnd {
        assert A.Splice(image, off, []) == image;
        return 0;
      }
      FourDigits(v);
      PutBytes([v % 0x100, v / 0x100 % 0x100, v / 0x1_0000 % 0x100, v / 0x100_0000 % 0x100], end, off, image);
      AdvanceWrite(4, end, off, image, A.Digits(v, 4));
      k := 4;
    }

    /** `ide_data_write_string`: as many whole elements as the block still takes. */
    method WriteString(data: seq<Byte>, size: nat, ghost end: nat, ghost off: nat, ghost image: seq<Byte>) returns (k: nat)
      requires Writing(end, off, image) && (size == 2 || size == 4) && off < SECTOR * end
      modifies this, buffer
      ensures mult == old(mult) && Lba(task) == old(Lba(task)) && |disk| == |old(disk)|
      ensures var rest := old(dataEnd - dataIndex); k == Whole(if |data| > rest then rest else |data|, size)
      ensures k <= |data| && off + k <= SECTOR * end && Writing(end, off + k, A.Splice(image, off, data[..k]))
      ensures dataIndex == if old(dataIndex) + k < old(dataEnd) then old(dataIndex) + k else 0
    {
      hide Here, Filling, Lba, Reachable, Wrapped, Whole;
      var len := |data|;
      if len > dataEnd - dataIndex { len := dataEnd - dataIndex; }
      k := Whole(len, size);
      PutBytes(data[..k], end, off, image);
      AdvanceWrite(k, end, off, image, data[..k]);
    }

    /** Bytes go into the buffer behind those that are there. */
    method PutBytes(d: seq<Byte>, ghost end: nat, ghost off: nat, ghost image: seq<Byte>)
      requires Writing(end, off, image) && off < SECTOR * end && dataIndex + |d| <= dataEnd
      modifies buffer
      ensures Writing(end, off, image) && buffer[dataIndex..dataIndex + |d|] == d
    {
      hide GetSector, Lba, Reachable, BlockSize, Sectors, Wrapped, A.Splice;
      ghost var before := buffer[..dataIndex];
      forall i | 0 <= i < |d| { buffer[dataIndex + i] := d[i]; }
      assert buffer[..dataIndex] == before;
    }

    // ---------- commands ----------

    /** WIN_SETMULT. */
    method SetMultiple()
      requires Valid()
      modifies this`mult, this`status, this`error
      ensures Valid()
      ensures if task.nsector in {0, 1, 2, 4} then mult == task.nsector && status == 0x40 else mult == old(mult) && status == 0x41
    {
      if task.nsector > MAX_MULT || task.nsector == 3 {
        AbortCommand();
      } else {
        mult := task.nsector;
        status := READY;
      }
    }

    /** The registers name sectors that exist. */
    ghost predicate InRange()
      reads this
    {
      && Valid() && 0 <= Here()
      && Reachable(geo, Lba(task), Here() + Sectors(task.nsector)) && SECTOR * (Here() + Sectors(task.nsector)) <= |disk|
    }

    /** WIN_READ and WIN_MULTREAD. */
    method ReadCommand(multiple: bool)
      requires InRange()
      modifies this, buffer
      ensures disk == old(disk) && mult == old(mult) && Lba(task) == old(Lba(task))
      ensures if multiple && mult == 0 then status == 0x41 && task == old(task)
              else Reading(old(Here()) + Sectors(old(task.nsector)), SECTOR * old(Here())) && dataIndex == 0
    {
      hide GetSector, Reachable, Sectors, BlockSize;
      if multiple && mult == 0 {
        AbortCommand();
        return;
      }
      req := if multiple then mult else 1;
      SectorRead(Here() + Sectors(task.nsector));
    }

    /** WIN_WRITE and WIN_MULTWRITE. */
    method WriteCommand(multiple: bool)
      requires InRange()
      modifies this
      ensures disk == old(disk) && mult == old(mult) && Lba(task) == old(Lba(task))
      ensures if multiple && mult == 0 then status == 0x41 && task == old(task)
              else Writing(old(Here()) + Sectors(old(task.nsector)), SECTOR * old(Here()), disk) && dataIndex == 0
    {
      hide GetSector, Reachable, Sectors, BlockSize;
      if multiple && mult == 0 {
        AbortCommand();
        return;
      }
      req := if multiple then mult else 1;
      SectorWrite(Here() + Sectors(task.nsector));
    }

    // ---------- whole commands ----------

    /** One access to the data port by the host. */
    method ReadOne(op: PortAccess, ghost at: Place, ghost end: nat, ghost off: nat) returns (data: seq<Byte>)
      requires Reading(end, off) && dataIndex % 2 == 0 && (off < SECTOR * end ==> at.Holds(dataIndex) && op.Fits(at))
      modifies this, buffer
      ensures disk == old(disk) && mult == old(mult) && Lba(task) == old(Lba(task))
      ensures off + |data| <= SECTOR * end && data == disk[off..off + |data|] && Reading(end, off + |data|)
      ensures (off < SECTOR * end ==> |data| >= 2) && dataIndex % 2 == 0
      ensures off < SECTOR * end ==> op.After(at).Holds(dataIndex)
    {
      hide Reading, Lba, A.Value, A.Digits, Whole;
      ghost var p, e := dataIndex, dataEnd;
      if off < SECTOR * end { PortStep(op, at, p, e); }
      match op {
        case Word =>
          var v, k := ReadWord(end, off);
          data := if k == 2 then A.Digits(v, 2) else [];
          if k == 2 { A.DigitsOfValue(disk[off..off + 2]); }
        case Dword =>
          var v, k := ReadDword(end, off);
          data := if k == 4 then A.Digits(v, 4) else [];
          if k == 4 { A.DigitsOfValue(disk[off..off + 4]); }
        case Words(count) => data := ReadString(2, count, end, off);
        case Dwords(count) => data := ReadString(4, count, end, off);
      }
      assert off < SECTOR * end ==> |data| == op.Moves(e - p);
    }

    /**
     The host drains a read by any aligned accesses. What it has received is the disk's bytes in order;
     once it has received them all, the command is over, the count is 0 and the address is behind the last sector.
     */
    method HostReads(ops: seq<PortAccess>, ghost end: nat, ghost off: nat) returns (data: seq<Byte>)
      requires Reading(end, off) && dataIndex % 4 == 0 && AlignedAccesses(ops, AtDword)
      modifies this, buffer
      ensures disk == old(disk) && mult == old(mult) && Lba(task) == old(Lba(task))
      ensures off + |data| <= SECTOR * end && data == disk[off..off + |data|] && Reading(end, off + |data|)
      ensures off + |data| == SECTOR * end || |data| >= 2 * |ops|
    {
      hide Reading, Lba, Place.Holds, PortAccess.Fits, PortAccess.After, PortAccess.Moves, AlignedAccesses;
      data := [];
      ghost var at := AtDword;
      DwordHolds(dataIndex);
      for n := 0 to |ops|
        invariant disk == old(disk) && mult == old(mult) && Lba(task) == old(Lba(task)) && SECTOR * end <= |disk|
        invariant off + |data| <= SECTOR * end && data == disk[off..off + |data|] && Reading(end, off + |data|) && dataIndex % 2 == 0
        invariant off + |data| == SECTOR * end || (|data| >= 2 * n && at.Holds(dataIndex) && AlignedAccesses(ops[n..], at))
      {
        if off + |data| < SECTOR * end { NextAccess(ops, n, at); }
        var more := ReadOne(ops[n], at, end, off + |data|);
        at := ops[n].After(at);
        SliceMore(disk, off, data, more);
        data := data + more;
      }
    }

    /** `count` elements of what the host has to write, or all that is left. */
    method WriteElements(size: nat, count: nat, data: seq<Byte>, ghost end: nat, ghost off: nat, ghost image: seq<Byte>) returns (k: nat)
      requires Writing(end, off, image) && (size == 2 || size == 4)
      requires off < SECTOR * end && |data| == SECTOR * end - off
      modifies this, buffer
      ensures mult == old(mult) && Lba(task) == old(Lba(task)) && |disk| == |old(disk)|
      ensures k == (if size == 2 then Words(count).Moves(old(dataEnd - dataIndex)) else Dwords(count).Moves(old(dataEnd - dataIndex)))
      ensures k <= |data| && Writing(end, off + k, A.Splice(image, off, data[..k]))
      ensures dataIndex == if old(dataIndex) + k < old(dataEnd) then old(dataIndex) + k else 0
    {
      hide Writing, Lba, A.Splice;
      var n := if size == 2 then 2 * count else 4 * count;
      var part := data[..if n > |data| then |data| else n];
      k := WriteString(part, size, end, off, image);
      assert part[..k] == data[..k];
    }

    /** One access to the data port by the host, which has `data` still to write. */
    method WriteOne(op: PortAccess, ghost at: Place, data: seq<Byte>, ghost end: nat, ghost off: nat, ghost image: seq<Byte>) returns (k: nat)
      requires Writing(end, off, image) && dataIndex % 2 == 0 && at.Holds(dataIndex) && op.Fits(at)
      requires off < SECTOR * end && |data| == SECTOR * end - off
      modifies this, buffer
      ensures mult == old(mult) && Lba(task) == old(Lba(task)) && |disk| == |old(disk)|
      ensures 2 <= k <= |data| && Writing(end, off + k, A.Splice(image, off, data[..k]))
      ensures dataIndex % 2 == 0 && op.After(at).Holds(dataIndex)
    {
      hide Writing, Lba, A.Value, A.Digits, Whole, A.Splice;
      PortStep(op, at, dataIndex, dataEnd);
      match op {
        case Word =>
          A.DigitsOfValue(data[..2]);
          k := WriteWord(A.Value(data[..2]), end, off, image);
        case Dword =>
          A.DigitsOfValue(data[..4]);
          k := WriteDword(A.Value(data[..4]), end, off, image);
        case Words(count) =>
          k := WriteElements(2, count, data, end, off, image);
        case Dwords(count) =>
          k := WriteElements(4, count, data, end, off, image);
      }
    }

    /**
     The host fills a write by any aligned accesses. What it has written lies on the disk at the place of
     the command once the command is over, and nothing else on the disk has changed.
     */
    method HostWrites(ops: seq<PortAccess>, data: seq<Byte>, ghost end: nat, ghost off: nat, ghost image: seq<Byte>) returns (k: nat)
      requires Writing(end, off, image) && dataIndex % 4 == 0 && AlignedAccesses(ops, AtDword) && |data| == SECTOR * end - off
      modifies this, buffer
      ensures mult == old(mult) && Lba(task) == old(Lba(task)) && |disk| == |old(disk)|
      ensures k <= |data| && Writing(end, off + k, A.Splice(image, off, data[..k]))
      ensures k == |data| || k >= 2 * |ops|
    {
      hide Writing, Lba, A.Splice, Place.Holds, PortAccess.Fits, PortAccess.After, PortAccess.Moves, AlignedAccesses;
      k := 0;
      ghost var at := AtDword;
      DwordHolds(dataIndex);
      SpliceNothing(image, off, data);
      for n := 0 to |ops|
        invariant mult == old(mult) && Lba(task) == old(Lba(task)) && |disk| == |old(disk)|
        invariant k <= |data| && Writing(end, off + k, A.Splice(image, off, data[..k])) && dataIndex % 2 == 0
        invariant k == |data| || (k >= 2 * n && at.Holds(dataIndex) && AlignedAccesses(ops[n..], at))
      {
        if k < |data| {
          NextAccess(ops, n, at);
          var more := WriteOne(ops[n], at, data[k..], end, off + k, A.Splice(image, off, data[..k]));
          SpliceOn(image, off, data, k, more);
          k := k + more;
          at := ops[n].After(at);
        }
      }
    }

    /**
     A whole read command, drained by enough aligned accesses: the bytes of its sectors in order,
     then a count of 0 and the address of the sector after the last.
     */
    method ReadWhole(multiple: bool, fetches: seq<PortAccess>) returns (data: seq<Byte>)
      requires InRange() && (multiple ==> mult > 0)
      requires AlignedAccesses(fetches, AtDword) && 2 * |fetches| >= SECTOR * Sectors(task.nsector)
      modifies this, buffer
      ensures disk == old(disk) && mult == old(mult) && Valid()
      ensures data == disk[SECTOR * old(Here())..SECTOR * (old(Here()) + Sectors(old(task.nsector)))]
      ensures task.nsector == 0 && next == Stop && status == 0x50
      ensures var end := old(Here()) + Sectors(old(task.nsector));
        && 0 <= end && Here() == Wrapped(geo, Lba(task), end)
        && (Here() == end <==> end < Capacity(geo, Lba(task)))
    {
      hide GetSector, Sectors, BlockSize, Lba, Reachable, Wrapped, Capacity, Reading;
      ghost var end, off := Here() + Sectors(task.nsector), SECTOR * Here();
      WrapsAtEnd(geo, Lba(task), end);
      ReadCommand(multiple);
      data := HostReads(fetches, end, off);
      ReadingEnds(end);
    }

    lemma ReadingEnds(end: nat)
      ensures Reading(end, SECTOR * end) ==>
        task.nsector == 0 && Here() == Wrapped(geo, Lba(task), end) && next == Stop && status == 0x50 && Valid()
    {
    }

    lemma WritingEnds(end: nat, image: seq<Byte>)
      ensures Writing(end, SECTOR * end, image) ==>
        && task.nsector == 0 && Here() == Wrapped(geo, Lba(task), end) && next == Stop && status == 0x50 && Valid()
        && disk == image
    {
    }

    /** A whole write command: its sectors hold the data, every other byte of the disk is as it was. */
    method WriteWhole(data: seq<Byte>, multiple: bool, stores: seq<PortAccess>)
      requires InRange() && (multiple ==> mult > 0) && |data| == SECTOR * Sectors(task.nsector)
      requires AlignedAccesses(stores, AtDword) && 2 * |stores| >= |data|
      modifies this, buffer
      ensures disk == A.Splice(old(disk), SECTOR * old(Here()), data) && mult == old(mult) && Valid()
      ensures task.nsector == 0 && next == Stop && status == 0x50
      ensures var end := old(Here()) + Sectors(old(task.nsector));
        && 0 <= end && Here() == Wrapped(geo, Lba(task), end)
        && (Here() == end <==> end < Capacity(geo, Lba(task)))
    {
      hide GetSector, Sectors, BlockSize, Lba, Reachable, A.Splice, Wrapped, Capacity, Writing;
      ghost var end, off, image := Here() + Sectors(task.nsector), SECTOR * Here(), disk;
      WrapsAtEnd(geo, Lba(task), end);
      WriteCommand(multiple);
      var k := HostWrites(stores, data, end, off, image);
      assert data[..k] == data;
      WritingEnds(end, A.Splice(image, off, data));
    }

    /** The two compose: after a write, a read of the same sectors gives the host its own bytes back. */
    method WriteThenRead(data: seq<Byte>, multiple: bool, stores: seq<PortAccess>, fetches: seq<PortAccess>) returns (back: seq<Byte>)
      requires InRange() && (multiple ==> mult > 0) && |data| == SECTOR * Sectors(task.nsector)
      requires AlignedAccesses(stores, AtDword) && AlignedAccesses(fetches, AtDword) && 2 * |stores| >= |data| && 2 * |fetches| >= |data|
      modifies this, buffer
      ensures back == data && disk == A.Splice(old(disk), SECTOR * old(Here()), data)
    {
      hide GetSector, Sectors, A.Splice, Lba, Reachable, AlignedAccesses;
      ghost var image, off := disk, SECTOR * Here();
      var registers := task;
      WriteWhole(data, multiple, stores);
      task := registers;
      back := ReadWhole(multiple, fetches);
      SpliceBack(image, off, data);
    }
  }

  lemma SpliceNothing(m: seq<Byte>, a: nat, d: seq<Byte>)
    requires a + |d| <= |m|
    ensures A.Splice(m, a, d[..0]) == m
  {
  }

  lemma SpliceOn(m: seq<Byte>, a: nat, d: seq<Byte>, k: nat, more: nat)
    requires a + |d| <= |m| && k + more <= |d|
    ensures A.Splice(A.Splice(m, a, d[..k]), a + k, d[k..][..more]) == A.Splice(m, a, d[..k + more])
  {
    A.SpliceTwice(m, a, d[..k], d[k..][..more]);
    assert d[..k] + d[k..][..more] == d[..k + more];
  }

  lemma SpliceBack(m: seq<Byte>, a: nat, d: seq<Byte>)
    requires a + |d| <= |m|
    ensures A.Splice(m, a, d)[a..a + |d|] == d
  {
  }

  /** What the host knows of its place in the block: at a multiple of four, two bytes behind one, or neither. */
  datatype Place = AtDword | AtWord | Unsure {
    predicate Holds(p: nat) {
      match this
      case AtDword => p % 4 == 0
      case AtWord => p % 4 == 2
      case Unsure => p % 2 == 0
    }
  }

  /** How the host accesses the data port: by words, by dwords, or by strings of either. */
  datatype PortAccess = Word | Dword | Words(count: nat) | Dwords(count: nat) {
    /** Dwords start at multiples of four; words and strings of words start anywhere. */
    predicate Fits(at: Place) {
      match this
      case Word => true
      case Dword => at.AtDword?
      case Words(count) => count > 0
      case Dwords(count) => at.AtDword? && count > 0
    }

    /** A string of words can end with the block and at the start of the next one. */
    function After(at: Place): Place {
      match this
      case Word => if at.AtDword? then AtWord else if at.AtWord? then AtDword else Unsure
      case Words(count) => if at.AtDword? && count % 2 == 0 then AtDword else Unsure
      case _ => AtDword
    }

    /** How many bytes move when `rest` are left in the block. */
    function Moves(rest: nat): nat {
      match this
      case Word => if 2 <= rest then 2 else 0
      case Dword => if 4 <= rest then 4 else 0
      case Words(count) => Whole(if 2 * count > rest then rest else 2 * count, 2)
      case Dwords(count) => Whole(if 4 * count > rest then rest else 4 * count, 4)
    }
  }

  lemma OfFour(q: nat, r: nat)
    requires r < 4
    ensures (4 * q + r) % 4 == r && (4 * q + r) % 2 == r % 2
  {
    RemainderOfFour(q, r);
    RemainderOfTwo(2 * q + r / 2, r % 2);
  }

  lemma RemainderOfFour(q: nat, r: nat)
    requires r < 4
    ensures (4 * q + r) % 4 == r
  {
  }

  lemma RemainderOfTwo(q: nat, r: nat)
    requires r < 2
    ensures (2 * q + r) % 2 == r
  {
  }

  /** Where the next access starts, in a block that ends at `e`. */
  function NextAt(p: nat, k: nat, e: nat): nat {
    if p + k < e then p + k else 0
  }

  /** An access that fits moves something, and the host knows as much of its next place as it should. */
  lemma PortStep(op: PortAccess, at: Place, p: nat, e: nat)
    requires p < e && e % 4 == 0 && p % 2 == 0 && at.Holds(p) && op.Fits(at)
    ensures op.Moves(e - p) >= 2 && (op.Dword? ==> op.Moves(e - p) == 4)
    ensures var q := NextAt(p, op.Moves(e - p), e); q % 2 == 0 && op.After(at).Holds(q)
  {
    hide Whole, NextAt;
    if op.Word? {
      WordStep(p, e);
    } else if at.AtDword? && !(op.Words? && op.count % 2 == 1) {
      DwordsStep(op, p, e);
    } else {
      WordsStep(op.count, p, e);
    }
  }

  lemma DwordsStep(op: PortAccess, p: nat, e: nat)
    requires p < e && e % 4 == 0 && p % 4 == 0 && !op.Word? && op.Fits(AtDword) && (op.Words? ==> op.count % 2 == 0)
    ensures op.Moves(e - p) >= 4 && (op.Dword? ==> op.Moves(e - p) == 4)
    ensures var q := NextAt(p, op.Moves(e - p), e); q % 4 == 0 && q % 2 == 0
  {
    hide Whole;
    var a, b := p / 4, e / 4;
    assert p == 4 * a && e == 4 * b;
    match op
    case Word =>
    case Dword => AlignedStep(a, b, 1);
    case Words(count) =>
      assert 2 * count == 4 * (count / 2);
      AlignedStep(a, b, count / 2);
    case Dwords(count) => AlignedStep(a, b, count);
  }

  lemma WordStep(p: nat, e: nat)
    requires p < e && e % 4 == 0 && p % 2 == 0
    ensures e - p >= 2 && var q := NextAt(p, 2, e); q % 2 == 0 && (q % 4 == 0 <==> p % 4 == 2) && (q % 4 == 2 <==> p % 4 == 0)
  {
    var a, b := p / 4, e / 4;
    assert p == 4 * a + p % 4 && e == 4 * b;
    OfFour(a, p % 4);
    if p % 4 == 0 { OfFour(a, 2); } else { OfFour(a + 1, 0); }
  }

  lemma WordsStep(count: nat, p: nat, e: nat)
    requires p < e && e % 4 == 0 && p % 2 == 0 && count > 0
    ensures var k := Words(count).Moves(e - p); k >= 2 && NextAt(p, k, e) % 2 == 0
  {
    hide Whole;
    var a, b := p / 2, 2 * (e / 4);
    assert p == 2 * a && e == 2 * b;
    var n := if count > b - a then b - a else count;
    EvenWhole(n);
    assert Words(count).Moves(e - p) == 2 * n && p + 2 * n == 2 * (a + n);
    RemainderOfTwo(a + n, 0);
  }

  lemma EvenWhole(n: nat)
    ensures Whole(2 * n, 2) == 2 * n
  {
  }

  /** `n` dwords from dword `a` on, in a block of `b`. */
  lemma AlignedStep(a: nat, b: nat, n: nat)
    requires a < b && n > 0
    ensures var len := if 4 * n > 4 * b - 4 * a then 4 * b - 4 * a else 4 * n;
            && len % 4 == 0 && len >= 4
            && var q := NextAt(4 * a, len, 4 * b); q % 4 == 0 && q % 2 == 0
  {
    var k := if n > b - a then b - a else n;
    assert 4 * a + 4 * k == 4 * (a + k);
    OfFour(a + k, 0);
  }

  predicate AlignedAccesses(ops: seq<PortAccess>, at: Place)
    decreases |ops|
  {
    ops == [] || (ops[0].Fits(at) && AlignedAccesses(ops[1..], ops[0].After(at)))
  }

  lemma DwordHolds(p: nat)
    requires p % 4 == 0
    ensures AtDword.Holds(p) && p % 2 == 0
  {
    OfFour(p / 4, 0);
  }

  lemma NextAccess(ops: seq<PortAccess>, n: nat, at: Place)
    requires n < |ops| && AlignedAccesses(ops[n..], at)
    ensures ops[n].Fits(at) && AlignedAccesses(ops[n + 1..], ops[n].After(at))
  {
    assert ops[n..][0] == ops[n] && ops[n..][1..] == ops[n + 1..];
  }

  /** A slice that is the same in both is so before and behind a point. */
  lemma SliceSplit(b: seq<Byte>, d: seq<Byte>, i: nat, e: nat, off: nat, k: nat)
    requires i <= e <= |b| && off + (e - i) <= |d| && b[i..e] == d[off..off + (e - i)] && i + k <= e
    ensures b[i..i + k] == d[off..off + k] && b[i + k..e] == d[off + k..off + (e - i)]
  {
    assert b[i..i + k] == b[i..e][..k] && b[i + k..e] == b[i..e][k..];
    assert d[off..off + k] == d[off..off + (e - i)][..k] && d[off + k..off + (e - i)] == d[off..off + (e - i)][k..];
  }

  /** Two slices that follow each other. */
  lemma SliceMore(d: seq<Byte>, off: nat, a: seq<Byte>, b: seq<Byte>)
    requires off + |a| + |b| <= |d| && a == d[off..off + |a|] && b == d[off + |a|..off + |a| + |b|]
    ensures a + b == d[off..off + |a + b|]
  {
  }

  lemma SectorsLeft(nsector: Byte)
    ensures nsector > 0 ==> Sectors(nsector) == nsector
  {
  }

  lemma TwoDigits(v: nat)
    ensures A.Digits(v, 2) == [v % 0x100, v / 0x100 % 0x100]
  {
  }

  lemma FourDigits(v: nat)
    ensures A.Digits(v, 4) == [v % 0x100, v / 0x100 % 0x100, v / 0x1_0000 % 0x100, v / 0x100_0000 % 0x100]
  {
    W.DivByBytes(v);
    TwoDigits(v);
    TwoDigits(v / 0x1_0000);
    hide W.Shr;
    A.SplitDigits(v, 2, 2);
    W.Constants(v);
  }

  /** `len - len % size`. */
  function Whole(len: nat, size: nat): (r: nat)
    requires size == 2 || size == 4
    ensures r <= len < r + size && r % 2 == 0 && (len % 4 == 0 ==> r == len)
  {
    if size == 2 then len - len % 2 else len - len % 4
  }

  /** The address does not depend on the count register. */
  lemma CountKept(g: Geometry, t: TaskFile, n: Byte)
    ensures GetSector(g, t.(nsector := n)) == GetSector(g, t) && Lba(t.(nsector := n)) == Lba(t)
  {
  }
}
