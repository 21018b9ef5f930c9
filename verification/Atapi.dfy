/**
 The CD-ROM side of the IDE drive: a packet read is sent to the host in announced blocks of
 at most the byte count limit, each of them in pieces that end with a sector of the disc.
 */
module Atapi {
  import opened EntryBits
  import A = SplitAccess
  import opened IdePio

  const CD_SECTOR := 2048

  /** `end_transfer_func`. */
  datatype Reply = ReplyEnd | Stop2

  function Sum(s: seq<nat>): nat
    decreases |s|
  {
    if s == [] then 0 else Sum(s[..|s| - 1]) + s[|s| - 1]
  }

  lemma SumMore(s: seq<nat>, n: nat)
    ensures Sum(s + [n]) == Sum(s) + n
  {
    assert (s + [n])[..|s|] == s;
  }

  /** The largest block that a host with `limit` in the byte count registers is sent. */
  function BlockLimit(limit: nat): nat {
    if limit == 0xffff then 0xfffe else limit
  }

  /** The blocks announced so far obey the limit and add up to what has been promised. */
  predicate BlocksOk(announced: seq<nat>, start: nat, promised: nat, limit: nat) {
    start + Sum(announced) == promised && forall i :: 0 <= i < |announced| ==> announced[i] <= limit
  }

  /** The size of the next block, when `left` bytes are left. */
  function BlockOf(left: nat, count: nat): nat {
    var most := BlockLimit(count);
    if left > most then most - most % 2 else left
  }

  lemma BlockIsRight(left: nat, count: nat, limit: nat)
    requires left > 0 && left % 2 == 0 && 2 <= count < 0x1_0000 && BlockLimit(count) <= limit
    ensures var size := BlockOf(left, count);
            && 2 <= size <= left && size % 2 == 0 && size <= limit
            && (size < left ==> size < 0xffff)
  {
  }

  /** A block that is not the last one is the largest even number within the host's limit. */
  lemma BlockFillsLimit(left: nat, count: nat)
    requires left > 0 && left % 2 == 0 && 2 <= count < 0x1_0000
    ensures var size := BlockOf(left, count); if left > count then size == count - count % 2 else size == left
  {
  }

  lemma CountDigits(size: nat)
    ensures size % 0x100 + 0x100 * (size / 0x100 % 0x100) == size % 0x1_0000
  {
    var h := size / 0x100;
    assert size == 0x100 * h + size % 0x100 && h == 0x100 * (h / 0x100) + h % 0x100;
    assert size == 0x1_0000 * (h / 0x100) + (0x100 * (h % 0x100) + size % 0x100);
  }

  /** How far a command has come: `packet` bytes are left of it, and `elementary` of the announced block. */
  datatype Cursor = Cursor(packet: int, elementary: int, ioIndex: int, count: nat)

  predicate Sending(c: Cursor, announced: seq<nat>, start: nat, end: nat, at: nat, limit: nat) {
    && start <= at <= end && end % CD_SECTOR == 0 && c.packet == end - at && 0 <= c.elementary <= c.packet
    && c.ioIndex % 2 == 0 && c.packet % 2 == 0 && c.elementary % 2 == 0
    && BlocksOk(announced, start, at + c.elementary, limit)
    && (c.elementary < c.packet ==> 2 <= c.count < 0x1_0000 && BlockLimit(c.count) <= limit)
  }

  lemma AnnounceKeeps(c: Cursor, announced: seq<nat>, start: nat, end: nat, at: nat, limit: nat)
    requires Sending(c, announced, start, end, at, limit) && c.elementary == 0 && c.packet > 0
    ensures var size := BlockOf(c.packet, c.count);
            && size > 0
            && Sending(c.(elementary := size, count := size % 0x1_0000), announced + [size], start, end, at, limit)
  {
    BlockIsRight(c.packet, c.count, limit);
    SumMore(announced, BlockOf(c.packet, c.count));
    hide Sum, BlockOf;
  }

  /** A piece of an announced block. */
  function PieceOf(c: Cursor): int {
    if CD_SECTOR - c.ioIndex > c.elementary then c.elementary else CD_SECTOR - c.ioIndex
  }

  function Sent(c: Cursor): Cursor {
    var size := PieceOf(c);
    Cursor(c.packet - size, c.elementary - size, c.ioIndex + size, c.count)
  }

  lemma PieceKeeps(c: Cursor, announced: seq<nat>, start: nat, end: nat, at: nat, limit: nat)
    requires Sending(c, announced, start, end, at, limit) && c.elementary > 0 && 0 <= c.ioIndex < CD_SECTOR
    ensures var size := PieceOf(c);
            && 2 <= size <= CD_SECTOR - c.ioIndex && c.ioIndex % 2 == 0 && (c.ioIndex + size) % 2 == 0 && start <= at && at + size <= end
            && Sending(Sent(c), announced, start, end, at + size, limit)
  {
    hide BlocksOk, BlockLimit;
  }

  /** All that is left is in dwords, and so is the next block. */
  predicate Quad(c: Cursor) {
    && c.packet % 4 == 0 && c.elementary % 4 == 0 && c.ioIndex % 4 == 0
    && (c.elementary < c.packet ==> DwordsFinish(c.count, c.packet))
  }

  /** With `count` in the byte count registers, `total` bytes go out in whole dwords. */
  predicate DwordsFinish(count: nat, total: int) {
    total <= BlockLimit(count) || count % 4 < 2
  }

  lemma AnnounceQuad(c: Cursor)
    requires Quad(c) && c.elementary == 0 && c.packet > 0 && 0 <= c.count < 0x1_0000
    ensures var size := BlockOf(c.packet, c.count); Quad(c.(elementary := size, count := size % 0x1_0000))
  {
    var q, r := c.count / 4, c.count % 4;
    assert c.count == 4 * q + r;
    OfFour(q, r);
    OfFour(q, 0);
    if c.packet > BlockLimit(c.count) {
      assert r < 2 && c.count != 0xffff && BlockOf(c.packet, c.count) == 4 * q < 0x1_0000;
    }
  }

  lemma PieceQuad(c: Cursor)
    requires Quad(c) && 0 <= c.ioIndex < CD_SECTOR && 0 <= c.elementary <= c.packet
    ensures PieceOf(c) % 4 == 0 && Quad(Sent(c))
  {
  }

  lemma StartsQuad(n: nat, count: nat)
    requires DwordsFinish(count, CD_SECTOR * n)
    ensures Quad(Cursor(CD_SECTOR * n, 0, CD_SECTOR, count))
  {
    assert CD_SECTOR * n == 4 * (0x200 * n);
  }

  /** A limit below 2 leaves no room for a word. */
  lemma NoBlock(left: nat, count: nat)
    requires count < 2 <= left
    ensures BlockOf(left, count) == 0
  {
  }

  lemma OddBlock(count: nat, total: nat)
    requires !DwordsFinish(count, total) && count < 0x1_0000
    ensures BlockOf(total, count) % 4 == 2 && BlockOf(total, count) < total
  {
    var q, r := count / 4, count % 4;
    assert count == 4 * q + r && (r == 2 || r == 3);
    OfFour(q, r);
    OfFour(q, 2);
    var most := BlockLimit(count);
    if count == 0xffff { OfFour(0x3fff, 2); }
    assert most - most % 2 == 4 * q + 2;
  }

  class CdDrive {
    const buffer: array<Byte>
    const disc: seq<Byte>
    /** The byte count registers. */
    var lcyl: Byte
    var hcyl: Byte
    var drq: bool
    var err: bool
    var packet: int
    var elementary: int
    var ioIndex: int
    var lba: int
    var next: Reply
    var dataIndex: nat
    var dataEnd: nat
    /** The sizes of the blocks announced since the command began. */
    ghost var announced: seq<nat>

    constructor (disc: seq<Byte>)
      ensures Valid() && this.disc == disc && fresh(buffer)
    {
      buffer := new Byte[BUFFER](_ => 0);
      this.disc := disc;
      lcyl, hcyl, drq, err := 0x14, 0xeb, false, false;
      packet, elementary, ioIndex, lba, next, dataIndex, dataEnd := 0, 0, 0, -1, Stop2, 0, 0;
      announced := [];
    }

    ghost predicate Valid() {
      buffer.Length == BUFFER
    }

    function Count(): (n: nat)
      reads `lcyl, `hcyl
      ensures n < 0x1_0000
    {
      lcyl as int + 0x100 * hcyl as int
    }

    /** The disc's byte `at` is the buffer's byte `ioIndex`, or the first of sector `lba` when the buffer is used up. */
    ghost predicate Buffered(at: nat)
      reads `lba, `ioIndex, buffer
    {
      && buffer.Length == BUFFER && lba >= 0 && 0 <= ioIndex <= CD_SECTOR && at == CD_SECTOR * (lba - 1) + ioIndex
      && (ioIndex < CD_SECTOR ==>
            lba >= 1 && CD_SECTOR * lba <= |disc| && buffer[..CD_SECTOR] == disc[CD_SECTOR * (lba - 1)..CD_SECTOR * lba])
    }

    /**
     A read of the bytes `start..end` of the disc, of which the host has taken those before `off`.
     */
    ghost predicate Serving(start: nat, end: nat, off: nat, limit: nat)
      reads this, buffer
      ensures Serving(start, end, off, limit) ==>
                && off <= end <= |disc| && dataEnd <= CD_SECTOR && dataEnd % 2 == 0 && dataIndex % 2 == 0
                && if off < end then dataIndex < dataEnd && off + (dataEnd - dataIndex) <= end else dataIndex == dataEnd == 0
    {
      && Valid() && start <= off <= end <= |disc|
      && (off == end ==> next == Stop2 && dataIndex == dataEnd == 0 && !drq && !err && BlocksOk(announced, start, end, limit))
      && (off < end ==> InPiece(start, end, off, limit, dataIndex))
    }

    /** The piece in the buffer, of which the host takes byte `p` next, holds the disc's bytes from `off` on. */
    ghost predicate InPiece(start: nat, end: nat, off: nat, limit: nat, p: nat)
      reads `packet, `elementary, `lcyl, `hcyl, `lba, `ioIndex, `announced, `next, `drq, `err, `dataEnd, buffer
    {
      && Valid() && next == ReplyEnd && drq && !err && p % 2 == 0 && p < dataEnd <= CD_SECTOR && ioIndex == dataEnd && dataEnd % 2 == 0
      && Between(start, end, off + (dataEnd - p), limit) && off + (dataEnd - p) <= end <= |disc|
      && buffer[p..dataEnd] == disc[off..off + (dataEnd - p)]
    }

    ghost function Cur(): Cursor
      reads `packet, `elementary, `ioIndex, `lcyl, `hcyl
    {
      Cursor(packet, elementary, ioIndex, Count())
    }

    /** Between two pieces: the next byte to send is the disc's byte `at`. */
    ghost predicate Between(start: nat, end: nat, at: nat, limit: nat)
      reads `packet, `elementary, `lcyl, `hcyl, `lba, `ioIndex, `announced, buffer
    {
      Buffered(at) && Sending(Cur(), announced, start, end, at, limit)
    }

    method TransferStart(off: nat, size: nat)
      modifies this`next, this`dataIndex, this`dataEnd, this`drq
      ensures next == ReplyEnd && dataIndex == off && dataEnd == off + size && drq == (old(drq) || !err)
    {
      next, dataIndex, dataEnd := ReplyEnd, off, off + size;
      if !err { drq := true; }
    }

    method TransferStop()
      modifies this`next, this`dataIndex, this`dataEnd, this`drq
      ensures next == Stop2 && dataIndex == dataEnd == 0 && !drq
    {
      next, dataIndex, dataEnd, drq := Stop2, 0, 0, false;
    }

    /** The block device: one sector of 2048 bytes. */
    method ReadSector() returns (ok: bool)
      requires Valid() && lba >= 0
      modifies buffer
      ensures ok <==> CD_SECTOR * (lba + 1) <= |disc|
      ensures ok ==> buffer[..CD_SECTOR] == disc[CD_SECTOR * lba..CD_SECTOR * (lba + 1)]
    {
      ok := CD_SECTOR * (lba + 1) <= |disc|;
      if ok {
        var from := CD_SECTOR * lba;
        forall i | 0 <= i < CD_SECTOR { buffer[i] := disc[from + i]; }
      }
    }

    /** Between two pieces, with a limit that no byte fits in. */
    ghost predicate Idle()
      reads `packet, `elementary, `lcyl, `hcyl, `lba, `ioIndex
    {
      Valid() && packet >= 2 && elementary == 0 && Count() < 2 && lba >= 0 && 0 <= ioIndex <= CD_SECTOR
    }

    /** The host is asked to take a block without a byte. */
    ghost predicate Stalled()
      reads `packet, `elementary, `lcyl, `hcyl, `lba, `ioIndex, `next, `dataIndex, `dataEnd, `drq, `err
    {
      Idle() && ioIndex < CD_SECTOR && next == ReplyEnd && dataIndex == dataEnd == ioIndex && drq && !err
    }

    ghost predicate Quads()
      reads `packet, `elementary, `ioIndex, `lcyl, `hcyl, `dataIndex, `dataEnd
    {
      Quad(Cur()) && dataIndex % 4 == 0 && dataEnd % 4 == 0
    }

    /** Makes sure that the next byte to send is in the buffer. */
    method NextSector(ghost start: nat, ghost end: nat, ghost at: nat, ghost limit: nat) returns (ok: bool)
      requires Valid() && (Between(start, end, at, limit) || Idle()) && packet > 0
      modifies this`lba, this`ioIndex, buffer
      ensures ok ==> ioIndex < CD_SECTOR && (old(Between(start, end, at, limit)) ==> Between(start, end, at, limit))
      ensures ok && old(Idle()) ==> Idle()
      ensures end <= |disc| && old(Between(start, end, at, limit)) ==> ok
      ensures old(Idle() && (ioIndex < CD_SECTOR || CD_SECTOR * (lba + 1) <= |disc|)) ==> ok
      ensures ok && old(Quad(Cur())) ==> Quad(Cur())
    {
      ok := true;
      if ioIndex >= CD_SECTOR {
        if Between(start, end, at, limit) { SectorInside(at, end, lba); }
        ok := ReadSector();
        if ok { lba, ioIndex := lba + 1, 0; }
      }
    }

    /** What `Between` says of the counters. */
    lemma CursorBounds(start: nat, end: nat, at: nat, limit: nat)
      ensures Between(start, end, at, limit) ==>
        0 <= elementary <= packet == end - at && 0 <= ioIndex <= CD_SECTOR && (packet > 0 && elementary == 0 ==> Count() >= 2)
        && start <= at <= end && (packet <= 0 ==> BlocksOk(announced, start, end, limit))
    {
    }

    /** Sends a piece: what is left of the block, or of the sector. */
    method SendPiece()
      requires elementary >= 0 && 0 <= ioIndex < CD_SECTOR && !err
      modifies this`next, this`dataIndex, this`dataEnd, this`drq, this`packet, this`elementary, this`ioIndex
      ensures Cur() == Sent(old(Cur())) && next == ReplyEnd && drq
      ensures dataIndex == old(ioIndex) && dataEnd == ioIndex
    {
      var size := CD_SECTOR - ioIndex;
      if size > elementary { size := elementary; }
      TransferStart(ioIndex, size);
      packet, elementary, ioIndex := packet - size, elementary - size, ioIndex + size;
    }

    /** The piece that has just been sent, when `c` was the cursor before, is the next part of the disc. */
    lemma PieceServes(c: Cursor, start: nat, end: nat, at: nat, limit: nat)
      requires Valid() && Sending(c, announced, start, end, at, limit) && c.elementary > 0 && 0 <= c.ioIndex < CD_SECTOR
      requires lba >= 1 && at == CD_SECTOR * (lba - 1) + c.ioIndex && CD_SECTOR * lba <= |disc|
      requires buffer[..CD_SECTOR] == disc[CD_SECTOR * (lba - 1)..CD_SECTOR * lba]
      requires Cur() == Sent(c) && next == ReplyEnd && drq && !err && dataIndex == c.ioIndex && dataEnd == ioIndex && end <= |disc|
      ensures Serving(start, end, at, limit) && at < end && packet < c.packet
    {
      hide Sending, BlocksOk, BlockLimit;
      PieceKeeps(c, announced, start, end, at, limit);
      SliceOfSector(buffer[..], disc, lba, c.ioIndex, PieceOf(c));
    }

    /** Announces a block of as much as is left, or as the host takes at once. */
    method Announce(ghost start: nat, ghost end: nat, ghost at: nat, ghost limit: nat)
      requires Valid() && (Between(start, end, at, limit) || Idle()) && elementary == 0 && packet > 0
      modifies this`lcyl, this`hcyl, this`elementary, this`announced
      ensures old(Between(start, end, at, limit)) ==> Between(start, end, at, limit) && elementary > 0
      ensures old(Idle()) ==> Idle()
      ensures old(Quad(Cur())) ==> Quad(Cur())
      ensures announced == old(announced) + [BlockOf(packet, old(Count()))] && Count() == BlockOf(packet, old(Count())) % 0x1_0000
    {
      hide Buffered, Sending, Quad;
      if Between(start, end, at, limit) { AnnounceKeeps(Cur(), announced, start, end, at, limit); }
      if Quad(Cur()) { AnnounceQuad(Cur()); }
      if Idle() { NoBlock(packet, Count()); }
      var size := BlockOf(packet, Count());
      hide BlockOf;
      CountDigits(size);
      lcyl, hcyl := size % 0x100, size / 0x100 % 0x100;
      elementary := size;
      announced := announced + [size];
    }

    /** `ide_atapi_cmd_reply_end`: the next piece, or the end of the command. */
    method Continue(ghost start: nat, ghost end: nat, ghost at: nat, ghost limit: nat)
      requires Valid() && (Between(start, end, at, limit) || Idle()) && !err
      modifies this, buffer
      ensures old(Between(start, end, at, limit)) && end <= |disc| ==>
                Serving(start, end, at, limit) && (at < end ==> packet < old(packet)) && (old(Quad(Cur())) ==> Quads())
      ensures old(Idle() && (ioIndex < CD_SECTOR || CD_SECTOR * (lba + 1) <= |disc|)) ==> Stalled()
      ensures old(elementary) > 0 ==> announced == old(announced)
      ensures old(Between(start, end, at, limit)) && end <= |disc| && old(elementary == 0 < packet) ==>
                announced == old(announced) + [BlockOf(old(packet), old(Count()))]
    {
      hide BlocksOk, BlockLimit, Quad, Sending, BlockOf;
      CursorBounds(start, end, at, limit);
      if packet <= 0 {
        TransferStop();
      } else {
        var ok := NextSector(start, end, at, limit);
        if !ok {
          TransferStop();
          err := true;
          return;
        }
        if elementary <= 0 { Announce(start, end, at, limit); }
        CursorBounds(start, end, at, limit);
        ghost var c, running := Cur(), Between(start, end, at, limit);
        if Quad(c) && 0 <= elementary <= packet { PieceQuad(c); QuadIndex(c); }
        SendPiece();
        if running && end <= |disc| { PieceServes(c, start, end, at, limit); }
      }
    }

    /**
     READ(10) and READ(12) of `n` sectors, with the byte count limit in the registers. The host can take bytes
     exactly if the limit is at least 2.
     */
    method ReadCd(first: nat, n: nat)
      requires Valid() && 0 < n < 0x10_0000
      modifies this, buffer
      ensures CD_SECTOR * (first + n) <= |disc| && old(Count()) >= 2 ==>
                && Serving(CD_SECTOR * first, CD_SECTOR * (first + n), CD_SECTOR * first, BlockLimit(old(Count())))
                && announced == [BlockOf(CD_SECTOR * n, old(Count()))]
                && (DwordsFinish(old(Count()), CD_SECTOR * n) ==> Quads())
      ensures CD_SECTOR * (first + n) <= |disc| && old(Count()) < 2 ==> Stalled()
      ensures CD_SECTOR * (first + n) <= |disc| ==> (dataIndex < dataEnd <==> old(Count()) >= 2)
    {
      hide Sending, BlockLimit, Quad, DwordsFinish, BlockOf, BlocksOk;
      lba := first;
      packet := CD_SECTOR * n;
      elementary := 0;
      ioIndex := CD_SECTOR;
      drq, err := false, false;
      announced := [];
      if Count() >= 2 { Starts(first, n, Count()); }
      if DwordsFinish(Count(), CD_SECTOR * n) { StartsQuad(n, Count()); }
      Continue(CD_SECTOR * first, CD_SECTOR * (first + n), CD_SECTOR * first, BlockLimit(Count()));
    }

    /** The end of a data port access that has moved `data_index` by `k`. */
    method Advance(k: nat, ghost start: nat, ghost end: nat, ghost off: nat, ghost limit: nat)
      requires (Serving(start, end, off, limit) || Stalled()) && dataIndex + k <= dataEnd && k % 2 == 0
      modifies this, buffer
      ensures old(Serving(start, end, off, limit)) ==> Serving(start, end, off + k, limit) && (old(Quads()) && k % 4 == 0 ==> Quads())
      ensures old(Stalled()) ==> Stalled()
      ensures old(dataIndex + k < dataEnd || elementary > 0) ==> announced == old(announced)
    {
      hide InPiece, Between, Idle, Quad, BlocksOk;
      ghost var p := dataIndex;
      PieceBetween(start, end, off, limit);
      IdleIsValid();
      if k < dataEnd - p { PieceRest(start, end, off, limit, p, k); }
      dataIndex := dataIndex + k;
      if dataIndex >= dataEnd {
        match next {
          case Stop2 => TransferStop();
          case ReplyEnd => Continue(start, end, off + k, limit);
        }
      }
    }

    lemma IdleIsValid()
      ensures Idle() ==> Valid()
    {
    }

    lemma PieceBetween(start: nat, end: nat, off: nat, limit: nat)
      ensures InPiece(start, end, off, limit, dataIndex) ==>
        next == ReplyEnd && drq && !err && dataIndex < dataEnd && Between(start, end, off + (dataEnd - dataIndex), limit)
        && off + (dataEnd - dataIndex) <= end
    {
    }

    lemma PieceSlice(start: nat, end: nat, off: nat, limit: nat, k: nat)
      requires Serving(start, end, off, limit) && k <= dataEnd - dataIndex
      ensures off + k <= |disc| && dataIndex + k <= buffer.Length && buffer[dataIndex..dataIndex + k] == disc[off..off + k]
    {
      hide Between, BlocksOk;
      if off < end { SliceSplit(buffer[..], disc, dataIndex, dataEnd, off, k); }
    }

    /** Less of a piece is a piece. */
    lemma PieceRest(start: nat, end: nat, off: nat, limit: nat, p: nat, k: nat)
      requires p + k < dataEnd && k % 2 == 0
      ensures InPiece(start, end, off, limit, p) ==> InPiece(start, end, off + k, limit, p + k)
    {
      hide Between;
      if InPiece(start, end, off, limit, p) { SliceSplit(buffer[..], disc, p, dataEnd, off, k); }
    }

    /** `ide_data_readw`. */
    method ReadWord(ghost start: nat, ghost end: nat, ghost off: nat, ghost limit: nat) returns (v: nat, k: nat)
      requires Serving(start, end, off, limit) || Stalled()
      modifies this, buffer
      ensures old(Serving(start, end, off, limit)) ==> Serving(start, end, off + k, limit) && (old(Quads()) && k % 4 == 0 ==> Quads())
      ensures old(Stalled()) ==> Stalled() && k == 0
      ensures old(dataIndex + k < dataEnd || elementary > 0) ==> announced == old(announced)
      ensures k == if old(dataIndex + 2 <= dataEnd) then 2 else 0
      ensures k > 0 ==> v == A.Value(disc[off..off + k])
      ensures k == 0 ==> v == 0
    {
      hide InPiece, Between, BlocksOk, Quads, Idle;
      var p := dataIndex;
      if p + 2 > dataEnd { return 0, 0; }
      var b0: int, b1: int := buffer[p], buffer[p + 1];
      v, k := b0 + 0x100 * b1, 2;
      PieceSlice(start, end, off, limit, 2);
      A.ValueOfBytes(disc[off..off + 2]);
      Advance(2, start, end, off, limit);
    }

    /** `ide_data_readl`. */
    method ReadDword(ghost start: nat, ghost end: nat, ghost off: nat, ghost limit: nat) returns (v: nat, k: nat)
      requires Serving(start, end, off, limit) || Stalled()
      modifies this, buffer
      ensures old(Serving(start, end, off, limit)) ==> Serving(start, end, off + k, limit) && (old(Quads()) && k % 4 == 0 ==> Quads())
      ensures old(Stalled()) ==> Stalled() && k == 0
      ensures old(dataIndex + k < dataEnd || elementary > 0) ==> announced == old(announced)
      ensures k == if old(dataIndex + 4 <= dataEnd) then 4 else 0
      ensures k > 0 ==> v == A.Value(disc[off..off + k])
      ensures k == 0 ==> v == 0
    {
      hide InPiece, Between, BlocksOk, Quads, Idle;
      var p := dataIndex;
      if p + 4 > dataEnd { return 0, 0; }
      var b0: int, b1: int, b2: int, b3: int := buffer[p], buffer[p + 1], buffer[p + 2], buffer[p + 3];
      v, k := b0 + 0x100 * b1 + 0x1_0000 * b2 + 0x100_0000 * b3, 4;
      PieceSlice(start, end, off, limit, 4);
      A.ValueOfBytes(disc[off..off + 4]);
      Advance(4, start, end, off, limit);
    }

    /** `ide_data_read_string`: as many whole elements as the piece still has. */
    method ReadString(size: nat, count: nat, ghost start: nat, ghost end: nat, ghost off: nat, ghost limit: nat) returns (data: seq<Byte>)
      requires (Serving(start, end, off, limit) || Stalled()) && (size == 2 || size == 4)
      modifies this, buffer
      ensures old(Serving(start, end, off, limit)) ==>
        && Serving(start, end, off + |data|, limit) && data == disc[off..off + |data|] && (old(Quads()) && |data| % 4 == 0 ==> Quads())
      ensures old(Stalled()) ==> Stalled() && data == []
      ensures old(dataIndex + |data| < dataEnd || elementary > 0) ==> announced == old(announced)
      ensures var rest := old(dataEnd - dataIndex); |data| == Whole(if size * count > rest then rest else size * count, size)
    {
      hide InPiece, Between, BlocksOk, Quad, Idle, Whole;
      IdleIsValid();
      var len := size * count;
      if len > dataEnd - dataIndex { len := dataEnd - dataIndex; }
      len := Whole(len, size);
      data := buffer[dataIndex..dataIndex + len];
      if Serving(start, end, off, limit) { PieceSlice(start, end, off, limit, len); }
      Advance(len, start, end, off, limit);
    }

    /** One access to the data port by the host. */
    method ReadOne(op: PortAccess, ghost start: nat, ghost end: nat, ghost off: nat, ghost limit: nat) returns (data: seq<Byte>)
      requires Serving(start, end, off, limit) || Stalled()
      modifies this, buffer
      ensures old(Serving(start, end, off, limit)) ==>
        && Serving(start, end, off + |data|, limit) && data == disc[off..off + |data|] && (old(Quads()) && |data| % 4 == 0 ==> Quads())
      ensures old(Stalled()) ==> Stalled() && data == []
      ensures old(dataIndex + |data| < dataEnd || elementary > 0) ==> announced == old(announced)
      ensures old(Serving(start, end, off, limit)) ==> |data| == op.Moves(old(dataEnd - dataIndex))
    {
      hide Serving, A.Value, A.Digits, Whole;
      match op {
        case Word =>
          var v, k := ReadWord(start, end, off, limit);
          data := if k == 2 then A.Digits(v, 2) else [];
          if k == 2 { A.DigitsOfValue(disc[off..off + 2]); }
        case Dword =>
          var v, k := ReadDword(start, end, off, limit);
          data := if k == 4 then A.Digits(v, 4) else [];
          if k == 4 { A.DigitsOfValue(disc[off..off + 4]); }
        case Words(count) => data := ReadString(2, count, start, end, off, limit);
        case Dwords(count) => data := ReadString(4, count, start, end, off, limit);
      }
    }

    /**
     Whatever accesses the host makes, it receives the bytes of the disc in order, in blocks that obey its
     limit; word accesses always make progress, so enough of them finish the command.
     */
    method HostReads(ops: seq<PortAccess>, ghost start: nat, ghost end: nat, ghost off: nat, ghost limit: nat) returns (data: seq<Byte>)
      requires Serving(start, end, off, limit)
      modifies this, buffer
      ensures Serving(start, end, off + |data|, limit) && data == disc[off..off + |data|]
      ensures (forall i :: 0 <= i < |ops| ==> ByWords(ops[i])) ==> off + |data| == end || |data| >= 2 * |ops|
    {
      hide Serving, ByWords, Quads, PortAccess.Moves;
      data := [];
      for n := 0 to |ops|
        invariant Serving(start, end, off + |data|, limit) && data == disc[off..off + |data|]
        invariant (forall i :: 0 <= i < |ops| ==> ByWords(ops[i])) ==> off + |data| == end || |data| >= 2 * n
      {
        ghost var rest := dataEnd - dataIndex;
        var more := ReadOne(ops[n], start, end, off + |data|, limit);
        if ByWords(ops[n]) { WordsMove(ops[n], rest); }
        SliceMore(disc, off, data, more);
        data := data + more;
      }
    }

    /** The bytes up to `promised` are announced, and from `off` on they are no whole dwords. */
    ghost predicate Short(start: nat, end: nat, off: nat, promised: nat)
      reads `announced
    {
      start + Sum(announced) == promised && off < promised <= end && (promised - off) % 4 == 2
    }

    /** One dword access. */
    method ReadByDword(op: PortAccess, ghost start: nat, ghost end: nat, ghost off: nat, ghost limit: nat, ghost promised: nat)
      returns (data: seq<Byte>)
      requires Serving(start, end, off, limit) && ByDwords(op)
      modifies this, buffer
      ensures Serving(start, end, off + |data|, limit) && data == disc[off..off + |data|]
      ensures old(Quads()) ==> Quads() && (off == end || |data| >= 4)
      ensures old(Short(start, end, off, promised)) ==> Short(start, end, off + |data|, promised)
    {
      hide ByDwords, Sum, Between, BlocksOk, Quads, PortAccess.Moves;
      ghost var rest, left := dataEnd - dataIndex, elementary;
      if off < end { Promises(start, end, off, limit); }
      if Quads() { QuadRest(); }
      hide Serving;
      DwordsMove(op, rest);
      ghost var short := Short(start, end, off, promised);
      data := ReadOne(op, start, end, off, limit);
      if short { StaysOdd(promised - off, |data|, rest, left); }
    }

    /**
     Dword accesses make progress while the blocks are whole dwords, and never get past an announced
     block that is not.
     */
    method HostReadsDwords(ops: seq<PortAccess>, ghost start: nat, ghost end: nat, ghost off: nat, ghost limit: nat) returns (data: seq<Byte>)
      requires Serving(start, end, off, limit) && forall i :: 0 <= i < |ops| ==> ByDwords(ops[i])
      modifies this, buffer
      ensures Serving(start, end, off + |data|, limit) && data == disc[off..off + |data|]
      ensures old(Quads()) ==> off + |data| == end || |data| >= 4 * |ops|
      ensures var promised := start + Sum(old(announced));
        old(Short(start, end, off, start + Sum(announced))) ==> off + |data| < promised
    {
      hide Serving, ByDwords, Quads, Sum, PortAccess.Moves;
      data := [];
      ghost var promised := start + Sum(announced);
      ghost var short := Short(start, end, off, promised);
      for n := 0 to |ops|
        invariant Serving(start, end, off + |data|, limit) && data == disc[off..off + |data|]
        invariant old(Quads()) ==> Quads() && (off + |data| == end || |data| >= 4 * n)
        invariant short ==> Short(start, end, off + |data|, promised)
      {
        var more := ReadByDword(ops[n], start, end, off + |data|, limit, promised);
        SliceMore(disc, off, data, more);
        data := data + more;
      }
    }

    lemma QuadRest()
      requires Quads() && dataIndex <= dataEnd
      ensures (dataEnd - dataIndex) % 4 == 0
    {
    }

    /** The announced blocks end behind the piece in hand, with what is left of the last one. */
    lemma Promises(start: nat, end: nat, off: nat, limit: nat)
      requires Serving(start, end, off, limit) && off < end
      ensures start + Sum(announced) == off + (dataEnd - dataIndex) + elementary && elementary >= 0
    {
      hide Sum;
    }

    /** A host that reads from a stalled transfer gets nothing, whatever it does. */
    method HostStalls(ops: seq<PortAccess>) returns (data: seq<Byte>)
      requires Stalled()
      modifies this, buffer
      ensures data == [] && Stalled()
    {
      hide Stalled;
      data := [];
      for n := 0 to |ops|
        invariant data == [] && Stalled()
      {
        var more := ReadOne(ops[n], 0, 0, 0, 0);
        data := data + more;
      }
    }

    /**
     A whole packet read of `n` sectors: the host gets their bytes in order, every announced block is
     within its limit, and the blocks add up to what it gets.
     */
    method ReadWhole(first: nat, n: nat, ops: seq<PortAccess>) returns (data: seq<Byte>)
      requires Valid() && 0 < n < 0x10_0000 && 2 <= Count() && CD_SECTOR * (first + n) <= |disc|
      requires (forall i :: 0 <= i < |ops| ==> ByWords(ops[i])) && 2 * |ops| >= CD_SECTOR * n
      modifies this, buffer
      ensures data == disc[CD_SECTOR * first..CD_SECTOR * (first + n)]
      ensures Sum(announced) == CD_SECTOR * n && forall i :: 0 <= i < |announced| ==> announced[i] <= BlockLimit(old(Count()))
      ensures next == Stop2 && !drq && !err
    {
      hide ByWords, ByDwords, Sending, Buffered, Quads, DwordsFinish, BlockOf;
      ghost var start, end, limit := CD_SECTOR * first, CD_SECTOR * (first + n), BlockLimit(Count());
      ReadCd(first, n);
      data := HostReads(ops, start, end, start, limit);
    }

    /** The same by dwords: the read is complete exactly if `DwordsFinish`, and else stops within its first block. */
    method ReadWholeByDwords(first: nat, n: nat, ops: seq<PortAccess>) returns (data: seq<Byte>)
      requires Valid() && 0 < n < 0x10_0000 && 2 <= Count() && CD_SECTOR * (first + n) <= |disc|
      requires (forall i :: 0 <= i < |ops| ==> ByDwords(ops[i])) && 4 * |ops| >= CD_SECTOR * n
      modifies this, buffer
      ensures |data| <= CD_SECTOR * n && data == disc[CD_SECTOR * first..CD_SECTOR * first + |data|]
      ensures if DwordsFinish(old(Count()), CD_SECTOR * n) then
                |data| == CD_SECTOR * n && Sum(announced) == CD_SECTOR * n && next == Stop2 && !drq && !err
              else
                |data| < BlockOf(CD_SECTOR * n, old(Count())) < CD_SECTOR * n && next == ReplyEnd && drq
    {
      hide ByWords, ByDwords, Sending, Buffered, Quads, DwordsFinish, BlockOf;
      ghost var start, end, limit := CD_SECTOR * first, CD_SECTOR * (first + n), BlockLimit(Count());
      ghost var block := BlockOf(CD_SECTOR * n, Count());
      if !DwordsFinish(Count(), CD_SECTOR * n) { OddBlock(Count(), CD_SECTOR * n); }
      ReadCd(first, n);
      SumOne(block);
      data := HostReadsDwords(ops, start, end, start, limit);
    }
  }

  /** Whole dwords do not use up a block that is not of whole dwords. */
  lemma StaysOdd(block: int, more: nat, rest: int, left: int)
    requires block % 4 == 2 && more % 4 == 0 && more <= rest && left >= 0 && block == rest + left
    ensures (block - more) % 4 == 2 && more < block && (more < rest || left > 0)
  {
  }

  lemma SumOne(n: nat)
    ensures Sum([n]) == n
  {
    assert [n][..0] == [];
  }

  lemma QuadIndex(c: Cursor)
    requires Quad(c)
    ensures c.ioIndex % 4 == 0
  {
  }

  /** An access of one dword, or of a string of them. */
  predicate ByDwords(op: PortAccess) {
    op.Dword? || (op.Dwords? && op.count > 0)
  }

  lemma DwordsMove(op: PortAccess, rest: nat)
    requires ByDwords(op)
    ensures op.Moves(rest) % 4 == 0 && op.Moves(rest) <= rest && (rest >= 4 ==> op.Moves(rest) >= 4)
  {
    if op.Dwords? {
      var len := if 4 * op.count > rest then rest else 4 * op.count;
      WholeDwords(len);
    }
  }

  lemma WholeDwords(len: nat)
    ensures Whole(len, 4) % 4 == 0 && (len >= 4 ==> Whole(len, 4) >= 4)
  {
    var q := len / 4;
    assert len - len % 4 == 4 * q;
    OfFour(q, 0);
  }

  lemma WordsMove(op: PortAccess, rest: nat)
    requires ByWords(op)
    ensures rest >= 2 ==> op.Moves(rest) >= 2
  {
  }

  /** An access of one word, or of a string of them. */
  predicate ByWords(op: PortAccess) {
    op.Word? || (op.Words? && op.count > 0)
  }

  lemma SliceOfSector(b: seq<Byte>, disc: seq<Byte>, lba: int, i: int, size: int)
    requires lba >= 1 && 0 <= i && 0 <= size && i + size <= CD_SECTOR <= |b| && CD_SECTOR * lba <= |disc|
    requires b[..CD_SECTOR] == disc[CD_SECTOR * (lba - 1)..CD_SECTOR * lba]
    ensures var at := CD_SECTOR * (lba - 1) + i; b[i..i + size] == disc[at..at + size]
  {
    SliceOfSlice(b, disc, CD_SECTOR, CD_SECTOR * (lba - 1), i, size);
  }

  lemma SliceOfSlice(b: seq<Byte>, d: seq<Byte>, n: int, from: int, i: int, size: int)
    requires 0 <= i && 0 <= size && i + size <= n <= |b| && 0 <= from && from + n <= |d| && b[..n] == d[from..from + n]
    ensures b[i..i + size] == d[from + i..from + i + size]
  {
    forall k {:trigger b[i + k]} | 0 <= k < size
      ensures b[i + k] == d[from + i + k]
    {
      assert b[..n][i + k] == d[from..from + n][i + k];
    }
    var x, y := b[i..i + size], d[from + i..from + i + size];
    forall k | 0 <= k < size
      ensures x[k] == y[k]
    {
      assert x[k] == b[i + k];
    }
  }

  lemma Starts(first: nat, n: nat, count: nat)
    requires 2 <= count < 0x1_0000
    ensures Sending(Cursor(CD_SECTOR * n, 0, CD_SECTOR, count), [], CD_SECTOR * first, CD_SECTOR * (first + n), CD_SECTOR * first, BlockLimit(count))
  {
    assert CD_SECTOR * (first + n) % CD_SECTOR == 0 && CD_SECTOR * n == 2 * (0x400 * n);
  }

  lemma SectorInside(at: nat, end: nat, lba: int)
    requires at < end && end % CD_SECTOR == 0 && lba >= 0 && at == CD_SECTOR * lba
    ensures CD_SECTOR * (lba + 1) <= end
  {
  }
}
