/**
 The receive ring of the network card: a frame goes behind a four-byte header at the current page,
 wrapping at the end of the ring, and never into the pages that the driver has not read yet.
 */
module Ne2000 {
  import opened EntryBits

  const MAX_FRAME := 1514
  const MIN_FRAME := 60
  const MEM_START := 0x4000
  const MEM_END := 0xc000
  const PAGE := 0x100

  /** The ring is the memory from `start` up to `stop`. */
  datatype Ring = Ring(start: nat, stop: nat)

  predicate ValidRing(r: Ring) {
    r.start % PAGE == 0 && r.stop % PAGE == 0 && MEM_START <= r.start < r.stop <= MEM_END
  }

  predicate InRing(r: Ring, a: nat) { r.start <= a < r.stop }

  function Size(r: Ring): int { r.stop - r.start }

  /** The place `k` bytes further on from `from`. */
  function Along(r: Ring, from: nat, k: nat): (a: int)
    ensures ValidRing(r) && InRing(r, from) && k <= Size(r) ==> a >= 0 && InRing(r, a)
  {
    if from + k >= r.stop then from + k - Size(r) else from + k
  }

  /** How far on from `from` the place `a` lies. */
  function Distance(r: Ring, from: nat, a: nat): (k: int)
    ensures ValidRing(r) && InRing(r, from) && InRing(r, a) ==> 0 <= k < Size(r)
  {
    if a >= from then a - from else a - from + Size(r)
  }

  lemma DistanceOfAlong(r: Ring, from: nat, k: nat)
    requires ValidRing(r) && InRing(r, from) && k < Size(r)
    ensures var a := Along(r, from, k); a >= 0 && InRing(r, a) && Distance(r, from, a) == k
  {
  }

  /** `(n + 255) & ~255`. */
  function Pages(n: nat): nat { (n + 255) / PAGE * PAGE }

  /** The fewest whole pages that hold `n` bytes. */
  lemma FewestPages(n: nat)
    ensures Pages(n) % 0x100 == 0 && n <= Pages(n) < n + 0x100
  {
    var q := (n + 255) / PAGE;
    assert Pages(n) == 0x100 * q && (0x100 * q) % 0x100 == 0;
  }

  /** The bytes from page `boundary` up to page `current` wait for the driver. */
  predicate Unread(r: Ring, boundary: nat, current: nat, a: nat) {
    InRing(r, a) && if boundary <= current then boundary <= a < current else a >= boundary || a < current
  }

  /** The bytes that are free, from `current` on; a ring with `current` at `boundary` counts as empty. */
  function Room(r: Ring, boundary: nat, current: nat): int {
    if current < boundary then boundary - current else Size(r) - (current - boundary)
  }

  /** Unread bytes lie beyond the free ones. */
  lemma UnreadIsBeyond(r: Ring, boundary: nat, current: nat, a: nat)
    requires ValidRing(r) && InRing(r, boundary) && InRing(r, current) && InRing(r, a)
    ensures Unread(r, boundary, current, a) <==> Distance(r, current, a) >= Room(r, boundary, current)
  {
  }

  /** The bytes that wait for the driver. */
  function Used(r: Ring, boundary: nat, current: nat): int {
    if current < boundary then Size(r) - (boundary - current) else current - boundary
  }

  /** `n` bytes of the ring from `from` on. */
  function Bytes(m: seq<Byte>, r: Ring, from: nat, n: nat): (s: seq<Byte>)
    requires ValidRing(r) && InRing(r, from) && n <= Size(r) && |m| == MEM_END
    ensures |s| == n && forall k :: 0 <= k < n ==> s[k] == m[Along(r, from, k)]
  {
    seq(n, k requires 0 <= k < n => m[Along(r, from, k)])
  }

  /** Memory after the first `done` bytes of `data` have gone into the ring from `from` on. */
  predicate Stored(m: seq<Byte>, m': seq<Byte>, r: Ring, from: nat, data: seq<Byte>, done: nat)
    requires ValidRing(r) && InRing(r, from) && done <= |data|
  {
    && |m'| == |m|
    && forall a :: 0 <= a < |m| ==>
         m'[a] == if InRing(r, a) && Distance(r, from, a) < done then data[Distance(r, from, a)] else m[a]
  }

  lemma StoredBytes(m: seq<Byte>, m': seq<Byte>, r: Ring, from: nat, data: seq<Byte>)
    requires ValidRing(r) && InRing(r, from) && |m| == MEM_END && |data| <= Size(r)
    requires Stored(m, m', r, from, data, |data|)
    ensures Bytes(m', r, from, |data|) == data
  {
    forall k | 0 <= k < |data| ensures m'[Along(r, from, k)] == data[k] {
      DistanceOfAlong(r, from, k);
    }
  }

  /** A further piece, up to the end of the ring at most. */
  lemma StoredMore(m: seq<Byte>, m1: seq<Byte>, m2: seq<Byte>, r: Ring, from: nat, data: seq<Byte>, done: nat, index: nat, len: nat)
    requires ValidRing(r) && InRing(r, from) && done + len <= |data| <= Size(r) && Stored(m, m1, r, from, data, done)
    requires done < Size(r) && index == Along(r, from, done) && index + len <= r.stop <= |m1| == |m2|
    requires forall a :: 0 <= a < |m1| ==> m2[a] == if index <= a < index + len then data[done + (a - index)] else m1[a]
    ensures Stored(m, m2, r, from, data, done + len)
  {
  }

  function Padded(frame: seq<Byte>): (p: seq<Byte>)
    ensures |frame| <= |p| && MIN_FRAME <= |p| && p[..|frame|] == frame
    ensures forall i :: |frame| <= i < |p| ==> p[i] == 0
    ensures |p| == if |frame| < MIN_FRAME then MIN_FRAME else |frame|
  {
    if |frame| < MIN_FRAME then frame + seq(MIN_FRAME - |frame|, _ => 0) else frame
  }

  /** What the driver finds at the page: receive status, next page, length with the header, and the frame. */
  function Record(frame: seq<Byte>, next: nat): (s: seq<Byte>)
    requires |frame| <= MAX_FRAME && next < MEM_END
    ensures |s| == |Padded(frame)| + 4
  {
    var n := |Padded(frame)| + 4;
    [if Padded(frame)[0] % 2 == 1 then 0x21 else 1, next / PAGE, n % PAGE, n / PAGE] + Padded(frame)
  }

  /** The header: bit 0 for a frame received intact and bit 5 for a group address, the page of the next record, the length. */
  lemma HeaderSays(frame: seq<Byte>, next: nat)
    requires |frame| <= MAX_FRAME && next < MEM_END && next % 0x100 == 0
    ensures var s := Record(frame, next);
            var page: int, low: int, high: int := s[1], s[2], s[3];
            && s[0] == 0x01 + (if Padded(frame)[0] % 2 == 1 then 0x20 else 0)
            && 0x100 * page == next && low + 0x100 * high == |s| && s[4..] == Padded(frame)
  {
    hide Padded;
  }

  /** The pages that a record takes, with four bytes for the CRC. */
  function Taken(frame: seq<Byte>): nat { Pages(|Padded(frame)| + 8) }

  lemma TakenFits(frame: seq<Byte>, room: int)
    requires |frame| <= MAX_FRAME && room % PAGE == 0 && room >= MAX_FRAME + 4
    ensures |Padded(frame)| + 4 < Taken(frame) <= room && Taken(frame) % PAGE == 0
  {
    var n := |Padded(frame)| + 8;
    assert n <= 1522;
    var q := (n + 255) / PAGE;
    assert q <= 6 && PAGE * q >= n;
    assert room == PAGE * (room / PAGE);
    assert room / PAGE >= 6;
  }

  function Total(frames: seq<seq<Byte>>): nat {
    if frames == [] then 0 else Taken(frames[0]) + Total(frames[1..])
  }

  lemma {:induction false} TotalMore(frames: seq<seq<Byte>>, frame: seq<Byte>)
    ensures Total(frames + [frame]) == Total(frames) + Taken(frame)
  {
    if frames == [] {
      assert (frames + [frame])[1..] == [];
    } else {
      TotalMore(frames[1..], frame);
      assert (frames + [frame])[1..] == frames[1..] + [frame];
    }
  }

  /** The frames lie one after the other in the ring from `at` up to `end`, each linked to the next. */
  ghost predicate Chain(m: seq<Byte>, r: Ring, at: nat, end: nat, frames: seq<seq<Byte>>)
    requires ValidRing(r) && |m| == MEM_END
    decreases |frames|
  {
    && InRing(r, at) && at % PAGE == 0
    && if frames == [] then at == end else
         && |frames[0]| <= MAX_FRAME && |Padded(frames[0])| + 4 <= Taken(frames[0]) < Size(r)
         && Bytes(m, r, at, |Padded(frames[0])| + 4) == Record(frames[0], Along(r, at, Taken(frames[0])))
         && Chain(m, r, Along(r, at, Taken(frames[0])), end, frames[1..])
  }

  /** A write elsewhere than in the unread pages keeps the frames there. */
  lemma {:induction false} ChainKept(m: seq<Byte>, m': seq<Byte>, r: Ring, at: nat, end: nat, frames: seq<seq<Byte>>)
    requires ValidRing(r) && |m| == |m'| == MEM_END && InRing(r, end)
    requires Chain(m, r, at, end, frames) && Total(frames) == Used(r, at, end)
    requires forall a :: 0 <= a < MEM_END && Unread(r, at, end, a) ==> m'[a] == m[a]
    ensures Chain(m', r, at, end, frames)
    decreases |frames|
  {
    if frames != [] {
      var n := |Padded(frames[0])| + 4;
      var next := Along(r, at, Taken(frames[0]));
      forall k | 0 <= k < n ensures m'[Along(r, at, k)] == m[Along(r, at, k)] {
        DistanceOfAlong(r, at, k);
        assert Unread(r, at, end, Along(r, at, k));
      }
      assert Bytes(m', r, at, n) == Bytes(m, r, at, n);
      ChainKept(m, m', r, next, end, frames[1..]);
    }
  }

  /** A frame recorded at the end joins the others. */
  lemma {:induction false} ChainGrows(m: seq<Byte>, r: Ring, at: nat, end: nat, frames: seq<seq<Byte>>, frame: seq<Byte>)
    requires ValidRing(r) && |m| == MEM_END && Chain(m, r, at, end, frames) && Chain(m, r, end, Along(r, end, Taken(frame)), [frame])
    ensures Chain(m, r, at, Along(r, end, Taken(frame)), frames + [frame])
    decreases |frames|
  {
    if frames == [] {
      assert frames + [frame] == [frame];
    } else {
      var next := Along(r, at, Taken(frames[0]));
      ChainGrows(m, r, next, end, frames[1..], frame);
      assert (frames + [frame])[1..] == frames[1..] + [frame];
      assert (frames + [frame])[0] == frames[0];
    }
  }

  /** The settings of the receiver: `mult` holds the accepted values of the six-bit hash of a multicast address. */
  datatype Filter = Filter(promiscuous: bool, broadcast: bool, multicast: bool, mult: set<nat>)

  const BROADCAST: seq<Byte> := [0xff, 0xff, 0xff, 0xff, 0xff, 0xff]

  /** The card's address, each byte of which stands twice in the address ROM. */
  function Address(m: seq<Byte>): seq<Byte>
    requires |m| == MEM_END
  {
    [m[0], m[2], m[4], m[6], m[8], m[10]]
  }

  /** The frame is for this card; `hash` is the hash of its address. */
  predicate ForCard(f: Filter, address: seq<Byte>, frame: seq<Byte>, hash: nat)
    requires f.promiscuous || 6 <= |frame|
  {
    || f.promiscuous
    || if frame[..6] == BROADCAST then f.broadcast
       else if frame[0] % 2 == 1 then f.multicast && hash in f.mult
       else frame[..6] == address
  }

  /** Whose frame it is, byte by byte: for all, for a group, or for the card, whose address stands in every second byte of the ROM. */
  lemma WhoseFrame(f: Filter, m: seq<Byte>, frame: seq<Byte>, hash: nat)
    requires |m| == MEM_END && 6 <= |frame|
    ensures ForCard(f, Address(m), frame, hash) <==>
      || f.promiscuous
      || if forall i :: 0 <= i < 6 ==> frame[i] == 0xff then f.broadcast
         else if frame[0] % 2 == 1 then f.multicast && hash in f.mult
         else forall i :: 0 <= i < 6 ==> frame[i] == m[2 * i]
  {
    var to, a := frame[..6], Address(m);
    assert forall i :: 0 <= i < 6 ==> to[i] == frame[i];
    assert to == BROADCAST <==> forall i :: 0 <= i < 6 ==> frame[i] == 0xff;
    assert forall i :: 0 <= i < 6 ==> a[i] == m[2 * i];
    assert to == a <==> forall i :: 0 <= i < 6 ==> to[i] == a[i];
  }

  /** A byte of the card as the host sees it: the address ROM, the buffer memory, and nothing elsewhere. */
  function HostByte(m: seq<Byte>, a: nat): Byte
    requires |m| == MEM_END
  {
    if a < 32 || MEM_START <= a < MEM_END then m[a] else 0xff
  }

  lemma RoomAligned(r: Ring, boundary: nat, current: nat)
    requires ValidRing(r)
    ensures Room(r, PAGE * boundary, PAGE * current) % PAGE == 0
  {
  }

  lemma EvenPage(a: nat)
    requires a % PAGE == 0
    ensures a % 2 == 0
  {
    var q := a / 0x100;
    assert a == 2 * (0x80 * q);
    Twice(0x80 * q);
  }

  lemma Twice(q: nat)
    ensures 2 * q % 2 == 0
  {
  }

  /** A record in the free pages leaves the unread ones alone, and can be read back. */
  lemma Recorded(m: seq<Byte>, m': seq<Byte>, r: Ring, boundary: nat, current: nat, frame: seq<Byte>)
    requires ValidRing(r) && |m| == |m'| == MEM_END && InRing(r, boundary) && InRing(r, current) && current % PAGE == 0
    requires |frame| <= MAX_FRAME && |Padded(frame)| + 4 < Taken(frame) <= Room(r, boundary, current) && Taken(frame) % PAGE == 0
    requires Stored(m, m', r, current, Record(frame, Along(r, current, Taken(frame))), |Padded(frame)| + 4)
    ensures forall a :: 0 <= a < MEM_END && (!InRing(r, a) || Unread(r, boundary, current, a)) ==> m'[a] == m[a]
    ensures var next := Along(r, current, Taken(frame));
      && next % PAGE == 0 && InRing(r, next) && (next == boundary <==> Taken(frame) == Room(r, boundary, current))
      && |Padded(frame)| + 4 < Size(r) && Bytes(m', r, current, |Padded(frame)| + 4) == Record(frame, next)
  {
    hide Taken, Record, Padded;
    var next := Along(r, current, Taken(frame));
    var data := Record(frame, next);
    AlongAligned(r, current, Taken(frame));
    EndsAt(r, boundary, current, Taken(frame));
    RoomAtMost(r, boundary, current, Taken(frame));
    Untouched(m, m', r, boundary, current, data);
    StoredBytes(m, m', r, current, data);
  }

  /** A record in the free pages leaves the unread ones alone, and its frame joins the waiting ones unless no page is left. */
  lemma Joins(m: seq<Byte>, m': seq<Byte>, r: Ring, boundary: nat, current: nat, frames: seq<seq<Byte>>, frame: seq<Byte>)
    requires ValidRing(r) && |m| == |m'| == MEM_END && InRing(r, boundary) && InRing(r, current) && current % PAGE == 0
    requires Chain(m, r, boundary, current, frames) && Total(frames) == Used(r, boundary, current)
    requires |frame| <= MAX_FRAME && |Padded(frame)| + 4 <= Taken(frame) <= Room(r, boundary, current) && Taken(frame) % PAGE == 0
    requires Stored(m, m', r, current, Record(frame, Along(r, current, Taken(frame))), |Padded(frame)| + 4)
    ensures forall a :: 0 <= a < MEM_END && (!InRing(r, a) || Unread(r, boundary, current, a)) ==> m'[a] == m[a]
    ensures var next := Along(r, current, Taken(frame));
      && next % PAGE == 0 && (next == boundary <==> Taken(frame) == Room(r, boundary, current))
      && (next != boundary ==>
        Chain(m', r, boundary, next, frames + [frame]) && Total(frames + [frame]) == Used(r, boundary, next))
  {
    hide Chain, Total, Taken, Record, Padded;
    var next := Along(r, current, Taken(frame));
    var data := Record(frame, next);
    AlongAligned(r, current, Taken(frame));
    EndsAt(r, boundary, current, Taken(frame));
    Untouched(m, m', r, boundary, current, data);
    hide Along, Unread, Room, Used, Bytes, Stored;
    if next != boundary {
      TotalMore(frames, frame);
      ChainKept(m, m', r, boundary, current, frames);
      RoomAtMost(r, boundary, current, Taken(frame));
      StoredBytes(m, m', r, current, data);
      LoneChain(m', r, current, frame);
      ChainGrows(m', r, boundary, current, frames, frame);
    }
  }

  lemma RoomAtMost(r: Ring, boundary: nat, current: nat, k: nat)
    requires ValidRing(r) && InRing(r, boundary) && InRing(r, current) && k <= Room(r, boundary, current)
    ensures k <= Size(r) && (k == Size(r) ==> Along(r, current, k) == boundary)
  {
  }

  lemma LoneChain(m: seq<Byte>, r: Ring, at: nat, frame: seq<Byte>)
    requires ValidRing(r) && |m| == MEM_END && InRing(r, at) && at % PAGE == 0
    requires |frame| <= MAX_FRAME && |Padded(frame)| + 4 <= Taken(frame) < Size(r) && Taken(frame) % PAGE == 0
    requires Bytes(m, r, at, |Padded(frame)| + 4) == Record(frame, Along(r, at, Taken(frame)))
    ensures Chain(m, r, at, Along(r, at, Taken(frame)), [frame])
  {
    hide Taken, Record, Padded;
    var next := Along(r, at, Taken(frame));
    AlongAligned(r, at, Taken(frame));
    hide Along, Bytes;
    assert [frame][1..] == [];
    assert Chain(m, r, next, next, []);
  }

  lemma AlongAligned(r: Ring, at: nat, k: nat)
    requires ValidRing(r) && InRing(r, at) && at % PAGE == 0 && k <= Size(r) && k % PAGE == 0
    ensures Along(r, at, k) % PAGE == 0
  {
  }

  lemma EndsAt(r: Ring, boundary: nat, current: nat, k: nat)
    requires ValidRing(r) && InRing(r, boundary) && InRing(r, current) && 0 < k <= Room(r, boundary, current)
    ensures Along(r, current, k) == boundary <==> k == Room(r, boundary, current)
    ensures Along(r, current, k) != boundary ==> Used(r, boundary, Along(r, current, k)) == Used(r, boundary, current) + k
  {
  }

  lemma Untouched(m: seq<Byte>, m': seq<Byte>, r: Ring, boundary: nat, current: nat, data: seq<Byte>)
    requires ValidRing(r) && |m| == |m'| == MEM_END && InRing(r, boundary) && InRing(r, current)
    requires |data| <= Room(r, boundary, current) && Stored(m, m', r, current, data, |data|)
    ensures forall a :: 0 <= a < MEM_END && (!InRing(r, a) || Unread(r, boundary, current, a)) ==> m'[a] == m[a]
  {
    forall a | 0 <= a < MEM_END && (!InRing(r, a) || Unread(r, boundary, current, a)) ensures m'[a] == m[a] {
      if InRing(r, a) { UnreadIsBeyond(r, boundary, current, a); }
    }
  }

  lemma EmptyRing(m: seq<Byte>, r: Ring, page: nat)
    requires ValidRing(r) && |m| == MEM_END && InRing(r, PAGE * page)
    ensures Chain(m, r, PAGE * page, PAGE * page, []) && Total([]) == Used(r, PAGE * page, PAGE * page)
  {
  }

  lemma PageAligned(a: nat)
    requires a % PAGE == 0
    ensures PAGE * (a / PAGE) == a
  {
  }

  lemma AlongNext(r: Ring, from: nat, k: nat)
    requires ValidRing(r) && InRing(r, from) && k + 1 < Size(r)
    ensures var a := Along(r, from, k); Along(r, from, k + 1) == if a + 1 == r.stop then r.start else a + 1
  {
  }

  lemma AlongZero(r: Ring, from: nat)
    requires ValidRing(r) && InRing(r, from)
    ensures Along(r, from, 0) == from
  {
  }

  lemma EvenAlong(r: Ring, from: nat, k: nat)
    requires ValidRing(r) && InRing(r, from) && k < Size(r) && from % 2 == 0 && k % 2 == 0
    ensures var a := Along(r, from, k); a % 2 == 0 && a + 1 < r.stop
  {
    var i, j, s, t := from / 2, k / 2, r.start / PAGE, r.stop / PAGE;
    assert from == 2 * i && k == 2 * j && r.start == PAGE * s && r.stop == PAGE * t;
    EvenBelow(if from + k >= r.stop then i + j - 0x80 * (t - s) else i + j, 0x80 * t);
  }

  lemma EvenBelow(i: int, n: int)
    requires 2 * i < 2 * n
    ensures 2 * i % 2 == 0 && 2 * i + 1 < 2 * n
  {
  }

  /** Frames wait exactly if the driver sees the two pages apart. */
  lemma Waits(m: seq<Byte>, r: Ring, at: nat, end: nat, frames: seq<seq<Byte>>)
    requires ValidRing(r) && |m| == MEM_END && InRing(r, end) && Chain(m, r, at, end, frames) && Total(frames) == Used(r, at, end)
    ensures frames == [] <==> at == end
    ensures at % PAGE == 0
  {
  }

  /** The header of the oldest frame gives its length and the page of the next one. */
  lemma HeadOf(m: seq<Byte>, r: Ring, at: nat, end: nat, frames: seq<seq<Byte>>, head: seq<Byte>)
    requires ValidRing(r) && |m| == MEM_END && InRing(r, end) && Chain(m, r, at, end, frames) && frames != []
    requires Total(frames) == Used(r, at, end) && head == Bytes(m, r, at, 4)
    ensures var next := Along(r, at, Taken(frames[0]));
      && head[2] + PAGE * head[3] == |Padded(frames[0])| + 4 < Size(r) && PAGE * head[1] == next && InRing(r, next)
      && |frames[0]| <= MAX_FRAME && Bytes(m, r, at, |Padded(frames[0])| + 4) == Record(frames[0], next)
      && Chain(m, r, next, end, frames[1..]) && Total(frames[1..]) == Used(r, next, end)
  {
    var n := |Padded(frames[0])| + 4;
    var next := Along(r, at, Taken(frames[0]));
    var whole := Bytes(m, r, at, n);
    assert forall k :: 0 <= k < 4 ==> head[k] == whole[k];
  }

  /** Behind the header lies the frame. */
  lemma TailOf(m: seq<Byte>, r: Ring, at: nat, frame: seq<Byte>, tail: seq<Byte>)
    requires ValidRing(r) && |m| == MEM_END && InRing(r, at) && |frame| <= MAX_FRAME && |Padded(frame)| + 4 < Size(r)
    requires Along(r, at, Taken(frame)) >= 0 && InRing(r, Along(r, at, Taken(frame)))
    requires Bytes(m, r, at, |Padded(frame)| + 4) == Record(frame, Along(r, at, Taken(frame)))
    requires tail == Bytes(m, r, Along(r, at, 4), |Padded(frame)|)
    ensures tail == Padded(frame)
  {
    var whole := Record(frame, Along(r, at, Taken(frame)));
    forall k | 0 <= k < |tail| ensures tail[k] == whole[k + 4] {
      AlongTwice(r, at, 4, k);
    }
  }

  lemma AlongTwice(r: Ring, at: nat, k: nat, l: nat)
    requires ValidRing(r) && InRing(r, at) && k + l < Size(r)
    ensures Along(r, Along(r, at, k), l) == Along(r, at, k + l)
  {
  }

  function AllPadded(frames: seq<seq<Byte>>): (p: seq<seq<Byte>>)
    ensures |p| == |frames|
  {
    if frames == [] then [] else [Padded(frames[0])] + AllPadded(frames[1..])
  }

  lemma {:induction false} AppendPadded(frames: seq<seq<Byte>>, frame: seq<Byte>)
    ensures AllPadded(frames + [frame]) == AllPadded(frames) + [Padded(frame)]
  {
    if frames == [] {
      assert (frames + [frame])[1..] == [];
    } else {
      AppendPadded(frames[1..], frame);
      assert (frames + [frame])[1..] == frames[1..] + [frame];
    }
  }

  datatype Event = Arrives(frame: seq<Byte>, hash: nat) | Polls

  /** The receiver reads the six bytes of the address of a frame. */
  predicate AllWhole(f: Filter, events: seq<Event>) {
    forall i :: 0 <= i < |events| && events[i].Arrives? ==> f.promiscuous || 6 <= |events[i].frame|
  }

  /** The size of the ring, and what decides which frames are for the card. */
  datatype Setup = Settings(size: int, filter: Filter, stopped: bool, address: seq<Byte>)

  /** The card as a queue: what waits, what the driver has taken, what was accepted, and whether frames were lost after that. */
  datatype Queue = Queue(waiting: seq<seq<Byte>>, taken: seq<seq<Byte>>, accepted: seq<seq<Byte>>, lost: bool)

  predicate Accepts(s: Setup, q: Queue, frame: seq<Byte>, hash: nat)
    requires s.filter.promiscuous || 6 <= |frame|
  {
    && |frame| <= MAX_FRAME && !s.stopped && s.size - Total(q.waiting) >= MAX_FRAME + 4
    && ForCard(s.filter, s.address, frame, hash)
  }

  /** One event; a frame that fills the ring to the last page loses all that waits, and itself. */
  function Next(s: Setup, q: Queue, e: Event): Queue
    requires e.Arrives? ==> s.filter.promiscuous || 6 <= |e.frame|
  {
    match e
    case Arrives(frame, hash) =>
      if !Accepts(s, q, frame, hash) then q
      else if Total(q.waiting) + Taken(frame) == s.size then Queue([], q.taken, q.accepted + [frame], true)
      else Queue(q.waiting + [frame], q.taken, q.accepted + [frame], q.lost)
    case Polls =>
      if q.waiting == [] then q else Queue(q.waiting[1..], q.taken + [Padded(q.waiting[0])], q.accepted, q.lost)
  }

  function After(s: Setup, q: Queue, events: seq<Event>): Queue
    requires AllWhole(s.filter, events)
  {
    if events == [] then q
    else Next(s, After(s, q, events[..|events| - 1]), events[|events| - 1])
  }

  /** The accepted frames are those taken and those waiting, in order; after a loss there are more of them. */
  predicate Accounted(q: Queue) {
    if q.lost then |q.accepted| > |q.taken| + |q.waiting| else AllPadded(q.accepted) == q.taken + AllPadded(q.waiting)
  }

  lemma NextAccounts(s: Setup, q: Queue, e: Event)
    requires (e.Arrives? ==> s.filter.promiscuous || 6 <= |e.frame|) && Accounted(q)
    ensures Accounted(Next(s, q, e))
  {
    hide AllPadded, Padded, Taken, Total, ForCard;
    match e
    case Arrives(frame, _) =>
      AppendPadded(q.accepted, frame);
      AppendPadded(q.waiting, frame);
    case Polls =>
      if q.waiting != [] { FirstPadded(q.waiting, q.taken); }
  }

  lemma FirstPadded(frames: seq<seq<Byte>>, taken: seq<seq<Byte>>)
    requires frames != []
    ensures taken + AllPadded(frames) == taken + [Padded(frames[0])] + AllPadded(frames[1..])
  {
    hide Padded;
    var first, rest := [Padded(frames[0])], AllPadded(frames[1..]);
    assert AllPadded(frames) == first + rest;
    hide AllPadded;
    Regrouped(taken, first, rest);
  }

  lemma Regrouped(a: seq<seq<Byte>>, b: seq<seq<Byte>>, c: seq<seq<Byte>>)
    ensures a + (b + c) == a + b + c
  {
  }

  lemma {:induction false} StaysAccounted(s: Setup, q: Queue, events: seq<Event>)
    requires AllWhole(s.filter, events) && Accounted(q)
    ensures Accounted(After(s, q, events))
    decreases |events|
  {
    if events != [] {
      hide Accounted, Next;
      StaysAccounted(s, q, events[..|events| - 1]);
      NextAccounts(s, After(s, q, events[..|events| - 1]), events[|events| - 1]);
    }
  }

  /** Frames come out in the order in which they went in, each padded to the least length, exactly if none is lost. */
  lemma InOrder(s: Setup, q: Queue, events: seq<Event>)
    requires AllWhole(s.filter, events) && !q.lost && AllPadded(q.accepted) == q.taken + AllPadded(q.waiting)
    ensures var end := After(s, q, events); AllPadded(end.accepted) == end.taken + AllPadded(end.waiting) <==> !end.lost
  {
    hide AllPadded, After;
    StaysAccounted(s, q, events);
  }

  lemma ArriveStep(s: Setup, q: Queue, frame: seq<Byte>, hash: nat)
    requires s.filter.promiscuous || 6 <= |frame|
    ensures var q' := Next(s, q, Arrives(frame, hash));
      && q'.taken == q.taken
      && (!Accepts(s, q, frame, hash) ==> q'.waiting == q.waiting)
      && (Accepts(s, q, frame, hash) ==>
        q'.waiting == if Total(q.waiting) + Taken(frame) == s.size then [] else q.waiting + [frame])
  {
  }

  lemma PollStep(s: Setup, q: Queue)
    ensures var q' := Next(s, q, Polls);
      if q.waiting == [] then q' == q else q'.waiting == q.waiting[1..] && q'.taken == q.taken + [Padded(q.waiting[0])]
  {
  }

  /** Two of the longest frames fill a ring of twelve pages: both are recorded, and the driver gets neither. */
  lemma FullRingExample()
    ensures var s := Settings(0xc00, Filter(true, false, false, {}), false, [0, 0, 0, 0, 0, 0]);
      var f := seq(MAX_FRAME, _ => 0);
      After(s, Queue([], [], [], false), [Arrives(f, 0), Arrives(f, 0), Polls]) == Queue([], [], [f, f], true)
  {
    var s := Settings(0xc00, Filter(true, false, false, {}), false, [0, 0, 0, 0, 0, 0]);
    var f: seq<Byte> := seq(MAX_FRAME, _ => 0);
    var q0, two, all := Queue([], [], [], false), [Arrives(f, 0), Arrives(f, 0)], [Arrives(f, 0), Arrives(f, 0), Polls];
    assert Taken(f) == 0x600;
    assert two[..0] == [] && two[..1] == [Arrives(f, 0)] && all[..2] == two && [Arrives(f, 0)][..0] == [];
    hide Taken, Padded;
    assert Total([]) == 0 && Total([f]) == 0x600 by { assert [f][1..] == []; }
    assert Next(s, q0, Arrives(f, 0)) == Queue([f], [], [f], false) by { assert [] + [f] == [f]; }
    assert Next(s, Queue([f], [], [f], false), Arrives(f, 0)) == Queue([], [], [f, f], true) by { assert [f] + [f] == [f, f]; }
    assert After(s, q0, []) == q0;
    assert After(s, q0, [Arrives(f, 0)]) == Queue([f], [], [f], false);
    assert After(s, q0, two) == Queue([], [], [f, f], true);
  }

  lemma Space(r: Ring, boundary: nat, current: nat)
    ensures Room(r, boundary, current) == Size(r) - Used(r, boundary, current)
  {
  }

  datatype Outcome = Dropped | Queued | Overrun

  class Card {
    const mem: array<Byte>
    const ring: Ring
    var filter: Filter
    var words: bool
    var stopped: bool
    var curpag: nat
    var boundary: nat
    var rsar: nat
    var rcnt: nat
    var received: bool
    var dmaDone: bool
    /** The frames that wait in the ring, oldest first. */
    ghost var waiting: seq<seq<Byte>>

    constructor (ring: Ring, filter: Filter, words: bool)
      requires ValidRing(ring)
      ensures Valid() && fresh(mem) && this.ring == ring && !stopped && waiting == []
    {
      mem := new Byte[MEM_END](_ => 0);
      this.ring, this.filter, this.words := ring, filter, words;
      curpag, boundary := ring.start / PAGE, ring.start / PAGE;
      stopped, rsar, rcnt, received, dmaDone := false, ring.start, 0, false, false;
      waiting := [];
    }

    /** The ring lies in card memory, and both pages in the ring. */
    ghost predicate Shape()
      reads `curpag, `boundary
    {
      mem.Length == MEM_END && ValidRing(ring) && InRing(ring, PAGE * curpag) && InRing(ring, PAGE * boundary)
    }

    /** The boundary page is where the oldest waiting frame starts. */
    ghost predicate Valid()
      reads `curpag, `boundary, `waiting, mem
      ensures Valid() ==> Shape()
    {
      && Shape() && Total(waiting) == Used(ring, PAGE * boundary, PAGE * curpag)
      && Chain(mem[..], ring, PAGE * boundary, PAGE * curpag, waiting)
    }

    /** `ne2000_buffer_full`. */
    method BufferFull() returns (full: bool)
      requires ValidRing(ring) && InRing(ring, PAGE * curpag) && InRing(ring, PAGE * boundary)
      ensures full == (Room(ring, PAGE * boundary, PAGE * curpag) < MAX_FRAME + 4)
    {
      var index, bound := PAGE * curpag, PAGE * boundary;
      var avail;
      if index < bound { avail := bound - index; } else { avail := (ring.stop - ring.start) - (index - bound); }
      full := avail < MAX_FRAME + 4;
    }

    /** The copying loop of `ne2000_receive`, after the header has been written. */
    method CopyIn(data: seq<Byte>, from: nat, ghost m: seq<Byte>)
      requires mem.Length == MEM_END && ValidRing(ring) && InRing(ring, from) && from % PAGE == 0
      requires 4 <= |data| <= Size(ring) && Stored(m, mem[..], ring, from, data, 4)
      modifies mem
      ensures Stored(m, mem[..], ring, from, data, |data|)
    {
      var index, done := from + 4, 4;
      while done < |data|
        invariant 4 <= done <= |data| && Stored(m, mem[..], ring, from, data, done)
        invariant ring.start <= index < ring.stop && (done < Size(ring) ==> index == Along(ring, from, done))
        decreases |data| - done
      {
        var avail := if index <= ring.stop then ring.stop - index else 0;
        var len := |data| - done;
        if len > avail { len := avail; }
        ghost var before := mem[..];
        forall i | 0 <= i < len { mem[index + i] := data[done + i]; }
        StoredMore(m, before, mem[..], ring, from, data, done, index, len);
        index := index + len;
        if index == ring.stop { index := ring.start; }
        done := done + len;
      }
    }

    /** Whether `ne2000_receive` takes the frame. */
    ghost predicate Takes(frame: seq<Byte>, hash: nat)
      requires mem.Length == MEM_END && (filter.promiscuous || 6 <= |frame|)
      reads this, mem
    {
      && |frame| <= MAX_FRAME && !stopped && Room(ring, PAGE * boundary, PAGE * curpag) >= MAX_FRAME + 4
      && ForCard(filter, Address(mem[..]), frame, hash)
    }

    /** The address filter of `ne2000_receive`. */
    method Filtered(frame: seq<Byte>, hash: nat) returns (wanted: bool)
      requires mem.Length == MEM_END && (filter.promiscuous || 6 <= |frame|)
      ensures wanted == ForCard(filter, Address(mem[..]), frame, hash)
    {
      if !filter.promiscuous {
        if frame[..6] == BROADCAST {
          return filter.broadcast;
        } else if frame[0] % 2 == 1 {
          if !filter.multicast { return false; }
          return hash in filter.mult;
        } else {
          return mem[0] == frame[0] && mem[2] == frame[1] && mem[4] == frame[2]
            && mem[6] == frame[3] && mem[8] == frame[4] && mem[10] == frame[5];
        }
      }
      return true;
    }

    /** The header and the frame at `index`, and the address of the page after them. */
    method WriteRecord(frame: seq<Byte>, index: nat) returns (next: nat)
      requires mem.Length == MEM_END && ValidRing(ring) && InRing(ring, index) && index % PAGE == 0
      requires |frame| <= MAX_FRAME && |Padded(frame)| + 4 <= Taken(frame) <= Size(ring)
      modifies mem
      ensures next == Along(ring, index, Taken(frame))
      ensures Stored(old(mem[..]), mem[..], ring, index, Record(frame, next), |Padded(frame)| + 4)
    {
      var buf := Padded(frame);
      var total := |buf| + 4;
      next := index + Pages(total + 4);
      if next >= ring.stop { next := next - (ring.stop - ring.start); }
      var status := 1;
      if buf[0] % 2 == 1 { status := 0x21; }
      WriteHeader(index, status, next, total, Record(frame, next));
      CopyIn(Record(frame, next), index, old(mem[..]));
    }

    method WriteHeader(index: nat, status: nat, next: nat, total: nat, ghost data: seq<Byte>)
      requires mem.Length == MEM_END && ValidRing(ring) && InRing(ring, index) && index % PAGE == 0
      requires status < PAGE && next / PAGE < PAGE && total < 0x1_0000 && 4 <= |data|
      requires data[..4] == [status, next / PAGE, total % PAGE, total / PAGE]
      modifies mem
      ensures Stored(old(mem[..]), mem[..], ring, index, data, 4)
    {
      hide Along;
      mem[index] := status;
      mem[index + 1] := next / PAGE;
      mem[index + 2] := total % PAGE;
      mem[index + 3] := total / PAGE;
    }

    /**
     `ne2000_receive`: the frame goes behind a header into the free pages, or is dropped, wherever the driver
     has put the boundary. A frame that takes all the free pages brings `curpag` to `boundary`, and the ring then
     looks empty.
     */
    method Receive(frame: seq<Byte>, hash: nat) returns (outcome: Outcome)
      requires Shape() && (filter.promiscuous || 6 <= |frame|)
      modifies mem, `curpag, `received, `waiting
      ensures Shape() && (old(Valid()) ==> Valid())
      ensures outcome == Dropped <==> !old(Takes(frame, hash))
      ensures outcome == Dropped ==> unchanged(this) && unchanged(mem)
      ensures outcome != Dropped ==> received && PAGE * curpag == Along(ring, PAGE * old(curpag), Taken(frame))
      ensures outcome != Dropped ==>
        && Stored(old(mem[..]), mem[..], ring, PAGE * old(curpag), Record(frame, PAGE * curpag), |Padded(frame)| + 4)
        && |Padded(frame)| + 4 < Size(ring)
        && Bytes(mem[..], ring, PAGE * old(curpag), |Padded(frame)| + 4) == Record(frame, PAGE * curpag)
      ensures forall a :: 0 <= a < MEM_END && (!InRing(ring, a) || Unread(ring, PAGE * boundary, PAGE * old(curpag), a)) ==>
        mem[a] == old(mem[a])
      ensures outcome == Overrun <==> old(Takes(frame, hash)) && Taken(frame) == Room(ring, PAGE * boundary, PAGE * old(curpag))
      ensures outcome == Overrun <==> outcome != Dropped && curpag == boundary
      ensures outcome == Queued ==> waiting == old(waiting) + [frame]
      ensures outcome == Overrun ==> waiting == []
    {
      hide Chain, Total, Stored, Taken, Record, Padded, ForCard, Unread, Used, Along, Room, Bytes;
      ghost var valid := Valid();
      if |frame| > MAX_FRAME { return Dropped; }
      var full := BufferFull();
      if stopped || full { return Dropped; }
      var wanted := Filtered(frame, hash);
      if !wanted { return Dropped; }
      var index := PAGE * curpag;
      RoomAligned(ring, boundary, curpag);
      TakenFits(frame, Room(ring, PAGE * boundary, index));
      RoomAtMost(ring, PAGE * boundary, index, Taken(frame));
      ghost var m := mem[..];
      var next := WriteRecord(frame, index);
      EmptyRing(mem[..], ring, boundary);
      Recorded(m, mem[..], ring, PAGE * boundary, index, frame);
      if valid { Joins(m, mem[..], ring, PAGE * boundary, index, waiting, frame); }
      PageAligned(next);
      curpag := next / PAGE;
      received := true;
      if curpag == boundary {
        outcome := Overrun;
        waiting := [];
      } else {
        outcome := Queued;
        waiting := waiting + [frame];
      }
    }

    /** Once a frame has been taken, a read of the page where it went gives its record. */
    method ReceiveAndRead(frame: seq<Byte>, hash: nat) returns (outcome: Outcome, data: seq<Byte>)
      requires Shape() && (filter.promiscuous || 6 <= |frame|)
      modifies mem, `curpag, `received, `waiting, `rsar, `rcnt, `dmaDone
      ensures Shape() && (outcome == Dropped <==> !old(Takes(frame, hash)))
      ensures data == if outcome == Dropped then [] else Record(frame, PAGE * curpag)
    {
      hide Record, Padded, Stored, Bytes, Along, Unread, ForCard, Room;
      var at := PAGE * curpag;
      outcome := Receive(frame, hash);
      data := [];
      if outcome != Dropped {
        EvenPage(at);
        data := ReadBlock(at, |Padded(frame)| + 4);
      }
    }

    /** `ne2000_asic_ioport_read`: a byte or a word of card memory, and the remote address moves on with wrap at `stop`. */
    method ReadPort() returns (value: nat)
      requires mem.Length == MEM_END && ValidRing(ring)
      modifies `rsar, `rcnt, `dmaDone
      ensures var a := old(rsar);
        value == if words then HostByte(mem[..], a - a % 2) + PAGE * HostByte(mem[..], a - a % 2 + 1) else HostByte(mem[..], a)
      ensures var len := if words then 2 else 1;
        && rsar == (if old(rsar) + len == ring.stop then ring.start else old(rsar) + len)
        && rcnt == (if old(rcnt) <= len then 0 else old(rcnt) - len)
        && dmaDone == (old(dmaDone) || old(rcnt) <= len)
    {
      var len;
      if words {
        var a := rsar - rsar % 2;
        if a < 32 || MEM_START <= a < MEM_END { value := mem[a] + PAGE * mem[a + 1]; } else { value := 0xffff; }
        len := 2;
      } else {
        if rsar < 32 || MEM_START <= rsar < MEM_END { value := mem[rsar]; } else { value := 0xff; }
        len := 1;
      }
      rsar := rsar + len;
      if rsar == ring.stop { rsar := ring.start; }
      if rcnt <= len {
        rcnt := 0;
        dmaDone := true;
      } else {
        rcnt := rcnt - len;
      }
    }

    /** One access to the data port, `k` bytes into a block of `n`; an odd last byte is the low half of a word. */
    method ReadNext(from: nat, n: nat, k: nat) returns (data: seq<Byte>)
      requires mem.Length == MEM_END && ValidRing(ring) && InRing(ring, from) && k < n < Size(ring)
      requires words ==> from % 2 == 0 && k % 2 == 0
      requires rsar == Along(ring, from, k) && rcnt == n - k && !dmaDone
      modifies `rsar, `rcnt, `dmaDone
      ensures |data| == if words && k + 1 < n then 2 else 1
      ensures forall i :: 0 <= i < |data| ==> data[i] == mem[Along(ring, from, k + i)]
      ensures k + |data| < n ==> rsar == Along(ring, from, k + |data|)
      ensures rcnt == n - k - |data| && (dmaDone <==> rcnt == 0)
    {
      AlongNext(ring, from, k);
      if words { EvenAlong(ring, from, k); }
      if k + 2 < n { AlongNext(ring, from, k + 1); }
      hide Along;
      var value := ReadPort();
      if !words {
        data := [value];
      } else if k + 1 < n {
        data := [value % PAGE, value / PAGE];
      } else {
        data := [value % PAGE];
      }
    }

    /** The driver sets the remote address and count and reads the port. */
    method ReadBlock(from: nat, n: nat) returns (data: seq<Byte>)
      requires mem.Length == MEM_END && ValidRing(ring) && InRing(ring, from) && 0 < n < Size(ring) && (words ==> from % 2 == 0)
      modifies `rsar, `rcnt, `dmaDone
      ensures data == Bytes(mem[..], ring, from, n)
      ensures rcnt == 0 && dmaDone
    {
      rsar, rcnt, dmaDone, data := from, n, false, [];
      AlongZero(ring, from);
      hide Along;
      while |data| < n
        invariant |data| <= n && rcnt == n - |data| && (dmaDone <==> rcnt == 0)
        invariant |data| < n ==> rsar == Along(ring, from, |data|) && (words ==> |data| % 2 == 0)
        invariant forall k :: 0 <= k < |data| ==> data[k] == mem[Along(ring, from, k)]
        decreases n - |data|
      {
        var more := ReadNext(from, n, |data|);
        data := data + more;
      }
      assert data == Bytes(mem[..], ring, from, n);
    }

    /** The driver takes the oldest frame: first the header at the boundary page, then what the header says, then the page after it. */
    method Take() returns (some: bool, frame: seq<Byte>)
      requires Valid()
      modifies `rsar, `rcnt, `dmaDone, `boundary, `waiting
      ensures Valid()
      ensures some <==> old(waiting) != []
      ensures some ==> frame == Padded(old(waiting)[0]) && waiting == old(waiting)[1..]
      ensures !some ==> waiting == [] && boundary == old(boundary)
    {
      hide Chain, Total, Taken, Record, Padded, Used, Along, Bytes;
      var at := PAGE * boundary;
      Waits(mem[..], ring, at, PAGE * curpag, waiting);
      if boundary == curpag { return false, []; }
      var head := ReadBlock(at, 4);
      var n := head[2] + PAGE * head[3];
      ghost var sent := waiting[0];
      HeadOf(mem[..], ring, at, PAGE * curpag, waiting, head);
      EvenAlong(ring, at, 4);
      frame := ReadBlock(Along(ring, at, 4), n - 4);
      TailOf(mem[..], ring, at, sent, frame);
      some, boundary, waiting := true, head[1], waiting[1..];
    }

    ghost function Setup(): Setup
      reads `filter, `stopped, mem
      requires mem.Length == MEM_END
    {
      Settings(Size(ring), filter, stopped, Address(mem[..]))
    }

    /** Frames arrive and the driver polls, in any order: the ring does what the queue does. */
    method Run(events: seq<Event>) returns (taken: seq<seq<Byte>>)
      requires Valid() && AllWhole(filter, events)
      modifies this, mem
      ensures Valid()
      ensures var end := After(old(Setup()), Queue(old(waiting), [], [], false), events);
        taken == end.taken && waiting == end.waiting
    {
      hide Chain, Total, Used, Room, Along, Unread, Stored, Record, Padded, Taken, ForCard, Next;
      taken := [];
      ghost var setup, queue := Setup(), Queue(waiting, [], [], false);
      for i := 0 to |events|
        invariant Valid() && filter == old(filter) && Setup() == setup
        invariant queue == After(setup, Queue(old(waiting), [], [], false), events[..i])
        invariant taken == queue.taken && waiting == queue.waiting
      {
        assert events[..i + 1][..i] == events[..i];
        ghost var next := Next(setup, queue, events[i]);
        match events[i] {
          case Arrives(frame, hash) =>
            Space(ring, PAGE * boundary, PAGE * curpag);
            ArriveStep(setup, queue, frame, hash);
            var outcome := Receive(frame, hash);
          case Polls =>
            PollStep(setup, queue);
            var some, frame := Take();
            if some { taken := taken + [frame]; }
        }
        queue := next;
      }
      assert events[..|events|] == events;
    }
  }
}
