/** Fragmentation of a data-channel message and its reassembly by a receiver that sees the slices in any order. */
module MessageSlice {

  type byte = x: int | 0 <= x < 256

  type Bytes = seq<byte>

  const SLICE_SIZE := 16 * 1024
  const HEADER_SIZE := 12
  const TWO_32 := 0x1_0000_0000

  type u32 = x: nat | x < TWO_32

  // ----- the header: three 32-bit big-endian fields -----

  function Joined(a: nat, b: nat, c: nat, d: nat): nat { ((a * 256 + b) * 256 + c) * 256 + d }

  /** The number four bytes stand for, the first byte being the most significant. */
  function ReadU32(b: Bytes): nat
    requires |b| == 4
  {
    Joined(b[0], b[1], b[2], b[3])
  }

  lemma ReadU32Injective(x: Bytes, y: Bytes)
    requires |x| == |y| == 4 && ReadU32(x) == ReadU32(y)
    ensures x == y
  {
    var x0: nat, x1: nat, x2: nat, y0: nat, y1: nat, y2: nat := x[0], x[1], x[2], y[0], y[1], y[2];
    var p, q := x0 * 256 + x1, y0 * 256 + y1;
    LastDigit(p * 256 + x2, x[3], q * 256 + y2, y[3]);
    LastDigit(p, x[2], q, y[2]);
    LastDigit(x0, x[1], y0, y[1]);
  }

  lemma LastDigit(p: nat, a: byte, q: nat, b: byte)
    requires p * 256 + a == q * 256 + b
    ensures p == q && a == b
  {
  }

  /** The four bytes of a number, lowest byte last. */
  method WriteU32(n: u32) returns (b: Bytes)
    ensures b == [n / 0x100_0000, n / 0x1_0000 % 256, n / 0x100 % 256, n % 256]
    ensures ReadU32(b) == n
  {
    var a, c, d := n / 0x100_0000, n / 0x1_0000, n / 0x100;
    assert d / 256 == c && c / 256 == a;
    b := [a, c % 256, d % 256, n % 256];
  }

  lemma U32Exists(n: u32)
    ensures exists b: Bytes :: |b| == 4 && ReadU32(b) == n
  {
    var a, c, d := n / 0x100_0000, n / 0x1_0000, n / 0x100;
    assert d / 256 == c && c / 256 == a;
    var b: Bytes := [a, c % 256, d % 256, n % 256];
    assert ReadU32(b) == n;
  }

  /** The one encoding of a number that reads back as it. */
  ghost function U32(n: u32): (b: Bytes)
    ensures |b| == 4 && ReadU32(b) == n
  {
    U32Exists(n);
    var b: Bytes :| |b| == 4 && ReadU32(b) == n;
    b
  }

  /** The most significant byte comes first. */
  lemma BigEndian(n: u32)
    ensures U32(n) == [n / 0x100_0000, n / 0x1_0000 % 256, n / 0x100 % 256, n % 256]
  {
    var a, c, d := n / 0x100_0000, n / 0x1_0000, n / 0x100;
    assert d / 256 == c && c / 256 == a;
    ReadU32Injective(U32(n), [a, c % 256, d % 256, n % 256]);
  }

  ghost function Header(id: u32, count: u32, i: u32): (h: Bytes)
    ensures |h| == HEADER_SIZE
  {
    U32(id) + U32(count) + U32(i)
  }

  datatype Fields = Fields(id: nat, count: nat, i: nat)

  /** The fields `merge` reads at 0:4, 4:8 and 8:12. */
  function FieldsOf(data: Bytes): Fields
    requires |data| >= HEADER_SIZE
  {
    Fields(ReadU32(data[0..4]), ReadU32(data[4..8]), ReadU32(data[8..12]))
  }

  lemma FieldsOfParts(x: Bytes, y: Bytes, z: Bytes, chunk: Bytes)
    requires |x| == |y| == |z| == 4
    ensures FieldsOf(x + y + z + chunk) == Fields(ReadU32(x), ReadU32(y), ReadU32(z))
    ensures (x + y + z + chunk)[HEADER_SIZE..] == chunk
  {
    var data := x + y + z + chunk;
    assert data[0..4] == x;
    assert data[4..8] == y;
    assert data[8..12] == z;
  }

  lemma FieldsOfFrame(id: u32, count: u32, i: u32, chunk: Bytes)
    ensures FieldsOf(Header(id, count, i) + chunk) == Fields(id, count, i)
    ensures (Header(id, count, i) + chunk)[HEADER_SIZE..] == chunk
  {
    FieldsOfParts(U32(id), U32(count), U32(i), chunk);
  }

  // ----- slicing -----

  function SliceCount(total: nat): nat {
    total / SLICE_SIZE + if total % SLICE_SIZE > 0 then 1 else 0
  }

  /** The slice count is the least number of slices the message fits in. */
  lemma SliceCountIsCeiling(total: nat, n: nat)
    ensures total <= n * SLICE_SIZE <==> SliceCount(total) <= n
  {
  }

  function Min(a: nat, b: nat): nat { if a < b then a else b }

  function Chunk(message: Bytes, i: nat): Bytes
    requires i * SLICE_SIZE <= |message|
  {
    message[i * SLICE_SIZE..Min((i + 1) * SLICE_SIZE, |message|)]
  }

  lemma ChunkInRange(message: Bytes, i: nat)
    requires i < SliceCount(|message|)
    ensures i * SLICE_SIZE < |message|
  {
  }

  /** The slice count fits its 32 bits. */
  predicate Sendable(message: Bytes) { SliceCount(|message|) < TWO_32 }

  /** What a 32-bit field keeps of a number. */
  function Low32(n: nat): (low: u32)
    ensures n < TWO_32 ==> low == n
  {
    n % TWO_32
  }

  /** Slice `i` of a message as it is sent. */
  ghost function Frame(message: Bytes, id: u32, i: nat): (f: Bytes)
    requires i < SliceCount(|message|)
    ensures HEADER_SIZE <= |f| <= HEADER_SIZE + SLICE_SIZE
  {
    ChunkInRange(message, i);
    Header(id, Low32(SliceCount(|message|)), Low32(i)) + Chunk(message, i)
  }

  ghost function Frames(message: Bytes, id: u32): (frames: seq<Bytes>)
    ensures |frames| == SliceCount(|message|)
    ensures forall i | 0 <= i < |frames| :: HEADER_SIZE <= |frames[i]| <= HEADER_SIZE + SLICE_SIZE
  {
    seq(SliceCount(|message|), i requires 0 <= i < SliceCount(|message|) => Frame(message, id, i))
  }

  /** A frame byte by byte: the id in bytes 0 to 3, the slice count in 4 to 7, the index in 8 to 11, each cut to 32 bits
      and with its most significant byte first, and from byte 12 on the 16384 bytes of the message from 16384 * i on, or
      as many as are left. */
  lemma FrameLayout(message: Bytes, id: u32, i: nat)
    requires i < SliceCount(|message|)
    ensures var f, n, k := Frame(message, id, i), SliceCount(|message|) % 0x1_0000_0000, i % 0x1_0000_0000;
            && f[..4] == [id / 0x100_0000, id / 0x1_0000 % 256, id / 0x100 % 256, id % 256]
            && f[4..8] == [n / 0x100_0000, n / 0x1_0000 % 256, n / 0x100 % 256, n % 256]
            && f[8..12] == [k / 0x100_0000, k / 0x1_0000 % 256, k / 0x100 % 256, k % 256]
            && 16384 * i < |message|
            && f[12..] == message[16384 * i..Min(16384 * i + 16384, |message|)]
  {
    var n, k := Low32(SliceCount(|message|)), Low32(i);
    ChunkInRange(message, i);
    BigEndian(id);
    BigEndian(n);
    BigEndian(k);
    FrameParts(U32(id), U32(n), U32(k), Chunk(message, i));
  }

  lemma FrameParts(x: Bytes, y: Bytes, z: Bytes, chunk: Bytes)
    requires |x| == |y| == |z| == 4
    ensures var f := x + y + z + chunk; f[..4] == x && f[4..8] == y && f[8..12] == z && f[12..] == chunk
  {
  }

  function All(count: nat): (all: set<nat>)
    ensures forall i: nat :: i in all <==> i < count
    ensures |all| == count
  {
    if count == 0 then {} else All(count - 1) + {count - 1}
  }

  // ----- merging -----

  datatype Receiver = Receiver(id: nat, buffer: map<nat, Bytes>)

  /** What one slice leads to; data too short for a header are sliced out of range. */
  datatype Delivery = Nothing | Message(bytes: Bytes) | OutOfRange

  /** The payloads of the buffered slices 0 to n-1 in order; a missing one contributes nothing. */
  function Assemble(buffer: map<nat, Bytes>, n: nat): Bytes
    requires forall i | i in buffer :: |buffer[i]| >= HEADER_SIZE
  {
    if n == 0 then []
    else Assemble(buffer, n - 1) + if n - 1 in buffer then buffer[n - 1][HEADER_SIZE..] else []
  }

  predicate WellFormed(r: Receiver) { forall i | i in r.buffer :: |r.buffer[i]| >= HEADER_SIZE }

  /** A slice with another id starts a new buffer. */
  function Started(r: Receiver, id: nat): Receiver { if id != r.id then Receiver(id, map[]) else r }

  /** What `merge` does once the three fields are read. */
  function MergeFields(r: Receiver, f: Fields, data: Bytes): (result: (Receiver, Delivery))
    requires WellFormed(r) && |data| >= HEADER_SIZE
    ensures WellFormed(result.0)
  {
    var r1 := Started(r, f.id);
    if f.count == 1 then (Receiver(0, map[]), Message(data[HEADER_SIZE..]))
    else
      var buffer := if f.i in r1.buffer then r1.buffer else r1.buffer[f.i := data];
      if |buffer| == f.count then (Receiver(0, map[]), Message(Assemble(buffer, |buffer|)))
      else (Receiver(r1.id, buffer), Nothing)
  }

  function Merged(r: Receiver, data: Bytes): (result: (Receiver, Delivery))
    requires WellFormed(r)
    ensures WellFormed(result.0)
  {
    if |data| >= HEADER_SIZE then MergeFields(r, FieldsOf(data), data)
    else (if |data| >= 4 then Started(r, ReadU32(data[0..4])) else r, OutOfRange)
  }

  /** Data shorter than a header are sliced out of range, after an id of their own, if they have four bytes for one, has
      already emptied the buffer; whatever has a header is not. */
  lemma ShortDataExactly(r: Receiver, data: Bytes)
    requires WellFormed(r)
    ensures Merged(r, data).1 == OutOfRange <==> |data| < 12
    ensures |data| < 12 ==>
              Merged(r, data).0 == if |data| >= 4 && ReadU32(data[..4]) != r.id then Receiver(ReadU32(data[..4]), map[]) else r
  {
    assert |data| >= 4 ==> data[0..4] == data[..4];
  }

  // ----- the program -----

  class MessageSlice {
    var sliceBuffer: map<nat, Bytes>
    var sliceBufferId: nat

    ghost predicate Valid()
      reads this
    {
      WellFormed(View())
    }

    ghost function View(): Receiver
      reads this
    {
      Receiver(sliceBufferId, sliceBuffer)
    }

    constructor ()
      ensures Valid() && View() == Receiver(0, map[])
    {
      sliceBufferId, sliceBuffer := 0, map[];
    }

    /** `slice`, given the random number it draws. */
    method Slice(message: Bytes, id: u32) returns (slices: map<nat, Bytes>)
      ensures slices.Keys == All(SliceCount(|message|))
      ensures forall i | i in slices :: slices[i] == Frames(message, id)[i]
    {
      var total := |message|;
      var remainder := total % SLICE_SIZE;
      var sliceCount := total / SLICE_SIZE;
      if remainder > 0 {
        sliceCount := sliceCount + 1;
      }
      slices := SliceLoop(message, id, sliceCount, Frames(message, id));
    }

    static method SliceLoop(message: Bytes, id: u32, sliceCount: nat, ghost frames: seq<Bytes>)
      returns (slices: map<nat, Bytes>)
      requires |frames| == sliceCount == SliceCount(|message|)
      requires forall i | 0 <= i < sliceCount :: frames[i] == Frame(message, id, i)
      ensures slices.Keys == All(sliceCount)
      ensures forall i | i in slices :: slices[i] == frames[i]
    {
      hide Frame;
      slices := map[];
      for i := 0 to sliceCount
        invariant slices.Keys == All(i)
        invariant forall j | j in slices :: slices[j] == frames[j]
      {
        var buffer := EncodeSlice(message, id, sliceCount, i);
        slices := slices[i := buffer];
      }
    }

    /** The body of the slicing loop: three fields, then the bytes from start to end. */
    static method EncodeSlice(message: Bytes, id: u32, sliceCount: nat, i: nat) returns (buffer: Bytes)
      requires i < sliceCount == SliceCount(|message|)
      ensures buffer == Frame(message, id, i)
    {
      hide ReadU32;
      ChunkInRange(message, i);
      var x := WriteU32(id);
      var y := WriteU32(Low32(sliceCount));
      var z := WriteU32(Low32(i));
      ReadU32Injective(x, U32(id));
      ReadU32Injective(y, U32(Low32(sliceCount)));
      ReadU32Injective(z, U32(Low32(i)));
      buffer := x + y + z;
      var start := i * SLICE_SIZE;
      var end := (i + 1) * SLICE_SIZE;
      if end < |message| {
        buffer := buffer + message[start..end];
      } else {
        buffer := buffer + message[start..];
      }
    }

    /** The frames `Send` hands to the channel: the slices of the message in whatever order the map yields them. */
    method Send(message: Bytes, id: u32) returns (sent: seq<Bytes>, ghost order: seq<nat>)
      ensures IsOrder(order, SliceCount(|message|))
      ensures |sent| == |order|
      ensures forall k | 0 <= k < |order| :: order[k] < SliceCount(|message|) && sent[k] == Frames(message, id)[order[k]]
      ensures forall f :: f in sent <==> f in Frames(message, id)
    {
      var slices := Slice(message, id);
      sent, order := Ranged(slices, SliceCount(|message|));
      var frames := Frames(message, id);
      forall i | 0 <= i < |frames| ensures frames[i] in sent {
        assert i in order;
        var k :| 0 <= k < |order| && order[k] == i;
        assert sent[k] == frames[i];
      }
    }

    /** Ranging over a map: every key once, in an arbitrary order. */
    static method Ranged(slices: map<nat, Bytes>, ghost count: nat) returns (sent: seq<Bytes>, ghost order: seq<nat>)
      requires slices.Keys == All(count)
      ensures IsOrder(order, count) && |sent| == |order|
      ensures forall k | 0 <= k < |order| :: order[k] in slices && sent[k] == slices[order[k]]
    {
      sent, order := [], [];
      var todo := slices.Keys;
      while todo != {}
        invariant todo <= slices.Keys
        invariant |sent| == |order|
        invariant forall k | 0 <= k < |order| :: order[k] in slices.Keys - todo && sent[k] == slices[order[k]]
        invariant forall j, k | 0 <= j < k < |order| :: order[j] != order[k]
        invariant forall i | i in slices.Keys - todo :: i in order
        decreases todo
      {
        var i :| i in todo;
        todo := todo - {i};
        sent := sent + [slices[i]];
        order := order + [i];
      }
    }

    method Merge(data: Bytes) returns (delivery: Delivery)
      requires Valid()
      modifies this
      ensures Valid()
      ensures (View(), delivery) == Merged(old(View()), data)
    {
      if |data| < 4 {
        return OutOfRange;
      }
      var id := ReadU32(data[0..4]);
      if id != sliceBufferId {
        sliceBufferId := id;
        sliceBuffer := map[];
      }
      if |data| < HEADER_SIZE {
        return OutOfRange;
      }
      var sliceCount := ReadU32(data[4..8]);
      var i := ReadU32(data[8..12]);
      if sliceCount == 1 {
        sliceBufferId := 0;
        sliceBuffer := map[];
        return Message(data[HEADER_SIZE..]);
      }
      if i !in sliceBuffer {
        sliceBuffer := sliceBuffer[i := data];
      }
      var size := |sliceBuffer|;
      if size == sliceCount {
        var buffer := [];
        for j := 0 to size
          invariant buffer == Assemble(sliceBuffer, j)
        {
          if j in sliceBuffer {
            buffer := buffer + sliceBuffer[j][HEADER_SIZE..];
          }
        }
        sliceBufferId := 0;
        sliceBuffer := map[];
        return Message(buffer);
      }
      delivery := Nothing;
    }
  }

  /** Every slice number once. */
  ghost predicate IsOrder(order: seq<nat>, count: nat) {
    && (forall k | 0 <= k < |order| :: order[k] < count)
    && (forall j, k | 0 <= j < k < |order| :: order[j] != order[k])
    && (forall i: nat | i < count :: i in order)
  }

  // ----- one message, any order, any repeats -----

  predicate Framed(frames: seq<Bytes>) { forall i | 0 <= i < |frames| :: |frames[i]| >= HEADER_SIZE }

  /** The payloads of the first n frames in order. */
  function Payloads(frames: seq<Bytes>, n: nat): Bytes
    requires Framed(frames) && n <= |frames|
  {
    if n == 0 then [] else Payloads(frames, n - 1) + frames[n - 1][HEADER_SIZE..]
  }

  lemma FrameMeaning(message: Bytes, id: u32, i: nat)
    requires Sendable(message) && i < SliceCount(|message|)
    ensures i * SLICE_SIZE < |message|
    ensures FieldsOf(Frames(message, id)[i]) == Fields(id, SliceCount(|message|), i)
    ensures Frames(message, id)[i][HEADER_SIZE..] == Chunk(message, i)
  {
    ChunkInRange(message, i);
    FieldsOfFrame(id, SliceCount(|message|), i, Chunk(message, i));
  }

  /** Where one chunk ends the next one starts. */
  lemma ChunkExtends(message: Bytes, i: nat)
    requires i * SLICE_SIZE < |message|
    ensures message[..i * SLICE_SIZE] + Chunk(message, i) == message[..Min((i + 1) * SLICE_SIZE, |message|)]
  {
  }

  lemma {:induction false} PayloadsArePrefix(message: Bytes, id: u32, n: nat)
    requires Sendable(message) && n <= SliceCount(|message|)
    ensures Payloads(Frames(message, id), n) == message[..Min(n * SLICE_SIZE, |message|)]
  {
    if n > 0 {
      hide Chunk;
      hide Frames;
      PayloadsArePrefix(message, id, n - 1);
      FrameMeaning(message, id, n - 1);
      ChunkExtends(message, n - 1);
    }
  }

  /** The frames of a message carry the message. */
  lemma PayloadsAreMessage(message: Bytes, id: u32)
    requires Sendable(message)
    ensures Payloads(Frames(message, id), |Frames(message, id)|) == message
  {
    hide Frames;
    hide SliceCount;
    PayloadsArePrefix(message, id, SliceCount(|message|));
    SliceCountIsCeiling(|message|, SliceCount(|message|));
  }

  lemma SomeMissing(seen: set<nat>, count: nat)
    requires seen <= All(count)
    ensures |seen| <= count && (|seen| == count <==> seen == All(count))
  {
    assert All(count) == seen + (All(count) - seen);
  }

  /** The buffer that holds exactly the slices seen. */
  function BufferOf(frames: seq<Bytes>, seen: set<nat>): (buffer: map<nat, Bytes>)
    requires seen <= All(|frames|)
    ensures buffer.Keys == seen
  {
    map i | i in seen :: frames[i]
  }

  lemma {:induction false} AssembleAll(frames: seq<Bytes>, n: nat)
    requires Framed(frames) && n <= |frames|
    ensures Assemble(BufferOf(frames, All(|frames|)), n) == Payloads(frames, n)
  {
    hide All;
    if n > 0 {
      AssembleAll(frames, n - 1);
    }
  }

  lemma BufferGrows(frames: seq<Bytes>, seen: set<nat>, i: nat)
    requires seen <= All(|frames|) && i < |frames|
    ensures var buffer := BufferOf(frames, seen);
            (if i in buffer then buffer else buffer[i := frames[i]]) == BufferOf(frames, seen + {i})
    ensures |BufferOf(frames, seen + {i})| <= |frames|
    ensures |BufferOf(frames, seen + {i})| == |frames| <==> seen + {i} == All(|frames|)
  {
    SomeMissing(seen + {i}, |frames|);
    assert |BufferOf(frames, seen + {i})| == |BufferOf(frames, seen + {i}).Keys|;
  }

  /** One slice arriving at a receiver that holds the slices seen so far of the same message. */
  lemma OneSlice(frames: seq<Bytes>, id: nat, r: Receiver, seen: set<nat>, i: nat)
    requires Framed(frames) && i < |frames|
    requires seen < All(|frames|) && r.buffer == BufferOf(frames, seen)
    requires r.id == id || seen == {}
    ensures WellFormed(r)
    ensures MergeFields(r, Fields(id, |frames|, i), frames[i]) ==
            if seen + {i} == All(|frames|) then (Receiver(0, map[]), Message(Payloads(frames, |frames|)))
            else (Receiver(id, BufferOf(frames, seen + {i})), Nothing)
  {
    if |frames| == 1 {
      OnlySlice(frames, seen, i);
    } else {
      OneOfSeveral(frames, id, r, seen, i);
    }
  }

  lemma OneOfSeveral(frames: seq<Bytes>, id: nat, r: Receiver, seen: set<nat>, i: nat)
    requires Framed(frames) && i < |frames| && |frames| != 1 && WellFormed(r)
    requires seen < All(|frames|) && r.buffer == BufferOf(frames, seen)
    requires r.id == id || seen == {}
    ensures MergeFields(r, Fields(id, |frames|, i), frames[i]) ==
            if seen + {i} == All(|frames|) then (Receiver(0, map[]), Message(Payloads(frames, |frames|)))
            else (Receiver(id, BufferOf(frames, seen + {i})), Nothing)
  {
    if seen == {} {
      assert BufferOf(frames, seen) == map[];
    }
    BufferGrows(frames, seen, i);
    if seen + {i} == All(|frames|) {
      AssembleAll(frames, |frames|);
    }
  }

  lemma OnlySlice(frames: seq<Bytes>, seen: set<nat>, i: nat)
    requires Framed(frames) && |frames| == 1 && i < 1 && seen < All(1)
    ensures seen + {i} == All(1) && Payloads(frames, 1) == frames[i][HEADER_SIZE..]
  {
    assert All(1) == {0};
    assert Payloads(frames, 1) == Payloads(frames, 0) + frames[0][HEADER_SIZE..];
  }

  function Seen(order: seq<nat>): set<nat> { set k | 0 <= k < |order| :: order[k] }

  predicate InRange(order: seq<nat>, count: nat) { forall k | 0 <= k < |order| :: order[k] < count }

  /** The receiver after the slices of `order` arrived one by one, and whether nothing was delivered so far. */
  ghost function FedSilently(r: Receiver, frames: seq<Bytes>, order: seq<nat>): (result: (Receiver, bool))
    requires WellFormed(r) && Framed(frames) && InRange(order, |frames|)
    ensures WellFormed(result.0)
  {
    if order == [] then (r, true)
    else
      var p := FedSilently(r, frames, order[..|order| - 1]);
      var m := Merged(p.0, frames[order[|order| - 1]]);
      (m.0, p.1 && m.1 == Nothing)
  }

  lemma {:induction false} SilentWhileMissing(r: Receiver, message: Bytes, id: u32, order: seq<nat>)
    requires Sendable(message) && r.buffer == map[] && InRange(order, SliceCount(|message|))
    requires Seen(order) < All(SliceCount(|message|))
    ensures FedSilently(r, Frames(message, id), order).1
    ensures FedSilently(r, Frames(message, id), order).0.buffer == BufferOf(Frames(message, id), Seen(order))
    ensures order == [] || FedSilently(r, Frames(message, id), order).0.id == id
    decreases |order|
  {
    if order != [] {
      var n := |order| - 1;
      var front := order[..n];
      assert Seen(order) == Seen(front) + {order[n]};
      assert Seen(front) < All(SliceCount(|message|));
      SilentWhileMissing(r, message, id, front);
      var p := FedSilently(r, Frames(message, id), front).0;
      assert front == [] ==> Seen(front) == {};
      FrameMeaning(message, id, order[n]);
      OneSlice(Frames(message, id), id, p, Seen(front), order[n]);
    }
  }

  /** A receiver with an empty buffer that is fed the slices of a non-empty message, in any order and with any repeats,
      delivers nothing until the last missing slice arrives; that arrival delivers exactly the message and leaves the
      buffer empty. */
  lemma Reassembly(r: Receiver, message: Bytes, id: u32, order: seq<nat>, i: nat)
    requires Sendable(message) && message != [] && r.buffer == map[]
    requires i < SliceCount(|message|) && InRange(order, SliceCount(|message|))
    requires Seen(order) < All(SliceCount(|message|))
    ensures FedSilently(r, Frames(message, id), order).1
    ensures var m := Merged(FedSilently(r, Frames(message, id), order).0, Frames(message, id)[i]);
            && (m.1 == (if Seen(order) + {i} == All(SliceCount(|message|)) then Message(message) else Nothing))
            && (Seen(order) + {i} == All(SliceCount(|message|)) ==> m.0 == Receiver(0, map[]))
  {
    SilentWhileMissing(r, message, id, order);
    var p := FedSilently(r, Frames(message, id), order).0;
    assert order == [] ==> Seen(order) == {};
    FrameMeaning(message, id, i);
    OneSlice(Frames(message, id), id, p, Seen(order), i);
    PayloadsAreMessage(message, id);
  }

  /** So whatever order `Send` chose, its last frame delivers the message and the frames before it deliver nothing. */
  lemma SentIsReceived(r: Receiver, message: Bytes, id: u32, order: seq<nat>)
    requires Sendable(message) && message != [] && r.buffer == map[]
    requires IsOrder(order, SliceCount(|message|))
    ensures order != []
    ensures FedSilently(r, Frames(message, id), order[..|order| - 1]).1
    ensures Merged(FedSilently(r, Frames(message, id), order[..|order| - 1]).0, Frames(message, id)[order[|order| - 1]]) ==
            (Receiver(0, map[]), Message(message))
  {
    assert SliceCount(|message|) > 0;
    assert 0 in order;
    var n := |order| - 1;
    var front, last := order[..n], order[n];
    assert last !in Seen(front);
    forall i: nat | i < SliceCount(|message|) ensures i in Seen(front) + {last} {
      assert i in order;
      var k :| 0 <= k < |order| && order[k] == i;
      assert k < n ==> front[k] == i;
    }
    assert Seen(front) + {last} == All(SliceCount(|message|));
    Reassembly(r, message, id, front, last);
  }

  // ----- many messages, any interleaving -----

  /** The frames of every message sent; messages are told apart by their ids. */
  ghost function AllFrames(sent: map<u32, Bytes>): map<u32, seq<Bytes>>
    requires AllSendable(sent)
  {
    map id | id in sent :: Frames(sent[id], id)
  }

  /** A slice of one of the messages. */
  ghost predicate IsSlice(lots: map<u32, seq<Bytes>>, data: Bytes) {
    exists id: u32, i: nat :: id in lots && i < |lots[id]| && data == lots[id][i]
  }

  ghost predicate AllSendable(sent: map<u32, Bytes>) { forall id | id in sent :: Sendable(sent[id]) }

  /** The buffer holds some, not all, of the slices of the one message the receiver is on. */
  ghost predicate OnOneMessage(lots: map<u32, seq<Bytes>>, r: Receiver) {
    r.buffer != map[] ==>
      && r.id in lots && r.buffer.Keys < All(|lots[r.id]|)
      && r.buffer == BufferOf(lots[r.id], r.buffer.Keys)
  }

  /** What a receiver that holds part of a message, or nothing, does with a slice of that message. */
  lemma OneOfMany(lots: map<u32, seq<Bytes>>, start: Receiver, id: u32, frames: seq<Bytes>, seen: set<nat>, i: nat)
    requires id in lots && lots[id] == frames && i < |frames| && Framed(frames)
    requires start.id == id && seen < All(|frames|) && start.buffer == BufferOf(frames, seen)
    ensures WellFormed(start)
    ensures OnOneMessage(lots, MergeFields(start, Fields(id, |frames|, i), frames[i]).0)
    ensures var d := MergeFields(start, Fields(id, |frames|, i), frames[i]).1;
            d.Message? ==> d.bytes == Payloads(frames, |frames|)
  {
    OneSlice(frames, id, start, seen, i);
    assert i in All(|frames|);
    assert BufferOf(frames, seen + {i}).Keys == seen + {i};
  }

  lemma NeverMixedLots(lots: map<u32, seq<Bytes>>, r: Receiver, id: u32, i: nat, data: Bytes)
    requires OnOneMessage(lots, r) && id in lots && i < |lots[id]| && data == lots[id][i]
    requires (r.id in lots ==> Framed(lots[r.id])) && Framed(lots[id])
    requires |data| >= HEADER_SIZE && FieldsOf(data) == Fields(id, |lots[id]|, i)
    ensures WellFormed(r) && OnOneMessage(lots, Merged(r, data).0)
    ensures Merged(r, data).1.Message? ==> Merged(r, data).1.bytes == Payloads(lots[id], |lots[id]|)
  {
    var frames := lots[id];
    if r.id == id && r.buffer != map[] {
      OneOfMany(lots, r, id, frames, r.buffer.Keys, i);
    } else {
      var start := Receiver(id, map[]);
      assert BufferOf(frames, {}) == map[];
      assert i in All(|frames|);
      OneOfMany(lots, start, id, frames, {}, i);
      assert r.id == id ==> r == start;
      assert r.buffer != map[] ==> r.buffer == BufferOf(lots[r.id], r.buffer.Keys);
    }
  }

  /** However slices of many messages are interleaved, lost or repeated, a delivery is one of the sent messages in
      full, the one its slice belongs to: bytes of two messages are never mixed. */
  lemma NeverMixed(sent: map<u32, Bytes>, r: Receiver, data: Bytes)
    requires AllSendable(sent) && OnOneMessage(AllFrames(sent), r) && IsSlice(AllFrames(sent), data)
    ensures WellFormed(r) && |data| >= HEADER_SIZE
    ensures OnOneMessage(AllFrames(sent), Merged(r, data).0)
    ensures Merged(r, data).1.Message? ==>
              FieldsOf(data).id in sent && Merged(r, data).1.bytes == sent[FieldsOf(data).id]
  {
    var lots := AllFrames(sent);
    var id: u32, i: nat :| id in lots && i < |lots[id]| && data == lots[id][i];
    FrameMeaning(sent[id], id, i);
    PayloadsAreMessage(sent[id], id);
    NeverMixedLots(lots, r, id, i, data);
  }

  function Fed(r: Receiver, frames: seq<Bytes>): (result: (Receiver, seq<Delivery>))
    requires WellFormed(r) && Framed(frames)
    ensures WellFormed(result.0)
  {
    if frames == [] then (r, [])
    else
      var p := Fed(r, frames[..|frames| - 1]);
      var m := Merged(p.0, frames[|frames| - 1]);
      (m.0, p.1 + [m.1])
  }

  lemma {:induction false} NeverMixedOverRuns(sent: map<u32, Bytes>, frames: seq<Bytes>)
    requires AllSendable(sent) && forall i | 0 <= i < |frames| :: IsSlice(AllFrames(sent), frames[i])
    ensures Framed(frames)
    ensures OnOneMessage(AllFrames(sent), Fed(Receiver(0, map[]), frames).0)
    ensures forall d | d in Fed(Receiver(0, map[]), frames).1 ::
              d == Nothing || (d.Message? && d.bytes in sent.Values)
    decreases |frames|
  {
    forall k | 0 <= k < |frames| ensures |frames[k]| >= HEADER_SIZE {
      var id: u32, i: nat :| id in AllFrames(sent) && i < |AllFrames(sent)[id]| && frames[k] == AllFrames(sent)[id][i];
    }
    if frames != [] {
      var n := |frames| - 1;
      NeverMixedOverRuns(sent, frames[..n]);
      NeverMixed(sent, Fed(Receiver(0, map[]), frames[..n]).0, frames[n]);
    }
  }

  // ----- messages too large for the header -----

  predicate Small(r: Receiver) { forall i | i in r.buffer :: HEADER_SIZE <= |r.buffer[i]| <= HEADER_SIZE + SLICE_SIZE }

  lemma {:induction false} AssembleBound(buffer: map<nat, Bytes>, n: nat)
    requires Small(Receiver(0, buffer))
    ensures |Assemble(buffer, n)| <= n * SLICE_SIZE
  {
    if n > 0 {
      AssembleBound(buffer, n - 1);
    }
  }

  /** The count such a message's header keeps stands for too few slices. */
  lemma TooFewSlices(message: Bytes)
    requires !Sendable(message)
    ensures SLICE_SIZE < |message| && Low32(SliceCount(|message|)) * SLICE_SIZE < |message|
  {
  }

  lemma OversizeStep(r: Receiver, f: Fields, data: Bytes)
    requires Small(r) && HEADER_SIZE <= |data| <= HEADER_SIZE + SLICE_SIZE
    ensures var m := MergeFields(r, f, data);
            Small(m.0) && (m.1.Message? ==> |m.1.bytes| <= f.count * SLICE_SIZE || |m.1.bytes| <= SLICE_SIZE)
  {
    var r1 := Started(r, f.id);
    var buffer := if f.i in r1.buffer then r1.buffer else r1.buffer[f.i := data];
    AssembleBound(buffer, |buffer|);
  }

  lemma OversizeFrame(message: Bytes, id: u32, i: nat)
    requires i < SliceCount(|message|)
    ensures FieldsOf(Frames(message, id)[i]).count == Low32(SliceCount(|message|))
  {
    ChunkInRange(message, i);
    FieldsOfFrame(id, Low32(SliceCount(|message|)), Low32(i), Chunk(message, i));
  }

  /** A message of 2^32 slices or more never arrives, however its slices are ordered and repeated. */
  lemma {:induction false} OversizeNeverArrives(r: Receiver, message: Bytes, id: u32, order: seq<nat>)
    requires !Sendable(message) && r.buffer == map[] && InRange(order, SliceCount(|message|))
    ensures Small(FedSilently(r, Frames(message, id), order).0)
    ensures forall i | 0 <= i < SliceCount(|message|) ::
              Merged(FedSilently(r, Frames(message, id), order).0, Frames(message, id)[i]).1 != Message(message)
    decreases |order|
  {
    if order != [] {
      var n := |order| - 1;
      OversizeNeverArrives(r, message, id, order[..n]);
      var p := FedSilently(r, Frames(message, id), order[..n]).0;
      OversizeStep(p, FieldsOf(Frames(message, id)[order[n]]), Frames(message, id)[order[n]]);
    }
    var q := FedSilently(r, Frames(message, id), order).0;
    TooFewSlices(message);
    forall i | 0 <= i < SliceCount(|message|) ensures Merged(q, Frames(message, id)[i]).1 != Message(message) {
      OversizeFrame(message, id, i);
      OversizeStep(q, FieldsOf(Frames(message, id)[i]), Frames(message, id)[i]);
    }
  }

  /** A sent message arrives: there is a last frame, and it delivers the message. */
  ghost predicate Arrives(r: Receiver, message: Bytes, id: u32, order: seq<nat>)
    requires WellFormed(r) && InRange(order, SliceCount(|message|))
  {
    order != [] &&
    Merged(FedSilently(r, Frames(message, id), order[..|order| - 1]).0, Frames(message, id)[order[|order| - 1]]).1 ==
    Message(message)
  }

  /** So, whatever order `Send` chose, a message arrives if and only if it is not empty and the header can number its
      slices. */
  lemma ArrivesExactly(r: Receiver, message: Bytes, id: u32, order: seq<nat>)
    requires r.buffer == map[] && IsOrder(order, SliceCount(|message|))
    ensures Arrives(r, message, id, order) <==> message != [] && Sendable(message)
  {
    if message == [] {
      assert SliceCount(|message|) == 0;
    } else {
      assert SliceCount(|message|) > 0;
      assert 0 in order;
      if Sendable(message) {
        SentIsReceived(r, message, id, order);
      } else {
        OversizeNeverArrives(r, message, id, order[..|order| - 1]);
      }
    }
  }

  // ----- the header the source writes -----

  /** The bytes the encoder writes for an operand of platform type `int`: it refuses it. */
  function PlatformBytes(n: nat): Bytes { [] }

  /** The number the decoder leaves in a variable of platform type `int`, which starts at zero: it refuses it. */
  function PlatformNumber(b: Bytes): nat { 0 }

  /** Slice `i` as the written code makes it. */
  function WrittenFrame(message: Bytes, id: nat, i: nat): Bytes
    requires i * SLICE_SIZE <= |message|
  {
    PlatformBytes(id) + PlatformBytes(SliceCount(|message|)) + PlatformBytes(i) + Chunk(message, i)
  }

  /** One call of `merge` as it is written. */
  function WrittenMerged(r: Receiver, data: Bytes): (result: (Receiver, Delivery))
    requires WellFormed(r)
    ensures WellFormed(result.0)
  {
    if |data| < HEADER_SIZE then (if |data| >= 4 then Started(r, PlatformNumber(data[0..4])) else r, OutOfRange)
    else
      MergeFields(r, Fields(PlatformNumber(data[0..4]), PlatformNumber(data[4..8]), PlatformNumber(data[8..12])), data)
  }

  function WrittenFed(r: Receiver, frames: seq<Bytes>): (result: (Receiver, seq<Delivery>))
    requires WellFormed(r)
    ensures WellFormed(result.0)
  {
    if frames == [] then (r, [])
    else
      var p := WrittenFed(r, frames[..|frames| - 1]);
      var m := WrittenMerged(p.0, frames[|frames| - 1]);
      (m.0, p.1 + [m.1])
  }

  /** A written slice is its bare chunk. */
  lemma WrittenFrameIsChunk(message: Bytes, id: nat, i: nat)
    requires i < SliceCount(|message|)
    ensures i * SLICE_SIZE < |message| && WrittenFrame(message, id, i) == Chunk(message, i)
  {
    ChunkInRange(message, i);
  }

  lemma ZeroHeaderNeverDelivers(r: Receiver, data: Bytes)
    requires WellFormed(r) && |data| >= HEADER_SIZE
    ensures MergeFields(r, Fields(0, 0, 0), data).1 == Nothing
  {
    var r1 := Started(r, 0);
    var buffer := if 0 in r1.buffer then r1.buffer else r1.buffer[0 := data];
    assert 0 in buffer.Keys;
  }

  lemma WrittenStep(r: Receiver, data: Bytes)
    requires WellFormed(r)
    ensures WrittenMerged(r, data).1 == if |data| < HEADER_SIZE then OutOfRange else Nothing
  {
    if |data| >= HEADER_SIZE {
      ZeroHeaderNeverDelivers(r, data);
    }
  }

  /** As it is written, the receiver delivers nothing, whatever it is fed; and of what the written sender makes it
      slices exactly those chunks out of range that are shorter than a header. */
  lemma {:induction false} WrittenNeverDelivers(r: Receiver, frames: seq<Bytes>)
    requires WellFormed(r)
    ensures |WrittenFed(r, frames).1| == |frames|
    ensures forall i | 0 <= i < |frames| ::
              WrittenFed(r, frames).1[i] == if |frames[i]| < HEADER_SIZE then OutOfRange else Nothing
    decreases |frames|
  {
    if frames != [] {
      var n := |frames| - 1;
      WrittenNeverDelivers(r, frames[..n]);
      hide WrittenMerged;
      WrittenStep(WrittenFed(r, frames[..n]).0, frames[n]);
    }
  }
}
