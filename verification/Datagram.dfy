/** Tunneled datagrams framed on one byte stream: a big-endian 16-bit length and the target,
    then a big-endian 32-bit length and the payload. */
module DatagramCodec {
  import opened Wrappers

  newtype byte = x: int | 0 <= x < 256

  datatype Datagram = Datagram(target: seq<byte>, payload: seq<byte>)

  datatype WriteError = EmptyTarget | TooLarge | WriteFailed

  /** `Eof` when not one byte was there, `ShortRead` when some but not all were. */
  datatype ReadError = Eof | ShortRead | ZeroTarget | Oversize

  const MAX_TARGET := 0x1_0000 // exclusive
  const MAX_PAYLOAD := 65535

  predicate Valid(d: Datagram) {
    0 < |d.target| < MAX_TARGET && |d.payload| <= MAX_PAYLOAD
  }

  // ------------------------------------------------------------------ numbers

  function Put16(n: nat): seq<byte>
    requires n < 0x1_0000
  {
    [(n / 256) as byte, (n % 256) as byte]
  }

  function Get16(b: seq<byte>): nat
    requires |b| == 2
  {
    b[0] as nat * 256 + b[1] as nat
  }

  function Put32(n: nat): seq<byte>
    requires n < 0x1_0000_0000
  {
    Put16(n / 0x1_0000) + Put16(n % 0x1_0000)
  }

  function Get32(b: seq<byte>): nat
    requires |b| == 4
  {
    Get16(b[..2]) * 0x1_0000 + Get16(b[2..])
  }

  lemma Number16(n: nat, b: seq<byte>)
    requires n < 0x1_0000 && |b| == 2
    ensures Get16(Put16(n)) == n && Get16(b) < 0x1_0000 && Put16(Get16(b)) == b
  {
    assert Put16(Get16(b))[0] == b[0];
  }

  lemma HalvesJoin(hi: nat, lo: nat)
    requires lo < 0x1_0000
    ensures (hi * 0x1_0000 + lo) / 0x1_0000 == hi && (hi * 0x1_0000 + lo) % 0x1_0000 == lo
  {}

  lemma Put32Reads(n: nat)
    requires n < 0x1_0000_0000
    ensures Get32(Put32(n)) == n
  {
    var hi, lo := n / 0x1_0000, n % 0x1_0000;
    Number16(hi, Put16(hi));
    Number16(lo, Put16(lo));
    assert Put32(n)[..2] == Put16(hi) && Put32(n)[2..] == Put16(lo);
  }

  lemma Get32Writes(b: seq<byte>)
    requires |b| == 4
    ensures Get32(b) < 0x1_0000_0000 && Put32(Get32(b)) == b
  {
    Number16(0, b[..2]);
    Number16(0, b[2..]);
    HalvesJoin(Get16(b[..2]), Get16(b[2..]));
    assert b == b[..2] + b[2..];
  }

  // ------------------------------------------------------------------ framing

  function Frame(d: Datagram): seq<byte>
    requires Valid(d)
  {
    Put16(|d.target|) + d.target + Put32(|d.payload|) + d.payload
  }

  function Frames(ds: seq<Datagram>): seq<byte>
    requires forall d :: d in ds ==> Valid(d)
  {
    if ds == [] then [] else Frame(ds[0]) + Frames(ds[1..])
  }

  /** Take exactly `n` bytes, or fail having used up what was there. */
  function Take(s: seq<byte>, n: nat): (Result<seq<byte>, ReadError>, seq<byte>) {
    if n <= |s| then (Ok(s[..n]), s[n..])
    else (Err(if s == [] then Eof else ShortRead), [])
  }

  /** Read one datagram: the result, and what is left on the stream. */
  function ReadOne(s: seq<byte>): (Result<Datagram, ReadError>, seq<byte>) {
    var (hdr, s1) := Take(s, 2);
    if hdr.Err? then (Err(hdr.error), s1)
    else if Get16(hdr.value) == 0 then (Err(ZeroTarget), s1)
    else
      var (target, s2) := Take(s1, Get16(hdr.value));
      if target.Err? then (Err(target.error), s2)
      else
        var (plen, s3) := Take(s2, 4);
        if plen.Err? then (Err(plen.error), s3)
        else if Get32(plen.value) > MAX_PAYLOAD then (Err(Oversize), s3)
        else
          var (payload, s4) := Take(s3, Get32(plen.value));
          if payload.Err? then (Err(payload.error), s4)
          else (Ok(Datagram(target.value, payload.value)), s4)
  }

  /** All of `data` can be written; `room` None stands for a stream that never fails. */
  predicate Fits(room: Option<nat>, data: seq<byte>) {
    room.Some? ==> |data| <= room.value
  }

  /** What a write of `data` puts on the stream. */
  function Cut(room: Option<nat>, data: seq<byte>): (r: seq<byte>)
    ensures r <= data && (Fits(room, data) <==> r == data)
  {
    if Fits(room, data) then data else data[..room.value]
  }

  function RoomLeft(room: Option<nat>, data: seq<byte>): Option<nat> {
    if room.None? then None else Some(room.value - |Cut(room, data)|)
  }

  /** Writing two texts in turn, the second only if the first was written in full, is writing
      them as one. */
  lemma CutInTurn(room: Option<nat>, a: seq<byte>, b: seq<byte>)
    ensures Cut(room, a + b) == Cut(room, a) + (if Fits(room, a) then Cut(RoomLeft(room, a), b) else [])
    ensures Fits(room, a + b) <==> Fits(room, a) && Fits(RoomLeft(room, a), b)
  {}

  class Stream {
    var bytes: seq<byte>
    /** How many more bytes can be written before the stream fails. */
    var room: Option<nat>

    constructor (bytes: seq<byte>, room: Option<nat>)
      ensures this.bytes == bytes && this.room == room
    {
      this.bytes, this.room := bytes, room;
    }

    /** A write that fails has written what there was room for. */
    method Write(data: seq<byte>) returns (ok: bool)
      modifies this
      ensures bytes == old(bytes) + Cut(old(room), data)
      ensures room == RoomLeft(old(room), data)
      ensures ok <==> Fits(old(room), data)
    {
      ok := Fits(room, data);
      bytes, room := bytes + Cut(room, data), RoomLeft(room, data);
    }

    method ReadFull(n: nat) returns (r: Result<seq<byte>, ReadError>)
      modifies this`bytes
      ensures (r, bytes) == Take(old(bytes), n)
    {
      if n <= |bytes| {
        r := Ok(bytes[..n]);
        bytes := bytes[n..];
      } else {
        r := Err(if bytes == [] then Eof else ShortRead);
        bytes := [];
      }
    }
  }

  /** An invalid datagram writes nothing; a valid one writes its frame, or as much of it as there
      was room for and then fails. */
  method WriteDatagram(w: Stream, target: seq<byte>, payload: seq<byte>) returns (r: Result<(), WriteError>)
    modifies w
    ensures !Valid(Datagram(target, payload)) ==>
              && r.Err? && !r.error.WriteFailed? && w.bytes == old(w.bytes) && w.room == old(w.room)
              && (r.error.EmptyTarget? <==> |target| == 0 || |target| >= MAX_TARGET)
    ensures Valid(Datagram(target, payload)) <==> 1 <= |target| <= 65535 && |payload| <= 65535
    ensures Valid(Datagram(target, payload)) ==>
              && w.bytes == old(w.bytes) + Cut(old(w.room), Frame(Datagram(target, payload)))
              && r == if Fits(old(w.room), Frame(Datagram(target, payload))) then Ok(()) else Err(WriteFailed)
  {
    hide Cut, Put16, Put32;
    if |target| == 0 || |target| >= MAX_TARGET {
      return Err(EmptyTarget);
    }
    if |payload| > MAX_PAYLOAD {
      return Err(TooLarge);
    }
    FrameInTurn(w.room, Datagram(target, payload));
    var ok := w.Write(Put16(|target|));
    if !ok {
      return Err(WriteFailed);
    }
    ok := w.Write(target);
    if !ok {
      return Err(WriteFailed);
    }
    ok := w.Write(Put32(|payload|));
    if !ok {
      return Err(WriteFailed);
    }
    ok := w.Write(payload);
    return if ok then Ok(()) else Err(WriteFailed);
  }

  /** The four writes, each only if those before it were written in full, are one of the frame. */
  lemma FrameInTurn(room: Option<nat>, d: Datagram)
    requires Valid(d)
    ensures var h, p := Put16(|d.target|), Put32(|d.payload|);
            var r1 := RoomLeft(room, h);
            var r2 := RoomLeft(r1, d.target);
            var r3 := RoomLeft(r2, p);
      && (Fits(room, Frame(d)) <==> Fits(room, h) && Fits(r1, d.target) && Fits(r2, p) && Fits(r3, d.payload))
      && (!Fits(room, h) ==> Cut(room, Frame(d)) == Cut(room, h))
      && (Fits(room, h) && !Fits(r1, d.target) ==> Cut(room, Frame(d)) == h + Cut(r1, d.target))
      && (Fits(room, h) && Fits(r1, d.target) && !Fits(r2, p) ==> Cut(room, Frame(d)) == h + d.target + Cut(r2, p))
      && (Fits(room, h) && Fits(r1, d.target) && Fits(r2, p) ==>
            Cut(room, Frame(d)) == h + d.target + p + Cut(r3, d.payload))
  {
    var h, p := Put16(|d.target|), Put32(|d.payload|);
    var r1 := RoomLeft(room, h);
    var r2 := RoomLeft(r1, d.target);
    assert Frame(d) == h + (d.target + (p + d.payload));
    CutInTurn(room, h, d.target + (p + d.payload));
    CutInTurn(r1, d.target, p + d.payload);
    CutInTurn(r2, p, d.payload);
  }

  method ReadDatagram(r: Stream) returns (d: Result<Datagram, ReadError>)
    modifies r`bytes
    ensures (d, r.bytes) == ReadOne(old(r.bytes))
  {
    var hdr := r.ReadFull(2);
    if hdr.Err? {
      return Err(hdr.error);
    }
    var tlen := Get16(hdr.value);
    if tlen == 0 {
      return Err(ZeroTarget);
    }
    var target := r.ReadFull(tlen);
    if target.Err? {
      return Err(target.error);
    }
    var plen := r.ReadFull(4);
    if plen.Err? {
      return Err(plen.error);
    }
    var n := Get32(plen.value);
    if n > MAX_PAYLOAD {
      return Err(Oversize);
    }
    var payload := r.ReadFull(n);
    if payload.Err? {
      return Err(payload.error);
    }
    return Ok(Datagram(target.value, payload.value));
  }

  // ------------------------------------------------------------------ results

  /** A written frame reads back as the datagram and leaves exactly what follows it. */
  lemma FrameReads(d: Datagram, rest: seq<byte>)
    requires Valid(d)
    ensures ReadOne(Frame(d) + rest) == (Ok(d), rest)
  {
    var hdr, plen := Put16(|d.target|), Put32(|d.payload|);
    Number16(|d.target|, hdr);
    Put32Reads(|d.payload|);
    assert Frame(d) + rest == hdr + (d.target + (plen + (d.payload + rest)));
    TakePrefix(hdr, d.target + (plen + (d.payload + rest)));
    TakePrefix(d.target, plen + (d.payload + rest));
    TakePrefix(plen, d.payload + rest);
    TakePrefix(d.payload, rest);
  }

  lemma TakePrefix(a: seq<byte>, b: seq<byte>)
    ensures Take(a + b, |a|) == (Ok(a), b)
  {}

  /** Whatever the reader accepts is a valid datagram, and re-encodes to the very bytes it
      consumed. */
  lemma ReadIsCanonical(s: seq<byte>)
    requires ReadOne(s).0.Ok?
    ensures Valid(ReadOne(s).0.value)
    ensures s == Frame(ReadOne(s).0.value) + ReadOne(s).1
  {
    var (hdr, s1) := Take(s, 2);
    var (target, s2) := Take(s1, Get16(hdr.value));
    var (plen, s3) := Take(s2, 4);
    var (payload, s4) := Take(s3, Get32(plen.value));
    Number16(0, hdr.value);
    Get32Writes(plen.value);
    TakeSplits(s, 2);
    TakeSplits(s1, |target.value|);
    TakeSplits(s2, 4);
    TakeSplits(s3, |payload.value|);
    Regroup(hdr.value, target.value, plen.value, payload.value, s4);
  }

  lemma TakeSplits(s: seq<byte>, n: nat)
    ensures Take(s, n).0.Ok? ==> s == Take(s, n).0.value + Take(s, n).1 && |Take(s, n).0.value| == n
  {}

  lemma Regroup(a: seq<byte>, b: seq<byte>, c: seq<byte>, d: seq<byte>, e: seq<byte>)
    ensures a + (b + (c + (d + e))) == a + b + c + d + e
  {}

  /** Keep reading until a read fails. */
  function ReadAll(s: seq<byte>): (seq<Datagram>, ReadError)
    decreases |s|
  {
    var (d, rest) := ReadOne(s);
    if d.Err? then ([], d.error)
    else
      var (ds, e) := ReadAll(rest);
      ([d.value] + ds, e)
  }

  /** The frames of any valid datagrams read back as exactly those, and then the stream is at
      its end. */
  lemma {:induction false} FramesRead(ds: seq<Datagram>)
    requires forall d :: d in ds ==> Valid(d)
    ensures ReadAll(Frames(ds)) == (ds, Eof)
  {
    if ds != [] {
      FrameReads(ds[0], Frames(ds[1..]));
      FramesRead(ds[1..]);
      assert ds == [ds[0]] + ds[1..];
    }
  }

  /** What follows an accepted datagram does not matter to it. */
  lemma ReadExtends(s: seq<byte>, more: seq<byte>)
    requires ReadOne(s).0.Ok?
    ensures ReadOne(s + more) == (ReadOne(s).0, ReadOne(s).1 + more)
  {
    ReadIsCanonical(s);
    var d, rest := ReadOne(s).0.value, ReadOne(s).1;
    assert s + more == Frame(d) + (rest + more);
    FrameReads(d, rest + more);
  }

  /** A frame cut short is never taken for a datagram. */
  lemma CutFrameFails(d: Datagram, p: seq<byte>)
    requires Valid(d) && p < Frame(d)
    ensures ReadOne(p).0.Err?
  {
    var cut := Frame(d)[|p|..];
    assert Frame(d) == p + cut == Frame(d) + [];
    FrameReads(d, []);
    if ReadOne(p).0.Ok? {
      ReadExtends(p, cut);
    }
  }

  /** A stream cut anywhere yields only whole leading datagrams and then an error: those whose
      frames lie wholly before the cut. */
  lemma {:induction false} PrefixYieldsWholeDatagrams(ds: seq<Datagram>, p: seq<byte>)
    requires forall d :: d in ds ==> Valid(d)
    requires p < Frames(ds)
    ensures exists k: nat :: WholeBefore(ds, p, k)
  {
    var f, rest := Frame(ds[0]), Frames(ds[1..]);
    if |p| < |f| {
      assert p < f;
      CutFrameFails(ds[0], p);
      assert WholeBefore(ds, p, 0);
    } else {
      var p' := p[|f|..];
      assert p == f + p' && p' < rest;
      FrameReads(ds[0], p');
      PrefixYieldsWholeDatagrams(ds[1..], p');
      var k :| WholeBefore(ds[1..], p', k);
      OneMoreWhole(ds, p', k);
    }
  }

  /** The cut `p` of the frames of `ds` yields the first `k` datagrams, those wholly before it. */
  ghost predicate WholeBefore(ds: seq<Datagram>, p: seq<byte>, k: nat)
    requires forall d :: d in ds ==> Valid(d)
  {
    && k < |ds| && ReadAll(p).0 == ds[..k]
    && |Frames(ds[..k])| <= |p| < |Frames(ds[..k])| + |Frame(ds[k])|
  }

  lemma OneMoreWhole(ds: seq<Datagram>, p: seq<byte>, k: nat)
    requires ds != [] && (forall d :: d in ds ==> Valid(d)) && WholeBefore(ds[1..], p, k)
    ensures WholeBefore(ds, Frame(ds[0]) + p, k + 1)
  {
    FrameReads(ds[0], p);
    assert ds[..k + 1][1..] == ds[1..][..k];
    assert ds[..k + 1] == [ds[0]] + ds[1..][..k];
  }

  // ------------------------------------------------------------------ the bytes

  /** Most significant byte first. */
  predicate BigEndian(b: seq<byte>, n: nat) {
    || (|b| == 2 && n == b[0] as nat * 256 + b[1] as nat)
    || (|b| == 4 && n == b[0] as nat * 0x100_0000 + b[1] as nat * 0x1_0000 + b[2] as nat * 256 + b[3] as nat)
  }

  lemma Get32IsBigEndian(b: seq<byte>)
    requires |b| == 4
    ensures BigEndian(b, Get32(b))
  {
    assert b[..2] == [b[0], b[1]] && b[2..] == [b[2], b[3]];
  }

  /** A frame is four fields: two bytes that count the target, the target, four bytes that count the
      payload, the payload; both counts most significant byte first. */
  lemma FrameLayout(d: Datagram)
    requires Valid(d)
    ensures var f, n := Frame(d), |d.target|;
      && |f| == 2 + n + 4 + |d.payload|
      && BigEndian(f[..2], n) && f[2..2 + n] == d.target
      && BigEndian(f[2 + n..6 + n], |d.payload|) && f[6 + n..] == d.payload
  {
    var f, n, h, p := Frame(d), |d.target|, Put16(|d.target|), Put32(|d.payload|);
    Number16(n, h);
    Put32Reads(|d.payload|);
    Get32IsBigEndian(p);
    assert f == h + d.target + p + d.payload;
    assert f[..2] == h && f[2..2 + n] == d.target && f[2 + n..6 + n] == p && f[6 + n..] == d.payload;
  }

  /** What a read that runs out of bytes says: the stream was at its end, or the field was cut. */
  function RanOut(left: nat): ReadError {
    if left == 0 then Eof else ShortRead
  }

  /** A read of a field of `n` bytes that begins at `at`. */
  lemma TakeAt(s: seq<byte>, at: nat, n: nat)
    requires at <= |s|
    ensures Take(s[at..], n) == if at + n <= |s| then (Ok(s[at..at + n]), s[at + n..]) else (Err(RanOut(|s| - at)), [])
  {
    if at + n <= |s| {
      assert s[at..][..n] == s[at..at + n] && s[at..][n..] == s[at + n..];
    }
  }

  /** What a reader makes of any bytes, by position: `n` is the announced length of the target and
      `m` that of the payload. A failed read has used up the fields before it, and what there was
      of its own. */
  lemma ReadByPosition(s: seq<byte>, n: nat, m: nat)
    requires |s| >= 2 ==> BigEndian(s[..2], n)
    requires |s| >= n + 6 ==> BigEndian(s[n + 2..n + 6], m)
    ensures ReadOne(s) ==
      if |s| < 2 then (Err(RanOut(|s|)), [])
      else if n == 0 then (Err(ZeroTarget), s[2..])
      else if |s| < n + 2 then (Err(RanOut(|s| - 2)), [])
      else if |s| < n + 6 then (Err(RanOut(|s| - n - 2)), [])
      else if m > 65535 then (Err(Oversize), s[n + 6..])
      else if |s| < n + 6 + m then (Err(RanOut(|s| - n - 6)), [])
      else (Ok(Datagram(s[2..n + 2], s[n + 6..n + 6 + m])), s[n + 6 + m..])
  {
    assert s[0..] == s;
    TakeAt(s, 0, 2);
    if |s| >= 2 {
      assert s[0..2] == s[..2] && Get16(s[..2]) == n;
      TakeAt(s, 2, n);
      if |s| >= n + 2 {
        TakeAt(s, n + 2, 4);
        if |s| >= n + 6 {
          Get32IsBigEndian(s[n + 2..n + 6]);
          assert Get32(s[n + 2..n + 6]) == m;
          TakeAt(s, n + 6, m);
        }
      }
    }
    hide Take, Get16, Get32, BigEndian;
  }
}
