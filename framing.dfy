/** The framing rule of `PacketHandler.cpp`'s receive loop, as a function
    of the bytes the receive buffer holds, and what it guarantees. */
module Framing {
  import opened Bytes
  import opened ServerPacket

  /** The `size` field of the header at the front of `buf`. */
  function DeclaredSize(buf: seq<Byte>): U16
    requires |buf| >= HEADER_SIZE
  {
    ReadLE16(buf[2], buf[3])
  }

  /** The `type` field of the header at the front of `buf`. */
  function DeclaredType(buf: seq<Byte>): U16
    requires |buf| >= HEADER_SIZE
  {
    ReadLE16(buf[0], buf[1])
  }

  /** What one run of the receive loop makes of a buffer: the packets it
      hands on, in order, the bytes it leaves for later, and whether it is
      stuck on a header that declares size 0 (it then never returns). */
  datatype Framing = Framing(frames: seq<seq<Byte>>, rest: seq<Byte>, diverges: bool)

  /** The receive loop on `buf`. It waits for a whole header, then for as
      many bytes as the header declares, counting the header; a frame is
      that many bytes from the front, even fewer than a header. */
  function Split(buf: seq<Byte>): Framing
    decreases |buf|
  {
    if |buf| < HEADER_SIZE then Framing([], buf, false)
    else if |buf| < DeclaredSize(buf) as nat then Framing([], buf, false)
    else if DeclaredSize(buf) == 0 then Framing([], buf, true)
    else
      var size := DeclaredSize(buf) as nat;
      var r := Split(buf[size..]);
      Framing([buf[..size]] + r.frames, r.rest, r.diverges)
  }

  function Flatten(frames: seq<seq<Byte>>): seq<Byte>
  {
    if frames == [] then [] else frames[0] + Flatten(frames[1..])
  }

  /** A packet as a sender builds it: at least a header, and exactly as
      long as that header says. */
  predicate WellFramed(f: seq<Byte>)
  {
    |f| >= HEADER_SIZE && DeclaredSize(f) as nat == |f|
  }

  /** Bytes the loop has to wait on: a partial header or a partial packet. */
  predicate Incomplete(rest: seq<Byte>)
  {
    |rest| < HEADER_SIZE || |rest| < DeclaredSize(rest) as nat
  }

  /** The frames and the remainder are the buffer, cut up in order. */
  lemma {:induction false} SplitCovers(buf: seq<Byte>)
    ensures Flatten(Split(buf).frames) + Split(buf).rest == buf
    decreases |buf|
  {
    if |buf| < HEADER_SIZE || |buf| < DeclaredSize(buf) as nat || DeclaredSize(buf) == 0 {
    } else {
      var size := DeclaredSize(buf) as nat;
      var r := Split(buf[size..]);
      SplitCovers(buf[size..]);
      var frames := [buf[..size]] + r.frames;
      assert Split(buf) == Framing(frames, r.rest, r.diverges);
      assert frames[1..] == r.frames;
      calc {
        Flatten(frames) + r.rest;
        (buf[..size] + Flatten(r.frames)) + r.rest;
        { Assoc(buf[..size], Flatten(r.frames), r.rest); }
        buf[..size] + (Flatten(r.frames) + r.rest);
        buf[..size] + buf[size..];
        { TakeDrop(buf, size); }
        buf;
      }
    }
  }

  /** No frame is empty, and one that holds a whole header is as long as
      that header says. */
  lemma {:induction false} SplitFrames(buf: seq<Byte>)
    ensures forall k :: 0 <= k < |Split(buf).frames| ==>
              |Split(buf).frames[k]| > 0
              && (|Split(buf).frames[k]| >= HEADER_SIZE ==> WellFramed(Split(buf).frames[k]))
    decreases |buf|
  {
    if |buf| < HEADER_SIZE || |buf| < DeclaredSize(buf) as nat || DeclaredSize(buf) == 0 {
    } else {
      var size := DeclaredSize(buf) as nat;
      var r := Split(buf[size..]);
      SplitFrames(buf[size..]);
      var f := buf[..size];
      assert Split(buf).frames == [f] + r.frames;
      assert |f| >= HEADER_SIZE ==> f[2] == buf[2] && f[3] == buf[3];
    }
  }

  /** The loop returns only on bytes it has to wait on, and is stuck only on
      a whole header that declares size 0. */
  lemma {:induction false} SplitRest(buf: seq<Byte>)
    ensures !Split(buf).diverges ==> Incomplete(Split(buf).rest)
    ensures Split(buf).diverges ==>
              |Split(buf).rest| >= HEADER_SIZE && DeclaredSize(Split(buf).rest) == 0
    decreases |buf|
  {
    if |buf| < HEADER_SIZE || |buf| < DeclaredSize(buf) as nat || DeclaredSize(buf) == 0 {
    } else {
      SplitRest(buf[DeclaredSize(buf) as nat..]);
    }
  }

  /** One turn of the loop: with a whole packet of non-zero size at the
      front, the frames are that packet and then the frames of the rest. */
  lemma SplitStep(buf: seq<Byte>)
    requires |buf| >= HEADER_SIZE && 0 < DeclaredSize(buf) as nat <= |buf|
    ensures var size := DeclaredSize(buf) as nat;
            && Split(buf).frames == [buf[..size]] + Split(buf[size..]).frames
            && Split(buf).rest == Split(buf[size..]).rest
            && Split(buf).diverges == Split(buf[size..]).diverges
  {
  }

  /** Round trip: well-framed packets sent back to back, followed by bytes
      still incomplete, are cut back into exactly those packets. */
  lemma {:induction false} SplitOfFramed(frames: seq<seq<Byte>>, rest: seq<Byte>)
    requires forall k :: 0 <= k < |frames| ==> WellFramed(frames[k])
    requires Incomplete(rest)
    ensures Split(Flatten(frames) + rest) == Framing(frames, rest, false)
    decreases |frames|
  {
    if frames != [] {
      var f := frames[0];
      var tail := Flatten(frames[1..]) + rest;
      var buf := Flatten(frames) + rest;
      assert buf == f + tail;
      assert buf[2] == f[2] && buf[3] == f[3];
      assert buf[..|f|] == f && buf[|f|..] == tail;
      assert WellFramed(f);
      SplitOfFramed(frames[1..], rest);
      assert [f] + frames[1..] == frames;
    }
  }

  /** Arrival in pieces does not matter: cutting `a` and then what is left
      of it followed by `b` gives the frames of `a + b`. */
  lemma {:induction false} SplitAppend(a: seq<Byte>, b: seq<Byte>)
    requires !Split(a).diverges
    ensures Split(a + b).frames == Split(a).frames + Split(Split(a).rest + b).frames
    ensures Split(a + b).rest == Split(Split(a).rest + b).rest
    ensures Split(a + b).diverges == Split(Split(a).rest + b).diverges
    decreases |a|
  {
    if |a| < HEADER_SIZE || |a| < DeclaredSize(a) as nat || DeclaredSize(a) == 0 {
    } else {
      var size := DeclaredSize(a) as nat;
      var ab := a + b;
      assert ab[2] == a[2] && ab[3] == a[3];
      assert ab[..size] == a[..size];
      assert ab[size..] == a[size..] + b;
      SplitAppend(a[size..], b);
      var r := Split(a[size..]);
      assert Split(a) == Framing([a[..size]] + r.frames, r.rest, r.diverges);
      calc {
        Split(ab).frames;
        [a[..size]] + Split(a[size..] + b).frames;
        [a[..size]] + (r.frames + Split(r.rest + b).frames);
        { Assoc([a[..size]], r.frames, Split(r.rest + b).frames); }
        ([a[..size]] + r.frames) + Split(r.rest + b).frames;
      }
    }
  }
}
