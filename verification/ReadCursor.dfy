/** The peer read buffer (`crates/engine/src/net.rs`): socket reads are decrypted in place
    onto a buffer with a consume cursor, and length-prefixed frames are taken off its front. */
module ReadCursors {
  import opened Wrappers
  import opened Sequences
  import opened Bits
  import opened BigEndian
  import opened Messages
  import opened Rc4s

  const COMPACT_THRESH: nat := 16 * 1024
  const WIRE_READ_CHUNK: nat := 256 * 1024
  const RCVLOWAT_MIN: nat := 4 * 1024
  const PIPELINE_LOWAT_CAP: nat := 256 * 1024

  // ---------------------------------------------------------------- messages of a byte stream

  /** The messages of a stream, in order, up to the first that is incomplete, too long or
      malformed, and what is left from there on. */
  datatype Split = Split(messages: seq<Message>, rest: seq<byte>)

  function SplitStream(u: seq<byte>): Split
    decreases |u|
  {
    match FrontOf(u)
    case Complete(m, used) =>
      var tail := SplitStream(u[used..]);
      Split([m] + tail.messages, tail.rest)
    case _ => Split([], u)
  }

  /** Taking messages early and then going on gives the same messages and the same rest as
      taking them all at the end. */
  lemma {:induction false} SplitContinues(u: seq<byte>, more: seq<byte>)
    ensures var early := SplitStream(u); var later := SplitStream(early.rest + more);
            SplitStream(u + more) == Split(early.messages + later.messages, later.rest)
    decreases |u|
  {
    FrontStable(u, more);
    hide FrontOf, SplitStream;
    SplitStep(u);
    if FrontOf(u).Complete? {
      var m, used := FrontOf(u).m, FrontOf(u).used;
      var tail := SplitStream(u[used..]);
      SplitContinues(u[used..], more);
      SplitStep(u + more);
      TailOfAppend(u, more, used);
      ConsAppend(m, tail.messages, SplitStream(tail.rest + more).messages);
    }
  }

  /** One unfolding. */
  lemma SplitStep(u: seq<byte>)
    ensures !FrontOf(u).Complete? ==> SplitStream(u) == Split([], u)
    ensures FrontOf(u).Complete? ==>
              var tail := SplitStream(u[FrontOf(u).used..]);
              SplitStream(u) == Split([FrontOf(u).m] + tail.messages, tail.rest)
  {
    hide FrontOf;
  }

  lemma TailOfAppend(u: seq<byte>, more: seq<byte>, used: nat)
    requires used <= |u|
    ensures (u + more)[used..] == u[used..] + more
  {}

  lemma ConsAppend(x: Message, a: seq<Message>, b: seq<Message>)
    ensures [x] + (a + b) == ([x] + a) + b
  {}

  /** A stream that is stuck stays stuck: nothing that arrives later is ever parsed. */
  lemma StuckStays(u: seq<byte>, more: seq<byte>)
    requires !FrontOf(SplitStream(u).rest).Incomplete?
    ensures SplitStream(u + more).messages == SplitStream(u).messages
  {
    SplitContinues(u, more);
    RestIsNotComplete(u);
    FrontStable(SplitStream(u).rest, more);
    SplitStep(SplitStream(u).rest + more);
    hide FrontOf, SplitStream;
  }

  lemma {:induction false} RestIsNotComplete(u: seq<byte>)
    ensures !FrontOf(SplitStream(u).rest).Complete?
    decreases |u|
  {
    hide FrontOf, SplitStream;
    SplitStep(u);
    if FrontOf(u).Complete? {
      RestIsNotComplete(u[FrontOf(u).used..]);
    }
  }

  function EncodeAll(ms: seq<Message>): seq<byte> {
    if ms == [] then [] else Encode(ms[0]) + EncodeAll(ms[1..])
  }

  /** Any sendable messages written one after the other are read back, with nothing left. */
  lemma {:induction false} SentMessages(ms: seq<Message>)
    requires forall k :: 0 <= k < |ms| ==> Sendable(ms[k])
    ensures SplitStream(EncodeAll(ms)) == Split(ms, [])
  {
    hide FrontOf, SplitStream, Encode, Sendable;
    SplitStep(EncodeAll(ms));
    if ms == [] {
      NothingIncomplete();
    } else {
      RoundTrip(ms[0], EncodeAll(ms[1..]));
      SentMessages(ms[1..]);
      TailOfAppend(Encode(ms[0]), EncodeAll(ms[1..]), |Encode(ms[0])|);
      assert Encode(ms[0])[|Encode(ms[0])|..] + EncodeAll(ms[1..]) == EncodeAll(ms[1..]);
      assert ms == [ms[0]] + ms[1..];
    }
  }

  lemma NothingIncomplete()
    ensures FrontOf([]) == Incomplete
  {}

  /** `pipeline_lowat`: the least of the outstanding bytes, half the receive buffer and the
      cap, when that is worth setting. */
  function PipelineLowat(outstanding: nat, block: nat, rcvbuf: nat): (r: Option<nat>)
    ensures r.Some? <==> outstanding * block >= 4096 && rcvbuf / 2 >= 4096
    ensures r.Some? ==> 4096 <= r.value <= 262144
                        && r.value <= outstanding * block && 2 * r.value <= rcvbuf
                        && (r.value == 262144 || r.value == outstanding * block || r.value == rcvbuf / 2)
  {
    if outstanding == 0 || rcvbuf < 2 || block == 0 then None
    else
      var want := outstanding * block;
      var n := if want < rcvbuf / 2 then want else rcvbuf / 2;
      var m := if n < PIPELINE_LOWAT_CAP then n else PIPELINE_LOWAT_CAP;
      if m < RCVLOWAT_MIN then None else Some(m)
  }

  // ---------------------------------------------------------------- the cursor

  class ReadCursor {
    var buf: seq<byte>
    var pos: nat
    /** Everything advanced over since the start. */
    ghost var consumed: seq<byte>

    ghost predicate Valid()
      reads this
    {
      pos <= |buf|
    }

    /** All plaintext this connection has received. */
    ghost function Received(): seq<byte>
      requires Valid()
      reads this
    {
      consumed + buf[pos..]
    }

    constructor FromVec(initial: seq<byte>)
      ensures Valid() && consumed == [] && Unparsed() == initial && Received() == initial
    {
      buf, pos, consumed := initial, 0, [];
    }

    function Unparsed(): seq<byte>
      requires Valid()
      reads this
    {
      buf[pos..]
    }

    /** `advance`: never past the end. */
    method Advance(n: nat)
      requires Valid()
      modifies this
      ensures Valid() && Received() == old(Received())
      ensures Unparsed() == old(Unparsed())[if n < |old(Unparsed())| then n else |old(Unparsed())|..]
      ensures consumed == old(consumed) + old(Unparsed())[..if n < |old(Unparsed())| then n else |old(Unparsed())|]
    {
      ghost var u := Unparsed();
      var next := if pos + n < |buf| then pos + n else |buf|;
      consumed := consumed + buf[pos..next];
      pos := next;
      assert buf[pos..] == u[|u| - |buf[pos..]|..];
    }

    /** `compact_if_needed`: only where the bytes lie changes. */
    method CompactIfNeeded()
      requires Valid()
      modifies this`buf, this`pos
      ensures Valid() && Unparsed() == old(Unparsed()) && Received() == old(Received())
      ensures pos == 0 || (pos < 16384 && pos * 2 < |buf|)
      ensures old(pos) < 16384 && old(pos) * 2 < |old(buf)| ==> pos == old(pos) && buf == old(buf)
    {
      if pos == 0 {
        return;
      }
      if pos >= COMPACT_THRESH || pos * 2 >= |buf| {
        buf := buf[pos..];
        pos := 0;
      }
    }

    /** `append`, with `append_wire_read`: new bytes join the stream decrypted, the bytes
        already there are left alone. */
    method Append(wire: seq<byte>, decrypt: Rc4?)
      requires Valid() && (decrypt != null ==> decrypt.Valid())
      modifies this`buf, this`pos, decrypt, if decrypt == null then {} else {decrypt.s}
      ensures Valid() && (decrypt != null ==> decrypt.Valid())
      ensures consumed == old(consumed)
      ensures decrypt == null ==> Unparsed() == old(Unparsed()) + wire
      ensures decrypt != null ==> Unparsed() == old(Unparsed()) + Crypt(old(decrypt.Now()), wire)
      ensures decrypt != null ==> decrypt.Now() == Rc4s.Advance(old(decrypt.Now()), |wire|)
    {
      hide Crypt, Rc4s.Advance;
      CompactIfNeeded();
      if wire == [] {
        NothingToCrypt(decrypt);
        return;
      }
      if decrypt != null {
        var start := |buf|;
        var whole := buf + wire;
        var data := new byte[|whole|](k requires 0 <= k < |whole| => whole[k]);
        assert data[..] == whole && data[..start] == buf && data[start..] == wire;
        decrypt.CryptInplace(data, start);
        ghost var plain := Crypt(old(decrypt.Now()), wire);
        assert (buf + plain)[pos..] == buf[pos..] + plain;
        buf := data[..];
      } else {
        assert (buf + wire)[pos..] == buf[pos..] + wire;
        buf := buf + wire;
      }
    }

    lemma NothingToCrypt(decrypt: Rc4?)
      requires decrypt != null ==> decrypt.Valid()
      ensures decrypt != null ==> Crypt(decrypt.Now(), []) == [] && Rc4s.Advance(decrypt.Now(), 0) == decrypt.Now()
    {}

    /** `frame_remaining`: nothing remains of a frame that is all there, well formed or not. */
    function FrameRemaining(): (r: Option<nat>)
      requires Valid()
      reads this
      ensures r == Some(0) <==> FrontOf(Unparsed()).Complete? || FrontOf(Unparsed()).Malformed?
      ensures r.None? <==> |Unparsed()| < 4 || FrontOf(Unparsed()).TooLong?
    {
      var u := Unparsed();
      if |u| < 4 then None
      else
        var len := DeclaredLen(u);
        if len > MAX_MESSAGE_LENGTH then None
        else if |u| < 4 + len then Some(4 + len - |u|) else Some(0)
    }

    /** The remainder is exact: fewer bytes leave the frame incomplete, that many decide it. */
    lemma RemainingIsExact(more: seq<byte>)
      requires Valid() && FrameRemaining().Some?
      ensures FrontOf(Unparsed() + more).Incomplete? <==> |more| < FrameRemaining().value
    {
      hide Decode;
      assert (Unparsed() + more)[..4] == Unparsed()[..4];
    }

    /** `recv_lowat`: a watermark worth setting that never waits past the frame. */
    function RecvLowat(): (r: Option<nat>)
      requires Valid()
      reads this
      ensures r.Some? <==> FrameRemaining().Some? && FrameRemaining().value >= 4096
      ensures r.Some? ==> 4096 <= r.value <= FrameRemaining().value
                          && (r.value == FrameRemaining().value || r.value == 262144 < FrameRemaining().value)
    {
      var need := FrameRemaining();
      if need.None? || need.value < RCVLOWAT_MIN then None
      else Some(if need.value < WIRE_READ_CHUNK then need.value else WIRE_READ_CHUNK)
    }

    /** `recv_lowat_park`: nothing once the download is over; otherwise the larger watermark. */
    function RecvLowatPark(outstanding: nat, block: nat, rcvbuf: nat, speculative: bool, downloading: bool)
      : (r: Option<nat>)
      requires Valid()
      reads this
      ensures r.Some? <==> downloading
                           && (RecvLowat().Some? || (speculative && PipelineLowat(outstanding, block, rcvbuf).Some?))
      ensures r.Some? && RecvLowat().Some? ==> r.value >= RecvLowat().value
      ensures r.Some? && speculative && PipelineLowat(outstanding, block, rcvbuf).Some? ==>
                r.value >= PipelineLowat(outstanding, block, rcvbuf).value
      ensures r.Some? ==> r == RecvLowat() || (speculative && r == PipelineLowat(outstanding, block, rcvbuf))
    {
      if !downloading then None
      else
        var frame := RecvLowat();
        var spec := if speculative then PipelineLowat(outstanding, block, rcvbuf) else None;
        if frame.Some? && spec.Some? then Some(if frame.value > spec.value then frame.value else spec.value)
        else if frame.Some? then frame else spec
    }

    /** The loop of `parse_available_messages`: it takes messages off the front until one is not
        all there, or cannot be parsed, which fails the connection. */
    method TakeMessages() returns (messages: seq<Message>, failed: bool)
      requires Valid()
      modifies this
      ensures Valid() && Received() == old(Received())
      ensures messages == SplitStream(old(Unparsed())).messages && Unparsed() == SplitStream(old(Unparsed())).rest
      ensures failed <==> !FrontOf(Unparsed()).Incomplete?
    {
      hide FrontOf;
      ghost var u := Unparsed();
      messages, failed := [], false;
      while true
        invariant Valid() && Received() == old(Received()) && !failed
        invariant SplitStream(u) == Split(messages + SplitStream(Unparsed()).messages, SplitStream(Unparsed()).rest)
        decreases |Unparsed()|
      {
        match FrontOf(Unparsed()) {
          case Complete(m, used) =>
            messages := messages + [m];
            Advance(used);
          case TooLong => return messages, true;
          case Malformed => return messages, true;
          case Incomplete => return;
        }
      }
    }
  }

  // ---------------------------------------------------------------- a whole connection

  /** The stream a connection decrypts with; none on a plain one. */
  ghost function StreamOf(decrypt: Rc4?): Option<Cipher>
    requires decrypt != null ==> decrypt.Valid()
    reads decrypt, if decrypt == null then {} else {decrypt.s}
  {
    if decrypt == null then None else Some(decrypt.Now())
  }

  ghost function Plain(st: Option<Cipher>, wire: seq<byte>): seq<byte> {
    if st.None? then wire else Crypt(st.value, wire)
  }

  ghost function Moved(st: Option<Cipher>, n: nat): Option<Cipher> {
    if st.None? then None else Some(Rc4s.Advance(st.value, n))
  }

  lemma PlainAppend(st: Option<Cipher>, a: seq<byte>, b: seq<byte>)
    ensures Plain(st, a + b) == Plain(st, a) + Plain(Moved(st, |a|), b)
    ensures Moved(Moved(st, |a|), |b|) == Moved(st, |a + b|)
  {
    hide Crypt, Rc4s.Advance;
    if st.Some? {
      CryptAppend(st.value, a, b);
      AdvanceAdd(st.value, |a|, |b|);
    }
  }

  lemma PlainNothing(st: Option<Cipher>)
    ensures Plain(st, []) == [] && Moved(st, 0) == st
  {}

  /** However the wire is cut into reads, the messages taken are those of the decrypted stream:
      initial bytes, then everything read, through RC4 or plain. A message that cannot be
      parsed ends the connection, and with it the messages of the stream. */
  method ServeReads(cursor: ReadCursor, decrypt: Rc4?, chunks: seq<seq<byte>>)
    returns (messages: seq<Message>, failed: bool)
    requires cursor.Valid() && (decrypt != null ==> decrypt.Valid())
    modifies cursor, decrypt, if decrypt == null then {} else {decrypt.s}
    ensures cursor.Valid() && (decrypt != null ==> decrypt.Valid())
    ensures messages == SplitStream(old(cursor.Unparsed()) + Plain(old(StreamOf(decrypt)), Flatten(chunks))).messages
    ensures !failed ==>
              && cursor.Received() == old(cursor.Received()) + Plain(old(StreamOf(decrypt)), Flatten(chunks))
              && StreamOf(decrypt) == Moved(old(StreamOf(decrypt)), |Flatten(chunks)|)
    ensures failed <==> !FrontOf(cursor.Unparsed()).Incomplete?
  {
    hide SplitStream, FrontOf, StreamOf, Plain, Moved, Crypt, Rc4s.Advance;
    ghost var st, initial, earlier := StreamOf(decrypt), cursor.Unparsed(), cursor.consumed;
    ghost var sofar: seq<byte> := [];
    PlainNothing(st);
    assert initial + [] == initial;
    assert earlier + initial == cursor.Received();
    messages, failed := cursor.TakeMessages();
    var k := 0;
    FlattenNone(chunks);
    while k < |chunks| && !failed
      invariant k <= |chunks| && cursor.Valid() && (decrypt != null ==> decrypt.Valid())
      invariant sofar == Flatten(chunks[..k]) && StreamOf(decrypt) == Moved(st, |sofar|)
      invariant cursor.Received() == earlier + initial + Plain(st, sofar)
      invariant SplitStream(initial + Plain(st, sofar)) == Split(messages, cursor.Unparsed())
      invariant failed <==> !FrontOf(cursor.Unparsed()).Incomplete?
    {
      PlainAppend(st, sofar, chunks[k]);
      ghost var plain, before := Plain(StreamOf(decrypt), chunks[k]), cursor.Unparsed();
      AppendStream(cursor, decrypt, chunks[k]);
      SplitContinues(initial + Plain(st, sofar), plain);
      Assoc(initial, Plain(st, sofar), plain);
      Assoc(earlier + initial, Plain(st, sofar), plain);
      Assoc(cursor.consumed, before, plain);
      var more, stop := cursor.TakeMessages();
      messages, failed := messages + more, stop;
      FlattenNext(chunks, k);
      sofar := sofar + chunks[k];
      k := k + 1;
    }
    FlattenRest(chunks, k);
    if failed {
      PlainAppend(st, sofar, Flatten(chunks[k..]));
      StuckStays(initial + Plain(st, sofar), Plain(Moved(st, |sofar|), Flatten(chunks[k..])));
      Assoc(initial, Plain(st, sofar), Plain(Moved(st, |sofar|), Flatten(chunks[k..])));
    } else {
      assert chunks[..k] == chunks;
    }
  }

  /** One read, whatever the connection decrypts with. */
  method AppendStream(cursor: ReadCursor, decrypt: Rc4?, wire: seq<byte>)
    requires cursor.Valid() && (decrypt != null ==> decrypt.Valid())
    modifies cursor, decrypt, if decrypt == null then {} else {decrypt.s}
    ensures cursor.Valid() && (decrypt != null ==> decrypt.Valid())
    ensures cursor.consumed == old(cursor.consumed)
    ensures cursor.Unparsed() == old(cursor.Unparsed()) + Plain(old(StreamOf(decrypt)), wire)
    ensures StreamOf(decrypt) == Moved(old(StreamOf(decrypt)), |wire|)
  {
    hide Crypt, Rc4s.Advance;
    cursor.Append(wire, decrypt);
  }

  lemma FlattenNone(chunks: seq<seq<byte>>)
    ensures Flatten(chunks[..0]) == []
  {}

  lemma {:induction false} FlattenNext(chunks: seq<seq<byte>>, k: nat)
    requires k < |chunks|
    ensures Flatten(chunks[..k + 1]) == Flatten(chunks[..k]) + chunks[k]
    decreases |chunks|
  {
    if k == 0 {
      assert chunks[..1][1..] == [];
      assert chunks[..1] == [chunks[0]];
    } else {
      FlattenNext(chunks[1..], k - 1);
      assert chunks[..k + 1][1..] == chunks[1..][..k] && chunks[..k][1..] == chunks[1..][..k - 1];
    }
  }

  lemma {:induction false} FlattenRest(chunks: seq<seq<byte>>, k: nat)
    requires k <= |chunks|
    ensures Flatten(chunks) == Flatten(chunks[..k]) + Flatten(chunks[k..])
    decreases |chunks| - k
  {
    if k == |chunks| {
      assert chunks[..k] == chunks && chunks[k..] == [];
    } else {
      FlattenNext(chunks, k);
      FlattenRest(chunks, k + 1);
      assert chunks[k..][0] == chunks[k] && chunks[k..][1..] == chunks[k + 1..];
      Assoc(Flatten(chunks[..k]), chunks[k], Flatten(chunks[k + 1..]));
    }
  }

  /** End to end: a peer writes messages in any pieces over its stream, the wire delivers the
      ciphertext in any other pieces; the messages taken are the messages sent. */
  lemma MessagesArriveAsSent(st: Cipher, ms: seq<Message>, sent: seq<seq<byte>>, received: seq<seq<byte>>)
    requires forall k :: 0 <= k < |ms| ==> Sendable(ms[k])
    requires Flatten(sent) == EncodeAll(ms) && Flatten(received) == CryptChunks(st, sent)
    ensures SplitStream(Plain(Some(st), Flatten(received))) == Split(ms, [])
  {
    hide Crypt, SplitStream, EncodeAll, Sendable;
    ChunksAreOne(st, sent);
    CryptTwice(st, Flatten(sent));
    SentMessages(ms);
  }
}
