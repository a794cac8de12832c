/** The peer wire messages and their frames (`crates/engine/src/wire/messages.rs`). */
module Messages {
  import opened Wrappers
  import opened Bits
  import opened BigEndian

  const MAX_MESSAGE_LENGTH: nat := 1048576
  const TWO_32: nat := 0x1_0000_0000

  const MSG_CHOKE: byte := 0
  const MSG_UNCHOKE: byte := 1
  const MSG_INTERESTED: byte := 2
  const MSG_NOT_INTERESTED: byte := 3
  const MSG_HAVE: byte := 4
  const MSG_BITFIELD: byte := 5
  const MSG_REQUEST: byte := 6
  const MSG_PIECE: byte := 7
  const MSG_CANCEL: byte := 8
  const MSG_SUGGEST: byte := 0x0d
  const MSG_HAVE_ALL: byte := 0x0e
  const MSG_HAVE_NONE: byte := 0x0f
  const MSG_REJECT: byte := 0x10
  const MSG_ALLOWED_FAST: byte := 0x11
  const MSG_EXTENDED: byte := 20

  datatype Message =
    | KeepAlive | Choke | Unchoke | Interested | NotInterested
    | Have(piece: bv32) | Bitfield(bits: seq<byte>)
    | Request(index: bv32, begin: bv32, length: bv32)
    | Piece(index: bv32, begin: bv32, block: seq<byte>)
    | Cancel(index: bv32, begin: bv32, length: bv32)
    | SuggestPiece(piece: bv32) | HaveAll | HaveNone
    | RejectRequest(index: bv32, begin: bv32, length: bv32)
    | AllowedFast(piece: bv32) | Extended(extId: byte, payload: seq<byte>)
    | Unknown(id: byte, payload: seq<byte>)

  predicate IsKnown(id: byte) {
    id in {MSG_CHOKE, MSG_UNCHOKE, MSG_INTERESTED, MSG_NOT_INTERESTED, MSG_HAVE, MSG_BITFIELD, MSG_REQUEST, MSG_PIECE,
           MSG_CANCEL, MSG_SUGGEST, MSG_HAVE_ALL, MSG_HAVE_NONE, MSG_REJECT, MSG_ALLOWED_FAST, MSG_EXTENDED}
  }

  // ---------------------------------------------------------------- encoding

  function Three(a: bv32, b: bv32, c: bv32): seq<byte> {
    U32Bytes(a) + U32Bytes(b) + U32Bytes(c)
  }

  /** Id and payload; nothing for a keep-alive. */
  function Body(m: Message): (r: seq<byte>)
    ensures r == [] <==> m.KeepAlive?
  {
    match m
    case KeepAlive => []
    case Choke => [MSG_CHOKE]
    case Unchoke => [MSG_UNCHOKE]
    case Interested => [MSG_INTERESTED]
    case NotInterested => [MSG_NOT_INTERESTED]
    case Have(i) => [MSG_HAVE] + U32Bytes(i)
    case Bitfield(bits) => [MSG_BITFIELD] + bits
    case Request(i, b, l) => [MSG_REQUEST] + Three(i, b, l)
    case Piece(i, b, block) => [MSG_PIECE] + (U32Bytes(i) + U32Bytes(b) + block)
    case Cancel(i, b, l) => [MSG_CANCEL] + Three(i, b, l)
    case SuggestPiece(i) => [MSG_SUGGEST] + U32Bytes(i)
    case HaveAll => [MSG_HAVE_ALL]
    case HaveNone => [MSG_HAVE_NONE]
    case RejectRequest(i, b, l) => [MSG_REJECT] + Three(i, b, l)
    case AllowedFast(i) => [MSG_ALLOWED_FAST] + U32Bytes(i)
    case Extended(e, p) => [MSG_EXTENDED] + ([e] + p)
    case Unknown(id, p) => [id] + p
  }

  /** A length as the four bytes its cast to 32 bits has. */
  function LengthBytes(n: nat): (r: seq<byte>)
    ensures |r| == 4
  {
    LowBytes(n, 4)
  }

  /** `encode_message`. */
  function Encode(m: Message): (r: seq<byte>)
    ensures |r| == 4 + |Body(m)|
  {
    LengthBytes(|Body(m)|) + Body(m)
  }

  // ---------------------------------------------------------------- parsing

  function OneWord(p: seq<byte>, make: bv32 -> Message): Option<Message> {
    if |p| != 4 then None else Some(make(U32Of(p)))
  }

  function ThreeWords(p: seq<byte>, make: (bv32, bv32, bv32) -> Message): Option<Message> {
    if |p| != 12 then None else Some(make(U32Of(p[0..4]), U32Of(p[4..8]), U32Of(p[8..12])))
  }

  /** A message from its id and payload, or none for a payload of the wrong length. The
      payload of a message that has none is not looked at. */
  function Decode(id: byte, p: seq<byte>): Option<Message> {
    if id == MSG_PIECE then
      if |p| < 8 then None else Some(Piece(U32Of(p[0..4]), U32Of(p[4..8]), p[8..]))
    else if id == MSG_CHOKE then Some(Choke)
    else if id == MSG_UNCHOKE then Some(Unchoke)
    else if id == MSG_INTERESTED then Some(Interested)
    else if id == MSG_NOT_INTERESTED then Some(NotInterested)
    else if id == MSG_HAVE then OneWord(p, i => Have(i))
    else if id == MSG_BITFIELD then Some(Bitfield(p))
    else if id == MSG_REQUEST then ThreeWords(p, (i, b, l) => Request(i, b, l))
    else if id == MSG_CANCEL then ThreeWords(p, (i, b, l) => Cancel(i, b, l))
    else if id == MSG_SUGGEST then OneWord(p, i => SuggestPiece(i))
    else if id == MSG_HAVE_ALL then if p != [] then None else Some(HaveAll)
    else if id == MSG_HAVE_NONE then if p != [] then None else Some(HaveNone)
    else if id == MSG_REJECT then ThreeWords(p, (i, b, l) => RejectRequest(i, b, l))
    else if id == MSG_ALLOWED_FAST then OneWord(p, i => AllowedFast(i))
    else if id == MSG_EXTENDED then if p == [] then None else Some(Extended(p[0], p[1..]))
    else Some(Unknown(id, p))
  }

  /** The declared length of the frame at the front. */
  function DeclaredLen(u: seq<byte>): nat
    requires |u| >= 4
  {
    FromBe(u[..4])
  }

  datatype Front = Incomplete | TooLong | Malformed | Complete(m: Message, used: nat)

  /** `parse_message`. */
  function FrontOf(u: seq<byte>): (r: Front)
    ensures r.Complete? ==> 4 <= r.used <= |u|
  {
    if |u| < 4 then Incomplete
    else
      var len := DeclaredLen(u);
      if len == 0 then Complete(KeepAlive, 4)
      else if len > MAX_MESSAGE_LENGTH then TooLong
      else if |u| < 4 + len then Incomplete
      else
        var m := Decode(u[4], u[5..4 + len]);
        if m.None? then Malformed else Complete(m.value, 4 + len)
  }

  // ---------------------------------------------------------------- round trip

  /** What survives the wire: short enough, and not a known message in disguise. */
  predicate Sendable(m: Message) {
    |Body(m)| <= MAX_MESSAGE_LENGTH && (m.Unknown? ==> !IsKnown(m.id))
  }

  lemma LengthBack(n: nat)
    ensures FromBe(LengthBytes(n)) == n % TWO_32
  {
    LowBytesBack(n, 4);
    assert Power(256, 4) == 256 * Power(256, 3) == 256 * (256 * Power(256, 2)) == TWO_32;
  }

  lemma FieldsOf(a: bv32, b: bv32, c: bv32)
    ensures var p := Three(a, b, c); |p| == 12 && U32Of(p[0..4]) == a && U32Of(p[4..8]) == b && U32Of(p[8..12]) == c
  {
    var p := Three(a, b, c);
    assert p[0..4] == U32Bytes(a) && p[4..8] == U32Bytes(b) && p[8..12] == U32Bytes(c);
    hide U32Bytes, U32Of;
    U32Back(a);
    U32Back(b);
    U32Back(c);
  }

  lemma PieceFields(a: bv32, b: bv32, block: seq<byte>)
    ensures var p := U32Bytes(a) + U32Bytes(b) + block;
            |p| >= 8 && U32Of(p[0..4]) == a && U32Of(p[4..8]) == b && p[8..] == block
  {
    hide U32Bytes, U32Of;
    var p := U32Bytes(a) + U32Bytes(b) + block;
    assert p[0..4] == U32Bytes(a) && p[4..8] == U32Bytes(b);
    U32Back(a);
    U32Back(b);
  }

  lemma OneWordBack(i: bv32)
    ensures Decode(MSG_HAVE, U32Bytes(i)) == Some(Have(i))
    ensures Decode(MSG_SUGGEST, U32Bytes(i)) == Some(SuggestPiece(i))
    ensures Decode(MSG_ALLOWED_FAST, U32Bytes(i)) == Some(AllowedFast(i))
  {
    hide U32Bytes, U32Of;
    U32Back(i);
  }

  lemma ThreeWordsBack(i: bv32, g: bv32, l: bv32)
    ensures Decode(MSG_REQUEST, Three(i, g, l)) == Some(Request(i, g, l))
    ensures Decode(MSG_CANCEL, Three(i, g, l)) == Some(Cancel(i, g, l))
    ensures Decode(MSG_REJECT, Three(i, g, l)) == Some(RejectRequest(i, g, l))
  {
    hide U32Bytes, U32Of, Three;
    FieldsOf(i, g, l);
  }

  lemma BytesBack(i: bv32, g: bv32, e: byte, p: seq<byte>)
    ensures Decode(MSG_PIECE, U32Bytes(i) + U32Bytes(g) + p) == Some(Piece(i, g, p))
    ensures Decode(MSG_BITFIELD, p) == Some(Bitfield(p))
    ensures Decode(MSG_EXTENDED, [e] + p) == Some(Extended(e, p))
  {
    hide U32Bytes, U32Of;
    PieceFields(i, g, p);
    assert ([e] + p)[1..] == p;
  }

  lemma BareBack()
    ensures Decode(MSG_CHOKE, []) == Some(Choke) && Decode(MSG_UNCHOKE, []) == Some(Unchoke)
    ensures Decode(MSG_INTERESTED, []) == Some(Interested) && Decode(MSG_NOT_INTERESTED, []) == Some(NotInterested)
    ensures Decode(MSG_HAVE_ALL, []) == Some(HaveAll) && Decode(MSG_HAVE_NONE, []) == Some(HaveNone)
  {}

  lemma UnknownBack(id: byte, p: seq<byte>)
    ensures Decode(id, p) == Some(Unknown(id, p)) <==> !IsKnown(id)
  {
    hide U32Of;
  }

  function IdOf(m: Message): byte
    requires !m.KeepAlive?
  {
    Body(m)[0]
  }

  function PayloadOf(m: Message): seq<byte>
    requires !m.KeepAlive?
  {
    Body(m)[1..]
  }

  lemma WordPayloads(m: Message)
    ensures m.Have? ==> IdOf(m) == MSG_HAVE && PayloadOf(m) == U32Bytes(m.piece)
    ensures m.SuggestPiece? ==> IdOf(m) == MSG_SUGGEST && PayloadOf(m) == U32Bytes(m.piece)
    ensures m.AllowedFast? ==> IdOf(m) == MSG_ALLOWED_FAST && PayloadOf(m) == U32Bytes(m.piece)
    ensures m.Request? ==> IdOf(m) == MSG_REQUEST && PayloadOf(m) == Three(m.index, m.begin, m.length)
    ensures m.Cancel? ==> IdOf(m) == MSG_CANCEL && PayloadOf(m) == Three(m.index, m.begin, m.length)
    ensures m.RejectRequest? ==> IdOf(m) == MSG_REJECT && PayloadOf(m) == Three(m.index, m.begin, m.length)
  {
    hide U32Bytes, Three;
  }

  lemma BytePayloads(m: Message)
    ensures m.Piece? ==> IdOf(m) == MSG_PIECE && PayloadOf(m) == U32Bytes(m.index) + U32Bytes(m.begin) + m.block
    ensures m.Bitfield? ==> IdOf(m) == MSG_BITFIELD && PayloadOf(m) == m.bits
    ensures m.Extended? ==> IdOf(m) == MSG_EXTENDED && PayloadOf(m) == [m.extId] + m.payload
    ensures m.Unknown? ==> IdOf(m) == m.id && PayloadOf(m) == m.payload
  {
    hide U32Bytes;
  }

  lemma NoPayloads(m: Message)
    ensures m.Choke? ==> IdOf(m) == MSG_CHOKE && PayloadOf(m) == []
    ensures m.Unchoke? ==> IdOf(m) == MSG_UNCHOKE && PayloadOf(m) == []
    ensures m.Interested? ==> IdOf(m) == MSG_INTERESTED && PayloadOf(m) == []
    ensures m.NotInterested? ==> IdOf(m) == MSG_NOT_INTERESTED && PayloadOf(m) == []
    ensures m.HaveAll? ==> IdOf(m) == MSG_HAVE_ALL && PayloadOf(m) == []
    ensures m.HaveNone? ==> IdOf(m) == MSG_HAVE_NONE && PayloadOf(m) == []
  {}

  /** Id and payload decode back, unless an unknown message carries a known id. */
  lemma DecodeBack(m: Message)
    requires !m.KeepAlive?
    ensures Decode(IdOf(m), PayloadOf(m)) == Some(m) <==> (m.Unknown? ==> !IsKnown(m.id))
  {
    hide U32Bytes, Three, Decode, IsKnown, IdOf, PayloadOf;
    if m.Have? || m.SuggestPiece? || m.AllowedFast? {
      WordPayloads(m);
      OneWordBack(m.piece);
    } else if m.Request? || m.Cancel? || m.RejectRequest? {
      WordPayloads(m);
      ThreeWordsBack(m.index, m.begin, m.length);
    } else if m.Piece? {
      BytePayloads(m);
      BytesBack(m.index, m.begin, 0, m.block);
    } else if m.Bitfield? {
      BytePayloads(m);
      BytesBack(0, 0, 0, m.bits);
    } else if m.Extended? {
      BytePayloads(m);
      BytesBack(0, 0, m.extId, m.payload);
    } else if m.Unknown? {
      BytePayloads(m);
      UnknownBack(m.id, m.payload);
    } else {
      NoPayloads(m);
      BareBack();
    }
  }

  /** A message comes back off the front of any stream it was written to exactly if it is
      sendable. */
  lemma RoundTrip(m: Message, rest: seq<byte>)
    ensures FrontOf(Encode(m) + rest) == Complete(m, |Encode(m)|) <==> Sendable(m)
  {
    hide Decode, Body, LengthBytes, IsKnown, FromBe;
    var n, u := |Body(m)|, Encode(m) + rest;
    LengthBack(n);
    assert u[..4] == LengthBytes(n);
    if n > 0 && n <= MAX_MESSAGE_LENGTH {
      DecodeBack(m);
      assert u[4] == Body(m)[0] && u[5..4 + n] == Body(m)[1..];
    }
  }

  // ---------------------------------------------------------------- the bytes of BEP 3 and BEP 6

  /** Behind the length each message is its id and its fields, in this order. */
  lemma WireFormat(m: Message)
    ensures m.KeepAlive? ==> Encode(m)[4..] == []
    ensures m.Choke? ==> Encode(m)[4..] == [0]
    ensures m.Unchoke? ==> Encode(m)[4..] == [1]
    ensures m.Interested? ==> Encode(m)[4..] == [2]
    ensures m.NotInterested? ==> Encode(m)[4..] == [3]
    ensures m.Have? ==> Encode(m)[4..] == [4] + U32Bytes(m.piece)
    ensures m.Bitfield? ==> Encode(m)[4..] == [5] + m.bits
    ensures m.Request? ==> Encode(m)[4..] == [6] + U32Bytes(m.index) + U32Bytes(m.begin) + U32Bytes(m.length)
    ensures m.Piece? ==> Encode(m)[4..] == [7] + U32Bytes(m.index) + U32Bytes(m.begin) + m.block
    ensures m.Cancel? ==> Encode(m)[4..] == [8] + U32Bytes(m.index) + U32Bytes(m.begin) + U32Bytes(m.length)
    ensures m.SuggestPiece? ==> Encode(m)[4..] == [13] + U32Bytes(m.piece)
    ensures m.HaveAll? ==> Encode(m)[4..] == [14]
    ensures m.HaveNone? ==> Encode(m)[4..] == [15]
    ensures m.RejectRequest? ==> Encode(m)[4..] == [16] + U32Bytes(m.index) + U32Bytes(m.begin) + U32Bytes(m.length)
    ensures m.AllowedFast? ==> Encode(m)[4..] == [17] + U32Bytes(m.piece)
    ensures m.Extended? ==> Encode(m)[4..] == [20, m.extId] + m.payload
    ensures m.Unknown? ==> Encode(m)[4..] == [m.id] + m.payload
  {
    assert Encode(m)[4..] == Body(m) by {
      hide Body;
    }
    hide U32Bytes, Encode, Body;
    BareBodies(m);
    WordBodies(m);
    ByteBodies(m);
  }

  lemma BareBodies(m: Message)
    ensures m.KeepAlive? ==> Body(m) == []
    ensures m.Choke? ==> Body(m) == [0]
    ensures m.Unchoke? ==> Body(m) == [1]
    ensures m.Interested? ==> Body(m) == [2]
    ensures m.NotInterested? ==> Body(m) == [3]
    ensures m.HaveAll? ==> Body(m) == [14]
    ensures m.HaveNone? ==> Body(m) == [15]
  {
    hide U32Bytes;
  }

  lemma WordBodies(m: Message)
    ensures m.Have? ==> Body(m) == [4] + U32Bytes(m.piece)
    ensures m.SuggestPiece? ==> Body(m) == [13] + U32Bytes(m.piece)
    ensures m.AllowedFast? ==> Body(m) == [17] + U32Bytes(m.piece)
    ensures m.Request? ==> Body(m) == [6] + U32Bytes(m.index) + U32Bytes(m.begin) + U32Bytes(m.length)
    ensures m.Cancel? ==> Body(m) == [8] + U32Bytes(m.index) + U32Bytes(m.begin) + U32Bytes(m.length)
    ensures m.RejectRequest? ==> Body(m) == [16] + U32Bytes(m.index) + U32Bytes(m.begin) + U32Bytes(m.length)
  {
    hide U32Bytes;
    if m.Request? || m.Cancel? || m.RejectRequest? {
      Prefixed([IdOf(m)], U32Bytes(m.index), U32Bytes(m.begin), U32Bytes(m.length));
    }
  }

  lemma ByteBodies(m: Message)
    ensures m.Bitfield? ==> Body(m) == [5] + m.bits
    ensures m.Piece? ==> Body(m) == [7] + U32Bytes(m.index) + U32Bytes(m.begin) + m.block
    ensures m.Extended? ==> Body(m) == [20, m.extId] + m.payload
    ensures m.Unknown? ==> Body(m) == [m.id] + m.payload
  {
    hide U32Bytes;
    if m.Piece? {
      Prefixed([7], U32Bytes(m.index), U32Bytes(m.begin), m.block);
    }
  }

  lemma Prefixed(id: seq<byte>, a: seq<byte>, b: seq<byte>, c: seq<byte>)
    ensures id + (a + b + c) == id + a + b + c
  {}

  /** The length in front counts what is behind it. */
  lemma LengthInFront(m: Message)
    requires |Encode(m)| < 4 + 0x1_0000_0000
    ensures FromBe(Encode(m)[..4]) == |Encode(m)| - 4
  {
    hide Body, LengthBytes, FromBe;
    LengthBack(|Body(m)|);
    assert Encode(m)[..4] == LengthBytes(|Body(m)|);
  }

  /** A choke and a keep-alive, whole. */
  lemma ShortMessages()
    ensures Encode(Choke) == [0, 0, 0, 1, 0] && Encode(KeepAlive) == [0, 0, 0, 0]
  {
    hide Body, LengthBytes;
    ShortFrames();
    ShortBodies();
  }

  lemma ShortFrames()
    ensures LengthBytes(0) == [0, 0, 0, 0] && LengthBytes(1) == [0, 0, 0, 1]
  {
    assert LowBytes(0, 1) == [0] && LowBytes(0, 2) == [0, 0] && LowBytes(0, 3) == [0, 0, 0];
  }

  lemma ShortBodies()
    ensures Body(Choke) == [0] && Body(KeepAlive) == []
  {}

  /** A payload is refused exactly when its length does not fit its id. */
  lemma RefusedPayloads(id: byte, p: seq<byte>)
    ensures Decode(id, p).None?
       <==> || (id in {4, 13, 17} && |p| != 4)
            || (id in {6, 8, 16} && |p| != 12)
            || (id == 7 && |p| < 8)
            || (id in {14, 15} && p != [])
            || (id == 20 && p == [])
  {
    hide U32Of;
  }

  /** A frame is given up on exactly if it declares more than a mebibyte. */
  lemma TooLongExactly(u: seq<byte>)
    ensures FrontOf(u).TooLong? <==> |u| >= 4 && FromBe(u[..4]) > 1024 * 1024
  {
    hide Decode, FromBe;
  }

  /** Once decided, the front of a stream does not change when more arrives. */
  lemma FrontStable(u: seq<byte>, more: seq<byte>)
    ensures !FrontOf(u).Incomplete? ==> FrontOf(u + more) == FrontOf(u)
  {
    hide Decode, FromBe;
    if |u| >= 4 {
      assert (u + more)[..4] == u[..4];
      var len := DeclaredLen(u);
      if len > 0 && |u| >= 4 + len {
        assert (u + more)[4] == u[4] && (u + more)[5..4 + len] == u[5..4 + len];
      }
    }
  }
}
