/** The wire format of live migration: a type, a length and a payload per message. */
module MigWire {
  import opened Sequences
  import opened Bits
  import opened Bytes

  datatype MsgType = Hello | Ready | Page | Pause | VcpuState | Done | Running | Error
  datatype Msg = Msg(kind: MsgType, payload: seq<byte>)

  /** A message or a failure to read one; a failure ends the conversation. */
  datatype Received = Received(msg: Msg, rest: seq<byte>) | Truncated | UnknownType

  const LENGTH_LIMIT: nat := 0x1_0000_0000

  function Code(kind: MsgType): nat {
    match kind
    case Hello => 1 case Ready => 2 case Page => 3 case Pause => 4
    case VcpuState => 5 case Done => 6 case Running => 7 case Error => 8
  }

  function KindOf(code: nat): (kind: Option<MsgType>)
    ensures forall k :: Code(k) == code <==> kind == Some(k)
  {
    match code
    case 1 => Some(Hello) case 2 => Some(Ready) case 3 => Some(Page) case 4 => Some(Pause)
    case 5 => Some(VcpuState) case 6 => Some(Done) case 7 => Some(Running) case 8 => Some(Error)
    case _ => None
  }

  /** The length is cut to 32 bits. */
  function Encode(m: Msg): seq<byte> {
    ToBigEndian(Code(m.kind), 4) + ToBigEndian(|m.payload| % LENGTH_LIMIT, 4) + m.payload
  }

  /** The bytes of a message: three zeros and the type, four bytes of length, the highest first, and the payload. */
  lemma EncodedBytes(m: Msg)
    requires |m.payload| < LENGTH_LIMIT
    ensures var data, n := Encode(m), |m.payload|;
            && |data| == 8 + n && data[8..] == m.payload
            && data[..4] == [0, 0, 0, match m.kind
                                      case Hello => 1 case Ready => 2 case Page => 3 case Pause => 4
                                      case VcpuState => 5 case Done => 6 case Running => 7 case Error => 8]
            && data[4..8] == [n / 0x100_0000, n / 0x1_0000 % 256, n / 0x100 % 256, n % 256]
  {
    hide ToBigEndian;
    FourBytes(Code(m.kind));
    FourBytes(|m.payload|);
  }

  lemma FourBytes(x: nat)
    ensures ToBigEndian(x, 4) == [x / 0x100_0000 % 256, x / 0x1_0000 % 256, x / 0x100 % 256, x % 256]
  {
    ByteAt(x, 4, 0);
    ByteAt(x, 4, 1);
    ByteAt(x, 4, 2);
    ByteAt(x, 4, 3);
    assert Pow2(0) == 1 && Pow2(8) == 256;
    Pow2Byte(2);
    Pow2Byte(3);
  }

  function EncodeAll(msgs: seq<Msg>): seq<byte> {
    if msgs == [] then [] else Encode(msgs[0]) + EncodeAll(msgs[1..])
  }

  function Decode(data: seq<byte>): Received {
    if |data| < 8 then Truncated
    else
      var length := BigEndian(data[4..8]);
      if |data| - 8 < length then Truncated
      else
        var kind := KindOf(BigEndian(data[..4]));
        if kind.None? then UnknownType
        else Received(Msg(kind.value, data[8..8 + length]), data[8 + length..])
  }

  /** Repeated reading until the stream ends between two messages. */
  function DecodeAll(data: seq<byte>): Option<seq<Msg>>
    decreases |data|
  {
    if data == [] then Some([])
    else
      var r := Decode(data);
      if r.Received? then Prefixed([r.msg], DecodeAll(r.rest)) else None
  }

  /** The two ends of a connection and the bytes between them. */
  class Stream {
    var data: seq<byte>

    constructor ()
      ensures data == []
    {
      data := [];
    }

    method SendMsg(kind: MsgType, payload: seq<byte>)
      modifies this
      ensures data == old(data) + Encode(Msg(kind, payload))
    {
      var header := ToBigEndian(Code(kind), 4) + ToBigEndian(|payload| % LENGTH_LIMIT, 4);
      data := data + header;
      data := data + payload;
    }

    method SendPage(gpa: nat, page: seq<byte>)
      modifies this
      ensures data == old(data) + Encode(Msg(Page, PagePayload(gpa, page)))
    {
      SendMsg(Page, ToBigEndian(gpa, 8) + page);
    }

    method RecvMsg() returns (r: Received)
      modifies this
      ensures r == Decode(old(data)) && (r.Received? ==> data == r.rest)
    {
      if |data| < 8 { return Truncated; }
      var header := data[..8];
      data := data[8..];
      var code, length := BigEndian(header[..4]), BigEndian(header[4..]);
      assert header[..4] == old(data)[..4] && header[4..] == old(data)[4..8];
      if |data| < length { return Truncated; }
      var payload := data[..length];
      data := data[length..];
      var kind := KindOf(code);
      if kind.None? { return UnknownType; }
      return Received(Msg(kind.value, payload), data);
    }

    method SendAll(msgs: seq<Msg>)
      modifies this
      ensures data == old(data) + EncodeAll(msgs)
    {
      hide Encode;
      for i := 0 to |msgs|
        invariant data == old(data) + EncodeAll(msgs[..i])
      {
        EncodeOneMore(msgs, i);
        SendMsg(msgs[i].kind, msgs[i].payload);
      }
      assert msgs[..|msgs|] == msgs;
    }

    /** Reads to the end of the stream. */
    method RecvAll() returns (msgs: Option<seq<Msg>>)
      modifies this
      ensures msgs == DecodeAll(old(data))
    {
      hide Decode, Prefixed;
      var got: seq<Msg> := [];
      PrefixedMore([], Msg(Hello, []), DecodeAll(data));
      while data != []
        invariant DecodeAll(old(data)) == Prefixed(got, DecodeAll(data))
        decreases |data|
      {
        Shrinks(data);
        var r := RecvMsg();
        if !r.Received? {
          PrefixedNone(got);
          return None;
        }
        PrefixedMore(got, r.msg, DecodeAll(data));
        got := got + [r.msg];
      }
      PrefixedMore(got, Msg(Hello, []), None);
      return Some(got);
    }
  }

  function Prefixed(got: seq<Msg>, others: Option<seq<Msg>>): Option<seq<Msg>> {
    if others.None? then None else Some(got + others.value)
  }

  lemma PrefixedMore(got: seq<Msg>, m: Msg, others: Option<seq<Msg>>)
    ensures Prefixed([], others) == others && Prefixed(got, Some([])) == Some(got)
    ensures Prefixed(got, Prefixed([m], others)) == Prefixed(got + [m], others)
  {
    assert got + [] == got;
    if others.Some? {
      assert [] + others.value == others.value;
      assert got + ([m] + others.value) == got + [m] + others.value;
    }
  }

  lemma PrefixedNone(got: seq<Msg>)
    ensures Prefixed(got, None) == None
  {
  }

  lemma Shrinks(data: seq<byte>)
    ensures Decode(data).Received? ==> |Decode(data).rest| < |data|
  {
  }

  lemma {:induction false} EncodeOneMore(msgs: seq<Msg>, i: nat)
    requires i < |msgs|
    ensures EncodeAll(msgs[..i + 1]) == EncodeAll(msgs[..i]) + Encode(msgs[i])
    decreases i
  {
    hide Encode;
    if i == 0 {
      assert msgs[..1] == [msgs[0]] && EncodeAll([msgs[0]]) == Encode(msgs[0]) + EncodeAll([msgs[0]][1..]);
    } else {
      EncodeOneMore(msgs[1..], i - 1);
      assert msgs[..i + 1][1..] == msgs[1..][..i] && msgs[..i][1..] == msgs[1..][..i - 1];
    }
  }

  // ----- Round trips -----

  lemma DecodeEncoded(m: Msg, rest: seq<byte>)
    ensures |m.payload| < LENGTH_LIMIT ==> Decode(Encode(m) + rest) == Received(m, rest)
    ensures |m.payload| >= LENGTH_LIMIT ==> forall r :: Decode(Encode(m) + rest) != Received(m, r)
  {
    var length := |m.payload| % LENGTH_LIMIT;
    var data := Encode(m) + rest;
    HeaderFields(m, rest);
    hide Encode;
    assert |m.payload| >= LENGTH_LIMIT ==> length != |m.payload|;
    if |m.payload| < LENGTH_LIMIT {
      assert data[8..8 + length] == m.payload && data[8 + length..] == rest;
    }
  }

  lemma HeaderFields(m: Msg, rest: seq<byte>)
    ensures var data := Encode(m) + rest;
            && |data| == 8 + |m.payload| + |rest| && data[8..] == m.payload + rest
            && BigEndian(data[..4]) == Code(m.kind) && BigEndian(data[4..8]) == |m.payload| % LENGTH_LIMIT
  {
    hide Pow2, BigEndian, ToBigEndian;
    var data := Encode(m) + rest;
    assert data[..4] == ToBigEndian(Code(m.kind), 4);
    assert data[4..8] == ToBigEndian(|m.payload| % LENGTH_LIMIT, 4);
    assert Pow2(32) == LENGTH_LIMIT by { Pow2Word(); }
    BigEndianRoundTrip(Code(m.kind), 4);
    BigEndianRoundTrip(|m.payload| % LENGTH_LIMIT, 4);
  }

  /** Reading what was written gives back the messages if and only if every payload is shorter than
      2^32 bytes. */
  lemma {:induction false} StreamRoundTrip(msgs: seq<Msg>)
    ensures DecodeAll(EncodeAll(msgs)) == Some(msgs) <==>
      forall i :: 0 <= i < |msgs| ==> |msgs[i].payload| < LENGTH_LIMIT
  {
    if msgs != [] {
      var rest := msgs[1..];
      StreamRoundTrip(rest);
      hide Decode, Encode, Prefixed;
      DecodeEncoded(msgs[0], EncodeAll(rest));
      assert EncodeAll(msgs) != [] by { HeaderFields(msgs[0], EncodeAll(rest)); }
      FirstDecoded(EncodeAll(msgs), msgs);
      PrefixedOne(msgs, DecodeAll(EncodeAll(rest)));
      assert forall i :: 0 <= i < |rest| ==> rest[i] == msgs[i + 1];
    }
  }

  lemma PrefixedOne(msgs: seq<Msg>, others: Option<seq<Msg>>)
    requires msgs != []
    ensures Prefixed([msgs[0]], others) == Some(msgs) <==> others == Some(msgs[1..])
  {
    assert msgs == [msgs[0]] + msgs[1..];
    if others.Some? {
      assert ([msgs[0]] + others.value)[1..] == others.value;
    }
  }

  lemma FirstDecoded(data: seq<byte>, msgs: seq<Msg>)
    requires data != []
    ensures DecodeAll(data) == Some(msgs) ==> msgs != [] && exists rest :: Decode(data) == Received(msgs[0], rest)
  {
    hide Decode;
    if DecodeAll(data) == Some(msgs) {
      assert Decode(data) == Received(msgs[0], Decode(data).rest);
    }
  }

  // ----- Pages -----

  function PagePayload(gpa: nat, page: seq<byte>): seq<byte> {
    ToBigEndian(gpa, 8) + page
  }

  /** The receiver takes the address off the front; a shorter payload is dropped. */
  function PageOf(payload: seq<byte>): Option<(nat, seq<byte>)> {
    if |payload| >= 8 then Some((BigEndian(payload[..8]), payload[8..])) else None
  }

  /** A page message gives back its address and its contents. */
  lemma PageRoundTrip(gpa: nat, page: seq<byte>)
    requires gpa < W
    ensures PageOf(PagePayload(gpa, page)) == Some((gpa, page))
  {
    hide Pow2, BigEndian, ToBigEndian;
    var payload := PagePayload(gpa, page);
    assert payload[..8] == ToBigEndian(gpa, 8) && payload[8..] == page;
    assert Pow2(64) == W by { Pow2Word(); }
    BigEndianRoundTrip(gpa, 8);
  }
}
