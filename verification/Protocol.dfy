/** The wire protocol: headers, commands and what each handler takes from the stream. */
module Protocol {
  import opened Bytes
  import opened Bits

  type u32 = x: int | 0 <= x < 0x1_0000_0000

  datatype Header = Header(startID: byte, destID: byte, command: byte, dataType: byte, dataSize: u32)

  const HEADER_SIZE := 8
  const CID_SIZE := 23
  const HASH_SIZE := 64
  const SIGNED_HASH_SIZE := 350
  const FIELDS_SIZE := 437
  const ASYNC_BUFSIZE := 4096

  const LOGGER: byte := 0x10
  const SERVER: byte := 0x12
  const UCHAR: byte := 0xa1
  const VIDEO_DATA_SND: byte := 0x02

  /** The struct as it lies in memory, the size least significant byte first. */
  function HeaderBytes(h: Header): (b: seq<byte>)
    ensures |b| == HEADER_SIZE
  {
    [h.startID, h.destID, h.command, h.dataType,
     h.dataSize % 256, h.dataSize / 0x100 % 256, h.dataSize / 0x1_0000 % 256, h.dataSize / 0x100_0000]
  }

  function ParseHeader(b: seq<byte>): Header
    requires |b| == HEADER_SIZE
  {
    Header(b[0], b[1], b[2], b[3], Size(b[4], b[5], b[6], b[7]))
  }

  function Size(b0: int, b1: int, b2: int, b3: int): u32
    requires 0 <= b0 < 256 && 0 <= b1 < 256 && 0 <= b2 < 256 && 0 <= b3 < 256
  {
    b0 + 0x100 * b1 + 0x1_0000 * b2 + 0x100_0000 * b3
  }

  lemma HeaderRoundTrip(h: Header)
    ensures ParseHeader(HeaderBytes(h)) == h
  {
    var n := h.dataSize;
    assert n == n % 256 + 0x100 * (n / 0x100);
    assert n / 0x100 == n / 0x100 % 256 + 0x100 * (n / 0x1_0000);
    assert n / 0x1_0000 == n / 0x1_0000 % 256 + 0x100 * (n / 0x100_0000);
  }

  /** Which byte of a sent header carries what; the size is little endian. */
  lemma HeaderLayout(h: Header)
    ensures var b := HeaderBytes(h);
            && b[0] == h.startID && b[1] == h.destID && b[2] == h.command && b[3] == h.dataType
            && h.dataSize
            == (b[4] as int) + 0x100 * (b[5] as int) + 0x1_0000 * (b[6] as int) + 0x100_0000 * (b[7] as int)
  {
    HeaderRoundTrip(h);
  }

  // ----- the command table -----

  datatype Handler =
    | PublicKeyRequest | PublicKeyResponse | VideoDataSend | VideoDataResponse
    | VerifyRequest | VerifyResponse | VerifyToProver | ProverResponse
    | HiIAm | NiceToMeetYou
    | GenerateAes | ShareRequested | ShareResponse | AnotherShareRequest | AnotherShareResponse
    | Test | TestGenShares | GenShareRes | TestShareReq | TestShareRes

  datatype Option<T> = None | Some(value: T)

  /** `parser_desp`, in order. */
  function Table(): (t: seq<(byte, Handler)>)
    ensures |t| == 20
  {
    [(0x01, PublicKeyRequest), (0xf1, PublicKeyResponse), (0x02, VideoDataSend), (0xf2, VideoDataResponse),
     (0x03, VerifyRequest), (0xf3, VerifyResponse), (0x04, VerifyToProver), (0xf4, ProverResponse),
     (0x09, HiIAm), (0xf9, NiceToMeetYou),
     (0x80, GenerateAes), (0x82, ShareRequested), (0x83, ShareResponse),
     (0x84, AnotherShareRequest), (0x85, AnotherShareResponse),
     (0xff, Test), (0xe0, TestGenShares), (0xe1, GenShareRes), (0xe2, TestShareReq), (0xe3, TestShareRes)]
  }

  /** The handler of the first entry with the command's code. */
  function FirstEntry(table: seq<(byte, Handler)>, command: byte): (h: Option<Handler>)
    ensures h == None ==> forall k :: 0 <= k < |table| ==> table[k].0 != command
    ensures h.Some? ==> exists k :: 0 <= k < |table| && table[k] == (command, h.value)
  {
    if table == [] then None
    else if table[0].0 == command then Some(table[0].1)
    else FirstEntry(table[1..], command)
  }

  /** The handler that a command is meant for. */
  function HandlerOf(command: byte): (h: Option<Handler>) {
    FirstEntry(Table(), command)
  }

  /** The scan of `cmd_parser`: the first entry with the command's code. */
  method FindHandler(command: byte) returns (h: Option<Handler>)
    ensures h == HandlerOf(command)
  {
    hide FirstEntry, Table;
    var table := Table();
    var i := 0;
    assert table[0..] == table;
    while i < |table|
      invariant 0 <= i <= |table|
      invariant FirstEntry(table[i..], command) == FirstEntry(table, command)
    {
      EntryStep(table, i, command);
      if table[i].0 == command {
        return Some(table[i].1);
      }
      i := i + 1;
    }
    EntryEnd(table, command);
    return None;
  }

  lemma EntryStep(table: seq<(byte, Handler)>, i: nat, command: byte)
    requires i < |table|
    ensures FirstEntry(table[i..], command)
         == if table[i].0 == command then Some(table[i].1) else FirstEntry(table[i + 1..], command)
  {
    assert table[i..][1..] == table[i + 1..];
  }

  lemma EntryEnd(table: seq<(byte, Handler)>, command: byte)
    ensures FirstEntry(table[|table|..], command) == None
  {
  }

  // ----- what a handler takes from the stream -----

  datatype Reading = Nothing | Payload | VideoFields | FourPayloads

  function ReadingOf(command: byte): Reading {
    match HandlerOf(command)
    case Some(VideoDataSend) => VideoFields
    case Some(AnotherShareResponse) => FourPayloads
    case Some(PublicKeyRequest) => Payload
    case Some(PublicKeyResponse) => Payload
    case Some(ShareRequested) => Payload
    case Some(ShareResponse) => Payload
    case Some(AnotherShareRequest) => Payload
    case Some(Test) => Payload
    case Some(TestGenShares) => Payload
    case _ => Nothing
  }

  /** How many bytes `recv_binary` waits for: its size is cut down to an `int`, and none when that is negative. */
  function Wanted(size: int): nat {
    if Wrap32(size) > 0 then Wrap32(size) else 0
  }

  /** What `video_data_send` computes as the size of the frame. */
  function FrameSize(dataSize: u32): int { Wrap32(dataSize - FIELDS_SIZE) }

  /** How many bytes the handler of a command consumes. */
  function Consumed(command: byte, dataSize: u32): nat {
    match ReadingOf(command)
    case Nothing => 0
    case Payload => Wanted(dataSize)
    case VideoFields => FIELDS_SIZE + Wanted(FrameSize(dataSize))
    case FourPayloads => 4 * Wanted(dataSize)
  }

  /** The sizes for which sender and receiver agree. */
  predicate SizeFits(command: byte, dataSize: u32) {
    match ReadingOf(command)
    case Nothing => dataSize == 0
    case Payload => dataSize < 0x8000_0000
    case VideoFields => FIELDS_SIZE <= dataSize < 0x8000_0000 + FIELDS_SIZE
    case FourPayloads => dataSize == 0
  }

  /** A handler consumes exactly the announced payload if and only if the announced size fits its command. */
  lemma AlignmentIsExact(command: byte, dataSize: u32)
    ensures Consumed(command, dataSize) == dataSize <==> SizeFits(command, dataSize)
  {
    hide HandlerOf;
    WrapCases(dataSize);
    WrapCases(dataSize - FIELDS_SIZE);
  }

  lemma WrapCases(x: int)
    requires -0x8000_0000 <= x < 0x1_0000_0000
    ensures Wrap32(x) == if x < 0x8000_0000 then x else x - 0x1_0000_0000
    ensures Wrap32(Wrap32(x)) == Wrap32(x)
  {
  }

  // ----- messages -----

  datatype Message = Message(header: Header, payload: seq<byte>)

  predicate WellFormed(m: Message) {
    |m.payload| == m.header.dataSize && SizeFits(m.header.command, m.header.dataSize)
  }

  function MessageBytes(m: Message): seq<byte> {
    HeaderBytes(m.header) + m.payload
  }

  function StreamOf(ms: seq<Message>): seq<byte> {
    if ms == [] then [] else MessageBytes(ms[0]) + StreamOf(ms[1..])
  }

  lemma {:induction false} StreamOfConcat(xs: seq<Message>, ys: seq<Message>)
    ensures StreamOf(xs + ys) == StreamOf(xs) + StreamOf(ys)
    decreases |xs|
  {
    if xs == [] {
      assert xs + ys == ys;
    } else {
      assert (xs + ys)[1..] == xs[1..] + ys;
      StreamOfConcat(xs[1..], ys);
    }
  }

  // ----- what the server stores -----

  /** A C string in a zeroed buffer: the bytes before the first NUL. */
  function CString(b: seq<byte>): (s: Str)
    ensures NulFree(s) && s <= b
    ensures |s| < |b| ==> b[|s|] == 0
  {
    if b == [] || b[0] == 0 then [] else [b[0]] + CString(b[1..])
  }

  /** A buffer of `size` bytes, zeroed and then filled from the front. */
  function Buffer(data: seq<byte>, size: nat): (b: seq<byte>)
    requires |data| <= size
    ensures |b| == size
  {
    data + Zeros(size - |data|)
  }

  /** Zeros after the data do not show in the C string. */
  lemma {:induction false} CStringInBuffer(data: seq<byte>, size: nat)
    requires |data| <= size
    ensures CString(Buffer(data, size)) == CString(data)
    decreases |data|
  {
    if data == [] {
      assert size > 0 ==> Buffer(data, size)[0] == 0;
    } else {
      assert Buffer(data, size)[1..] == Buffer(data[1..], size - 1);
      CStringInBuffer(data[1..], size - 1);
    }
  }

  /** A string that fits survives its field. */
  lemma {:induction false} CStringOfField(s: Str, size: nat)
    requires NulFree(s) && |s| <= size
    ensures CString(Buffer(s, size)) == s
  {
    CStringInBuffer(s, size);
    CStringOfString(s);
  }

  lemma {:induction false} CStringOfString(s: Str)
    requires NulFree(s)
    ensures CString(s) == s
  {
    if s != [] {
      CStringOfString(s[1..]);
    }
  }

  datatype Row = Row(cid: Str, hash: Str, signedHash: Str)

  /** Stored frames, rows of the video table, public keys, texts of share requests and the test file. */
  datatype Store = Store(files: map<Str, seq<byte>>, rows: seq<Row>, keys: seq<Str>,
                         shareRequests: seq<Str>, testFile: seq<byte>)

  function StoreVideo(st: Store, cid: seq<byte>, hash: seq<byte>, signedHash: seq<byte>, frame: seq<byte>): Store {
    st.(files := st.files[CString(cid) := frame],
        rows := st.rows + [Row(CString(cid), CString(hash), CString(signedHash))])
  }

  /** What the handlers that read one payload keep of it. */
  function Keep(st: Store, handler: Handler, payload: seq<byte>): Store {
    match handler
    case PublicKeyRequest => st.(keys := st.keys + [CString(payload)])
    case Test => st.(testFile := payload)
    case TestGenShares => st.(shareRequests := st.shareRequests + [CString(payload)])
    case _ => st
  }

  /** The effect of one well-formed message on what is stored. */
  function Effect(st: Store, m: Message): Store
    requires WellFormed(m)
  {
    var p := m.payload;
    match HandlerOf(m.header.command)
    case None => st
    case Some(VideoDataSend) => StoreVideo(st, p[..23], p[23..87], p[87..437], p[437..])
    case Some(handler) => Keep(st, handler, p)
  }

  function Effects(st: Store, ms: seq<Message>): Store
    requires forall i :: 0 <= i < |ms| ==> WellFormed(ms[i])
    decreases |ms|
  {
    if ms == [] then st else Effect(Effects(st, ms[..|ms| - 1]), ms[|ms| - 1])
  }

  // ----- what the commands do, by their codes -----

  /** The codes with a handler, and their handlers. */
  lemma HandlersByCode(c: byte)
    ensures c == 0x01 ==> HandlerOf(c) == Some(PublicKeyRequest)
    ensures c == 0xf1 ==> HandlerOf(c) == Some(PublicKeyResponse)
    ensures c == 0x02 ==> HandlerOf(c) == Some(VideoDataSend)
    ensures c == 0xf2 ==> HandlerOf(c) == Some(VideoDataResponse)
    ensures c == 0x03 ==> HandlerOf(c) == Some(VerifyRequest)
    ensures c == 0xf3 ==> HandlerOf(c) == Some(VerifyResponse)
    ensures c == 0x04 ==> HandlerOf(c) == Some(VerifyToProver)
    ensures c == 0xf4 ==> HandlerOf(c) == Some(ProverResponse)
    ensures c == 0x09 ==> HandlerOf(c) == Some(HiIAm)
    ensures c == 0xf9 ==> HandlerOf(c) == Some(NiceToMeetYou)
    ensures c == 0x80 ==> HandlerOf(c) == Some(GenerateAes)
    ensures c == 0x82 ==> HandlerOf(c) == Some(ShareRequested)
    ensures c == 0x83 ==> HandlerOf(c) == Some(ShareResponse)
    ensures c == 0x84 ==> HandlerOf(c) == Some(AnotherShareRequest)
    ensures c == 0x85 ==> HandlerOf(c) == Some(AnotherShareResponse)
    ensures c == 0xff ==> HandlerOf(c) == Some(Test)
    ensures c == 0xe0 ==> HandlerOf(c) == Some(TestGenShares)
    ensures c == 0xe1 ==> HandlerOf(c) == Some(GenShareRes)
    ensures c == 0xe2 ==> HandlerOf(c) == Some(TestShareReq)
    ensures c == 0xe3 ==> HandlerOf(c) == Some(TestShareRes)
    ensures HandlerOf(c) != None ==>
              c in {0x01, 0xf1, 0x02, 0xf2, 0x03, 0xf3, 0x04, 0xf4, 0x09, 0xf9,
                    0x80, 0x82, 0x83, 0x84, 0x85, 0xff, 0xe0, 0xe1, 0xe2, 0xe3}
  {
    hide FirstEntry;
    if HandlerOf(c).Some? {
      var k :| 0 <= k < 20 && Table()[k] == (c, HandlerOf(c).value);
    } else {
      var t := Table();
      assert t[0].0 != c && t[1].0 != c && t[2].0 != c && t[3].0 != c && t[4].0 != c;
      assert t[5].0 != c && t[6].0 != c && t[7].0 != c && t[8].0 != c && t[9].0 != c;
      assert t[10].0 != c && t[11].0 != c && t[12].0 != c && t[13].0 != c && t[14].0 != c;
      assert t[15].0 != c && t[16].0 != c && t[17].0 != c && t[18].0 != c && t[19].0 != c;
    }
  }

  /** Other codes have none of the handlers that read or keep anything. */
  lemma OtherCodes(c: byte)
    requires c !in {0x01, 0xf1, 0x82, 0x83, 0x84, 0xff, 0xe0, 0x02, 0x85}
    ensures ReadingOf(c) == Nothing
    ensures HandlerOf(c) != Some(PublicKeyRequest) && HandlerOf(c) != Some(VideoDataSend)
    ensures HandlerOf(c) != Some(Test) && HandlerOf(c) != Some(TestGenShares)
  {
    hide FirstEntry;
  }

  /** How much is read for which code. */
  lemma ConsumedByCode(c: byte, n: u32)
    ensures c in {0x01, 0xf1, 0x82, 0x83, 0x84, 0xff, 0xe0} ==>
              Consumed(c, n) == if n < 0x8000_0000 then n else 0
    ensures c == 0x02 && 437 <= n < 0x8000_0000 + 437 ==> Consumed(c, n) == n
    ensures c == 0x85 && n < 0x8000_0000 ==> Consumed(c, n) == 4 * n
    ensures c !in {0x01, 0xf1, 0x82, 0x83, 0x84, 0xff, 0xe0, 0x02, 0x85} ==> Consumed(c, n) == 0
  {
    hide HandlerOf, Wrap32;
    HandlersByCode(c);
    if c !in {0x01, 0xf1, 0x82, 0x83, 0x84, 0xff, 0xe0, 0x02, 0x85} {
      OtherCodes(c);
    }
    WrapCases(n);
    WrapCases(n - FIELDS_SIZE);
  }

  /** What a message leaves in the store, by its code. */
  lemma EffectByCode(st: Store, m: Message)
    requires WellFormed(m)
    ensures var c, p := m.header.command, m.payload;
            && (c == 0x01 ==> Effect(st, m) == st.(keys := st.keys + [CString(p)]))
            && (c == 0xff ==> Effect(st, m) == st.(testFile := p))
            && (c == 0xe0 ==> Effect(st, m) == st.(shareRequests := st.shareRequests + [CString(p)]))
            && (c == 0x02 ==> |p| >= 437 && Effect(st, m) == StoreVideo(st, p[..23], p[23..87], p[87..437], p[437..]))
            && (c !in {0x01, 0x02, 0xe0, 0xff} ==> Effect(st, m) == st)
  {
    hide CString, StoreVideo, HandlerOf;
    var c := m.header.command;
    HandlersByCode(c);
    if c !in {0x01, 0xf1, 0x82, 0x83, 0x84, 0xff, 0xe0, 0x02, 0x85} {
      OtherCodes(c);
    }
  }

  /** The C strings in the payloads of the messages with a given code, in order. */
  function TextsOf(ms: seq<Message>, c: byte): seq<Str> {
    if ms == [] then []
    else TextsOf(ms[..|ms| - 1], c) +
         if ms[|ms| - 1].header.command == c then [CString(ms[|ms| - 1].payload)] else []
  }

  /** Keys come from the messages with code 0x01, share requests from those with 0xe0, all in order. */
  lemma {:induction false} EffectsByCode(st: Store, ms: seq<Message>)
    requires forall i :: 0 <= i < |ms| ==> WellFormed(ms[i])
    ensures Effects(st, ms).keys == st.keys + TextsOf(ms, 0x01)
    ensures Effects(st, ms).shareRequests == st.shareRequests + TextsOf(ms, 0xe0)
  {
    hide CString, Effect, WellFormed;
    if ms != [] {
      var n := |ms| - 1;
      EffectsByCode(st, ms[..n]);
      EffectByCode(Effects(st, ms[..n]), ms[n]);
    }
  }
}
