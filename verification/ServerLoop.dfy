/** The server: command handlers as consumers of the stream, and the loop that dispatches them. */
module ServerLoop {
  import opened Bytes
  import opened Bits
  import opened Protocol
  import opened Wire

  /** What four receives in a row took for the fields of a video message. */
  datatype Fields = Fields(cid: seq<byte>, hash: seq<byte>, signedHash: seq<byte>, frame: seq<byte>)
  {
    function All(): seq<byte> { cid + hash + signedHash + frame }

    /** No field took more than its size; the frame is the rest of `total` bytes. */
    predicate Within(total: nat) {
      && |cid| <= CID_SIZE && |hash| <= HASH_SIZE && |signedHash| <= SIGNED_HASH_SIZE
      && |frame| <= total - FIELDS_SIZE
    }
  }

  /**
   * A video message of `total` payload bytes of which `taken` were received: the store keeps what came for each
   * field, and a frame filled up with zeros.
   */
  ghost predicate VideoStored(before: Store, after: Store, total: nat, taken: seq<byte>) {
    exists f: Fields ::
      && f.Within(total) && taken == f.All()
      && after == StoreVideo(before, f.cid, f.hash, f.signedHash, Buffer(f.frame, total - FIELDS_SIZE))
  }

  class Server {
    const port: Inbound
    var store: Store

    constructor (port: Inbound, store: Store)
      ensures this.port == port && this.store == store
    {
      this.port, this.store := port, store;
    }

    /**
     * Receives `size` bytes into a zeroed buffer of `capacity` bytes. After a failed receive the buffer holds
     * what came before it.
     */
    method Fill(size: int, capacity: nat) returns (ok: bool, buffer: seq<byte>, ghost taken: seq<byte>)
      requires Wanted(size) <= capacity
      modifies port
      ensures port.failures == old(port.failures) + if ok then 0 else 1
      ensures taken + port.Stream() == old(port.Stream())
      ensures if ok then |taken| == Wanted(size) else |taken| < Wanted(size)
      ensures buffer == Buffer(taken, capacity)
      ensures port.reliable && Wanted(size) <= |old(port.Stream())| ==> ok
    {
      var data;
      ok, data := RecvBinary(port, size);
      buffer := Buffer(data, capacity);
      taken := data;
    }

    /** The four receives of `video_data_send`: one buffer for each field, and what came for it. */
    method ReceiveFields(dataSize: u32) returns (ok: bool, cidBuffer: seq<byte>, hashBuffer: seq<byte>,
                                                 signedBuffer: seq<byte>, frameBuffer: seq<byte>, ghost f: Fields)
      requires SizeFits(VIDEO_DATA_SND, dataSize)
      modifies port
      ensures port.failures >= old(port.failures) && (ok <==> port.failures == old(port.failures))
      ensures f.All() + port.Stream() == old(port.Stream())
      ensures f.Within(dataSize) && if ok then |f.All()| == dataSize else |f.All()| < dataSize
      ensures cidBuffer == Buffer(f.cid, dataSize) && hashBuffer == Buffer(f.hash, dataSize)
      ensures signedBuffer == Buffer(f.signedHash, dataSize) && frameBuffer == Buffer(f.frame, dataSize)
      ensures port.reliable && dataSize <= |old(port.Stream())| ==> ok
    {
      hide Buffer, Wrap32, Wanted, SizeFits, Fields.All;
      WantedSizes(dataSize);
      var ok1, ok2, ok3, ok4;
      ghost var got1, got2, got3, got4;
      ghost var s0 := port.Stream();
      ok1, cidBuffer, got1 := Fill(CID_SIZE, dataSize);
      ghost var s1 := port.Stream();
      ok2, hashBuffer, got2 := Fill(HASH_SIZE, dataSize);
      ghost var s2 := port.Stream();
      ok3, signedBuffer, got3 := Fill(SIGNED_HASH_SIZE, dataSize);
      ghost var s3 := port.Stream();
      ok4, frameBuffer, got4 := Fill(FrameSize(dataSize), dataSize);
      ok := ok1 && ok2 && ok3 && ok4;
      f := Fields(got1, got2, got3, got4);
      InARow(s0, f, s1, s2, s3, port.Stream());
    }

    /**
     * `video_data_send`: three fixed fields, then the frame. `ok` says that no receive failed, which
     * the handler itself does not check: it stores whatever came.
     */
    method HandleVideo(h: Header) returns (ok: bool, ghost taken: seq<byte>)
      requires SizeFits(VIDEO_DATA_SND, h.dataSize)
      modifies this`store, port
      ensures port.failures >= old(port.failures) && (ok <==> port.failures == old(port.failures))
      ensures taken + port.Stream() == old(port.Stream())
      ensures if ok then |taken| == h.dataSize else |taken| < h.dataSize
      ensures VideoStored(old(store), store, h.dataSize, taken)
      ensures port.reliable && h.dataSize <= |old(port.Stream())| ==> ok
    {
      hide CString, Buffer, Wrap32, StoreVideo, Wanted, SizeFits, VideoStored, Fields.All, Fields.Within;
      ghost var before := store;
      WantedSizes(h.dataSize);
      var cidBuffer, hashBuffer, signedBuffer, frameBuffer;
      ghost var f;
      ok, cidBuffer, hashBuffer, signedBuffer, frameBuffer, f := ReceiveFields(h.dataSize);
      taken := f.All();
      var cid, hash, signedHash := CString(cidBuffer), CString(hashBuffer), CString(signedBuffer);
      var frame := frameBuffer[..FrameSize(h.dataSize)];
      store := store.(rows := store.rows + [Row(cid, hash, signedHash)], files := store.files[cid := frame]);
      Inserted(before, cidBuffer, hashBuffer, signedBuffer, frame);
      WhatIsStored(before, f, h.dataSize);
    }

    /**
     * The handlers that read one payload; three of them keep something of it, if it came. A size of 2^31 or more
     * turns negative on the way to `recv_binary`, and then nothing is read.
     */
    method HandlePayload(handler: Handler, h: Header) returns (ok: bool, ghost taken: seq<byte>)
      modifies this`store, port
      ensures port.failures >= old(port.failures) && (ok <==> port.failures == old(port.failures))
      ensures taken + port.Stream() == old(port.Stream())
      ensures if ok then |taken| == Wanted(h.dataSize) else |taken| < Wanted(h.dataSize)
      ensures ok && h.dataSize < 0x8000_0000 ==> store == Keep(old(store), handler, taken)
      ensures !ok ==> store == old(store)
      ensures port.reliable && Wanted(h.dataSize) <= |old(port.Stream())| ==> ok
    {
      hide CString;
      WrapCases(h.dataSize);
      var buffer;
      ok, buffer, taken := Fill(h.dataSize, h.dataSize);
      if !ok {
        return;
      }
      assert h.dataSize < 0x8000_0000 ==> buffer == taken;
      match handler {
        case PublicKeyRequest => store := store.(keys := store.keys + [CString(buffer)]);
        case Test => store := store.(testFile := buffer);
        case TestGenShares => store := store.(shareRequests := store.shareRequests + [CString(buffer)]);
        case _ =>
      }
    }

    /** `another_share_response`: asks for four payloads of the announced size. */
    method HandleFour(h: Header) returns (ok: bool, ghost taken: seq<byte>)
      modifies port
      ensures port.failures >= old(port.failures) && (ok <==> port.failures == old(port.failures))
      ensures taken + port.Stream() == old(port.Stream())
      ensures if ok then |taken| == 4 * Wanted(h.dataSize) else |taken| < 4 * Wanted(h.dataSize)
      ensures port.reliable && 4 * Wanted(h.dataSize) <= |old(port.Stream())| ==> ok
    {
      hide Wrap32, Wanted, Buffer;
      ghost var n := Wanted(h.dataSize);
      WantedFits(h.dataSize);
      ok, taken := true, [];
      for i := 0 to 4
        invariant ok && port.failures == old(port.failures)
        invariant taken + port.Stream() == old(port.Stream()) && |taken| == i * n
      {
        var buffer;
        ghost var part;
        ok, buffer, part := Fill(h.dataSize, h.dataSize);
        taken := taken + part;
        Times(i, n);
        if !ok {
          return;
        }
      }
    }

    /**
     * `cmd_parser`: looks the command up and runs its handler; -1 when there is none. Only a video message
     * has to be long enough for its fields. The handler consumes what `Consumed` says, whatever was
     * announced, or less when a receive fails; a message whose size fits has the effect of its payload.
     */
    method CmdParser(h: Header) returns (ret: int, ok: bool, ghost taken: seq<byte>)
      requires h.command == VIDEO_DATA_SND ==> SizeFits(VIDEO_DATA_SND, h.dataSize)
      modifies this`store, port
      ensures ret == if HandlerOf(h.command) == None then -1 else 0
      ensures port.failures >= old(port.failures) && (ok <==> port.failures == old(port.failures))
      ensures taken + port.Stream() == old(port.Stream())
      ensures if ok then |taken| == Consumed(h.command, h.dataSize) else |taken| < Consumed(h.command, h.dataSize)
      ensures ok && SizeFits(h.command, h.dataSize) ==>
                |taken| == h.dataSize && store == Effect(old(store), Message(h, taken))
      ensures !ok ==> CutShort(old(store), store, h, taken)
      ensures port.reliable && Consumed(h.command, h.dataSize) <= |old(port.Stream())| ==> ok
    {
      hide CString, Wrap32, Wanted, StoreVideo, VideoStored;
      ok, taken := true, [];
      AlignmentIsExact(h.command, h.dataSize);
      var handler := FindHandler(h.command);
      if handler == None {
        return -1, true, [];
      }
      var reading := ReadingOf(h.command);
      ReadingTells(h.command);
      if reading == VideoFields {
        ghost var before := store;
        ok, taken := HandleVideo(h);
        if ok {
          WholeVideo(before, store, h, taken);
        }
      } else if reading == Payload {
        ok, taken := HandlePayload(handler.value, h);
      } else if reading == FourPayloads {
        ok, taken := HandleFour(h);
      }
      ret := 0;
    }

    /**
     * The loop of `ClientServiceThread` on a stream of well-formed messages; k of them are served. It only
     * stops when less than a header is there to be read, so once everything has arrived it has served every
     * message and left nothing; on a reliable port that is what happens. `ok` says that no receive of a handler
     * failed; then the keys have grown by the payloads of the messages with code 0x01, in order. If a receive did
     * fail, it was that of message k, of which only `taken` came.
     */
    method Serve(ghost ms: seq<Message>) returns (ghost k: nat, ok: bool, ghost taken: seq<byte>)
      requires forall i :: 0 <= i < |ms| ==> WellFormed(ms[i])
      requires port.Stream() == StreamOf(ms)
      modifies this`store, port
      ensures k <= |ms|
      ensures port.failures >= old(port.failures) && (ok <==> port.failures == old(port.failures))
      ensures ok ==> store == Effects(old(store), ms[..k]) && port.Stream() == StreamOf(ms[k..])
      ensures ok ==> |port.arrived| < HEADER_SIZE
      ensures ok && port.coming == [] ==> k == |ms| && port.Stream() == []
      ensures port.reliable ==> ok && k == |ms| && port.Stream() == []
      ensures ok ==> store.keys == old(store).keys + TextsOf(ms[..k], 0x01)
      ensures ok ==> store.shareRequests == old(store).shareRequests + TextsOf(ms[..k], 0xe0)
      ensures !ok ==> && k < |ms| && |taken| < |ms[k].payload|
                      && taken + port.Stream() == ms[k].payload + StreamOf(ms[k + 1..])
                      && CutShort(Effects(old(store), ms[..k]), store, ms[k].header, taken)
    {
      hide SizeFits, Effect, StreamOf, HandlerOf, HeaderBytes, ParseHeader, Effects, CutShort, Consumed, TextsOf;
      k, ok, taken := 0, true, [];
      EffectsNothing(store);
      var sendRetryCnt := 5;
      assert ms[0..] == ms && ms[..0] == [];
      while true
        invariant k <= |ms| && ok && sendRetryCnt == 5 && port.failures == old(port.failures)
        invariant port.Stream() == StreamOf(ms[k..])
        invariant store == Effects(old(store), ms[..k])
        decreases |ms| - k
      {
        var got, buf;
        ghost var tries;
        got, buf, tries := ReceiveHeader(port);
        if !got {
          break;
        }
        NextMessage(ms, k, buf, port.Stream());
        var h := ParseHeader(buf);
        ghost var before := port.Stream();
        var ret;
        AlignmentIsExact(h.command, h.dataSize);
        ret, ok, taken := CmdParser(h);
        if !ok {
          return;
        }
        SamePlace(taken, port.Stream(), ms[k].payload, StreamOf(ms[k + 1..]));
        EffectsNext(old(store), ms, k);
        assert Message(h, taken) == ms[k];
        k := k + 1;
        if ret == -1 {
          continue;
        } else {
          sendRetryCnt := sendRetryCnt - 1;
          if sendRetryCnt == 0 {
            assert false;
            break;
          }
        }
        sendRetryCnt := 5;
      }
      RestIsLong(ms, k);
      EffectsByCode(old(store), ms[..k]);
    }
  }

  /** What a handler leaves behind when a receive fails: a video handler stores what came, the others nothing. */
  ghost predicate CutShort(before: Store, after: Store, h: Header, taken: seq<byte>) {
    if h.command == VIDEO_DATA_SND then VideoStored(before, after, h.dataSize, taken) else after == before
  }

  /**
   * Waits for the next header, trying six times: it arrives in one piece or not at all. `got` is false
   * when less than a header came before the time-out.
   */
  method ReceiveHeader(port: Inbound) returns (got: bool, buf: seq<byte>, ghost tries: nat)
    modifies port
    ensures 1 <= tries <= 6 && (!got ==> tries == 6)
    ensures |buf| == HEADER_SIZE && port.failures == old(port.failures)
    ensures !got ==> |port.arrived| < HEADER_SIZE
    ensures port.reliable && HEADER_SIZE <= |old(port.Stream())| ==> got
    ensures if got then buf + port.Stream() == old(port.Stream()) else port.Stream() == old(port.Stream())
  {
    var retryCnt := 5;
    buf, tries := Zeros(HEADER_SIZE), 0;
    while true
      invariant 0 <= retryCnt <= 5 && tries == 5 - retryCnt
      invariant |buf| == HEADER_SIZE && port.Stream() == old(port.Stream()) && port.failures == old(port.failures)
      decreases retryCnt
    {
      port.Arrive(HEADER_SIZE);
      tries := tries + 1;
      if HEADER_SIZE <= |port.arrived| {
        buf := port.arrived[..HEADER_SIZE];
        port.arrived := port.arrived[HEADER_SIZE..];
        return true, buf, tries;
      }
      if retryCnt <= 0 {
        return false, buf, tries;
      }
      retryCnt := retryCnt - 1;
    }
  }

  lemma WantedFits(dataSize: u32)
    ensures Wanted(dataSize) <= dataSize
  {
    WrapCases(dataSize);
  }

  lemma Times(i: nat, n: nat)
    requires i < 4
    ensures i * n + n == (i + 1) * n <= 4 * n
  {
  }

  lemma WantedSizes(dataSize: u32)
    requires SizeFits(VIDEO_DATA_SND, dataSize)
    ensures FIELDS_SIZE <= dataSize < 0x8000_0000 + FIELDS_SIZE
    ensures Wanted(CID_SIZE) == 23 && Wanted(HASH_SIZE) == 64 && Wanted(SIGNED_HASH_SIZE) == 350
    ensures FrameSize(dataSize) == dataSize - FIELDS_SIZE == Wanted(FrameSize(dataSize))
  {
    ReadingTells(VIDEO_DATA_SND);
    hide HandlerOf, ReadingOf;
    WrapCases(dataSize - FIELDS_SIZE);
    WrapCases(23);
    WrapCases(64);
    WrapCases(350);
  }

  /** Four receives in a row take what they took from the front of the stream. */
  lemma InARow(s0: seq<byte>, f: Fields, s1: seq<byte>, s2: seq<byte>, s3: seq<byte>, s4: seq<byte>)
    requires f.cid + s1 == s0 && f.hash + s2 == s1 && f.signedHash + s3 == s2 && f.frame + s4 == s3
    ensures f.All() + s4 == s0
    ensures |f.All()| == |f.cid| + |f.hash| + |f.signedHash| + |f.frame|
  {
    assert f.All() + s4 == f.cid + (f.hash + (f.signedHash + (f.frame + s4)));
  }

  lemma Inserted(st: Store, cid: seq<byte>, hash: seq<byte>, signedHash: seq<byte>, frame: seq<byte>)
    ensures st.(rows := st.rows + [Row(CString(cid), CString(hash), CString(signedHash))],
                files := st.files[CString(cid) := frame])
         == StoreVideo(st, cid, hash, signedHash, frame)
  {
    hide CString;
  }

  /** Zeros behind the received part of a buffer do not show in what is stored. */
  lemma WhatIsStored(before: Store, f: Fields, n: nat)
    requires FIELDS_SIZE <= n && f.Within(n)
    ensures VideoStored(before, StoreVideo(before, Buffer(f.cid, n), Buffer(f.hash, n), Buffer(f.signedHash, n),
                                           Buffer(f.frame, n)[..n - FIELDS_SIZE]), n, f.All())
  {
    hide CString;
    CStringInBuffer(f.cid, n);
    CStringInBuffer(f.hash, n);
    CStringInBuffer(f.signedHash, n);
    assert Buffer(f.frame, n)[..n - FIELDS_SIZE] == Buffer(f.frame, n - FIELDS_SIZE);
  }

  /** When all of a video message came, its fields are those of the payload. */
  lemma WholeVideo(before: Store, after: Store, h: Header, payload: seq<byte>)
    requires h.command == VIDEO_DATA_SND && SizeFits(VIDEO_DATA_SND, h.dataSize) && |payload| == h.dataSize
    requires VideoStored(before, after, h.dataSize, payload)
    ensures WellFormed(Message(h, payload)) && after == Effect(before, Message(h, payload))
  {
    hide CString, StoreVideo;
    ReadingTells(VIDEO_DATA_SND);
    var f: Fields :| f.Within(h.dataSize) && payload == f.All()
      && after == StoreVideo(before, f.cid, f.hash, f.signedHash, Buffer(f.frame, h.dataSize - FIELDS_SIZE));
    FieldsOfPayload(f.cid, f.hash, f.signedHash, f.frame);
    assert Buffer(f.frame, |f.frame|) == f.frame;
  }

  lemma FieldsOfPayload(a: seq<byte>, b: seq<byte>, c: seq<byte>, image: seq<byte>)
    requires |a| == 23 && |b| == 64 && |c| == 350
    ensures var p := a + b + c + image;
            p[..23] == a && p[23..87] == b && p[87..437] == c && p[437..] == image
  {
  }

  lemma SamePlace(a: seq<byte>, s: seq<byte>, b: seq<byte>, t: seq<byte>)
    requires a + s == b + t && |a| == |b|
    ensures a == b && s == t
  {
    assert (a + s)[..|a|] == a && (b + t)[..|b|] == b;
    assert (a + s)[|a|..] == s && (b + t)[|b|..] == t;
  }

  /** Only one handler reads the video fields, and only one command has it. */
  lemma ReadingTells(command: byte)
    ensures ReadingOf(command) == VideoFields <==> command == VIDEO_DATA_SND
    ensures HandlerOf(command) == Some(VideoDataSend) <==> command == VIDEO_DATA_SND
  {
    hide FirstEntry;
    assert Table()[2] == (VIDEO_DATA_SND, VideoDataSend);
  }

  lemma EffectsNothing(st: Store)
    ensures Effects(st, []) == st
  {
  }

  lemma EffectsNext(st: Store, ms: seq<Message>, k: nat)
    requires k < |ms| && forall i :: 0 <= i < |ms| ==> WellFormed(ms[i])
    ensures Effects(st, ms[..k + 1]) == Effect(Effects(st, ms[..k]), ms[k])
  {
    hide Effect, WellFormed;
    assert ms[..k + 1][..k] == ms[..k];
  }

  /** The header that was received is that of message k, and its payload follows. */
  lemma NextMessage(ms: seq<Message>, k: nat, buf: seq<byte>, rest: seq<byte>)
    requires k <= |ms| && |buf| == HEADER_SIZE && buf + rest == StreamOf(ms[k..])
    ensures k < |ms| && ParseHeader(buf) == ms[k].header && rest == ms[k].payload + StreamOf(ms[k + 1..])
  {
    hide HeaderBytes, ParseHeader;
    assert |buf + rest| >= 8;
    StreamEnds(ms, k);
    assert ms[k..][1..] == ms[k + 1..];
    var b, p, t := HeaderBytes(ms[k].header), ms[k].payload, StreamOf(ms[k + 1..]);
    assert buf + rest == b + p + t;
    assert (buf + rest)[..8] == buf && (b + p + t)[..8] == b;
    assert (buf + rest)[8..] == rest && (b + p + t)[8..] == p + t;
    HeaderRoundTrip(ms[k].header);
  }

  /** Fewer bytes than a header are no message. */
  lemma RestIsLong(ms: seq<Message>, k: nat)
    requires k <= |ms|
    ensures |StreamOf(ms[k..])| < HEADER_SIZE ==> k == |ms| && StreamOf(ms[k..]) == []
  {
    if k < |ms| {
      assert |MessageBytes(ms[k..][0])| >= 8;
    }
  }

  lemma StreamEnds(ms: seq<Message>, k: nat)
    requires k <= |ms|
    ensures StreamOf(ms[k..]) == [] <==> k == |ms|
  {
    if k < |ms| {
      assert |MessageBytes(ms[k..][0])| >= 8;
    }
  }
}
