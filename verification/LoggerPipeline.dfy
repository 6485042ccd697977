/** The Logger: queues from captured frames to signed hashes, and the sending loop. */
module LoggerPipeline {
  import opened Bytes
  import opened HashText
  import opened FrameHash
  import opened Protocol
  import opened Wire

  /** What OpenCV and OpenSSL compute, left open: colour conversions, edge detection, signatures. */
  datatype Lab = Lab(toYuv: Mat -> Mat, toY: Mat -> Mat, canny: Mat -> Mat, sign: Str -> Str)
  {
    function Grey(frame: Mat): Mat { toY(toYuv(frame)) }

    function EdgeMap(frame: Mat): Mat { canny(Grey(frame)) }

    function HashOf(frame: Mat): (h: Str)
      ensures |h| == 64
    {
      MatHash(EdgeMap(frame))
    }

    /** The library results that the Logger relies on, for one frame whose YUV data has `size` bytes. */
    ghost predicate Handles(frame: Mat, size: nat) {
      && |toYuv(frame).data| == size
      && size == toYuv(frame).rows * toYuv(frame).cols * toYuv(frame).channels
      && SingleChannel(EdgeMap(frame))
      && NulFree(sign(HashOf(frame))) && |sign(HashOf(frame))| <= SIGNED_HASH_SIZE
    }
  }

  /** A function applied along a queue. */
  function Mapped<T, U>(f: T -> U, s: seq<T>): (r: seq<U>)
    ensures |r| == |s|
  {
    seq(|s|, i requires 0 <= i < |s| => f(s[i]))
  }

  lemma MappedNext<T, U>(f: T -> U, s: seq<T>, k: nat)
    requires k < |s|
    ensures Mapped(f, s[..k + 1]) == Mapped(f, s[..k]) + [f(s[k])]
  {
  }

  // ----- capturing -----

  /** The sum of every third byte, from byte c on: one colour channel. */
  function ChannelSum(data: seq<byte>, c: nat): nat {
    if data == [] then 0
    else ChannelSum(data[..|data| - 1], c) + if (|data| - 1) % 3 == c then data[|data| - 1] else 0
  }

  /** A frame is kept when it is not empty and not dark. */
  predicate Kept(frame: Mat) {
    frame.data != [] && (ChannelSum(frame.data, 0) + ChannelSum(frame.data, 1) + ChannelSum(frame.data, 2)) / 3 != 0
  }

  function KeptFrames(feed: seq<Mat>): (r: seq<Mat>)
    ensures |r| <= |feed|
  {
    if feed == [] then []
    else KeptFrames(feed[..|feed| - 1]) + if Kept(feed[|feed| - 1]) then [feed[|feed| - 1]] else []
  }

  /** More of the feed only adds frames at the end. */
  lemma {:induction false} KeptPrefix(feed: seq<Mat>, k: nat)
    requires k <= |feed|
    ensures KeptFrames(feed[..k]) <= KeptFrames(feed)
  {
    if k < |feed| {
      KeptPrefix(feed[..|feed| - 1], k);
      assert feed[..|feed| - 1][..k] == feed[..k];
    } else {
      assert feed[..k] == feed;
    }
  }

  lemma KeptNext(feed: seq<Mat>, n: nat)
    requires n < |feed|
    ensures KeptFrames(feed[..n + 1]) == KeptFrames(feed[..n]) + if Kept(feed[n]) then [feed[n]] else []
  {
    hide Kept;
    assert feed[..n + 1][..n] == feed[..n];
  }

  lemma NothingKept()
    ensures KeptFrames([]) == []
  {
  }

  /** The plain sum of all bytes. */
  function Total(data: seq<byte>): nat {
    if data == [] then 0 else Total(data[..|data| - 1]) + data[|data| - 1]
  }

  lemma {:induction false} ChannelsTogether(data: seq<byte>)
    ensures ChannelSum(data, 0) + ChannelSum(data, 1) + ChannelSum(data, 2) == Total(data)
  {
    if data != [] {
      ChannelsTogether(data[..|data| - 1]);
    }
  }

  /** A frame is kept exactly when its bytes add up to at least three; so an empty or black one never is. */
  lemma KeptExactly(f: Mat)
    ensures Kept(f) <==> Total(f.data) >= 3
    ensures f.data == [] || (forall i :: 0 <= i < |f.data| ==> f.data[i] == 0) ==> !Kept(f)
  {
    ChannelsTogether(f.data);
    if forall i :: 0 <= i < |f.data| ==> f.data[i] == 0 {
      TotalOfBlack(f.data);
    }
  }

  lemma {:induction false} TotalOfBlack(data: seq<byte>)
    requires forall i :: 0 <= i < |data| ==> data[i] == 0
    ensures Total(data) == 0
  {
    if data != [] {
      TotalOfBlack(data[..|data| - 1]);
    }
  }

  /** The two laws that fix what is kept of every feed: piece by piece in order, and of one frame by its sum. */
  lemma KeptLaws(x: seq<Mat>, y: seq<Mat>, f: Mat)
    ensures KeptFrames(x + y) == KeptFrames(x) + KeptFrames(y)
    ensures KeptFrames([]) == [] && KeptFrames([f]) == if Total(f.data) >= 3 then [f] else []
  {
    hide Kept;
    KeptConcat(x, y);
    KeptExactly(f);
    assert [f][..0] == [];
    assert KeptFrames([f]) == KeptFrames([]) + if Kept(f) then [f] else [];
  }

  lemma {:induction false} KeptConcat(x: seq<Mat>, y: seq<Mat>)
    ensures KeptFrames(x + y) == KeptFrames(x) + KeptFrames(y)
    decreases |y|
  {
    hide Kept;
    if y == [] {
      assert x + y == x;
    } else {
      assert (x + y)[..|x + y| - 1] == x + y[..|y| - 1];
      KeptConcat(x, y[..|y| - 1]);
    }
  }

  lemma {:induction false} KeptAreBright(feed: seq<Mat>)
    ensures forall i :: 0 <= i < |KeptFrames(feed)| ==> Total(KeptFrames(feed)[i].data) >= 3
  {
    hide Kept, Total;
    if feed != [] {
      KeptAreBright(feed[..|feed| - 1]);
      KeptExactly(feed[|feed| - 1]);
    }
  }

  // ----- messages -----

  /** The first bytes of a video message: from the Logger to the Server, code, data type; then the payload's size. */
  lemma VideoHeader(cid: Str, hash: Str, signedHash: Str, image: seq<byte>)
    requires |cid| <= 23 && |hash| <= 64 && |signedHash| <= 350 && |image| < 0x8000_0000
    ensures var m := VideoMessage(cid, hash, signedHash, image);
            && MessageBytes(m)[..4] == [0x10, 0x12, 0x02, 0xa1]
            && m.header.dataSize == |m.payload| == 23 + 64 + 350 + |image|
  {
    hide Buffer;
  }

  /** One frame on the wire: header, three zero-filled fields, image. */
  function VideoMessage(cid: Str, hash: Str, signedHash: Str, image: seq<byte>): Message
    requires |cid| <= CID_SIZE && |hash| <= HASH_SIZE && |signedHash| <= SIGNED_HASH_SIZE
    requires |image| < 0x8000_0000
  {
    Message(Header(LOGGER, SERVER, VIDEO_DATA_SND, UCHAR, FIELDS_SIZE + |image|),
            Buffer(cid, CID_SIZE) + Buffer(hash, HASH_SIZE) + Buffer(signedHash, SIGNED_HASH_SIZE) + image)
  }

  /** Strings that fit a field of `size` bytes. */
  predicate Fit(strings: seq<Str>, size: nat) {
    forall i :: 0 <= i < |strings| ==> NulFree(strings[i]) && |strings[i]| <= size
  }

  /** Four queues of equal length whose entries fit a message. */
  ghost predicate Sendable(cids: seq<Str>, hashes: seq<Str>, signed: seq<Str>, yuvs: seq<Mat>, size: nat) {
    && |cids| == |hashes| == |signed| == |yuvs| && size < 0x8000_0000
    && Fit(cids, CID_SIZE) && Fit(hashes, HASH_SIZE) && Fit(signed, SIGNED_HASH_SIZE)
    && forall i :: 0 <= i < |yuvs| ==> |yuvs[i].data| == size
  }

  /** The messages that are made of the queues' entries, place by place. */
  ghost function QueueMessages(cids: seq<Str>, hashes: seq<Str>, signed: seq<Str>, yuvs: seq<Mat>, size: nat)
    : (ms: seq<Message>)
    requires Sendable(cids, hashes, signed, yuvs, size)
    ensures |ms| == |cids|
  {
    seq(|cids|, i requires 0 <= i < |cids| => VideoMessage(cids[i], hashes[i], signed[i], yuvs[i].data))
  }

  class Logger {
    const lab: Lab
    const port: Outbound
    var bgrQueue: seq<Mat>
    var yuvQueue: seq<Mat>
    var yQueue: seq<Mat>
    var featureQueue: seq<Mat>
    var hashQueue: seq<Str>
    var signedQueue: seq<Str>
    var cidQueue: seq<Str>

    ghost predicate Empty()
      reads this
    {
      && bgrQueue == [] && yuvQueue == [] && yQueue == [] && featureQueue == []
      && hashQueue == [] && signedQueue == [] && cidQueue == []
    }

    constructor (lab: Lab, port: Outbound)
      ensures this.lab == lab && this.port == port && Empty()
    {
      this.lab, this.port := lab, port;
      bgrQueue, yuvQueue, yQueue, featureQueue := [], [], [], [];
      hashQueue, signedQueue, cidQueue := [], [], [];
    }

    /**
     * Looks at one camera frame after another, gives each kept frame the next content id, and stops at
     * `frameCount` kept frames.
     */
    method Capture(feed: seq<Mat>, clock: seq<Str>, frameCount: nat)
      requires bgrQueue == [] && cidQueue == []
      requires 1 <= frameCount <= |KeptFrames(feed)| && frameCount <= |clock|
      modifies this`bgrQueue, this`cidQueue
      ensures bgrQueue == KeptFrames(feed)[..frameCount] && cidQueue == clock[..frameCount]
      ensures forall i :: 0 <= i < frameCount ==> Total(bgrQueue[i].data) >= 3
    {
      hide ChannelSum, KeptFrames, Total;
      var n := 0;
      assert feed[..|feed|] == feed;
      NothingKept();
      while true
        invariant 0 <= n <= |feed|
        invariant bgrQueue == KeptFrames(feed[..n]) && |bgrQueue| < frameCount
        invariant cidQueue == clock[..|bgrQueue|]
        decreases |feed| - n
      {
        var currentFrame := feed[n];
        KeptNext(feed, n);
        n := n + 1;
        var data := currentFrame.data;
        var sum1, sum2, sum3 := ChannelSum(data, 0), ChannelSum(data, 1), ChannelSum(data, 2);
        var elementmean := (sum1 + sum2 + sum3) / 3;
        if currentFrame.data != [] {
          if elementmean != 0 {
            cidQueue := cidQueue + [clock[|bgrQueue|]];
            bgrQueue := bgrQueue + [currentFrame];
          }
        }
        if |bgrQueue| == frameCount {
          break;
        }
      }
      KeptPrefix(feed, n);
      KeptAreBright(feed);
    }

    /** Pushes the YUV and the grey form of every frame of a copy of the queue. */
    method ConvertFrames2YUV(queue: seq<Mat>)
      modifies this`yuvQueue, this`yQueue
      ensures yuvQueue == old(yuvQueue) + Mapped(lab.toYuv, queue)
      ensures yQueue == old(yQueue) + Mapped(lab.Grey, queue)
    {
      var copy, k := queue, 0;
      while |copy| != 0
        invariant 0 <= k <= |queue| && copy == queue[k..]
        invariant yuvQueue == old(yuvQueue) + Mapped(lab.toYuv, queue[..k])
        invariant yQueue == old(yQueue) + Mapped(lab.Grey, queue[..k])
        decreases |copy|
      {
        var original := copy[0];
        copy := copy[1..];
        var yuvFrame := lab.toYuv(original);
        yuvQueue := yuvQueue + [yuvFrame];
        yQueue := yQueue + [lab.toY(yuvFrame)];
        MappedNext(lab.toYuv, queue, k);
        MappedNext(lab.Grey, queue, k);
        k := k + 1;
      }
      assert queue[..k] == queue;
    }

    method EdgeDetectionYUV(queue: seq<Mat>)
      modifies this`featureQueue
      ensures featureQueue == old(featureQueue) + Mapped(lab.canny, queue)
    {
      var copy, k := queue, 0;
      while |copy| != 0
        invariant 0 <= k <= |queue| && copy == queue[k..]
        invariant featureQueue == old(featureQueue) + Mapped(lab.canny, queue[..k])
        decreases |copy|
      {
        featureQueue := featureQueue + [lab.canny(copy[0])];
        copy := copy[1..];
        MappedNext(lab.canny, queue, k);
        k := k + 1;
      }
      assert queue[..k] == queue;
    }

    method MakeHash(queue: seq<Mat>)
      requires queue != []
      requires forall i :: 0 <= i < |queue| ==> SingleChannel(queue[i])
      modifies this`hashQueue
      ensures hashQueue == old(hashQueue) + Mapped(MatHash, queue)
    {
      hide HashSha256, PixelText;
      var copy, k := queue, 0;
      while |copy| != 0
        invariant 0 <= k <= |queue| && copy == queue[k..]
        invariant hashQueue == old(hashQueue) + Mapped(MatHash, queue[..k])
        decreases |copy|
      {
        var matData := MatData(copy[0]);
        hashQueue := hashQueue + [HashSha256(matData)];
        copy := copy[1..];
        MappedNext(MatHash, queue, k);
        k := k + 1;
      }
      assert queue[..k] == queue;
    }

    method SignHash(queue: seq<Str>)
      modifies this`signedQueue
      ensures signedQueue == old(signedQueue) + Mapped(lab.sign, queue)
    {
      var copy, k := queue, 0;
      while |copy| != 0
        invariant 0 <= k <= |queue| && copy == queue[k..]
        invariant signedQueue == old(signedQueue) + Mapped(lab.sign, queue[..k])
        decreases |copy|
      {
        signedQueue := signedQueue + [lab.sign(copy[0])];
        copy := copy[1..];
        MappedNext(lab.sign, queue, k);
        k := k + 1;
      }
      assert queue[..k] == queue;
    }

    /**
     * Sends one message for each place of the queues. `ok` says that every send succeeded; after a
     * failed field the code goes on with the next one.
     */
    method SendDataToServer(cids: seq<Str>, hashes: seq<Str>, signed: seq<Str>, yuvs: seq<Mat>, size: nat)
      returns (ok: bool)
      requires Sendable(cids, hashes, signed, yuvs, size) && |cids| >= 1
      requires size == yuvs[0].rows * yuvs[0].cols * yuvs[0].channels
      modifies port
      ensures port.failures >= old(port.failures) && (ok <==> size > 0 && port.failures == old(port.failures))
      ensures port.reliable && size > 0 ==> ok
      ensures ok ==> port.sent == old(port.sent) + StreamOf(QueueMessages(cids, hashes, signed, yuvs, size))
    {
      hide HeaderBytes, VideoMessage, StreamOf, Sendable;
      var totalDataSize := CID_SIZE + HASH_SIZE + SIGNED_HASH_SIZE + size;
      ghost var ms := QueueMessages(cids, hashes, signed, yuvs, size);
      ok := true;
      var step := 0;
      NoMessages();
      SendableSizes(cids, hashes, signed, yuvs, size);
      while step < |cids|
        invariant 0 <= step <= |cids|
        invariant port.failures >= old(port.failures)
        invariant ok <==> (size > 0 || step == 0) && port.failures == old(port.failures)
        invariant port.reliable && size > 0 ==> ok
        invariant ok ==> port.sent == old(port.sent) + StreamOf(ms[..step])
      {
        SendableAt(cids, hashes, signed, yuvs, size, step);
        var cidBuffer := Buffer(cids[step], CID_SIZE);
        var hashBuffer := Buffer(hashes[step], HASH_SIZE);
        var signedHashBuffer := Buffer(signed[step], SIGNED_HASH_SIZE);
        var videoBuffer := yuvs[step].data;
        var packet := Header(LOGGER, SERVER, VIDEO_DATA_SND, UCHAR, totalDataSize);
        ghost var before := port.sent;
        var sent := SendBinary(port, HeaderBytes(packet));
        if !sent {
          ok := false;
          break;
        }
        sent := SendBinary(port, cidBuffer);
        ok := ok && sent;
        sent := SendBinary(port, hashBuffer);
        ok := ok && sent;
        sent := SendBinary(port, signedHashBuffer);
        ok := ok && sent;
        sent := SendBinary(port, videoBuffer);
        ok := ok && sent;
        if ok {
          OneMessage(old(port.sent), before, cids[step], hashes[step], signed[step], yuvs[step].data, ms, step);
        }
        step := step + 1;
      }
      if ok {
        assert ms[..step] == ms;
      }
    }

    /** `init_queue`. */
    method InitQueue()
      modifies this
      ensures Empty()
    {
      bgrQueue, yuvQueue, yQueue, featureQueue := [], [], [], [];
      hashQueue, signedQueue, cidQueue := [], [], [];
    }

    /** One turn of the main loop on the YUV path, with the data sent to the server. */
    method RunYuv(feed: seq<Mat>, clock: seq<Str>, frameCount: nat, size: nat) returns (ok: bool)
      requires Empty()
      requires 1 <= frameCount <= |KeptFrames(feed)| && frameCount <= |clock|
      requires Fit(clock[..frameCount], CID_SIZE) && size < 0x8000_0000
      requires forall i :: 0 <= i < frameCount ==> lab.Handles(KeptFrames(feed)[i], size)
      modifies this, port
      ensures Empty()
      ensures port.failures >= old(port.failures) && (ok <==> size > 0 && port.failures == old(port.failures))
      ensures port.reliable && size > 0 ==> ok
      ensures ok ==> port.sent == old(port.sent)
                               + StreamOf(RunMessages(lab, KeptFrames(feed)[..frameCount], clock[..frameCount], size))
    {
      hide MatHash, StreamOf, Kept, KeptFrames, Mapped, QueueMessages, Sendable, HashesOf;
      ghost var frames := KeptFrames(feed)[..frameCount];
      Capture(feed, clock, frameCount);
      ConvertFrames2YUV(bgrQueue);
      assert yuvQueue == Mapped(lab.toYuv, frames) && yQueue == Mapped(lab.Grey, frames);
      EdgeDetectionYUV(yQueue);
      assert featureQueue == Mapped(lab.canny, Mapped(lab.Grey, frames));
      EdgeMaps(lab, frames, size);
      MakeHash(featureQueue);
      assert hashQueue == HashesOf(lab, frames);
      SignHash(hashQueue);
      assert signedQueue == Mapped(lab.sign, HashesOf(lab, frames));
      RunIsSendable(lab, frames, clock[..frameCount], size);
      FirstFrame(lab, frames, size);
      ok := SendDataToServer(cidQueue, hashQueue, signedQueue, yuvQueue, size);
      InitQueue();
    }
  }

  lemma FirstFrame(lab: Lab, frames: seq<Mat>, size: nat)
    requires |frames| >= 1 && lab.Handles(frames[0], size)
    ensures var first := Mapped(lab.toYuv, frames)[0];
            size == first.rows * first.cols * first.channels
  {
  }

  lemma NoMessages()
    ensures StreamOf([]) == []
  {
  }

  lemma SendableSizes(cids: seq<Str>, hashes: seq<Str>, signed: seq<Str>, yuvs: seq<Mat>, size: nat)
    requires Sendable(cids, hashes, signed, yuvs, size)
    ensures |cids| == |hashes| == |signed| == |yuvs| && size < 0x8000_0000
  {
  }

  lemma SendableAt(cids: seq<Str>, hashes: seq<Str>, signed: seq<Str>, yuvs: seq<Mat>, size: nat, i: nat)
    requires Sendable(cids, hashes, signed, yuvs, size) && i < |cids|
    ensures |cids[i]| <= CID_SIZE && |hashes[i]| <= HASH_SIZE && |signed[i]| <= SIGNED_HASH_SIZE
    ensures |yuvs[i].data| == size
  {
  }

  /** Header and four fields, sent one after the other, are the next message. */
  lemma OneMessage(start: seq<byte>, before: seq<byte>, cid: Str, hash: Str, signedHash: Str, image: seq<byte>,
                   ms: seq<Message>, k: nat)
    requires |cid| <= CID_SIZE && |hash| <= HASH_SIZE && |signedHash| <= SIGNED_HASH_SIZE && |image| < 0x8000_0000
    requires k < |ms| && ms[k] == VideoMessage(cid, hash, signedHash, image)
    requires before == start + StreamOf(ms[..k])
    ensures before + HeaderBytes(Header(LOGGER, SERVER, VIDEO_DATA_SND, UCHAR, FIELDS_SIZE + |image|))
            + Buffer(cid, CID_SIZE) + Buffer(hash, HASH_SIZE) + Buffer(signedHash, SIGNED_HASH_SIZE) + image
         == start + StreamOf(ms[..k + 1])
  {
    hide HeaderBytes, Buffer;
    assert ms[..k + 1] == ms[..k] + [ms[k]];
    StreamOfConcat(ms[..k], [ms[k]]);
    StreamOfOne(ms[k]);
  }

  lemma StreamOfOne(m: Message)
    ensures StreamOf([m]) == MessageBytes(m)
  {
    assert [m][1..] == [];
  }

  // ----- the queues of one run -----

  function HashesOf(lab: Lab, frames: seq<Mat>): (r: seq<Str>)
    ensures |r| == |frames|
  {
    Mapped(lab.HashOf, frames)
  }

  /** The messages that one run over these frames sends. */
  ghost function RunMessages(lab: Lab, frames: seq<Mat>, cids: seq<Str>, size: nat): (ms: seq<Message>)
    requires |frames| == |cids| && Fit(cids, CID_SIZE) && size < 0x8000_0000
    requires forall i :: 0 <= i < |frames| ==> lab.Handles(frames[i], size)
    ensures |ms| == |frames|
  {
    RunIsSendable(lab, frames, cids, size);
    QueueMessages(cids, HashesOf(lab, frames), Mapped(lab.sign, HashesOf(lab, frames)), Mapped(lab.toYuv, frames), size)
  }

  lemma RunIsSendable(lab: Lab, frames: seq<Mat>, cids: seq<Str>, size: nat)
    requires |frames| == |cids| && Fit(cids, CID_SIZE) && size < 0x8000_0000
    requires forall i :: 0 <= i < |frames| ==> lab.Handles(frames[i], size)
    ensures var hashes := HashesOf(lab, frames);
            Sendable(cids, hashes, Mapped(lab.sign, hashes), Mapped(lab.toYuv, frames), size)
  {
    hide HashSha256, PixelText;
    forall i | 0 <= i < |frames|
      ensures NulFree(lab.HashOf(frames[i])) && lab.Handles(frames[i], size)
    {
      HashIsNulFree(PixelText(lab.EdgeMap(frames[i]).data));
    }
  }

  /** The edge maps of one run can be hashed, and their hashes are those of the frames. */
  lemma EdgeMaps(lab: Lab, frames: seq<Mat>, size: nat)
    requires forall i :: 0 <= i < |frames| ==> lab.Handles(frames[i], size)
    ensures var maps := Mapped(lab.canny, Mapped(lab.Grey, frames));
            && (forall i :: 0 <= i < |maps| ==> SingleChannel(maps[i]))
            && Mapped(MatHash, maps) == HashesOf(lab, frames)
  {
    hide MatHash;
    var maps := Mapped(lab.canny, Mapped(lab.Grey, frames));
    forall i | 0 <= i < |maps|
      ensures maps[i] == lab.EdgeMap(frames[i]) && SingleChannel(maps[i])
    {
      assert lab.Handles(frames[i], size);
    }
  }
}
