/** Capture to store: what the server holds after a run of the Logger. */
module Pipeline {
  import opened Bytes
  import opened ContentId
  import opened FrameHash
  import opened HashText
  import opened Protocol
  import opened Wire
  import opened ServerLoop
  import opened LoggerPipeline

  /** The frame that a content id ends up with: the last one that was sent under it. */
  ghost predicate IsLast(cids: seq<Str>, k: nat) {
    k < |cids| && forall j :: k < j < |cids| ==> cids[j] != cids[k]
  }

  /** Storing one video message stores the frame and the row that it was made of. */
  lemma VideoEffect(st: Store, cid: Str, hash: Str, signedHash: Str, image: seq<byte>)
    requires NulFree(cid) && NulFree(hash) && NulFree(signedHash)
    requires |cid| <= CID_SIZE && |hash| <= HASH_SIZE && |signedHash| <= SIGNED_HASH_SIZE && |image| < 0x8000_0000
    ensures var m := VideoMessage(cid, hash, signedHash, image);
            && WellFormed(m)
            && Effect(st, m) == st.(files := st.files[cid := image], rows := st.rows + [Row(cid, hash, signedHash)])
  {
    hide CString;
    var p := VideoMessage(cid, hash, signedHash, image).payload;
    var a, b, c := Buffer(cid, CID_SIZE), Buffer(hash, HASH_SIZE), Buffer(signedHash, SIGNED_HASH_SIZE);
    assert p == a + b + c + image;
    FieldsOfPayload(a, b, c, image);
    CStringOfField(cid, CID_SIZE);
    CStringOfField(hash, HASH_SIZE);
    CStringOfField(signedHash, SIGNED_HASH_SIZE);
    ReadingTells(VIDEO_DATA_SND);
  }

  /** Every message made of sendable queues is well-formed, and does what its entries say. */
  lemma QueueMessageEffect(st: Store, cids: seq<Str>, hashes: seq<Str>, signed: seq<Str>, yuvs: seq<Mat>,
                           size: nat, i: nat)
    requires Sendable(cids, hashes, signed, yuvs, size) && i < |cids|
    ensures var m := QueueMessages(cids, hashes, signed, yuvs, size)[i];
            && WellFormed(m)
            && Effect(st, m) == st.(files := st.files[cids[i] := yuvs[i].data],
                                    rows := st.rows + [Row(cids[i], hashes[i], signed[i])])
  {
    hide Effect, WellFormed, VideoMessage;
    VideoEffect(st, cids[i], hashes[i], signed[i], yuvs[i].data);
  }

  lemma QueueWellFormed(st: Store, cids: seq<Str>, hashes: seq<Str>, signed: seq<Str>, yuvs: seq<Mat>, size: nat)
    requires Sendable(cids, hashes, signed, yuvs, size)
    ensures var ms := QueueMessages(cids, hashes, signed, yuvs, size);
            forall i :: 0 <= i < |ms| ==> WellFormed(ms[i])
  {
    hide WellFormed, Sendable, QueueMessages;
    var ms := QueueMessages(cids, hashes, signed, yuvs, size);
    forall i | 0 <= i < |ms|
      ensures WellFormed(ms[i])
    {
      QueueMessageEffect(st, cids, hashes, signed, yuvs, size, i);
    }
  }

  /** The rows that the queues' entries make. */
  ghost function RowsOf(cids: seq<Str>, hashes: seq<Str>, signed: seq<Str>): (rows: seq<Row>)
    requires |cids| == |hashes| == |signed|
    ensures |rows| == |cids|
  {
    seq(|cids|, i requires 0 <= i < |cids| => Row(cids[i], hashes[i], signed[i]))
  }

  /**
   * What the messages of some queues leave on the server: one row for each place, in order; under each
   * content id the last image sent with it; everything else as before.
   */
  ghost predicate Stored(before: Store, after: Store,
                         cids: seq<Str>, hashes: seq<Str>, signed: seq<Str>, yuvs: seq<Mat>)
    requires |cids| == |hashes| == |signed| == |yuvs|
  {
    && after.rows == before.rows + RowsOf(cids, hashes, signed)
    && (forall k :: 0 <= k < |cids| && IsLast(cids, k) ==>
          cids[k] in after.files && after.files[cids[k]] == yuvs[k].data)
    && (forall c :: c !in cids ==> (c in after.files <==> c in before.files))
    && (forall c :: c !in cids && c in before.files ==> after.files[c] == before.files[c])
    && after.keys == before.keys && after.shareRequests == before.shareRequests && after.testFile == before.testFile
  }

  lemma {:induction false} QueueEffects(st: Store, cids: seq<Str>, hashes: seq<Str>, signed: seq<Str>, yuvs: seq<Mat>,
                                        size: nat)
    requires Sendable(cids, hashes, signed, yuvs, size)
    requires forall i :: 0 <= i < |cids| ==> WellFormed(QueueMessages(cids, hashes, signed, yuvs, size)[i])
    ensures Stored(st, Effects(st, QueueMessages(cids, hashes, signed, yuvs, size)), cids, hashes, signed, yuvs)
    decreases |cids|
  {
    hide Effect, WellFormed, VideoMessage;
    var ms := QueueMessages(cids, hashes, signed, yuvs, size);
    if ms != [] {
      var n := |cids| - 1;
      assert ms[..n] == QueueMessages(cids[..n], hashes[..n], signed[..n], yuvs[..n], size);
      QueueEffects(st, cids[..n], hashes[..n], signed[..n], yuvs[..n], size);
      var mid := Effects(st, ms[..n]);
      QueueMessageEffect(mid, cids, hashes, signed, yuvs, size, n);
      StoredNext(st, mid, Effects(st, ms), cids, hashes, signed, yuvs);
    }
  }

  lemma StoredNext(st: Store, mid: Store, after: Store,
                   cids: seq<Str>, hashes: seq<Str>, signed: seq<Str>, yuvs: seq<Mat>)
    requires |cids| == |hashes| == |signed| == |yuvs| >= 1
    requires var n := |cids| - 1;
             && Stored(st, mid, cids[..n], hashes[..n], signed[..n], yuvs[..n])
             && after == mid.(files := mid.files[cids[n] := yuvs[n].data],
                              rows := mid.rows + [Row(cids[n], hashes[n], signed[n])])
    ensures Stored(st, after, cids, hashes, signed, yuvs)
  {
    var n := |cids| - 1;
    assert RowsOf(cids, hashes, signed)
        == RowsOf(cids[..n], hashes[..n], signed[..n]) + [Row(cids[n], hashes[n], signed[n])];
    forall k | 0 <= k < |cids| && IsLast(cids, k)
      ensures cids[k] in after.files && after.files[cids[k]] == yuvs[k].data
    {
      if k < n {
        assert cids[n] != cids[k];
        assert IsLast(cids[..n], k);
      }
    }
    forall c | c !in cids
      ensures c !in cids[..n] && c != cids[n]
    {
    }
  }

  /** The k-th image is what the server keeps under the k-th content id, for every k. */
  ghost predicate EveryImageKept(st: Store, cids: seq<Str>, yuvs: seq<Mat>)
    requires |cids| == |yuvs|
  {
    forall k :: 0 <= k < |cids| ==> cids[k] in st.files && st.files[cids[k]] == yuvs[k].data
  }

  /** A content id that is used again comes with the same image. */
  ghost predicate IdsNameImages(cids: seq<Str>, yuvs: seq<Mat>)
    requires |cids| == |yuvs|
  {
    forall i, j :: 0 <= i < j < |cids| && cids[i] == cids[j] ==> yuvs[i].data == yuvs[j].data
  }

  /** The last place with the content id of place k. */
  lemma {:induction false} LastUse(cids: seq<Str>, k: nat, end: nat) returns (last: nat)
    requires k < end <= |cids| && forall j :: end <= j < |cids| ==> cids[j] != cids[k]
    ensures k <= last < |cids| && cids[last] == cids[k] && IsLast(cids, last)
    decreases end
  {
    if cids[end - 1] == cids[k] {
      last := end - 1;
    } else {
      last := LastUse(cids, k, end - 1);
    }
  }

  /** Every image is kept if and only if no content id was used for two different images. */
  lemma ImagesKeptExactly(before: Store, after: Store, cids: seq<Str>, hashes: seq<Str>, signed: seq<Str>,
                          yuvs: seq<Mat>)
    requires |cids| == |hashes| == |signed| == |yuvs|
    requires Stored(before, after, cids, hashes, signed, yuvs)
    ensures EveryImageKept(after, cids, yuvs) <==> IdsNameImages(cids, yuvs)
  {
    if IdsNameImages(cids, yuvs) {
      forall k | 0 <= k < |cids|
        ensures cids[k] in after.files && after.files[cids[k]] == yuvs[k].data
      {
        var last := LastUse(cids, k, |cids|);
        assert yuvs[k].data == yuvs[last].data;
      }
    }
  }

  /** The second "2022-11-01_12:00:00." and a hash string. */
  const SECOND: Str := [50, 48, 50, 50, 45, 49, 49, 45, 48, 49, 95, 49, 50, 58, 48, 48, 58, 48, 48, 46]
  const SOME_HASH: Str := seq(HASH_SIZE, _ => 48)

  /** Two different frames, 5 and 50 milliseconds into one second: the first image is lost, its row is not. */
  lemma SameIdLosesFrame(st: Store)
    ensures var cid := GetCid(SECOND, 5);
            var cids, hashes, signed := [cid, GetCid(SECOND, 50)], [SOME_HASH, SOME_HASH], [[], []];
            var yuvs := [Mat(1, 1, 1, [16]), Mat(1, 1, 1, [17])];
            && Sendable(cids, hashes, signed, yuvs, 1)
            && var ms := QueueMessages(cids, hashes, signed, yuvs, 1);
            && (forall i :: 0 <= i < |ms| ==> WellFormed(ms[i]))
            && var after := Effects(st, ms);
            && !EveryImageKept(after, cids, yuvs) && cid in after.files && after.files[cid] == [17]
            && after.rows == st.rows + [Row(cid, SOME_HASH, []), Row(cid, SOME_HASH, [])]
  {
    hide Effect, Effects, WellFormed, QueueMessages, GetCid;
    SameIdExactly(SECOND, 5, SECOND, 50);
    var cid := GetCid(SECOND, 5);
    var cids, hashes, signed: seq<Str> := [cid, GetCid(SECOND, 50)], [SOME_HASH, SOME_HASH], [[], []];
    var yuvs := [Mat(1, 1, 1, [16]), Mat(1, 1, 1, [17])];
    QueueWellFormed(st, cids, hashes, signed, yuvs, 1);
    QueueEffects(st, cids, hashes, signed, yuvs, 1);
    var after := Effects(st, QueueMessages(cids, hashes, signed, yuvs, 1));
    assert IsLast(cids, 1);
    assert RowsOf(cids, hashes, signed) == [Row(cid, SOME_HASH, []), Row(cid, SOME_HASH, [])];
    assert cids[0] == cids[1] && yuvs[0].data != yuvs[1].data;
    ImagesKeptExactly(st, after, cids, hashes, signed, yuvs);
  }

  /** The row of one frame, spelled out: its id, the hash of the decimals of its edge map, and the signature of that. */
  ghost predicate RowOf(row: Row, lab: Lab, frame: Mat, cid: Str) {
    && row.cid == cid
    && row.hash == HashSha256(PixelText(lab.canny(lab.toY(lab.toYuv(frame))).data))
    && row.signedHash == lab.sign(row.hash)
  }

  lemma RowsSpelledOut(before: Store, after: Store, lab: Lab, frames: seq<Mat>, cids: seq<Str>, k: nat)
    requires k <= |frames| == |cids|
    requires var hashes := HashesOf(lab, frames);
             Stored(before, after, cids[..k], hashes[..k],
                    Mapped(lab.sign, hashes)[..k], Mapped(lab.toYuv, frames)[..k])
    ensures |after.rows| == |before.rows| + k
    ensures forall j :: 0 <= j < k ==> RowOf(after.rows[|before.rows| + j], lab, frames[j], cids[j])
  {
    var hashes := HashesOf(lab, frames);
    var signed := Mapped(lab.sign, hashes);
    hide Stored;
    StoredRows(before, after, cids[..k], hashes[..k], signed[..k], Mapped(lab.toYuv, frames)[..k]);
    hide HashSha256, PixelText;
    forall j | 0 <= j < k
      ensures RowOf(after.rows[|before.rows| + j], lab, frames[j], cids[j])
    {
      assert after.rows[|before.rows| + j] == Row(cids[..k][j], hashes[..k][j], signed[..k][j]);
      assert hashes[j] == lab.HashOf(frames[j]);
    }
  }

  lemma StoredRows(before: Store, after: Store, cids: seq<Str>, hashes: seq<Str>, signed: seq<Str>, yuvs: seq<Mat>)
    requires |cids| == |hashes| == |signed| == |yuvs|
    requires Stored(before, after, cids, hashes, signed, yuvs)
    ensures |after.rows| == |before.rows| + |cids|
    ensures forall j :: 0 <= j < |cids| ==> after.rows[|before.rows| + j] == Row(cids[j], hashes[j], signed[j])
  {
    hide Stored;
    RowsAppended(before, after, cids, hashes, signed, yuvs);
    var rows := RowsOf(cids, hashes, signed);
    forall j | 0 <= j < |cids|
      ensures after.rows[|before.rows| + j] == Row(cids[j], hashes[j], signed[j])
    {
      assert after.rows[|before.rows| + j] == rows[j];
    }
  }

  lemma RowsAppended(before: Store, after: Store, cids: seq<Str>, hashes: seq<Str>, signed: seq<Str>, yuvs: seq<Mat>)
    requires |cids| == |hashes| == |signed| == |yuvs|
    requires Stored(before, after, cids, hashes, signed, yuvs)
    ensures after.rows == before.rows + RowsOf(cids, hashes, signed)
  {
    hide RowsOf, IsLast;
  }

  /**
   * A whole run: the Logger captures and sends, the server receives and stores. Sends and receives are
   * cut up arbitrarily and the server may read while the Logger is still sending. Unless a send or a receive
   * fails, what the server has served is a prefix of the captured frames, with its rows in order; what is left in
   * the stream is the frames not yet served. Once everything has arrived that is nothing, and all frames are
   * served. Every served image is then kept if and only if no content id was given to two different images.
   * A reliable network, however it cuts up what is sent, brings everything to that end.
   */
  method CaptureToStore(lab: Lab, feed: seq<Mat>, clock: seq<Str>, frameCount: nat, size: nat, store: Store,
                        reliable: bool)
    returns (logger: Logger, server: Server, ghost k: nat)
    requires 1 <= frameCount <= |KeptFrames(feed)| && frameCount <= |clock|
    requires Fit(clock[..frameCount], CID_SIZE) && 0 < size < 0x8000_0000
    requires forall i :: 0 <= i < frameCount ==> lab.Handles(KeptFrames(feed)[i], size)
    ensures reliable ==> logger.port.failures == 0 && server.port.failures == 0 && server.port.coming == []
    ensures logger.port.failures == 0 && server.port.failures == 0 ==>
              var frames, cids := KeptFrames(feed)[..frameCount], clock[..frameCount];
              var hashes := HashesOf(lab, frames);
              var signed, yuvs := Mapped(lab.sign, hashes), Mapped(lab.toYuv, frames);
              && k <= frameCount && |server.port.arrived| < HEADER_SIZE
              && Stored(store, server.store, cids[..k], hashes[..k], signed[..k], yuvs[..k])
              && (EveryImageKept(server.store, cids[..k], yuvs[..k]) <==> IdsNameImages(cids[..k], yuvs[..k]))
              && server.port.Stream() == StreamOf(RunMessages(lab, frames, cids, size)[k..])
              && |server.store.rows| == |store.rows| + k
              && forall j :: 0 <= j < k ==> RowOf(server.store.rows[|store.rows| + j], lab, frames[j], clock[j])
    ensures logger.port.failures == 0 && server.port.failures == 0 && server.port.coming == [] ==>
              var frames, cids := KeptFrames(feed)[..frameCount], clock[..frameCount];
              var hashes := HashesOf(lab, frames);
              var signed, yuvs := Mapped(lab.sign, hashes), Mapped(lab.toYuv, frames);
              && k == frameCount && server.port.Stream() == []
              && Stored(store, server.store, cids, hashes, signed, yuvs)
              && (EveryImageKept(server.store, cids, yuvs) <==> IdsNameImages(cids, yuvs))
  {
    hide KeptFrames, StreamOf, WellFormed, HashesOf, Mapped, Stored, QueueMessages, Sendable;
    hide EveryImageKept, IdsNameImages, RowOf;
    ghost var frames, cids := KeptFrames(feed)[..frameCount], clock[..frameCount];
    ghost var hashes := HashesOf(lab, frames);
    ghost var signed, yuvs := Mapped(lab.sign, hashes), Mapped(lab.toYuv, frames);
    ghost var ms := RunMessages(lab, frames, cids, size);
    RunIsSendable(lab, frames, cids, size);
    QueueWellFormed(store, cids, hashes, signed, yuvs, size);
    var out := new Outbound(reliable);
    logger := new Logger(lab, out);
    var sent := logger.RunYuv(feed, clock, frameCount, size);
    var port := new Inbound(out.sent, reliable);
    server := new Server(port, store);
    k := 0;
    if sent {
      assert [] + StreamOf(ms) == StreamOf(ms);
      var served;
      ghost var taken;
      k, served, taken := server.Serve(ms);
      if served {
        Prefix(store, lab, frames, cids, size, k);
        RowsSpelledOut(store, server.store, lab, frames, cids, k);
        ImagesKeptExactly(store, server.store, cids[..k], hashes[..k], signed[..k], yuvs[..k]);
        assert k == frameCount ==>
                 cids[..k] == cids && hashes[..k] == hashes && signed[..k] == signed && yuvs[..k] == yuvs;
      }
    }
  }

  /** The first k messages of a run store the first k frames. */
  lemma Prefix(st: Store, lab: Lab, frames: seq<Mat>, cids: seq<Str>, size: nat, k: nat)
    requires |frames| == |cids| && Fit(cids, CID_SIZE) && size < 0x8000_0000 && k <= |cids|
    requires forall i :: 0 <= i < |frames| ==> lab.Handles(frames[i], size)
    requires forall i :: 0 <= i < |cids| ==> WellFormed(RunMessages(lab, frames, cids, size)[i])
    ensures var hashes := HashesOf(lab, frames);
            Stored(st, Effects(st, RunMessages(lab, frames, cids, size)[..k]),
                   cids[..k], hashes[..k], Mapped(lab.sign, hashes)[..k], Mapped(lab.toYuv, frames)[..k])
  {
    hide WellFormed, Effects, Effect, VideoMessage, Stored, HashesOf, Mapped;
    RunIsSendable(lab, frames, cids, size);
    var hashes := HashesOf(lab, frames);
    var signed, yuvs := Mapped(lab.sign, hashes), Mapped(lab.toYuv, frames);
    assert QueueMessages(cids, hashes, signed, yuvs, size)[..k]
        == QueueMessages(cids[..k], hashes[..k], signed[..k], yuvs[..k], size);
    QueueWellFormed(st, cids[..k], hashes[..k], signed[..k], yuvs[..k], size);
    QueueEffects(st, cids[..k], hashes[..k], signed[..k], yuvs[..k], size);
  }
}
