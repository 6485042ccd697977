/** Hashing of edge maps in Logger and Verifier, and the Verifier's verdict. */
module FrameHash {
  import opened Bytes
  import opened Decimal
  import opened HashText
  import opened TwoWordCode

  /** A `cv::Mat` of bytes, row by row. */
  datatype Mat = Mat(rows: nat, cols: nat, channels: nat, data: seq<byte>)

  /** A map with one byte for each pixel. */
  predicate SingleChannel(m: Mat) {
    m.channels == 1 && |m.data| == m.rows * m.cols
  }

  /** What Canny produces: every pixel is 0 or 255. */
  predicate EdgePixels(s: seq<byte>) {
    forall i :: 0 <= i < |s| ==> s[i] == 0 || s[i] == 255
  }

  /** The decimal values of the pixels, without separators. */
  function PixelText(s: seq<byte>): Str {
    if s == [] then [] else PixelText(s[..|s| - 1]) + ToString(s[|s| - 1])
  }

  /** The hash of an edge map, as Logger and Verifier compute it. */
  function MatHash(m: Mat): (h: Str)
    ensures |h| == 64
  {
    HashSha256(PixelText(m.data))
  }

  /** The nested loops of `make_hash`: row-major order. */
  method MatData(m: Mat) returns (text: Str)
    requires SingleChannel(m)
    ensures text == PixelText(m.data)
  {
    text := [];
    for i := 0 to m.rows
      invariant i * m.cols <= |m.data|
      invariant text == PixelText(m.data[..i * m.cols])
    {
      RowBound(i, m.rows, m.cols);
      for j := 0 to m.cols
        invariant i * m.cols + j <= |m.data|
        invariant text == PixelText(m.data[..i * m.cols + j])
      {
        var p := i * m.cols + j;
        assert m.data[..p + 1][..p] == m.data[..p];
        text := text + ToString(m.data[p]);
      }
    }
    assert m.data[..m.rows * m.cols] == m.data;
  }

  lemma RowBound(i: nat, rows: nat, cols: nat)
    requires i < rows
    ensures i * cols + cols == (i + 1) * cols <= rows * cols
  {
  }

  /** The Verifier's globals. */
  class Verifier {
    var hashVF: Str
    var verified: int

    constructor ()
      ensures hashVF == [] && verified == 0
    {
      hashVF, verified := [], 0;
    }

    method MakeHash(fv: Mat)
      requires SingleChannel(fv)
      modifies this
      ensures hashVF == MatHash(fv) && verified == old(verified)
    {
      var matData := MatData(fv);
      hashVF := HashSha256(matData);
    }

    method CompareHash(hashVerifier: Str, hashDB: Str)
      modifies this
      ensures hashVF == old(hashVF)
      ensures verified == if hashDB == hashVerifier then 1 else -1
    {
      if hashDB == hashVerifier {
        verified := 1;
      } else {
        verified := -1;
      }
    }

    /**
     * Recomputes the hash of the map `shown` and compares it with the stored hash of the map `logged`: the
     * verdict is positive exactly when they are the same map, or their texts are a hash collision.
     */
    method Verify(shown: Mat, hashDB: Str, ghost logged: Mat)
      requires SingleChannel(shown) && EdgePixels(shown.data) && EdgePixels(logged.data)
      requires shown.rows == logged.rows && shown.cols == logged.cols && shown.channels == logged.channels
      requires hashDB == MatHash(logged)
      modifies this
      ensures verified == if shown == logged || Collision(PixelText(shown.data), PixelText(logged.data)) then 1 else -1
    {
      hide MatHash, PixelText, HashSha256;
      MakeHash(shown);
      CompareHash(hashVF, hashDB);
      HashesTellMaps(shown, logged);
    }

    /** `main` as it stands: nothing computes the hash, so no stored hash is ever confirmed. */
    method VerifyAsShipped(hashDB: Str)
      requires hashVF == []
      modifies this
      ensures hashDB != [] ==> verified == -1
    {
      CompareHash(hashVF, hashDB);
    }
  }

  // ----- what the hashed text tells about the pixels -----

  lemma PixelTextBack(s: seq<byte>, p: byte)
    ensures PixelText(s + [p]) == PixelText(s) + ToString(p)
    ensures PixelText([]) == []
  {
    assert (s + [p])[..|s|] == s;
  }

  lemma {:induction false} PixelTextFront(p: byte, s: seq<byte>)
    ensures PixelText([p] + s) == ToString(p) + PixelText(s)
  {
    hide PixelText, ToString;
    if s == [] {
      PixelTextBack([], p);
      assert [p] + s == [] + [p];
    } else {
      var n := |s| - 1;
      PixelTextFront(p, s[..n]);
      PixelTextBack(s[..n], s[n]);
      PixelTextBack([p] + s[..n], s[n]);
      assert s == s[..n] + [s[n]];
      assert [p] + s == [p] + s[..n] + [s[n]];
    }
  }

  /** Every pixel is one of some values. */
  predicate Uses(s: seq<byte>, values: set<byte>) {
    forall i :: 0 <= i < |s| ==> s[i] in values
  }

  /** Among images of one size with these pixel values, the hashed text determines the pixels. */
  ghost predicate TextDeterminesPixels(values: set<byte>) {
    forall x, y :: Uses(x, values) && Uses(y, values) && |x| == |y| && PixelText(x) == PixelText(y) ==> x == y
  }

  /** Which pixels have the value q. */
  function Marks(s: seq<byte>, q: byte): (r: seq<bool>)
    ensures |r| == |s|
  {
    seq(|s|, i requires 0 <= i < |s| => s[i] == q)
  }

  lemma {:induction false} PixelTextIsSpelled(s: seq<byte>, p: byte, q: byte)
    requires Uses(s, {p, q})
    ensures PixelText(s) == Spell(ToString(p), ToString(q), Marks(s, q))
  {
    hide ToString;
    if s != [] {
      PixelTextIsSpelled(s[1..], p, q);
      assert s == [s[0]] + s[1..];
      PixelTextFront(s[0], s[1..]);
      assert s[0] in {p, q} && Marks(s, q)[1..] == Marks(s[1..], q);
    }
  }

  lemma TwoValuesReadOnce(p: byte, q: byte, x: seq<byte>, y: seq<byte>)
    requires ToString(p) + ToString(q) != ToString(q) + ToString(p)
    requires Uses(x, {p, q}) && Uses(y, {p, q}) && PixelText(x) == PixelText(y)
    ensures x == y
  {
    hide PixelText, ToString, Spell;
    PixelTextIsSpelled(x, p, q);
    PixelTextIsSpelled(y, p, q);
    var m, n := Marks(x, q), Marks(y, q);
    SpelledOnce(ToString(p), ToString(q), m, n);
    forall i | 0 <= i < |x|
      ensures x[i] == y[i]
    {
      assert m[i] == n[i] && x[i] in {p, q} && y[i] in {p, q};
    }
  }

  lemma PixelTextOfTwo(p: byte, q: byte)
    ensures PixelText([p, q]) == ToString(p) + ToString(q)
  {
    hide PixelText, ToString;
    PixelTextBack([], p);
    PixelTextBack([p], q);
    assert [] + [p] == [p] && [p] + [q] == [p, q];
    assert [] + ToString(p) == ToString(p);
  }

  /** With two pixel values the text determines the pixels if and only if the two decimals do not commute. */
  lemma TwoValuesExactly(p: byte, q: byte)
    requires p != q
    ensures TextDeterminesPixels({p, q}) <==> ToString(p) + ToString(q) != ToString(q) + ToString(p)
  {
    hide PixelText, ToString;
    if ToString(p) + ToString(q) == ToString(q) + ToString(p) {
      PixelTextOfTwo(p, q);
      PixelTextOfTwo(q, p);
      assert Uses([p, q], {p, q}) && Uses([q, p], {p, q}) && [p, q][0] != [q, p][0];
    } else {
      forall x, y | Uses(x, {p, q}) && Uses(y, {p, q}) && |x| == |y| && PixelText(x) == PixelText(y)
        ensures x == y
      {
        TwoValuesReadOnce(p, q, x, y);
      }
    }
  }

  /** One pixel, one digit. */
  lemma {:induction false} SingleDigits(s: seq<byte>)
    requires forall i :: 0 <= i < |s| ==> s[i] <= 9
    ensures |PixelText(s)| == |s| && forall i :: 0 <= i < |s| ==> PixelText(s)[i] == 48 + s[i]
  {
    if s != [] {
      SingleDigits(s[..|s| - 1]);
    }
  }

  /** Two different images of three pixels that are hashed alike. */
  lemma TenIsAmbiguous()
    ensures PixelText([10, 1, 0]) == PixelText([1, 0, 10])
  {
    assert ToString(10) == ToString(1) + [48];
    PixelTextOfTwo(10, 1);
    PixelTextOfTwo(1, 0);
    PixelTextBack([10, 1], 0);
    PixelTextBack([1, 0], 10);
    assert [10, 1] + [0] == [10, 1, 0] && [1, 0] + [10] == [1, 0, 10];
  }

  function ValuesUpTo(m: byte): (values: set<byte>)
    ensures forall v: byte :: v in values <==> v <= m
  {
    if m == 0 then {0} else ValuesUpTo(m - 1) + {m}
  }

  /** With all values up to m the text determines the pixels if and only if they are single digits. */
  lemma AllValuesExactly(m: byte)
    ensures TextDeterminesPixels(ValuesUpTo(m)) <==> m <= 9
  {
    hide PixelText, ValuesUpTo;
    var values := ValuesUpTo(m);
    if m <= 9 {
      forall x, y | Uses(x, values) && Uses(y, values) && |x| == |y| && PixelText(x) == PixelText(y)
        ensures x == y
      {
        SingleDigits(x);
        SingleDigits(y);
        forall i | 0 <= i < |x|
          ensures x[i] == y[i]
        {
          assert PixelText(x)[i] == PixelText(y)[i];
        }
      }
    } else {
      TenIsAmbiguous();
      var x, y: seq<byte> := [10, 1, 0], [1, 0, 10];
      assert Uses(x, values) && Uses(y, values) && x[0] != y[0];
    }
  }

  /** On edge maps the text determines the pixels, of any number. */
  lemma PixelTextInjective(x: seq<byte>, y: seq<byte>)
    requires EdgePixels(x) && EdgePixels(y)
    requires PixelText(x) == PixelText(y)
    ensures x == y
  {
    hide PixelText;
    assert ToString(255) == ToString(25) + [53] && ToString(0) == [48];
    assert ToString(25) == ToString(2) + [53] && ToString(2) == [50];
    assert (ToString(0) + ToString(255))[0] == 48 && (ToString(255) + ToString(0))[0] == 50;
    TwoValuesReadOnce(0, 255, x, y);
  }

  /** Two edge maps of one size have equal hashes if and only if they are equal, or their texts are a hash collision. */
  lemma HashesTellMaps(x: Mat, y: Mat)
    requires EdgePixels(x.data) && EdgePixels(y.data)
    requires x.rows == y.rows && x.cols == y.cols && x.channels == y.channels
    ensures MatHash(x) == MatHash(y) <==> x == y || Collision(PixelText(x.data), PixelText(y.data))
  {
    hide HashSha256, PixelText;
    if PixelText(x.data) == PixelText(y.data) {
      PixelTextInjective(x.data, y.data);
    }
  }
}
