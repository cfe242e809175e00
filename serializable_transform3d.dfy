/** `SerializableTransform3D`: a transform stored as a type tag plus either
    the twelve row-packed doubles of an affine or a text layout of
    thin-plate-spline parameters, whose number blocks are packed big-endian
    into bytes, deflated when that makes them shorter, and written in
    Base64. Doubles are modelled by their 64-bit patterns, deflate, inflate
    and Base64 by function parameters. */
module SerializableTransform3Ds {
  import opened Wrappers
  import opened JavaInt
  import opened JavaText

  type byte = bv8

  /** A `double`, as the bit pattern `Double.doubleToLongBits` gives. */
  type word = bv64

  // ---------------------------------------------------------------------
  // Big-endian packing of 64-bit words

  /** The eight bytes of a word, most significant first. */
  function WordBytes(w: word): (r: seq<byte>)
    ensures |r| == 8
  {
    [(w >> 56) as byte, ((w >> 48) & 0xff) as byte, ((w >> 40) & 0xff) as byte, ((w >> 32) & 0xff) as byte,
     ((w >> 24) & 0xff) as byte, ((w >> 16) & 0xff) as byte, ((w >> 8) & 0xff) as byte, (w & 0xff) as byte]
  }

  /** The word whose big-endian bytes start at `at`. */
  function WordAt(b: seq<byte>, at: int): word
    requires 0 <= at && at + 8 <= |b|
  {
    (b[at] as word << 56) | (b[at + 1] as word << 48) | (b[at + 2] as word << 40) | (b[at + 3] as word << 32) |
    (b[at + 4] as word << 24) | (b[at + 5] as word << 16) | (b[at + 6] as word << 8) | b[at + 7] as word
  }

  lemma WordRoundTrip(w: word)
    ensures WordAt(WordBytes(w), 0) == w
  {
  }

  /** The packing loop of `encodeBase64`: every word's eight bytes, in
      order. */
  function Pack(ws: seq<word>): (r: seq<byte>)
    ensures |r| == 8 * |ws|
  {
    if |ws| == 0 then [] else Pack(ws[..|ws| - 1]) + WordBytes(ws[|ws| - 1])
  }

  /** The unpacking loop of `decodeBase64`: `n` words from the front of
      the bytes. */
  function Unpack(b: seq<byte>, n: nat): (r: seq<word>)
    requires 8 * n <= |b|
    ensures |r| == n
  {
    seq(n, i requires 0 <= i < n => WordAt(b, 8 * i))
  }

  /** Word `i` of a packed sequence occupies bytes `8i .. 8i+8`. */
  lemma {:induction false} PackSlot(ws: seq<word>, i: nat)
    requires i < |ws|
    ensures Pack(ws)[8 * i .. 8 * i + 8] == WordBytes(ws[i])
    decreases |ws|
  {
    var init := ws[..|ws| - 1];
    assert Pack(ws) == Pack(init) + WordBytes(ws[|ws| - 1]);
    if i < |ws| - 1 {
      PackSlot(init, i);
      assert Pack(ws)[8 * i .. 8 * i + 8] == Pack(init)[8 * i .. 8 * i + 8];
    } else {
      assert Pack(ws)[8 * i ..] == WordBytes(ws[i]);
    }
  }

  /** Unpacking inverts packing exactly. */
  lemma UnpackPack(ws: seq<word>)
    ensures Unpack(Pack(ws), |ws|) == ws
  {
    var b := Pack(ws);
    forall i | 0 <= i < |ws|
      ensures Unpack(b, |ws|)[i] == ws[i]
    {
      PackSlot(ws, i);
      WordRoundTrip(ws[i]);
      assert WordAt(b, 8 * i) == WordAt(b[8 * i .. 8 * i + 8], 0);
    }
  }

  /** One iteration of the packing loop: the eight bytes of a word go to
      `bytes[++j]`, most significant first. */
  method PutWordBytes(bytes: array<byte>, j: int, wb: seq<byte>) returns (j': int)
    requires |wb| == 8 && -1 <= j && j + 8 < bytes.Length
    modifies bytes
    ensures j' == j + 8
    ensures forall k :: 0 <= k < bytes.Length ==>
      bytes[k] == if j < k <= j + 8 then wb[k - j - 1] else old(bytes[k])
  {
    j' := j;
    j' := j' + 1; bytes[j'] := wb[0];
    j' := j' + 1; bytes[j'] := wb[1];
    j' := j' + 1; bytes[j'] := wb[2];
    j' := j' + 1; bytes[j'] := wb[3];
    j' := j' + 1; bytes[j'] := wb[4];
    j' := j' + 1; bytes[j'] := wb[5];
    j' := j' + 1; bytes[j'] := wb[6];
    j' := j' + 1; bytes[j'] := wb[7];
  }

  /** The first loop of `encodeBase64`, into a buffer of
      `8 * src.length` bytes. */
  method PackWords(src: array<word>) returns (bytes: array<byte>)
    ensures fresh(bytes) && bytes[..] == Pack(src[..])
  {
    bytes := new byte[8 * src.Length];
    ghost var packed := Pack(src[..]);
    var i, j := 0, -1;
    while i < src.Length
      invariant 0 <= i <= src.Length && j == 8 * i - 1
      invariant forall k :: 0 <= k < 8 * i ==> bytes[k] == packed[k]
    {
      PackEntries(src[..], i);
      j := PutWordBytes(bytes, j, WordBytes(src[i]));
      i := i + 1;
    }
  }

  /** Byte `8i + q` of a packed sequence is byte `q` of word `i`. */
  lemma PackEntries(ws: seq<word>, i: nat)
    requires i < |ws|
    ensures forall k :: 8 * i <= k < 8 * i + 8 ==> Pack(ws)[k] == WordBytes(ws[i])[k - 8 * i]
  {
    PackSlot(ws, i);
    var b := Pack(ws);
    forall k | 8 * i <= k < 8 * i + 8
      ensures b[k] == WordBytes(ws[i])[k - 8 * i]
    {
      assert b[8 * i .. 8 * i + 8][k - 8 * i] == b[k];
    }
  }

  /** The second loop of `decodeBase64`: a fresh array of `n` words, each
      read from the next eight bytes; a negative `n` throws on the
      allocation and too few bytes throw on the first missing one. */
  method UnpackWords(bytes: array<byte>, n: int) returns (r: Result<array<word>, JavaException>)
    ensures n < 0 ==> r == Err(NegativeArraySize)
    ensures 0 <= n && bytes.Length < 8 * n ==> r == Err(ArrayIndexOutOfBounds)
    ensures 0 <= n && 8 * n <= bytes.Length ==> r.Ok? && fresh(r.value) && r.value[..] == Unpack(bytes[..], n)
  {
    if n < 0 {
      return Err(NegativeArraySize);
    }
    var doubles := new word[n];
    var i, j := 0, -1;
    while i < n
      invariant 0 <= i <= n && j == 8 * i - 1
      invariant 8 * i <= bytes.Length
      invariant forall k :: 0 <= k < i ==> doubles[k] == WordAt(bytes[..], 8 * k)
    {
      if bytes.Length < j + 9 {
        return Err(ArrayIndexOutOfBounds);
      }
      var bits: word := 0;
      j := j + 1; bits := bits | (bytes[j] as word << 56);
      j := j + 1; bits := bits | (bytes[j] as word << 48);
      j := j + 1; bits := bits | (bytes[j] as word << 40);
      j := j + 1; bits := bits | (bytes[j] as word << 32);
      j := j + 1; bits := bits | (bytes[j] as word << 24);
      j := j + 1; bits := bits | (bytes[j] as word << 16);
      j := j + 1; bits := bits | (bytes[j] as word << 8);
      j := j + 1; bits := bits | bytes[j] as word;
      doubles[i] := bits;
      i := i + 1;
    }
    return Ok(doubles);
  }

  // ---------------------------------------------------------------------
  // Framing: '@' + Base64 of the raw bytes, or Base64 of the deflated bytes

  /** The characters of the Base64 alphabet of section 4 of RFC 4648,
      with the pad character; '@' and whitespace are not among them. */
  predicate InBase64Alphabet(c: char)
  {
    ('A' <= c <= 'Z') || ('a' <= c <= 'z') || ('0' <= c <= '9') || c == '+' || c == '/' || c == '='
  }

  /** What the model takes from `Base64.encodeBase64String` and
      `Base64.decodeBase64`: decoding inverts encoding, and an encoding is a
      padded string of alphabet characters, four for every three bytes
      begun (section 4 of RFC 4648). */
  ghost predicate Base64Codec(encode64: seq<byte> -> string, decode64: string -> seq<byte>)
  {
    forall b: seq<byte> {:trigger encode64(b)} ::
      && decode64(encode64(b)) == b
      && |encode64(b)| == 4 * ((|b| + 2) / 3)
      && forall k :: 0 <= k < |encode64(b)| ==> InBase64Alphabet(encode64(b)[k])
  }

  /** What the model takes from `Deflater` and `Inflater`: a zlib stream
      has at least its two header and four checksum bytes (RFC 1950), and
      inflating the whole stream into a buffer of the original size gives
      the original bytes back. */
  ghost predicate ZlibCodec(deflate: seq<byte> -> seq<byte>, inflate: (seq<byte>, nat) -> Option<seq<byte>>)
  {
    forall b: seq<byte> {:trigger deflate(b)} :: |deflate(b)| >= 6 && inflate(deflate(b), |b|) == Some(b)
  }

  /** Both codec hypotheses at once. */
  ghost predicate Codecs(deflate: seq<byte> -> seq<byte>, inflate: (seq<byte>, nat) -> Option<seq<byte>>,
                         encode64: seq<byte> -> string, decode64: string -> seq<byte>)
  {
    Base64Codec(encode64, decode64) && ZlibCodec(deflate, inflate)
  }

  /** The text `encodeBase64` makes of the packed bytes. `deflate(bytes)` is
      the whole zlib stream, of which the `Deflater` writes as much as fits
      into a buffer of the raw size: when that fills the buffer the raw
      bytes are written behind an '@', otherwise the stream itself. */
  function Framed(bytes: seq<byte>, deflate: seq<byte> -> seq<byte>, encode64: seq<byte> -> string): string
  {
    var zipped := deflate(bytes);
    var n := Min(|zipped|, |bytes|);
    if n == |bytes| then "@" + encode64(bytes) else encode64(zipped[..n])
  }

  /** `encodeBase64(src)`; the byte buffer has `src.length * 8` entries in
      `int` arithmetic, so a source of more than 2^28 - 1 words throws. */
  method EncodeBase64(src: array<word>, deflate: seq<byte> -> seq<byte>, encode64: seq<byte> -> string)
    returns (r: Result<string, JavaException>)
    requires src.Length <= INT_MAX
    ensures 8 * src.Length <= INT_MAX ==> r == Ok(Framed(Pack(src[..]), deflate, encode64))
    ensures 8 * src.Length > INT_MAX ==>
      r == Err(if Wrap32(8 * src.Length) < 0 then NegativeArraySize else ArrayIndexOutOfBounds)
  {
    var size := Wrap32(src.Length * 8);
    if size < 0 {
      return Err(NegativeArraySize);
    }
    if size < 8 * src.Length {
      return Err(ArrayIndexOutOfBounds);
    }
    var bytes := PackWords(src);
    var zipped := deflate(bytes[..]);
    var n := Min(|zipped|, bytes.Length);
    if n == bytes.Length {
      r := Ok("@" + encode64(bytes[..]));
    } else {
      r := Ok(encode64(zipped[..n]));
    }
  }

  /** The bytes `Inflater.inflate` leaves in a fresh buffer of `m` bytes:
      as much of the output as fits, the rest still zero. */
  function Inflated(out: seq<byte>, m: nat): (r: seq<byte>)
    ensures |r| == m
  {
    seq(m, k requires 0 <= k < m => if k < |out| then out[k] else 0)
  }

  /** The unpacking step as a value: `n` words, or the exception the
      allocation or the first missing byte throws. */
  function Unpacked(b: seq<byte>, n: int): Result<seq<word>, JavaException>
  {
    if n < 0 then Err(NegativeArraySize)
    else if |b| < 8 * n then Err(ArrayIndexOutOfBounds)
    else Ok(Unpack(b, n))
  }

  /** `decodeBase64(src, n)`: a leading '@' marks raw bytes; otherwise the
      text is a deflated stream, inflated into `n * 8` bytes (in `int`
      arithmetic). An empty text throws on `charAt(0)`, a broken stream
      throws `DataFormatException`. */
  function Decoded(src: string, n: int, inflate: (seq<byte>, nat) -> Option<seq<byte>>,
                   decode64: string -> seq<byte>): Result<seq<word>, JavaException>
  {
    if |src| == 0 then Err(StringIndexOutOfBounds)
    else if src[0] == '@' then Unpacked(decode64(src[1..]), n)
    else
      var m := Wrap32(n * 8);
      if m < 0 then Err(NegativeArraySize)
      else match inflate(decode64(src), m)
        case None => Err(DataFormat)
        case Some(out) => Unpacked(Inflated(out, m), n)
  }

  /** `decodeBase64`, with the byte buffer as an array. */
  method DecodeBase64(src: string, n: int, inflate: (seq<byte>, nat) -> Option<seq<byte>>,
                      decode64: string -> seq<byte>) returns (r: Result<array<word>, JavaException>)
    ensures r.Ok? <==> Decoded(src, n, inflate, decode64).Ok?
    ensures r.Ok? ==> fresh(r.value) && r.value[..] == Decoded(src, n, inflate, decode64).value
    ensures r.Err? ==> r.error == Decoded(src, n, inflate, decode64).error
  {
    if |src| == 0 {
      return Err(StringIndexOutOfBounds);
    }
    var bytes: array<byte>;
    if src[0] == '@' {
      var raw := decode64(src[1..]);
      bytes := new byte[|raw|](k requires 0 <= k < |raw| => raw[k]);
      assert bytes[..] == raw;
      assert Decoded(src, n, inflate, decode64) == Unpacked(bytes[..], n);
    } else {
      var m := Wrap32(n * 8);
      if m < 0 {
        return Err(NegativeArraySize);
      }
      bytes := new byte[m](_ => 0);
      var zipped := decode64(src);
      var out := inflate(zipped, m);
      if out.None? {
        return Err(DataFormat);
      }
      forall k | 0 <= k < m && k < |out.value| {
        bytes[k] := out.value[k];
      }
      assert bytes[..] == Inflated(out.value, m);
      assert Decoded(src, n, inflate, decode64) == Unpacked(bytes[..], n);
    }
    r := UnpackWords(bytes, n);
  }

  /** The framed text is one whitespace-free token, never the word "null". */
  lemma FramedIsToken(bytes: seq<byte>, deflate: seq<byte> -> seq<byte>, encode64: seq<byte> -> string,
                      decode64: string -> seq<byte>, inflate: (seq<byte>, nat) -> Option<seq<byte>>)
    requires Codecs(deflate, inflate, encode64, decode64)
    ensures IsToken(Framed(bytes, deflate, encode64)) && Framed(bytes, deflate, encode64) != "null"
    ensures Framed(bytes, deflate, encode64)[0] == '@' <==> |deflate(bytes)| >= |bytes|
  {
    var zipped := deflate(bytes);
    var n := Min(|zipped|, |bytes|);
    if n == |bytes| {
      var e := encode64(bytes);
      var s := "@" + e;
      assert forall k :: 1 <= k < |s| ==> s[k] == e[k - 1] && InBase64Alphabet(e[k - 1]);
    } else {
      var e := encode64(zipped[..n]);
      assert |zipped| >= 6 && n == |zipped|;
      assert |e| == 4 * ((n + 2) / 3) >= 8;
      assert InBase64Alphabet(e[0]);
      assert forall k :: 0 <= k < |e| ==> InBase64Alphabet(e[k]);
    }
  }

  /** The facts about one encoding that the round trips use. */
  lemma Base64Of(encode64: seq<byte> -> string, decode64: string -> seq<byte>, b: seq<byte>)
    requires Base64Codec(encode64, decode64)
    ensures decode64(encode64(b)) == b
    ensures |encode64(b)| == 4 * ((|b| + 2) / 3)
    ensures forall k :: 0 <= k < |encode64(b)| ==> InBase64Alphabet(encode64(b)[k])
  {
  }

  /** The words `Unpacked` gets back from their own packing. */
  lemma UnpackedPack(ws: seq<word>)
    ensures Unpacked(Pack(ws), |ws|) == Ok(ws)
  {
    UnpackPack(ws);
  }

  /** The raw branch of the round trip. */
  lemma RawRoundTrip(ws: seq<word>, inflate: (seq<byte>, nat) -> Option<seq<byte>>,
                     encode64: seq<byte> -> string, decode64: string -> seq<byte>)
    requires Base64Codec(encode64, decode64)
    ensures Decoded("@" + encode64(Pack(ws)), |ws|, inflate, decode64) == Ok(ws)
  {
    var bytes := Pack(ws);
    var s := "@" + encode64(bytes);
    Base64Of(encode64, decode64, bytes);
    assert s[1..] == encode64(bytes);
    UnpackedPack(ws);
  }

  /** The deflated branch of the round trip. */
  lemma ZippedRoundTrip(ws: seq<word>, deflate: seq<byte> -> seq<byte>, inflate: (seq<byte>, nat) -> Option<seq<byte>>,
                        encode64: seq<byte> -> string, decode64: string -> seq<byte>)
    requires Codecs(deflate, inflate, encode64, decode64)
    requires 8 * |ws| <= INT_MAX
    ensures Decoded(encode64(deflate(Pack(ws))), |ws|, inflate, decode64) == Ok(ws)
  {
    var bytes := Pack(ws);
    var zipped := deflate(bytes);
    var s := encode64(zipped);
    Base64Of(encode64, decode64, zipped);
    assert |s| >= 8;
    assert s[0] != '@' by {
      assert InBase64Alphabet(s[0]);
    }
    assert inflate(zipped, |bytes|) == Some(bytes);
    var m := Wrap32(|ws| * 8);
    assert m == |bytes|;
    assert Inflated(bytes, m) == bytes;
    UnpackedPack(ws);
  }

  /** The framing round trip: whichever branch `encodeBase64` takes,
      `decodeBase64` with the word count gives back the words. */
  lemma FrameRoundTrip(ws: seq<word>, deflate: seq<byte> -> seq<byte>, inflate: (seq<byte>, nat) -> Option<seq<byte>>,
                       encode64: seq<byte> -> string, decode64: string -> seq<byte>)
    requires Codecs(deflate, inflate, encode64, decode64)
    requires 8 * |ws| <= INT_MAX
    ensures Decoded(Framed(Pack(ws), deflate, encode64), |ws|, inflate, decode64) == Ok(ws)
  {
    var bytes := Pack(ws);
    var zipped := deflate(bytes);
    var n := Min(|zipped|, |bytes|);
    if n == |bytes| {
      assert Framed(bytes, deflate, encode64) == "@" + encode64(bytes);
      RawRoundTrip(ws, inflate, encode64, decode64);
    } else {
      assert zipped[..n] == zipped;
      assert Framed(bytes, deflate, encode64) == encode64(zipped);
      ZippedRoundTrip(ws, deflate, inflate, encode64, decode64);
    }
  }

  // ---------------------------------------------------------------------
  // The thin-plate-spline text layout

  /** The affine part of a thin-plate spline: a square matrix and a
      translation. */
  datatype AffinePart = AffinePart(matrix: seq<seq<word>>, translation: seq<word>)

  /** The parameters of a `ThinPlateR2LogRSplineKernelTransform`: the
      number of dimensions and of landmarks, the optional affine part, the
      source landmarks (one row per dimension, one column per landmark) and
      the knot weights. */
  datatype Tps = Tps(ndims: int, nLm: int, affine: Option<AffinePart>,
                     sourceLandmarks: seq<seq<word>>, knotWeights: seq<word>)

  predicate IsMatrix(m: seq<seq<word>>, rows: int, cols: int)
  {
    |m| == rows && forall r :: 0 <= r < |m| ==> |m[r]| == cols
  }

  /** The shapes the transform class keeps its arrays in. */
  predicate TpsShape(t: Tps)
  {
    && t.ndims >= 0 && t.nLm >= 0
    && (t.affine.Some? ==> IsMatrix(t.affine.value.matrix, t.ndims, t.ndims) && |t.affine.value.translation| == t.ndims)
    && IsMatrix(t.sourceLandmarks, t.ndims, t.nLm)
    && |t.knotWeights| == t.ndims * t.nLm
  }

  /** Both number blocks, and their byte buffers, have sizes that fit in an
      `int`. */
  predicate TpsFits(t: Tps)
  {
    && IsInt(t.ndims) && IsInt(t.nLm)
    && 8 * (t.ndims * t.ndims + t.ndims) <= INT_MAX && 8 * (2 * t.nLm * t.ndims) <= INT_MAX
  }

  /** The rows of a matrix one after another. */
  function Flatten(m: seq<seq<word>>): seq<word>
  {
    if |m| == 0 then [] else Flatten(m[..|m| - 1]) + m[|m| - 1]
  }

  lemma {:induction false} FlattenLength(m: seq<seq<word>>, rows: nat, cols: nat)
    requires IsMatrix(m, rows, cols)
    ensures |Flatten(m)| == rows * cols
    decreases rows
  {
    if rows > 0 {
      FlattenLength(m[..rows - 1], rows - 1, cols);
    }
  }

  /** Row `r` of a matrix with `cols` columns sits at `r * cols` in the
      flattened sequence. */
  lemma {:induction false} FlattenSlot(m: seq<seq<word>>, rows: nat, cols: nat, r: nat)
    requires IsMatrix(m, rows, cols) && r < rows
    ensures |Flatten(m)| == rows * cols && r * cols + cols <= rows * cols
    ensures Flatten(m)[r * cols .. r * cols + cols] == m[r]
    decreases rows
  {
    RowInBlock(r, rows, cols);
    var init := m[..rows - 1];
    var front, last := Flatten(init), m[rows - 1];
    assert Flatten(m) == front + last;
    assert |front| == (rows - 1) * cols && |front| + cols == rows * cols by {
      FlattenLength(init, rows - 1, cols);
      RowInBlock(rows - 1, rows, cols);
    }
    var lo := r * cols;
    if r < rows - 1 {
      FlattenSlot(init, rows - 1, cols, r);
      assert init[r] == m[r];
      RowInBlock(r, rows - 1, cols);
      SliceOfFront(front, last, lo, lo + cols);
    } else {
      assert lo == |front|;
      SliceOfBack(front, last);
    }
  }

  lemma SliceOfFront(a: seq<word>, b: seq<word>, i: int, j: int)
    requires 0 <= i <= j <= |a|
    ensures (a + b)[i .. j] == a[i .. j]
  {
  }

  lemma SliceOfBack(a: seq<word>, b: seq<word>)
    ensures (a + b)[|a| .. |a| + |b|] == b
  {
  }

  lemma MulLe(a: nat, b: nat, c: nat)
    requires a <= b
    ensures a * c <= b * c
  {
  }

  /** The coordinates of each landmark in turn: landmark `l` is column `l`
      of the source landmarks. */
  function Transposed(src: seq<seq<word>>, ndims: nat, nLm: nat): (r: seq<seq<word>>)
    requires IsMatrix(src, ndims, nLm)
    ensures IsMatrix(r, nLm, ndims)
  {
    seq(nLm, l requires 0 <= l < nLm => seq(ndims, d requires 0 <= d < ndims => src[d][l]))
  }

  /** The affine block: the matrix row by row, then the translation. */
  function AffineBlock(a: AffinePart): seq<word>
  {
    Flatten(a.matrix) + a.translation
  }

  /** The landmark block: the landmarks one after another, then the knot
      weights. */
  function LandmarkBlock(t: Tps): seq<word>
    requires TpsShape(t)
  {
    Flatten(Transposed(t.sourceLandmarks, t.ndims, t.nLm)) + t.knotWeights
  }

  /** The tokens `toDataString` appends, separated by single spaces. */
  function DataTokens(t: Tps, deflate: seq<byte> -> seq<byte>, encode64: seq<byte> -> string): seq<string>
    requires TpsShape(t)
  {
    ["ThinPlateSplineR2LogR", IntToString(t.ndims), IntToString(t.nLm)]
    + [if t.affine.None? then "null" else Framed(Pack(AffineBlock(t.affine.value)), deflate, encode64)]
    + [Framed(Pack(LandmarkBlock(t)), deflate, encode64)]
  }

  /** Row `k` of `rows` rows of `cols` columns ends inside the block. */
  lemma RowInBlock(k: nat, rows: nat, cols: nat)
    requires k < rows
    ensures k * cols + cols <= rows * cols
    ensures (k + 1) * cols == k * cols + cols
  {
    MulLe(k + 1, rows, cols);
  }

  /** Entry `(r, c)` of the `rows` by `cols` matrix that `values` holds
      row by row. */
  function Entry(values: seq<word>, rows: nat, cols: nat, r: nat, c: nat): word
    requires rows * cols <= |values| && r < rows && c < cols
  {
    RowInBlock(r, rows, cols);
    values[r * cols + c]
  }

  /** The matrix `values` holds row by row, with `cols` columns. */
  function Rows(values: seq<word>, rows: nat, cols: nat): seq<seq<word>>
    requires rows * cols <= |values|
  {
    seq(rows, r requires 0 <= r < rows =>
      seq(cols, c requires 0 <= c < cols => Entry(values, rows, cols, r, c)))
  }

  lemma RowsShape(values: seq<word>, rows: nat, cols: nat)
    requires rows * cols <= |values|
    ensures IsMatrix(Rows(values, rows, cols), rows, cols)
  {
  }

  /** The affine part `initTps` reads from its number block. */
  function AffineOf(values: seq<word>, ndims: nat): AffinePart
    requires ndims * ndims + ndims <= |values|
  {
    AffinePart(Rows(values, ndims, ndims), values[ndims * ndims .. ndims * ndims + ndims])
  }

  /** The source landmarks `initTps` reads: `srcPts[d][l]` is value
      `l * ndims + d`. */
  function LandmarksOf(values: seq<word>, ndims: nat, nLm: nat): seq<seq<word>>
    requires nLm * ndims <= |values|
  {
    seq(ndims, d requires 0 <= d < ndims =>
      seq(nLm, l requires 0 <= l < nLm => Entry(values, nLm, ndims, l, d)))
  }

  lemma LandmarksShape(values: seq<word>, ndims: nat, nLm: nat)
    requires nLm * ndims <= |values|
    ensures IsMatrix(LandmarksOf(values, ndims, nLm), ndims, nLm)
  {
  }

  const AFFINE_DECODE_FAILED: string := "Failed decoding affine matrix."
  const LANDMARKS_DECODE_FAILED: string := "Failed decoding landmarks and weights."

  /** A `DataFormatException` of `decodeBase64` becomes a
      `NumberFormatException` with the given message; every other
      exception passes through. */
  function Rethrown(e: JavaException, message: string): (r: JavaException)
    ensures e == DataFormat ==> r == NumberFormat(message)
    ensures e != DataFormat ==> r == e
  {
    if e == DataFormat then NumberFormat(message) else e
  }

  /** The affine part of `initTps` from its field: none for "null",
      otherwise `ndims * ndims + ndims` decoded numbers (in `int`
      arithmetic), after the matrix and vector are allocated. */
  function ParsedAffine(field: string, ndims: int, inflate: (seq<byte>, nat) -> Option<seq<byte>>,
                        decode64: string -> seq<byte>): Result<Option<AffinePart>, JavaException>
  {
    if field == "null" then Ok(None)
    else if ndims < 0 then Err(NegativeArraySize)
    else match Decoded(field, Wrap32(Wrap32(ndims * ndims) + ndims), inflate, decode64)
      case Err(e) => Err(Rethrown(e, AFFINE_DECODE_FAILED))
      case Ok(values) =>
        if |values| < ndims * ndims + ndims then Err(ArrayIndexOutOfBounds)
        else Ok(Some(AffineOf(values, ndims)))
  }

  /** The landmarks and knot weights of `initTps` from their field:
      `2 * nLm * ndims` decoded numbers (in `int` arithmetic), then the
      allocation of `srcPts` and of `dMtxDat` (`nLm * ndims` entries, in
      `int` arithmetic) and the two copying loops. */
  function ParsedLandmarks(field: string, ndims: int, nLm: int, inflate: (seq<byte>, nat) -> Option<seq<byte>>,
                           decode64: string -> seq<byte>): Result<(seq<seq<word>>, seq<word>), JavaException>
  {
    match Decoded(field, Wrap32(Wrap32(2 * nLm) * ndims), inflate, decode64)
      case Err(e) => Err(Rethrown(e, LANDMARKS_DECODE_FAILED))
      case Ok(values) => LandmarksFrom(values, ndims, nLm)
  }

  /** What `initTps` makes of the decoded landmark block: the allocation
      of `srcPts`, its copying loop, the allocation of `dMtxDat` and its
      copying loop, each with the exception it can throw. */
  function LandmarksFrom(values: seq<word>, ndims: int, nLm: int): Result<(seq<seq<word>>, seq<word>), JavaException>
  {
    if ndims < 0 || nLm < 0 then Err(NegativeArraySize)
    else
      ProductFacts(nLm, ndims);
      if |values| < nLm * ndims then Err(ArrayIndexOutOfBounds)
      else if Wrap32(nLm * ndims) < 0 then Err(NegativeArraySize)
      else if Wrap32(nLm * ndims) < nLm * ndims || |values| < 2 * nLm * ndims then Err(ArrayIndexOutOfBounds)
      else Ok((LandmarksOf(values, ndims, nLm), values[nLm * ndims .. 2 * nLm * ndims]))
  }

  /** The sizes of the landmark block as the solver needs them. */
  lemma ProductFacts(a: nat, b: nat)
    ensures 0 <= a * b && 2 * a * b == a * b + a * b
  {
    MulLe(0, a, b);
  }

  /** `initTps(data)` as a value: the whitespace-separated fields are read
      from index 1 on (field 0 is not looked at), and a missing field,
      a malformed count or a broken block ends in the exception Java
      throws first. */
  function Parsed(data: string, inflate: (seq<byte>, nat) -> Option<seq<byte>>,
                  decode64: string -> seq<byte>): Result<Tps, JavaException>
  {
    var f := Split(data);
    if |f| < 2 then Err(ArrayIndexOutOfBounds)
    else match ParseInt(f[1])
      case Err(e) => Err(e)
      case Ok(ndims) =>
        if |f| < 3 then Err(ArrayIndexOutOfBounds)
        else match ParseInt(f[2])
          case Err(e) => Err(e)
          case Ok(nLm) =>
            if |f| < 4 then Err(ArrayIndexOutOfBounds)
            else match ParsedAffine(f[3], ndims, inflate, decode64)
              case Err(e) => Err(e)
              case Ok(affine) =>
                if |f| < 5 then Err(ArrayIndexOutOfBounds)
                else match ParsedLandmarks(f[4], ndims, nLm, inflate, decode64)
                  case Err(e) => Err(e)
                  case Ok(lw) => Ok(Tps(ndims, nLm, affine, lw.0, lw.1))
  }

  /** The rows of a two-dimensional array. */
  function Matrix(a: array2<word>): (r: seq<seq<word>>)
    reads a
    ensures IsMatrix(r, a.Length0, a.Length1)
  {
    seq(a.Length0, i requires 0 <= i < a.Length0 reads a =>
      seq(a.Length1, j requires 0 <= j < a.Length1 reads a => a[i, j]))
  }

  /** A two-dimensional array whose entries are those of `values` row by
      row holds `Rows(values)`. */
  lemma MatrixOfEntries(a: array2<word>, values: seq<word>)
    requires a.Length0 * a.Length1 <= |values|
    requires forall r, c :: 0 <= r < a.Length0 && 0 <= c < a.Length1 ==>
      a[r, c] == Entry(values, a.Length0, a.Length1, r, c)
    ensures Matrix(a) == Rows(values, a.Length0, a.Length1)
  {
    var m, w := Matrix(a), Rows(values, a.Length0, a.Length1);
    forall r | 0 <= r < a.Length0
      ensures m[r] == w[r]
    {
    }
  }

  /** One pass of the inner copying loop: row `k` of the matrix takes the
      next `Length1` values after position `l`. */
  method ReadRow(values: array<word>, aMtx: array2<word>, k: int, l: int) returns (l': int)
    requires 0 <= k < aMtx.Length0 && -1 <= l && l + aMtx.Length1 < values.Length
    modifies aMtx
    ensures l' == l + aMtx.Length1
    ensures forall r, c :: 0 <= r < aMtx.Length0 && 0 <= c < aMtx.Length1 ==>
      aMtx[r, c] == if r == k then values[l + 1 + c] else old(aMtx[r, c])
  {
    l' := l;
    for j := 0 to aMtx.Length1
      invariant l' == l + j
      invariant forall r, c :: 0 <= r < aMtx.Length0 && 0 <= c < aMtx.Length1 ==>
        aMtx[r, c] == if r == k && c < j then values[l + 1 + c] else old(aMtx[r, c])
    {
      l' := l' + 1;
      aMtx[k, j] := values[l'];
    }
  }

  /** The first copying loop of the affine branch of `initTps`: the matrix
      row by row; returns the position of the last value read. */
  method ReadMatrix(values: array<word>, aMtx: array2<word>) returns (l: int)
    requires aMtx.Length0 == aMtx.Length1
    requires aMtx.Length0 * aMtx.Length0 <= values.Length
    modifies aMtx
    ensures l == aMtx.Length0 * aMtx.Length0 - 1
    ensures Matrix(aMtx) == Rows(values[..], aMtx.Length0, aMtx.Length0)
  {
    var ndims := aMtx.Length0;
    l := -1;
    for k := 0 to ndims
      invariant l == k * ndims - 1
      invariant forall r, c :: 0 <= r < k && 0 <= c < ndims ==> aMtx[r, c] == Entry(values[..], ndims, ndims, r, c)
    {
      RowInBlock(k, ndims, ndims);
      l := ReadRow(values, aMtx, k, l);
    }
    MatrixOfEntries(aMtx, values[..]);
  }

  /** The second copying loop of the affine branch: the translation
      follows the matrix. */
  method ReadTranslation(values: array<word>, bVec: array<word>, l: int) returns (l': int)
    requires values != bVec && -1 <= l && l + bVec.Length < values.Length
    modifies bVec
    ensures l' == l + bVec.Length
    ensures bVec[..] == values[l + 1 .. l + 1 + bVec.Length]
  {
    l' := l;
    for j := 0 to bVec.Length
      invariant l' == l + j
      invariant forall c :: 0 <= c < j ==> bVec[c] == values[l + 1 + c]
    {
      l' := l' + 1;
      bVec[j] := values[l'];
    }
  }

  /** The two copying loops of the affine branch of `initTps`. */
  method ReadAffine(values: array<word>, aMtx: array2<word>, bVec: array<word>)
    requires aMtx.Length0 == aMtx.Length1 == bVec.Length && values != bVec
    requires aMtx.Length0 * aMtx.Length0 + aMtx.Length0 <= values.Length
    modifies aMtx, bVec
    ensures Matrix(aMtx) == AffineOf(values[..], aMtx.Length0).matrix
    ensures bVec[..] == AffineOf(values[..], aMtx.Length0).translation
  {
    var l := ReadMatrix(values, aMtx);
    l := ReadTranslation(values, bVec, l);
  }

  lemma LandmarksOfEntries(a: array2<word>, values: seq<word>)
    requires a.Length1 * a.Length0 <= |values|
    requires forall d, l :: 0 <= d < a.Length0 && 0 <= l < a.Length1 ==>
      a[d, l] == Entry(values, a.Length1, a.Length0, l, d)
    ensures Matrix(a) == LandmarksOf(values, a.Length0, a.Length1)
  {
    var m, w := Matrix(a), LandmarksOf(values, a.Length0, a.Length1);
    forall d | 0 <= d < a.Length0
      ensures m[d] == w[d]
    {
    }
  }

  /** One pass of the inner loop over the source landmarks: the
      coordinates of landmark `l` are the next `Length0` values after
      position `k`. */
  method ReadLandmark(values: array<word>, srcPts: array2<word>, l: int, k: int) returns (k': int)
    requires 0 <= l < srcPts.Length1 && -1 <= k && k + srcPts.Length0 < values.Length
    modifies srcPts
    ensures k' == k + srcPts.Length0
    ensures forall d, j :: 0 <= d < srcPts.Length0 && 0 <= j < srcPts.Length1 ==>
      srcPts[d, j] == if j == l then values[k + 1 + d] else old(srcPts[d, j])
  {
    k' := k;
    for d := 0 to srcPts.Length0
      invariant k' == k + d
      invariant forall e, j :: 0 <= e < srcPts.Length0 && 0 <= j < srcPts.Length1 ==>
        srcPts[e, j] == if j == l && e < d then values[k + 1 + e] else old(srcPts[e, j])
    {
      k' := k' + 1;
      srcPts[d, l] := values[k'];
    }
  }

  /** The loop over the source landmarks in `initTps`, landmark by
      landmark; returns the position of the last value read. */
  method ReadLandmarks(values: array<word>, srcPts: array2<word>) returns (k: int)
    requires srcPts.Length1 * srcPts.Length0 <= values.Length
    modifies srcPts
    ensures k == srcPts.Length1 * srcPts.Length0 - 1
    ensures Matrix(srcPts) == LandmarksOf(values[..], srcPts.Length0, srcPts.Length1)
  {
    var ndims, nLm := srcPts.Length0, srcPts.Length1;
    k := -1;
    for l := 0 to nLm
      invariant k == l * ndims - 1
      invariant forall d, j :: 0 <= d < ndims && 0 <= j < l ==> srcPts[d, j] == Entry(values[..], nLm, ndims, j, d)
    {
      RowInBlock(l, nLm, ndims);
      k := ReadLandmark(values, srcPts, l, k);
    }
    LandmarksOfEntries(srcPts, values[..]);
  }

  /** One pass of the inner loop over the knot weights: the next `count`
      values after position `k` go to the slots after position `m`. */
  method CopyRun(values: array<word>, dMtxDat: array<word>, count: nat, m: int, k: int) returns (m': int, k': int)
    requires values != dMtxDat
    requires -1 <= m && m + count < dMtxDat.Length && -1 <= k && k + count < values.Length
    modifies dMtxDat
    ensures m' == m + count && k' == k + count
    ensures forall p :: 0 <= p < dMtxDat.Length ==>
      dMtxDat[p] == if m < p <= m + count then values[k + p - m] else old(dMtxDat[p])
  {
    m', k' := m, k;
    for d := 0 to count
      invariant m' == m + d && k' == k + d
      invariant forall p :: 0 <= p < dMtxDat.Length ==>
        dMtxDat[p] == if m < p <= m + d then values[k + p - m] else old(dMtxDat[p])
    {
      m' := m' + 1;
      k' := k' + 1;
      dMtxDat[m'] := values[k'];
    }
  }

  /** The loop over the knot weights in `initTps`: `nLm * ndims` values
      after position `k`. */
  method ReadWeights(values: array<word>, dMtxDat: array<word>, ndims: nat, nLm: nat, k: int) returns (k': int)
    requires values != dMtxDat && nLm * ndims == dMtxDat.Length
    requires -1 <= k && k + nLm * ndims < values.Length
    modifies dMtxDat
    ensures k' == k + nLm * ndims
    ensures dMtxDat[..] == values[k + 1 .. k + 1 + nLm * ndims]
  {
    var m := -1;
    k' := k;
    for l := 0 to nLm
      invariant m == l * ndims - 1 && k' == k + l * ndims
      invariant forall p :: 0 <= p <= m ==> dMtxDat[p] == values[k + 1 + p]
    {
      RowInBlock(l, nLm, ndims);
      m, k' := CopyRun(values, dMtxDat, ndims, m, k');
    }
    assert dMtxDat[..] == values[k + 1 .. k + 1 + nLm * ndims];
  }

  /** The affine branch of `initTps`: allocate the matrix and vector,
      decode the block and copy it out. */
  method InitAffine(field: string, ndims: int, inflate: (seq<byte>, nat) -> Option<seq<byte>>,
                    decode64: string -> seq<byte>) returns (r: Result<Option<AffinePart>, JavaException>)
    ensures r == ParsedAffine(field, ndims, inflate, decode64)
  {
    if field == "null" {
      return Ok(None);
    }
    if ndims < 0 {
      return Err(NegativeArraySize);
    }
    var aMtx := new word[ndims, ndims];
    var bVec := new word[ndims];
    var count := Wrap32(Wrap32(ndims * ndims) + ndims);
    var decoded := DecodeBase64(field, count, inflate, decode64);
    if decoded.Err? {
      return Err(Rethrown(decoded.error, AFFINE_DECODE_FAILED));
    }
    var values := decoded.value;
    if values.Length < ndims * ndims + ndims {
      return Err(ArrayIndexOutOfBounds);
    }
    ReadAffine(values, aMtx, bVec);
    r := Ok(Some(AffinePart(Matrix(aMtx), bVec[..])));
  }

  /** The landmark part of `initTps`: decode the block, then allocate and
      fill the source landmarks and the knot weights. */
  method InitLandmarks(field: string, ndims: int, nLm: int, inflate: (seq<byte>, nat) -> Option<seq<byte>>,
                       decode64: string -> seq<byte>) returns (r: Result<(seq<seq<word>>, seq<word>), JavaException>)
    ensures r == ParsedLandmarks(field, ndims, nLm, inflate, decode64)
  {
    var decoded := DecodeBase64(field, Wrap32(Wrap32(2 * nLm) * ndims), inflate, decode64);
    if decoded.Err? {
      return Err(Rethrown(decoded.error, LANDMARKS_DECODE_FAILED));
    }
    r := CopyLandmarks(decoded.value, ndims, nLm);
  }

  /** The copying half of the landmark part of `initTps`. */
  method CopyLandmarks(values: array<word>, ndims: int, nLm: int) returns (r: Result<(seq<seq<word>>, seq<word>), JavaException>)
    ensures r == LandmarksFrom(values[..], ndims, nLm)
  {
    if ndims < 0 || nLm < 0 {
      return Err(NegativeArraySize);
    }
    ProductFacts(nLm, ndims);
    var srcPts := new word[ndims, nLm];
    if values.Length < nLm * ndims {
      return Err(ArrayIndexOutOfBounds);
    }
    var k := ReadLandmarks(values, srcPts);
    var size := Wrap32(nLm * ndims);
    if size < 0 {
      return Err(NegativeArraySize);
    }
    var dMtxDat := new word[size];
    if size < nLm * ndims || values.Length < 2 * nLm * ndims {
      return Err(ArrayIndexOutOfBounds);
    }
    k := ReadWeights(values, dMtxDat, ndims, nLm, k);
    assert dMtxDat[..] == values[..][nLm * ndims .. 2 * nLm * ndims];
    r := Ok((Matrix(srcPts), dMtxDat[..]));
  }

  /** `initTps(data)`. */
  method InitTps(data: string, inflate: (seq<byte>, nat) -> Option<seq<byte>>,
                 decode64: string -> seq<byte>) returns (r: Result<Tps, JavaException>)
    ensures r == Parsed(data, inflate, decode64)
  {
    var fields := Split(data);
    var i := 0;
    if |fields| <= i + 1 {
      return Err(ArrayIndexOutOfBounds);
    }
    i := i + 1;
    var ndims := ParseInt(fields[i]);
    if ndims.Err? {
      return Err(ndims.error);
    }
    if |fields| <= i + 1 {
      return Err(ArrayIndexOutOfBounds);
    }
    i := i + 1;
    var nLm := ParseInt(fields[i]);
    if nLm.Err? {
      return Err(nLm.error);
    }
    if |fields| <= i + 1 {
      return Err(ArrayIndexOutOfBounds);
    }
    i := i + 1;
    var affine := InitAffine(fields[i], ndims.value, inflate, decode64);
    if affine.Err? {
      return Err(affine.error);
    }
    if |fields| <= i + 1 {
      return Err(ArrayIndexOutOfBounds);
    }
    i := i + 1;
    var landmarks := InitLandmarks(fields[i], ndims.value, nLm.value, inflate, decode64);
    if landmarks.Err? {
      return Err(landmarks.error);
    }
    r := Ok(Tps(ndims.value, nLm.value, affine.value, landmarks.value.0, landmarks.value.1));
  }

  // ---------------------------------------------------------------------
  // toDataString

  /** The text `toDataString` leaves in its builder. */
  function DataString(t: Tps, deflate: seq<byte> -> seq<byte>, encode64: seq<byte> -> string): string
    requires TpsShape(t)
  {
    JoinSpaced(DataTokens(t, deflate, encode64))
  }

  /** An inner copying loop of `toDataString`: the values of `src` go to
      the slots after position `k`. */
  method WriteRun(buffer: array<word>, k: int, src: seq<word>) returns (k': int)
    requires -1 <= k && k + |src| < buffer.Length
    modifies buffer
    ensures k' == k + |src|
    ensures forall p :: 0 <= p < buffer.Length ==>
      buffer[p] == if k < p <= k + |src| then src[p - k - 1] else old(buffer[p])
  {
    k' := k;
    for j := 0 to |src|
      invariant k' == k + j
      invariant forall p :: 0 <= p < buffer.Length ==>
        buffer[p] == if k < p <= k + j then src[p - k - 1] else old(buffer[p])
    {
      k' := k' + 1;
      buffer[k'] := src[j];
    }
  }

  /** The rows of `m`, one after another, written after position `-1`. */
  method WriteRows(buffer: array<word>, m: seq<seq<word>>, rows: nat, cols: nat) returns (k: int)
    requires IsMatrix(m, rows, cols) && rows * cols <= buffer.Length
    modifies buffer
    ensures k == rows * cols - 1 && |Flatten(m)| == rows * cols
    ensures forall p :: 0 <= p <= k ==> buffer[p] == Flatten(m)[p]
  {
    FlattenLength(m, rows, cols);
    ghost var f := Flatten(m);
    k := -1;
    for i := 0 to rows
      invariant k == i * cols - 1
      invariant forall p :: 0 <= p <= k ==> buffer[p] == f[p]
    {
      FlattenSlot(m, rows, cols, i);
      RowInBlock(i, rows, cols);
      ghost var lo := k + 1;
      assert (i + 1) * cols == lo + cols;
      RowEntries(f, m[i], lo);
      k := WriteRun(buffer, k, m[i]);
    }
  }

  lemma RowEntries(f: seq<word>, row: seq<word>, lo: int)
    requires 0 <= lo && lo + |row| <= |f| && f[lo .. lo + |row|] == row
    ensures forall p :: lo <= p < lo + |row| ==> f[p] == row[p - lo]
  {
    forall p | lo <= p < lo + |row|
      ensures f[p] == row[p - lo]
    {
      assert f[lo .. lo + |row|][p - lo] == f[p];
    }
  }

  /** The affine buffer of `toDataString`: the matrix row by row, then the
      translation. */
  method FillAffineBuffer(a: AffinePart, ndims: nat) returns (buffer: array<word>)
    requires IsMatrix(a.matrix, ndims, ndims) && |a.translation| == ndims
    requires IsInt(ndims * ndims + ndims)
    ensures fresh(buffer) && buffer.Length == ndims * ndims + ndims && buffer[..] == AffineBlock(a)
  {
    assert IsInt(ndims * ndims);
    buffer := new word[Wrap32(Wrap32(ndims * ndims) + ndims)](_ => 0);
    var k := WriteRows(buffer, a.matrix, ndims, ndims);
    k := WriteRun(buffer, k, a.translation);
    ghost var block := AffineBlock(a);
    assert forall p :: 0 <= p < buffer.Length ==> buffer[p] == block[p];
  }

  /** The buffer size of the landmark block: `2 * nLm * ndims` in `int`
      arithmetic, which does not wrap here. */
  lemma LandmarkBufferSize(t: Tps)
    requires TpsShape(t) && TpsFits(t)
    ensures Wrap32(Wrap32(2 * t.nLm) * t.ndims) == 2 * t.nLm * t.ndims == |LandmarkBlock(t)|
    ensures Wrap32(t.ndims * t.nLm) == t.ndims * t.nLm
  {
    var p := t.nLm * t.ndims;
    assert t.ndims * t.nLm == p && 2 * t.nLm * t.ndims == 2 * p;
    assert 0 <= p by {
      MulLe(0, t.nLm, t.ndims);
    }
    Wrap32Mul(2 * t.nLm, t.ndims);
    FlattenLength(Transposed(t.sourceLandmarks, t.ndims, t.nLm), t.nLm, t.ndims);
  }

  /** The landmark buffer of `toDataString`: the coordinates landmark by
      landmark, then the knot weights. */
  method FillLandmarkBuffer(t: Tps) returns (buffer: array<word>)
    requires TpsShape(t) && TpsFits(t)
    ensures fresh(buffer) && buffer.Length == 2 * t.nLm * t.ndims && buffer[..] == LandmarkBlock(t)
  {
    var ndims, nLm := t.ndims, t.nLm;
    LandmarkBufferSize(t);
    buffer := new word[Wrap32(Wrap32(2 * nLm) * ndims)](_ => 0);
    var k := WriteRows(buffer, Transposed(t.sourceLandmarks, ndims, nLm), nLm, ndims);
    k := WriteRun(buffer, k, t.knotWeights[..Wrap32(ndims * nLm)]);
    ghost var block := LandmarkBlock(t);
    assert forall p :: 0 <= p < buffer.Length ==> buffer[p] == block[p];
  }

  /** `toDataString(builder, tps)` on an empty builder. */
  method ToDataString(t: Tps, deflate: seq<byte> -> seq<byte>, encode64: seq<byte> -> string) returns (data: string)
    requires TpsShape(t) && TpsFits(t)
    ensures data == DataString(t, deflate, encode64)
  {
    ghost var tokens := DataTokens(t, deflate, encode64);
    data := "ThinPlateSplineR2LogR";
    ghost var written := [data];
    Append(data, written, IntToString(t.ndims));
    data, written := data + " " + IntToString(t.ndims), written + [IntToString(t.ndims)];
    Append(data, written, IntToString(t.nLm));
    data, written := data + " " + IntToString(t.nLm), written + [IntToString(t.nLm)];
    var affineToken: string;
    if t.affine.None? {
      affineToken := "null";
    } else {
      ProductFacts(t.ndims, t.ndims);
      var buffer := FillAffineBuffer(t.affine.value, t.ndims);
      var encoded := EncodeBase64(buffer, deflate, encode64);
      affineToken := encoded.value;
      assert affineToken == Framed(Pack(AffineBlock(t.affine.value)), deflate, encode64);
    }
    Append(data, written, affineToken);
    data, written := data + " " + affineToken, written + [affineToken];
    var buffer := FillLandmarkBuffer(t);
    var encoded := EncodeBase64(buffer, deflate, encode64);
    assert encoded.value == Framed(Pack(LandmarkBlock(t)), deflate, encode64);
    Append(data, written, encoded.value);
    data, written := data + " " + encoded.value, written + [encoded.value];
    DataTokensList(t, deflate, encode64);
    assert written == tokens;
  }

  /** The five fields, one by one. */
  lemma DataTokensList(t: Tps, deflate: seq<byte> -> seq<byte>, encode64: seq<byte> -> string)
    requires TpsShape(t)
    ensures DataTokens(t, deflate, encode64) ==
      ["ThinPlateSplineR2LogR"] + [IntToString(t.ndims)] + [IntToString(t.nLm)]
      + [if t.affine.None? then "null" else Framed(Pack(AffineBlock(t.affine.value)), deflate, encode64)]
      + [Framed(Pack(LandmarkBlock(t)), deflate, encode64)]
  {
  }

  /** One `append(' ').append(token)` step keeps the text the space-joined
    layout of the tokens written so far. */
  lemma Append(data: string, written: seq<string>, token: string)
    requires |written| >= 1 && data == JoinSpaced(written)
    ensures data + " " + token == JoinSpaced(written + [token])
  {
    JoinSpacedSnoc(written, token);
  }

  // ---------------------------------------------------------------------
  // The round trip of the spline text

  /** `initTps` reads the affine part back from the block `toDataString`
      writes. */
  lemma AffineBlockRoundTrip(a: AffinePart, ndims: nat)
    requires IsMatrix(a.matrix, ndims, ndims) && |a.translation| == ndims
    ensures |AffineBlock(a)| == ndims * ndims + ndims
    ensures AffineOf(AffineBlock(a), ndims) == a
  {
    var block := AffineBlock(a);
    FlattenLength(a.matrix, ndims, ndims);
    var rows := Rows(block, ndims, ndims);
    forall r | 0 <= r < ndims
      ensures rows[r] == a.matrix[r]
    {
      BlockRow(a.matrix, ndims, ndims, a.translation, r);
    }
    assert block[ndims * ndims ..] == a.translation;
  }

  /** Row `r` of a block that starts with a flattened matrix is that
      matrix's row `r`. */
  lemma BlockRow(m: seq<seq<word>>, rows: nat, cols: nat, rest: seq<word>, r: nat)
    requires IsMatrix(m, rows, cols) && r < rows
    ensures rows * cols <= |Flatten(m) + rest|
    ensures Rows(Flatten(m) + rest, rows, cols)[r] == m[r]
  {
    var flat := Flatten(m);
    var lo := r * cols;
    assert |flat| == rows * cols && lo + cols <= |flat| && flat[lo .. lo + cols] == m[r] by {
      FlattenSlot(m, rows, cols, r);
      RowInBlock(r, rows, cols);
    }
    var block := flat + rest;
    SliceOfFront(flat, rest, lo, lo + cols);
    var row := Rows(block, rows, cols)[r];
    forall c | 0 <= c < cols
      ensures row[c] == m[r][c]
    {
      assert row[c] == block[lo + c];
      assert block[lo .. lo + cols][c] == block[lo + c];
    }
  }

  /** `initTps` reads the landmarks and the knot weights back from the
      block `toDataString` writes. */
  lemma LandmarkBlockRoundTrip(t: Tps)
    requires TpsShape(t)
    ensures |LandmarkBlock(t)| == 2 * t.nLm * t.ndims
    ensures LandmarksOf(LandmarkBlock(t), t.ndims, t.nLm) == t.sourceLandmarks
    ensures LandmarkBlock(t)[t.nLm * t.ndims .. 2 * t.nLm * t.ndims] == t.knotWeights
  {
    var ndims, nLm := t.ndims, t.nLm;
    var columns := Transposed(t.sourceLandmarks, ndims, nLm);
    var block := LandmarkBlock(t);
    FlattenLength(columns, nLm, ndims);
    assert 2 * nLm * ndims == nLm * ndims + nLm * ndims;
    var src := LandmarksOf(block, ndims, nLm);
    forall d | 0 <= d < ndims
      ensures src[d] == t.sourceLandmarks[d]
    {
      forall l | 0 <= l < nLm
        ensures src[d][l] == t.sourceLandmarks[d][l]
      {
        assert src[d][l] == Rows(block, nLm, ndims)[l][d];
        BlockRow(columns, nLm, ndims, t.knotWeights, l);
      }
    }
    assert block[nLm * ndims ..] == t.knotWeights;
  }

  lemma ParsedAffineRoundTrip(a: AffinePart, ndims: nat, deflate: seq<byte> -> seq<byte>,
                              inflate: (seq<byte>, nat) -> Option<seq<byte>>,
                              encode64: seq<byte> -> string, decode64: string -> seq<byte>)
    requires Codecs(deflate, inflate, encode64, decode64)
    requires IsMatrix(a.matrix, ndims, ndims) && |a.translation| == ndims
    requires 8 * (ndims * ndims + ndims) <= INT_MAX
    ensures ParsedAffine(Framed(Pack(AffineBlock(a)), deflate, encode64), ndims, inflate, decode64) == Ok(Some(a))
  {
    var block := AffineBlock(a);
    var field := Framed(Pack(block), deflate, encode64);
    var count := Wrap32(Wrap32(ndims * ndims) + ndims);
    assert |block| == ndims * ndims + ndims && AffineOf(block, ndims) == a by {
      AffineBlockRoundTrip(a, ndims);
    }
    assert field != "null" && Decoded(field, count, inflate, decode64) == Ok(block) by {
      AffineFieldDecodes(a, ndims, deflate, inflate, encode64, decode64);
    }
  }

  /** The affine field is not "null" and decodes to the affine block. */
  lemma AffineFieldDecodes(a: AffinePart, ndims: nat, deflate: seq<byte> -> seq<byte>,
                           inflate: (seq<byte>, nat) -> Option<seq<byte>>,
                           encode64: seq<byte> -> string, decode64: string -> seq<byte>)
    requires Codecs(deflate, inflate, encode64, decode64)
    requires IsMatrix(a.matrix, ndims, ndims) && |a.translation| == ndims
    requires 8 * (ndims * ndims + ndims) <= INT_MAX
    ensures var field := Framed(Pack(AffineBlock(a)), deflate, encode64);
      && field != "null"
      && Decoded(field, Wrap32(Wrap32(ndims * ndims) + ndims), inflate, decode64) == Ok(AffineBlock(a))
  {
    var block := AffineBlock(a);
    var size := ndims * ndims;
    assert |block| == size + ndims by {
      FlattenLength(a.matrix, ndims, ndims);
    }
    assert Wrap32(Wrap32(size) + ndims) == |block| by {
      ProductFacts(ndims, ndims);
    }
    FramedIsToken(Pack(block), deflate, encode64, decode64, inflate);
    FrameRoundTrip(block, deflate, inflate, encode64, decode64);
  }

  lemma ParsedLandmarksRoundTrip(t: Tps, deflate: seq<byte> -> seq<byte>, inflate: (seq<byte>, nat) -> Option<seq<byte>>,
                                 encode64: seq<byte> -> string, decode64: string -> seq<byte>)
    requires Codecs(deflate, inflate, encode64, decode64)
    requires TpsShape(t) && TpsFits(t)
    ensures ParsedLandmarks(DataTokens(t, deflate, encode64)[4], t.ndims, t.nLm, inflate, decode64)
      == Ok((t.sourceLandmarks, t.knotWeights))
  {
    var block := LandmarkBlock(t);
    LandmarkBlockRoundTrip(t);
    LandmarkBufferSize(t);
    assert Wrap32(t.nLm * t.ndims) == t.nLm * t.ndims;
    FrameRoundTrip(block, deflate, inflate, encode64, decode64);
  }

  /** The text layout of a thin-plate spline round-trips: `initTps` reads
      back exactly the spline `toDataString` wrote, for every spline whose
      arrays have their declared shapes and whose blocks fit in an `int`,
      given a Base64 codec and a zlib codec that invert themselves. */
  lemma TpsRoundTrip(t: Tps, deflate: seq<byte> -> seq<byte>, inflate: (seq<byte>, nat) -> Option<seq<byte>>,
                     encode64: seq<byte> -> string, decode64: string -> seq<byte>)
    requires Codecs(deflate, inflate, encode64, decode64)
    requires TpsShape(t) && TpsFits(t)
    ensures Parsed(DataString(t, deflate, encode64), inflate, decode64) == Ok(t)
  {
    SplitDataString(t, deflate, inflate, encode64, decode64);
    var f := Split(DataString(t, deflate, encode64));
    ParseIntToString(t.ndims);
    ParseIntToString(t.nLm);
    assert ParseInt(f[1]) == Ok(t.ndims) && ParseInt(f[2]) == Ok(t.nLm);
    if t.affine.Some? {
      ParsedAffineRoundTrip(t.affine.value, t.ndims, deflate, inflate, encode64, decode64);
    }
    assert ParsedAffine(f[3], t.ndims, inflate, decode64) == Ok(t.affine);
    ParsedLandmarksRoundTrip(t, deflate, inflate, encode64, decode64);
    assert ParsedLandmarks(f[4], t.ndims, t.nLm, inflate, decode64) == Ok((t.sourceLandmarks, t.knotWeights));
  }

  /** The text `toDataString` writes splits back into its five fields. */
  lemma SplitDataString(t: Tps, deflate: seq<byte> -> seq<byte>, inflate: (seq<byte>, nat) -> Option<seq<byte>>,
                        encode64: seq<byte> -> string, decode64: string -> seq<byte>)
    requires Codecs(deflate, inflate, encode64, decode64)
    requires TpsShape(t)
    ensures Split(DataString(t, deflate, encode64)) == DataTokens(t, deflate, encode64)
  {
    var tokens := DataTokens(t, deflate, encode64);
    DataTokensAreTokens(t, deflate, inflate, encode64, decode64);
    SplitJoinSpaced(tokens);
  }

  /** None of the five fields is empty or holds whitespace. */
  lemma DataTokensAreTokens(t: Tps, deflate: seq<byte> -> seq<byte>, inflate: (seq<byte>, nat) -> Option<seq<byte>>,
                            encode64: seq<byte> -> string, decode64: string -> seq<byte>)
    requires Codecs(deflate, inflate, encode64, decode64)
    requires TpsShape(t)
    ensures forall k :: 0 <= k < |DataTokens(t, deflate, encode64)| ==> IsToken(DataTokens(t, deflate, encode64)[k])
  {
    var tokens := DataTokens(t, deflate, encode64);
    KindIsToken();
    if t.affine.Some? {
      FramedIsToken(Pack(AffineBlock(t.affine.value)), deflate, encode64, decode64, inflate);
    }
    FramedIsToken(Pack(LandmarkBlock(t)), deflate, encode64, decode64, inflate);
    assert IsToken(tokens[0]) && IsToken(tokens[1]) && IsToken(tokens[2]) && IsToken(tokens[3]) && IsToken(tokens[4]);
  }

  lemma KindIsToken()
    ensures IsToken("ThinPlateSplineR2LogR")
  {
    var kind := "ThinPlateSplineR2LogR";
    assert forall k :: 0 <= k < |kind| ==> !IsWhitespace(kind[k]);
  }


  // ---------------------------------------------------------------------
  // The serializable wrapper

  const TPS_CLASS: string := "bdv.img.TpsTransformWrapper"
  const AFFINE3D_CLASS: string := "net.imglib2.realtransform.AffineTransform3D"
  const TRANSLATION3D_CLASS: string := "net.imglib2.realtransform.Translation3D"

  /** The row-packed 3 x 4 matrix of the identity, as `double` bit
      patterns (1.0 is 0x3ff0000000000000). */
  const IDENTITY_ROW_PACKED: seq<word> :=
    [0x3ff0000000000000, 0, 0, 0, 0, 0x3ff0000000000000, 0, 0, 0, 0, 0x3ff0000000000000, 0]

  /** The invertible real transforms the wrapper meets: a
      `TpsTransformWrapper` with its dimension count and spline, an
      `AffineGet` with its class name and its row-packed matrix, or a
      transform of some other class that is not affine. */
  datatype RealTransform =
    | TpsWrapper(numDims: int, tps: Tps)
    | Affine(className: string, rowPacked: seq<word>)
    | Other(className: string)
  {
    /** `getClass().getName()`. */
    function ClassName(): string
    {
      if TpsWrapper? then TPS_CLASS else className
    }
  }

  /** The serialized fields of the wrapper; `None` stands for `null`. */
  datatype Fields = Fields(transformType: Option<string>, dataString: Option<string>, data: Option<seq<word>>)

  /** What `encode` needs beyond what it checks: a spline it writes has
      the shapes of its arrays and blocks that fit in an `int`. */
  predicate EncodeReady(t: Option<RealTransform>)
  {
    t.Some? && t.value.TpsWrapper? ==> TpsShape(t.value.tps) && TpsFits(t.value.tps)
  }

  /** `encode()` on `transform == t` and fields `f`, with the null branch
      ending the method: the outcome and the new fields. A transform whose
      class name is that of the spline wrapper is cast to it; any other is
      recorded as "affine" and cast to `AffineGet`. */
  function Encoded(t: Option<RealTransform>, f: Fields, deflate: seq<byte> -> seq<byte>,
                   encode64: seq<byte> -> string): (Result<(), JavaException>, Fields)
    requires EncodeReady(t)
  {
    match t
    case None => (Ok(()), f.(transformType := Some(""), dataString := Some("")))
    case Some(x) =>
      if x.ClassName() == TPS_CLASS then
        match x
        case TpsWrapper(_, tps) =>
          (Ok(()), f.(transformType := Some(TPS_CLASS), dataString := Some(DataString(tps, deflate, encode64))))
        case _ => (Err(ClassCast), f.(transformType := Some(TPS_CLASS)))
      else
        match x
        case Affine(_, rowPacked) => (Ok(()), f.(transformType := Some("affine"), data := Some(rowPacked)))
        case _ => (Err(ClassCast), f.(transformType := Some("affine")))
  }

  /** `encode()` as written: after the null branch sets both strings to ""
      the method goes on to call `getClass()` on the null transform. */
  function EncodedAsWritten(t: Option<RealTransform>, f: Fields, deflate: seq<byte> -> seq<byte>,
                            encode64: seq<byte> -> string): (Result<(), JavaException>, Fields)
    requires EncodeReady(t)
  {
    if t.None? then (Err(NullPointer), f.(transformType := Some(""), dataString := Some("")))
    else Encoded(t, f, deflate, encode64)
  }

  /** `buildTransform()` on fields `f`: a spline wrapper in three
      dimensions read from the data string, the identity translation for
      an empty type, otherwise an `AffineTransform3D` set from the first
      twelve numbers. */
  function Built(f: Fields, inflate: (seq<byte>, nat) -> Option<seq<byte>>,
                 decode64: string -> seq<byte>): Result<RealTransform, JavaException>
  {
    if f.transformType.None? then Err(NullPointer)
    else if f.transformType.value == TPS_CLASS then
      if f.dataString.None? then Err(NullPointer)
      else match Parsed(f.dataString.value, inflate, decode64)
        case Err(e) => Err(e)
        case Ok(tps) => Ok(TpsWrapper(3, tps))
    else if f.transformType.value == "" then Ok(Affine(TRANSLATION3D_CLASS, IDENTITY_ROW_PACKED))
    else if f.data.None? then Err(NullPointer)
    else if |f.data.value| < 12 then Err(ArrayIndexOutOfBounds)
    else Ok(Affine(AFFINE3D_CLASS, f.data.value[..12]))
  }

  /** `SerializableTransform3D`: a transient transform and the three fields
      that Gson writes and reads. */
  class SerializableTransform3D {
    var transform: Option<RealTransform>
    var transformType: Option<string>
    var dataString: Option<string>
    var data: Option<seq<word>>

    function Stored(): Fields
      reads this
    {
      Fields(transformType, dataString, data)
    }

    /** The no-argument constructor Gson uses: every field is null. */
    constructor ()
      ensures transform == None && Stored() == Fields(None, None, None)
    {
      transform := None;
      transformType := None;
      dataString := None;
      data := None;
    }

    /** `new SerializableTransform3D(transform)`: store the transform and
      encode it; an exception of `encode` escapes the constructor. */
    static method Create(t: Option<RealTransform>, deflate: seq<byte> -> seq<byte>, encode64: seq<byte> -> string)
      returns (r: Result<SerializableTransform3D, JavaException>)
      requires EncodeReady(t)
      ensures r.Ok? <==> Encoded(t, Fields(None, None, None), deflate, encode64).0.Ok?
      ensures r.Err? ==> r.error == Encoded(t, Fields(None, None, None), deflate, encode64).0.error
      ensures r.Ok? ==> (fresh(r.value) && r.value.transform == t
                         && r.value.Stored() == Encoded(t, Fields(None, None, None), deflate, encode64).1)
    {
      var w := new SerializableTransform3D();
      w.transform := t;
      var e := w.Encode(deflate, encode64);
      if e.Err? {
        return Err(e.error);
      }
      r := Ok(w);
    }

    /** `new SerializableTransform3D(transform)` as written: the constructor
      calls the as-written `encode`, so a null transform makes it throw. */
    static method CreateAsWritten(t: Option<RealTransform>, deflate: seq<byte> -> seq<byte>, encode64: seq<byte> -> string)
      returns (r: Result<SerializableTransform3D, JavaException>)
      requires EncodeReady(t)
      ensures r.Ok? <==> EncodedAsWritten(t, Fields(None, None, None), deflate, encode64).0.Ok?
      ensures r.Err? ==> r.error == EncodedAsWritten(t, Fields(None, None, None), deflate, encode64).0.error
      ensures t.None? ==> r == Err(NullPointer)
      ensures r.Ok? ==> (fresh(r.value) && r.value.transform == t
                         && r.value.Stored() == EncodedAsWritten(t, Fields(None, None, None), deflate, encode64).1)
    {
      var w := new SerializableTransform3D();
      w.transform := t;
      var e := w.EncodeAsWritten(deflate, encode64);
      if e.Err? {
        return Err(e.error);
      }
      r := Ok(w);
    }

    /** `encode()`, with the null branch returning once it has set the
      strings to "". */
    method Encode(deflate: seq<byte> -> seq<byte>, encode64: seq<byte> -> string) returns (r: Result<(), JavaException>)
      requires EncodeReady(transform)
      modifies this
      ensures transform == old(transform)
      ensures (r, Stored()) == Encoded(old(transform), old(Stored()), deflate, encode64)
    {
      if transform.None? {
        transformType := Some("");
        dataString := Some("");
        return Ok(());
      }
      var t := transform.value;
      transformType := Some(t.ClassName());
      if transformType.value == TPS_CLASS {
        if !t.TpsWrapper? {
          return Err(ClassCast);
        }
        var s := ToDataString(t.tps, deflate, encode64);
        dataString := Some(s);
        return Ok(());
      }
      transformType := Some("affine");
      if !t.Affine? {
        return Err(ClassCast);
      }
      data := Some(t.rowPacked);
      r := Ok(());
    }

    /** `encode()` as written: a null transform ends in a
      `NullPointerException`, after both strings are set to "". */
    method EncodeAsWritten(deflate: seq<byte> -> seq<byte>, encode64: seq<byte> -> string) returns (r: Result<(), JavaException>)
      requires EncodeReady(transform)
      modifies this
      ensures transform == old(transform)
      ensures (r, Stored()) == EncodedAsWritten(old(transform), old(Stored()), deflate, encode64)
    {
      if transform.None? {
        transformType := Some("");
        dataString := Some("");
        return Err(NullPointer);
      }
      r := Encode(deflate, encode64);
    }

    /** `buildTransform()`. */
    method BuildTransform(inflate: (seq<byte>, nat) -> Option<seq<byte>>, decode64: string -> seq<byte>)
      returns (r: Result<RealTransform, JavaException>)
      ensures r == Built(Stored(), inflate, decode64)
    {
      if transformType.None? {
        return Err(NullPointer);
      }
      if transformType.value == TPS_CLASS {
        if dataString.None? {
          return Err(NullPointer);
        }
        var tps := InitTps(dataString.value, inflate, decode64);
        if tps.Err? {
          return Err(tps.error);
        }
        return Ok(TpsWrapper(3, tps.value));
      }
      if transformType.value == "" {
        return Ok(Affine(TRANSLATION3D_CLASS, IDENTITY_ROW_PACKED));
      }
      if data.None? {
        return Err(NullPointer);
      }
      if |data.value| < 12 {
        return Err(ArrayIndexOutOfBounds);
      }
      r := Ok(Affine(AFFINE3D_CLASS, data.value[..12]));
    }

    /** `getTransform()`: the transient transform when there is one,
      otherwise one built from the serialized fields. */
    method GetTransform(inflate: (seq<byte>, nat) -> Option<seq<byte>>, decode64: string -> seq<byte>)
      returns (r: Result<RealTransform, JavaException>)
      ensures transform.Some? ==> r == Ok(transform.value)
      ensures transform.None? ==> r == Built(Stored(), inflate, decode64)
    {
      if transform.Some? {
        return Ok(transform.value);
      }
      r := BuildTransform(inflate, decode64);
    }
  }

  /** What rebuilding from the encoded fields gives back: the spline, in a
      wrapper of three dimensions, or an `AffineTransform3D` with the first
      twelve row-packed numbers of the affine transform. */
  function Rebuilt(t: RealTransform): Result<RealTransform, JavaException>
  {
    match t
    case TpsWrapper(_, tps) => Ok(TpsWrapper(3, tps))
    case Affine(_, rowPacked) =>
      if |rowPacked| < 12 then Err(ArrayIndexOutOfBounds) else Ok(Affine(AFFINE3D_CLASS, rowPacked[..12]))
    case Other(_) => Err(ClassCast)
  }

  /** A transform `encode` accepts: a spline wrapper, or an affine
      transform whose class is not the wrapper's. */
  predicate Encodable(t: RealTransform)
  {
    t.TpsWrapper? || (t.Affine? && t.className != TPS_CLASS)
  }

  /** Encoding then building a transform gives back `Rebuilt(t)`; `encode`
      fails, with a `ClassCastException`, exactly on the transforms it
      cannot cast. */
  lemma EncodeBuildRoundTrip(t: RealTransform, f: Fields, deflate: seq<byte> -> seq<byte>,
                             inflate: (seq<byte>, nat) -> Option<seq<byte>>,
                             encode64: seq<byte> -> string, decode64: string -> seq<byte>)
    requires Codecs(deflate, inflate, encode64, decode64)
    requires EncodeReady(Some(t))
    ensures Encoded(Some(t), f, deflate, encode64).0 == (if Encodable(t) then Ok(()) else Err(ClassCast))
    ensures Encodable(t) ==> Built(Encoded(Some(t), f, deflate, encode64).1, inflate, decode64) == Rebuilt(t)
  {
    if t.TpsWrapper? {
      TpsRoundTrip(t.tps, deflate, inflate, encode64, decode64);
    }
  }

  /** An `AffineTransform3D` survives serialization unchanged. */
  lemma AffineTransform3DRoundTrip(rowPacked: seq<word>, f: Fields, deflate: seq<byte> -> seq<byte>,
                                   inflate: (seq<byte>, nat) -> Option<seq<byte>>,
                                   encode64: seq<byte> -> string, decode64: string -> seq<byte>)
    requires |rowPacked| == 12
    ensures Built(Encoded(Some(Affine(AFFINE3D_CLASS, rowPacked)), f, deflate, encode64).1, inflate, decode64)
      == Ok(Affine(AFFINE3D_CLASS, rowPacked))
  {
    assert rowPacked[..12] == rowPacked;
  }

  /** Encoding the null transform records the identity: building from the
      fields gives the identity translation. */
  lemma EncodeNullBuildsIdentity(f: Fields, deflate: seq<byte> -> seq<byte>,
                                 inflate: (seq<byte>, nat) -> Option<seq<byte>>,
                                 encode64: seq<byte> -> string, decode64: string -> seq<byte>)
    ensures Encoded(None, f, deflate, encode64).0 == Ok(())
    ensures Built(Encoded(None, f, deflate, encode64).1, inflate, decode64)
      == Ok(Affine(TRANSLATION3D_CLASS, IDENTITY_ROW_PACKED))
  {
  }

  /** As written, `encode` on a null transform throws, so the identity
      branch of `buildTransform` is reached only through fields set by
      hand. */
  lemma EncodeNullAsWrittenThrows(f: Fields, deflate: seq<byte> -> seq<byte>, encode64: seq<byte> -> string)
    ensures EncodedAsWritten(None, f, deflate, encode64).0 == Err(NullPointer)
    ensures Encoded(None, f, deflate, encode64).0 == Ok(())
  {
  }
}
