/** The depth-map codec of the camera: a 24-byte header of three big-endian 64-bit words, then the
    values as big-endian 16-bit words in row-major order. */
module DepthMap {
  import opened Wrappers

  type Byte = b: int | 0 <= b < 256

  type Word16 = v: int | 0 <= v < 0x1_0000

  type Word64 = v: int | 0 <= v < TWO_TO_64

  const TWO_TO_64: nat := 0x1_0000_0000_0000_0000

  const MAGIC: Word64 := 0x4445_5054_484D_4150

  const HEADER_SIZE: nat := 24

  // ----- words as bytes

  function Power256(n: nat): (p: nat)
    ensures p > 0
  {
    if n == 0 then 1 else 256 * Power256(n - 1)
  }

  lemma EightBytes()
    ensures Power256(8) == TWO_TO_64
  {
    assert Power256(4) == 0x1_0000_0000;
  }

  /** The low `n` bytes of `v`, the most significant first. */
  function BigEndian(v: nat, n: nat): (bytes: seq<Byte>)
    ensures |bytes| == n
  {
    if n == 0 then [] else BigEndian(v / 256, n - 1) + [v % 256]
  }

  function FromBigEndian(bytes: seq<Byte>): nat {
    if bytes == [] then 0 else 256 * FromBigEndian(bytes[..|bytes| - 1]) + bytes[|bytes| - 1]
  }

  /** Byte `k` of a word, counted from the front. */
  lemma {:induction false} BigEndianByte(v: nat, n: nat, k: nat)
    requires k < n
    ensures BigEndian(v, n)[k] == v / Power256(n - 1 - k) % 256
  {
    if k < n - 1 {
      BigEndianByte(v / 256, n - 1, k);
      DivideTwice(v, Power256(n - 2 - k));
    }
  }

  lemma DivideTwice(v: nat, b: nat)
    requires b > 0
    ensures v / 256 / b == v / (256 * b)
  {
    var q := v / 256 / b;
    var r, r' := v % 256, v / 256 % b;
    assert v == 256 * (b * q + r') + r;
    assert 0 <= 256 * r' + r < 256 * b;
    QuotientIsUnique(v, 256 * b, q, 256 * r' + r);
  }

  lemma QuotientIsUnique(v: nat, b: nat, q: nat, r: nat)
    requires b > 0 && v == q * b + r && r < b
    ensures v / b == q
  {
    var q', r' := v / b, v % b;
    MultipleDiffers(q, q', b, r, r');
    MultipleDiffers(q', q, b, r', r);
  }

  lemma MultipleDiffers(q: nat, p: nat, b: nat, r: nat, s: nat)
    requires r < b && q * b + r == p * b + s
    ensures p <= q
  {
    if p > q {
      MultipleGrows(q, p, b);
    }
  }

  lemma MultipleGrows(q: nat, p: nat, b: nat)
    requires p > q
    ensures p * b >= q * b + b
  {
    var d := p - q - 1;
    assert p * b == q * b + b + d * b;
  }

  lemma {:induction false} WordRoundTrip(v: nat, n: nat)
    requires v < Power256(n)
    ensures FromBigEndian(BigEndian(v, n)) == v
  {
    if n > 0 {
      WordRoundTrip(v / 256, n - 1);
      var bytes := BigEndian(v, n);
      assert bytes[..n - 1] == BigEndian(v / 256, n - 1);
    }
  }

  lemma {:induction false} BytesRoundTrip(bytes: seq<Byte>)
    ensures FromBigEndian(bytes) < Power256(|bytes|)
    ensures BigEndian(FromBigEndian(bytes), |bytes|) == bytes
  {
    if bytes != [] {
      var n := |bytes| - 1;
      BytesRoundTrip(bytes[..n]);
      var v := FromBigEndian(bytes);
      assert v / 256 == FromBigEndian(bytes[..n]) && v % 256 == bytes[n];
      assert bytes == bytes[..n] + [bytes[n]];
    }
  }

  function Reverse(s: seq<Byte>): (r: seq<Byte>)
    ensures |r| == |s| && forall i :: 0 <= i < |s| ==> r[i] == s[|s| - 1 - i]
  {
    seq(|s|, i requires 0 <= i < |s| => s[|s| - 1 - i])
  }

  // ----- the host's byte order

  datatype Host = LittleEndian | BigEndianHost

  /** The bytes of a word in memory, as `memcpy` sees them. */
  function Stored(host: Host, v: nat, n: nat): (bytes: seq<Byte>)
    ensures |bytes| == n
  {
    if host == LittleEndian then Reverse(BigEndian(v, n)) else BigEndian(v, n)
  }

  /** The word that bytes in memory make. */
  function Loaded(host: Host, bytes: seq<Byte>): nat {
    if host == LittleEndian then FromBigEndian(Reverse(bytes)) else FromBigEndian(bytes)
  }

  /** `native_to_big` and `big_to_native`: a byte swap on a little-endian host, else nothing. */
  function SwapOrder(host: Host, v: nat, n: nat): nat {
    if host == LittleEndian then FromBigEndian(Reverse(BigEndian(v, n))) else v
  }

  /** Converting and storing a word writes it in big-endian order on either host. */
  lemma StoredIsBigEndian(host: Host, v: nat, n: nat)
    ensures Stored(host, SwapOrder(host, v, n), n) == BigEndian(v, n)
  {
    if host == LittleEndian {
      BytesRoundTrip(Reverse(BigEndian(v, n)));
      assert Reverse(Reverse(BigEndian(v, n))) == BigEndian(v, n);
    }
  }

  /** Loading a word and converting it reads it in big-endian order on either host. */
  lemma LoadedIsBigEndian(host: Host, bytes: seq<Byte>)
    ensures SwapOrder(host, Loaded(host, bytes), |bytes|) == FromBigEndian(bytes)
  {
    if host == LittleEndian {
      BytesRoundTrip(Reverse(bytes));
      assert Reverse(Reverse(bytes)) == bytes;
    }
  }

  // ----- the depth map

  /** A row-major array; `shape` is its height and width when it is two-dimensional. */
  datatype Map = Map(shape: seq<Word64>, values: seq<Word16>)

  function Cells(height: Word64, width: Word64): nat {
    (height as int) * (width as int)
  }

  /** The array's own invariant, and that its two-byte values fit in memory: no object is larger
      than half the address space. */
  predicate IsMap(m: Map) {
    && (|m.shape| == 2 ==> |m.values| == Cells(m.shape[0], m.shape[1]))
    && 2 * |m.values| < TWO_TO_64 / 2
  }

  datatype CodecError = NotTwoDimensional | OutOfBounds | TooShort | BadMagic | WrongSize

  function Payload(values: seq<Word16>): (bytes: seq<Byte>)
    ensures |bytes| == 2 * |values|
  {
    if values == [] then []
    else Payload(values[..|values| - 1]) + BigEndian(values[|values| - 1], 2)
  }

  function Word(a: Byte, b: Byte): Word16 {
    256 * (a as int) + b as int
  }

  /** The 16-bit words in `bytes`. */
  function Words(bytes: seq<Byte>): (values: seq<Word16>)
    requires |bytes| % 2 == 0
    ensures |values| == |bytes| / 2
  {
    seq(|bytes| / 2, i requires 0 <= i < |bytes| / 2 => Word(bytes[2 * i], bytes[2 * i + 1]))
  }

  function Encoding(height: Word64, width: Word64, values: seq<Word16>): seq<Byte> {
    BigEndian(MAGIC, 8) + BigEndian(width, 8) + BigEndian(height, 8) + Payload(values)
  }

  /** 64-bit unsigned arithmetic. */
  function Wrap(x: nat): Word64 {
    x % TWO_TO_64
  }

  /** The size of an encoding of so many values, as 64-bit arithmetic computes it. */
  function SizeFor(cells: nat): Word64 {
    Wrap(HEADER_SIZE + Wrap(Wrap(cells) * 2))
  }

  function ExpectedSize(width: Word64, height: Word64): Word64 {
    SizeFor(Cells(height, width))
  }

  function WidthOf(data: seq<Byte>): Word64
    requires |data| >= HEADER_SIZE
  {
    BytesRoundTrip(data[8..16]);
    EightBytes();
    FromBigEndian(data[8..16])
  }

  function HeightOf(data: seq<Byte>): Word64
    requires |data| >= HEADER_SIZE
  {
    BytesRoundTrip(data[16..24]);
    EightBytes();
    FromBigEndian(data[16..24])
  }

  /** What decoding gives: the first header field or size that is wrong, or the map. */
  function Decoded(data: seq<Byte>): Result<Map, CodecError> {
    if |data| < HEADER_SIZE then Failure(TooShort)
    else if FromBigEndian(data[..8]) != MAGIC then Failure(BadMagic)
    else if |data| != ExpectedSize(WidthOf(data), HeightOf(data)) then Failure(WrongSize)
    else
      EvenPayload(data, Cells(HeightOf(data), WidthOf(data)));
      Success(Map([HeightOf(data), WidthOf(data)], Words(data[HEADER_SIZE..])))
  }

  lemma SizeIsEven(cells: nat)
    ensures SizeFor(cells) % 2 == 0
  {
    var half := Wrap(cells) as int;
    assert Wrap(half * 2) == if half * 2 < TWO_TO_64 then half * 2 else half * 2 - TWO_TO_64;
  }

  lemma EvenPayload(data: seq<Byte>, cells: nat)
    requires |data| >= HEADER_SIZE && |data| == SizeFor(cells)
    ensures |data[HEADER_SIZE..]| % 2 == 0
  {
    SizeIsEven(cells);
    var n := |data|;
    assert n % 2 == 0 ==> (n - 24) % 2 == 0;
  }

  lemma NoWrap(cells: nat)
    ensures HEADER_SIZE + 2 * cells < TWO_TO_64 ==> SizeFor(cells) == HEADER_SIZE + 2 * cells
  {
  }

  // ----- the codec's methods

  /** Writes a word at `offset` and returns the offset behind it. */
  method AppendBigEndian(host: Host, data: array<Byte>, offset: nat, value: nat, n: nat)
    returns (r: Result<nat, CodecError>)
    modifies data
    ensures r == if data.Length < offset + n then Failure(OutOfBounds) else Success(offset + n)
    ensures r.Failure? ==> data[..] == old(data[..])
    ensures r.Success? ==> data[..] == old(data[..offset]) + BigEndian(value, n) + old(data[offset + n..])
  {
    if data.Length < offset + n {
      return Failure(OutOfBounds);
    }
    var bytes := Stored(host, SwapOrder(host, value, n), n);
    StoredIsBigEndian(host, value, n);
    for i := 0 to n
      invariant data[..] == old(data[..offset]) + bytes[..i] + old(data[offset + i..])
    {
      data[offset + i] := bytes[i];
    }
    assert bytes[..n] == bytes;
    return Success(offset + n);
  }

  /** Copies the values in behind the header, each as a big-endian word. */
  method WritePayload(host: Host, data: array<Byte>, offset: nat, values: seq<Word16>)
    requires data.Length == offset + 2 * |values|
    modifies data
    ensures data[..] == old(data[..offset]) + Payload(values)
  {
    var next := offset;
    for i := 0 to |values|
      invariant next == offset + 2 * i
      invariant data[..offset] == old(data[..offset])
      invariant data[offset..next] == Payload(values[..i])
    {
      var bytes := Stored(host, SwapOrder(host, values[i], 2), 2);
      StoredIsBigEndian(host, values[i], 2);
      ghost var before := data[..];
      data[next], data[next + 1] := bytes[0], bytes[1];
      PayloadNext(values, i);
      TwoMore(before, data[..], offset, next);
      next := next + 2;
    }
    assert values[..|values|] == values;
    assert data[..] == data[..offset] + data[offset..next];
  }

  /** Writing two bytes behind a slice extends it by them. */
  lemma TwoMore(before: seq<Byte>, after: seq<Byte>, offset: nat, next: nat)
    requires offset <= next && next + 2 <= |before| == |after|
    requires after == before[next := after[next]][next + 1 := after[next + 1]]
    ensures after[..offset] == before[..offset]
    ensures after[offset..next + 2] == before[offset..next] + [after[next], after[next + 1]]
  {
  }

  lemma PayloadNext(values: seq<Word16>, i: nat)
    requires i < |values|
    ensures Payload(values[..i + 1]) == Payload(values[..i]) + BigEndian(values[i], 2)
  {
    assert values[..i + 1][..i] == values[..i];
  }

  /** Writes the three words of the header at the front. */
  method WriteHeader(host: Host, data: array<Byte>, height: Word64, width: Word64) returns (r: Result<nat, CodecError>)
    modifies data
    ensures r == if data.Length < HEADER_SIZE then Failure(OutOfBounds) else Success(HEADER_SIZE)
    ensures r.Success? ==>
      data[..HEADER_SIZE] == BigEndian(MAGIC, 8) + BigEndian(width, 8) + BigEndian(height, 8)
  {
    r := AppendBigEndian(host, data, 0, MAGIC, 8);
    if r.Failure? {
      return;
    }
    assert data[..8] == BigEndian(MAGIC, 8);
    r := AppendBigEndian(host, data, r.value, width, 8);
    if r.Failure? {
      return;
    }
    assert data[..16] == BigEndian(MAGIC, 8) + BigEndian(width, 8);
    r := AppendBigEndian(host, data, r.value, height, 8);
  }

  method EncodeDepthMap(host: Host, m: Map) returns (r: Result<seq<Byte>, CodecError>)
    requires IsMap(m)
    ensures r == if |m.shape| != 2 then Failure(NotTwoDimensional)
                 else Success(Encoding(m.shape[0], m.shape[1], m.values))
  {
    if |m.shape| != 2 {
      return Failure(NotTwoDimensional);
    }
    var height, width := m.shape[0], m.shape[1];
    var size := ExpectedSize(width, height);
    NoWrap(Cells(height, width));
    var data := new Byte[size](_ => 0);
    var offset := WriteHeader(host, data, height, width);  // never out of bounds
    WritePayload(host, data, offset.value, m.values);
    return Success(data[..]);
  }

  /** Reads the word at `offset` and returns it with the offset behind it. */
  method ReadBigEndian(host: Host, data: seq<Byte>, offset: nat, n: nat) returns (r: Result<(nat, nat), CodecError>)
    ensures r == if |data| < offset + n then Failure(OutOfBounds)
                 else Success((FromBigEndian(data[offset..offset + n]), offset + n))
  {
    if |data| < offset + n {
      return Failure(OutOfBounds);
    }
    var value := Loaded(host, data[offset..offset + n]);
    LoadedIsBigEndian(host, data[offset..offset + n]);
    return Success((SwapOrder(host, value, n), offset + n));
  }

  /** The value whose two bytes were copied from position `k` of the payload, before conversion. */
  function RawValue(host: Host, payload: seq<Byte>, k: nat): Word16
    requires 2 * k + 1 < |payload|
  {
    LoadedFits(host, payload[2 * k], payload[2 * k + 1]);
    Loaded(host, [payload[2 * k], payload[2 * k + 1]])
  }

  function ValueAt(payload: seq<Byte>, k: nat): Word16
    requires 2 * k + 1 < |payload|
  {
    Word(payload[2 * k], payload[2 * k + 1])
  }

  lemma Converted(host: Host, payload: seq<Byte>, k: nat)
    requires 2 * k + 1 < |payload|
    ensures SwapOrder(host, RawValue(host, payload, k), 2) == ValueAt(payload, k)
  {
    LoadedFits(host, payload[2 * k], payload[2 * k + 1]);
  }

  /** The payload's bytes copied into new storage. */
  method CopyPayload(host: Host, payload: seq<Byte>) returns (storage: array<Word16>)
    requires |payload| % 2 == 0
    ensures fresh(storage) && storage.Length == |payload| / 2
    ensures forall k :: 0 <= k < storage.Length ==> storage[k] == RawValue(host, payload, k)
  {
    storage := new Word16[|payload| / 2](_ => 0);
    for i := 0 to storage.Length
      invariant forall k :: 0 <= k < i ==> storage[k] == RawValue(host, payload, k)
    {
      storage[i] := RawValue(host, payload, i);
    }
  }

  /** Each copied value converted in place. */
  method ConvertInPlace(host: Host, storage: array<Word16>, payload: seq<Byte>)
    requires |payload| % 2 == 0 && storage.Length == |payload| / 2
    requires forall k :: 0 <= k < storage.Length ==> storage[k] == RawValue(host, payload, k)
    modifies storage
    ensures forall k :: 0 <= k < storage.Length ==> storage[k] == ValueAt(payload, k)
  {
    for i := 0 to storage.Length
      invariant forall k :: 0 <= k < i ==> storage[k] == ValueAt(payload, k)
      invariant forall k :: i <= k < storage.Length ==> storage[k] == RawValue(host, payload, k)
    {
      Converted(host, payload, i);
      storage[i] := SwapOrder(host, storage[i], 2);
    }
  }

  /** The storage of the decoded map: the payload's bytes copied in, then each value converted in
      place. */
  method ReadPayload(host: Host, payload: seq<Byte>) returns (values: seq<Word16>)
    requires |payload| % 2 == 0
    ensures values == Words(payload)
  {
    var storage := CopyPayload(host, payload);
    ConvertInPlace(host, storage, payload);
    values := storage[..];
  }

  lemma LoadedFits(host: Host, a: Byte, b: Byte)
    ensures Loaded(host, [a, b]) < 0x1_0000
    ensures SwapOrder(host, Loaded(host, [a, b]), 2) == Word(a, b)
  {
    LoadedIsBigEndian(host, [a, b]);
    TwoBytes([a, b]);
    TwoBytes(Reverse([a, b]));
  }

  lemma TwoBytes(bytes: seq<Byte>)
    requires |bytes| == 2
    ensures FromBigEndian(bytes) == Word(bytes[0], bytes[1])
  {
    assert bytes[..1] == [bytes[0]] && [bytes[0]][..0] == [];
    assert FromBigEndian([bytes[0]]) == bytes[0];
  }

  method DecodeDepthMap(host: Host, data: seq<Byte>) returns (r: Result<Map, CodecError>)
    ensures r == Decoded(data)
  {
    if |data| < HEADER_SIZE {
      return Failure(TooShort);
    }
    var magic := ReadBigEndian(host, data, 0, 8);
    if magic.value.0 != MAGIC {
      return Failure(BadMagic);
    }
    var width := ReadBigEndian(host, data, magic.value.1, 8);
    var height := ReadBigEndian(host, data, width.value.1, 8);
    var w, h: Word64 := WidthOf(data), HeightOf(data);
    assert w == width.value.0 && h == height.value.0;
    if |data| != ExpectedSize(w, h) {
      return Failure(WrongSize);
    }
    EvenPayload(data, Cells(h, w));
    var values := ReadPayload(host, data[height.value.1..]);
    return Success(Map([h, w], values));
  }

  // ----- round trips

  lemma {:induction false} PayloadByte(values: seq<Word16>, i: nat)
    requires i < |values|
    ensures Word(Payload(values)[2 * i], Payload(values)[2 * i + 1]) == values[i]
  {
    var n := |values| - 1;
    if i < n {
      PayloadByte(values[..n], i);
    } else {
      WordRoundTrip(values[n], 2);
      TwoBytes(BigEndian(values[n], 2));
    }
  }

  lemma WordsOfPayload(values: seq<Word16>)
    ensures Words(Payload(values)) == values
  {
    forall i | 0 <= i < |values| ensures Words(Payload(values))[i] == values[i] {
      PayloadByte(values, i);
    }
  }

  lemma {:induction false} PayloadOfWords(bytes: seq<Byte>)
    requires |bytes| % 2 == 0
    ensures Payload(Words(bytes)) == bytes
  {
    if bytes != [] {
      var n := |bytes| - 2;
      PayloadOfWords(bytes[..n]);
      var words := Words(bytes);
      assert words[..|words| - 1] == Words(bytes[..n]);
      TwoBytes(bytes[n..]);
      BytesRoundTrip(bytes[n..]);
      assert bytes == bytes[..n] + bytes[n..];
    }
  }

  lemma EncodingParts(height: Word64, width: Word64, values: seq<Word16>)
    ensures var data := Encoding(height, width, values);
      && |data| == HEADER_SIZE + 2 * |values|
      && FromBigEndian(data[..8]) == MAGIC && WidthOf(data) == width && HeightOf(data) == height
      && data[HEADER_SIZE..] == Payload(values)
  {
    EightBytes();
    WordRoundTrip(MAGIC, 8);
    WordRoundTrip(width, 8);
    WordRoundTrip(height, 8);
    Slices(BigEndian(MAGIC, 8), BigEndian(width, 8), BigEndian(height, 8), Payload(values));
  }

  lemma Slices(a: seq<Byte>, b: seq<Byte>, c: seq<Byte>, rest: seq<Byte>)
    requires |a| == |b| == |c| == 8
    ensures var data := a + b + c + rest;
      data[..8] == a && data[8..16] == b && data[16..24] == c && data[24..] == rest
  {
  }

  /** Where an encoding has what: the letters DEPTHMAP, the width, the height, then each value in
      turn, all with the most significant byte first. */
  lemma EncodingBytes(height: Word64, width: Word64, values: seq<Word16>, k: nat)
    ensures var data := Encoding(height, width, values);
      && |data| == 24 + 2 * |values|
      && (k < 8 ==> data[k] == "DEPTHMAP"[k] as int)
      && (k < 8 ==> data[8 + k] == width / Power256(7 - k) % 256)
      && (k < 8 ==> data[16 + k] == height / Power256(7 - k) % 256)
      && (k < |values| ==> data[24 + 2 * k] == values[k] / 256 && data[24 + 2 * k + 1] == values[k] % 256)
  {
    if k < 8 {
      HeaderBytes(BigEndian(MAGIC, 8), BigEndian(width, 8), BigEndian(height, 8), Payload(values), k);
      MagicLetters(k);
      BigEndianByte(width, 8, k);
      BigEndianByte(height, 8, k);
    }
    if k < |values| {
      var header := BigEndian(MAGIC, 8) + BigEndian(width, 8) + BigEndian(height, 8);
      BehindHeader(header, Payload(values), 2 * k);
      BehindHeader(header, Payload(values), 2 * k + 1);
      PayloadByte(values, k);
      WordBytes(Payload(values)[2 * k], Payload(values)[2 * k + 1]);
    }
  }

  lemma HeaderBytes(a: seq<Byte>, b: seq<Byte>, c: seq<Byte>, rest: seq<Byte>, k: nat)
    requires |a| == |b| == |c| == 8 && k < 8
    ensures var data := a + b + c + rest; data[k] == a[k] && data[8 + k] == b[k] && data[16 + k] == c[k]
  {
  }

  lemma BehindHeader(header: seq<Byte>, rest: seq<Byte>, k: nat)
    requires |header| == 24 && k < |rest|
    ensures (header + rest)[24 + k] == rest[k]
  {
  }

  lemma WordBytes(a: Byte, b: Byte)
    ensures Word(a, b) / 256 == a && Word(a, b) % 256 == b
  {
  }

  /** The magic number is the eight letters. */
  lemma MagicLetters(k: nat)
    requires k < 8
    ensures BigEndian(MAGIC, 8)[k] == "DEPTHMAP"[k] as int
  {
    var letters: seq<Byte> := [0x44, 0x45, 0x50, 0x54, 0x48, 0x4D, 0x41, 0x50];
    MagicIs(letters);
    BytesRoundTrip(letters);
    assert letters[k] == "DEPTHMAP"[k] as int;
  }

  lemma MagicIs(letters: seq<Byte>)
    requires letters == [0x44, 0x45, 0x50, 0x54, 0x48, 0x4D, 0x41, 0x50]
    ensures FromBigEndian(letters) == MAGIC
  {
    FourBytes(letters[..4]);
    assert letters == letters[..4] + [letters[4], letters[5], letters[6], letters[7]];
    MoreBytes(letters[..4], letters[4], letters[5], letters[6], letters[7]);
  }

  lemma FourBytes(s: seq<Byte>)
    requires |s| == 4
    ensures FromBigEndian(s) == 0x100_0000 * (s[0] as int) + 0x1_0000 * (s[1] as int) + 256 * (s[2] as int) + s[3]
  {
    assert s == [] + [s[0], s[1], s[2], s[3]];
    MoreBytes([], s[0], s[1], s[2], s[3]);
  }

  lemma MoreBytes(s: seq<Byte>, a: Byte, b: Byte, c: Byte, d: Byte)
    ensures FromBigEndian(s + [a, b, c, d]) ==
      0x1_0000_0000 * FromBigEndian(s) + 0x100_0000 * (a as int) + 0x1_0000 * (b as int) + 256 * (c as int) + d
  {
    OneMore(s, a);
    OneMore(s + [a], b);
    OneMore(s + [a] + [b], c);
    OneMore(s + [a] + [b] + [c], d);
    assert s + [a, b, c, d] == s + [a] + [b] + [c] + [d];
  }

  lemma OneMore(s: seq<Byte>, b: Byte)
    ensures FromBigEndian(s + [b]) == 256 * FromBigEndian(s) + b
  {
    assert (s + [b])[..|s|] == s;
  }

  /** The data is too short, does not begin with the letters, or is of the wrong size: the error says
      which comes first. */
  lemma DecodeErrors(data: seq<Byte>)
    ensures Decoded(data) == Failure(TooShort) <==> |data| < 24
    ensures Decoded(data) == Failure(BadMagic) <==>
      |data| >= 24 && exists k :: 0 <= k < 8 && data[k] != "DEPTHMAP"[k] as int
    ensures Decoded(data) == Failure(WrongSize) <==>
      && |data| >= 24 && (forall k :: 0 <= k < 8 ==> data[k] == "DEPTHMAP"[k] as int)
      && |data| != ExpectedSize(WidthOf(data), HeightOf(data))
  {
    if |data| >= 24 {
      BytesRoundTrip(data[..8]);
      EightBytes();
      WordRoundTrip(MAGIC, 8);
      forall k: nat | k < 8 ensures BigEndian(MAGIC, 8)[k] == "DEPTHMAP"[k] as int && data[..8][k] == data[k] {
        MagicLetters(k);
      }
      assert FromBigEndian(data[..8]) == MAGIC <==> data[..8] == BigEndian(MAGIC, 8);
    }
  }

  /** Decoding an encoded map gives the map back, whatever its dimensions, zero included. */
  lemma EncodeThenDecode(m: Map)
    requires IsMap(m) && |m.shape| == 2
    ensures Decoded(Encoding(m.shape[0], m.shape[1], m.values)) == Success(m)
  {
    EncodingParts(m.shape[0], m.shape[1], m.values);
    NoWrap(Cells(m.shape[0], m.shape[1]));
    WordsOfPayload(m.values);
    assert m.shape == [m.shape[0], m.shape[1]];
  }

  lemma EncodingFromParts(data: seq<Byte>, values: seq<Word16>)
    requires |data| >= HEADER_SIZE && FromBigEndian(data[..8]) == MAGIC
    requires data[HEADER_SIZE..] == Payload(values)
    ensures Encoding(HeightOf(data), WidthOf(data), values) == data
  {
    BytesRoundTrip(data[..8]);
    BytesRoundTrip(data[8..16]);
    BytesRoundTrip(data[16..24]);
    assert BigEndian(MAGIC, 8) == data[..8];
    assert BigEndian(WidthOf(data), 8) == data[8..16];
    assert BigEndian(HeightOf(data), 8) == data[16..24];
    FourParts(data);
  }

  lemma FourParts(data: seq<Byte>)
    requires |data| >= 24
    ensures data == data[..8] + data[8..16] + data[16..24] + data[24..]
  {
  }

  /** Encoding what was decoded gives the data back. */
  lemma DecodeThenEncode(data: seq<Byte>)
    requires Decoded(data).Success?
    ensures var m := Decoded(data).value; Encoding(m.shape[0], m.shape[1], m.values) == data
  {
    EvenPayload(data, Cells(HeightOf(data), WidthOf(data)));
    PayloadOfWords(data[HEADER_SIZE..]);
    EncodingFromParts(data, Words(data[HEADER_SIZE..]));
  }

  /** A size in 64-bit arithmetic is the exact size less the multiple of 2^64 that was lost. */
  lemma WrapLoses(x: nat)
    ensures Wrap(x) <= x
    ensures Wrap(x) == x <==> x < TWO_TO_64
  {
  }

  lemma FillsIff(cells: nat, count: nat)
    requires HEADER_SIZE + 2 * count == SizeFor(cells)
    ensures count == cells <==> HEADER_SIZE + 2 * cells < TWO_TO_64
  {
    WrapLoses(cells);
    WrapLoses(Wrap(cells) * 2);
    WrapLoses(HEADER_SIZE + Wrap(Wrap(cells) * 2));
  }

  /** The size check makes the payload fill the map exactly when the size did not wrap around. */
  lemma PayloadFillsMapIff(data: seq<Byte>)
    requires Decoded(data).Success?
    ensures var m := Decoded(data).value;
      |m.values| == Cells(m.shape[0], m.shape[1]) <==> HEADER_SIZE + 2 * Cells(m.shape[0], m.shape[1]) < TWO_TO_64
  {
    var cells := Cells(HeightOf(data), WidthOf(data));
    EvenPayload(data, cells);
    FillsIff(cells, |data[HEADER_SIZE..]| / 2);
  }

  const TWO_TO_32: Word64 := 0x1_0000_0000

  lemma WrappedSize()
    ensures SizeFor(Cells(TWO_TO_32, TWO_TO_32)) == HEADER_SIZE
  {
    assert Cells(TWO_TO_32, TWO_TO_32) == TWO_TO_64;
  }

  /** So a header alone is accepted as a map of 2^32 rows and columns that holds no value. */
  lemma HeaderOnlyIsAccepted()
    ensures Decoded(Encoding(TWO_TO_32, TWO_TO_32, [])) == Success(Map([TWO_TO_32, TWO_TO_32], []))
    ensures |Encoding(TWO_TO_32, TWO_TO_32, [])| == HEADER_SIZE
  {
    EncodingParts(TWO_TO_32, TWO_TO_32, []);
    WrappedSize();
    WordsOfPayload([]);
  }

  /** Apart from wrapped sizes, the accepted inputs are exactly the encodings of maps. */
  lemma AcceptedIffEncoding(data: seq<Byte>)
    requires |data| < TWO_TO_64 / 2
    ensures (Decoded(data).Success? && IsMap(Decoded(data).value)) <==>
      exists m :: IsMap(m) && |m.shape| == 2 && data == Encoding(m.shape[0], m.shape[1], m.values)
  {
    if Decoded(data).Success? && IsMap(Decoded(data).value) {
      DecodeThenEncode(data);
    }
    if m :| IsMap(m) && |m.shape| == 2 && data == Encoding(m.shape[0], m.shape[1], m.values) {
      EncodeThenDecode(m);
    }
  }
}
