/** prism/common/crypto/secretsharing/secretsharing.py: splitting byte strings into chunks that
    are encoded as CBOR byte strings, read as numbers below the modulus and shared one by one. */
module SecretSharing {
  import opened Wrappers
  import opened Modular
  import opened Octets
  import opened Primes
  import opened Polynomials
  import opened Shamir

  // The byte string item of CBOR (section 3.1 of RFC 8949, major type 2)

  function Header(len: nat): (r: Option<Bytes>)
    ensures r.Some? ==> r.value != [] && r.value[0] >= 0x40
    ensures r.Some? && len < 0x100 ==> |r.value| <= 2
  {
    if len < 24 then Some([0x40 + len])
    else
      var size := if len < 0x100 then 1 else if len < 0x1_0000 then 2 else if len < 0x1_0000_0000 then 4 else 8;
      var lead: Byte := if size == 1 then 0x58 else if size == 2 then 0x59 else if size == 4 then 0x5a else 0x5b;
      var r := ToBytes(len, size);
      if r.None? then None else Some([lead] + r.value)
  }

  function Dumps(data: Bytes): Option<Bytes> {
    var h := Header(|data|);
    if h.None? then None else Some(h.value + data)
  }

  /** The size of the length field behind the initial byte; None for other items. */
  function LengthField(lead: Byte): Option<nat> {
    if 0x40 <= lead < 0x58 then Some(0)
    else if lead == 0x58 then Some(1)
    else if lead == 0x59 then Some(2)
    else if lead == 0x5a then Some(4)
    else if lead == 0x5b then Some(8)
    else None
  }

  function Loads(bs: Bytes): Option<Bytes> {
    if bs == [] || LengthField(bs[0]).None? then None else
      var f := LengthField(bs[0]).value;
      if |bs| < 1 + f then None else
        var n: nat := if f == 0 then bs[0] - 0x40 else FromBytes(bs[1..1 + f]);
        if |bs| < 1 + f + n then None else Some(bs[1 + f..1 + f + n])
  }

  /** The headers of section 3.1 of RFC 8949, and its example of a byte string. */
  lemma HeadersAre(len: nat)
    ensures len < 24 ==> Header(len) == Some([0x40 + len])
    ensures 24 <= len < 0x100 ==> Header(len) == Some([0x58, len])
    ensures 0x100 <= len < 0x1_0000 ==> Header(len) == Some([0x59, len / 0x100, len % 0x100])
    ensures 0x1_0000 <= len && Header(len).Some? ==>
              Header(len).value[0] == (if len < 0x1_0000_0000 then 0x5a else 0x5b) &&
              |Header(len).value| == (if len < 0x1_0000_0000 then 5 else 9) && FromBytes(Header(len).value[1..]) == len
    ensures Dumps([1, 2, 3, 4]) == Some([0x44, 1, 2, 3, 4])
  {
    if 24 <= len < 0x100 {
      OneByte(len);
      assert Header(len).value == [0x58] + [len] == [0x58, len];
    } else if 0x100 <= len < 0x1_0000 {
      TwoBytes(len);
      assert Header(len).value == [0x59] + [len / 256, len % 256] == [0x59, len / 256, len % 256];
    } else if 0x1_0000 <= len && Header(len).Some? {
      HeaderTells(len);
    }
    assert Header(4).value == [0x44];
    assert [0x44] + [1, 2, 3, 4] == [0x44, 1, 2, 3, 4];
  }

  lemma OneByte(n: nat)
    requires n < 256
    ensures ToBytes(n, 1) == Some([n])
  {
    var none := ToBytes(n / 256, 0);
    assert none == Some([]) && none.value + [n % 256] == [n];
    assert ToBytes(n, 1).value == none.value + [n % 256];
  }

  lemma TwoBytes(n: nat)
    requires n < 0x1_0000
    ensures ToBytes(n, 2) == Some([n / 256, n % 256])
  {
    OneByte(n / 256);
    assert ToBytes(n, 2).value == [n / 256] + [n % 256] == [n / 256, n % 256];
  }

  /** The length and its place can be read from a header. */
  lemma HeaderTells(len: nat)
    requires Header(len).Some?
    ensures var h := Header(len).value;
            && LengthField(h[0]) == Some(|h| - 1)
            && (if |h| == 1 then h[0] - 0x40 == len else FromBytes(h[1..]) == len)
  {
    if len >= 24 {
      var size := |Header(len).value| - 1;
      assert Header(len).value[1..] == ToBytes(len, size).value;
      FromToBytes(len, size);
    }
  }

  lemma Behind(h: Bytes, data: Bytes)
    requires h != []
    ensures (h + data)[0] == h[0] && (h + data)[1..|h|] == h[1..] && (h + data)[|h|..|h| + |data|] == data
  {
  }

  lemma CborRoundTrip(data: Bytes)
    requires Dumps(data).Some?
    ensures Loads(Dumps(data).value) == Some(data)
  {
    HeaderTells(|data|);
    Behind(Header(|data|).value, data);
  }

  // Chunks

  function ChunkSize(m: nat): int
    requires m >= 2
  {
    (BitLength(m) - 1) / 8 - 2
  }

  /** None stands for the failed assertion result < modulus. */
  function EncodeChunk(data: Bytes, m: nat): Option<nat> {
    var bs := Dumps(data);
    if bs.None? || FromBytes(bs.value) >= m then None else Some(FromBytes(bs.value))
  }

  function DecodeChunk(secret: nat, m: nat): Option<Bytes> {
    if secret >= m then None else
      var bs := ToBytes(secret, ByteLength(secret));
      if bs.None? then None else Loads(bs.value)
  }

  function EncodeChunks(data: Bytes, size: nat, m: nat): (r: Option<seq<nat>>)
    requires size > 0
    ensures r.Some? && data != [] ==> r.value != []
    ensures r.Some? ==> forall i :: 0 <= i < |r.value| ==> r.value[i] < m
    decreases |data|
  {
    if data == [] then Some([]) else
      var n := if |data| < size then |data| else size;
      var head, tail := EncodeChunk(data[..n], m), EncodeChunks(data[n..], size, m);
      if head.None? || tail.None? then None else Some([head.value] + tail.value)
  }

  /** None also stands for the ValueError of a range with step 0; a negative step yields nothing. */
  function EncodeBytes(data: Bytes, m: nat): Option<seq<nat>>
    requires m >= 2
  {
    var size := ChunkSize(m);
    if size == 0 then None else if size < 0 then Some([]) else EncodeChunks(data, size, m)
  }

  function DecodeBytes(secrets: seq<nat>, m: nat): Option<Bytes> {
    if secrets == [] then Some([]) else
      var head, tail := DecodeChunk(secrets[0], m), DecodeBytes(secrets[1..], m);
      if head.None? || tail.None? then None else Some(head.value + tail.value)
  }

  lemma ChunkRoundTrip(data: Bytes, m: nat)
    requires EncodeChunk(data, m).Some?
    ensures DecodeChunk(EncodeChunk(data, m).value, m) == Some(data)
  {
    NonzeroLeadRoundTrip(Dumps(data).value);
    CborRoundTrip(data);
  }

  /** What is two bytes longer than a chunk is below the modulus, what is four bytes longer is not. */
  lemma ModulusSize(m: nat, bs: Bytes)
    requires m >= 2 && ChunkSize(m) >= 0
    ensures |bs| <= ChunkSize(m) + 2 ==> FromBytes(bs) < m
    ensures |bs| >= ChunkSize(m) + 4 && bs[0] > 0 ==> FromBytes(bs) >= m
  {
    var k: nat := ChunkSize(m) + 2;
    if |bs| <= k {
      FromBytesBound(bs);
      PowMonotone(256, |bs|, k);
      PowersOf256(k);
      PowMonotone(2, 8 * k, BitLength(m) - 1);
      BitLengthBound(m, BitLength(m) - 1);
    } else if |bs| >= k + 2 && bs[0] > 0 {
      LeadingByte(bs);
      PowMonotone(256, k + 1, |bs| - 1);
      PowersOf256(k + 1);
      BitLengthBound(m, 8 * (k + 1));
    }
  }

  /** From 256 bytes on the header takes three bytes, from 65536 on at least five. */
  lemma LongHeader(len: nat)
    requires len >= 256
    ensures len < 0x1_0000 ==> Header(len).Some? && |Header(len).value| == 3 && FromBytes(Header(len).value) == 0x59_0000 + len
    ensures len >= 0x1_0000 && Header(len).Some? ==> |Header(len).value| >= 5
  {
    if len < 0x1_0000 {
      PowTwo(256);
      ToBytesFits(len, 2);
      FromToBytes(len, 2);
      FromBytesConcat([0x59], ToBytes(len, 2).value);
      assert [0x59][..0] == [];
      assert FromBytes([0x59]) == 0x59;
    }
  }

  lemma ShortHeader(len: nat)
    requires len <= 255
    ensures Header(len).Some? && |Header(len).value| <= 2
  {
    if len >= 24 {
      ToBytesFits(len, 1);
      PowFirst(256);
    }
  }

  /** A chunk of at most 255 bytes always fits. */
  lemma ChunkFits(data: Bytes, m: nat)
    requires m >= 2 && |data| <= ChunkSize(m) && |data| <= 255
    ensures EncodeChunk(data, m).Some?
  {
    ShortHeader(|data|);
    ModulusSize(m, Dumps(data).value);
  }

  /** Full chunks always fit: their size is one byte's worth, or it is two bytes' worth and the
      chunk of ones is below the modulus. */
  ghost predicate FullChunksFit(m: nat)
    requires m >= 2 && ChunkSize(m) >= 1
  {
    ChunkSize(m) <= 255 ||
    (ChunkSize(m) < 0x1_0000 && (0x59_0001 + ChunkSize(m)) * Pow(256, ChunkSize(m)) <= m)
  }

  lemma LongChunk(data: Bytes, m: nat)
    requires m >= 2 && 256 <= |data| < 0x1_0000
    ensures EncodeChunk(data, m).Some? <==>
            (0x59_0000 + |data|) * Pow(256, |data|) + FromBytes(data) < m
  {
    LongHeader(|data|);
    FromBytesConcat(Header(|data|).value, data);
  }

  lemma OneMore(a: int, p: int)
    ensures (a + 1) * p == a * p + p
  {
  }

  lemma FullChunkOfOnes(m: nat)
    requires m >= 2 && ChunkSize(m) >= 1
    ensures EncodeChunk(Ones(ChunkSize(m)), m).Some? <==> FullChunksFit(m)
  {
    var size: nat := ChunkSize(m);
    var ones := Ones(size);
    if size <= 255 {
      ChunkFits(ones, m);
    } else if size < 0x1_0000 {
      LongChunk(ones, m);
      FromOnes(size);
      OneMore(0x59_0000 + size, Pow(256, size));
    } else {
      LongHeader(size);
      if Dumps(ones).Some? {
        ModulusSize(m, Dumps(ones).value);
      }
    }
  }

  lemma ChunkFitsIfFullOnesDo(data: Bytes, m: nat)
    requires m >= 2 && ChunkSize(m) >= 1 && |data| <= ChunkSize(m) && FullChunksFit(m)
    ensures EncodeChunk(data, m).Some?
  {
    if |data| <= 255 {
      ChunkFits(data, m);
    } else if |data| < ChunkSize(m) {
      LongHeader(|data|);
      ModulusSize(m, Dumps(data).value);
    } else {
      LongChunk(data, m);
      FromBytesBound(data);
      OneMore(0x59_0000 + |data|, Pow(256, |data|));
    }
  }

  lemma {:induction false} ChunksFit(data: Bytes, m: nat)
    requires m >= 2 && ChunkSize(m) >= 1 && FullChunksFit(m)
    ensures EncodeChunks(data, ChunkSize(m), m).Some?
    decreases |data|
  {
    if data != [] {
      var size := ChunkSize(m);
      var n := if |data| < size then |data| else size;
      ChunkFitsIfFullOnesDo(data[..n], m);
      ChunksFit(data[n..], m);
    }
  }

  lemma OnesAreOneChunk(m: nat)
    requires m >= 2 && ChunkSize(m) >= 1
    ensures EncodeChunks(Ones(ChunkSize(m)), ChunkSize(m), m).Some? <==> EncodeChunk(Ones(ChunkSize(m)), m).Some?
  {
    var ones := Ones(ChunkSize(m));
    assert ones[..|ones|] == ones && ones[|ones|..] == [];
    assert EncodeChunks([], ChunkSize(m), m).Some?;
  }

  lemma ChunkSizeOfPower(m: nat, size: nat)
    requires m == Pow(256, size + 2)
    ensures m >= 2 && ChunkSize(m) == size
  {
    PowersOf256(size + 2);
    BitLengthOfPower(8 * (size + 2));
    PowMonotone(256, 1, size + 2);
    PowFirst(256);
  }

  lemma HeaderExceeds(size: nat, p: nat, rest: nat)
    ensures (0x59_0000 + size) * p + rest >= 65536 * p
  {
    assert (0x59_0000 + size) * p == 0x59_0000 * p + size * p;
    assert size * p >= 0;
  }

  /** With the least modulus of a chunk size from 256 on no chunk of that size can be encoded. */
  lemma HeaderTooLong(size: nat, m: nat, data: Bytes)
    requires 256 <= size < 0x1_0000 && m == Pow(256, size + 2) && |data| == size
    ensures m >= 2 && ChunkSize(m) == size && EncodeChunk(data, m).None?
  {
    ChunkSizeOfPower(m, size);
    LongChunk(data, m);
    PowAdd(256, 2, size);
    PowTwo(256);
    PowPositive(256, size);
    HeaderExceeds(size, Pow(256, size), FromBytes(data));
  }

  lemma DecodeFirst(head: nat, rest: seq<nat>, m: nat)
    requires DecodeChunk(head, m).Some? && DecodeBytes(rest, m).Some?
    ensures DecodeBytes([head] + rest, m) == Some(DecodeChunk(head, m).value + DecodeBytes(rest, m).value)
  {
    assert ([head] + rest)[1..] == rest;
  }

  lemma {:induction false} ChunksRoundTrip(data: Bytes, size: nat, m: nat)
    requires size > 0 && EncodeChunks(data, size, m).Some?
    ensures DecodeBytes(EncodeChunks(data, size, m).value, m) == Some(data)
    decreases |data|
  {
    if data != [] {
      var n := if |data| < size then |data| else size;
      var head, rest := EncodeChunk(data[..n], m).value, EncodeChunks(data[n..], size, m).value;
      ChunkRoundTrip(data[..n], m);
      ChunksRoundTrip(data[n..], size, m);
      DecodeFirst(head, rest, m);
      assert data[..n] + data[n..] == data;
    }
  }

  function Least(a: nat, b: nat): nat {
    if a < b then a else b
  }

  lemma ChunkCount(length: nat, size: nat)
    requires 0 < length && 0 < size
    ensures length <= size ==> (length + size - 1) / size == 1
    ensures length > size ==> (length + size - 1) / size == 1 + (length - size + size - 1) / size
  {
    if length <= size {
      DivModUnique(length + size - 1, 1, length - 1, size);
    } else {
      var q, r := (length - 1) / size, (length - 1) % size;
      assert length - 1 == q * size + r;
      DivModUnique(length + size - 1, q + 1, r, size);
      assert length - size + size - 1 == length - 1;
    }
  }

  function ChunkFrom(data: Bytes, at: int, size: nat): Bytes {
    if 0 <= at < |data| then data[at..Least(at + size, |data|)] else []
  }

  /** The bytes of chunk j. */
  function ChunkAt(data: Bytes, size: nat, j: nat): Bytes {
    ChunkFrom(data, j * size, size)
  }

  lemma ChunkFromRest(data: Bytes, at: int, size: nat)
    requires size <= |data| && size <= at
    ensures ChunkFrom(data, at, size) == ChunkFrom(data[size..], at - size, size)
  {
  }

  lemma ChunkOfRest(data: Bytes, size: nat, j: nat)
    requires 0 < size <= |data| && j > 0
    ensures ChunkAt(data, size, j) == ChunkAt(data[size..], size, j - 1)
  {
    MulAtLeast(j, size);
    assert (j - 1) * size == j * size - size;
    ChunkFromRest(data, j * size, size);
  }

  lemma {:induction false} ChunkNumber(data: Bytes, size: nat, m: nat)
    requires size > 0 && EncodeChunks(data, size, m).Some?
    ensures |EncodeChunks(data, size, m).value| == (|data| + size - 1) / size
    decreases |data|
  {
    DivModUnique(size - 1, 0, size - 1, size);
    if data != [] {
      ChunkNumber(data[Least(|data|, size)..], size, m);
      ChunkCount(|data|, size);
    }
  }

  lemma FirstChunk(data: Bytes, size: nat, m: nat)
    requires size > 0 && EncodeChunks(data, size, m).Some? && EncodeChunks(data, size, m).value != []
    ensures data != [] && ChunkAt(data, size, 0) == data[..Least(|data|, size)]
    ensures var head, rest := EncodeChunk(ChunkAt(data, size, 0), m), EncodeChunks(data[Least(|data|, size)..], size, m);
            head.Some? && rest.Some? && EncodeChunks(data, size, m).value == [head.value] + rest.value
    ensures |EncodeChunks(data, size, m).value| > 1 ==> size <= |data|
  {
    assert 0 * size == 0;
  }

  lemma {:induction false} ChunkContents(data: Bytes, size: nat, m: nat, j: nat)
    requires size > 0 && EncodeChunks(data, size, m).Some? && j < |EncodeChunks(data, size, m).value|
    ensures EncodeChunk(ChunkAt(data, size, j), m) == Some(EncodeChunks(data, size, m).value[j])
    decreases |data|
  {
    FirstChunk(data, size, m);
    if j > 0 {
      ChunkContents(data[Least(|data|, size)..], size, m, j - 1);
      ChunkOfRest(data, size, j);
    }
  }

  /** Chunk j holds the bytes from j * size on, size of them or as many as are left. */
  lemma ChunksAre(data: Bytes, size: nat, m: nat)
    requires size > 0 && EncodeChunks(data, size, m).Some?
    ensures |EncodeChunks(data, size, m).value| == (|data| + size - 1) / size
    ensures forall j :: 0 <= j < |EncodeChunks(data, size, m).value| ==>
              EncodeChunk(ChunkAt(data, size, j), m) == Some(EncodeChunks(data, size, m).value[j])
  {
    ChunkNumber(data, size, m);
    forall j | 0 <= j < |EncodeChunks(data, size, m).value|
      ensures EncodeChunk(ChunkAt(data, size, j), m) == Some(EncodeChunks(data, size, m).value[j])
    {
      ChunkContents(data, size, m, j);
    }
  }

  // Rows and columns of shares

  function MinLength<T>(rows: seq<seq<T>>): (n: nat)
    requires rows != []
    ensures forall j :: 0 <= j < |rows| ==> n <= |rows[j]|
    ensures exists j :: 0 <= j < |rows| && n == |rows[j]|
  {
    if |rows| == 1 then |rows[0]| else
      var n := MinLength(rows[1..]);
      assert forall j :: 1 <= j < |rows| ==> rows[j] == rows[1..][j - 1];
      assert forall j :: 0 <= j < |rows| - 1 ==> rows[1..][j] == rows[j + 1];
      if |rows[0]| < n then |rows[0]| else n
  }

  /** zip(*rows): the transpose, cut to the shortest row. */
  function Zip<T>(rows: seq<seq<T>>): (columns: seq<seq<T>>)
    ensures rows == [] ==> columns == []
    ensures rows != [] ==> |columns| == MinLength(rows)
    ensures forall i, j :: 0 <= i < |columns| && 0 <= j < |rows| ==>
              i < |rows[j]| && |columns[i]| == |rows| && columns[i][j] == rows[j][i]
  {
    if rows == [] then [] else
      seq(MinLength(rows), i requires 0 <= i < MinLength(rows) =>
        seq(|rows|, j requires 0 <= j < |rows| => rows[j][i]))
  }

  /** rands(j) holds the coefficients drawn for chunk j. */
  ghost function ShareBytes(params: Params, data: Bytes, rands: nat -> seq<int>): Option<seq<seq<Share>>>
    requires params.Valid()
  {
    var secrets := EncodeBytes(data, params.modulus);
    if secrets.None? then None else Some(Zip(DealChunks(params, secrets.value, rands)))
  }

  ghost function DealChunks(params: Params, secrets: seq<nat>, rands: nat -> seq<int>): (chunks: seq<seq<Share>>)
    requires params.Valid()
    ensures |chunks| == |secrets|
    ensures forall j :: 0 <= j < |chunks| ==>
              chunks[j] == SharesOf([secrets[j]] + rands(j), params.parties, params.modulus)
  {
    seq(|secrets|, j requires 0 <= j < |secrets| =>
      SharesOf([secrets[j]] + rands(j), params.parties, params.modulus))
  }

  ghost function ReconstructAll(chunks: seq<seq<Share>>, iq: int, m: nat): (r: Option<seq<nat>>)
    requires m > 1
  {
    if chunks == [] then Some([]) else
      var head, tail := Reconstructed(chunks[0], iq, m), ReconstructAll(chunks[1..], iq, m);
      if head.None? || head.value < 0 || tail.None? then None else Some([head.value] + tail.value)
  }

  ghost function ReconstructBytes(rows: seq<seq<Share>>, iq: int, m: nat): Option<Bytes>
    requires m > 1
  {
    var secrets := ReconstructAll(Zip(rows), iq, m);
    if secrets.None? then None else DecodeBytes(secrets.value, m)
  }

  lemma {:induction false} ReconstructEach(chunks: seq<seq<Share>>, secrets: seq<nat>, iq: int, m: nat)
    requires m > 1 && |chunks| == |secrets|
    requires forall j :: 0 <= j < |chunks| ==> Reconstructed(chunks[j], iq, m) == Some(secrets[j])
    ensures ReconstructAll(chunks, iq, m) == Some(secrets)
  {
    if chunks != [] {
      forall j | 0 <= j < |chunks| - 1 ensures Reconstructed(chunks[1..][j], iq, m) == Some(secrets[1..][j]) {
        assert chunks[1..][j] == chunks[j + 1];
      }
      ReconstructEach(chunks[1..], secrets[1..], iq, m);
      assert [secrets[0]] + secrets[1..] == secrets;
    }
  }

  /** The rows of the chosen parties. */
  function ChosenRows(rows: seq<seq<Share>>, chosen: seq<nat>): (r: seq<seq<Share>>)
    requires forall k :: 0 <= k < |chosen| ==> chosen[k] < |rows|
    ensures |r| == |chosen| && forall k :: 0 <= k < |r| ==> r[k] == rows[chosen[k]]
  {
    seq(|chosen|, k requires 0 <= k < |chosen| => rows[chosen[k]])
  }

  /** The shares of one chunk that the chosen parties hold. */
  lemma ChosenColumn(params: Params, secret: nat, rand: seq<int>, chosen: seq<nat>, column: seq<Share>)
    requires params.Valid() && params.parties <= params.modulus && Drawn(rand, params)
    requires |column| == |chosen| >= 1 && |chosen| >= params.threshold && secret < params.modulus
    requires forall k :: 0 <= k < |chosen| ==> chosen[k] < params.parties
    requires forall k, l :: 0 <= k < l < |chosen| ==> chosen[k] != chosen[l]
    requires forall k :: 0 <= k < |chosen| ==>
               column[k] == SharesOf([secret] + rand, params.parties, params.modulus)[chosen[k]]
    ensures Reconstructed(column, 0, params.modulus) == Some(secret)
  {
    ShareReconstruct(params, Number(secret), rand, column, 0);
    SmallMod(secret, params.modulus);
  }

  /** Row i holds party i's share of every chunk, in order. */
  lemma RowsAreParties(params: Params, data: Bytes, rands: nat -> seq<int>, i: nat, j: nat)
    requires params.Valid() && ChunkSize(params.modulus) >= 1 && data != [] && ShareBytes(params, data, rands).Some?
    requires i < params.parties && j < |EncodeBytes(data, params.modulus).value|
    ensures var rows, secrets := ShareBytes(params, data, rands).value, EncodeBytes(data, params.modulus).value;
            && |rows| == params.parties && |rows[i]| == |secrets|
            && rows[i][j] == Share(Eval([secrets[j]] + rands(j), i + 1) % params.modulus, i, None, None)
  {
    var secrets := EncodeBytes(data, params.modulus).value;
    var chunks := DealChunks(params, secrets, rands);
    assert MinLength(chunks) == params.parties;
    assert Zip(chunks)[i][j] == chunks[j][i];
  }

  /** Whatever was shared comes back from the rows of any threshold many parties. */
  lemma BytesRoundTrip(params: Params, data: Bytes, rands: nat -> seq<int>, chosen: seq<nat>)
    requires params.Valid() && params.parties <= params.modulus
    requires forall j :: Drawn(rands(j), params)
    requires data != [] && ChunkSize(params.modulus) >= 1 && ShareBytes(params, data, rands).Some?
    requires |chosen| >= 1 && |chosen| >= params.threshold
    requires forall k :: 0 <= k < |chosen| ==> chosen[k] < params.parties
    requires forall k, l :: 0 <= k < l < |chosen| ==> chosen[k] != chosen[l]
    ensures |ShareBytes(params, data, rands).value| == params.parties
    ensures ReconstructBytes(ChosenRows(ShareBytes(params, data, rands).value, chosen), 0, params.modulus) == Some(data)
  {
    var m := params.modulus;
    var secrets := EncodeBytes(data, m).value;
    var chunks := DealChunks(params, secrets, rands);
    var rows := Zip(chunks);
    assert MinLength(chunks) == params.parties;
    var picked := ChosenRows(rows, chosen);
    assert forall k :: 0 <= k < |picked| ==> |picked[k]| == |secrets|;
    var columns := Zip(picked);
    assert |columns| == |secrets|;
    forall j | 0 <= j < |columns| ensures Reconstructed(columns[j], 0, m) == Some(secrets[j]) {
      assert |columns[j]| == |picked| by { assert columns[j][0] == picked[0][j]; }
      assert forall k :: 0 <= k < |chosen| ==> columns[j][k] == picked[k][j] == rows[chosen[k]][j] == chunks[j][chosen[k]];
      ChosenColumn(params, secrets[j], rands(j), chosen, columns[j]);
    }
    ReconstructEach(columns, secrets, 0, m);
    ChunksRoundTrip(data, ChunkSize(m), m);
  }

  /** Sharing succeeds for all byte strings exactly if full chunks fit. */
  lemma SharingSucceeds(params: Params, rands: nat -> seq<int>)
    requires params.Valid() && ChunkSize(params.modulus) >= 1
    ensures (forall data: Bytes :: ShareBytes(params, data, rands).Some?) <==> FullChunksFit(params.modulus)
  {
    var m := params.modulus;
    if FullChunksFit(m) {
      forall data: Bytes ensures ShareBytes(params, data, rands).Some? {
        ChunksFit(data, m);
      }
    } else {
      FullChunkOfOnes(m);
      OnesAreOneChunk(m);
      assert ShareBytes(params, Ones(ChunkSize(m)), rands).None?;
    }
  }

  /** A modulus of at most 24 bits has no room for a byte per chunk: with 17 bits and more sharing
      raises even for no data, with 16 bits and less nothing is shared and the data is lost. */
  lemma TooSmallModulus(params: Params, data: Bytes, rands: nat -> seq<int>)
    requires params.Valid()
    ensures ChunkSize(params.modulus) <= 0 <==> BitLength(params.modulus) <= 24
    ensures 17 <= BitLength(params.modulus) <= 24 ==> ShareBytes(params, data, rands).None?
    ensures BitLength(params.modulus) <= 16 ==>
              ShareBytes(params, data, rands) == Some([]) && ReconstructBytes([], 0, params.modulus) == Some([])
  {
    assert |DealChunks(params, [], rands)| == 0;
  }
}
