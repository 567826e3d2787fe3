/**
 * The block logic around RSA in the utilities: splitting a plaintext into
 * pieces of at most k - 11 octets (the RSAES-PKCS1-v1_5 message limit of
 * section 7.2.1 of RFC 8017), encrypting each and concatenating; splitting
 * a ciphertext into 128-octet blocks and applying the public-key operation
 * to each; and stripping block-type-01 padding (EMSA-PKCS1-v1_5, section
 * 9.2 of RFC 8017). Base64, key parsing and PKCS #1 encryption are library
 * calls, passed in as opaque functions.
 */
module RsaBlocks {
  import opened Common

  /** An RSA modulus; the key parser rejects one that is not positive. */
  type Modulus = n: nat | n > 0 witness 1

  datatype PublicKey = PublicKey(n: Modulus, e: nat)

  /** What the PKIX parser yields: an RSA key, or a key of another kind. */
  datatype ParsedKey = RsaKey(key: PublicKey) | OtherKey

  /** The library calls the two entry points make, none of them visible:
      base64 decoding and encoding, PKIX key parsing, and PKCS #1 v1.5
      encryption (whose random padding is folded into the function). */
  datatype Library = Library(
    decodeBase64: Bytes -> Option<Bytes>,
    encodeBase64: Bytes -> Bytes,
    parseKey: Bytes -> Option<ParsedKey>,
    encrypt: (PublicKey, Bytes) -> Option<Bytes>)

  /** The error values returned (each with an empty string). */
  datatype RsaError = DataNotBase64 | KeyNotBase64 | KeyNotParsed | EncryptFailed

  /** Run-time panics: the type assertion to an RSA key, the division by a
      zero block length, and a 128-octet slice of fewer octets. */
  datatype PanicReason = NotRsaKey | DivideByZero | SliceOutOfRange

  /** The result of a call: the returned string and error, or a panic. */
  datatype Outcome = Done(text: Bytes, err: Option<RsaError>) | Panic(reason: PanicReason)

  /** The common key preamble: base64-decode, parse, assert RSA. */
  datatype KeyResult = KeyOk(key: PublicKey) | KeyErr(error: RsaError) | KeyNotRsa

  function LoadKey(lib: Library, publicKey: Bytes): (r: KeyResult)
    ensures r == KeyErr(KeyNotBase64) <==> lib.decodeBase64(publicKey).None?
    ensures r == KeyErr(KeyNotParsed) <==>
      lib.decodeBase64(publicKey).Some? && lib.parseKey(lib.decodeBase64(publicKey).value).None?
    ensures r == KeyNotRsa <==>
      lib.decodeBase64(publicKey).Some? && lib.parseKey(lib.decodeBase64(publicKey).value) == Some(OtherKey)
    ensures r.KeyOk? ==>
      lib.decodeBase64(publicKey).Some? && lib.parseKey(lib.decodeBase64(publicKey).value) == Some(RsaKey(r.key))
  {
    match lib.decodeBase64(publicKey)
    case None => KeyErr(KeyNotBase64)
    case Some(der) =>
      match lib.parseKey(der)
      case None => KeyErr(KeyNotParsed)
      case Some(OtherKey) => KeyNotRsa
      case Some(RsaKey(key)) => KeyOk(key)
  }

  function Pow2(k: nat): (r: nat)
    ensures r > 0
  {
    if k == 0 then 1 else 2 * Pow2(k - 1)
  }

  /** `big.Int.BitLen`: the number of bits of `n`, no leading zeros. */
  function BitLen(n: nat): (r: nat)
    ensures r == 0 <==> n == 0
    ensures n > 0 ==> Pow2(r - 1) <= n < Pow2(r)
  {
    if n == 0 then 0 else 1 + BitLen(n / 2)
  }

  /** Powers of two grow with the exponent. */
  lemma {:induction false} Pow2Monotone(a: nat, b: nat)
    requires a <= b
    ensures Pow2(a) <= Pow2(b)
    decreases b - a
  {
    if a < b {
      Pow2Monotone(a, b - 1);
    }
  }

  /** `n` has more than `k` bits exactly when it is at least 2^k. */
  lemma BitLenAbove(n: nat, k: nat)
    ensures BitLen(n) > k <==> n >= Pow2(k)
  {
    var r := BitLen(n);
    if r > k {
      Pow2Monotone(k, r - 1);
    } else if n > 0 {
      Pow2Monotone(r, k);
    }
  }

  /** The plaintext block length, k - 11 octets for a k-octet modulus
      (k = BitLen / 8 rounded down). It is positive exactly for a modulus of
      at least 96 bits, and zero exactly for one of 88 to 95 bits. */
  function BlockLength(key: PublicKey): (r: int)
    ensures r > 0 <==> key.n >= Pow2(95)
    ensures r == 0 <==> Pow2(87) <= key.n < Pow2(95)
  {
    BitLenAbove(key.n, 95);
    BitLenAbove(key.n, 87);
    BitLen(key.n) / 8 - 11
  }

  /** All pieces joined, in order. */
  function Flatten(pieces: seq<Bytes>): Bytes
  {
    if pieces == [] then [] else pieces[0] + Flatten(pieces[1..])
  }

  /** `data` cut into pieces of `bl` octets from the front, the last one
      holding what remains. */
  function Chunks(data: Bytes, bl: nat): (cs: seq<Bytes>)
    requires bl > 0
    ensures Flatten(cs) == data
    ensures forall i :: 0 <= i < |cs| ==> 0 < |cs[i]| <= bl
    ensures forall i :: 0 <= i < |cs| - 1 ==> |cs[i]| == bl
    decreases |data|
  {
    if |data| <= bl then
      if data == [] then [] else
        assert Flatten([data]) == data + Flatten([]);
        [data]
    else
      var rest := Chunks(data[bl..], bl);
      assert ([data[..bl]] + rest)[1..] == rest;
      assert data[..bl] + data[bl..] == data;
      [data[..bl]] + rest
  }

  /** The pieces the multi-block branch of `RSABase64Encrypt` encrypts, for
      a block length that is not zero. For a negative one, Go's truncating
      division makes the page count zero (one piece, all of `data`) while
      `data` is shorter than `-bl`, and negative (no piece) otherwise. */
  function ChunkPlan(data: Bytes, bl: int): (r: seq<Bytes>)
    requires bl != 0
    ensures bl > 0 ==> Flatten(r) == data && forall i :: 0 <= i < |r| ==> 0 < |r[i]| <= bl
    ensures bl < 0 && |data| / bl == 0 && data != [] ==> r == [data]
    ensures bl < 0 && (|data| / bl < 0 || data == []) ==> r == []
  {
    if bl > 0 then Chunks(data, bl)
    else
      NegativeDivisor(|data|, bl);
      if 0 < |data| < -bl then [data] else []
  }

  function Prepend(prefix: Bytes, o: Option<Bytes>): Option<Bytes>
  {
    match o
    case None => None
    case Some(b) => Some(prefix + b)
  }

  /** The ciphertexts of `pieces`, concatenated in order, or `None` if
      encrypting any piece fails. */
  function EncryptAll(lib: Library, key: PublicKey, pieces: seq<Bytes>): (r: Option<Bytes>)
    ensures r.None? <==> exists i :: 0 <= i < |pieces| && lib.encrypt(key, pieces[i]).None?
  {
    if pieces == [] then Some([])
    else
      assert forall i :: 1 <= i < |pieces| ==> pieces[i] == pieces[1..][i - 1];
      match lib.encrypt(key, pieces[0])
      case None => None
      case Some(c) => Prepend(c, EncryptAll(lib, key, pieces[1..]))
  }

  /** Multiplying by a natural number keeps the order of the factors. */
  lemma {:induction false} MulMonotone(k: nat, q: nat, bl: nat)
    requires k <= q
    ensures k * bl <= q * bl
    decreases q - k
  {
    if k < q {
      MulMonotone(k + 1, q, bl);
      NextPage(k, bl);
    }
  }

  /** Page `k + 1` starts one block after page `k`. */
  lemma NextPage(k: int, bl: int)
    ensures (k + 1) * bl == k * bl + bl
  {
  }

  /** Page `k` of `len` octets cut into `bl`-octet pages starts inside the
      data when `k` does not exceed the page count. */
  lemma PageStartWithin(k: nat, len: nat, bl: nat)
    requires bl > 0 && k <= len / bl
    ensures k * bl <= len
  {
    MulMonotone(k, len / bl, bl);
    assert len == (len / bl) * bl + len % bl;
  }

  /** The page after the last full one starts beyond the data. */
  lemma PastLastPage(len: nat, bl: nat)
    requires bl > 0
    ensures len < (len / bl + 1) * bl
  {
    NextPage(len / bl, bl);
    assert len == (len / bl) * bl + len % bl;
  }

  /** With a negative divisor, the quotient of a natural number is zero
      exactly when the number is below the divisor's magnitude, and
      negative otherwise. */
  lemma NegativeDivisor(a: nat, b: int)
    requires b < 0
    ensures a / b <= 0
    ensures a / b == 0 <==> a < -b
  {
    var q, r := a / b, a % b;
    assert a == b * q + r && 0 <= r < -b;
    assert b * (q - 1) == a - r - b;
    assert b * (q - 1) > 0;
    assert q < 0 ==> b * (q + 1) >= 0;
    assert b * (q + 1) == a - r + b;
  }

  /** Cutting the data from offset `lo`, where a whole block remains,
      yields that block and then the cut from one block further. */
  lemma ChunksAt(data: Bytes, bl: nat, lo: nat)
    requires bl > 0 && lo + bl <= |data|
    ensures Chunks(data[lo..], bl) == [data[lo..lo + bl]] + Chunks(data[lo + bl..], bl)
  {
    var rest := data[lo..];
    assert rest[bl..] == data[lo + bl..];
    assert rest[..bl] == data[lo..lo + bl];
    if |rest| == bl {
      assert rest[bl..] == [];
    }
  }

  lemma PrependTwice(a: Bytes, c: Bytes, o: Option<Bytes>)
    ensures Prepend(a, Prepend(c, o)) == Prepend(a + c, o)
  {
    if o.Some? {
      assert a + (c + o.value) == (a + c) + o.value;
    }
  }

  /** `RSABase64Encrypt`. A plaintext that fits one block comes back as the
      raw ciphertext, not base64-encoded; a longer one is encrypted piece by
      piece and the concatenated ciphertexts are base64-encoded; any failure
      returns an empty string with the error. */
  method RSABase64Encrypt(data: Bytes, publicKey: Bytes, lib: Library) returns (o: Outcome)
    ensures o.Done? && o.err.Some? ==> o.text == []
    ensures LoadKey(lib, publicKey).KeyErr? ==> o == Done([], Some(LoadKey(lib, publicKey).error))
    ensures LoadKey(lib, publicKey).KeyNotRsa? ==> o == Panic(NotRsaKey)
    ensures LoadKey(lib, publicKey).KeyOk? && |data| <= BlockLength(LoadKey(lib, publicKey).key) ==>
      (lib.encrypt(LoadKey(lib, publicKey).key, data).None? ==> o == Done([], Some(EncryptFailed)))
      && (lib.encrypt(LoadKey(lib, publicKey).key, data).Some? ==>
            o == Done(lib.encrypt(LoadKey(lib, publicKey).key, data).value, None))
    ensures LoadKey(lib, publicKey).KeyOk? && BlockLength(LoadKey(lib, publicKey).key) == 0 && |data| > 0 ==>
      o == Panic(DivideByZero)
    ensures LoadKey(lib, publicKey).KeyOk? && BlockLength(LoadKey(lib, publicKey).key) != 0
            && |data| > BlockLength(LoadKey(lib, publicKey).key) ==>
      (EncryptAll(lib, LoadKey(lib, publicKey).key, ChunkPlan(data, BlockLength(LoadKey(lib, publicKey).key))).None? ==>
         o == Done([], Some(EncryptFailed)))
      && (EncryptAll(lib, LoadKey(lib, publicKey).key, ChunkPlan(data, BlockLength(LoadKey(lib, publicKey).key))).Some? ==>
         o == Done(lib.encodeBase64(
                EncryptAll(lib, LoadKey(lib, publicKey).key, ChunkPlan(data, BlockLength(LoadKey(lib, publicKey).key))).value), None))
  {
    var parsed := LoadKey(lib, publicKey);
    if parsed.KeyErr? {
      return Done([], Some(parsed.error));
    }
    if parsed.KeyNotRsa? {
      return Panic(NotRsaKey);
    }
    var key := parsed.key;
    var blockLength := BlockLength(key);
    if |data| <= blockLength {
      var v15 := lib.encrypt(key, data);
      if v15.None? {
        return Done([], Some(EncryptFailed));
      }
      return Done(v15.value, None);
    }
    if blockLength == 0 {
      return Panic(DivideByZero);
    }
    var buffer := EncryptPages(data, key, blockLength, lib);
    if buffer.None? {
      return Done([], Some(EncryptFailed));
    }
    return Done(lib.encodeBase64(buffer.value), None);
  }

  /** The pieces still to encrypt when the page loop is at page `index`. */
  function PagesFrom(data: Bytes, bl: int, index: nat): seq<Bytes>
    requires bl != 0
  {
    if bl > 0 then
      if index * bl <= |data| then Chunks(data[index * bl..], bl) else []
    else if index == 0 then ChunkPlan(data, bl)
    else []
  }

  /** A page the loop encrypts: its bounds are within the data and it is
      the next piece of the plan. */
  lemma PageStep(data: Bytes, bl: int, pages: int, index: nat, start: int, end: int)
    requires bl != 0 && |data| > bl && pages == |data| / bl && index <= pages
    requires start == index * bl
    requires end == if index == pages then |data| else (index + 1) * bl
    requires !(index == pages && start == |data|)
    ensures 0 <= start <= end <= |data|
    ensures PagesFrom(data, bl, index) == [data[start..end]] + PagesFrom(data, bl, index + 1)
  {
    if bl > 0 {
      if index < pages {
        PageStartWithin(index + 1, |data|, bl);
        NextPage(index, bl);
        InnerPageStep(data, bl, index, start);
      } else {
        LastPageStep(data, bl, index);
        assert data[start..end] == data[index * bl..];
      }
    } else {
      NegativeDivisor(|data|, bl);
      assert index == 0 && pages == 0 && start == 0 && end == |data|;
      assert 0 < |data| < -bl;
      assert data[start..end] == data;
    }
  }

  lemma InnerPageStep(data: Bytes, bl: nat, index: nat, lo: nat)
    requires bl > 0 && lo == index * bl && lo + bl <= |data|
    ensures PagesFrom(data, bl, index) == [data[lo..lo + bl]] + PagesFrom(data, bl, index + 1)
  {
    NextPage(index, bl);
    ChunksAt(data, bl, lo);
    assert PagesFrom(data, bl, index) == Chunks(data[lo..], bl);
    assert PagesFrom(data, bl, index + 1) == Chunks(data[lo + bl..], bl);
  }

  lemma LastPageStep(data: Bytes, bl: nat, index: nat)
    requires bl > 0 && index == |data| / bl && index * bl != |data|
    ensures 0 <= index * bl <= |data|
    ensures PagesFrom(data, bl, index) == [data[index * bl..]] + PagesFrom(data, bl, index + 1)
  {
    var lo := index * bl;
    PageStartWithin(index, |data|, bl);
    PastLastPage(|data|, bl);
    NextPage(index, bl);
    var rest := data[lo..];
    assert 0 < |rest| < bl;
    assert PagesFrom(data, bl, index) == Chunks(rest, bl);
  }

  /** The last page, when empty, is skipped: nothing is left of the plan. */
  lemma PageSkip(data: Bytes, bl: int, pages: int, index: nat)
    requires bl != 0 && |data| > bl && pages == |data| / bl && index == pages
    requires index * bl == |data|
    ensures PagesFrom(data, bl, index) == [] && PagesFrom(data, bl, index + 1) == []
  {
    if bl > 0 {
      assert (index + 1) * bl == index * bl + bl;
      assert data[|data|..] == [];
    } else {
      NegativeDivisor(|data|, bl);
    }
  }

  /** Once the loop has passed the last page, nothing is left of the plan. */
  lemma PagesDone(data: Bytes, bl: int, pages: int, index: nat)
    requires bl != 0 && |data| > bl && pages == |data| / bl
    requires pages < index && (index <= pages + 1 || index == 0)
    ensures PagesFrom(data, bl, index) == []
  {
    if bl > 0 {
      PastLastPage(|data|, bl);
    } else {
      NegativeDivisor(|data|, bl);
    }
  }

  /** The state of the page loop at page `index`: the plan's ciphertext is
      the buffer `out` followed by the ciphertext of the pages still to do. */
  ghost predicate PageLoop(lib: Library, key: PublicKey, data: Bytes, bl: int, pages: int, index: nat,
                           out: Bytes, plan: seq<Bytes>)
  {
    && bl != 0 && |data| > bl && pages == |data| / bl
    && (index <= pages + 1 || index == 0)
    && EncryptAll(lib, key, plan) == Prepend(out, EncryptAll(lib, key, PagesFrom(data, bl, index)))
  }

  /** The loop starts at page 0 with an empty buffer. */
  lemma StartStep(lib: Library, key: PublicKey, data: Bytes, bl: int)
    requires bl != 0 && |data| > bl
    ensures PageLoop(lib, key, data, bl, |data| / bl, 0, [], ChunkPlan(data, bl))
  {
    var plan := ChunkPlan(data, bl);
    assert PagesFrom(data, bl, 0) == plan by {
      assert data[0..] == data;
    }
    if EncryptAll(lib, key, plan).Some? {
      assert [] + EncryptAll(lib, key, plan).value == EncryptAll(lib, key, plan).value;
    }
  }

  /** A page the loop encrypts lies within the data. */
  lemma PageBounds(lib: Library, key: PublicKey, data: Bytes, bl: int, pages: int, index: nat,
                   start: int, end: int, out: Bytes, plan: seq<Bytes>)
    requires PageLoop(lib, key, data, bl, pages, index, out, plan) && index <= pages
    requires start == index * bl
    requires end == if index == pages then |data| else (index + 1) * bl
    requires !(index == pages && start == |data|)
    ensures 0 <= start <= end <= |data|
  {
    PageStep(data, bl, pages, index, start, end);
  }

  /** One encrypted page: a failure to encrypt it is a failure of the whole
      plan, and otherwise the loop moves on to the next page with the
      page's ciphertext appended. */
  lemma EncryptStep(lib: Library, key: PublicKey, data: Bytes, bl: int, pages: int, index: nat,
                    start: int, end: int, out: Bytes, plan: seq<Bytes>, chunk: Option<Bytes>)
    requires PageLoop(lib, key, data, bl, pages, index, out, plan) && index <= pages
    requires start == index * bl
    requires end == if index == pages then |data| else (index + 1) * bl
    requires !(index == pages && start == |data|)
    requires 0 <= start <= end <= |data| && chunk == lib.encrypt(key, data[start..end])
    ensures chunk.None? ==> EncryptAll(lib, key, plan) == None
    ensures chunk.Some? ==> PageLoop(lib, key, data, bl, pages, index + 1, out + chunk.value, plan)
  {
    PageStep(data, bl, pages, index, start, end);
    if chunk.Some? {
      PrependTwice(out, chunk.value, EncryptAll(lib, key, PagesFrom(data, bl, index + 1)));
    }
  }

  /** An empty last page is skipped and leaves the buffer as it was. */
  lemma SkipStep(lib: Library, key: PublicKey, data: Bytes, bl: int, pages: int, index: nat,
                 out: Bytes, plan: seq<Bytes>)
    requires PageLoop(lib, key, data, bl, pages, index, out, plan) && index == pages
    requires index * bl == |data|
    ensures PageLoop(lib, key, data, bl, pages, index + 1, out, plan)
  {
    PageSkip(data, bl, pages, index);
  }

  /** After the last page the buffer holds the whole plan's ciphertext. */
  lemma DoneStep(lib: Library, key: PublicKey, data: Bytes, bl: int, pages: int, index: nat,
                 out: Bytes, plan: seq<Bytes>)
    requires PageLoop(lib, key, data, bl, pages, index, out, plan) && pages < index
    ensures EncryptAll(lib, key, plan) == Some(out)
  {
    PagesDone(data, bl, pages, index);
    assert out + [] == out;
  }

  /** The page loop of `RSABase64Encrypt`: pages `0..len / bl` of `bl`
      octets, the last one cut at the end of the data and skipped when
      empty, each encrypted and appended to a buffer; `None` at the first
      piece whose encryption fails. */
  method EncryptPages(data: Bytes, key: PublicKey, blockLength: int, lib: Library) returns (buffer: Option<Bytes>)
    requires blockLength != 0 && |data| > blockLength
    ensures buffer == EncryptAll(lib, key, ChunkPlan(data, blockLength))
  {
    ghost var plan := ChunkPlan(data, blockLength);
    // For a non-negative dividend Dafny's division agrees with Go's.
    var pages := |data| / blockLength;
    var out: Bytes := [];
    var index := 0;
    StartStep(lib, key, data, blockLength);
    while index <= pages
      invariant PageLoop(lib, key, data, blockLength, pages, index, out, plan)
      decreases pages + 1 - index
    {
      var start := index * blockLength;
      var end := (index + 1) * blockLength;
      if index == pages {
        if start == |data| {
          SkipStep(lib, key, data, blockLength, pages, index, out, plan);
          index := index + 1;
          continue;
        }
        end := |data|;
      }
      PageBounds(lib, key, data, blockLength, pages, index, start, end, out, plan);
      var chunk := lib.encrypt(key, data[start..end]);
      EncryptStep(lib, key, data, blockLength, pages, index, start, end, out, plan, chunk);
      if chunk.None? {
        return None;
      }
      out := out + chunk.value;
      index := index + 1;
    }
    DoneStep(lib, key, data, blockLength, pages, index, out, plan);
    return Some(out);
  }

  /** `m` to the power `e`. */
  function Pow(m: nat, e: nat): nat
  {
    if e == 0 then 1 else m * Pow(m, e - 1)
  }

  /** `big.Int.Exp(m, e, n)` for a positive modulus: `m^e mod n`. */
  function ModPow(m: nat, e: nat, n: Modulus): (r: nat)
    ensures r < n
  {
    Pow(m, e) % n
  }

  /** `big.Int.SetBytes`: the natural number whose big-endian octets are
      `s`, which is below 256 to the power of their count. */
  function FromBigEndian(s: Bytes): (x: nat)
    ensures x < Pow(256, |s|)
  {
    if s == [] then 0 else FromBigEndian(s[..|s| - 1]) * 256 + s[|s| - 1] as nat
  }

  /** `big.Int.Bytes`: the big-endian octets of `x`, without leading zeros
      (none at all for zero). */
  function ToBigEndian(x: nat): (s: Bytes)
    ensures x == 0 <==> s == []
    ensures s != [] ==> s[0] != 0
  {
    if x == 0 then []
    else
      var s := ToBigEndian(x / 256) + [(x % 256) as byte];
      assert x / 256 > 0 ==> s[0] == ToBigEndian(x / 256)[0];
      s
  }

  /** `s` with its leading zero octets removed. */
  function DropLeadingZeros(s: Bytes): (r: Bytes)
    ensures r != [] ==> r[0] != 0
  {
    if s != [] && s[0] == 0 then DropLeadingZeros(s[1..]) else s
  }

  /** Decoding then encoding a number gives it back. */
  lemma {:induction false} BigEndianRoundTrip(x: nat)
    ensures FromBigEndian(ToBigEndian(x)) == x
  {
    if x > 0 {
      var s := ToBigEndian(x);
      BigEndianRoundTrip(x / 256);
      assert s[..|s| - 1] == ToBigEndian(x / 256);
    }
  }

  lemma {:induction false} DropLeadingZerosAppend(p: Bytes, b: byte)
    requires DropLeadingZeros(p) != [] || b != 0
    ensures DropLeadingZeros(p + [b]) == DropLeadingZeros(p) + [b]
    decreases |p|
  {
    if p != [] && p[0] == 0 {
      assert (p + [b])[1..] == p[1..] + [b];
      DropLeadingZerosAppend(p[1..], b);
    } else if p == [] {
      assert p + [b] == [b];
    }
  }

  lemma {:induction false} FromBigEndianZero(s: Bytes)
    ensures FromBigEndian(s) == 0 <==> DropLeadingZeros(s) == []
    decreases |s|
  {
    if s != [] {
      var p, b := s[..|s| - 1], s[|s| - 1];
      assert s == p + [b];
      FromBigEndianZero(p);
      DropLeadingZerosAppendZero(p, b);
    }
  }

  /** An octet string whose leading zeros are all it has: so is its
      prefix, and its last octet is zero. */
  lemma {:induction false} DropLeadingZerosAppendZero(p: Bytes, b: byte)
    ensures DropLeadingZeros(p + [b]) == [] <==> DropLeadingZeros(p) == [] && b == 0
    decreases |p|
  {
    if p != [] && p[0] == 0 {
      assert (p + [b])[1..] == p[1..] + [b];
      DropLeadingZerosAppendZero(p[1..], b);
    } else if p == [] {
      assert p + [b] == [b];
    }
  }

  /** Encoding the value of an octet string gives the string without its
      leading zeros. */
  lemma {:induction false} BigEndianCanonical(s: Bytes)
    ensures ToBigEndian(FromBigEndian(s)) == DropLeadingZeros(s)
    decreases |s|
  {
    if s != [] {
      var p, b := s[..|s| - 1], s[|s| - 1];
      assert s == p + [b];
      var x := FromBigEndian(s);
      BigEndianCanonical(p);
      FromBigEndianZero(s);
      if x == 0 {
      } else {
        assert x / 256 == FromBigEndian(p) && x % 256 == b as nat;
        DropLeadingZerosAppendZero(p, b);
        DropLeadingZerosAppend(p, b);
      }
    }
  }

  /** A padding marker: 0xff followed by 0x00, at an index of 2 or more. */
  predicate MarkerAt(out: Bytes, i: int)
  {
    2 <= i && i + 1 < |out| && out[i] == 0xff && out[i + 1] == 0
  }

  /** Where the message starts after the scan for the first marker at or
      after `from`: just after the marker, or 0 when there is none. */
  function MarkerEndFrom(out: Bytes, from: nat): (skip: nat)
    requires from >= 2
    ensures skip == 0 <==> forall i :: from <= i ==> !MarkerAt(out, i)
    ensures skip > 0 ==> from + 2 <= skip && MarkerAt(out, skip - 2)
    ensures skip > 0 ==> forall i :: from <= i < skip - 2 ==> !MarkerAt(out, i)
    decreases |out| - from
  {
    if from + 1 >= |out| then 0
    else if out[from] == 0xff && out[from + 1] == 0 then
      assert MarkerAt(out, from);
      from + 2
    else MarkerEndFrom(out, from + 1)
  }

  /** The offset `RsaPublicDecrypt` cuts at. */
  function PaddingEnd(out: Bytes): (skip: nat)
    ensures skip <= |out|
    ensures skip == 0 <==> forall i :: !MarkerAt(out, i)
    ensures skip > 0 ==> MarkerAt(out, skip - 2) && forall i :: i < skip - 2 ==> !MarkerAt(out, i)
  {
    MarkerEndFrom(out, 2)
  }

  /** The public-key operation on one block and the padding strip. */
  function PublicDecrypt(key: PublicKey, block: Bytes): (plain: Bytes)
    ensures
      var out := ToBigEndian(ModPow(FromBigEndian(block), key.e, key.n));
      |plain| <= |out| && plain == out[|out| - |plain|..]
  {
    var out := ToBigEndian(ModPow(FromBigEndian(block), key.e, key.n));
    out[PaddingEnd(out)..]
  }

  /** `RsaPublicDecrypt`: `m^e mod N` of the block's big-endian value, as
      minimal big-endian octets, cut after the first 0xff 0x00 pair at an
      index of 2 or more; uncut when there is none. */
  method RsaPublicDecrypt(key: PublicKey, block: Bytes) returns (plain: Bytes)
    ensures plain == PublicDecrypt(key, block)
  {
    var m := FromBigEndian(block);
    var c := ModPow(m, key.e, key.n);
    var out := ToBigEndian(c);
    var skip := 0;
    var i := 2;
    while i < |out|
      invariant 2 <= i
      invariant skip == 0
      invariant forall k :: k < i ==> !MarkerAt(out, k)
    {
      if i + 1 >= |out| {
        break;
      }
      if out[i] == 0xff && out[i + 1] == 0 {
        skip := i + 2;
        break;
      }
      i := i + 1;
    }
    if skip == 0 {
      assert i + 1 >= |out|;
      assert forall k :: !MarkerAt(out, k);
    } else {
      assert MarkerAt(out, skip - 2);
    }
    assert skip == PaddingEnd(out);
    return out[skip..];
  }

  /** An encoded message of block type 01 as section 9.2 of RFC 8017 builds
      it: 0x00 0x01, `psLen` octets 0xff, 0x00, then the message. */
  function Type1Block(psLen: nat, msg: Bytes): (em: Bytes)
  {
    [0, 1] + seq(psLen, _ => 0xff) + [0] + msg
  }

  /** The strip recovers the message from any block-type-01 encoding with
      at least the 8 padding octets the standard requires, once the
      public-key operation yields that encoding's value. */
  lemma StripRecoversMessage(key: PublicKey, block: Bytes, psLen: nat, msg: Bytes)
    requires psLen >= 8
    requires ModPow(FromBigEndian(block), key.e, key.n) == FromBigEndian(Type1Block(psLen, msg))
    ensures PublicDecrypt(key, block) == msg
  {
    var em := Type1Block(psLen, msg);
    BigEndianCanonical(em);
    assert DropLeadingZeros(em) == em[1..];
    var out := em[1..];
    assert out == [1] + seq(psLen, _ => 0xff) + [0] + msg;
    assert out[psLen] == 0xff && out[psLen + 1] == 0;
    assert MarkerAt(out, psLen);
    forall i | i < psLen ensures !MarkerAt(out, i) {
      if 2 <= i {
        assert out[i + 1] == 0xff;
      }
    }
    assert PaddingEnd(out) == psLen + 2;
    assert out[psLen + 2..] == msg;
  }

  /** The 128-octet blocks of `d`, each through the public-key operation,
      concatenated in order. */
  function DecryptBlocks(key: PublicKey, d: Bytes): (plain: Bytes)
    requires |d| % 128 == 0
    ensures |d| == 128 ==> plain == PublicDecrypt(key, d)
    decreases |d|
  {
    if d == [] then []
    else
      var p := PublicDecrypt(key, d[..128]) + DecryptBlocks(key, d[128..]);
      assert |d| == 128 ==> d[..128] == d && d[128..] == [] && p == PublicDecrypt(key, d) + [];
      p
  }

  /** Each block is decrypted on its own: the plaintext of two whole runs of
      blocks is the plaintext of the first followed by that of the second. */
  lemma {:induction false} DecryptBlocksAppend(key: PublicKey, d1: Bytes, d2: Bytes)
    requires |d1| % 128 == 0 && |d2| % 128 == 0
    ensures DecryptBlocks(key, d1 + d2) == DecryptBlocks(key, d1) + DecryptBlocks(key, d2)
    decreases |d1|
  {
    if d1 == [] {
      assert d1 + d2 == d2;
    } else {
      var d := d1 + d2;
      BlockRemainder(|d1|);
      assert d[..128] == d1[..128] && d[128..] == d1[128..] + d2;
      DecryptBlocksAppend(key, d1[128..], d2);
    }
  }

  /** Consuming one 128-octet block leaves the remainder modulo 128 as it was. */
  lemma BlockRemainder(x: int)
    requires x >= 128
    ensures (x - 128) % 128 == x % 128
  {
  }

  /** The state of the block loop: `rest` is what remains of `d`, which
      leaves the remainder modulo 128 as it was, and when `d` is a whole
      number of blocks, `result` followed by the plaintext of `rest` is the
      plaintext of `d`. */
  ghost predicate BlockLoop(key: PublicKey, d: Bytes, rest: Bytes, result: Bytes)
  {
    && |rest| % 128 == |d| % 128
    && (|d| % 128 == 0 ==> result + DecryptBlocks(key, rest) == DecryptBlocks(key, d))
  }

  /** The loop starts with all of `d` left and nothing decrypted. */
  lemma StartBlocks(key: PublicKey, d: Bytes)
    ensures BlockLoop(key, d, d, [])
  {
    if |d| % 128 == 0 {
      assert [] + DecryptBlocks(key, d) == DecryptBlocks(key, d);
    }
  }

  /** A nonempty remainder shorter than one block means `d` was not a whole
      number of blocks. */
  lemma ShortBlock(key: PublicKey, d: Bytes, rest: Bytes, result: Bytes)
    requires BlockLoop(key, d, rest, result) && 0 < |rest| < 128
    ensures |d| % 128 != 0
  {
  }

  /** Decrypting one block keeps the loop state. */
  lemma BlockStep(key: PublicKey, d: Bytes, rest: Bytes, result: Bytes, part: Bytes)
    requires BlockLoop(key, d, rest, result) && |rest| >= 128
    requires part == PublicDecrypt(key, rest[..128])
    ensures BlockLoop(key, d, rest[128..], result + part)
  {
    BlockRemainder(|rest|);
    if |d| % 128 == 0 {
      assert DecryptBlocks(key, rest) == part + DecryptBlocks(key, rest[128..]);
      assert result + (part + DecryptBlocks(key, rest[128..])) == (result + part) + DecryptBlocks(key, rest[128..]);
    }
  }

  /** `RSABase64Decrypt`: decode the data, then the key, then parse it (each
      failure returns an empty string with the error), then consume the
      data front to back in 128-octet blocks, which panics unless its
      length is a multiple of 128. */
  method RSABase64Decrypt(encodedData: Bytes, publicKey: Bytes, lib: Library) returns (o: Outcome)
    ensures o.Done? && o.err.Some? ==> o.text == []
    ensures lib.decodeBase64(encodedData).None? ==> o == Done([], Some(DataNotBase64))
    ensures lib.decodeBase64(encodedData).Some? && LoadKey(lib, publicKey).KeyErr? ==>
      o == Done([], Some(LoadKey(lib, publicKey).error))
    ensures lib.decodeBase64(encodedData).Some? && LoadKey(lib, publicKey).KeyNotRsa? ==>
      o == Panic(NotRsaKey)
    ensures lib.decodeBase64(encodedData).Some? && LoadKey(lib, publicKey).KeyOk?
            && |lib.decodeBase64(encodedData).value| % 128 == 0 ==>
      o == Done(DecryptBlocks(LoadKey(lib, publicKey).key, lib.decodeBase64(encodedData).value), None)
    ensures lib.decodeBase64(encodedData).Some? && LoadKey(lib, publicKey).KeyOk?
            && |lib.decodeBase64(encodedData).value| % 128 != 0 ==>
      o == Panic(SliceOutOfRange)
  {
    var decoded := lib.decodeBase64(encodedData);
    if decoded.None? {
      return Done([], Some(DataNotBase64));
    }
    var parsed := LoadKey(lib, publicKey);
    if parsed.KeyErr? {
      return Done([], Some(parsed.error));
    }
    if parsed.KeyNotRsa? {
      return Panic(NotRsaKey);
    }
    var key := parsed.key;
    var plain := DecryptLoop(key, decoded.value);
    if plain.None? {
      return Panic(SliceOutOfRange);
    }
    return Done(plain.value, None);
  }

  /** The block loop of `RSABase64Decrypt`: 128 octets at a time from the
      front, each through `RsaPublicDecrypt`. `None` is the slice panic on a
      last block shorter than 128 octets. */
  method DecryptLoop(key: PublicKey, d: Bytes) returns (plain: Option<Bytes>)
    ensures |d| % 128 == 0 ==> plain == Some(DecryptBlocks(key, d))
    ensures |d| % 128 != 0 ==> plain == None
  {
    var decodedData := d;
    var result: Bytes := [];
    StartBlocks(key, d);
    while |decodedData| > 0
      invariant BlockLoop(key, d, decodedData, result)
    {
      if |decodedData| < 128 {
        ShortBlock(key, d, decodedData, result);
        return None;
      }
      var decodePart := decodedData[..128];
      var part := RsaPublicDecrypt(key, decodePart);
      BlockStep(key, d, decodedData, result, part);
      result := result + part;
      decodedData := decodedData[128..];
    }
    assert result + [] == result;
    return Some(result);
  }
}
