/**
 * The store file format: 152 bytes of signatures, a header that says how the payload is packed and
 * which entries it holds, then the WAL file's bytes, compressed and encrypted as the header says.
 */
module StoreCodec {
  import opened Outcomes
  import opened Bytes
  import opened WalCodec

  type Signature = s: Bytes | |s| == 64 witness Zeros(64)

  datatype Compression = Plain | Gzip | Xz | Zstd {
    function Code(): U64 {
      match this
      case Plain => 0
      case Gzip => 1
      case Xz => 2
      case Zstd => 3
    }
  }

  datatype Encryption = Clear | Aes {
    function Code(): U64 {
      if Clear? then 0 else 1
    }
  }

  function CompressionOf(v: U64): (c: Option<Compression>)
    ensures c.Some? ==> c.value.Code() == v
  {
    if v == 0 then Some(Plain) else if v == 1 then Some(Gzip) else if v == 2 then Some(Xz)
    else if v == 3 then Some(Zstd) else None
  }

  function EncryptionOf(v: U64): (e: Option<Encryption>)
    ensures e.Some? ==> e.value.Code() == v
  {
    if v == 0 then Some(Clear) else if v == 1 then Some(Aes) else None
  }

  datatype StoreError =
    | SliceTooShort | NumberTooShort | UnsupportedVersion(value: U64) | UnsupportedCompression(value: U64)
    | UnsupportedEncryption(value: U64) | UnsupportedSignature(value: U64)
    | SignatureFailed | DecryptFailed | DecompressFailed | PackFailed

  /** Compression, encryption and signing are other libraries' work; here they are functions. */
  datatype Crypto = Crypto(
    zstd: Bytes -> Bytes, unzstd: Bytes -> Option<Bytes>, unxz: Bytes -> Option<Bytes>,
    encrypt: (nat, Bytes) -> (Bytes, Bytes), decrypt: (nat, Bytes, Bytes) -> Option<Bytes>,
    sign: Bytes -> Signature, verify: (Bytes, Signature) -> bool)
  {
    /** Unpacking undoes packing, a nonce has twelve bytes, and own signatures are accepted. */
    ghost predicate Lawful() {
      && (forall x :: unzstd(zstd(x)) == Some(x))
      && (forall id, x :: |encrypt(id, x).0| == 12 && decrypt(id, encrypt(id, x).0, encrypt(id, x).1) == Some(x))
      && (forall x :: verify(x, sign(x)))
    }
  }

  // ----- Signatures -----

  const AUTH_SIZE: nat := 152

  datatype FileAuthentication = FileAuthentication(headerSignature: Signature, contentSignature: Signature)

  function AuthBytes(a: FileAuthentication): (s: Bytes)
    ensures |s| == AUTH_SIZE
  {
    U64Bytes(0) + (U64Bytes(0) + (a.headerSignature + (U64Bytes(0) + a.contentSignature)))
  }

  function AuthFromBytes(s: Bytes): (r: Result<(FileAuthentication, nat), StoreError>)
    ensures r.Ok? ==> r.value.1 <= |s|
  {
    if |s| < AUTH_SIZE then Err(SliceTooShort)
    else
      var version, headerType, contentType := ReadU64(s[0..8]), ReadU64(s[8..16]), ReadU64(s[80..88]);
      if version != 0 then Err(UnsupportedVersion(version))
      else if headerType != 0 then Err(UnsupportedSignature(headerType))
      else if contentType != 0 then Err(UnsupportedSignature(contentType))
      else Ok((FileAuthentication(s[16..80], s[88..152]), AUTH_SIZE))
  }

  lemma AuthFields(a: FileAuthentication)
    ensures var s := AuthBytes(a);
            && s[0..8] == U64Bytes(0) && s[8..16] == U64Bytes(0) && s[16..80] == a.headerSignature
            && s[80..88] == U64Bytes(0) && s[88..152] == a.contentSignature
  {
    hide U64Bytes;
    var z, h, c := U64Bytes(0), a.headerSignature, a.contentSignature;
    SliceWhole(z, z + (h + (z + c)));
    SliceRight(z, z + (h + (z + c)), 8, 16);
    SliceWhole(z, h + (z + c));
    SliceRight(z, z + (h + (z + c)), 16, 80);
    SliceRight(z, h + (z + c), 8, 72);
    SliceWhole(h, z + c);
    SliceRight(z, z + (h + (z + c)), 80, 88);
    SliceRight(z, h + (z + c), 72, 80);
    SliceRight(h, z + c, 64, 72);
    SliceWhole(z, c);
    SliceRight(z, z + (h + (z + c)), 88, 152);
    SliceRight(z, h + (z + c), 80, 144);
    SliceRight(h, z + c, 72, 136);
    SliceRight(z, c, 8, 72);
  }

  lemma AuthRoundTrip(a: FileAuthentication, rest: Bytes)
    ensures AuthFromBytes(AuthBytes(a) + rest) == Ok((a, AUTH_SIZE))
  {
    hide U64Bytes, ReadU64, AuthBytes;
    AuthFields(a);
    var s := AuthBytes(a);
    SliceLeft(s, rest, 0, 8);
    SliceLeft(s, rest, 8, 16);
    SliceLeft(s, rest, 16, 80);
    SliceLeft(s, rest, 80, 88);
    SliceLeft(s, rest, 88, 152);
  }

  /** Any bytes decode to signatures exactly when they start with them. */
  lemma AuthExactly(s: Bytes, a: FileAuthentication, n: nat)
    ensures AuthFromBytes(s) == Ok((a, n)) <==> n == AUTH_SIZE <= |s| && s[..AUTH_SIZE] == AuthBytes(a)
  {
    hide U64Bytes, ReadU64, AuthBytes;
    if |s| >= AUTH_SIZE {
      NumberIs(s[0..8], 0);
      NumberIs(s[8..16], 0);
      NumberIs(s[80..88], 0);
      AuthFields(a);
      AuthParts(s, AuthBytes(a));
    }
  }

  lemma AuthParts(s: Bytes, t: Bytes)
    requires |t| == AUTH_SIZE <= |s|
    ensures s[..AUTH_SIZE] == t <==>
              s[0..8] == t[0..8] && s[8..16] == t[8..16] && s[16..80] == t[16..80] && s[80..88] == t[80..88] && s[88..152] == t[88..152]
  {
    SliceOfPrefix(s, AUTH_SIZE, 0, 8);
    SliceOfPrefix(s, AUTH_SIZE, 8, 16);
    SliceOfPrefix(s, AUTH_SIZE, 16, 80);
    SliceOfPrefix(s, AUTH_SIZE, 80, 88);
    SliceOfPrefix(s, AUTH_SIZE, 88, 152);
    if s[0..8] == t[0..8] && s[8..16] == t[8..16] && s[16..80] == t[16..80] && s[80..88] == t[80..88] && s[88..152] == t[88..152] {
      assert s[..AUTH_SIZE] == s[0..8] + s[8..16] + s[16..80] + s[80..88] + s[88..152];
      assert t == t[0..8] + t[8..16] + t[16..80] + t[80..88] + t[88..152];
    }
  }

  // ----- Header -----

  datatype StoreHeader = StoreHeader(compression: Compression, encryption: Encryption, before: nat, count: nat) {
    ghost predicate Storable() {
      IdWidth(before) < U64_LIMIT && IdWidth(count) < U64_LIMIT
    }
  }

  /** A number behind the eight bytes that give its width. */
  function Prefixed(v: nat): (s: Bytes)
    requires IdWidth(v) < U64_LIMIT
    ensures |s| == 8 + IdWidth(v)
  {
    U64Bytes(IdWidth(v)) + LeBytes(v, IdWidth(v))
  }

  lemma PrefixedRoundTrip(v: nat, rest: Bytes)
    requires IdWidth(v) < U64_LIMIT
    ensures ReadPrefixed(Prefixed(v) + rest) == Some((v, |Prefixed(v)|))
  {
    hide U64Bytes, ReadU64, LeBytes, LeValue, IdWidth;
    var w := IdWidth(v);
    var a, b := U64Bytes(w), LeBytes(v, w);
    LeRoundTrip(v, w);
    SliceLeft(a + b, rest, 0, 8);
    SliceWhole(a, b);
    SliceLeft(a + b, rest, 8, 8 + w);
    SliceRight(a, b, 8, 8 + w);
  }

  function StoreHeaderBytes(h: StoreHeader): (s: Bytes)
    requires h.Storable()
    ensures |s| == 40 + IdWidth(h.before) + IdWidth(h.count)
  {
    U64Bytes(0) + (U64Bytes(h.compression.Code()) + (U64Bytes(h.encryption.Code()) + (Prefixed(h.before) + Prefixed(h.count))))
  }

  function StoreHeaderFromBytes(s: Bytes): (r: Result<(StoreHeader, nat), StoreError>)
    ensures r.Ok? ==> r.value.1 <= |s|
  {
    if |s| < 24 then Err(SliceTooShort)
    else
      var version, c, e := ReadU64(s[0..8]), ReadU64(s[8..16]), ReadU64(s[16..24]);
      if version != 0 then Err(UnsupportedVersion(version))
      else if CompressionOf(c).None? then Err(UnsupportedCompression(c))
      else if EncryptionOf(e).None? then Err(UnsupportedEncryption(e))
      else
        match ReadPrefixed(s[24..])
        case None => Err(NumberTooShort)
        case Some((before, n)) =>
          match ReadPrefixed(s[24 + n..])
          case None => Err(NumberTooShort)
          case Some((count, m)) => Ok((StoreHeader(CompressionOf(c).value, EncryptionOf(e).value, before, count), 24 + n + m))
  }

  lemma StoreHeaderFields(h: StoreHeader, rest: Bytes)
    requires h.Storable()
    ensures var s := StoreHeaderBytes(h) + rest;
            && s[0..8] == U64Bytes(0) && s[8..16] == U64Bytes(h.compression.Code())
            && s[16..24] == U64Bytes(h.encryption.Code())
            && s[24..] == Prefixed(h.before) + (Prefixed(h.count) + rest)
            && s[24 + |Prefixed(h.before)|..] == Prefixed(h.count) + rest
  {
    hide U64Bytes, Prefixed, IdWidth;
    var a, b, c := U64Bytes(0), U64Bytes(h.compression.Code()), U64Bytes(h.encryption.Code());
    var p, q := Prefixed(h.before), Prefixed(h.count);
    var s := StoreHeaderBytes(h) + rest;
    assert s == a + (b + (c + (p + (q + rest))));
    SliceWhole(a, b + (c + (p + (q + rest))));
    SliceRight(a, b + (c + (p + (q + rest))), 8, 16);
    SliceWhole(b, c + (p + (q + rest)));
    SliceRight(a, b + (c + (p + (q + rest))), 16, 24);
    SliceRight(b, c + (p + (q + rest)), 8, 16);
    SliceWhole(c, p + (q + rest));
    assert s == (a + b + c) + (p + (q + rest));
    DropLeft(a + b + c, p + (q + rest));
    DropLeft(p, q + rest);
    TailOfTail(s, 24, |p|);
  }

  lemma StoreHeaderRoundTrip(h: StoreHeader, rest: Bytes)
    requires h.Storable()
    ensures StoreHeaderFromBytes(StoreHeaderBytes(h) + rest) == Ok((h, |StoreHeaderBytes(h)|))
  {
    hide U64Bytes, ReadU64, Prefixed, IdWidth, ReadPrefixed, StoreHeaderBytes;
    StoreHeaderFields(h, rest);
    PrefixedRoundTrip(h.before, Prefixed(h.count) + rest);
    PrefixedRoundTrip(h.count, rest);
  }

  /** The packings and their numbers in the header: these and no others. */
  lemma PackingNumbers(c: Compression, e: Encryption, v: U64)
    ensures CompressionOf(v) == Some(c) <==> v == (match c case Plain => 0 case Gzip => 1 case Xz => 2 case Zstd => 3)
    ensures EncryptionOf(v) == Some(e) <==> v == (match e case Clear => 0 case Aes => 1)
    ensures CompressionOf(c.Code()) == Some(c) && EncryptionOf(e.Code()) == Some(e)
  {
  }

  /** Any bytes decode to a store header exactly when version, packing and both numbers stand in their places. */
  lemma StoreHeaderExactly(s: Bytes, h: StoreHeader, n: nat)
    ensures StoreHeaderFromBytes(s) == Ok((h, n)) <==>
              && 24 <= n <= |s| && s[0..8] == U64Bytes(0) && s[8..16] == U64Bytes(h.compression.Code())
              && s[16..24] == U64Bytes(h.encryption.Code())
              && exists m :: 24 <= m <= n && ReadPrefixed(s[24..]) == Some((h.before, m - 24)) && ReadPrefixed(s[m..]) == Some((h.count, n - m))
  {
    hide U64Bytes, ReadU64, ReadPrefixed;
    if |s| >= 24 {
      PackingNumbers(h.compression, h.encryption, ReadU64(s[8..16]));
      PackingNumbers(h.compression, h.encryption, ReadU64(s[16..24]));
      NumberIs(s[0..8], 0);
      NumberIs(s[8..16], h.compression.Code());
      NumberIs(s[16..24], h.encryption.Code());
      var first := ReadPrefixed(s[24..]);
      if first.Some? {
        var m := 24 + first.value.1;
        if StoreHeaderFromBytes(s) == Ok((h, n)) {
          assert ReadPrefixed(s[24..]) == Some((h.before, m - 24)) && ReadPrefixed(s[m..]) == Some((h.count, n - m));
        }
      }
    }
  }

  /** What decoding says about bytes that are not a store header. */
  lemma StoreHeaderRefused(s: Bytes, v: U64)
    ensures StoreHeaderFromBytes(s) == Err(SliceTooShort) <==> |s| < 24
    ensures StoreHeaderFromBytes(s) == Err(UnsupportedVersion(v)) <==> |s| >= 24 && v != 0 && s[0..8] == U64Bytes(v)
    ensures StoreHeaderFromBytes(s) == Err(UnsupportedCompression(v)) <==>
              |s| >= 24 && s[0..8] == U64Bytes(0) && s[8..16] == U64Bytes(v) && v > 3
    ensures StoreHeaderFromBytes(s) == Err(UnsupportedEncryption(v)) <==>
              |s| >= 24 && s[0..8] == U64Bytes(0) && CompressionOf(ReadU64(s[8..16])).Some? && s[16..24] == U64Bytes(v) && v > 1
  {
    hide U64Bytes, ReadU64, ReadPrefixed;
    if |s| >= 24 {
      NumberIs(s[0..8], 0);
      NumberIs(s[0..8], v);
      NumberIs(s[8..16], v);
      NumberIs(s[16..24], v);
    }
  }

  // ----- Packing and unpacking -----

  /** Compress, then encrypt, as asked. Only one compression is supported for writing. */
  function Pack(c: Crypto, id: nat, compression: Compression, encryption: Encryption, content: Bytes): (r: Result<Bytes, StoreError>)
    ensures r.Ok? <==> compression == Plain || compression == Zstd
  {
    match compression
    case Plain => Ok(Encrypted(c, id, encryption, content))
    case Zstd => Ok(Encrypted(c, id, encryption, c.zstd(content)))
    case _ => Err(PackFailed)
  }

  function Encrypted(c: Crypto, id: nat, encryption: Encryption, data: Bytes): Bytes {
    if encryption == Clear then data
    else
      var (nonce, cipher) := c.encrypt(id, data);
      nonce + cipher
  }

  /** A whole store file around a packed payload. */
  function StoreFile(c: Crypto, header: StoreHeader, data: Bytes): Bytes
    requires header.Storable()
  {
    var head := StoreHeaderBytes(header);
    AuthBytes(FileAuthentication(c.sign(head), c.sign(data))) + (head + data)
  }

  function Decompressed(c: Crypto, compression: Compression, data: Bytes): Result<Bytes, StoreError> {
    var plain := match compression
      case Plain => Some(data)
      case Gzip => c.unzstd(data)
      case Xz => c.unxz(data)
      case Zstd => c.unzstd(data);
    if plain.Some? then Ok(plain.value) else Err(DecompressFailed)
  }

  /** Get the WAL bytes back out of a store file. */
  function Extract(c: Crypto, id: nat, content: Bytes, verifySignatures: bool): (r: Result<Bytes, StoreError>) {
    var (auth, authSize) :- AuthFromBytes(content);
    var rest := content[authSize..];
    var (header, headerSize) :- StoreHeaderFromBytes(rest);
    var data := rest[headerSize..];
    if verifySignatures && (!c.verify(rest[..headerSize], auth.headerSignature) || !c.verify(data, auth.contentSignature)) then
      Err(SignatureFailed)
    else if header.encryption == Clear then Decompressed(c, header.compression, data)
    else if |data| < 12 then Err(DecryptFailed)
    else
      match c.decrypt(id, data[0..12], data[12..])
      case None => Err(DecryptFailed)
      case Some(packed) => Decompressed(c, header.compression, packed)
  }

  /** Taking a store file apart gives back its parts. */
  lemma StoreFileParts(c: Crypto, header: StoreHeader, data: Bytes)
    requires header.Storable()
    ensures var s, head := StoreFile(c, header, data), StoreHeaderBytes(header);
            && AuthFromBytes(s) == Ok((FileAuthentication(c.sign(head), c.sign(data)), AUTH_SIZE))
            && s[AUTH_SIZE..] == head + data
            && StoreHeaderFromBytes(s[AUTH_SIZE..]) == Ok((header, |head|))
            && s[AUTH_SIZE..][..|head|] == head && s[AUTH_SIZE..][|head|..] == data
  {
    hide AuthBytes, AuthFromBytes, StoreHeaderBytes, StoreHeaderFromBytes;
    var head := StoreHeaderBytes(header);
    var auth := FileAuthentication(c.sign(head), c.sign(data));
    AuthRoundTrip(auth, head + data);
    DropLeft(AuthBytes(auth), head + data);
    StoreHeaderRoundTrip(header, data);
    DropLeft(head, data);
    SliceLeft(head, data, 0, |head|);
  }

  /** Extracting a written store file gives the original bytes, for every way of packing that can be written. */
  lemma ExtractRoundTrip(c: Crypto, id: nat, header: StoreHeader, content: Bytes, verifySignatures: bool)
    requires c.Lawful() && header.Storable()
    ensures var packed := Pack(c, id, header.compression, header.encryption, content);
            packed.Ok? ==> Extract(c, id, StoreFile(c, header, packed.value), verifySignatures) == Ok(content)
  {
    hide StoreFile, AuthFromBytes, StoreHeaderBytes, StoreHeaderFromBytes;
    var packed := Pack(c, id, header.compression, header.encryption, content);
    if packed.Ok? {
      StoreFileParts(c, header, packed.value);
      if header.encryption == Aes {
        var plain := if header.compression == Zstd then c.zstd(content) else content;
        NonceAndCipher(c, id, plain);
      }
    }
  }

  /**
   * Extracting any store file that decodes, whoever wrote it: its signatures are checked if that is
   * asked for, then the payload is decrypted and decompressed as its header says.
   */
  lemma ExtractExactly(c: Crypto, id: nat, s: Bytes, a: FileAuthentication, h: StoreHeader, n: nat, checked: bool, wal: Bytes)
    requires AuthFromBytes(s) == Ok((a, AUTH_SIZE)) && AUTH_SIZE <= |s| && StoreHeaderFromBytes(s[AUTH_SIZE..]) == Ok((h, n))
    ensures var head, data := s[AUTH_SIZE..][..n], s[AUTH_SIZE..][n..];
            Extract(c, id, s, checked) == Ok(wal) <==>
              && (checked ==> c.verify(head, a.headerSignature) && c.verify(data, a.contentSignature))
              && exists packed :: Unlocks(c, id, h.encryption, data, packed) && Unpacks(c, h.compression, packed, wal)
  {
    hide AuthFromBytes, StoreHeaderFromBytes;
    var data := s[AUTH_SIZE..][n..];
    if h.encryption == Clear {
      assert Unlocks(c, id, Clear, data, data);
    } else if |data| >= 12 && c.decrypt(id, data[0..12], data[12..]).Some? {
      assert Unlocks(c, id, Aes, data, c.decrypt(id, data[0..12], data[12..]).value);
    }
  }

  /** The payload, decrypted if need be: twelve bytes of nonce, then the cipher. */
  ghost predicate Unlocks(c: Crypto, id: nat, encryption: Encryption, data: Bytes, packed: Bytes) {
    if encryption == Clear then packed == data else |data| >= 12 && c.decrypt(id, data[..12], data[12..]) == Some(packed)
  }

  ghost predicate Unpacks(c: Crypto, compression: Compression, packed: Bytes, wal: Bytes) {
    match compression
    case Plain => wal == packed
    case Xz => c.unxz(packed) == Some(wal)
    case _ => c.unzstd(packed) == Some(wal)
  }

  /** A file that does not decode is not extracted. */
  lemma UndecodedRefused(c: Crypto, id: nat, s: Bytes, checked: bool)
    requires AuthFromBytes(s).Err? || StoreHeaderFromBytes(s[AUTH_SIZE..]).Err?
    ensures Extract(c, id, s, checked).Err?
  {
    hide AuthFromBytes, StoreHeaderFromBytes;
    AuthSize(s);
  }

  lemma AuthSize(s: Bytes)
    ensures AuthFromBytes(s).Ok? ==> AuthFromBytes(s).value.1 == AUTH_SIZE <= |s|
  {
  }

  lemma NonceAndCipher(c: Crypto, id: nat, plain: Bytes)
    requires c.Lawful()
    ensures var data := Encrypted(c, id, Aes, plain);
            |data| >= 12 && c.decrypt(id, data[0..12], data[12..]) == Some(plain)
  {
    var (nonce, cipher) := c.encrypt(id, plain);
    SliceWhole(nonce, cipher);
    DropLeft(nonce, cipher);
  }

  // ----- Ranges -----

  const RANGE_READ_LIMIT: nat := 256

  /** The id range a store file announces, read from its first bytes only; none if it holds no entry. */
  function RangeFromFile(c: Crypto, content: Bytes, verifySignatures: bool): (r: Result<Option<(nat, nat)>, StoreError>) {
    var s := if |content| <= RANGE_READ_LIMIT then content else content[..RANGE_READ_LIMIT];
    var (auth, authSize) :- AuthFromBytes(s);
    var rest := s[authSize..];
    var (header, headerSize) :- StoreHeaderFromBytes(rest);
    if verifySignatures && !c.verify(rest[..headerSize], auth.headerSignature) then Err(SignatureFailed)
    else if header.count == 0 then Ok(None)
    else Ok(Some((header.before, header.before + (header.count - 1))))
  }

  /** The first bytes suffice as long as the header's two numbers take at most 64 bytes together. */
  lemma RangeRoundTrip(c: Crypto, header: StoreHeader, data: Bytes, verifySignatures: bool)
    requires c.Lawful() && header.Storable() && IdWidth(header.before) + IdWidth(header.count) <= 64
    ensures RangeFromFile(c, StoreFile(c, header, data), verifySignatures)
         == Ok(if header.count == 0 then None else Some((header.before, header.before + (header.count - 1))))
  {
    hide AuthBytes, AuthFromBytes, StoreHeaderBytes, StoreHeaderFromBytes, IdWidth;
    var head := StoreHeaderBytes(header);
    var auth := FileAuthentication(c.sign(head), c.sign(data));
    var s := StoreFile(c, header, data);
    var cut := if |data| <= 256 - 152 - |head| then data else data[..256 - 152 - |head|];
    var t := if |s| <= RANGE_READ_LIMIT then s else s[..RANGE_READ_LIMIT];
    assert t == AuthBytes(auth) + (head + cut);
    AuthRoundTrip(auth, head + cut);
    DropLeft(AuthBytes(auth), head + cut);
    StoreHeaderRoundTrip(header, cut);
    SliceLeft(head, cut, 0, |head|);
  }

  /** The range of any store file whose first bytes decode: checked if that is asked for, and none for no entries. */
  lemma RangeExactly(c: Crypto, s: Bytes, a: FileAuthentication, h: StoreHeader, n: nat, checked: bool)
    requires var t := if |s| <= 256 then s else s[..256];
             AuthFromBytes(t) == Ok((a, AUTH_SIZE)) && AUTH_SIZE <= |t| && StoreHeaderFromBytes(t[AUTH_SIZE..]) == Ok((h, n))
    ensures var t := if |s| <= 256 then s else s[..256];
            RangeFromFile(c, s, checked) ==
              if checked && !c.verify(t[AUTH_SIZE..][..n], a.headerSignature) then Err(SignatureFailed)
              else Ok(if h.count == 0 then None else Some((h.before, h.before + h.count - 1)))
  {
    hide AuthFromBytes, StoreHeaderFromBytes;
  }
}
