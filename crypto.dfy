/**
 * The ".encrypted" package codec of the client (src/lib/crypto.ts).
 *
 * A package is one flat byte string, with no padding between fields:
 *
 *   [4-byte little-endian metadata length][metadata][16-byte salt][12-byte IV][ciphertext]
 *
 * The metadata is the UTF-8 text of a JSON object; the key is derived from the
 * code with PBKDF2 (section 5.2 of RFC 8018, HMAC-SHA-256, 100000 iterations,
 * 256-bit key) and the content is encrypted with AES-GCM (NIST SP 800-38D, a
 * 96-bit IV, a 128-bit tag appended to the ciphertext).
 *
 * The Web Crypto primitives, `TextEncoder`/`TextDecoder` and the JSON codec are
 * not modelled: they are function values gathered in `Primitives`, and
 * `Sound` states the only facts about them the codec depends on.
 * Randomness and the clock are parameters.
 */
module Crypto {
  import opened Wrappers
  import opened Bytes
  import Text

  const LengthFieldSize: nat := 4
  const SaltLength: nat := 16
  const IvLength: nat := 12
  /** The default AES-GCM tag: 128 bits. */
  const TagLength: nat := 16

  datatype HashName = Sha256
  /** The parameters handed to `crypto.subtle.deriveKey`. */
  datatype KdfParams = Pbkdf2(iterations: nat, hash: HashName, keyBits: nat)
  const KeyDerivation: KdfParams := Pbkdf2(100000, Sha256, 256)

  /** A derived AES-GCM key, as its raw bits. */
  type Key = seq<byte>

  /** A `Blob`: bytes plus a type string. */
  datatype Blob = Blob(bytes: seq<byte>, mimeType: string)

  /** A `File`: a named blob; its `size` is its byte length. */
  datatype File = File(name: string, mimeType: string, bytes: seq<byte>) {
    function Size(): nat { |bytes| }
  }

  /** The JSON object stored as package metadata. */
  datatype Header = Header(fileName: string, mimeType: string, originalSize: nat, encryptedAt: string)

  /** The metadata `decryptPackage` hands back. */
  datatype FileMetadata = FileMetadata(fileName: string, mimeType: string, originalSize: nat)

  /** What `decryptPackage` resolves to. */
  datatype Opened = Opened(file: Blob, metadata: FileMetadata)

  /** Why `decryptPackage` rejects. The source throws in each case; the page that calls it
      shows one message for all of them. */
  datatype Failure =
    | HeaderUnreadable   // fewer than 4 bytes: `new Uint32Array` throws, or JSON.parse("") does
    | MetadataUnreadable // JSON.parse throws on the decoded metadata (TextDecoder itself does not)
    | DecryptionFailed   // crypto.subtle.decrypt rejects (wrong key, bad tag, short IV or input)

  /** The foreign operations the codec calls. */
  datatype Primitives = Primitives(
    textEncode: string -> seq<byte>,                          // TextEncoder.encode
    pbkdf2: (seq<byte>, seq<byte>, KdfParams) -> Key,         // importKey + deriveKey
    aesGcmEncrypt: (Key, seq<byte>, seq<byte>) -> seq<byte>,  // subtle.encrypt(key, iv, data)
    aesGcmDecrypt: (Key, seq<byte>, seq<byte>) -> Option<seq<byte>>, // subtle.decrypt; None on reject
    encodeHeader: Header -> seq<byte>,                        // TextEncoder.encode(JSON.stringify(h))
    decodeHeader: seq<byte> -> Option<Header>                 // JSON.parse(TextDecoder.decode(b))
  )

  /** What the codec assumes of the primitives: AES-GCM decrypts what it encrypted under the same
      key and IV and appends a 16-byte tag, and the metadata codec round-trips. */
  ghost predicate Sound(p: Primitives) {
    && (forall k, iv, m :: p.aesGcmDecrypt(k, iv, p.aesGcmEncrypt(k, iv, m)) == Some(m))
    && (forall k, iv, m :: |p.aesGcmEncrypt(k, iv, m)| == |m| + TagLength)
    && (forall h :: p.decodeHeader(p.encodeHeader(h)) == Some(h))
  }

  /** `deriveKey(password, salt)`: PBKDF2 with fixed parameters over the UTF-8 bytes of the
      password. Being a function, it gives the same key for the same password and salt. */
  function DeriveKey(p: Primitives, password: string, salt: seq<byte>): Key {
    p.pbkdf2(p.textEncode(password), salt, KeyDerivation)
  }

  /** What `encryptFile` resolves to. */
  datatype Encrypted = Encrypted(encrypted: seq<byte>, salt: seq<byte>, iv: seq<byte>)

  /** `encryptFile(content, password)`, with the random salt and IV passed in. */
  function EncryptFile(p: Primitives, content: seq<byte>, password: string, salt: seq<byte>, iv: seq<byte>): (e: Encrypted)
    requires |salt| == SaltLength && |iv| == IvLength
    ensures e.salt == salt && e.iv == iv
  {
    Encrypted(p.aesGcmEncrypt(DeriveKey(p, password, salt), iv, content), salt, iv)
  }

  /** `decryptFile(content, password, salt, iv)`; None where the promise rejects. */
  function DecryptFile(p: Primitives, content: seq<byte>, password: string, salt: seq<byte>, iv: seq<byte>): Option<seq<byte>> {
    p.aesGcmDecrypt(DeriveKey(p, password, salt), iv, content)
  }

  /** Decrypting with the salt and IV drawn at encryption, under the same code, gives back
      the content; the ciphertext is the content plus the tag. */
  lemma DecryptFileOfEncryptFile(p: Primitives, content: seq<byte>, password: string, salt: seq<byte>, iv: seq<byte>)
    requires Sound(p)
    requires |salt| == SaltLength && |iv| == IvLength
    ensures DecryptFile(p, EncryptFile(p, content, password, salt, iv).encrypted, password, salt, iv) == Some(content)
    ensures |EncryptFile(p, content, password, salt, iv).encrypted| == |content| + TagLength
  {
  }

  /** The metadata written for `file`, stamped with the ISO time `now`. */
  function HeaderFor(file: File, now: string): Header {
    Header(file.name, file.mimeType, file.Size(), now)
  }

  /** The package format: the fields in their fixed order, with nothing between them. */
  function Layout(metadata: seq<byte>, salt: seq<byte>, iv: seq<byte>, ciphertext: seq<byte>): seq<byte> {
    U32LE(|metadata|) + metadata + salt + iv + ciphertext
  }

  /** The bytes of the package `createEncryptedPackage` builds. */
  function PackageBytes(p: Primitives, file: File, code: string, salt: seq<byte>, iv: seq<byte>, now: string): seq<byte>
    requires |salt| == SaltLength && |iv| == IvLength
  {
    Layout(p.encodeHeader(HeaderFor(file, now)), salt, iv, EncryptFile(p, file.bytes, code, salt, iv).encrypted)
  }

  /** `target.set(src, offset)` on a `Uint8Array`: copies `src` in at `offset` and leaves every
      other element alone. */
  method SetBytes(target: array<byte>, src: seq<byte>, offset: nat)
    requires offset + |src| <= target.Length
    modifies target
    ensures target[..offset] == old(target[..offset])
    ensures target[offset..offset + |src|] == src
    ensures target[offset + |src|..] == old(target[offset + |src|..])
  {
    forall i | 0 <= i < |src| {
      target[offset + i] := src[i];
    }
  }

  /** A prefix up to `j` is the prefix up to `i` followed by the part between. */
  lemma PrefixSplit(a: seq<byte>, i: nat, j: nat)
    requires i <= j <= |a|
    ensures a[..j] == a[..i] + a[i..j]
  {
  }

  /** Copying `src` in right after a written prefix extends that prefix by `src`. */
  lemma SetExtendsPrefix(before: seq<byte>, after: seq<byte>, written: seq<byte>, src: seq<byte>, offset: nat)
    requires |before| == |after| && offset + |src| <= |after|
    requires before[..offset] == written
    requires after[..offset] == before[..offset] && after[offset..offset + |src|] == src
    ensures after[..offset + |src|] == written + src
  {
    PrefixSplit(after, offset, offset + |src|);
  }

  /** `createEncryptedPackage(file, code)`: fills a buffer of the exact package length in place,
      field after field at a running offset. `salt` and `iv` are the random values
      `encryptFile` draws, `now` is `new Date().toISOString()`. */
  method CreateEncryptedPackage(p: Primitives, file: File, encryptionCode: string, salt: seq<byte>, iv: seq<byte>, now: string)
    returns (package: Blob)
    requires |salt| == SaltLength && |iv| == IvLength
    ensures package == Blob(PackageBytes(p, file, encryptionCode, salt, iv, now), "application/octet-stream")
  {
    var e := EncryptFile(p, file.bytes, encryptionCode, salt, iv);
    var metadataBytes := p.encodeHeader(HeaderFor(file, now));
    var metadataLength := U32LE(|metadataBytes|);
    var buffer := new byte[LengthFieldSize + |metadataBytes| + SaltLength + IvLength + |e.encrypted|];
    var offset := 0;
    ghost var written: seq<byte> := [];
    ghost var before := buffer[..];
    SetBytes(buffer, metadataLength, offset);
    SetExtendsPrefix(before, buffer[..], written, metadataLength, offset);
    written, offset := written + metadataLength, offset + LengthFieldSize;
    before := buffer[..];
    SetBytes(buffer, metadataBytes, offset);
    SetExtendsPrefix(before, buffer[..], written, metadataBytes, offset);
    written, offset := written + metadataBytes, offset + |metadataBytes|;
    before := buffer[..];
    SetBytes(buffer, e.salt, offset);
    SetExtendsPrefix(before, buffer[..], written, e.salt, offset);
    written, offset := written + e.salt, offset + SaltLength;
    before := buffer[..];
    SetBytes(buffer, e.iv, offset);
    SetExtendsPrefix(before, buffer[..], written, e.iv, offset);
    written, offset := written + e.iv, offset + IvLength;
    before := buffer[..];
    SetBytes(buffer, e.encrypted, offset);
    SetExtendsPrefix(before, buffer[..], written, e.encrypted, offset);
    written := written + e.encrypted;
    assert buffer[..] == buffer[..buffer.Length] == written;
    package := Blob(buffer[..], "application/octet-stream");
  }

  /** A package is exactly as long as its fields, the ciphertext being the content plus the tag. */
  lemma PackageLength(p: Primitives, file: File, code: string, salt: seq<byte>, iv: seq<byte>, now: string)
    requires Sound(p)
    requires |salt| == SaltLength && |iv| == IvLength
    ensures |PackageBytes(p, file, code, salt, iv, now)|
         == LengthFieldSize + |p.encodeHeader(HeaderFor(file, now))| + SaltLength + IvLength + file.Size() + TagLength
  {
  }

  /** Each field sits at its fixed offset: bytes [0,4) hold the metadata length, [4,4+m) the
      metadata, then 16 bytes of salt, 12 of IV, and the ciphertext to the end. */
  lemma LayoutFields(metadata: seq<byte>, salt: seq<byte>, iv: seq<byte>, ciphertext: seq<byte>)
    requires |salt| == SaltLength && |iv| == IvLength
    ensures var b, m := Layout(metadata, salt, iv, ciphertext), |metadata|;
      && |b| == 4 + m + 16 + 12 + |ciphertext|
      && b[..4] == U32LE(m)
      && b[4..4 + m] == metadata
      && b[4 + m..4 + m + 16] == salt
      && b[4 + m + 16..4 + m + 28] == iv
      && b[4 + m + 28..] == ciphertext
  {
    var b, m := Layout(metadata, salt, iv, ciphertext), |metadata|;
    assert b == U32LE(m) + metadata + salt + iv + ciphertext;
    assert b[..4] == U32LE(m);
    assert b[4..4 + m] == metadata;
    assert b[4 + m..4 + m + 16] == salt;
    assert b[4 + m + 16..4 + m + 28] == iv;
    assert b[4 + m + 28..] == ciphertext;
  }

  /** The four sections `decryptPackage` cuts a buffer into. */
  datatype Sections = Sections(metadata: seq<byte>, salt: seq<byte>, iv: seq<byte>, ciphertext: seq<byte>)

  /** How `decryptPackage` reads a buffer: the declared length, then clamped slices at running
      offsets. There are no bounds checks; only a buffer shorter than the length field fails. */
  function Split(blob: seq<byte>): Option<Sections> {
    if |blob| < LengthFieldSize then None
    else
      var m := ReadU32LE(blob[..LengthFieldSize]);
      var saltAt := LengthFieldSize + m;
      var ivAt := saltAt + SaltLength;
      var contentAt := ivAt + IvLength;
      Some(Sections(Slice(blob, LengthFieldSize, saltAt), Slice(blob, saltAt, ivAt),
                    Slice(blob, ivAt, contentAt), SliceFrom(blob, contentAt)))
  }

  /** Parsing a buffer that was laid out from metadata shorter than 2^32 bytes returns exactly
      the metadata, salt, IV and ciphertext that were written. */
  lemma SplitLayout(metadata: seq<byte>, salt: seq<byte>, iv: seq<byte>, ciphertext: seq<byte>)
    requires |salt| == SaltLength && |iv| == IvLength
    requires |metadata| < U32Modulus
    ensures Split(Layout(metadata, salt, iv, ciphertext)) == Some(Sections(metadata, salt, iv, ciphertext))
  {
    var b := Layout(metadata, salt, iv, ciphertext);
    LayoutFields(metadata, salt, iv, ciphertext);
    ReadU32LEOfU32LE(|metadata|);
  }

  /** With 2^32 bytes of metadata or more the length field wraps, and parsing takes only the
      first (length mod 2^32) bytes as metadata. */
  lemma SplitLayoutWraps(metadata: seq<byte>, salt: seq<byte>, iv: seq<byte>, ciphertext: seq<byte>)
    requires |salt| == SaltLength && |iv| == IvLength
    requires |metadata| >= U32Modulus
    ensures Split(Layout(metadata, salt, iv, ciphertext)).Some?
    ensures Split(Layout(metadata, salt, iv, ciphertext)).value.metadata == metadata[..|metadata| % U32Modulus]
  {
    var b := Layout(metadata, salt, iv, ciphertext);
    LayoutFields(metadata, salt, iv, ciphertext);
    ReadU32LEOfU32LE(|metadata|);
    var m := |metadata| % U32Modulus;
    assert b[4..4 + m] == metadata[..m];
  }

  /** Conversely, a buffer whose declared metadata length leaves room for salt and IV is exactly
      the layout of the sections parsing cuts it into. */
  lemma LayoutSplit(blob: seq<byte>)
    requires |blob| >= LengthFieldSize
    requires LengthFieldSize + ReadU32LE(blob[..LengthFieldSize]) + SaltLength + IvLength <= |blob|
    ensures var s := Split(blob).value; Layout(s.metadata, s.salt, s.iv, s.ciphertext) == blob
  {
    var s := Split(blob).value;
    var m := ReadU32LE(blob[..4]);
    assert |s.metadata| == m;
    U32LEOfReadU32LE(blob[..4]);
    assert blob == blob[..4] + blob[4..4 + m] + blob[4 + m..4 + m + 16] + blob[4 + m + 16..4 + m + 28] + blob[4 + m + 28..];
  }

  /** A buffer of at least 4 bytes is always cut, never an error: the sections are the bytes
      after the length field taken in order, each at most its declared size, and a section cut
      short by the end of the buffer leaves every later section empty. */
  lemma SplitClamps(blob: seq<byte>)
    requires |blob| >= LengthFieldSize
    ensures Split(blob).Some?
    ensures var s := Split(blob).value;
      && |s.metadata| <= ReadU32LE(blob[..LengthFieldSize])
      && |s.salt| <= SaltLength && |s.iv| <= IvLength
      && s.metadata + s.salt + s.iv + s.ciphertext == blob[LengthFieldSize..]
    ensures var s := Split(blob).value;
      && (|s.metadata| < ReadU32LE(blob[..LengthFieldSize]) ==> s.salt == [] && s.iv == [] && s.ciphertext == [])
      && (|s.salt| < SaltLength ==> s.iv == [] && s.ciphertext == [])
      && (|s.iv| < IvLength ==> s.ciphertext == [])
  {
    var m := ReadU32LE(blob[..LengthFieldSize]);
    var a := Clamp(blob, 4 + m);
    var b := Clamp(blob, 4 + m + 16);
    var c := Clamp(blob, 4 + m + 28);
    SliceClamped(blob, 4, 4 + m);
    SliceClamped(blob, 4 + m, 4 + m + 16);
    SliceClamped(blob, 4 + m + 16, 4 + m + 28);
    CutsJoin(blob[4..], a - 4, b - 4, c - 4);
  }

  /** An offset clamped to the end of a buffer. */
  function Clamp(blob: seq<byte>, at: nat): nat {
    if at < |blob| then at else |blob|
  }

  /** A clamped slice is the plain slice between the clamped bounds. */
  lemma SliceClamped(blob: seq<byte>, start: nat, end: nat)
    requires start <= end
    ensures Slice(blob, start, end) == blob[Clamp(blob, start)..Clamp(blob, end)]
  {
  }

  /** Consecutive cuts of a sequence join back into it. */
  lemma CutsJoin(tail: seq<byte>, a: nat, b: nat, c: nat)
    requires a <= b <= c <= |tail|
    ensures tail[..a] + tail[a..b] + tail[b..c] + tail[c..] == tail
  {
  }

  /** What `decryptPackage(blob, code)` resolves to, or why it rejects. */
  function OpenPackage(p: Primitives, blob: seq<byte>, code: string): Result<Opened, Failure> {
    match Split(blob)
    case None => Err(HeaderUnreadable)
    case Some(s) =>
      match p.decodeHeader(s.metadata)
      case None => Err(MetadataUnreadable)
      case Some(h) =>
        match DecryptFile(p, s.ciphertext, code, s.salt, s.iv)
        case None => Err(DecryptionFailed)
        case Some(plain) =>
          Ok(Opened(Blob(plain, BlobType(h.mimeType)), FileMetadata(h.fileName, h.mimeType, h.originalSize)))
  }

  /** The type a `Blob` records for `new Blob(parts, {type: t})`: `t` in ASCII lower case, or the
      empty string if `t` holds a character outside U+0020..U+007E. */
  function BlobType(t: string): (r: string)
    ensures r == "" <==> t == "" || exists i :: 0 <= i < |t| && !(' ' <= t[i] <= '~')
    ensures r != "" ==> |r| == |t| && forall i :: 0 <= i < |t| ==> r[i] == Text.LowerChar(t[i])
  {
    if forall i :: 0 <= i < |t| ==> ' ' <= t[i] <= '~' then Text.ToLower(t) else ""
  }

  /** A type that is already printable lower-case ASCII, such as "text/plain", is kept as is. */
  lemma BlobTypeKeepsNormalType(t: string)
    requires forall i :: 0 <= i < |t| ==> ' ' <= t[i] <= '~' && !('A' <= t[i] <= 'Z')
    ensures BlobType(t) == t
  {
    assert forall i :: 0 <= i < |t| ==> Text.ToLower(t)[i] == t[i];
  }

  /** `decryptPackage(blob, code)`: advances a running offset through the buffer, slicing each
      field, parses the metadata, then decrypts the rest. */
  method DecryptPackage(p: Primitives, blob: seq<byte>, decryptionCode: string) returns (r: Result<Opened, Failure>)
    ensures r == OpenPackage(p, blob, decryptionCode)
  {
    if |blob| < LengthFieldSize {
      return Err(HeaderUnreadable);
    }
    var metadataLength := ReadU32LE(blob[..LengthFieldSize]);
    var offset := LengthFieldSize;
    var metadataBytes := Slice(blob, offset, offset + metadataLength);
    var metadata := p.decodeHeader(metadataBytes);
    if metadata.None? {
      return Err(MetadataUnreadable);
    }
    offset := offset + metadataLength;
    var salt := Slice(blob, offset, offset + SaltLength);
    offset := offset + SaltLength;
    var iv := Slice(blob, offset, offset + IvLength);
    offset := offset + IvLength;
    var encryptedContent := SliceFrom(blob, offset);
    var decrypted := DecryptFile(p, encryptedContent, decryptionCode, salt, iv);
    if decrypted.None? {
      return Err(DecryptionFailed);
    }
    var h := metadata.value;
    r := Ok(Opened(Blob(decrypted.value, BlobType(h.mimeType)), FileMetadata(h.fileName, h.mimeType, h.originalSize)));
  }

  /** End to end: opening a package under the code it was made with gives back the file's
      bytes, name, type and size. */
  lemma OpenCreatedPackage(p: Primitives, file: File, code: string, salt: seq<byte>, iv: seq<byte>, now: string)
    requires Sound(p)
    requires |salt| == SaltLength && |iv| == IvLength
    requires |p.encodeHeader(HeaderFor(file, now))| < U32Modulus
    ensures OpenPackage(p, PackageBytes(p, file, code, salt, iv, now), code)
         == Ok(Opened(Blob(file.bytes, BlobType(file.mimeType)), FileMetadata(file.name, file.mimeType, file.Size())))
  {
    var e := EncryptFile(p, file.bytes, code, salt, iv);
    SplitLayout(p.encodeHeader(HeaderFor(file, now)), salt, iv, e.encrypted);
    DecryptFileOfEncryptFile(p, file.bytes, code, salt, iv);
  }

  /** The only ways a buffer of at least 4 bytes is rejected: unreadable metadata, or a
      rejected decryption. Nothing compares the decrypted length with `originalSize`: whenever
      both steps succeed the result is whatever was decrypted, under the metadata read. */
  lemma OpenFailsOnlyInMetadataOrDecryption(p: Primitives, blob: seq<byte>, code: string)
    requires |blob| >= LengthFieldSize
    ensures Split(blob).Some?
    ensures var s := Split(blob).value;
      && (OpenPackage(p, blob, code) == Err(MetadataUnreadable) <==> p.decodeHeader(s.metadata).None?)
      && (OpenPackage(p, blob, code) == Err(DecryptionFailed)
          <==> p.decodeHeader(s.metadata).Some? && DecryptFile(p, s.ciphertext, code, s.salt, s.iv).None?)
      && (OpenPackage(p, blob, code).Ok?
          <==> p.decodeHeader(s.metadata).Some? && DecryptFile(p, s.ciphertext, code, s.salt, s.iv).Some?)
      && (OpenPackage(p, blob, code).Ok? ==>
            && OpenPackage(p, blob, code).value.file.bytes == DecryptFile(p, s.ciphertext, code, s.salt, s.iv).value
            && OpenPackage(p, blob, code).value.metadata.originalSize == p.decodeHeader(s.metadata).value.originalSize)
  {
  }

  /** A buffer shorter than the length field is always rejected, whatever the code. */
  lemma OpenShortBuffer(p: Primitives, blob: seq<byte>, code: string)
    requires |blob| < LengthFieldSize
    ensures OpenPackage(p, blob, code) == Err(HeaderUnreadable)
  {
  }

  /** `generateDecryptionCode()`: `Math.floor(100000 + Math.random() * 900000).toString()`,
      with the random draw passed in. */
  function GenerateDecryptionCode(draw: real): (code: string)
    requires 0.0 <= draw < 1.0
    ensures |code| == 6
    ensures forall i :: 0 <= i < |code| ==> Text.IsDigit(code[i])
    ensures 100000 <= Text.DecimalValue(code) <= 999999
  {
    var n := (100000.0 + draw * 900000.0).Floor;
    assert 100000 <= n <= 999999;
    assert Text.Pow10(5) == 100000 && Text.Pow10(6) == 1000000;
    Text.DecimalStringLength(n, 6);
    Text.DecimalValueOfString(n);
    Text.DecimalString(n)
  }

  /** Every six-digit code from 100000 to 999999 is produced by some draw. */
  lemma EveryDecryptionCodeReachable(n: nat)
    requires 100000 <= n <= 999999
    ensures var draw := (n - 100000) as real / 900000.0;
      0.0 <= draw < 1.0 && GenerateDecryptionCode(draw) == Text.DecimalString(n)
  {
    var draw := (n - 100000) as real / 900000.0;
    assert draw * 900000.0 == (n - 100000) as real;
    assert (100000.0 + draw * 900000.0).Floor == n;
  }
}
