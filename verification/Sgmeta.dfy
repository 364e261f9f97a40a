/** The SGMETA frame and the IV frame around an encrypted file (scripts/e2e_sgraph_real_path.py). */
module Sgmeta {
  import opened Common
  import opened Json

  const MAGIC: Bytes := [0x53, 0x47, 0x4d, 0x45, 0x54, 0x41, 0x00]  // "SGMETA" and a zero byte

  const IV_SIZE: nat := 12

  /** `n.to_bytes(4, "big")`, None where it overflows. */
  function ToBytes4(n: nat): Option<Bytes> {
    if n < 0x1_0000_0000
    then Some([n / 0x100 / 0x100 / 0x100, n / 0x100 / 0x100 % 0x100, n / 0x100 % 0x100, n % 0x100])
    else None
  }

  /** `int.from_bytes(b, "big")` */
  function FromBytes(b: Bytes): nat {
    if b == [] then 0 else FromBytes(b[..|b| - 1]) * 0x100 + b[|b| - 1]
  }

  lemma FourBytes(b: Bytes)
    requires |b| == 4
    ensures FromBytes(b[..1]) == b[0]
    ensures FromBytes(b[..2]) == FromBytes(b[..1]) * 0x100 + b[1]
    ensures FromBytes(b[..3]) == FromBytes(b[..2]) * 0x100 + b[2]
    ensures FromBytes(b) == FromBytes(b[..3]) * 0x100 + b[3]
  {
    assert b[..3][..2] == b[..2] && b[..2][..1] == b[..1] && b[..1][..0] == [];
  }

  lemma FromToBytes4(n: nat)
    requires n < 0x1_0000_0000
    ensures FromBytes(ToBytes4(n).value) == n
    ensures var b := ToBytes4(n).value;
            n == b[0] as int * 0x100_0000 + b[1] as int * 0x1_0000 + b[2] as int * 0x100 + b[3] as int
  {
    FourBytes(ToBytes4(n).value);
  }

  lemma ToFromBytes4(b: Bytes)
    requires |b| == 4
    ensures FromBytes(b) < 0x1_0000_0000 && ToBytes4(FromBytes(b)) == Some(b)
  {
    FourBytes(b);
    var n := FromBytes(b);
    assert n / 0x100 == FromBytes(b[..3]) && n % 0x100 == b[3];
    assert n / 0x100 / 0x100 == FromBytes(b[..2]) && n / 0x100 % 0x100 == b[2];
    assert n / 0x100 / 0x100 / 0x100 == FromBytes(b[..1]) && n / 0x100 / 0x100 % 0x100 == b[1];
    assert ToBytes4(n).value == b;
  }

  // JSON printing and parsing stay abstract; `parse` is None where decoding or parsing raises.
  datatype Codec = Codec(dump: Json -> Bytes, parse: Bytes -> Option<Json>)

  function FileMetadata(filename: string): Json {
    Obj(map["filename" := Str(filename)], ["filename"])
  }

  /** `_package_with_sgmeta` */
  function Package(c: Codec, content: Bytes, filename: string): Option<Bytes> {
    var meta := c.dump(FileMetadata(filename));
    match ToBytes4(|meta|)
    case Some(size) => Some(MAGIC + size + meta + content)
    case None => None
  }

  // The announced length of the metadata.
  function MetaLength(data: Bytes): nat
    requires |data| >= |MAGIC| + 4
  {
    FromBytes(data[|MAGIC|..|MAGIC| + 4])
  }

  /** `_extract_sgmeta_or_raw`; JSON null stands for Python's None. */
  function Extract(c: Codec, data: Bytes): (Json, Bytes) {
    if |data| < |MAGIC| + 4 then (Null, data)
    else if data[..|MAGIC|] != MAGIC then (Null, data)
    else
      var start := |MAGIC| + 4;
      var end := start + MetaLength(data);
      if end > |data| then (Null, data)
      else
        match c.parse(data[start..end])
        case Some(metadata) => (metadata, data[end..])
        case None => (Null, data)
  }

  // A frame: magic, length, that much metadata, and the metadata parses.
  ghost predicate Framed(c: Codec, data: Bytes, size: Bytes, meta: Bytes, content: Bytes) {
    data == MAGIC + size + meta + content && ToBytes4(|meta|) == Some(size) && c.parse(meta).Some?
  }

  lemma FrameFields(data: Bytes, size: Bytes, meta: Bytes, content: Bytes)
    requires data == MAGIC + size + meta + content && |size| == 4
    ensures data[..|MAGIC|] == MAGIC && data[|MAGIC|..|MAGIC| + 4] == size
    ensures data[|MAGIC| + 4..|MAGIC| + 4 + |meta|] == meta
    ensures data[|MAGIC| + 4 + |meta|..] == content
  {
  }

  // What extraction does to a frame.
  lemma ExtractFramed(c: Codec, data: Bytes, size: Bytes, meta: Bytes, content: Bytes)
    requires Framed(c, data, size, meta, content)
    ensures Extract(c, data) == (c.parse(meta).value, content)
  {
    FrameFields(data, size, meta, content);
    FromToBytes4(|meta|);
  }

  /** Packaging then extracting gives back the file name and the exact content; packaging fails
      exactly when the metadata is too long for its length field. */
  lemma ExtractPackage(c: Codec, content: Bytes, filename: string)
    requires c.parse(c.dump(FileMetadata(filename))) == Some(FileMetadata(filename))
    ensures Package(c, content, filename).Some? <==> |c.dump(FileMetadata(filename))| < 0x1_0000_0000
    ensures Package(c, content, filename).Some? ==>
              Extract(c, Package(c, content, filename).value) == (FileMetadata(filename), content)
    ensures FileMetadata(filename).fields == map["filename" := Str(filename)]
  {
    var meta := c.dump(FileMetadata(filename));
    if Package(c, content, filename).Some? {
      ExtractFramed(c, Package(c, content, filename).value, ToBytes4(|meta|).value, meta, content);
    }
  }

  /** The converse, for arbitrary input: the content returned is a suffix of the input; it is the
      whole input iff the input is not a frame; and otherwise the frame rebuilds the input. */
  lemma ExtractConverse(c: Codec, data: Bytes)
    ensures var (metadata, content) := Extract(c, data);
            && |content| <= |data| && content == data[|data| - |content|..]
            && (content == data ==> metadata == Null)
            && (content == data <==> !exists size, meta, rest :: Framed(c, data, size, meta, rest))
            && (content != data ==> exists size, meta ::
                  Framed(c, data, size, meta, content) && c.parse(meta) == Some(metadata))
  {
    var (metadata, content) := Extract(c, data);
    if size, meta, rest :| Framed(c, data, size, meta, rest) {
      ExtractFramed(c, data, size, meta, rest);
      assert |rest| < |data|;
    }
    if content != data {
      var start := |MAGIC| + 4;
      var end := start + MetaLength(data);
      var size, meta := data[|MAGIC|..start], data[start..end];
      ToFromBytes4(size);
      assert data == MAGIC + size + meta + content;
      assert Framed(c, data, size, meta, content);
    }
  }

  // ---------------------------------------------------------------- the IV frame

  // AES-GCM, abstract: decryption is None where it raises.
  datatype Aead = Aead(encrypt: (Bytes, Bytes, Bytes) -> Bytes, decrypt: (Bytes, Bytes, Bytes) -> Option<Bytes>)

  // Decryption undoes this encryption, whose ciphertext carries a tag.
  ghost predicate Inverse(a: Aead, key: Bytes, iv: Bytes, plain: Bytes) {
    a.decrypt(key, iv, a.encrypt(key, iv, plain)) == Some(plain) && a.encrypt(key, iv, plain) != []
  }

  /** `_encrypt_like_sgraph_ui` with its random key and IV as inputs. */
  function Encrypt(a: Aead, key: Bytes, iv: Bytes, plain: Bytes): Bytes {
    iv + a.encrypt(key, iv, plain)
  }

  /** `_decrypt_like_sgraph_ui` */
  function Decrypt(a: Aead, key: Bytes, sealed: Bytes): Option<Bytes> {
    if |sealed| < IV_SIZE + 1 then None
    else a.decrypt(key, sealed[..IV_SIZE], sealed[IV_SIZE..])
  }

  /** The whole path of an uploaded file: packaged, encrypted, framed by its IV, and back. */
  lemma UploadRoundTrip(c: Codec, a: Aead, key: Bytes, iv: Bytes, content: Bytes, filename: string)
    requires |iv| == IV_SIZE
    requires c.parse(c.dump(FileMetadata(filename))) == Some(FileMetadata(filename))
    requires |c.dump(FileMetadata(filename))| < 0x1_0000_0000
    requires Inverse(a, key, iv, Package(c, content, filename).GetOr([]))
    ensures var packaged := Package(c, content, filename);
            var unsealed := Decrypt(a, key, Encrypt(a, key, iv, packaged.value));
            packaged.Some? && unsealed == packaged && Extract(c, unsealed.value) == (FileMetadata(filename), content)
  {
    ExtractPackage(c, content, filename);
    var plain := Package(c, content, filename).value;
    var sealed := Encrypt(a, key, iv, plain);
    assert |a.encrypt(key, iv, plain)| > 0;
    assert sealed[..IV_SIZE] == iv && sealed[IV_SIZE..] == a.encrypt(key, iv, plain);
  }
}
