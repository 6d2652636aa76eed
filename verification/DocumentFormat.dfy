/** The wire format of a sealed document: its header, and the data bound into each chunk. */
module DocumentFormat {
  import opened Wrappers
  import opened Bytes
  import opened Identifiers
  import Framing
  import Utf8

  /** b"SGWD" */
  const DOCUMENT_MAGIC: Bytes := [0x53, 0x47, 0x57, 0x44]
  const FORMAT_VERSION: Byte := 1
  const NONCE_BYTES := 12
  const GCM_TAG_BYTES := 16
  const FRAME_OVERHEAD := NONCE_BYTES + GCM_TAG_BYTES
  const SALT_BYTES := 16
  const PREFIX_BYTES := 6
  const SUFFIX_BYTES := 4
  const MAX_KEY_ID_BYTES := 255
  const MAX_CHUNK_BYTES := 67_108_864
  const MINIMUM_HEADER_BYTES := PREFIX_BYTES + 1 + SALT_BYTES + SUFFIX_BYTES

  /** b"sgw.document.aad.v1" */
  const AAD_DOMAIN: Bytes := [
    0x73, 0x67, 0x77, 0x2E, 0x64, 0x6F, 0x63, 0x75, 0x6D, 0x65, 0x6E, 0x74,
    0x2E, 0x61, 0x61, 0x64, 0x2E, 0x76, 0x31]
  /** b"sgw.document.datakey.v1" */
  const HKDF_DOMAIN: Bytes := [
    0x73, 0x67, 0x77, 0x2E, 0x64, 0x6F, 0x63, 0x75, 0x6D, 0x65, 0x6E, 0x74,
    0x2E, 0x64, 0x61, 0x74, 0x61, 0x6B, 0x65, 0x79, 0x2E, 0x76, 0x31]

  const PURPOSE_BODY := "body"
  const PURPOSE_FILENAME := "filename"

  /** DocumentEncryptionError by reason code; the last two are the built-in exceptions raised when a
      length or a chunk size does not fit its field. */
  datatype DocumentError =
    | KeyIdLengthInvalid | HeaderTruncated | HeaderMagicMismatch | HeaderVersionUnsupported
    | HeaderKeyIdMissing | HeaderKeyIdInvalid | HeaderChunkSizeInvalid
    | UnknownKeyId | ChunkTruncated | AuthenticationFailed
    | FieldTooLong | ChunkSizeTooLarge

  /** b"1" for the last chunk, b"0" for any other. */
  function FinalityField(last: bool): Bytes {
    if last then [0x31] else [0x30]
  }

  datatype DocumentIdentity = DocumentIdentity(
    tenantId: Uuid, userId: Uuid, documentId: Uuid, contentType: string, schemaVersion: int)
  {
    /** HKDF `info`: what makes a data key document-specific. */
    function Info(): Option<Bytes> {
      Framing.Frame([
        HKDF_DOMAIN,
        Utf8.Encode(Text(tenantId)),
        Utf8.Encode(Text(userId)),
        Utf8.Encode(Text(documentId))], 2)
    }

    function AadParts(purpose: string, chunkIndex: nat, last: bool): seq<Bytes> {
      [AAD_DOMAIN,
       [FORMAT_VERSION],
       Utf8.Encode(Text(tenantId)),
       Utf8.Encode(Text(userId)),
       Utf8.Encode(Text(documentId)),
       Utf8.Encode(contentType),
       Utf8.Encode(Decimal(schemaVersion)),
       Utf8.Encode(purpose),
       Utf8.Encode(Decimal(chunkIndex)),
       FinalityField(last)]
    }

    /** Associated data for one chunk; `None` when a field is too long for its prefix. */
    function Aad(purpose: string, chunkIndex: nat, last: bool): Option<Bytes> {
      Framing.Frame(AadParts(purpose, chunkIndex, last), 2)
    }
  }

  /** Every argument of the associated data can be recovered from its bytes: changing the tenant,
      user, document, content type, schema, purpose, chunk index or finality changes the bytes. */
  lemma AadInjective(a: DocumentIdentity, p: string, i: nat, f: bool,
                     b: DocumentIdentity, q: string, j: nat, g: bool)
    requires a.Aad(p, i, f).Some? && a.Aad(p, i, f) == b.Aad(q, j, g)
    ensures a == b && p == q && i == j && f == g
  {
    hide Utf8.Encode, Framing.Frame, Text, Decimal;
    var pa, pb := a.AadParts(p, i, f), b.AadParts(q, j, g);
    Framing.FrameInjective(pa, pb, 2);
    assert pa[2] == pb[2] && pa[3] == pb[3] && pa[4] == pb[4] && pa[5] == pb[5];
    assert pa[6] == pb[6] && pa[7] == pb[7] && pa[8] == pb[8] && pa[9] == pb[9];
    Utf8.EncodeInjective(Text(a.tenantId), Text(b.tenantId));
    Utf8.EncodeInjective(Text(a.userId), Text(b.userId));
    Utf8.EncodeInjective(Text(a.documentId), Text(b.documentId));
    Utf8.EncodeInjective(a.contentType, b.contentType);
    Utf8.EncodeInjective(Decimal(a.schemaVersion), Decimal(b.schemaVersion));
    Utf8.EncodeInjective(p, q);
    Utf8.EncodeInjective(Decimal(i), Decimal(j));
    TextInjective(a.tenantId, b.tenantId);
    TextInjective(a.userId, b.userId);
    TextInjective(a.documentId, b.documentId);
    DecimalInjective(a.schemaVersion, b.schemaVersion);
    DecimalInjective(i, j);
    assert pa[9][0] == pb[9][0];
  }

  /** Key derivation contexts coincide only for the same tenant, user and document. */
  lemma InfoInjective(a: DocumentIdentity, b: DocumentIdentity)
    requires a.Info().Some? && a.Info() == b.Info()
    ensures a.tenantId == b.tenantId && a.userId == b.userId && a.documentId == b.documentId
  {
    hide Utf8.Encode, Framing.Frame, Text;
    var pa :=
      [HKDF_DOMAIN, Utf8.Encode(Text(a.tenantId)), Utf8.Encode(Text(a.userId)), Utf8.Encode(Text(a.documentId))];
    var pb :=
      [HKDF_DOMAIN, Utf8.Encode(Text(b.tenantId)), Utf8.Encode(Text(b.userId)), Utf8.Encode(Text(b.documentId))];
    Framing.FrameInjective(pa, pb, 2);
    assert pa[1] == pb[1] && pa[2] == pb[2] && pa[3] == pb[3];
    Utf8.EncodeInjective(Text(a.tenantId), Text(b.tenantId));
    Utf8.EncodeInjective(Text(a.userId), Text(b.userId));
    Utf8.EncodeInjective(Text(a.documentId), Text(b.documentId));
    TextInjective(a.tenantId, b.tenantId);
    TextInjective(a.userId, b.userId);
    TextInjective(a.documentId, b.documentId);
  }

  datatype DocumentHeader = DocumentHeader(version: Byte, keyId: string, salt: Bytes, chunkBytes: nat)
  {
    function ToBytes(): Result<Bytes, DocumentError> {
      var key := Utf8.Encode(keyId);
      if !(0 < |key| <= MAX_KEY_ID_BYTES) then Err(KeyIdLengthInvalid)
      else if chunkBytes >= Pow256(SUFFIX_BYTES) then Err(ChunkSizeTooLarge)
      else Ok(DOCUMENT_MAGIC + [version, |key|] + key + salt + BigEndian(chunkBytes, SUFFIX_BYTES))
    }
  }

  /** The header at the front of `raw` and the number of bytes it takes. */
  function Parse(raw: Bytes): (r: Result<(DocumentHeader, nat), DocumentError>)
    ensures r.Ok? ==> 0 < r.value.0.chunkBytes <= MAX_CHUNK_BYTES
    ensures r.Ok? ==> MINIMUM_HEADER_BYTES <= r.value.1 <= |raw|
  {
    if |raw| < PREFIX_BYTES then Err(HeaderTruncated)
    else if raw[..4] != DOCUMENT_MAGIC then Err(HeaderMagicMismatch)
    else if raw[4] != FORMAT_VERSION then Err(HeaderVersionUnsupported)
    else if raw[5] == 0 then Err(HeaderKeyIdMissing)
    else
      var keyIdEnd := PREFIX_BYTES + raw[5];
      var saltEnd := keyIdEnd + SALT_BYTES;
      var total := saltEnd + SUFFIX_BYTES;
      if |raw| < total then Err(HeaderTruncated)
      else
        var keyId := Utf8.Decode(raw[PREFIX_BYTES..keyIdEnd]);
        if keyId.None? then Err(HeaderKeyIdInvalid)
        else
          var chunkBytes := FromBigEndian(raw[saltEnd..total]);
          if !(0 < chunkBytes <= MAX_CHUNK_BYTES) then Err(HeaderChunkSizeInvalid)
          else Ok((DocumentHeader(raw[4], keyId.value, raw[keyIdEnd..saltEnd], chunkBytes), total))
  }

  /** A printed header is read back, whatever follows it, exactly when its version is current and
      its chunk size is within the reader's bound. */
  lemma HeaderReadsBack(h: DocumentHeader, rest: Bytes)
    requires h.ToBytes().Ok? && |h.salt| == SALT_BYTES
    ensures Parse(h.ToBytes().value + rest) == Ok((h, |h.ToBytes().value|))
       <==> h.version == 1 && 0 < h.chunkBytes <= 67_108_864
    ensures Parse(h.ToBytes().value + rest).Ok?
       <==> h.version == 1 && 0 < h.chunkBytes <= 67_108_864
  {
    hide Utf8.Encode, Utf8.Decode, BigEndian, FromBigEndian, Pow256;
    var key := Utf8.Encode(h.keyId);
    var raw := h.ToBytes().value + rest;
    var k := PREFIX_BYTES + |key|;
    assert raw[..4] == DOCUMENT_MAGIC && raw[4] == h.version && raw[5] == |key|;
    assert raw[PREFIX_BYTES..k] == key;
    assert raw[k..k + SALT_BYTES] == h.salt;
    assert raw[k + SALT_BYTES..k + SALT_BYTES + SUFFIX_BYTES] == BigEndian(h.chunkBytes, SUFFIX_BYTES);
    BigEndianRoundTrip(h.chunkBytes, SUFFIX_BYTES);
    Utf8.DecodeInvertsEncode(h.keyId);
  }

  /** Reading less than a whole header is refused as truncated. */
  lemma HeaderPrefixRefused(h: DocumentHeader, n: nat)
    requires h.ToBytes().Ok? && |h.salt| == SALT_BYTES && h.version == FORMAT_VERSION
    requires n < |h.ToBytes().value|
    ensures Parse(h.ToBytes().value[..n]) == Err(HeaderTruncated)
  {
    hide Utf8.Encode, Utf8.Decode, BigEndian, FromBigEndian, Pow256;
    var key := Utf8.Encode(h.keyId);
    var whole := h.ToBytes().value;
    assert |whole| == PREFIX_BYTES + |key| + SALT_BYTES + SUFFIX_BYTES;
    assert whole[..4] == DOCUMENT_MAGIC && whole[4] == h.version && whole[5] == |key|;
    if n >= PREFIX_BYTES {
      assert whole[..n][..4] == whole[..4];
    }
  }

  /** Every accepted prefix is the printed form of the header read from it. */
  lemma HeaderPrintsBack(raw: Bytes)
    requires Parse(raw).Ok?
    ensures Parse(raw).value.0.ToBytes() == Ok(raw[..Parse(raw).value.1])
  {
    hide Utf8.Encode, Utf8.Decode, BigEndian, FromBigEndian, Pow256;
    var (h, total) := Parse(raw).value;
    var k := PREFIX_BYTES + raw[5];
    Utf8.EncodeInvertsDecode(raw[PREFIX_BYTES..k]);
    var suffix := raw[k + SALT_BYTES..total];
    FromBigEndianRoundTrip(suffix);
    assert raw[..total] == raw[..4] + [raw[4], raw[5]] + raw[PREFIX_BYTES..k]
                         + raw[k..k + SALT_BYTES] + suffix;
  }
}
