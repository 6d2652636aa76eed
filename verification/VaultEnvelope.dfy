/** Vault associated data and the stored envelope's wire format. */
module VaultEnvelope {
  import opened Wrappers
  import opened Bytes
  import opened Identifiers
  import Framing
  import Utf8

  /** b"SGWV" */
  const ENVELOPE_MAGIC: Bytes := [0x53, 0x47, 0x57, 0x56]
  const ENVELOPE_VERSION: Byte := 1
  const HEADER_BYTES := 6
  const NONCE_BYTES := 12
  const GCM_TAG_BYTES := 16
  const MAX_KEY_ID_BYTES := 255

  /** b"sgw.vault.aad.v1" */
  const AAD_DOMAIN: Bytes := [
    0x73, 0x67, 0x77, 0x2E, 0x76, 0x61, 0x75, 0x6C, 0x74, 0x2E, 0x61, 0x61,
    0x64, 0x2E, 0x76, 0x31]

  datatype VaultAad = VaultAad(tenantId: Uuid, sessionId: Uuid, entityType: string, tokenId: string)
  {
    function ToBytes(): Option<Bytes> {
      Framing.Frame([
        AAD_DOMAIN,
        [ENVELOPE_VERSION],
        Utf8.Encode(Text(tenantId)),
        Utf8.Encode(Text(sessionId)),
        Utf8.Encode(entityType),
        Utf8.Encode(tokenId)], 2)
    }
  }

  /** A record bound to one tenant, session, type and token id opens under no other binding. */
  lemma VaultAadInjective(a: VaultAad, b: VaultAad)
    requires a.ToBytes().Some? && a.ToBytes() == b.ToBytes()
    ensures a == b
  {
    hide Utf8.Encode, Framing.Frame, Text;
    var pa := [AAD_DOMAIN, [ENVELOPE_VERSION], Utf8.Encode(Text(a.tenantId)),
               Utf8.Encode(Text(a.sessionId)), Utf8.Encode(a.entityType), Utf8.Encode(a.tokenId)];
    var pb := [AAD_DOMAIN, [ENVELOPE_VERSION], Utf8.Encode(Text(b.tenantId)),
               Utf8.Encode(Text(b.sessionId)), Utf8.Encode(b.entityType), Utf8.Encode(b.tokenId)];
    Framing.FrameInjective(pa, pb, 2);
    assert pa[2] == pb[2] && pa[3] == pb[3] && pa[4] == pb[4] && pa[5] == pb[5];
    Utf8.EncodeInjective(Text(a.tenantId), Text(b.tenantId));
    Utf8.EncodeInjective(Text(a.sessionId), Text(b.sessionId));
    TextInjective(a.tenantId, b.tenantId);
    TextInjective(a.sessionId, b.sessionId);
    Utf8.EncodeInjective(a.entityType, b.entityType);
    Utf8.EncodeInjective(a.tokenId, b.tokenId);
  }

  datatype EnvelopeError =
    | KeyIdLengthInvalid | Truncated | MagicMismatch | VersionUnsupported | KeyIdMissing | KeyIdInvalid

  /** `ciphertext` includes the 16-byte tag. */
  datatype Envelope = Envelope(version: Byte, keyId: string, nonce: Bytes, ciphertext: Bytes)
  {
    function ToBytes(): Result<Bytes, EnvelopeError> {
      var key := Utf8.Encode(keyId);
      if !(0 < |key| <= MAX_KEY_ID_BYTES) then Err(KeyIdLengthInvalid)
      else Ok(ENVELOPE_MAGIC + [version, |key|] + key + nonce + ciphertext)
    }
  }

  function FromBytes(raw: Bytes): Result<Envelope, EnvelopeError> {
    if |raw| < HEADER_BYTES then Err(Truncated)
    else if raw[..4] != ENVELOPE_MAGIC then Err(MagicMismatch)
    else if raw[4] != ENVELOPE_VERSION then Err(VersionUnsupported)
    else if raw[5] == 0 then Err(KeyIdMissing)
    else
      var keyIdEnd := HEADER_BYTES + raw[5];
      var nonceEnd := keyIdEnd + NONCE_BYTES;
      if |raw| < nonceEnd + GCM_TAG_BYTES then Err(Truncated)
      else
        var keyId := Utf8.Decode(raw[HEADER_BYTES..keyIdEnd]);
        if keyId.None? then Err(KeyIdInvalid)
        else Ok(Envelope(raw[4], keyId.value, raw[keyIdEnd..nonceEnd], raw[nonceEnd..]))
  }

  /** Reading back a printed envelope succeeds exactly for version 1 with a full tag, and then
      returns the envelope. */
  lemma EnvelopeReadsBack(e: Envelope)
    requires e.ToBytes().Ok? && |e.nonce| == NONCE_BYTES
    ensures FromBytes(e.ToBytes().value) == Ok(e)
       <==> e.version == 1 && |e.ciphertext| >= 16
  {
    hide Utf8.Encode, Utf8.Decode;
    var key := Utf8.Encode(e.keyId);
    var raw := e.ToBytes().value;
    var k := HEADER_BYTES + |key|;
    assert raw[..4] == ENVELOPE_MAGIC && raw[4] == e.version && raw[5] == |key|;
    assert |raw| == k + NONCE_BYTES + |e.ciphertext|;
    assert raw[HEADER_BYTES..k] == key;
    assert raw[k..k + NONCE_BYTES] == e.nonce;
    assert raw[k + NONCE_BYTES..] == e.ciphertext;
    Utf8.DecodeInvertsEncode(e.keyId);
  }

  /** Every accepted byte string is the printed form of the envelope read from it. */
  lemma EnvelopePrintsBack(raw: Bytes)
    requires FromBytes(raw).Ok?
    ensures FromBytes(raw).value.ToBytes() == Ok(raw)
  {
    hide Utf8.Encode, Utf8.Decode;
    var e := FromBytes(raw).value;
    Utf8.EncodeInvertsDecode(raw[HEADER_BYTES..HEADER_BYTES + raw[5]]);
    assert raw == raw[..4] + [raw[4], raw[5]] + raw[6..6 + raw[5]]
                + raw[6 + raw[5]..6 + raw[5] + NONCE_BYTES] + raw[6 + raw[5] + NONCE_BYTES..];
    assert Utf8.Encode(e.keyId) == raw[6..6 + raw[5]];
  }
}
