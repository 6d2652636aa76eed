/** The byte layouts, written out: what other programs that read or attest these bytes rely on. */
module WireFormats {
  import opened Wrappers
  import opened Bytes
  import opened Identifiers
  import opened DocumentFormat
  import Framing
  import Utf8
  import VaultEnvelope

  /** The ASCII bytes of a text. */
  function Ascii(s: string): (b: Bytes)
    requires forall i :: 0 <= i < |s| ==> s[i] < '\U{0080}'
    ensures |b| == |s| && forall i :: 0 <= i < |b| ==> b[i] == s[i] as int
  {
    seq(|s|, i requires 0 <= i < |s| => s[i] as int)
  }

  /** Parts one after another, each behind its length in two bytes, the high one first. */
  function TwoByteFrames(parts: seq<Bytes>): Bytes
    requires forall i :: 0 <= i < |parts| ==> |parts[i]| < 65_536
  {
    if parts == [] then []
    else [|parts[0]| / 256, |parts[0]| % 256] + parts[0] + TwoByteFrames(parts[1..])
  }

  /** The same with four bytes of length. */
  function FourByteFrames(parts: seq<Bytes>): Bytes
    requires forall i :: 0 <= i < |parts| ==> |parts[i]| < 4_294_967_296
  {
    if parts == [] then [] else FourBytes(|parts[0]|) + parts[0] + FourByteFrames(parts[1..])
  }

  function FourBytes(n: nat): Bytes
    requires n < 4_294_967_296
  {
    [n / 16_777_216, n / 65_536 % 256, n / 256 % 256, n % 256]
  }

  lemma TwoBytesBig(n: nat)
    ensures Pow256(2) == 65_536
    ensures n < 65_536 ==> BigEndian(n, 2) == [n / 256, n % 256]
  {
    assert Pow256(2) == 256 * Pow256(1) && Pow256(1) == 256 * Pow256(0);
    if n < 65_536 {
      assert BigEndian(n, 2) == BigEndian(n / 256, 1) + [n % 256];
      assert BigEndian(n / 256, 1) == BigEndian(n / 256 / 256, 0) + [n / 256 % 256];
    }
  }

  lemma FourBytesBig(n: nat)
    ensures Pow256(4) == 4_294_967_296
    ensures n < 4_294_967_296 ==> BigEndian(n, 4) == FourBytes(n)
  {
    assert Pow256(4) == 256 * Pow256(3) && Pow256(3) == 256 * Pow256(2);
    TwoBytesBig(n);
    if n < 4_294_967_296 {
      assert n / 256 / 256 == n / 65_536;
      TwoBytesBig(n / 65_536);
      assert BigEndian(n, 4) == BigEndian(n / 256, 3) + [n % 256];
      assert BigEndian(n / 256, 3) == BigEndian(n / 65_536, 2) + [n / 256 % 256];
      assert n / 65_536 / 256 == n / 16_777_216;
    }
  }

  lemma {:induction false} FramedInTwo(parts: seq<Bytes>)
    requires Framing.Frame(parts, 2).Some?
    ensures forall i :: 0 <= i < |parts| ==> |parts[i]| < 65_536
    ensures Framing.Frame(parts, 2).value == TwoByteFrames(parts)
  {
    if parts != [] {
      TwoBytesBig(|parts[0]|);
      FramedInTwo(parts[1..]);
      assert forall i :: 1 <= i < |parts| ==> parts[i] == parts[1..][i - 1];
    }
  }

  lemma {:induction false} FramedInFour(parts: seq<Bytes>)
    requires Framing.Frame(parts, 4).Some?
    ensures forall i :: 0 <= i < |parts| ==> |parts[i]| < 4_294_967_296
    ensures Framing.Frame(parts, 4).value == FourByteFrames(parts)
  {
    hide FourBytes;
    if parts != [] {
      FourBytesBig(|parts[0]|);
      FramedInFour(parts[1..]);
      assert forall i :: 1 <= i < |parts| ==> parts[i] == parts[1..][i - 1];
    }
  }

  /** A chunk's associated data: its domain, format version, tenant, user, document, content type, schema,
      purpose, position, and "1" for the last chunk or "0" for another. */
  lemma AadLayout(d: DocumentIdentity, purpose: string, index: nat, last: bool)
    requires d.Aad(purpose, index, last).Some?
    ensures var parts := [Ascii("sgw.document.aad.v1"), [1], Utf8.Encode(Text(d.tenantId)),
                          Utf8.Encode(Text(d.userId)), Utf8.Encode(Text(d.documentId)), Utf8.Encode(d.contentType),
                          Utf8.Encode(Decimal(d.schemaVersion)), Utf8.Encode(purpose), Utf8.Encode(Decimal(index)),
                          Ascii(if last then "1" else "0")];
            (forall i :: 0 <= i < |parts| ==> |parts[i]| < 65_536)
            && d.Aad(purpose, index, last).value == TwoByteFrames(parts)
  {
    hide Utf8.Encode, Framing.Frame, Text, Decimal, TwoByteFrames;
    assert Ascii("sgw.document.aad.v1") == AAD_DOMAIN;
    assert Ascii(if last then "1" else "0") == FinalityField(last);
    FramedInTwo(d.AadParts(purpose, index, last));
  }

  /** A data key's derivation context: its domain, tenant, user and document. */
  lemma InfoLayout(d: DocumentIdentity)
    requires d.Info().Some?
    ensures var parts := [Ascii("sgw.document.datakey.v1"), Utf8.Encode(Text(d.tenantId)),
                          Utf8.Encode(Text(d.userId)), Utf8.Encode(Text(d.documentId))];
            (forall i :: 0 <= i < |parts| ==> |parts[i]| < 65_536) && d.Info().value == TwoByteFrames(parts)
  {
    hide Utf8.Encode, Framing.Frame, Text, TwoByteFrames;
    assert Ascii("sgw.document.datakey.v1") == HKDF_DOMAIN;
    FramedInTwo([HKDF_DOMAIN, Utf8.Encode(Text(d.tenantId)), Utf8.Encode(Text(d.userId)),
                 Utf8.Encode(Text(d.documentId))]);
  }

  /** A header: the magic, the version, the key id behind its length in one byte, the salt, and the chunk size in
      four bytes, the high one first. */
  lemma HeaderLayout(h: DocumentHeader)
    ensures h.ToBytes().Ok? <==>
            0 < |Utf8.Encode(h.keyId)| <= 255 && h.chunkBytes < 4_294_967_296
    ensures h.ToBytes().Ok? ==>
              h.ToBytes().value == Ascii("SGWD") + [h.version, |Utf8.Encode(h.keyId)|] + Utf8.Encode(h.keyId)
              + h.salt + FourBytes(h.chunkBytes)
  {
    hide Utf8.Encode, FourBytes, BigEndian, Pow256;
    FourBytesBig(h.chunkBytes);
    assert Ascii("SGWD") == DOCUMENT_MAGIC;
  }

  /** A vault record's associated data: its domain, version, tenant, session, type and token id. */
  lemma VaultAadLayout(a: VaultEnvelope.VaultAad)
    requires a.ToBytes().Some?
    ensures var parts := [Ascii("sgw.vault.aad.v1"), [1], Utf8.Encode(Text(a.tenantId)),
                          Utf8.Encode(Text(a.sessionId)), Utf8.Encode(a.entityType), Utf8.Encode(a.tokenId)];
            (forall i :: 0 <= i < |parts| ==> |parts[i]| < 65_536) && a.ToBytes().value == TwoByteFrames(parts)
  {
    hide Utf8.Encode, Framing.Frame, Text, TwoByteFrames;
    assert Ascii("sgw.vault.aad.v1") == VaultEnvelope.AAD_DOMAIN;
    FramedInTwo([VaultEnvelope.AAD_DOMAIN, [VaultEnvelope.ENVELOPE_VERSION], Utf8.Encode(Text(a.tenantId)),
                 Utf8.Encode(Text(a.sessionId)), Utf8.Encode(a.entityType), Utf8.Encode(a.tokenId)]);
  }

  /** A stored envelope: the magic, the version, the key id behind its length in one byte, the nonce and the
      ciphertext with its tag. */
  lemma EnvelopeLayout(e: VaultEnvelope.Envelope)
    ensures e.ToBytes().Ok? <==> 0 < |Utf8.Encode(e.keyId)| <= 255
    ensures e.ToBytes().Ok? ==>
              e.ToBytes().value == Ascii("SGWV") + [e.version, |Utf8.Encode(e.keyId)|] + Utf8.Encode(e.keyId)
              + e.nonce + e.ciphertext
  {
    hide Utf8.Encode;
    assert Ascii("SGWV") == VaultEnvelope.ENVELOPE_MAGIC;
  }

  /** Role and content of each message in turn. */
  function MessageFields(messages: seq<Framing.ChatMessage>): (r: seq<Bytes>)
    ensures |r| == 2 * |messages|
  {
    seq(2 * |messages|, i requires 0 <= i < 2 * |messages| =>
      Utf8.Encode(if i % 2 == 0 then messages[i / 2].role else messages[i / 2].content))
  }

  lemma {:induction false} MessageFieldsAre(messages: seq<Framing.ChatMessage>)
    ensures Framing.MessageParts(messages) == MessageFields(messages)
  {
    hide Utf8.Encode;
    if messages != [] {
      MessageFieldsAre(messages[1..]);
      assert forall i :: 2 <= i < 2 * |messages| ==> MessageFields(messages)[i] == MessageFields(messages[1..])[i - 2];
    }
  }

  /** What is attested of an outbound request: the version, provider, model, policy version, number of messages,
      and then role and content of each, every field behind four bytes of length. */
  lemma OutboundLayout(request: Framing.ProtectedChatRequest)
    requires Framing.Frame(Framing.OutboundParts(request), 4).Some?
    ensures var parts := [Ascii("sgw:outbound:v1"), Utf8.Encode(request.providerAlias),
                          Utf8.Encode(request.modelAlias), Utf8.Encode(Decimal(request.policyVersion)),
                          Utf8.Encode(Decimal(|request.messages|))] + MessageFields(request.messages);
            (forall i :: 0 <= i < |parts| ==> |parts[i]| < 4_294_967_296)
            && Framing.Frame(Framing.OutboundParts(request), 4).value == FourByteFrames(parts)
  {
    hide Utf8.Encode, Framing.Frame, Decimal, FourByteFrames;
    assert Ascii("sgw:outbound:v1") == Framing.SERIALIZATION_VERSION;
    MessageFieldsAre(request.messages);
    FramedInFour(Framing.OutboundParts(request));
  }

  // ---------------------------------------------------------------------------
  // Text and numbers
  // ---------------------------------------------------------------------------

  /** The number a text of decimal digits denotes. */
  function Value(s: string): int {
    if s == "" then 0 else 10 * Value(s[..|s| - 1]) + (s[|s| - 1] as int - '0' as int)
  }

  lemma {:induction false} DigitsDenote(n: nat)
    ensures Value(Digits(n)) == n && (n > 0 ==> Digits(n)[0] != '0')
  {
    if n >= 10 {
      DigitsDenote(n / 10);
      var s := Digits(n);
      assert s[..|s| - 1] == Digits(n / 10);
      assert n / 10 > 0 && s[0] == Digits(n / 10)[0];
    } else {
      assert Digits(n)[..0] == "";
    }
  }

  /** Every character is one to four bytes: the first announces how many, the others begin with the bits 10, and
      the remaining bits are the character's number, in the fewest bytes that hold it. */
  lemma Utf8Shape(c: char)
    ensures var b: seq<int> := Utf8.EncodeChar(c);
            var n := c as int;
            (forall i :: 1 <= i < |b| ==> 128 <= b[i] < 192)
            && match |b|
               case 1 => n < 128 && b[0] == n
               case 2 => 128 <= n < 2048 && 192 <= b[0] < 224 && n == (b[0] - 192) * 64 + (b[1] - 128)
               case 3 => 2048 <= n < 65_536 && 224 <= b[0] < 240
                         && n == (b[0] - 224) * 4096 + (b[1] - 128) * 64 + (b[2] - 128)
               case _ => 65_536 <= n && 240 <= b[0] < 248
                         && n == (b[0] - 240) * 262_144 + (b[1] - 128) * 4096 + (b[2] - 128) * 64 + (b[3] - 128)
  {
    Utf8.SixBitGroups(c as int);
  }
}
