/** Length-prefixed framing, and the canonical bytes of an outbound request. */
module Framing {
  import opened Wrappers
  import opened Bytes
  import Utf8

  /** Each part preceded by its length in `width` big-endian bytes; `None` when a length does not
      fit, where the source raises OverflowError. */
  function Frame(parts: seq<Bytes>, width: nat): Option<Bytes> {
    if parts == [] then Some([])
    else if |parts[0]| >= Pow256(width) then None
    else
      var rest := Frame(parts[1..], width);
      if rest.None? then None else Some(BigEndian(|parts[0]|, width) + parts[0] + rest.value)
  }

  /** No regrouping of the same bytes yields the same frame, even with a different part count. */
  lemma {:induction false} FrameInjective(a: seq<Bytes>, b: seq<Bytes>, width: nat)
    requires width > 0
    requires Frame(a, width).Some? && Frame(a, width) == Frame(b, width)
    ensures a == b
    decreases |a|
  {
    if a != [] && b != [] {
      var fa, fb := Frame(a, width).value, Frame(b, width).value;
      BigEndianRoundTrip(|a[0]|, width);
      BigEndianRoundTrip(|b[0]|, width);
      assert fa[..width] == BigEndian(|a[0]|, width);
      assert fb[..width] == BigEndian(|b[0]|, width);
      var n := |a[0]|;
      assert fa[width..width + n] == a[0] && fb[width..width + n] == b[0];
      assert fa[width + n..] == Frame(a[1..], width).value;
      assert fb[width + n..] == Frame(b[1..], width).value;
      FrameInjective(a[1..], b[1..], width);
      assert a == [a[0]] + a[1..] && b == [b[0]] + b[1..];
    }
  }

  /** A frame exists exactly when every part's length fits the prefix. */
  lemma {:induction false} FrameExists(parts: seq<Bytes>, width: nat)
    ensures Frame(parts, width).Some? <==> forall i :: 0 <= i < |parts| ==> |parts[i]| < Pow256(width)
  {
    if parts != [] {
      FrameExists(parts[1..], width);
      assert forall i :: 1 <= i < |parts| ==> parts[i] == parts[1..][i - 1];
      assert forall i :: 0 <= i < |parts| - 1 ==> parts[1..][i] == parts[i + 1];
    }
  }

  datatype ChatMessage = ChatMessage(role: string, content: string)

  datatype ProtectedChatRequest = ProtectedChatRequest(
    providerAlias: string, modelAlias: string, messages: seq<ChatMessage>, policyVersion: int)

  /** b"sgw:outbound:v1" */
  const SERIALIZATION_VERSION: Bytes := [
    0x73, 0x67, 0x77, 0x3A, 0x6F, 0x75, 0x74, 0x62, 0x6F, 0x75, 0x6E, 0x64,
    0x3A, 0x76, 0x31]

  function MessageParts(messages: seq<ChatMessage>): seq<Bytes> {
    if messages == [] then []
    else [Utf8.Encode(messages[0].role), Utf8.Encode(messages[0].content)] + MessageParts(messages[1..])
  }

  function OutboundParts(request: ProtectedChatRequest): seq<Bytes> {
    [SERIALIZATION_VERSION,
     Utf8.Encode(request.providerAlias),
     Utf8.Encode(request.modelAlias),
     Utf8.Encode(Decimal(request.policyVersion)),
     Utf8.Encode(Decimal(|request.messages|))] + MessageParts(request.messages)
  }

  lemma MessagePartsSnoc(messages: seq<ChatMessage>, m: ChatMessage)
    ensures MessageParts(messages + [m])
         == MessageParts(messages) + [Utf8.Encode(m.role), Utf8.Encode(m.content)]
  {
    if messages == [] {
      assert MessageParts([m][1..]) == [];
    } else {
      assert (messages + [m])[1..] == messages[1..] + [m];
      MessagePartsSnoc(messages[1..], m);
    }
  }

  method SerializeOutbound(request: ProtectedChatRequest) returns (payload: Option<Bytes>)
    ensures payload == Frame(OutboundParts(request), 4)
  {
    hide Utf8.Encode, Decimal, Frame;
    var parts := [
      SERIALIZATION_VERSION,
      Utf8.Encode(request.providerAlias),
      Utf8.Encode(request.modelAlias),
      Utf8.Encode(Decimal(request.policyVersion)),
      Utf8.Encode(Decimal(|request.messages|))];
    ghost var head := parts;
    for i := 0 to |request.messages|
      invariant parts == head + MessageParts(request.messages[..i])
    {
      var message := request.messages[i];
      assert request.messages[..i + 1] == request.messages[..i] + [message];
      MessagePartsSnoc(request.messages[..i], message);
      parts := parts + [Utf8.Encode(message.role)];
      parts := parts + [Utf8.Encode(message.content)];
    }
    assert request.messages[..|request.messages|] == request.messages;
    payload := Frame(parts, 4);
  }

  lemma {:induction false} MessagePartsInjective(a: seq<ChatMessage>, b: seq<ChatMessage>)
    requires MessageParts(a) == MessageParts(b)
    ensures a == b
  {
    if a != [] && b != [] {
      var pa, pb := MessageParts(a), MessageParts(b);
      assert pa[0] == Utf8.Encode(a[0].role) && pb[0] == Utf8.Encode(b[0].role);
      assert pa[1] == Utf8.Encode(a[0].content) && pb[1] == Utf8.Encode(b[0].content);
      Utf8.EncodeInjective(a[0].role, b[0].role);
      Utf8.EncodeInjective(a[0].content, b[0].content);
      assert pa[2..] == MessageParts(a[1..]) && pb[2..] == MessageParts(b[1..]);
      MessagePartsInjective(a[1..], b[1..]);
    }
  }

  /** Two requests attest identically only if they send the same roles and texts, to the same
      provider and model, under the same policy version. */
  lemma OutboundInjective(a: ProtectedChatRequest, b: ProtectedChatRequest)
    requires Frame(OutboundParts(a), 4).Some?
    requires Frame(OutboundParts(a), 4) == Frame(OutboundParts(b), 4)
    ensures a == b
  {
    hide Utf8.Encode, Decimal, Frame;
    FrameInjective(OutboundParts(a), OutboundParts(b), 4);
    var pa, pb := OutboundParts(a), OutboundParts(b);
    assert pa[1] == pb[1] && pa[2] == pb[2] && pa[3] == pb[3];
    Utf8.EncodeInjective(a.providerAlias, b.providerAlias);
    Utf8.EncodeInjective(a.modelAlias, b.modelAlias);
    Utf8.EncodeInjective(Decimal(a.policyVersion), Decimal(b.policyVersion));
    DecimalInjective(a.policyVersion, b.policyVersion);
    assert pa[5..] == MessageParts(a.messages) && pb[5..] == MessageParts(b.messages);
    MessagePartsInjective(a.messages, b.messages);
  }
}
