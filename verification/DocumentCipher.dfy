/** Sealing a document as independently authenticated chunks, and opening it again as a stream. */
module DocumentCipher {
  import opened Wrappers
  import opened Bytes
  import opened DocumentFormat
  import opened SealedDocument

  /** The client's own block boundaries leave no trace in the blocks produced. */
  method Rechunk(source: seq<Bytes>, size: nat) returns (blocks: seq<Bytes>)
    requires size > 0
    ensures blocks == Regrouped(Join(source), size)
  {
    hide Chunks, Regrouped;
    blocks := [];
    var buffer: Bytes := [];
    assert source[0..] == source && buffer + Join(source) == Join(source);
    for i := 0 to |source|
      invariant |buffer| < size
      invariant Regrouped(Join(source), size) == blocks + Regrouped(buffer + Join(source[i..]), size)
    {
      assert source[i..] == [source[i]] + source[i + 1..];
      assert buffer + Join(source[i..]) == buffer + source[i] + Join(source[i + 1..]);
      buffer := buffer + source[i];
      while |buffer| >= size
        invariant Regrouped(Join(source), size) == blocks + Regrouped(buffer + Join(source[i + 1..]), size)
      {
        RegroupedStep(buffer, Join(source[i + 1..]), size);
        blocks := blocks + [buffer[..size]];
        buffer := buffer[size..];
      }
    }
    assert buffer + Join(source[|source|..]) == buffer;
    RegroupedShort(buffer, size);
    if buffer != [] {
      blocks := blocks + [buffer];
    }
  }

  /** The log of the ideal cipher, shared by everyone who seals or opens. */
  class IdealAead {
    const encrypt: Encryptor
    var log: Log

    constructor (encrypt: Encryptor)
      ensures this.encrypt == encrypt && log == map[]
    {
      this.encrypt := encrypt;
      log := map[];
    }

    method SealChunk(key: DataKey, nonce: Nonce, plaintext: Bytes, aad: Bytes) returns (frame: Bytes)
      modifies this`log
      ensures frame == nonce + encrypt(key, nonce, plaintext, aad)
      ensures log == old(log)[SealedQuery(encrypt, key, nonce, plaintext, aad) := plaintext]
    {
      var q := SealedQuery(encrypt, key, nonce, plaintext, aad);
      log := log[q := plaintext];
      frame := q.nonce + q.ciphertext;
    }
  }

  class DocumentCipher {
    const aead: IdealAead
    const ring: KeyRing
    const chunkBytes: nat

    constructor (aead: IdealAead, ring: KeyRing, chunkBytes: nat)
      requires 0 < chunkBytes <= MAX_CHUNK_BYTES
      ensures this.aead == aead && this.ring == ring && this.chunkBytes == chunkBytes
    {
      this.aead := aead;
      this.ring := ring;
      this.chunkBytes := chunkBytes;
    }

    /** One chunk behind its input, so that the last one can be sealed as final. `salt` and `nonces`
        are the fresh random bytes. */
    method SealStream(identity: DocumentIdentity, plaintext: seq<Bytes>, salt: Salt, nonces: nat -> Nonce)
      returns (s: Stream)
      requires chunkBytes > 0
      modifies aead`log
      ensures (s, aead.log)
           == SealDocument(aead.encrypt, ring, chunkBytes, identity, Join(plaintext), salt, nonces, old(aead.log))
    {
      hide DocumentIdentity.Aad, DocumentIdentity.Info, DocumentHeader.ToBytes, SealChunks, SealedQuery, Chunks,
           Regrouped;
      var derived := Derive(ring, ring.active, salt, identity);
      if derived.Err? {
        return Stream([], Some(derived.error));
      }
      var key := derived.value;
      var header := HeaderOf(ring, salt, chunkBytes).ToBytes();
      if header.Err? {
        return Stream([], Some(header.error));
      }
      var out := [header.value];
      var index := 0;
      var pending: Option<Bytes> := None;
      var blocks := Rechunk(plaintext, chunkBytes);

      SealedBlocks(Join(plaintext), chunkBytes);
      ghost var chunks := Chunks(Join(plaintext), chunkBytes);
      ghost var run := SealChunks(aead.encrypt, key, identity, nonces, chunks, 0, aead.log);
      for i := 0 to |blocks|
        invariant out != [] && out[0] == header.value
        invariant pending.None? <==> i == 0
        invariant i == 0 ==> index == 0 && out == [header.value] && aead.log == old(aead.log)
        invariant i > 0 ==>
          var rest := SealChunks(aead.encrypt, key, identity, nonces, [pending.value] + blocks[i..], index, aead.log);
          run == SealRun(out[1..] + rest.frames, rest.error, rest.log)
      {
        if pending.Some? {
          var aad := identity.Aad(PURPOSE_BODY, index, false);
          SealUnfold(aead.encrypt, key, identity, nonces, pending.value, blocks[i..], index, aead.log);
          assert blocks[i..] == [blocks[i]] + blocks[i + 1..];
          if aad.None? {
            assert run.frames == out[1..] && out == [header.value] + out[1..];
            return Stream(out, Some(FieldTooLong));
          }
          var frame := aead.SealChunk(key, nonces(index), pending.value, aad.value);
          out := out + [frame];
          index := index + 1;
        }
        pending := Some(blocks[i]);
        if i == 0 {
          assert [blocks[0]] + blocks[1..] == blocks;
        }
      }
      var text := if pending.Some? then pending.value else [];
      assert [text] + blocks[|blocks|..] == [text] + [];
      assert pending.None? ==> chunks == [text] + [] && out[1..] == [];
      ghost var rest := SealChunks(aead.encrypt, key, identity, nonces, [text] + [], index, aead.log);
      assert run == SealRun(out[1..] + rest.frames, rest.error, rest.log);
      SealUnfold(aead.encrypt, key, identity, nonces, text, [], index, aead.log);
      var aad := identity.Aad(PURPOSE_BODY, index, true);
      if aad.None? {
        assert run.frames == out[1..] && out == [header.value] + out[1..];
        return Stream(out, Some(FieldTooLong));
      }
      var frame := aead.SealChunk(key, nonces(index), text, aad.value);
      assert out + [frame] == [header.value] + (out[1..] + [frame]);
      s := Stream(out + [frame], None);
    }

    /** The inner loop of opening: yield every frame that cannot be the last one in `buffer`. */
    method OpenFullFrames(key: DataKey, identity: DocumentIdentity, frameSize: nat,
                          buffer: Bytes, index: nat, ghost unread: Bytes)
      returns (out: seq<Bytes>, left: Bytes, next: nat, error: Option<DocumentError>)
      requires frameSize > 0
      ensures error.Some? ==>
        OpenFrames(aead.log, key, identity, buffer + unread, frameSize, index) == Stream(out, error)
      ensures error.None? ==>
        var rest := OpenFrames(aead.log, key, identity, left + unread, frameSize, next);
        |left| <= frameSize
        && OpenFrames(aead.log, key, identity, buffer + unread, frameSize, index)
        == Stream(out + rest.blocks, rest.error)
    {
      hide DocumentIdentity.Aad, OpenChunk, OpenFrames;
      ghost var whole := OpenFrames(aead.log, key, identity, buffer + unread, frameSize, index);
      out, left, next := [], buffer, index;
      while |left| > frameSize
        invariant var rest := OpenFrames(aead.log, key, identity, left + unread, frameSize, next);
                  whole == Stream(out + rest.blocks, rest.error)
      {
        OpenUnfold(aead.log, key, identity, left, unread, frameSize, next);
        var aad := identity.Aad(PURPOSE_BODY, next, false);
        if aad.None? {
          return out, left, next, Some(FieldTooLong);
        }
        var chunk := OpenChunk(aead.log, key, left[..frameSize], aad.value);
        if chunk.Err? {
          return out, left, next, Some(chunk.error);
        }
        out := out + [chunk.value];
        left := left[frameSize..];
        next := next + 1;
      }
      error := None;
    }

    /** Yields each chunk once it is authenticated; a full frame is held back until a further byte
        shows that it is not the last. */
    method OpenStream(identity: DocumentIdentity, ciphertext: seq<Bytes>) returns (s: Stream)
      ensures s == OpenDocument(aead.log, ring, identity, ciphertext)
    {
      hide DocumentIdentity.Aad, DocumentIdentity.Info, Parse, OpenChunk, OpenFrames;
      var buffer: Bytes := [];
      var header: Option<DocumentHeader> := None;
      var key := DataKey("", [], []);
      var frameSize := 1;
      var index := 0;
      var out: seq<Bytes> := [];

      ghost var whole := OpenDocument(aead.log, ring, identity, ciphertext);
      ghost var k := HeaderBlocks(ciphertext, 0);
      for i := 0 to |ciphertext|
        invariant frameSize > 0
        invariant header.None? ==> buffer == Join(ciphertext[..i]) && |buffer| < MINIMUM_HEADER_BYTES
        invariant header.None? ==> out == [] && index == 0
        invariant header.None? ==> k.None? || k.value > i
        invariant header.Some? ==>
          var rest := OpenFrames(aead.log, key, identity, buffer + Join(ciphertext[i..]), frameSize, index);
          |buffer| <= frameSize && whole == Stream(out + rest.blocks, rest.error)
      {
        assert ciphertext[..i + 1] == ciphertext[..i] + [ciphertext[i]];
        JoinSnoc(ciphertext[..i], ciphertext[i]);
        assert ciphertext[i..] == [ciphertext[i]] + ciphertext[i + 1..];
        ghost var unread := Join(ciphertext[i + 1..]);
        assert buffer + Join(ciphertext[i..]) == buffer + ciphertext[i] + unread;
        buffer := buffer + ciphertext[i];
        if header.None? {
          if |buffer| < MINIMUM_HEADER_BYTES {
            continue;
          }
          assert k == Some(i + 1);
          var parsed := Parse(buffer);
          if parsed.Err? {
            return Stream([], Some(parsed.error));
          }
          var (h, consumed) := parsed.value;
          header := Some(h);
          var derived := Derive(ring, h.keyId, h.salt, identity);
          if derived.Err? {
            return Stream([], Some(derived.error));
          }
          key := derived.value;
          frameSize := NONCE_BYTES + h.chunkBytes + GCM_TAG_BYTES;
          buffer := buffer[consumed..];
          assert whole == OpenFrames(aead.log, key, identity, buffer + unread, frameSize, index);
          assert out + whole.blocks == whole.blocks;
        }
        assert var rest := OpenFrames(aead.log, key, identity, buffer + unread, frameSize, index);
               whole == Stream(out + rest.blocks, rest.error);
        var plain, left, next, error := OpenFullFrames(key, identity, frameSize, buffer, index, unread);
        out := out + plain;
        if error.Some? {
          return Stream(out, error);
        }
        buffer, index := left, next;
      }
      if header.None? {
        return Stream([], Some(HeaderTruncated));
      }
      assert buffer + Join(ciphertext[|ciphertext|..]) == buffer;
      OpenFinal(aead.log, key, identity, buffer, frameSize, index);
      var aad := identity.Aad(PURPOSE_BODY, index, true);
      if aad.None? {
        return Stream(out, Some(FieldTooLong));
      }
      var chunk := OpenChunk(aead.log, key, buffer, aad.value);
      if chunk.Err? {
        return Stream(out, Some(chunk.error));
      }
      s := Stream(out + [chunk.value], None);
    }

    method SealBytes(identity: DocumentIdentity, purpose: string, plaintext: Bytes, salt: Salt, nonce: Nonce)
      returns (r: Result<Bytes, DocumentError>)
      modifies aead`log
      ensures (r, aead.log)
           == SealValue(aead.encrypt, ring, identity, purpose, plaintext, salt, nonce, old(aead.log))
    {
      hide DocumentIdentity.Aad, DocumentIdentity.Info, DocumentHeader.ToBytes;
      var key := Derive(ring, ring.active, salt, identity);
      if key.Err? {
        return Err(key.error);
      }
      var aad := identity.Aad(purpose, 0, true);
      if aad.None? {
        return Err(FieldTooLong);
      }
      var frame := aead.SealChunk(key.value, nonce, plaintext, aad.value);
      var header := HeaderOf(ring, salt, if |plaintext| > 1 then |plaintext| else 1).ToBytes();
      if header.Err? {
        return Err(header.error);
      }
      r := Ok(header.value + frame);
    }

    /** Parse, derive, open one final chunk. Whatever opens was sealed under the key this identity derives
        and as this identity's one chunk for this purpose. */
    method OpenBytes(identity: DocumentIdentity, purpose: string, raw: Bytes)
      returns (r: Result<Bytes, DocumentError>)
      ensures r == OpenValue(aead.log, ring, identity, purpose, raw)
      ensures r.Ok? ==>
                exists q :: q in aead.log && aead.log[q] == r.value
                            && Some(q.key.info) == identity.Info() && Some(q.aad) == identity.Aad(purpose, 0, true)
    {
      hide DocumentIdentity.Aad, DocumentIdentity.Info, Parse;
      var parsed := Parse(raw);
      if parsed.Err? {
        return Err(parsed.error);
      }
      var (header, consumed) := parsed.value;
      var key := Derive(ring, header.keyId, header.salt, identity);
      if key.Err? {
        return Err(key.error);
      }
      var aad := identity.Aad(purpose, 0, true);
      if aad.None? {
        return Err(FieldTooLong);
      }
      r := OpenChunk(aead.log, key.value, raw[consumed..], aad.value);
    }
  }
}
