/** What sealing and opening promise together: nothing is lost, and nothing else gets through. */
module SealingLaws {
  import opened Wrappers
  import opened Bytes
  import opened DocumentFormat
  import opened SealedDocument
  import Utf8

  // ---------------------------------------------------------------------------
  // Opening returns what was sealed
  // ---------------------------------------------------------------------------

  /** `later` still holds every encryption recorded in `log`. */
  predicate Extends(log: Log, later: Log) {
    forall q :: q in log ==> q in later && later[q] == log[q]
  }

  /** Sealing further chunks never overwrites the entry of an earlier chunk: their associated data
      differ in the index. */
  lemma {:induction false} EarlierEntryKept(
    encrypt: Encryptor, key: DataKey, identity: DocumentIdentity, nonces: nat -> Nonce,
    chunks: seq<Bytes>, index: nat, log: Log, q: Query, i: nat, f: bool)
    requires chunks != [] && i < index
    requires q in log && identity.Aad(PURPOSE_BODY, i, f) == Some(q.aad)
    ensures var run := SealChunks(encrypt, key, identity, nonces, chunks, index, log);
            q in run.log && run.log[q] == log[q]
    decreases |chunks|
  {
    hide DocumentIdentity.Aad, SealChunks;
    assert chunks == [chunks[0]] + chunks[1..];
    SealUnfold(encrypt, key, identity, nonces, chunks[0], chunks[1..], index, log);
    var aad := identity.Aad(PURPOSE_BODY, index, chunks[1..] == []);
    if aad.Some? {
      if q.aad == aad.value {
        AadInjective(identity, PURPOSE_BODY, i, f, identity, PURPOSE_BODY, index, chunks[1..] == []);
      }
      if chunks[1..] != [] {
        var q' := SealedQuery(encrypt, key, nonces(index), chunks[0], aad.value);
        EarlierEntryKept(encrypt, key, identity, nonces, chunks[1..], index + 1, log[q' := chunks[0]], q, i, f);
      }
    }
  }

  /** Full chunks, then one last chunk that is empty only when it is alone. */
  predicate FixedSize(chunks: seq<Bytes>, size: nat) {
    && chunks != []
    && (forall i :: 0 <= i < |chunks| - 1 ==> |chunks[i]| == size)
    && |chunks[|chunks| - 1]| <= size
  }

  lemma {:induction false} FramesLength(
    encrypt: Encryptor, key: DataKey, identity: DocumentIdentity, nonces: nat -> Nonce,
    chunks: seq<Bytes>, index: nat, log: Log)
    requires AppendsTag(encrypt)
    requires chunks != []
    requires SealChunks(encrypt, key, identity, nonces, chunks, index, log).error.None?
    ensures |Join(SealChunks(encrypt, key, identity, nonces, chunks, index, log).frames)|
         == |Join(chunks)| + FRAME_OVERHEAD * |chunks|
    decreases |chunks|
  {
    hide DocumentIdentity.Aad, SealChunks;
    var run := SealChunks(encrypt, key, identity, nonces, chunks, index, log);
    assert chunks == [chunks[0]] + chunks[1..];
    SealUnfold(encrypt, key, identity, nonces, chunks[0], chunks[1..], index, log);
    assert |run.frames[0]| == |chunks[0]| + FRAME_OVERHEAD;
    if chunks[1..] == [] {
      assert run.frames[1..] == [];
    } else {
      var aad := identity.Aad(PURPOSE_BODY, index, false).value;
      var q := SealedQuery(encrypt, key, nonces(index), chunks[0], aad);
      FramesLength(encrypt, key, identity, nonces, chunks[1..], index + 1, log[q := chunks[0]]);
      assert run.frames[1..]
          == SealChunks(encrypt, key, identity, nonces, chunks[1..], index + 1, log[q := chunks[0]]).frames;
    }
  }

  /** A frame whose encryption is on record opens to what was sealed. */
  lemma LoggedFrameOpens(encrypt: Encryptor, key: DataKey, nonce: Nonce, plaintext: Bytes, aad: Bytes, run: Log,
                         later: Log)
    requires AppendsTag(encrypt)
    requires var q := SealedQuery(encrypt, key, nonce, plaintext, aad); q in run && run[q] == plaintext
    requires Extends(run, later)
    ensures OpenChunk(later, key, nonce + encrypt(key, nonce, plaintext, aad), aad) == Ok(plaintext)
    ensures |nonce + encrypt(key, nonce, plaintext, aad)| == |plaintext| + FRAME_OVERHEAD
  {
    var frame := nonce + encrypt(key, nonce, plaintext, aad);
    assert frame[..NONCE_BYTES] == nonce && frame[NONCE_BYTES..] == encrypt(key, nonce, plaintext, aad);
  }

  lemma {:induction false} OpenSealedFrames(
    encrypt: Encryptor, key: DataKey, identity: DocumentIdentity, nonces: nat -> Nonce,
    chunks: seq<Bytes>, index: nat, log: Log, size: nat, later: Log)
    requires AppendsTag(encrypt)
    requires size > 0 && FixedSize(chunks, size)
    requires var run := SealChunks(encrypt, key, identity, nonces, chunks, index, log);
             run.error.None? && Extends(run.log, later)
    ensures OpenFrames(later, key, identity,
                       Join(SealChunks(encrypt, key, identity, nonces, chunks, index, log).frames),
                       FRAME_OVERHEAD + size, index)
         == Stream(chunks, None)
    decreases |chunks|
  {
    hide DocumentIdentity.Aad, SealChunks, OpenFrames, OpenChunk, Extends;
    var run := SealChunks(encrypt, key, identity, nonces, chunks, index, log);
    var tail := chunks[1..];
    assert chunks == [chunks[0]] + tail;
    SealUnfold(encrypt, key, identity, nonces, chunks[0], tail, index, log);
    var aad := identity.Aad(PURPOSE_BODY, index, tail == []).value;
    var q := SealedQuery(encrypt, key, nonces(index), chunks[0], aad);
    var frame := run.frames[0];
    var fs := FRAME_OVERHEAD + size;
    if tail == [] {
      LoggedFrameOpens(encrypt, key, nonces(index), chunks[0], aad, run.log, later);
      assert run.frames[1..] == [] && Join(run.frames) == frame;
      OpenFinal(later, key, identity, frame, fs, index);
    } else {
      var log' := log[q := chunks[0]];
      EarlierEntryKept(encrypt, key, identity, nonces, tail, index + 1, log', q, index, false);
      LoggedFrameOpens(encrypt, key, nonces(index), chunks[0], aad, run.log, later);
      var rest := SealChunks(encrypt, key, identity, nonces, tail, index + 1, log');
      FramesLength(encrypt, key, identity, nonces, tail, index + 1, log');
      assert run.frames[1..] == rest.frames;
      assert |Join(rest.frames)| > 0;
      OpenMore(later, key, identity, frame, Join(rest.frames), fs, index);
      TailFixedSize(chunks, size);
      OpenSealedFrames(encrypt, key, identity, nonces, tail, index + 1, log', size, later);
    }
  }

  lemma TailFixedSize(chunks: seq<Bytes>, size: nat)
    requires FixedSize(chunks, size) && |chunks| > 1
    ensures FixedSize(chunks[1..], size) && |chunks[0]| == size
  {
  }

  lemma OpenMore(log: Log, key: DataKey, identity: DocumentIdentity, frame: Bytes, rest: Bytes,
                 frameSize: nat, index: nat)
    requires |frame| == frameSize > 0 && rest != []
    requires var aad := identity.Aad(PURPOSE_BODY, index, false);
             aad.Some? && OpenChunk(log, key, frame, aad.value).Ok?
    ensures var chunk := OpenChunk(log, key, frame, identity.Aad(PURPOSE_BODY, index, false).value).value;
            var more := OpenFrames(log, key, identity, rest, frameSize, index + 1);
            OpenFrames(log, key, identity, frame + rest, frameSize, index) ==
            Stream([chunk] + more.blocks, more.error)
  {
    hide DocumentIdentity.Aad, OpenChunk;
    OpenUnfold(log, key, identity, frame + rest, [], frameSize, index);
    assert (frame + rest) + [] == frame + rest;
    assert (frame + rest)[..frameSize] == frame && (frame + rest)[frameSize..] + [] == rest;
  }

  /** The sealed length depends only on the header and the plaintext length. */
  lemma SealedLength(encrypt: Encryptor, ring: KeyRing, chunkBytes: nat, identity: DocumentIdentity,
                     data: Bytes, salt: Salt, nonces: nat -> Nonce, log: Log)
    requires AppendsTag(encrypt)
    requires chunkBytes > 0
    requires SealDocument(encrypt, ring, chunkBytes, identity, data, salt, nonces, log).0.error.None?
    ensures var sealed := SealDocument(encrypt, ring, chunkBytes, identity, data, salt, nonces, log).0;
            |Join(sealed.blocks)| ==
            26 + |Utf8.Encode(ring.active)| + |data|
            + 28 * if |data| == 0 then 1 else (|data| + chunkBytes - 1) / chunkBytes
  {
    hide DocumentIdentity.Aad, SealChunks, DocumentHeader.ToBytes, Chunks, ChunkCount, Utf8.Encode;
    var key := Derive(ring, ring.active, salt, identity).value;
    FramesLength(encrypt, key, identity, nonces, Chunks(data, chunkBytes), 0, log);
    ChunksJoin(data, chunkBytes);
    ChunksCount(data, chunkBytes);
    CountIs(|data|, chunkBytes);
    HeaderSize(ring, salt, chunkBytes);
    var sealed := SealDocument(encrypt, ring, chunkBytes, identity, data, salt, nonces, log).0;
    assert sealed.blocks[1..] == SealChunks(encrypt, key, identity, nonces, Chunks(data, chunkBytes), 0, log).frames;
  }

  lemma CountIs(length: nat, size: nat)
    requires size > 0
    ensures ChunkCount(length, size) == if length == 0 then 1 else (length + size - 1) / size
  {
  }

  lemma PrefixOfJoin(blocks: seq<Bytes>, k: nat)
    requires k <= |blocks|
    ensures Join(blocks) == Join(blocks[..k]) + Join(blocks[k..])
  {
    assert blocks == blocks[..k] + blocks[k..];
    JoinConcat(blocks[..k], blocks[k..]);
  }

  lemma CutAround(header: Bytes, body: Bytes, head: Bytes, unread: Bytes)
    requires head + unread == header + body
    ensures |head| >= |header| ==>
              head == header + head[|header|..] && head[|header|..] + unread == body
    ensures |head| < |header| ==> head == header[..|head|]
  {
    assert head == (head + unread)[..|head|] == (header + body)[..|head|];
    if |head| >= |header| {
      assert (head + unread)[|header|..] == head[|header|..] + unread;
      assert (header + body)[|header|..] == body;
    }
  }

  /** A reader of a header followed by a body: refused, or left with exactly the body. */
  lemma ReadsHeaderThenBody(log: Log, ring: KeyRing, identity: DocumentIdentity, blocks: seq<Bytes>,
                            h: DocumentHeader, key: DataKey, body: Bytes)
    requires h.version == FORMAT_VERSION && |h.salt| == SALT_BYTES && 0 < h.chunkBytes <= MAX_CHUNK_BYTES
    requires h.ToBytes().Ok?
    requires Join(blocks) == h.ToBytes().value + body && Derive(ring, h.keyId, h.salt, identity) == Ok(key)
    requires |h.ToBytes().value| >= MINIMUM_HEADER_BYTES
    ensures HeaderBuffer(blocks).Some?
    ensures OpenDocument(log, ring, identity, blocks) ==
            if |HeaderBuffer(blocks).value| >= |h.ToBytes().value| then
              OpenFrames(log, key, identity, body, FRAME_OVERHEAD + h.chunkBytes, 0)
            else Stream([], Some(HeaderTruncated))
  {
    hide DocumentIdentity.Info, DocumentIdentity.Aad, OpenFrames, Parse, DocumentHeader.ToBytes, Utf8.Encode, Derive;
    var header := h.ToBytes().value;
    assert blocks[..|blocks|] == blocks;
    var k := HeaderBlocks(blocks, 0).value;
    PrefixOfJoin(blocks, k);
    var head, unread := Join(blocks[..k]), Join(blocks[k..]);
    CutAround(header, body, head, unread);
    if |head| >= |header| {
      HeaderReadsBack(h, head[|header|..]);
    } else {
      HeaderPrefixRefused(h, |head|);
    }
  }

  /** With `k` blocks the reader first holds 27 bytes, and they are not yet the whole header. */
  predicate ParsedShort(blocks: seq<Bytes>, headerBytes: nat, k: nat) {
    k <= |blocks| && 27 <= |Join(blocks[..k])| < headerBytes
    && forall i :: 0 <= i < k ==> |Join(blocks[..i])| < 27
  }

  ghost predicate ParsedTooEarly(blocks: seq<Bytes>, headerBytes: nat) {
    exists k: nat :: ParsedShort(blocks, headerBytes, k)
  }

  lemma ParsedShortIff(blocks: seq<Bytes>, headerBytes: nat)
    ensures ParsedTooEarly(blocks, headerBytes) <==>
            HeaderBuffer(blocks).Some? && |HeaderBuffer(blocks).value| < headerBytes
  {
    var first := HeaderBlocks(blocks, 0);
    if first.Some? && |Join(blocks[..first.value])| < headerBytes {
      assert ParsedShort(blocks, headerBytes, first.value);
    }
    if k: nat :| ParsedShort(blocks, headerBytes, k) {
      assert first.Some? && first.value <= k;
      assert k <= first.value;
    }
  }

  lemma HeaderSize(ring: KeyRing, salt: Salt, chunkBytes: nat)
    requires HeaderOf(ring, salt, chunkBytes).ToBytes().Ok?
    ensures |HeaderOf(ring, salt, chunkBytes).ToBytes().value| == 26 + |Utf8.Encode(ring.active)|
  {
    hide Utf8.Encode, BigEndian;
  }

  /** However the plaintext was cut for sealing and the sealed bytes are cut for opening, the reader
      gets exactly the sealed chunks, if and only if its buffer already held the whole header when
      it first held enough bytes to parse one. Otherwise it refuses the document as truncated. */
  lemma SealThenOpen(encrypt: Encryptor, ring: KeyRing, chunkBytes: nat, identity: DocumentIdentity,
                     data: Bytes, salt: Salt, nonces: nat -> Nonce, log: Log,
                     later: Log, blocks: seq<Bytes>)
    requires AppendsTag(encrypt)
    requires 0 < chunkBytes <= 67_108_864
    requires var (sealed, after) := SealDocument(encrypt, ring, chunkBytes, identity, data, salt, nonces, log);
             sealed.error.None? && Extends(after, later) && Join(blocks) == Join(sealed.blocks)
    ensures Join(Chunks(data, chunkBytes)) == data
    ensures OpenDocument(later, ring, identity, blocks) ==
            if ParsedTooEarly(blocks, 26 + |Utf8.Encode(ring.active)|) then
              Stream([], Some(HeaderTruncated))
            else Stream(Chunks(data, chunkBytes), None)
  {
    hide DocumentIdentity.Aad, SealChunks, OpenFrames, Chunks, Parse, OpenDocument, HeaderBuffer,
         DocumentHeader.ToBytes, Utf8.Encode, Derive, Extends, AppendsTag;
    var h := HeaderOf(ring, salt, chunkBytes);
    var key := Derive(ring, ring.active, salt, identity).value;
    var chunks := Chunks(data, chunkBytes);
    var run := SealChunks(encrypt, key, identity, nonces, chunks, 0, log);
    ChunksJoin(data, chunkBytes);
    HeaderReadsBack(h, []);
    HeaderSize(ring, salt, chunkBytes);
    ParsedShortIff(blocks, 26 + |Utf8.Encode(ring.active)|);
    assert ([h.ToBytes().value] + run.frames)[1..] == run.frames;
    ReadsHeaderThenBody(later, ring, identity, blocks, h, key, Join(run.frames));
    OpenSealedFrames(encrypt, key, identity, nonces, chunks, 0, log, chunkBytes, later);
  }

  /** The associated data of chunk `index` out of `count` can be encoded. */
  predicate ChunkFits(identity: DocumentIdentity, index: nat, count: nat) {
    identity.Aad(PURPOSE_BODY, index, index + 1 == count).Some?
  }

  lemma {:induction false} SealChunksFinish(
    encrypt: Encryptor, key: DataKey, identity: DocumentIdentity, nonces: nat -> Nonce,
    chunks: seq<Bytes>, index: nat, log: Log, count: nat)
    requires chunks != [] && count == index + |chunks|
    ensures SealChunks(encrypt, key, identity, nonces, chunks, index, log).error.None? <==>
            forall i: nat :: index <= i < count ==> ChunkFits(identity, i, count)
    ensures SealChunks(encrypt, key, identity, nonces, chunks, index, log).error in {None, Some(FieldTooLong)}
    decreases |chunks|
  {
    hide DocumentIdentity.Aad, SealChunks;
    var tail := chunks[1..];
    assert chunks == [chunks[0]] + tail;
    SealUnfold(encrypt, key, identity, nonces, chunks[0], tail, index, log);
    var aad := identity.Aad(PURPOSE_BODY, index, tail == []);
    assert ChunkFits(identity, index, count) <==> aad.Some?;
    if aad.Some? && tail != [] {
      var q := SealedQuery(encrypt, key, nonces(index), chunks[0], aad.value);
      SealChunksFinish(encrypt, key, identity, nonces, tail, index + 1, log[q := chunks[0]], count);
    }
  }

  /** Sealing raises only for an unknown active key, a key id that is empty or too long, or an
      identity whose fields overflow their length prefix. */
  lemma SealFinishes(encrypt: Encryptor, ring: KeyRing, chunkBytes: nat, identity: DocumentIdentity,
                     data: Bytes, salt: Salt, nonces: nat -> Nonce, log: Log)
    requires 0 < chunkBytes <= 67_108_864
    ensures SealDocument(encrypt, ring, chunkBytes, identity, data, salt, nonces, log).0.error.None? <==>
            && ring.active in ring.ids
            && identity.Info().Some?
            && 0 < |Utf8.Encode(ring.active)| <= 255
            && var n := ChunkCount(|data|, chunkBytes); forall i: nat :: i < n ==> ChunkFits(identity, i, n)
    ensures var s := SealDocument(encrypt, ring, chunkBytes, identity, data, salt, nonces, log).0;
            s.error.Some? ==>
              s.error.value == if ring.active !in ring.ids then UnknownKeyId
                               else if identity.Info().None? then FieldTooLong
                               else if 0 < |Utf8.Encode(ring.active)| <= 255 then FieldTooLong
                               else KeyIdLengthInvalid
  {
    hide DocumentIdentity.Aad, DocumentIdentity.Info, SealChunks, Chunks, Utf8.Encode, ChunkCount, ChunkFits;
    assert Pow256(SUFFIX_BYTES) == 256 * Pow256(3) == 256 * 256 * Pow256(2) == 256 * 256 * 256 * Pow256(1);
    ChunksCount(data, chunkBytes);
    var derived := Derive(ring, ring.active, salt, identity);
    if derived.Ok? {
      SealChunksFinish(encrypt, derived.value, identity, nonces, Chunks(data, chunkBytes), 0, log,
                       ChunkCount(|data|, chunkBytes));
    }
  }

  /** A value sealed in one piece opens to itself exactly when it is no larger than the largest
      chunk a reader accepts. */
  lemma SealThenOpenValue(encrypt: Encryptor, ring: KeyRing, identity: DocumentIdentity, purpose: string,
                          plaintext: Bytes, salt: Salt, nonce: Nonce, log: Log, later: Log)
    requires AppendsTag(encrypt)
    requires var (sealed, after) := SealValue(encrypt, ring, identity, purpose, plaintext, salt, nonce, log);
             sealed.Ok? && Extends(after, later)
    ensures var sealed := SealValue(encrypt, ring, identity, purpose, plaintext, salt, nonce, log).0.value;
            OpenValue(later, ring, identity, purpose, sealed) == Ok(plaintext) <==>
            |plaintext| <= 67_108_864
  {
    hide DocumentIdentity.Aad, DocumentIdentity.Info, Parse, DocumentHeader.ToBytes;
    var h := HeaderOf(ring, salt, if |plaintext| > 1 then |plaintext| else 1);
    var header := h.ToBytes().value;
    var key := Derive(ring, ring.active, salt, identity).value;
    var aad := identity.Aad(purpose, 0, true).value;
    var q := SealedQuery(encrypt, key, nonce, plaintext, aad);
    var frame := nonce + q.ciphertext;
    assert frame[..NONCE_BYTES] == q.nonce && frame[NONCE_BYTES..] == q.ciphertext;
    HeaderReadsBack(h, frame);
    assert (header + frame)[|header|..] == frame;
  }

  // ---------------------------------------------------------------------------
  // Opening returns nothing else
  // ---------------------------------------------------------------------------

  /** One sealing: whose it is, what for, and its chunks in order. */
  datatype Sealing = Sealing(identity: DocumentIdentity, purpose: string, chunks: seq<Bytes>)

  /** At most one sealing per data key, because every sealing draws a fresh salt. */
  type Ledger = map<DataKey, Sealing>

  ghost predicate IsChunkOf(s: Sealing, aad: Bytes, plaintext: Bytes) {
    exists i: nat :: i < |s.chunks| && s.chunks[i] == plaintext
                  && s.identity.Aad(s.purpose, i, i == |s.chunks| - 1) == Some(aad)
  }

  /** Every encryption in the log is a chunk of the one sealing its key was used for. */
  ghost predicate Accounts(ledger: Ledger, log: Log) {
    forall q :: q in log ==> q.key in ledger && IsChunkOf(ledger[q.key], q.aad, log[q])
  }

  lemma {:induction false} SealChunksAccounted(
    encrypt: Encryptor, key: DataKey, identity: DocumentIdentity, nonces: nat -> Nonce,
    all: seq<Bytes>, index: nat, log: Log, ledger: Ledger)
    requires index < |all|
    requires key in ledger && ledger[key] == Sealing(identity, PURPOSE_BODY, all)
    requires Accounts(ledger, log)
    ensures Accounts(ledger, SealChunks(encrypt, key, identity, nonces, all[index..], index, log).log)
    decreases |all| - index
  {
    hide DocumentIdentity.Aad, SealChunks;
    assert all[index..] == [all[index]] + all[index + 1..];
    SealUnfold(encrypt, key, identity, nonces, all[index], all[index + 1..], index, log);
    var aad := identity.Aad(PURPOSE_BODY, index, all[index + 1..] == []);
    if aad.Some? {
      var q := SealedQuery(encrypt, key, nonces(index), all[index], aad.value);
      var log' := log[q := all[index]];
      assert IsChunkOf(ledger[key], aad.value, all[index]);
      assert Accounts(ledger, log');
      if index + 1 < |all| {
        SealChunksAccounted(encrypt, key, identity, nonces, all, index + 1, log', ledger);
      }
    }
  }

  /** Sealing a document under a fresh data key keeps the books, even when sealing fails part-way. */
  lemma SealDocumentAccounted(encrypt: Encryptor, ring: KeyRing, chunkBytes: nat, identity: DocumentIdentity,
                              data: Bytes, salt: Salt, nonces: nat -> Nonce, log: Log, ledger: Ledger)
    requires chunkBytes > 0 && Accounts(ledger, log)
    requires var key := Derive(ring, ring.active, salt, identity);
             key.Ok? ==> key.value !in ledger
    ensures var key := Derive(ring, ring.active, salt, identity);
            var after := SealDocument(encrypt, ring, chunkBytes, identity, data, salt, nonces, log).1;
            if key.Err? then after == log
            else Accounts(ledger[key.value := Sealing(identity, PURPOSE_BODY, Chunks(data, chunkBytes))], after)
  {
    hide DocumentIdentity.Aad, DocumentIdentity.Info, SealChunks, Chunks, DocumentHeader.ToBytes;
    var derived := Derive(ring, ring.active, salt, identity);
    if derived.Ok? {
      var chunks := Chunks(data, chunkBytes);
      var ledger' := ledger[derived.value := Sealing(identity, PURPOSE_BODY, chunks)];
      assert Accounts(ledger', log);
      assert chunks[0..] == chunks;
      SealChunksAccounted(encrypt, derived.value, identity, nonces, chunks, 0, log, ledger');
    }
  }

  lemma SealValueAccounted(encrypt: Encryptor, ring: KeyRing, identity: DocumentIdentity, purpose: string,
                           plaintext: Bytes, salt: Salt, nonce: Nonce, log: Log, ledger: Ledger)
    requires Accounts(ledger, log)
    requires var key := Derive(ring, ring.active, salt, identity);
             key.Ok? ==> key.value !in ledger
    ensures var key := Derive(ring, ring.active, salt, identity);
            var after := SealValue(encrypt, ring, identity, purpose, plaintext, salt, nonce, log).1;
            if key.Err? then after == log
            else Accounts(ledger[key.value := Sealing(identity, purpose, [plaintext])], after)
  {
    hide DocumentIdentity.Aad, DocumentIdentity.Info, DocumentHeader.ToBytes;
    var key := Derive(ring, ring.active, salt, identity);
    if key.Ok? {
      var s := Sealing(identity, purpose, [plaintext]);
      assert Accounts(ledger[key.value := s], log);
      var aad := identity.Aad(purpose, 0, true);
      if aad.Some? {
        assert s.chunks[0] == plaintext && IsChunkOf(s, aad.value, plaintext);
      }
    }
  }

  /** What a successful decryption under `reader`'s associated data proves about the sealing. */
  lemma OpenedChunkIsSealed(log: Log, ledger: Ledger, key: DataKey, reader: DocumentIdentity, purpose: string,
                            frame: Bytes, index: nat, last: bool)
    requires Accounts(ledger, log)
    requires var aad := reader.Aad(purpose, index, last);
             aad.Some? && OpenChunk(log, key, frame, aad.value).Ok?
    ensures key in ledger
    ensures var s := ledger[key];
            s.identity == reader && s.purpose == purpose && index < |s.chunks|
            && (last <==> index == |s.chunks| - 1)
            && OpenChunk(log, key, frame, reader.Aad(purpose, index, last).value) == Ok(s.chunks[index])
  {
    hide DocumentIdentity.Aad;
    var aad := reader.Aad(purpose, index, last).value;
    var q := Query(key, frame[..NONCE_BYTES], frame[NONCE_BYTES..], aad);
    assert q in log;
    var s := ledger[key];
    assert IsChunkOf(s, aad, log[q]);
    var i: nat :| i < |s.chunks| && s.chunks[i] == log[q]
               && s.identity.Aad(s.purpose, i, i == |s.chunks| - 1) == Some(aad);
    AadInjective(reader, purpose, index, last, s.identity, s.purpose, i, i == |s.chunks| - 1);
  }

  lemma {:induction false} OpenedFramesAreSealed(
    log: Log, ledger: Ledger, key: DataKey, reader: DocumentIdentity, body: Bytes, frameSize: nat, index: nat)
    requires Accounts(ledger, log) && frameSize > 0
    ensures var r := OpenFrames(log, key, reader, body, frameSize, index);
            (r.blocks == [] && r.error.Some?)
            || (key in ledger && ledger[key].identity == reader && ledger[key].purpose == PURPOSE_BODY
                && index <= |ledger[key].chunks| && r.blocks <= ledger[key].chunks[index..]
                && (r.error.None? <==> r.blocks == ledger[key].chunks[index..]))
    decreases |body|
  {
    hide DocumentIdentity.Aad, OpenChunk;
    var last := |body| <= frameSize;
    var aad := reader.Aad(PURPOSE_BODY, index, last);
    var r := OpenFrames(log, key, reader, body, frameSize, index);
    if aad.Some? {
      var frame := if last then body else body[..frameSize];
      if OpenChunk(log, key, frame, aad.value).Ok? {
        OpenedChunkIsSealed(log, ledger, key, reader, PURPOSE_BODY, frame, index, last);
        var chunks := ledger[key].chunks;
        assert chunks[index..] == [chunks[index]] + chunks[index + 1..];
        if !last {
          OpenedFramesAreSealed(log, ledger, key, reader, body[frameSize..], frameSize, index + 1);
          assert r.blocks[0] == chunks[index];
          assert chunks[index + 1..] != [];
        }
      }
    }
  }

  /** The data key a reader derives from the header in front of the stream. */
  function StreamKey(ring: KeyRing, reader: DocumentIdentity, blocks: seq<Bytes>): Option<DataKey> {
    var head := HeaderBuffer(blocks);
    if head.None? then None
    else
      var parsed := Parse(head.value);
      if parsed.Err? then None
      else
        var key := Derive(ring, parsed.value.0.keyId, parsed.value.0.salt, reader);
        if key.Err? then None else Some(key.value)
  }

  /** For any byte stream whatever: if the reader yields anything, or finishes, then a body was
      sealed for exactly this reader under the key the stream names, the yielded blocks are the
      first chunks of that body, and the reader finishes without error exactly when they are all
      of them. */
  lemma OpenedIsAuthentic(log: Log, ledger: Ledger, ring: KeyRing, reader: DocumentIdentity, blocks: seq<Bytes>)
    requires Accounts(ledger, log)
    ensures var r := OpenDocument(log, ring, reader, blocks);
            var key := StreamKey(ring, reader, blocks);
            (r.blocks == [] && r.error.Some?)
            || (key.Some? && key.value in ledger
                && ledger[key.value].identity == reader && ledger[key.value].purpose == PURPOSE_BODY
                && r.blocks <= ledger[key.value].chunks
                && (r.error.None? <==> r.blocks == ledger[key.value].chunks))
  {
    hide DocumentIdentity.Aad, DocumentIdentity.Info, Parse, OpenChunk, OpenFrames;
    var key := StreamKey(ring, reader, blocks);
    if key.Some? {
      var k := HeaderBlocks(blocks, 0).value;
      var (header, consumed) := Parse(Join(blocks[..k])).value;
      var body := Join(blocks[..k])[consumed..] + Join(blocks[k..]);
      OpenedFramesAreSealed(log, ledger, key.value, reader, body, FRAME_OVERHEAD + header.chunkBytes, 0);
      if key.value in ledger {
        assert ledger[key.value].chunks[0..] == ledger[key.value].chunks;
      }
    }
  }

  lemma PrefixesJoin(a: seq<Bytes>, b: seq<Bytes>)
    requires a <= b
    ensures Join(a) <= Join(b)
  {
    PrefixOfJoin(b, |a|);
  }

  /** In bytes: what comes out is a prefix of the document that was sealed, and all of it when the
      reader finishes. */
  lemma OpenedBytesAreAPrefix(log: Log, ledger: Ledger, ring: KeyRing, reader: DocumentIdentity,
                              blocks: seq<Bytes>, key: DataKey, data: Bytes, size: nat)
    requires Accounts(ledger, log) && size > 0
    requires StreamKey(ring, reader, blocks) == Some(key)
    requires key in ledger && ledger[key].chunks == Chunks(data, size)
    ensures var r := OpenDocument(log, ring, reader, blocks);
            Join(r.blocks) <= data && (r.error.None? ==> Join(r.blocks) == data)
  {
    OpenedIsAuthentic(log, ledger, ring, reader, blocks);
    ChunksJoin(data, size);
    var r := OpenDocument(log, ring, reader, blocks);
    if r.blocks <= ledger[key].chunks {
      PrefixesJoin(r.blocks, ledger[key].chunks);
    }
  }

  /** A whole value opens only as the single chunk it was sealed as, for the same purpose. */
  lemma OpenedValueIsAuthentic(log: Log, ledger: Ledger, ring: KeyRing, reader: DocumentIdentity,
                               purpose: string, raw: Bytes)
    requires Accounts(ledger, log)
    requires OpenValue(log, ring, reader, purpose, raw).Ok?
    ensures exists key :: key in ledger
              && ledger[key] == Sealing(reader, purpose, [OpenValue(log, ring, reader, purpose, raw).value])
  {
    hide DocumentIdentity.Aad, DocumentIdentity.Info, Parse, OpenChunk;
    var (header, consumed) := Parse(raw).value;
    var key := Derive(ring, header.keyId, header.salt, reader).value;
    OpenedChunkIsSealed(log, ledger, key, reader, purpose, raw[consumed..], 0, true);
    assert ledger[key].chunks == [ledger[key].chunks[0]];
  }
}
