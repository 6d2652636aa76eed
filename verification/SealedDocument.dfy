/** What sealing and opening a chunked document yield, and why opening is faithful.

    An async generator is modelled by the blocks it yields and how it ends. AES-GCM (sections 7.1
    and 7.2 of NIST SP 800-38D) is ideal: a log remembers every encryption, and a decryption
    succeeds only for a logged key, nonce, ciphertext and associated data. HKDF (section 2 of
    RFC 5869) is symbolic: a data key is the triple it was derived from. */
module SealedDocument {
  import opened Wrappers
  import opened Bytes
  import opened DocumentFormat

  type Nonce = b: Bytes | |b| == NONCE_BYTES witness seq(12, _ => 0)
  type Salt = b: Bytes | |b| == SALT_BYTES witness seq(16, _ => 0)

  /** HKDF output, named by its inputs. */
  datatype DataKey = DataKey(keyId: string, salt: Bytes, info: Bytes)

  datatype Query = Query(key: DataKey, nonce: Bytes, ciphertext: Bytes, aad: Bytes)
  type Log = map<Query, Bytes>

  /** AES-GCM encryption of (key, nonce, plaintext, aad). */
  type Encryptor = (DataKey, Bytes, Bytes, Bytes) -> Bytes

  /** It appends a tag; nothing else is known of it. */
  ghost predicate AppendsTag(encrypt: Encryptor) {
    forall k, n, p, a :: |encrypt(k, n, p, a)| == |p| + 16
  }

  /** What a generator yielded, and the error it then raised, if any. */
  datatype Stream = Stream(blocks: seq<Bytes>, error: Option<DocumentError>)

  datatype KeyRing = KeyRing(ids: set<string>, active: string)

  function Derive(ring: KeyRing, keyId: string, salt: Bytes, identity: DocumentIdentity)
    : (r: Result<DataKey, DocumentError>)
  {
    if keyId !in ring.ids then Err(UnknownKeyId)
    else
      var info := identity.Info();
      if info.None? then Err(FieldTooLong) else Ok(DataKey(keyId, salt, info.value))
  }

  function SealedQuery(encrypt: Encryptor, key: DataKey, nonce: Nonce, plaintext: Bytes, aad: Bytes): Query {
    Query(key, nonce, encrypt(key, nonce, plaintext, aad), aad)
  }

  function OpenChunk(log: Log, key: DataKey, frame: Bytes, aad: Bytes): Result<Bytes, DocumentError> {
    if |frame| < FRAME_OVERHEAD then Err(ChunkTruncated)
    else
      var q := Query(key, frame[..NONCE_BYTES], frame[NONCE_BYTES..], aad);
      if q in log then Ok(log[q]) else Err(AuthenticationFailed)
  }

  // ---------------------------------------------------------------------------
  // Fixed-size blocks
  // ---------------------------------------------------------------------------

  /** `data` cut every `size` bytes; the last chunk holds what remains, and the empty document is
      one empty chunk. */
  function Chunks(data: Bytes, size: nat): (c: seq<Bytes>)
    requires size > 0
    ensures c != []
  {
    if |data| <= size then [data] else [data[..size]] + Chunks(data[size..], size)
  }

  /** What regrouping yields: as `Chunks`, but nothing at all for no data. */
  function Regrouped(data: Bytes, size: nat): seq<Bytes>
    requires size > 0
  {
    if data == [] then [] else Chunks(data, size)
  }

  lemma RegroupedStep(buffer: Bytes, rest: Bytes, size: nat)
    requires 0 < size <= |buffer|
    ensures Regrouped(buffer + rest, size) == [buffer[..size]] + Regrouped(buffer[size..] + rest, size)
  {
    var data := buffer + rest;
    assert data[..size] == buffer[..size] && data[size..] == buffer[size..] + rest;
    if |data| == size {
      assert data[..size] == data;
    }
  }

  lemma RegroupedShort(data: Bytes, size: nat)
    requires |data| < size
    ensures Chunks(data, size) == [data]
    ensures Regrouped(data, size) == if data == [] then [] else [data]
  {
  }

  /** The writer seals one empty chunk in place of no block at all. */
  lemma SealedBlocks(data: Bytes, size: nat)
    requires size > 0
    ensures Chunks(data, size) == if Regrouped(data, size) == [] then [[]] else Regrouped(data, size)
  {
  }

  lemma {:induction false} ChunksJoin(data: Bytes, size: nat)
    requires size > 0
    ensures Join(Chunks(data, size)) == data
    ensures forall i :: 0 <= i < |Chunks(data, size)| - 1 ==> |Chunks(data, size)[i]| == size
    ensures |Chunks(data, size)[|Chunks(data, size)| - 1]| <= size
    ensures |Chunks(data, size)| > 1 ==> |Chunks(data, size)[|Chunks(data, size)| - 1]| > 0
    decreases |data|
  {
    if |data| <= size {
      assert Join([data]) == data + Join([]);
    } else {
      ChunksJoin(data[size..], size);
      assert data == data[..size] + data[size..];
    }
  }

  /** Ceiling division, at least one. */
  function ChunkCount(length: nat, size: nat): nat
    requires size > 0
  {
    if length == 0 then 1 else (length + size - 1) / size
  }

  lemma QuotientUnique(x: int, d: int, q: int, r: int)
    requires 0 <= r < d && x == q * d + r
    ensures x / d == q
  {
    var k := x / d - q;
    assert x == x / d * d + x % d;
    assert k * d == r - x % d;
    assert k >= 1 ==> k * d >= d;
    assert k <= -1 ==> k * d <= -d;
  }

  lemma {:induction false} ChunksCount(data: Bytes, size: nat)
    requires size > 0
    ensures |Chunks(data, size)| == ChunkCount(|data|, size)
    decreases |data|
  {
    if |data| > size {
      ChunksCount(data[size..], size);
      var n := |data| - 1;
      QuotientUnique(n + size, size, n / size + 1, n % size);
    } else if |data| > 0 {
      QuotientUnique(|data| + size - 1, size, 1, |data| - 1);
    }
  }

  // ---------------------------------------------------------------------------
  // Sealing
  // ---------------------------------------------------------------------------

  datatype SealRun = SealRun(frames: seq<Bytes>, error: Option<DocumentError>, log: Log)

  /** Seal `chunks` from position `index`, the last one as final. */
  function SealChunks(encrypt: Encryptor, key: DataKey, identity: DocumentIdentity, nonces: nat -> Nonce,
                      chunks: seq<Bytes>, index: nat, log: Log): SealRun
    requires chunks != []
  {
    var last := |chunks| == 1;
    var aad := identity.Aad(PURPOSE_BODY, index, last);
    if aad.None? then SealRun([], Some(FieldTooLong), log)
    else
      var q := SealedQuery(encrypt, key, nonces(index), chunks[0], aad.value);
      var frame := q.nonce + q.ciphertext;
      var log' := log[q := chunks[0]];
      if last then SealRun([frame], None, log')
      else
        var rest := SealChunks(encrypt, key, identity, nonces, chunks[1..], index + 1, log');
        SealRun([frame] + rest.frames, rest.error, rest.log)
  }

  lemma SealUnfold(encrypt: Encryptor, key: DataKey, identity: DocumentIdentity, nonces: nat -> Nonce,
                   head: Bytes, tail: seq<Bytes>, index: nat, log: Log)
    ensures var run := SealChunks(encrypt, key, identity, nonces, [head] + tail, index, log);
            var aad := identity.Aad(PURPOSE_BODY, index, tail == []);
            if aad.None? then run == SealRun([], Some(FieldTooLong), log)
            else
              var q := SealedQuery(encrypt, key, nonces(index), head, aad.value);
              var frame := nonces(index) + encrypt(key, nonces(index), head, aad.value);
              if tail == [] then run == SealRun([frame], None, log[q := head])
              else
                var rest := SealChunks(encrypt, key, identity, nonces, tail, index + 1, log[q := head]);
                run == SealRun([frame] + rest.frames, rest.error, rest.log)
  {
    hide DocumentIdentity.Aad;
    assert ([head] + tail)[1..] == tail;
  }

  function HeaderOf(ring: KeyRing, salt: Bytes, chunkBytes: nat): DocumentHeader {
    DocumentHeader(FORMAT_VERSION, ring.active, salt, chunkBytes)
  }

  /** The whole sealing of `data`: the yielded stream, and the log afterwards. */
  function SealDocument(encrypt: Encryptor, ring: KeyRing, chunkBytes: nat, identity: DocumentIdentity,
                        data: Bytes, salt: Salt, nonces: nat -> Nonce, log: Log): (Stream, Log)
    requires chunkBytes > 0
  {
    var key := Derive(ring, ring.active, salt, identity);
    if key.Err? then (Stream([], Some(key.error)), log)
    else
      var header := HeaderOf(ring, salt, chunkBytes).ToBytes();
      if header.Err? then (Stream([], Some(header.error)), log)
      else
        var run := SealChunks(encrypt, key.value, identity, nonces, Chunks(data, chunkBytes), 0, log);
        (Stream([header.value] + run.frames, run.error), run.log)
  }

  // ---------------------------------------------------------------------------
  // Opening
  // ---------------------------------------------------------------------------

  /** Open a body held as one byte string. A frame is opened as non-final only when at least one
      more byte follows it. */
  function OpenFrames(log: Log, key: DataKey, identity: DocumentIdentity, body: Bytes, frameSize: nat, index: nat)
    : (s: Stream)
    requires frameSize > 0
    decreases |body|
  {
    var last := |body| <= frameSize;
    var aad := identity.Aad(PURPOSE_BODY, index, last);
    if aad.None? then Stream([], Some(FieldTooLong))
    else
      var chunk := OpenChunk(log, key, if last then body else body[..frameSize], aad.value);
      if chunk.Err? then Stream([], Some(chunk.error))
      else if last then Stream([chunk.value], None)
      else
        var rest := OpenFrames(log, key, identity, body[frameSize..], frameSize, index + 1);
        Stream([chunk.value] + rest.blocks, rest.error)
  }

  lemma OpenUnfold(log: Log, key: DataKey, identity: DocumentIdentity, buffer: Bytes, unread: Bytes,
                   frameSize: nat, index: nat)
    requires 0 < frameSize < |buffer|
    ensures var s := OpenFrames(log, key, identity, buffer + unread, frameSize, index);
            var aad := identity.Aad(PURPOSE_BODY, index, false);
            if aad.None? then s == Stream([], Some(FieldTooLong))
            else
              var chunk := OpenChunk(log, key, buffer[..frameSize], aad.value);
              if chunk.Err? then s == Stream([], Some(chunk.error))
              else
                var rest := OpenFrames(log, key, identity, buffer[frameSize..] + unread, frameSize, index + 1);
                s == Stream([chunk.value] + rest.blocks, rest.error)
  {
    hide DocumentIdentity.Aad, OpenChunk;
    assert (buffer + unread)[..frameSize] == buffer[..frameSize];
    assert (buffer + unread)[frameSize..] == buffer[frameSize..] + unread;
  }

  lemma OpenFinal(log: Log, key: DataKey, identity: DocumentIdentity, buffer: Bytes, frameSize: nat, index: nat)
    requires |buffer| <= frameSize && frameSize > 0
    ensures var s := OpenFrames(log, key, identity, buffer, frameSize, index);
            var aad := identity.Aad(PURPOSE_BODY, index, true);
            if aad.None? then s == Stream([], Some(FieldTooLong))
            else
              var chunk := OpenChunk(log, key, buffer, aad.value);
              s == if chunk.Err? then Stream([], Some(chunk.error)) else Stream([chunk.value], None)
  {
    hide DocumentIdentity.Aad, OpenChunk;
  }

  /** The first prefix of the input blocks long enough for the header to be parsed. */
  function HeaderBlocks(blocks: seq<Bytes>, k: nat): (r: Option<nat>)
    requires k <= |blocks|
    requires forall i :: 0 <= i < k ==> |Join(blocks[..i])| < MINIMUM_HEADER_BYTES
    ensures r.Some? ==> k <= r.value <= |blocks| && |Join(blocks[..r.value])| >= MINIMUM_HEADER_BYTES
    ensures r.Some? ==> forall i :: 0 <= i < r.value ==> |Join(blocks[..i])| < MINIMUM_HEADER_BYTES
    ensures r.None? ==> forall i :: 0 <= i <= |blocks| ==> |Join(blocks[..i])| < MINIMUM_HEADER_BYTES
    decreases |blocks| - k
  {
    if |Join(blocks[..k])| >= MINIMUM_HEADER_BYTES then Some(k)
    else if k == |blocks| then None
    else HeaderBlocks(blocks, k + 1)
  }

  /** The bytes the reader holds when it first parses the header. */
  function HeaderBuffer(blocks: seq<Bytes>): Option<Bytes> {
    var k := HeaderBlocks(blocks, 0);
    if k.None? then None else Some(Join(blocks[..k.value]))
  }

  /** The whole opening of a stream of ciphertext blocks. */
  function OpenDocument(log: Log, ring: KeyRing, identity: DocumentIdentity, blocks: seq<Bytes>): Stream {
    var k := HeaderBlocks(blocks, 0);
    if k.None? then Stream([], Some(HeaderTruncated))
    else
      var parsed := Parse(Join(blocks[..k.value]));
      if parsed.Err? then Stream([], Some(parsed.error))
      else
        var (header, consumed) := parsed.value;
        var key := Derive(ring, header.keyId, header.salt, identity);
        if key.Err? then Stream([], Some(key.error))
        else
          var body := Join(blocks[..k.value])[consumed..] + Join(blocks[k.value..]);
          OpenFrames(log, key.value, identity, body, FRAME_OVERHEAD + header.chunkBytes, 0)
  }

  // ---------------------------------------------------------------------------
  // Whole values
  // ---------------------------------------------------------------------------

  /** Seal one short value as a single-chunk document. */
  function SealValue(encrypt: Encryptor, ring: KeyRing, identity: DocumentIdentity, purpose: string,
                     plaintext: Bytes, salt: Salt, nonce: Nonce, log: Log): (Result<Bytes, DocumentError>, Log)
  {
    var key := Derive(ring, ring.active, salt, identity);
    if key.Err? then (Err(key.error), log)
    else
      var aad := identity.Aad(purpose, 0, true);
      if aad.None? then (Err(FieldTooLong), log)
      else
        var q := SealedQuery(encrypt, key.value, nonce, plaintext, aad.value);
        var header := HeaderOf(ring, salt, if |plaintext| > 1 then |plaintext| else 1).ToBytes();
        if header.Err? then (Err(header.error), log[q := plaintext])
        else (Ok(header.value + (nonce + q.ciphertext)), log[q := plaintext])
  }

  function OpenValue(log: Log, ring: KeyRing, identity: DocumentIdentity, purpose: string, raw: Bytes)
    : Result<Bytes, DocumentError>
  {
    var parsed := Parse(raw);
    if parsed.Err? then Err(parsed.error)
    else
      var (header, consumed) := parsed.value;
      var key := Derive(ring, header.keyId, header.salt, identity);
      if key.Err? then Err(key.error)
      else
        var aad := identity.Aad(purpose, 0, true);
        if aad.None? then Err(FieldTooLong)
        else OpenChunk(log, key.value, raw[consumed..], aad.value)
  }
}
