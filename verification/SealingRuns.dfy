/** Nonces and data keys over whole runs of sealing. */
module SealingRuns {
  import opened Wrappers
  import opened Bytes
  import opened DocumentFormat
  import opened SealedDocument
  import opened SealingLaws

  // ---------------------------------------------------------------------------
  // Each frame has a nonce of its own
  // ---------------------------------------------------------------------------

  /** Frame `i` of a sealed body: its own nonce, and its chunk encrypted under that nonce and the
      associated data of its place. */
  predicate IsFrame(encrypt: Encryptor, key: DataKey, identity: DocumentIdentity, nonces: nat -> Nonce,
                    chunks: seq<Bytes>, i: nat, frame: Bytes)
  {
    i < |chunks|
    && var aad := identity.Aad("body", i, i + 1 == |chunks|);
       aad.Some? && frame == nonces(i) + encrypt(key, nonces(i), chunks[i], aad.value)
  }

  lemma {:induction false} SealedFrames(encrypt: Encryptor, key: DataKey, identity: DocumentIdentity,
                                        nonces: nat -> Nonce, all: seq<Bytes>, index: nat, log: Log, i: nat)
    requires index < |all|
    requires i < |SealChunks(encrypt, key, identity, nonces, all[index..], index, log).frames|
    ensures IsFrame(encrypt, key, identity, nonces, all, index + i,
                    SealChunks(encrypt, key, identity, nonces, all[index..], index, log).frames[i])
    decreases |all| - index
  {
    hide DocumentIdentity.Aad, SealChunks;
    assert all[index..] == [all[index]] + all[index + 1..];
    SealUnfold(encrypt, key, identity, nonces, all[index], all[index + 1..], index, log);
    var aad := identity.Aad(PURPOSE_BODY, index, all[index + 1..] == []);
    var q := SealedQuery(encrypt, key, nonces(index), all[index], aad.value);
    if i > 0 {
      SealedFrames(encrypt, key, identity, nonces, all, index + 1, log[q := all[index]], i - 1);
    }
  }

  /** A sealed document is its header and then frame after frame, frame `i` under nonce `i`. */
  lemma DocumentFrames(encrypt: Encryptor, ring: KeyRing, chunkBytes: nat, identity: DocumentIdentity,
                       data: Bytes, salt: Salt, nonces: nat -> Nonce, log: Log, i: nat)
    requires chunkBytes > 0
    requires i + 1 < |SealDocument(encrypt, ring, chunkBytes, identity, data, salt, nonces, log).0.blocks|
    ensures var key := Derive(ring, ring.active, salt, identity);
            var frame := SealDocument(encrypt, ring, chunkBytes, identity, data, salt, nonces, log).0.blocks[i + 1];
            key.Ok? && |frame| >= 12 && frame[..12] == nonces(i)
            && IsFrame(encrypt, key.value, identity, nonces, Chunks(data, chunkBytes), i, frame)
  {
    hide DocumentIdentity.Aad, DocumentIdentity.Info, SealChunks, Chunks, DocumentHeader.ToBytes;
    var chunks := Chunks(data, chunkBytes);
    assert chunks[0..] == chunks;
    SealedFrames(encrypt, Derive(ring, ring.active, salt, identity).value, identity, nonces, chunks, 0, log, i);
  }

  /** No nonce is used twice under one data key. */
  ghost predicate OneUse(log: Log) {
    forall p, q :: p in log && q in log && p.key == q.key && p.nonce == q.nonce ==> p == q
  }

  ghost predicate Distinct(nonces: nat -> Nonce, from: nat, to: nat) {
    forall i: nat, j: nat :: from <= i < j < to ==> nonces(i) != nonces(j)
  }

  /** Nothing was encrypted under this key with any of these nonces. */
  ghost predicate Unspent(log: Log, key: DataKey, nonces: nat -> Nonce, from: nat, to: nat) {
    forall q, i: nat :: q in log && q.key == key && from <= i < to ==> q.nonce != nonces(i)
  }

  lemma {:induction false} ChunksUseOnce(encrypt: Encryptor, key: DataKey, identity: DocumentIdentity,
                                         nonces: nat -> Nonce, chunks: seq<Bytes>, index: nat, log: Log)
    requires chunks != [] && OneUse(log) && Distinct(nonces, index, index + |chunks|)
    requires Unspent(log, key, nonces, index, index + |chunks|)
    ensures OneUse(SealChunks(encrypt, key, identity, nonces, chunks, index, log).log)
    decreases |chunks|
  {
    hide DocumentIdentity.Aad, SealChunks;
    var tail := chunks[1..];
    assert chunks == [chunks[0]] + tail;
    SealUnfold(encrypt, key, identity, nonces, chunks[0], tail, index, log);
    var aad := identity.Aad(PURPOSE_BODY, index, tail == []);
    if aad.Some? {
      var q := SealedQuery(encrypt, key, nonces(index), chunks[0], aad.value);
      var log' := log[q := chunks[0]];
      assert OneUse(log');
      if tail != [] {
        ChunksUseOnce(encrypt, key, identity, nonces, tail, index + 1, log');
      }
    }
  }

  // ---------------------------------------------------------------------------
  // Data keys
  // ---------------------------------------------------------------------------

  /** A data key is derived from the ring's key of that id, this salt, and the tenant, user and document of
      this identity; so equal data keys come from equal ones. */
  lemma DerivedKeysSeparate(ringA: KeyRing, idA: string, saltA: Bytes, a: DocumentIdentity,
                            ringB: KeyRing, idB: string, saltB: Bytes, b: DocumentIdentity)
    requires Derive(ringA, idA, saltA, a).Ok? && Derive(ringA, idA, saltA, a) == Derive(ringB, idB, saltB, b)
    ensures idA in ringA.ids && idA == idB && saltA == saltB
    ensures a.tenantId == b.tenantId && a.userId == b.userId && a.documentId == b.documentId
  {
    hide DocumentIdentity.Info;
    InfoInjective(a, b);
  }

  // ---------------------------------------------------------------------------
  // Whole runs
  // ---------------------------------------------------------------------------

  /** Sealing a document or a single value. Salt and nonces are the random bytes it draws. */
  datatype SealOp =
    | SealDoc(ring: KeyRing, chunkBytes: nat, identity: DocumentIdentity, data: Bytes, salt: Salt, nonces: nat -> Nonce)
    | SealOne(ring: KeyRing, identity: DocumentIdentity, purpose: string, plaintext: Bytes, salt: Salt, nonce: Nonce)

  /** The cipher's log, the bodies sealed per data key, and the salts drawn per ring key. */
  datatype Books = Books(log: Log, ledger: Ledger, drawn: set<(string, Bytes)>)

  /** A salt never drawn before with this ring key, and nonces that differ within the document. */
  ghost predicate Legal(b: Books, op: SealOp) {
    && (op.ring.active, op.salt) !in b.drawn
    && (op.SealDoc? ==> op.chunkBytes > 0 && Distinct(op.nonces, 0, |Chunks(op.data, op.chunkBytes)|))
  }

  ghost function Applied(encrypt: Encryptor, b: Books, op: SealOp): Books
    requires Legal(b, op)
  {
    var key := Derive(op.ring, op.ring.active, op.salt, op.identity);
    var drawn := b.drawn + {(op.ring.active, op.salt)};
    match op
    case SealDoc(ring, chunkBytes, identity, data, salt, nonces) =>
      var log := SealDocument(encrypt, ring, chunkBytes, identity, data, salt, nonces, b.log).1;
      var sealing := Sealing(identity, "body", Chunks(data, chunkBytes));
      Books(log, if key.Ok? then b.ledger[key.value := sealing] else b.ledger, drawn)
    case SealOne(ring, identity, purpose, plaintext, salt, nonce) =>
      var log := SealValue(encrypt, ring, identity, purpose, plaintext, salt, nonce, b.log).1;
      var sealing := Sealing(identity, purpose, [plaintext]);
      Books(log, if key.Ok? then b.ledger[key.value := sealing] else b.ledger, drawn)
  }

  /** The log holds exactly chunks of the ledger's bodies, no nonce is used twice under a key, and every
      data key comes from a salt that was drawn. */
  ghost predicate Kept(b: Books) {
    && Accounts(b.ledger, b.log) && OneUse(b.log)
    && forall k :: k in b.ledger ==> (k.keyId, k.salt) in b.drawn
  }

  lemma ValueUsesOnce(encrypt: Encryptor, ring: KeyRing, identity: DocumentIdentity, purpose: string,
                      plaintext: Bytes, salt: Salt, nonce: Nonce, log: Log)
    requires OneUse(log)
    requires var key := Derive(ring, ring.active, salt, identity);
             key.Ok? ==> forall q :: q in log ==> q.key != key.value
    ensures OneUse(SealValue(encrypt, ring, identity, purpose, plaintext, salt, nonce, log).1)
  {
    hide DocumentIdentity.Aad, DocumentIdentity.Info, DocumentHeader.ToBytes;
  }

  lemma DocumentUsesOnce(encrypt: Encryptor, ring: KeyRing, chunkBytes: nat, identity: DocumentIdentity,
                         data: Bytes, salt: Salt, nonces: nat -> Nonce, log: Log)
    requires chunkBytes > 0 && OneUse(log) && Distinct(nonces, 0, |Chunks(data, chunkBytes)|)
    requires var key := Derive(ring, ring.active, salt, identity);
             key.Ok? ==> forall q :: q in log ==> q.key != key.value
    ensures OneUse(SealDocument(encrypt, ring, chunkBytes, identity, data, salt, nonces, log).1)
  {
    hide DocumentIdentity.Aad, DocumentIdentity.Info, SealChunks, Chunks, DocumentHeader.ToBytes, OneUse;
    var key := Derive(ring, ring.active, salt, identity);
    if key.Ok? {
      ChunksUseOnce(encrypt, key.value, identity, nonces, Chunks(data, chunkBytes), 0, log);
    }
  }

  lemma FreshSaltFreshKey(b: Books, op: SealOp)
    requires Kept(b) && Legal(b, op)
    ensures var key := Derive(op.ring, op.ring.active, op.salt, op.identity);
            key.Ok? ==> key.value !in b.ledger && (key.value.keyId, key.value.salt) == (op.ring.active, op.salt)
                        && forall q :: q in b.log ==> q.key != key.value
  {
    hide DocumentIdentity.Info, IsChunkOf;
  }

  lemma StepKept(encrypt: Encryptor, b: Books, op: SealOp)
    requires Kept(b) && Legal(b, op)
    ensures Kept(Applied(encrypt, b, op))
  {
    hide SealDocument, SealValue, Derive, Accounts, OneUse, Distinct;
    FreshSaltFreshKey(b, op);
    match op
    case SealDoc(ring, chunkBytes, identity, data, salt, nonces) =>
      SealDocumentAccounted(encrypt, ring, chunkBytes, identity, data, salt, nonces, b.log, b.ledger);
      DocumentUsesOnce(encrypt, ring, chunkBytes, identity, data, salt, nonces, b.log);
    case SealOne(ring, identity, purpose, plaintext, salt, nonce) =>
      SealValueAccounted(encrypt, ring, identity, purpose, plaintext, salt, nonce, b.log, b.ledger);
      ValueUsesOnce(encrypt, ring, identity, purpose, plaintext, salt, nonce, b.log);
  }

  ghost predicate LegalRun(encrypt: Encryptor, b: Books, ops: seq<SealOp>)
    decreases |ops|
  {
    |ops| == 0 || (Legal(b, ops[0]) && LegalRun(encrypt, Applied(encrypt, b, ops[0]), ops[1..]))
  }

  ghost function Run(encrypt: Encryptor, b: Books, ops: seq<SealOp>): Books
    requires LegalRun(encrypt, b, ops)
    decreases |ops|
  {
    if |ops| == 0 then b else Run(encrypt, Applied(encrypt, b, ops[0]), ops[1..])
  }

  const NO_BOOKS := Books(map[], map[], {})

  lemma {:induction false} RunKept(encrypt: Encryptor, b: Books, ops: seq<SealOp>)
    requires Kept(b) && LegalRun(encrypt, b, ops)
    ensures Kept(Run(encrypt, b, ops))
    decreases |ops|
  {
    hide Kept, Legal, Applied;
    if |ops| > 0 {
      StepKept(encrypt, b, ops[0]);
      RunKept(encrypt, Applied(encrypt, b, ops[0]), ops[1..]);
    }
  }

  /** Over any run of sealings, of documents and values, for any tenants and with any ring keys: if no salt
      is drawn twice with a ring key and nonces differ within each document, no nonce is ever used twice
      under one data key, and whatever the log holds is a chunk of the one body sealed under its key. */
  lemma NonceUsedOnce(encrypt: Encryptor, ops: seq<SealOp>, p: Query, q: Query)
    requires LegalRun(encrypt, NO_BOOKS, ops)
    ensures var b := Run(encrypt, NO_BOOKS, ops);
            Accounts(b.ledger, b.log)
            && (p in b.log && q in b.log && p.key == q.key && p.nonce == q.nonce ==> p == q)
  {
    hide LegalRun, Run;
    RunKept(encrypt, NO_BOOKS, ops);
  }
}
