/** From raw recognizer hits to the detector's public result. */
module Postprocess {
  import opened Wrappers
  import opened Domain
  import opened Ordering
  import opened Overlap

  /** An unvalidated recognizer hit: any range, any score. */
  datatype Candidate = Candidate(entityType: string, start: int, end: int, score: real, recognizer: Option<string>)

  /** Detector tuning. `isAllowlisted` and `isValueOf` stand for the allowlist and the per-type value
      validators (a Luhn check, say), neither of which is modelled further. */
  datatype DetectionConfig = DetectionConfig(
    allowedTypes: set<string>,
    thresholdFor: string -> real,
    priority: Priority,
    maxEntities: int,
    isAllowlisted: string -> bool,
    isValueOf: (string, string) -> bool)

  /** The filters `finalize` applies to one candidate, in its order. */
  predicate Survives(c: Candidate, text: string, config: DetectionConfig) {
    && c.entityType in config.allowedTypes
    && 0 <= c.start < c.end <= |text|
    && config.isValueOf(c.entityType, text[c.start..c.end])
    && !config.isAllowlisted(text[c.start..c.end])
    && c.score >= config.thresholdFor(c.entityType)
  }

  function Clamp(score: real): (r: real)
    ensures 0.0 <= r <= 1.0
  {
    if score < 0.0 then 0.0 else if score > 1.0 then 1.0 else score
  }

  function AsEntity(c: Candidate): Entity
    requires 0 <= c.start < c.end
  {
    DetectedEntity(c.entityType, c.start, c.end, Clamp(c.score), c.recognizer)
  }

  function Surviving(candidates: seq<Candidate>, text: string, config: DetectionConfig): seq<Entity> {
    if candidates == [] then []
    else
      (if Survives(candidates[0], text, config) then [AsEntity(candidates[0])] else [])
      + Surviving(candidates[1..], text, config)
  }

  function WithoutRecognizer(e: Entity): Entity {
    DetectedEntity(e.entityType, e.start, e.end, e.score, None)
  }

  function Stripped(entities: seq<Entity>): (r: seq<Entity>)
    ensures |r| == |entities|
    ensures forall i :: 0 <= i < |r| ==> r[i] == WithoutRecognizer(entities[i])
  {
    seq(|entities|, i requires 0 <= i < |entities| => WithoutRecognizer(entities[i]))
  }

  function Finalized(candidates: seq<Candidate>, text: string, config: DetectionConfig, diagnostic: bool)
    : Result<seq<Entity>, GatewayError>
  {
    var resolved := Resolved(config.priority, Surviving(candidates, text, config));
    if |resolved| > config.maxEntities then Err(EntityLimitExceeded)
    else Ok(if diagnostic then resolved else Stripped(resolved))
  }

  method Finalize(candidates: seq<Candidate>, text: string, config: DetectionConfig, diagnostic: bool)
    returns (result: Result<seq<Entity>, GatewayError>)
    ensures result == Finalized(candidates, text, config, diagnostic)
  {
    hide Survives, Resolved;
    var kept: seq<Entity> := [];
    assert candidates[0..] == candidates;
    for i := 0 to |candidates|
      invariant Surviving(candidates, text, config) == kept + Surviving(candidates[i..], text, config)
    {
      var candidate := candidates[i];
      assert candidates[i..] == [candidate] + candidates[i + 1..];
      if !Survives(candidate, text, config) {
        continue;
      }
      SurvivorIsEntity(candidate, text, config);
      kept := kept + [AsEntity(candidate)];
    }
    assert kept + Surviving(candidates[|candidates|..], text, config) == kept;
    var resolved := ResolveOverlaps(kept, config.priority);
    if |resolved| > config.maxEntities {
      return Err(EntityLimitExceeded);
    }
    result := Ok(if diagnostic then resolved else Stripped(resolved));
  }

  lemma SurvivorIsEntity(c: Candidate, text: string, config: DetectionConfig)
    requires Survives(c, text, config)
    ensures 0 <= c.start < c.end <= |text|
  {
  }

  ghost predicate ComesFrom(candidates: seq<Candidate>, text: string, config: DetectionConfig, e: Entity) {
    exists c :: c in candidates && Survives(c, text, config) && AsEntity(c) == e
  }

  lemma {:induction false} SurvivingMembers(candidates: seq<Candidate>, text: string, config: DetectionConfig,
                                            e: Entity)
    ensures e in Surviving(candidates, text, config) <==> ComesFrom(candidates, text, config, e)
  {
    if candidates != [] {
      SurvivingMembers(candidates[1..], text, config, e);
      assert forall c :: c in candidates <==> c == candidates[0] || c in candidates[1..];
    }
  }

  /** A span the detector may report: in the text, of an enabled type, with a valid value that is
      not allowlisted, and confident enough. */
  predicate IsReportable(e: Entity, text: string, config: DetectionConfig) {
    && e.end <= |text|
    && e.entityType in config.allowedTypes
    && config.isValueOf(e.entityType, text[e.start..e.end])
    && !config.isAllowlisted(text[e.start..e.end])
    && (config.thresholdFor(e.entityType) <= 1.0 ==> e.score >= config.thresholdFor(e.entityType))
  }

  lemma SurvivorsAreReportable(candidates: seq<Candidate>, text: string, config: DetectionConfig, e: Entity)
    requires e in Surviving(candidates, text, config)
    ensures IsReportable(e, text, config) && IsReportable(WithoutRecognizer(e), text, config)
  {
    SurvivingMembers(candidates, text, config, e);
  }

  /** Everything reported is reportable, and overlaps nothing else reported. */
  lemma FinalizedIsReportable(candidates: seq<Candidate>, text: string, config: DetectionConfig, diagnostic: bool)
    requires Finalized(candidates, text, config, diagnostic).Ok?
    ensures var r := Finalized(candidates, text, config, diagnostic).value;
            Ascending(r) && |r| <= config.maxEntities && forall e :: e in r ==> IsReportable(e, text, config)
  {
    hide Resolved, Surviving, IsReportable, IsKernel;
    var kept := Surviving(candidates, text, config);
    var resolved := Resolved(config.priority, kept);
    ResolvedIsKernel(config.priority, kept);
    KernelFromCandidates(config.priority, kept, resolved);
    var r := Finalized(candidates, text, config, diagnostic).value;
    forall e | e in r
      ensures IsReportable(e, text, config)
    {
      var i :| 0 <= i < |r| && r[i] == e;
      assert resolved[i] in resolved;
      SurvivorsAreReportable(candidates, text, config, resolved[i]);
    }
    forall i, j | 0 <= i < j < |r|
      ensures r[i].end <= r[j].start
    {
      assert resolved[i].end <= resolved[j].start;
    }
  }

  /** A hit that every filter lets pass: an enabled type, a span of at least one character inside the text,
      its very end included, a valid value that is not allowlisted, and a score that reaches the
      threshold of its type. */
  predicate Qualifies(c: Candidate, text: string, config: DetectionConfig) {
    && c.entityType in config.allowedTypes && 0 <= c.start && c.start < c.end && c.end <= |text|
    && config.isValueOf(c.entityType, text[c.start..c.end]) && !config.isAllowlisted(text[c.start..c.end])
    && config.thresholdFor(c.entityType) <= c.score
  }

  /** `e` is hit `c` as reported. */
  predicate Reports(e: Entity, c: Candidate, diagnostic: bool) {
    && e.entityType == c.entityType && e.start == c.start && e.end == c.end
    && e.score == (if c.score < 0.0 then 0.0 else if c.score > 1.0 then 1.0 else c.score)
    && e.recognizer == if diagnostic then c.recognizer else None
  }

  /** `e` is reported in place of `c`: it shares a character with it and is ranked no lower by severity,
      score, length, start and type name. */
  predicate Displaces(e: Entity, c: Candidate, config: DetectionConfig) {
    var severityE := if e.entityType in config.priority then config.priority[e.entityType] else 0;
    var severityC := if c.entityType in config.priority then config.priority[c.entityType] else 0;
    var score := if c.score < 0.0 then 0.0 else if c.score > 1.0 then 1.0 else c.score;
    && e.start < c.end && c.start < e.end
    && if severityE != severityC then severityE > severityC
       else if e.score != score then e.score > score
       else if e.end - e.start != c.end - c.start then e.end - e.start > c.end - c.start
       else if e.start != c.start then e.start < c.start
       else StringLeq(e.entityType, c.entityType)
  }

  lemma BeatenIsDisplaced(e: Entity, c: Candidate, config: DetectionConfig)
    requires 0 <= c.start < c.end && Beats(config.priority, e, AsEntity(c))
    ensures Displaces(e, c, config) && Displaces(WithoutRecognizer(e), c, config)
  {
    hide StringLeq;
    StringLeqSelf(e.entityType);
  }

  lemma StringLeqSelf(s: string)
    ensures StringLeq(s, s)
  {
    StringLeqTotal(s, s);
  }

  /** Nothing is reported but qualifying hits, and every qualifying hit is reported or displaced by one
      that is. */
  lemma FinalizedIsComplete(candidates: seq<Candidate>, text: string, config: DetectionConfig, diagnostic: bool)
    requires Finalized(candidates, text, config, diagnostic).Ok?
    ensures var r := Finalized(candidates, text, config, diagnostic).value;
            && (forall e :: e in r ==>
                  exists c :: c in candidates && Qualifies(c, text, config) && Reports(e, c, diagnostic))
            && forall c :: c in candidates && Qualifies(c, text, config) ==>
                 exists e :: e in r && Displaces(e, c, config)
  {
    hide Resolved, Surviving, IsKernel, Beats, Displaces;
    var kept := Surviving(candidates, text, config);
    var resolved := Resolved(config.priority, kept);
    ResolvedIsKernel(config.priority, kept);
    KernelFromCandidates(config.priority, kept, resolved);
    var r := Finalized(candidates, text, config, diagnostic).value;
    forall e | e in r
      ensures exists c :: c in candidates && Qualifies(c, text, config) && Reports(e, c, diagnostic)
    {
      var i :| 0 <= i < |r| && r[i] == e;
      assert resolved[i] in resolved;
      SurvivingMembers(candidates, text, config, resolved[i]);
      var c :| c in candidates && Survives(c, text, config) && AsEntity(c) == resolved[i];
      assert Qualifies(c, text, config) && Reports(e, c, diagnostic);
    }
    forall c | c in candidates && Qualifies(c, text, config)
      ensures exists e :: e in r && Displaces(e, c, config)
    {
      assert Survives(c, text, config);
      SurvivingMembers(candidates, text, config, AsEntity(c));
      assert ComesFrom(candidates, text, config, AsEntity(c));
      KernelBeats(config.priority, kept, resolved, AsEntity(c));
      var k :| k in resolved && Beats(config.priority, k, AsEntity(c));
      BeatenIsDisplaced(k, c, config);
      var i :| 0 <= i < |resolved| && resolved[i] == k;
      assert r[i] in r;
    }
  }

  lemma KernelBeats(priority: Priority, candidates: seq<Entity>, kept: seq<Entity>, c: Entity)
    requires IsKernel(priority, candidates, kept) && c in candidates
    ensures exists k :: k in kept && Beats(priority, k, c)
  {
    assert BeatenBy(priority, kept, c);
  }

  /** The cap refuses a result exactly when, without it, more entities than it allows would be reported. */
  lemma CapExact(candidates: seq<Candidate>, text: string, config: DetectionConfig, diagnostic: bool, roomy: int)
    requires Finalized(candidates, text, config.(maxEntities := roomy), diagnostic).Ok?
    ensures var uncapped := Finalized(candidates, text, config.(maxEntities := roomy), diagnostic);
            Finalized(candidates, text, config, diagnostic) ==
            if |uncapped.value| > config.maxEntities then Err(EntityLimitExceeded) else uncapped
  {
    hide Resolved;
    SameSurvivors(candidates, text, config, roomy);
  }

  lemma {:induction false} SameSurvivors(candidates: seq<Candidate>, text: string, config: DetectionConfig, roomy: int)
    ensures Surviving(candidates, text, config.(maxEntities := roomy)) == Surviving(candidates, text, config)
  {
    if candidates != [] {
      SameSurvivors(candidates[1..], text, config, roomy);
    }
  }

  lemma KernelFromCandidates(priority: Priority, candidates: seq<Entity>, kept: seq<Entity>)
    requires IsKernel(priority, candidates, kept)
    ensures forall k :: k in kept ==> k in candidates
  {
  }

  /** Without diagnostics the result, errors included, does not depend on the order or multiplicity
      in which recognizers reported their hits. */
  lemma FinalizedIgnoresOrder(a: seq<Candidate>, b: seq<Candidate>, text: string, config: DetectionConfig)
    requires forall c :: c in a <==> c in b
    ensures Finalized(a, text, config, false) == Finalized(b, text, config, false)
  {
    hide Resolved, Surviving;
    var ka, kb := Surviving(a, text, config), Surviving(b, text, config);
    forall e: Entity
      ensures e in ka <==> e in kb
    {
      SurvivingMembers(a, text, config, e);
      SurvivingMembers(b, text, config, e);
    }
    ResolvedIgnoresOrder(config.priority, ka, kb);
    var ra, rb := Resolved(config.priority, ka), Resolved(config.priority, kb);
    forall i | 0 <= i < |ra|
      ensures WithoutRecognizer(ra[i]) == WithoutRecognizer(rb[i])
    {
      assert SameKey(ra[i], rb[i]);
    }
    assert Stripped(ra) == Stripped(rb);
  }
}
