/** Versioned policies: drafts, publication, and what the database's constraints keep. */
module PolicyLifecycle {
  import opened Wrappers
  import opened Identifiers

  datatype Status = Draft | Published

  datatype Policy = Policy(
    tenantId: Uuid, name: string, version: int, document: string,
    isActive: bool, status: Status, publishedAt: Option<int>)

  /** The policies table, by primary key. */
  type Rows = map<Uuid, Policy>

  predicate Named(p: Policy, tenant: Uuid, name: string) {
    p.tenantId == tenant && p.name == name
  }

  predicate IsDraft(rows: Rows, id: Uuid, tenant: Uuid, name: string) {
    id in rows && Named(rows[id], tenant, name) && rows[id].status == Draft
  }

  // ---------------------------------------------------------------------------
  // Constraints
  // ---------------------------------------------------------------------------

  predicate SameNumber(p: Policy, q: Policy) {
    Named(p, q.tenantId, q.name) && p.version == q.version
  }

  predicate BothDrafts(p: Policy, q: Policy) {
    Named(p, q.tenantId, q.name) && p.status == Draft && q.status == Draft
  }

  /** uq_policies_tenant_id_name_version */
  ghost predicate VersionsUnique(rows: Rows) {
    forall i, j :: i in rows && j in rows && SameNumber(rows[i], rows[j]) ==> i == j
  }

  /** uq_policies_one_draft_per_name */
  ghost predicate OneDraft(rows: Rows) {
    forall i, j :: i in rows && j in rows && BothDrafts(rows[i], rows[j]) ==> i == j
  }

  ghost predicate WellFormed(rows: Rows) {
    && VersionsUnique(rows) && OneDraft(rows)
    && forall i :: i in rows ==> Complete(rows[i])
  }

  /** Check constraints, and a publication time exactly when published. */
  predicate Complete(p: Policy) {
    p.version >= 1 && (p.status == Published <==> p.publishedAt.Some?)
  }

  /** An insert the constraints accept. */
  predicate Admits(rows: Rows, id: Uuid, p: Policy) {
    && id !in rows && p.version >= 1
    && (forall i :: i in rows && Named(rows[i], p.tenantId, p.name) ==> rows[i].version != p.version)
    && (p.status == Draft ==> forall i :: i in rows ==> !IsDraft(rows, i, p.tenantId, p.name))
  }

  /** IntegrityError leaves the table as it was. */
  function Inserted(rows: Rows, id: Uuid, p: Policy): (Rows, bool) {
    if Admits(rows, id, p) then (rows[id := p], true) else (rows, false)
  }

  /** The number a new draft would take: one above the highest version of any status. */
  ghost predicate IsNextVersion(rows: Rows, tenant: Uuid, name: string, v: int) {
    && v >= 1
    && (forall i :: i in rows && Named(rows[i], tenant, name) ==> rows[i].version < v)
    && (v == 1 || exists i :: i in rows && Named(rows[i], tenant, name) && rows[i].version == v - 1)
  }

  // ---------------------------------------------------------------------------
  // Operations
  // ---------------------------------------------------------------------------

  function NewDraft(tenant: Uuid, name: string, version: int, document: string): Policy {
    Policy(tenant, name, version, document, false, Draft, None)
  }

  /** The open draft; the constraint leaves at most one. */
  ghost function DraftOf(rows: Rows, tenant: Uuid, name: string): Option<Uuid> {
    if id :| IsDraft(rows, id, tenant, name) then Some(id) else None
  }

  function Edited(rows: Rows, id: Uuid, document: string): Rows
    requires id in rows
  {
    rows[id := rows[id].(document := document)]
  }

  /** UPDATE ... SET is_active = false WHERE the name matches and the id does not. */
  function Deactivated(rows: Rows, id: Uuid, tenant: Uuid, name: string): (r: Rows)
    ensures r.Keys == rows.Keys
    ensures forall i :: i in rows ==> r[i] == rows[i] || r[i] == rows[i].(isActive := false)
  {
    map i | i in rows :: if i != id && Named(rows[i], tenant, name) then rows[i].(isActive := false) else rows[i]
  }

  /** Only `id` stays active among the rows of its name. */
  function Activated(rows: Rows, id: Uuid): Rows
    requires id in rows
  {
    var others := Deactivated(rows, id, rows[id].tenantId, rows[id].name);
    others[id := others[id].(isActive := true)]
  }

  function PublishedRows(rows: Rows, id: Uuid, now: int): Rows
    requires id in rows
  {
    var others := Deactivated(rows, id, rows[id].tenantId, rows[id].name);
    others[id := others[id].(status := Published, isActive := true, publishedAt := Some(now))]
  }

  class PolicyRepository {
    var rows: Rows

    ghost predicate Valid()
      reads this
    {
      WellFormed(rows)
    }

    constructor ()
      ensures Valid() && rows == map[]
    {
      rows := map[];
    }

    method GetDraft(tenant: Uuid, name: string) returns (id: Option<Uuid>)
      requires Valid()
      ensures id == DraftOf(rows, tenant, name)
    {
      if found :| found in rows && IsDraft(rows, found, tenant, name) {
        return Some(found);
      }
      return None;
    }

    method NextVersion(tenant: Uuid, name: string) returns (v: int)
      requires Valid()
      ensures IsNextVersion(rows, tenant, name, v)
    {
      var highest := 0;
      var left := rows.Keys;
      while left != {}
        invariant left <= rows.Keys && highest >= 0
        invariant forall i :: i in rows.Keys - left && Named(rows[i], tenant, name) ==> rows[i].version <= highest
        invariant highest == 0 || exists i :: i in rows && Named(rows[i], tenant, name) && rows[i].version == highest
        decreases left
      {
        var i :| i in left;
        left := left - {i};
        if Named(rows[i], tenant, name) && rows[i].version > highest {
          highest := rows[i].version;
        }
      }
      v := highest + 1;
    }

    /** Opens a draft at the next version; refused when one is open already. */
    method CreateDraft(id: Uuid, tenant: Uuid, name: string, document: string) returns (version: int, created: bool)
      requires Valid() && id !in rows
      modifies this
      ensures Valid()
      ensures IsNextVersion(old(rows), tenant, name, version)
      ensures (rows, created) == Inserted(old(rows), id, NewDraft(tenant, name, version, document))
      ensures created <==> DraftOf(old(rows), tenant, name).None?
    {
      version := NextVersion(tenant, name);
      var p := NewDraft(tenant, name, version, document);
      InsertWellFormed(rows, id, p);
      created := Admits(rows, id, p);
      if created {
        rows := rows[id := p];
      }
    }

    method UpdateDraft(tenant: Uuid, name: string, document: string) returns (found: bool)
      requires Valid()
      modifies this
      ensures Valid()
      ensures var id := DraftOf(old(rows), tenant, name);
              found == id.Some? && rows == if id.Some? then Edited(old(rows), id.value, document) else old(rows)
    {
      var id := GetDraft(tenant, name);
      if id.None? {
        return false;
      }
      EditWellFormed(rows, id.value, document);
      rows := Edited(rows, id.value, document);
      return true;
    }

    method DiscardDraft(tenant: Uuid, name: string) returns (found: bool)
      requires Valid()
      modifies this
      ensures Valid()
      ensures var id := DraftOf(old(rows), tenant, name);
              found == id.Some? && rows == if id.Some? then old(rows) - {id.value} else old(rows)
    {
      var id := GetDraft(tenant, name);
      if id.None? {
        return false;
      }
      rows := rows - {id.value};
      return true;
    }

    method PublishDraft(tenant: Uuid, name: string, now: int) returns (found: bool)
      requires Valid()
      modifies this
      ensures Valid()
      ensures var id := DraftOf(old(rows), tenant, name);
              found == id.Some? && rows == if id.Some? then PublishedRows(old(rows), id.value, now) else old(rows)
    {
      var id := GetDraft(tenant, name);
      if id.None? {
        return false;
      }
      PublishWellFormed(rows, id.value, now);
      rows := Deactivated(rows, id.value, tenant, name);
      rows := rows[id.value := rows[id.value].(status := Published, isActive := true, publishedAt := Some(now))];
      return true;
    }

    /** A finished version, published on creation. */
    method CreateVersion(id: Uuid, tenant: Uuid, name: string, version: int, document: string, isActive: bool, now: int)
      returns (created: bool)
      requires Valid() && id !in rows && version >= 1
      modifies this
      ensures Valid()
      ensures (rows, created)
           == Inserted(old(rows), id, Policy(tenant, name, version, document, isActive, Published, Some(now)))
    {
      var p := Policy(tenant, name, version, document, isActive, Published, Some(now));
      InsertWellFormed(rows, id, p);
      created := Admits(rows, id, p);
      if created {
        rows := rows[id := p];
      }
    }

    method Activate(tenant: Uuid, id: Uuid) returns (found: bool)
      requires Valid()
      modifies this
      ensures Valid()
      ensures found <==> id in old(rows) && old(rows)[id].tenantId == tenant
      ensures rows ==
              if id in old(rows) && old(rows)[id].tenantId == tenant then Activated(old(rows), id) else old(rows)
    {
      if id !in rows || rows[id].tenantId != tenant {
        return false;
      }
      ActivateWellFormed(rows, id);
      rows := Activated(rows, id);
      return true;
    }
  }

  // ---------------------------------------------------------------------------
  // Constraints hold after every operation
  // ---------------------------------------------------------------------------

  lemma InsertWellFormed(rows: Rows, id: Uuid, p: Policy)
    requires WellFormed(rows) && (p.status == Published <==> p.publishedAt.Some?)
    ensures WellFormed(Inserted(rows, id, p).0)
  {
  }

  lemma EditWellFormed(rows: Rows, id: Uuid, document: string)
    requires WellFormed(rows) && id in rows
    ensures WellFormed(Edited(rows, id, document))
  {
  }

  /** Moves that keep names and numbers, and make no draft, keep the constraints. */
  lemma MovesWellFormed(rows: Rows, after: Rows)
    requires WellFormed(rows) && after.Keys == rows.Keys
    requires forall i :: i in rows ==> SameNumber(after[i], rows[i]) && Complete(after[i])
    requires forall i :: i in rows && after[i].status == Draft ==> rows[i].status == Draft
    ensures WellFormed(after)
  {
    forall i, j | i in after && j in after && SameNumber(after[i], after[j])
      ensures i == j
    {
      assert SameNumber(rows[i], rows[j]);
    }
    forall i, j | i in after && j in after && BothDrafts(after[i], after[j])
      ensures i == j
    {
      assert BothDrafts(rows[i], rows[j]);
    }
  }

  lemma ActivateWellFormed(rows: Rows, id: Uuid)
    requires WellFormed(rows) && id in rows
    ensures WellFormed(Activated(rows, id))
  {
    hide VersionsUnique, OneDraft, Deactivated;
    MovesWellFormed(rows, Activated(rows, id));
  }

  lemma PublishWellFormed(rows: Rows, id: Uuid, now: int)
    requires WellFormed(rows) && id in rows
    ensures WellFormed(PublishedRows(rows, id, now))
  {
    hide VersionsUnique, OneDraft, Deactivated;
    MovesWellFormed(rows, PublishedRows(rows, id, now));
  }

  // ---------------------------------------------------------------------------
  // Whole runs
  // ---------------------------------------------------------------------------

  /** `version` is what the caller read as the next one, perhaps before others wrote. */
  datatype Op =
    | Create(id: Uuid, tenant: Uuid, name: string, version: int, document: string)
    | Update(tenant: Uuid, name: string, document: string)
    | Discard(tenant: Uuid, name: string)
    | Publish(tenant: Uuid, name: string, now: int)
    | Mint(id: Uuid, tenant: Uuid, name: string, version: int, document: string, isActive: bool, now: int)
    | Activate(id: Uuid)

  ghost function Apply(rows: Rows, op: Op): Rows {
    match op
    case Create(id, tenant, name, version, document) => Inserted(rows, id, NewDraft(tenant, name, version, document)).0
    case Update(tenant, name, document) =>
      var id := DraftOf(rows, tenant, name); if id.Some? then Edited(rows, id.value, document) else rows
    case Discard(tenant, name) =>
      var id := DraftOf(rows, tenant, name); if id.Some? then rows - {id.value} else rows
    case Publish(tenant, name, now) =>
      var id := DraftOf(rows, tenant, name); if id.Some? then PublishedRows(rows, id.value, now) else rows
    case Mint(id, tenant, name, version, document, isActive, now) =>
      Inserted(rows, id, Policy(tenant, name, version, document, isActive, Published, Some(now))).0
    case Activate(id) => if id in rows then Activated(rows, id) else rows
  }

  lemma ApplyWellFormed(rows: Rows, op: Op)
    requires WellFormed(rows)
    ensures WellFormed(Apply(rows, op))
  {
    hide VersionsUnique, OneDraft, Inserted, Activated, PublishedRows, Edited;
    match op
    case Create(id, tenant, name, version, document) =>
      InsertWellFormed(rows, id, NewDraft(tenant, name, version, document));
    case Update(tenant, name, document) =>
      if DraftOf(rows, tenant, name).Some? { EditWellFormed(rows, DraftOf(rows, tenant, name).value, document); }
    case Discard(tenant, name) => RemoveWellFormed(rows, DraftOf(rows, tenant, name));
    case Publish(tenant, name, now) =>
      if DraftOf(rows, tenant, name).Some? { PublishWellFormed(rows, DraftOf(rows, tenant, name).value, now); }
    case Mint(id, tenant, name, version, document, isActive, now) =>
      InsertWellFormed(rows, id, Policy(tenant, name, version, document, isActive, Published, Some(now)));
    case Activate(id) =>
      if id in rows { ActivateWellFormed(rows, id); }
  }

  lemma RemoveWellFormed(rows: Rows, id: Option<Uuid>)
    requires WellFormed(rows)
    ensures WellFormed(if id.Some? then rows - {id.value} else rows)
  {
  }

  /** What may never change about a published row. */
  predicate SamePublished(rows: Rows, after: Rows, id: Uuid) {
    id in rows && rows[id].status == Published ==>
      id in after && after[id] == rows[id].(isActive := after[id].isActive)
  }

  lemma ApplyKeepsPublished(rows: Rows, op: Op, id: Uuid)
    requires WellFormed(rows)
    ensures SamePublished(rows, Apply(rows, op), id)
  {
    hide VersionsUnique, OneDraft;
  }

  ghost function Run(rows: Rows, ops: seq<Op>): Rows {
    if ops == [] then rows else Apply(Run(rows, ops[..|ops| - 1]), ops[|ops| - 1])
  }

  /** In every run of these operations over any tenants and names, in whatever order they commit:
      versions stay unique, each name has at most one draft, and a published row keeps its document,
      version and publication time forever. Only its active flag moves. */
  lemma {:induction false} RunKeepsPublished(rows: Rows, ops: seq<Op>, id: Uuid)
    requires WellFormed(rows)
    ensures WellFormed(Run(rows, ops))
    ensures SamePublished(rows, Run(rows, ops), id)
  {
    hide WellFormed, Apply;
    if ops != [] {
      var n := |ops| - 1;
      RunKeepsPublished(rows, ops[..n], id);
      ApplyWellFormed(Run(rows, ops[..n]), ops[n]);
      ApplyKeepsPublished(Run(rows, ops[..n]), ops[n], id);
    }
  }

  /** After publishing, the new version is the one active row of its name, and other names are as before. */
  lemma PublishActivatesOne(rows: Rows, tenant: Uuid, name: string, now: int, i: Uuid)
    requires DraftOf(rows, tenant, name).Some?
    ensures var after := Apply(rows, Publish(tenant, name, now));
            var id := DraftOf(rows, tenant, name).value;
            (i in after && Named(after[i], tenant, name) && after[i].isActive <==> i == id)
            && (id in after && after[id] == rows[id].(status := Published, isActive := true, publishedAt := Some(now)))
            && (i in rows && !Named(rows[i], tenant, name) ==> i in after && after[i] == rows[i])
  {
  }

  /** After activating a version it is the one active row of its name, and nothing else has changed. */
  lemma ActivateActivatesOne(rows: Rows, id: Uuid, i: Uuid)
    requires id in rows && i in rows
    ensures var after := Apply(rows, Activate(id));
            i in after && after.Keys == rows.Keys
            && var own := Named(rows[i], rows[id].tenantId, rows[id].name);
               after[i] == rows[i].(isActive := i == id || (rows[i].isActive && !own))
  {
  }

  /** Editing the row that an earlier read found keeps every published row as it is exactly when that
      row is still a draft, or the edit changes nothing. */
  lemma EditKeepsPublishedIff(rows: Rows, id: Uuid, document: string)
    requires id in rows
    ensures (forall j :: SamePublished(rows, Edited(rows, id, document), j)) <==>
            rows[id].status == Draft || rows[id].document == document
  {
    if forall j :: SamePublished(rows, Edited(rows, id, document), j) {
      assert SamePublished(rows, Edited(rows, id, document), id);
    }
  }

  // ---------------------------------------------------------------------------
  // What a version holds
  // ---------------------------------------------------------------------------

  /** Operation `op` opened row `id`: as a draft, or as a version published at once. */
  predicate Opens(rows: Rows, op: Op, after: Rows, id: Uuid) {
    id !in rows && id in after && (op.Create? || op.Mint?) && op.id == id
  }

  /** The name and number row `id` was opened with, and the document last given to it: by the operation that
      opened it, or by an update of its name made while it was the draft. `None` when no operation since
      the start opened it. */
  ghost function Given(rows: Rows, ops: seq<Op>, id: Uuid): Option<(Uuid, string, int, string)> {
    if ops == [] then None
    else
      var n := |ops| - 1;
      var before, after, op := Run(rows, ops[..n]), Run(rows, ops), ops[n];
      var given := Given(rows, ops[..n], id);
      if Opens(before, op, after, id) then Some((op.tenant, op.name, op.version, op.document))
      else if given.Some? && op.Update? && id in before && before[id].status == Draft
              && before[id].tenantId == op.tenant && before[id].name == op.name then
        Some((given.value.0, given.value.1, given.value.2, op.document))
      else given
  }

  predicate Carries(p: Policy, given: (Uuid, string, int, string)) {
    p.tenantId == given.0 && p.name == given.1 && p.version == given.2 && p.document == given.3
  }

  lemma StepCarries(rows: Rows, op: Op, id: Uuid, given: Option<(Uuid, string, int, string)>)
    requires WellFormed(rows)
    requires id in rows ==> given.Some? && Carries(rows[id], given.value)
    ensures var after := Apply(rows, op);
            id in after ==>
              if Opens(rows, op, after, id) then
                Carries(after[id], (op.tenant, op.name, op.version, op.document))
              else if given.Some? && op.Update? && id in rows && rows[id].status == Draft
                      && rows[id].tenantId == op.tenant && rows[id].name == op.name then
                Carries(after[id], (given.value.0, given.value.1, given.value.2, op.document))
              else given.Some? && Carries(after[id], given.value)
  {
    hide VersionsUnique;
    if op.Update? && id in rows && IsDraft(rows, id, op.tenant, op.name) {
      var draft := DraftOf(rows, op.tenant, op.name);
      assert draft.Some?;
      assert BothDrafts(rows[id], rows[draft.value]);
    }
  }

  /** In every run from an empty table, every row has the tenant, name and number it was opened with, and the
      document last given to it while it was the draft; so what is published under a version is what its
      draft was last given, and stays so. */
  lemma {:induction false} RunCarriesGiven(ops: seq<Op>, id: Uuid)
    ensures WellFormed(Run(map[], ops))
    ensures id in Run(map[], ops) ==>
              Given(map[], ops, id).Some? && Carries(Run(map[], ops)[id], Given(map[], ops, id).value)
  {
    hide Apply, WellFormed, Opens, Carries;
    EmptyWellFormed();
    RunKeepsPublished(map[], ops, id);
    if ops != [] {
      var n := |ops| - 1;
      RunCarriesGiven(ops[..n], id);
      StepCarries(Run(map[], ops[..n]), ops[n], id, Given(map[], ops[..n], id));
    }
  }

  lemma EmptyWellFormed()
    ensures WellFormed(map[])
  {
  }

  // ---------------------------------------------------------------------------
  // The active version is the newest
  // ---------------------------------------------------------------------------

  /** If `p` is active it is published, and no published `q` of its name is newer. */
  predicate NotOutdated(p: Policy, q: Policy) {
    Named(p, q.tenantId, q.name) && p.isActive ==>
      p.status == Published && (q.status == Published ==> q.version <= p.version)
  }

  predicate DraftIsNewer(p: Policy, q: Policy) {
    Named(p, q.tenantId, q.name) && p.status == Draft && q.status == Published ==> q.version < p.version
  }

  ghost predicate NewestActive(rows: Rows) {
    forall i, j :: i in rows && j in rows ==> NotOutdated(rows[i], rows[j]) && DraftIsNewer(rows[i], rows[j])
  }

  /** The draft operations, each version read together with its insert. */
  ghost predicate Sequential(rows: Rows, op: Op) {
    match op
    case Create(_, tenant, name, version, _) => IsNextVersion(rows, tenant, name, version)
    case Mint(_, _, _, _, _, _, _) => false
    case Activate(_) => false
    case _ => true
  }

  lemma ApplyKeepsNewest(rows: Rows, op: Op)
    requires WellFormed(rows) && NewestActive(rows) && Sequential(rows, op)
    ensures NewestActive(Apply(rows, op))
  {
    hide VersionsUnique, OneDraft, Deactivated;
    var after := Apply(rows, op);
    forall i, j | i in after && j in after
      ensures NotOutdated(after[i], after[j]) && DraftIsNewer(after[i], after[j])
    {
      if op.Publish? {
        PublishKeepsNewest(rows, op.tenant, op.name, op.now, i, j);
      }
    }
  }

  lemma PublishKeepsNewest(rows: Rows, tenant: Uuid, name: string, now: int, i: Uuid, j: Uuid)
    requires WellFormed(rows) && NewestActive(rows)
    ensures var after := Apply(rows, Publish(tenant, name, now));
            i in after && j in after ==> NotOutdated(after[i], after[j]) && DraftIsNewer(after[i], after[j])
  {
    hide VersionsUnique;
    if DraftOf(rows, tenant, name).Some? && i in rows && j in rows {
      var id := DraftOf(rows, tenant, name).value;
      assert NotOutdated(rows[i], rows[j]) && DraftIsNewer(rows[i], rows[j]);
      assert DraftIsNewer(rows[id], rows[j]);
      assert BothDrafts(rows[i], rows[id]) ==> i == id;
    }
  }

  ghost predicate SequentialRun(rows: Rows, ops: seq<Op>) {
    ops == [] ||
    (SequentialRun(rows, ops[..|ops| - 1]) && Sequential(Run(rows, ops[..|ops| - 1]), ops[|ops| - 1]))
  }

  /** In every run of the four draft operations, a name has at most one active row, and it is the newest
      published version of the name. */
  lemma {:induction false} RunKeepsNewestActive(rows: Rows, ops: seq<Op>, i: Uuid, j: Uuid)
    requires WellFormed(rows) && NewestActive(rows) && SequentialRun(rows, ops)
    ensures NewestActive(Run(rows, ops))
    ensures var after := Run(rows, ops);
            i in after && j in after && Named(after[i], after[j].tenantId, after[j].name) && after[i].isActive ==>
              after[i].status == Published && (after[j].isActive ==> i == j)
              && (after[j].status == Published ==> after[j].version <= after[i].version)
  {
    hide OneDraft, Apply, Sequential;
    RunKeepsPublished(rows, ops, i);
    if ops != [] {
      var n := |ops| - 1;
      RunKeepsNewestActive(rows, ops[..n], i, j);
      RunKeepsPublished(rows, ops[..n], i);
      ApplyKeepsNewest(Run(rows, ops[..n]), ops[n]);
    }
    var after := Run(rows, ops);
    if i in after && j in after {
      assert NotOutdated(after[i], after[j]) && NotOutdated(after[j], after[i]);
      assert SameNumber(after[i], after[j]) ==> i == j;
    }
  }
}
