/** The `tenant_isolation` policies of migrations 0010, 0044 and 0067, in SQL's three-valued logic. */
module RowSecurity {
  import opened Nulls
  import opened Connections

  /** One table per policy shape; `Capabilities` and `Systems` are both owned directly, one nullable and one not. */
  datatype Table = Systems | Implementations | Capabilities | EvidenceItems | AuditLog

  datatype Key = Key(table: Table, id: int)

  datatype Row =
    | System(organization: OrgId, data: string)
    | Implementation(system: int, data: string)
    | Capability(organizationOrNull: Option<OrgId>, data: string)
    | Evidence(implementation: Option<int>, capability: Option<int>, data: string)
    | Audit(scope: Option<OrgId>, data: string)

  type Store = map<Key, Row>

  /** The row has its table's columns and passes its CHECK constraint (`ck_evidence_has_parent`). */
  predicate Fits(table: Table, row: Row) {
    match table
    case Systems => row.System?
    case Implementations => row.Implementation?
    case Capabilities => row.Capability?
    case EvidenceItems => row.Evidence? && (row.implementation.Some? || row.capability.Some?)
    case AuditLog => row.Audit?
  }

  // ---- the subqueries ----

  /** `SELECT id FROM ccf.systems WHERE organization_id = ccf.current_tenant()`. */
  function SystemsOf(tenant: Option<OrgId>, store: Store): set<int> {
    set k | k in store && k.table == Systems && store[k].System?
      && Equals(Some(store[k].organization), tenant) == Yes :: k.id
  }

  /** `SELECT ci.id FROM control_implementations ci JOIN systems s ON s.id = ci.system_id WHERE ...`. */
  function ImplementationsOf(tenant: Option<OrgId>, store: Store): set<int> {
    set k | k in store && k.table == Implementations && store[k].Implementation?
      && store[k].system in SystemsOf(tenant, store) :: k.id
  }

  /** `SELECT id FROM ccf.capabilities WHERE organization_id = ccf.current_tenant()`. */
  function CapabilitiesOf(tenant: Option<OrgId>, store: Store): set<int> {
    set k | k in store && k.table == Capabilities && store[k].Capability?
      && Equals(store[k].organizationOrNull, tenant) == Yes :: k.id
  }

  // ---- the policies ----

  function Unset(tenant: Option<OrgId>): Tri {
    FromBool(tenant == None)
  }

  /** The policy migration 0010 puts on `evidence`. */
  function OriginalEvidencePolicy(tenant: Option<OrgId>, store: Store, row: Row): Tri
    requires row.Evidence?
  {
    Or(Unset(tenant), In(row.implementation, ImplementationsOf(tenant, store)))
  }

  /** The policy migration 0067 replaces it with. */
  function ExtendedEvidencePolicy(tenant: Option<OrgId>, store: Store, row: Row): Tri
    requires row.Evidence?
  {
    Or(Or(Unset(tenant), In(row.implementation, ImplementationsOf(tenant, store))),
       In(row.capability, CapabilitiesOf(tenant, store)))
  }

  /** USING and WITH CHECK are the same expression on every table. */
  function Policy(tenant: Option<OrgId>, store: Store, row: Row): Tri {
    match row
    case System(org, _) => Or(Unset(tenant), Equals(Some(org), tenant))
    case Implementation(system, _) => Or(Unset(tenant), In(Some(system), SystemsOf(tenant, store)))
    case Capability(org, _) => Or(Unset(tenant), Equals(org, tenant))
    case Evidence(_, _, _) => ExtendedEvidencePolicy(tenant, store, row)
    case Audit(scope, _) => Or(Or(Unset(tenant), FromBool(scope == None)), Equals(scope, tenant))
  }

  predicate Admits(tenant: Option<OrgId>, store: Store, row: Row) {
    Policy(tenant, store, row) == Yes
  }

  /** The part of the database a session acting for `tenant` as `ccf_app` sees. */
  function Seen(tenant: Option<OrgId>, store: Store): Store {
    map k | k in store && Admits(tenant, store, store[k]) :: store[k]
  }

  // ---- ownership, without SQL ----

  function SystemOwner(store: Store, system: int): set<OrgId> {
    var k := Key(Systems, system);
    if k in store && store[k].System? then {store[k].organization} else {}
  }

  function ImplementationOwner(store: Store, implementation: int): set<OrgId> {
    var k := Key(Implementations, implementation);
    if k in store && store[k].Implementation? then SystemOwner(store, store[k].system) else {}
  }

  function CapabilityOwner(store: Store, capability: int): set<OrgId> {
    var k := Key(Capabilities, capability);
    if k in store && store[k].Capability? && store[k].organizationOrNull.Some?
    then {store[k].organizationOrNull.value} else {}
  }

  /** The organizations that own a row, directly or through its parents. */
  function Owners(store: Store, row: Row): set<OrgId> {
    match row
    case System(org, _) => {org}
    case Implementation(system, _) => SystemOwner(store, system)
    case Capability(org, _) => if org.Some? then {org.value} else {}
    case Evidence(implementation, capability, _) =>
      (if implementation.Some? then ImplementationOwner(store, implementation.value) else {})
      + (if capability.Some? then CapabilityOwner(store, capability.value) else {})
    case Audit(scope, _) => if scope.Some? then {scope.value} else {}
  }

  predicate IsGlobal(row: Row) {
    row.Audit? && row.scope == None
  }

  lemma SubqueriesAreOwnership(store: Store, tenant: OrgId, id: int)
    ensures id in SystemsOf(Some(tenant), store) <==> tenant in SystemOwner(store, id)
    ensures id in ImplementationsOf(Some(tenant), store) <==> tenant in ImplementationOwner(store, id)
    ensures id in CapabilitiesOf(Some(tenant), store) <==> tenant in CapabilityOwner(store, id)
  {
    SystemsAreOwnership(store, tenant, id);
    var k := Key(Implementations, id);
    if k in store && store[k].Implementation? {
      SystemsAreOwnership(store, tenant, store[k].system);
    }
    assert id in ImplementationsOf(Some(tenant), store) <==>
      k in store && store[k].Implementation? && store[k].system in SystemsOf(Some(tenant), store);
    assert id in CapabilitiesOf(Some(tenant), store) <==>
      var c := Key(Capabilities, id);
      c in store && store[c].Capability? && Equals(store[c].organizationOrNull, Some(tenant)) == Yes;
  }

  lemma SystemsAreOwnership(store: Store, tenant: OrgId, id: int)
    ensures id in SystemsOf(Some(tenant), store) <==> tenant in SystemOwner(store, id)
  {
    assert id in SystemsOf(Some(tenant), store) <==>
      var k := Key(Systems, id);
      k in store && store[k].System? && Equals(Some(store[k].organization), Some(tenant)) == Yes;
  }

  lemma InIsMembership(x: Option<int>, candidates: set<int>)
    ensures In(x, candidates) == Yes <==> x.Some? && x.value in candidates
  {
  }

  /**
   * For a set tenant every policy admits exactly the rows that tenant owns through some chain of parents, and the
   * NULL-visible rows of the audit log; with no tenant set every policy admits every row.
   */
  lemma PolicyIsOwnership(tenant: Option<OrgId>, store: Store, row: Row)
    ensures Admits(tenant, store, row)
      <==> tenant == None || tenant.value in Owners(store, row) || IsGlobal(row)
  {
    if tenant.Some? {
      match row
      case Implementation(system, _) => SubqueriesAreOwnership(store, tenant.value, system);
      case Evidence(implementation, capability, _) =>
        InIsMembership(implementation, ImplementationsOf(tenant, store));
        InIsMembership(capability, CapabilitiesOf(tenant, store));
        if implementation.Some? {
          SubqueriesAreOwnership(store, tenant.value, implementation.value);
        }
        if capability.Some? {
          SubqueriesAreOwnership(store, tenant.value, capability.value);
        }
      case _ =>
    }
  }

  /**
   * The subqueries inside a policy run under the parents' own policies. That changes nothing: over the rows the
   * tenant can see, every policy takes the same truth value as over the whole database.
   */
  lemma PoliciesNest(tenant: Option<OrgId>, store: Store, row: Row)
    ensures Policy(tenant, Seen(tenant, store), row) == Policy(tenant, store, row)
  {
    var seen := Seen(tenant, store);
    assert SystemsOf(tenant, seen) == SystemsOf(tenant, store) by {
      forall id ensures id in SystemsOf(tenant, seen) <==> id in SystemsOf(tenant, store) {
        assert id in SystemsOf(tenant, seen) ==> Key(Systems, id) in seen;
        assert id in SystemsOf(tenant, store) ==> Key(Systems, id) in seen;
      }
    }
    assert ImplementationsOf(tenant, seen) == ImplementationsOf(tenant, store) by {
      forall id ensures id in ImplementationsOf(tenant, seen) <==> id in ImplementationsOf(tenant, store) {
        assert id in ImplementationsOf(tenant, seen) ==> Key(Implementations, id) in seen;
        if id in ImplementationsOf(tenant, store) {
          InIsMembership(Some(store[Key(Implementations, id)].system), SystemsOf(tenant, store));
          assert Key(Implementations, id) in seen;
        }
      }
    }
    assert CapabilitiesOf(tenant, seen) == CapabilitiesOf(tenant, store) by {
      forall id ensures id in CapabilitiesOf(tenant, seen) <==> id in CapabilitiesOf(tenant, store) {
        assert id in CapabilitiesOf(tenant, seen) ==> Key(Capabilities, id) in seen;
        assert id in CapabilitiesOf(tenant, store) ==> Key(Capabilities, id) in seen;
      }
    }
  }

  /**
   * The extended evidence policy admits what the original admits and the rows owned through a capability; on rows
   * without a capability the two agree.
   */
  lemma ExtensionOnlyAdds(tenant: Option<OrgId>, store: Store, row: Row)
    requires row.Evidence?
    ensures ExtendedEvidencePolicy(tenant, store, row) == Yes
      <==> (OriginalEvidencePolicy(tenant, store, row) == Yes
            || (tenant.Some? && row.capability.Some? && tenant.value in CapabilityOwner(store, row.capability.value)))
    ensures row.capability == None ==>
      (ExtendedEvidencePolicy(tenant, store, row) == Yes <==> OriginalEvidencePolicy(tenant, store, row) == Yes)
  {
    InIsMembership(row.capability, CapabilitiesOf(tenant, store));
    if tenant.Some? && row.capability.Some? {
      SubqueriesAreOwnership(store, tenant.value, row.capability.value);
    }
  }

  /** Under the original policy a row whose only parent is a capability exists for no tenant at all. */
  lemma OriginalHidesCapabilityRows(tenant: OrgId, store: Store, row: Row)
    requires row.Evidence? && row.implementation == None
    ensures OriginalEvidencePolicy(Some(tenant), store, row) != Yes
  {
    InIsMembership(row.implementation, ImplementationsOf(Some(tenant), store));
  }

  /** One tenant owns the implementation an evidence row hangs off, the other the capability. */
  predicate Straddles(store: Store, row: Row, a: OrgId, b: OrgId)
    requires row.Evidence?
  {
    row.implementation.Some? && row.capability.Some?
    && var i, c := ImplementationOwner(store, row.implementation.value), CapabilityOwner(store, row.capability.value);
       (i == {a} && c == {b}) || (i == {b} && c == {a})
  }

  /**
   * When two tenants are both admitted to a row: only for NULL-scope audit rows, and for evidence that hangs off
   * one tenant's implementation and the other's capability. Every other row has at most one tenant.
   */
  lemma SharedRows(a: OrgId, b: OrgId, store: Store, row: Row)
    requires a != b
    ensures Admits(Some(a), store, row) && Admits(Some(b), store, row)
      <==> IsGlobal(row) || (row.Evidence? && Straddles(store, row, a, b))
  {
    PolicyIsOwnership(Some(a), store, row);
    PolicyIsOwnership(Some(b), store, row);
  }
}
