/**
 The read path: exact-key lookups and sort-key-prefix scans of one
 organisation's partition. Every operation is a function of the table, so
 none of them changes it.
 */
module QueryRecords {
  import opened Store
  import opened Keys

  /**
   get_item at `key`. A missing item reads as the empty item, modelled as
   `None`; absence is not an error.
   */
  function GetItem(t: Table, key: Key): (r: Option<Item>)
    ensures r.Some? <==> key in t
    ensures r.Some? ==> r.value == t[key]
    ensures Stored(t) && r.Some? ==> r.value.key == key
  {
    if key in t then Some(t[key]) else None
  }

  /** get_organization_metadata: the item at (orgId, METADATA), or the empty item. */
  function GetOrganizationMetadata(t: Table, orgId: string): (r: Option<Item>)
    ensures r.Some? <==> Key(orgId, Metadata) in t
    ensures r.Some? ==> r.value == t[Key(orgId, Metadata)]
    ensures Stored(t) && r.Some? ==> r.value.key == Key(orgId, Metadata)
  {
    GetItem(t, Key(orgId, Metadata))
  }

  /** get_department: the item at (orgId, DEPT#name), or the empty item. */
  function GetDepartment(t: Table, orgId: string, deptName: string): (r: Option<Item>)
    ensures r.Some? <==> Key(orgId, DeptPrefix + deptName) in t
    ensures r.Some? ==> r.value == t[Key(orgId, DeptPrefix + deptName)]
    ensures Stored(t) && r.Some? ==> r.value.key == Key(orgId, DeptPrefix + deptName)
  {
    GetItem(t, Key(orgId, DeptPrefix + deptName))
  }

  /** get_all_departments: every item of the partition whose sort key starts with DEPT#. */
  function GetAllDepartments(t: Table, orgId: string): (r: set<Item>)
    ensures ExactScan(t, orgId, DeptPrefix, r)
  {
    Query(t, orgId, DeptPrefix)
  }

  /** get_all_projects: every item of the partition whose sort key starts with PROJ#. */
  function GetAllProjects(t: Table, orgId: string): (r: set<Item>)
    ensures ExactScan(t, orgId, ProjPrefix, r)
  {
    Query(t, orgId, ProjPrefix)
  }

  /** get_all_employees: every item of the partition whose sort key starts with EMP#. */
  function GetAllEmployees(t: Table, orgId: string): (r: set<Item>)
    ensures ExactScan(t, orgId, EmpPrefix, r)
  {
    Query(t, orgId, EmpPrefix)
  }

  /** get_all_managers: every item of the partition whose sort key starts with MGR#. */
  function GetAllManagers(t: Table, orgId: string): (r: set<Item>)
    ensures ExactScan(t, orgId, MgrPrefix, r)
  {
    Query(t, orgId, MgrPrefix)
  }

  /** Scans for two different kinds never return the same item. */
  lemma ScansDisjoint(t: Table, pk: string, p: string, q: string)
    requires Stored(t) && IsKind(p) && IsKind(q) && p != q
    ensures Query(t, pk, p) !! Query(t, pk, q)
  {
    forall x | x in Query(t, pk, p) ensures x !in Query(t, pk, q) {
      var k :| k in t && k.pk == pk && p <= k.sk && t[k] == x;
      KindsExclusive(p, q, k.sk);
      forall k' | k' in t && t[k'] == x ensures !(q <= k'.sk) {
        assert k' == t[k'].key == x.key == k;
      }
    }
  }

  /**
   The four list queries return pairwise disjoint sets, and the metadata record
   of the partition is in none of them.
   */
  lemma ListQueriesPartition(t: Table, orgId: string)
    requires Stored(t)
    ensures GetAllDepartments(t, orgId) !! GetAllManagers(t, orgId)
    ensures GetAllDepartments(t, orgId) !! GetAllProjects(t, orgId)
    ensures GetAllDepartments(t, orgId) !! GetAllEmployees(t, orgId)
    ensures GetAllManagers(t, orgId) !! GetAllProjects(t, orgId)
    ensures GetAllManagers(t, orgId) !! GetAllEmployees(t, orgId)
    ensures GetAllProjects(t, orgId) !! GetAllEmployees(t, orgId)
    ensures forall m :: GetOrganizationMetadata(t, orgId) == Some(m) ==>
      && m !in GetAllDepartments(t, orgId) && m !in GetAllManagers(t, orgId)
      && m !in GetAllProjects(t, orgId) && m !in GetAllEmployees(t, orgId)
  {
    ScansDisjoint(t, orgId, DeptPrefix, MgrPrefix);
    ScansDisjoint(t, orgId, DeptPrefix, ProjPrefix);
    ScansDisjoint(t, orgId, DeptPrefix, EmpPrefix);
    ScansDisjoint(t, orgId, MgrPrefix, ProjPrefix);
    ScansDisjoint(t, orgId, MgrPrefix, EmpPrefix);
    ScansDisjoint(t, orgId, ProjPrefix, EmpPrefix);
    var key := Key(orgId, Metadata);
    if key in t {
      assert Metadata <= Metadata;
      forall p | IsTypePrefix(p) ensures t[key] !in Query(t, orgId, p) {
        KindsExclusive(Metadata, p, Metadata);
        forall k | k in t && t[k] == t[key] ensures !(p <= k.sk) {
          assert k == t[k].key == key;
        }
      }
    }
  }

  /** A partition holding no items reads as empty everywhere, without error. */
  lemma EmptyPartition(t: Table, orgId: string, deptName: string)
    requires PartitionEmpty(t, orgId)
    ensures GetOrganizationMetadata(t, orgId) == None
    ensures GetDepartment(t, orgId, deptName) == None
    ensures GetAllDepartments(t, orgId) == {} && GetAllManagers(t, orgId) == {}
    ensures GetAllProjects(t, orgId) == {} && GetAllEmployees(t, orgId) == {}
  {
  }
}
