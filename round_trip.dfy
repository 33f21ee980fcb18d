/**
 Flatten, then read back: what the lookups and scans of the read path return
 for an organisation after the write path has stored it.
 */
module RoundTrip {
  import opened Store
  import opened Keys
  import opened InsertRecord
  import opened QueryRecords
  import opened InsertProperties

  /** The organisation's own record reads back with the name, location and founding year written. */
  lemma MetadataRoundTrip(t: Table, org: Organization)
    ensures GetOrganizationMetadata(Inserted(t, org), OrgId(org.name)) == Some(MetadataItem(org))
    ensures var attrs := MetadataItem(org).attrs;
      && attrs["name"] == S(org.name) && attrs["location"] == S(org.location)
      && attrs["founded"] == N(org.founded)
  {
    EntityStored(t, org, Metadata, 0);
  }

  /**
   A department reads back by name, as the last department of that name in
   the input wrote it: its manager nested whole, and one `PROJ#<name>`
   reference per project in input order (none when `projects` is absent).
   */
  lemma DepartmentRoundTrip(t: Table, org: Organization, i: nat)
    requires i < |org.departments|
    requires forall j :: i < j < |org.departments| ==> org.departments[j].name != org.departments[i].name
    ensures var pk, d := OrgId(org.name), org.departments[i];
      GetDepartment(Inserted(t, org), pk, d.name) == Some(DepartmentItem(pk, d))
    ensures var d := org.departments[i];
      var attrs, ps := DepartmentItem(OrgId(org.name), d).attrs, OrEmpty(d.projects);
      && attrs["name"] == S(d.name) && attrs["manager"] == ManagerValue(d.manager)
      && attrs["projects"].L? && |attrs["projects"].elems| == |ps|
      && forall k :: 0 <= k < |ps| ==> attrs["projects"].elems[k] == S(ProjPrefix + ps[k].name)
  {
    var pk, ds := OrgId(org.name), org.departments;
    var w := KindItems(org, DeptPrefix);
    forall j | i < j < |w| ensures w[j].key != w[i].key {
      TaggedKeyInjective(DeptPrefix, ds[j].name, ds[i].name);
    }
    EntityStored(t, org, DeptPrefix, i);
  }

  /** A manager's item holds its fields and its certifications as a list of strings, in input order. */
  lemma ManagerItemFields(pk: string, m: Manager)
    ensures var attrs := ManagerItem(pk, m).attrs;
      && attrs["id"] == N(m.id) && attrs["name"] == S(m.name) && attrs["email"] == S(m.email)
      && attrs["experience"] == S(m.experience)
      && attrs["certifications"].L? && |attrs["certifications"].elems| == |m.certifications|
      && forall k :: 0 <= k < |m.certifications| ==>
           attrs["certifications"].elems[k] == S(m.certifications[k])
  {
  }

  /**
   A manager's record reads back at `MGR#<name>` as the last department with a
   manager of that name wrote it.
   */
  lemma ManagerRoundTrip(t: Table, org: Organization, i: nat)
    requires i < |org.departments|
    requires forall j :: i < j < |org.departments| ==>
      org.departments[j].manager.name != org.departments[i].manager.name
    ensures var pk, m := OrgId(org.name), org.departments[i].manager;
      GetItem(Inserted(t, org), Key(pk, MgrPrefix + m.name)) == Some(ManagerItem(pk, m))
  {
    var ds := org.departments;
    var w := KindItems(org, MgrPrefix);
    forall j | i < j < |w| ensures w[j].key != w[i].key {
      TaggedKeyInjective(MgrPrefix, ds[j].manager.name, ds[i].manager.name);
    }
    EntityStored(t, org, MgrPrefix, i);
  }

  /** A project's item holds its fields and one `EMP#<name>` reference per employee, in input order. */
  lemma ProjectItemFields(pk: string, q: Project)
    ensures var attrs, es := ProjectItem(pk, q).attrs, OrEmpty(q.employees);
      && attrs["name"] == S(q.name) && attrs["budget"] == N(q.budget) && attrs["deadline"] == S(q.deadline)
      && attrs["employees"].L? && |attrs["employees"].elems| == |es|
      && forall k :: 0 <= k < |es| ==> attrs["employees"].elems[k] == S(EmpPrefix + es[k].name)
  {
  }

  /**
   A project reads back at `PROJ#<name>` as the last project of that name in
   traversal order wrote it.
   */
  lemma ProjectRoundTrip(t: Table, org: Organization, n: nat)
    requires n < |AllProjects(org)|
    requires forall j :: n < j < |AllProjects(org)| ==> AllProjects(org)[j].name != AllProjects(org)[n].name
    ensures var pk, q := OrgId(org.name), AllProjects(org)[n];
      GetItem(Inserted(t, org), Key(pk, ProjPrefix + q.name)) == Some(ProjectItem(pk, q))
  {
    var ps := AllProjects(org);
    var w := KindItems(org, ProjPrefix);
    KindItemsCount(org);
    forall j | n < j < |w| ensures w[j].key != w[n].key {
      TaggedKeyInjective(ProjPrefix, ps[j].name, ps[n].name);
    }
    EntityStored(t, org, ProjPrefix, n);
  }

  /**
   An employee's item holds its fields and its tasks nested in it, each task a
   map of id, description and status, in input order (none when `tasks` is
   absent).
   */
  lemma EmployeeItemFields(pk: string, e: Employee)
    ensures var attrs, ts := EmployeeItem(pk, e).attrs, OrEmpty(e.tasks);
      && attrs["id"] == N(e.id) && attrs["name"] == S(e.name) && attrs["role"] == S(e.role)
      && attrs["tasks"].L? && |attrs["tasks"].elems| == |ts|
      && forall k :: 0 <= k < |ts| ==>
           attrs["tasks"].elems[k] == M(map[
             "id" := N(ts[k].id), "description" := S(ts[k].description), "status" := S(ts[k].status)])
  {
  }

  /** An employee reads back at `EMP#<name>` as the last employee of that name in traversal order wrote it. */
  lemma EmployeeRoundTrip(t: Table, org: Organization, n: nat)
    requires n < |AllEmployees(org)|
    requires forall j :: n < j < |AllEmployees(org)| ==> AllEmployees(org)[j].name != AllEmployees(org)[n].name
    ensures var pk, e := OrgId(org.name), AllEmployees(org)[n];
      GetItem(Inserted(t, org), Key(pk, EmpPrefix + e.name)) == Some(EmployeeItem(pk, e))
  {
    var es := AllEmployees(org);
    var w := KindItems(org, EmpPrefix);
    KindItemsCount(org);
    forall j | n < j < |w| ensures w[j].key != w[n].key {
      TaggedKeyInjective(EmpPrefix, es[j].name, es[n].name);
    }
    EntityStored(t, org, EmpPrefix, n);
  }

  /**
   Into a partition that held nothing, and with unique names per type, each
   list query returns exactly one item per entity of its type: the items the
   flattener built.
   */
  lemma ListQueriesAfterInsert(t: Table, org: Organization)
    requires Stored(t) && PartitionEmpty(t, OrgId(org.name)) && UniqueNames(org)
    ensures var t', pk := Inserted(t, org), OrgId(org.name);
      && GetAllDepartments(t', pk) == set x | x in DepartmentItems(pk, org.departments)
      && GetAllManagers(t', pk) == set x | x in ManagerItems(pk, org.departments)
      && GetAllProjects(t', pk) == set x | x in ProjectItems(pk, AllProjects(org))
      && GetAllEmployees(t', pk) == set x | x in EmployeeItems(pk, AllEmployees(org))
    ensures var t', pk := Inserted(t, org), OrgId(org.name);
      && |GetAllDepartments(t', pk)| == |org.departments|
      && |GetAllManagers(t', pk)| == |org.departments|
      && |GetAllProjects(t', pk)| == |AllProjects(org)|
      && |GetAllEmployees(t', pk)| == |AllEmployees(org)|
  {
    var t', pk := Inserted(t, org), OrgId(org.name);
    KindItemsCount(org);
    assert GetAllDepartments(t', pk) == set x | x in DepartmentItems(pk, org.departments) by {
      ScanAfterInsert(t, org, DeptPrefix);
    }
    assert GetAllManagers(t', pk) == set x | x in ManagerItems(pk, org.departments) by {
      ScanAfterInsert(t, org, MgrPrefix);
    }
    assert GetAllProjects(t', pk) == set x | x in ProjectItems(pk, AllProjects(org)) by {
      ScanAfterInsert(t, org, ProjPrefix);
    }
    assert GetAllEmployees(t', pk) == set x | x in EmployeeItems(pk, AllEmployees(org)) by {
      ScanAfterInsert(t, org, EmpPrefix);
    }
    assert |GetAllDepartments(t', pk)| == |org.departments| by {
      ScanAfterInsert(t, org, DeptPrefix);
    }
    assert |GetAllManagers(t', pk)| == |org.departments| by {
      ScanAfterInsert(t, org, MgrPrefix);
    }
    assert |GetAllProjects(t', pk)| == |AllProjects(org)| by {
      ScanAfterInsert(t, org, ProjPrefix);
    }
    assert |GetAllEmployees(t', pk)| == |AllEmployees(org)| by {
      ScanAfterInsert(t, org, EmpPrefix);
    }
  }

  /**
   Into a partition that held nothing, the department scan returns one item
   per department as soon as department names are distinct, whatever names
   repeat among managers, projects or employees.
   */
  lemma DepartmentScanCount(t: Table, org: Organization)
    requires Stored(t) && PartitionEmpty(t, OrgId(org.name))
    requires forall i, j :: 0 <= i < j < |org.departments| ==> org.departments[i].name != org.departments[j].name
    ensures |GetAllDepartments(Inserted(t, org), OrgId(org.name))| == |org.departments|
  {
    assert UniqueNamesOfKind(org, DeptPrefix);
    KindItemsCount(org);
    ScanAfterInsert(t, org, DeptPrefix);
  }

  lemma {:induction false} NoProjectsOf(ds: seq<Department>)
    requires forall i :: 0 <= i < |ds| ==> OrEmpty(ds[i].projects) == []
    ensures ProjectsOf(ds) == []
    decreases |ds|
  {
    if ds != [] {
      NoProjectsOf(ds[..|ds| - 1]);
    }
  }

  /**
   When no department has a project (the list is absent or empty), the
   project and employee scans of a partition that held nothing come back
   empty after insertion.
   */
  lemma NoProjectsEmptyScans(t: Table, org: Organization)
    requires PartitionEmpty(t, OrgId(org.name))
    requires forall i :: 0 <= i < |org.departments| ==> OrEmpty(org.departments[i].projects) == []
    ensures GetAllProjects(Inserted(t, org), OrgId(org.name)) == {}
    ensures GetAllEmployees(Inserted(t, org), OrgId(org.name)) == {}
  {
    NoProjectsOf(org.departments);
    KindItemsCount(org);
    ScanKeysAfterInsert(t, org, ProjPrefix);
    ScanKeysAfterInsert(t, org, EmpPrefix);
  }
}
