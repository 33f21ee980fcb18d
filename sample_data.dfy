/**
 The repository's sample organisation, and what the read path returns for it
 once it has been flattened into an empty table.
 */
module SampleData {
  import opened Store
  import opened Keys
  import opened InsertRecord
  import opened QueryRecords
  import opened InsertProperties
  import opened RoundTrip

  const John := Employee(201, "John", "Software Engineer", Some([
    Task(401, "Develop API", "In Progress"),
    Task(402, "Write Unit Tests", "Pending")]))

  const AiDevelopment := Project("AI Development", 500000, "2025-12-31", Some([John]))

  const Engineering := Department(
    "Engineering",
    Manager(101, "Johnson", "johnson@codexorg.com", "15 years", ["PMP", "AWS Certified Solutions Architect"]),
    Some([AiDevelopment]))

  /** The second department has no `projects` entry at all. */
  const Marketing := Department(
    "Marketing",
    Manager(103, "Lee", "lee@codexorg.com", "10 years", ["Google Ads Certified", "HubSpot Inbound Marketing"]),
    None)

  const CodexOrg := Organization("CodexOrg", "Bangalore", 1998, [Engineering, Marketing])

  lemma SampleEntities()
    ensures AllProjects(CodexOrg) == [AiDevelopment]
    ensures AllEmployees(CodexOrg) == [John]
    ensures UniqueNames(CodexOrg)
  {
    var ds := CodexOrg.departments;
    assert ds[..1] == [Engineering];
    assert ds[..1][..0] == [];
    assert ProjectsOf(ds) == ProjectsOf([Engineering]) + [];
    assert [AiDevelopment][..0] == [];
    assert EmployeesOf([AiDevelopment]) == EmployeesOf([]) + [John];
  }

  /** The sample's partition key. */
  lemma SampleKey()
    ensures OrgId(CodexOrg.name) == "ORG#CodexOrg"
  {
    assert OrgPrefix + "CodexOrg" == "ORG#CodexOrg";
  }

  /** After flattening the sample into an empty table, its metadata reads back. */
  lemma SampleMetadata()
    ensures GetOrganizationMetadata(Inserted(map[], CodexOrg), "ORG#CodexOrg") == Some(MetadataItem(CodexOrg))
    ensures MetadataItem(CodexOrg).attrs["founded"] == N(1998)
  {
    SampleKey();
    MetadataRoundTrip(map[], CodexOrg);
  }

  /** The employee scan of the sample's partition returns one item: John's. */
  lemma SampleEmployeeScan()
    ensures GetAllEmployees(Inserted(map[], CodexOrg), "ORG#CodexOrg") == {EmployeeItem("ORG#CodexOrg", John)}
  {
    SampleKey();
    SampleEntities();
    ScanAfterInsert(map[], CodexOrg, EmpPrefix);
    assert KindItems(CodexOrg, EmpPrefix) == [EmployeeItem("ORG#CodexOrg", John)];
  }

  /** The project scan of the sample's partition returns one item: AI Development's. */
  lemma SampleProjectScan()
    ensures GetAllProjects(Inserted(map[], CodexOrg), "ORG#CodexOrg") == {ProjectItem("ORG#CodexOrg", AiDevelopment)}
  {
    SampleKey();
    SampleEntities();
    ScanAfterInsert(map[], CodexOrg, ProjPrefix);
    assert KindItems(CodexOrg, ProjPrefix) == [ProjectItem("ORG#CodexOrg", AiDevelopment)];
  }

  /** Both departments and both managers are listed. */
  lemma SampleDepartmentScans()
    ensures |GetAllDepartments(Inserted(map[], CodexOrg), "ORG#CodexOrg")| == 2
    ensures |GetAllManagers(Inserted(map[], CodexOrg), "ORG#CodexOrg")| == 2
  {
    SampleKey();
    SampleEntities();
    KindItemsCount(CodexOrg);
    ScanAfterInsert(map[], CodexOrg, DeptPrefix);
    ScanAfterInsert(map[], CodexOrg, MgrPrefix);
  }

  /** John's item carries his two tasks, in input order. */
  lemma SampleEmployee()
    ensures var item := EmployeeItem("ORG#CodexOrg", John);
      && item.attrs["name"] == S("John") && item.attrs["role"] == S("Software Engineer")
      && item.attrs["tasks"] == L([
           M(map["id" := N(401), "description" := S("Develop API"), "status" := S("In Progress")]),
           M(map["id" := N(402), "description" := S("Write Unit Tests"), "status" := S("Pending")])])
  {
    assert TaskValues(OrEmpty(John.tasks)) == [TaskValue(John.tasks.value[0]), TaskValue(John.tasks.value[1])];
  }

  /** Marketing, which has no `projects` entry, reads back with an empty project list. */
  lemma SampleMarketing()
    ensures GetDepartment(Inserted(map[], CodexOrg), "ORG#CodexOrg", "Marketing")
         == Some(DepartmentItem("ORG#CodexOrg", Marketing))
    ensures DepartmentItem("ORG#CodexOrg", Marketing).attrs["projects"] == L([])
  {
    SampleKey();
    DepartmentRoundTrip(map[], CodexOrg, 1);
  }

  /** A department the sample does not have reads as the empty item. */
  lemma SampleMissingDepartment()
    ensures GetDepartment(Inserted(map[], CodexOrg), "ORG#CodexOrg", "Sales") == None
  {
    SampleKey();
    var pk := OrgId(CodexOrg.name);
    var sales := Key(pk, DeptPrefix + "Sales");
    ApplyKeys(map[], OrganizationWrites(CodexOrg));
    if sales in KeysOf(OrganizationWrites(CodexOrg)) {
      WrittenKeyHasKind(CodexOrg, sales);
      TaggedKind(DeptPrefix, "Sales");
      assert false;
    }
  }
}
