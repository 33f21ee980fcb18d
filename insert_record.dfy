/**
 The write path: an organisation tree is flattened into one item per
 organisation, department, manager, project and employee (tasks live inside
 their employee's item), all under the organisation's partition key, written
 one put at a time.
 */
module InsertRecord {
  import opened Store
  import opened Keys

  datatype Task = Task(id: int, description: string, status: string)

  /** `tasks` may be absent from the input record. */
  datatype Employee = Employee(id: int, name: string, role: string, tasks: Option<seq<Task>>)

  /** `employees` may be absent from the input record. */
  datatype Project = Project(name: string, budget: int, deadline: string, employees: Option<seq<Employee>>)

  datatype Manager = Manager(
    id: int, name: string, email: string, experience: string, certifications: seq<string>)

  /** `projects` may be absent from the input record. */
  datatype Department = Department(name: string, manager: Manager, projects: Option<seq<Project>>)

  datatype Organization = Organization(
    name: string, location: string, founded: int, departments: seq<Department>)

  /** A missing list reads as the empty list. */
  function OrEmpty<T>(o: Option<seq<T>>): seq<T> {
    if o.Some? then o.value else []
  }

  // Attribute values of the nested input objects

  function StringValues(ss: seq<string>): seq<Value> {
    seq(|ss|, i requires 0 <= i < |ss| => S(ss[i]))
  }

  function TaskValue(t: Task): Value {
    M(map["id" := N(t.id), "description" := S(t.description), "status" := S(t.status)])
  }

  function TaskValues(ts: seq<Task>): seq<Value> {
    seq(|ts|, i requires 0 <= i < |ts| => TaskValue(ts[i]))
  }

  function ManagerValue(m: Manager): Value {
    M(map[
      "name" := S(m.name), "id" := N(m.id), "email" := S(m.email),
      "experience" := S(m.experience), "certifications" := L(StringValues(m.certifications))])
  }

  /** The reference list a department keeps: `PROJ#<name>` for each of its projects. */
  function ProjectRefs(ps: seq<Project>): seq<Value> {
    seq(|ps|, i requires 0 <= i < |ps| => S(ProjPrefix + ps[i].name))
  }

  /** The reference list a project keeps: `EMP#<name>` for each of its employees. */
  function EmployeeRefs(es: seq<Employee>): seq<Value> {
    seq(|es|, i requires 0 <= i < |es| => S(EmpPrefix + es[i].name))
  }

  // The items written, one per organisation, department, manager, project or employee

  function MetadataItem(org: Organization): (item: Item)
    ensures item.key == Key(OrgId(org.name), Metadata)
  {
    Item(Key(OrgId(org.name), Metadata), map[
      "name" := S(org.name), "location" := S(org.location), "founded" := N(org.founded)])
  }

  function DepartmentItem(pk: string, d: Department): (item: Item)
    ensures item.key == Key(pk, DeptPrefix + d.name)
  {
    Item(Key(pk, DeptPrefix + d.name), map[
      "name" := S(d.name), "manager" := ManagerValue(d.manager),
      "projects" := L(ProjectRefs(OrEmpty(d.projects)))])
  }

  function ManagerItem(pk: string, m: Manager): (item: Item)
    ensures item.key == Key(pk, MgrPrefix + m.name)
  {
    Item(Key(pk, MgrPrefix + m.name), map[
      "id" := N(m.id), "name" := S(m.name), "email" := S(m.email),
      "experience" := S(m.experience), "certifications" := L(StringValues(m.certifications))])
  }

  function ProjectItem(pk: string, p: Project): (item: Item)
    ensures item.key == Key(pk, ProjPrefix + p.name)
  {
    Item(Key(pk, ProjPrefix + p.name), map[
      "name" := S(p.name), "budget" := N(p.budget), "deadline" := S(p.deadline),
      "employees" := L(EmployeeRefs(OrEmpty(p.employees)))])
  }

  function EmployeeItem(pk: string, e: Employee): (item: Item)
    ensures item.key == Key(pk, EmpPrefix + e.name)
  {
    Item(Key(pk, EmpPrefix + e.name), map[
      "id" := N(e.id), "name" := S(e.name), "role" := S(e.role),
      "tasks" := L(TaskValues(OrEmpty(e.tasks)))])
  }

  // The puts in traversal order

  function EmployeeItems(pk: string, es: seq<Employee>): seq<Item> {
    seq(|es|, i requires 0 <= i < |es| => EmployeeItem(pk, es[i]))
  }

  /** A project's put, then one put per employee. */
  function ProjectWrites(pk: string, p: Project): seq<Item> {
    var es := OrEmpty(p.employees);
    [ProjectItem(pk, p)] + EmployeeItems(pk, es)
  }

  /** Each project's writes, in input order. */
  function ProjectsWrites(pk: string, ps: seq<Project>): seq<Item>
    decreases |ps|
  {
    if ps == [] then [] else ProjectsWrites(pk, ps[..|ps| - 1]) + ProjectWrites(pk, ps[|ps| - 1])
  }

  /** A department's put, its manager's put, then each project's writes. */
  function DepartmentWrites(pk: string, d: Department): seq<Item> {
    [DepartmentItem(pk, d), ManagerItem(pk, d.manager)] + ProjectsWrites(pk, OrEmpty(d.projects))
  }

  /** Each department's writes, in input order. */
  function DepartmentsWrites(pk: string, ds: seq<Department>): seq<Item>
    decreases |ds|
  {
    if ds == [] then [] else DepartmentsWrites(pk, ds[..|ds| - 1]) + DepartmentWrites(pk, ds[|ds| - 1])
  }

  /** Every put the flattener issues, in the order it issues them. */
  function OrganizationWrites(org: Organization): seq<Item> {
    [MetadataItem(org)] + DepartmentsWrites(OrgId(org.name), org.departments)
  }

  /** The table after flattening `org` into `t`. */
  function Inserted(t: Table, org: Organization): Table {
    Apply(t, OrganizationWrites(org))
  }

  /**
   insert_sample_data: the organisation's put, then for each department its
   put, its manager's put and its projects, in input order.
   */
  method InsertSampleData(table: KeyValueTable, org: Organization)
    requires table.Valid()
    modifies table
    ensures table.Valid()
    ensures table.items == Inserted(old(table.items), org)
  {
    ghost var t0 := table.items;
    var orgId := OrgId(org.name);
    var metadata := MetadataItem(org);
    table.PutItem(metadata);
    var ds := org.departments;
    assert [metadata] + DepartmentsWrites(orgId, ds[..0]) == [metadata];
    var i := 0;
    while i < |ds|
      invariant 0 <= i <= |ds|
      invariant table.Valid()
      invariant table.items == Apply(t0, [metadata] + DepartmentsWrites(orgId, ds[..i]))
    {
      var dept := ds[i];
      ghost var before := table.items;
      var deptItem := DepartmentItem(orgId, dept);
      var managerItem := ManagerItem(orgId, dept.manager);
      var projects := OrEmpty(dept.projects);
      table.PutItem(deptItem);
      table.PutItem(managerItem);
      InsertProjects(table, orgId, projects);
      DepartmentStep(before, orgId, dept);
      DepartmentsStep(t0, metadata, orgId, ds, i);
      i := i + 1;
    }
    assert ds[..i] == ds;
  }

  /** One department's writes: its put, its manager's put, then its projects' writes. */
  lemma DepartmentStep(t: Table, orgId: string, d: Department)
    ensures Apply(t, DepartmentWrites(orgId, d))
         == Apply(t[DepartmentItem(orgId, d).key := DepartmentItem(orgId, d)]
                   [ManagerItem(orgId, d.manager).key := ManagerItem(orgId, d.manager)],
                  ProjectsWrites(orgId, OrEmpty(d.projects)))
  {
    var pair := [DepartmentItem(orgId, d), ManagerItem(orgId, d.manager)];
    ApplyAppend(t, pair, ProjectsWrites(orgId, OrEmpty(d.projects)));
    assert pair[..1] == [pair[0]];
    assert [pair[0]][..0] == [];
    assert Apply(t, [pair[0]]) == t[pair[0].key := pair[0]];
  }

  lemma DepartmentsStep(t: Table, metadata: Item, orgId: string, ds: seq<Department>, i: nat)
    requires i < |ds|
    ensures Apply(t, [metadata] + DepartmentsWrites(orgId, ds[..i + 1]))
         == Apply(Apply(t, [metadata] + DepartmentsWrites(orgId, ds[..i])), DepartmentWrites(orgId, ds[i]))
  {
    assert ds[..i + 1][..i] == ds[..i];
    AppendAssoc([metadata], DepartmentsWrites(orgId, ds[..i]), DepartmentWrites(orgId, ds[i]));
    ApplyAppend(t, [metadata] + DepartmentsWrites(orgId, ds[..i]), DepartmentWrites(orgId, ds[i]));
  }

  /** The loop over one department's projects: each project's put, then its employees. */
  method InsertProjects(table: KeyValueTable, orgId: string, projects: seq<Project>)
    requires table.Valid()
    modifies table
    ensures table.Valid()
    ensures table.items == Apply(old(table.items), ProjectsWrites(orgId, projects))
  {
    ghost var t0 := table.items;
    var j := 0;
    while j < |projects|
      invariant 0 <= j <= |projects|
      invariant table.Valid()
      invariant table.items == Apply(t0, ProjectsWrites(orgId, projects[..j]))
    {
      var proj := projects[j];
      ghost var before := table.items;
      table.PutItem(ProjectItem(orgId, proj));
      InsertEmployees(table, orgId, OrEmpty(proj.employees));
      ProjectStep(before, orgId, proj);
      ProjectsStep(t0, orgId, projects, j);
      j := j + 1;
    }
    assert projects[..j] == projects;
  }

  /** One project's writes: its put, then its employees' puts. */
  lemma ProjectStep(t: Table, orgId: string, p: Project)
    ensures Apply(t, ProjectWrites(orgId, p))
         == Apply(t[ProjectItem(orgId, p).key := ProjectItem(orgId, p)],
                  EmployeeItems(orgId, OrEmpty(p.employees)))
  {
    var es := OrEmpty(p.employees);
    ApplyAppend(t, [ProjectItem(orgId, p)], EmployeeItems(orgId, es));
    assert [ProjectItem(orgId, p)][..0] == [];
  }

  lemma ProjectsStep(t: Table, orgId: string, ps: seq<Project>, j: nat)
    requires j < |ps|
    ensures Apply(t, ProjectsWrites(orgId, ps[..j + 1]))
         == Apply(Apply(t, ProjectsWrites(orgId, ps[..j])), ProjectWrites(orgId, ps[j]))
  {
    assert ps[..j + 1][..j] == ps[..j];
    ApplyAppend(t, ProjectsWrites(orgId, ps[..j]), ProjectWrites(orgId, ps[j]));
  }

  /** The loop over one project's employees: one put each. */
  method InsertEmployees(table: KeyValueTable, orgId: string, employees: seq<Employee>)
    requires table.Valid()
    modifies table
    ensures table.Valid()
    ensures table.items == Apply(old(table.items), EmployeeItems(orgId, employees))
  {
    ghost var t0 := table.items;
    var k := 0;
    while k < |employees|
      invariant 0 <= k <= |employees|
      invariant table.Valid()
      invariant table.items == Apply(t0, EmployeeItems(orgId, employees[..k]))
    {
      var empItem := EmployeeItem(orgId, employees[k]);
      table.PutItem(empItem);
      ApplySnoc(t0, EmployeeItems(orgId, employees[..k]), empItem);
      assert EmployeeItems(orgId, employees[..k + 1]) == EmployeeItems(orgId, employees[..k]) + [empItem];
      k := k + 1;
    }
    assert employees[..k] == employees;
  }

  lemma AppendAssoc<T>(a: seq<T>, b: seq<T>, c: seq<T>)
    ensures (a + b) + c == a + (b + c)
  {
  }
}
