/**
 What flattening an organisation leaves in the table. The puts are grouped by
 the kind their sort key is tagged with; within one kind they come in
 traversal order, and since kinds never share a key, the entry at any key is
 decided by the puts of its kind alone.
 */
module InsertProperties {
  import opened Store
  import opened Keys
  import opened InsertRecord

  // The entities of the tree, in traversal order

  function ProjectsOf(ds: seq<Department>): seq<Project>
    decreases |ds|
  {
    if ds == [] then [] else ProjectsOf(ds[..|ds| - 1]) + OrEmpty(ds[|ds| - 1].projects)
  }

  function EmployeesOf(ps: seq<Project>): seq<Employee>
    decreases |ps|
  {
    if ps == [] then [] else EmployeesOf(ps[..|ps| - 1]) + OrEmpty(ps[|ps| - 1].employees)
  }

  /** Every project of every department, in traversal order. */
  function AllProjects(org: Organization): seq<Project> {
    ProjectsOf(org.departments)
  }

  /** Every employee of every project, in traversal order. */
  function AllEmployees(org: Organization): seq<Employee> {
    EmployeesOf(AllProjects(org))
  }

  function DepartmentItems(pk: string, ds: seq<Department>): seq<Item> {
    seq(|ds|, i requires 0 <= i < |ds| => DepartmentItem(pk, ds[i]))
  }

  function ManagerItems(pk: string, ds: seq<Department>): seq<Item> {
    seq(|ds|, i requires 0 <= i < |ds| => ManagerItem(pk, ds[i].manager))
  }

  function ProjectItems(pk: string, ps: seq<Project>): seq<Item> {
    seq(|ps|, i requires 0 <= i < |ps| => ProjectItem(pk, ps[i]))
  }


  /** The puts of kind `p` that the projects `ps` (with their employees) produce, in order. */
  function ProjectsKindItems(pk: string, ps: seq<Project>, p: string): seq<Item> {
    if p == ProjPrefix then ProjectItems(pk, ps)
    else if p == EmpPrefix then EmployeeItems(pk, EmployeesOf(ps))
    else []
  }

  /** The puts of kind `p` that the departments `ds` (and everything below them) produce, in order. */
  function DepartmentsKindItems(pk: string, ds: seq<Department>, p: string): seq<Item> {
    if p == DeptPrefix then DepartmentItems(pk, ds)
    else if p == MgrPrefix then ManagerItems(pk, ds)
    else ProjectsKindItems(pk, ProjectsOf(ds), p)
  }

  /**
   The puts of kind `p` the flattener issues for `org`, in the order it issues
   them: its metadata item, or one item per department, manager, project or
   employee of the tree.
   */
  function KindItems(org: Organization, p: string): seq<Item> {
    if p == Metadata then [MetadataItem(org)]
    else DepartmentsKindItems(OrgId(org.name), org.departments, p)
  }

  // Concatenation facts

  lemma {:induction false} EmployeesOfAppend(a: seq<Project>, b: seq<Project>)
    ensures EmployeesOf(a + b) == EmployeesOf(a) + EmployeesOf(b)
    decreases |b|
  {
    if b == [] {
      assert a + b == a;
    } else {
      assert (a + b)[..|a + b| - 1] == a + b[..|b| - 1];
      EmployeesOfAppend(a, b[..|b| - 1]);
    }
  }

  lemma EmployeeItemsAppend(pk: string, a: seq<Employee>, b: seq<Employee>)
    ensures EmployeeItems(pk, a + b) == EmployeeItems(pk, a) + EmployeeItems(pk, b)
  {
  }

  lemma ProjectItemsAppend(pk: string, a: seq<Project>, b: seq<Project>)
    ensures ProjectItems(pk, a + b) == ProjectItems(pk, a) + ProjectItems(pk, b)
  {
  }

  // The puts of one kind

  lemma OnlySingle(x: Item, p: string)
    ensures Only([x], p) == if p <= x.key.sk then [x] else []
  {
    assert [x][..0] == [];
  }

  /** A list of puts all tagged `tag` is all of kind `tag` and none of any other kind. */
  lemma {:induction false} OnlyOfKind(w: seq<Item>, tag: string, p: string)
    requires IsKind(tag) && IsKind(p)
    requires forall i :: 0 <= i < |w| ==> tag <= w[i].key.sk
    ensures Only(w, p) == if p == tag then w else []
    decreases |w|
  {
    if w != [] {
      OnlyOfKind(w[..|w| - 1], tag, p);
      if p != tag {
        KindsExclusive(tag, p, w[|w| - 1].key.sk);
      }
    }
  }

  lemma EmployeeItemsOfKind(pk: string, es: seq<Employee>, p: string)
    requires IsKind(p)
    ensures Only(EmployeeItems(pk, es), p) == if p == EmpPrefix then EmployeeItems(pk, es) else []
  {
    forall i | 0 <= i < |es| ensures EmpPrefix <= EmployeeItems(pk, es)[i].key.sk {
      TagIsPrefix(EmpPrefix, es[i].name);
    }
    OnlyOfKind(EmployeeItems(pk, es), EmpPrefix, p);
  }

  lemma TaggedItemOfKind(x: Item, tag: string, name: string, p: string)
    requires IsKind(tag) && IsKind(p) && x.key.sk == tag + name
    ensures Only([x], p) == if p == tag then [x] else []
  {
    OnlySingle(x, p);
    TagIsPrefix(tag, name);
    if p != tag {
      KindsExclusive(tag, p, x.key.sk);
    }
  }


  lemma ProjectsOfSnoc(ds: seq<Department>, d: Department)
    ensures ProjectsOf(ds + [d]) == ProjectsOf(ds) + OrEmpty(d.projects)
  {
    assert (ds + [d])[..|ds|] == ds;
  }

  lemma EmployeesOfSnoc(ps: seq<Project>, q: Project)
    ensures EmployeesOf(ps + [q]) == EmployeesOf(ps) + OrEmpty(q.employees)
  {
    assert (ps + [q])[..|ps|] == ps;
  }

  lemma ProjectWritesOfKind(pk: string, q: Project, p: string)
    requires IsKind(p)
    ensures p == ProjPrefix ==> Only(ProjectWrites(pk, q), p) == [ProjectItem(pk, q)]
    ensures p == EmpPrefix ==> Only(ProjectWrites(pk, q), p) == EmployeeItems(pk, OrEmpty(q.employees))
    ensures p != ProjPrefix && p != EmpPrefix ==> Only(ProjectWrites(pk, q), p) == []
  {
    var es := OrEmpty(q.employees);
    OnlyAppend([ProjectItem(pk, q)], EmployeeItems(pk, es), p);
    TaggedItemOfKind(ProjectItem(pk, q), ProjPrefix, q.name, p);
    EmployeeItemsOfKind(pk, es, p);
  }

  lemma ProjectsKindItemsSnoc(pk: string, ps: seq<Project>, q: Project, p: string)
    requires IsKind(p)
    ensures ProjectsKindItems(pk, ps + [q], p)
         == ProjectsKindItems(pk, ps, p) + Only(ProjectWrites(pk, q), p)
  {
    ProjectWritesOfKind(pk, q, p);
    if p == ProjPrefix {
      ProjectItemsAppend(pk, ps, [q]);
    } else if p == EmpPrefix {
      EmployeesOfSnoc(ps, q);
      EmployeeItemsAppend(pk, EmployeesOf(ps), OrEmpty(q.employees));
    }
  }

  /** A non-empty sequence is its prefix followed by its last element. */
  lemma LastSplit<T>(s: seq<T>)
    requires s != []
    ensures s == s[..|s| - 1] + [s[|s| - 1]]
  {
  }

  lemma ProjectsWritesSnoc(pk: string, init: seq<Project>, last: Project, p: string)
    requires IsKind(p)
    requires Only(ProjectsWrites(pk, init), p) == ProjectsKindItems(pk, init, p)
    ensures Only(ProjectsWrites(pk, init + [last]), p) == ProjectsKindItems(pk, init + [last], p)
  {
    assert (init + [last])[..|init|] == init;
    OnlyAppend(ProjectsWrites(pk, init), ProjectWrites(pk, last), p);
    ProjectsKindItemsSnoc(pk, init, last, p);
  }

  /** The projects' writes, split by kind. */
  lemma {:induction false} ProjectsWritesOfKind(pk: string, ps: seq<Project>, p: string)
    requires IsKind(p)
    ensures Only(ProjectsWrites(pk, ps), p) == ProjectsKindItems(pk, ps, p)
    decreases |ps|
  {
    if ps != [] {
      LastSplit(ps);
      ProjectsWritesOfKind(pk, ps[..|ps| - 1], p);
      ProjectsWritesSnoc(pk, ps[..|ps| - 1], ps[|ps| - 1], p);
    }
  }

  lemma DepartmentWritesSplit(pk: string, d: Department, p: string)
    requires IsKind(p)
    ensures Only(DepartmentWrites(pk, d), p)
         == Only([DepartmentItem(pk, d)], p) + Only([ManagerItem(pk, d.manager)], p)
          + ProjectsKindItems(pk, OrEmpty(d.projects), p)
  {
    var ps := OrEmpty(d.projects);
    var deptItem, mgrItem := DepartmentItem(pk, d), ManagerItem(pk, d.manager);
    OnlyAppend([deptItem, mgrItem], ProjectsWrites(pk, ps), p);
    assert [deptItem, mgrItem] == [deptItem] + [mgrItem];
    OnlyAppend([deptItem], [mgrItem], p);
    ProjectsWritesOfKind(pk, ps, p);
  }

  lemma DepartmentWritesOfKind(pk: string, d: Department, p: string)
    requires IsKind(p)
    ensures p == DeptPrefix ==> Only(DepartmentWrites(pk, d), p) == [DepartmentItem(pk, d)]
    ensures p == MgrPrefix ==> Only(DepartmentWrites(pk, d), p) == [ManagerItem(pk, d.manager)]
    ensures p != DeptPrefix && p != MgrPrefix ==>
      Only(DepartmentWrites(pk, d), p) == ProjectsKindItems(pk, OrEmpty(d.projects), p)
  {
    DepartmentWritesSplit(pk, d, p);
    TaggedItemOfKind(DepartmentItem(pk, d), DeptPrefix, d.name, p);
    TaggedItemOfKind(ManagerItem(pk, d.manager), MgrPrefix, d.manager.name, p);
  }

  lemma ProjectsKindItemsAppend(pk: string, a: seq<Project>, b: seq<Project>, p: string)
    ensures ProjectsKindItems(pk, a + b, p) == ProjectsKindItems(pk, a, p) + ProjectsKindItems(pk, b, p)
  {
    if p == ProjPrefix {
      ProjectItemsAppend(pk, a, b);
    } else if p == EmpPrefix {
      EmployeesOfAppend(a, b);
      EmployeeItemsAppend(pk, EmployeesOf(a), EmployeesOf(b));
    }
  }

  lemma DepartmentsKindItemsSnoc(pk: string, ds: seq<Department>, d: Department, p: string)
    requires IsKind(p)
    ensures DepartmentsKindItems(pk, ds + [d], p)
         == DepartmentsKindItems(pk, ds, p) + Only(DepartmentWrites(pk, d), p)
  {
    DepartmentWritesOfKind(pk, d, p);
    if p == DeptPrefix {
      assert DepartmentItems(pk, ds + [d]) == DepartmentItems(pk, ds) + [DepartmentItem(pk, d)];
    } else if p == MgrPrefix {
      assert ManagerItems(pk, ds + [d]) == ManagerItems(pk, ds) + [ManagerItem(pk, d.manager)];
    } else {
      ProjectsOfSnoc(ds, d);
      ProjectsKindItemsAppend(pk, ProjectsOf(ds), OrEmpty(d.projects), p);
    }
  }

  lemma DepartmentsWritesSnoc(pk: string, init: seq<Department>, last: Department, p: string)
    requires IsKind(p)
    requires Only(DepartmentsWrites(pk, init), p) == DepartmentsKindItems(pk, init, p)
    ensures Only(DepartmentsWrites(pk, init + [last]), p) == DepartmentsKindItems(pk, init + [last], p)
  {
    assert (init + [last])[..|init|] == init;
    OnlyAppend(DepartmentsWrites(pk, init), DepartmentWrites(pk, last), p);
    DepartmentsKindItemsSnoc(pk, init, last, p);
  }

  /** The departments' writes, split by kind. */
  lemma {:induction false} DepartmentsWritesOfKind(pk: string, ds: seq<Department>, p: string)
    requires IsKind(p)
    ensures Only(DepartmentsWrites(pk, ds), p) == DepartmentsKindItems(pk, ds, p)
    decreases |ds|
  {
    if ds != [] {
      LastSplit(ds);
      DepartmentsWritesOfKind(pk, ds[..|ds| - 1], p);
      DepartmentsWritesSnoc(pk, ds[..|ds| - 1], ds[|ds| - 1], p);
    }
  }

  lemma OrganizationWritesSplit(org: Organization, p: string)
    requires IsKind(p)
    ensures Only(OrganizationWrites(org), p)
         == Only([MetadataItem(org)], p) + DepartmentsKindItems(OrgId(org.name), org.departments, p)
  {
    var ds := org.departments;
    OnlyAppend([MetadataItem(org)], DepartmentsWrites(OrgId(org.name), ds), p);
    DepartmentsWritesOfKind(OrgId(org.name), ds, p);
  }

  /** The flattener's puts of kind `p` are exactly the items of that kind, in traversal order. */
  lemma OrganizationWritesOfKind(org: Organization, p: string)
    requires IsKind(p)
    ensures Only(OrganizationWrites(org), p) == KindItems(org, p)
  {
    var metadata := MetadataItem(org);
    OrganizationWritesSplit(org, p);
    OnlySingle(metadata, p);
    if p != Metadata {
      KindsExclusive(Metadata, p, Metadata);
    }
  }

  // What the table holds after the flattener

  /**
   An entity's item stays at its key unless a later entity of the same kind
   has the same name: within a kind, the last write in traversal order wins.
   */
  lemma EntityStored(t: Table, org: Organization, p: string, i: nat)
    requires IsKind(p) && i < |KindItems(org, p)|
    requires forall j :: i < j < |KindItems(org, p)| ==> KindItems(org, p)[j].key != KindItems(org, p)[i].key
    ensures KindItems(org, p)[i].key in Inserted(t, org)
    ensures Inserted(t, org)[KindItems(org, p)[i].key] == KindItems(org, p)[i]
  {
    var w := OrganizationWrites(org);
    var items := KindItems(org, p);
    OrganizationWritesOfKind(org, p);
    LastWriteWins(t, items, i);
    OnlyAgrees(t, w, p, items[i].key);
  }

  /** Every put of the flattener stays in the organisation's partition and carries a kind. */
  predicate WellKeyed(w: seq<Item>, pk: string) {
    forall i :: 0 <= i < |w| ==> w[i].key.pk == pk && KindOf(w[i].key.sk) != ""
  }

  lemma WellKeyedAppend(a: seq<Item>, b: seq<Item>, pk: string)
    requires WellKeyed(a, pk) && WellKeyed(b, pk)
    ensures WellKeyed(a + b, pk)
  {
    forall i | 0 <= i < |a + b| ensures (a + b)[i].key.pk == pk && KindOf((a + b)[i].key.sk) != "" {
      if i >= |a| { assert (a + b)[i] == b[i - |a|]; }
    }
  }

  lemma TaggedItemWellKeyed(x: Item, pk: string, tag: string, name: string)
    requires IsKind(tag) && x.key == Key(pk, tag + name)
    ensures WellKeyed([x], pk)
  {
    TaggedKind(tag, name);
  }

  lemma {:induction false} ProjectsWritesWellKeyed(pk: string, ps: seq<Project>)
    ensures WellKeyed(ProjectsWrites(pk, ps), pk)
    decreases |ps|
  {
    if ps != [] {
      var q := ps[|ps| - 1];
      var es := OrEmpty(q.employees);
      ProjectsWritesWellKeyed(pk, ps[..|ps| - 1]);
      TaggedItemWellKeyed(ProjectItem(pk, q), pk, ProjPrefix, q.name);
      forall i | 0 <= i < |es| ensures KindOf(EmployeeItems(pk, es)[i].key.sk) != "" {
        TaggedKind(EmpPrefix, es[i].name);
      }
      WellKeyedAppend([ProjectItem(pk, q)], EmployeeItems(pk, es), pk);
      WellKeyedAppend(ProjectsWrites(pk, ps[..|ps| - 1]), ProjectWrites(pk, q), pk);
    }
  }

  lemma {:induction false} DepartmentsWritesWellKeyed(pk: string, ds: seq<Department>)
    ensures WellKeyed(DepartmentsWrites(pk, ds), pk)
    decreases |ds|
  {
    if ds != [] {
      var d := ds[|ds| - 1];
      var ps := OrEmpty(d.projects);
      DepartmentsWritesWellKeyed(pk, ds[..|ds| - 1]);
      TaggedItemWellKeyed(DepartmentItem(pk, d), pk, DeptPrefix, d.name);
      TaggedItemWellKeyed(ManagerItem(pk, d.manager), pk, MgrPrefix, d.manager.name);
      WellKeyedAppend([DepartmentItem(pk, d)], [ManagerItem(pk, d.manager)], pk);
      ProjectsWritesWellKeyed(pk, ps);
      WellKeyedAppend([DepartmentItem(pk, d), ManagerItem(pk, d.manager)], ProjectsWrites(pk, ps), pk);
      WellKeyedAppend(DepartmentsWrites(pk, ds[..|ds| - 1]), DepartmentWrites(pk, d), pk);
    }
  }

  lemma OrganizationWritesWellKeyed(org: Organization)
    ensures WellKeyed(OrganizationWrites(org), OrgId(org.name))
  {
    var pk := OrgId(org.name);
    TaggedItemWellKeyed(MetadataItem(org), pk, Metadata, "");
    assert Metadata + "" == Metadata;
    DepartmentsWritesWellKeyed(pk, org.departments);
    WellKeyedAppend([MetadataItem(org)], DepartmentsWrites(pk, org.departments), pk);
  }

  /** Flattening touches no key outside the organisation's partition. */
  lemma OtherPartitionsUnchanged(t: Table, org: Organization, k: Key)
    requires k.pk != OrgId(org.name)
    ensures k in Inserted(t, org) <==> k in t
    ensures k in t ==> Inserted(t, org)[k] == t[k]
  {
    var w := OrganizationWrites(org);
    OrganizationWritesWellKeyed(org);
    forall i | 0 <= i < |w| ensures w[i].key != k { }
    Untouched(t, w, k);
  }

  /** Flattening the same organisation twice leaves the table as flattening it once. */
  lemma InsertIdempotent(t: Table, org: Organization)
    ensures Inserted(Inserted(t, org), org) == Inserted(t, org)
  {
    ApplyIdempotent(t, OrganizationWrites(org));
  }

  /** Flattening keeps the table invariant. */
  lemma InsertedStored(t: Table, org: Organization)
    requires Stored(t)
    ensures Stored(Inserted(t, org))
  {
    ApplyStored(t, OrganizationWrites(org));
  }

  // Which keys the flattener writes

  /** The keys among the puts' keys whose sort key starts with `p`. */
  lemma {:induction false} OnlyKeys(w: seq<Item>, p: string)
    ensures KeysOf(Only(w, p)) == set k | k in KeysOf(w) && p <= k.sk
    decreases |w|
  {
    if w != [] {
      var front, last := w[..|w| - 1], w[|w| - 1];
      OnlyKeys(front, p);
      KeysOfSnoc(w);
      var kept := Only(front, p);
      if p <= last.key.sk {
        assert Only(w, p) == kept + [last];
        assert (kept + [last])[..|kept|] == kept;
        KeysOfSnoc(kept + [last]);
      } else {
        assert Only(w, p) == kept;
      }
    }
  }

  /** The keys the flattener writes for the items of kind `p`. */
  function KindKeys(org: Organization, p: string): set<Key> {
    KeysOf(KindItems(org, p))
  }

  lemma KindKeysAreWritten(org: Organization, p: string)
    requires IsKind(p)
    ensures KindKeys(org, p) == set k | k in KeysOf(OrganizationWrites(org)) && p <= k.sk
  {
    OrganizationWritesOfKind(org, p);
    OnlyKeys(OrganizationWrites(org), p);
  }

  lemma WrittenKeysInPartition(org: Organization, k: Key)
    requires k in KeysOf(OrganizationWrites(org))
    ensures k.pk == OrgId(org.name) && IsKind(KindOf(k.sk))
  {
    OrganizationWritesWellKeyed(org);
    var w := OrganizationWrites(org);
    var i :| 0 <= i < |w| && w[i].key == k;
  }

  lemma KindKeysDisjoint(org: Organization, p: string, q: string)
    requires IsKind(p) && IsKind(q) && p != q
    ensures KindKeys(org, p) !! KindKeys(org, q)
  {
    KindKeysAreWritten(org, p);
    KindKeysAreWritten(org, q);
    forall k | k in KindKeys(org, p) ensures k !in KindKeys(org, q) {
      KindsExclusive(p, q, k.sk);
    }
  }

  /** A written key belongs to the keys of the kind its sort key carries. */
  lemma WrittenKeyHasKind(org: Organization, k: Key)
    requires k in KeysOf(OrganizationWrites(org))
    ensures IsKind(KindOf(k.sk)) && k in KindKeys(org, KindOf(k.sk))
  {
    WrittenKeysInPartition(org, k);
    KindKeysAreWritten(org, KindOf(k.sk));
  }

  lemma KindKeysWritten(org: Organization, p: string)
    requires IsKind(p)
    ensures KindKeys(org, p) <= KeysOf(OrganizationWrites(org))
  {
    KindKeysAreWritten(org, p);
  }

  /** Every key the flattener writes is a key of one of the five kinds. */
  lemma WrittenKeysByKind(org: Organization)
    ensures KeysOf(OrganizationWrites(org))
         == KindKeys(org, Metadata) + KindKeys(org, DeptPrefix) + KindKeys(org, MgrPrefix)
          + KindKeys(org, ProjPrefix) + KindKeys(org, EmpPrefix)
  {
    KindKeysWritten(org, Metadata);
    KindKeysWritten(org, DeptPrefix);
    KindKeysWritten(org, MgrPrefix);
    KindKeysWritten(org, ProjPrefix);
    KindKeysWritten(org, EmpPrefix);
    forall k | k in KeysOf(OrganizationWrites(org))
      ensures k in KindKeys(org, Metadata) + KindKeys(org, DeptPrefix) + KindKeys(org, MgrPrefix)
                 + KindKeys(org, ProjPrefix) + KindKeys(org, EmpPrefix)
    {
      WrittenKeyHasKind(org, k);
    }
  }

  lemma DisjointUnionSize<T>(a: set<T>, b: set<T>)
    requires a !! b
    ensures |a + b| == |a| + |b|
  {
    assert a * b == {};
  }

  /**
   No two entities of kind `p` share a name: departments for `DEPT#`, managers
   for `MGR#`, projects for `PROJ#`, employees for `EMP#`. The one metadata
   item has nothing to clash with.
   */
  predicate UniqueNamesOfKind(org: Organization, p: string) {
    var ds, ps, es := org.departments, AllProjects(org), AllEmployees(org);
    if p == DeptPrefix then forall i, j :: 0 <= i < j < |ds| ==> ds[i].name != ds[j].name
    else if p == MgrPrefix then forall i, j :: 0 <= i < j < |ds| ==> ds[i].manager.name != ds[j].manager.name
    else if p == ProjPrefix then forall i, j :: 0 <= i < j < |ps| ==> ps[i].name != ps[j].name
    else if p == EmpPrefix then forall i, j :: 0 <= i < j < |es| ==> es[i].name != es[j].name
    else true
  }

  /** No two departments, managers, projects or employees of the tree share a name within their type. */
  predicate UniqueNames(org: Organization) {
    && UniqueNamesOfKind(org, DeptPrefix) && UniqueNamesOfKind(org, MgrPrefix)
    && UniqueNamesOfKind(org, ProjPrefix) && UniqueNamesOfKind(org, EmpPrefix)
  }

  /** How many puts of each kind the flattener issues. */
  lemma KindItemsCount(org: Organization)
    ensures |KindItems(org, Metadata)| == 1
    ensures |KindItems(org, DeptPrefix)| == |KindItems(org, MgrPrefix)| == |org.departments|
    ensures |KindItems(org, ProjPrefix)| == |AllProjects(org)|
    ensures |KindItems(org, EmpPrefix)| == |AllEmployees(org)|
  {
  }

  /** With unique names within kind `p`, no two puts of that kind share a key. */
  lemma UniqueNamesDistinctKeys(org: Organization, p: string)
    requires UniqueNamesOfKind(org, p) && IsKind(p)
    ensures DistinctKeys(KindItems(org, p))
  {
    var w := KindItems(org, p);
    var ds, ps, es := org.departments, AllProjects(org), AllEmployees(org);
    forall i, j | 0 <= i < j < |w| ensures w[i].key != w[j].key {
      if p == DeptPrefix {
        TaggedKeyInjective(DeptPrefix, ds[i].name, ds[j].name);
      } else if p == MgrPrefix {
        TaggedKeyInjective(MgrPrefix, ds[i].manager.name, ds[j].manager.name);
      } else if p == ProjPrefix {
        TaggedKeyInjective(ProjPrefix, ps[i].name, ps[j].name);
      } else if p == EmpPrefix {
        TaggedKeyInjective(EmpPrefix, es[i].name, es[j].name);
      }
    }
  }

  lemma KindKeysSize(org: Organization, p: string)
    requires IsKind(p)
    ensures |KindKeys(org, p)| <= |KindItems(org, p)|
    ensures UniqueNamesOfKind(org, p) ==> |KindKeys(org, p)| == |KindItems(org, p)|
  {
    KeysOfSize(KindItems(org, p));
    if UniqueNamesOfKind(org, p) {
      UniqueNamesDistinctKeys(org, p);
    }
  }

  /**
   The flattener writes at most one key per entity and no key for a task
   (tasks live inside their employee's item); with unique names per type it
   writes exactly one key per entity.
   */
  lemma WrittenKeyCount(org: Organization)
    ensures |KeysOf(OrganizationWrites(org))|
         <= 1 + 2 * |org.departments| + |AllProjects(org)| + |AllEmployees(org)|
    ensures UniqueNames(org) ==>
      |KeysOf(OrganizationWrites(org))| == 1 + 2 * |org.departments| + |AllProjects(org)| + |AllEmployees(org)|
  {
    var a, b, c := KindKeys(org, Metadata), KindKeys(org, DeptPrefix), KindKeys(org, MgrPrefix);
    var d, e := KindKeys(org, ProjPrefix), KindKeys(org, EmpPrefix);
    WrittenKeysByKind(org);
    KindKeysDisjoint(org, Metadata, DeptPrefix);
    KindKeysDisjoint(org, Metadata, MgrPrefix);
    KindKeysDisjoint(org, Metadata, ProjPrefix);
    KindKeysDisjoint(org, Metadata, EmpPrefix);
    KindKeysDisjoint(org, DeptPrefix, MgrPrefix);
    KindKeysDisjoint(org, DeptPrefix, ProjPrefix);
    KindKeysDisjoint(org, DeptPrefix, EmpPrefix);
    KindKeysDisjoint(org, MgrPrefix, ProjPrefix);
    KindKeysDisjoint(org, MgrPrefix, EmpPrefix);
    KindKeysDisjoint(org, ProjPrefix, EmpPrefix);
    DisjointUnionSize(a, b);
    DisjointUnionSize(a + b, c);
    DisjointUnionSize(a + b + c, d);
    DisjointUnionSize(a + b + c + d, e);
    KindItemsCount(org);
    KindKeysSize(org, Metadata);
    KindKeysSize(org, DeptPrefix);
    KindKeysSize(org, MgrPrefix);
    KindKeysSize(org, ProjPrefix);
    KindKeysSize(org, EmpPrefix);
  }

  /** Flattening into an empty partition adds exactly the written keys to the table. */
  lemma InsertedSize(t: Table, org: Organization)
    requires PartitionEmpty(t, OrgId(org.name))
    ensures |Inserted(t, org)| == |t| + |KeysOf(OrganizationWrites(org))|
  {
    var w := OrganizationWrites(org);
    ApplyKeys(t, w);
    forall k | k in KeysOf(w) ensures k !in t {
      WrittenKeysInPartition(org, k);
    }
    DisjointUnionSize(t.Keys, KeysOf(w));
  }

  // What the scans of the partition return after the flattener

  /** Each item of kind `p` written leaves its key in the table. */
  lemma KindItemPresent(t: Table, org: Organization, p: string, i: nat)
    requires IsKind(p) && i < |KindItems(org, p)|
    ensures KindItems(org, p)[i].key in Inserted(t, org)
    ensures KindItems(org, p)[i].key.pk == OrgId(org.name)
  {
    KindKeysAreWritten(org, p);
    assert KindItems(org, p)[i].key in KindKeys(org, p);
    ApplyKeys(t, OrganizationWrites(org));
    WrittenKeysInPartition(org, KindItems(org, p)[i].key);
  }

  /** Into an empty partition, a scan by kind finds exactly the keys written for that kind. */
  lemma ScanKeysAfterInsert(t: Table, org: Organization, p: string)
    requires IsKind(p) && PartitionEmpty(t, OrgId(org.name))
    ensures MatchingKeys(Inserted(t, org), OrgId(org.name), p) == KindKeys(org, p)
  {
    var w := OrganizationWrites(org);
    ApplyKeys(t, w);
    KindKeysAreWritten(org, p);
    forall k | k in KindKeys(org, p) ensures k.pk == OrgId(org.name) {
      WrittenKeysInPartition(org, k);
    }
  }

  /**
   Into an empty partition and with unique names within kind `p`, a scan by
   that kind returns exactly the items of that kind the flattener built, one
   per entity; names repeated in other kinds do not matter.
   */
  lemma ScanAfterInsert(t: Table, org: Organization, p: string)
    requires Stored(t) && IsKind(p) && PartitionEmpty(t, OrgId(org.name)) && UniqueNamesOfKind(org, p)
    ensures Query(Inserted(t, org), OrgId(org.name), p) == set x | x in KindItems(org, p)
    ensures |Query(Inserted(t, org), OrgId(org.name), p)| == |KindItems(org, p)|
  {
    var pk, w, t' := OrgId(org.name), KindItems(org, p), Inserted(t, org);
    UniqueNamesDistinctKeys(org, p);
    ScanKeysAfterInsert(t, org, p);
    forall k | k in MatchingKeys(t', pk, p) ensures exists i :: 0 <= i < |w| && w[i].key == k && t'[k] == w[i] {
      var i :| 0 <= i < |w| && w[i].key == k;
      EntityStored(t, org, p, i);
    }
    forall i | 0 <= i < |w| ensures w[i] in Query(t', pk, p) {
      EntityStored(t, org, p, i);
      assert w[i].key in KindKeys(org, p);
    }
    InsertedStored(t, org);
    QuerySize(t', pk, p);
    KindKeysSize(org, p);
  }

  // References between items

  lemma {:induction false} ProjectsOfContains(ds: seq<Department>, i: nat, q: Project)
    requires i < |ds| && q in OrEmpty(ds[i].projects)
    ensures q in ProjectsOf(ds)
    decreases |ds|
  {
    if i < |ds| - 1 {
      ProjectsOfContains(ds[..|ds| - 1], i, q);
    }
  }

  lemma {:induction false} EmployeesOfContains(ps: seq<Project>, j: nat, e: Employee)
    requires j < |ps| && e in OrEmpty(ps[j].employees)
    ensures e in EmployeesOf(ps)
    decreases |ps|
  {
    if j < |ps| - 1 {
      EmployeesOfContains(ps[..|ps| - 1], j, e);
    }
  }

  lemma ProjectKeyPresent(t: Table, org: Organization, q: Project)
    requires q in AllProjects(org)
    ensures Key(OrgId(org.name), ProjPrefix + q.name) in Inserted(t, org)
  {
    var n :| 0 <= n < |AllProjects(org)| && AllProjects(org)[n] == q;
    KindItemsCount(org);
    assert KindItems(org, ProjPrefix)[n] == ProjectItem(OrgId(org.name), q);
    KindItemPresent(t, org, ProjPrefix, n);
  }

  lemma EmployeeKeyPresent(t: Table, org: Organization, e: Employee)
    requires e in AllEmployees(org)
    ensures Key(OrgId(org.name), EmpPrefix + e.name) in Inserted(t, org)
  {
    var n :| 0 <= n < |AllEmployees(org)| && AllEmployees(org)[n] == e;
    KindItemsCount(org);
    assert KindItems(org, EmpPrefix)[n] == EmployeeItem(OrgId(org.name), e);
    KindItemPresent(t, org, EmpPrefix, n);
  }

  /** Every `PROJ#` reference a department item carries names a project key present after insertion. */
  lemma DepartmentRefsResolve(t: Table, org: Organization, i: nat)
    requires i < |org.departments|
    ensures var refs := DepartmentItem(OrgId(org.name), org.departments[i]).attrs["projects"];
      refs.L? && forall r :: r in refs.elems ==> r.S? && Key(OrgId(org.name), r.s) in Inserted(t, org)
  {
    var pk, d := OrgId(org.name), org.departments[i];
    var ps := OrEmpty(d.projects);
    assert DepartmentItem(pk, d).attrs["projects"] == L(ProjectRefs(ps));
    forall r | r in ProjectRefs(ps) ensures r.S? && Key(pk, r.s) in Inserted(t, org) {
      var j :| 0 <= j < |ps| && ProjectRefs(ps)[j] == r;
      ProjectsOfContains(org.departments, i, ps[j]);
      ProjectKeyPresent(t, org, ps[j]);
    }
  }

  /** Every `EMP#` reference a project item carries names an employee key present after insertion. */
  lemma ProjectRefsResolve(t: Table, org: Organization, j: nat)
    requires j < |AllProjects(org)|
    ensures var refs := ProjectItem(OrgId(org.name), AllProjects(org)[j]).attrs["employees"];
      refs.L? && forall r :: r in refs.elems ==> r.S? && Key(OrgId(org.name), r.s) in Inserted(t, org)
  {
    var pk, q := OrgId(org.name), AllProjects(org)[j];
    var es := OrEmpty(q.employees);
    assert ProjectItem(pk, q).attrs["employees"] == L(EmployeeRefs(es));
    forall r | r in EmployeeRefs(es) ensures r.S? && Key(pk, r.s) in Inserted(t, org) {
      var k :| 0 <= k < |es| && EmployeeRefs(es)[k] == r;
      EmployeesOfContains(AllProjects(org), j, es[k]);
      EmployeeKeyPresent(t, org, es[k]);
    }
  }
}
