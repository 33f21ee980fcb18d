/**
 The single-table key scheme: every record of one organisation lives under the
 partition key `ORG#<name>`, and its sort key is a type tag followed by the
 entity's name (or the fixed tag `METADATA` for the organisation itself).
 */
module Keys {

  const OrgPrefix := "ORG#"
  const Metadata := "METADATA"
  const DeptPrefix := "DEPT#"
  const MgrPrefix := "MGR#"
  const ProjPrefix := "PROJ#"
  const EmpPrefix := "EMP#"

  /** The partition key of an organisation. */
  function OrgId(orgName: string): (pk: string)
    ensures OrgPrefix <= pk && pk[|OrgPrefix|..] == orgName
  {
    OrgPrefix + orgName
  }

  /** The four type tags that the list queries scan for. */
  predicate IsTypePrefix(p: string) {
    p == DeptPrefix || p == MgrPrefix || p == ProjPrefix || p == EmpPrefix
  }

  /** The five sort-key kinds the flattener writes: the metadata tag and the type tags. */
  predicate IsKind(p: string) {
    p == Metadata || IsTypePrefix(p)
  }

  /** A tagged sort key names its entity: tag + name determines the name. */
  lemma {:induction false} TaggedKeyInjective(p: string, a: string, b: string)
    ensures (p + a == p + b) <==> a == b
  {
    if p + a == p + b {
      assert a == (p + a)[|p|..];
      assert b == (p + b)[|p|..];
    }
  }

  /** A tag is a prefix of every sort key built from it. */
  lemma {:induction false} TagIsPrefix(p: string, name: string)
    ensures p <= p + name
  {
    assert (p + name)[..|p|] == p;
  }

  /**
   The five kinds never overlap: a sort key that starts with one of them starts
   with no other. So a record is found by at most one list query, and the
   metadata record (whose sort key is the tag `METADATA` itself) by none.
   */
  lemma KindsExclusive(p: string, q: string, sk: string)
    requires IsKind(p) && IsKind(q) && p != q && p <= sk
    ensures !(q <= sk)
  {
    assert sk[0] == p[0] && sk[1] == p[1];
  }

  /** The kind a sort key is tagged with, or "" when it carries none of the five. */
  function KindOf(sk: string): (p: string)
    ensures p == "" || (IsKind(p) && p <= sk)
  {
    if Metadata <= sk then Metadata
    else if DeptPrefix <= sk then DeptPrefix
    else if MgrPrefix <= sk then MgrPrefix
    else if ProjPrefix <= sk then ProjPrefix
    else if EmpPrefix <= sk then EmpPrefix
    else ""
  }

  /** A tagged sort key is of the kind of its tag. */
  lemma TaggedKind(p: string, name: string)
    requires IsKind(p)
    ensures KindOf(p + name) == p
  {
    TagIsPrefix(p, name);
    var sk := p + name;
    if p != Metadata { KindsExclusive(p, Metadata, sk); }
    if p != DeptPrefix { KindsExclusive(p, DeptPrefix, sk); }
    if p != MgrPrefix { KindsExclusive(p, MgrPrefix, sk); }
    if p != ProjPrefix { KindsExclusive(p, ProjPrefix, sk); }
  }
}
