/** Flattening of a class-validator error tree into field-level details.
    Each node names a property, carries the constraints that property
    violated, and the errors of its nested object; the flattening is a
    pre-order walk in which a node's own constraints come before its
    children's, and paths are dot-joined property names. */
module ClassErrors {
  import opened Js
  import opened ValidatorTypes
  import opened Seqs

  /** One violated constraint: its name (the detail's type) and message. */
  datatype Constraint = Constraint(name: string, message: string)

  /** A class-validator `ValidationError`. An absent `constraints` object
      or `children` array is the empty sequence; constraints keep the
      insertion order `Object.entries` reports. */
  datatype ClassError = ClassError(property: string, constraints: seq<Constraint>, children: seq<ClassError>)

  /** `parentPath ? parentPath + "." + property : property`. */
  function ChildPath(parent: string, property: string): string
  {
    if parent == "" then property else parent + "." + property
  }

  /** The details of one node's own constraints, all at `path`. */
  function ConstraintDetails(cs: seq<Constraint>, path: string): (ds: seq<ErrorDetail>)
    ensures |ds| == |cs|
    ensures forall i | 0 <= i < |cs| :: ds[i] == ErrorDetail(path, cs[i].message, Some(cs[i].name))
  {
    seq(|cs|, i requires 0 <= i < |cs| => ErrorDetail(path, cs[i].message, Some(cs[i].name)))
  }

  /** `formatClassErrors(errorList, parentPath)`, as a function. */
  function Flatten(errs: seq<ClassError>, parent: string): seq<ErrorDetail>
  {
    if |errs| == 0 then []
    else FlattenNode(errs[0], parent) + Flatten(errs[1..], parent)
  }

  /** One node: its own constraints, then its children below its path. */
  function FlattenNode(e: ClassError, parent: string): seq<ErrorDetail>
  {
    var path := ChildPath(parent, e.property);
    ConstraintDetails(e.constraints, path) + Flatten(e.children, path)
  }

  /** Number of constraints in a forest. */
  function CountConstraints(errs: seq<ClassError>): nat
  {
    if |errs| == 0 then 0
    else CountNode(errs[0]) + CountConstraints(errs[1..])
  }

  function CountNode(e: ClassError): nat
  {
    |e.constraints| + CountConstraints(e.children)
  }

  /** The detail `d` is reported for some node of the forest: a node at
      path `p` reports `(p, message, name)` for each of its constraints. */
  ghost predicate Reports(errs: seq<ClassError>, parent: string, d: ErrorDetail)
  {
    exists i | 0 <= i < |errs| :: NodeReports(errs[i], parent, d)
  }

  ghost predicate NodeReports(e: ClassError, parent: string, d: ErrorDetail)
  {
    var path := ChildPath(parent, e.property);
    || (exists j | 0 <= j < |e.constraints| :: d == ErrorDetail(path, e.constraints[j].message, Some(e.constraints[j].name)))
    || Reports(e.children, path, d)
  }

  /** The flattening of a concatenation is the concatenation of the
      flattenings: sibling lists are processed in order. */
  lemma {:induction false} FlattenAppend(a: seq<ClassError>, b: seq<ClassError>, parent: string)
    ensures Flatten(a + b, parent) == Flatten(a, parent) + Flatten(b, parent)
  {
    if |a| > 0 {
      assert (a + b)[0] == a[0];
      assert (a + b)[1..] == a[1..] + b;
      FlattenAppend(a[1..], b, parent);
    } else {
      assert a + b == b;
    }
  }

  /** One detail per constraint in the tree: none is lost or duplicated. */
  lemma {:induction false} FlattenLength(errs: seq<ClassError>, parent: string)
    ensures |Flatten(errs, parent)| == CountConstraints(errs)
  {
    if |errs| > 0 {
      FlattenNodeLength(errs[0], parent);
      FlattenLength(errs[1..], parent);
    }
  }

  lemma {:induction false} FlattenNodeLength(e: ClassError, parent: string)
    ensures |FlattenNode(e, parent)| == CountNode(e)
  {
    FlattenLength(e.children, ChildPath(parent, e.property));
  }

  /** A detail appears in the flattening exactly when some node of the
      tree reports it. */
  lemma {:induction false} FlattenReports(errs: seq<ClassError>, parent: string, d: ErrorDetail)
    ensures d in Flatten(errs, parent) <==> Reports(errs, parent, d)
  {
    if |errs| > 0 {
      FlattenNodeReports(errs[0], parent, d);
      FlattenReports(errs[1..], parent, d);
      if Reports(errs, parent, d) {
        var i :| 0 <= i < |errs| && NodeReports(errs[i], parent, d);
        if i > 0 {
          assert errs[1..][i - 1] == errs[i];
        }
      }
      if Reports(errs[1..], parent, d) {
        var i :| 0 <= i < |errs[1..]| && NodeReports(errs[1..][i], parent, d);
        assert errs[1..][i] == errs[i + 1];
      }
    }
  }

  lemma {:induction false} FlattenNodeReports(e: ClassError, parent: string, d: ErrorDetail)
    ensures d in FlattenNode(e, parent) <==> NodeReports(e, parent, d)
  {
    var path := ChildPath(parent, e.property);
    FlattenReports(e.children, path, d);
    var own := ConstraintDetails(e.constraints, path);
    if d in own {
      var j :| 0 <= j < |own| && own[j] == d;
      assert d == ErrorDetail(path, e.constraints[j].message, Some(e.constraints[j].name));
    }
  }

  /** Below a non-empty parent path every detail's path is `parent.` followed
      by the rest of the property chain. */
  lemma {:induction false} FlattenUnderParent(errs: seq<ClassError>, parent: string)
    requires parent != ""
    ensures forall d | d in Flatten(errs, parent) ::
      |d.path| > |parent| && d.path[..|parent| + 1] == parent + "."
  {
    forall d | d in Flatten(errs, parent)
      ensures |d.path| > |parent| && d.path[..|parent| + 1] == parent + "."
    {
      FlattenReports(errs, parent, d);
      ReportedUnderParent(errs, parent, d);
    }
  }

  lemma {:induction false} ReportedUnderParent(errs: seq<ClassError>, parent: string, d: ErrorDetail)
    requires parent != "" && Reports(errs, parent, d)
    ensures |d.path| > |parent| && d.path[..|parent| + 1] == parent + "."
    decreases errs
  {
    var i :| 0 <= i < |errs| && NodeReports(errs[i], parent, d);
    var e := errs[i];
    var path := ChildPath(parent, e.property);
    assert path == parent + "." + e.property;
    assert path[..|parent| + 1] == parent + ".";
    if Reports(e.children, path, d) {
      ReportedUnderParent(e.children, path, d);
      assert d.path[..|parent| + 1] == d.path[..|path| + 1][..|parent| + 1];
    }
  }

  /** The `forEach` over one node's constraints: one pushed detail per
      constraint, in order, each at the node's path. */
  method PushConstraints(list: seq<ErrorDetail>, cs: seq<Constraint>, path: string) returns (out: seq<ErrorDetail>)
    ensures out == list + ConstraintDetails(cs, path)
  {
    out := list;
    for j := 0 to |cs|
      invariant out == list + ConstraintDetails(cs[..j], path)
    {
      assert ConstraintDetails(cs[..j + 1], path)
          == ConstraintDetails(cs[..j], path) + [ErrorDetail(path, cs[j].message, Some(cs[j].name))];
      out := out + [ErrorDetail(path, cs[j].message, Some(cs[j].name))];
    }
    assert cs[..|cs|] == cs;
  }

  /** Extending the processed prefix by one node appends that node's details. */
  lemma FlattenStep(errs: seq<ClassError>, k: nat, parent: string)
    requires k < |errs|
    ensures Flatten(errs[..k + 1], parent) == Flatten(errs[..k], parent) + FlattenNode(errs[k], parent)
  {
    assert errs[..k + 1] == errs[..k] + [errs[k]];
    FlattenAppend(errs[..k], [errs[k]], parent);
    assert Flatten([errs[k]], parent) == FlattenNode(errs[k], parent) + Flatten([], parent);
  }

  /** `formatClassErrors` as the source writes it: a loop over the list that
      appends each node's constraints and then, when there are children,
      the result of a recursive call below the node's path. */
  method FormatClassErrors(errorList: seq<ClassError>, parentPath: string) returns (list: seq<ErrorDetail>)
    ensures list == Flatten(errorList, parentPath)
    ensures |list| == CountConstraints(errorList)
    decreases errorList
  {
    list := [];
    for k := 0 to |errorList|
      invariant list == Flatten(errorList[..k], parentPath)
    {
      var error := errorList[k];
      var currentPath := if parentPath != "" then parentPath + "." + error.property else error.property;
      assert currentPath == ChildPath(parentPath, error.property);
      ghost var before := list;
      ghost var own := ConstraintDetails(error.constraints, currentPath);
      list := PushConstraints(list, error.constraints, currentPath);
      ghost var nestedPart: seq<ErrorDetail> := [];
      if |error.children| > 0 {
        var nested := FormatClassErrors(error.children, currentPath);
        nestedPart := nested;
        list := list + nested;
      }
      assert nestedPart == Flatten(error.children, currentPath);
      assert list == before + own + nestedPart;
      FlattenStep(errorList, k, parentPath);
      Assoc(before, own, nestedPart);
    }
    assert errorList[..|errorList|] == errorList;
    FlattenLength(errorList, parentPath);
  }
}
