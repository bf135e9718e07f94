/** The validation adapter: one call that accepts a schema of any of three
    libraries, recognises which one it is, runs it, and returns the uniform
    result. The libraries themselves are not modelled: a schema value
    carries what its library returns for the input of this call, and the
    adapter's job is to classify the schema and translate that reply. */
module Validator {
  import opened Js
  import opened Strings
  import opened ValidatorTypes
  import opened ClassErrors

  // ---------------------------------------------------------------------
  // What the three libraries reply
  // ---------------------------------------------------------------------

  /** A zod path segment: an object key or an array index. */
  datatype Segment = Key(key: string) | Index(index: nat)

  /** A zod issue: `{path, message, code}`. */
  datatype ZodIssue = ZodIssue(path: seq<Segment>, message: string, code: string)

  /** A zod error object; `issues` is the current field and `errors` the
      older one, either may be missing. */
  datatype ZodError = ZodError(issues: Option<seq<ZodIssue>>, errors: Option<seq<ZodIssue>>, message: Option<string>)

  /** What `safeParseAsync(input)` does: resolve to a success, resolve to a
      failure that may carry an error object, or reject. */
  datatype ZodReply<+D> = ZodSuccess(data: D) | ZodFailure(error: Option<ZodError>) | ZodRejected(reason: string)

  /** One entry of a yup error's `inner` list, or an entry that is `null`
      or `undefined`, whose fields cannot be read. */
  datatype YupInner = YupInner(path: Option<string>, message: string, kind: Option<string>) | NullishInner

  /** The error yup throws; `inner` is absent when it is missing or not an array. */
  datatype YupError = YupError(inner: Option<seq<YupInner>>, path: Option<string>, message: Option<string>, kind: Option<string>)

  /** What `validate(input, {abortEarly: false, stripUnknown: true})` does:
      resolve, throw (or reject with) a value, or throw `null` or
      `undefined`. A thrown primitive is a `YupError` without fields. */
  datatype YupReply<+D> = YupValid(data: D) | YupThrew(error: YupError) | YupThrewNullish

  /** What loading class-validator and class-transformer, building the
      instance and validating it does: the instance and its violations, or
      an exception anywhere along the way, with its `message` when that is
      a non-empty string, or `null` or `undefined` thrown. */
  datatype ClassReply<+D> = Built(instance: D, violations: seq<ClassError>) | Crashed(reason: Option<string>) | CrashedNullish

  /** The schema argument as the adapter can probe it. An object may have a
      `safeParseAsync` method (with its reply for this input) and may have
      the `__isYupSchema__` key (its `validate` reply is kept either way); a
      function has a source text and, as a class, a reply; anything else
      (null, undefined, a primitive) has neither. */
  datatype Schema<+D> =
    | Object(safeParseAsync: Option<ZodReply<D>>, hasYupMarker: bool, validate: YupReply<D>)
    | Function(source: string, construct: ClassReply<D>)
    | Other

  // ---------------------------------------------------------------------
  // Recognising the schema
  // ---------------------------------------------------------------------

  /** A non-null object with a `safeParseAsync` function. */
  predicate IsZodSchema<D>(s: Schema<D>)
  {
    s.Object? && s.safeParseAsync.Some?
  }

  /** A non-null object with the key `__isYupSchema__`, whatever its value. */
  predicate IsYupSchema<D>(s: Schema<D>)
  {
    s.Object? && s.hasYupMarker
  }

  /** A function whose source text matches `/^\s*class\s+/`. */
  predicate IsClassConstructor<D>(s: Schema<D>)
  {
    s.Function? && LooksLikeClass(s.source)
  }

  /** `\s` of a JavaScript regular expression: the white space and line
      terminator characters of the ECMAScript standard. */
  predicate IsJsSpace(c: char)
  {
    || c == '\t' || c == '\n' || c == '\U{0B}' || c == '\U{0C}' || c == '\r' || c == ' '
    || c == '\U{A0}' || c == '\U{1680}' || ('\U{2000}' <= c <= '\U{200A}')
    || c == '\U{2028}' || c == '\U{2029}' || c == '\U{202F}' || c == '\U{205F}'
    || c == '\U{3000}' || c == '\U{FEFF}'
  }

  predicate AllSpaces(s: string)
  {
    forall i | 0 <= i < |s| :: IsJsSpace(s[i])
  }

  lemma AllSpacesCons(c: char, x: string)
    requires IsJsSpace(c) && AllSpaces(x)
    ensures AllSpaces([c] + x)
  {
    forall i | 0 <= i < |[c] + x|
      ensures IsJsSpace(([c] + x)[i])
    {
      if i > 0 {
        assert ([c] + x)[i] == x[i - 1];
      }
    }
  }

  /** The text after the leading white space. */
  function SkipSpaces(s: string): (t: string)
    ensures |t| <= |s| && t == s[|s| - |t|..]
    ensures AllSpaces(s[..|s| - |t|])
    ensures |t| > 0 ==> !IsJsSpace(t[0])
  {
    if |s| > 0 && IsJsSpace(s[0]) then
      var tail := s[1..];
      var t := SkipSpaces(tail);
      var k := |tail| - |t|;
      assert s[..k + 1] == [s[0]] + tail[..k];
      AllSpacesCons(s[0], tail[..k]);
      assert tail[k..] == s[k + 1..];
      t
    else s
  }

  /** The word `class` followed by a space starts at index `k` of `s`. */
  predicate ClassWordAt(s: string, k: nat)
  {
    && k + 6 <= |s|
    && s[k] == 'c' && s[k + 1] == 'l' && s[k + 2] == 'a' && s[k + 3] == 's' && s[k + 4] == 's'
    && IsJsSpace(s[k + 5])
  }

  /** `/^\s*class\s+/.test(source)`, decided after the leading spaces. */
  predicate LooksLikeClass(source: string)
  {
    ClassWordAt(SkipSpaces(source), 0)
  }

  /** The regular expression matches with its `\s*` covering the first `k`
      characters. */
  predicate ClassAt(source: string, k: nat)
  {
    k <= |source| && AllSpaces(source[..k]) && ClassWordAt(source, k)
  }

  /** The leading white space ends at the first character that is not a
      space: any all-space prefix followed by a non-space is exactly it. */
  lemma {:induction false} SkipSpacesStopsAt(s: string, k: nat)
    requires k < |s| && AllSpaces(s[..k]) && !IsJsSpace(s[k])
    ensures SkipSpaces(s) == s[k..]
  {
    if k > 0 {
      var tail := s[1..];
      assert IsJsSpace(s[0]) by {
        assert s[..k][0] == s[0];
      }
      var pre := tail[..k - 1];
      assert AllSpaces(pre) by {
        forall i | 0 <= i < |pre|
          ensures IsJsSpace(pre[i])
        {
          assert pre[i] == s[..k][i + 1];
        }
      }
      assert tail[k - 1] == s[k];
      SkipSpacesStopsAt(tail, k - 1);
      assert tail[k - 1..] == s[k..];
    }
  }

  /** The regular expression's own reading: some all-space prefix is
      followed by `class` and a space. */
  lemma LooksLikeClassMeansRegex(source: string)
    ensures LooksLikeClass(source) <==> exists k: nat :: ClassAt(source, k)
  {
    if LooksLikeClass(source) {
      ClassAtSkipped(source);
    }
    if exists k: nat :: ClassAt(source, k) {
      var k: nat :| ClassAt(source, k);
      ClassAtIsSkipped(source, k);
    }
  }

  lemma ClassAtSkipped(source: string)
    requires LooksLikeClass(source)
    ensures ClassAt(source, |source| - |SkipSpaces(source)|)
  {
    var t := SkipSpaces(source);
    var n := |source| - |t|;
    forall i | 0 <= i < 6
      ensures t[i] == source[n + i]
    {
    }
  }

  lemma ClassAtIsSkipped(source: string, k: nat)
    requires ClassAt(source, k)
    ensures LooksLikeClass(source)
  {
    SkipSpacesStopsAt(source, k);
    var t := SkipSpaces(source);
    forall i | 0 <= i < 6
      ensures t[i] == source[k + i]
    {
    }
  }

  /** The adapter's fixed order: zod, then yup, then class. */
  datatype SchemaKind = ZodKind | YupKind | ClassKind | Unsupported

  function Classify<D>(s: Schema<D>): (k: SchemaKind)
    ensures k == ZodKind <==> IsZodSchema(s)
    ensures k == YupKind <==> !IsZodSchema(s) && IsYupSchema(s)
    ensures k == ClassKind <==> !IsZodSchema(s) && !IsYupSchema(s) && IsClassConstructor(s)
    ensures k == Unsupported <==> !IsZodSchema(s) && !IsYupSchema(s) && !IsClassConstructor(s)
  {
    if IsZodSchema(s) then ZodKind
    else if IsYupSchema(s) then YupKind
    else if IsClassConstructor(s) then ClassKind
    else Unsupported
  }

  // ---------------------------------------------------------------------
  // Zod
  // ---------------------------------------------------------------------

  /** A segment as `join` writes it: keys as they are, indices in decimal. */
  function SegmentText(seg: Segment): string
  {
    match seg
    case Key(k) => k
    case Index(n) => NatToString(n)
  }

  function SegmentTexts(segs: seq<Segment>): (ts: seq<string>)
    ensures |ts| == |segs|
    ensures forall i | 0 <= i < |segs| :: ts[i] == SegmentText(segs[i])
  {
    seq(|segs|, i requires 0 <= i < |segs| => SegmentText(segs[i]))
  }

  /** `issue.path.join('.')`. */
  function IssuePath(segs: seq<Segment>): string
  {
    Join(SegmentTexts(segs), ".")
  }

  /** A non-empty path whose keys hold no dot is recovered by splitting. */
  lemma IssuePathSplits(segs: seq<Segment>)
    requires |segs| >= 1
    requires forall i | 0 <= i < |segs| :: segs[i].Key? ==> '.' !in segs[i].key
    ensures Split(IssuePath(segs), '.') == SegmentTexts(segs)
  {
    var ts := SegmentTexts(segs);
    forall i | 0 <= i < |ts|
      ensures '.' !in ts[i]
    {
      if segs[i].Index? {
        var d := NatToString(segs[i].index);
        assert forall j | 0 <= j < |d| :: IsDigit(d[j]);
      }
    }
    SplitJoin(ts, '.');
  }

  /** `result.error?.issues || result.error?.errors || []`: an array is
      truthy even when empty, so a present `issues` wins. */
  function IssueList(e: ZodError): seq<ZodIssue>
  {
    if e.issues.Some? then e.issues.value
    else if e.errors.Some? then e.errors.value
    else []
  }

  function IssueDetail(issue: ZodIssue): ErrorDetail
  {
    ErrorDetail(IssuePath(issue.path), issue.message, Some(issue.code))
  }

  /** The details of a failed `safeParseAsync`. */
  function ZodDetails(error: Option<ZodError>): (ds: seq<ErrorDetail>)
    ensures error.None? ==> ds == []
    ensures error.Some? ==> |ds| >= 1
    ensures error.Some? && |IssueList(error.value)| > 0 ==>
      var issues := IssueList(error.value);
      && |ds| == |issues|
      && forall i | 0 <= i < |issues| ::
           ds[i] == ErrorDetail(IssuePath(issues[i].path), issues[i].message, Some(issues[i].code))
    ensures error.Some? && |IssueList(error.value)| == 0 ==>
      ds == [ErrorDetail("", Or(error.value.message, "Zod validation error"), Some("unknown"))]
  {
    var issues := if error.Some? then IssueList(error.value) else [];
    var mapped := seq(|issues|, i requires 0 <= i < |issues| => IssueDetail(issues[i]));
    if |mapped| == 0 && error.Some? then
      [ErrorDetail("", Or(error.value.message, "Zod validation error"), Some("unknown"))]
    else mapped
  }

  /** An `issues` array that is present but empty is not replaced by
      `errors`: the failure gets the single fallback entry. */
  lemma EmptyIssuesWin(errors: seq<ZodIssue>, message: Option<string>)
    ensures ZodDetails(Some(ZodError(Some([]), Some(errors), message)))
         == [ErrorDetail("", Or(message, "Zod validation error"), Some("unknown"))]
  {
  }

  /** The zod branch. It has no `try`: a rejection propagates. */
  function ZodOutcome<D>(reply: ZodReply<D>): (r: Thrown<ValidationResult<D>>)
    ensures reply.ZodSuccess? ==> r == Returned(Valid(reply.data))
    ensures reply.ZodFailure? ==> r == Returned(Invalid(ZodDetails(reply.error)))
    ensures reply.ZodRejected? ==> r == Threw(reply.reason)
  {
    match reply
    case ZodSuccess(data) => Returned(Valid(data))
    case ZodFailure(error) => Returned(Invalid(ZodDetails(error)))
    case ZodRejected(reason) => Threw(reason)
  }

  // ---------------------------------------------------------------------
  // Yup
  // ---------------------------------------------------------------------

  /** `err.inner && Array.isArray(err.inner) && err.inner.length > 0`. */
  predicate HasInner(err: YupError)
  {
    err.inner.Some? && |err.inner.value| > 0
  }

  /** Every entry `forEach` reaches can be read: `inner` is not used, or
      none of its entries is `null` or `undefined`. */
  predicate InnerReadable(err: YupError)
  {
    !HasInner(err) || forall i | 0 <= i < |err.inner.value| :: err.inner.value[i].YupInner?
  }

  /** The details of a thrown yup error. */
  function YupDetails(err: YupError): (ds: seq<ErrorDetail>)
    requires InnerReadable(err)
    ensures |ds| >= 1
    ensures HasInner(err) ==>
      var inner := err.inner.value;
      && |ds| == |inner|
      && forall i | 0 <= i < |inner| ::
           && ds[i].path == Or(inner[i].path, "")
           && ds[i].message == inner[i].message
           && ds[i].kind == inner[i].kind
    ensures !HasInner(err) ==>
      ds == [ErrorDetail(Or(err.path, ""), Or(err.message, "Yup validation error"), Some(Or(err.kind, "unknown")))]
  {
    if HasInner(err) then
      var inner := err.inner.value;
      seq(|inner|, i requires 0 <= i < |inner| => ErrorDetail(Or(inner[i].path, ""), inner[i].message, inner[i].kind))
    else
      [ErrorDetail(Or(err.path, ""), Or(err.message, "Yup validation error"), Some(Or(err.kind, "unknown")))]
  }

  /** Reading a property of `null` or `undefined` throws a TypeError. Its
      message depends on the JavaScript engine, so only its name is kept. */
  const NullishRead: string := "TypeError"

  /** The `catch` block itself throws, so `validate` rejects: the thrown
      value is nullish (`err.inner`), or an entry of `inner` is (`e.path`). */
  predicate YupRejects<D>(reply: YupReply<D>)
  {
    reply.YupThrewNullish? || (reply.YupThrew? && !InnerReadable(reply.error))
  }

  /** The yup branch: a thrown error is translated by the `catch` block,
      which throws in turn when it reads a field of a nullish value. */
  function YupOutcome<D>(reply: YupReply<D>): (r: Thrown<ValidationResult<D>>)
    ensures reply.YupValid? ==> r == Returned(Valid(reply.data))
    ensures reply.YupThrew? && InnerReadable(reply.error) ==> r == Returned(Invalid(YupDetails(reply.error)))
    ensures r.Returned? && r.value.Invalid? ==> |r.value.errors| >= 1
    ensures r.Threw? <==> YupRejects(reply)
    ensures r.Threw? ==> r == Threw(NullishRead)
  {
    match reply
    case YupValid(data) => Returned(Valid(data))
    case YupThrew(err) => if InnerReadable(err) then Returned(Invalid(YupDetails(err))) else Threw(NullishRead)
    case YupThrewNullish => Threw(NullishRead)
  }

  // ---------------------------------------------------------------------
  // class-validator
  // ---------------------------------------------------------------------

  const ClassErrorPrefix: string := "Error processing Class-Validator: "

  /** The class branch: no violations is success with the built instance;
      violations are flattened from the root, in pre-order; any exception
      becomes one `internal_error` detail, except a nullish one, on which
      `e.message` throws and `validate` rejects. */
  function ClassOutcome<D>(reply: ClassReply<D>): (r: Thrown<ValidationResult<D>>)
    ensures reply.Built? && |reply.violations| == 0 ==> r == Returned(Valid(reply.instance))
    ensures reply.Built? && |reply.violations| > 0 ==> r == Returned(Invalid(Flatten(reply.violations, "")))
    ensures reply.Built? && |reply.violations| > 0 ==>
      r.Returned? && r.value.Invalid? && |r.value.errors| == CountConstraints(reply.violations)
      && forall d :: d in r.value.errors <==> Reports(reply.violations, "", d)
    ensures reply.Crashed? ==>
      r == Returned(Invalid([ErrorDetail("", ClassErrorPrefix + Or(reply.reason, "Missing dependencies?"), Some("internal_error"))]))
    ensures r.Threw? <==> reply.CrashedNullish?
    ensures r.Threw? ==> r == Threw(NullishRead)
  {
    match reply
    case Built(instance, violations) =>
      if |violations| == 0 then Returned(Valid(instance))
      else
        FlattenLength(violations, "");
        assert forall d :: d in Flatten(violations, "") <==> Reports(violations, "", d) by {
          forall d { FlattenReports(violations, "", d); }
        }
        Returned(Invalid(Flatten(violations, "")))
    case Crashed(reason) =>
      Returned(Invalid([ErrorDetail("", ClassErrorPrefix + Or(reason, "Missing dependencies?"), Some("internal_error"))]))
    case CrashedNullish => Threw(NullishRead)
  }

  // ---------------------------------------------------------------------
  // Validate
  // ---------------------------------------------------------------------

  const UnsupportedSchema: string := "Schema validator n\U{E3}o suportado ou inv\U{E1}lido."

  /** `Validator.validate(schema, input)`: resolves to a result or rejects. */
  function Validate<D>(s: Schema<D>): (r: Thrown<ValidationResult<D>>)
    ensures IsZodSchema(s) ==> r == ZodOutcome(s.safeParseAsync.value)
    ensures Classify(s) == YupKind ==> r == YupOutcome(s.validate)
    ensures Classify(s) == ClassKind ==> r == ClassOutcome(s.construct)
    ensures Classify(s) == Unsupported ==> r == Threw(UnsupportedSchema)
    ensures r.Threw? <==>
      || Classify(s) == Unsupported
      || (IsZodSchema(s) && s.safeParseAsync.value.ZodRejected?)
      || (Classify(s) == YupKind && YupRejects(s.validate))
      || (Classify(s) == ClassKind && s.construct.CrashedNullish?)
  {
    match Classify(s)
    case ZodKind => ZodOutcome(s.safeParseAsync.value)
    case YupKind => YupOutcome(s.validate)
    case ClassKind => ClassOutcome(s.construct)
    case Unsupported => Threw(UnsupportedSchema)
  }

  /** A zod-like object is treated as zod even when it also carries the yup
      marker: neither the marker nor the `validate` reply matters. */
  lemma ZodBeforeYup<D>(z: ZodReply<D>, marker: bool, y1: YupReply<D>, y2: YupReply<D>)
    ensures Validate(Object(Some(z), marker, y1)) == Validate(Object(Some(z), false, y2))
  {
  }

  /** A failure carries no detail only in two cases: a zod failure without
      an error object, and a class tree whose nodes hold no constraint. */
  lemma EmptyFailure<D>(s: Schema<D>)
    requires Validate(s).Returned? && Validate(s).value.Invalid?
    ensures |Validate(s).value.errors| == 0 <==>
      || (IsZodSchema(s) && s.safeParseAsync.value == ZodFailure(None))
      || (Classify(s) == ClassKind && s.construct.Built? && CountConstraints(s.construct.violations) == 0)
  {
  }

  /** One invalid field with one constraint gives one detail at that field,
      typed by the constraint name. */
  lemma SingleFieldViolation<D>(source: string, instance: D, field: string, name: string, message: string)
    requires LooksLikeClass(source)
    ensures Validate(Function(source, Built(instance, [ClassError(field, [Constraint(name, message)], [])])))
         == Returned(Invalid([ErrorDetail(field, message, Some(name))]))
  {
    var vs := [ClassError(field, [Constraint(name, message)], [])];
    assert ConstraintDetails([Constraint(name, message)], field) == [ErrorDetail(field, message, Some(name))];
    assert FlattenNode(vs[0], "") == [ErrorDetail(field, message, Some(name))] + Flatten([], field);
    assert Flatten(vs, "") == FlattenNode(vs[0], "") + Flatten([], "");
    assert ClassOutcome(Built(instance, vs)) == Returned(Invalid(Flatten(vs, "")));
    assert Classify(Function(source, Built(instance, vs))) == ClassKind;
    var r: Thrown<ValidationResult<D>> := Validate(Function(source, Built(instance, vs)));
    assert r == ClassOutcome(Built(instance, vs));
    assert r == Returned(Invalid(Flatten(vs, "")));
    assert Flatten(vs, "") == [ErrorDetail(field, message, Some(name))];
    assert r == Returned(Invalid([ErrorDetail(field, message, Some(name))]));
  }

  /** A violation on a nested object is reported at `parent.field`. */
  lemma NestedFieldViolation<D>(source: string, instance: D, parent: string, field: string, name: string, message: string)
    requires LooksLikeClass(source) && parent != ""
    ensures Validate(Function(source, Built(instance, [ClassError(parent, [], [ClassError(field, [Constraint(name, message)], [])])])))
         == Returned(Invalid([ErrorDetail(parent + "." + field, message, Some(name))]))
  {
    var leaf := [ClassError(field, [Constraint(name, message)], [])];
    var vs := [ClassError(parent, [], leaf)];
    var path := parent + "." + field;
    assert ChildPath(parent, field) == path;
    assert ConstraintDetails([Constraint(name, message)], path) == [ErrorDetail(path, message, Some(name))];
    assert FlattenNode(leaf[0], parent) == [ErrorDetail(path, message, Some(name))] + Flatten([], path);
    assert Flatten(leaf, parent) == FlattenNode(leaf[0], parent) + Flatten([], parent);
    assert ConstraintDetails([], parent) == [];
    assert FlattenNode(vs[0], "") == [] + Flatten(leaf, parent);
    assert Flatten(vs, "") == FlattenNode(vs[0], "") + Flatten([], "");
    assert ClassOutcome(Built(instance, vs)) == Returned(Invalid(Flatten(vs, "")));
    assert Classify(Function(source, Built(instance, vs))) == ClassKind;
    var r: Thrown<ValidationResult<D>> := Validate(Function(source, Built(instance, vs)));
    assert r == ClassOutcome(Built(instance, vs));
    assert r == Returned(Invalid(Flatten(vs, "")));
    assert Flatten(vs, "") == [ErrorDetail(path, message, Some(name))];
  }
}
