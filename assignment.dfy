/**
 * The assignment expression of the transformation language: resolution of an
 * assignment's target, the static checks that accept or reject it, the
 * environment update that records its effect on types, and its evaluation
 * against a runtime context.
 */
module Assignment {
  import opened Wrappers
  import opened Lookup
  import opened Values
  import opened Kinds
  import opened TypeDefs
  import opened State

  /** A source range in byte offsets (unsigned in the source). */
  datatype Span = Span(start: nat, end: nat)

  // ---------------------------------------------------------------------------
  // Parsed input

  datatype QueryTarget = QueryInternal(ident: Ident) | QueryExternal | QueryOther

  /** The parser's assignment target. A query whose target is neither a
      variable nor the record (`QueryOther`) is not assignable. */
  datatype AstTarget =
    | AstNoop
    | AstQuery(queryTarget: QueryTarget, targetSpan: Span, path: Path, pathSpan: Span)
    | AstInternal(ident: Ident, optPath: Option<Path>)
    | AstExternal(optPath: Option<Path>)

  /** A parsed target with its source span and its rendered text. */
  datatype TargetNode = TargetNode(span: Span, text: string, target: AstTarget)

  /** A compiled right-hand side: its rendered text, its type definition in the
      environments it is compiled in, and its value when it is a constant. */
  datatype Expr = Expr(text: string, typeDef: TypeDef, constant: Option<Value>)

  datatype ExprNode = ExprNode(span: Span, expr: Expr)

  datatype AssignmentNode =
    | SingleNode(target: TargetNode, rhs: ExprNode)
    | InfallibleNode(ok: TargetNode, err: TargetNode, rhs: ExprNode)

  // ---------------------------------------------------------------------------
  // Compiled form

  datatype Target = Noop | Internal(ident: Ident, path: Path) | External(path: Path)

  /** `default` is the value `ok` receives when the expression fails. */
  datatype Variant =
    | Single(target: Target, expr: Expr)
    | Infallible(ok: Target, err: Target, expr: Expr, default: Value)

  datatype Assignment = Assignment(variant: Variant)

  // ---------------------------------------------------------------------------
  // Diagnostics

  datatype ErrorVariant =
    | UnnecessaryNoop(targetSpan: Span)
    | FallibleAssignment(target: string, expr: string)
    | InfallibleAssignment(target: string, expr: string, okSpan: Span, errSpan: Span)
    | InvalidTarget(span: Span)
    | ReadOnly
    | InvalidParentPathSegment(
        variant: string, parentKind: Kind, parentSpan: Span, parentStr: string,
        segmentSpan: Span, remainderStr: string, rhsExpr: Expr)

  datatype Error = Error(variant: ErrorVariant, exprSpan: Span, assignmentSpan: Span)

  /** A remediation note: a pointer to the error documentation, or a titled
      suggestion made of replacement source lines. */
  datatype Note = SeeErrorDocs | Solution(title: string, lines: seq<string>)

  /** The stable diagnostic code: each variant has its own. */
  function Code(e: Error): (code: nat)
    ensures e.variant.UnnecessaryNoop? <==> code == 640
    ensures e.variant.FallibleAssignment? <==> code == 103
    ensures e.variant.InfallibleAssignment? <==> code == 104
    ensures e.variant.InvalidTarget? <==> code == 641
    ensures e.variant.InvalidParentPathSegment? <==> code == 642
    ensures e.variant.ReadOnly? <==> code == 315
  {
    match e.variant
    case UnnecessaryNoop(_) => 640
    case FallibleAssignment(_, _) => 103
    case InfallibleAssignment(_, _, _, _) => 104
    case InvalidTarget(_) => 641
    case InvalidParentPathSegment(_, _, _, _, _, _, _) => 642
    case ReadOnly => 315
  }

  /** Remediation notes: for a parent that is not a container, first set the
      parent to an empty container, then repeat the original assignment. */
  function Notes(e: Error): (notes: seq<Note>)
    ensures e.variant.FallibleAssignment? || e.variant.InfallibleAssignment? ==> notes == [SeeErrorDocs]
    ensures e.variant.InvalidParentPathSegment? ==>
      var v := e.variant;
      |notes| == 2 && notes[1] == SeeErrorDocs && notes[0].Solution? &&
      notes[0].lines == [v.parentStr + (if v.variant == "object" then " = {}" else " = []"),
                         v.parentStr + v.remainderStr + " = " + v.rhsExpr.text]
    ensures (!e.variant.FallibleAssignment? && !e.variant.InfallibleAssignment? &&
             !e.variant.InvalidParentPathSegment?) ==> notes == []
  {
    match e.variant
    case FallibleAssignment(_, _) => [SeeErrorDocs]
    case InfallibleAssignment(_, _, _, _) => [SeeErrorDocs]
    case InvalidParentPathSegment(variant, _, _, parentStr, _, remainderStr, rhsExpr) =>
      var lines :=
        if variant == "object" then [parentStr + " = {}", parentStr + remainderStr + " = " + rhsExpr.text]
        else [parentStr + " = []", parentStr + remainderStr + " = " + rhsExpr.text];
      [Solution("change parent value to " + variant + ", before assignment", lines), SeeErrorDocs]
    case _ => []
  }

  // ---------------------------------------------------------------------------
  // Targets

  /** The path a target writes through; the no-op target has the root path. */
  function LookupBuf(t: Target): (p: Path)
    ensures t.Noop? ==> p == []
  {
    match t
    case Noop => []
    case Internal(_, path) => path
    case External(path) => path
  }

  /** `Display for Target`: `_`, the variable's name followed by its path's
      text (`v`, `v.a`, `v[0]`), or `.` followed by the path's display
      (`.`, `.a`, `.[0]`). */
  function TargetText(t: Target): (s: string)
    ensures t.Noop? ==> s == "_"
    ensures t.External? ==> |s| > 0 && s[0] == '.'
    ensures t.Internal? ==> t.ident <= s
    ensures t.Internal? && t.path != [] ==>
      |s| > |t.ident| && s[|t.ident|] == (if t.path[0].Index? then '[' else '.')
  {
    match t
    case Noop => "_"
    case Internal(ident, path) =>
      if path == [] then ident
      else
        assert PathText(path) == SegmentText(path[0]) + PathText(path[1..]);
        ident + PathText(path)
    case External(path) => if path == [] then "." else "." + PathDisplay(path)
  }

  /** The path a parsed target designates; an omitted path is the root. */
  function AstPath(a: AstTarget): Path
  {
    match a
    case AstNoop => []
    case AstQuery(_, _, path, _) => path
    case AstInternal(_, optPath) => if optPath.Some? then optPath.value else []
    case AstExternal(optPath) => if optPath.Some? then optPath.value else []
  }

  /** `TryFrom<ast::AssignmentTarget> for Target`. */
  function TryFromAst(a: AstTarget): (r: Result<Target, Error>)
    ensures r.Err? <==> a.AstQuery? && a.queryTarget.QueryOther?
    ensures r.Err? ==>
      var span := Span(a.targetSpan.start, a.pathSpan.end);
      r.error == Error(InvalidTarget(span), span, span) && Code(r.error) == 641
    ensures r.Ok? ==> LookupBuf(r.value) == AstPath(a)
    ensures r.Ok? ==> (r.value.Noop? <==> a.AstNoop?)
    ensures r.Ok? ==> (r.value.External? <==> a.AstExternal? || (a.AstQuery? && a.queryTarget.QueryExternal?))
    ensures r.Ok? && r.value.Internal? ==>
      r.value.ident == (if a.AstInternal? then a.ident else a.queryTarget.ident)
  {
    match a
    case AstNoop => Ok(Noop)
    case AstQuery(target, targetSpan, path, pathSpan) =>
      var span := Span(targetSpan.start, pathSpan.end);
      (match target
       case QueryInternal(ident) => Ok(Internal(ident, path))
       case QueryExternal => Ok(External(path))
       case QueryOther => Err(Error(InvalidTarget(span), span, span)))
    case AstInternal(ident, optPath) => Ok(Internal(ident, AstPath(a)))
    case AstExternal(optPath) => Ok(External(AstPath(a)))
  }

  // ---------------------------------------------------------------------------
  // Mutability

  /** `verify_mutable`: only a write into a read-only region of the record is
      refused; variables and the no-op target are always mutable. */
  function VerifyMutable(t: Target, external: ExternalEnv, exprSpan: Span, assignmentSpan: Span): (r: Outcome<Error>)
    ensures r.Fail? <==> t.External? && external.IsReadOnlyEventPath(t.path)
    ensures r.Fail? ==> r.error == Error(ReadOnly, exprSpan, assignmentSpan) && Code(r.error) == 315
  {
    match t
    case External(path) =>
      if external.IsReadOnlyEventPath(path) then Fail(Error(ReadOnly, exprSpan, assignmentSpan)) else Pass
    case _ => Pass
  }

  // ---------------------------------------------------------------------------
  // Overwriteability

  /** The kind the overwrite check starts from: an unseen variable may be anything. */
  function RootKind(t: Target, variables: map<Ident, Details>, record: Details): Kind
  {
    match t
    case Noop => Any
    case Internal(ident, _) => if ident in variables then variables[ident].typeDef.kind else Any
    case External(_) => record.typeDef.kind
  }

  /** Segment `i` of `p` is acceptable: its parent, narrowed from `root`,
      could be an array (index) or an object (field or coalesce). */
  predicate Fits(root: Kind, p: Path, i: nat)
    requires i < |p|
  {
    var parent := AtPath(root, p[..i]);
    if p[i].Index? then ContainsArray(parent) else ContainsObject(parent)
  }

  /** The last unacceptable segment among the first `n` segments, if any. */
  function DeepestOffender(root: Kind, p: Path, n: nat): (r: Option<nat>)
    requires n <= |p|
    ensures r.Some? ==> r.value < n
  {
    if n == 0 then None
    else if !Fits(root, p, n - 1) then Some(n - 1)
    else DeepestOffender(root, p, n - 1)
  }

  /** There is no offender exactly when every segment fits; an offender
      does not fit, and every segment after it does. */
  lemma {:induction false} DeepestOffenderSpec(root: Kind, p: Path, n: nat)
    requires n <= |p|
    ensures var r := DeepestOffender(root, p, n);
      (r.None? <==> forall i :: 0 <= i < n ==> Fits(root, p, i)) &&
      (r.Some? ==> r.value < n && !Fits(root, p, r.value)) &&
      (r.Some? ==> forall j :: r.value < j < n ==> Fits(root, p, j))
  {
    if n > 0 && Fits(root, p, n - 1) {
      DeepestOffenderSpec(root, p, n - 1);
    }
  }

  /** Subtraction on offsets. The source subtracts `usize` values, which
      underflows when the subtrahend is larger; here the result stops at
      zero instead. */
  function SpanSub(a: nat, b: nat): (r: nat)
    ensures r <= a
    ensures b <= a ==> r + b == a
  {
    if b <= a then a - b else 0
  }

  /** Moves `offset` back by `n` bytes, as the walk's subtractions do, but
      never past `floor` (the target's start): where the rendered path is
      longer than the target's text, the source's offsets would leave the
      target or underflow (see `SegmentStartAsWritten`). */
  function StepBack(offset: nat, n: nat, floor: nat): (r: nat)
    ensures r <= offset
    ensures floor <= offset ==> floor <= r
    ensures floor + n <= offset ==> r + n == offset
  {
    if floor + n <= offset then offset - n else if floor <= offset then floor else offset
  }

  /** Two steps back are one step over both lengths. */
  lemma StepBackTwice(offset: nat, a: nat, b: nat, floor: nat)
    ensures StepBack(StepBack(offset, a, floor), b, floor) == StepBack(offset, a + b, floor)
  {
  }

  /** The span of segment `k` as the walk computes it: it ends where the
      text after the segment begins and is as many bytes long as the
      segment's label, within the target's span. */
  function SegmentSpanAt(p: Path, k: nat, targetSpan: Span): Span
    requires k < |p|
  {
    var end := StepBack(targetSpan.end, Utf8Len(PathText(p[k + 1..])), targetSpan.start);
    Span(StepBack(end, Utf8Len(SegmentLabel(p[k])), targetSpan.start), end)
  }

  /** The span of the prefix before segment `k`: from the target's start up
      to the segment, less the `.` before a field or coalesce. */
  function ParentSpanAt(p: Path, k: nat, targetSpan: Span): Span
    requires k < |p|
  {
    var segmentStart := SegmentSpanAt(p, k, targetSpan).start;
    Span(targetSpan.start, if p[k].Index? then segmentStart else StepBack(segmentStart, 1, targetSpan.start))
  }

  /** The parent's text in the diagnostic: the variable's name followed by
      the prefix's text, or `.` followed by the prefix's `Display`. */
  function ParentText(t: Target, prefix: Path): (s: string)
    requires !t.Noop?
    ensures t.Internal? ==> s == t.ident + PathText(prefix)
    ensures t.External? ==> |s| > 0 && s[0] == '.'
  {
    if t.Internal? then t.ident + PathText(prefix) else "." + PathDisplay(prefix)
  }

  /** The diagnostic for an unacceptable segment at `i`, with the span of
      that segment, the span and rendering of its parent prefix, and the
      rendering of the rest of the path from `i` on (for the record, without
      its leading `.` when the parent is the root). */
  function OverwriteFailure(t: Target, root: Kind, i: nat, targetSpan: Span, exprSpan: Span, assignmentSpan: Span, rhs: Expr): (e: Error)
    requires i < |LookupBuf(t)|
    ensures e.variant.InvalidParentPathSegment?
    ensures e.variant.parentSpan.end <= e.variant.segmentSpan.start
    ensures e.variant.segmentSpan.start <= e.variant.segmentSpan.end <= targetSpan.end
    ensures e.variant.parentSpan.start == targetSpan.start
    ensures targetSpan.start <= targetSpan.end ==>
      targetSpan.start <= e.variant.segmentSpan.start && e.variant.parentSpan.start <= e.variant.parentSpan.end
  {
    var p := LookupBuf(t);
    var tail := PathText(p[i..]);
    var remainder := if t.External? && i == 0 && |tail| > 0 && tail[0] == '.' then tail[1..] else tail;
    Error(
      InvalidParentPathSegment(
        if p[i].Index? then "array" else "object", AtPath(root, p[..i]),
        ParentSpanAt(p, i, targetSpan), ParentText(t, p[..i]), SegmentSpanAt(p, i, targetSpan), remainder, rhs),
      exprSpan, assignmentSpan)
  }

  /** Where the text from segment `i` on fits in the target's span, the
      spans are the exact byte offsets the source computes: the segment span ends where the text after it begins
      and covers its label, and the parent span ends where the text from
      segment `i` on begins. */
  lemma OverwriteSpansExact(t: Target, root: Kind, i: nat, targetSpan: Span, exprSpan: Span, assignmentSpan: Span, rhs: Expr)
    requires i < |LookupBuf(t)| && targetSpan.start + Utf8Len(PathText(LookupBuf(t)[i..])) <= targetSpan.end
    ensures
      var p := LookupBuf(t);
      var v := OverwriteFailure(t, root, i, targetSpan, exprSpan, assignmentSpan, rhs).variant;
      v.segmentSpan.end + Utf8Len(PathText(p[i + 1..])) == targetSpan.end &&
      v.segmentSpan.start + Utf8Len(SegmentLabel(p[i])) == v.segmentSpan.end &&
      v.parentSpan.end + Utf8Len(PathText(p[i..])) == targetSpan.end
  {
    var p := LookupBuf(t);
    PathTextBytes(p, i);
  }

  /** The byte length of the text from segment `k` on: the segment's `.`
      (for a field or coalesce), its label, then the rest. */
  lemma PathTextBytes(p: Path, k: nat)
    requires k < |p|
    ensures Utf8Len(PathText(p[k..])) ==
      (if p[k].Index? then 0 else 1) + Utf8Len(SegmentLabel(p[k])) + Utf8Len(PathText(p[k + 1..]))
  {
    PathTextSuffix(p, k);
    var name := SegmentLabel(p[k]);
    if p[k].Index? {
      Utf8LenAppend(name, PathText(p[k + 1..]));
    } else {
      Utf8LenAppend("." + name, PathText(p[k + 1..]));
      Utf8LenAppend(".", name);
    }
  }

  /** What `verify_overwriteable` decides: success exactly when every segment
      is acceptable; otherwise the diagnostic names the deepest unacceptable
      segment and the container kind its parent would need to be. */
  function OverwriteCheck(t: Target, root: Kind, targetSpan: Span, exprSpan: Span, assignmentSpan: Span, rhs: Expr): Outcome<Error>
  {
    var p := LookupBuf(t);
    match DeepestOffender(root, p, |p|)
    case None => Pass
    case Some(i) => Fail(OverwriteFailure(t, root, i, targetSpan, exprSpan, assignmentSpan, rhs))
  }

  /** `verify_overwriteable`'s verdict: a root path passes, and any path
      passes exactly when every segment fits. */
  lemma OverwriteCheckVerdict(t: Target, root: Kind, targetSpan: Span, exprSpan: Span, assignmentSpan: Span, rhs: Expr)
    ensures LookupBuf(t) == [] ==> OverwriteCheck(t, root, targetSpan, exprSpan, assignmentSpan, rhs).Pass?
    ensures OverwriteCheck(t, root, targetSpan, exprSpan, assignmentSpan, rhs).Pass? <==>
      forall i :: 0 <= i < |LookupBuf(t)| ==> Fits(root, LookupBuf(t), i)
  {
    DeepestOffenderSpec(root, LookupBuf(t), |LookupBuf(t)|);
  }

  /** A failure of `verify_overwriteable` has code 642 and reports the
      deepest unfit segment, naming the container it needs and the kind its
      parent has. */
  lemma OverwriteCheckDiagnostic(t: Target, root: Kind, targetSpan: Span, exprSpan: Span, assignmentSpan: Span, rhs: Expr)
    requires OverwriteCheck(t, root, targetSpan, exprSpan, assignmentSpan, rhs).Fail?
    ensures var r := OverwriteCheck(t, root, targetSpan, exprSpan, assignmentSpan, rhs);
      Code(r.error) == 642 &&
      exists i :: 0 <= i < |LookupBuf(t)| && !Fits(root, LookupBuf(t), i) &&
        (forall j :: i < j < |LookupBuf(t)| ==> Fits(root, LookupBuf(t), j)) &&
        r.error.variant.variant == (if LookupBuf(t)[i].Index? then "array" else "object") &&
        r.error.variant.parentKind == AtPath(root, LookupBuf(t)[..i])
  {
    var p := LookupBuf(t);
    DeepestOffenderSpec(root, p, |p|);
    var i := DeepestOffender(root, p, |p|).value;
    var e := OverwriteFailure(t, root, i, targetSpan, exprSpan, assignmentSpan, rhs);
    assert e.variant.variant == (if p[i].Index? then "array" else "object");
    assert e.variant.parentKind == AtPath(root, p[..i]);
  }

  /** The deepest unacceptable segment is the one `DeepestOffender` finds. */
  lemma {:induction false} DeepestIs(root: Kind, p: Path, n: nat, k: nat)
    requires k < n <= |p|
    requires !Fits(root, p, k)
    requires forall j :: k < j < n ==> Fits(root, p, j)
    ensures DeepestOffender(root, p, n) == Some(k)
    decreases n
  {
    if n - 1 != k {
      DeepestIs(root, p, n - 1, k);
    }
  }

  /** What the walk knows once it has popped segment `k` of `p`: the
      remainder is the text from `k` on, the variant and parent kind are
      those of segment `k`, and the spans are the ones the diagnostic gives. */
  predicate Popped(
    root: Kind, p: Path, k: nat, targetSpan: Span,
    variant: string, parentKind: Kind, parentSpan: Span, segmentSpan: Span, remainderStr: string)
  {
    k < |p| && remainderStr == PathText(p[k..]) &&
    variant == (if p[k].Index? then "array" else "object") &&
    parentKind == AtPath(root, p[..k]) &&
    segmentSpan == SegmentSpanAt(p, k, targetSpan) &&
    parentSpan == ParentSpanAt(p, k, targetSpan)
  }

  /** One step of `verify_overwriteable`'s walk: pops segment `k` (the last
      one of the prefix still to check), moves the parent span's end back
      over the segment's bytes, and prepends its text to the remainder. */
  method PopSegment(root: Kind, p: Path, k: nat, targetSpan: Span, parentSpan: Span, remainderStr: string)
    returns (segmentSpan: Span, parentSpan': Span, remainderStr': string, variant: string, parentKind: Kind, valid: bool)
    requires k < |p|
    requires remainderStr == PathText(p[k + 1..])
    requires parentSpan == Span(targetSpan.start, StepBack(targetSpan.end, Utf8Len(remainderStr), targetSpan.start))
    ensures Popped(root, p, k, targetSpan, variant, parentKind, parentSpan', segmentSpan, remainderStr')
    ensures parentSpan' == Span(targetSpan.start, StepBack(targetSpan.end, Utf8Len(remainderStr'), targetSpan.start))
    ensures valid == Fits(root, p, k)
  {
    PathTextSuffix(p, k);
    PathTextBytes(p, k);
    var last := p[k];
    parentKind := AtPath(root, p[..k]);
    valid := if last.Index? then ContainsArray(parentKind) else ContainsObject(parentKind);
    if last.Index? {
      var segmentStr := "[" + IntString(last.index) + "]";
      var segmentStart := StepBack(parentSpan.end, Utf8Len(segmentStr), parentSpan.start);
      segmentSpan := Span(segmentStart, parentSpan.end);
      parentSpan' := Span(parentSpan.start, segmentStart);
      StepBackTwice(targetSpan.end, Utf8Len(remainderStr), Utf8Len(segmentStr), targetSpan.start);
      remainderStr' := segmentStr + remainderStr;
      variant := "array";
    } else {
      var segmentStr := SegmentString(last);
      var segmentStart := StepBack(parentSpan.end, Utf8Len(segmentStr), parentSpan.start);
      segmentSpan := Span(segmentStart, parentSpan.end);
      parentSpan' := Span(parentSpan.start, StepBack(segmentStart, 1, parentSpan.start));
      StepBackTwice(targetSpan.end, Utf8Len(remainderStr), Utf8Len(segmentStr), targetSpan.start);
      StepBackTwice(targetSpan.end, Utf8Len(remainderStr) + Utf8Len(segmentStr), 1, targetSpan.start);
      remainderStr' := "." + segmentStr + remainderStr;
      variant := "object";
    }
  }

  /** The end of `verify_overwriteable` once segment `k` is found not to
      fit: renders the parent (after the variable's name, or after `.` for
      the record, whose remainder then loses its leading `.` when the parent
      is the root) and assembles the diagnostic. */
  method ParentFailure(
    target: Target, rootKind: Kind, k: nat, path: Path,
    targetSpan: Span, exprSpan: Span, assignmentSpan: Span, rhsExpr: Expr,
    variant: string, parentKind: Kind, parentSpan: Span, segmentSpan: Span, remainderStr: string)
    returns (e: Error)
    requires Popped(rootKind, LookupBuf(target), k, targetSpan, variant, parentKind, parentSpan, segmentSpan, remainderStr)
    requires path == LookupBuf(target)[..k]
    ensures e == OverwriteFailure(target, rootKind, k, targetSpan, exprSpan, assignmentSpan, rhsExpr)
  {
    var remainder := remainderStr;
    var parentStr;
    if target.Internal? {
      parentStr := target.ident + PathText(path);
    } else {
      if path == [] && |remainder| > 0 && remainder[0] == '.' {
        remainder := remainder[1..];
      }
      parentStr := "." + PathDisplay(path);
    }
    e := Error(
      InvalidParentPathSegment(variant, parentKind, parentSpan, parentStr, segmentSpan, remainder, rhsExpr),
      exprSpan, assignmentSpan);
    ghost var spec := OverwriteFailure(target, rootKind, k, targetSpan, exprSpan, assignmentSpan, rhsExpr);
    assert spec.variant.parentStr == parentStr;
    assert spec.variant.remainderStr == remainder;
  }

  /** `verify_overwriteable`: walks the target's path from its last segment
      back to the root, checking each segment against the kind of the prefix
      before it, and builds the diagnostic for the first (deepest) segment
      that fails. */
  method VerifyOverwriteable(
    target: Target, local: LocalEnv, external: ExternalEnv,
    targetSpan: Span, exprSpan: Span, assignmentSpan: Span, rhsExpr: Expr
  ) returns (r: Outcome<Error>)
    ensures r == OverwriteCheck(target, RootKind(target, local.variables, external.target), targetSpan, exprSpan, assignmentSpan, rhsExpr)
  {
    var p := LookupBuf(target);
    var path := p;
    var rootKind := RootKind(target, local.variables, external.target);
    var parentSpan := targetSpan;
    var remainderStr := "";
    assert p[|p|..] == [];

    while path != []
      invariant |path| <= |p| && path == p[..|path|]
      invariant DeepestOffender(rootKind, p, |path|) == DeepestOffender(rootKind, p, |p|)
      invariant remainderStr == PathText(p[|path|..])
      invariant parentSpan == Span(targetSpan.start, StepBack(targetSpan.end, Utf8Len(remainderStr), targetSpan.start))
      decreases |path|
    {
      var k := |path| - 1;
      path := path[..k];
      assert path == p[..k];
      var segmentSpan, variant, parentKind, valid;
      segmentSpan, parentSpan, remainderStr, variant, parentKind, valid :=
        PopSegment(rootKind, p, k, targetSpan, parentSpan, remainderStr);
      if valid {
        continue;
      }

      var e := ParentFailure(target, rootKind, k, path, targetSpan, exprSpan, assignmentSpan, rhsExpr,
        variant, parentKind, parentSpan, segmentSpan, remainderStr);
      return Fail(e);
    }
    return Pass;
  }

  // ---------------------------------------------------------------------------
  // Compile-time environment update

  /** The details a target holds after a value of type `td` (with known
      constant `value`) is written at `p`, given what it held before; a
      variable seen for the first time starts out as `null`. Reading back at
      `p` yields exactly the written type. */
  function InsertedDetails(prior: Option<Details>, p: Path, td: TypeDef, value: Option<Value>): (d: Details)
    ensures NoCoalesce(p) ==> AtPath(d.typeDef.kind, p) == td.kind
    ensures d.typeDef.fallible <==> td.fallible || (prior.Some? && prior.value.typeDef.fallible)
    ensures p == [] ==> d.typeDef.kind == td.kind
    ensures d.value == value
  {
    var base := if prior.Some? then prior.value.typeDef else NullTypeDef();
    if NoCoalesce(p) then
      InsertedAt(base.kind, p, td.kind);
      Details(WithTypeInsertedTd(base, p, td), value)
    else
      Details(WithTypeInsertedTd(base, p, td), value)
  }

  /** The variable table after `insert_type_def`: only an internal target's
      variable changes, and it now has the written type at its path. */
  function LocalAfter(t: Target, variables: map<Ident, Details>, td: TypeDef, value: Option<Value>): (m: map<Ident, Details>)
    ensures !t.Internal? ==> m == variables
    ensures t.Internal? ==> m.Keys == variables.Keys + {t.ident}
    ensures t.Internal? ==> forall x :: x in variables && x != t.ident ==> m[x] == variables[x]
    ensures t.Internal? && NoCoalesce(t.path) ==> AtPath(m[t.ident].typeDef.kind, t.path) == td.kind
  {
    if t.Internal? then
      var prior := if t.ident in variables then Some(variables[t.ident]) else None;
      variables[t.ident := InsertedDetails(prior, t.path, td, value)]
    else
      variables
  }

  /** The record's details after `insert_type_def`: only an external target
      changes them, and the record now has the written type at the path. */
  function ExternalAfter(t: Target, record: Details, td: TypeDef, value: Option<Value>): (d: Details)
    ensures !t.External? ==> d == record
    ensures t.External? && NoCoalesce(t.path) ==> AtPath(d.typeDef.kind, t.path) == td.kind
    ensures t.External? ==> d.value == value
  {
    if t.External? then InsertedDetails(Some(record), t.path, td, value) else record
  }

  /** `Target::insert_type_def`. */
  method InsertTypeDef(t: Target, local: LocalEnv, external: ExternalEnv, td: TypeDef, value: Option<Value>)
    modifies local, external
    ensures local.variables == LocalAfter(t, old(local.variables), td, value)
    ensures external.target == ExternalAfter(t, old(external.target), td, value)
  {
    match t {
      case Noop =>
      case Internal(ident, path) =>
        var prior := local.Variable(ident);
        var typeDef :=
          if prior.None? then WithTypeInsertedTd(NullTypeDef(), path, td)
          else WithTypeInsertedTd(prior.value.typeDef, path, td);
        local.InsertVariable(ident, Details(typeDef, value));
      case External(path) =>
        external.UpdateTarget(Details(WithTypeInsertedTd(external.target.typeDef, path, td), value));
    }
  }

  // ---------------------------------------------------------------------------
  // Compilation

  /** The span the diagnostics give for the whole assignment: from the
      (first) target to just before the right-hand side of a single
      assignment, or to the end of the `err` target. The grammar puts a
      target before the right-hand side, so its start is never zero and the
      subtraction is exact. */
  function AssignmentSpan(node: AssignmentNode): (span: Span)
    ensures span.start == (if node.SingleNode? then node.target.span.start else node.ok.span.start)
    ensures node.SingleNode? && node.rhs.span.start >= 1 ==> span.end + 1 == node.rhs.span.start
    ensures node.InfallibleNode? ==> span.end == node.err.span.end
  {
    match node
    case SingleNode(target, rhs) => Span(target.span.start, SpanSub(rhs.span.start, 1))
    case InfallibleNode(ok, err, _) => Span(ok.span.start, err.span.end)
  }

  /** The checks `Assignment::new` makes before it resolves any target: a
      single assignment must not have a fallible right-hand side nor the
      no-op target; an infallible assignment must have a fallible one and
      at least one target that is not the no-op. */
  function Precheck(node: AssignmentNode, fallibleRhs: bool): (r: Option<Error>)
    ensures node.SingleNode? ==> (r.Some? <==> fallibleRhs || node.target.target.AstNoop?)
    ensures node.SingleNode? && fallibleRhs ==>
      r == Some(Error(FallibleAssignment(node.target.text, node.rhs.expr.text), node.rhs.span, AssignmentSpan(node)))
    ensures node.SingleNode? && !fallibleRhs && node.target.target.AstNoop? ==>
      r.Some? && Code(r.value) == 640 && r.value.variant.targetSpan == node.target.span
    ensures node.InfallibleNode? ==>
      (r.Some? <==> !node.rhs.expr.typeDef.fallible || (node.ok.target.AstNoop? && node.err.target.AstNoop?))
    ensures node.InfallibleNode? && !node.rhs.expr.typeDef.fallible ==>
      r.Some? && Code(r.value) == 104 &&
      r.value.variant == InfallibleAssignment(node.ok.text, node.rhs.expr.text, node.ok.span, node.err.span)
    ensures node.InfallibleNode? && node.rhs.expr.typeDef.fallible && r.Some? ==>
      Code(r.value) == 640 && r.value.variant.targetSpan == node.ok.span
    ensures r.Some? ==> r.value.exprSpan == node.rhs.span && r.value.assignmentSpan == AssignmentSpan(node)
  {
    var span := AssignmentSpan(node);
    match node
    case SingleNode(target, rhs) =>
      if fallibleRhs then Some(Error(FallibleAssignment(target.text, rhs.expr.text), rhs.span, span))
      else if target.target.AstNoop? then Some(Error(UnnecessaryNoop(target.span), rhs.span, span))
      else None
    case InfallibleNode(ok, err, rhs) =>
      if !rhs.expr.typeDef.fallible then
        Some(Error(InfallibleAssignment(ok.text, rhs.expr.text, ok.span, err.span), rhs.span, span))
      else if ok.target.AstNoop? && err.target.AstNoop? then Some(Error(UnnecessaryNoop(ok.span), rhs.span, span))
      else None
  }

  /** A target is accepted when it converts, is mutable and is overwriteable
      in the environments as they are when it is checked; the first check
      that fails decides the error. */
  function CheckTarget(
    tn: TargetNode, variables: map<Ident, Details>, record: Details, external: ExternalEnv,
    exprSpan: Span, mutableSpan: Span, assignmentSpan: Span, rhs: Expr
  ): (r: Result<Target, Error>)
    ensures tn.target.AstNoop? ==> r == Ok(Noop)
    ensures r.Ok? ==> r == TryFromAst(tn.target)
    ensures r.Ok? <==>
      TryFromAst(tn.target).Ok? &&
      !(TryFromAst(tn.target).value.External? && external.IsReadOnlyEventPath(AstPath(tn.target))) &&
      forall i :: 0 <= i < |AstPath(tn.target)| ==>
        Fits(RootKind(TryFromAst(tn.target).value, variables, record), AstPath(tn.target), i)
    ensures r.Err? ==>
      Code(r.error) == (if TryFromAst(tn.target).Err? then 641
                        else if TryFromAst(tn.target).value.External? && external.IsReadOnlyEventPath(AstPath(tn.target)) then 315
                        else 642)
    ensures r.Err? && Code(r.error) == 315 ==> r.error == Error(ReadOnly, exprSpan, mutableSpan)
  {
    match TryFromAst(tn.target)
    case Err(e) => Err(e)
    case Ok(t) =>
      match VerifyMutable(t, external, exprSpan, mutableSpan)
      case Fail(e) => Err(e)
      case Pass =>
        OverwriteCheckVerdict(t, RootKind(t, variables, record), tn.span, exprSpan, assignmentSpan, rhs);
        match OverwriteCheck(t, RootKind(t, variables, record), tn.span, exprSpan, assignmentSpan, rhs)
        case Fail(e) =>
          OverwriteCheckDiagnostic(t, RootKind(t, variables, record), tn.span, exprSpan, assignmentSpan, rhs);
          Err(e)
        case Pass => Ok(t)
  }

  /** `Assignment::new`: checks the assignment and records the types of its
      targets in the environments. A rejected single assignment leaves the
      environments untouched; an infallible assignment whose error target is
      rejected keeps the type already recorded for its ok target. */
  method New(node: AssignmentNode, local: LocalEnv, external: ExternalEnv, fallibleRhs: bool)
    returns (r: Result<Assignment, Error>)
    modifies local, external
    ensures Precheck(node, fallibleRhs).Some? ==>
      r == Err(Precheck(node, fallibleRhs).value) && unchanged(local, external)
    ensures node.SingleNode? && Precheck(node, fallibleRhs).None? ==>
      var check := CheckTarget(node.target, old(local.variables), old(external.target), external,
                               node.rhs.span, AssignmentSpan(node), AssignmentSpan(node), node.rhs.expr);
      (check.Err? ==> r == Err(check.error) && unchanged(local, external)) &&
      (check.Ok? ==>
        r == Ok(Assignment(Single(check.value, node.rhs.expr))) &&
        local.variables == LocalAfter(check.value, old(local.variables), node.rhs.expr.typeDef, node.rhs.expr.constant) &&
        external.target == ExternalAfter(check.value, old(external.target), node.rhs.expr.typeDef, node.rhs.expr.constant))
    ensures node.InfallibleNode? && Precheck(node, fallibleRhs).None? ==>
      var td := AsInfallible(node.rhs.expr.typeDef);
      var okCheck := CheckTarget(node.ok, old(local.variables), old(external.target), external,
                                 node.rhs.span, node.ok.span, AssignmentSpan(node), node.rhs.expr);
      (okCheck.Err? ==> r == Err(okCheck.error) && unchanged(local, external)) &&
      (okCheck.Ok? ==>
        var variables := LocalAfter(okCheck.value, old(local.variables), td, node.rhs.expr.constant);
        var record := ExternalAfter(okCheck.value, old(external.target), td, node.rhs.expr.constant);
        var errCheck := CheckTarget(node.err, variables, record, external,
                                    node.rhs.span, node.err.span, AssignmentSpan(node), node.rhs.expr);
        (errCheck.Err? ==> r == Err(errCheck.error) && local.variables == variables && external.target == record) &&
        (errCheck.Ok? ==>
          r == Ok(Assignment(Infallible(okCheck.value, errCheck.value, node.rhs.expr, DefaultValue(td.kind)))) &&
          local.variables == LocalAfter(errCheck.value, variables, BytesOrNullTypeDef(), None) &&
          external.target == ExternalAfter(errCheck.value, record, BytesOrNullTypeDef(), None)))
  {
    if node.SingleNode? {
      r := NewSingle(node, local, external, fallibleRhs);
    } else {
      r := NewInfallible(node, local, external);
    }
  }

  /** The `target = expr` arm of `Assignment::new`. */
  method NewSingle(node: AssignmentNode, local: LocalEnv, external: ExternalEnv, fallibleRhs: bool)
    returns (r: Result<Assignment, Error>)
    requires node.SingleNode?
    modifies local, external
    ensures Precheck(node, fallibleRhs).Some? ==>
      r == Err(Precheck(node, fallibleRhs).value) && unchanged(local, external)
    ensures Precheck(node, fallibleRhs).None? ==>
      var check := CheckTarget(node.target, old(local.variables), old(external.target), external,
                               node.rhs.span, AssignmentSpan(node), AssignmentSpan(node), node.rhs.expr);
      (check.Err? ==> r == Err(check.error) && unchanged(local, external)) &&
      (check.Ok? ==>
        r == Ok(Assignment(Single(check.value, node.rhs.expr))) &&
        local.variables == LocalAfter(check.value, old(local.variables), node.rhs.expr.typeDef, node.rhs.expr.constant) &&
        external.target == ExternalAfter(check.value, old(external.target), node.rhs.expr.typeDef, node.rhs.expr.constant))
  {
    var target, rhs := node.target, node.rhs;
    var assignmentSpan := Span(target.span.start, SpanSub(rhs.span.start, 1));
    var typeDef := rhs.expr.typeDef;
    if fallibleRhs {
      return Err(Error(FallibleAssignment(target.text, rhs.expr.text), rhs.span, assignmentSpan));
    }
    if target.target.AstNoop? {
      return Err(Error(UnnecessaryNoop(target.span), rhs.span, assignmentSpan));
    }
    var t :- CheckedTarget(target, local, external, rhs.span, assignmentSpan, assignmentSpan, rhs.expr);
    InsertTypeDef(t, local, external, typeDef, rhs.expr.constant);
    r := Ok(Assignment(Single(t, rhs.expr)));
  }

  /** The `ok, err = expr` arm of `Assignment::new`: the right-hand side
      must be fallible (so `fallible_rhs` plays no part) and at least one
      target must not be `_`. */
  method NewInfallible(node: AssignmentNode, local: LocalEnv, external: ExternalEnv)
    returns (r: Result<Assignment, Error>)
    requires node.InfallibleNode?
    modifies local, external
    ensures Precheck(node, false).Some? ==>
      r == Err(Precheck(node, false).value) && unchanged(local, external)
    ensures Precheck(node, false).None? ==>
      var td := AsInfallible(node.rhs.expr.typeDef);
      var okCheck := CheckTarget(node.ok, old(local.variables), old(external.target), external,
                                 node.rhs.span, node.ok.span, AssignmentSpan(node), node.rhs.expr);
      (okCheck.Err? ==> r == Err(okCheck.error) && unchanged(local, external)) &&
      (okCheck.Ok? ==>
        var variables := LocalAfter(okCheck.value, old(local.variables), td, node.rhs.expr.constant);
        var record := ExternalAfter(okCheck.value, old(external.target), td, node.rhs.expr.constant);
        var errCheck := CheckTarget(node.err, variables, record, external,
                                    node.rhs.span, node.err.span, AssignmentSpan(node), node.rhs.expr);
        (errCheck.Err? ==> r == Err(errCheck.error) && local.variables == variables && external.target == record) &&
        (errCheck.Ok? ==>
          r == Ok(Assignment(Infallible(okCheck.value, errCheck.value, node.rhs.expr, DefaultValue(td.kind)))) &&
          local.variables == LocalAfter(errCheck.value, variables, BytesOrNullTypeDef(), None) &&
          external.target == ExternalAfter(errCheck.value, record, BytesOrNullTypeDef(), None)))
  {
    var ok, err, rhs := node.ok, node.err, node.rhs;
    var assignmentSpan := Span(ok.span.start, err.span.end);
    var typeDef := rhs.expr.typeDef;
    if !typeDef.fallible {
      return Err(Error(InfallibleAssignment(ok.text, rhs.expr.text, ok.span, err.span), rhs.span, assignmentSpan));
    }
    if ok.target.AstNoop? && err.target.AstNoop? {
      return Err(Error(UnnecessaryNoop(ok.span), rhs.span, assignmentSpan));
    }
    var okTarget :- CheckedTarget(ok, local, external, rhs.span, ok.span, assignmentSpan, rhs.expr);
    var okTypeDef := AsInfallible(typeDef);
    var defaultValue := DefaultValue(okTypeDef.kind);
    InsertTypeDef(okTarget, local, external, okTypeDef, rhs.expr.constant);
    var errTarget :- CheckedTarget(err, local, external, rhs.span, err.span, assignmentSpan, rhs.expr);
    InsertTypeDef(errTarget, local, external, BytesOrNullTypeDef(), None);
    r := Ok(Assignment(Infallible(okTarget, errTarget, rhs.expr, defaultValue)));
  }


  /** The three target checks in the order `Assignment::new` runs them:
      conversion, `verify_mutable`, `verify_overwriteable`. */
  method CheckedTarget(
    tn: TargetNode, local: LocalEnv, external: ExternalEnv,
    exprSpan: Span, mutableSpan: Span, assignmentSpan: Span, rhs: Expr
  ) returns (r: Result<Target, Error>)
    ensures r == CheckTarget(tn, local.variables, external.target, external, exprSpan, mutableSpan, assignmentSpan, rhs)
  {
    var converted := TryFromAst(tn.target);
    if converted.Err? {
      return Err(converted.error);
    }
    var t := converted.value;
    var mutable := VerifyMutable(t, external, exprSpan, mutableSpan);
    if mutable.Fail? {
      return Err(mutable.error);
    }
    var overwrite := VerifyOverwriteable(t, local, external, tn.span, exprSpan, assignmentSpan, rhs);
    if overwrite.Fail? {
      return Err(overwrite.error);
    }
    return Ok(t);
  }

  /** `Assignment::targets`: the targets an assignment writes, in order. */
  method Targets(a: Assignment) returns (targets: seq<Target>)
    ensures a.variant.Single? ==> targets == [a.variant.target]
    ensures a.variant.Infallible? ==> targets == [a.variant.ok, a.variant.err]
  {
    targets := [];
    match a.variant {
      case Single(target, _) =>
        targets := targets + [target];
      case Infallible(ok, err, _, _) =>
        targets := targets + [ok];
        targets := targets + [err];
    }
  }

  // ---------------------------------------------------------------------------
  // Evaluation

  /** The variable store after `Target::insert`: only an internal target's
      variable changes, and reading it back at the target's path yields the
      value written. A root path replaces the variable; otherwise a stored
      variable is updated in place and a missing one is created. */
  function StoreAfter(t: Target, store: map<Ident, Value>, v: Value): (m: map<Ident, Value>)
    ensures !t.Internal? ==> m == store
    ensures t.Internal? ==> m.Keys == store.Keys + {t.ident}
    ensures t.Internal? ==> forall x :: x in store && x != t.ident ==> m[x] == store[x]
    ensures t.Internal? && WellFormed(t.path) ==> Get(m[t.ident], t.path) == v
  {
    match t
    case Internal(ident, path) =>
      if path == [] then store[ident := v]
      else if ident in store then
        (if WellFormed(path) then InsertThenGet(store[ident], path, v); store[ident := InsertByPath(store[ident], path, v)]
         else store[ident := InsertByPath(store[ident], path, v)])
      else store[ident := ValueAtPath(v, path)]
    case _ => store
  }

  /** The record after `Target::insert`: only an external target changes it,
      and reading it back at the target's path yields the value written. */
  function RecordAfter(t: Target, record: Value, v: Value): (r: Value)
    ensures !t.External? ==> r == record
    ensures t.External? && WellFormed(t.path) ==> Get(r, t.path) == v
  {
    if t.External? then
      if WellFormed(t.path) then InsertThenGet(record, t.path, v); InsertByPath(record, t.path, v)
      else InsertByPath(record, t.path, v)
    else record
  }

  /** `Target::insert`. */
  method Insert(t: Target, value: Value, ctx: Context)
    modifies ctx
    ensures ctx.variables == StoreAfter(t, old(ctx.variables), value)
    ensures ctx.target == RecordAfter(t, old(ctx.target), value)
  {
    match t {
      case Noop =>
      case Internal(ident, path) =>
        if path == [] {
          ctx.InsertVariable(ident, value);
          return;
        }
        if ident in ctx.variables {
          var stored := ctx.variables[ident];
          ctx.InsertVariable(ident, InsertByPath(stored, path, value));
        } else {
          ctx.InsertVariable(ident, ValueAtPath(value, path));
        }
      case External(path) =>
        ctx.TargetInsert(path, value);
    }
  }

  /** `Variant::resolve`, given the outcome of evaluating the right-hand
      side. A single assignment propagates a failure and changes nothing;
      otherwise it stores the value and returns it. An infallible assignment
      never fails: on success `ok` receives the value and `err` null; on
      failure `ok` receives the default and `err` the error message, which
      is also the result. */
  method Resolve(a: Assignment, ctx: Context, outcome: Result<Value, string>) returns (r: Result<Value, string>)
    modifies ctx
    ensures a.variant.Single? ==> r == outcome
    ensures a.variant.Single? && outcome.Err? ==> unchanged(ctx)
    ensures a.variant.Single? && outcome.Ok? ==>
      ctx.variables == StoreAfter(a.variant.target, old(ctx.variables), outcome.value) &&
      ctx.target == RecordAfter(a.variant.target, old(ctx.target), outcome.value)
    ensures a.variant.Infallible? ==>
      r == Ok(if outcome.Ok? then outcome.value else Bytes(outcome.error))
    ensures a.variant.Infallible? ==>
      var okValue := if outcome.Ok? then outcome.value else a.variant.default;
      var errValue := if outcome.Ok? then Null else Bytes(outcome.error);
      ctx.variables == StoreAfter(a.variant.err, StoreAfter(a.variant.ok, old(ctx.variables), okValue), errValue) &&
      ctx.target == RecordAfter(a.variant.err, RecordAfter(a.variant.ok, old(ctx.target), okValue), errValue)
  {
    match a.variant {
      case Single(target, _) =>
        if outcome.Err? {
          return outcome;
        }
        var value := outcome.value;
        Insert(target, value, ctx);
        r := Ok(value);
      case Infallible(ok, err, _, default) =>
        match outcome {
          case Ok(value) =>
            Insert(ok, value, ctx);
            Insert(err, Null, ctx);
            r := Ok(value);
          case Err(error) =>
            Insert(ok, default, ctx);
            var value := Bytes(error);
            Insert(err, value, ctx);
            r := Ok(value);
        }
    }
  }

  /** `Variant::type_def`: a single assignment has its expression's type; an
      infallible one cannot fail and may also be the error message, so every
      value of the expression's type and every string conform to it. */
  function AssignmentTypeDef(a: Assignment, exprTypeDef: TypeDef): (td: TypeDef)
    ensures a.variant.Single? ==> td == exprTypeDef
    ensures a.variant.Infallible? ==> !td.fallible && ContainsBytes(td.kind)
    ensures forall v :: Conforms(v, exprTypeDef.kind) ==> Conforms(v, td.kind)
    ensures a.variant.Infallible? ==> forall msg :: Conforms(Bytes(msg), td.kind)
  {
    AddBytesWidens(exprTypeDef.kind);
    match a.variant
    case Single(_, _) => exprTypeDef
    case Infallible(_, _, _, _) => AsInfallible(TypeDef(AddBytes(exprTypeDef.kind), exprTypeDef.fallible))
  }

  // ---------------------------------------------------------------------------
  // Properties

  /** Every stored variable is known to the compiler, and its value is one
      its recorded kind describes. */
  ghost predicate Agrees(store: map<Ident, Value>, variables: map<Ident, Details>)
  {
    forall x :: x in store ==> x in variables && Conforms(store[x], variables[x].typeDef.kind)
  }

  /** Writing one variable keeps every other variable's agreement. */
  lemma OthersAgree(
    store: map<Ident, Value>, variables: map<Ident, Details>, ident: Ident,
    m: map<Ident, Value>, vars: map<Ident, Details>)
    requires Agrees(store, variables)
    requires m.Keys == store.Keys + {ident} && vars.Keys == variables.Keys + {ident}
    requires forall x :: x in m && x != ident ==> m[x] == store[x]
    requires forall x :: x in vars && x != ident ==> vars[x] == variables[x]
    requires Conforms(m[ident], vars[ident].typeDef.kind)
    ensures Agrees(m, vars)
  {
  }

  /** Soundness of one write: if the runtime state agrees with the
      environments and the value written has the type recorded for it, the
      state after `Target::insert` agrees with the environments after
      `Target::insert_type_def`. */
  lemma {:induction false} TargetInsertSound(
    t: Target, store: map<Ident, Value>, variables: map<Ident, Details>,
    record: Value, recordDetails: Details, v: Value, td: TypeDef, value: Option<Value>)
    requires WellFormed(LookupBuf(t))
    requires Agrees(store, variables) && Conforms(record, recordDetails.typeDef.kind)
    requires Conforms(v, td.kind)
    ensures Agrees(StoreAfter(t, store, v), LocalAfter(t, variables, td, value))
    ensures Conforms(RecordAfter(t, record, v), ExternalAfter(t, recordDetails, td, value).typeDef.kind)
  {
    if t.Internal? {
      VariableInsertSound(t.ident, t.path, store, variables, v, td, value);
    }
    RecordInsertSound(t, record, recordDetails, v, td, value);
  }

  /** The record half of `TargetInsertSound`. */
  lemma RecordInsertSound(t: Target, record: Value, recordDetails: Details, v: Value, td: TypeDef, value: Option<Value>)
    requires WellFormed(LookupBuf(t))
    requires Conforms(record, recordDetails.typeDef.kind) && Conforms(v, td.kind)
    ensures Conforms(RecordAfter(t, record, v), ExternalAfter(t, recordDetails, td, value).typeDef.kind)
  {
    if t.External? {
      InsertConforms(record, recordDetails.typeDef.kind, t.path, v, td.kind);
    }
  }

  /** The variable case of `TargetInsertSound`. */
  lemma VariableInsertSound(
    ident: Ident, path: Path, store: map<Ident, Value>, variables: map<Ident, Details>,
    v: Value, td: TypeDef, value: Option<Value>)
    requires WellFormed(path) && Agrees(store, variables) && Conforms(v, td.kind)
    ensures Agrees(StoreAfter(Internal(ident, path), store, v), LocalAfter(Internal(ident, path), variables, td, value))
  {
    var t := Internal(ident, path);
    var m := StoreAfter(t, store, v);
    var vars := LocalAfter(t, variables, td, value);
    var base := if ident in variables then variables[ident].typeDef else NullTypeDef();
    assert vars[ident].typeDef.kind == WithTypeInserted(base.kind, path, td.kind);
    if path == [] {
    } else if ident in store {
      InsertConforms(store[ident], base.kind, path, v, td.kind);
    } else {
      InsertConforms(Null, base.kind, path, v, td.kind);
    }
    OthersAgree(store, variables, ident, m, vars);
  }

  /** Soundness of an infallible assignment: whatever the outcome of the
      expression, the state after `Variant::resolve` agrees with the
      environments as `Assignment::new` left them (ok target typed as the
      infallible expression type, err target as bytes or null), provided
      the expression's type is inhabited so its default value has it. */
  lemma InfallibleResolveSound(
    ok: Target, err: Target, store: map<Ident, Value>, variables: map<Ident, Details>,
    record: Value, recordDetails: Details, exprTypeDef: TypeDef, constant: Option<Value>,
    outcome: Result<Value, string>)
    requires WellFormed(LookupBuf(ok)) && WellFormed(LookupBuf(err))
    requires Agrees(store, variables) && Conforms(record, recordDetails.typeDef.kind)
    requires outcome.Ok? ==> Conforms(outcome.value, exprTypeDef.kind)
    requires Inhabited(exprTypeDef.kind)
    ensures
      var td := AsInfallible(exprTypeDef);
      var okValue := if outcome.Ok? then outcome.value else DefaultValue(td.kind);
      var errValue := if outcome.Ok? then Null else Bytes(outcome.error);
      var variables' := LocalAfter(err, LocalAfter(ok, variables, td, constant), BytesOrNullTypeDef(), None);
      var record' := ExternalAfter(err, ExternalAfter(ok, recordDetails, td, constant), BytesOrNullTypeDef(), None);
      Agrees(StoreAfter(err, StoreAfter(ok, store, okValue), errValue), variables') &&
      Conforms(RecordAfter(err, RecordAfter(ok, record, okValue), errValue), record'.typeDef.kind)
  {
    var td := AsInfallible(exprTypeDef);
    var okValue := if outcome.Ok? then outcome.value else DefaultValue(td.kind);
    var errValue := if outcome.Ok? then Null else Bytes(outcome.error);
    TargetInsertSound(ok, store, variables, record, recordDetails, okValue, td, constant);
    TargetInsertSound(err, StoreAfter(ok, store, okValue), LocalAfter(ok, variables, td, constant),
      RecordAfter(ok, record, okValue), ExternalAfter(ok, recordDetails, td, constant),
      errValue, BytesOrNullTypeDef(), None);
  }

  /** The parent and remainder texts of a diagnostic: the variable's name
      and the prefix's text, or `.` and the prefix's display; then the text
      from the failing segment on, which for the record loses its leading
      `.` when the parent is the root. */
  lemma FailureTexts(
    t: Target, root: Kind, i: nat, targetSpan: Span, exprSpan: Span, assignmentSpan: Span, rhs: Expr)
    requires i < |LookupBuf(t)|
    ensures
      var p := LookupBuf(t);
      var e := OverwriteFailure(t, root, i, targetSpan, exprSpan, assignmentSpan, rhs);
      e.variant.parentStr == (if t.Internal? then t.ident + PathText(p[..i]) else "." + PathDisplay(p[..i])) &&
      e.variant.remainderStr == (if t.External? && i == 0 then PathDisplay(p) else PathText(p[i..]))
  {
    if i == 0 {
      assert LookupBuf(t)[0..] == LookupBuf(t);
    }
  }

  /** The remediation's second line re-renders the original target: parent
      text followed by the remainder is the target's `Display`, for a
      variable and for the record alike. */
  lemma RemediationRestatesTarget(
    t: Target, root: Kind, i: nat, targetSpan: Span, exprSpan: Span, assignmentSpan: Span, rhs: Expr)
    requires i < |LookupBuf(t)|
    ensures
      var e := OverwriteFailure(t, root, i, targetSpan, exprSpan, assignmentSpan, rhs);
      e.variant.parentStr + e.variant.remainderStr == TargetText(t)
  {
    var p := LookupBuf(t);
    FailureTexts(t, root, i, targetSpan, exprSpan, assignmentSpan, rhs);
    var e := OverwriteFailure(t, root, i, targetSpan, exprSpan, assignmentSpan, rhs);
    if t.Internal? {
      InternalTextSplits(t.ident, p, i);
    } else if i == 0 {
      assert p[..0] == [];
      assert e.variant.parentStr + e.variant.remainderStr == "." + PathDisplay(p);
    } else {
      SplitDisplay(p, i);
      assert e.variant.parentStr + e.variant.remainderStr == "." + PathDisplay(p);
    }
  }

  /** A variable path's text is the name and its prefix's text, followed by
      the text of the rest. */
  lemma InternalTextSplits(ident: Ident, p: Path, i: nat)
    requires i < |p|
    ensures (ident + PathText(p[..i])) + PathText(p[i..]) == TargetText(Internal(ident, p))
  {
    PathTextSplit(p, i);
    assert (ident + PathText(p[..i])) + PathText(p[i..]) == ident + (PathText(p[..i]) + PathText(p[i..]));
  }

  /** A record path's text is its displayed prefix, after a `.`, followed by
      the text of the rest. */
  lemma SplitDisplay(p: Path, i: nat)
    requires 0 < i < |p|
    ensures ("." + PathDisplay(p[..i])) + PathText(p[i..]) == "." + PathDisplay(p)
  {
    assert p == p[..i] + p[i..];
    PathDisplayAppend(p[..i], p[i..]);
    calc {
      ("." + PathDisplay(p[..i])) + PathText(p[i..]);
      "." + (PathDisplay(p[..i]) + PathText(p[i..]));
    }
  }

  /** Compiling `.a.b = 2` against a record of kind `{a: integer}` fails:
      `.a` may not be an object. The parent text is `.a` and the remainder
      `.b`, so the remediation reads `.a = {}` then `.a.b = 2`. */
  lemma ParentNotObjectExample(external: ExternalEnv, rhs: Expr)
    requires external.readOnly == {}
    ensures
      var p := [Field("a"), Field("b")];
      var root := ObjectKind(map["a" := ScalarKind(IntegerKind)]);
      CheckTarget(TargetNode(Span(0, 4), ".a.b", AstExternal(Some(p))), map[], Details(TypeDef(root, false), None),
                  external, Span(7, 8), Span(0, 6), Span(0, 6), rhs) ==
      Err(Error(InvalidParentPathSegment("object", ScalarKind(IntegerKind), Span(0, 2), ".a", Span(3, 4), ".b", rhs),
        Span(7, 8), Span(0, 6)))
  {
    var p := [Field("a"), Field("b")];
    var root := ObjectKind(map["a" := ScalarKind(IntegerKind)]);
    assert p[1..] == [Field("b")] && p[2..] == [] && p[..1] == [Field("a")];
    assert PathText(p[1..]) == ".b" by {
      assert p[1..][1..] == [];
    }
    assert PathDisplay(p[..1]) == "a" by {
      assert p[..1][1..] == [];
    }
    assert AtPath(root, p[..1]) == ScalarKind(IntegerKind) by {
      assert p[..1][1..] == [];
    }
    assert Utf8Len("b") == 1 && Utf8Len(".b") == 2;
    assert !Fits(root, p, 1);
    DeepestIs(root, p, 2, 1);
    var e := OverwriteFailure(External(p), root, 1, Span(0, 4), Span(7, 8), Span(0, 6), rhs);
    assert e.variant.parentSpan == Span(0, 2) && e.variant.segmentSpan == Span(3, 4);
    assert e.variant.parentStr == ".a" && e.variant.remainderStr == ".b";
    assert !external.IsReadOnlyEventPath(p);
  }

  /** With `v` of kind `{a: integer}`, compiling `v.a.b = 2` fails: `v.a`
      may not be an object. The parent text is `v.a` over bytes 0 to 3 and
      the segment is `b` at byte 4, so the remediation reads `v.a = {}` then
      `v.a.b = 2`. */
  lemma VariableParentExample(external: ExternalEnv, rhs: Expr)
    ensures
      var p := [Field("a"), Field("b")];
      var variables := map["v" := Details(TypeDef(ObjectKind(map["a" := ScalarKind(IntegerKind)]), false), None)];
      CheckTarget(TargetNode(Span(0, 5), "v.a.b", AstInternal("v", Some(p))), variables, Details(TypeDef(Any, false), None),
                  external, Span(8, 9), Span(0, 7), Span(0, 7), rhs) ==
      Err(Error(InvalidParentPathSegment("object", ScalarKind(IntegerKind), Span(0, 3), "v.a", Span(4, 5), ".b", rhs),
        Span(8, 9), Span(0, 7)))
  {
    var p := [Field("a"), Field("b")];
    var root := ObjectKind(map["a" := ScalarKind(IntegerKind)]);
    assert p[1..] == [Field("b")] && p[2..] == [] && p[..1] == [Field("a")];
    assert PathText(p[1..]) == ".b" by {
      assert p[1..][1..] == [];
    }
    assert PathText(p[..1]) == ".a" by {
      assert p[..1][1..] == [];
    }
    assert AtPath(root, p[..1]) == ScalarKind(IntegerKind) by {
      assert p[..1][1..] == [];
    }
    assert Utf8Len("b") == 1 && Utf8Len(".b") == 2;
    assert !Fits(root, p, 1);
    DeepestIs(root, p, 2, 1);
    var e := OverwriteFailure(Internal("v", p), root, 1, Span(0, 5), Span(8, 9), Span(0, 7), rhs);
    assert e.variant.parentSpan == Span(0, 3) && e.variant.segmentSpan == Span(4, 5);
    assert e.variant.parentStr == "v.a" && e.variant.remainderStr == ".b";
  }

  /** With `v` known to be an integer, `v.b = 2` needs `v` to be an object
      and `v[3] = 2` needs it to be an array; both are rejected with the
      integer kind of `v` as the parent kind. */
  lemma IntegerParentExamples(external: ExternalEnv, rhs: Expr)
    ensures
      var variables := map["v" := Details(TypeDef(ScalarKind(IntegerKind), false), None)];
      var record := Details(TypeDef(Any, false), None);
      var field := CheckTarget(TargetNode(Span(0, 3), "v.b", AstInternal("v", Some([Field("b")]))),
                               variables, record, external, Span(6, 7), Span(0, 5), Span(0, 5), rhs);
      var index := CheckTarget(TargetNode(Span(0, 4), "v[3]", AstInternal("v", Some([Index(3)]))),
                               variables, record, external, Span(7, 8), Span(0, 6), Span(0, 6), rhs);
      field.Err? && Code(field.error) == 642 &&
      field.error.variant.variant == "object" && field.error.variant.parentKind == ScalarKind(IntegerKind) &&
      index.Err? && Code(index.error) == 642 &&
      index.error.variant.variant == "array" && index.error.variant.parentKind == ScalarKind(IntegerKind)
  {
    var p := [Index(3)];
    assert [Field("b")][..0] == [] && p[..0] == [];
  }

  // ---------------------------------------------------------------------------
  // The source as written, where it departs from what it evidently intends

  /** The segment start as the source computes it (a `usize` subtraction of
      the segment's byte length from the parent span's end), given as an
      integer that is negative exactly where the `usize` subtraction
      underflows. */
  function SegmentStartAsWritten(parentEnd: nat, segmentStr: string): (r: int)
    ensures r < 0 <==> parentEnd < Utf8Len(segmentStr)
    ensures r >= 0 ==> r == SpanSub(parentEnd, Utf8Len(segmentStr))
  {
    parentEnd - Utf8Len(segmentStr)
  }

  /** `.(a|b) = 1` at the start of a program: the target's text takes bytes
      0 to 6, but the coalesce displays as `(a | b)`, 7 bytes, so the
      source's first segment start is below zero. */
  lemma SpacelessCoalesceUnderflows()
    ensures Utf8Len(".(a|b)") == 6
    ensures SegmentLabel(Coalesce(["a", "b"])) == "(a | b)"
    ensures SegmentStartAsWritten(6, SegmentLabel(Coalesce(["a", "b"]))) == -1
    ensures SegmentStartAsWritten(16, SegmentLabel(Coalesce(["a", "b"]))) == 9
  {
    CoalesceLabel("a", "b");
    AsciiLen(".(a|b)");
    AsciiLen("(a | b)");
  }

  /** The same target at bytes 10 to 16: the source's segment would start at
      byte 9, before the target, but the corrected spans stay inside it. */
  lemma CoalesceSegmentStaysInTarget(exprSpan: Span, assignmentSpan: Span, rhs: Expr)
    ensures
      var e := OverwriteFailure(External([Coalesce(["a", "b"])]), Any, 0, Span(10, 16), exprSpan, assignmentSpan, rhs);
      e.variant.segmentSpan == Span(10, 16) && e.variant.parentSpan == Span(10, 10)
  {
    var p := [Coalesce(["a", "b"])];
    CoalesceLabel("a", "b");
    AsciiLen("(a | b)");
    assert p[1..] == [];
  }

  /** A two-candidate coalesce displays as `(a | b)`, spaces included. */
  lemma CoalesceLabel(a: string, b: string)
    ensures SegmentLabel(Coalesce([a, b])) == "(" + a + " | " + b + ")"
  {
    assert [a, b][1..] == [b];
    assert Join([a, b], " | ") == a + " | " + b;
    assert "(" + (a + " | " + b) + ")" == "(" + a + " | " + b + ")";
  }

  /** The parent text as the source writes it for a variable: the name
      directly followed by the prefix's `Display`, which has no leading `.`. */
  function ParentTextAsWritten(t: Target, prefix: Path): (s: string)
    requires !t.Noop?
    ensures t.Internal? ==> s == t.ident + PathDisplay(prefix)
    ensures t.External? ==> s == ParentText(t, prefix)
  {
    if t.Internal? then t.ident + PathDisplay(prefix) else "." + PathDisplay(prefix)
  }

  /** For `v.a.b` the source's parent text is `va`, a different variable,
      where `v.a` is meant. */
  lemma VariableParentLosesSeparator()
    ensures ParentTextAsWritten(Internal("v", [Field("a"), Field("b")]), [Field("a")]) == "va"
    ensures ParentText(Internal("v", [Field("a"), Field("b")]), [Field("a")]) == "v.a"
  {
    assert PathText([Field("a")]) == ".a" by {
      assert [Field("a")][1..] == [];
    }
  }

  /** `Display for Target` as the source writes it: a variable's name
      directly followed by its path's `Display`. */
  function TargetTextAsWritten(t: Target): (s: string)
    ensures !t.Internal? ==> s == TargetText(t)
    ensures t.Internal? ==> s == t.ident + PathDisplay(t.path)
  {
    match t
    case Noop => "_"
    case Internal(ident, path) => if path == [] then ident else ident + PathDisplay(path)
    case External(path) => if path == [] then "." else "." + PathDisplay(path)
  }

  /** The source renders the target `v.b` as `vb`; the intended rendering
      is `v.b`. */
  lemma VariableTargetLosesSeparator()
    ensures TargetTextAsWritten(Internal("v", [Field("b")])) == "vb"
    ensures TargetText(Internal("v", [Field("b")])) == "v.b"
  {
    assert PathText([Field("b")]) == ".b" by {
      assert [Field("b")][1..] == [];
    }
  }
}
