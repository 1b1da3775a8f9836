/**
 * Stand-in for the `value` crate's `Kind` lattice: the statically known shape
 * of a value. `Any` is the top of the lattice; a `Shape` lists the scalar
 * kinds a value may have and, when it may be an object (array), the kinds of
 * the fields (elements) known so far. A field or index that is not known
 * narrows to `Any`: an unknown shape is always permitted, never rejected.
 */
module Kinds {
  import opened Wrappers
  import opened Lookup
  import opened Values

  datatype Scalar = BytesKind | IntegerKind | FloatKind | BooleanKind | TimestampKind | RegexKind | NullKind

  datatype Kind =
    | Any
    | Shape(scalars: set<Scalar>, obj: Option<map<string, Kind>>, arr: Option<map<int, Kind>>)

  /** `Kind::contains_object`: a value of this kind could be an object. */
  predicate ContainsObject(k: Kind)
  {
    k.Any? || k.obj.Some?
  }

  /** `Kind::contains_array`: a value of this kind could be an array. */
  predicate ContainsArray(k: Kind)
  {
    k.Any? || k.arr.Some?
  }

  predicate ContainsBytes(k: Kind)
  {
    k.Any? || BytesKind in k.scalars
  }

  /** Some value has this kind. */
  predicate Inhabited(k: Kind)
  {
    k.Any? || k.scalars != {} || k.obj.Some? || k.arr.Some?
  }

  function ScalarKind(s: Scalar): Kind
  {
    Shape({s}, None, None)
  }

  function ObjectKind(fields: map<string, Kind>): Kind
  {
    Shape({}, Some(fields), None)
  }

  function KnownFields(k: Kind): map<string, Kind>
  {
    if k.Shape? && k.obj.Some? then k.obj.value else map[]
  }

  function KnownElements(k: Kind): map<int, Kind>
  {
    if k.Shape? && k.arr.Some? then k.arr.value else map[]
  }

  /** `Kind::or_null`. */
  function OrNull(k: Kind): Kind
  {
    if k.Any? then Any else k.(scalars := k.scalars + {NullKind})
  }

  /** `Kind::add_bytes`. */
  function AddBytes(k: Kind): Kind
  {
    if k.Any? then Any else k.(scalars := k.scalars + {BytesKind})
  }

  /** The kind one segment below `k`. */
  function Step(k: Kind, s: Segment): Kind
  {
    match s
    case Field(n) => if n in KnownFields(k) then KnownFields(k)[n] else Any
    case Coalesce(_) => Any
    case Index(i) => if i in KnownElements(k) then KnownElements(k)[i] else Any
  }

  /** `Kind::at_path`: the kind found by narrowing `k` along `p`. */
  function AtPath(k: Kind, p: Path): Kind
    decreases p
  {
    if p == [] then k else AtPath(Step(k, p[0]), p[1..])
  }

  /** The kind after the slot designated by `s` receives a value of kind `c`.
      The parent becomes an object (array); other known fields are kept; other
      known elements may have been padded with nulls; a negative index shifts
      positions, so only the written one stays known; the candidates of a
      coalesce become unknown. */
  /** The element kinds after a kind `c` is written at non-negative index
      `i`: the known non-negative elements may now be null (the array may
      have been padded), and `i` has kind `c`. */
  function WrittenElements(k: Kind, i: int, c: Kind): map<int, Kind>
  {
    (map j | j in KnownElements(k) && j >= 0 :: OrNull(KnownElements(k)[j]))[i := c]
  }

  function Put(k: Kind, s: Segment, c: Kind): Kind
  {
    match s
    case Field(n) => ObjectKind(KnownFields(k)[n := c])
    case Coalesce(ns) =>
      if ns == [] then k
      else ObjectKind(map f | f in KnownFields(k) && f !in ns :: KnownFields(k)[f])
    case Index(i) =>
      if i >= 0 then
        Shape({}, None, Some(WrittenElements(k, i, c)))
      else
        Shape({}, None, Some(map[i := c]))
  }

  /** `Kind::insert_at_path`: `k` after a value of kind `t` is written at `p`. */
  function WithTypeInserted(k: Kind, p: Path, t: Kind): Kind
    decreases p
  {
    if p == [] then t else Put(k, p[0], WithTypeInserted(Step(k, p[0]), p[1..], t))
  }

  /** The value `v` is one of the values that kind `k` describes. Known
      fields and elements constrain a value only where it has them. */
  predicate Conforms(v: Value, k: Kind)
    decreases v
  {
    match k
    case Any => true
    case Shape(scalars, obj, arr) =>
      match v
      case Null => NullKind in scalars
      case Bytes(_) => BytesKind in scalars
      case Integer(_) => IntegerKind in scalars
      case Float(_) => FloatKind in scalars
      case Boolean(_) => BooleanKind in scalars
      case Timestamp(_) => TimestampKind in scalars
      case Regex(_) => RegexKind in scalars
      case Object(m) =>
        obj.Some? && forall f :: f in m && f in obj.value ==> Conforms(m[f], obj.value[f])
      case Array(xs) =>
        arr.Some? &&
        forall j :: j in arr.value && 0 <= Position(|xs|, j) < |xs| ==> Conforms(xs[Position(|xs|, j)], arr.value[j])
  }

  /** `DefaultValue for Kind`: the canonical value of a kind, used when an
      infallible assignment's expression fails. */
  function DefaultValue(k: Kind): (v: Value)
    ensures Inhabited(k) ==> Conforms(v, k)
  {
    ScalarCases(k);
    if k.Any? then Null
    else if BytesKind in k.scalars then Bytes("")
    else if IntegerKind in k.scalars then Integer(0)
    else if FloatKind in k.scalars then Float(0.0)
    else if BooleanKind in k.scalars then Boolean(false)
    else if TimestampKind in k.scalars then Timestamp(0)
    else if RegexKind in k.scalars then Regex("")
    else if NullKind in k.scalars then Null
    else if k.obj.Some? then Object(map[])
    else if k.arr.Some? then Array([])
    else Null
  }

  lemma ScalarCases(k: Kind)
    ensures k.Shape? && k.scalars != {} ==>
      BytesKind in k.scalars || IntegerKind in k.scalars || FloatKind in k.scalars || BooleanKind in k.scalars ||
      TimestampKind in k.scalars || RegexKind in k.scalars || NullKind in k.scalars
  {
    if k.Shape? && k.scalars != {} {
      var s :| s in k.scalars;
      match s
      case BytesKind =>
      case IntegerKind =>
      case FloatKind =>
      case BooleanKind =>
      case TimestampKind =>
      case RegexKind =>
      case NullKind =>
    }
  }

  /** `or_null` and `add_bytes` only widen a kind. */
  lemma Widening(v: Value, k: Kind)
    requires Conforms(v, k)
    ensures Conforms(v, OrNull(k)) && Conforms(v, AddBytes(k))
  {
  }

  lemma AddBytesWidens(k: Kind)
    ensures forall v :: Conforms(v, k) ==> Conforms(v, AddBytes(k))
  {
    forall v | Conforms(v, k) ensures Conforms(v, AddBytes(k)) {
      Widening(v, k);
    }
  }

  lemma PathTail(p: Path)
    requires p != []
    ensures WellFormed(p) ==> WellFormed(p[1..])
    ensures NoCoalesce(p) ==> NoCoalesce(p[1..])
  {
    assert forall i :: 0 <= i < |p[1..]| ==> p[1..][i] == p[i + 1];
  }

  /** Narrowing along a path just written yields exactly the kind written. */
  lemma {:induction false} InsertedAt(k: Kind, p: Path, t: Kind)
    requires NoCoalesce(p)
    ensures AtPath(WithTypeInserted(k, p, t), p) == t
    decreases p
  {
    if p != [] {
      PathTail(p);
      InsertedAt(Step(k, p[0]), p[1..], t);
    }
  }

  /** Writing into `null` gives the same kind as writing into `any`: only
      known fields and elements survive a write, and neither has any. (An
      empty coalesce keeps the base kind, so the two then differ.) */
  lemma NullBaseIsAnyBase(p: Path, t: Kind)
    requires p == [] || p[0] != Coalesce([])
    ensures WithTypeInserted(ScalarKind(NullKind), p, t) == WithTypeInserted(Any, p, t)
  {
    if p != [] {
      assert Step(ScalarKind(NullKind), p[0]) == Step(Any, p[0]);
    }
  }

  /** The slot below `v` that an insertion rewrites conforms to the kind one
      step below `k` (or is a null created for the insertion). */
  lemma ChildConforms(v: Value, k: Kind, s: Segment)
    requires Conforms(v, k) || IsScalar(v)
    ensures Conforms(Child(v, s), Step(k, s)) || IsScalar(Child(v, s))
  {
    match s
    case Field(n) =>
    case Coalesce(ns) =>
    case Index(i) =>
      if v.Array? && k.Shape? && i in KnownElements(k) {
        var xs := Items(v);
        if 0 <= Position(|xs|, i) < |xs| {
          assert k.arr.Some? && i in k.arr.value;
        }
      }
  }

  lemma ReplaceFieldConforms(v: Value, k: Kind, n: string, c: Value, ck: Kind)
    requires Conforms(v, k) || IsScalar(v)
    requires Conforms(c, ck)
    ensures Conforms(Replace(v, Field(n), c), Put(k, Field(n), ck))
  {
    var m := Fields(v)[n := c];
    var kf := KnownFields(k)[n := ck];
    forall f | f in m && f in kf ensures Conforms(m[f], kf[f]) {
      if f != n {
        assert v.Object? && k.Shape? && k.obj.Some?;
      }
    }
  }

  lemma ReplaceCoalesceConforms(v: Value, k: Kind, ns: seq<string>, c: Value, ck: Kind)
    requires Conforms(v, k) || IsScalar(v)
    requires ns != []
    ensures Conforms(Replace(v, Coalesce(ns), c), Put(k, Coalesce(ns), ck))
  {
    var chosen := Chosen(Fields(v), ns);
    var m := Fields(v)[chosen := c];
    var kf := map f | f in KnownFields(k) && f !in ns :: KnownFields(k)[f];
    forall f | f in m && f in kf ensures Conforms(m[f], kf[f]) {
      assert f != chosen;
      assert v.Object? && k.Shape? && k.obj.Some?;
    }
  }

  /** An element that writing at index `i` leaves in place still conforms to
      its known kind, widened by null. */
  lemma KeptElementConforms(v: Value, k: Kind, i: int, c: Value, j: int)
    requires Conforms(v, k) || IsScalar(v)
    requires 0 <= i && 0 <= j < |Items(v)| && j != i && j in KnownElements(k)
    ensures Conforms(Replace(v, Index(i), c).items[j], OrNull(KnownElements(k)[j]))
  {
    var xs := Items(v);
    assert v.Array? && k.Shape? && k.arr.Some?;
    assert Replace(v, Index(i), c).items[j] == xs[j];
    assert Conforms(xs[Position(|xs|, j)], KnownElements(k)[j]);
    Widening(xs[j], KnownElements(k)[j]);
  }

  /** Each element of the array after writing at non-negative index `i`
      conforms to its written element kind. */
  lemma WrittenElementConforms(v: Value, k: Kind, i: int, c: Value, ck: Kind, j: int)
    requires Conforms(v, k) || IsScalar(v)
    requires Conforms(c, ck)
    requires i >= 0 && j in WrittenElements(k, i, ck)
    requires 0 <= Position(|Replace(v, Index(i), c).items|, j) < |Replace(v, Index(i), c).items|
    ensures Conforms(Replace(v, Index(i), c).items[Position(|Replace(v, Index(i), c).items|, j)], WrittenElements(k, i, ck)[j])
  {
    var xs := Items(v);
    var ys := Replace(v, Index(i), c).items;
    assert |ys| == if i < |xs| then |xs| else i + 1;
    if j != i {
      assert j >= 0 && Position(|ys|, j) == j;
      if j < |xs| {
        KeptElementConforms(v, k, i, c, j);
      } else {
        assert ys[j] == Null;
      }
    } else {
      assert ys[i] == c;
    }
  }

  lemma ReplaceIndexConforms(v: Value, k: Kind, i: int, c: Value, ck: Kind)
    requires Conforms(v, k) || IsScalar(v)
    requires Conforms(c, ck)
    ensures Conforms(Replace(v, Index(i), c), Put(k, Index(i), ck))
  {
    var xs := Items(v);
    var ys := Replace(v, Index(i), c).items;
    if i >= 0 {
      var ke := WrittenElements(k, i, ck);
      forall j | j in ke && 0 <= Position(|ys|, j) < |ys|
        ensures Conforms(ys[Position(|ys|, j)], ke[j])
      {
        WrittenElementConforms(v, k, i, c, ck, j);
      }
    } else if -i <= |xs| {
      assert ys[|xs| + i] == c;
    } else {
      assert ys[0] == c;
    }
  }

  /** Writing a conforming child into a conforming parent keeps conformance. */
  lemma ReplaceConforms(v: Value, k: Kind, s: Segment, c: Value, ck: Kind)
    requires Conforms(v, k) || IsScalar(v)
    requires Conforms(c, ck)
    requires s.Coalesce? ==> s.names != []
    ensures Conforms(Replace(v, s, c), Put(k, s, ck))
  {
    match s
    case Field(n) => ReplaceFieldConforms(v, k, n, c, ck);
    case Coalesce(ns) => ReplaceCoalesceConforms(v, k, ns, c, ck);
    case Index(i) => ReplaceIndexConforms(v, k, i, c, ck);
  }

  /** Soundness of the type update: if the stored value conforms to its kind
      (or is a scalar the insertion replaces) and the written value conforms
      to the written kind, the updated value conforms to the updated kind. */
  lemma {:induction false} InsertConforms(v: Value, k: Kind, p: Path, x: Value, t: Kind)
    requires WellFormed(p)
    requires Conforms(v, k) || IsScalar(v)
    requires Conforms(x, t)
    ensures Conforms(InsertByPath(v, p, x), WithTypeInserted(k, p, t))
    decreases p
  {
    if p != [] {
      PathTail(p);
      ChildConforms(v, k, p[0]);
      InsertConforms(Child(v, p[0]), Step(k, p[0]), p[1..], x, t);
      ReplaceConforms(v, k, p[0], InsertByPath(Child(v, p[0]), p[1..], x), WithTypeInserted(Step(k, p[0]), p[1..], t));
    }
  }
}
