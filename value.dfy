/**
 * Stand-in for the `value` crate's runtime `Value` and its path operations
 * (`Value::insert_by_path`, `Value::at_path`, and reading at a path).
 */
module Values {
  import opened Lookup

  datatype Value =
    | Null
    | Bytes(bytes: string)
    | Integer(integer: int)
    | Float(float: real)
    | Boolean(boolean: bool)
    | Timestamp(instant: int)
    | Regex(pattern: string)
    | Object(fields: map<string, Value>)
    | Array(items: seq<Value>)

  predicate IsScalar(v: Value)
  {
    !v.Object? && !v.Array?
  }

  /** The fields of an object; any other value has none. */
  function Fields(v: Value): map<string, Value>
  {
    if v.Object? then v.fields else map[]
  }

  /** The elements of an array; any other value has none. */
  function Items(v: Value): seq<Value>
  {
    if v.Array? then v.items else []
  }

  /** The position an index designates in an array of length `len`
      (a negative index counts from the end). */
  function Position(len: nat, i: int): int
  {
    if i >= 0 then i else len + i
  }

  function Nulls(n: nat): (r: seq<Value>)
    ensures |r| == n
    ensures forall j :: 0 <= j < n ==> r[j] == Null
  {
    if n == 0 then [] else Nulls(n - 1) + [Null]
  }

  /** The field a coalesce segment designates: the first candidate present
      in the object, or else the last candidate. */
  function Chosen(m: map<string, Value>, names: seq<string>): (c: string)
    requires names != []
    ensures c in names
  {
    if |names| == 1 || names[0] in m then names[0] else Chosen(m, names[1..])
  }

  /** Writing to the chosen candidate does not change which candidate is chosen. */
  lemma {:induction false} ChosenStable(m: map<string, Value>, names: seq<string>, x: Value)
    requires names != []
    ensures Chosen(m[Chosen(m, names) := x], names) == Chosen(m, names)
  {
    if |names| > 1 && names[0] !in m {
      var c := Chosen(m, names[1..]);
      if names[0] != c {
        ChosenStable(m, names[1..], x);
      }
    }
  }

  /** The value one segment below `v`, or `Null` when there is none. */
  function Child(v: Value, s: Segment): Value
  {
    match s
    case Field(n) => if n in Fields(v) then Fields(v)[n] else Null
    case Coalesce(ns) =>
      if ns != [] && Chosen(Fields(v), ns) in Fields(v) then Fields(v)[Chosen(Fields(v), ns)] else Null
    case Index(i) =>
      var xs := Items(v);
      var pos := Position(|xs|, i);
      if 0 <= pos < |xs| then xs[pos] else Null
  }

  /** The value at a path, or `Null` where the path leads nowhere. */
  function Get(v: Value, p: Path): Value
    decreases p
  {
    if p == [] then v else Get(Child(v, p[0]), p[1..])
  }

  /** `v` with the slot designated by `s` set to `c`: a value that is not an
      object (array) first becomes an empty one, an array grows with nulls up
      to the index, and a negative index beyond the start prepends nulls. */
  function Replace(v: Value, s: Segment, c: Value): Value
  {
    match s
    case Field(n) => Object(Fields(v)[n := c])
    case Coalesce(ns) => if ns == [] then v else Object(Fields(v)[Chosen(Fields(v), ns) := c])
    case Index(i) =>
      var xs := Items(v);
      if i >= 0 then
        if i < |xs| then Array(xs[i := c]) else Array(xs + Nulls(i - |xs|) + [c])
      else if -i <= |xs| then Array(xs[|xs| + i := c])
      else Array([c] + Nulls(-i - |xs| - 1) + xs)
  }

  /** `Value::insert_by_path`: `v` with `x` stored at path `p`. */
  function InsertByPath(v: Value, p: Path, x: Value): Value
    decreases p
  {
    if p == [] then x else Replace(v, p[0], InsertByPath(Child(v, p[0]), p[1..], x))
  }

  /** `Value::at_path`: a fresh value holding `x` at path `p`. */
  function ValueAtPath(x: Value, p: Path): (r: Value)
    ensures WellFormed(p) ==> Get(r, p) == x
  {
    if WellFormed(p) then InsertThenGet(Null, p, x); InsertByPath(Null, p, x)
    else InsertByPath(Null, p, x)
  }

  lemma ChildOfReplace(v: Value, s: Segment, c: Value)
    requires s.Coalesce? ==> s.names != []
    ensures Child(Replace(v, s, c), s) == c
  {
    match s
    case Field(n) =>
    case Coalesce(ns) =>
      ChosenStable(Fields(v), ns, c);
    case Index(i) =>
      var xs := Items(v);
      if i >= 0 && i >= |xs| {
        assert (xs + Nulls(i - |xs|) + [c])[i] == c;
      } else if i < 0 && -i > |xs| {
        assert ([c] + Nulls(-i - |xs| - 1) + xs)[0] == c;
      }
  }

  /** Reading back at the path just written yields the value written. */
  lemma {:induction false} InsertThenGet(v: Value, p: Path, x: Value)
    requires WellFormed(p)
    ensures Get(InsertByPath(v, p, x), p) == x
    decreases p
  {
    if p != [] {
      var c := InsertByPath(Child(v, p[0]), p[1..], x);
      ChildOfReplace(v, p[0], c);
      assert WellFormed(p[1..]) by {
        forall i | 0 <= i < |p[1..]| && p[1..][i].Coalesce? ensures p[1..][i].names != [] {
          assert p[1..][i] == p[i + 1];
        }
      }
      InsertThenGet(Child(v, p[0]), p[1..], x);
    }
  }
}
