/**
 * Stand-in for the compiler's `TypeDef` (a kind plus a fallibility flag) and
 * `Details` (a type definition plus an optional known constant).
 */
module TypeDefs {
  import opened Wrappers
  import opened Lookup
  import opened Values
  import opened Kinds

  datatype TypeDef = TypeDef(kind: Kind, fallible: bool)

  datatype Details = Details(typeDef: TypeDef, value: Option<Value>)

  /** `TypeDef::null()`. */
  function NullTypeDef(): TypeDef
  {
    TypeDef(ScalarKind(NullKind), false)
  }

  /** `TypeDef::bytes().add_null().infallible()`: the type of an error target. */
  function BytesOrNullTypeDef(): TypeDef
  {
    TypeDef(Shape({BytesKind, NullKind}, None, None), false)
  }

  /** `TypeDef::infallible`. */
  function AsInfallible(td: TypeDef): TypeDef
  {
    td.(fallible := false)
  }

  /** `TypeDef::with_type_inserted`: the kind of `other` written at `p`; the
      result may fail if either part may. */
  function WithTypeInsertedTd(td: TypeDef, p: Path, other: TypeDef): TypeDef
  {
    TypeDef(WithTypeInserted(td.kind, p, other.kind), td.fallible || other.fallible)
  }
}
