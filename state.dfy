/**
 * The compile-time environments (`LocalEnv`, `ExternalEnv`) and the runtime
 * evaluation `Context`, each updated in place.
 */
module State {
  import opened Wrappers
  import opened Lookup
  import opened Values
  import opened TypeDefs

  type Ident = string

  /** The compile-scope variable table: identifier to current details. */
  class LocalEnv {
    var variables: map<Ident, Details>

    constructor (variables: map<Ident, Details>)
      ensures this.variables == variables
    {
      this.variables := variables;
    }

    function Variable(ident: Ident): (d: Option<Details>)
      reads this
      ensures d.Some? <==> ident in variables
      ensures d.Some? ==> d.value == variables[ident]
    {
      if ident in variables then Some(variables[ident]) else None
    }

    method InsertVariable(ident: Ident, details: Details)
      modifies this
      ensures variables == old(variables)[ident := details]
    {
      variables := variables[ident := details];
    }
  }

  /** The ambient record's current details, and the regions of the record
      that policy marks read-only. */
  class ExternalEnv {
    var target: Details
    const readOnly: set<Path>

    constructor (target: Details, readOnly: set<Path>)
      ensures this.target == target && this.readOnly == readOnly
    {
      this.target := target;
      this.readOnly := readOnly;
    }

    /** A path is read-only when it lies at or below a read-only region. */
    predicate IsReadOnlyEventPath(p: Path)
    {
      exists region :: region in readOnly && region <= p
    }

    method UpdateTarget(details: Details)
      modifies this
      ensures target == details
    {
      target := details;
    }
  }

  /** The per-record runtime context: the variable store and the record. */
  class Context {
    var variables: map<Ident, Value>
    var target: Value

    constructor (variables: map<Ident, Value>, target: Value)
      ensures this.variables == variables && this.target == target
    {
      this.variables := variables;
      this.target := target;
    }

    method InsertVariable(ident: Ident, value: Value)
      modifies this
      ensures variables == old(variables)[ident := value]
      ensures target == old(target)
    {
      variables := variables[ident := value];
    }

    /** `Target::target_insert` on the record. */
    method TargetInsert(p: Path, value: Value)
      modifies this
      ensures target == InsertByPath(old(target), p, value)
      ensures variables == old(variables)
    {
      target := InsertByPath(target, p, value);
    }
  }
}
