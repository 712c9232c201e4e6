/** The base class of every database migration: the builder accessors, the
    expression latch they share through the migration context, and the
    run that checks the latch once the migration body is done.
    The latch (`BuildingExpression`) is set when a builder is handed out and is
    cleared by that builder's `Do()`; a migration that takes a second builder
    before the first has run, or that ends with a builder not run, fails with an
    incomplete-expression error. */
module Migrations {
  import opened Wrappers

  // ---------------------------------------------------------------------------
  // The context and the builders

  /** The migration context shared by a migration and its builders; only the
      expression latch is modelled. */
  class MigrationContext {
    var buildingExpression: bool

    constructor ()
      ensures !buildingExpression
    {
      buildingExpression := false;
    }

    /** What a builder's `Do()` leaves behind once its expression has run: the
        latch cleared. */
    method EndExpression()
      modifies this
      ensures !buildingExpression
    {
      buildingExpression := false;
    }
  }

  /** The seven kinds of expression builder a migration can take. */
  datatype BuilderKind = Alter | Create | Delete | Execute | Insert | Rename | Update

  /** A fresh expression builder (`new AlterBuilder(Context)` and so on). */
  datatype Builder = Builder(kind: BuilderKind)

  /** `IncompleteMigrationExpressionException` with its message. */
  datatype MigrationError = IncompleteMigrationExpression(message: string)

  const PreviousExpressionNotRun: string := "Cannot create a new expression: the previous expression has not run."
  const ExpressionLeftNotRun: string := "The migration has run, but leaves an expression that has not run."

  // ---------------------------------------------------------------------------
  // The specification: a migration body as the steps the base class sees

  /** What a migration body does that the base class observes: take a builder,
      run the pending expression (`Do()`), or assign one of the two flags. */
  datatype Step =
    | Begin(kind: BuilderKind)
    | Do
    | SetRebuildCache(rebuildCache: bool)
    | SetInvalidateBackofficeUserAccess(invalidate: bool)

  /** The observable state: the context's latch and the migration's two flags. */
  datatype State = State(building: bool, rebuildCache: bool, invalidateBackofficeUserAccess: bool)

  /** `BeginBuild` on a latch: the builder and the latch set, or the
      previous-expression error with the latch left as it was. */
  function BeginOn<T>(building: bool, builder: T): (r: (Result<T, MigrationError>, bool))
    ensures r.1
    ensures r.0.Success? <==> !building
    ensures r.0.Success? ==> r.0.value == builder
  {
    if building then (Failure(IncompleteMigrationExpression(PreviousExpressionNotRun)), building)
    else (Success(builder), true)
  }

  /** One step on the state; a builder taken while the latch is set throws. */
  function Apply(st: State, s: Step): (r: Result<State, MigrationError>)
    ensures r.Failure? <==> s.Begin? && st.building
    ensures r.Success? ==> r.value.building == (s.Begin? || (st.building && !s.Do?))
  {
    match s
    case Begin(kind) =>
      var (b, latch) := BeginOn(st.building, Builder(kind));
      if b.Failure? then Failure(b.error) else Success(st.(building := latch))
    case Do => Success(st.(building := false))
    case SetRebuildCache(v) => Success(st.(rebuildCache := v))
    case SetInvalidateBackofficeUserAccess(v) => Success(st.(invalidateBackofficeUserAccess := v))
  }

  /** The body run step by step from `st`: how it ends, and the state at the end
      or at the step that threw. */
  function Exec(st: State, body: seq<Step>): (r: (Outcome<MigrationError>, State))
    ensures r.0.Fail? ==> r.1.building && r.0.error == IncompleteMigrationExpression(PreviousExpressionNotRun)
    decreases |body|
  {
    if body == [] then (Pass, st)
    else
      match Apply(st, body[0])
      case Failure(e) => (Fail(e), st)
      case Success(st') => Exec(st', body[1..])
  }

  /** `RunAsync`: the body, then the latch check. */
  function Run(st: State, body: seq<Step>): (r: (Outcome<MigrationError>, State))
    ensures r.1 == Exec(st, body).1
    ensures r.0.Pass? ==> !r.1.building
  {
    var (outcome, st') := Exec(st, body);
    if outcome.Fail? then (outcome, st')
    else if st'.building then (Fail(IncompleteMigrationExpression(ExpressionLeftNotRun)), st')
    else (Pass, st')
  }

  // ---------------------------------------------------------------------------
  // The migration

  /** A migration: its context, its body (the abstract `MigrateAsync`) and the
      two flags the body may set. */
  class Migration {
    const context: MigrationContext
    const body: seq<Step>
    var rebuildCache: bool
    var invalidateBackofficeUserAccess: bool

    constructor (context: MigrationContext, body: seq<Step>)
      ensures this.context == context && this.body == body
      ensures !rebuildCache && !invalidateBackofficeUserAccess
    {
      this.context := context;
      this.body := body;
      rebuildCache := false;
      invalidateBackofficeUserAccess := false;
    }

    function Snapshot(): State
      reads this, context
    {
      State(context.buildingExpression, rebuildCache, invalidateBackofficeUserAccess)
    }

    /** `BeginBuild(builder)`: throws when the latch is already set, otherwise
        sets it and hands the builder back unchanged. */
    method BeginBuild<T>(builder: T) returns (r: Result<T, MigrationError>)
      modifies context
      ensures (r, context.buildingExpression) == BeginOn(old(context.buildingExpression), builder)
    {
      if context.buildingExpression {
        return Failure(IncompleteMigrationExpression(PreviousExpressionNotRun));
      }
      context.buildingExpression := true;
      return Success(builder);
    }

    method GetAlter() returns (r: Result<Builder, MigrationError>)
      modifies context
      ensures (r, context.buildingExpression) == BeginOn(old(context.buildingExpression), Builder(Alter))
    {
      r := BeginBuild(Builder(Alter));
    }

    method GetCreate() returns (r: Result<Builder, MigrationError>)
      modifies context
      ensures (r, context.buildingExpression) == BeginOn(old(context.buildingExpression), Builder(Create))
    {
      r := BeginBuild(Builder(Create));
    }

    method GetDelete() returns (r: Result<Builder, MigrationError>)
      modifies context
      ensures (r, context.buildingExpression) == BeginOn(old(context.buildingExpression), Builder(Delete))
    {
      r := BeginBuild(Builder(Delete));
    }

    method GetExecute() returns (r: Result<Builder, MigrationError>)
      modifies context
      ensures (r, context.buildingExpression) == BeginOn(old(context.buildingExpression), Builder(Execute))
    {
      r := BeginBuild(Builder(Execute));
    }

    method GetInsert() returns (r: Result<Builder, MigrationError>)
      modifies context
      ensures (r, context.buildingExpression) == BeginOn(old(context.buildingExpression), Builder(Insert))
    {
      r := BeginBuild(Builder(Insert));
    }

    method GetRename() returns (r: Result<Builder, MigrationError>)
      modifies context
      ensures (r, context.buildingExpression) == BeginOn(old(context.buildingExpression), Builder(Rename))
    {
      r := BeginBuild(Builder(Rename));
    }

    method GetUpdate() returns (r: Result<Builder, MigrationError>)
      modifies context
      ensures (r, context.buildingExpression) == BeginOn(old(context.buildingExpression), Builder(Update))
    {
      r := BeginBuild(Builder(Update));
    }

    /** The accessor for a builder kind. */
    method Take(kind: BuilderKind) returns (r: Result<Builder, MigrationError>)
      modifies context
      ensures (r, context.buildingExpression) == BeginOn(old(context.buildingExpression), Builder(kind))
    {
      match kind
      case Alter => r := GetAlter();
      case Create => r := GetCreate();
      case Delete => r := GetDelete();
      case Execute => r := GetExecute();
      case Insert => r := GetInsert();
      case Rename => r := GetRename();
      case Update => r := GetUpdate();
    }

    /** `MigrateAsync`: the body's steps in order, stopping at the first throw. */
    method MigrateAsync() returns (outcome: Outcome<MigrationError>)
      modifies this, context
      ensures (outcome, Snapshot()) == Exec(old(Snapshot()), body)
    {
      var i := 0;
      while i < |body|
        invariant 0 <= i <= |body|
        invariant Exec(Snapshot(), body[i..]) == Exec(old(Snapshot()), body)
      {
        assert body[i..][0] == body[i] && body[i..][1..] == body[i + 1..];
        match body[i] {
          case Begin(kind) =>
            var r := Take(kind);
            if r.Failure? {
              return Fail(r.error);
            }
          case Do =>
            context.EndExpression();
          case SetRebuildCache(v) =>
            rebuildCache := v;
          case SetInvalidateBackofficeUserAccess(v) =>
            invalidateBackofficeUserAccess := v;
        }
        i := i + 1;
      }
      return Pass;
    }

    /** `RunAsync`: the body, then a failure when it left the latch set. */
    method RunAsync() returns (outcome: Outcome<MigrationError>)
      modifies this, context
      ensures (outcome, Snapshot()) == Run(old(Snapshot()), body)
    {
      outcome := MigrateAsync();
      if outcome.Fail? {
        return;
      }
      if context.buildingExpression {
        outcome := Fail(IncompleteMigrationExpression(ExpressionLeftNotRun));
      }
    }
  }
}
