/** What the expression latch guarantees about a whole migration run. */
module MigrationLaws {
  import opened Wrappers
  import opened Migrations

  /** A body that, started with the latch `open`, takes a builder only while the
      latch is clear and leaves it clear at the end: every builder it takes is
      run before the next one is taken and before the body returns. */
  predicate Closes(open: bool, body: seq<Step>)
    decreases |body|
  {
    if body == [] then !open
    else
      match body[0]
      case Begin(_) => !open && Closes(true, body[1..])
      case Do => Closes(false, body[1..])
      case _ => Closes(open, body[1..])
  }

  /** The value of the last `RebuildCache` assignment in `body`, or `v` when it
      makes none. */
  function LastRebuildCache(v: bool, body: seq<Step>): bool
    decreases |body|
  {
    if body == [] then v
    else LastRebuildCache(if body[0].SetRebuildCache? then body[0].rebuildCache else v, body[1..])
  }

  /** The value of the last `InvalidateBackofficeUserAccess` assignment in `body`,
      or `v` when it makes none. */
  function LastInvalidate(v: bool, body: seq<Step>): bool
    decreases |body|
  {
    if body == [] then v
    else LastInvalidate(if body[0].SetInvalidateBackofficeUserAccess? then body[0].invalidate else v, body[1..])
  }

  /** Running two pieces of a body in turn is running the whole of it. */
  lemma {:induction false} ExecAppend(st: State, a: seq<Step>, b: seq<Step>)
    ensures Exec(st, a + b) == if Exec(st, a).0.Fail? then Exec(st, a) else Exec(Exec(st, a).1, b)
    decreases |a|
  {
    if a == [] {
      assert a + b == b;
    } else {
      assert (a + b)[0] == a[0] && (a + b)[1..] == a[1..] + b;
      if Apply(st, a[0]).Success? {
        ExecAppend(Apply(st, a[0]).value, a[1..], b);
      }
    }
  }

  /** `RunAsync` completes without an exception exactly for the bodies that run
      every builder they take before taking the next one and before returning. */
  lemma {:induction false} RunPassesIffCloses(st: State, body: seq<Step>)
    ensures Run(st, body).0.Pass? <==> Closes(st.building, body)
    decreases |body|
  {
    if body != [] && Apply(st, body[0]).Success? {
      RunPassesIffCloses(Apply(st, body[0]).value, body[1..]);
    }
  }

  /** A builder taken while an earlier one has not run throws, whatever the body
      does before that as long as it runs no `Do()`. */
  lemma {:induction false} BeginWhileBuildingFails(st: State, body: seq<Step>, j: nat)
    requires st.building
    requires j < |body| && body[j].Begin?
    requires forall i :: 0 <= i < j ==> !body[i].Do?
    ensures Exec(st, body).0 == Fail(IncompleteMigrationExpression(PreviousExpressionNotRun))
    decreases j
  {
    if j > 0 && Apply(st, body[0]).Success? {
      var st' := Apply(st, body[0]).value;
      BeginWhileBuildingFails(st', body[1..], j - 1);
    }
  }

  /** Taking two builders without running the first in between fails on the
      second (or on the first, when an earlier builder was left pending). */
  lemma SecondBuilderFails(st: State, first: BuilderKind, middle: seq<Step>, second: BuilderKind, rest: seq<Step>)
    requires forall i :: 0 <= i < |middle| ==> !middle[i].Do?
    ensures Exec(st, [Begin(first)] + middle + [Begin(second)] + rest).0
         == Fail(IncompleteMigrationExpression(PreviousExpressionNotRun))
  {
    var body := [Begin(first)] + middle + [Begin(second)] + rest;
    if !st.building {
      assert body[1..] == middle + [Begin(second)] + rest;
      BeginWhileBuildingFails(st.(building := true), body[1..], |middle|);
    }
  }

  /** A body whose every builder is run, followed by one more builder that is not,
      fails at the latch check rather than in the body. */
  lemma TrailingBuilderReported(st: State, body: seq<Step>, kind: BuilderKind)
    requires Closes(st.building, body)
    ensures Exec(st, body + [Begin(kind)]).0.Pass?
    ensures Run(st, body + [Begin(kind)]).0 == Fail(IncompleteMigrationExpression(ExpressionLeftNotRun))
  {
    RunPassesIffCloses(st, body);
    ExecAppend(st, body, [Begin(kind)]);
  }

  /** The two flags keep the last value the body assigned; the latch handling
      never touches them. */
  lemma {:induction false} FlagsKeepLastAssignment(st: State, body: seq<Step>)
    requires Exec(st, body).0.Pass?
    ensures Run(st, body).1.rebuildCache == LastRebuildCache(st.rebuildCache, body)
    ensures Run(st, body).1.invalidateBackofficeUserAccess == LastInvalidate(st.invalidateBackofficeUserAccess, body)
    decreases |body|
  {
    if body != [] {
      FlagsKeepLastAssignment(Apply(st, body[0]).value, body[1..]);
    }
  }
}
