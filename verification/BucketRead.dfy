/**
 The conditions a planned read is made of, and what they select: the rows the
 request asks for, whichever index line the plan reads on.
 */
module BucketRead {
  import opened Wrappers
  import opened Collections
  import opened BucketPlan

  type Id = nat

  /** A stored document: its own id, its time, the facts it holds (a missing one is null) and its links. */
  datatype Row = Row(id: Id, time: Time, facts: map<Fact, Value>, refs: set<string>)

  function ValueOf(row: Row, fact: Fact): Option<Value> {
    if fact in row.facts then Some(row.facts[fact]) else None
  }

  /** A parsed request; `asked` are the facts of `where` that are in force. Only a summary asks for null. */
  datatype Query = Query(
    where: map<Fact, Option<Value>>,
    asked: seq<Fact>,
    shown: seq<Fact>,
    ref: Option<string>,
    since: Option<Time>,
    until: Option<Time>)
  {
    predicate Valid(b: Bucket) {
      && (forall f :: f in asked ==> f in where && f in b.facts)
      && (forall f :: f in shown ==> f in b.facts)
    }
  }

  /*** Conditions ***/

  /** A condition on one fact: equality, or one of some values and perhaps null. */
  datatype Condition = Equals(value: Option<Value>) | OneOf(values: seq<Value>, orNull: bool)

  predicate Holds(c: Condition, value: Option<Value>) {
    match c
    case Equals(v) => value == v
    case OneOf(values, orNull) => if value.None? then orNull else value.value in values
  }

  type Part = map<Fact, Condition>

  predicate Meets(part: Part, row: Row) {
    forall f :: f in part ==> Holds(part[f], ValueOf(row, f))
  }

  predicate Fillable(b: Bucket, plan: Plan, query: Query) {
    && AllClosed(b, plan.filled)
    && (forall f :: f in plan.residual && f !in query.asked ==> IsClosed(b, f))
  }

  function BoundPart(b: Bucket, query: Query, plan: Plan): Part
    requires query.Valid(b)
  {
    map f | f in FactsOf(b, plan.line) && f in query.asked :: Equals(query.where[f])
  }

  function FilledPart(b: Bucket, query: Query, plan: Plan, orNull: bool): Part
    requires AllClosed(b, plan.filled)
  {
    map f | f in plan.filled :: OneOf(FillOf(b, f, query.shown), orNull)
  }

  /** What the index line leaves to test: equality for an asked fact, otherwise that the row shows nothing hidden. */
  function ResidualPart(b: Bucket, query: Query, plan: Plan): Part
    requires query.Valid(b) && Fillable(b, plan, query)
  {
    map f | f in plan.residual ::
      if f in query.asked then Equals(query.where[f]) else OneOf(FillOf(b, f, query.shown), true)
  }

  /** The row's time lies between two bounds, each of them only if it is given. */
  predicate IsWithin(since: Option<Time>, until: Option<Time>, row: Row) {
    && (since.Some? ==> since.value <= row.time)
    && (until.Some? ==> row.time <= until.value)
  }

  predicate InRange(query: Query, row: Row) {
    IsWithin(query.since, query.until, row)
  }

  predicate HasRef(query: Query, row: Row) {
    query.ref.Some? ==> query.ref.value in row.refs
  }

  /** The conditions the index answers. */
  predicate Matches(b: Bucket, query: Query, plan: Plan, row: Row)
    requires query.Valid(b) && Fillable(b, plan, query)
  {
    && Meets(BoundPart(b, query, plan), row)
    && Meets(FilledPart(b, query, plan, true), row)
    && HasRef(query, row)
    && InRange(query, row)
  }

  /** All the conditions: what the list is read with. */
  predicate Selects(b: Bucket, query: Query, plan: Plan, row: Row)
    requires query.Valid(b) && Fillable(b, plan, query)
  {
    Matches(b, query, plan, row) && Meets(ResidualPart(b, query, plan), row)
  }

  /*** What the request means ***/

  predicate IsListed(b: Bucket, fact: Fact, value: Value)
    requires IsClosed(b, fact)
  {
    exists i :: 0 <= i < |b.values[fact].listed| && b.values[fact].listed[i].value == value
  }

  /** A value that is listed, and only ever as hidden. */
  predicate IsHidden(b: Bucket, fact: Fact, value: Value)
    requires IsClosed(b, fact)
  {
    && IsListed(b, fact, value)
    && forall i :: 0 <= i < |b.values[fact].listed| && b.values[fact].listed[i].value == value ==>
         b.values[fact].listed[i].hidden
  }

  /** The row holds no value of the fact that the request leaves hidden. */
  predicate ShowsNothingHidden(b: Bucket, query: Query, fact: Fact, row: Row) {
    IsClosed(b, fact) && fact !in query.shown && ValueOf(row, fact).Some? ==>
      !IsHidden(b, fact, ValueOf(row, fact).value)
  }

  /** The rows a request is for, with no plan in sight. */
  predicate Wanted(b: Bucket, query: Query, row: Row)
    requires query.Valid(b)
  {
    && (forall f :: f in query.asked ==> ValueOf(row, f) == query.where[f])
    && (forall f :: f in b.facts && f !in query.asked ==> ShowsNothingHidden(b, query, f, row))
    && (query.ref.Some? ==> query.ref.value in row.refs)
    && (query.since.Some? ==> query.since.value <= row.time)
    && (query.until.Some? ==> row.time <= query.until.value)
  }

  /** The row holds null or one of the fact's listed values. */
  predicate HoldsListed(b: Bucket, fact: Fact, row: Row) {
    IsClosed(b, fact) && ValueOf(row, fact).Some? ==> IsListed(b, fact, ValueOf(row, fact).value)
  }

  /** What the stamping of stored rows asserts of every closed fact. */
  predicate WellStored(b: Bucket, row: Row) {
    forall f :: f in b.facts ==> HoldsListed(b, f, row)
  }

  /*** Plans select what is wanted ***/

  lemma FillMeans(b: Bucket, fact: Fact, shown: seq<Fact>, value: Value)
    requires IsClosed(b, fact)
    ensures value in FillOf(b, fact, shown) <==>
      IsListed(b, fact, value) && (fact in shown || !IsHidden(b, fact, value))
  {
    var listed := b.values[fact].listed;
    var kept := Filter(listed, (v: Listed) => fact in shown || !v.hidden);
    var fill := FillOf(b, fact, shown);
    if value in fill {
      var i :| 0 <= i < |fill| && fill[i] == value;
      assert kept[i] in listed;
    }
    if IsListed(b, fact, value) && (fact in shown || !IsHidden(b, fact, value)) {
      var i :| 0 <= i < |listed| && listed[i].value == value && (fact in shown || !listed[i].hidden);
      assert listed[i] in kept;
      var j :| 0 <= j < |kept| && kept[j] == listed[i];
      assert fill[j] == value;
    }
  }

  /** A plan of the request: any line whose unasked facts are closed, the reference line among them. */
  predicate IsPlanOf(b: Bucket, query: Query, plan: Plan) {
    && plan == PlanFor(b, plan.line, query.asked, Needed(b, query.asked, query.shown))
    && AllClosed(b, plan.filled)
    && (forall f :: f in FactsOf(b, plan.line) ==> f in b.facts)
  }

  lemma PlanIsFillable(b: Bucket, query: Query, plan: Plan)
    requires IsPlanOf(b, query, plan)
    ensures Fillable(b, plan, query)
  {
  }

  /** The facts a plan tests although nothing asks for them. */
  predicate IsTestedUnasked(plan: Plan, query: Query, fact: Fact) {
    fact in plan.filled || (fact in plan.residual && fact !in query.asked)
  }

  /** A condition filled for a fact means: listed or null, and nothing hidden unless it is shown. */
  lemma FilledMeans(b: Bucket, query: Query, fact: Fact, row: Row)
    requires IsClosed(b, fact)
    ensures Holds(OneOf(FillOf(b, fact, query.shown), true), ValueOf(row, fact)) <==>
      HoldsListed(b, fact, row) && ShowsNothingHidden(b, query, fact, row)
  {
    if ValueOf(row, fact).Some? {
      FillMeans(b, fact, query.shown, ValueOf(row, fact).value);
    }
  }

  /** A fact nothing tests hides nothing: the plan covers every fact that narrows. */
  lemma UntestedHidesNothing(b: Bucket, query: Query, plan: Plan, fact: Fact, row: Row)
    requires IsPlanOf(b, query, plan)
    requires fact in b.facts && fact !in query.asked && !IsTestedUnasked(plan, query, fact)
    ensures ShowsNothingHidden(b, query, fact, row)
  {
    if fact !in query.shown {
      assert fact !in Narrowing(b, query.asked, query.shown);
      assert fact in Without(b.facts, query.asked + query.shown);
    }
  }

  lemma SelectedIsWanted(b: Bucket, query: Query, plan: Plan, row: Row)
    requires query.Valid(b) && IsPlanOf(b, query, plan) && Fillable(b, plan, query)
    requires Selects(b, query, plan, row)
    ensures Wanted(b, query, row)
    ensures forall f :: IsTestedUnasked(plan, query, f) ==> HoldsListed(b, f, row)
  {
    var bound, filled, residual := BoundPart(b, query, plan), FilledPart(b, query, plan, true),
      ResidualPart(b, query, plan);
    forall f | f in query.asked
      ensures ValueOf(row, f) == query.where[f]
    {
      assert f in bound || f in residual;
    }
    forall f | IsTestedUnasked(plan, query, f)
      ensures HoldsListed(b, f, row) && ShowsNothingHidden(b, query, f, row)
    {
      assert f in filled || f in residual;
      FilledMeans(b, query, f, row);
    }
    forall f | f in b.facts && f !in query.asked
      ensures ShowsNothingHidden(b, query, f, row)
    {
      if !IsTestedUnasked(plan, query, f) {
        UntestedHidesNothing(b, query, plan, f, row);
      }
    }
  }

  lemma WantedIsSelected(b: Bucket, query: Query, plan: Plan, row: Row)
    requires query.Valid(b) && IsPlanOf(b, query, plan) && Fillable(b, plan, query)
    requires Wanted(b, query, row)
    requires forall f :: IsTestedUnasked(plan, query, f) ==> HoldsListed(b, f, row)
    ensures Selects(b, query, plan, row)
  {
    forall f | IsTestedUnasked(plan, query, f)
      ensures Holds(OneOf(FillOf(b, f, query.shown), true), ValueOf(row, f))
    {
      TestedIsUnasked(b, query, plan, f);
      FilledMeans(b, query, f, row);
    }
    MeetingAllIsSelected(b, query, plan, row);
  }

  lemma TestedIsUnasked(b: Bucket, query: Query, plan: Plan, f: Fact)
    requires query.Valid(b) && IsPlanOf(b, query, plan) && IsTestedUnasked(plan, query, f)
    ensures f in b.facts && f !in query.asked
  {
  }

  lemma MeetingAllIsSelected(b: Bucket, query: Query, plan: Plan, row: Row)
    requires query.Valid(b) && Fillable(b, plan, query) && HasRef(query, row) && InRange(query, row)
    requires forall f :: f in query.asked ==> ValueOf(row, f) == query.where[f]
    requires forall f :: IsTestedUnasked(plan, query, f) ==>
      Holds(OneOf(FillOf(b, f, query.shown), true), ValueOf(row, f))
    ensures Selects(b, query, plan, row)
  {
  }

  /**
   What any plan of a request selects: the rows wanted, less those that hold, in a
   fact the plan tests unasked, a value the fact does not list.
   */
  lemma SelectsExactly(b: Bucket, query: Query, plan: Plan, row: Row)
    requires query.Valid(b) && IsPlanOf(b, query, plan)
    ensures Fillable(b, plan, query)
    ensures Selects(b, query, plan, row) <==>
      Wanted(b, query, row) && forall f :: IsTestedUnasked(plan, query, f) ==> HoldsListed(b, f, row)
  {
    PlanIsFillable(b, query, plan);
    if Selects(b, query, plan, row) {
      SelectedIsWanted(b, query, plan, row);
    } else if Wanted(b, query, row) && forall f :: IsTestedUnasked(plan, query, f) ==> HoldsListed(b, f, row) {
      WantedIsSelected(b, query, plan, row);
    }
  }

  /** Over well stored rows any two plans of a request, the reference line's among them, select alike. */
  lemma PlansAgree(b: Bucket, query: Query, plan: Plan, other: Plan, row: Row)
    requires query.Valid(b) && IsPlanOf(b, query, plan) && IsPlanOf(b, query, other) && WellStored(b, row)
    ensures Fillable(b, plan, query) && Fillable(b, other, query)
    ensures Selects(b, query, plan, row) <==> Wanted(b, query, row)
    ensures Selects(b, query, plan, row) <==> Selects(b, query, other, row)
  {
    TestedAreDeclared(b, query, plan);
    TestedAreDeclared(b, query, other);
    SelectsExactly(b, query, plan, row);
    SelectsExactly(b, query, other, row);
  }

  lemma TestedAreDeclared(b: Bucket, query: Query, plan: Plan)
    requires IsPlanOf(b, query, plan)
    ensures forall f :: IsTestedUnasked(plan, query, f) ==> f in b.facts
  {
  }

  /** A row stored with a value its fact does not list is lost by a plan that fills the fact, and by no other. */
  lemma UnlistedValueSplitsPlans(b: Bucket, query: Query, filling: Plan, other: Plan, fact: Fact, row: Row)
    requires query.Valid(b) && IsPlanOf(b, query, filling) && IsPlanOf(b, query, other)
    requires Wanted(b, query, row) && fact in filling.filled && !HoldsListed(b, fact, row)
    requires forall f :: IsTestedUnasked(other, query, f) ==> HoldsListed(b, f, row)
    ensures Fillable(b, filling, query) && Fillable(b, other, query)
    ensures !Selects(b, query, filling, row) && Selects(b, query, other, row)
  {
    SelectsExactly(b, query, filling, row);
    SelectsExactly(b, query, other, row);
    assert IsTestedUnasked(filling, query, fact);
  }

  /** An exact plan's index conditions are all its conditions, so its count needs no residual. */
  lemma ExactCountsWhatIsListed(b: Bucket, query: Query, plan: Plan, row: Row)
    requires query.Valid(b) && IsPlanOf(b, query, plan) && plan.kind == Exact
    ensures Fillable(b, plan, query)
    ensures Matches(b, query, plan, row) <==> Selects(b, query, plan, row)
  {
    PlanIsFillable(b, query, plan);
    assert plan.residual == [];
    assert ResidualPart(b, query, plan) == map[];
  }

  /** The planner's own choice is a plan of the request. */
  lemma ChosenIsPlanOf(b: Bucket, query: Query)
    requires WellFormed(b) && query.Valid(b)
    ensures IsUsable(b, query.asked, query.shown, Facts([]))
    ensures IsPlanOf(b, query, ChoosePlan(b, query.asked, query.ref.Some?, query.shown))
  {
    LeadIsUsable(b, query.asked, query.shown);
    var k := PlanIsLexicographicallyBest(b, query.asked, query.shown);
    ChosenPlanIsUsable(b, query.asked, query.ref.Some?, query.shown);
  }
}
