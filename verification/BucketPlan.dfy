/**
 The query planner: which index line a request is read on, which facts that line
 binds, fills and leaves over, and the conditions the read is then made of.
 */
module BucketPlan {
  import opened Collections

  type Fact = string
  type Value = string
  type Time = int

  const MAX_SCANS: nat := 50

  datatype Listed = Listed(value: Value, hidden: bool)

  /** No values of its own, values read from storage, or a closed list of them. */
  datatype Values = Open | Stored | Closed(listed: seq<Listed>)

  /** A summary: what it counts by, and the rows it counts among. */
  datatype Summary = Summary(counted: seq<Fact>, amongFacts: seq<Fact>, among: map<Fact, Value>)

  datatype Bucket = Bucket(
    facts: seq<Fact>,
    values: map<Fact, Values>,
    lead: seq<Fact>,
    indexes: seq<seq<Fact>>,
    summaries: seq<Summary>)

  /** An index line: the references, or a list of facts; each has the bucket's lead in front. */
  datatype Line = Refs | Facts(facts: seq<Fact>)

  datatype Kind = Exact | Bounded

  datatype Plan = Plan(kind: Kind, line: Line, filled: seq<Fact>, residual: seq<Fact>)

  /*** Lists ***/

  function Filter<T(!new)>(xs: seq<T>, keep: T -> bool): (r: seq<T>)
    ensures forall x :: x in r <==> x in xs && keep(x)
    ensures |r| <= |xs|
  {
    if xs == [] then []
    else if keep(xs[0]) then [xs[0]] + Filter(xs[1..], keep)
    else Filter(xs[1..], keep)
  }

  /*** The planner ***/

  predicate IsClosed(b: Bucket, fact: Fact) {
    fact in b.values && b.values[fact].Closed?
  }

  predicate HasHidden(b: Bucket, fact: Fact) {
    IsClosed(b, fact) && exists i :: 0 <= i < |b.values[fact].listed| && b.values[fact].listed[i].hidden
  }

  function FactsOf(b: Bucket, line: Line): seq<Fact> {
    b.lead + (if line.Refs? then [] else line.facts)
  }

  /** What a closed fact may hold besides null in rows of a list that does not ask for it. */
  function FillOf(b: Bucket, fact: Fact, shown: seq<Fact>): seq<Value>
    requires IsClosed(b, fact)
  {
    var kept := Filter(b.values[fact].listed, (v: Listed) => fact in shown || !v.hidden);
    seq(|kept|, i requires 0 <= i < |kept| => kept[i].value)
  }

  /** The facts with hidden values that a request neither asks for nor shows. */
  function Narrowing(b: Bucket, asked: seq<Fact>, shown: seq<Fact>): seq<Fact> {
    Filter(Without(b.facts, asked + shown), fact => HasHidden(b, fact))
  }

  predicate AllClosed(b: Bucket, facts: seq<Fact>) {
    forall i :: 0 <= i < |facts| ==> IsClosed(b, facts[i])
  }

  /** How many combinations there are of a value, or null, for each of some filled facts. */
  function Scans(b: Bucket, facts: seq<Fact>, shown: seq<Fact>): (n: nat)
    requires AllClosed(b, facts)
    ensures n >= 1
  {
    if facts == [] then 1
    else
      var last := |facts| - 1;
      ScansTimes(Scans(b, facts[..last], shown), |FillOf(b, facts[last], shown)| + 1)
  }

  function ScansTimes(m: nat, n: nat): (r: nat)
    ensures m >= 1 && n >= 1 ==> r >= 1
  {
    m * n
  }

  predicate IsUsable(b: Bucket, asked: seq<Fact>, shown: seq<Fact>, line: Line) {
    var unasked := Without(FactsOf(b, line), asked);
    AllClosed(b, unasked) && Scans(b, unasked, shown) <= MAX_SCANS
  }

  function ScansOf(b: Bucket, asked: seq<Fact>, shown: seq<Fact>, line: Line): nat
    requires AllClosed(b, Without(FactsOf(b, line), asked))
  {
    Scans(b, Without(FactsOf(b, line), asked), shown)
  }

  function IsAmong(facts: seq<Fact>): Fact -> bool {
    fact => fact in facts
  }

  function BoundBy(b: Bucket, line: Line, needed: seq<Fact>): nat {
    |Filter(FactsOf(b, line), IsAmong(needed))|
  }

  /** What a line is judged by: the needed facts it binds, and the scans it takes. */
  datatype Rank = Rank(bound: nat, scans: nat)

  /** A strict order: by facts bound, upwards, and among equals by scans, downwards. */
  predicate Beats(r: Rank, other: Rank) {
    r.bound > other.bound || (r.bound == other.bound && r.scans < other.scans)
  }

  function RankOf(b: Bucket, asked: seq<Fact>, shown: seq<Fact>, needed: seq<Fact>, line: Line): Rank
    requires IsUsable(b, asked, shown, line)
  {
    Rank(BoundBy(b, line, needed), ScansOf(b, asked, shown, line))
  }

  function Better(b: Bucket, asked: seq<Fact>, shown: seq<Fact>, needed: seq<Fact>, chosen: Line, line: Line): Line
    requires IsUsable(b, asked, shown, chosen)
  {
    if IsUsable(b, asked, shown, line) &&
       Beats(RankOf(b, asked, shown, needed, line), RankOf(b, asked, shown, needed, chosen))
    then line else chosen
  }

  /** The usable lines folded left to right, from the time-only line. */
  function BestOf(b: Bucket, asked: seq<Fact>, shown: seq<Fact>, needed: seq<Fact>, lines: seq<seq<Fact>>): (best: Line)
    requires IsUsable(b, asked, shown, Facts([]))
    ensures IsUsable(b, asked, shown, best)
  {
    if lines == [] then Facts([])
    else
      var last := |lines| - 1;
      Better(b, asked, shown, needed, BestOf(b, asked, shown, needed, lines[..last]), Facts(lines[last]))
  }

  function PlanFor(b: Bucket, line: Line, asked: seq<Fact>, needed: seq<Fact>): Plan {
    var facts := FactsOf(b, line);
    var residual := Without(needed, facts);
    Plan(if residual == [] then Exact else Bounded, line, Without(facts, asked), residual)
  }

  function Needed(b: Bucket, asked: seq<Fact>, shown: seq<Fact>): seq<Fact> {
    asked + Narrowing(b, asked, shown)
  }

  function ChoosePlan(b: Bucket, asked: seq<Fact>, hasRef: bool, shown: seq<Fact>): Plan
    requires IsUsable(b, asked, shown, Facts([]))
  {
    var needed := Needed(b, asked, shown);
    PlanFor(b, if hasRef then Refs else BestOf(b, asked, shown, needed, b.indexes), asked, needed)
  }

  /** What `defineBucket` insists on, as far as reading a bucket depends on it. */
  predicate WellFormed(b: Bucket) {
    && b.values.Keys == (set f | f in b.facts)
    && (forall f :: f in b.lead ==> f in b.facts)
    && (forall i :: 0 <= i < |b.indexes| ==> forall f :: f in b.indexes[i] ==> f in b.facts)
    && AllClosed(b, b.lead)
    && Scans(b, b.lead, b.lead) <= MAX_SCANS
  }

  /*** A line without facts of its own can be read for every request ***/

  lemma {:induction false} FilterGrows<T(!new)>(xs: seq<T>, keep: T -> bool, more: T -> bool)
    requires forall x :: x in xs && keep(x) ==> more(x)
    ensures |Filter(xs, keep)| <= |Filter(xs, more)|
  {
    if xs != [] {
      FilterGrows(xs[1..], keep, more);
    }
  }

  /** Showing every hidden value of a fact only adds to what it stands for. */
  lemma FillShown(b: Bucket, fact: Fact, shown: seq<Fact>, all: seq<Fact>)
    requires IsClosed(b, fact) && fact in all
    ensures |FillOf(b, fact, shown)| <= |FillOf(b, fact, all)|
  {
    FilterGrows(
      b.values[fact].listed,
      (v: Listed) => fact in shown || !v.hidden,
      (v: Listed) => fact in all || !v.hidden);
  }

  lemma TimesGrows(a: nat, b: nat, c: nat, d: nat)
    requires a <= b && c <= d
    ensures ScansTimes(a, c) <= ScansTimes(b, d)
  {
    assert a * c <= b * c <= b * d;
  }

  lemma ScansLast(b: Bucket, facts: seq<Fact>, fact: Fact, shown: seq<Fact>)
    requires AllClosed(b, facts) && IsClosed(b, fact)
    ensures AllClosed(b, facts + [fact])
    ensures Scans(b, facts + [fact], shown) == ScansTimes(Scans(b, facts, shown), |FillOf(b, fact, shown)| + 1)
  {
    assert (facts + [fact])[..|facts|] == facts;
  }

  lemma FewerScansStep(
    b: Bucket, init: seq<Fact>, fact: Fact, rest: seq<Fact>, skip: bool, shown: seq<Fact>, all: seq<Fact>)
    requires AllClosed(b, init) && AllClosed(b, rest) && IsClosed(b, fact) && fact in all
    requires Scans(b, rest, shown) <= Scans(b, init, all)
    ensures AllClosed(b, init + [fact]) && AllClosed(b, rest + [fact])
    ensures Scans(b, if skip then rest else rest + [fact], shown) <= Scans(b, init + [fact], all)
  {
    ScansLast(b, init, fact, all);
    ScansLast(b, rest, fact, shown);
    FillShown(b, fact, shown, all);
    var before, after := |FillOf(b, fact, shown)| + 1, |FillOf(b, fact, all)| + 1;
    TimesGrows(Scans(b, rest, shown), Scans(b, init, all), if skip then 1 else before, after);
  }

  lemma WithoutLast(init: seq<Fact>, fact: Fact, drop: seq<Fact>)
    ensures Without(init + [fact], drop) == if fact in drop then Without(init, drop) else Without(init, drop) + [fact]
  {
    assert (init + [fact])[..|init|] == init;
  }

  /** Asking for some facts, and showing fewer, never takes more scans than filling them all. */
  lemma {:induction false} FewerScans(b: Bucket, facts: seq<Fact>, asked: seq<Fact>, shown: seq<Fact>, all: seq<Fact>)
    requires AllClosed(b, facts) && (forall i :: 0 <= i < |facts| ==> facts[i] in all)
    ensures AllClosed(b, Without(facts, asked))
    ensures Scans(b, Without(facts, asked), shown) <= Scans(b, facts, all)
    decreases |facts|
  {
    if facts != [] {
      var init, fact := facts[..|facts| - 1], facts[|facts| - 1];
      assert facts == init + [fact];
      FewerScans(b, init, asked, shown, all);
      WithoutLast(init, fact, asked);
      FewerScansStep(b, init, fact, Without(init, asked), fact in asked, shown, all);
    }
  }

  lemma LeadIsUsable(b: Bucket, asked: seq<Fact>, shown: seq<Fact>)
    requires WellFormed(b)
    ensures IsUsable(b, asked, shown, Facts([])) && IsUsable(b, asked, shown, Refs)
  {
    assert FactsOf(b, Facts([])) == b.lead && FactsOf(b, Refs) == b.lead;
    FewerScans(b, b.lead, asked, shown, b.lead);
  }

  /*** The chosen line is the best ***/

  /** Whatever is chosen reads only closed facts unasked, in no more scans than one read may make. */
  lemma ChosenPlanIsUsable(b: Bucket, asked: seq<Fact>, hasRef: bool, shown: seq<Fact>)
    requires WellFormed(b)
    ensures IsUsable(b, asked, shown, Facts([]))
    ensures
      var plan := ChoosePlan(b, asked, hasRef, shown);
      && AllClosed(b, plan.filled)
      && Scans(b, plan.filled, shown) <= MAX_SCANS
      && (plan.kind == Exact <==> plan.residual == [])
  {
    LeadIsUsable(b, asked, shown);
  }

  /** A place in the choice: -1 for the time-only line, otherwise where a line was declared. */
  function LineAt(lines: seq<seq<Fact>>, k: int): Line
    requires -1 <= k < |lines|
  {
    Facts(if k == -1 then [] else lines[k])
  }

  /** The line, if usable, does not beat the best; one that comes before the best is beaten by it. */
  predicate Yields(
    b: Bucket, asked: seq<Fact>, shown: seq<Fact>, needed: seq<Fact>, line: Line, best: Rank, isBefore: bool) {
    IsUsable(b, asked, shown, line) ==>
      var rank := RankOf(b, asked, shown, needed, line);
      !Beats(rank, best) && (isBefore ==> Beats(best, rank))
  }

  /** Nothing usable beats the line at `k`, and nothing before it does as well. */
  predicate IsBestAt(b: Bucket, asked: seq<Fact>, shown: seq<Fact>, needed: seq<Fact>, lines: seq<seq<Fact>>, k: int)
  {
    && -1 <= k < |lines|
    && IsUsable(b, asked, shown, LineAt(lines, k))
    && var best := RankOf(b, asked, shown, needed, LineAt(lines, k));
       AllYield(b, asked, shown, needed, lines, best, k)
  }

  /** What yields to the best yields to whatever beats that. */
  lemma YieldsToBetter(
    b: Bucket, asked: seq<Fact>, shown: seq<Fact>, needed: seq<Fact>, line: Line, best: Rank, isBefore: bool,
    better: Rank)
    requires Yields(b, asked, shown, needed, line, best, isBefore) && Beats(better, best)
    ensures Yields(b, asked, shown, needed, line, better, true)
  {
  }

  predicate AllYield(
    b: Bucket, asked: seq<Fact>, shown: seq<Fact>, needed: seq<Fact>, lines: seq<seq<Fact>>, best: Rank, k: int) {
    forall j :: -1 <= j < |lines| ==> Yields(b, asked, shown, needed, LineAt(lines, j), best, j < k)
  }

  lemma LineOfLonger(lines: seq<seq<Fact>>, line: seq<Fact>)
    ensures LineAt(lines + [line], |lines|) == Facts(line)
    ensures forall j :: -1 <= j < |lines| ==> LineAt(lines + [line], j) == LineAt(lines, j)
  {
  }

  /** All yield to a line that beats the best so far, those before it outright. */
  lemma AllYieldToBetter(
    b: Bucket, asked: seq<Fact>, shown: seq<Fact>, needed: seq<Fact>, lines: seq<seq<Fact>>, line: seq<Fact>,
    best: Rank, k: int, better: Rank)
    requires AllYield(b, asked, shown, needed, lines, best, k) && Beats(better, best)
    requires Yields(b, asked, shown, needed, Facts(line), better, false)
    ensures AllYield(b, asked, shown, needed, lines + [line], better, |lines|)
  {
    LineOfLonger(lines, line);
    forall j | -1 <= j < |lines|
      ensures Yields(b, asked, shown, needed, LineAt(lines, j), better, true)
    {
      assert Yields(b, asked, shown, needed, LineAt(lines, j), best, j < k);
      YieldsToBetter(b, asked, shown, needed, LineAt(lines, j), best, j < k, better);
    }
  }

  lemma AllStillYield(
    b: Bucket, asked: seq<Fact>, shown: seq<Fact>, needed: seq<Fact>, lines: seq<seq<Fact>>, line: seq<Fact>,
    best: Rank, k: int)
    requires AllYield(b, asked, shown, needed, lines, best, k) && k < |lines|
    requires Yields(b, asked, shown, needed, Facts(line), best, false)
    ensures AllYield(b, asked, shown, needed, lines + [line], best, k)
  {
    LineOfLonger(lines, line);
    forall j | -1 <= j < |lines|
      ensures Yields(b, asked, shown, needed, LineAt(lines, j), best, j < k)
    {
    }
  }

  /** One more line: it is taken only if it beats the best so far. */
  lemma BetterIsBest(
    b: Bucket, asked: seq<Fact>, shown: seq<Fact>, needed: seq<Fact>, lines: seq<seq<Fact>>, line: seq<Fact>,
    k: int)
    returns (k1: int)
    requires IsBestAt(b, asked, shown, needed, lines, k)
    ensures IsBestAt(b, asked, shown, needed, lines + [line], k1)
    ensures LineAt(lines + [line], k1) == Better(b, asked, shown, needed, LineAt(lines, k), Facts(line))
  {
    var last := Facts(line);
    var best := RankOf(b, asked, shown, needed, LineAt(lines, k));
    LineOfLonger(lines, line);
    if IsUsable(b, asked, shown, last) && Beats(RankOf(b, asked, shown, needed, last), best) {
      k1 := |lines|;
      AllYieldToBetter(b, asked, shown, needed, lines, line, best, k, RankOf(b, asked, shown, needed, last));
    } else {
      k1 := k;
      AllStillYield(b, asked, shown, needed, lines, line, best, k);
    }
  }

  lemma {:induction false} ChosenLineIsBest(
    b: Bucket, asked: seq<Fact>, shown: seq<Fact>, needed: seq<Fact>, lines: seq<seq<Fact>>)
    returns (k: int)
    requires IsUsable(b, asked, shown, Facts([]))
    ensures IsBestAt(b, asked, shown, needed, lines, k)
    ensures BestOf(b, asked, shown, needed, lines) == LineAt(lines, k)
  {
    if lines == [] {
      k := -1;
    } else {
      var init, last := lines[..|lines| - 1], lines[|lines| - 1];
      assert lines == init + [last];
      k := ChosenLineIsBest(b, asked, shown, needed, init);
      k := BetterIsBest(b, asked, shown, needed, init, last, k);
    }
  }

  /** The whole choice: for every bucket accepted and every request without a reference. */
  lemma PlanIsLexicographicallyBest(b: Bucket, asked: seq<Fact>, shown: seq<Fact>) returns (k: int)
    requires WellFormed(b)
    ensures IsUsable(b, asked, shown, Facts([]))
    ensures IsBestAt(b, asked, shown, Needed(b, asked, shown), b.indexes, k)
    ensures ChoosePlan(b, asked, false, shown).line == LineAt(b.indexes, k)
  {
    LeadIsUsable(b, asked, shown);
    k := ChosenLineIsBest(b, asked, shown, Needed(b, asked, shown), b.indexes);
  }

  /*** What the choice comes to, counted ***/

  /** A list depends on a fact that is asked for, or that has hidden values it does not show. */
  predicate IsNeeded(b: Bucket, asked: seq<Fact>, shown: seq<Fact>, f: Fact) {
    f in asked || (f in b.facts && f !in shown && Hides(b, f))
  }

  /** Some value of the fact is listed as hidden. */
  predicate Hides(b: Bucket, f: Fact) {
    && f in b.values && b.values[f].Closed?
    && exists i :: 0 <= i < |b.values[f].listed| && b.values[f].listed[i].hidden
  }

  /** An index names each of its facts once. */
  predicate NamesOnce(b: Bucket, line: Line) {
    Distinct(FactsOf(b, line))
  }

  /** The needed facts an index line holds. */
  function Held(b: Bucket, asked: seq<Fact>, shown: seq<Fact>, line: Line): set<Fact> {
    set f | f in FactsOf(b, line) && IsNeeded(b, asked, shown, f)
  }

  lemma NeededMeans(b: Bucket, asked: seq<Fact>, shown: seq<Fact>, f: Fact)
    ensures f in Needed(b, asked, shown) <==> IsNeeded(b, asked, shown, f)
  {
    assert f in Without(b.facts, asked + shown) <==> f in b.facts && f !in asked + shown;
  }

  /** The reference line is read exactly if the request carries a reference. */
  lemma LineIsOfTheRequest(b: Bucket, asked: seq<Fact>, hasRef: bool, shown: seq<Fact>)
    requires WellFormed(b)
    ensures IsUsable(b, asked, shown, Facts([]))
    ensures ChoosePlan(b, asked, hasRef, shown).line.Refs? <==> hasRef
  {
    LeadIsUsable(b, asked, shown);
    var k := PlanIsLexicographicallyBest(b, asked, shown);
  }

  lemma PlanForMeans(b: Bucket, asked: seq<Fact>, shown: seq<Fact>, line: Line, f: Fact)
    ensures
      var plan := PlanFor(b, line, asked, Needed(b, asked, shown));
      && plan.line == line
      && (f in plan.filled <==> f in FactsOf(b, line) && f !in asked)
      && (f in plan.residual <==> IsNeeded(b, asked, shown, f) && f !in FactsOf(b, line))
      && (plan.kind == Exact <==> plan.residual == [])
  {
    NeededMeans(b, asked, shown, f);
  }

  /** Filling and what is left over, read off the line: a plan is exact exactly if its line holds every needed fact. */
  lemma PlanIsReadOffItsLine(b: Bucket, asked: seq<Fact>, hasRef: bool, shown: seq<Fact>, f: Fact)
    requires WellFormed(b)
    ensures IsUsable(b, asked, shown, Facts([]))
    ensures
      var plan := ChoosePlan(b, asked, hasRef, shown);
      && (f in plan.filled <==> f in FactsOf(b, plan.line) && f !in asked)
      && (f in plan.residual <==> IsNeeded(b, asked, shown, f) && f !in FactsOf(b, plan.line))
      && (plan.kind == Exact <==> forall g :: IsNeeded(b, asked, shown, g) ==> g in FactsOf(b, plan.line))
  {
    LeadIsUsable(b, asked, shown);
    var plan := ChoosePlan(b, asked, hasRef, shown);
    PlanForMeans(b, asked, shown, plan.line, f);
    forall g
      ensures g in plan.residual <==> IsNeeded(b, asked, shown, g) && g !in FactsOf(b, plan.line)
    {
      PlanForMeans(b, asked, shown, plan.line, g);
    }
    assert plan.residual != [] ==> plan.residual[0] in plan.residual;
  }

  /** What a list has of one kind, as a set. */
  function Kept(xs: seq<Fact>, keep: Fact -> bool): set<Fact> {
    set x | x in xs && keep(x)
  }

  lemma KeptOfMore(xs: seq<Fact>, keep: Fact -> bool)
    requires xs != [] && Distinct(xs)
    ensures xs[0] !in Kept(xs[1..], keep)
    ensures Kept(xs, keep) == if keep(xs[0]) then Kept(xs[1..], keep) + {xs[0]} else Kept(xs[1..], keep)
  {
    assert forall x :: x in xs <==> x == xs[0] || x in xs[1..];
  }

  lemma {:induction false} FilterCounts(xs: seq<Fact>, keep: Fact -> bool)
    requires Distinct(xs)
    ensures |Filter(xs, keep)| == |Kept(xs, keep)|
  {
    if xs != [] {
      FilterCounts(xs[1..], keep);
      KeptOfMore(xs, keep);
    }
  }

  lemma BoundCountsHeld(b: Bucket, asked: seq<Fact>, shown: seq<Fact>, line: Line)
    requires NamesOnce(b, line)
    ensures BoundBy(b, line, Needed(b, asked, shown)) == |Held(b, asked, shown, line)|
  {
    var needed := Needed(b, asked, shown);
    FilterCounts(FactsOf(b, line), IsAmong(needed));
    forall f
      ensures f in needed <==> IsNeeded(b, asked, shown, f)
    {
      NeededMeans(b, asked, shown, f);
    }
    assert Held(b, asked, shown, line) == Kept(FactsOf(b, line), IsAmong(needed));
  }

  predicate AllNameOnce(b: Bucket) {
    forall j :: -1 <= j < |b.indexes| ==> NamesOnce(b, LineAt(b.indexes, j))
  }

  /** A line whose facts are asked for, or closed and together within what one read may scan. */
  predicate CanBeRead(b: Bucket, asked: seq<Fact>, shown: seq<Fact>, line: Line) {
    var unasked := Without(FactsOf(b, line), asked);
    (forall f :: f in unasked ==> IsClosed(b, f)) && AllClosed(b, unasked) && Scans(b, unasked, shown) <= 50
  }

  /**
   The line chosen, against every line that can be read: it holds more of the needed facts,
   or as many in no more scans, and strictly the one or the other against lines declared
   before it.
   */
  lemma ChosenHoldsMost(b: Bucket, asked: seq<Fact>, shown: seq<Fact>, j: int) returns (k: int)
    requires WellFormed(b) && AllNameOnce(b) && -1 <= j < |b.indexes|
    requires CanBeRead(b, asked, shown, LineAt(b.indexes, j))
    ensures -1 <= k < |b.indexes| && CanBeRead(b, asked, shown, LineAt(b.indexes, k))
    ensures IsUsable(b, asked, shown, Facts([])) && ChoosePlan(b, asked, false, shown).line == LineAt(b.indexes, k)
    ensures
      var best, other := LineAt(b.indexes, k), LineAt(b.indexes, j);
      var held, otherHeld := |Held(b, asked, shown, best)|, |Held(b, asked, shown, other)|;
      var scans, otherScans := ScansOf(b, asked, shown, best), ScansOf(b, asked, shown, other);
      && (held > otherHeld || (held == otherHeld && scans <= otherScans))
      && (j < k ==> held > otherHeld || scans < otherScans)
  {
    k := PlanIsLexicographicallyBest(b, asked, shown);
    var needed := Needed(b, asked, shown);
    UsableCanBeRead(b, asked, shown, LineAt(b.indexes, k));
    assert Yields(b, asked, shown, needed, LineAt(b.indexes, j),
      RankOf(b, asked, shown, needed, LineAt(b.indexes, k)), j < k);
    BoundCountsHeld(b, asked, shown, LineAt(b.indexes, k));
    BoundCountsHeld(b, asked, shown, LineAt(b.indexes, j));
  }

  lemma UsableCanBeRead(b: Bucket, asked: seq<Fact>, shown: seq<Fact>, line: Line)
    requires IsUsable(b, asked, shown, line)
    ensures CanBeRead(b, asked, shown, line)
  {
  }

  /** The plan is exact whenever some line that can be read holds every needed fact. */
  lemma ExactWheneverPossible(b: Bucket, asked: seq<Fact>, shown: seq<Fact>, j: int)
    requires WellFormed(b) && AllNameOnce(b) && -1 <= j < |b.indexes|
    requires CanBeRead(b, asked, shown, LineAt(b.indexes, j))
    requires forall f :: IsNeeded(b, asked, shown, f) ==> f in FactsOf(b, LineAt(b.indexes, j))
    ensures IsUsable(b, asked, shown, Facts([])) && ChoosePlan(b, asked, false, shown).kind == Exact
  {
    var k := ChosenHoldsMost(b, asked, shown, j);
    var all, held := Held(b, asked, shown, LineAt(b.indexes, j)), Held(b, asked, shown, LineAt(b.indexes, k));
    assert held <= all;
    SameSizeIsSame(held, all);
    forall f | IsNeeded(b, asked, shown, f)
      ensures f in FactsOf(b, LineAt(b.indexes, k))
    {
      assert f in all;
    }
    PlanIsReadOffItsLine(b, asked, false, shown, "");
  }

  lemma SameSizeIsSame<T>(a: set<T>, b: set<T>)
    requires a <= b && |a| >= |b|
    ensures a == b
  {
    assert b == a + (b - a) && a !! (b - a);
  }
}
