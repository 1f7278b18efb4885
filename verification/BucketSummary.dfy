/**
 Summaries: which combinations of some facts occur among some rows, found one fact at
 a time from the values that occur under what is fixed already, and how many rows hold each.
 */
module BucketSummary {
  import opened Wrappers
  import opened Collections
  import opened BucketPlan
  import opened BucketRead

  const MAX_VALUES: nat := 100

  /** Facts and the value each is fixed to; null is a value here. */
  type Fixed = map<Fact, Option<Value>>

  /** One summary of one bucket, over one range, with some facts shown. */
  datatype Request = Request(b: Bucket, summary: Summary, shown: seq<Fact>, since: Option<Time>, until: Option<Time>)

  function LineOf(q: Request): seq<Fact> {
    q.summary.amongFacts + Without(q.summary.counted, q.b.lead)
  }

  /** The facts a summary fills: those the lead puts in front of its own line. */
  function FilledOf(q: Request): seq<Fact> {
    Without(FactsOf(q.b, Facts(LineOf(q))), LineOf(q))
  }

  function AmongOf(q: Request): Fixed {
    map f | f in q.summary.amongFacts && f in q.summary.among :: Some(q.summary.among[f])
  }

  /** What `defineBucket` insists on of a bucket with summaries. */
  predicate WellFormedSummary(q: Request) {
    && WellFormed(q.b)
    && q.summary.among.Keys == (set f | f in q.summary.amongFacts)
    && (forall f :: f in q.summary.amongFacts ==> f in q.b.facts)
    && (forall f :: f in q.summary.counted ==> f in q.b.facts)
    && (forall f :: f in q.b.facts && HasHidden(q.b, f) ==> f in q.b.lead)
  }

  predicate InTime(q: Request, row: Row) {
    IsWithin(q.since, q.until, row)
  }

  predicate Agrees(row: Row, fixed: Fixed) {
    forall f :: f in fixed ==> ValueOf(row, f) == fixed[f]
  }

  /*** Finding the combinations ***/

  function FillValues(q: Request, fact: Fact): set<Option<Value>>
    requires IsClosed(q.b, fact)
  {
    (set v | v in FillOf(q.b, fact, q.shown) :: Some(v)) + {None}
  }

  /** One fill per combination of the filled facts' values, null among them. */
  function Fills(q: Request, filled: seq<Fact>): set<Fixed>
    requires AllClosed(q.b, filled)
  {
    if filled == [] then {map[]}
    else
      var last := |filled| - 1;
      var fact := filled[last];
      set fill, v | fill in Fills(q, filled[..last]) && v in FillValues(q, fact) :: fill[fact := v]
  }

  /** The distinct values of a fact among the rows that hold everything fixed so far. */
  function Present(q: Request, c: set<Row>, fixed: Fixed, fact: Fact): set<Option<Value>> {
    set r | r in c && Agrees(r, fixed) && InTime(q, r) :: ValueOf(r, fact)
  }

  /** Which values a step answers with when it is cut: any, but as many as it may. */
  type Pick = (Fixed, Fact, set<Option<Value>>) -> set<Option<Value>>

  ghost predicate IsPick(pick: Pick) {
    forall fixed, fact, values {:trigger pick(fixed, fact, values)} ::
      && pick(fixed, fact, values) <= values
      && (|values| <= MAX_VALUES + 1 ==> pick(fixed, fact, values) == values)
      && (|values| > MAX_VALUES + 1 ==> |pick(fixed, fact, values)| == MAX_VALUES + 1)
  }

  function Step(q: Request, c: set<Row>, pick: Pick, fixed: Fixed, fact: Fact): set<Option<Value>> {
    pick(fixed, fact, Present(q, c, fixed, fact))
  }

  /** Everything a step is taken under; what comes later overrides what comes before. */
  function Under(q: Request, fill: Fixed, combination: Fixed): Fixed {
    fill + AmongOf(q) + combination
  }

  function Widen(q: Request, c: set<Row>, pick: Pick, fill: Fixed, combinations: set<Fixed>, fact: Fact): set<Fixed> {
    set k, v | k in combinations && v in Step(q, c, pick, Under(q, fill, k), fact) :: k[fact := v]
  }

  function WidenAll(
    q: Request, c: set<Row>, pick: Pick, fill: Fixed, combinations: set<Fixed>, facts: seq<Fact>): set<Fixed>
    decreases |facts|
  {
    if facts == [] then combinations
    else WidenAll(q, c, pick, fill, Widen(q, c, pick, fill, combinations, facts[0]), facts[1..])
  }

  /** The counted facts a fill already fixes are taken from it; the others are stepped. */
  function Taken(q: Request, fill: Fixed): Fixed {
    map f | f in q.summary.counted && f in fill :: fill[f]
  }

  function Stepped(q: Request, filled: seq<Fact>): seq<Fact> {
    Without(q.summary.counted, filled)
  }

  function Within(q: Request, c: set<Row>, pick: Pick, fill: Fixed): set<Fixed> {
    WidenAll(q, c, pick, fill, {Taken(q, fill)}, Stepped(q, FilledOf(q)))
  }

  function Found(q: Request, c: set<Row>, pick: Pick): set<Fixed>
    requires AllClosed(q.b, FilledOf(q))
  {
    set fill, k | fill in Fills(q, FilledOf(q)) && k in Within(q, c, pick, fill) :: k
  }

  /** What the answer says of itself. */
  predicate IsComplete(q: Request, c: set<Row>, pick: Pick)
    requires AllClosed(q.b, FilledOf(q))
  {
    |Found(q, c, pick)| <= MAX_VALUES
  }

  /*** Counting an entry ***/

  /** The rows one entry counts: its own values and `among`'s bound, the lead filled, in range. */
  predicate IsCounted(q: Request, values: Fixed, row: Row)
    requires AllClosed(q.b, FilledOf(q))
  {
    && Agrees(row, AmongOf(q) + values)
    && (forall f :: f in FilledOf(q) ==> ValueOf(row, f) in FillValues(q, f))
    && InTime(q, row)
  }

  function Counted(q: Request, c: set<Row>, values: Fixed): set<Row>
    requires AllClosed(q.b, FilledOf(q))
  {
    set r | r in c && IsCounted(q, values, r)
  }

  /** The rows the summary is of, whatever they hold of the facts it counts by. */
  predicate IsAmong(q: Request, row: Row)
    requires AllClosed(q.b, FilledOf(q))
  {
    && Agrees(row, AmongOf(q))
    && (forall f :: f in FilledOf(q) ==> ValueOf(row, f) in FillValues(q, f))
    && InTime(q, row)
  }

  /** What a row holds of the facts counted by. */
  function CombinationOf(q: Request, row: Row): Fixed {
    map f | f in q.summary.counted :: ValueOf(row, f)
  }

  lemma FilledIsClosed(q: Request)
    requires WellFormedSummary(q)
    ensures AllClosed(q.b, FilledOf(q))
    ensures forall f :: f in FilledOf(q) <==> f in q.b.lead && f !in q.summary.amongFacts
  {
    var facts, line := FactsOf(q.b, Facts(LineOf(q))), LineOf(q);
    forall f
      ensures f in FilledOf(q) <==> f in q.b.lead && f !in q.summary.amongFacts
    {
      assert f in FilledOf(q) <==> f in facts && f !in line;
    }
    forall i | 0 <= i < |FilledOf(q)|
      ensures IsClosed(q.b, FilledOf(q)[i])
    {
      assert FilledOf(q)[i] in FilledOf(q);
    }
  }

  /*** Every fill and its rows ***/

  lemma {:induction false} FillsAreValues(q: Request, filled: seq<Fact>, fill: Fixed)
    requires AllClosed(q.b, filled) && fill in Fills(q, filled)
    ensures fill.Keys == (set f | f in filled)
    ensures forall f :: f in filled ==> f in fill && fill[f] in FillValues(q, f)
  {
    if filled != [] {
      var last := |filled| - 1;
      var init, fact := filled[..last], filled[last];
      assert filled == init + [fact];
      var before, v :| before in Fills(q, init) && v in FillValues(q, fact) && fill == before[fact := v];
      FillsAreValues(q, init, before);
    }
  }

  /** The fill a row is read under: what it holds of the filled facts. */
  function FillOfRow(row: Row, filled: seq<Fact>): Fixed {
    map f | f in filled :: ValueOf(row, f)
  }

  lemma {:induction false} RowsFillIsThere(q: Request, filled: seq<Fact>, row: Row)
    requires AllClosed(q.b, filled) && (forall f :: f in filled ==> ValueOf(row, f) in FillValues(q, f))
    ensures FillOfRow(row, filled) in Fills(q, filled)
  {
    if filled != [] {
      var last := |filled| - 1;
      var init, fact := filled[..last], filled[last];
      assert filled == init + [fact];
      RowsFillIsThere(q, init, row);
      assert FillOfRow(row, filled) == FillOfRow(row, init)[fact := ValueOf(row, fact)];
    } else {
      assert FillOfRow(row, filled) == map[];
    }
  }

  /*** Stepping loses nothing unless the answer is cut ***/

  function Restrict(k: Fixed, keys: set<Fact>): Fixed {
    map f | f in k && f in keys :: k[f]
  }

  lemma {:induction false} RestrictedAreNoMore(ks: set<Fixed>, keys: set<Fact>)
    ensures |set k | k in ks :: Restrict(k, keys)| <= |ks|
    decreases |ks|
  {
    if ks != {} {
      var k :| k in ks;
      var rest := ks - {k};
      RestrictedAreNoMore(rest, keys);
      assert (set x | x in ks :: Restrict(x, keys)) == (set x | x in rest :: Restrict(x, keys)) + {Restrict(k, keys)};
    }
  }

  /** Some row holds everything the combination fixes, so a further step finds something. */
  predicate IsHeld(q: Request, c: set<Row>, fill: Fixed, k: Fixed) {
    exists r :: r in c && Agrees(r, Under(q, fill, k)) && InTime(q, r)
  }

  predicate AllHeld(q: Request, c: set<Row>, fill: Fixed, ks: set<Fixed>, keys: set<Fact>) {
    forall k :: k in ks ==> k.Keys == keys && IsHeld(q, c, fill, k)
  }

  /** What a step answers with is held by some row under everything fixed so far. */
  lemma StepIsHeld(q: Request, c: set<Row>, pick: Pick, fixed: Fixed, fact: Fact, v: Option<Value>) returns (r: Row)
    requires IsPick(pick) && v in Step(q, c, pick, fixed, fact)
    ensures r in c && Agrees(r, fixed) && InTime(q, r) && ValueOf(r, fact) == v
  {
    assert v in Present(q, c, fixed, fact);
    r :| r in c && Agrees(r, fixed) && InTime(q, r) && ValueOf(r, fact) == v;
  }

  /** A row that agrees still agrees once a value of its own is fixed as well. */
  lemma StillAgrees(q: Request, fill: Fixed, k: Fixed, fact: Fact, r: Row)
    requires Agrees(r, Under(q, fill, k))
    ensures Agrees(r, Under(q, fill, k[fact := ValueOf(r, fact)]))
  {
    var before, after := Under(q, fill, k), Under(q, fill, k[fact := ValueOf(r, fact)]);
    assert forall f :: f in after ==>
      (f == fact && after[f] == ValueOf(r, fact)) || (f in before && after[f] == before[f]);
  }

  lemma WidenedIsHeld(q: Request, c: set<Row>, pick: Pick, fill: Fixed, k: Fixed, fact: Fact, v: Option<Value>)
    requires IsPick(pick) && v in Step(q, c, pick, Under(q, fill, k), fact)
    ensures IsHeld(q, c, fill, k[fact := v])
  {
    var r := StepIsHeld(q, c, pick, Under(q, fill, k), fact, v);
    StillAgrees(q, fill, k, fact, r);
  }

  lemma WidenedAreHeld(q: Request, c: set<Row>, pick: Pick, fill: Fixed, ks: set<Fixed>, keys: set<Fact>, fact: Fact)
    requires IsPick(pick) && AllHeld(q, c, fill, ks, keys)
    ensures AllHeld(q, c, fill, Widen(q, c, pick, fill, ks, fact), keys + {fact})
  {
    forall k1 | k1 in Widen(q, c, pick, fill, ks, fact)
      ensures k1.Keys == keys + {fact} && IsHeld(q, c, fill, k1)
    {
      var k, v :| k in ks && v in Step(q, c, pick, Under(q, fill, k), fact) && k1 == k[fact := v];
      assert k.Keys == keys;
      assert IsHeld(q, c, fill, k1) by {
        WidenedIsHeld(q, c, pick, fill, k, fact, v);
      }
    }
  }

  /** A combination held leads on to one that restricts back to it. */
  lemma HeldLeadsOn(q: Request, c: set<Row>, pick: Pick, fill: Fixed, k: Fixed, fact: Fact) returns (v: Option<Value>)
    requires IsPick(pick) && IsHeld(q, c, fill, k)
    ensures v in Step(q, c, pick, Under(q, fill, k), fact)
    ensures Restrict(k[fact := v], k.Keys) == k
  {
    var r :| r in c && Agrees(r, Under(q, fill, k)) && InTime(q, r);
    var under := Under(q, fill, k);
    assert ValueOf(r, fact) in Present(q, c, under, fact);
    assert Step(q, c, pick, under, fact) != {};
    v :| v in Step(q, c, pick, under, fact);
    var r1 := StepIsHeld(q, c, pick, under, fact, v);
    assert fact in k ==> fact in under && v == k[fact];
  }

  /** Every combination held leads on to one, so stepping on never leaves fewer. */
  lemma WideningNeverLosesCount(
    q: Request, c: set<Row>, pick: Pick, fill: Fixed, ks: set<Fixed>, keys: set<Fact>, fact: Fact)
    requires IsPick(pick) && AllHeld(q, c, fill, ks, keys)
    ensures |ks| <= |Widen(q, c, pick, fill, ks, fact)|
  {
    var wide := Widen(q, c, pick, fill, ks, fact);
    var back := set k1 | k1 in wide :: Restrict(k1, keys);
    forall k | k in ks
      ensures k in back
    {
      var v := HeldLeadsOn(q, c, pick, fill, k, fact);
      assert k[fact := v] in wide;
    }
    SubsetIsNoLarger(ks, back);
    RestrictedAreNoMore(wide, keys);
  }

  lemma {:induction false} WideningAllNeverLosesCount(
    q: Request, c: set<Row>, pick: Pick, fill: Fixed, ks: set<Fixed>, keys: set<Fact>, facts: seq<Fact>)
    requires IsPick(pick) && AllHeld(q, c, fill, ks, keys)
    ensures |ks| <= |WidenAll(q, c, pick, fill, ks, facts)|
    decreases |facts|
  {
    if facts != [] {
      WideningNeverLosesCount(q, c, pick, fill, ks, keys, facts[0]);
      WidenedAreHeld(q, c, pick, fill, ks, keys, facts[0]);
      WideningAllNeverLosesCount(q, c, pick, fill, Widen(q, c, pick, fill, ks, facts[0]), keys + {facts[0]},
        facts[1..]);
    }
  }

  /** A step that is cut leaves more combinations than a complete answer may have. */
  lemma CutStepIsTooMany(q: Request, c: set<Row>, pick: Pick, fill: Fixed, ks: set<Fixed>, k: Fixed, fact: Fact)
    requires IsPick(pick) && k in ks && |Present(q, c, Under(q, fill, k), fact)| > MAX_VALUES + 1
    ensures |Widen(q, c, pick, fill, ks, fact)| > MAX_VALUES
  {
    var step := Step(q, c, pick, Under(q, fill, k), fact);
    var wide := Widen(q, c, pick, fill, ks, fact);
    var made := set v | v in step :: k[fact := v];
    ValuesMakeAsMany(k, fact, step);
    assert made <= wide;
    SubsetIsNoLarger(made, wide);
  }

  lemma {:induction false} ValuesMakeAsMany(k: Fixed, fact: Fact, values: set<Option<Value>>)
    ensures |set v | v in values :: k[fact := v]| == |values|
    decreases |values|
  {
    var all := set x | x in values :: k[fact := x];
    if values == {} {
      assert all == {};
    } else {
      var v :| v in values;
      var rest := values - {v};
      ValuesMakeAsMany(k, fact, rest);
      var made := set x | x in rest :: k[fact := x];
      assert all == made + {k[fact := v]} by {
        assert values == rest + {v};
      }
      forall x | x in rest
        ensures k[fact := x] != k[fact := v]
      {
        assert k[fact := x][fact] == x;
      }
    }
  }

  /** What of a row's combination has been stepped so far. */
  function SoFar(row: Row, keys: set<Fact>): Fixed {
    map f | f in keys :: ValueOf(row, f)
  }

  /** Unless a step is cut, it keeps every row's own value. */
  lemma RowsNextIsFound(
    q: Request, c: set<Row>, pick: Pick, fill: Fixed, ks: set<Fixed>, k: Fixed, fact: Fact, row: Row)
    requires IsPick(pick) && k in ks
    requires row in c && Agrees(row, Under(q, fill, k)) && InTime(q, row)
    requires |Widen(q, c, pick, fill, ks, fact)| <= MAX_VALUES
    ensures k[fact := ValueOf(row, fact)] in Widen(q, c, pick, fill, ks, fact)
  {
    var under := Under(q, fill, k);
    assert |Present(q, c, under, fact)| <= MAX_VALUES + 1 by {
      if |Present(q, c, under, fact)| > MAX_VALUES + 1 {
        CutStepIsTooMany(q, c, pick, fill, ks, k, fact);
      }
    }
    assert ValueOf(row, fact) in Step(q, c, pick, under, fact);
  }

  lemma SoFarAgrees(q: Request, fill: Fixed, keys: set<Fact>, row: Row)
    requires Agrees(row, fill + AmongOf(q))
    ensures Agrees(row, Under(q, fill, SoFar(row, keys)))
  {
    var before, after := fill + AmongOf(q), Under(q, fill, SoFar(row, keys));
    assert forall f :: f in after ==>
      (f in keys && after[f] == ValueOf(row, f)) || (f in before && after[f] == before[f]);
  }

  lemma SoFarIsFound(
    q: Request, c: set<Row>, pick: Pick, fill: Fixed, ks: set<Fixed>, keys: set<Fact>, fact: Fact, row: Row)
    requires IsPick(pick) && SoFar(row, keys) in ks
    requires row in c && Agrees(row, fill + AmongOf(q)) && InTime(q, row)
    requires |Widen(q, c, pick, fill, ks, fact)| <= MAX_VALUES
    ensures SoFar(row, keys + {fact}) in Widen(q, c, pick, fill, ks, fact)
  {
    SoFarAgrees(q, fill, keys, row);
    RowsNextIsFound(q, c, pick, fill, ks, SoFar(row, keys), fact, row);
    assert SoFar(row, keys + {fact}) == SoFar(row, keys)[fact := ValueOf(row, fact)];
  }

  lemma KeysAfterStep(keys: set<Fact>, facts: seq<Fact>)
    requires facts != []
    ensures keys + {facts[0]} + (set f | f in facts[1..]) == keys + set f | f in facts
  {
  }

  /** If the answer ends small enough, every row's own combination comes out of the stepping. */
  lemma {:induction false} RowsCombinationIsFound(
    q: Request, c: set<Row>, pick: Pick, fill: Fixed, ks: set<Fixed>, keys: set<Fact>, facts: seq<Fact>, row: Row,
    all: set<Fact>)
    requires IsPick(pick) && AllHeld(q, c, fill, ks, keys)
    requires row in c && Agrees(row, fill + AmongOf(q)) && InTime(q, row)
    requires SoFar(row, keys) in ks && all == keys + set f | f in facts
    requires |WidenAll(q, c, pick, fill, ks, facts)| <= MAX_VALUES
    ensures SoFar(row, all) in WidenAll(q, c, pick, fill, ks, facts)
    decreases |facts|
  {
    if facts == [] {
      assert all == keys;
    } else {
      var fact, rest := facts[0], facts[1..];
      var wide := Widen(q, c, pick, fill, ks, fact);
      assert AllHeld(q, c, fill, wide, keys + {fact}) by {
        WidenedAreHeld(q, c, pick, fill, ks, keys, fact);
      }
      assert SoFar(row, keys + {fact}) in wide by {
        WideningAllNeverLosesCount(q, c, pick, fill, wide, keys + {fact}, rest);
        SoFarIsFound(q, c, pick, fill, ks, keys, fact, row);
      }
      KeysAfterStep(keys, facts);
      RowsCombinationIsFound(q, c, pick, fill, wide, keys + {fact}, rest, row, all);
    }
  }

  /** Stepping starts from what the row's own fill fixes, and ends with all that is counted by. */
  lemma StartOfRow(q: Request, c: set<Row>, fill: Fixed, filled: seq<Fact>, row: Row)
    requires row in c && InTime(q, row) && Agrees(row, AmongOf(q)) && fill == FillOfRow(row, filled)
    ensures
      var start := Taken(q, fill);
      && start == SoFar(row, start.Keys)
      && AllHeld(q, c, fill, {start}, start.Keys)
      && Agrees(row, fill + AmongOf(q))
      && start.Keys + (set f | f in Stepped(q, filled)) == set f | f in q.summary.counted
  {
    var start := Taken(q, fill);
    assert start == SoFar(row, start.Keys);
    SoFarAgrees(q, fill, start.Keys, row);
    assert forall f :: f in Stepped(q, filled) <==> f in q.summary.counted && f !in filled;
  }

  /** In a complete answer every row the summary is of has its combination among those found. */
  lemma CompleteFindsEveryRow(q: Request, c: set<Row>, pick: Pick, row: Row)
    requires IsPick(pick) && AllClosed(q.b, FilledOf(q)) && IsComplete(q, c, pick)
    requires row in c && IsAmong(q, row)
    ensures CombinationOf(q, row) in Found(q, c, pick)
  {
    var filled := FilledOf(q);
    var fill := FillOfRow(row, filled);
    RowsFillIsThere(q, filled, row);
    StartOfRow(q, c, fill, filled, row);
    var start := Taken(q, fill);
    var within := Within(q, c, pick, fill);
    assert within <= Found(q, c, pick);
    SubsetIsNoLarger(within, Found(q, c, pick));
    RowsCombinationIsFound(q, c, pick, fill, {start}, start.Keys, Stepped(q, filled), row,
      set f | f in q.summary.counted);
    assert SoFar(row, set f | f in q.summary.counted) == CombinationOf(q, row);
  }

  /*** Counts are conserved ***/

  /** A combination found says nothing of `among`'s own facts that `among` does not. */
  predicate RespectsAmong(q: Request, k: Fixed) {
    forall f :: f in k && f in AmongOf(q) ==> k[f] == AmongOf(q)[f]
  }

  predicate AllRespectAmong(q: Request, ks: set<Fixed>, keys: set<Fact>) {
    forall k :: k in ks ==> k.Keys == keys && RespectsAmong(q, k)
  }

  lemma StepRespectsAmong(q: Request, c: set<Row>, pick: Pick, fill: Fixed, k: Fixed, fact: Fact, v: Option<Value>)
    requires IsPick(pick) && RespectsAmong(q, k) && v in Step(q, c, pick, Under(q, fill, k), fact)
    ensures RespectsAmong(q, k[fact := v])
  {
    var r := StepIsHeld(q, c, pick, Under(q, fill, k), fact, v);
    assert fact in AmongOf(q) ==> fact in Under(q, fill, k) && Under(q, fill, k)[fact] == AmongOf(q)[fact];
  }

  lemma {:induction false} WidenedRespectAmong(
    q: Request, c: set<Row>, pick: Pick, fill: Fixed, ks: set<Fixed>, keys: set<Fact>, facts: seq<Fact>)
    requires IsPick(pick) && AllRespectAmong(q, ks, keys)
    ensures AllRespectAmong(q, WidenAll(q, c, pick, fill, ks, facts), keys + (set f | f in facts))
    decreases |facts|
  {
    if facts == [] {
      assert keys + (set f | f in facts) == keys;
    } else {
      var wide := Widen(q, c, pick, fill, ks, facts[0]);
      forall k1 | k1 in wide
        ensures k1.Keys == keys + {facts[0]} && RespectsAmong(q, k1)
      {
        var k, v :| k in ks && v in Step(q, c, pick, Under(q, fill, k), facts[0]) && k1 == k[facts[0] := v];
        StepRespectsAmong(q, c, pick, fill, k, facts[0], v);
      }
      WidenedRespectAmong(q, c, pick, fill, wide, keys + {facts[0]}, facts[1..]);
      assert keys + {facts[0]} + (set f | f in facts[1..]) == keys + set f | f in facts;
    }
  }

  lemma StartRespectsAmong(q: Request, filled: seq<Fact>, fill: Fixed)
    requires fill.Keys == (set f | f in filled) && (forall f :: f in filled ==> f !in q.summary.amongFacts)
    ensures AllRespectAmong(q, {Taken(q, fill)}, Taken(q, fill).Keys)
    ensures Taken(q, fill).Keys + (set f | f in Stepped(q, filled)) == set f | f in q.summary.counted
  {
    assert forall f :: f in Stepped(q, filled) <==> f in q.summary.counted && f !in filled;
  }

  lemma FoundRespectAmong(q: Request, c: set<Row>, pick: Pick, k: Fixed)
    requires WellFormedSummary(q) && IsPick(pick) && AllClosed(q.b, FilledOf(q)) && k in Found(q, c, pick)
    ensures k.Keys == (set f | f in q.summary.counted) && RespectsAmong(q, k)
  {
    FilledIsClosed(q);
    var filled := FilledOf(q);
    var fill :| fill in Fills(q, filled) && k in Within(q, c, pick, fill);
    FillsAreValues(q, filled, fill);
    StartRespectsAmong(q, filled, fill);
    WidenedRespectAmong(q, c, pick, fill, {Taken(q, fill)}, Taken(q, fill).Keys, Stepped(q, filled));
  }

  lemma AgreesWithBoth(row: Row, among: Fixed, k: Fixed)
    requires forall f :: f in k && f in among ==> k[f] == among[f]
    ensures Agrees(row, among + k) <==> Agrees(row, among) && Agrees(row, k)
  {
    var both := among + k;
    assert forall f :: f in among ==> f in both && both[f] == among[f];
    assert forall f :: f in k ==> f in both && both[f] == k[f];
    assert forall f :: f in both ==> f in among || f in k;
  }

  lemma AgreesWithItsOwn(q: Request, row: Row, k: Fixed)
    requires k.Keys == (set f | f in q.summary.counted)
    ensures Agrees(row, k) <==> CombinationOf(q, row) == k
  {
    var own := CombinationOf(q, row);
    assert own.Keys == k.Keys;
    if own == k {
      assert forall f :: f in k ==> ValueOf(row, f) == own[f];
    }
  }

  /** An entry counts the rows of the summary whose combination it is. */
  lemma EntryCountsItsOwn(q: Request, c: set<Row>, pick: Pick, k: Fixed, row: Row)
    requires WellFormedSummary(q) && IsPick(pick) && AllClosed(q.b, FilledOf(q)) && k in Found(q, c, pick)
    ensures IsCounted(q, k, row) <==> IsAmong(q, row) && CombinationOf(q, row) == k
  {
    FoundRespectAmong(q, c, pick, k);
    AgreesWithBoth(row, AmongOf(q), k);
    AgreesWithItsOwn(q, row, k);
  }

  ghost function AnyOf(ks: set<Fixed>): (k: Fixed)
    requires ks != {}
    ensures k in ks
  {
    var k :| k in ks; k
  }

  /** The counts of some entries, added up. */
  ghost function Total(q: Request, c: set<Row>, ks: set<Fixed>): nat
    requires AllClosed(q.b, FilledOf(q))
    decreases |ks|
  {
    if ks == {} then 0
    else
      var k := AnyOf(ks);
      |Counted(q, c, k)| + Total(q, c, ks - {k})
  }

  /** The rows whose combination is among some. */
  function RowsOf(q: Request, c: set<Row>, ks: set<Fixed>): set<Row>
    requires AllClosed(q.b, FilledOf(q))
  {
    set r | r in c && IsAmong(q, r) && CombinationOf(q, r) in ks
  }

  lemma OneMoreCombination(q: Request, c: set<Row>, pick: Pick, ks: set<Fixed>, k: Fixed)
    requires WellFormedSummary(q) && IsPick(pick) && AllClosed(q.b, FilledOf(q)) && k in Found(q, c, pick) && k in ks
    ensures |RowsOf(q, c, ks)| == |Counted(q, c, k)| + |RowsOf(q, c, ks - {k})|
  {
    forall r | r in c
      ensures IsCounted(q, k, r) <==> IsAmong(q, r) && CombinationOf(q, r) == k
    {
      EntryCountsItsOwn(q, c, pick, k, r);
    }
    var mine, others := Counted(q, c, k), RowsOf(q, c, ks - {k});
    assert RowsOf(q, c, ks) == mine + others && mine !! others;
  }

  lemma {:induction false} TotalIsTheRowsOf(q: Request, c: set<Row>, pick: Pick, ks: set<Fixed>)
    requires WellFormedSummary(q) && IsPick(pick) && AllClosed(q.b, FilledOf(q)) && ks <= Found(q, c, pick)
    ensures Total(q, c, ks) == |RowsOf(q, c, ks)|
    decreases |ks|
  {
    if ks == {} {
      assert RowsOf(q, c, ks) == {};
    } else {
      var k := AnyOf(ks);
      TotalIsTheRowsOf(q, c, pick, ks - {k});
      OneMoreCombination(q, c, pick, ks, k);
    }
  }

  /** The request whose list a summary is checked against: `among`, in the range, with the same facts shown. */
  function ListQuery(q: Request): Query {
    Query(AmongOf(q), q.summary.amongFacts, q.shown, None, q.since, q.until)
  }

  /** Being counted by a summary and being wanted by the list's own request are the same. */
  lemma AmongIsTheList(q: Request, row: Row)
    requires WellFormedSummary(q) && WellStored(q.b, row) && (forall f :: f in q.shown ==> f in q.b.facts)
    ensures AllClosed(q.b, FilledOf(q)) && ListQuery(q).Valid(q.b)
    ensures IsAmong(q, row) <==> Wanted(q.b, ListQuery(q), row)
  {
    FilledIsClosed(q);
    var list := ListQuery(q);
    forall f | f in FilledOf(q)
      ensures ValueOf(row, f) in FillValues(q, f) <==> ShowsNothingHidden(q.b, list, f, row)
    {
      FilledMeans(q.b, list, f, row);
      assert f in q.b.facts;
      assert ValueOf(row, f) in FillValues(q, f) <==> Holds(OneOf(FillOf(q.b, f, q.shown), true), ValueOf(row, f));
    }
    forall f | f in q.b.facts && f !in q.summary.amongFacts && f !in FilledOf(q)
      ensures ShowsNothingHidden(q.b, list, f, row)
    {
      assert !HasHidden(q.b, f);
    }
  }

  /**
   If a summary answers `complete`, its entries are exactly the combinations present,
   and their counts, before any cap and any cut to the top, add up to the number of
   rows the list itself shows for `among` in that range.
   */
  lemma CompleteSummaryConservesRows(q: Request, c: set<Row>, pick: Pick)
    requires WellFormedSummary(q) && IsPick(pick)
    requires (forall f :: f in q.shown ==> f in q.b.facts) && (forall r :: r in c ==> WellStored(q.b, r))
    requires AllClosed(q.b, FilledOf(q)) && IsComplete(q, c, pick)
    ensures ListQuery(q).Valid(q.b)
    ensures
      var listed := set r | r in c && Wanted(q.b, ListQuery(q), r);
      && Total(q, c, Found(q, c, pick)) == |listed|
      && (set k | k in Found(q, c, pick) && Counted(q, c, k) != {}) == (set r | r in listed :: CombinationOf(q, r))
  {
    var found := Found(q, c, pick);
    assert ListQuery(q).Valid(q.b);
    var listed := set r | r in c && Wanted(q.b, ListQuery(q), r);
    forall r | r in c
      ensures IsAmong(q, r) <==> r in listed
      ensures IsAmong(q, r) ==> CombinationOf(q, r) in found
    {
      AmongIsTheList(q, r);
      if IsAmong(q, r) {
        CompleteFindsEveryRow(q, c, pick, r);
      }
    }
    TotalIsTheRowsOf(q, c, pick, found);
    assert listed == RowsOf(q, c, found);
    forall k | k in found
      ensures Counted(q, c, k) != {} <==> exists r :: r in listed && CombinationOf(q, r) == k
    {
      forall r | r in c
        ensures IsCounted(q, k, r) <==> IsAmong(q, r) && CombinationOf(q, r) == k
      {
        EntryCountsItsOwn(q, c, pick, k, r);
      }
      if Counted(q, c, k) != {} {
        var r :| r in Counted(q, c, k);
        assert r in listed && CombinationOf(q, r) == k;
      }
      if exists r :: r in listed && CombinationOf(q, r) == k {
        var r :| r in listed && CombinationOf(q, r) == k;
        assert r in Counted(q, c, k);
      }
    }
  }

  /*** When an answer is complete ***/

  /** The combinations there are among the rows of the summary. */
  function Combinations(q: Request, c: set<Row>): set<Fixed>
    requires AllClosed(q.b, FilledOf(q))
  {
    set r | r in c && IsAmong(q, r) :: CombinationOf(q, r)
  }

  lemma {:induction false} DroppedAtTheEnd(xs: seq<Fact>, ys: seq<Fact>, drop: seq<Fact>)
    requires forall i :: 0 <= i < |ys| ==> ys[i] in drop
    ensures Without(xs + ys, drop) == Without(xs, drop)
    decreases |ys|
  {
    if ys == [] {
      assert xs + ys == xs;
    } else {
      var init, last := ys[..|ys| - 1], ys[|ys| - 1];
      assert xs + ys == (xs + init) + [last];
      WithoutLast(xs + init, last, drop);
      DroppedAtTheEnd(xs, init, drop);
    }
  }

  lemma FilledIsOfTheLead(q: Request)
    ensures FilledOf(q) == Without(q.b.lead, LineOf(q))
  {
    DroppedAtTheEnd(q.b.lead, LineOf(q), LineOf(q));
  }

  /** What a summary fills are facts of the lead, so within what one read may scan. */
  lemma FilledIsWithinTheLead(q: Request)
    requires WellFormedSummary(q)
    ensures AllClosed(q.b, FilledOf(q)) && Scans(q.b, FilledOf(q), q.shown) <= 50
  {
    FilledIsOfTheLead(q);
    FewerScans(q.b, q.b.lead, LineOf(q), q.shown, q.b.lead);
  }

  function Extended(fills: set<Fixed>, fact: Fact, values: set<Option<Value>>): set<Fixed> {
    set fill, v | fill in fills && v in values :: fill[fact := v]
  }

  lemma ExtendedOnce(fills: set<Fixed>, fill: Fixed, fact: Fact, values: set<Option<Value>>)
    requires fill in fills
    ensures Extended(fills, fact, values) ==
      Extended(fills - {fill}, fact, values) + set v | v in values :: fill[fact := v]
  {
    var rest, made := Extended(fills - {fill}, fact, values), set v | v in values :: fill[fact := v];
    forall x | x in Extended(fills, fact, values)
      ensures x in rest || x in made
    {
      var y, v :| y in fills && v in values && x == y[fact := v];
      assert y != fill ==> y in fills - {fill};
    }
    forall x | x in rest + made
      ensures x in Extended(fills, fact, values)
    {
    }
  }

  lemma TimesOneMore(m: nat, n: nat)
    ensures ScansTimes(m + 1, n) == ScansTimes(m, n) + n
  {
  }

  lemma {:induction false} ExtendedAreNoMore(fills: set<Fixed>, fact: Fact, values: set<Option<Value>>)
    ensures |Extended(fills, fact, values)| <= ScansTimes(|fills|, |values|)
    decreases |fills|
  {
    if fills == {} {
      assert Extended(fills, fact, values) == {};
    } else {
      var fill := AnyOf(fills);
      var rest := fills - {fill};
      ExtendedAreNoMore(rest, fact, values);
      var made := set v | v in values :: fill[fact := v];
      ValuesMakeAsMany(fill, fact, values);
      ExtendedOnce(fills, fill, fact, values);
      TimesOneMore(|rest|, |values|);
    }
  }

  lemma {:induction false} ValuesAreNoMore(values: seq<Value>)
    ensures |set v | v in values :: Some(v)| <= |values|
  {
    if values != [] {
      var init, last := values[..|values| - 1], values[|values| - 1];
      ValuesAreNoMore(init);
      assert (set v | v in values :: Some(v)) == (set v | v in init :: Some(v)) + {Some(last)};
    }
  }

  lemma FillValuesAreNoMore(q: Request, fact: Fact)
    requires IsClosed(q.b, fact)
    ensures |FillValues(q, fact)| <= |FillOf(q.b, fact, q.shown)| + 1
  {
    ValuesAreNoMore(FillOf(q.b, fact, q.shown));
  }

  /** There is one fill per scan at most. */
  lemma {:induction false} FillsAreNoMoreThanScans(q: Request, filled: seq<Fact>)
    requires AllClosed(q.b, filled)
    ensures |Fills(q, filled)| <= Scans(q.b, filled, q.shown)
  {
    if filled != [] {
      var init, fact := filled[..|filled| - 1], filled[|filled| - 1];
      FillsAreNoMoreThanScans(q, init);
      assert Fills(q, filled) == Extended(Fills(q, init), fact, FillValues(q, fact));
      ExtendedAreNoMore(Fills(q, init), fact, FillValues(q, fact));
      FillValuesAreNoMore(q, fact);
      TimesGrows(
        |Fills(q, init)|, Scans(q.b, init, q.shown), |FillValues(q, fact)|, |FillOf(q.b, fact, q.shown)| + 1);
    }
  }

  predicate NoneHas(fills: set<Fixed>, fact: Fact) {
    forall fill :: fill in fills ==> fact !in fill
  }

  lemma ExtendedByOneMore(fills: set<Fixed>, fill: Fixed, fact: Fact, values: set<Option<Value>>)
    requires NoneHas(fills, fact) && fill in fills
    ensures |Extended(fills, fact, values)| == |Extended(fills - {fill}, fact, values)| + |values|
  {
    var made := set v | v in values :: fill[fact := v];
    ValuesMakeAsMany(fill, fact, values);
    ExtendedOnce(fills, fill, fact, values);
    ExtensionsDiffer(fills - {fill}, fill, fact, values);
  }

  lemma {:induction false} ExtendedAreAsMany(fills: set<Fixed>, fact: Fact, values: set<Option<Value>>)
    requires NoneHas(fills, fact)
    ensures |Extended(fills, fact, values)| == ScansTimes(|fills|, |values|)
    decreases |fills|
  {
    if fills == {} {
      assert Extended(fills, fact, values) == {};
    } else {
      var fill := AnyOf(fills);
      var rest := fills - {fill};
      ExtendedAreAsMany(rest, fact, values);
      ExtendedByOneMore(fills, fill, fact, values);
      assert |fills| == |rest| + 1;
      TimesOneMore(|rest|, |values|);
    }
  }

  lemma ExtensionsDiffer(rest: set<Fixed>, fill: Fixed, fact: Fact, values: set<Option<Value>>)
    requires NoneHas(rest, fact) && fact !in fill && fill !in rest
    ensures Extended(rest, fact, values) !! set v | v in values :: fill[fact := v]
  {
    forall x | x in Extended(rest, fact, values)
      ensures x !in set v | v in values :: fill[fact := v]
    {
      var y, v :| y in rest && v in values && x == y[fact := v];
      assert x - {fact} == y;
      forall w | w in values
        ensures x != fill[fact := w]
      {
        assert fill[fact := w] - {fact} == fill;
      }
    }
  }

  lemma {:induction false} DistinctValuesAreAsMany(values: seq<Value>)
    requires Distinct(values)
    ensures |set v | v in values :: Some(v)| == |values|
  {
    if values != [] {
      var init, last := values[..|values| - 1], values[|values| - 1];
      DistinctValuesAreAsMany(init);
      var before := set v | v in init :: Some(v);
      assert (set v | v in values :: Some(v)) == before + {Some(last)};
      assert last !in init && Some(last) !in before;
    }
  }

  /** One merged scan stands for one fill: they are as many, where facts are named once and values listed once. */
  lemma {:induction false} FillsAreTheScans(q: Request, filled: seq<Fact>)
    requires AllClosed(q.b, filled) && Distinct(filled)
    requires forall i :: 0 <= i < |filled| ==> Distinct(FillOf(q.b, filled[i], q.shown))
    ensures |Fills(q, filled)| == Scans(q.b, filled, q.shown)
  {
    if filled != [] {
      var last := |filled| - 1;
      var init, fact := filled[..last], filled[last];
      FillsAreTheScans(q, init);
      var fills, values := Fills(q, init), FillValues(q, fact);
      FillsHaveNot(q, init, fact);
      assert Fills(q, filled) == Extended(fills, fact, values);
      ExtendedAreAsMany(fills, fact, values);
      FillValuesAreAsMany(q, fact);
    }
  }

  lemma FillsHaveNot(q: Request, filled: seq<Fact>, fact: Fact)
    requires AllClosed(q.b, filled) && fact !in filled
    ensures NoneHas(Fills(q, filled), fact)
  {
    forall fill | fill in Fills(q, filled)
      ensures fact !in fill
    {
      FillsAreValues(q, filled, fill);
    }
  }

  lemma FillValuesAreAsMany(q: Request, fact: Fact)
    requires IsClosed(q.b, fact) && Distinct(FillOf(q.b, fact, q.shown))
    ensures |FillValues(q, fact)| == |FillOf(q.b, fact, q.shown)| + 1
  {
    DistinctValuesAreAsMany(FillOf(q.b, fact, q.shown));
  }

  lemma {:induction false} TakenAreNoMore(q: Request, fills: set<Fixed>)
    ensures |set fill | fill in fills :: Taken(q, fill)| <= |fills|
    decreases |fills|
  {
    var taken := set fill | fill in fills :: Taken(q, fill);
    if fills == {} {
      assert taken == {};
    } else {
      var fill := AnyOf(fills);
      var rest := fills - {fill};
      TakenAreNoMore(q, rest);
      assert taken == (set x | x in rest :: Taken(q, x)) + {Taken(q, fill)};
    }
  }

  /** Stepping yields only what some row holds, and leaves alone what it does not step. */
  lemma {:induction false} SteppedAreHeld(
    q: Request, c: set<Row>, pick: Pick, fill: Fixed, ks: set<Fixed>, facts: seq<Fact>)
    requires IsPick(pick) && facts != []
    ensures forall k :: k in WidenAll(q, c, pick, fill, ks, facts) ==> IsHeld(q, c, fill, k)
    decreases |facts|
  {
    var wide := Widen(q, c, pick, fill, ks, facts[0]);
    if |facts| == 1 {
      assert facts[1..] == [];
      forall k1 | k1 in wide
        ensures IsHeld(q, c, fill, k1)
      {
        var k, v :| k in ks && v in Step(q, c, pick, Under(q, fill, k), facts[0]) && k1 == k[facts[0] := v];
        WidenedIsHeld(q, c, pick, fill, k, facts[0], v);
      }
    } else {
      SteppedAreHeld(q, c, pick, fill, wide, facts[1..]);
    }
  }

  /** A fact that is not stepped keeps its value. */
  predicate AllHold(ks: set<Fixed>, f: Fact, v: Option<Value>) {
    forall k :: k in ks ==> f in k && k[f] == v
  }

  lemma {:induction false} UnsteppedStays(
    q: Request, c: set<Row>, pick: Pick, fill: Fixed, ks: set<Fixed>, facts: seq<Fact>, f: Fact, v: Option<Value>)
    requires f !in facts && AllHold(ks, f, v)
    ensures AllHold(WidenAll(q, c, pick, fill, ks, facts), f, v)
    decreases |facts|
  {
    if facts != [] {
      assert facts[0] in facts && forall x :: x in facts[1..] ==> x in facts;
      UnsteppedStays(q, c, pick, fill, Widen(q, c, pick, fill, ks, facts[0]), facts[1..], f, v);
    }
  }

  /** A row that holds a combination found under its fill is of the summary and of that combination. */
  lemma HolderIsOfIt(q: Request, fill: Fixed, k: Fixed, r: Row)
    requires WellFormedSummary(q) && AllClosed(q.b, FilledOf(q)) && fill in Fills(q, FilledOf(q))
    requires k.Keys == (set f | f in q.summary.counted) && RespectsAmong(q, k)
    requires forall f :: f in FilledOf(q) && f in k ==> f in fill && k[f] == fill[f]
    requires Agrees(r, Under(q, fill, k)) && InTime(q, r)
    ensures IsAmong(q, r) && CombinationOf(q, r) == k
  {
    FilledIsClosed(q);
    FillsAreValues(q, FilledOf(q), fill);
    var under := Under(q, fill, k);
    forall f | f in FilledOf(q)
      ensures ValueOf(r, f) in FillValues(q, f)
    {
      assert f in under && under[f] == fill[f];
    }
    forall f | f in AmongOf(q)
      ensures ValueOf(r, f) == AmongOf(q)[f]
    {
      assert f in under && under[f] == AmongOf(q)[f];
    }
    forall f | f in k
      ensures ValueOf(r, f) == k[f]
    {
      assert f in under && under[f] == k[f];
    }
    AgreesWithItsOwn(q, r, k);
  }

  lemma SteppedIsACombination(q: Request, c: set<Row>, pick: Pick, fill: Fixed, k: Fixed)
    requires WellFormedSummary(q) && IsPick(pick) && AllClosed(q.b, FilledOf(q)) && fill in Fills(q, FilledOf(q))
    requires Stepped(q, FilledOf(q)) != [] && k in Within(q, c, pick, fill)
    ensures k in Combinations(q, c)
  {
    var filled := FilledOf(q);
    assert k.Keys == (set f | f in q.summary.counted) && RespectsAmong(q, k) by {
      assert k in Found(q, c, pick);
      FoundRespectAmong(q, c, pick, k);
    }
    forall f | f in filled && f in k
      ensures f in fill && k[f] == fill[f]
    {
      FilledStays(q, c, pick, fill, k, f);
    }
    assert IsHeld(q, c, fill, k) by {
      SteppedAreHeld(q, c, pick, fill, {Taken(q, fill)}, Stepped(q, filled));
    }
    var r :| r in c && Agrees(r, Under(q, fill, k)) && InTime(q, r);
    HolderIsOfIt(q, fill, k, r);
  }

  lemma FilledStays(q: Request, c: set<Row>, pick: Pick, fill: Fixed, k: Fixed, f: Fact)
    requires AllClosed(q.b, FilledOf(q)) && fill in Fills(q, FilledOf(q)) && k in Within(q, c, pick, fill)
    requires f in FilledOf(q) && f in q.summary.counted
    ensures f in fill && f in k && k[f] == fill[f]
  {
    FillsAreValues(q, FilledOf(q), fill);
    UnsteppedStays(q, c, pick, fill, {Taken(q, fill)}, Stepped(q, FilledOf(q)), f, fill[f]);
  }

  /** A summary that steps nothing finds one combination per fill at most. */
  lemma UnsteppedFindsFew(q: Request, c: set<Row>, pick: Pick)
    requires WellFormedSummary(q) && AllClosed(q.b, FilledOf(q)) && Stepped(q, FilledOf(q)) == []
    ensures |Found(q, c, pick)| <= 50
  {
    var fills := Fills(q, FilledOf(q));
    forall fill | fill in fills
      ensures Within(q, c, pick, fill) == {Taken(q, fill)}
    {
    }
    assert Found(q, c, pick) == set fill | fill in fills :: Taken(q, fill);
    TakenAreNoMore(q, fills);
    FillsAreNoMoreThanScans(q, FilledOf(q));
    FilledIsWithinTheLead(q);
  }

  /** An answer is complete exactly if there are at most a hundred combinations among the rows of the summary. */
  lemma CompleteExactly(q: Request, c: set<Row>, pick: Pick)
    requires WellFormedSummary(q) && IsPick(pick)
    ensures AllClosed(q.b, FilledOf(q))
    ensures IsComplete(q, c, pick) <==> |Combinations(q, c)| <= 100
  {
    FilledIsClosed(q);
    var found, all := Found(q, c, pick), Combinations(q, c);
    if IsComplete(q, c, pick) {
      forall r | r in c && IsAmong(q, r)
        ensures CombinationOf(q, r) in found
      {
        CompleteFindsEveryRow(q, c, pick, r);
      }
      assert all <= found;
      SubsetIsNoLarger(all, found);
    }
    if |all| <= 100 {
      FoundAreFew(q, c, pick);
    }
  }

  lemma FoundAreFew(q: Request, c: set<Row>, pick: Pick)
    requires WellFormedSummary(q) && IsPick(pick) && AllClosed(q.b, FilledOf(q)) && |Combinations(q, c)| <= 100
    ensures |Found(q, c, pick)| <= 100
  {
    if Stepped(q, FilledOf(q)) == [] {
      UnsteppedFindsFew(q, c, pick);
    } else {
      forall k | k in Found(q, c, pick)
        ensures k in Combinations(q, c)
      {
        var fill :| fill in Fills(q, FilledOf(q)) && k in Within(q, c, pick, fill);
        SteppedIsACombination(q, c, pick, fill, k);
      }
      SubsetIsNoLarger(Found(q, c, pick), Combinations(q, c));
    }
  }
}
