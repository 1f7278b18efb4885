/**
 What the reported pointers mean, by looking them up in the two values as section 4 of
 RFC 6901 has it: each leads to a difference, and every difference is reported.
 */
module DiffMeaning {
  import opened Wrappers
  import opened Collections
  import opened JsonPointer
  import opened Numerals
  import opened PayloadDiff

  /*** Looking a path up ***/

  /** An array index as a token: digits without a leading zero. */
  predicate IsIndex(token: string) {
    token == "0" || IsPositive(DECIMAL, token)
  }

  /** What a token leads to: an element by its index, a member by its key, and nothing in any other value. */
  function Lookup(j: Json, token: string): Option<Json> {
    match j
    case Array(items) =>
      if IsIndex(token) && Parse(DECIMAL, token) < |items| then Some(items[Parse(DECIMAL, token)]) else None
    case Object(members) =>
      if HasKey(members, token) then Some(members[IndexOf(members, token)].value) else None
    case _ => None
  }

  function Resolve(j: Json, path: seq<string>): Option<Json> {
    if path == [] then Some(j)
    else
      match Lookup(j, path[0])
      case None => None
      case Some(child) => Resolve(child, path[1..])
  }

  /** The path leads through containers both values have, of one kind at every step. */
  predicate IsShared(before: Json, after: Json, path: seq<string>) {
    var x, y := Resolve(before, path), Resolve(after, path);
    x.Some? && y.Some? && SameKind(x.value, y.value) && IsContainer(x.value)
  }

  /** At the path one value has nothing, or the two have values of different kinds or different leaves. */
  predicate IsDifferent(x: Option<Json>, y: Option<Json>) {
    || x.Some? != y.Some?
    || (x.Some? && y.Some? && (!SameKind(x.value, y.value) || (!IsContainer(x.value) && x.value != y.value)))
  }

  predicate DiffersAt(before: Json, after: Json, path: seq<string>) {
    && (forall k :: 0 <= k < |path| ==> IsShared(before, after, path[..k]))
    && IsDifferent(Resolve(before, path), Resolve(after, path))
  }

  /*** The same, token by token ***/

  predicate Differs(before: Json, after: Json, path: seq<string>)
    decreases |path|
  {
    if path == [] then IsDifferent(Some(before), Some(after))
    else
      && SameKind(before, after) && IsContainer(before)
      && var x, y := Lookup(before, path[0]), Lookup(after, path[0]);
         if x.Some? && y.Some? then Differs(x.value, y.value, path[1..]) else x.Some? != y.Some? && path[1..] == []
  }

  lemma SharedBelow(before: Json, after: Json, path: seq<string>, k: nat)
    requires path != [] && k < |path[1..]|
    requires Lookup(before, path[0]).Some? && Lookup(after, path[0]).Some?
    ensures IsShared(before, after, path[..k + 1]) <==>
      IsShared(Lookup(before, path[0]).value, Lookup(after, path[0]).value, path[1..][..k])
  {
    assert path[..k + 1][1..] == path[1..][..k] && path[..k + 1][0] == path[0];
  }

  lemma {:induction false} DiffersMeans(before: Json, after: Json, path: seq<string>)
    ensures Differs(before, after, path) <==> DiffersAt(before, after, path)
    decreases |path|
  {
    if path != [] {
      assert path[..0] == [];
      assert IsShared(before, after, path[..0]) <==> SameKind(before, after) && IsContainer(before);
      var x, y := Lookup(before, path[0]), Lookup(after, path[0]);
      if x.Some? && y.Some? {
        DiffersMeans(x.value, y.value, path[1..]);
        BothGoOn(before, after, path);
      } else {
        OneStops(before, after, path);
      }
    }
  }

  lemma BothGoOn(before: Json, after: Json, path: seq<string>)
    requires path != [] && Lookup(before, path[0]).Some? && Lookup(after, path[0]).Some?
    ensures DiffersAt(before, after, path) <==>
      && IsShared(before, after, path[..0])
      && DiffersAt(Lookup(before, path[0]).value, Lookup(after, path[0]).value, path[1..])
  {
    var x, y, rest := Lookup(before, path[0]).value, Lookup(after, path[0]).value, path[1..];
    forall k | 0 <= k < |rest|
      ensures IsShared(before, after, path[..k + 1]) <==> IsShared(x, y, rest[..k])
    {
      SharedBelow(before, after, path, k);
    }
    if DiffersAt(before, after, path) {
      forall k | 0 <= k < |rest|
        ensures IsShared(x, y, rest[..k])
      {
        assert IsShared(before, after, path[..k + 1]);
      }
    }
    if IsShared(before, after, path[..0]) && DiffersAt(x, y, rest) {
      forall k | 0 <= k < |path|
        ensures IsShared(before, after, path[..k])
      {
        if k > 0 {
          assert IsShared(x, y, rest[..k - 1]);
          SharedBelow(before, after, path, k - 1);
        }
      }
    }
  }

  lemma OneStops(before: Json, after: Json, path: seq<string>)
    requires path != [] && (Lookup(before, path[0]).None? || Lookup(after, path[0]).None?)
    ensures DiffersAt(before, after, path) <==>
      && IsShared(before, after, path[..0])
      && Lookup(before, path[0]).Some? != Lookup(after, path[0]).Some? && path[1..] == []
  {
    if |path| > 1 {
      assert path[..1][0] == path[0] && path[..1][1..] == [];
      assert !IsShared(before, after, path[..1]);
    } else {
      assert path[1..] == [];
      assert Resolve(before, path) == Lookup(before, path[0]) && Resolve(after, path) == Lookup(after, path[0]);
    }
  }

  /*** Children are what tokens lead to ***/

  lemma ZeroIsPrinted()
    ensures Print(DECIMAL, 0) == "0"
  {
  }

  /** A child's own token leads to it. */
  lemma TokenLeadsToChild(j: Json, k: Segment)
    requires (j.Array? && k.Index?) || (j.Object? && k.Key?)
    ensures Lookup(j, Token(k)) == if HasOwn(j, k) then Some(Child(j, k)) else None
  {
    if k.Index? {
      ParsePrint(DECIMAL, k.i);
      ZeroIsPrinted();
    }
  }

  /** A token that leads somewhere is a child's own. */
  lemma TokenIsAChilds(j: Json, token: string) returns (k: Segment)
    requires Lookup(j, token).Some?
    ensures HasOwn(j, k) && Token(k) == token
    ensures (j.Array? && k.Index?) || (j.Object? && k.Key?)
  {
    if j.Array? {
      k := Index(Parse(DECIMAL, token));
      ZeroIsPrinted();
      if token == "0" {
        ParsePrint(DECIMAL, 0);
      } else {
        PrintParse(DECIMAL, token);
      }
    } else {
      k := Key(token);
    }
  }

  /*** The diff finds exactly the differences ***/

  predicate FoundIn(before: Json, after: Json, keys: seq<Segment>, path: seq<string>, p: seq<string>) {
    exists i :: 0 <= i < |keys| && p in DiffChild(before, after, keys[i], path)
  }

  lemma {:induction false} InSomeChild(before: Json, after: Json, keys: seq<Segment>, path: seq<string>, p: seq<string>)
    ensures p in DiffChildren(before, after, keys, path) <==> FoundIn(before, after, keys, path, p)
    decreases |keys|
  {
    if keys != [] {
      var init, last := keys[..|keys| - 1], keys[|keys| - 1];
      InSomeChild(before, after, init, path, p);
      assert forall i :: 0 <= i < |init| ==> init[i] == keys[i];
      if FoundIn(before, after, init, path, p) {
        var i :| 0 <= i < |init| && p in DiffChild(before, after, init[i], path);
        assert p in DiffChild(before, after, keys[i], path);
      }
      if FoundIn(before, after, keys, path, p) {
        var i :| 0 <= i < |keys| && p in DiffChild(before, after, keys[i], path);
        assert i < |init| ==> p in DiffChild(before, after, init[i], path);
      }
    }
  }

  lemma RestOfPath(path: seq<string>, token: string, p: seq<string>)
    ensures path + [token] <= p <==> path <= p && |p| > |path| && p[|path|..][0] == token
    ensures path + [token] <= p ==> p[|path|..][1..] == p[|path + [token]|..]
  {
    var here := path + [token];
    if path <= p && |p| > |path| && p[|path|..][0] == token {
      assert p[..|here|] == here;
    }
    if here <= p {
      assert here[|path|] == token && here[..|path|] == path;
      assert p[|path|] == token;
    }
  }

  /** Found at a child: its token comes next, and the rest leads to a difference there. */
  lemma {:induction false} ChildFinds(before: Json, after: Json, k: Segment, path: seq<string>, p: seq<string>)
    requires IsContainer(before) && SameKind(before, after) && (before.Array? <==> k.Index?)
    requires HasOwn(before, k) || HasOwn(after, k)
    ensures p in DiffChild(before, after, k, path) <==>
      path <= p && |p| > |path| && p[|path|..][0] == Token(k) && Differs(before, after, p[|path|..])
    decreases before, 0
  {
    var here := path + [Token(k)];
    TokenLeadsToChild(before, k);
    TokenLeadsToChild(after, k);
    RestOfPath(path, Token(k), p);
    if HasOwn(before, k) && HasOwn(after, k) {
      match k
      case Index(i) => DiffFinds(before.items[i], after.items[i], here, p);
      case Key(key) => DiffFinds(before.members[IndexOf(before.members, key)].value, Child(after, k), here, p);
    } else if here <= p {
      assert p == here <==> p[|here|..] == [];
    }
  }

  lemma {:induction false} DiffFinds(before: Json, after: Json, path: seq<string>, p: seq<string>)
    ensures p in Diff(before, after, path) <==> path <= p && Differs(before, after, p[|path|..])
    decreases before, 1
  {
    if SameKind(before, after) && IsContainer(before) {
      var keys := ChildKeys(before, after);
      InSomeChild(before, after, keys, path, p);
      forall i | 0 <= i < |keys|
        ensures p in DiffChild(before, after, keys[i], path) <==>
          path <= p && |p| > |path| && p[|path|..][0] == Token(keys[i]) && Differs(before, after, p[|path|..])
      {
        assert keys[i] in keys;
        ChildKeysAre(before, after, keys[i]);
        ChildFinds(before, after, keys[i], path, p);
      }
      if path <= p && Differs(before, after, p[|path|..]) {
        var k := DifferenceIsAtAChild(before, after, p[|path|..]);
        ChildKeysAre(before, after, k);
        var i :| 0 <= i < |keys| && keys[i] == k;
        assert p in DiffChild(before, after, keys[i], path);
      }
    } else {
      LeafFinds(before, after, path, p);
    }
  }

  lemma DifferenceIsAtAChild(before: Json, after: Json, rest: seq<string>) returns (k: Segment)
    requires IsContainer(before) && SameKind(before, after) && Differs(before, after, rest)
    ensures rest != [] && Token(k) == rest[0] && (HasOwn(before, k) || HasOwn(after, k))
  {
    if Lookup(before, rest[0]).Some? {
      k := TokenIsAChilds(before, rest[0]);
    } else {
      k := TokenIsAChilds(after, rest[0]);
    }
  }

  lemma LeafFinds(before: Json, after: Json, path: seq<string>, p: seq<string>)
    requires !(SameKind(before, after) && IsContainer(before))
    ensures p in Diff(before, after, path) <==> path <= p && Differs(before, after, p[|path|..])
  {
    assert path <= p && p[|path|..] == [] <==> p == path;
  }

  /**
   A path is found if and only if every step of it leads through containers that both
   values have, of one kind, and at its end one of the two has nothing, or they differ in
   kind or as leaves.
   */
  lemma DiffFindsExactlyTheDifferences(before: Json, after: Json, p: seq<string>)
    ensures p in Diff(before, after, []) <==> DiffersAt(before, after, p)
  {
    DiffFinds(before, after, [], p);
    assert p[0..] == p;
    DiffersMeans(before, after, p);
  }

  /** In which order children are walked: an array's by index, an object's own keys before those only the other has. */
  lemma ChildrenInOrder(before: Json, after: Json, i: nat)
    requires IsContainer(before) && SameKind(before, after) && i < |ChildKeys(before, after)|
    ensures before.Array? ==>
      |ChildKeys(before, after)| == Max(|before.items|, |after.items|) && ChildKeys(before, after)[i] == Index(i)
    ensures before.Object? && i < |before.members| ==> ChildKeys(before, after)[i] == Key(before.members[i].key)
    ensures before.Object? && i >= |before.members| ==> !HasOwn(before, ChildKeys(before, after)[i])
  {
    var keys := ChildKeys(before, after);
    if before.Object? && i >= |before.members| {
      var new1 := Without(Keys(after.members), Keys(before.members));
      assert keys[i] in new1;
      KeysAreIndexed(before.members, keys[i].key);
    }
  }

  /** The text is the pointer of a path at which the values differ. */
  ghost predicate IsOfADifference(before: Json, after: Json, text: string) {
    exists p :: text == Pointer(p) && DiffersAt(before, after, p)
  }

  /** What the first fifty pointers say of the two values. */
  lemma ReportedAreDifferences(before: Json, after: Json, reported: seq<string>)
    requires reported == Take(Pointers(Diff(before, after, [])), 50)
    ensures forall i :: 0 <= i < |reported| ==> IsOfADifference(before, after, reported[i])
    ensures |Diff(before, after, [])| <= 50 ==> forall p :: DiffersAt(before, after, p) ==> Pointer(p) in reported
  {
    var paths := Diff(before, after, []);
    forall i | 0 <= i < |reported|
      ensures IsOfADifference(before, after, reported[i])
    {
      assert reported[i] == Pointer(paths[i]) && paths[i] in paths;
      DiffFindsExactlyTheDifferences(before, after, paths[i]);
    }
    if |paths| <= 50 {
      forall p | DiffersAt(before, after, p)
        ensures Pointer(p) in reported
      {
        DiffFindsExactlyTheDifferences(before, after, p);
        var i :| 0 <= i < |paths| && paths[i] == p;
        assert Pointers(paths)[i] == Pointer(p);
      }
    }
  }

  /**
   The paths reported are the first fifty of all, and the flag tells exactly whether there
   are more. Each leads to a difference; every difference is among them unless the flag is
   set; there are none exactly for equal values, and none twice.
   */
  method PayloadChanges(before: Json, after: Json) returns (changedPaths: seq<string>, truncated: bool)
    ensures changedPaths == Take(Pointers(Diff(before, after, [])), 50)
    ensures truncated <==> |Diff(before, after, [])| > 50
    ensures forall i :: 0 <= i < |changedPaths| ==> IsOfADifference(before, after, changedPaths[i])
    ensures !truncated ==> forall p :: DiffersAt(before, after, p) ==> Pointer(p) in changedPaths
    ensures changedPaths == [] <==> Denote(before) == Denote(after)
    ensures WellFormed(before) && WellFormed(after) ==> Distinct(changedPaths)
  {
    var changes := new Changes();
    changes.Walk(before, after, []);
    ghost var all := Pointers(Diff(before, after, []));
    assert [] + all == all;
    changedPaths := if |changes.found| > CHANGED_PATHS_MAX then changes.found[..CHANGED_PATHS_MAX] else changes.found;
    truncated := |changes.found| > CHANGED_PATHS_MAX;
    ReportedMeans(before, after, all, changedPaths);
    ReportedAreDifferences(before, after, changedPaths);
  }
}
