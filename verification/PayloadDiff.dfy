/**
 The difference of two payloads: a walk over both that collects JSON Pointers up to a cap.
 */
module PayloadDiff {
  import opened Collections
  import opened JsonPointer
  import opened Numerals

  const CHANGED_PATHS_MAX: nat := 50

  datatype Member = Member(key: string, value: Json)

  /** A stored value: members in the order of their keys, and a value outside JSON by the text it is sent as. */
  datatype Json =
    | Null
    | Boolean(b: bool)
    | Number(n: real)
    | Text(s: string)
    | Other(json: string)
    | Array(items: seq<Json>)
    | Object(members: seq<Member>)

  /*** What a value means ***/

  datatype Value =
    | VNull
    | VBoolean(b: bool)
    | VNumber(n: real)
    | VText(s: string)
    | VOther(json: string)
    | VArray(items: seq<Value>)
    | VObject(members: map<string, Value>)

  predicate HasKey(members: seq<Member>, key: string) {
    exists i :: 0 <= i < |members| && members[i].key == key
  }

  function IndexOf(members: seq<Member>, key: string): (i: nat)
    requires HasKey(members, key)
    ensures i < |members| && members[i].key == key
  {
    if members[0].key == key then 0
    else
      assert HasKey(members[1..], key) by {
        var j :| 0 <= j < |members| && members[j].key == key;
        assert members[1..][j - 1] == members[j];
      }
      1 + IndexOf(members[1..], key)
  }

  function KeySet(members: seq<Member>): set<string> {
    set i | 0 <= i < |members| :: members[i].key
  }

  /** The value with the order of its members forgotten. */
  function Denote(j: Json): Value {
    match j
    case Null => VNull
    case Boolean(b) => VBoolean(b)
    case Number(n) => VNumber(n)
    case Text(s) => VText(s)
    case Other(json) => VOther(json)
    case Array(items) => VArray(seq(|items|, i requires 0 <= i < |items| => Denote(items[i])))
    case Object(members) => VObject(map key | key in KeySet(members) &&
      HasKey(members, key) :: Denote(members[IndexOf(members, key)].value))
  }

  /*** The walk, without its cap ***/

  predicate SameKind(a: Json, b: Json) {
    match a
    case Null => b.Null?
    case Boolean(_) => b.Boolean?
    case Number(_) => b.Number?
    case Text(_) => b.Text?
    case Other(_) => b.Other?
    case Array(_) => b.Array?
    case Object(_) => b.Object?
  }

  predicate IsContainer(j: Json) {
    j.Array? || j.Object?
  }

  datatype Segment = Index(i: nat) | Key(key: string)

  function Token(segment: Segment): string {
    match segment
    case Index(i) => Print(DECIMAL, i)
    case Key(key) => key
  }

  predicate HasOwn(j: Json, segment: Segment) {
    match segment
    case Index(i) => j.Array? && i < |j.items|
    case Key(key) => j.Object? && HasKey(j.members, key)
  }

  function Child(j: Json, segment: Segment): Json
    requires HasOwn(j, segment)
  {
    match segment
    case Index(i) => j.items[i]
    case Key(key) => j.members[IndexOf(j.members, key)].value
  }

  function Keys(members: seq<Member>): (keys: seq<Segment>)
    ensures |keys| == |members| && forall i :: 0 <= i < |keys| ==> keys[i] == Key(members[i].key)
  {
    seq(|members|, i requires 0 <= i < |members| => Key(members[i].key))
  }

  /** The children of either: indexes up to the longer, or the keys of the first and then the others of the second. */
  function ChildKeys(before: Json, after: Json): seq<Segment>
    requires IsContainer(before) && SameKind(before, after)
  {
    if before.Array? then seq(Max(|before.items|, |after.items|), i requires 0 <= i => Index(i))
    else Keys(before.members) + Without(Keys(after.members), Keys(before.members))
  }

  /** Every path at which two values differ. */
  function Diff(before: Json, after: Json, path: seq<string>): seq<seq<string>>
    decreases before, 2, 0
  {
    if !SameKind(before, after) then [path]
    else if IsContainer(before) then DiffChildren(before, after, ChildKeys(before, after), path)
    else if before == after then []
    else [path]
  }

  function DiffChildren(before: Json, after: Json, keys: seq<Segment>, path: seq<string>): seq<seq<string>>
    decreases before, 1, |keys|
  {
    if keys == [] then []
    else DiffChildren(before, after, keys[..|keys| - 1], path) + DiffChild(before, after, keys[|keys| - 1], path)
  }

  function DiffChild(before: Json, after: Json, key: Segment, path: seq<string>): seq<seq<string>>
    decreases before, 0, 0
  {
    var here := path + [Token(key)];
    if HasOwn(before, key) && HasOwn(after, key) then
      match key
      case Index(i) => Diff(before.items[i], after.items[i], here)
      case Key(k) => Diff(before.members[IndexOf(before.members, k)].value, Child(after, key), here)
    else [here]
  }

  /*** Nothing is reported exactly when the values are equal ***/

  lemma {:induction false} NoneIn(before: Json, after: Json, keys: seq<Segment>, path: seq<string>)
    ensures DiffChildren(before, after, keys, path) == [] <==> forall k :: k in keys ==>
      DiffChild(before, after, k, path) == []
    decreases |keys|
  {
    if keys != [] {
      var init, last := keys[..|keys| - 1], keys[|keys| - 1];
      NoneIn(before, after, init, path);
      assert keys == init + [last];
      var xs, ys := DiffChildren(before, after, init, path), DiffChild(before, after, last, path);
      assert DiffChildren(before, after, keys, path) == xs + ys;
      assert |xs + ys| == |xs| + |ys|;
      assert last in keys && forall k :: k in init ==> k in keys;
      forall k | k in keys
        ensures k in init || k == last
      {
      }
    }
  }

  lemma KeysAreIndexed(members: seq<Member>, key: string)
    ensures HasKey(members, key) <==> Key(key) in Keys(members)
    ensures HasKey(members, key) <==> key in KeySet(members)
  {
    var keys := Keys(members);
    if HasKey(members, key) {
      assert keys[IndexOf(members, key)] == Key(key);
    }
    if Key(key) in keys {
      var i :| 0 <= i < |keys| && keys[i] == Key(key);
      assert members[i].key == key;
    }
  }

  /** The children walked are those either value has. */
  lemma ChildKeysAre(before: Json, after: Json, k: Segment)
    requires IsContainer(before) && SameKind(before, after)
    ensures k in ChildKeys(before, after) <==> HasOwn(before, k) || HasOwn(after, k)
  {
    var keys := ChildKeys(before, after);
    if before.Array? {
      if k.Index? && (HasOwn(before, k) || HasOwn(after, k)) {
        assert keys[k.i] == k;
      }
    } else if k.Key? {
      KeysAreIndexed(before.members, k.key);
      KeysAreIndexed(after.members, k.key);
    } else {
      assert k !in Keys(before.members) && k !in Keys(after.members);
    }
  }

  lemma ArraysAreEqual(before: Json, after: Json)
    requires before.Array? && after.Array?
    ensures Denote(before) == Denote(after) <==>
      |before.items| == |after.items| && forall i :: 0 <= i < |before.items| ==>
        Denote(before.items[i]) == Denote(after.items[i])
  {
    var bs, cs := Denote(before).items, Denote(after).items;
    if Denote(before) == Denote(after) {
      forall i | 0 <= i < |before.items|
        ensures Denote(before.items[i]) == Denote(after.items[i])
      {
        assert bs[i] == cs[i];
      }
    }
  }

  lemma DenotedMembers(j: Json, key: string)
    requires j.Object?
    ensures key in Denote(j).members <==> HasKey(j.members, key)
    ensures HasKey(j.members, key) ==> Denote(j).members[key] == Denote(Child(j, Key(key)))
  {
    KeysAreIndexed(j.members, key);
  }

  /** Two containers are equal exactly if they have the same children and those are equal. */
  lemma ContainersAreEqual(before: Json, after: Json)
    requires IsContainer(before) && SameKind(before, after)
    ensures Denote(before) == Denote(after) <==> forall k :: SameChild(before, after, k)
  {
    if before.Array? {
      ArraysAreEqual(before, after);
      if forall k :: SameChild(before, after, k) {
        LengthsAgree(before, after);
        forall i | 0 <= i < |before.items|
          ensures Denote(before.items[i]) == Denote(after.items[i])
        {
          assert SameChild(before, after, Index(i));
        }
      }
    } else {
      ObjectsAreEqual(before, after);
    }
  }

  ghost predicate SameChild(before: Json, after: Json, k: Segment) {
    && (HasOwn(before, k) <==> HasOwn(after, k))
    && (HasOwn(before, k) ==> Denote(Child(before, k)) == Denote(Child(after, k)))
  }

  lemma LengthsAgree(before: Json, after: Json)
    requires before.Array? && after.Array? && forall k :: SameChild(before, after, k)
    ensures |before.items| == |after.items|
  {
    assert SameChild(before, after, Index(|before.items|)) && SameChild(before, after, Index(|after.items|));
  }

  lemma ObjectsAreEqual(before: Json, after: Json)
    requires before.Object? && after.Object?
    ensures Denote(before) == Denote(after) <==> forall k :: SameChild(before, after, k)
  {
    var bs, cs := Denote(before).members, Denote(after).members;
    if Denote(before) == Denote(after) {
      forall k
        ensures SameChild(before, after, k)
      {
        if k.Key? {
          DenotedMembers(before, k.key);
          DenotedMembers(after, k.key);
        }
      }
    }
    if forall k :: SameChild(before, after, k) {
      forall key
        ensures key in bs <==> key in cs
        ensures key in bs && key in cs ==> bs[key] == cs[key]
      {
        assert SameChild(before, after, Key(key));
        DenotedMembers(before, key);
        DenotedMembers(after, key);
      }
      assert bs == cs;
    }
  }

  /** No path is reported exactly when the two values are equal, the order of members aside. */
  lemma {:induction false} NoPathMeansEqual(before: Json, after: Json, path: seq<string>)
    ensures Diff(before, after, path) == [] <==> Denote(before) == Denote(after)
    decreases before, 1
  {
    if SameKind(before, after) && IsContainer(before) {
      var keys := ChildKeys(before, after);
      NoneIn(before, after, keys, path);
      ContainersAreEqual(before, after);
      forall k
        ensures SameChild(before, after, k) <==> (k in keys ==> DiffChild(before, after, k, path) == [])
      {
        ChildKeysAre(before, after, k);
        NoPathInChild(before, after, k, path);
      }
    }
  }

  lemma {:induction false} NoPathInChild(before: Json, after: Json, k: Segment, path: seq<string>)
    ensures HasOwn(before, k) || HasOwn(after, k) ==>
      (DiffChild(before, after, k, path) == [] <==> SameChild(before, after, k))
    decreases before, 0
  {
    if HasOwn(before, k) && HasOwn(after, k) {
      var here := path + [Token(k)];
      match k
      case Index(i) => NoPathMeansEqual(before.items[i], after.items[i], here);
      case Key(key) => NoPathMeansEqual(before.members[IndexOf(before.members, key)].value, Child(after, k), here);
    }
  }

  /*** No path is reported twice ***/

  lemma DistinctAppend<T>(xs: seq<T>, ys: seq<T>)
    requires Distinct(xs) && Distinct(ys) && forall x :: x in xs ==> x !in ys
    ensures Distinct(xs + ys)
  {
    var all := xs + ys;
    forall i, j | 0 <= i < j < |all|
      ensures all[i] != all[j]
    {
      assert i < |xs| <= j ==> all[i] in xs && all[j] in ys;
    }
  }

  /** Keys of one object differ. */
  predicate WellFormed(j: Json) {
    match j
    case Array(items) => forall i :: 0 <= i < |items| ==> WellFormed(items[i])
    case Object(members) =>
      && (forall i, j :: 0 <= i < j < |members| ==> members[i].key != members[j].key)
      && (forall i :: 0 <= i < |members| ==> WellFormed(members[i].value))
    case _ => true
  }

  /** No two segments come out as the same token. */
  predicate DistinctTokens(keys: seq<Segment>) {
    forall i, j :: 0 <= i < j < |keys| ==> Token(keys[i]) != Token(keys[j])
  }

  lemma {:induction false} WithoutIsDistinct(segments: seq<Segment>, others: seq<Segment>)
    requires DistinctTokens(segments)
    ensures DistinctTokens(Without(segments, others))
  {
    if segments != [] {
      var init, last := segments[..|segments| - 1], segments[|segments| - 1];
      WithoutIsDistinct(init, others);
      var rest := Without(init, others);
      forall i | 0 <= i < |rest|
        ensures Token(rest[i]) != Token(last)
      {
        assert rest[i] in init;
      }
    }
  }

  lemma ChildTokensAreDistinct(before: Json, after: Json)
    requires IsContainer(before) && SameKind(before, after) && WellFormed(before) && WellFormed(after)
    ensures DistinctTokens(ChildKeys(before, after))
  {
    var keys := ChildKeys(before, after);
    if before.Array? {
      forall i, j | 0 <= i < j < |keys|
        ensures Token(keys[i]) != Token(keys[j])
      {
        if Print(DECIMAL, i) == Print(DECIMAL, j) {
          PrintIsInjective(DECIMAL, i, j);
        }
      }
    } else {
      var first, second := Keys(before.members), Without(Keys(after.members), Keys(before.members));
      WithoutIsDistinct(Keys(after.members), first);
      TokensOfKeys(first, second);
    }
  }

  predicate AllKeys(segments: seq<Segment>) {
    forall i :: 0 <= i < |segments| ==> segments[i].Key?
  }

  lemma TokensOfKeys(first: seq<Segment>, second: seq<Segment>)
    requires AllKeys(first) && (forall s :: s in second ==> s.Key? && s !in first)
    requires DistinctTokens(first) && DistinctTokens(second)
    ensures DistinctTokens(first + second)
  {
    var keys := first + second;
    forall i, j | 0 <= i < |first| && 0 <= j < |second|
      ensures Token(first[i]) != Token(second[j])
    {
      assert second[j] in second && first[i] in first;
    }
  }

  lemma {:induction false} PathsGoOn(before: Json, after: Json, path: seq<string>, p: seq<string>)
    requires p in Diff(before, after, path)
    ensures path <= p
    decreases before, 2, 0
  {
    if SameKind(before, after) && IsContainer(before) {
      var k := PathsOfChildren(before, after, ChildKeys(before, after), path, p);
    }
  }

  /** A path below a container goes on with the token of one of its children. */
  lemma {:induction false} PathsOfChildren(
    before: Json, after: Json, keys: seq<Segment>, path: seq<string>, p: seq<string>)
    returns (k: Segment)
    requires p in DiffChildren(before, after, keys, path)
    ensures k in keys && path + [Token(k)] <= p
    ensures path <= p
    decreases before, 1, |keys|
  {
    var init, last := keys[..|keys| - 1], keys[|keys| - 1];
    if p in DiffChildren(before, after, init, path) {
      k := PathsOfChildren(before, after, init, path, p);
    } else {
      k := last;
      PathsOfChild(before, after, last, path, p);
    }
    assert path == (path + [Token(k)])[..|path|];
  }

  lemma {:induction false} PathsOfChild(before: Json, after: Json, k: Segment, path: seq<string>, p: seq<string>)
    requires p in DiffChild(before, after, k, path)
    ensures path + [Token(k)] <= p && p[|path|] == Token(k)
    decreases before, 0, 0
  {
    assert (path + [Token(k)])[|path|] == Token(k);
    if HasOwn(before, k) && HasOwn(after, k) {
      var here := path + [Token(k)];
      match k
      case Index(i) => PathsGoOn(before.items[i], after.items[i], here, p);
      case Key(key) => PathsGoOn(before.members[IndexOf(before.members, key)].value, Child(after, k), here, p);
    }
  }

  lemma {:induction false} PathsAreDistinct(before: Json, after: Json, path: seq<string>)
    requires WellFormed(before) && WellFormed(after)
    ensures Distinct(Diff(before, after, path))
    decreases before, 2, 0
  {
    if SameKind(before, after) && IsContainer(before) {
      ChildTokensAreDistinct(before, after);
      ChildrensPathsAreDistinct(before, after, ChildKeys(before, after), path);
    }
  }

  lemma {:induction false} ChildrensPathsAreDistinct(before: Json, after: Json, keys: seq<Segment>, path: seq<string>)
    requires WellFormed(before) && WellFormed(after) && DistinctTokens(keys)
    ensures Distinct(DiffChildren(before, after, keys, path))
    decreases before, 1, |keys|
  {
    if keys != [] {
      var init, last := keys[..|keys| - 1], keys[|keys| - 1];
      ChildrensPathsAreDistinct(before, after, init, path);
      ChildsPathsAreDistinct(before, after, last, path);
      var xs, ys := DiffChildren(before, after, init, path), DiffChild(before, after, last, path);
      forall p | p in xs
        ensures p !in ys
      {
        var k := PathsOfChildren(before, after, init, path, p);
        TokenTells(before, after, k, last, path, p);
      }
      DistinctAppend(xs, ys);
    }
  }

  lemma TokenTells(before: Json, after: Json, k: Segment, last: Segment, path: seq<string>, p: seq<string>)
    requires Token(k) != Token(last) && path + [Token(k)] <= p
    ensures p !in DiffChild(before, after, last, path)
  {
    assert p[|path|] == (path + [Token(k)])[|path|] == Token(k);
    if p in DiffChild(before, after, last, path) {
      PathsOfChild(before, after, last, path, p);
      assert false;
    }
  }

  lemma {:induction false} ChildsPathsAreDistinct(before: Json, after: Json, k: Segment, path: seq<string>)
    requires WellFormed(before) && WellFormed(after)
    ensures Distinct(DiffChild(before, after, k, path))
    decreases before, 0, 0
  {
    if HasOwn(before, k) && HasOwn(after, k) {
      var here := path + [Token(k)];
      match k
      case Index(i) => PathsAreDistinct(before.items[i], after.items[i], here);
      case Key(key) => PathsAreDistinct(before.members[IndexOf(before.members, key)].value, Child(after, k), here);
    }
  }

  /*** The walk, with its cap ***/

  function Pointers(paths: seq<seq<string>>): (texts: seq<string>)
    ensures |texts| == |paths| && forall i :: 0 <= i < |texts| ==> texts[i] == Pointer(paths[i])
  {
    seq(|paths|, i requires 0 <= i < |paths| => Pointer(paths[i]))
  }

  function Take(xs: seq<string>, n: nat): seq<string> {
    if |xs| <= n then xs else xs[..n]
  }

  /** What the shared list can hold: the reported paths and a witness that there are more. */
  function Capped(xs: seq<string>): seq<string> {
    Take(xs, CHANGED_PATHS_MAX + 1)
  }

  lemma PointersAppend(xs: seq<seq<string>>, ys: seq<seq<string>>)
    ensures Pointers(xs + ys) == Pointers(xs) + Pointers(ys)
  {
  }

  lemma CappedAppends(xs: seq<string>, ys: seq<string>, zs: seq<string>)
    ensures |Capped(xs + ys)| <= CHANGED_PATHS_MAX ==> Capped(xs + (ys + zs)) == Capped(Capped(xs + ys) + zs)
    ensures |Capped(xs + ys)| > CHANGED_PATHS_MAX ==> Capped(xs + (ys + zs)) == Capped(xs + ys)
  {
    assert xs + (ys + zs) == (xs + ys) + zs;
  }

  /** What further children add comes after what was found before. */
  lemma {:induction false} DiffChildrenGoesOn(
    before: Json, after: Json, keys: seq<Segment>, k: nat, path: seq<string>)
    returns (rest: seq<seq<string>>)
    requires k <= |keys|
    ensures DiffChildren(before, after, keys, path) == DiffChildren(before, after, keys[..k], path) + rest
    decreases |keys|
  {
    if k == |keys| {
      assert keys[..k] == keys;
      rest := [];
    } else {
      var init, last := keys[..|keys| - 1], keys[|keys| - 1];
      assert init[..k] == keys[..k];
      var more := DiffChildrenGoesOn(before, after, init, k, path);
      rest := more + DiffChild(before, after, last, path);
    }
  }

  /** Past the cap, further children change nothing. */
  lemma ChildrenBeyondCap(before: Json, after: Json, keys: seq<Segment>, k: nat, path: seq<string>, found: seq<string>)
    requires k <= |keys| && |Capped(found + Pointers(DiffChildren(before, after, keys[..k], path)))| > CHANGED_PATHS_MAX
    ensures Capped(found + Pointers(DiffChildren(before, after, keys, path))) ==
      Capped(found + Pointers(DiffChildren(before, after, keys[..k], path)))
  {
    var sofar := DiffChildren(before, after, keys[..k], path);
    var rest := DiffChildrenGoesOn(before, after, keys, k, path);
    PointersAppend(sofar, rest);
    CappedAppends(found, Pointers(sofar), Pointers(rest));
  }

  /** Before it, one child adds its own. */
  lemma OneChildMore(before: Json, after: Json, keys: seq<Segment>, k: nat, path: seq<string>, found: seq<string>)
    requires k < |keys| && |Capped(found + Pointers(DiffChildren(before, after, keys[..k], path)))| <= CHANGED_PATHS_MAX
    ensures Capped(found + Pointers(DiffChildren(before, after, keys[..k + 1], path))) ==
      Capped(Capped(found + Pointers(DiffChildren(before, after, keys[..k], path))) +
        Pointers(DiffChild(before, after, keys[k], path)))
  {
    var sofar, one := DiffChildren(before, after, keys[..k], path), DiffChild(before, after, keys[k], path);
    assert keys[..k + 1][..k] == keys[..k];
    PointersAppend(sofar, one);
    CappedAppends(found, Pointers(sofar), Pointers(one));
  }

  /** The list of changes the whole walk shares. */
  class Changes {
    var found: seq<string>

    constructor ()
      ensures found == []
    {
      found := [];
    }

    method Walk(before: Json, after: Json, path: seq<string>)
      requires |found| <= CHANGED_PATHS_MAX
      modifies this
      ensures found == Capped(old(found) + Pointers(Diff(before, after, path)))
      decreases before, 2, 0
    {
      if !SameKind(before, after) {
        found := found + [Pointer(path)];
        return;
      }
      if IsContainer(before) {
        WalkChildren(before, after, path);
        return;
      }
      if before != after {
        found := found + [Pointer(path)];
      }
    }

    method WalkChildren(before: Json, after: Json, path: seq<string>)
      requires |found| <= CHANGED_PATHS_MAX && IsContainer(before) && SameKind(before, after)
      modifies this
      ensures found == Capped(old(found) + Pointers(DiffChildren(before, after, ChildKeys(before, after), path)))
      decreases before, 1, 0
    {
      var keys := ChildKeys(before, after);
      var i := 0;
      while i < |keys|
        invariant i <= |keys|
        invariant found == Capped(old(found) + Pointers(DiffChildren(before, after, keys[..i], path)))
      {
        if |found| > CHANGED_PATHS_MAX {
          ChildrenBeyondCap(before, after, keys, i, path, old(found));
          return;
        }
        VisitChild(before, after, keys[i], path);
        OneChildMore(before, after, keys, i, path, old(found));
        i := i + 1;
      }
      assert keys[..i] == keys;
    }

    method VisitChild(before: Json, after: Json, key: Segment, path: seq<string>)
      requires |found| <= CHANGED_PATHS_MAX
      modifies this
      ensures found == Capped(old(found) + Pointers(DiffChild(before, after, key, path)))
      decreases before, 0, 0
    {
      var here := path + [Token(key)];
      if HasOwn(before, key) && HasOwn(after, key) {
        match key
        case Index(i) => Walk(before.items[i], after.items[i], here);
        case Key(k) => Walk(before.members[IndexOf(before.members, k)].value, Child(after, key), here);
      } else {
        found := found + [Pointer(here)];
      }
    }
  }

  /** What the paths reported say: none when the values are equal, and none of them twice. */
  lemma ReportedMeans(before: Json, after: Json, all: seq<string>, reported: seq<string>)
    requires all == Pointers(Diff(before, after, [])) && reported == Take(all, CHANGED_PATHS_MAX)
    ensures reported == [] <==> Denote(before) == Denote(after)
    ensures WellFormed(before) && WellFormed(after) ==> Distinct(reported)
  {
    NoPathMeansEqual(before, after, []);
    if WellFormed(before) && WellFormed(after) {
      PointersAreDistinct(before, after);
    }
  }

  /** All pointers of one diff differ. */
  lemma PointersAreDistinct(before: Json, after: Json)
    requires WellFormed(before) && WellFormed(after)
    ensures Distinct(Pointers(Diff(before, after, [])))
  {
    var paths := Diff(before, after, []);
    PathsAreDistinct(before, after, []);
    forall i, j | 0 <= i < j < |paths|
      ensures Pointer(paths[i]) != Pointer(paths[j])
    {
      if Pointer(paths[i]) == Pointer(paths[j]) {
        PointerIsInjective(paths[i], paths[j]);
      }
    }
  }
}
