/** The order of a structural difference: entries stand in the order of their places. */
module JsonOrder {
  import opened JsonDiff
  import opened JsonRecovery
  import opened LexOrder
  import opened OrderedKeys
  import opened Results

  /** The first different character decides; a proper prefix comes first. */
  ghost predicate KeyBefore(a: string, b: string) {
    exists k :: KeysPart(a, b, k)
  }

  predicate KeysPart(a: string, b: string, k: int) {
    0 <= k <= |a| && k < |b| && a[..k] == b[..k] && (k < |a| ==> a[k] < b[k])
  }

  /** Keys in character order, indices rising. */
  ghost predicate StepBefore(a: Step, b: Step) {
    match a
    case Key(k) => b.Key? && KeyBefore(k, b.key)
    case Index(i) => b.Index? && i < b.index
  }

  /** The first different step decides. */
  ghost predicate PathBefore(a: Path, b: Path) {
    exists k :: PathsPart(a, b, k)
  }

  ghost predicate PathsPart(a: Path, b: Path, k: int) {
    0 <= k < |a| && k < |b| && a[..k] == b[..k] && StepBefore(a[k], b[k])
  }

  ghost predicate Increasing(paths: seq<Path>) {
    forall i, j :: 0 <= i < j < |paths| ==> PathBefore(paths[i], paths[j])
  }

  /** Entry `i` is the entry of place `i`. */
  ghost predicate At(left: Json, right: Json, pointer: string, ds: seq<Difference>, paths: seq<Path>) {
    |ds| == |paths| && forall i :: 0 <= i < |ds| ==> EntryAt(left, right, pointer, ds[i], paths[i])
  }

  ghost predicate EntryAt(left: Json, right: Json, pointer: string, d: Difference, path: Path) {
    EntryPlace(left, right, path) && d == EntryFor(left, right, pointer, path)
  }

  lemma {:induction false} KeyOrder(a: string, b: string)
    requires StringLess(a, b)
    ensures KeyBefore(a, b)
  {
    if a == [] || a[0] != b[0] {
      assert KeysPart(a, b, 0);
    } else {
      KeyOrder(a[1..], b[1..]);
      var k :| KeysPart(a[1..], b[1..], k);
      assert a[..k + 1] == [a[0]] + a[1..][..k] && b[..k + 1] == [b[0]] + b[1..][..k];
      assert KeysPart(a, b, k + 1);
    }
  }

  lemma HeadsApart(a: Path, b: Path)
    requires a != [] && b != [] && StepBefore(a[0], b[0])
    ensures PathBefore(a, b)
  {
    assert PathsPart(a, b, 0);
  }

  lemma SameHead(step: Step, a: Path, b: Path)
    requires PathBefore(a, b)
    ensures PathBefore([step] + a, [step] + b)
  {
    var k :| PathsPart(a, b, k);
    assert ([step] + a)[..k + 1] == [step] + a[..k] && ([step] + b)[..k + 1] == [step] + b[..k];
    assert PathsPart([step] + a, [step] + b, k + 1);
  }

  /** All places below one step. */
  ghost predicate Through(step: Step, paths: seq<Path>) {
    forall i :: 0 <= i < |paths| ==> paths[i] != [] && paths[i][0] == step
  }

  function Prefixed(step: Step, paths: seq<Path>): (s: seq<Path>)
    ensures |s| == |paths| && forall i :: 0 <= i < |s| ==> s[i] == [step] + paths[i]
  {
    seq(|paths|, i requires 0 <= i < |paths| => [step] + paths[i])
  }

  lemma PrefixedIncreasing(step: Step, paths: seq<Path>)
    requires Increasing(paths)
    ensures Increasing(Prefixed(step, paths)) && Through(step, Prefixed(step, paths))
  {
    forall i, j | 0 <= i < j < |paths|
      ensures PathBefore(Prefixed(step, paths)[i], Prefixed(step, paths)[j])
    {
      SameHead(step, paths[i], paths[j]);
    }
  }

  lemma PrefixedAt(left: Json, right: Json, pointer: string, step: Step, ds: seq<Difference>, paths: seq<Path>)
    requires Siblings(left, right) && Child(left, step).Some? && Child(right, step).Some?
    requires At(Child(left, step).value, Child(right, step).value, StepChild(pointer, step), ds, paths)
    ensures At(left, right, pointer, ds, Prefixed(step, paths))
  {
    hide EntryFor, StepChild;
    forall i | 0 <= i < |ds|
      ensures EntryAt(left, right, pointer, ds[i], Prefixed(step, paths)[i])
    {
      assert EntryAt(Child(left, step).value, Child(right, step).value, StepChild(pointer, step), ds[i], paths[i]);
      EntryBelow(left, right, pointer, step, paths[i]);
      assert ([step] + paths[i])[1..] == paths[i];
    }
  }

  lemma JoinedAt(left: Json, right: Json, pointer: string, ds: seq<Difference>, es: seq<Difference>, ps: seq<Path>, qs: seq<Path>)
    requires At(left, right, pointer, ds, ps) && At(left, right, pointer, es, qs)
    ensures At(left, right, pointer, ds + es, ps + qs)
  {
    hide EntryAt;
  }

  lemma JoinedIncreasing(ps: seq<Path>, qs: seq<Path>)
    requires Increasing(ps) && Increasing(qs)
    requires forall i, j :: 0 <= i < |ps| && 0 <= j < |qs| ==> ps[i] != [] && qs[j] != [] && StepBefore(ps[i][0], qs[j][0])
    ensures Increasing(ps + qs)
  {
    hide PathBefore, StepBefore;
    forall i, j | 0 <= i < j < |ps + qs|
      ensures PathBefore((ps + qs)[i], (ps + qs)[j])
    {
      if i < |ps| <= j {
        HeadsApart(ps[i], qs[j - |ps|]);
      }
    }
  }

  /** The entries of a difference, with their places, which increase: keys in character order, indices rising. */
  lemma {:induction false} EntriesInOrder(left: Json, right: Json, pointer: string) returns (paths: seq<Path>)
    ensures At(left, right, pointer, Differences(left, right, pointer), paths) && Increasing(paths)
    decreases left, 2, 0
  {
    if !Siblings(left, right) {
      EmptyPath(left, right, pointer);
      paths := if left == right then [] else [[]];
    } else if left.Dict? {
      var all := left.members.Keys + right.members.Keys;
      StringOrder();
      SortedKeysIncrease(StringLess, all);
      paths := MembersInOrder(left, right, SortedStrings(all), pointer);
    } else {
      paths := ItemsInOrder(left, right, 0, pointer);
    }
  }

  lemma {:induction false} StepInOrder(left: Json, right: Json, step: Step, pointer: string) returns (paths: seq<Path>)
    requires Siblings(left, right) && HasStep(left, right, step)
    ensures At(left, right, pointer, StepDifference(left, right, step, pointer), paths) && Increasing(paths) && Through(step, paths)
    decreases left, 0, 0
  {
    hide Differences, StepDifference, EntryFor, PathBefore, StepChild;
    StepCases(left, right, step, pointer);
    var l, r := Child(left, step), Child(right, step);
    if l.Some? && r.Some? {
      var below := EntriesInOrder(l.value, r.value, StepChild(pointer, step));
      PrefixedIncreasing(step, below);
      PrefixedAt(left, right, pointer, step, Differences(l.value, r.value, StepChild(pointer, step)), below);
      paths := Prefixed(step, below);
    } else {
      EntryHere(left, right, pointer, step);
      assert [step][1..] == [];
      paths := [[step]];
    }
  }

  lemma {:induction false} MembersInOrder(left: Json, right: Json, keys: seq<string>, pointer: string) returns (paths: seq<Path>)
    requires left.Dict? && right.Dict? && forall k :: k in keys ==> k in left.members || k in right.members
    requires forall i, j :: 0 <= i < j < |keys| ==> StringLess(keys[i], keys[j])
    ensures At(left, right, pointer, MemberDifferences(left, right, keys, pointer), paths) && Increasing(paths)
    ensures forall i :: 0 <= i < |paths| ==> paths[i] != [] && paths[i][0].Key? && paths[i][0].key in keys
    decreases left, 1, |keys|
  {
    hide MemberDifference, KeyChild, Differences, At, PathBefore, KeyBefore, StringLess;
    if keys == [] {
      paths := [];
      NothingAt(left, right, pointer);
    } else {
      assert keys[0] in keys;
      var first: seq<Path> := StepInOrder(left, right, Key(keys[0]), pointer);
      var rest: seq<Path> := MembersInOrder(left, right, keys[1..], pointer);
      forall j | 0 <= j < |rest|
        ensures KeyBefore(keys[0], rest[j][0].key)
      {
        var k :| 0 <= k < |keys[1..]| && keys[1..][k] == rest[j][0].key;
        assert keys[k + 1] == rest[j][0].key;
        KeyOrder(keys[0], keys[k + 1]);
      }
      JoinedIncreasing(first, rest);
      JoinedAt(left, right, pointer, StepDifference(left, right, Key(keys[0]), pointer), MemberDifferences(left, right, keys[1..], pointer), first, rest);
      paths := first + rest;
    }
  }

  lemma NothingAt(left: Json, right: Json, pointer: string)
    ensures At(left, right, pointer, [], [])
  {
  }

  lemma {:induction false} ItemsInOrder(left: Json, right: Json, from: nat, pointer: string) returns (paths: seq<Path>)
    requires left.List? && right.List?
    ensures At(left, right, pointer, ItemDifferences(left, right, from, pointer), paths) && Increasing(paths)
    ensures forall i :: 0 <= i < |paths| ==> paths[i] != [] && paths[i][0].Index? && paths[i][0].index >= from
    decreases left, 1, |left.items| + |right.items| - from
  {
    hide ItemDifference, IndexChild, Differences, At, PathBefore;
    if from >= |left.items| && from >= |right.items| {
      paths := [];
      NothingAt(left, right, pointer);
    } else {
      var first: seq<Path> := StepInOrder(left, right, Index(from), pointer);
      var rest: seq<Path> := ItemsInOrder(left, right, from + 1, pointer);
      JoinedIncreasing(first, rest);
      JoinedAt(left, right, pointer, StepDifference(left, right, Index(from), pointer), ItemDifferences(left, right, from + 1, pointer), first, rest);
      paths := first + rest;
    }
  }
}
