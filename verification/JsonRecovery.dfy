/** What a structural difference tells its reader: which place each entry names, and when the old document and the
    entries together determine the new one. */
module JsonRecovery {
  import opened JsonDiff
  import opened LexOrder
  import opened OrderedKeys
  import opened Results

  // ---- Places -----------------------------------------------------------------------------

  /** Where an entry can stand: containers of one type all the way down to a place where the documents differ and
      are not both such containers. */
  ghost predicate EntryPlace(left: Json, right: Json, path: Path)
    decreases |path|
  {
    if path == [] then !Siblings(left, right) && left != right
    else
      && Siblings(left, right) && HasStep(left, right, path[0])
      && var l, r := Child(left, path[0]), Child(right, path[0]);
         if l.Some? && r.Some? then EntryPlace(l.value, r.value, path[1..]) else path[1..] == []
  }

  /** The entry for a place. */
  function EntryFor(left: Json, right: Json, pointer: string, path: Path): Difference {
    Difference(OrRoot(pointer + Render(path)), OrNull(Lookup(left, path)), OrNull(Lookup(right, path)))
  }

  lemma EntryBelow(left: Json, right: Json, pointer: string, step: Step, path: Path)
    requires Child(left, step).Some? && Child(right, step).Some?
    ensures EntryFor(left, right, pointer, [step] + path)
            == EntryFor(Child(left, step).value, Child(right, step).value, StepChild(pointer, step), path)
  {
    var whole := [step] + path;
    assert whole[1..] == path;
    assert pointer + Render(whole) == StepChild(pointer, step) + Render(path);
  }

  lemma EntryHere(left: Json, right: Json, pointer: string, step: Step)
    requires Child(left, step).Some? != Child(right, step).Some?
    ensures EntryFor(left, right, pointer, [step])
            == Difference(StepChild(pointer, step), OrNull(Child(left, step)), OrNull(Child(right, step)))
  {
    LookupOne(left, step);
    LookupOne(right, step);
    assert [step][1..] == [];
    assert Render([step]) == "/" + Token(step) + Render([]);
    assert pointer + Render([step]) == StepChild(pointer, step);
  }

  lemma LookupOne(doc: Json, step: Step)
    ensures Lookup(doc, [step]) == Child(doc, step)
  {
    assert [step][1..] == [];
  }

  lemma SplitPath(path: Path)
    requires path != []
    ensures path == [path[0]] + path[1..]
  {
  }

  /** Every entry stands at one of those places. */
  lemma {:induction false} EntryHasPlace(left: Json, right: Json, pointer: string, d: Difference) returns (path: Path)
    requires d in Differences(left, right, pointer)
    ensures EntryPlace(left, right, path) && d == EntryFor(left, right, pointer, path)
    decreases left
  {
    hide StepDifference, Lookup, Render;
    if !Siblings(left, right) {
      path := [];
      EmptyPath(left, right, pointer);
    } else {
      InSteps(left, right, pointer, d);
      var step :| HasStep(left, right, step) && d in StepDifference(left, right, step, pointer);
      StepCases(left, right, step, pointer);
      if Child(left, step).Some? && Child(right, step).Some? {
        var below := EntryHasPlace(Child(left, step).value, Child(right, step).value, StepChild(pointer, step), d);
        EntryBelow(left, right, pointer, step, below);
        path := [step] + below;
        assert path[1..] == below;
      } else {
        EntryHere(left, right, pointer, step);
        path := [step];
        assert path[1..] == [];
      }
    }
  }

  /** And every such place has its entry. */
  lemma {:induction false} PlaceHasEntry(left: Json, right: Json, pointer: string, path: Path)
    requires EntryPlace(left, right, path)
    ensures EntryFor(left, right, pointer, path) in Differences(left, right, pointer)
    decreases |path|
  {
    hide StepDifference, Lookup, Render;
    if path == [] {
      EmptyPath(left, right, pointer);
    } else {
      var step := path[0];
      SplitPath(path);
      StepCases(left, right, step, pointer);
      if Child(left, step).Some? && Child(right, step).Some? {
        PlaceHasEntry(Child(left, step).value, Child(right, step).value, StepChild(pointer, step), path[1..]);
        EntryBelow(left, right, pointer, step, path[1..]);
      } else {
        EntryHere(left, right, pointer, step);
        assert path == [step];
      }
      InSteps(left, right, pointer, EntryFor(left, right, pointer, path));
    }
  }

  lemma RenderUnder(pointer: string, step: Step, rest: Path)
    ensures Under(StepChild(pointer, step), OrRoot(pointer + Render([step] + rest)))
  {
    assert ([step] + rest)[1..] == rest;
    assert pointer + Render([step] + rest) == StepChild(pointer, step) + Render(rest);
    ReportUnder(StepChild(pointer, step), rest);
  }

  /** For one pair of documents a pointer names at most one place where an entry can stand. */
  lemma {:induction false} EntryPlaceUnique(left: Json, right: Json, pointer: string, a: Path, b: Path)
    requires EntryPlace(left, right, a) && EntryPlace(left, right, b)
    requires OrRoot(pointer + Render(a)) == OrRoot(pointer + Render(b))
    ensures a == b
    decreases |a|
  {
    hide Render, OrRoot, Token;
    if a == [] || b == [] {
    } else {
      SplitPath(a);
      SplitPath(b);
      RenderUnder(pointer, a[0], a[1..]);
      RenderUnder(pointer, b[0], b[1..]);
      TokensApart(pointer, Token(a[0]), Token(b[0]), OrRoot(pointer + Render(a)));
      TokenInjective(a[0], b[0]);
      var l, r := Child(left, a[0]), Child(right, a[0]);
      if l.Some? && r.Some? {
        PointerBelow(pointer, a);
        PointerBelow(pointer, b);
        EntryPlaceUnique(l.value, r.value, StepChild(pointer, a[0]), a[1..], b[1..]);
      }
    }
  }

  lemma PointerBelow(pointer: string, path: Path)
    requires path != []
    ensures OrRoot(pointer + Render(path)) == OrRoot(StepChild(pointer, path[0]) + Render(path[1..]))
  {
    assert pointer + Render(path) == StepChild(pointer, path[0]) + Render(path[1..]);
  }

  /** In one document two places have the same pointer only if they are the same, or one is the root and the other
      the member with the empty name: the root is written "/". */
  lemma {:induction false} PointerNamesPlace(doc: Json, a: Path, b: Path)
    requires Lookup(doc, a).Some? && Lookup(doc, b).Some?
    ensures OrRoot(Render(a)) == OrRoot(Render(b)) <==> a == b || Ambiguous(a, b) || Ambiguous(b, a)
  {
    RootPointer();
    if a != [] && b != [] {
      OnlyEmptyName(doc, a);
      OnlyEmptyName(doc, b);
      if Render(a) == Render(b) {
        RenderInjective(doc, a, b);
      }
    } else if a == [] && b != [] {
      OnlyEmptyName(doc, b);
    } else if a != [] && b == [] {
      OnlyEmptyName(doc, a);
    }
  }

  predicate Ambiguous(a: Path, b: Path) {
    a == [] && b == [Key("")]
  }

  lemma RootPointer()
    ensures Render([]) == "" && Render([Key("")]) == "/"
  {
    assert Escape("") == "";
    assert [Key("")][1..] == [];
    assert Render([Key("")]) == "/" + "" + "";
  }

  lemma OnlyEmptyName(doc: Json, path: Path)
    requires path != []
    ensures OrRoot(Render(path)) == Render(path) && (Render(path) == "/" <==> path == [Key("")])
  {
    RootPointer();
    var step := path[0];
    assert Render(path) == "/" + Token(step) + Render(path[1..]);
    if Render(path) == "/" {
      assert |Token(step)| == 0 && |Render(path[1..])| == 0;
      assert path[1..] == [];
      EmptyToken(step);
      assert path == [step];
    }
  }

  lemma EmptyToken(step: Step)
    requires Token(step) == ""
    ensures step == Key("")
  {
    if step.Key? {
      EscapeInjective(step.key, "");
      assert Escape("") == "";
    }
  }

  lemma {:induction false} RenderInjective(doc: Json, a: Path, b: Path)
    requires Lookup(doc, a).Some? && Lookup(doc, b).Some? && Render(a) == Render(b)
    ensures a == b
    decreases |a|
  {
    hide Token;
    if a == [] || b == [] {
    } else {
      SplitPath(a);
      SplitPath(b);
      RenderHead(a);
      RenderHead(b);
      assert "" + Render(a) == Render(a) && "" + Render(b) == Render(b);
      RestUnder("", a);
      RestUnder("", b);
      TokensApart("", Token(a[0]), Token(b[0]), Render(a));
      TokenInjective(a[0], b[0]);
      assert Render(a)[1 + |Token(a[0])|..] == Render(a[1..]);
      assert Render(b)[1 + |Token(b[0])|..] == Render(b[1..]);
      RenderInjective(Child(doc, a[0]).value, a[1..], b[1..]);
    }
  }

  lemma RenderHead(path: Path)
    requires path != []
    ensures Render(path) == "/" + Token(path[0]) + Render(path[1..])
    ensures Render(path[1..]) == "" || Render(path[1..])[0] == '/'
  {
  }

  lemma UnderConcat(base: string, rest: string)
    requires rest == "" || rest[0] == '/'
    ensures Under(base, base + rest)
  {
  }

  lemma RestUnder(pointer: string, path: Path)
    requires path != []
    ensures Under(pointer + "/" + Token(path[0]), pointer + Render(path))
  {
    hide Render, Token, Under;
    RenderHead(path);
    UnderConcat(pointer + "/" + Token(path[0]), Render(path[1..]));
    assert pointer + Render(path) == pointer + "/" + Token(path[0]) + Render(path[1..]);
  }

  // ---- When two new documents give the same entries ---------------------------------------

  /** `a` and `b` are the same seen from `left`: equal, except that where `left` has a value other than null, a
      member or trailing item may be absent from one and null in the other. */
  ghost predicate Alike(left: Json, a: Json, b: Json)
    decreases left, 1
  {
    || a == b
    || (Siblings(left, a) && Siblings(left, b) && forall step :: AlikeAt(left, a, b, step))
  }

  ghost predicate AlikeAt(left: Json, a: Json, b: Json, step: Step)
    decreases left, 0
  {
    var x, y := Child(a, step), Child(b, step);
    match Child(left, step)
    case None => x == y
    case Some(v) =>
      if x.Some? && y.Some? then Alike(v, x.value, y.value)
      else x == y || (v != Null && OrNull(x) == OrNull(y) == Null)
  }

  // ---- Entries below one step -------------------------------------------------------------

  function Below(ds: seq<Difference>, base: string): seq<Difference> {
    if ds == [] then [] else (if Under(base, ds[0].pointer) then [ds[0]] else []) + Below(ds[1..], base)
  }

  lemma BelowHead(d: Difference, ds: seq<Difference>, base: string)
    ensures Below([d] + ds, base) == (if Under(base, d.pointer) then [d] else []) + Below(ds, base)
  {
    hide Under;
    assert ([d] + ds)[1..] == ds;
  }

  lemma ConcatAssociates(a: seq<Difference>, b: seq<Difference>, c: seq<Difference>)
    ensures (a + b) + c == a + (b + c)
  {
  }

  lemma {:induction false} BelowConcat(a: seq<Difference>, b: seq<Difference>, base: string)
    ensures Below(a + b, base) == Below(a, base) + Below(b, base)
    decreases |a|
  {
    if a == [] {
      assert a + b == b;
      assert [] + Below(b, base) == Below(b, base);
    } else {
      hide Under, Below;
      BelowConcat(a[1..], b, base);
      assert a == [a[0]] + a[1..];
      ConcatAssociates([a[0]], a[1..], b);
      BelowHead(a[0], a[1..], base);
      BelowHead(a[0], a[1..] + b, base);
      ConcatAssociates(if Under(base, a[0].pointer) then [a[0]] else [], Below(a[1..], base), Below(b, base));
    }
  }

  lemma {:induction false} BelowAll(ds: seq<Difference>, base: string)
    requires AllUnder(ds, base)
    ensures Below(ds, base) == ds
  {
    hide Under;
    if ds == [] {
    } else {
      assert ds[0] in ds;
      BelowAll(ds[1..], base);
    }
  }

  lemma {:induction false} BelowNone(ds: seq<Difference>, base: string)
    requires forall d :: d in ds ==> !Under(base, d.pointer)
    ensures Below(ds, base) == []
  {
    hide Under;
    if ds == [] {
    } else {
      assert ds[0] in ds;
      BelowNone(ds[1..], base);
    }
  }

  /** What one step contributes, if either document has it. */
  function StepOr(left: Json, right: Json, step: Step, pointer: string): seq<Difference>
    requires Siblings(left, right)
  {
    if Child(left, step).Some? || Child(right, step).Some? then StepDifference(left, right, step, pointer) else []
  }

  predicate SameKind(a: Step, b: Step) {
    a.Key? == b.Key?
  }

  /** A step's entries are all below it, and none of another step's is. */
  lemma StepBelow(left: Json, right: Json, step: Step, other: Step, pointer: string)
    requires Siblings(left, right) && HasStep(left, right, other) && SameKind(step, other)
    ensures Below(StepDifference(left, right, other, pointer), StepChild(pointer, step))
            == if other == step then StepDifference(left, right, step, pointer) else []
  {
    hide StepDifference, Token, Under;
    StepUnder(left, right, other, pointer);
    var ds := StepDifference(left, right, other, pointer);
    if other == step {
      BelowAll(ds, StepChild(pointer, step));
    } else {
      forall d | d in ds
        ensures !Under(StepChild(pointer, step), d.pointer)
      {
        if Under(StepChild(pointer, step), d.pointer) {
          TokensApart(pointer, Token(step), Token(other), d.pointer);
          TokenInjective(step, other);
        }
      }
      BelowNone(ds, StepChild(pointer, step));
    }
  }

  lemma {:induction false} MembersBelow(left: Json, right: Json, keys: seq<string>, pointer: string, key: string)
    requires left.Dict? && right.Dict? && forall k :: k in keys ==> k in left.members || k in right.members
    requires forall i, j :: 0 <= i < j < |keys| ==> keys[i] != keys[j]
    ensures Below(MemberDifferences(left, right, keys, pointer), StepChild(pointer, Key(key)))
            == if key in keys then StepDifference(left, right, Key(key), pointer) else []
    decreases |keys|
  {
    hide MemberDifference, KeyChild, Below, StepChild;
    var base := StepChild(pointer, Key(key));
    if keys == [] {
      BelowNone([], base);
    } else {
      var first := keys[0];
      assert first in keys;
      MembersBelow(left, right, keys[1..], pointer, key);
      BelowConcat(StepDifference(left, right, Key(first), pointer), MemberDifferences(left, right, keys[1..], pointer), base);
      StepBelow(left, right, Key(key), Key(first), pointer);
      assert key in keys <==> key == first || key in keys[1..];
      assert first !in keys[1..];
    }
  }

  lemma {:induction false} ItemsBelow(left: Json, right: Json, from: nat, pointer: string, index: nat)
    requires left.List? && right.List?
    ensures Below(ItemDifferences(left, right, from, pointer), StepChild(pointer, Index(index)))
            == if index >= from && (index < |left.items| || index < |right.items|) then StepDifference(left, right, Index(index), pointer)
               else []
    decreases |left.items| + |right.items| - from
  {
    hide ItemDifference, IndexChild, Below, StepChild;
    var base := StepChild(pointer, Index(index));
    if from >= |left.items| && from >= |right.items| {
      BelowNone([], base);
    } else {
      ItemsBelow(left, right, from + 1, pointer, index);
      BelowConcat(StepDifference(left, right, Index(from), pointer), ItemDifferences(left, right, from + 1, pointer), base);
      StepBelow(left, right, Index(index), Index(from), pointer);
    }
  }

  /** The kind of step a container has. */
  predicate Fits(left: Json, step: Step) {
    if left.Dict? then step.Key? else step.Index?
  }

  /** A step's contribution can be read off the difference of the containers. */
  lemma StepRecovered(left: Json, right: Json, step: Step, pointer: string)
    requires Siblings(left, right) && Fits(left, step)
    ensures Below(Differences(left, right, pointer), StepChild(pointer, step)) == StepOr(left, right, step, pointer)
  {
    hide Below, StepDifference, MemberDifferences, ItemDifferences, StepChild;
    if left.Dict? {
      var all := left.members.Keys + right.members.Keys;
      StringOrder();
      SortedKeysDistinct(all);
      MembersBelow(left, right, SortedStrings(all), pointer, step.key);
    } else {
      ItemsBelow(left, right, 0, pointer, step.index);
    }
  }

  lemma SortedKeysDistinct(keys: set<string>)
    requires StrictTotal(StringLess)
    ensures forall i, j :: 0 <= i < j < |SortedStrings(keys)| ==> SortedStrings(keys)[i] != SortedStrings(keys)[j]
  {
    SortedKeysIncrease(StringLess, keys);
  }

  // ---- Containers -------------------------------------------------------------------------

  lemma {:induction false} MembersSame(left: Json, a: Json, b: Json, keys: seq<string>, pointer: string)
    requires left.Dict? && a.Dict? && b.Dict?
    requires forall k :: k in keys ==> (k in left.members || k in a.members) && (k in left.members || k in b.members)
    requires forall k :: k in keys ==> StepOr(left, a, Key(k), pointer) == StepOr(left, b, Key(k), pointer)
    ensures MemberDifferences(left, a, keys, pointer) == MemberDifferences(left, b, keys, pointer)
    decreases |keys|
  {
    hide MemberDifference, KeyChild;
    if keys == [] {
    } else {
      var first := keys[0];
      assert first in keys;
      assert StepOr(left, a, Key(first), pointer) == StepOr(left, b, Key(first), pointer);
      MembersSame(left, a, b, keys[1..], pointer);
    }
  }

  function Longer(m: nat, n: nat): nat {
    if m >= n then m else n
  }

  lemma {:induction false} ItemsSame(left: Json, a: Json, b: Json, from: nat, pointer: string)
    requires left.List? && a.List? && b.List?
    requires Longer(|left.items|, |a.items|) == Longer(|left.items|, |b.items|)
    requires forall i: nat :: StepOr(left, a, Index(i), pointer) == StepOr(left, b, Index(i), pointer)
    ensures ItemDifferences(left, a, from, pointer) == ItemDifferences(left, b, from, pointer)
    decreases |left.items| + |a.items| - from
  {
    hide ItemDifference, IndexChild;
    if from >= |left.items| && from >= |a.items| {
    } else {
      assert StepOr(left, a, Index(from), pointer) == StepOr(left, b, Index(from), pointer);
      ItemsSame(left, a, b, from + 1, pointer);
    }
  }

  /** A step that only one document has contributes something. */
  lemma StepSpeaks(left: Json, right: Json, step: Step, pointer: string)
    requires Siblings(left, right) && Child(left, step).None? && Child(right, step).Some?
    ensures StepOr(left, right, step, pointer) != []
  {
    StepCases(left, right, step, pointer);
  }

  lemma StepsAgree(left: Json, a: Json, b: Json, pointer: string, step: Step)
    requires Siblings(left, a) && Siblings(left, b)
    requires StepOr(left, a, step, pointer) == StepOr(left, b, step, pointer)
    ensures (Child(left, step).Some? || Child(a, step).Some?) <==> (Child(left, step).Some? || Child(b, step).Some?)
  {
    hide StepDifference;
    if Child(left, step).None? && Child(a, step).Some? {
      StepSpeaks(left, a, step, pointer);
    }
    if Child(left, step).None? && Child(b, step).Some? {
      StepSpeaks(left, b, step, pointer);
    }
  }

  /** Containers differ alike exactly when every step does. */
  lemma SameSteps(left: Json, a: Json, b: Json, pointer: string)
    requires Siblings(left, a) && Siblings(left, b)
    ensures Differences(left, a, pointer) == Differences(left, b, pointer)
            <==> forall step :: Fits(left, step) ==> StepOr(left, a, step, pointer) == StepOr(left, b, step, pointer)
  {
    hide StepOr, Differences, StepChild;
    if Differences(left, a, pointer) == Differences(left, b, pointer) {
      forall step | Fits(left, step)
        ensures StepOr(left, a, step, pointer) == StepOr(left, b, step, pointer)
      {
        StepRecovered(left, a, step, pointer);
        StepRecovered(left, b, step, pointer);
      }
    }
    if forall step :: Fits(left, step) ==> StepOr(left, a, step, pointer) == StepOr(left, b, step, pointer) {
      SameFromSteps(left, a, b, pointer);
    }
  }

  lemma LengthsAgree(left: Json, a: Json, b: Json, pointer: string)
    requires left.List? && a.List? && b.List?
    requires forall step :: Fits(left, step) ==> StepOr(left, a, step, pointer) == StepOr(left, b, step, pointer)
    ensures Longer(|left.items|, |a.items|) == Longer(|left.items|, |b.items|)
  {
    hide StepOr;
    var l, m, n := |left.items|, |a.items|, |b.items|;
    if m > l && m > n {
      assert Fits(left, Index(m - 1));
      StepsAgree(left, a, b, pointer, Index(m - 1));
    } else if n > l && n > m {
      assert Fits(left, Index(n - 1));
      StepsAgree(left, a, b, pointer, Index(n - 1));
    }
  }

  lemma SameFromSteps(left: Json, a: Json, b: Json, pointer: string)
    requires Siblings(left, a) && Siblings(left, b)
    requires forall step :: Fits(left, step) ==> StepOr(left, a, step, pointer) == StepOr(left, b, step, pointer)
    ensures Differences(left, a, pointer) == Differences(left, b, pointer)
  {
    hide StepOr, MemberDifferences, ItemDifferences;
    if left.Dict? {
      forall k
        ensures (k in left.members || k in a.members) <==> (k in left.members || k in b.members)
        ensures StepOr(left, a, Key(k), pointer) == StepOr(left, b, Key(k), pointer)
      {
        assert Fits(left, Key(k));
        StepsAgree(left, a, b, pointer, Key(k));
      }
      assert left.members.Keys + a.members.Keys == left.members.Keys + b.members.Keys;
      MembersSame(left, a, b, SortedStrings(left.members.Keys + a.members.Keys), pointer);
    } else {
      LengthsAgree(left, a, b, pointer);
      forall i: nat
        ensures StepOr(left, a, Index(i), pointer) == StepOr(left, b, Index(i), pointer)
      {
        assert Fits(left, Index(i));
      }
      ItemsSame(left, a, b, 0, pointer);
    }
  }

  // ---- The condition ----------------------------------------------------------------------

  /** A value below a document is smaller than the document. */
  lemma {:induction false} LookupSmaller(doc: Json, path: Path)
    requires Lookup(doc, path).Some?
    ensures path == [] || Lookup(doc, path).value < doc
    decreases |path|
  {
    if path == [] {
    } else {
      ChildSmaller(doc, path[0]);
      LookupSmaller(Child(doc, path[0]).value, path[1..]);
      assert path[1..] == [] ==> Lookup(doc, path) == Child(doc, path[0]);
    }
  }

  lemma ChildSmaller(doc: Json, step: Step)
    requires Child(doc, step).Some?
    ensures Child(doc, step).value < doc
  {
  }

  /** No entry of a container reports the container itself as the old value. */
  lemma NotTheWhole(left: Json, right: Json, pointer: string, d: Difference)
    requires Siblings(left, right) && d in Differences(left, right, pointer)
    ensures d.before != left
  {
    hide Differences;
    var path := EntryHasPlace(left, right, pointer, d);
    if Lookup(left, path).Some? {
      LookupSmaller(left, path);
    }
  }

  /** A value reported as gone, against a value compared with what is there now. */
  lemma NullReport(v: Json, y: Json, pointer: string)
    requires pointer != ""
    ensures Differences(v, y, pointer) == [Difference(pointer, v, Null)] <==> y == Null && v != Null
  {
    hide MemberDifferences, ItemDifferences;
    if Siblings(v, y) {
      var ds := Differences(v, y, pointer);
      if ds == [Difference(pointer, v, Null)] {
        assert ds[0] in ds;
        NotTheWhole(v, y, pointer, ds[0]);
      }
    }
  }

  /** Two new documents give the same entries against an old one exactly when they are alike from it. */
  lemma {:induction false} SameDifferences(left: Json, a: Json, b: Json, pointer: string)
    ensures Differences(left, a, pointer) == Differences(left, b, pointer) <==> Alike(left, a, b)
    decreases left, 1
  {
    hide MemberDifferences, ItemDifferences, StepOr, AlikeAt;
    if a == b {
    } else if Siblings(left, a) && Siblings(left, b) {
      SameSteps(left, a, b, pointer);
      forall step
        ensures AlikeAt(left, a, b, step) <==> (Fits(left, step) ==> StepOr(left, a, step, pointer) == StepOr(left, b, step, pointer))
      {
        if Fits(left, step) {
          SameAtStep(left, a, b, step, pointer);
        } else {
          NothingThere(left, a, b, step);
        }
      }
    } else if Siblings(left, a) {
      OneContainer(left, a, b, pointer);
    } else if Siblings(left, b) {
      OneContainer(left, b, a, pointer);
    } else {
    }
  }

  lemma NothingThere(left: Json, a: Json, b: Json, step: Step)
    requires Siblings(left, a) && Siblings(left, b) && !Fits(left, step)
    ensures AlikeAt(left, a, b, step)
  {
  }

  lemma OneContainer(left: Json, a: Json, b: Json, pointer: string)
    requires Siblings(left, a) && !Siblings(left, b)
    ensures Differences(left, a, pointer) != Differences(left, b, pointer)
  {
    hide MemberDifferences, ItemDifferences;
    var d := Difference(OrRoot(pointer), left, b);
    assert Differences(left, b, pointer) == [d];
    if d in Differences(left, a, pointer) {
      NotTheWhole(left, a, pointer, d);
    }
    assert d in Differences(left, b, pointer);
  }

  lemma {:induction false} SameAtStep(left: Json, a: Json, b: Json, step: Step, pointer: string)
    requires Siblings(left, a) && Siblings(left, b)
    ensures StepOr(left, a, step, pointer) == StepOr(left, b, step, pointer) <==> AlikeAt(left, a, b, step)
    decreases left, 0
  {
    hide StepDifference, Differences, Alike, Token;
    var v, x, y := Child(left, step), Child(a, step), Child(b, step);
    var child := StepChild(pointer, step);
    if v.Some? || x.Some? {
      StepCases(left, a, step, pointer);
    }
    if v.Some? || y.Some? {
      StepCases(left, b, step, pointer);
    }
    if v.Some? {
      ChildSmaller(left, step);
      if x.Some? && y.Some? {
        SameDifferences(v.value, x.value, y.value, child);
      } else if x.Some? {
        NullReport(v.value, x.value, child);
      } else if y.Some? {
        NullReport(v.value, y.value, child);
      }
    }
  }

  // ---- What a reader may rely on ----------------------------------------------------------

  /** No null anywhere. */
  ghost predicate NullFree(doc: Json) {
    doc != Null && forall step :: Child(doc, step).Some? ==> NullFree(Child(doc, step).value)
  }

  lemma {:induction false} AlikeNullFree(left: Json, a: Json, b: Json)
    requires Alike(left, a, b) && NullFree(a) && NullFree(b)
    ensures a == b
    decreases left
  {
    if a != b {
      forall step
        ensures Child(a, step) == Child(b, step)
      {
        assert AlikeAt(left, a, b, step);
        var v, x, y := Child(left, step), Child(a, step), Child(b, step);
        if v.Some? && x.Some? && y.Some? {
          ChildSmaller(left, step);
          AlikeNullFree(v.value, x.value, y.value);
        }
      }
      SameChildren(a, b);
    }
  }

  /** Among documents without null, the old document and the entries determine the new one. */
  lemma NullFreeDetermined(left: Json, a: Json, b: Json, pointer: string)
    requires NullFree(a) && NullFree(b)
    ensures Differences(left, a, pointer) == Differences(left, b, pointer) <==> a == b
  {
    hide *;
    SameDifferences(left, a, b, pointer);
    if Differences(left, a, pointer) == Differences(left, b, pointer) {
      AlikeNullFree(left, a, b);
    }
  }

  /** Removing a member and setting it to null are reported alike, whatever the member was. */
  lemma RemovalLooksLikeNull(left: Json, key: string, pointer: string)
    requires left.Dict? && key in left.members && left.members[key] != Null
    ensures var removed, nulled := Dict(left.members - {key}), Dict(left.members[key := Null]);
            && removed != nulled
            && Differences(left, removed, pointer) == Differences(left, nulled, pointer) != []
  {
    hide Differences;
    var removed, nulled := Dict(left.members - {key}), Dict(left.members[key := Null]);
    assert key !in removed.members && key in nulled.members;
    forall step
      ensures AlikeAt(left, removed, nulled, step)
    {
      if step.Key? && step.key != key {
        assert Child(removed, step) == Child(nulled, step);
      }
    }
    SameDifferences(left, removed, nulled, pointer);
    EmptyIffIdentical(left, removed, pointer);
  }
}
