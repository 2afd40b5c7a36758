/** The structural difference of two JSON documents, with RFC 6901 section 3 pointers. */
module JsonDiff {
  import opened Decimal
  import opened LexOrder
  import opened OrderedKeys
  import opened Results

  /** Parsed documents; numbers keep Python's distinction between integers and floats, and are finite. */
  datatype Json =
    | Null | Bool(b: bool) | Int(n: int) | Float(x: real) | Str(s: string)
    | List(items: seq<Json>) | Dict(members: map<string, Json>)

  datatype Difference = Difference(pointer: string, before: Json, after: Json)

  predicate SameType(a: Json, b: Json) {
    match a
    case Null => b.Null?
    case Bool(_) => b.Bool?
    case Int(_) => b.Int?
    case Float(_) => b.Float?
    case Str(_) => b.Str?
    case List(_) => b.List?
    case Dict(_) => b.Dict?
  }

  // ---- Pointers ---------------------------------------------------------------------------

  function Replace(s: string, c: char, with: string): string {
    if s == "" then "" else (if s[0] == c then with else [s[0]]) + Replace(s[1..], c, with)
  }

  /** `~` becomes `~0`, then `/` becomes `~1`. */
  function Escape(key: string): string {
    Replace(Replace(key, '~', "~0"), '/', "~1")
  }

  /** One pass doing both replacements at once. */
  function EscapeOnce(key: string): (s: string)
    ensures '/' !in s
  {
    if key == "" then ""
    else (if key[0] == '~' then "~0" else if key[0] == '/' then "~1" else [key[0]]) + EscapeOnce(key[1..])
  }

  lemma ReplaceNothing(c: char, with: string)
    ensures Replace("", c, with) == ""
  {
  }

  lemma ReplaceHead(s: string, c: char, with: string)
    requires s != ""
    ensures Replace(s, c, with) == (if s[0] == c then with else [s[0]]) + Replace(s[1..], c, with)
  {
  }

  lemma ConcatAssociates(a: string, b: string, c: string)
    ensures (a + b) + c == a + (b + c)
  {
  }

  lemma {:induction false} ReplaceConcat(a: string, b: string, c: char, with: string)
    ensures Replace(a + b, c, with) == Replace(a, c, with) + Replace(b, c, with)
  {
    hide Replace;
    var y := Replace(b, c, with);
    if a == "" {
      assert a + b == b;
      ReplaceNothing(c, with);
      assert "" + y == y;
    } else {
      ReplaceConcat(a[1..], b, c, with);
      ReplaceHead(a, c, with);
      ReplaceHead(a + b, c, with);
      assert (a + b)[0] == a[0] && (a + b)[1..] == a[1..] + b;
      ConcatAssociates(if a[0] == c then with else [a[0]], Replace(a[1..], c, with), y);
    }
  }

  /** What one character becomes, one replacement after the other. */
  lemma EscapeOfOne(x: char)
    ensures Replace(if x == '~' then "~0" else [x], '/', "~1") == if x == '~' then "~0" else if x == '/' then "~1" else [x]
  {
    var s := if x == '~' then "~0" else [x];
    hide Replace;
    ReplaceHead(s, '/', "~1");
    ReplaceNothing('/', "~1");
    if x == '~' {
      ReplaceHead("0", '/', "~1");
      assert s[1..] == "0" && "0"[1..] == "";
    } else {
      assert s[1..] == "";
    }
  }

  lemma {:induction false} EscapeIsOnePass(key: string)
    ensures Escape(key) == EscapeOnce(key)
  {
    hide Replace;
    ReplaceNothing('~', "~0");
    ReplaceNothing('/', "~1");
    if key == "" {
    } else {
      ReplaceHead(key, '~', "~0");
      EscapeIsOnePass(key[1..]);
      ReplaceConcat(if key[0] == '~' then "~0" else [key[0]], Replace(key[1..], '~', "~0"), '/', "~1");
      EscapeOfOne(key[0]);
    }
  }

  lemma {:induction false} EscapeOnceInjective(a: string, b: string)
    requires EscapeOnce(a) == EscapeOnce(b)
    ensures a == b
  {
    if a == "" || b == "" {
    } else {
      var ea, eb := EscapeOnce(a), EscapeOnce(b);
      assert ea[0] == eb[0];
      if ea[0] == '~' {
        assert ea[1] == eb[1];
        assert EscapeOnce(a[1..]) == ea[2..] && EscapeOnce(b[1..]) == eb[2..];
      } else {
        assert EscapeOnce(a[1..]) == ea[1..] && EscapeOnce(b[1..]) == eb[1..];
      }
      EscapeOnceInjective(a[1..], b[1..]);
    }
  }

  /** Different keys give different tokens, and no token contains the separator. */
  lemma EscapeInjective(a: string, b: string)
    ensures Escape(a) == Escape(b) ==> a == b
    ensures '/' !in Escape(a)
  {
    EscapeIsOnePass(a);
    EscapeIsOnePass(b);
    if Escape(a) == Escape(b) {
      EscapeOnceInjective(a, b);
    }
  }

  // ---- Keys in order ----------------------------------------------------------------------

  predicate CharLess(a: char, b: char) {
    a < b
  }

  predicate StringLess(a: string, b: string) {
    LexLess(CharLess, a, b)
  }

  lemma StringOrder()
    ensures StrictTotal(StringLess)
  {
    LexExtends(CharLess, StringLess);
  }

  /** `sorted(keys)`. */
  function SortedStrings(keys: set<string>): (s: seq<string>)
    ensures forall k :: k in s <==> k in keys
  {
    StringOrder();
    SortedKeys(StringLess, keys)
  }

  // ---- The difference ---------------------------------------------------------------------

  function OrRoot(pointer: string): string {
    if pointer == "" then "/" else pointer
  }

  function KeyChild(pointer: string, key: string): string {
    pointer + "/" + Escape(key)
  }

  function IndexChild(pointer: string, index: nat): string {
    pointer + "/" + Show(index)
  }

  /** `candidate_difference`. */
  function Differences(left: Json, right: Json, pointer: string): seq<Difference>
    decreases left, 1, 0
  {
    if !SameType(left, right) then [Difference(OrRoot(pointer), left, right)]
    else if left.Dict? then MemberDifferences(left, right, SortedStrings(left.members.Keys + right.members.Keys), pointer)
    else if left.List? then ItemDifferences(left, right, 0, pointer)
    else if left == right then []
    else [Difference(OrRoot(pointer), left, right)]
  }

  function MemberDifferences(left: Json, right: Json, keys: seq<string>, pointer: string): seq<Difference>
    requires left.Dict? && right.Dict? && forall k :: k in keys ==> k in left.members || k in right.members
    decreases left, 0, |keys|
  {
    if keys == [] then []
    else
      assert keys[0] in keys;
      MemberDifference(left, right, keys[0], KeyChild(pointer, keys[0])) + MemberDifferences(left, right, keys[1..], pointer)
  }

  function MemberDifference(left: Json, right: Json, key: string, child: string): seq<Difference>
    requires left.Dict? && right.Dict? && (key in left.members || key in right.members)
    decreases left, 0, 0
  {
    if key !in left.members then [Difference(child, Null, right.members[key])]
    else if key !in right.members then [Difference(child, left.members[key], Null)]
    else Differences(left.members[key], right.members[key], child)
  }

  /** The loop over `range(max(len(left), len(right)))`, from `index` on. */
  function ItemDifferences(left: Json, right: Json, index: nat, pointer: string): seq<Difference>
    requires left.List? && right.List?
    decreases left, 0, |left.items| + |right.items| - index
  {
    if index >= |left.items| && index >= |right.items| then []
    else ItemDifference(left, right, index, IndexChild(pointer, index)) + ItemDifferences(left, right, index + 1, pointer)
  }

  function ItemDifference(left: Json, right: Json, index: nat, child: string): seq<Difference>
    requires left.List? && right.List? && (index < |left.items| || index < |right.items|)
    decreases left, 0, 0
  {
    if index >= |left.items| then [Difference(child, Null, right.items[index])]
    else if index >= |right.items| then [Difference(child, left.items[index], Null)]
    else Differences(left.items[index], right.items[index], child)
  }

  // ---- Places in a document ---------------------------------------------------------------

  datatype Step = Key(key: string) | Index(index: nat)
  type Path = seq<Step>

  function Token(step: Step): (t: string)
    ensures '/' !in t
  {
    match step
    case Key(key) => EscapeInjective(key, key); Escape(key)
    case Index(index) => Show(index)
  }

  /** The pointer of a path. */
  function Render(path: Path): string {
    if path == [] then "" else "/" + Token(path[0]) + Render(path[1..])
  }

  function Child(doc: Json, step: Step): Option<Json> {
    match step
    case Key(key) => if doc.Dict? && key in doc.members then Some(doc.members[key]) else None
    case Index(index) => if doc.List? && index < |doc.items| then Some(doc.items[index]) else None
  }

  /** The value at a path, if the document has that place. */
  function Lookup(doc: Json, path: Path): Option<Json>
    decreases |path|
  {
    if path == [] then Some(doc)
    else
      var child := Child(doc, path[0]);
      if child.None? then None else Lookup(child.value, path[1..])
  }

  /** An absent value is reported as null. */
  function OrNull(value: Option<Json>): Json {
    if value.None? then Null else value.value
  }

  /** `d` reports the place `path`, where the two documents differ. */
  ghost predicate Reports(left: Json, right: Json, pointer: string, d: Difference, path: Path) {
    && d == Difference(OrRoot(pointer + Render(path)), OrNull(Lookup(left, path)), OrNull(Lookup(right, path)))
    && Lookup(left, path) != Lookup(right, path)
  }

  // ---- One level --------------------------------------------------------------------------

  ghost predicate Siblings(left: Json, right: Json) {
    (left.Dict? && right.Dict?) || (left.List? && right.List?)
  }

  ghost predicate HasStep(left: Json, right: Json, step: Step) {
    Child(left, step).Some? || Child(right, step).Some?
  }

  /** What the loops contribute for one key or index. */
  function StepDifference(left: Json, right: Json, step: Step, pointer: string): seq<Difference>
    requires Siblings(left, right) && HasStep(left, right, step)
  {
    match step
    case Key(key) => MemberDifference(left, right, key, KeyChild(pointer, key))
    case Index(index) => ItemDifference(left, right, index, IndexChild(pointer, index))
  }

  lemma {:induction false} InMembers(left: Json, right: Json, keys: seq<string>, pointer: string, d: Difference)
    requires left.Dict? && right.Dict? && forall k :: k in keys ==> k in left.members || k in right.members
    ensures d in MemberDifferences(left, right, keys, pointer)
            <==> exists k :: k in keys && d in MemberDifference(left, right, k, KeyChild(pointer, k))
    decreases |keys|
  {
    hide MemberDifference, KeyChild;
    if keys == [] {
    } else {
      assert keys[0] in keys;
      InMembers(left, right, keys[1..], pointer, d);
      assert forall k :: k in keys <==> k == keys[0] || k in keys[1..];
    }
  }

  lemma {:induction false} InItems(left: Json, right: Json, from: nat, pointer: string, d: Difference)
    requires left.List? && right.List?
    ensures d in ItemDifferences(left, right, from, pointer)
            <==> exists i: nat :: i >= from && (i < |left.items| || i < |right.items|) && d in ItemDifference(left, right, i, IndexChild(pointer, i))
    decreases |left.items| + |right.items| - from
  {
    hide ItemDifference, IndexChild;
    if from >= |left.items| && from >= |right.items| {
    } else {
      InItems(left, right, from + 1, pointer, d);
    }
  }

  /** A container's differences are those of its keys or indices. */
  lemma InSteps(left: Json, right: Json, pointer: string, d: Difference)
    requires Siblings(left, right)
    ensures d in Differences(left, right, pointer)
            <==> exists step :: HasStep(left, right, step) && d in StepDifference(left, right, step, pointer)
  {
    hide MemberDifference, ItemDifference, KeyChild, IndexChild, MemberDifferences, ItemDifferences;
    if left.Dict? {
      var keys := SortedStrings(left.members.Keys + right.members.Keys);
      InMembers(left, right, keys, pointer, d);
      if d in Differences(left, right, pointer) {
        var k :| k in keys && d in MemberDifference(left, right, k, KeyChild(pointer, k));
        assert HasStep(left, right, Key(k)) && d in StepDifference(left, right, Key(k), pointer);
      }
      if step :| HasStep(left, right, step) && d in StepDifference(left, right, step, pointer) {
        assert step.Key? && step.key in keys;
      }
    } else {
      InItems(left, right, 0, pointer, d);
      if d in Differences(left, right, pointer) {
        var i: nat :| (i < |left.items| || i < |right.items|) && d in ItemDifference(left, right, i, IndexChild(pointer, i));
        assert HasStep(left, right, Index(i)) && d in StepDifference(left, right, Index(i), pointer);
      }
      if step :| HasStep(left, right, step) && d in StepDifference(left, right, step, pointer) {
        assert step.Index?;
      }
    }
  }

  function StepChild(pointer: string, step: Step): string {
    pointer + "/" + Token(step)
  }

  /** One step contributes a report of its own place, or the differences below it. */
  lemma StepCases(left: Json, right: Json, step: Step, pointer: string)
    requires Siblings(left, right) && HasStep(left, right, step)
    ensures StepDifference(left, right, step, pointer)
            == var l, r := Child(left, step), Child(right, step);
               if l.Some? && r.Some? then Differences(l.value, r.value, StepChild(pointer, step))
               else [Difference(StepChild(pointer, step), OrNull(l), OrNull(r))]
  {
  }

  /** Reports below a step are reports of the container. */
  lemma ReportsBelow(left: Json, right: Json, pointer: string, step: Step, d: Difference, path: Path)
    requires Child(left, step).Some? && Child(right, step).Some?
    ensures Reports(Child(left, step).value, Child(right, step).value, StepChild(pointer, step), d, path)
            <==> Reports(left, right, pointer, d, [step] + path)
  {
    var whole := [step] + path;
    assert whole[1..] == path;
    assert pointer + Render(whole) == StepChild(pointer, step) + Render(path);
  }

  lemma ReportsHere(left: Json, right: Json, pointer: string, step: Step)
    requires Child(left, step).Some? != Child(right, step).Some?
    ensures Reports(left, right, pointer,
                    Difference(StepChild(pointer, step), OrNull(Child(left, step)), OrNull(Child(right, step))), [step])
  {
    assert Render([step]) == "/" + Token(step) + Render([]);
    assert pointer + Render([step]) == StepChild(pointer, step);
    assert [step][1..] == [];
  }

  // ---- Soundness and completeness ---------------------------------------------------------

  /** Every entry reports a place where the documents differ, with the two values there. */
  lemma {:induction false} EveryEntryReports(left: Json, right: Json, pointer: string, d: Difference) returns (path: Path)
    requires d in Differences(left, right, pointer)
    ensures Reports(left, right, pointer, d, path)
    decreases left
  {
    hide StepDifference, Lookup, Render;
    if !Siblings(left, right) {
      path := [];
      EmptyPath(left, right, pointer);
    } else {
      InSteps(left, right, pointer, d);
      var step :| HasStep(left, right, step) && d in StepDifference(left, right, step, pointer);
      StepCases(left, right, step, pointer);
      if Child(left, step).Some? && Child(right, step).Some? {
        var below := EveryEntryReports(Child(left, step).value, Child(right, step).value, StepChild(pointer, step), d);
        ReportsBelow(left, right, pointer, step, d, below);
        path := [step] + below;
      } else {
        ReportsHere(left, right, pointer, step);
        path := [step];
      }
    }
  }

  lemma EmptyPath(left: Json, right: Json, pointer: string)
    ensures Lookup(left, []) == Some(left) && Lookup(right, []) == Some(right) && pointer + Render([]) == pointer
  {
  }

  lemma SameChildren(left: Json, right: Json)
    requires Siblings(left, right) && forall step :: Child(left, step) == Child(right, step)
    ensures left == right
  {
    if left.Dict? {
      forall k
        ensures k in left.members <==> k in right.members
        ensures k in left.members ==> left.members[k] == right.members[k]
      {
        assert Child(left, Key(k)) == Child(right, Key(k));
      }
      assert left.members == right.members;
    } else {
      SameLengths(left, right);
      forall i: nat | i < |left.items|
        ensures left.items[i] == right.items[i]
      {
        assert Child(left, Index(i)) == Child(right, Index(i));
      }
      assert left.items == right.items;
    }
  }

  /** Containers of one type that differ have a child that differs. */
  lemma DifferentChild(left: Json, right: Json) returns (step: Step)
    requires Siblings(left, right) && left != right
    ensures Child(left, step) != Child(right, step)
  {
    if forall s :: Child(left, s) == Child(right, s) {
      SameChildren(left, right);
    } else {
      step :| Child(left, step) != Child(right, step);
    }
  }

  lemma SameLengths(left: Json, right: Json)
    requires left.List? && right.List?
    requires forall i: nat :: i < |left.items| || i < |right.items| ==> Child(left, Index(i)) == Child(right, Index(i))
    ensures |left.items| == |right.items|
  {
    var l: nat, r: nat := |left.items|, |right.items|;
    assert Child(right, Index(r)).None? && Child(left, Index(l)).None?;
    assert r < l ==> Child(left, Index(r)).Some?;
    assert l < r ==> Child(right, Index(l)).Some?;
  }

  /** Every place where the documents differ is covered: some entry reports it, a place above it, or, when the
      differing values are containers of one type, a place inside it. */
  lemma {:induction false} EveryPlaceCovered(left: Json, right: Json, pointer: string, path: Path) returns (d: Difference, where: Path)
    requires Lookup(left, path) != Lookup(right, path)
    ensures d in Differences(left, right, pointer) && Reports(left, right, pointer, d, where)
    ensures where <= path || path <= where
    decreases left
  {
    hide StepDifference, Render;
    if !Siblings(left, right) {
      EmptyPath(left, right, pointer);
      assert left != right;
      d, where := Difference(OrRoot(pointer), left, right), [];
    } else {
      var step: Step;
      var rest: Path := [];
      if path == [] {
        step := DifferentChild(left, right);
      } else {
        step, rest := path[0], path[1..];
      }
      d, where := CoveredAtStep(left, right, pointer, step, rest);
      assert path != [] ==> [step] + rest == path;
    }
  }

  lemma {:induction false} CoveredAtStep(left: Json, right: Json, pointer: string, step: Step, rest: Path) returns (d: Difference, where: Path)
    requires Siblings(left, right)
    requires rest == [] ==> Child(left, step) != Child(right, step)
    requires rest != [] ==> Lookup(left, [step] + rest) != Lookup(right, [step] + rest)
    ensures d in Differences(left, right, pointer) && Reports(left, right, pointer, d, where)
    ensures where <= [step] + rest || [step] + rest <= where
    decreases left, 0
  {
    hide StepDifference, Render;
    var l, r := Child(left, step), Child(right, step);
    assert ([step] + rest)[1..] == rest;
    assert HasStep(left, right, step);
    StepCases(left, right, step, pointer);
    if l.Some? && r.Some? {
      var below;
      d, below := EveryPlaceCovered(l.value, r.value, StepChild(pointer, step), rest);
      ReportsBelow(left, right, pointer, step, d, below);
      where := [step] + below;
    } else {
      ReportsHere(left, right, pointer, step);
      d, where := Difference(StepChild(pointer, step), OrNull(l), OrNull(r)), [step];
    }
    InSteps(left, right, pointer, d);
  }

  /** No entries exactly when the documents are identical. */
  lemma EmptyIffIdentical(left: Json, right: Json, pointer: string)
    ensures Differences(left, right, pointer) == [] <==> left == right
  {
    hide Differences;
    if left != right {
      EmptyPath(left, right, pointer);
      var d, where := EveryPlaceCovered(left, right, pointer, []);
    } else if Differences(left, right, pointer) != [] {
      var path := EveryEntryReports(left, right, pointer, Differences(left, right, pointer)[0]);
    }
  }

  // ---- Distinct pointers ------------------------------------------------------------------

  /** `q` is `base` or continues it after a separator. */
  predicate Under(base: string, q: string) {
    base <= q && (q == base || q[|base|] == '/')
  }

  ghost predicate AllUnder(ds: seq<Difference>, base: string) {
    forall d :: d in ds ==> Under(base, d.pointer)
  }

  ghost predicate DistinctPointers(ds: seq<Difference>) {
    forall i, j :: 0 <= i < j < |ds| ==> ds[i].pointer != ds[j].pointer
  }

  /** The separator keeps the pointers below two tokens apart. */
  lemma TokensApart(pointer: string, s: string, t: string, q: string)
    requires '/' !in s && '/' !in t
    requires Under(pointer + "/" + s, q) && Under(pointer + "/" + t, q)
    ensures s == t
  {
    var a, b := pointer + "/" + s, pointer + "/" + t;
    var n := |pointer| + 1;
    assert a == pointer + ("/" + s) && b == pointer + ("/" + t);
    assert a[n..] == s && b[n..] == t;
    assert forall i :: n <= i < |a| ==> a[i] == a[n..][i - n] && a[i] != '/';
    assert forall i :: n <= i < |b| ==> b[i] == b[n..][i - n] && b[i] != '/';
    if |s| < |t| {
      SeparatorAfter(a, b, q);
    } else if |t| < |s| {
      SeparatorAfter(b, a, q);
    } else {
      assert a == q[..|a|] && b == q[..|b|];
    }
  }

  lemma SeparatorAfter(a: string, b: string, q: string)
    requires Under(a, q) && b <= q && |a| < |b|
    ensures b[|a|] == '/'
  {
    assert b[|a|] == q[|a|];
  }

  lemma {:induction false} PointersUnder(left: Json, right: Json, pointer: string)
    ensures AllUnder(Differences(left, right, pointer), pointer)
    decreases left
  {
    hide StepDifference, Differences;
    forall d | d in Differences(left, right, pointer)
      ensures Under(pointer, d.pointer)
    {
      var path := EveryEntryReports(left, right, pointer, d);
      ReportUnder(pointer, path);
    }
  }

  lemma ReportUnder(pointer: string, path: Path)
    ensures Under(pointer, OrRoot(pointer + Render(path)))
  {
  }

  lemma StepUnder(left: Json, right: Json, step: Step, pointer: string)
    requires Siblings(left, right) && HasStep(left, right, step)
    ensures AllUnder(StepDifference(left, right, step, pointer), StepChild(pointer, step))
  {
    hide Differences, StepDifference;
    StepCases(left, right, step, pointer);
    var l, r := Child(left, step), Child(right, step);
    if l.Some? && r.Some? {
      PointersUnder(l.value, r.value, StepChild(pointer, step));
    }
  }

  lemma DistinctConcat(a: seq<Difference>, b: seq<Difference>)
    requires DistinctPointers(a) && DistinctPointers(b)
    requires forall x, y :: x in a && y in b ==> x.pointer != y.pointer
    ensures DistinctPointers(a + b)
  {
    forall i, j | 0 <= i < j < |a + b|
      ensures (a + b)[i].pointer != (a + b)[j].pointer
    {
      if i < |a| <= j {
        assert a[i] in a && b[j - |a|] in b;
      }
    }
  }

  /** The pointers of a difference are pairwise distinct. */
  lemma {:induction false} PointersDistinct(left: Json, right: Json, pointer: string)
    ensures DistinctPointers(Differences(left, right, pointer))
    decreases left, 2, 0
  {
    if Siblings(left, right) {
      if left.Dict? {
        var all := left.members.Keys + right.members.Keys;
        StringOrder();
        SortedKeysIncrease(StringLess, all);
        MembersDistinct(left, right, SortedStrings(all), pointer);
      } else {
        ItemsDistinct(left, right, 0, pointer);
      }
    }
  }

  lemma {:induction false} StepDistinct(left: Json, right: Json, step: Step, pointer: string)
    requires Siblings(left, right) && HasStep(left, right, step)
    ensures DistinctPointers(StepDifference(left, right, step, pointer))
    decreases left, 0, 0
  {
    hide Differences, StepDifference;
    StepCases(left, right, step, pointer);
    var l, r := Child(left, step), Child(right, step);
    if l.Some? && r.Some? {
      PointersDistinct(l.value, r.value, StepChild(pointer, step));
    }
  }

  lemma {:induction false} MembersDistinct(left: Json, right: Json, keys: seq<string>, pointer: string)
    requires left.Dict? && right.Dict? && forall k :: k in keys ==> k in left.members || k in right.members
    requires forall i, j :: 0 <= i < j < |keys| ==> keys[i] != keys[j]
    ensures DistinctPointers(MemberDifferences(left, right, keys, pointer))
    decreases left, 1, |keys|
  {
    hide MemberDifference, KeyChild, Differences, Escape;
    if keys == [] {
    } else {
      assert keys[0] in keys;
      MembersDistinct(left, right, keys[1..], pointer);
      var first, rest := StepDifference(left, right, Key(keys[0]), pointer), MemberDifferences(left, right, keys[1..], pointer);
      StepDistinct(left, right, Key(keys[0]), pointer);
      forall x, y | x in first && y in rest
        ensures x.pointer != y.pointer
      {
        InMembers(left, right, keys[1..], pointer, y);
        var k :| k in keys[1..] && y in MemberDifference(left, right, k, KeyChild(pointer, k));
        assert y in StepDifference(left, right, Key(k), pointer);
        StepsApart(left, right, Key(keys[0]), Key(k), pointer, x, y);
      }
      DistinctConcat(first, rest);
    }
  }

  lemma StepsApart(left: Json, right: Json, a: Step, b: Step, pointer: string, x: Difference, y: Difference)
    requires Siblings(left, right) && HasStep(left, right, a) && HasStep(left, right, b) && a != b
    requires x in StepDifference(left, right, a, pointer) && y in StepDifference(left, right, b, pointer)
    ensures x.pointer != y.pointer
  {
    hide StepDifference, Escape;
    StepUnder(left, right, a, pointer);
    StepUnder(left, right, b, pointer);
    if x.pointer == y.pointer {
      TokensApart(pointer, Token(a), Token(b), x.pointer);
      TokenInjective(a, b);
    }
  }

  lemma TokenInjective(a: Step, b: Step)
    requires a.Key? == b.Key? && Token(a) == Token(b)
    ensures a == b
  {
    if a.Key? {
      EscapeInjective(a.key, b.key);
    } else {
      ShowInjective(a.index, b.index);
    }
  }

  lemma {:induction false} ItemsDistinct(left: Json, right: Json, from: nat, pointer: string)
    requires left.List? && right.List?
    ensures DistinctPointers(ItemDifferences(left, right, from, pointer))
    decreases left, 1, |left.items| + |right.items| - from
  {
    hide ItemDifference, IndexChild, Differences;
    if from >= |left.items| && from >= |right.items| {
    } else {
      ItemsDistinct(left, right, from + 1, pointer);
      var first, rest := StepDifference(left, right, Index(from), pointer), ItemDifferences(left, right, from + 1, pointer);
      StepDistinct(left, right, Index(from), pointer);
      forall x, y | x in first && y in rest
        ensures x.pointer != y.pointer
      {
        InItems(left, right, from + 1, pointer, y);
        var i: nat :| i >= from + 1 && (i < |left.items| || i < |right.items|) && y in ItemDifference(left, right, i, IndexChild(pointer, i));
        assert y in StepDifference(left, right, Index(i), pointer);
        StepsApart(left, right, Index(from), Index(i), pointer, x, y);
      }
      DistinctConcat(first, rest);
    }
  }

  // ---- The main results --------------------------------------------------------------------

  /** The difference of two whole documents: empty exactly when they are identical, pointers pairwise distinct,
      and every entry naming a place where they differ together with the two values there. */
  lemma DifferenceExact(left: Json, right: Json)
    ensures Differences(left, right, "") == [] <==> left == right
    ensures DistinctPointers(Differences(left, right, ""))
    ensures forall d :: d in Differences(left, right, "") ==> exists path :: Reports(left, right, "", d, path)
  {
    hide *;
    EmptyIffIdentical(left, right, "");
    PointersDistinct(left, right, "");
    forall d | d in Differences(left, right, "")
      ensures exists path :: Reports(left, right, "", d, path)
    {
      var path := EveryEntryReports(left, right, "", d);
    }
  }
}
