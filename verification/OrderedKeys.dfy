/** The elements of a finite set in increasing order. */
module OrderedKeys {
  import opened LexOrder

  predicate IsLeast<T(==)>(less: (T, T) -> bool, keys: set<T>, k: T) {
    k in keys && forall j :: j in keys && j != k ==> less(k, j)
  }

  lemma {:induction false} LeastExists<T(!new)>(less: (T, T) -> bool, keys: set<T>)
    requires StrictTotal(less) && keys != {}
    ensures exists k :: IsLeast(less, keys, k)
  {
    var x :| x in keys;
    var rest := keys - {x};
    assert forall j :: j in keys ==> j == x || j in rest;
    if rest == {} {
      assert IsLeast(less, keys, x);
    } else {
      LeastExists(less, rest);
      var k :| IsLeast(less, rest, k);
      assert IsLeast(less, keys, if less(x, k) then x else k);
    }
  }

  function Least<T(==, !new)>(less: (T, T) -> bool, keys: set<T>): (k: T)
    requires StrictTotal(less) && keys != {}
    ensures IsLeast(less, keys, k)
  {
    LeastExists(less, keys);
    var k :| IsLeast(less, keys, k);
    k
  }

  function SortedKeys<T(==, !new)>(less: (T, T) -> bool, keys: set<T>): (s: seq<T>)
    requires StrictTotal(less)
    ensures forall k :: k in s <==> k in keys
  {
    if keys == {} then []
    else [Least(less, keys)] + SortedKeys(less, keys - {Least(less, keys)})
  }

  /** Every key once, in increasing order. */
  lemma {:induction false} SortedKeysIncrease<T(!new)>(less: (T, T) -> bool, keys: set<T>)
    requires StrictTotal(less)
    ensures forall i, j :: 0 <= i < j < |SortedKeys(less, keys)| ==> less(SortedKeys(less, keys)[i], SortedKeys(less, keys)[j])
  {
    if keys == {} {
    } else {
      var rest := keys - {Least(less, keys)};
      SortedKeysIncrease(less, rest);
      var s := SortedKeys(less, keys);
      assert s == [Least(less, keys)] + SortedKeys(less, rest);
      forall i, j | 0 <= i < j < |s|
        ensures less(s[i], s[j])
      {
        if i == 0 {
          assert SortedKeys(less, rest)[j - 1] in rest;
        }
      }
    }
  }
}
