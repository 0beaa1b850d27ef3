/** Names in the order Python sorts strings: code point by code point, a prefix first. */
module Names {
  predicate Before(a: string, b: string) {
    b != "" && (a == "" || a[0] < b[0] || (a[0] == b[0] && Before(a[1..], b[1..])))
  }

  /** A proper prefix, or smaller at the first place where the two differ. */
  ghost predicate Precedes(a: string, b: string) {
    a < b || exists k :: Smaller(a, b, k)
  }

  ghost predicate Smaller(a: string, b: string, k: nat) {
    k < |a| && k < |b| && (forall i :: 0 <= i < k ==> a[i] == b[i]) && a[k] < b[k]
  }

  lemma {:induction false} BeforeIsPrecedes(a: string, b: string)
    ensures Before(a, b) <==> Precedes(a, b)
    decreases |a|
  {
    if a != "" && b != "" && a[0] == b[0] {
      BeforeIsPrecedes(a[1..], b[1..]);
      assert a == [a[0]] + a[1..] && b == [b[0]] + b[1..];
      if k: nat :| Smaller(a, b, k) {
        assert Smaller(a[1..], b[1..], k - 1);
      }
      if k: nat :| Smaller(a[1..], b[1..], k) {
        assert Smaller(a, b, k + 1);
      }
    } else if a != "" && b != "" {
      assert Smaller(a, b, 0) <==> a[0] < b[0];
    }
  }

  lemma {:induction false} BeforeIsStrict(a: string)
    ensures !Before(a, a)
  {
    if a != "" {
      BeforeIsStrict(a[1..]);
    }
  }

  lemma {:induction false} BeforeIsTransitive(a: string, b: string, c: string)
    requires Before(a, b) && Before(b, c)
    ensures Before(a, c)
  {
    if a != "" && a[0] == b[0] == c[0] {
      BeforeIsTransitive(a[1..], b[1..], c[1..]);
    }
  }

  lemma {:induction false} BeforeIsTotal(a: string, b: string)
    ensures a == b || Before(a, b) || Before(b, a)
  {
    if a != "" && b != "" && a[0] == b[0] {
      BeforeIsTotal(a[1..], b[1..]);
      assert a == [a[0]] + a[1..] && b == [b[0]] + b[1..];
    }
  }

  ghost predicate IsFirst(m: string, names: set<string>) {
    m in names && forall x :: x in names ==> x == m || Before(m, x)
  }

  lemma {:induction false} FirstExists(names: set<string>) returns (m: string)
    requires names != {}
    ensures IsFirst(m, names)
    decreases |names|
  {
    var x :| x in names;
    if names == {x} {
      m := x;
    } else {
      var n := FirstExists(names - {x});
      BeforeIsTotal(x, n);
      m := if Before(x, n) then x else n;
      forall y | y in names ensures y == m || Before(m, y) {
        if y != x && m == x && y != n {
          BeforeIsTransitive(x, n, y);
        }
      }
    }
  }

  /** `list` is `names`, each once, in order. */
  ghost predicate Sorted(list: seq<string>, names: set<string>) {
    (forall i, j :: 0 <= i < j < |list| ==> Before(list[i], list[j])) && (forall x :: x in list <==> x in names)
  }

  lemma SortedOnce(list: seq<string>, names: set<string>)
    requires Sorted(list, names)
    ensures forall i, j :: 0 <= i < j < |list| ==> list[i] != list[j]
  {
    forall i, j | 0 <= i < j < |list| ensures list[i] != list[j] {
      BeforeIsStrict(list[i]);
    }
  }

  /** `sorted(names)`. */
  method Sort(names: set<string>) returns (list: seq<string>)
    ensures Sorted(list, names)
    ensures forall i, j :: 0 <= i < j < |list| ==> Precedes(list[i], list[j])
    ensures names != {} ==> list != [] && IsFirst(list[0], names)
  {
    list := [];
    var rest := names;
    while rest != {}
      invariant rest <= names && Sorted(list, names - rest)
      invariant forall x, y :: x in list && y in rest ==> Before(x, y)
      invariant list != [] ==> IsFirst(list[0], names)
      invariant list == [] ==> rest == names
      decreases |rest|
    {
      ghost var first := FirstExists(rest);
      var m :| m in rest && forall x <- rest :: x == m || Before(m, x);
      list := list + [m];
      rest := rest - {m};
    }
    forall i, j | 0 <= i < j < |list| ensures Precedes(list[i], list[j]) {
      BeforeIsPrecedes(list[i], list[j]);
    }
  }
}
