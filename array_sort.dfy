/**
 * `Array.prototype.sort(comparefn)` as ECMA-262 (2019 edition onwards)
 * requires it: the array is reordered in place, the result is sorted under
 * a consistent comparator, and the sort is stable, so elements the
 * comparator ties keep their relative order. The engine's algorithm is not
 * fixed by the standard; an insertion sort stands for it here.
 */
module ArraySort {

  /**
   * A comparator as `sort` receives it: a negative result puts `a` first,
   * a positive one puts `b` first, zero ties them.
   */
  type Comparator<-T> = (T, T) -> real

  /**
   * The standard's "consistent comparator": its sign is antisymmetric and
   * "may come first" is transitive. Together these make a total preorder.
   */
  ghost predicate Consistent<T(!new)>(cmp: Comparator<T>) {
    && (forall a, b :: cmp(a, b) > 0.0 <==> cmp(b, a) < 0.0)
    && (forall a, b, c {:trigger Chained(cmp, a, b, c)} ::
          cmp(a, b) <= 0.0 && cmp(b, c) <= 0.0 ==> cmp(a, c) <= 0.0)
  }

  /**
   * Names one instance of transitivity. The transitivity clause above fires
   * only on this term, so that the solver uses it where a proof asks for it
   * (through Trans) and nowhere else.
   */
  ghost predicate Chained<T>(cmp: Comparator<T>, a: T, b: T, c: T) {
    cmp(a, b) <= 0.0 && cmp(b, c) <= 0.0
  }

  lemma Trans<T(!new)>(cmp: Comparator<T>, a: T, b: T, c: T)
    requires Consistent(cmp) && cmp(a, b) <= 0.0 && cmp(b, c) <= 0.0
    ensures cmp(a, c) <= 0.0
  {
    assert Chained(cmp, a, b, c);
  }

  /** No element is placed after one the comparator wants behind it. */
  ghost predicate Sorted<T>(s: seq<T>, cmp: Comparator<T>) {
    forall i, j :: 0 <= i < j < |s| ==> cmp(s[i], s[j]) <= 0.0
  }

  /** The elements of `s` the comparator ties with `y`, in their order in `s`. */
  ghost function Tied<T>(s: seq<T>, y: T, cmp: Comparator<T>): seq<T> {
    if s == [] then []
    else (if cmp(s[0], y) == 0.0 then [s[0]] else []) + Tied(s[1..], y, cmp)
  }

  /**
   * Stability: every class of tied elements occurs in `r` exactly as it
   * occurs in `s`, same elements, same relative order.
   */
  ghost predicate SameTies<T(!new)>(r: seq<T>, s: seq<T>, cmp: Comparator<T>) {
    forall y :: Tied(r, y, cmp) == Tied(s, y, cmp)
  }

  /** `s` with `x` placed at index `j`. */
  ghost function Insert<T>(s: seq<T>, j: nat, x: T): seq<T>
    requires j <= |s|
  {
    s[..j] + [x] + s[j..]
  }

  lemma {:induction false} TiedAppend<T>(s: seq<T>, t: seq<T>, y: T, cmp: Comparator<T>)
    ensures Tied(s + t, y, cmp) == Tied(s, y, cmp) + Tied(t, y, cmp)
  {
    if s == [] {
      assert s + t == t;
    } else {
      var head := if cmp(s[0], y) == 0.0 then [s[0]] else [];
      assert (s + t)[0] == s[0];
      assert (s + t)[1..] == s[1..] + t;
      assert Tied(s + t, y, cmp) == head + Tied(s[1..] + t, y, cmp);
      TiedAppend(s[1..], t, y, cmp);
      assert Tied(s, y, cmp) == head + Tied(s[1..], y, cmp);
    }
  }

  lemma {:induction false} TiedNone<T>(s: seq<T>, y: T, cmp: Comparator<T>)
    requires forall k :: 0 <= k < |s| ==> cmp(s[k], y) != 0.0
    ensures Tied(s, y, cmp) == []
  {
    if s != [] {
      TiedNone(s[1..], y, cmp);
    }
  }

  lemma {:induction false} TiedElements<T>(s: seq<T>, y: T, cmp: Comparator<T>)
    ensures forall z :: z in Tied(s, y, cmp) ==> z in s && cmp(z, y) == 0.0
  {
    if s != [] {
      TiedElements(s[1..], y, cmp);
    }
  }

  /** Every element is tied with itself, so it heads its own class. */
  lemma HeadTied<T(!new)>(s: seq<T>, cmp: Comparator<T>)
    requires Consistent(cmp) && s != []
    ensures Tied(s, s[0], cmp) == [s[0]] + Tied(s[1..], s[0], cmp)
  {
  }

  /** The number of copies of `y` in `s` is the number in its tie class. */
  lemma {:induction false} TiedCount<T(!new)>(s: seq<T>, y: T, cmp: Comparator<T>)
    requires Consistent(cmp)
    ensures multiset(Tied(s, y, cmp))[y] == multiset(s)[y]
  {
    if s != [] {
      TiedCount(s[1..], y, cmp);
      assert s == [s[0]] + s[1..];
      assert cmp(y, y) > 0.0 <==> cmp(y, y) < 0.0;
    }
  }

  /** Keeping every tie class intact keeps every element: a permutation. */
  lemma SameTiesPermutation<T(!new)>(r: seq<T>, s: seq<T>, cmp: Comparator<T>)
    requires Consistent(cmp) && SameTies(r, s, cmp)
    ensures multiset(r) == multiset(s)
  {
    forall y
      ensures multiset(r)[y] == multiset(s)[y]
    {
      TiedCount(r, y, cmp);
      TiedCount(s, y, cmp);
    }
  }

  lemma SameTiesSnoc<T(!new)>(r: seq<T>, s: seq<T>, x: T, cmp: Comparator<T>)
    requires SameTies(r, s, cmp)
    ensures SameTies(r + [x], s + [x], cmp)
  {
    forall y
      ensures Tied(r + [x], y, cmp) == Tied(s + [x], y, cmp)
    {
      TiedAppend(r, [x], y, cmp);
      TiedAppend(s, [x], y, cmp);
    }
  }

  /** The first element of a sorted sequence may come before every element. */
  lemma FirstIsLeast<T(!new)>(s: seq<T>, z: T, cmp: Comparator<T>)
    requires Consistent(cmp) && Sorted(s, cmp) && z in s
    ensures cmp(s[0], z) <= 0.0
  {
  }

  /** Two sorted sequences with the same tie classes start with the same element. */
  lemma SameHead<T(!new)>(r: seq<T>, s: seq<T>, cmp: Comparator<T>)
    requires Consistent(cmp) && r != [] && s != []
    requires Sorted(r, cmp) && Sorted(s, cmp) && SameTies(r, s, cmp)
    ensures r[0] == s[0]
  {
    var x, y := r[0], s[0];
    HeadTied(r, cmp);
    HeadTied(s, cmp);
    TiedElements(r, y, cmp);
    TiedElements(s, x, cmp);
    assert Tied(r, y, cmp) == Tied(s, y, cmp);
    var z := Tied(r, y, cmp)[0];
    FirstIsLeast(r, z, cmp);
    Trans(cmp, x, z, y);
    assert Tied(s, x, cmp) == Tied(r, x, cmp);
    var w := Tied(s, x, cmp)[0];
    FirstIsLeast(s, w, cmp);
    Trans(cmp, y, w, x);
    assert cmp(x, y) == 0.0 && cmp(y, x) == 0.0;
    assert [x] + Tied(r[1..], x, cmp) == [y] + Tied(s[1..], x, cmp);
  }

  /** Removing the same first element from both keeps the tie classes equal. */
  lemma SameTiesTail<T(!new)>(r: seq<T>, s: seq<T>, cmp: Comparator<T>)
    requires r != [] && s != [] && r[0] == s[0] && SameTies(r, s, cmp)
    ensures SameTies(r[1..], s[1..], cmp)
  {
    forall v
      ensures Tied(r[1..], v, cmp) == Tied(s[1..], v, cmp)
    {
      var head := if cmp(r[0], v) == 0.0 then [r[0]] else [];
      assert Tied(r, v, cmp) == head + Tied(r[1..], v, cmp);
      assert Tied(s, v, cmp) == head + Tied(s[1..], v, cmp);
      assert Tied(r[1..], v, cmp) == Tied(r, v, cmp)[|head|..];
      assert Tied(s[1..], v, cmp) == Tied(s, v, cmp)[|head|..];
    }
  }

  lemma SortedTail<T>(s: seq<T>, cmp: Comparator<T>)
    requires Sorted(s, cmp) && s != []
    ensures Sorted(s[1..], cmp)
  {
    forall i, j | 0 <= i < j < |s| - 1
      ensures cmp(s[1..][i], s[1..][j]) <= 0.0
    {
      assert s[1..][i] == s[i + 1] && s[1..][j] == s[j + 1];
    }
  }

  /**
   * A sorted, stable reordering is unique: two sequences that are both
   * sorted and hold every tie class in the same order are equal. So the
   * result of a stable sort is determined by its input and comparator.
   */
  lemma {:induction false} SortedStableUnique<T(!new)>(r: seq<T>, s: seq<T>, cmp: Comparator<T>)
    requires Consistent(cmp)
    requires Sorted(r, cmp) && Sorted(s, cmp) && SameTies(r, s, cmp)
    ensures r == s
    decreases |r|
  {
    SameTiesPermutation(r, s, cmp);
    assert |r| == |multiset(r)| == |multiset(s)| == |s|;
    if r != [] {
      SameHead(r, s, cmp);
      SameTiesTail(r, s, cmp);
      SortedTail(r, cmp);
      SortedTail(s, cmp);
      SortedStableUnique(r[1..], s[1..], cmp);
      assert r == [r[0]] + r[1..] && s == [s[0]] + s[1..];
    }
  }

  /** Two elements the comparator does not tie have one-element tie classes in either order. */
  lemma UntiedSwap<T(!new)>(x: T, y: T, cmp: Comparator<T>)
    requires Consistent(cmp) && cmp(x, y) != 0.0
    ensures SameTies([x, y], [y, x], cmp)
  {
    forall v
      ensures Tied([x, y], v, cmp) == Tied([y, x], v, cmp)
    {
      TiedAppend([x], [y], v, cmp);
      TiedAppend([y], [x], v, cmp);
      assert [x] + [y] == [x, y] && [y] + [x] == [y, x];
      if cmp(x, v) == 0.0 && cmp(y, v) == 0.0 {
        assert cmp(v, y) == 0.0;
        Trans(cmp, x, v, y);
        Trans(cmp, y, v, x);
        assert false;
      }
    }
  }

  /**
   * Placing `x` after the elements that may precede it and before those the
   * comparator puts strictly behind it keeps a sorted sequence sorted.
   */
  lemma InsertSorted<T(!new)>(s: seq<T>, j: nat, x: T, cmp: Comparator<T>)
    requires Consistent(cmp) && Sorted(s, cmp) && j <= |s|
    requires j > 0 ==> cmp(s[j - 1], x) <= 0.0
    requires forall k :: j <= k < |s| ==> cmp(s[k], x) > 0.0
    ensures Sorted(Insert(s, j, x), cmp)
  {
    var t := Insert(s, j, x);
    assert forall k :: 0 <= k < j ==> t[k] == s[k];
    assert t[j] == x;
    assert forall k :: j < k < |t| ==> t[k] == s[k - 1];
    forall p, q | 0 <= p < q < |t|
      ensures cmp(t[p], t[q]) <= 0.0
    {
      if q == j {
        if p < j - 1 {
          Trans(cmp, s[p], s[j - 1], x);
        }
      } else if p == j {
        assert cmp(s[q - 1], x) > 0.0;
      } else if p < j && j < q {
        assert cmp(s[p], s[q - 1]) <= 0.0;
      }
    }
  }

  /**
   * Inserting `x` ahead of elements that are all strictly behind it does not
   * change the order within any tie class: it is as if `x` were appended.
   */
  lemma InsertTies<T(!new)>(s: seq<T>, j: nat, x: T, cmp: Comparator<T>)
    requires Consistent(cmp) && j <= |s|
    requires forall k :: j <= k < |s| ==> cmp(s[k], x) > 0.0
    ensures SameTies(Insert(s, j, x), s + [x], cmp)
  {
    forall y
      ensures Tied(Insert(s, j, x), y, cmp) == Tied(s + [x], y, cmp)
    {
      TiedAppend(s[..j] + [x], s[j..], y, cmp);
      TiedAppend(s[..j], [x], y, cmp);
      TiedAppend(s[..j], s[j..], y, cmp);
      TiedAppend(s, [x], y, cmp);
      assert s[..j] + s[j..] == s;
      if cmp(x, y) == 0.0 {
        forall k | 0 <= k < |s[j..]|
          ensures cmp(s[j..][k], y) != 0.0
        {
          assert cmp(s[j + k], x) > 0.0;
          assert cmp(y, x) <= 0.0;
          if cmp(s[j + k], y) == 0.0 {
            Trans(cmp, s[j + k], y, x);
          }
        }
        TiedNone(s[j..], y, cmp);
      }
    }
  }

  /**
   * One step of the sort: moves `a[i]` left, past the elements of `a[..i]`
   * that the comparator puts strictly behind it, and returns where it landed.
   */
  method InsertLast<T>(a: array<T>, i: nat, cmp: Comparator<T>) returns (j: nat)
    requires i < a.Length
    modifies a
    ensures j <= i
    ensures a[..i + 1] == Insert(old(a[..i]), j, old(a[i]))
    ensures a[i + 1..] == old(a[i + 1..])
    ensures j > 0 ==> cmp(old(a[j - 1]), old(a[i])) <= 0.0
    ensures forall k :: j <= k < i ==> cmp(old(a[k]), old(a[i])) > 0.0
  {
    ghost var done := a[..i];
    var x := a[i];
    j := i;
    while j > 0 && cmp(a[j - 1], x) > 0.0
      invariant 0 <= j <= i
      invariant forall k :: 0 <= k < j ==> a[k] == done[k]
      invariant forall k :: j < k <= i ==> a[k] == done[k - 1]
      invariant a[i + 1..] == old(a[i + 1..])
      invariant forall k :: j <= k < i ==> cmp(done[k], x) > 0.0
    {
      a[j] := a[j - 1];
      j := j - 1;
    }
    a[j] := x;
    assert a[..i + 1] == Insert(done, j, x);
  }

  /**
   * The in-place sort: afterwards the array is sorted, stable with respect
   * to its old contents, and a permutation of them.
   */
  method Sort<T(!new)>(a: array<T>, cmp: Comparator<T>)
    requires Consistent(cmp)
    modifies a
    ensures Sorted(a[..], cmp)
    ensures SameTies(a[..], old(a[..]), cmp)
    ensures multiset(a[..]) == multiset(old(a[..]))
  {
    ghost var input := a[..];
    var i := 0;
    while i < a.Length
      invariant 0 <= i <= a.Length
      invariant Sorted(a[..i], cmp)
      invariant SameTies(a[..i], input[..i], cmp)
      invariant a[i..] == input[i..]
    {
      ghost var done := a[..i];
      ghost var x := a[i];
      assert x == input[i];
      var j := InsertLast(a, i, cmp);
      InsertSorted(done, j, x, cmp);
      InsertTies(done, j, x, cmp);
      assert input[..i + 1] == input[..i] + [x];
      SameTiesSnoc(done, input[..i], x, cmp);
      i := i + 1;
    }
    assert a[..] == a[..i] && input == input[..i];
    SameTiesPermutation(a[..], input, cmp);
  }
}
