/** The free comparison operators of SimpleVector, over the sequences of
    live elements of the two operands.  `lt` is the element type's
    `operator<`; element equality is Dafny's `==`. */
module Comparison {

  /** `operator==`: equal sizes and pairwise-equal elements. */
  function Equal<T(==)>(left: seq<T>, right: seq<T>): (r: bool)
    ensures r <==> left == right
  {
    |left| == |right| && forall i :: 0 <= i < |left| ==> left[i] == right[i]
  }

  /** `operator!=`: the negation of `==`. */
  function NotEqual<T(==)>(left: seq<T>, right: seq<T>): (r: bool)
    ensures r <==> left != right
  {
    !Equal(left, right)
  }

  /** `operator<`, lexicographical comparison: walk both sequences while
      neither element is less than the other; the first strictly smaller
      element decides, and otherwise the left side is less exactly when it
      ran out first while the right one did not. */
  function Less<T>(left: seq<T>, right: seq<T>, lt: (T, T) -> bool): (r: bool)
    ensures left == [] ==> (r <==> right != [])
    ensures right == [] ==> !r
  {
    if left == [] || right == [] then left == [] && right != []
    else if lt(left[0], right[0]) then true
    else if lt(right[0], left[0]) then false
    else Less(left[1..], right[1..], lt)
  }

  /** `operator<=`, as written: `(left < right) || (left == right)`. */
  function LessOrEqual<T(==)>(left: seq<T>, right: seq<T>, lt: (T, T) -> bool): (r: bool)
    ensures r <==> Less(left, right, lt) || left == right
  {
    Less(left, right, lt) || Equal(left, right)
  }

  /** `operator>`, as written: `right < left`. */
  function Greater<T>(left: seq<T>, right: seq<T>, lt: (T, T) -> bool): (r: bool)
    ensures right == [] ==> (r <==> left != [])
    ensures left == [] ==> !r
  {
    Less(right, left, lt)
  }

  /** `operator>=`, as written: `(right < left) || (right == left)`. */
  function GreaterOrEqual<T(==)>(left: seq<T>, right: seq<T>, lt: (T, T) -> bool): (r: bool)
    ensures r <==> Less(right, left, lt) || left == right
  {
    Less(right, left, lt) || Equal(right, left)
  }

  ghost predicate Irreflexive<T(!new)>(lt: (T, T) -> bool)
  {
    forall x :: !lt(x, x)
  }

  ghost predicate Transitive<T(!new)>(lt: (T, T) -> bool)
  {
    forall x, y, z :: lt(x, y) && lt(y, z) ==> lt(x, z)
  }

  /** Irreflexive, transitive and total: any two distinct elements are ordered. */
  ghost predicate StrictTotalOrder<T(!new)>(lt: (T, T) -> bool)
  {
    Irreflexive(lt) && Transitive(lt) && forall x, y :: x != y ==> lt(x, y) || lt(y, x)
  }

  /** Irreflexive, transitive, and incomparability (neither element less
      than the other) is transitive too: the requirement the standard
      library places on the comparison of `std::lexicographical_compare`. */
  ghost predicate StrictWeakOrder<T(!new)>(lt: (T, T) -> bool)
  {
    Irreflexive(lt) && Transitive(lt) &&
    forall x, y, z :: !lt(x, y) && !lt(y, x) && !lt(y, z) && !lt(z, y) ==> !lt(x, z) && !lt(z, x)
  }

  /** The reference meaning of lexicographical `<`: after a common prefix of
      length k whose elements are pairwise equivalent, either both continue
      and the left element is smaller, or the left ends and the right does not. */
  ghost predicate LessAt<T>(left: seq<T>, right: seq<T>, lt: (T, T) -> bool, k: nat)
  {
    k <= |left| && k <= |right| &&
    (forall i :: 0 <= i < k ==> !lt(left[i], right[i]) && !lt(right[i], left[i])) &&
    ((k < |left| && k < |right| && lt(left[k], right[k])) || (k == |left| && k < |right|))
  }

  /** `Less` agrees with the reference meaning, in both directions. */
  lemma {:induction false} LessIffWitness<T>(left: seq<T>, right: seq<T>, lt: (T, T) -> bool)
    ensures Less(left, right, lt) <==> exists k: nat :: LessAt(left, right, lt, k)
  {
    if left == [] || right == [] {
      if Less(left, right, lt) {
        assert LessAt(left, right, lt, 0);
      }
    } else if lt(left[0], right[0]) {
      assert LessAt(left, right, lt, 0);
    } else if lt(right[0], left[0]) {
      forall k: nat | LessAt(left, right, lt, k) ensures false {
      }
    } else {
      LessIffWitness(left[1..], right[1..], lt);
      if Less(left, right, lt) {
        var k: nat :| LessAt(left[1..], right[1..], lt, k);
        assert LessAt(left, right, lt, k + 1);
      }
      if k: nat :| LessAt(left, right, lt, k) {
        assert k > 0;
        assert LessAt(left[1..], right[1..], lt, k - 1);
      }
    }
  }

  /** No sequence is less than itself when the element order is irreflexive. */
  lemma {:induction false} LessIrreflexive<T(!new)>(s: seq<T>, lt: (T, T) -> bool)
    requires Irreflexive(lt)
    ensures !Less(s, s, lt)
  {
    if s != [] {
      LessIrreflexive(s[1..], lt);
    }
  }

  /** Lexicographical `<` is transitive over a strict weak element order. */
  lemma {:induction false} LessTransitive<T(!new)>(a: seq<T>, b: seq<T>, c: seq<T>, lt: (T, T) -> bool)
    requires StrictWeakOrder(lt)
    requires Less(a, b, lt) && Less(b, c, lt)
    ensures Less(a, c, lt)
  {
    if a != [] && b != [] && c != [] {
      if !lt(a[0], b[0]) && !lt(b[0], c[0]) {
        LessTransitive(a[1..], b[1..], c[1..], lt);
      }
    }
  }

  /** Over a strict total element order exactly one of `a < b`, `a == b`,
      `b < a` holds. */
  lemma {:induction false} LessTrichotomy<T(!new)>(a: seq<T>, b: seq<T>, lt: (T, T) -> bool)
    requires StrictTotalOrder(lt)
    ensures Less(a, b, lt) || a == b || Less(b, a, lt)
    ensures !(Less(a, b, lt) && Less(b, a, lt))
    ensures a == b ==> !Less(a, b, lt)
  {
    if a == b {
      LessIrreflexive(a, lt);
    } else if a != [] && b != [] {
      LessTrichotomy(a[1..], b[1..], lt);
      if a[0] == b[0] {
        assert a == [a[0]] + a[1..] && b == [b[0]] + b[1..];
      }
    }
  }

  /** Over a strict total element order, `<=` as written is the negation
      of `>`, and `>=` the negation of `<`. */
  lemma LessOrEqualIsNotGreater<T(!new)>(a: seq<T>, b: seq<T>, lt: (T, T) -> bool)
    requires StrictTotalOrder(lt)
    ensures LessOrEqual(a, b, lt) <==> !Greater(a, b, lt)
    ensures GreaterOrEqual(a, b, lt) <==> !Less(a, b, lt)
  {
    LessTrichotomy(a, b, lt);
  }

  /** Over a strict weak order that is not total, `<=` as written (which
      uses element `==`) is not the negation of `>`: comparing by tens, [1]
      and [2] are equivalent, so neither `[1] <= [2]` nor `[1] > [2]` holds. */
  lemma LessOrEqualNeedsTotalOrder()
    ensures StrictWeakOrder((x: int, y: int) => x / 10 < y / 10)
    ensures !LessOrEqual([1], [2], (x: int, y: int) => x / 10 < y / 10)
    ensures !Greater([1], [2], (x: int, y: int) => x / 10 < y / 10)
  {
  }

  /** A proper extension compares greater than its prefix. */
  lemma {:induction false} PrefixIsLess<T>(s: seq<T>, t: seq<T>, lt: (T, T) -> bool)
    requires t != []
    ensures Less(s, s + t, lt)
  {
    if s != [] {
      assert (s + t)[1..] == s[1..] + t;
      PrefixIsLess(s[1..], t, lt);
    }
  }
}
