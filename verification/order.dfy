/** Python's ordering of `str` values, which `sorted` uses: lexicographic
    comparison of code points, a proper prefix sorting first. */
module Order {

  /** `a < b` on Python strings: nothing sorts before the empty string,
      and a proper prefix sorts before the longer string. */
  predicate Less(a: string, b: string)
    ensures Less(a, b) ==> |b| > 0
    ensures |a| < |b| && a == b[..|a|] ==> Less(a, b)
    decreases |a|
  {
    assert |a| > 0 && |a| < |b| && a == b[..|a|] ==> a[1..] == b[1..][..|a| - 1];
    |b| > 0 && (|a| == 0 || a[0] < b[0] || (a[0] == b[0] && Less(a[1..], b[1..])))
  }

  /** `Less` is the lexicographic order: at the first position where two
      strings differ, the smaller code point decides. */
  lemma {:induction false} LessAtFirstDifference(a: string, b: string, k: nat)
    requires k < |a| && k < |b| && a[..k] == b[..k] && a[k] != b[k]
    ensures Less(a, b) <==> a[k] < b[k]
    decreases k
  {
    if k > 0 {
      assert a[0] == a[..k][0] && b[0] == b[..k][0];
      assert a[1..][..k - 1] == a[..k][1..] && b[1..][..k - 1] == b[..k][1..];
      LessAtFirstDifference(a[1..], b[1..], k - 1);
    }
  }

  lemma {:induction false} LessIrreflexive(a: string)
    ensures !Less(a, a)
    decreases |a|
  {
    if |a| > 0 {
      LessIrreflexive(a[1..]);
    }
  }

  lemma {:induction false} LessTransitive(a: string, b: string, c: string)
    requires Less(a, b) && Less(b, c)
    ensures Less(a, c)
    decreases |a|
  {
    if |a| > 0 && a[0] == b[0] && b[0] == c[0] {
      LessTransitive(a[1..], b[1..], c[1..]);
    }
  }

  /** Any two distinct strings are ordered one way or the other. */
  lemma {:induction false} LessTotal(a: string, b: string)
    requires a != b
    ensures Less(a, b) || Less(b, a)
    decreases |a|
  {
    if |a| > 0 && |b| > 0 && a[0] == b[0] {
      assert a == [a[0]] + a[1..] && b == [b[0]] + b[1..];
      LessTotal(a[1..], b[1..]);
    }
  }

  /** `Less` is a strict total order. */
  lemma StrictTotalOrder()
    ensures forall a :: !Less(a, a)
    ensures forall a, b, c :: Less(a, b) && Less(b, c) ==> Less(a, c)
    ensures forall a, b :: a != b ==> Less(a, b) || Less(b, a)
  {
    forall a {
      LessIrreflexive(a);
    }
    forall a, b, c | Less(a, b) && Less(b, c) {
      LessTransitive(a, b, c);
    }
    forall a, b | a != b {
      LessTotal(a, b);
    }
  }

  /** Every element precedes every later one: sorted with no duplicates. */
  ghost predicate StrictlyAscending(xs: seq<string>)
  {
    forall i, j :: 0 <= i < j < |xs| ==> Less(xs[i], xs[j])
  }

  /** The set of elements of a sequence. */
  ghost function Elems(xs: seq<string>): set<string>
  {
    set x | x in xs
  }

  lemma ElemsCons(a: string, xs: seq<string>)
    ensures Elems([a] + xs) == {a} + Elems(xs)
  {
    assert forall y :: y in [a] + xs <==> y == a || y in xs;
  }

  lemma ElemsHead(xs: seq<string>)
    ensures |xs| > 0 ==> xs[0] in Elems(xs)
  {
  }

  /** Adds `x` to a sorted duplicate-free sequence, keeping it sorted and
      duplicate-free: the combined effect of `set.add` and `sorted`. */
  function Insert(xs: seq<string>, x: string): (r: seq<string>)
    requires StrictlyAscending(xs)
    ensures StrictlyAscending(r)
    ensures Elems(r) == Elems(xs) + {x}
    decreases |xs|
  {
    if |xs| == 0 then [x]
    else if x == xs[0] then xs
    else if Less(x, xs[0]) then
      assert forall j :: 0 < j < |xs| ==> Less(x, xs[j]) by {
        forall j | 0 < j < |xs|
          ensures Less(x, xs[j])
        {
          LessTransitive(x, xs[0], xs[j]);
        }
      }
      [x] + xs
    else
      var rest := Insert(xs[1..], x);
      LessTotal(x, xs[0]);
      assert xs == [xs[0]] + xs[1..];
      ElemsCons(xs[0], xs[1..]);
      ElemsCons(xs[0], rest);
      assert forall j :: 0 <= j < |rest| ==> Less(xs[0], rest[j]) by {
        forall j | 0 <= j < |rest|
          ensures Less(xs[0], rest[j])
        {
          assert rest[j] in Elems(rest);
          if rest[j] != x {
            var m :| 0 <= m < |xs[1..]| && xs[1..][m] == rest[j];
            assert xs[m + 1] == rest[j];
          }
        }
      }
      [xs[0]] + rest
  }

  /** A set has only one strictly ascending enumeration, so a sorted
      duplicate-free sequence is determined by its elements alone. */
  lemma {:induction false} AscendingUnique(xs: seq<string>, ys: seq<string>)
    requires StrictlyAscending(xs) && StrictlyAscending(ys)
    requires Elems(xs) == Elems(ys)
    ensures xs == ys
    decreases |xs|
  {
    if |xs| == 0 {
      ElemsHead(ys);
    } else {
      assert xs[0] in Elems(ys);
      assert |ys| > 0;
      assert ys[0] in Elems(xs);
      StrictTotalOrder();
      assert xs[0] == ys[0];
      assert Elems(xs[1..]) == Elems(ys[1..]) by {
        assert xs == [xs[0]] + xs[1..] && ys == [ys[0]] + ys[1..];
        ElemsCons(xs[0], xs[1..]);
        ElemsCons(ys[0], ys[1..]);
        assert xs[0] !in Elems(xs[1..]);
        assert ys[0] !in Elems(ys[1..]);
      }
      AscendingUnique(xs[1..], ys[1..]);
    }
  }
}
