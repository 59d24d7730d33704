/** Facts about splitting a sequence at its last element, and the filtering
    map that the designspace code writes as a list comprehension.

    Each fact is a lemma of its own so that a proof by induction on the prefix
    never has the equation `s == s[..|s| - 1] + [s[|s| - 1]]` in scope next to
    the definitions it unfolds. */
module Seqs {

  import opened Basics

  /** A non-empty sequence is its prefix followed by its last element. */
  lemma DropLast<T>(s: seq<T>)
    requires |s| > 0
    ensures s == s[..|s| - 1] + [s[|s| - 1]]
  {
  }

  lemma MemberDropLast<T>(s: seq<T>)
    requires |s| > 0
    ensures forall x :: x in s <==> x in s[..|s| - 1] || x == s[|s| - 1]
  {
    DropLast(s);
  }

  lemma MultisetDropLast<T>(s: seq<T>)
    requires |s| > 0
    ensures multiset(s) == multiset(s[..|s| - 1]) + multiset{s[|s| - 1]}
  {
    DropLast(s);
  }

  lemma MultisetSnoc<T>(s: seq<T>, x: T)
    ensures multiset(s + [x]) == multiset(s) + multiset{x}
  {
  }

  /** Adding an element to one part of a split adds it to the whole. */
  lemma AddToOnePart<T>(a: multiset<T>, b: multiset<T>, whole: multiset<T>, x: T)
    requires a + b == whole
    ensures (a + multiset{x}) + b == whole + multiset{x}
    ensures b + (a + multiset{x}) == whole + multiset{x}
  {
  }

  /** `[y for x in xs if (y := f(x)) is not None]`: the `Some` results of `f`, in order. */
  function FilterMap<A, B(!new)>(xs: seq<A>, f: A -> Option<B>): (r: seq<B>)
    ensures |r| <= |xs|
    ensures forall y :: y in r <==> exists i :: 0 <= i < |xs| && f(xs[i]) == Some(y)
  {
    if |xs| == 0 then []
    else
      var n := |xs| - 1;
      var prev := FilterMap(xs[..n], f);
      var r := match f(xs[n])
        case None => prev
        case Some(y) => prev + [y];
      assert forall y :: y in r <==> exists i :: 0 <= i < |xs| && f(xs[i]) == Some(y) by {
        forall y ensures y in r <==> exists i :: 0 <= i < |xs| && f(xs[i]) == Some(y) {
          if y in prev {
            var i :| 0 <= i < n && f(xs[..n][i]) == Some(y);
            assert xs[i] == xs[..n][i];
          } else if y in r {
            assert f(xs[n]) == Some(y);
          }
          if exists i :: 0 <= i < |xs| && f(xs[i]) == Some(y) {
            var i :| 0 <= i < |xs| && f(xs[i]) == Some(y);
            if i < n {
              assert xs[..n][i] == xs[i];
            }
          }
        }
      }
      r
  }

  /** A single item contributes its `Some` value, or nothing. */
  lemma FilterMapOne<A, B(!new)>(x: A, f: A -> Option<B>)
    ensures FilterMap([x], f) == (match f(x) case None => [] case Some(y) => [y])
  {
    assert [x][..0] == [];
  }

  /** Appending one item appends its contribution. */
  lemma FilterMapSnoc<A, B(!new)>(xs: seq<A>, x: A, f: A -> Option<B>)
    ensures FilterMap(xs + [x], f) == FilterMap(xs, f) + FilterMap([x], f)
  {
    assert (xs + [x])[..|xs|] == xs;
    FilterMapOne(x, f);
  }

  /** Filtering a concatenation filters each part: the kept items keep their
      order, and each input item contributes at most once. */
  lemma {:induction false} FilterMapAppend<A, B(!new)>(xs: seq<A>, ys: seq<A>, f: A -> Option<B>)
    ensures FilterMap(xs + ys, f) == FilterMap(xs, f) + FilterMap(ys, f)
    decreases |ys|
  {
    if |ys| == 0 {
      assert xs + ys == xs;
    } else {
      var n := |ys| - 1;
      var init := ys[..n];
      var last := ys[n];
      assert xs + ys == (xs + init) + [last] by {
        DropLast(ys);
      }
      assert ys == init + [last] by {
        DropLast(ys);
      }
      FilterMapAppend(xs, init, f);
      FilterMapSnoc(xs + init, last, f);
      FilterMapSnoc(init, last, f);
    }
  }

  /** When every item maps to itself, nothing is dropped or reordered. */
  lemma {:induction false} FilterMapKeepsAll<A(!new)>(xs: seq<A>, f: A -> Option<A>)
    requires forall i :: 0 <= i < |xs| ==> f(xs[i]) == Some(xs[i])
    ensures FilterMap(xs, f) == xs
  {
    if |xs| > 0 {
      var n := |xs| - 1;
      assert forall i :: 0 <= i < n ==> xs[..n][i] == xs[i];
      FilterMapKeepsAll(xs[..n], f);
      DropLast(xs);
    }
  }

  /** `{f(x) for x in s}`. */
  function Image<T, U>(s: seq<T>, f: T -> U): set<U> {
    set i | 0 <= i < |s| :: f(s[i])
  }

  /** The image of a sequence: the image of all but the last item, plus the last one's. */
  lemma ImageDropLast<T, U>(s: seq<T>, f: T -> U)
    requires |s| > 0
    ensures Image(s, f) == Image(s[..|s| - 1], f) + {f(s[|s| - 1])}
  {
    var n := |s| - 1;
    forall x | x in Image(s, f) ensures x in Image(s[..n], f) + {f(s[n])} {
      var i :| 0 <= i < |s| && x == f(s[i]);
      if i < n {
        assert s[..n][i] == s[i];
      }
    }
    forall x | x in Image(s[..n], f) ensures x in Image(s, f) {
      var i :| 0 <= i < n && x == f(s[..n][i]);
      assert s[..n][i] == s[i];
    }
    assert f(s[n]) in Image(s, f);
  }

  /** `[f(x) for x in xs]` where `f` may raise: the results in order, or the
      error of the first item that fails. */
  function MapAll<A, B>(xs: seq<A>, f: A -> Result<B>): (r: Result<seq<B>>)
    ensures r.Ok? <==> forall i :: 0 <= i < |xs| ==> f(xs[i]).Ok?
    ensures r.Ok? ==> |r.value| == |xs| && forall i :: 0 <= i < |xs| ==> f(xs[i]) == Ok(r.value[i])
    ensures r.Err? ==> exists i ::
      && 0 <= i < |xs| && f(xs[i]).Err?
      && (forall j :: 0 <= j < i ==> f(xs[j]).Ok?)
      && r.error == f(xs[i]).error
  {
    if |xs| == 0 then Ok([])
    else
      var tail := xs[1..];
      assert forall i :: 1 <= i < |xs| ==> tail[i - 1] == xs[i];
      var head :- f(xs[0]);
      match MapAll(tail, f)
      case Err(e) =>
        assert exists i ::
          && 0 <= i < |xs| && f(xs[i]).Err?
          && (forall j :: 0 <= j < i ==> f(xs[j]).Ok?)
          && e == f(xs[i]).error
        by {
          var k :| 0 <= k < |tail| && f(tail[k]).Err? && (forall j :: 0 <= j < k ==> f(tail[j]).Ok?) && e == f(tail[k]).error;
          assert forall j :: 1 <= j < k + 1 ==> f(xs[j]).Ok?;
        }
        Err(e)
      case Ok(rest) => Ok([head] + rest)
  }
}
