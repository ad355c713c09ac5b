/** Generic sequence helpers: concatenation of a list of lists, distinctness,
    and the order-keeping duplicate removal that stands for `list(set(xs))`. */
module Seqs {

  /** All lists of `xss` joined end to end (what repeated `list.extend` builds). */
  function Flatten<T>(xss: seq<seq<T>>): seq<T>
  {
    if |xss| == 0 then [] else xss[0] + Flatten(xss[1..])
  }

  lemma FlattenAppend<T>(xss: seq<seq<T>>, ys: seq<T>)
    ensures Flatten(xss + [ys]) == Flatten(xss) + ys
  {
    if |xss| == 0 {
      assert xss + [ys] == [ys];
    } else {
      assert (xss + [ys])[1..] == xss[1..] + [ys];
      FlattenAppend(xss[1..], ys);
    }
  }

  ghost predicate Distinct<T>(xs: seq<T>)
  {
    forall i, j :: 0 <= i < j < |xs| ==> xs[i] != xs[j]
  }

  ghost function Elements<T>(xs: seq<T>): set<T>
  {
    set x | x in xs
  }

  lemma DistinctSnoc<T>(xs: seq<T>, x: T)
    ensures Distinct(xs + [x]) <==> Distinct(xs) && x !in xs
  {
    var ys := xs + [x];
    if Distinct(ys) {
      forall i, j | 0 <= i < j < |xs| ensures xs[i] != xs[j] {
        assert ys[i] != ys[j];
      }
      forall k | 0 <= k < |xs| ensures xs[k] != x {
        assert ys[k] != ys[|xs|];
      }
    }
    if Distinct(xs) && x !in xs {
      forall i, j | 0 <= i < j < |ys| ensures ys[i] != ys[j] {
        assert ys[i] == xs[i];
        if j < |xs| {
          assert ys[j] == xs[j];
        }
      }
    }
  }

  lemma ElementsSnoc<T>(xs: seq<T>, x: T)
    ensures Elements(xs + [x]) == Elements(xs) + {x}
  {
    var ys := xs + [x];
    forall y | y in Elements(ys) ensures y in Elements(xs) + {x} {
      var k :| 0 <= k < |ys| && ys[k] == y;
      if k < |xs| {
        assert xs[k] == y;
      }
    }
    forall y | y in Elements(xs) + {x} ensures y in Elements(ys) {
      if y != x {
        var k :| 0 <= k < |xs| && xs[k] == y;
        assert ys[k] == y;
      } else {
        assert ys[|xs|] == y;
      }
    }
  }

  /** Keeps the first occurrence of every value. Python's `list(set(xs))`
      has the same elements in an unspecified order; only order-free facts
      about the result are promised here. */
  function Dedupe<T(==)>(xs: seq<T>): (r: seq<T>)
    ensures forall i :: 0 <= i < |r| ==> r[i] in xs
    ensures forall i :: 0 <= i < |xs| ==> xs[i] in r
    ensures Distinct(r)
    ensures |r| == |Elements(xs)|
    ensures |r| <= |xs|
    ensures |r| == |xs| <==> Distinct(xs)
  {
    if |xs| == 0 then []
    else
      var init := xs[..|xs| - 1];
      var last := xs[|xs| - 1];
      var d := Dedupe(init);
      assert xs == init + [last];
      ElementsSnoc(init, last);
      DistinctSnoc(init, last);
      if last in d then
        assert last in init;
        var k :| 0 <= k < |init| && init[k] == last;
        assert last in Elements(init);
        assert Elements(xs) == Elements(init);
        d
      else
        assert last !in Elements(init);
        assert |Elements(xs)| == |Elements(init)| + 1;
        DistinctSnoc(d, last);
        d + [last]
  }
}
