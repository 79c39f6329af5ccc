/**
 One-to-one assignments between two sequences under a relation `ok`, where the members of
 the second one that are not `wild` accept only themselves.
 */
module Pairings {
  import opened Common
  import opened Permutations

  /** `p` sends every `inp` to its own `rec`, which accepts it. */
  ghost predicate Pairing<T(!new)>(ok: (T, T) -> bool, inp: seq<T>, rec: seq<T>, p: seq<int>) {
    && |p| == |inp| == |rec| && Injective(p, |rec|)
    && forall i :: 0 <= i < |p| ==> ok(inp[i], rec[p[i]])
  }

  ghost predicate Pairable<T(!new)>(ok: (T, T) -> bool, inp: seq<T>, rec: seq<T>) {
    exists p :: Pairing(ok, inp, rec, p)
  }

  /** The members of `rec` that are wild, or those that are not, in order. */
  function Part<T>(wild: T -> bool, rec: seq<T>, keep: bool): (r: seq<T>)
    ensures forall s :: s in r ==> wild(s) == keep && s in rec
    ensures |r| <= |rec|
  {
    if rec == [] then []
    else (if wild(rec[0]) == keep then [rec[0]] else []) + Part(wild, rec[1..], keep)
  }

  lemma PartUnfold<T>(wild: T -> bool, x: T, rest: seq<T>, keep: bool)
    ensures Part(wild, [x] + rest, keep) == (if wild(x) == keep then [x] else []) + Part(wild, rest, keep)
  {
    assert ([x] + rest)[1..] == rest;
  }

  lemma {:induction false} PartAppend<T>(wild: T -> bool, rec: seq<T>, x: T, keep: bool)
    ensures Part(wild, rec + [x], keep) == Part(wild, rec, keep) + (if wild(x) == keep then [x] else [])
  {
    if rec == [] {
      assert rec + [x] == [x] + [];
      PartUnfold(wild, x, [], keep);
    } else {
      var y, rest := rec[0], rec[1..];
      assert rec == [y] + rest && rec + [x] == [y] + (rest + [x]);
      PartUnfold(wild, y, rest, keep);
      PartUnfold(wild, y, rest + [x], keep);
      PartAppend(wild, rest, x, keep);
    }
  }

  lemma {:induction false} PartPrefix<T>(wild: T -> bool, rec: seq<T>, i: int, keep: bool)
    requires 0 <= i <= |rec|
    ensures |Part(wild, rec[..i], keep)| <= |Part(wild, rec, keep)|
    decreases |rec| - i
  {
    if i == |rec| {
      assert rec[..i] == rec;
    } else {
      PartPrefix(wild, rec, i + 1, keep);
      assert rec[..i + 1] == rec[..i] + [rec[i]];
      PartAppend(wild, rec[..i], rec[i], keep);
    }
  }

  ghost predicate ExactUnlessWild<T(!new)>(ok: (T, T) -> bool, wild: T -> bool) {
    forall i, r :: (i == r ==> ok(i, r)) && (ok(i, r) && !wild(r) ==> i == r)
  }

  // ----- Pairings depend only on the contents of both sides -----

  ghost predicate RowByRow<T(!new)>(ok: (T, T) -> bool, a: seq<T>, b: seq<T>) {
    |a| == |b| && forall i :: 0 <= i < |a| ==> ok(a[i], b[i])
  }

  ghost predicate Arranged<T(!new)>(ok: (T, T) -> bool, inp: multiset<T>, rec: multiset<T>, a: seq<T>, b: seq<T>) {
    multiset(a) == inp && multiset(b) == rec && RowByRow(ok, a, b)
  }

  /** Some arrangement of `inp` satisfies some arrangement of `rec` row by row. */
  ghost predicate Aligned<T(!new)>(ok: (T, T) -> bool, inp: multiset<T>, rec: multiset<T>) {
    exists a, b :: Arranged(ok, inp, rec, a, b)
  }

  lemma PairingFromRows<T(!new)>(ok: (T, T) -> bool, inp: seq<T>, rec: seq<T>, a: seq<T>, b: seq<T>)
    requires Arranged(ok, multiset(inp), multiset(rec), a, b)
    ensures Pairable(ok, inp, rec)
  {
    var s := FindPermutation(inp, a);
    var t := FindPermutation(b, rec);
    var p := Pick(t, s);
    forall i | 0 <= i < |p| ensures 0 <= p[i] < |rec| && ok(inp[i], rec[p[i]]) {
      assert inp[i] == a[s[i]] && b[s[i]] == rec[t[s[i]]];
    }
    assert Pairing(ok, inp, rec, p);
  }

  lemma PairableIffAligned<T(!new)>(ok: (T, T) -> bool, inp: seq<T>, rec: seq<T>)
    ensures Pairable(ok, inp, rec) <==> Aligned(ok, multiset(inp), multiset(rec))
  {
    if Pairable(ok, inp, rec) {
      var p :| Pairing(ok, inp, rec, p);
      PickContents(rec, p);
      assert Arranged(ok, multiset(inp), multiset(rec), inp, Pick(rec, p));
    }
    if Aligned(ok, multiset(inp), multiset(rec)) {
      var a, b :| Arranged(ok, multiset(inp), multiset(rec), a, b);
      PairingFromRows(ok, inp, rec, a, b);
    }
  }

  // ----- Cancelling the members that accept only themselves -----

  lemma PartCons<T>(wild: T -> bool, x: T, rest: seq<T>, keep: bool)
    ensures multiset(Part(wild, [x] + rest, keep)) ==
            (if wild(x) == keep then multiset{x} else multiset{}) + multiset(Part(wild, rest, keep))
  {
    PartUnfold(wild, x, rest, keep);
    ConsContents(x, Part(wild, rest, keep));
  }

  lemma {:induction false} PartContents<T>(wild: T -> bool, rec: seq<T>)
    ensures multiset(rec) == multiset(Part(wild, rec, true)) + multiset(Part(wild, rec, false))
  {
    if rec != [] {
      var x, rest := rec[0], rec[1..];
      assert rec == [x] + rest;
      PartContents(wild, rest);
      ConsContents(x, rest);
      PartCons(wild, x, rest, true);
      PartCons(wild, x, rest, false);
    }
  }

  /** `ga` is what remains of `a` for the wild members of `b` once the exact rows cancel. */
  ghost predicate Reduced<T(!new)>(ok: (T, T) -> bool, wild: T -> bool, a: seq<T>, b: seq<T>, ga: seq<T>) {
    && RowByRow(ok, ga, Part(wild, b, true))
    && multiset(a) == multiset(ga) + multiset(Part(wild, b, false))
  }

  lemma WildRow<T(!new)>(ok: (T, T) -> bool, wild: T -> bool, x: T, a: seq<T>, y: T, b: seq<T>, ga: seq<T>)
    requires Reduced(ok, wild, a, b, ga) && ok(x, y) && wild(y)
    ensures Reduced(ok, wild, [x] + a, [y] + b, [x] + ga)
  {
    PartUnfold(wild, y, b, true);
    PartUnfold(wild, y, b, false);
    ConsContents(x, a);
    ConsContents(x, ga);
  }

  lemma ExactRow<T(!new)>(ok: (T, T) -> bool, wild: T -> bool, a: seq<T>, y: T, b: seq<T>, ga: seq<T>)
    requires Reduced(ok, wild, a, b, ga) && !wild(y)
    ensures Reduced(ok, wild, [y] + a, [y] + b, ga)
  {
    PartUnfold(wild, y, b, true);
    PartUnfold(wild, y, b, false);
    ConsContents(y, a);
    ConsContents(y, Part(wild, b, false));
  }

  lemma {:induction false} SplitRows<T(!new)>(ok: (T, T) -> bool, wild: T -> bool, a: seq<T>, b: seq<T>)
    returns (ga: seq<T>)
    requires RowByRow(ok, a, b) && ExactUnlessWild(ok, wild)
    ensures Reduced(ok, wild, a, b, ga)
  {
    if a == [] {
      ga := [];
    } else {
      assert a == [a[0]] + a[1..] && b == [b[0]] + b[1..];
      ga := SplitRows(ok, wild, a[1..], b[1..]);
      assert ok(a[0], b[0]);
      if wild(b[0]) {
        WildRow(ok, wild, a[0], a[1..], b[0], b[1..], ga);
        ga := [a[0]] + ga;
      } else {
        ExactRow(ok, wild, a[1..], b[0], b[1..], ga);
      }
    }
  }

  lemma SameParts<T(!new)>(wild: T -> bool, g: multiset<T>, n: multiset<T>, g': multiset<T>, n': multiset<T>)
    requires g + n == g' + n'
    requires forall s :: s in g || s in g' ==> wild(s)
    requires forall s :: s in n || s in n' ==> !wild(s)
    ensures g == g' && n == n'
  {
    forall s: T ensures g[s] == g'[s] && n[s] == n'[s] {
      assert (g + n)[s] == (g' + n')[s];
    }
  }

  lemma PartsOfArrangement<T(!new)>(wild: T -> bool, rec: seq<T>, b: seq<T>)
    requires multiset(b) == multiset(rec)
    ensures multiset(Part(wild, b, true)) == multiset(Part(wild, rec, true))
    ensures multiset(Part(wild, b, false)) == multiset(Part(wild, rec, false))
  {
    PartContents(wild, rec);
    PartContents(wild, b);
    SameParts(wild, multiset(Part(wild, b, true)), multiset(Part(wild, b, false)),
              multiset(Part(wild, rec, true)), multiset(Part(wild, rec, false)));
  }

  lemma AppendRows<T(!new)>(ok: (T, T) -> bool, wild: T -> bool, a: seq<T>, b: seq<T>, c: seq<T>)
    requires RowByRow(ok, a, b) && ExactUnlessWild(ok, wild)
    ensures RowByRow(ok, a + c, b + c)
    ensures multiset(a + c) == multiset(a) + multiset(c) && multiset(b + c) == multiset(b) + multiset(c)
  {
  }

  lemma DropExact<T(!new)>(ok: (T, T) -> bool, wild: T -> bool, inp: multiset<T>, rec: seq<T>)
    requires ExactUnlessWild(ok, wild) && Aligned(ok, inp, multiset(rec))
    ensures multiset(Part(wild, rec, false)) <= inp
    ensures Aligned(ok, inp - multiset(Part(wild, rec, false)), multiset(Part(wild, rec, true)))
  {
    var a, b :| Arranged(ok, inp, multiset(rec), a, b);
    var ga := SplitRows(ok, wild, a, b);
    PartsOfArrangement(wild, rec, b);
    assert multiset(ga) == inp - multiset(Part(wild, rec, false));
    assert Arranged(ok, inp - multiset(Part(wild, rec, false)), multiset(Part(wild, rec, true)), ga,
                    Part(wild, b, true));
  }

  lemma AddExact<T(!new)>(ok: (T, T) -> bool, wild: T -> bool, inp: multiset<T>, rec: multiset<T>,
                          exact: seq<T>, a: seq<T>, b: seq<T>)
    requires ExactUnlessWild(ok, wild) && multiset(exact) <= inp && multiset(exact) <= rec
    requires Arranged(ok, inp - multiset(exact), rec - multiset(exact), a, b)
    ensures Aligned(ok, inp, rec)
  {
    AppendRows(ok, wild, a, b, exact);
    PutBack(inp, multiset(exact));
    PutBack(rec, multiset(exact));
    assert Arranged(ok, inp, rec, a + exact, b + exact);
  }

  lemma PutBack<T>(m: multiset<T>, n: multiset<T>)
    requires n <= m
    ensures (m - n) + n == m
  {
  }

  /** Cancelling is exact: the exact members must be present, and the rest must pair up. */
  lemma Prefilter<T(!new)>(ok: (T, T) -> bool, wild: T -> bool, inp: seq<T>, rec: seq<T>)
    requires ExactUnlessWild(ok, wild)
    ensures Pairable(ok, inp, rec) <==>
            multiset(Part(wild, rec, false)) <= multiset(inp) &&
            Aligned(ok, multiset(inp) - multiset(Part(wild, rec, false)), multiset(Part(wild, rec, true)))
  {
    PairableIffAligned(ok, inp, rec);
    if Aligned(ok, multiset(inp), multiset(rec)) {
      DropExact(ok, wild, multiset(inp), rec);
    } else if multiset(Part(wild, rec, false)) <= multiset(inp) {
      if Aligned(ok, multiset(inp) - multiset(Part(wild, rec, false)), multiset(Part(wild, rec, true))) {
        var a, b :| Arranged(ok, multiset(inp) - multiset(Part(wild, rec, false)), multiset(Part(wild, rec, true)), a,
                             b);
        PartContents(wild, rec);
        assert multiset(rec) - multiset(Part(wild, rec, false)) == multiset(Part(wild, rec, true));
        AddExact(ok, wild, multiset(inp), multiset(rec), Part(wild, rec, false), a, b);
      }
    }
  }
}
