/** Byte-wise string order, and the sorted-range algorithms the craft code takes from the standard library. */
module Strings {
  import opened Common
  import opened Pairings

  predicate Less(a: string, b: string) {
    b != [] && (a == [] || a[0] < b[0] || (a[0] == b[0] && Less(a[1..], b[1..])))
  }

  lemma {:induction false} LessTotal(a: string, b: string)
    ensures Less(a, b) || Less(b, a) || a == b
    ensures !(Less(a, b) && Less(b, a)) && !Less(a, a)
  {
    if a != [] && b != [] && a[0] == b[0] {
      LessTotal(a[1..], b[1..]);
      assert a == [a[0]] + a[1..] && b == [b[0]] + b[1..];
    }
    if a != [] {
      LessTotal(a[1..], a[1..]);
    }
  }

  lemma {:induction false} LessTrans(a: string, b: string, c: string)
    requires Less(a, b) && Less(b, c)
    ensures Less(a, c)
  {
    if a != [] && a[0] == b[0] && b[0] == c[0] {
      LessTrans(a[1..], b[1..], c[1..]);
    }
  }

  predicate Sorted(s: seq<string>) {
    |s| > 1 ==> !Less(s[1], s[0]) && Sorted(s[1..])
  }

  /** In a sorted sequence the head is a least element. */
  lemma {:induction false} HeadIsLeast(s: seq<string>, x: string)
    requires Sorted(s) && x in s
    ensures !Less(x, s[0])
  {
    LessTotal(s[0], s[0]);
    if x != s[0] {
      assert x in s[1..];
      HeadIsLeast(s[1..], x);
      if Less(x, s[0]) {
        LessTotal(s[1], x);
        LessTotal(s[0], s[1]);
        if s[1] != x && s[0] != s[1] {
          LessTrans(s[1], x, s[0]) by {
            LessTotal(s[1], x);
          }
        }
      }
    }
  }

  function Insert(x: string, s: seq<string>): (r: seq<string>)
    ensures multiset(r) == multiset{x} + multiset(s)
  {
    if s == [] || Less(x, s[0]) then [x] + s
    else
      assert s == [s[0]] + s[1..];
      [s[0]] + Insert(x, s[1..])
  }

  lemma {:induction false} InsertSorted(x: string, s: seq<string>)
    requires Sorted(s)
    ensures Sorted(Insert(x, s))
    ensures s != [] && !Less(x, s[0]) ==> Insert(x, s)[0] == s[0]
  {
    if s != [] {
      LessTotal(x, s[0]);
      if !Less(x, s[0]) {
        InsertSorted(x, s[1..]);
        var r := Insert(x, s);
        assert r[1..] == Insert(x, s[1..]);
      } else {
        assert ([x] + s)[1..] == s;
      }
    }
  }

  function Sort(s: seq<string>): (r: seq<string>)
    ensures multiset(r) == multiset(s)
    ensures Sorted(r)
  {
    if s == [] then []
    else
      assert s == [s[0]] + s[1..];
      InsertSorted(s[0], Sort(s[1..]));
      Insert(s[0], Sort(s[1..]))
  }

  lemma MultisetSteps(x: string, m: multiset<string>, n: multiset<string>)
    ensures (multiset{x} + m) - (multiset{x} + n) == m - n
    ensures multiset{x} + m == multiset{x} + n ==> m == n
    ensures n[x] == 0 ==> (multiset{x} + m) - n == multiset{x} + (m - n)
    ensures m[x] == 0 ==> m - (multiset{x} + n) == m - n
  {
    assert (multiset{x} + m) - multiset{x} == m && (multiset{x} + n) - multiset{x} == n;
  }

  /** Sorting forgets the original order: equal contents give equal results. */
  lemma {:induction false} SortedUnique(a: seq<string>, b: seq<string>)
    requires Sorted(a) && Sorted(b) && multiset(a) == multiset(b)
    ensures a == b
  {
    assert |multiset(a)| == |a| && |multiset(b)| == |b|;
    if a != [] {
      var x, y := a[0], b[0];
      assert x in multiset(b) && y in multiset(a);
      HeadIsLeast(a, y);
      HeadIsLeast(b, x);
      LessTotal(x, y);
      assert a == [x] + a[1..] && b == [x] + b[1..];
      ConsContents(x, a[1..]);
      ConsContents(x, b[1..]);
      MultisetSteps(x, multiset(a[1..]), multiset(b[1..]));
      SortedUnique(a[1..], b[1..]);
    }
  }

  /** Merge-style difference of two sorted ranges, each element of `b` cancelling one of `a`. */
  function SetDifference(a: seq<string>, b: seq<string>): (r: seq<string>)
    decreases |a| + |b|
  {
    if a == [] then []
    else if b == [] then a
    else if Less(a[0], b[0]) then [a[0]] + SetDifference(a[1..], b)
    else if Less(b[0], a[0]) then SetDifference(a, b[1..])
    else SetDifference(a[1..], b[1..])
  }

  lemma BelowHead(x: string, s: seq<string>)
    requires Sorted(s) && s != [] && Less(x, s[0])
    ensures multiset(s)[x] == 0
  {
    if x in s { HeadIsLeast(s, x); }
  }

  ghost predicate Differs(d: seq<string>, a: seq<string>, b: seq<string>) {
    multiset(d) == multiset(a) - multiset(b)
  }

  lemma KeepHead(x: string, a: seq<string>, b: seq<string>, d: seq<string>)
    requires Differs(d, a, b) && multiset(b)[x] == 0
    ensures Differs([x] + d, [x] + a, b)
  {
    MultisetSteps(x, multiset(a), multiset(b));
  }

  lemma SkipHead(y: string, a: seq<string>, b: seq<string>, d: seq<string>)
    requires Differs(d, a, b) && multiset(a)[y] == 0
    ensures Differs(d, a, [y] + b)
  {
    MultisetSteps(y, multiset(a), multiset(b));
  }

  lemma CancelHead(x: string, a: seq<string>, b: seq<string>, d: seq<string>)
    requires Differs(d, a, b)
    ensures Differs(d, [x] + a, [x] + b)
  {
    MultisetSteps(x, multiset(a), multiset(b));
  }

  lemma DropHead(s: seq<string>)
    requires Sorted(s) && s != []
    ensures s == [s[0]] + s[1..] && Sorted(s[1..])
  {
    assert |s| == 1 ==> s[1..] == [];
  }

  lemma {:induction false} SetDifferenceContents(a: seq<string>, b: seq<string>)
    requires Sorted(a) && Sorted(b)
    ensures Differs(SetDifference(a, b), a, b)
    decreases |a| + |b|
  {
    if a != [] && b != [] {
      DropHead(a);
      DropHead(b);
      LessTotal(a[0], b[0]);
      if Less(a[0], b[0]) {
        BelowHead(a[0], b);
        SetDifferenceContents(a[1..], b);
        KeepHead(a[0], a[1..], b, SetDifference(a[1..], b));
      } else if Less(b[0], a[0]) {
        BelowHead(b[0], a);
        SetDifferenceContents(a, b[1..]);
        SkipHead(b[0], a, b[1..], SetDifference(a, b[1..]));
      } else {
        SetDifferenceContents(a[1..], b[1..]);
        CancelHead(a[0], a[1..], b[1..], SetDifference(a[1..], b[1..]));
      }
    }
  }

  lemma ConsSorted(x: string, s: seq<string>)
    requires Sorted(s) && (s != [] ==> !Less(s[0], x))
    ensures Sorted([x] + s)
  {
    assert ([x] + s)[1..] == s;
  }

  lemma {:induction false} PartSorted(wild: string -> bool, rec: seq<string>, keep: bool)
    requires Sorted(rec)
    ensures Sorted(Part(wild, rec, keep))
  {
    if rec != [] {
      DropHead(rec);
      PartSorted(wild, rec[1..], keep);
      var rest := Part(wild, rec[1..], keep);
      if rest != [] {
        assert rest[0] in rec[1..] && rest[0] in rec;
        HeadIsLeast(rec, rest[0]);
      }
      ConsSorted(rec[0], rest);
      assert Part(wild, rec, keep) == (if wild(rec[0]) == keep then [rec[0]] + rest else rest);
    }
  }
}
