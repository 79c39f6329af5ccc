/**
 Removing "." and ".." from a path.  The string is rewritten in place from the back; what
 results is the path a stack machine would build from the front.
 */
module Paths {
  import opened Common

  /** On Windows the backslash is a delimiter too, and the one that is written. */
  predicate IsDelim(c: char, windows: bool) {
    c == '/' || (windows && c == '\\')
  }

  function Delim(windows: bool): (c: char)
    ensures IsDelim(c, windows)
  {
    if windows then '\\' else '/'
  }

  /** A string cut in two, and in four. */
  lemma Cut<T>(s: seq<T>, i: nat)
    requires i <= |s|
    ensures s == s[..i] + s[i..] && s[0..] == s && s[..0] == []
  {
  }

  lemma CutTwice<T>(s: seq<T>, i: nat, j: nat)
    requires i <= j <= |s|
    ensures s[..j] == s[..i] + s[i..j] && s[i..] == s[i..j] + s[j..]
  {
  }

  // ----- Components -----

  /** One more character: a delimiter, part of the component before it, or the start of one. */
  function Extended(cs: seq<string>, c: char, delim: bool, glued: bool): seq<string> {
    if delim then cs
    else if glued && cs != [] then cs[..|cs| - 1] + [cs[|cs| - 1] + [c]]
    else cs + [[c]]
  }

  predicate EndsInComponent(s: string, windows: bool) {
    s != [] && !IsDelim(s[|s| - 1], windows)
  }

  /** The maximal runs of characters that are not delimiters. */
  function Components(s: string, windows: bool): seq<string> {
    if s == [] then []
    else
      var c, rest := s[|s| - 1], s[..|s| - 1];
      Extended(Components(rest, windows), c, IsDelim(c, windows), EndsInComponent(rest, windows))
  }

  lemma OneMore(s: string, c: char, windows: bool)
    ensures Components(s + [c], windows) ==
            Extended(Components(s, windows), c, IsDelim(c, windows), EndsInComponent(s, windows))
  {
    assert (s + [c])[..|s|] == s;
  }

  lemma ExtendedAppend(a: seq<string>, b: seq<string>, c: char, delim: bool, glued: bool)
    requires glued ==> b != []
    ensures Extended(a + b, c, delim, glued) == a + Extended(b, c, delim, glued)
  {
  }

  /** Cut where a delimiter stands on either side, a path falls apart into its components. */
  lemma {:induction false} ComponentsSplit(a: string, b: string, windows: bool)
    requires b == [] || !EndsInComponent(a, windows) || IsDelim(b[0], windows)
    ensures Components(a + b, windows) == Components(a, windows) + Components(b, windows)
    decreases |b|
  {
    if b == [] {
      assert a + b == a;
    } else {
      var c, b' := b[|b| - 1], b[..|b| - 1];
      ComponentsSplit(a, b', windows);
      OneMore(a + b', c, windows);
      OneMore(b', c, windows);
      assert b == b' + [c] && a + b == (a + b') + [c];
      if b' == [] {
        assert a + b' == a;
      } else {
        LastRunIsAComponent(b', windows);
        ExtendedAppend(Components(a, windows), Components(b', windows), c, IsDelim(c, windows),
                       EndsInComponent(b', windows));
      }
    }
  }

  /** A string that does not end in a delimiter has a last component. */
  lemma LastRunIsAComponent(s: string, windows: bool)
    ensures EndsInComponent(s, windows) ==> Components(s, windows) != []
  {
  }

  ghost predicate AllDelims(s: string, windows: bool) {
    forall i :: 0 <= i < |s| ==> IsDelim(s[i], windows)
  }

  ghost predicate NoDelims(s: string, windows: bool) {
    forall i :: 0 <= i < |s| ==> !IsDelim(s[i], windows)
  }

  lemma {:induction false} DelimsHaveNoComponents(s: string, windows: bool)
    requires AllDelims(s, windows)
    ensures Components(s, windows) == []
  {
    if s != [] {
      DelimsHaveNoComponents(s[..|s| - 1], windows);
    }
  }

  lemma {:induction false} OneComponent(s: string, windows: bool)
    requires s != [] && NoDelims(s, windows)
    ensures Components(s, windows) == [s]
  {
    var rest, c := s[..|s| - 1], s[|s| - 1];
    assert s == rest + [c];
    OneMore(rest, c, windows);
    if rest == [] {
      assert s == [c];
    } else {
      OneComponent(rest, windows);
      assert [rest][..0] + [rest + [c]] == [s];
    }
  }

  lemma TrailingDelims(a: string, d: string, windows: bool)
    requires AllDelims(d, windows)
    ensures Components(a + d, windows) == Components(a, windows)
  {
    DelimsHaveNoComponents(d, windows);
    ComponentsSplit(a, d, windows);
  }

  /** One component between a prefix and the delimiters after it. */
  lemma LastComponent(a: string, w: string, d: string, windows: bool)
    requires !EndsInComponent(a, windows)
    requires w != [] && NoDelims(w, windows) && AllDelims(d, windows)
    ensures Components(a + w + d, windows) == Components(a, windows) + [w]
  {
    TrailingDelims(a + w, d, windows);
    ComponentsSplit(a, w, windows);
    OneComponent(w, windows);
  }

  lemma FirstComponent(w: string, d: string, rest: string, windows: bool)
    requires w != [] && NoDelims(w, windows) && AllDelims(d, windows) && (d != [] || rest == [])
    ensures Components(w + d + rest, windows) == [w] + Components(rest, windows)
  {
    OneComponent(w, windows);
    TrailingDelims(w, d, windows);
    ComponentsSplit(w + d, rest, windows);
  }

  /** A slash separates on every system, a backslash on Windows only. */
  lemma SlashSeparates(x: string, y: string, windows: bool)
    requires x != "" && y != "" && '/' !in x && '/' !in y && '\\' !in x && '\\' !in y
    ensures Components(x + "/" + y, windows) == [x, y]
    ensures Components(x + "\\" + y, windows) == if windows then [x, y] else [x + "\\" + y]
  {
    OneComponent(y, windows);
    FirstComponent(x, "/", y, windows);
    if windows {
      FirstComponent(x, "\\", y, windows);
    } else {
      OneComponent(x + "\\" + y, windows);
    }
  }

  // ----- Reduction from the front and from the back -----

  /** The stack left by going through the components; nothing if ".." meets an empty stack. */
  function Reduced(cs: seq<string>): Option<seq<string>> {
    if cs == [] then Some([])
    else
      var c, before := cs[|cs| - 1], Reduced(cs[..|cs| - 1]);
      if before.None? then None
      else if c == "." then before
      else if c != ".." then Some(before.value + [c])
      else if before.value == [] then None
      else Some(before.value[..|before.value| - 1])
  }

  datatype Backward = Backward(kept: seq<string>, pending: nat)

  /** Going through them from the back with a number of components yet to be dropped. */
  function FromBack(cs: seq<string>, pending: nat): Backward
    decreases |cs|
  {
    if cs == [] then Backward([], pending)
    else
      var c, before := cs[|cs| - 1], cs[..|cs| - 1];
      if c == "." then FromBack(before, pending)
      else if c == ".." then FromBack(before, pending + 1)
      else if pending > 0 then FromBack(before, pending - 1)
      else
        var r := FromBack(before, 0);
        Backward(r.kept + [c], r.pending)
  }

  /** Both agree: what is pending comes off the top of the stack. */
  lemma {:induction false} BackwardIsForward(cs: seq<string>, pending: nat)
    ensures Reduced(cs).None? ==> FromBack(cs, pending).pending > 0
    ensures Reduced(cs).Some? && pending <= |Reduced(cs).value| ==>
              FromBack(cs, pending) == Backward(Reduced(cs).value[..|Reduced(cs).value| - pending], 0)
    ensures Reduced(cs).Some? && pending > |Reduced(cs).value| ==> FromBack(cs, pending).pending > 0
    decreases |cs|
  {
    if cs != [] {
      var c, before := cs[|cs| - 1], cs[..|cs| - 1];
      if c == "." {
        BackwardIsForward(before, pending);
      } else if c == ".." {
        BackwardIsForward(before, pending + 1);
      } else if pending > 0 {
        BackwardIsForward(before, pending - 1);
      } else {
        BackwardIsForward(before, 0);
      }
    }
  }

  lemma {:induction false} ReducedIsPlain(cs: seq<string>)
    ensures Reduced(cs).Some? ==> Plain(Reduced(cs).value)
  {
    if cs != [] {
      ReducedIsPlain(cs[..|cs| - 1]);
    }
  }

  lemma {:induction false} PlainIsReduced(cs: seq<string>)
    requires Plain(cs)
    ensures Reduced(cs) == Some(cs)
  {
    if cs != [] {
      var before, c := cs[..|cs| - 1], cs[|cs| - 1];
      PlainIsReduced(before);
      assert before + [c] == cs && c != "." && c != "..";
    }
  }

  /** What comes after only depends on what has been reduced so far. */
  lemma {:induction false} ReducedAfter(p: seq<string>, q: seq<string>, rest: seq<string>)
    requires Reduced(p) == Reduced(q)
    ensures Reduced(p + rest) == Reduced(q + rest)
  {
    if rest == [] {
      assert p + rest == p && q + rest == q;
    } else {
      var before, c := rest[..|rest| - 1], rest[|rest| - 1];
      ReducedAfter(p, q, before);
      assert (p + rest)[..|p + rest| - 1] == p + before && (q + rest)[..|q + rest| - 1] == q + before;
    }
  }

  lemma {:induction false} NothingAfterNone(p: seq<string>, rest: seq<string>)
    requires Reduced(p).None?
    ensures Reduced(p + rest).None?
  {
    if rest == [] {
      assert p + rest == p;
    } else {
      NothingAfterNone(p, rest[..|rest| - 1]);
      assert (p + rest)[..|p + rest| - 1] == p + rest[..|rest| - 1];
    }
  }

  /** Anywhere in a path, ".." takes back the one component before it. */
  lemma ParentCancels(a: seq<string>, c: string, b: seq<string>)
    requires c != "." && c != ".."
    ensures Reduced(a + [c, ".."] + b) == Reduced(a + b)
  {
    assert (a + [c, ".."])[..|a| + 1] == a + [c] && (a + [c])[..|a|] == a;
    ReducedAfter(a + [c, ".."], a, b);
  }

  /** Anywhere in a path, "." changes nothing. */
  lemma CurrentVanishes(a: seq<string>, b: seq<string>)
    ensures Reduced(a + ["."] + b) == Reduced(a + b)
  {
    assert (a + ["."])[..|a|] == a;
    ReducedAfter(a + ["."], a, b);
  }

  /** There is nothing above the first component. */
  lemma NoParentOfRoot(b: seq<string>)
    ensures Reduced([".."] + b).None?
  {
    assert [".."][..0] == [];
    NothingAfterNone([".."], b);
  }

  /** A reduced path is not reduced any further. */
  lemma ReducedOnce(cs: seq<string>)
    requires Reduced(cs).Some?
    ensures Reduced(Reduced(cs).value) == Reduced(cs)
  {
    ReducedIsPlain(cs);
    PlainIsReduced(Reduced(cs).value);
  }

  /** No component is special. */
  ghost predicate Plain(cs: seq<string>) {
    forall i :: 0 <= i < |cs| ==> cs[i] != "." && cs[i] != ".."
  }

  // ----- The rewriting -----

  predicate Absolute(s: string, windows: bool) {
    s != [] && IsDelim(s[0], windows)
  }

  /** What is yet to be reduced stands before `pos`, what is final after it. */
  ghost predicate Progress(original: string, path: string, pos: nat, pending: nat, windows: bool) {
    && pos <= |path|
    && (0 < pos < |path| ==> IsDelim(path[pos - 1], windows) && !IsDelim(path[pos], windows))
    && (pending > 0 && pos > 0 ==> pos >= 2 && !IsDelim(path[pos - 2], windows))
    && Absolute(path, windows) == Absolute(original, windows)
    && Remaining(path, pos, pending, windows) == FromBack(Components(original, windows), 0)
    && (Plain(Components(original, windows)) ==> path == original && pending == 0)
  }

  ghost function Remaining(path: string, pos: nat, pending: nat, windows: bool): Backward
    requires pos <= |path|
  {
    var r := FromBack(Components(path[..pos], windows), pending);
    Backward(r.kept + Components(path[pos..], windows), r.pending)
  }

  /** Index after stepping back over delimiters. */
  method SkipDelims(path: string, start: nat, windows: bool) returns (pos: nat)
    requires start <= |path|
    ensures pos <= start && AllDelims(path[pos..start], windows)
    ensures pos > 0 ==> !IsDelim(path[pos - 1], windows)
  {
    pos := start;
    while pos != 0 && IsDelim(path[pos - 1], windows)
      invariant pos <= start && AllDelims(path[pos..start], windows)
    {
      pos := pos - 1;
    }
  }

  method SkipComponent(path: string, start: nat, windows: bool) returns (pos: nat)
    requires start <= |path|
    ensures pos <= start && NoDelims(path[pos..start], windows)
    ensures pos > 0 ==> IsDelim(path[pos - 1], windows)
  {
    pos := start;
    while pos != 0 && !IsDelim(path[pos - 1], windows)
      invariant pos <= start && NoDelims(path[pos..start], windows)
    {
      pos := pos - 1;
    }
  }

  /** Where one round of the loop finds its component: `path[from..to]`, delimiters up to `end`. */
  ghost predicate Found(path: string, from: nat, to: nat, end: nat, windows: bool) {
    && from <= to <= end <= |path|
    && NoDelims(path[from..to], windows) && AllDelims(path[to..end], windows)
    && (from > 0 ==> IsDelim(path[from - 1], windows))
    && (to > 0 ==> !IsDelim(path[to - 1], windows))
  }

  lemma FoundIsLast(path: string, from: nat, to: nat, end: nat, windows: bool)
    requires Found(path, from, to, end, windows) && from < to
    ensures Components(path[..end], windows) == Components(path[..from], windows) + [path[from..to]]
  {
    CutTwice(path, from, to);
    CutTwice(path, to, end);
    LastComponent(path[..from], path[from..to], path[to..end], windows);
  }

  lemma KeptComponent(cs: seq<string>, w: string)
    requires w != "." && w != ".."
    ensures FromBack(cs + [w], 0) == Backward(FromBack(cs, 0).kept + [w], FromBack(cs, 0).pending)
  {
    assert (cs + [w])[..|cs|] == cs;
  }

  lemma KeepPieces(a: string, w: string, d: string, rest: string, windows: bool)
    requires !EndsInComponent(a, windows) && w != [] && NoDelims(w, windows) && AllDelims(d, windows)
             && (d != [] || rest == [])
    requires w != "." && w != ".."
    ensures var before, after := FromBack(Components(a, windows), 0), FromBack(Components(a + w + d, windows), 0);
            && after.pending == before.pending
            && after.kept + Components(rest, windows) == before.kept + Components(w + d + rest, windows)
  {
    LastComponent(a, w, d, windows);
    FirstComponent(w, d, rest, windows);
    KeptComponent(Components(a, windows), w);
    MovesOver(FromBack(Components(a, windows), 0).kept, w, Components(rest, windows));
  }

  lemma MovesOver(kept: seq<string>, w: string, rest: seq<string>)
    ensures kept + [w] + rest == kept + ([w] + rest)
  {
  }

  lemma KeepRemaining(path: string, from: nat, to: nat, end: nat, windows: bool)
    requires Found(path, from, to, end, windows) && from < to && (to < end || end == |path|)
    requires path[from..to] != "." && path[from..to] != ".."
    ensures Remaining(path, from, 0, windows) == Remaining(path, end, 0, windows)
  {
    var a, w, d, rest := path[..from], path[from..to], path[to..end], path[end..];
    CutTwice(path, from, to);
    CutTwice(path, to, end);
    assert w + (d + rest) == w + d + rest;
    KeepPieces(a, w, d, rest, windows);
  }

  lemma KeepDelims(path: string, end: nat, windows: bool)
    requires end <= |path| && AllDelims(path[..end], windows)
    ensures Remaining(path, 0, 0, windows) == Remaining(path, end, 0, windows)
  {
    var d, rest := path[..end], path[end..];
    Cut(path, end);
    DelimsHaveNoComponents(d, windows);
    ComponentsSplit(d, rest, windows);
  }

  /** A component kept moves over to the final part. */
  lemma KeepStep(original: string, path: string, from: nat, to: nat, end: nat, windows: bool)
    requires Progress(original, path, end, 0, windows) && end > 0 && Found(path, from, to, end, windows)
    requires path[from..to] != "." && path[from..to] != ".."
    ensures Progress(original, path, from, 0, windows)
  {
    if from == to {
      assert path[..end] == path[to..end];
      KeepDelims(path, end, windows);
    } else {
      assert path[from..to][0] == path[from];
      KeepRemaining(path, from, to, end, windows);
    }
  }

  /** The number of components still to be dropped, once one has been removed. */
  function Pending(w: string, pending: nat): nat
    requires w == "." || w == ".." || pending > 0
  {
    if w == "." then pending else if w == ".." then pending + 1 else pending - 1
  }

  lemma RemovedCount(path: string, from: nat, to: nat, end: nat, pending: nat, windows: bool)
    requires Found(path, from, to, end, windows) && from < to
    requires var w := path[from..to]; w == "." || w == ".." || pending > 0
    ensures FromBack(Components(path[..end], windows), pending)
            == FromBack(Components(path[..from], windows), Pending(path[from..to], pending))
  {
    FoundIsLast(path, from, to, end, windows);
    var cs := Components(path[..from], windows);
    assert (cs + [path[from..to]])[..|cs|] == cs;
  }

  /** Some component is special, or one has been already. */
  lemma RemovalMeansSpecial(original: string, path: string, from: nat, to: nat, end: nat, pending: nat, windows: bool)
    requires Progress(original, path, end, pending, windows) && end > 0 && Found(path, from, to, end, windows)
             && from < to
    requires var w := path[from..to]; w == "." || w == ".." || pending > 0
    ensures !Plain(Components(original, windows))
  {
    if path == original && pending == 0 {
      FoundIsLast(path, from, to, end, windows);
      ComponentsSplit(path[..end], path[end..], windows);
      assert path == path[..end] + path[end..];
      var cs := Components(path[..from], windows);
      assert Components(original, windows)[|cs|] == path[from..to];
    }
  }

  /** A component removed at the start of a relative path goes with the delimiters after it. */
  lemma RemoveFirst(original: string, path: string, to: nat, end: nat, pending: nat, windows: bool)
    requires Progress(original, path, end, pending, windows) && end > 0 && Found(path, 0, to, end, windows) && 0 < to
    requires var w := path[..to]; w == "." || w == ".." || pending > 0
    ensures Progress(original, path[end..], 0, Pending(path[..to], pending), windows)
  {
    RemovedCount(path, 0, to, end, pending, windows);
    RemovalMeansSpecial(original, path, 0, to, end, pending, windows);
    assert !IsDelim(path[0..to][0], windows);
    assert path[end..][..0] == path[..0] && path[end..][0..] == path[end..];
  }

  lemma CutInside(head: string, delims: string, rest: string, pending: nat, windows: bool)
    requires AllDelims(delims, windows)
    ensures var delim := [Delim(windows)];
            var r := FromBack(Components(head + delims, windows), pending);
            Remaining(head + delim + rest, |head| + 1, pending, windows) ==
            Backward(r.kept + Components(rest, windows), r.pending)
  {
    var delim := [Delim(windows)];
    var path := head + delim + rest;
    TrailingDelims(head, delims, windows);
    TrailingDelims(head, delim, windows);
    assert path[..|head| + 1] == head + delim && path[|head| + 1..] == rest;
  }

  lemma CutAtRoot(delims: string, rest: string, pending: nat, windows: bool)
    requires AllDelims(delims, windows)
    ensures var delim := [Delim(windows)];
            var r := FromBack(Components(delims, windows), pending);
            Remaining(delim + rest, 0, pending, windows) == Backward(r.kept + Components(rest, windows), r.pending)
  {
    var delim := [Delim(windows)];
    var path := delim + rest;
    DelimsHaveNoComponents(delims, windows);
    DelimsHaveNoComponents(delim, windows);
    ComponentsSplit(delim, rest, windows);
    assert path[..0] == "" && path[0..] == path;
  }

  ghost predicate CutBefore(path: string, cut: nat, from: nat, windows: bool) {
    cut < from <= |path| && AllDelims(path[cut..from], windows) && (cut > 0 ==> !IsDelim(path[cut - 1], windows))
  }

  function Joined(path: string, cut: nat, end: nat, windows: bool): string
    requires cut <= |path| && end <= |path|
  {
    path[..cut] + [Delim(windows)] + path[end..]
  }

  lemma RemovedInside(path: string, cut: nat, from: nat, to: nat, end: nat, pending: nat, windows: bool)
    requires Found(path, from, to, end, windows) && from < to && CutBefore(path, cut, from, windows)
    requires var w := path[from..to]; w == "." || w == ".." || pending > 0
    ensures Remaining(Joined(path, cut, end, windows), cut + 1, Pending(path[from..to], pending), windows) ==
            Remaining(path, end, pending, windows)
  {
    RemovedCount(path, from, to, end, pending, windows);
    CutTwice(path, cut, from);
    CutInside(path[..cut], path[cut..from], path[end..], Pending(path[from..to], pending), windows);
  }

  lemma RemovedAtRoot(path: string, from: nat, to: nat, end: nat, pending: nat, windows: bool)
    requires Found(path, from, to, end, windows) && from < to && CutBefore(path, 0, from, windows)
    requires var w := path[from..to]; w == "." || w == ".." || pending > 0
    ensures Remaining(Joined(path, 0, end, windows), 0, Pending(path[from..to], pending), windows) ==
            Remaining(path, end, pending, windows)
  {
    RemovedCount(path, from, to, end, pending, windows);
    assert path[0..from] == path[..from] && path[..0] + [Delim(windows)] == [Delim(windows)];
    CutAtRoot(path[..from], path[end..], Pending(path[from..to], pending), windows);
  }

  /** One removed further on takes the delimiters on both sides with it; one is put back. */
  lemma RemoveLater(original: string, path: string, cut: nat, from: nat, to: nat, end: nat, pending: nat, windows: bool)
    requires Progress(original, path, end, pending, windows) && end > 0 && Found(path, from, to, end, windows)
             && 0 < from < to
    requires var w := path[from..to]; w == "." || w == ".." || pending > 0
    requires CutBefore(path, cut, from, windows)
    ensures Progress(original, Joined(path, cut, end, windows), if cut > 0 then cut + 1 else 0,
                     Pending(path[from..to], pending), windows)
  {
    if cut > 0 {
      RemovedInside(path, cut, from, to, end, pending, windows);
    } else {
      RemovedAtRoot(path, from, to, end, pending, windows);
    }
    RemovalMeansSpecial(original, path, from, to, end, pending, windows);
    assert path[cut..from][0] == path[cut];
  }

  /** Delimiters at the very end are dropped. */
  ghost function Trimmed(s: string, windows: bool): string {
    if s != [] && IsDelim(s[|s| - 1], windows) then Trimmed(s[..|s| - 1], windows) else s
  }

  lemma {:induction false} TrimmedTo(s: string, n: nat, windows: bool)
    requires n <= |s| && AllDelims(s[n..], windows) && (n > 0 ==> !IsDelim(s[n - 1], windows))
    ensures Trimmed(s, windows) == s[..n]
  {
    if n < |s| {
      assert s[n..][|s| - 1 - n] == s[|s| - 1];
      assert forall i :: 0 <= i < |s[..|s| - 1][n..]| ==> s[..|s| - 1][n..][i] == s[n..][i];
      TrimmedTo(s[..|s| - 1], n, windows);
      assert s[..|s| - 1][..n] == s[..n];
    } else {
      assert s[..n] == s;
    }
  }

  /** While components are pending, a round finds a component. */
  lemma EmptyOnlyWhenNothingPends(original: string, path: string, from: nat, to: nat, end: nat, pending: nat,
                                  windows: bool)
    requires Progress(original, path, end, pending, windows) && end > 0 && Found(path, from, to, end, windows)
             && pending > 0
    ensures from < to
  {
    assert !AllDelims(path[0..end], windows) by {
      assert path[0..end][end - 2] == path[end - 2];
    }
  }

  method WithoutTrailingDelims(path: string, windows: bool) returns (r: string)
    ensures r == Trimmed(path, windows) && Components(r, windows) == Components(path, windows)
    ensures r == "" <==> Components(path, windows) == []
    ensures r != "" ==> EndsInComponent(r, windows) && Absolute(r, windows) == Absolute(path, windows)
  {
    var pos := SkipDelims(path, |path|, windows);
    assert path[pos..] == path[pos..|path|];
    TrimmedTo(path, pos, windows);
    TrailingDelims(path[..pos], path[pos..], windows);
    Cut(path, pos);
    LastRunIsAComponent(path[..pos], windows);
    r := path[..pos];
  }

  /** To begin with everything is yet to be reduced. */
  lemma NothingFinal(original: string, windows: bool)
    ensures Progress(original, original, |original|, 0, windows)
  {
    Cut(original, |original|);
    var r := FromBack(Components(original, windows), 0);
    assert original[..|original|] == original && original[|original|..] == [] && r.kept + [] == r.kept;
  }

  lemma FinalRemaining(path: string, pending: nat, windows: bool)
    ensures Remaining(path, 0, pending, windows) == Backward(Components(path, windows), pending)
  {
    Cut(path, 0);
  }

  lemma BackToBack(cs: seq<string>)
    ensures FromBack(cs, 0).pending > 0 <==> Reduced(cs).None?
    ensures Reduced(cs).Some? ==> FromBack(cs, 0) == Backward(Reduced(cs).value, 0)
  {
    BackwardIsForward(cs, 0);
    if Reduced(cs).Some? {
      var stack := Reduced(cs).value;
      assert stack[..|stack| - 0] == stack;
    }
  }

  /** What has been reached when everything is final. */
  lemma AllFinal(original: string, path: string, pending: nat, windows: bool)
    requires Progress(original, path, 0, pending, windows)
    ensures var r := Reduced(Components(original, windows));
            (pending > 0 <==> r.None?) && (r.Some? ==> Components(path, windows) == r.value)
  {
    FinalRemaining(path, pending, windows);
    BackToBack(Components(original, windows));
  }

  method FindComponent(path: string, end: nat, windows: bool) returns (from: nat, to: nat)
    requires end <= |path|
    ensures Found(path, from, to, end, windows)
  {
    to := SkipDelims(path, end, windows);
    from := SkipComponent(path, to, windows);
  }

  /** Takes a component out of the path, with a delimiter; returns where to go on. */
  method CutOut(path: string, from: nat, to: nat, end: nat, windows: bool, ghost original: string, ghost pending: nat)
    returns (path': string, pos: nat)
    requires Progress(original, path, end, pending, windows) && end > 0 && Found(path, from, to, end, windows)
             && from < to
    requires var w := path[from..to]; w == "." || w == ".." || pending > 0
    ensures Progress(original, path', pos, Pending(path[from..to], pending), windows) && pos < end
  {
    pos := SkipDelims(path, from, windows);
    if from == 0 {
      RemoveFirst(original, path, to, end, pending, windows);
      // The delimiter goes too.
      path' := path[end..];
    } else {
      RemoveLater(original, path, pos, from, to, end, pending, windows);
      path' := Joined(path, pos, end, windows);
    }
    if pos > 0 {
      pos := pos + 1;
    }
  }

  method RemoveRelativePathComponents(original: string, windows: bool) returns (path: string)
    ensures Reduced(Components(original, windows)).None? ==> path == ""
    ensures Reduced(Components(original, windows)).Some? ==>
              Components(path, windows) == Reduced(Components(original, windows)).value
    ensures path == ""
            <==> Reduced(Components(original, windows)).None? || Reduced(Components(original, windows)).value == []
    ensures path != "" ==>
              original != "" && IsDelim(path[0], windows) == IsDelim(original[0], windows)
              && EndsInComponent(path, windows)
    ensures Plain(Components(original, windows)) ==> path == Trimmed(original, windows)
  {
    path := original;
    var pos: nat, dotdotCount: nat := |path|, 0;
    NothingFinal(original, windows);
    while pos != 0
      invariant Progress(original, path, pos, dotdotCount, windows)
      decreases pos
    {
      var start, end := FindComponent(path, pos, windows);
      var component := path[start..end];
      ghost var before := dotdotCount;
      var remove := false;
      if component == "." {
        remove := true;
      } else if component == ".." {
        remove := true;
        dotdotCount := dotdotCount + 1;
      } else if dotdotCount != 0 {
        EmptyOnlyWhenNothingPends(original, path, start, end, pos, dotdotCount, windows);
        remove := true;
        dotdotCount := dotdotCount - 1;
      }
      if remove {
        path, pos := CutOut(path, start, end, pos, windows, original, before);
      } else {
        KeepStep(original, path, start, end, pos, windows);
        pos := start;
      }
    }
    AllFinal(original, path, dotdotCount, windows);
    if dotdotCount > 0 {
      return "";
    }
    path := WithoutTrailingDelims(path, windows);
  }
}
