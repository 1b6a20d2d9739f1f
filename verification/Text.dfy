/**
 Qt string operations the program relies on: `indexOf`, `split` (empty parts kept or
 skipped) and `replace(x, "")`.  Each is given a recursive specification, the loop Qt runs is
 proved to compute it, and the specification is characterised independently of its recursion.
 */
module Text {

  /* ---------- occurrences ---------- */

  predicate MatchAt(s: string, sep: string, i: int)
  {
    0 <= i && i + |sep| <= |s| && s[i..i + |sep|] == sep
  }

  ghost predicate Contains(s: string, sep: string)
  {
    exists i :: MatchAt(s, sep, i)
  }

  /** `i` is the first occurrence at or after `from`, or -1 when there is none. */
  ghost predicate FirstFrom(s: string, sep: string, from: nat, i: int)
  {
    && (i == -1 || (from <= i && MatchAt(s, sep, i)))
    && forall j :: from <= j && (i == -1 || j < i) ==> !MatchAt(s, sep, j)
  }

  function IndexOf(s: string, sep: string, from: nat): (i: int)
    ensures i == -1 || from <= i <= |s| - |sep|
    decreases |s| - from
  {
    if MatchAt(s, sep, from) then from
    else if from >= |s| then -1
    else IndexOf(s, sep, from + 1)
  }

  /** The search loop of `indexOf`. */
  method Find(s: string, sep: string, from: nat) returns (i: int)
    requires from <= |s|
    ensures FirstFrom(s, sep, from, i)
  {
    i := from;
    while i + |sep| <= |s|
      invariant from <= i
      invariant forall j :: from <= j < i ==> !MatchAt(s, sep, j)
    {
      if s[i..i + |sep|] == sep {
        return;
      }
      i := i + 1;
    }
    i := -1;
  }

  lemma {:induction false} IndexOfIsFirst(s: string, sep: string, from: nat)
    ensures FirstFrom(s, sep, from, IndexOf(s, sep, from))
    decreases |s| - from
  {
    if !MatchAt(s, sep, from) && from < |s| {
      IndexOfIsFirst(s, sep, from + 1);
    }
  }

  lemma FirstIsIndexOf(s: string, sep: string, from: nat, i: int)
    requires FirstFrom(s, sep, from, i)
    ensures i == IndexOf(s, sep, from)
  {
    IndexOfIsFirst(s, sep, from);
  }

  /** No proper prefix of `sep` is also a suffix of it, so two occurrences never overlap. */
  ghost predicate Unbordered(sep: string)
  {
    forall k :: 0 < k < |sep| ==> sep[..k] != sep[|sep| - k..]
  }

  /** `p` may stand in front of `sep` without creating an earlier occurrence. */
  ghost predicate CleanBefore(p: string, sep: string)
    requires sep != ""
  {
    !Contains(p + sep[..|sep| - 1], sep)
  }

  lemma MatchShift(s: string, sep: string, start: nat, j: int)
    requires start <= |s| && 0 <= j
    ensures MatchAt(s[start..], sep, j) <==> MatchAt(s, sep, start + j)
  {
    if j + |sep| <= |s| - start {
      assert s[start..][j..j + |sep|] == s[start + j..start + j + |sep|];
    }
  }

  lemma FirstShift(s: string, sep: string, start: nat, i: int)
    requires start <= |s| && FirstFrom(s, sep, start, i)
    ensures FirstFrom(s[start..], sep, 0, if i == -1 then -1 else i - start)
  {
    forall j | 0 <= j ensures MatchAt(s[start..], sep, j) <==> MatchAt(s, sep, start + j) {
      MatchShift(s, sep, start, j);
    }
  }

  /** The first separator of `p + sep + t` is the one written there exactly when `p` is clean. */
  lemma FirstMatch(p: string, sep: string, t: string)
    requires sep != ""
    ensures IndexOf(p + sep + t, sep, 0) == |p| <==> CleanBefore(p, sep)
  {
    var n := |sep|;
    var s, q := p + sep + t, p + sep[..n - 1];
    assert s[|p|..|p| + n] == sep;
    assert MatchAt(s, sep, |p|);
    forall j | 0 <= j < |p|
      ensures MatchAt(s, sep, j) <==> MatchAt(q, sep, j)
    {
      assert s[j..j + n] == q[j..j + n];
    }
    IndexOfIsFirst(s, sep, 0);
    if !CleanBefore(p, sep) {
      var j :| MatchAt(q, sep, j);
      assert MatchAt(s, sep, j);
    }
  }

  /** An occurrence that runs into a written separator shows a border of the separator. */
  lemma OverlapIsBorder(p: string, sep: string, j: int)
    requires sep != "" && MatchAt(p + sep[..|sep| - 1], sep, j)
    ensures var k := j + |sep| - |p|;
            MatchAt(p, sep, j) || (0 < k < |sep| && sep[..k] == sep[|sep| - k..])
  {
    var n, q := |sep|, p + sep[..|sep| - 1];
    if j + n <= |p| {
      assert p[j..j + n] == q[j..j + n];
    } else {
      var k := j + n - |p|;
      assert sep[n - k..] == q[j..j + n][n - k..];
      assert q[j..j + n][n - k..] == q[|p|..|p| + k];
      assert q[|p|..|p| + k] == sep[..k];
    }
  }

  lemma UnborderedClean(p: string, sep: string)
    requires sep != "" && Unbordered(sep)
    ensures CleanBefore(p, sep) <==> !Contains(p, sep)
  {
    var q := p + sep[..|sep| - 1];
    if j :| MatchAt(q, sep, j) { OverlapIsBorder(p, sep, j); }
    CleanHasNone(p, sep);
  }

  lemma ContainsChar(s: string, c: char)
    ensures Contains(s, [c]) <==> c in s
  {
    if c in s {
      var i :| 0 <= i < |s| && s[i] == c;
      assert s[i..i + 1] == [c];
      assert MatchAt(s, [c], i);
    }
    if i :| MatchAt(s, [c], i) {
      assert s[i] == s[i..i + 1][0] == c;
    }
  }

  /* ---------- split ---------- */

  /** `split(sep)` keeping empty parts. */
  function Split(s: string, sep: string): (parts: seq<string>)
    requires sep != ""
    ensures parts != []
    decreases |s|
  {
    var i := IndexOf(s, sep, 0);
    if i == -1 then [s] else [s[..i]] + Split(s[i + |sep|..], sep)
  }

  function NonEmpty(parts: seq<string>): (r: seq<string>)
  {
    if parts == [] then []
    else (if parts[0] == "" then [] else [parts[0]]) + NonEmpty(parts[1..])
  }

  /** `split(sep, SkipEmptyParts)`. */
  function SplitSkip(s: string, sep: string): seq<string>
    requires sep != ""
  {
    NonEmpty(Split(s, sep))
  }

  function Join(parts: seq<string>, sep: string): string
    requires parts != []
  {
    if |parts| == 1 then parts[0] else parts[0] + sep + Join(parts[1..], sep)
  }

  /** Every part but the last is clean in front of a separator and the last one holds none. */
  ghost predicate LeftmostParts(parts: seq<string>, sep: string)
    requires parts != [] && sep != ""
  {
    !Contains(parts[|parts| - 1], sep) &&
    forall k :: 0 <= k < |parts| - 1 ==> CleanBefore(parts[k], sep)
  }

  lemma LeftmostCons(p: string, rest: seq<string>, sep: string)
    requires sep != "" && rest != [] && CleanBefore(p, sep) && LeftmostParts(rest, sep)
    ensures LeftmostParts([p] + rest, sep) && Join([p] + rest, sep) == p + sep + Join(rest, sep)
  {
    var parts := [p] + rest;
    assert parts[1..] == rest;
    assert forall k :: 0 < k < |parts| ==> parts[k] == rest[k - 1];
  }

  lemma {:induction false} SplitIsLeftmost(s: string, sep: string)
    requires sep != ""
    ensures Join(Split(s, sep), sep) == s && LeftmostParts(Split(s, sep), sep)
    decreases |s|
  {
    IndexOfIsFirst(s, sep, 0);
    var i := IndexOf(s, sep, 0);
    if i != -1 {
      var p, t := s[..i], s[i + |sep|..];
      assert s == p + sep + t;
      FirstMatch(p, sep, t);
      SplitIsLeftmost(t, sep);
      LeftmostCons(p, Split(t, sep), sep);
    }
  }

  lemma {:induction false} LeftmostIsSplit(parts: seq<string>, sep: string)
    requires sep != "" && parts != [] && LeftmostParts(parts, sep)
    ensures Split(Join(parts, sep), sep) == parts
    decreases |parts|
  {
    if |parts| == 1 {
      IndexOfIsFirst(parts[0], sep, 0);
    } else {
      var rest := parts[1..];
      assert rest[|rest| - 1] == parts[|parts| - 1];
      assert forall k :: 0 <= k < |rest| - 1 ==> rest[k] == parts[k + 1];
      LeftmostIsSplit(rest, sep);
      SplitHead(parts[0], sep, Join(rest, sep));
    }
  }

  /** `Split` is the only way to cut `s` at leftmost separators, said through joining back. */
  lemma SplitCharacterised(s: string, sep: string, parts: seq<string>)
    requires sep != ""
    ensures Split(s, sep) == parts <==>
            parts != [] && Join(parts, sep) == s && LeftmostParts(parts, sep)
  {
    SplitIsLeftmost(s, sep);
    if parts != [] && Join(parts, sep) == s && LeftmostParts(parts, sep) {
      LeftmostIsSplit(parts, sep);
    }
  }

  lemma {:induction false} JoinAppend(xs: seq<string>, ys: seq<string>, sep: string)
    requires xs != [] && ys != []
    ensures Join(xs + ys, sep) == Join(xs, sep) + sep + Join(ys, sep)
    decreases |xs|
  {
    if |xs| == 1 {
      assert (xs + ys)[1..] == ys;
    } else {
      assert (xs + ys)[1..] == xs[1..] + ys;
      JoinAppend(xs[1..], ys, sep);
      assert xs[0] + sep + (Join(xs[1..], sep) + sep + Join(ys, sep))
          == (xs[0] + sep + Join(xs[1..], sep)) + sep + Join(ys, sep);
    }
  }

  /** Splitting distributes over a written separator exactly when the last part of `a` is clean. */
  lemma SplitAppend(a: string, b: string, sep: string)
    requires sep != ""
    ensures Split(a + sep + b, sep) == Split(a, sep) + Split(b, sep)
            <==> CleanBefore(Split(a, sep)[|Split(a, sep)| - 1], sep)
  {
    var xs, ys := Split(a, sep), Split(b, sep);
    SplitIsLeftmost(a, sep);
    SplitIsLeftmost(b, sep);
    JoinAppend(xs, ys, sep);
    LeftmostAppend(xs, ys, sep);
    SplitCharacterised(a + sep + b, sep, xs + ys);
  }

  lemma LeftmostAppend(xs: seq<string>, ys: seq<string>, sep: string)
    requires xs != [] && ys != [] && sep != ""
    requires LeftmostParts(xs, sep) && LeftmostParts(ys, sep)
    ensures LeftmostParts(xs + ys, sep) <==> CleanBefore(xs[|xs| - 1], sep)
  {
    var zs := xs + ys;
    assert zs[|xs| - 1] == xs[|xs| - 1] && zs[|zs| - 1] == ys[|ys| - 1];
    assert forall k :: 0 <= k < |zs| ==> zs[k] == if k < |xs| then xs[k] else ys[k - |xs|];
  }

  /** With an unbordered separator there is no side condition. */
  lemma SplitAppendUnbordered(a: string, b: string, sep: string)
    requires sep != "" && Unbordered(sep)
    ensures Split(a + sep + b, sep) == Split(a, sep) + Split(b, sep)
    ensures SplitSkip(a + sep + b, sep) == SplitSkip(a, sep) + SplitSkip(b, sep)
  {
    SplitIsLeftmost(a, sep);
    UnborderedClean(Split(a, sep)[|Split(a, sep)| - 1], sep);
    SplitAppend(a, b, sep);
    NonEmptyAppend(Split(a, sep), Split(b, sep));
  }

  lemma SplitNone(s: string, sep: string)
    requires sep != "" && !Contains(s, sep)
    ensures Split(s, sep) == [s]
    ensures SplitSkip(s, sep) == if s == "" then [] else [s]
  {
    IndexOfIsFirst(s, sep, 0);
    NonEmptySnoc([], s);
    assert [] + [s] == [s];
  }

  lemma {:induction false} NonEmptyAppend(xs: seq<string>, ys: seq<string>)
    ensures NonEmpty(xs + ys) == NonEmpty(xs) + NonEmpty(ys)
    decreases |xs|
  {
    if xs == [] {
      assert xs + ys == ys;
    } else {
      assert (xs + ys)[1..] == xs[1..] + ys;
      NonEmptyAppend(xs[1..], ys);
    }
  }

  lemma {:induction false} NonEmptyMembers(xs: seq<string>)
    ensures forall p :: p in NonEmpty(xs) <==> p in xs && p != ""
    decreases |xs|
  {
    if xs != [] {
      NonEmptyMembers(xs[1..]);
      assert forall p :: p in xs <==> p == xs[0] || p in xs[1..];
    }
  }

  lemma {:induction false} JoinChars(parts: seq<string>, sep: string)
    requires parts != []
    ensures forall p, c :: p in parts && c in p ==> c in Join(parts, sep)
    decreases |parts|
  {
    if |parts| > 1 {
      JoinChars(parts[1..], sep);
      assert forall p :: p in parts <==> p == parts[0] || p in parts[1..];
    }
  }

  /** Characters of the parts come from the text, and no part holds a separator. */
  lemma SplitChars(s: string, sep: string)
    requires sep != ""
    ensures forall p, c :: p in Split(s, sep) && c in p ==> c in s
    ensures forall p :: p in Split(s, sep) ==> !Contains(p, sep)
  {
    SplitIsLeftmost(s, sep);
    var parts := Split(s, sep);
    JoinChars(parts, sep);
    forall p | p in parts ensures !Contains(p, sep) {
      var k :| 0 <= k < |parts| && parts[k] == p;
      if k < |parts| - 1 { CleanHasNone(p, sep); }
    }
  }

  lemma CleanHasNone(p: string, sep: string)
    requires sep != ""
    ensures CleanBefore(p, sep) ==> !Contains(p, sep)
  {
    var q := p + sep[..|sep| - 1];
    if j :| MatchAt(p, sep, j) {
      assert q[j..j + |sep|] == p[j..j + |sep|];
      assert MatchAt(q, sep, j);
    }
  }

  /** Cutting at the first separator found from `start` on. */
  lemma CutAt(s: string, sep: string, start: nat, end: nat)
    requires sep != "" && start <= |s| && FirstFrom(s, sep, start, end)
    ensures s[start..] == s[start..end] + sep + s[end + |sep|..]
    ensures CleanBefore(s[start..end], sep)
  {
    var p, t := s[start..end], s[end + |sep|..];
    assert s[start..] == p + s[end..end + |sep|] + t;
    FirstShift(s, sep, start, end);
    FirstIsIndexOf(p + sep + t, sep, 0, |p|);
    FirstMatch(p, sep, t);
  }

  lemma SplitHead(p: string, sep: string, t: string)
    requires sep != "" && CleanBefore(p, sep)
    ensures Split(p + sep + t, sep) == [p] + Split(t, sep)
  {
    FirstMatch(p, sep, t);
    var s := p + sep + t;
    assert s[..|p|] == p && s[|p| + |sep|..] == t;
  }

  lemma SplitPrefix(s: string, sep: string)
    requires sep != ""
    ensures Split(s, sep)[0] <= s
  {
  }

  lemma NoneFrom(s: string, sep: string, start: nat)
    requires sep != "" && start <= |s| && FirstFrom(s, sep, start, -1)
    ensures Split(s[start..], sep) == [s[start..]]
  {
    FirstShift(s, sep, start, -1);
    FirstIsIndexOf(s[start..], sep, 0, -1);
  }

  lemma Regroup<T>(a: seq<T>, b: seq<T>, c: seq<T>)
    ensures a + (b + c) == (a + b) + c
  {
  }

  lemma MoveHead<T>(whole: seq<T>, done: seq<T>, x: T, rest: seq<T>)
    requires whole == done + ([x] + rest)
    ensures whole == (done + [x]) + rest
  {
  }

  lemma NonEmptySnoc(xs: seq<string>, p: string)
    ensures NonEmpty(xs + [p]) == NonEmpty(xs) + (if p == "" then [] else [p])
  {
    NonEmptyAppend(xs, [p]);
    assert [p][1..] == [];
  }

  /** Loop state of `split`: the parts already cut off and the position reached. */
  ghost predicate SplitUpTo(s: string, sep: string, kept: seq<string>, start: int)
    requires sep != ""
  {
    0 <= start <= |s| && Split(s, sep) == kept + Split(s[start..], sep)
  }

  ghost function Listed(kept: seq<string>, skip: bool): seq<string>
  {
    if skip then NonEmpty(kept) else kept
  }

  lemma ListedSnoc(kept: seq<string>, skip: bool, p: string)
    ensures Listed(kept + [p], skip) == if p == "" && skip then Listed(kept, skip) else Listed(kept, skip) + [p]
  {
    NonEmptySnoc(kept, p);
  }

  lemma SplitBegin(s: string, sep: string)
    requires sep != ""
    ensures SplitUpTo(s, sep, [], 0)
  {
    assert s[0..] == s;
    assert [] + Split(s, sep) == Split(s, sep);
  }

  lemma SplitAdvance(s: string, sep: string, kept: seq<string>, start: nat, end: nat)
    requires sep != "" && SplitUpTo(s, sep, kept, start) && FirstFrom(s, sep, start, end)
    ensures SplitUpTo(s, sep, kept + [s[start..end]], end + |sep|)
  {
    var p, t := s[start..end], s[end + |sep|..];
    CutAt(s, sep, start, end);
    SplitHead(p, sep, t);
    MoveHead(Split(s, sep), kept, p, Split(t, sep));
  }

  lemma SplitFinish(s: string, sep: string, kept: seq<string>, skip: bool, start: nat)
    requires sep != "" && SplitUpTo(s, sep, kept, start) && FirstFrom(s, sep, start, -1)
    ensures Listed(Split(s, sep), skip)
         == if start == |s| && skip then Listed(kept, skip) else Listed(kept, skip) + [s[start..]]
  {
    NoneFrom(s, sep, start);
    ListedSnoc(kept, skip, s[start..]);
  }

  /** The loop of Qt's `split`, with `skip` standing for `SkipEmptyParts`. */
  method SplitLoop(s: string, sep: string, skip: bool) returns (list: seq<string>)
    requires sep != ""
    ensures list == if skip then SplitSkip(s, sep) else Split(s, sep)
  {
    list := [];
    ghost var kept: seq<string> := [];
    var start := 0;
    SplitBegin(s, sep);
    var end := Find(s, sep, start);
    while end != -1
      invariant SplitUpTo(s, sep, kept, start)
      invariant FirstFrom(s, sep, start, end)
      invariant list == Listed(kept, skip)
      decreases |s| - start
    {
      SplitAdvance(s, sep, kept, start, end);
      var part := s[start..end];
      ListedSnoc(kept, skip, part);
      kept := kept + [part];
      if start != end || !skip {
        list := list + [part];
      }
      start := end + |sep|;
      end := Find(s, sep, start);
    }
    SplitFinish(s, sep, kept, skip, start);
    if start != |s| || !skip {
      list := list + [s[start..]];
    }
  }

  /* ---------- replace(sep, "") ---------- */

  /** The text without the occurrences of `sep` found by one left-to-right pass. */
  function Remove(s: string, sep: string): string
    requires sep != ""
  {
    Concat(Split(s, sep))
  }

  function Concat(parts: seq<string>): string
  {
    if parts == [] then "" else parts[0] + Concat(parts[1..])
  }

  function TotalLength(parts: seq<string>): nat
  {
    if parts == [] then 0 else |parts[0]| + TotalLength(parts[1..])
  }

  lemma ConcatCons(p: string, rest: seq<string>)
    ensures Concat([p] + rest) == p + Concat(rest)
  {
    assert ([p] + rest)[1..] == rest;
  }

  lemma {:induction false} ConcatAppend(xs: seq<string>, ys: seq<string>)
    ensures Concat(xs + ys) == Concat(xs) + Concat(ys)
    decreases |xs|
  {
    if xs == [] {
      assert xs + ys == ys;
    } else {
      assert (xs + ys)[1..] == xs[1..] + ys;
      ConcatAppend(xs[1..], ys);
    }
  }

  lemma {:induction false} ConcatLength(parts: seq<string>)
    ensures |Concat(parts)| == TotalLength(parts)
    decreases |parts|
  {
    if parts != [] { ConcatLength(parts[1..]); }
  }

  lemma MulStep(a: int, b: int)
    ensures a * b == a * (b - 1) + a
  {
  }

  lemma MulPositive(a: int, b: int)
    requires 0 < a && 0 < b
    ensures 0 < a * b
  {
  }

  lemma {:induction false} JoinLength(parts: seq<string>, sep: string)
    requires parts != []
    ensures |Join(parts, sep)| == TotalLength(parts) + |sep| * (|parts| - 1)
    decreases |parts|
  {
    if |parts| > 1 {
      JoinLength(parts[1..], sep);
      MulStep(|sep|, |parts| - 1);
    } else {
      assert parts[1..] == [];
    }
  }

  /** Conservation: parts plus separators account for every character of the text. */
  lemma {:induction false} SplitLength(s: string, sep: string)
    requires sep != ""
    ensures TotalLength(Split(s, sep)) + |sep| * (|Split(s, sep)| - 1) == |s|
  {
    SplitIsLeftmost(s, sep);
    JoinLength(Split(s, sep), sep);
  }

  lemma {:induction false} NonEmptyLength(parts: seq<string>)
    ensures TotalLength(NonEmpty(parts)) == TotalLength(parts)
    decreases |parts|
  {
    if parts != [] {
      NonEmptyLength(parts[1..]);
      var rest := NonEmpty(parts[1..]);
      if parts[0] == "" {
        assert NonEmpty(parts) == rest;
      } else {
        assert NonEmpty(parts)[1..] == rest;
      }
    }
  }

  /** Loop state of `replace`: what precedes `from` is final, what follows is still to be searched. */
  ghost predicate RemovedUpTo(s: string, sep: string, str: string, from: int)
    requires sep != ""
  {
    0 <= from <= |str| && Remove(s, sep) == str[..from] + Remove(str[from..], sep)
  }

  lemma RemoveBegin(s: string, sep: string)
    requires sep != ""
    ensures RemovedUpTo(s, sep, s, 0)
  {
    assert s[0..] == s && s[..0] == "";
  }

  lemma RemoveAdvance(s: string, sep: string, str: string, from: nat, i: nat)
    requires sep != "" && RemovedUpTo(s, sep, str, from) && FirstFrom(str, sep, from, i)
    ensures RemovedUpTo(s, sep, str[..i] + str[i + |sep|..], i)
  {
    var head, p, tail := str[..i], str[from..i], str[i + |sep|..];
    CutAt(str, sep, from, i);
    SplitHead(p, sep, tail);
    ConcatCons(p, Split(tail, sep));
    Regroup(str[..from], p, Remove(tail, sep));
    assert str[..from] + p == head;
    assert (head + tail)[..i] == head && (head + tail)[i..] == tail;
  }

  lemma RemoveFinish(s: string, sep: string, str: string, from: nat)
    requires sep != "" && RemovedUpTo(s, sep, str, from) && FirstFrom(str, sep, from, -1)
    ensures str == Remove(s, sep)
  {
    NoneFrom(str, sep, from);
    ConcatCons(str[from..], []);
    assert [str[from..]] + [] == [str[from..]];
    assert str == str[..from] + str[from..];
  }

  /** The in-place edit of `QString::replace(sep, "")`. */
  method RemoveLoop(s: string, sep: string) returns (str: string)
    requires sep != ""
    ensures str == Remove(s, sep)
  {
    str := s;
    var from := 0;
    RemoveBegin(s, sep);
    var i := Find(str, sep, from);
    while i != -1
      invariant RemovedUpTo(s, sep, str, from)
      invariant FirstFrom(str, sep, from, i)
      decreases |str| - from
    {
      RemoveAdvance(s, sep, str, from, i);
      str := str[..i] + str[i + |sep|..];
      from := i;
      i := Find(str, sep, from);
    }
    RemoveFinish(s, sep, str, from);
  }

  /* ---------- parts of a text without the separator ---------- */

  lemma OnePart(s: string, c: char)
    requires c !in s
    ensures Split(s, [c]) == [s]
    ensures SplitSkip(s, [c]) == if s == "" then [] else [s]
  {
    ContainsChar(s, c);
    SplitNone(s, [c]);
  }

  lemma ThreeParts(a: string, b: string, c: string, sep: char)
    requires sep !in a && sep !in b && sep !in c
    ensures Split(a + [sep] + (b + [sep] + c), [sep]) == [a, b, c]
    ensures a != "" && b != "" && c != "" ==> SplitSkip(a + [sep] + (b + [sep] + c), [sep]) == [a, b, c]
  {
    SplitAppendUnbordered(a, b + [sep] + c, [sep]);
    SplitAppendUnbordered(b, c, [sep]);
    OnePart(a, sep);
    OnePart(b, sep);
    OnePart(c, sep);
  }

  ghost predicate CommaFree(parts: seq<string>)
  {
    forall i :: 0 <= i < |parts| ==> ',' !in parts[i]
  }

  lemma SplitOfJoin(parts: seq<string>)
    requires parts != [] && CommaFree(parts)
    ensures Split(Join(parts, ","), ",") == parts
  {
    forall i | 0 <= i < |parts| ensures !Contains(parts[i], ",") && CleanBefore(parts[i], ",") {
      ContainsChar(parts[i], ',');
      UnborderedClean(parts[i], ",");
    }
    LeftmostIsSplit(parts, ",");
  }

  lemma {:induction false} NonEmptyAll(parts: seq<string>)
    requires forall i :: 0 <= i < |parts| ==> parts[i] != ""
    ensures NonEmpty(parts) == parts
    decreases |parts|
  {
    if parts != [] {
      NonEmptyAll(parts[1..]);
      assert parts == [parts[0]] + parts[1..];
    }
  }

  /** One line after the other, each ended by a newline. */
  function Unlines(lines: seq<string>): string
  {
    if lines == [] then "" else lines[0] + "\n" + Unlines(lines[1..])
  }

  /** Appending a line and its newline at the end. */
  lemma {:induction false} UnlinesSnoc(lines: seq<string>, l: string)
    ensures Unlines(lines + [l]) == Unlines(lines) + (l + "\n")
    decreases |lines|
  {
    if lines == [] {
      assert lines + [l] == [l] && [l][1..] == [];
      assert l + "\n" + "" == "" + (l + "\n");
    } else {
      assert (lines + [l])[1..] == lines[1..] + [l];
      UnlinesSnoc(lines[1..], l);
      Regroup(lines[0] + "\n", Unlines(lines[1..]), l + "\n");
    }
  }

  /* ---------- counting occurrences ---------- */

  /** Positions at or after `from` where `sep` occurs, overlapping or not. */
  function Occurrences(s: string, sep: string, from: nat): nat
    decreases |s| - from
  {
    if from >= |s| then 0
    else (if MatchAt(s, sep, from) then 1 else 0) + Occurrences(s, sep, from + 1)
  }

  lemma OverlapShowsBorder(s: string, sep: string, i: int, j: int)
    requires MatchAt(s, sep, i) && MatchAt(s, sep, j) && i < j < i + |sep|
    ensures var k := i + |sep| - j; 0 < k < |sep| && sep[..k] == sep[|sep| - k..]
  {
    var n, k := |sep|, i + |sep| - j;
    assert sep[n - k..] == s[i..i + n][n - k..];
    assert s[i..i + n][n - k..] == s[j..j + k];
    assert sep[..k] == s[j..j + n][..k];
    assert s[j..j + n][..k] == s[j..j + k];
  }

  /** Two occurrences of an unbordered separator never overlap. */
  lemma NoOverlap(s: string, sep: string, i: int, j: int)
    requires Unbordered(sep) && MatchAt(s, sep, i) && MatchAt(s, sep, j) && i < j
    ensures i + |sep| <= j
  {
    if j < i + |sep| { OverlapShowsBorder(s, sep, i, j); }
  }

  lemma {:induction false} OccurrencesSkip(s: string, sep: string, from: nat, to: nat)
    requires from <= to && forall j :: from <= j < to ==> !MatchAt(s, sep, j)
    ensures Occurrences(s, sep, from) == Occurrences(s, sep, to)
    decreases |s| - from
  {
    if from < to && from < |s| {
      OccurrencesSkip(s, sep, from + 1, to);
    }
  }

  lemma {:induction false} OccurrencesShift(s: string, sep: string, start: nat, from: nat)
    requires start <= |s|
    ensures Occurrences(s[start..], sep, from) == Occurrences(s, sep, start + from)
    decreases |s| - start - from
  {
    if start + from < |s| {
      MatchShift(s, sep, start, from);
      OccurrencesShift(s, sep, start, from + 1);
    }
  }

  /** The first occurrence, then those after it. */
  lemma OccurrencesFirst(s: string, sep: string, i: nat)
    requires sep != "" && Unbordered(sep) && FirstFrom(s, sep, 0, i)
    ensures Occurrences(s, sep, 0) == 1 + Occurrences(s[i + |sep|..], sep, 0)
  {
    OccurrencesSkip(s, sep, 0, i);
    forall j | i + 1 <= j < i + |sep| ensures !MatchAt(s, sep, j) {
      if MatchAt(s, sep, j) { NoOverlap(s, sep, i, j); }
    }
    OccurrencesSkip(s, sep, i + 1, i + |sep|);
    OccurrencesShift(s, sep, i + |sep|, 0);
  }

  /** With an unbordered separator the left-to-right pass cuts at every occurrence. */
  lemma {:induction false} SplitCutsAll(s: string, sep: string)
    requires sep != "" && Unbordered(sep)
    ensures |Split(s, sep)| == Occurrences(s, sep, 0) + 1
    decreases |s|
  {
    IndexOfIsFirst(s, sep, 0);
    var i := IndexOf(s, sep, 0);
    if i == -1 {
      OccurrencesSkip(s, sep, 0, |s|);
    } else {
      OccurrencesFirst(s, sep, i);
      SplitCutsAll(s[i + |sep|..], sep);
      SplitOneMore(s, sep, i);
    }
  }

  lemma SplitOneMore(s: string, sep: string, i: nat)
    requires sep != "" && IndexOf(s, sep, 0) == i
    ensures |Split(s, sep)| == 1 + |Split(s[i + |sep|..], sep)|
  {
  }

  /* ---------- consequences for unbordered separators ---------- */

  /** Deletion distributes over any written occurrence. */
  lemma RemoveAppendUnbordered(a: string, b: string, sep: string)
    requires sep != "" && Unbordered(sep)
    ensures Remove(a + sep + b, sep) == Remove(a, sep) + Remove(b, sep)
  {
    SplitAppendUnbordered(a, b, sep);
    ConcatAppend(Split(a, sep), Split(b, sep));
  }

  /** Every deleted occurrence shortens the text by its own length and nothing else is lost. */
  lemma {:induction false} RemoveLength(s: string, sep: string)
    requires sep != ""
    ensures |Remove(s, sep)| + |sep| * (|Split(s, sep)| - 1) == |s|
    ensures Contains(s, sep) <==> Remove(s, sep) != s
  {
    ConcatLength(Split(s, sep));
    SplitLength(s, sep);
    if Contains(s, sep) {
      IndexOfIsFirst(s, sep, 0);
      assert IndexOf(s, sep, 0) != -1;
      MulPositive(|sep|, |Split(s, sep)| - 1);
    } else {
      SplitNone(s, sep);
      ConcatCons(s, []);
      assert [s] + [] == [s];
    }
  }

  /* ---------- what one deletion pass leaves behind ---------- */

  /** Deletion character by character: at an occurrence it is skipped, elsewhere the character stays. */
  lemma RemoveHere(t: string, sep: string)
    requires sep != ""
    ensures Remove(sep + t, sep) == Remove(t, sep)
  {
    assert |"" + sep[..|sep| - 1]| < |sep|;
    SplitHead("", sep, t);
    assert sep + t == "" + sep + t;
    ConcatCons("", Split(t, sep));
  }

  lemma RemoveAfter(p: string, sep: string, u: string)
    requires sep != "" && CleanBefore(p, sep)
    ensures Remove(p + sep + u, sep) == p + Remove(u, sep)
  {
    SplitHead(p, sep, u);
    ConcatCons(p, Split(u, sep));
  }

  lemma RemoveNone(s: string, sep: string)
    requires sep != "" && !Contains(s, sep)
    ensures Remove(s, sep) == s
  {
    RemoveLength(s, sep);
  }

  lemma ConsApart(c: char, t: string, p: string, sep: string, u: string)
    requires [c] + t == p + sep + u && p != ""
    ensures p == [c] + p[1..] && t == p[1..] + sep + u
  {
    assert t == ([c] + t)[1..];
  }

  lemma RemoveCons(c: char, t: string, sep: string)
    requires sep != "" && !(sep <= [c] + t)
    ensures Remove([c] + t, sep) == [c] + Remove(t, sep)
  {
    var s := [c] + t;
    if Contains(s, sep) {
      var i := FirstPosition(s, sep);
      var p, u := s[..i], s[i + |sep|..];
      ConsApart(c, t, p, sep, u);
      CleanTail(p, sep);
      RemoveAfter(p, sep, u);
      RemoveAfter(p[1..], sep, u);
      Regroup([c], p[1..], Remove(u, sep));
    } else {
      NoMatchInTail(c, t, sep);
      RemoveNone(s, sep);
      RemoveNone(t, sep);
    }
  }

  lemma FirstPosition(s: string, sep: string) returns (i: nat)
    requires sep != "" && Contains(s, sep)
    ensures i + |sep| <= |s| && s == s[..i] + sep + s[i + |sep|..] && CleanBefore(s[..i], sep)
    ensures i == 0 ==> sep <= s
  {
    IndexOfIsFirst(s, sep, 0);
    i := IndexOf(s, sep, 0);
    assert s == s[..i] + s[i..i + |sep|] + s[i + |sep|..];
    FirstMatch(s[..i], sep, s[i + |sep|..]);
  }

  lemma CleanTail(p: string, sep: string)
    requires sep != "" && p != "" && CleanBefore(p, sep)
    ensures CleanBefore(p[1..], sep)
  {
    var q, q' := p + sep[..|sep| - 1], p[1..] + sep[..|sep| - 1];
    assert q' == q[1..];
    if j :| MatchAt(q', sep, j) {
      MatchShift(q, sep, 1, j);
    }
  }

  lemma NoMatchInTail(c: char, t: string, sep: string)
    requires !Contains([c] + t, sep)
    ensures !Contains(t, sep)
  {
    assert ([c] + t)[1..] == t;
    if j :| MatchAt(t, sep, j) {
      MatchShift([c] + t, sep, 1, j);
    }
  }

  function Repeat(sep: string, n: nat): string
  {
    if n == 0 then "" else sep + Repeat(sep, n - 1)
  }

  /** `u` with `ks[i]` copies of `sep` written between `u[i]` and `u[i + 1]`. */
  function Weave(sep: string, u: string, ks: seq<nat>): string
    requires |u| == |ks| + 1
  {
    if ks == [] then u else [u[0]] + (Repeat(sep, ks[0]) + Weave(sep, u[1..], ks[1..]))
  }

  ghost predicate SomeCopy(ks: seq<nat>)
  {
    exists q :: 0 <= q < |ks| && ks[q] > 0
  }

  lemma {:induction false} WeaveNone(sep: string, u: string, ks: seq<nat>)
    requires |u| == |ks| + 1 && !SomeCopy(ks)
    ensures Weave(sep, u, ks) == u
    decreases |ks|
  {
    if ks != [] {
      assert ks[0] == 0;
      assert forall q :: 0 <= q < |ks[1..]| ==> ks[1..][q] == ks[q + 1];
      WeaveNone(sep, u[1..], ks[1..]);
    }
  }

  /** The first copy in a weave, with the letters before it. */
  lemma {:induction false} WeaveFirst(sep: string, u: string, ks: seq<nat>) returns (i: nat, rest: string)
    requires |u| == |ks| + 1 && SomeCopy(ks)
    ensures i < |ks| && Weave(sep, u, ks) == u[..i + 1] + sep + rest
    decreases |ks|
  {
    if ks[0] > 0 {
      i, rest := 0, Repeat(sep, ks[0] - 1) + Weave(sep, u[1..], ks[1..]);
      assert u[..1] == [u[0]];
    } else {
      var q :| 0 <= q < |ks| && ks[q] > 0;
      assert ks[1..][q - 1] > 0;
      var k, r := WeaveFirst(sep, u[1..], ks[1..]);
      i, rest := k + 1, r;
      assert u[..i + 1] == [u[0]] + u[1..][..k + 1];
    }
  }

  /* A weave of the separator survives the pass. */

  lemma CopyTooClose(s: string, sep: string, m: nat)
    requires Unbordered(sep) && 0 < m < |sep| && MatchAt(s, sep, m)
    ensures !(sep <= s)
  {
    if sep <= s {
      assert s[0..|sep|] == sep;
      NoOverlap(s, sep, 0, m);
    }
  }

  lemma PrefixShowsBorder(s: string, sep: string, m: nat)
    requires 0 < m < |sep| <= |s| && sep <= s
    requires s[m..|sep|] == sep[..|sep| - m] || s[..|sep| - m] == sep[m..]
    ensures sep[..|sep| - m] == sep[m..]
  {
    assert s[m..|sep|] == sep[m..] && s[..|sep| - m] == sep[..|sep| - m];
  }

  lemma BorderTooClose(s: string, sep: string, m: nat)
    requires Unbordered(sep) && 0 < m < |sep| <= |s|
    requires s[m..|sep|] == sep[..|sep| - m] || s[..|sep| - m] == sep[m..]
    ensures !(sep <= s)
  {
    if sep <= s { PrefixShowsBorder(s, sep, m); }
  }

  lemma MatchWritten(a: string, sep: string, z: string)
    ensures MatchAt(a + sep + z, sep, |a|)
  {
    assert (a + sep + z)[|a|..|a| + |sep|] == sep;
  }

  /** No occurrence starts in `x` and runs into letters of the separator with a copy behind them. */
  lemma NoneBefore(sep: string, x: string, i: nat, z: string)
    requires Unbordered(sep) && 0 < |x| < |sep| && i < |sep|
    ensures !(sep <= x + sep[..i] + sep + z)
  {
    var a := x + sep[..i];
    var s := a + sep + z;
    if |a| < |sep| {
      MatchWritten(a, sep, z);
      CopyTooClose(s, sep, |a|);
    } else {
      assert s[|x|..|sep|] == sep[..|sep| - |x|];
      BorderTooClose(s, sep, |x|);
    }
  }

  lemma NoneBeforeWeave(sep: string, x: string, ks: seq<nat>, y: string)
    requires Unbordered(sep) && |sep| == |ks| + 1 && SomeCopy(ks) && 0 < |x| < |sep|
    ensures !(sep <= x + (Weave(sep, sep, ks) + y))
  {
    var i, rest := WeaveFirst(sep, sep, ks);
    NoneBefore(sep, x, i + 1, rest + y);
    FourPieces(x, sep[..i + 1], sep, rest, y);
  }

  lemma FourPieces(x: string, a: string, b: string, c: string, y: string)
    ensures x + ((a + b + c) + y) == x + a + b + (c + y)
  {
  }

  /** Nor does one start with a weave of a proper suffix, or of the whole with a copy in it. */
  lemma NoneAtWeave(sep: string, j: nat, ks: seq<nat>, y: string)
    requires Unbordered(sep) && j + |ks| + 1 == |sep| && (0 < j || SomeCopy(ks))
    ensures !(sep <= Weave(sep, sep[j..], ks) + y)
  {
    if SomeCopy(ks) {
      var i, rest := WeaveFirst(sep, sep[j..], ks);
      var a := sep[j..][..i + 1];
      MatchWritten(a, sep, rest + y);
      CopyTooClose(a + sep + (rest + y), sep, i + 1);
      Regroup(a + sep, rest, y);
    } else {
      WeaveNone(sep, sep[j..], ks);
      NoneAtSuffix(sep, j, y);
    }
  }

  lemma NoneAtSuffix(sep: string, j: nat, y: string)
    requires Unbordered(sep) && 0 < j < |sep|
    ensures !(sep <= sep[j..] + y)
  {
    var s := sep[j..] + y;
    if |sep| <= |s| {
      assert s[..|sep| - j] == sep[j..];
      BorderTooClose(s, sep, j);
    }
  }

  /** One character kept in front keeps what follows. */
  lemma PrefixKept(c: char, w: string, u: string, sep: string)
    requires sep != "" && !(sep <= [c] + u) && w <= Remove(u, sep)
    ensures [c] + w <= Remove([c] + u, sep)
  {
    RemoveCons(c, u, sep);
  }

  lemma WeaveCons(sep: string, j: nat, ks: seq<nat>, y: string)
    requires j + |ks| + 1 == |sep| && ks != []
    ensures sep[j..] == [sep[j]] + sep[j + 1..]
    ensures Weave(sep, sep[j..], ks) + y
         == [sep[j]] + (Repeat(sep, ks[0]) + (Weave(sep, sep[j + 1..], ks[1..]) + y))
  {
    assert sep[j..][1..] == sep[j + 1..];
    var r, w := Repeat(sep, ks[0]), Weave(sep, sep[j + 1..], ks[1..]);
    Regroup([sep[j]], r + w, y);
    Regroup(r, w, y);
  }

  lemma CopyDropped(sep: string, r: string, t: string)
    requires sep != ""
    ensures Remove(sep + r + t, sep) == Remove(r + t, sep)
  {
    Regroup(sep, r, t);
    RemoveHere(r + t, sep);
  }

  lemma LastLetterSurvives(sep: string, j: nat, y: string)
    requires Unbordered(sep) && 0 < j && j + 1 == |sep|
    ensures sep[j..] <= Remove(sep[j..] + y, sep)
  {
    NoneAtSuffix(sep, j, y);
    assert sep[j..] == [sep[j]] + "";
    PrefixKept(sep[j], "", y, sep);
  }

  lemma LetterSurvives(sep: string, j: nat, ks: seq<nat>, y: string)
    requires Unbordered(sep) && j + |ks| + 1 == |sep| && ks != [] && (0 < j || SomeCopy(ks))
    requires sep[j + 1..] <= Remove(Repeat(sep, ks[0]) + (Weave(sep, sep[j + 1..], ks[1..]) + y), sep)
    ensures sep[j..] <= Remove(Weave(sep, sep[j..], ks) + y, sep)
  {
    NoneAtWeave(sep, j, ks, y);
    WeaveCons(sep, j, ks, y);
    PrefixKept(sep[j], sep[j + 1..], Repeat(sep, ks[0]) + (Weave(sep, sep[j + 1..], ks[1..]) + y), sep);
  }

  lemma {:induction false} WeaveSurvives(sep: string, j: nat, m: nat, ks: seq<nat>, y: string)
    requires Unbordered(sep) && j + |ks| + 1 == |sep| && (0 < j || SomeCopy(ks))
    ensures sep[j..] <= Remove(Repeat(sep, m) + (Weave(sep, sep[j..], ks) + y), sep)
    decreases |ks|, m
  {
    var t := Weave(sep, sep[j..], ks) + y;
    if m > 0 {
      WeaveSurvives(sep, j, m - 1, ks, y);
      CopyDropped(sep, Repeat(sep, m - 1), t);
    } else {
      assert Repeat(sep, 0) + t == t;
      if ks == [] {
        LastLetterSurvives(sep, j, y);
      } else {
        WeaveSurvives(sep, j + 1, ks[0], ks[1..], y);
        LetterSurvives(sep, j, ks, y);
      }
    }
  }

  lemma ContainsFurther(c: char, t: string, sep: string)
    requires Contains(t, sep)
    ensures Contains([c] + t, sep)
  {
    var j :| MatchAt(t, sep, j);
    assert ([c] + t)[1..] == t;
    MatchShift([c] + t, sep, 1, j);
  }

  lemma LeftFurther(c: char, u: string, sep: string)
    requires sep != "" && !(sep <= [c] + u) && Contains(Remove(u, sep), sep)
    ensures Contains(Remove([c] + u, sep), sep)
  {
    RemoveCons(c, u, sep);
    ContainsFurther(c, Remove(u, sep), sep);
  }

  lemma PrefixContained(sep: string, r: string)
    requires sep <= r
    ensures Contains(r, sep)
  {
    assert r[0..|sep|] == sep;
    assert MatchAt(r, sep, 0);
  }

  lemma NotPrefix(sep: string, x: string, w: string)
    requires |sep| <= |x| && !(sep <= x)
    ensures !(sep <= x + w)
  {
    assert (x + w)[..|sep|] == x[..|sep|];
  }

  lemma LeftAfterCopy(sep: string, x: string, w: string)
    requires sep != "" && sep <= x && Contains(Remove(x[|sep|..] + w, sep), sep)
    ensures Contains(Remove(x + w, sep), sep)
  {
    assert x == sep + x[|sep|..];
    CopyDropped(sep, x[|sep|..], w);
  }

  lemma LeftAfterLetter(sep: string, x: string, w: string)
    requires sep != "" && x != "" && !(sep <= x + w) && Contains(Remove(x[1..] + w, sep), sep)
    ensures Contains(Remove(x + w, sep), sep)
  {
    assert x == [x[0]] + x[1..];
    Regroup([x[0]], x[1..], w);
    LeftFurther(x[0], x[1..] + w, sep);
  }

  lemma {:induction false} WeaveLeaves(sep: string, x: string, ks: seq<nat>, y: string)
    requires Unbordered(sep) && |sep| == |ks| + 1 && SomeCopy(ks)
    ensures Contains(Remove(x + (Weave(sep, sep, ks) + y), sep), sep)
    decreases |x|
  {
    var w := Weave(sep, sep, ks) + y;
    if x == "" {
      assert sep[0..] == sep && Repeat(sep, 0) + w == w == x + w;
      WeaveSurvives(sep, 0, 0, ks, y);
      PrefixContained(sep, Remove(w, sep));
    } else if sep <= x {
      WeaveLeaves(sep, x[|sep|..], ks, y);
      LeftAfterCopy(sep, x, w);
    } else {
      if |x| < |sep| { NoneBeforeWeave(sep, x, ks, y); } else { NotPrefix(sep, x, w); }
      WeaveLeaves(sep, x[1..], ks, y);
      LeftAfterLetter(sep, x, w);
    }
  }

  /* Whatever survives was woven. */

  lemma RemoveEmpty(sep: string)
    requires sep != ""
    ensures Remove("", sep) == ""
  {
    RemoveLength("", sep);
  }

  lemma {:induction false} Unweave(sep: string, s: string, w: string) returns (m: nat, ks: seq<nat>, y: string)
    requires sep != "" && w != "" && w <= Remove(s, sep)
    ensures |w| == |ks| + 1 && s == Repeat(sep, m) + (Weave(sep, w, ks) + y)
    ensures !(sep <= Weave(sep, w, ks) + y)
    decreases |s|
  {
    RemoveEmpty(sep);
    if sep <= s {
      var t := s[|sep|..];
      assert s == sep + t;
      RemoveHere(t, sep);
      var m', ks', y' := Unweave(sep, t, w);
      m, ks, y := m' + 1, ks', y';
      Regroup(sep, Repeat(sep, m'), Weave(sep, w, ks) + y);
    } else {
      var c, t := s[0], s[1..];
      assert s == [c] + t;
      RemoveCons(c, t, sep);
      if |w| == 1 {
        m, ks, y := 0, [], t;
        assert w == [c] && s == "" + (w + y);
      } else {
        assert w[1..] <= Remove(t, sep);
        var m', ks', y' := Unweave(sep, t, w[1..]);
        m, ks, y := 0, [m'] + ks', y';
        assert ks[1..] == ks';
        Regroup([c], Repeat(sep, m') + Weave(sep, w[1..], ks'), y);
        Regroup(Repeat(sep, m'), Weave(sep, w[1..], ks'), y);
        assert Weave(sep, w, ks) + y == s;
        assert "" + s == s;
      }
    }
  }

  lemma {:induction false} FindWeave(sep: string, s: string, k: nat) returns (x: string, ks: seq<nat>, y: string)
    requires sep != "" && MatchAt(Remove(s, sep), sep, k)
    ensures |sep| == |ks| + 1 && SomeCopy(ks) && s == x + (Weave(sep, sep, ks) + y)
    decreases |s|
  {
    RemoveEmpty(sep);
    if k == 0 {
      assert sep <= Remove(s, sep);
      var m, ks', y' := Unweave(sep, s, sep);
      x, ks, y := Repeat(sep, m), ks', y';
      if !SomeCopy(ks) { WeaveNone(sep, sep, ks); }
    } else if sep <= s {
      var t := s[|sep|..];
      assert s == sep + t;
      RemoveHere(t, sep);
      var x', ks', y' := FindWeave(sep, t, k);
      x, ks, y := sep + x', ks', y';
      Regroup(sep, x', Weave(sep, sep, ks) + y);
    } else {
      var c, t := s[0], s[1..];
      assert s == [c] + t;
      RemoveCons(c, t, sep);
      assert ([c] + Remove(t, sep))[1..] == Remove(t, sep);
      MatchShift([c] + Remove(t, sep), sep, 1, k - 1);
      var x', ks', y' := FindWeave(sep, t, k - 1);
      x, ks, y := [c] + x', ks', y';
      Regroup([c], x', Weave(sep, sep, ks) + y);
    }
  }

  /** `s` holds the separator with whole separators, at least one in all, between its letters. */
  ghost predicate Woven(s: string, sep: string, x: string, ks: seq<nat>, y: string)
  {
    |sep| == |ks| + 1 && SomeCopy(ks) && s == x + (Weave(sep, sep, ks) + y)
  }

  /** One pass leaves an occurrence behind exactly when the text holds such a weave. */
  lemma RemoveLeaves(s: string, sep: string)
    requires sep != "" && Unbordered(sep)
    ensures Contains(Remove(s, sep), sep) <==> exists x, ks, y :: Woven(s, sep, x, ks, y)
  {
    if x, ks, y :| Woven(s, sep, x, ks, y) {
      WeaveLeaves(sep, x, ks, y);
    }
    if k :| MatchAt(Remove(s, sep), sep, k) {
      var x, ks, y := FindWeave(sep, s, k);
      assert Woven(s, sep, x, ks, y);
    }
  }

  lemma {:induction false} ConcatChars(parts: seq<string>, c: char)
    requires c in Concat(parts)
    ensures exists p :: p in parts && c in p
    decreases |parts|
  {
    if c !in parts[0] {
      ConcatChars(parts[1..], c);
      var p :| p in parts[1..] && c in p;
      assert p in parts;
    }
  }

  lemma RemoveChars(s: string, sep: string, c: char)
    requires sep != "" && c in Remove(s, sep)
    ensures c in s
  {
    ConcatChars(Split(s, sep), c);
    SplitChars(s, sep);
  }
}
