/** strsplit: splitting a NUL-terminated string in place. */
module Splitting {
  import opened Words
  import opened CStrings

  // ----- What the code computes on the string before the NUL

  function FirstRun(u: string, d: char): (w: string)
    ensures |w| <= |u|
  {
    if u == "" || u[0] == d then "" else [u[0]] + FirstRun(u[1..], d)
  }

  lemma {:induction false} FirstRunFacts(u: string, d: char)
    ensures d !in FirstRun(u, d) && FirstRun(u, d) == u[..|FirstRun(u, d)|]
    ensures |FirstRun(u, d)| < |u| ==> u[|FirstRun(u, d)|] == d
  {
    if u != "" && u[0] != d {
      FirstRunFacts(u[1..], d);
    }
  }

  function SkipDelims(u: string, d: char): (v: string)
    ensures |v| <= |u| && (v != "" ==> v[0] != d)
  {
    if u != "" && u[0] == d then SkipDelims(u[1..], d) else u
  }

  /** The parts from a part that starts at u, at most `limit` of them; the last one is not split further. */
  function PartsFrom(u: string, d: char, limit: nat): (parts: seq<string>)
    requires limit > 0
    ensures 1 <= |parts| <= limit
    decreases limit
  {
    var w := FirstRun(u, d);
    if limit == 1 then [u]
    else if SkipDelims(u[|w|..], d) == "" then [w]
    else [w] + PartsFrom(SkipDelims(u[|w|..], d), d, limit - 1)
  }

  /** strsplit skips at most one leading delimiter. */
  function Split(t: string, d: char, max: nat): (parts: seq<string>)
    requires max > 0
    ensures |parts| <= max
  {
    var u := if t != "" && t[0] == d then t[1..] else t;
    if u == "" then [] else PartsFrom(u, d, max)
  }

  // ----- The recursive split it should be

  /** The first `max` maximal delimiter-free runs; the last of them, if the limit is reached, keeps the rest. */
  function Runs(t: string, d: char, max: nat): (parts: seq<string>)
    requires max > 0
    ensures |parts| <= max
    decreases max
  {
    var v := SkipDelims(t, d);
    if v == "" then []
    else if max == 1 then [v]
    else [FirstRun(v, d)] + Runs(v[|FirstRun(v, d)|..], d, max - 1)
  }

  predicate DoubledLeading(t: string, d: char) {
    |t| >= 2 && t[0] == d && t[1] == d
  }

  lemma {:induction false} PartsFromIsRuns(u: string, d: char, limit: nat)
    requires limit > 0 && u != "" && u[0] != d
    ensures PartsFrom(u, d, limit) == Runs(u, d, limit)
    decreases limit
  {
    if limit > 1 {
      var rest := u[|FirstRun(u, d)|..];
      if SkipDelims(rest, d) != "" {
        PartsFromIsRuns(SkipDelims(rest, d), d, limit - 1);
        SkipTwice(rest, d);
      }
    }
  }

  lemma SkipTwice(u: string, d: char)
    ensures SkipDelims(SkipDelims(u, d), d) == SkipDelims(u, d)
  {
  }

  /** strsplit is the recursive split if and only if the string does not start with two delimiters. */
  lemma SplitIsRunsIff(t: string, d: char, max: nat)
    requires max > 0
    ensures Split(t, d, max) == Runs(t, d, max) <==> !DoubledLeading(t, d)
  {
    var u := if t != "" && t[0] == d then t[1..] else t;
    if u != "" {
      if DoubledLeading(t, d) {
        assert PartsFrom(u, d, max)[0] == if max == 1 then u else "";
        var v := SkipDelims(t, d);
        if v != "" {
          assert Runs(t, d, max)[0] == if max == 1 then v else FirstRun(v, d);
          assert FirstRun(v, d) != "";
        }
      } else {
        assert SkipDelims(t, d) == u;
        PartsFromIsRuns(u, d, max);
        SkipTwice(t, d);
      }
    }
  }

  /** For instance, "//A" yields an empty first part. */
  lemma DoubledLeadingExample()
    ensures Split("//A", '/', 16) == ["", "A"] && Runs("//A", '/', 16) == ["A"]
  {
    assert "//A"[1..] == "/A" && "/A"[0..] == "/A" && "/A"[1..] == "A" && "A"[1..] == "";
    assert FirstRun("A", '/') == "A";
    assert SkipDelims("/A", '/') == "A" && SkipDelims("//A", '/') == "A";
    assert PartsFrom("A", '/', 15) == ["A"];
  }

  /** Every part is non-empty and starts with no delimiter; below the limit it contains none. */
  lemma {:induction false} RunsAreRuns(t: string, d: char, max: nat, parts: seq<string>)
    requires max > 0 && parts == Runs(t, d, max)
    ensures forall k :: 0 <= k < |parts| ==> parts[k] != "" && parts[k][0] != d && (k < max - 1 ==> d !in parts[k])
    decreases max
  {
    var v := SkipDelims(t, d);
    if v != "" && max > 1 {
      var w := FirstRun(v, d);
      var tail := Runs(v[|w|..], d, max - 1);
      RunsAreRuns(v[|w|..], d, max - 1, tail);
      assert parts == [w] + tail;
      forall k | 0 <= k < |parts|
        ensures parts[k] != "" && parts[k][0] != d && (k < max - 1 ==> d !in parts[k])
      {
        FirstRunFacts(v, d);
        if k > 0 {
          assert parts[k] == tail[k - 1];
        }
      }
    }
  }

  function Without(t: string, d: char): string {
    if t == "" then "" else (if t[0] == d then "" else [t[0]]) + Without(t[1..], d)
  }

  function Concat(parts: seq<string>): string {
    if parts == [] then "" else parts[0] + Concat(parts[1..])
  }

  lemma {:induction false} WithoutAppend(a: string, b: string, d: char)
    ensures Without(a + b, d) == Without(a, d) + Without(b, d)
  {
    if a == "" {
      assert a + b == b;
    } else {
      assert (a + b)[1..] == a[1..] + b;
      WithoutAppend(a[1..], b, d);
    }
  }

  lemma {:induction false} WithoutSkip(t: string, d: char)
    ensures Without(SkipDelims(t, d), d) == Without(t, d)
  {
    if t != "" && t[0] == d {
      WithoutSkip(t[1..], d);
    }
  }

  /** No character but delimiters is lost, added or moved. */
  lemma {:induction false} RunsKeepText(t: string, d: char, max: nat)
    requires max > 0
    ensures Without(Concat(Runs(t, d, max)), d) == Without(t, d)
    decreases max
  {
    var v := SkipDelims(t, d);
    WithoutSkip(t, d);
    if v != "" && max == 1 {
      assert Concat([v]) == v + Concat([]);
      assert v + "" == v;
    } else if v != "" {
      var w := FirstRun(v, d);
      var rest := v[|w|..];
      RunsKeepText(rest, d, max - 1);
      RunsUnfold(t, d, max);
      FirstRunFacts(v, d);
      assert v == w + rest;
      WithoutAppend(w, rest, d);
      WithoutAppend(w, Concat(Runs(rest, d, max - 1)), d);
    }
  }

  lemma RunsUnfold(t: string, d: char, max: nat)
    requires max > 1 && SkipDelims(t, d) != ""
    ensures var v := SkipDelims(t, d); var w := FirstRun(v, d);
      Concat(Runs(t, d, max)) == w + Concat(Runs(v[|w|..], d, max - 1))
  {
    var v := SkipDelims(t, d);
    var w, tail := FirstRun(v, d), Runs(v[|FirstRun(v, d)|..], d, max - 1);
    assert Runs(t, d, max) == [w] + tail && ([w] + tail)[1..] == tail;
  }

  /** A smaller limit keeps the same runs but the last, which then keeps the rest. */
  lemma {:induction false} RunsPrefix(t: string, d: char, max: nat, more: nat)
    requires 0 < max <= more
    ensures |Runs(t, d, max)| == if |Runs(t, d, more)| < max then |Runs(t, d, more)| else max
    ensures forall k :: 0 <= k < |Runs(t, d, max)| && k < max - 1 ==> Runs(t, d, max)[k] == Runs(t, d, more)[k]
    decreases max
  {
    var v := SkipDelims(t, d);
    if v != "" && max > 1 {
      var rest := v[|FirstRun(v, d)|..];
      RunsPrefix(rest, d, max - 1, more - 1);
      var few, many := Runs(rest, d, max - 1), Runs(rest, d, more - 1);
      assert Runs(t, d, max) == [FirstRun(v, d)] + few && Runs(t, d, more) == [FirstRun(v, d)] + many;
    } else if v != "" {
      assert Runs(t, d, more) != [];
    }
  }

  // ----- The loop

  /** The parts still to come when no part is open. */
  function Closed(u: string, d: char, limit: nat): seq<string>
    requires limit > 0
  {
    if SkipDelims(u, d) == "" then [] else PartsFrom(SkipDelims(u, d), d, limit)
  }

  lemma OpenToClosed(u: string, k: nat, d: char, limit: nat)
    requires limit > 1 && k < |u| && u[k] == d && d !in u[..k]
    ensures PartsFrom(u, d, limit) == [u[..k]] + Closed(u[k..], d, limit - 1)
  {
    FirstRunIs(u, k, d);
  }

  lemma {:induction false} FirstRunIs(u: string, k: nat, d: char)
    requires k <= |u| && d !in u[..k] && (k < |u| ==> u[k] == d)
    ensures FirstRun(u, d) == u[..k]
  {
    if k > 0 {
      assert u[0] == u[..k][0];
      assert u[1..][..k - 1] == u[..k][1..];
      forall c | c in u[..k][1..] ensures c in u[..k] {}
      FirstRunIs(u[1..], k - 1, d);
    }
  }

  lemma OpenToEnd(u: string, d: char, limit: nat)
    requires limit > 0 && d !in u
    ensures PartsFrom(u, d, limit) == [u]
  {
    assert u[..|u|] == u;
    FirstRunIs(u, |u|, d);
  }

  /** The string w stands at `offset`, followed by a NUL, all before position i. */
  ghost predicate Terminated(b: seq<char>, offset: nat, w: string, i: nat) {
    && offset + |w| < i <= |b| && b[offset + |w|] == NUL && NoNul(w)
    && forall j :: 0 <= j < |w| ==> b[offset + j] == w[j]
  }

  ghost predicate AllTerminated(b: seq<char>, offsets: seq<nat>, done: seq<string>, i: nat) {
    |done| <= |offsets| && forall k :: 0 <= k < |done| ==> Terminated(b, offsets[k], done[k], i)
  }

  /** The buffer still holds the string t from position p on. */
  ghost predicate Holds(b: seq<char>, t: string, p: nat) {
    p <= |t| < |b| && b[|t|] == NUL && NoNul(t) && forall k :: p <= k < |t| ==> b[k] == t[k]
  }

  ghost predicate Increasing(offsets: seq<nat>, i: nat) {
    (forall j, k :: 0 <= j < k < |offsets| ==> offsets[j] < offsets[k])
    && (forall k :: 0 <= k < |offsets| ==> offsets[k] <= i)
  }

  /** What is still to come at position i, after the terminated parts: from an open part, or from between parts. */
  ghost predicate ToCome(t: string, d: char, max: nat, b: seq<char>, offsets: seq<nat>, done: seq<string>, i: nat,
                         all: seq<string>) {
    && |done| < max && i <= |t|
    && (if |offsets| == |done|
        then (i < |t| ==> t[i] == d) && all == done + Closed(t[i..], d, max - |done|)
        else |offsets| == |done| + 1 && OpenAt(t, d, max, b, offsets[|done|], done, i, all))
  }

  ghost predicate OpenAt(t: string, d: char, max: nat, b: seq<char>, p: nat, done: seq<string>, i: nat,
                         all: seq<string>) {
    && |done| < max && p <= i <= |t| && Holds(b, t, p) && (forall k :: p <= k < i ==> t[k] != d)
    && all == done + PartsFrom(t[p..], d, max - |done|)
  }

  /** The loop at position i of string t, whose parts are to be `all`: `done` are the terminated parts; there is at
      most one more, still open. */
  ghost predicate Progress(t: string, d: char, max: nat, b: seq<char>, offsets: seq<nat>, done: seq<string>, i: nat,
                           all: seq<string>) {
    && max > 0 && Holds(b, t, i) && |offsets| <= max
    && AllTerminated(b, offsets, done, i) && Increasing(offsets, i) && ToCome(t, d, max, b, offsets, done, i, all)
  }

  lemma TerminatedIs(b: seq<char>, offset: nat, w: string, i: nat)
    requires Terminated(b, offset, w, i)
    ensures HasNul(b[offset..]) && CString(b[offset..]) == w
  {
    CStringIs(b[offset..], w);
  }

  /** The string of the last part once the loop is over. */
  lemma OpenEnds(t: string, d: char, max: nat, b: seq<char>, p: nat, done: seq<string>, i: nat, all: seq<string>)
    requires OpenAt(t, d, max, b, p, done, i, all) && (i == |t| || |done| + 1 == max)
    ensures all == done + [t[p..]] && Terminated(b, p, t[p..], |t| + 1)
  {
    if i == |t| {
      OpenToEnd(t[p..], d, max - |done|);
    }
  }

  /** Part k can be read back from the buffer. */
  ghost predicate ReadBack(b: seq<char>, offset: nat, w: string) {
    offset < |b| && HasNul(b[offset..]) && CString(b[offset..]) == w
  }

  /** The strings at these offsets are exactly these parts, and the offsets increase. */
  ghost predicate AllReadBack(b: seq<char>, offsets: seq<nat>, all: seq<string>) {
    && |offsets| == |all| && (forall k :: 0 <= k < |offsets| ==> ReadBack(b, offsets[k], all[k]))
    && (forall j, k :: 0 <= j < k < |offsets| ==> offsets[j] < offsets[k])
  }

  lemma DoneReadBack(b: seq<char>, offsets: seq<nat>, done: seq<string>, i: nat)
    requires AllTerminated(b, offsets, done, i)
    ensures forall k :: 0 <= k < |done| ==> ReadBack(b, offsets[k], done[k])
  {
    forall k | 0 <= k < |done| ensures ReadBack(b, offsets[k], done[k]) {
      TerminatedIs(b, offsets[k], done[k], i);
    }
  }

  /** At the end of the loop every part is in place. */
  lemma ProgressEnds(t: string, d: char, max: nat, b: seq<char>, offsets: seq<nat>, done: seq<string>, i: nat,
                     all: seq<string>)
    requires Progress(t, d, max, b, offsets, done, i, all) && (i == |t| || |offsets| == max)
    ensures |offsets| == |all| && forall k :: 0 <= k < |offsets| ==> ReadBack(b, offsets[k], all[k])
  {
    DoneReadBack(b, offsets, done, i);
    if |offsets| == |done| + 1 {
      var p := offsets[|done|];
      OpenEnds(t, d, max, b, p, done, i, all);
      TerminatedIs(b, p, t[p..], |t| + 1);
    } else {
      assert all == done + [];
    }
  }

  /** An ordinary character. */
  lemma StepOver(t: string, d: char, max: nat, b: seq<char>, offsets: seq<nat>, done: seq<string>, i: nat,
                 all: seq<string>)
    requires Progress(t, d, max, b, offsets, done, i, all) && i < |t| && b[i] != d
    ensures Progress(t, d, max, b, offsets, done, i + 1, all)
  {
  }

  lemma ThreeParts(a: seq<string>, w: string, c: seq<string>)
    ensures a + ([w] + c) == (a + [w]) + c
  {
  }

  /** A delimiter terminates the open part. */
  lemma OpenToDone(t: string, d: char, max: nat, b: seq<char>, p: nat, done: seq<string>, i: nat, all: seq<string>)
    requires OpenAt(t, d, max, b, p, done, i, all) && i < |t| && t[i] == d && |done| + 1 < max
    ensures all == (done + [t[p..i]]) + Closed(t[i..], d, max - |done| - 1)
  {
    var u, k := t[p..], i - p;
    assert u[..k] == t[p..i];
    assert u[k..] == t[i..];
    OpenToClosed(u, k, d, max - |done|);
    ThreeParts(done, t[p..i], Closed(t[i..], d, max - |done| - 1));
  }

  lemma OpenTerminated(t: string, d: char, max: nat, b: seq<char>, p: nat, done: seq<string>, i: nat, all: seq<string>)
    requires OpenAt(t, d, max, b, p, done, i, all) && i < |t|
    ensures Terminated(b[i := NUL], p, t[p..i], i + 1)
  {
  }

  lemma StillTerminated(b: seq<char>, offsets: seq<nat>, done: seq<string>, i: nat)
    requires AllTerminated(b, offsets, done, i) && i < |b|
    ensures AllTerminated(b[i := NUL], offsets, done, i + 1)
  {
  }

  lemma OneMoreTerminated(b: seq<char>, offsets: seq<nat>, done: seq<string>, i: nat, w: string)
    requires AllTerminated(b, offsets, done, i) && i < |b| && |offsets| == |done| + 1
    requires Terminated(b[i := NUL], offsets[|done|], w, i + 1)
    ensures AllTerminated(b[i := NUL], offsets, done + [w], i + 1)
  {
    StillTerminated(b, offsets, done, i);
  }

  lemma CloseOpen(t: string, d: char, max: nat, b: seq<char>, offsets: seq<nat>, done: seq<string>, i: nat,
                  all: seq<string>) returns (done': seq<string>)
    requires Progress(t, d, max, b, offsets, done, i, all) && i < |t| && b[i] == d && |offsets| < max
    ensures |done'| == |offsets| && AllTerminated(b[i := NUL], offsets, done', i + 1)
    ensures all == done' + Closed(t[i..], d, max - |done'|)
  {
    done' := done;
    if |offsets| == |done| + 1 {
      var p := offsets[|done|];
      OpenToDone(t, d, max, b, p, done, i, all);
      OpenTerminated(t, d, max, b, p, done, i, all);
      OneMoreTerminated(b, offsets, done, i, t[p..i]);
      done' := done + [t[p..i]];
    } else {
      StillTerminated(b, offsets, done, i);
      assert all == done + Closed(t[i..], d, max - |done|);
    }
  }

  /** Moving past a delimiter between parts. */
  lemma ClosedStep(t: string, d: char, limit: nat, i: nat)
    requires i < |t| && t[i] == d && limit > 0
    ensures Closed(t[i..], d, limit) == Closed(t[i + 1..], d, limit)
    ensures i + 1 < |t| && t[i + 1] != d ==> Closed(t[i..], d, limit) == PartsFrom(t[i + 1..], d, limit)
  {
    assert t[i..][1..] == t[i + 1..];
  }

  /** A part starts at `next` unless the string ends there or another delimiter follows. */
  function WithPart(offsets: seq<nat>, next: nat, c: char, d: char): seq<nat> {
    if c != NUL && c != d then offsets + [next] else offsets
  }

  lemma AddOffset(b: seq<char>, offsets: seq<nat>, done: seq<string>, next: nat)
    requires AllTerminated(b, offsets, done, next) && next > 0 && Increasing(offsets, next - 1)
    ensures AllTerminated(b, offsets + [next], done, next) && Increasing(offsets + [next], next)
  {
    var more := offsets + [next];
    assert forall k :: 0 <= k < |done| ==> more[k] == offsets[k];
  }

  lemma StepDelimiter(t: string, d: char, max: nat, b: seq<char>, offsets: seq<nat>, done: seq<string>, i: nat,
                      all: seq<string>) returns (done': seq<string>)
    requires Progress(t, d, max, b, offsets, done, i, all) && i < |t| && b[i] == d && d != NUL && |offsets| < max
    ensures Progress(t, d, max, b[i := NUL], WithPart(offsets, i + 1, b[i + 1], d), done', i + 1, all)
  {
    done' := CloseOpen(t, d, max, b, offsets, done, i, all);
    AfterDelimiter(t, d, max, b[i := NUL], offsets, done', i, all);
  }

  lemma AfterDelimiter(t: string, d: char, max: nat, b: seq<char>, offsets: seq<nat>, done: seq<string>, i: nat,
                       all: seq<string>)
    requires i < |t| && t[i] == d && |offsets| == |done| < max && Increasing(offsets, i)
    requires Holds(b, t, i + 1) && AllTerminated(b, offsets, done, i + 1)
    requires all == done + Closed(t[i..], d, max - |done|)
    ensures Progress(t, d, max, b, WithPart(offsets, i + 1, b[i + 1], d), done, i + 1, all)
  {
    ClosedStep(t, d, max - |done|, i);
    var next: nat := i + 1;
    if next < |t| {
      assert b[next] == t[next];
    }
    if b[next] != NUL && b[next] != d {
      AddOffset(b, offsets, done, next);
    }
  }

  lemma SkipFirst(t: string, d: char, b: seq<char>, i: nat)
    requires Holds(b, t, 0) && d != NUL && i == if b[0] == d then 1 else 0
    ensures i <= |t| && t[i..] == if t != "" && t[0] == d then t[1..] else t
  {
    if t != "" {
      assert b[0] == t[0];
    }
  }

  lemma NextIsNul(t: string, b: seq<char>, i: nat)
    requires Holds(b, t, i)
    ensures b[i] == NUL <==> i == |t|
  {
    if i < |t| {
      assert b[i] == t[i];
    }
  }

  lemma SplitStart(t: string, d: char, max: nat, b: seq<char>, i: nat)
    requires Holds(b, t, 0) && max > 0 && d != NUL && i == if b[0] == d then 1 else 0
    ensures i <= |t| && Split(t, d, max) == if i == |t| then [] else PartsFrom(t[i..], d, max)
  {
    SkipFirst(t, d, b, i);
  }

  lemma StartOpen(t: string, d: char, max: nat, b: seq<char>, i: nat, offsets: seq<nat>)
    requires Holds(b, t, 0) && max > 0 && i < |t| && |offsets| == 1 && offsets[0] == i
    ensures Progress(t, d, max, b, offsets, [], i, PartsFrom(t[i..], d, max))
  {
    var none: seq<string>, all := [], PartsFrom(t[i..], d, max);
    assert none + all == all;
    assert OpenAt(t, d, max, b, i, none, i, all);
  }

  lemma StartClosed(t: string, d: char, max: nat, b: seq<char>)
    requires Holds(b, t, 0) && max > 0
    ensures Progress(t, d, max, b, [], [], |t|, [])
  {
    assert Closed(t[|t|..], d, max) == [];
  }

  /** The buffer differs from the original only where a delimiter became NUL. */
  ghost predicate OnlyDelimiters(was: seq<char>, b: seq<char>, d: char) {
    |b| == |was| && forall k :: 0 <= k < |b| ==> b[k] == was[k] || (was[k] == d && b[k] == NUL)
  }

  /** The loop body, and the loop, as functions of buffer and offsets. */
  function LoopBody(b: seq<char>, offsets: seq<nat>, i: nat, d: char): (seq<char>, seq<nat>)
    requires i + 1 < |b|
  {
    if b[i] == d then (b[i := NUL], WithPart(offsets, i + 1, b[i + 1], d)) else (b, offsets)
  }

  function Loop(b: seq<char>, offsets: seq<nat>, i: nat, d: char, max: nat): (seq<char>, seq<nat>)
    decreases |b| - i
  {
    if i + 1 >= |b| || b[i] == NUL || |offsets| >= max then (b, offsets)
    else
      var (b', offsets') := LoopBody(b, offsets, i, d);
      Loop(b', offsets', i + 1, d, max)
  }

  lemma {:induction false} LoopOnlyDelimiters(b: seq<char>, offsets: seq<nat>, i: nat, d: char, max: nat)
    ensures OnlyDelimiters(b, Loop(b, offsets, i, d, max).0, d)
    decreases |b| - i
  {
    if !(i + 1 >= |b| || b[i] == NUL || |offsets| >= max) {
      var (b', offsets') := LoopBody(b, offsets, i, d);
      LoopOnlyDelimiters(b', offsets', i + 1, d, max);
    }
  }

  lemma Step(t: string, d: char, max: nat, b: seq<char>, offsets: seq<nat>, done: seq<string>, i: nat, all: seq<string>)
    returns (done': seq<string>)
    requires Progress(t, d, max, b, offsets, done, i, all) && d != NUL && i < |t| && |offsets| < max
    ensures var (b', offsets') := LoopBody(b, offsets, i, d); Progress(t, d, max, b', offsets', done', i + 1, all)
  {
    if b[i] == d {
      done' := StepDelimiter(t, d, max, b, offsets, done, i, all);
    } else {
      StepOver(t, d, max, b, offsets, done, i, all);
      done' := done;
    }
  }

  /** The loop leaves exactly the parts. */
  lemma {:induction false} LoopSplits(t: string, d: char, max: nat, b: seq<char>, offsets: seq<nat>, done: seq<string>,
                                      i: nat, all: seq<string>)
    requires Progress(t, d, max, b, offsets, done, i, all) && d != NUL
    ensures AllReadBack(Loop(b, offsets, i, d, max).0, Loop(b, offsets, i, d, max).1, all)
    decreases |b| - i
  {
    NextIsNul(t, b, i);
    if i == |t| || |offsets| == max {
      ProgressEnds(t, d, max, b, offsets, done, i, all);
    } else {
      var done' := Step(t, d, max, b, offsets, done, i, all);
      var (b', offsets') := LoopBody(b, offsets, i, d);
      assert Loop(b, offsets, i, d, max) == Loop(b', offsets', i + 1, d, max);
      LoopSplits(t, d, max, b', offsets', done', i + 1, all);
    }
  }

  /** The whole routine. */
  lemma RoutineSplits(was: seq<char>, d: char, max: nat)
    requires HasNul(was) && d != NUL && max > 0
    ensures var i := if was[0] == d then 1 else 0;
      i < |was| && var r := Loop(was, WithPart([], i, was[i], NUL), i, d, max);
      AllReadBack(r.0, r.1, Split(CString(was), d, max)) && OnlyDelimiters(was, r.0, d)
  {
    CStringFacts(was);
    var t := CString(was);
    var i := if was[0] == d then 1 else 0;
    SplitStart(t, d, max, was, i);
    NextIsNul(t, was, i);
    if i < |t| {
      StartOpen(t, d, max, was, i, WithPart([], i, was[i], NUL));
    } else {
      StartClosed(t, d, max, was);
    }
    LoopSplits(t, d, max, was, WithPart([], i, was[i], NUL), [], i, Split(t, d, max));
    LoopOnlyDelimiters(was, WithPart([], i, was[i], NUL), i, d, max);
  }

  method AtPosition(str: array<char>, delim: char, parts: array<nat>, i: nat, count: nat) returns (count': nat)
    requires i + 1 < str.Length && count < parts.Length && str as object != parts
    modifies str, parts
    ensures count <= count' <= count + 1
    ensures (str[..], parts[..count']) == LoopBody(old(str[..]), old(parts[..count]), i, delim)
  {
    ghost var b, offsets := str[..], parts[..count];
    count' := count;
    if str[i] == delim {
      str[i] := NUL;
      assert str[..] == b[i := NUL];
      if str[i + 1] != NUL && str[i + 1] != delim {
        parts[count] := i + 1;
        count' := count + 1;
        assert parts[..count'] == offsets + [i + 1];
      }
    }
  }

  /** parts[0..count] are the offsets of the parts, in increasing order. */
  method StrSplit(str: array<char>, delim: char, parts: array<nat>, maxParts: nat) returns (count: nat)
    requires HasNul(str[..]) && delim != NUL && 0 < maxParts <= parts.Length
    requires str as object != parts
    modifies str, parts
    ensures count <= maxParts && AllReadBack(str[..], parts[..count], Split(CString(old(str[..])), delim, maxParts))
    ensures OnlyDelimiters(old(str[..]), str[..], delim)
  {
    ghost var was := str[..];
    CStringFacts(was);
    ghost var n := |CString(was)|;
    count := 0;
    var i := 0;
    if str[0] == delim {
      i := i + 1;
    }
    if str[i] != NUL {
      parts[count] := i;
      count := count + 1;
    }
    ghost var result := Loop(was, parts[..count], i, delim, maxParts);
    assert parts[..count] == WithPart([], i, was[i], NUL);
    while str[i] != NUL && count < maxParts
      invariant i <= n < str.Length && count <= maxParts
      invariant forall k :: i <= k < str.Length ==> str[k] == was[k]
      invariant Loop(str[..], parts[..count], i, delim, maxParts) == result
      decreases n - i
    {
      ghost var b, offsets := str[..], parts[..count];
      count := AtPosition(str, delim, parts, i, count);
      assert Loop(b, offsets, i, delim, maxParts) == Loop(str[..], parts[..count], i + 1, delim, maxParts);
      assert forall k :: i < k < str.Length ==> str[..][k] == b[k];
      i := i + 1;
    }
    assert (str[..], parts[..count]) == result;
    RoutineSplits(was, delim, maxParts);
  }
}
