/** Value-space paths: the canonicalising buffer loop of src/publishsubscribe/qvaluespace.cpp and the
  meaning of the paths it produces. */
module CanonicalPath {
  import opened Text

  // ---------------------------------------------------------------------------------------------
  // What a path means: the list of its non-empty segments
  // ---------------------------------------------------------------------------------------------

  /** The length of the leading run of characters that are not a slash. */
  function RunLength(s: string): (n: nat)
    ensures n <= |s|
    ensures '/' !in s[..n]
    ensures n < |s| ==> s[n] == '/'
  {
    if s == "" || s[0] == '/' then 0
    else
      var n := RunLength(s[1..]);
      assert s[..n + 1] == [s[0]] + s[1..][..n];
      n + 1
  }

  /** The length of the leading run of slashes. */
  function SlashLength(s: string): (n: nat)
    ensures n <= |s|
    ensures forall i | 0 <= i < n :: s[i] == '/'
    ensures n < |s| ==> s[n] != '/'
  {
    if s == "" || s[0] != '/' then 0 else 1 + SlashLength(s[1..])
  }

  /** The non-empty segments between slashes, in order. */
  function Segments(s: string): (segs: seq<string>)
    ensures ProperSegments(segs)
    decreases |s|
  {
    if s == "" then []
    else if s[0] == '/' then Segments(s[1..])
    else [s[..RunLength(s)]] + Segments(s[RunLength(s)..])
  }

  ghost predicate ProperSegments(segs: seq<string>) {
    forall i | 0 <= i < |segs| :: segs[i] != "" && '/' !in segs[i]
  }

  /** Every segment with a slash before it. */
  function Slashed(segs: seq<string>): (s: string)
  {
    if segs == [] then "" else "/" + segs[0] + Slashed(segs[1..])
  }

  /** The path that names a list of segments. */
  function PathOf(segs: seq<string>): (s: string)
  {
    if segs == [] then "/" else Slashed(segs)
  }

  /** The documented result of qCanonicalPath. */
  function Canonical(s: string): (p: string)
  {
    PathOf(Segments(s))
  }

  ghost predicate IsCanonical(p: string) {
    Canonical(p) == p
  }

  lemma {:induction false} SlashedConcat(a: seq<string>, b: seq<string>)
    ensures Slashed(a + b) == Slashed(a) + Slashed(b)
  {
    if a == [] {
      assert a + b == b;
    } else {
      assert (a + b)[1..] == a[1..] + b;
      SlashedConcat(a[1..], b);
    }
  }

  lemma {:induction false} RunLengthOfRun(g: string, rest: string)
    requires '/' !in g && (rest == "" || rest[0] == '/')
    ensures RunLength(g + rest) == |g|
  {
    if g == "" {
      assert g + rest == rest;
    } else {
      assert (g + rest)[1..] == g[1..] + rest;
      assert g[0] in g;
      RunLengthOfRun(g[1..], rest);
    }
  }

  lemma {:induction false} SegmentsOfRun(g: string, rest: string)
    requires g != "" && '/' !in g && (rest == "" || rest[0] == '/')
    ensures Segments(g + rest) == [g] + Segments(rest)
  {
    RunLengthOfRun(g, rest);
    assert (g + rest)[..|g|] == g && (g + rest)[|g|..] == rest;
  }

  lemma SegmentsOfSlash(s: string)
    ensures Segments("/" + s) == Segments(s)
  {
    assert ("/" + s)[1..] == s;
  }

  lemma RunThenRest(g: string, rest: string, b: string)
    requires g != "" && '/' !in g && (rest == "" || rest[0] == '/') && (b == "" || b[0] == '/')
    requires Segments(rest + b) == Segments(rest) + Segments(b)
    ensures Segments(g + rest + b) == Segments(g + rest) + Segments(b)
  {
    hide Segments;
    assert g + rest + b == g + (rest + b);
    SegmentsOfRun(g, rest);
    SegmentsOfRun(g, rest + b);
    assert [g] + (Segments(rest) + Segments(b)) == [g] + Segments(rest) + Segments(b);
  }

  /** Splitting at a slash splits the segments. */
  lemma {:induction false} SegmentsConcat(a: string, b: string)
    requires b == "" || b[0] == '/'
    ensures Segments(a + b) == Segments(a) + Segments(b)
    decreases |a|
  {
    if a == "" {
      assert a + b == b;
    } else if a[0] == '/' {
      hide Segments;
      assert a == "/" + a[1..];
      assert a + b == "/" + (a[1..] + b);
      SegmentsOfSlash(a[1..]);
      SegmentsOfSlash(a[1..] + b);
      SegmentsConcat(a[1..], b);
    } else {
      hide Segments;
      var n := RunLength(a);
      assert a == a[..n] + a[n..];
      SegmentsConcat(a[n..], b);
      RunThenRest(a[..n], a[n..], b);
    }
  }

  lemma {:induction false} SegmentsOfSlashed(segs: seq<string>)
    requires ProperSegments(segs)
    ensures Segments(Slashed(segs)) == segs
  {
    if segs != [] {
      SegmentsOfSlashed(segs[1..]);
      var tail := segs[0] + Slashed(segs[1..]);
      assert Slashed(segs) == "/" + tail && Slashed(segs)[1..] == tail;
      SegmentsOfRun(segs[0], Slashed(segs[1..]));
    }
  }

  /** Paths and lists of proper segments name each other one to one. */
  lemma SegmentsOfPath(segs: seq<string>)
    requires ProperSegments(segs)
    ensures Segments(PathOf(segs)) == segs
    ensures IsCanonical(PathOf(segs))
  {
    if segs == [] {
      assert Segments("/") == Segments("");
    } else {
      SegmentsOfSlashed(segs);
    }
  }

  lemma CanonicalIdempotent(s: string)
    ensures Canonical(Canonical(s)) == Canonical(s)
    ensures Segments(Canonical(s)) == Segments(s)
  {
    SegmentsOfPath(Segments(s));
  }

  lemma SlashedEnds(segs: seq<string>)
    requires segs != [] && ProperSegments(segs)
    ensures Slashed(segs) == Slashed(segs[..|segs| - 1]) + "/" + segs[|segs| - 1]
    ensures |Slashed(segs)| >= 2 && Slashed(segs)[0] == '/' && Slashed(segs)[|Slashed(segs)| - 1] != '/'
  {
    var n := |segs| - 1;
    assert segs == segs[..n] + [segs[n]];
    SlashedConcat(segs[..n], [segs[n]]);
    assert Slashed([segs[n]]) == "/" + segs[n] + Slashed([]);
  }

  // ---------------------------------------------------------------------------------------------
  // The buffer loop
  // ---------------------------------------------------------------------------------------------

  /** What one pass of the outer loop leaves to be read. */
  function AfterPass(s: string): (t: string)
    ensures |t| <= |s|
    ensures s != "" ==> |t| < |s|
  {
    var k := SlashLength(s);
    s[k + RunLength(s[k..])..]
  }

  /** The run that one pass copies. */
  function NextRun(s: string): string {
    var t := s[SlashLength(s)..];
    t[..RunLength(t)]
  }

  /** What the outer loop writes for the remaining input. */
  function Written(s: string): string
    decreases |s|
  {
    "/" + NextRun(s) + (if AfterPass(s) == "" then "" else Written(AfterPass(s)))
  }

  /** Every slash written except the first is paid for by a slash read. */
  lemma {:induction false} WrittenFits(s: string)
    ensures |Written(s)| <= |s| + 1
    ensures s != "" && s[0] == '/' ==> |Written(s)| <= |s|
    decreases |s|
  {
    var k := SlashLength(s);
    var rest := AfterPass(s);
    if rest != "" {
      WrittenFits(rest);
      assert rest[0] == s[k..][RunLength(s[k..])];
    }
  }

  lemma {:induction false} SegmentsSkipSlashes(s: string)
    ensures Segments(s) == Segments(s[SlashLength(s)..])
  {
    if s != "" && s[0] == '/' {
      SegmentsSkipSlashes(s[1..]);
      assert s[1..][SlashLength(s[1..])..] == s[SlashLength(s)..];
    } else {
      assert s[SlashLength(s)..] == s;
    }
  }

  /** One pass reads one segment, unless only slashes are left. */
  lemma SegmentsOfPass(s: string)
    ensures Segments(s) == (if NextRun(s) == "" then [] else [NextRun(s)]) + Segments(AfterPass(s))
    ensures NextRun(s) == "" ==> AfterPass(s) == ""
    ensures AfterPass(s) != "" ==> AfterPass(s)[0] == '/'
  {
    SegmentsSkipSlashes(s);
    var t := s[SlashLength(s)..];
    assert AfterPass(s) == t[RunLength(t)..];
    if t != "" {
      assert Segments(t) == [t[..RunLength(t)]] + Segments(t[RunLength(t)..]);
    }
  }

  lemma PassThenTail(run: string, tail: seq<string>, w: string)
    requires w == Slashed(tail) || w == Slashed(tail) + "/"
    ensures "/" + run + w == Slashed([run] + tail) || "/" + run + w == Slashed([run] + tail) + "/"
  {
    assert ([run] + tail)[1..] == tail;
    assert "/" + run + (Slashed(tail) + "/") == "/" + run + Slashed(tail) + "/";
  }

  /** The buffer holds the canonical path, with one slash too many when the input ends in one. */
  lemma {:induction false} WrittenIsCanonical(s: string)
    ensures Written(s) == Slashed(Segments(s)) || Written(s) == Slashed(Segments(s)) + "/"
    ensures Segments(s) == [] ==> Written(s) == "/"
    decreases |s|
  {
    SegmentsOfPass(s);
    var run, rest := NextRun(s), AfterPass(s);
    var w := if rest == "" then "" else Written(rest);
    assert Segments("") == [] && Slashed([]) == "";
    assert Written(s) == "/" + run + w;
    hide Segments, NextRun, AfterPass, Slashed, Written;
    if run != "" {
      if rest != "" {
        WrittenIsCanonical(rest);
      }
      PassThenTail(run, Segments(rest), w);
    }
  }

  /** The first inner loop: past the slashes. */
  method SkipSlashes(path: string, from0: nat) returns (from: nat)
    requires from0 <= |path|
    ensures from == from0 + SlashLength(path[from0..])
  {
    ghost var s := path[from0..];
    from := from0;
    while from != |path| && path[from] == '/'
      invariant from0 <= from <= from0 + SlashLength(s)
    {
      assert path[from] == s[from - from0];
      from := from + 1;
    }
    assert from < |path| ==> path[from] == s[from - from0];
  }

  /** The second inner loop: copy the run up to the next slash. */
  method CopyRun(path: string, to: array<char>, start: nat, out0: nat) returns (from: nat, outc: nat)
    requires start <= |path| && out0 + RunLength(path[start..]) <= to.Length
    modifies to
    ensures from == start + RunLength(path[start..]) && outc == out0 + RunLength(path[start..])
    ensures forall i | 0 <= i < out0 :: to[i] == old(to[i])
    ensures forall i | out0 <= i < outc :: to[i] == path[start + i - out0]
  {
    ghost var t := path[start..];
    from, outc := start, out0;
    while from != |path| && path[from] != '/'
      invariant start <= from <= start + RunLength(t)
      invariant outc == out0 + (from - start)
      invariant forall i | 0 <= i < out0 :: to[i] == old(to[i])
      invariant forall i | out0 <= i < outc :: to[i] == path[start + i - out0]
    {
      assert path[from] == t[from - start];
      to[outc] := path[from];
      outc := outc + 1;
      from := from + 1;
    }
    assert from < |path| ==> path[from] == t[from - start];
    assert forall i | 0 <= i < RunLength(t) :: t[..RunLength(t)][i] != '/';
  }

  /** One pass of the outer loop: a slash, then the next run of the input. */
  method CopyPass(path: string, to: array<char>, from0: nat, out0: nat) returns (from: nat, outc: nat)
    requires from0 <= |path| && out0 + 1 + |NextRun(path[from0..])| <= to.Length
    modifies to
    ensures from <= |path| && path[from..] == AfterPass(path[from0..])
    ensures outc == out0 + 1 + |NextRun(path[from0..])|
    ensures to[..outc] == old(to[..out0]) + "/" + NextRun(path[from0..])
  {
    hide SlashLength, RunLength;
    ghost var s := path[from0..];
    to[out0] := '/';
    var start := SkipSlashes(path, from0);
    assert path[start..] == s[SlashLength(s)..];
    from, outc := CopyRun(path, to, start, out0 + 1);
    assert path[from..] == AfterPass(s);
    assert to[..outc] == old(to[..out0]) + "/" + NextRun(s);
  }

  /** The buffer so far, followed by what is still to be written, is everything that is written. */
  ghost predicate Progress(all: string, done: string, rest: string) {
    all == done + (if rest == "" then "" else Written(rest))
  }

  lemma FirstPass(path: string)
    ensures 1 + |NextRun(path)| <= |Written(path)| <= |path| + 1
    ensures Progress(Written(path), "/" + NextRun(path), AfterPass(path))
  {
    WrittenFits(path);
  }

  lemma Regroup(a: string, b: string, c: string, d: string)
    ensures a + (b + c + d) == (a + b + c) + d
  {
    assert a + (b + c + d) == a + (b + c) + d;
    assert a + (b + c) == a + b + c;
  }

  lemma {:induction false} NextPass(all: string, done: string, rest: string)
    requires Progress(all, done, rest) && rest != ""
    ensures |done| + 1 + |NextRun(rest)| <= |all|
    ensures Progress(all, done + "/" + NextRun(rest), AfterPass(rest))
  {
    var tail := if AfterPass(rest) == "" then "" else Written(AfterPass(rest));
    assert Written(rest) == "/" + NextRun(rest) + tail;
    hide Written, NextRun, AfterPass;
    Regroup(done, "/", NextRun(rest), tail);
  }

  /** The loop of qCanonicalPath. The buffer has one slot for each character of the input and one for
      the string terminator, which is the last slot the loop can reach. */
  method FillBuffer(path: string) returns (to: array<char>, outc: nat)
    ensures fresh(to) && outc <= to.Length && to.Length == |path| + 1
    ensures to[..outc] == Written(path)
  {
    hide Written, NextRun, AfterPass;
    to := new char[|path| + 1](_ => '\0');
    FirstPass(path);
    var from;
    assert path[0..] == path;
    from, outc := CopyPass(path, to, 0, 0);
    assert to[..outc] == "/" + NextRun(path);
    while from != |path|
      invariant 0 <= from <= |path|
      invariant 0 <= outc <= to.Length
      invariant Progress(Written(path), to[..outc], path[from..])
    {
      NextPass(Written(path), to[..outc], path[from..]);
      from, outc := CopyPass(path, to, from, outc);
    }
  }

  method QCanonicalPath(path: string) returns (result: string)
    ensures result == Canonical(path)
  {
    hide Written, Canonical;
    var to, outc := FillBuffer(path);
    TrimTrailing(path, to[..outc]);
    if outc > 1 && to[outc - 1] == '/' {
      outc := outc - 1;
    }
    result := to[..outc];
  }

  lemma TrimTrailing(path: string, written: string)
    requires written == Written(path)
    ensures written != ""
    ensures Canonical(path) == if |written| > 1 && written[|written| - 1] == '/'
                               then written[..|written| - 1] else written
  {
    WrittenIsCanonical(path);
    if Segments(path) != [] {
      SlashedEnds(Segments(path));
    }
  }

  // ---------------------------------------------------------------------------------------------
  // Moving in the tree
  // ---------------------------------------------------------------------------------------------

  /** The path that `cd` asks for. */
  function CdTarget(path: string, to: string): string {
    if to != "" && to[0] == '/' then to else path + "/" + to
  }

  /** The path that `cdUp` asks for. */
  function UpTarget(path: string): string {
    if path == "/" || LastIndexOf(path, '/') < 0 then path else path[..LastIndexOf(path, '/')]
  }

  /** A relative move appends the segments of its argument. */
  lemma CdAppends(path: string, to: string)
    requires to == "" || to[0] != '/'
    ensures Segments(CdTarget(path, to)) == Segments(path) + Segments(to)
  {
    assert path + "/" + to == path + ("/" + to);
    SegmentsConcat(path, "/" + to);
    assert ("/" + to)[1..] == to;
  }

  lemma {:induction false} LastSlashAt(a: string, g: string)
    requires '/' !in g
    ensures LastIndexOf(a + "/" + g, '/') == |a|
  {
    var s := a + "/" + g;
    if g == "" {
      assert s[|s| - 1] == '/';
    } else {
      var init := g[..|g| - 1];
      LastSlashAt(a, init);
      assert s[..|s| - 1] == a + "/" + init;
      assert s[|s| - 1] == g[|g| - 1];
    }
  }

  /** Moving up drops the last segment, and stays at the root. */
  lemma UpDropsLast(path: string)
    requires IsCanonical(path)
    ensures Segments(UpTarget(path)) == DropLast(Segments(path))
  {
    hide LastIndexOf, Segments;
    var segs := Segments(path);
    if segs != [] {
      var init, last := DropLast(segs), segs[|segs| - 1];
      SlashedEnds(segs);
      LastSlashAt(Slashed(init), last);
      assert (Slashed(init) + "/" + last)[..|Slashed(init)|] == Slashed(init);
      SegmentsOfSlashed(init);
    }
  }

  function DropLast(segs: seq<string>): seq<string> {
    if segs == [] then [] else segs[..|segs| - 1]
  }

  /** `cd` by one path after another, and `cdUp` a number of times, on the canonical path held. */
  function Cd(path: string, to: string): string {
    Canonical(CdTarget(path, to))
  }

  function CdUp(path: string): string {
    Canonical(UpTarget(path))
  }

  function CdUpTimes(path: string, k: nat): string
    decreases k
  {
    if k == 0 then path else CdUpTimes(CdUp(path), k - 1)
  }

  lemma CdUpOfPath(segs: seq<string>)
    requires ProperSegments(segs)
    ensures CdUp(PathOf(segs)) == PathOf(DropLast(segs))
  {
    SegmentsOfPath(segs);
    UpDropsLast(PathOf(segs));
  }

  lemma {:induction false} UpTimesDrops(segs: seq<string>, k: nat)
    requires ProperSegments(segs) && k <= |segs|
    ensures CdUpTimes(PathOf(segs), k) == PathOf(segs[..|segs| - k])
    decreases k
  {
    hide CdUp, PathOf;
    if k == 0 {
      assert segs[..|segs|] == segs;
    } else {
      CdUpOfPath(segs);
      UpTimesDrops(DropLast(segs), k - 1);
      assert DropLast(segs)[..|segs| - k] == segs[..|segs| - k];
    }
  }

  /** Going down a relative path and up once for each of its segments leads back. */
  lemma CdThenUp(path: string, to: string)
    requires IsCanonical(path) && (to == "" || to[0] != '/')
    ensures CdUpTimes(Cd(path, to), |Segments(to)|) == path
  {
    CdAppends(path, to);
    var segs := Segments(path);
    UpTimesDrops(segs + Segments(to), |Segments(to)|);
    assert (segs + Segments(to))[..|segs|] == segs;
  }
}
