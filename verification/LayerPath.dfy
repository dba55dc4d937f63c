/** How the value-space layers put a path under a handle: shared by the GConf and registry layers. */
module LayerPath {
  import opened Text
  import opened CanonicalPath

  predicate EndsWithSlash(s: string) {
    s != "" && s[|s| - 1] == '/'
  }

  predicate StartsWithSlash(s: string) {
    s != "" && s[0] == '/'
  }

  /** The path does not contain "//". */
  ghost predicate NoDoubleSlash(s: string) {
    forall i | 0 < i < |s| :: s[i - 1] != '/' || s[i] != '/'
  }

  function HasDoubleSlash(s: string): (b: bool)
    ensures b <==> !NoDoubleSlash(s)
  {
    exists i | 0 < i < |s| :: s[i - 1] == '/' && s[i] == '/'
  }

  /** The full path of `sub` under `parent`, as `item` and `removeValue` build it. */
  function Join(parent: string, sub: string): string {
    if sub == "/" then parent
    else if EndsWithSlash(parent) && StartsWithSlash(sub) then parent + sub[1..]
    else if !EndsWithSlash(parent) && !StartsWithSlash(sub) then parent + "/" + sub
    else parent + sub
  }

  /** Joining appends segments, whatever slashes the two are written with. */
  lemma {:induction false} JoinSegments(parent: string, sub: string)
    ensures Segments(Join(parent, sub)) == Segments(parent) + Segments(sub)
  {
    assert Segments("") == [];
    SegmentsOfPath([]);
    hide Segments;
    if sub == "/" {
      assert Segments(parent) + [] == Segments(parent);
    } else if EndsWithSlash(parent) {
      var p, s := parent[..|parent| - 1], if StartsWithSlash(sub) then sub[1..] else sub;
      assert parent == p + "/" && Join(parent, sub) == p + ("/" + s);
      assert StartsWithSlash(sub) ==> sub == "/" + s;
      SlashBetween(p, s);
      SlashBetween(p, "");
      SegmentsOfSlash(s);
      assert "/" + "" == "/" && Segments(p) + [] == Segments(p);
    } else if StartsWithSlash(sub) {
      SegmentsConcat(parent, sub);
    } else {
      assert Join(parent, sub) == parent + ("/" + sub);
      SlashBetween(parent, sub);
    }
  }

  lemma {:induction false} SlashBetween(a: string, b: string)
    ensures Segments(a + ("/" + b)) == Segments(a) + Segments(b)
  {
    SegmentsConcat(a, "/" + b);
    SegmentsOfSlash(b);
    hide Segments;
  }

  lemma {:induction false} SlashedNoDouble(segs: seq<string>)
    requires ProperSegments(segs)
    ensures NoDoubleSlash(Slashed(segs))
  {
    if segs != [] {
      SlashedNoDouble(segs[1..]);
      var s, rest := Slashed(segs), Slashed(segs[1..]);
      var n := |segs[0]|;
      forall i | 0 < i < |s|
        ensures s[i - 1] != '/' || s[i] != '/'
      {
        if i <= n {
          assert s[i] == segs[0][i - 1];
        } else if i == n + 1 {
          assert s[i - 1] == segs[0][n - 1];
        } else {
          assert s[i] == rest[i - n - 1] && s[i - 1] == rest[i - n - 2];
        }
      }
    }
  }

  /** The path of a non-empty list of segments without its leading slash. */
  function Relative(segs: seq<string>): (s: string)
    requires segs != []
    ensures Slashed(segs) == "/" + s
  {
    segs[0] + Slashed(segs[1..])
  }

  lemma RelativeEnds(segs: seq<string>)
    requires ProperSegments(segs) && segs != []
    ensures var s := Relative(segs); s != "" && s[0] != '/' && s[|s| - 1] != '/'
  {
    SlashedEnds(segs);
    assert Relative(segs)[0] == segs[0][0];
  }

  lemma CanonicalNoDouble(segs: seq<string>)
    requires ProperSegments(segs)
    ensures PathOf(segs) != "" && NoDoubleSlash(PathOf(segs))
    ensures segs != [] ==> NoDoubleSlash(Relative(segs))
  {
    SlashedNoDouble(segs);
    if segs != [] {
      var s, r := Slashed(segs), Relative(segs);
      forall i | 0 < i < |r|
        ensures r[i - 1] != '/' || r[i] != '/'
      {
        assert r[i - 1] == s[i] && r[i] == s[i + 1];
        assert s[i + 1 - 1] != '/' || s[i + 1] != '/';
      }
    }
  }

  lemma JoinToRoot(b: seq<string>)
    requires ProperSegments(b)
    ensures Join("/", PathOf(b)) == PathOf(b)
    ensures b != [] ==> Join("/", Relative(b)) == PathOf(b)
  {
    if b != [] {
      RelativeEnds(b);
    }
  }

  lemma JoinBelow(a: seq<string>, b: seq<string>)
    requires ProperSegments(a) && ProperSegments(b) && a != []
    ensures Join(Slashed(a), PathOf(b)) == Slashed(a) + Slashed(b)
    ensures b != [] ==> Join(Slashed(a), Relative(b)) == Slashed(a) + Slashed(b)
  {
    SlashedEnds(a);
    if b != [] {
      RelativeEnds(b);
      assert Slashed(a) + "/" + Relative(b) == Slashed(a) + ("/" + Relative(b));
    }
  }

  /** Joining canonical paths joins their segments. */
  lemma JoinCanonical(a: seq<string>, b: seq<string>)
    requires ProperSegments(a) && ProperSegments(b)
    ensures Join(PathOf(a), PathOf(b)) == PathOf(a + b)
    ensures b != [] ==> Join(PathOf(a), Relative(b)) == PathOf(a + b)
  {
    if a == [] {
      assert a + b == b;
      JoinToRoot(b);
    } else {
      SlashedConcat(a, b);
      JoinBelow(a, b);
    }
  }

  /** A path with its trailing slashes chopped off. */
  function Chopped(s: string): (p: string)
    ensures !EndsWithSlash(p) && p <= s && forall i | |p| <= i < |s| :: s[i] == '/'
  {
    if EndsWithSlash(s) then Chopped(s[..|s| - 1]) else s
  }

  method Chop(path: string) returns (p: string)
    ensures p == Chopped(path)
  {
    p := path;
    while EndsWithSlash(p)
      invariant Chopped(p) == Chopped(path)
      decreases |p|
    {
      p := p[..|p| - 1];
    }
  }

  lemma ChoppedCanonical(segs: seq<string>)
    requires ProperSegments(segs)
    ensures Chopped(PathOf(segs)) == Slashed(segs)
  {
    if segs == [] {
      assert "/"[..0] == "";
    } else {
      SlashedEnds(segs);
    }
  }

  /** A path with its leading slashes removed. */
  method StripLeading(path: string) returns (p: string)
    ensures p == path[SlashLength(path)..]
  {
    p := path;
    ghost var k := 0;
    while StartsWithSlash(p)
      invariant 0 <= k <= SlashLength(path)
      invariant p == path[k..]
      decreases |p|
    {
      assert k < SlashLength(path) ==> p[0] == path[k];
      p := p[1..];
      k := k + 1;
    }
    assert p != "" ==> p[0] == path[k];
  }

  /** The last segment, and the path of the others, by cutting at the last slash. */
  lemma {:induction false} CutAtLastSlash(segs: seq<string>)
    requires ProperSegments(segs) && segs != []
    ensures var index := LastIndexOf(Slashed(segs), '/');
      && index >= 0
      && Slashed(segs)[index + 1..] == segs[|segs| - 1]
      && (if Slashed(segs)[..index] == "" then "/" else Slashed(segs)[..index]) == PathOf(DropLast(segs))
  {
    SlashedEnds(segs);
    var init, last := DropLast(segs), segs[|segs| - 1];
    LastSlashAt(Slashed(init), last);
    assert (Slashed(init) + "/" + last)[..|Slashed(init)|] == Slashed(init);
    if init != [] {
      SlashedEnds(init);
    }
  }

  /** The same for a relative path of segments. */
  lemma CutRelative(segs: seq<string>)
    requires ProperSegments(segs) && segs != []
    ensures var rel := Relative(segs); var index := LastIndexOf(rel, '/');
      if |segs| == 1 then index == -1 && rel == segs[0]
      else index >= 0 && rel[index + 1..] == segs[|segs| - 1] && rel[..index] == Relative(DropLast(segs))
  {
    var init, last := DropLast(segs), segs[|segs| - 1];
    if |segs| > 1 {
      SlashedEnds(segs);
      assert Slashed(segs)[1..] == Relative(segs);
      assert Slashed(segs) == Slashed(init) + "/" + last;
      assert ("/" + Relative(init) + "/" + last)[1..] == Relative(init) + "/" + last;
      LastSlashAt(Relative(init), last);
    }
  }

  /** Appending a segment to a canonical path the way `setValue` does. */
  function Append(full: string, value: string): string {
    (if full != "/" && value != "" then full + "/" else full) + value
  }

  lemma AppendLast(a: seq<string>, g: string)
    requires ProperSegments(a) && ProperSegments([g])
    ensures Append(PathOf(a), g) == PathOf(a + [g])
    ensures Append(PathOf(a), "") == PathOf(a)
  {
    SlashedConcat(a, [g]);
    assert Slashed([g]) == "/" + g + Slashed([]);
    assert [g][0] == g;
    if a == [] {
      assert a + [g] == [g];
    } else {
      SlashedEnds(a);
      assert |Slashed(a)| >= 2;
    }
  }
}
