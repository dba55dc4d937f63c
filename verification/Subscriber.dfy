/** The path of a value-space subscriber: src/publishsubscribe/qvaluespacesubscriber.cpp. */
module Subscriber {
  import opened Text
  import opened CanonicalPath

  /** Where a move to `to` leads from a place in the tree. */
  function MovedSegments(from: seq<string>, to: string): seq<string> {
    if to != "" && to[0] == '/' then Segments(to) else from + Segments(to)
  }

  /** A subscriber and the data it points to. `connected` says that some layer was found for it; a
      subscriber that found one keeps finding one, since a new path is offered to every layer. */
  class QValueSpaceSubscriber {
    var path: string
    const connected: bool

    ghost predicate Valid()
      reads this
    {
      IsCanonical(path)
    }

    constructor (path: string, connected: bool)
      ensures Valid() && this.path == Canonical(path) && this.connected == connected
    {
      CanonicalIdempotent(path);
      var p := QCanonicalPath(path);
      this.path := p;
      this.connected := connected;
    }

    method SetPath(path: string)
      requires Valid()
      modifies `path
      ensures Valid()
      ensures this.path == if connected then Canonical(path) else old(this.path)
    {
      if !connected {
        return;
      }
      if this.path == path {
        return;
      }
      CanonicalIdempotent(path);
      this.path := QCanonicalPath(path);
    }

    /** An absolute argument replaces the path; a relative one adds its segments. */
    method Change(path: string)
      requires Valid()
      modifies `path
      ensures Valid()
      ensures !connected ==> this.path == old(this.path)
      ensures connected ==> Segments(this.path) == MovedSegments(Segments(old(this.path)), path)
      ensures connected ==> this.path == Cd(old(this.path), path)
    {
      if !connected {
        return;
      }
      CanonicalIdempotent(CdTarget(this.path, path));
      if path != "" && path[0] == '/' {
        SetPath(path);
      } else {
        CdAppends(this.path, path);
        SetPath(this.path + "/" + path);
      }
    }

    method ChangeUp()
      requires Valid()
      modifies `path
      ensures Valid()
      ensures !connected ==> path == old(path)
      ensures connected ==> Segments(path) == DropLast(Segments(old(path)))
      ensures connected ==> path == CdUp(old(path))
    {
      if !connected {
        return;
      }
      UpDropsLast(path);
      CanonicalIdempotent(UpTarget(path));
      if path == "/" {
        return;
      }
      var index := LastIndexOf(path, '/');
      HasSlash(path);
      SetPath(path[..index]);
    }
  }

  lemma HasSlash(path: string)
    requires IsCanonical(path)
    ensures LastIndexOf(path, '/') >= 0
  {
    var segs := Segments(path);
    if segs != [] {
      SlashedEnds(segs);
    }
    assert path[0] == '/';
  }

  /** A relative `cd` followed by one `cdUp` for each of its segments restores the subscriber. */
  method DownAndUp(s: QValueSpaceSubscriber, to: string, steps: nat)
    requires s.Valid() && s.connected && (to == "" || to[0] != '/')
    requires steps == |Segments(to)|
    modifies s
    ensures s.Valid() && s.path == old(s.path)
  {
    ghost var home := s.path;
    CdThenUp(home, to);
    s.Change(to);
    var k := 0;
    while k < steps
      invariant 0 <= k <= steps && s.Valid()
      invariant CdUpTimes(s.path, steps - k) == home
    {
      s.ChangeUp();
      k := k + 1;
    }
  }
}
