/** Requests handled in the background and the replies to them: src/serviceframework/qserviceoperations.cpp and
  qservicereply.cpp. */
module Operations {
  import opened Text
  import opened Descriptor

  datatype RequestType = DescriptorRequest | DefaultInterfaceRequest

  /** What the system answers while a request is handled: the default found for its interface, whether the library of
      the service is found, and the object that loading gives. */
  datatype Answers = Answers(default: Option<Descriptor>, found: bool, loaded: Option<nat>)

  /** A request; a descriptor that is not valid is None. Each has a reply of its own. */
  datatype Request = Request(requestType: RequestType, descriptor: Option<Descriptor>, reply: nat, answers: Answers)

  datatype LoadError = NoError | InvalidServiceLocation | InvalidServiceInterfaceDescriptor | PluginLoadingFailed

  /** A call queued to a reply's thread. */
  datatype Event = Start | SetError(error: LoadError) | SetProxyObject(proxy: Option<nat>) | Finish

  datatype Post = Post(reply: nat, event: Event)

  /** The descriptor that is loaded: the request's own, or the default that was found. */
  function Used(r: Request): Option<Descriptor> {
    if r.requestType == DefaultInterfaceRequest then r.answers.default else r.descriptor
  }

  predicate InOtherProcess(d: Descriptor) {
    d.attributes.serviceType == Some(InterProcess)
  }

  /** How a request ends: with an error, or with an object, which may be null. */
  function Ending(r: Request): Event {
    if Used(r).None? then SetError(InvalidServiceInterfaceDescriptor)
    else if !InOtherProcess(Used(r).value) && !r.answers.found then SetError(InvalidServiceLocation)
    else if !InOtherProcess(Used(r).value) && r.answers.loaded.None? then SetError(PluginLoadingFailed)
    else SetProxyObject(r.answers.loaded)
  }

  /** The calls a request's reply gets. */
  function Events(r: Request): seq<Event> {
    [Start, Ending(r), Finish]
  }

  function PostsOf(reply: nat, events: seq<Event>): (r: seq<Post>)
    ensures |r| == |events| && forall k | 0 <= k < |events| :: r[k] == Post(reply, events[k])
  {
    seq(|events|, k requires 0 <= k < |events| => Post(reply, events[k]))
  }

  /** What is posted for requests, one after the other. */
  function AllPosts(requests: seq<Request>): seq<Post> {
    if requests == [] then []
    else
      var n := |requests| - 1;
      AllPosts(requests[..n]) + PostsOf(requests[n].reply, Events(requests[n]))
  }

  // ---------------------------------------------------------------------------------------------
  // The processor
  // ---------------------------------------------------------------------------------------------

  class QServiceOperationProcessor {
    var pendingList: seq<Request>
    var inRequest: bool
    /** All calls queued to replies so far. */
    var posted: seq<Post>
    /** The requests that are still to arrive. Any of them may do so whenever the event loop spins. */
    var incoming: seq<Request>

    constructor (incoming: seq<Request>)
      ensures pendingList == [] && !inRequest && posted == [] && this.incoming == incoming
    {
      pendingList, inRequest, posted, this.incoming := [], false, [], incoming;
    }

    /** The event loop spins while a service is being loaded: requests arrive. */
    method Spin()
      requires inRequest
      modifies this
      ensures inRequest && posted == old(posted)
      ensures pendingList + incoming == old(pendingList) + old(incoming) && |incoming| <= |old(incoming)|
      decreases 1
    {
      var more: bool := *;
      while more && incoming != []
        invariant inRequest && posted == old(posted)
        invariant pendingList + incoming == old(pendingList) + old(incoming) && |incoming| <= |old(incoming)|
        decreases |incoming|
      {
        var next := incoming[0];
        incoming := incoming[1..];
        assert pendingList + [next] + incoming == old(pendingList) + old(incoming);
        ghost var handled := HandleRequest(next);
        more := *;
      }
    }

    /** handleRequest: called again while it is at work, it only appends. Otherwise it handles its request and
        all that arrive meanwhile, in the order of arrival, each once. */
    method HandleRequest(request: Request) returns (ghost handled: seq<Request>)
      modifies this
      ensures old(inRequest) ==> inRequest && pendingList == old(pendingList) + [request]
      ensures old(inRequest) ==> posted == old(posted) && incoming == old(incoming)
      ensures !old(inRequest) ==> !inRequest && pendingList == []
      ensures !old(inRequest) ==>
                handled + incoming == old(pendingList) + [request] + old(incoming) && |incoming| <= |old(incoming)|
      ensures !old(inRequest) ==> posted == old(posted) + AllPosts(handled)
      decreases if inRequest then 0 else 3
    {
      handled := [];
      pendingList := pendingList + [request];
      if inRequest {
        return;
      }
      inRequest := true;
      ghost var all := pendingList + incoming;
      assert posted + AllPosts(handled) == posted;
      hide AllPosts, PostsOf, Ending;
      while pendingList != []
        invariant inRequest && |incoming| <= |old(incoming)|
        invariant handled + (pendingList + incoming) == all
        invariant posted == old(posted) + AllPosts(handled)
        decreases |pendingList| + |incoming|
      {
        var req := pendingList[0];
        FirstHandled(handled, pendingList, incoming);
        pendingList := pendingList[1..];
        ghost var before := posted;
        Serve(req);
        OneMore(handled, req, old(posted), before);
        handled := handled + [req];
      }
      assert handled + incoming == all;
      inRequest := false;
    }

    /** The handling of one request: its reply is started, given an error or an object, and finished. */
    method Serve(req: Request)
      requires inRequest
      modifies this
      ensures inRequest && posted == old(posted) + PostsOf(req.reply, Events(req))
      ensures |posted| == |old(posted)| + 3 && posted[..|old(posted)|] == old(posted)
      ensures var used := if req.requestType == DefaultInterfaceRequest then req.answers.default else req.descriptor;
        posted[|old(posted)|..] ==
        [Post(req.reply, Start),
         Post(req.reply,
           match used
           case None => SetError(InvalidServiceInterfaceDescriptor)
           case Some(d) =>
             if d.attributes.serviceType == Some(InterProcess) then SetProxyObject(req.answers.loaded)
             else if !req.answers.found then SetError(InvalidServiceLocation)
             else if req.answers.loaded.None? then SetError(PluginLoadingFailed)
             else SetProxyObject(req.answers.loaded)),
         Post(req.reply, Finish)]
      ensures pendingList + incoming == old(pendingList) + old(incoming) && |incoming| <= |old(incoming)|
      decreases 2
    {
      ThreePosts(req.reply, Events(req));
      hide PostsOf;
      var descriptor := req.descriptor;
      Invoke(req.reply, Start);
      if req.requestType == DefaultInterfaceRequest {
        descriptor := req.answers.default;
      }
      if descriptor.None? {
        Invoke(req.reply, SetError(InvalidServiceInterfaceDescriptor));
        Invoke(req.reply, Finish);
        return;
      }
      if InOtherProcess(descriptor.value) {
        Spin();
      } else {
        if !req.answers.found {
          Invoke(req.reply, SetError(InvalidServiceLocation));
          Invoke(req.reply, Finish);
          return;
        }
        Spin();
        if req.answers.loaded.None? {
          Invoke(req.reply, SetError(PluginLoadingFailed));
          Invoke(req.reply, Finish);
          return;
        }
      }
      Invoke(req.reply, SetProxyObject(req.answers.loaded));
      Invoke(req.reply, Finish);
    }

    /** A queued call. */
    method Invoke(reply: nat, event: Event)
      modifies `posted
      ensures posted == old(posted) + [Post(reply, event)]
    {
      posted := posted + [Post(reply, event)];
    }
  }

  lemma FirstHandled(handled: seq<Request>, pending: seq<Request>, incoming: seq<Request>)
    requires pending != []
    ensures (handled + [pending[0]]) + (pending[1..] + incoming) == handled + (pending + incoming)
  {
  }

  lemma OneMore(handled: seq<Request>, r: Request, first: seq<Post>, before: seq<Post>)
    requires before == first + AllPosts(handled)
    ensures first + AllPosts(handled + [r]) == before + PostsOf(r.reply, Events(r))
  {
    assert (handled + [r])[..|handled|] == handled;
  }

  lemma ThreePosts(reply: nat, events: seq<Event>)
    requires |events| == 3
    ensures PostsOf(reply, events) == [Post(reply, events[0]), Post(reply, events[1]), Post(reply, events[2])]
  {
  }

  // ---------------------------------------------------------------------------------------------
  // Replies
  // ---------------------------------------------------------------------------------------------

  datatype Signal = Started | ErrorChanged | Finished

  datatype Reply = Reply(running: bool, finished: bool, error: LoadError, proxy: Option<nat>, signals: seq<Signal>)

  const NEW_REPLY := Reply(false, false, NoError, None, [])

  /** What a call does to a reply. */
  function Step(r: Reply, e: Event): Reply {
    match e
    case Start => if r.running then r else r.(running := true, signals := r.signals + [Started])
    case SetError(error) => if r.error == error then r else r.(error := error, signals := r.signals + [ErrorChanged])
    case SetProxyObject(proxy) => r.(proxy := proxy)
    case Finish => if r.finished then r else r.(running := false, finished := true, signals := r.signals + [Finished])
  }

  /** What start and finish assert, in a debugging build, of the reply they leave. */
  predicate Asserted(r: Reply, e: Event) {
    && (e == Start ==> !Step(r, e).finished)
    && (e == Finish ==> !Step(r, e).running)
  }

  function Run(r: Reply, events: seq<Event>): Reply
    decreases events
  {
    if events == [] then r else Run(Step(r, events[0]), events[1..])
  }

  predicate AllAsserted(r: Reply, events: seq<Event>)
    decreases events
  {
    events == [] || (Asserted(r, events[0]) && AllAsserted(Step(r, events[0]), events[1..]))
  }

  class QServiceReply {
    var running: bool
    var isFinished: bool
    var error: LoadError
    var proxyObject: Option<nat>
    var signals: seq<Signal>

    function View(): Reply
      reads this
    {
      Reply(running, isFinished, error, proxyObject, signals)
    }

    constructor ()
      ensures View() == NEW_REPLY
    {
      running, isFinished, error, proxyObject, signals := false, false, NoError, None, [];
    }

    method Start() returns (ghost asserted: bool)
      modifies this
      ensures View() == Step(old(View()), Event.Start) && asserted == Asserted(old(View()), Event.Start)
    {
      if !running {
        running := true;
        signals := signals + [Started];
      }
      asserted := !isFinished;
    }

    method SetError(newError: LoadError)
      modifies this
      ensures View() == Step(old(View()), Event.SetError(newError))
    {
      if error != newError {
        error := newError;
        signals := signals + [ErrorChanged];
      }
    }

    method SetProxyObject(proxy: Option<nat>)
      modifies this
      ensures View() == Step(old(View()), Event.SetProxyObject(proxy))
    {
      proxyObject := proxy;
    }

    method Finish() returns (ghost asserted: bool)
      modifies this
      ensures View() == Step(old(View()), Event.Finish) && asserted == Asserted(old(View()), Event.Finish)
    {
      if !isFinished {
        running := false;
        isFinished := true;
        signals := signals + [Finished];
      }
      asserted := !running;
    }

    /** The reply's own thread makes the queued calls, in order. */
    method MakeCalls(events: seq<Event>) returns (ghost asserted: bool)
      modifies this
      ensures View() == Run(old(View()), events) && asserted == AllAsserted(old(View()), events)
    {
      asserted := true;
      var left := events;
      while left != []
        invariant Run(View(), left) == Run(old(View()), events)
        invariant (asserted && AllAsserted(View(), left)) == AllAsserted(old(View()), events)
        decreases left
      {
        ghost var holds := true;
        match left[0] {
          case Start => holds := Start();
          case SetError(e) => SetError(e);
          case SetProxyObject(proxy) => SetProxyObject(proxy);
          case Finish => holds := Finish();
        }
        asserted, left := asserted && holds, left[1..];
      }
    }
  }

  /** The calls queued for one reply. */
  function EventsFor(posts: seq<Post>, reply: nat): seq<Event> {
    if posts == [] then [] else Own(posts[0], reply) + EventsFor(posts[1..], reply)
  }

  function Own(post: Post, reply: nat): seq<Event> {
    if post.reply == reply then [post.event] else []
  }

  lemma {:induction false} EventsConcat(a: seq<Post>, b: seq<Post>, reply: nat)
    ensures EventsFor(a + b, reply) == EventsFor(a, reply) + EventsFor(b, reply)
  {
    if a == [] {
      assert a + b == b;
    } else {
      assert (a + b)[0] == a[0] && (a + b)[1..] == a[1..] + b;
      assert EventsFor(a + b, reply) == Own(a[0], reply) + EventsFor(a[1..] + b, reply);
      hide Own, EventsFor;
      EventsConcat(a[1..], b, reply);
    }
  }

  lemma {:induction false} OwnPosts(reply: nat, events: seq<Event>, other: nat)
    ensures EventsFor(PostsOf(reply, events), other) == if reply == other then events else []
  {
    if events != [] {
      assert PostsOf(reply, events)[1..] == PostsOf(reply, events[1..]);
      OwnPosts(reply, events[1..], other);
    }
  }

  lemma {:induction false} LastPosts(requests: seq<Request>, reply: nat)
    requires requests != []
    ensures var n := |requests| - 1;
      EventsFor(AllPosts(requests), reply) ==
      EventsFor(AllPosts(requests[..n]), reply) + if requests[n].reply == reply then Events(requests[n]) else []
  {
    var n := |requests| - 1;
    var before, last := AllPosts(requests[..n]), PostsOf(requests[n].reply, Events(requests[n]));
    assert AllPosts(requests) == before + last;
    hide AllPosts, EventsFor, PostsOf, Events;
    EventsConcat(before, last, reply);
    OwnPosts(requests[n].reply, Events(requests[n]), reply);
  }

  lemma {:induction false} NoPosts(requests: seq<Request>, reply: nat)
    requires forall r | r in requests :: r.reply != reply
    ensures EventsFor(AllPosts(requests), reply) == []
  {
    if requests != [] {
      var n := |requests| - 1;
      LastPosts(requests, reply);
      hide AllPosts, EventsFor;
      NoPosts(requests[..n], reply);
    }
  }

  /** No other request has the reply of this one. */
  ghost predicate OwnReply(requests: seq<Request>, i: nat)
    requires i < |requests|
  {
    forall k | 0 <= k < |requests| && k != i :: requests[k].reply != requests[i].reply
  }

  /** Among the calls queued for all requests, those for one request's reply are its own. */
  lemma {:induction false} EventsOfOne(requests: seq<Request>, i: nat)
    requires i < |requests| && OwnReply(requests, i)
    ensures EventsFor(AllPosts(requests), requests[i].reply) == Events(requests[i])
  {
    var n := |requests| - 1;
    LastPosts(requests, requests[i].reply);
    hide AllPosts, EventsFor, Events;
    if i < n {
      EventsOfOne(requests[..n], i);
    } else {
      NoPosts(requests[..n], requests[n].reply);
    }
  }

  lemma {:induction false} RunSteps(e: Event)
    ensures var r1 := Step(NEW_REPLY, Event.Start); var r2 := Step(r1, e);
      && Run(NEW_REPLY, [Event.Start, e, Event.Finish]) == Step(r2, Event.Finish)
      && (AllAsserted(NEW_REPLY, [Event.Start, e, Event.Finish]) <==>
          Asserted(NEW_REPLY, Event.Start) && Asserted(r1, e) && Asserted(r2, Event.Finish))
  {
    var events := [Event.Start, e, Event.Finish];
    assert events[1..] == [e, Event.Finish];
    assert events[1..][1..] == [Event.Finish] && events[1..][1..][1..] == [];
    var r1 := Step(NEW_REPLY, Event.Start);
    var r2 := Step(r1, e);
    assert Run(r2, [Event.Finish]) == Step(r2, Event.Finish);
    assert Run(r1, [e, Event.Finish]) == Run(r2, [Event.Finish]);
    assert AllAsserted(r2, [Event.Finish]) <==> Asserted(r2, Event.Finish);
    assert AllAsserted(r1, [e, Event.Finish]) <==> Asserted(r1, e) && AllAsserted(r2, [Event.Finish]);
  }

  /** Whatever happened while requests were handled: each reply, new when its request was made, is started once, then
      gets an error or an object, and is finished once, and no assertion fails. Which it is, the request alone
      tells: an object only if there is a descriptor and, unless it is of a service in another process, a library
      that can be loaded. */
  lemma {:induction false} RequestCompletes(requests: seq<Request>, i: nat)
    requires i < |requests| && OwnReply(requests, i)
    ensures var r := requests[i];
      var events := EventsFor(AllPosts(requests), r.reply);
      var reply, used := Run(NEW_REPLY, events),
        if r.requestType == DefaultInterfaceRequest then r.answers.default else r.descriptor;
      && AllAsserted(NEW_REPLY, events) && !reply.running && reply.finished
      && reply.error ==
         (if used.None? then InvalidServiceInterfaceDescriptor
          else if used.value.attributes.serviceType == Some(InterProcess) then NoError
          else if !r.answers.found then InvalidServiceLocation
          else if r.answers.loaded.None? then PluginLoadingFailed
          else NoError)
      && reply.proxy == (if reply.error == NoError then r.answers.loaded else None)
      && reply.signals == (if reply.error == NoError then [Started, Finished] else [Started, ErrorChanged, Finished])
  {
    EventsOfOne(requests, i);
    RunSteps(Ending(requests[i]));
    hide Run, AllPosts, EventsFor, AllAsserted;
  }

  /** A reply is left without an error and without an object exactly if the descriptor that was given or looked up is
      that of a service in another process, and loading it gave none. */
  lemma {:induction false} NullWithoutError(r: Request)
    ensures var reply := Run(NEW_REPLY, Events(r));
      reply.error == NoError && reply.proxy.None? <==>
      Used(r).Some? && InOtherProcess(Used(r).value) && r.answers.loaded.None?
  {
    RunSteps(Ending(r));
    hide Run;
  }
}
