/** The in-process transport. A client reaches into a registered service, latches
    onto it, and is handed to a spawned child. Pointers of both ends are rewired
    under one lock by different threads; each method below is one section under
    that lock, or one step a connection's own thread takes without it, and any
    sequence of calls is one interleaving of them. */
module Dmx {

  datatype Mode = Service | Client | Child

  /** A connection's completion object: not made, at rest, or in the port. */
  datatype Slot = Absent | Idle | Queued

  class Con {
    const mode: Mode
    const name: string
    var that: Con?
    var accept: Slot
    var connect: Slot
    /** The completion port handle, which the completion branches use as a flag. */
    var port: bool
    /** Its own hub is already tearing it down. */
    var destroyed: bool
    /** How often this client has latched onto a service. */
    var latches: nat
    /** On a child: its `OnAccept(addr)` has run. */
    var answered: bool

    constructor (mode: Mode, name: string)
      ensures this.mode == mode && this.name == name
      ensures that == null && accept == Absent && connect == Absent && !port && !answered && latches == 0 && !destroyed
    {
      this.mode, this.name := mode, name;
      that, accept, connect, port := null, Absent, Absent, false;
      destroyed, latches, answered := false, 0, false;
    }
  }

  /** A posting of a client's connect completion, in success or in refusal. */
  datatype Post = Post(con: Con, latch: nat, ok: bool)

  class Transport {
    /** The global list of services. */
    var services: seq<Con>
    /** Every connection ever made, and those not yet freed. */
    var made: set<Con>
    var live: set<Con>
    /** Connections whose destructor began where no client could latch any more:
        with no accept armed, or out of the list. */
    var dying: set<Con>
    var posts: seq<Post>

    ghost predicate Paired()
      reads this, made
    {
      && live <= made && dying <= live
      && (forall c :: c in live && c.that != null ==> c.that in live && c.that != c && c.that.that == c)
      && (forall c :: c in live && c.that != null ==> (c.mode.Client? <==> !c.that.mode.Client?))
      && (forall c :: c in dying ==> c.that == null && (c.accept.Absent? || c !in services))
      && (forall c :: c in live && c.mode.Client? && c.that != null ==> c.port && !c.connect.Absent?)
    }

    ghost predicate Registered()
      reads this
    {
      && (forall i :: 0 <= i < |services| ==> services[i] in live && services[i].mode.Service?)
      && (forall i, j :: 0 <= i < j < |services| ==> services[i] != services[j])
    }

    /** No latch is answered twice; a latch already answered is over, or its client
        is with a child that has nothing more to post. */
    ghost predicate Answers()
      reads this, made
    {
      && (forall i :: 0 <= i < |posts| ==> 
            posts[i].con in made && posts[i].con.mode.Client? && posts[i].latch <= posts[i].con.latches)
      && (forall i, j :: 0 <= i < j < |posts| && posts[i].con == posts[j].con ==> posts[i].latch < posts[j].latch)
      && (forall i :: 0 <= i < |posts| && posts[i].con in live && posts[i].latch == posts[i].con.latches ==>
            Over(posts[i].con))
    }

    ghost predicate Over(c: Con)
      reads this, made
    {
      c in made && (c.that == null || (c.that in made && c.that.mode.Child? && c.that.answered))
    }

    ghost predicate Valid()
      reads this, made
    {
      Paired() && Registered() && Answers()
    }

    /** The pairs form a matching: a connection is the peer of at most one other, so a
        service or a child never serves two clients at once. */
    lemma PairsAreExclusive(x: Con, y: Con)
      requires Valid() && x in live && y in live && x.that != null && x.that == y.that
      ensures x == y && x.that in live && x.that != x
    {
    }

    /** One latch is never both refused and completed, nor answered twice either way. */
    lemma AnsweredOnce(i: nat, j: nat)
      requires Valid() && i < j < |posts| && posts[i].con == posts[j].con
      ensures posts[i].latch != posts[j].latch
    {
    }

    constructor ()
      ensures Valid() && services == [] && made == {} && posts == []
    {
      services, made, live, dying, posts := [], {}, {}, {}, [];
    }

    method Make(mode: Mode, name: string) returns (c: Con)
      requires Valid()
      modifies this
      ensures Valid() && fresh(c) && c.mode == mode && c.name == name && c.that == null && c.accept.Absent?
      ensures !c.answered && !c.destroyed && c.latches == 0 && c.connect.Absent? && !c.port
      ensures made == old(made) + {c} && live == old(live) + {c}
      ensures services == old(services) && posts == old(posts) && dying == old(dying)
    {
      c := new Con(mode, name);
      made := made + {c};
      live := live + {c};
    }

    /** Registration; a second one of the same connection is refused. */
    method Listen(c: Con) returns (ok: bool)
      requires Valid() && c in live - dying && c.mode.Service?
      modifies this
      ensures Valid()
      ensures ok <==> c !in old(services)
      ensures services == if ok then old(services) + [c] else old(services)
      ensures made == old(made) && live == old(live) && dying == old(dying) && posts == old(posts)
    {
      for i := 0 to |services|
        invariant c !in services[..i]
      {
        if services[i] == c {
          return false;
        }
      }
      assert services[..|services|] == services;
      services := services + [c];
      return true;
    }

    /** Arming: refused while a client is attached or an accept is already made. */
    method Accept(c: Con) returns (ok: bool)
      requires Valid() && c in live - dying && c.mode.Service?
      modifies c
      ensures Valid()
      ensures ok <==> old(c.that) == null && old(c.accept).Absent?
      ensures c.accept == if ok then Idle else old(c.accept)
      ensures c.that == old(c.that) && c.connect == old(c.connect) && c.port == old(c.port)
      ensures c.latches == old(c.latches) && c.answered == old(c.answered)
    {
      ok := c.that == null && c.accept.Absent?;
      if ok {
        c.accept := Idle;
      }
    }

    /** The first service of that name in the list, armed or not. */
    function Find(name: string, i: nat): Con?
      requires i <= |services|
      reads this`services
      decreases |services| - i
    {
      if i == |services| then null
      else if services[i].mode.Service? && services[i].name == name then services[i]
      else Find(name, i + 1)
    }

    lemma {:induction false} FindIsRegistered(name: string, i: nat)
      requires i <= |services|
      ensures Find(name, i) != null ==> Find(name, i) in services && Find(name, i).mode.Service?
      decreases |services| - i
    {
      if i < |services| {
        FindIsRegistered(name, i + 1);
      }
    }

    /** One try of the rendezvous. It succeeds exactly when the service of that name
        is armed, its accept is not in the port, and no client is attached; both
        back-pointers are then set and the connect completion made before the
        service is woken. */
    method Connect(x: Con) returns (latched: bool)
      requires Valid() && x in live - dying && x.mode.Client? && x.that == null
      modifies x, set c | c in services
      ensures Valid()
      ensures var s := Find(x.name, 0);
              latched <==> s != null && old(s.accept.Idle? && s.that == null)
      ensures latched ==> var s := Find(x.name, 0);
                          x.that == s && s.that == x && s.accept.Queued? && x.port && s.port
                          && x.latches == old(x.latches) + 1
                          && x.connect == (if old(x.connect).Absent? then Idle else old(x.connect))
                          && unchanged(set c | c in services && c != s)
      ensures !latched ==> unchanged(x) && unchanged(set c | c in services)
    {
      var s: Con? := null;
      var i := 0;
      while i < |services| && s == null
        invariant i <= |services|
        invariant Find(x.name, 0) == if s == null then Find(x.name, i) else s
      {
        if services[i].mode.Service? && services[i].name == x.name {
          s := services[i];
        }
        i := i + 1;
      }
      FindIsRegistered(x.name, 0);
      if s == null || !s.accept.Idle? || s.that != null {
        return false;
      }
      Latch(x, s);
      return true;
    }

    /** The stores of a successful rendezvous. */
    method Latch(x: Con, s: Con)
      requires Valid() && x in live - dying && s in live - dying && x.mode.Client? && s.mode.Service?
      requires x.that == null && s.that == null && s.accept.Idle?
      modifies x, s
      ensures Valid()
      ensures x.that == s && s.that == x && s.accept.Queued? && x.port && s.port
      ensures x.latches == old(x.latches) + 1
      ensures x.connect == if old(x.connect).Absent? then Idle else old(x.connect)
    {
      hide Registered;
      x.that, x.port := s, true;
      s.that, s.port := x, true;
      x.latches := x.latches + 1;
      if x.connect.Absent? {
        x.connect := Idle;
      }
      s.accept := Queued;
      assert Answers() by {
        forall i | 0 <= i < |posts| && posts[i].con in live && posts[i].latch == posts[i].con.latches
          ensures Over(posts[i].con)
        {
          assert posts[i].con != x;
          assert old(Over(posts[i].con));
        }
      }
    }

    /** A completion leaves the port; with the flag clear it reads as a cancellation
        and is dropped. */
    method CompleteAccept(c: Con)
      requires Valid() && c in live - dying && c.accept.Queued?
      modifies c`accept
      ensures Valid() && c.accept == if c.port then Idle else Absent
    {
      c.accept := if c.port then Idle else Absent;
    }

    method CompleteConnect(x: Con)
      requires Valid() && x in live - dying && x.connect.Queued?
      modifies x`connect
      ensures Valid() && x.connect == if x.port then Idle else Absent
    {
      x.connect := if x.port then Idle else Absent;
    }

    /** The consumed accept is dropped, by the service itself and without the lock. */
    method DropAccept(c: Con)
      requires Valid() && c in live && c.mode.Service?
      modifies c`accept
      ensures Valid() && c.accept.Absent?
    {
      c.accept := Absent;
    }

    /** An unanswered latch: the client is attached, and not to an answered child. */
    ghost predicate Waiting(x: Con)
      reads this, made
    {
      x in live && x in made && x.mode.Client? && x.that != null && x.that in made
      && !(x.that.mode.Child? && x.that.answered)
    }

    ghost predicate Unanswered(x: Con)
      reads this, x
    {
      forall i :: 0 <= i < |posts| && posts[i].con == x ==> posts[i].latch < x.latches
    }

    lemma WaitingIsUnanswered(x: Con)
      requires Valid() && Waiting(x)
      ensures Unanswered(x)
    {
    }

    /** The posting of a connect completion. */
    method Record(x: Con, ok: bool)
      requires Valid() && x in live && x.mode.Client? && x.connect.Idle? && Over(x) && Unanswered(x)
      modifies this`posts, x`connect
      ensures Valid() && x.connect.Queued?
      ensures posts == old(posts) + [Post(x, x.latches, ok)]
    {
      x.connect := Queued;
      posts := posts + [Post(x, x.latches, ok)];
    }

    /** Either end leaves: both pointers are cleared, and the peer keeps its port so
        that its own thread fails and closes it. */
    method BreakPair(c: Con)
      requires Valid() && c in live
      modifies c, c.that
      ensures Valid() && c.that == null && !c.port
      ensures c.accept == old(c.accept) && c.connect == old(c.connect) && c.destroyed == old(c.destroyed)
      ensures c.latches == old(c.latches) && c.answered == old(c.answered)
      ensures old(c.that) != null ==>
                var t := old(c.that);
                t.that == null && t.port == old(t.port) && t.accept == old(t.accept) && t.connect == old(t.connect)
                && t.destroyed == old(t.destroyed) && t.latches == old(t.latches) && t.answered == old(t.answered)
    {
      hide Registered;
      var t := c.that;
      c.that, c.port := null, false;
      if t != null && t.that == c {
        t.that := null;
      }
    }

    /** Refusal at capacity: the client is detached and its connect completion
        posted as failed, unless that is in the port already or its own hub is
        taking it down. */
    method Refuse(c: Con)
      requires Valid() && c in live && c.mode.Service?
      modifies this`posts, c, c.that
      ensures Valid() && c.that == null && !c.port && c.accept == old(c.accept)
      ensures old(c.that) != null ==> old(c.that).that == null
      ensures var x := old(c.that);
              if x != null && old(x.connect.Idle? && !x.destroyed)
              then posts == old(posts) + [Post(x, x.latches, false)] && x.connect.Queued? && x.port
              else posts == old(posts)
    {
      var x := c.that;
      if x != null {
        WaitingIsUnanswered(x);
      }
      BreakPair(c);
      if x != null && x.connect.Idle? && !x.destroyed {
        Record(x, false);
      }
    }

    /** The attached client is handed from the service to a new child. */
    method AcceptSpawn(c: Con) returns (child: Con)
      requires Valid() && c in live && c.mode.Service?
      modifies this, c, c.that
      ensures Valid() && fresh(child) && child.mode.Child? && !child.answered
      ensures made == old(made) + {child} && live == old(live) + {child}
      ensures services == old(services) && posts == old(posts) && dying == old(dying)
      ensures c.that == null && !c.port && c.accept == old(c.accept) && child.that == old(c.that)
      ensures child.that != null ==>
                var x := child.that;
                x.that == child && x.port && x.connect == old(x.connect) && x.latches == old(x.latches)
    {
      child := Make(Child, "");
      HandOver(c, child);
    }

    /** The stores of a hand-over, and nothing else. */
    method Rewire(c: Con, child: Con)
      requires c != child && c.that != c && c.that != child
      modifies c`that, c`port, child`that, child`port, c.that
      ensures c.that == null && !c.port && child.that == old(c.that)
      ensures child.that != null ==>
                var x := child.that;
                x.that == child && x.port && x.accept == old(x.accept) && x.connect == old(x.connect)
                && x.latches == old(x.latches) && x.answered == old(x.answered) && x.destroyed == old(x.destroyed)
    {
      var x := c.that;
      child.that, c.that := x, null;
      child.port, c.port := c.port, false;
      if x != null {
        x.that, x.port := child, true;
      }
    }

    method HandOver(c: Con, child: Con)
      requires Valid() && c in live && c.mode.Service?
      requires child in live - dying && child.mode.Child? && child.that == null && !child.answered
      modifies c, child, c.that
      ensures Valid() && !child.answered
      ensures c.that == null && !c.port && c.accept == old(c.accept) && child.that == old(c.that)
      ensures child.that != null ==>
                var x := child.that;
                x.that == child && x.port && x.connect == old(x.connect) && x.latches == old(x.latches)
    {
      ghost var x := c.that;
      Rewire(c, child);
      forall i | 0 <= i < |posts| && posts[i].con in live && posts[i].latch == posts[i].con.latches
        ensures Over(posts[i].con)
      {
        assert old(Over(posts[i].con)) && posts[i].con != x;
      }
    }

    /** The child completes its client's connect, once. Posting a completion that is
        still in the port is refused. */
    method Answer(child: Con) returns (posted: bool)
      requires Valid() && child in live - dying && child.mode.Child? && !child.answered
      modifies this`posts, child, child.that
      ensures Valid() && child.answered && child.that == old(child.that)
      ensures posted <==> child.that != null && old(child.that.connect).Idle?
      ensures posts == if posted then old(posts) + [Post(child.that, child.that.latches, true)] else old(posts)
      ensures posted ==> child.that.connect.Queued? && child.that.port && child.that.that == child
      ensures child.that != null ==> child.that.latches == old(child.that.latches)
    {
      var x := child.that;
      if x != null {
        WaitingIsUnanswered(x);
      }
      MarkAnswered(child);
      if x == null || x.connect.Absent? {
        return false;
      }
      assert x.port;
      if x.connect.Queued? {
        return false;
      }
      Record(x, true);
      return true;
    }

    /** The child's own entry into `OnAccept(addr)`, which also sets the port of its
        client, already set by the latch. */
    method MarkAnswered(child: Con)
      requires Valid() && child in live - dying && child.mode.Child? && !child.answered
      modifies child`answered, child.that
      ensures Valid() && child.answered && child.that == old(child.that)
      ensures child.that != null ==>
                var x := child.that;
                x.that == child && x.port && x.connect == old(x.connect) && x.latches == old(x.latches)
    {
      hide Registered;
      child.answered := true;
      if child.that != null {
        child.that.port := true;
      }
    }

    /** Its hub's teardown sweep has reached the connection. */
    method Doom(c: Con)
      requires Valid() && c in live
      modifies c`destroyed
      ensures Valid() && c.destroyed
    {
      c.destroyed := true;
    }

    /** The base class's drop, on the connection's own thread: completions at rest
        are reclaimed and the port is closed. */
    method BaseDrop(c: Con)
      requires Valid() && c in live && (!c.mode.Service? ==> c.that == null)
      modifies c`accept, c`connect, c`port
      ensures Valid() && !c.port
      ensures c.accept == if old(c.accept).Idle? then Absent else old(c.accept)
      ensures c.connect == if old(c.connect).Idle? then Absent else old(c.connect)
    {
      hide Registered;
      if c.accept.Idle? {
        c.accept := Absent;
      }
      if c.connect.Idle? {
        c.connect := Absent;
      }
      c.port := false;
    }

    /** The destructor begins, no completion of the connection being in the port. From
        here on it is out of every client's reach when no accept is armed or it is not
        in the list. */
    method BeginDestroy(c: Con)
      requires Valid() && c in live - dying && !c.accept.Queued? && !c.connect.Queued?
      modifies this`dying, c, c.that
      ensures Valid() && c.that == null && c.accept == old(c.accept)
      ensures dying == if c.accept.Absent? || c !in services then old(dying) + {c} else old(dying)
      ensures old(c.that) != null ==> old(c.that).that == null
    {
      BreakPair(c);
      if c.accept.Absent? || c !in services {
        dying := dying + {c};
      }
    }

    /** The walk that takes a service out of the list. */
    method Unlist(c: Con)
      requires Registered()
      modifies this`services
      ensures Registered() && c !in services
      ensures forall d :: d in services <==> d in old(services) && d != c
    {
      var i := 0;
      while i < |services| && services[i] != c
        invariant i <= |services| && c !in services[..i]
      {
        i := i + 1;
      }
      if i < |services| {
        services := services[..i] + services[i + 1..];
      }
    }

    /** The destructor ends: out of the list, then gone. */
    method EndDestroy(c: Con)
      requires Valid() && c in live
      modifies this
      ensures live == old(live) - {c} && made == old(made) && posts == old(posts) && c !in services
      ensures forall d :: d in services <==> d in old(services) && d != c
      ensures Valid() <==> c.that == null
    {
      Unlist(c);
      live := live - {c};
      dying := dying - {c};
      assert Registered();
      hide Registered;
      assert Answers();
      hide Answers;
      if c.that != null {
        assert c.that in live && c.that.that == c;
      }
    }

    /** Exactly when a destructor is safe against a client that tries to latch between
        its break and its drop: unless an accept is armed as it begins and this is the
        service the client's name finds. If it is, the client is left pointing at freed
        memory. */
    method DestructorSafeExactlyWhen(c: Con, x: Con)
      requires Valid() && c in live - dying && (c.mode.Service? || c.accept.Absent?)
      requires !c.accept.Queued? && !c.connect.Queued?
      requires x in live - dying && x != c && x.mode.Client? && (x.that == null || x.that == c)
      modifies this, made
      ensures c !in live && x in live
      ensures Valid() <==> old(c.accept).Absent? || old(Find(x.name, 0)) != c
      ensures !Valid() ==> x.that == c
    {
      BeginDestroy(c);
      var latched := Connect(x);
      BaseDrop(c);
      EndDestroy(c);
    }

    /** A client that finds an armed service meets a child of it: its connect is
        completed once, in success, and the service is free to be armed again. */
    method Rendezvous(s: Con, x: Con) returns (child: Con)
      requires Valid() && s in live - dying && s.mode.Service? && s.accept.Idle? && s.that == null
      requires x in live - dying && x.mode.Client? && x.that == null && !x.connect.Queued?
      requires Find(x.name, 0) == s
      modifies this, made
      ensures Valid() && child.mode.Child? && child.that == x && x.that == child && x.connect.Queued?
      ensures posts == old(posts) + [Post(x, old(x.latches) + 1, true)]
      ensures s.that == null && s.accept.Absent? && services == old(services)
    {
      var latched := Connect(x);
      CompleteAccept(s);
      DropAccept(s);
      child := AcceptSpawn(s);
      var posted := Answer(child);
    }
  }

  /** The destructor's failing input, from an empty transport: a service is made, listens
      and is armed, and a client of its name latches while it is being destroyed. */
  method DanglingRun(name: string) returns (t: Transport, c: Con, x: Con)
    ensures x in t.live && c !in t.live && x.that == c && !t.Valid()
  {
    t := new Transport();
    c := t.Make(Service, name);
    x := t.Make(Client, name);
    var listening := t.Listen(c);
    assert t.services == [c];
    var armed := t.Accept(c);
    t.DestructorSafeExactlyWhen(c, x);
  }

  /** And without the destructor the two meet. */
  method MeetingRun(name: string) returns (t: Transport, c: Con, x: Con, child: Con)
    ensures t.Valid() && x.that == child && child.that == x && child.mode.Child?
    ensures t.posts == [Post(x, 1, true)] && t.services == [c] && c.that == null
  {
    hide Transport.Paired, Transport.Registered, Transport.Answers;
    t := new Transport();
    c := t.Make(Service, name);
    x := t.Make(Client, name);
    var listening := t.Listen(c);
    assert t.services == [c];
    var armed := t.Accept(c);
    child := t.Rendezvous(c, x);
  }

  /** One step some thread takes. A connection is named by its number in the order of
      making, so that a step can name one that was made, or a child that was spawned,
      earlier in the run. */
  datatype Action =
    | Makes(mode: Mode, name: string)
    | Listens(n: nat)
    | Arms(n: nat)
    | Connects(n: nat)
    | AcceptCompletes(n: nat)
    | ConnectCompletes(n: nat)
    | DropsAccept(n: nat)
    | Refuses(n: nat)
    | Spawns(n: nat)
    | AnswersConnect(n: nat)
    | Breaks(n: nat)
    | Drops(n: nat)
    | Destroyed(n: nat)
    | DestructorBegins(n: nat)
    | DestructorEnds(n: nat)

  ghost predicate Numbers(t: Transport, cons: seq<Con>)
    reads t
  {
    (forall c :: c in t.made ==> c in cons) && forall i :: 0 <= i < |cons| ==> cons[i] in t.made
  }

  /** Every interleaving of the sections from the beginning, each taken where its caller
      could take it: the matching is symmetric with no self-pairs, nothing freed is
      reachable from a live pointer or the list, and no latch is answered twice. So it
      is after every step, the front of a schedule being a schedule. */
  method Interleave(schedule: seq<Action>) returns (t: Transport, cons: seq<Con>)
    ensures fresh(t) && fresh(t.made) && t.Valid() && Numbers(t, cons)
    ensures forall x, y :: x in t.live && y in t.live && x.that != null && x.that == y.that ==>
              x == y && x.that in t.live && x.that != x
    ensures forall i, j :: 0 <= i < j < |t.posts| && t.posts[i].con == t.posts[j].con ==>
              t.posts[i].latch != t.posts[j].latch
  {
    t := new Transport();
    cons := [];
    for k := 0 to |schedule|
      invariant fresh(t) && fresh(t.made) && t.Valid() && Numbers(t, cons)
    {
      var born := Act(t, cons, schedule[k]);
      if born != null {
        cons := cons + [born];
      }
    }
    forall x, y | x in t.live && y in t.live && x.that != null && x.that == y.that
      ensures x == y && x.that in t.live && x.that != x
    {
      t.PairsAreExclusive(x, y);
    }
    forall i, j | 0 <= i < j < |t.posts| && t.posts[i].con == t.posts[j].con
      ensures t.posts[i].latch != t.posts[j].latch
    {
      t.AnsweredOnce(i, j);
    }
  }

  /** What is made or spawned is numbered; what was posted stays posted. */
  method Act(t: Transport, cons: seq<Con>, a: Action) returns (born: Con?)
    requires t.Valid() && Numbers(t, cons)
    modifies t, t.made
    ensures t.Valid() && old(t.posts) <= t.posts
    ensures born != null ==> fresh(born)
    ensures t.made == old(t.made) + if born == null then {} else {born}
  {
    born := null;
    if a.Makes? {
      born := t.Make(a.mode, a.name);
    } else if a.n < |cons| {
      var c := cons[a.n];
      if c in t.live && c !in t.dying {
        born := Own(t, c, a);
      } else if a.DestructorEnds? && c in t.dying {
        t.EndDestroy(c);
      }
    }
  }

  method Own(t: Transport, c: Con, a: Action) returns (born: Con?)
    requires t.Valid() && !a.Makes? && c in t.live - t.dying
    modifies t, t.made
    ensures t.Valid() && old(t.posts) <= t.posts
    ensures born != null ==> fresh(born)
    ensures t.made == old(t.made) + if born == null then {} else {born}
  {
    born := null;
    match a {
      case Listens(_) => if c.mode.Service? { var ok := t.Listen(c); }
      case Arms(_) => if c.mode.Service? { var ok := t.Accept(c); }
      case Connects(_) => if c.mode.Client? && c.that == null { var ok := t.Connect(c); }
      case AcceptCompletes(_) => if c.accept.Queued? { t.CompleteAccept(c); }
      case ConnectCompletes(_) => if c.connect.Queued? { t.CompleteConnect(c); }
      case DropsAccept(_) => if c.mode.Service? { t.DropAccept(c); }
      case Refuses(_) => if c.mode.Service? { t.Refuse(c); }
      case Spawns(_) => if c.mode.Service? { born := t.AcceptSpawn(c); }
      case AnswersConnect(_) => if c.mode.Child? && !c.answered { var ok := t.Answer(c); }
      case Breaks(_) => t.BreakPair(c);
      case Drops(_) => if c.mode.Service? || c.that == null { t.BaseDrop(c); }
      case DestructorBegins(_) =>
        if (c.accept.Absent? || (c.accept.Idle? && c !in t.services)) && !c.connect.Queued? { t.BeginDestroy(c); }
      case Destroyed(_) => t.Doom(c);
      case _ =>
    }
  }
}
