/** The event hub (cmd/bmd/events.go): registered clients each have a channel of bounded
    capacity; a broadcast that finds a channel full drops the event for that client. */
module EventHub {
  import opened Model

  const CAPACITY: nat := 16

  type Event = string

  /** A client's channel: what is queued, and whether it has been closed. */
  datatype Channel = Channel(queue: seq<Event>, closed: bool)

  /** A non-blocking send. */
  function Offer(c: Channel, e: Event): Channel {
    if |c.queue| < CAPACITY then c.(queue := c.queue + [e]) else c
  }

  /** A receive; events queued before a close can still be taken. */
  function Take(c: Channel): Channel {
    if c.queue == [] then c else c.(queue := c.queue[1..])
  }

  // ----- a client's end

  class EventClient {
    var queue: seq<Event>
    var closed: bool

    constructor ()
      ensures Chan() == Channel([], false)
    {
      queue, closed := [], false;
    }

    ghost function Chan(): Channel
      reads this
    {
      Channel(queue, closed)
    }

    /** Sending on a closed channel would panic. */
    method Send(e: Event) returns (dropped: bool)
      requires !closed
      modifies this
      ensures Chan() == Offer(old(Chan()), e)
      ensures dropped <==> |old(queue)| >= 16
    {
      dropped := |queue| >= CAPACITY;
      if !dropped {
        queue := queue + [e];
      }
    }

    /** Closing twice would panic. */
    method Close()
      requires !closed
      modifies this
      ensures Chan() == Channel(old(queue), true)
    {
      closed := true;
    }

    /** None when nothing is queued: the receiver waits, or sees the end once closed. */
    method Receive() returns (e: Option<Event>)
      modifies this
      ensures Chan() == Take(old(Chan()))
      ensures e == if old(queue) == [] then None else Some(old(queue)[0])
    {
      if queue == [] {
        return None;
      }
      e := Some(queue[0]);
      queue := queue[1..];
    }
  }

  // ----- the hub as a value

  type ClientId = nat

  /** `Open` registers a client under the next id. */
  datatype Action = Open | Leave(id: ClientId) | Publish(e: Event) | Receive(id: ClientId)

  /** All channels ever made, and the clients registered now. */
  datatype Hub = Hub(channels: map<ClientId, Channel>, registered: set<ClientId>, next: ClientId)

  function Act(h: Hub, a: Action): Hub {
    match a
    case Open => Hub(h.channels[h.next := Channel([], false)], h.registered + {h.next}, h.next + 1)
    case Leave(id) =>
      if id in h.registered && id in h.channels
      then h.(registered := h.registered - {id}, channels := h.channels[id := h.channels[id].(closed := true)])
      else h
    case Publish(e) =>
      h.(channels := map id | id in h.channels ::
                       if id in h.registered then Offer(h.channels[id], e) else h.channels[id])
    case Receive(id) =>
      if id in h.channels then h.(channels := h.channels[id := Take(h.channels[id])]) else h
  }

  // ----- the hub as an object

  class EventHub {
    var clients: set<EventClient>
    /** Every client ever registered; its place in the list serves as its id. */
    ghost var made: seq<EventClient>

    /** Registered channels are open, unregistered ones closed, and none holds more than it
        can. */
    ghost predicate Valid()
      reads this, made
    {
      && (forall i, j :: 0 <= i < j < |made| ==> made[i] != made[j])
      && (forall c :: c in clients ==> c in made)
      && (forall i :: 0 <= i < |made| ==> (made[i] in clients <==> !made[i].closed))
      && forall i :: 0 <= i < |made| ==> |made[i].queue| <= CAPACITY
    }

    /** The state of the run model this object represents. */
    ghost function View(): Hub
      reads this, made
    {
      Hub(map id: ClientId | id < |made| :: made[id].Chan(),
          set id: ClientId | id < |made| && made[id] in clients,
          |made|)
    }

    constructor ()
      ensures Valid() && View() == Hub(map[], {}, 0)
      ensures clients == {} && made == []
    {
      clients := {};
      made := [];
    }

    method Register() returns (client: EventClient)
      requires Valid()
      modifies this
      ensures Valid() && fresh(client) && client.queue == [] && !client.closed
      ensures clients == old(clients) + {client} && made == old(made) + [client]
      ensures View() == Act(old(View()), Open)
    {
      ghost var before := View();
      client := new EventClient();
      clients := clients + {client};
      made := made + [client];
      assert View().registered == before.registered + {before.next};
      assert View().channels == before.channels[before.next := Channel([], false)];
    }

    /** Unregistering again, or a stranger, does nothing. */
    method Unregister(client: EventClient)
      requires Valid()
      modifies this, client
      ensures Valid() && clients == old(clients) - {client} && made == old(made)
      ensures forall id: ClientId :: id < |made| && made[id] == client ==> View() == Act(old(View()), Leave(id))
      ensures client !in made ==> View() == old(View()) && client.Chan() == old(client.Chan())
    {
      ghost var before := View();
      if client in clients {
        clients := clients - {client};
        client.Close();
        forall id: ClientId | id < |made| && made[id] == client ensures View() == Act(before, Leave(id)) {
          assert View().registered == before.registered - {id};
          assert View().channels == before.channels[id := before.channels[id].(closed := true)];
        }
      }
    }

    method Broadcast(e: Event)
      requires Valid()
      modifies clients
      ensures Valid() && clients == old(clients) && made == old(made)
      ensures View() == Act(old(View()), Publish(e))
    {
      var todo := clients;
      while todo != {}
        invariant todo <= clients
        invariant forall c :: c in made && (c in todo || c !in clients) ==> c.Chan() == old(c.Chan())
        invariant forall c :: c in clients - todo ==> c.Chan() == Offer(old(c.Chan()), e)
        decreases todo
      {
        var c :| c in todo;
        assert c in made;
        var _ := c.Send(e);
        todo := todo - {c};
      }
      PublishedView(e);
    }

    /** Offering an event to each registered client is what publishing does to the view. */
    twostate lemma PublishedView(e: Event)
      requires old(Valid()) && clients == old(clients) && made == old(made)
      requires forall c :: c in made ==>
                 c.Chan() == if c in clients then Offer(old(c.Chan()), e) else old(c.Chan())
      ensures Valid() && View() == Act(old(View()), Publish(e))
    {
      assert forall id: ClientId :: id < |made| ==> made[id] in made;
      assert View().registered == old(View()).registered;
      assert View().channels == Act(old(View()), Publish(e)).channels;
    }

    /** The receiving end of a client's stream takes one event. */
    method ReceiveNext(client: EventClient, ghost id: ClientId) returns (e: Option<Event>)
      requires Valid() && id < |made| && made[id] == client
      modifies client
      ensures Valid() && clients == old(clients) && made == old(made)
      ensures View() == Act(old(View()), Receive(id))
      ensures e == if old(client.queue) == [] then None else Some(old(client.queue)[0])
    {
      e := client.Receive();
    }
  }

  // ----- runs

  function HubAfter(run: seq<Action>, k: nat): Hub
    requires k <= |run|
    decreases k
  {
    if k == 0 then Hub(map[], {}, 0) else Act(HubAfter(run, k - 1), run[k - 1])
  }

  /** An event broadcast while the client was registered, with the number of events queued
      for it at that moment. */
  datatype Offered = Offered(e: Event, backlog: nat)

  function OfferedTo(run: seq<Action>, id: ClientId, k: nat): seq<Offered>
    requires k <= |run|
    decreases k
  {
    if k == 0 then []
    else
      var before, h := OfferedTo(run, id, k - 1), HubAfter(run, k - 1);
      if run[k - 1].Publish? && id in h.registered && id in h.channels
      then before + [Offered(run[k - 1].e, |h.channels[id].queue|)]
      else before
  }

  function ReceivedBy(run: seq<Action>, id: ClientId, k: nat): seq<Event>
    requires k <= |run|
    decreases k
  {
    if k == 0 then []
    else
      var before, h := ReceivedBy(run, id, k - 1), HubAfter(run, k - 1);
      if run[k - 1] == Receive(id) && id in h.channels && h.channels[id].queue != []
      then before + [h.channels[id].queue[0]]
      else before
  }

  /** The offered events that were not dropped, in order. */
  function Kept(offers: seq<Offered>): seq<Event> {
    if offers == [] then []
    else
      var last := offers[|offers| - 1];
      Kept(offers[..|offers| - 1]) + if last.backlog < CAPACITY then [last.e] else []
  }

  /** The registered clients are those whose channel is open; ids are given out in turn. */
  ghost predicate Orderly(h: Hub) {
    && (forall id: ClientId :: id in h.channels <==> id < h.next)
    && (forall id: ClientId :: id in h.registered <==> id in h.channels && !h.channels[id].closed)
    && forall id: ClientId :: id in h.channels ==> |h.channels[id].queue| <= CAPACITY
  }

  lemma ActKeepsOrderly(h: Hub, a: Action)
    requires Orderly(h)
    ensures Orderly(Act(h, a))
  {
  }

  /** In every reachable state a registered channel is open and an unregistered one closed.
      Sends and closes reach registered channels only, so none ever hits a closed one. No
      queue is longer than its capacity. */
  lemma {:induction false} RunOrderly(run: seq<Action>, k: nat)
    requires k <= |run|
    ensures Orderly(HubAfter(run, k))
    decreases k
  {
    if k > 0 {
      RunOrderly(run, k - 1);
      ActKeepsOrderly(HubAfter(run, k - 1), run[k - 1]);
    }
  }

  /** Delivery: what a client has received, followed by what is queued for it, is exactly
      what was broadcast while it was registered, in order and without the events that
      found 16 others queued. */
  lemma {:induction false} Delivery(run: seq<Action>, id: ClientId, k: nat)
    requires k <= |run|
    ensures id !in HubAfter(run, k).channels ==> OfferedTo(run, id, k) == [] && ReceivedBy(run, id, k) == []
    ensures id in HubAfter(run, k).channels ==>
              ReceivedBy(run, id, k) + HubAfter(run, k).channels[id].queue == Kept(OfferedTo(run, id, k))
    decreases k
  {
    if k > 0 {
      Delivery(run, id, k - 1);
      RunOrderly(run, k - 1);
      var h := HubAfter(run, k - 1);
      if id in h.channels {
        DeliveryStep(h, run[k - 1], id, ReceivedBy(run, id, k - 1), OfferedTo(run, id, k - 1));
      }
    }
  }

  lemma DeliveryStep(h: Hub, a: Action, id: ClientId, received: seq<Event>, offers: seq<Offered>)
    requires Orderly(h) && id in h.channels && received + h.channels[id].queue == Kept(offers)
    ensures id in Act(h, a).channels
    ensures var queue, after := h.channels[id].queue, Act(h, a).channels[id].queue;
            var received' := if a == Receive(id) && queue != [] then received + [queue[0]] else received;
            var offers' := if a.Publish? && id in h.registered then offers + [Offered(a.e, |queue|)] else offers;
            received' + after == Kept(offers')
  {
    var queue, after := h.channels[id].queue, Act(h, a).channels[id].queue;
    match a
    case Receive(other) =>
      if other == id && queue != [] {
        assert received + queue == received + [queue[0]] + queue[1..];
      }
    case Publish(e) =>
      if id in h.registered {
        var offers' := offers + [Offered(e, |queue|)];
        assert offers'[..|offers'| - 1] == offers;
        if |queue| < CAPACITY {
          assert received + (queue + [e]) == (received + queue) + [e];
        }
      }
    case _ =>
  }

  function Events(offers: seq<Offered>): (events: seq<Event>)
    ensures |events| == |offers|
  {
    seq(|offers|, i requires 0 <= i < |offers| => offers[i].e)
  }

  ghost predicate NeverFull(offers: seq<Offered>) {
    forall i :: 0 <= i < |offers| ==> offers[i].backlog < CAPACITY
  }

  lemma NeverFullAppend(front: seq<Offered>, last: Offered)
    ensures NeverFull(front + [last]) <==> NeverFull(front) && last.backlog < CAPACITY
  {
    var offers := front + [last];
    assert offers[|front|] == last;
    forall i | 0 <= i < |front| ensures front[i] == offers[i] { }
    if NeverFull(offers) {
      forall i | 0 <= i < |front| ensures front[i].backlog < CAPACITY { assert offers[i] == front[i]; }
    }
  }

  lemma {:induction false} KeptAtMostAll(offers: seq<Offered>)
    ensures |Kept(offers)| <= |offers|
    ensures NeverFull(offers) ==> Kept(offers) == Events(offers)
    ensures !NeverFull(offers) ==> |Kept(offers)| < |offers|
  {
    if offers != [] {
      var front, last := offers[..|offers| - 1], offers[|offers| - 1];
      KeptAtMostAll(front);
      assert offers == front + [last];
      NeverFullAppend(front, last);
      assert Events(offers) == Events(front) + [last.e];
    }
  }

  /** In every run a client has received or still holds everything that was broadcast while
      it was registered, if and only if no broadcast found 16 events waiting for it. */
  lemma NothingLostBelowCapacity(run: seq<Action>, id: ClientId, k: nat)
    requires k <= |run| && id in HubAfter(run, k).channels
    ensures ReceivedBy(run, id, k) + HubAfter(run, k).channels[id].queue == Events(OfferedTo(run, id, k)) <==>
            NeverFull(OfferedTo(run, id, k))
  {
    Delivery(run, id, k);
    KeptAtMostAll(OfferedTo(run, id, k));
  }

  // ----- sixteen places

  /** In every reachable hub a broadcast reaches each registered client with fewer than 16
      events waiting, behind those, and passes by all others. */
  lemma PublishReaches(run: seq<Action>, k: nat, e: Event, id: ClientId)
    requires k <= |run| && id in HubAfter(run, k).channels
    ensures var h := HubAfter(run, k);
            var before, h' := h.channels[id], Act(h, Publish(e));
            && id in h'.channels && h'.registered == h.registered && |before.queue| <= 16
            && h'.channels[id] == if id in h.registered && |before.queue| < 16
                                  then Channel(before.queue + [e], before.closed) else before
  {
    RunOrderly(run, k);
  }

  /** The events broadcast by the steps from `j` up to `m`. */
  function Published(run: seq<Action>, j: nat, m: nat): seq<Event>
    requires j <= m <= |run|
    decreases m
  {
    if j == m then []
    else Published(run, j, m - 1) + if run[m - 1].Publish? then [run[m - 1].e] else []
  }

  /** The first 16 of a list, or all of it. */
  function FirstSixteen(events: seq<Event>): seq<Event> {
    if |events| <= 16 then events else events[..16]
  }

  /** A client that registers at step `j` and neither leaves nor receives anything is left
      with exactly the first 16 events broadcast since, in order. */
  lemma {:induction false} QueuedSinceOpen(run: seq<Action>, j: nat, m: nat)
    requires j < m <= |run| && run[j].Open?
    requires var id := HubAfter(run, j).next;
             forall i :: j < i < m ==> run[i] != Receive(id) && run[i] != Leave(id)
    ensures var id, h := HubAfter(run, j).next, HubAfter(run, m);
            && id in h.registered && id in h.channels
            && h.channels[id] == Channel(FirstSixteen(Published(run, j + 1, m)), false)
    decreases m
  {
    var id := HubAfter(run, j).next;
    RunOrderly(run, m - 1);
    if m > j + 1 {
      QueuedSinceOpen(run, j, m - 1);
      QueuedOneMore(HubAfter(run, m - 1), run[m - 1], id, Published(run, j + 1, m - 1));
    }
  }

  lemma QueuedOneMore(h: Hub, a: Action, id: ClientId, events: seq<Event>)
    requires Orderly(h) && id in h.registered && id in h.channels && a != Receive(id) && a != Leave(id)
    requires h.channels[id] == Channel(FirstSixteen(events), false)
    ensures var h', more := Act(h, a), events + if a.Publish? then [a.e] else [];
            && id in h'.registered && id in h'.channels
            && h'.channels[id] == Channel(FirstSixteen(more), false)
  {
    if a.Publish? && |events| >= 16 { assert (events + [a.e])[..16] == events[..16]; }
    assert events + [] == events;
  }
}
