/** An in-process fan-out: one bounded queue per subscriber that drops its oldest event. */
module Realtime {

  // ----- What one subscriber has been sent -----

  /**
   Every event published since the subscriber came, how many of them have left its queue at
   the old end, and the positions of those that were delivered.
   */
  datatype Feed<E> = Feed(published: seq<E>, left: nat, delivered: seq<nat>)

  datatype Step<E> = Publish(event: E) | Take

  /** A queue without a positive bound is never full. */
  predicate Full(size: nat, maxsize: int) {
    maxsize > 0 && size >= maxsize
  }

  ghost predicate Consistent<E>(feed: Feed<E>) {
    feed.left <= |feed.published|
  }

  function Held<E>(feed: Feed<E>): seq<E>
    requires Consistent(feed)
  {
    feed.published[feed.left..]
  }

  function Offered<E>(feed: Feed<E>, event: E, maxsize: int): (next: Feed<E>)
    requires Consistent(feed)
    ensures Consistent(next)
  {
    var published := feed.published + [event];
    var oldest := if maxsize > 0 && |published| - maxsize > feed.left then |published| - maxsize else feed.left;
    feed.(published := published, left := oldest)
  }

  function Taken<E>(feed: Feed<E>): (next: Feed<E>)
    requires Consistent(feed) && Held(feed) != []
    ensures Consistent(next)
  {
    feed.(left := feed.left + 1, delivered := feed.delivered + [feed.left])
  }

  /** A take of an empty queue waits, and changes nothing. */
  function Next<E>(feed: Feed<E>, step: Step<E>, maxsize: int): (next: Feed<E>)
    requires Consistent(feed)
    ensures Consistent(next)
  {
    match step
    case Publish(event) => Offered(feed, event, maxsize)
    case Take => if Held(feed) == [] then feed else Taken(feed)
  }

  function After<E>(feed: Feed<E>, steps: seq<Step<E>>, maxsize: int): (next: Feed<E>)
    requires Consistent(feed)
    ensures Consistent(next)
    decreases |steps|
  {
    if steps == [] then feed else After(Next(feed, steps[0], maxsize), steps[1..], maxsize)
  }

  function EventsOf<E>(steps: seq<Step<E>>): seq<E> {
    if steps == [] then []
    else if steps[0].Publish? then [steps[0].event] + EventsOf(steps[1..])
    else EventsOf(steps[1..])
  }

  /** Taking delivers the held positions one after the other, each once, and removes what it delivers. */
  lemma {:induction false} TakesDeliverInTurn<E>(feed: Feed<E>, takes: seq<Step<E>>, maxsize: int)
    requires Consistent(feed) && |takes| <= |Held(feed)|
    requires forall i :: 0 <= i < |takes| ==> takes[i] == Take
    ensures var end := After(feed, takes, maxsize);
            && end.published == feed.published && Held(end) == Held(feed)[|takes|..]
            && end.delivered == feed.delivered + seq(|takes|, i => feed.left + i)
    decreases |takes|
  {
    if takes == [] {
      assert feed.delivered + [] == feed.delivered;
    } else {
      var next, positions := Next(feed, Take, maxsize), seq(|takes|, i => feed.left + i);
      TakesDeliverInTurn(next, takes[1..], maxsize);
      assert positions == [feed.left] + seq(|takes| - 1, i => next.left + i);
      assert feed.delivered + positions == feed.delivered + [feed.left] + positions[1..];
    }
  }

  /**
   The queue is a suffix of what was published, within the bound; deliveries keep the order
   and never repeat; and an event is missed only if as many later ones as the queue holds
   were published before its turn.
   */
  ghost predicate Sound<E>(feed: Feed<E>, maxsize: int) {
    && Consistent(feed)
    && (maxsize > 0 ==> |feed.published| - feed.left <= maxsize)
    && (forall i :: 0 <= i < |feed.delivered| ==> feed.delivered[i] < feed.left)
    && (forall i, j :: 0 <= i < j < |feed.delivered| ==> feed.delivered[i] < feed.delivered[j])
    && (forall k :: 0 <= k < feed.left ==> k in feed.delivered || (maxsize > 0 && k < |feed.published| - maxsize))
  }

  lemma SoundNext<E>(feed: Feed<E>, step: Step<E>, maxsize: int)
    requires Sound(feed, maxsize)
    ensures Sound(Next(feed, step, maxsize), maxsize)
  {
    var next := Next(feed, step, maxsize);
    if step == Take && Held(feed) != [] {
      assert next.delivered == feed.delivered + [feed.left];
    }
    forall k | 0 <= k < next.left
      ensures k in next.delivered || (maxsize > 0 && k < |next.published| - maxsize)
    {
      if step.Take? && Held(feed) != [] && k == feed.left {
        assert next.delivered[|feed.delivered|] == k;
      } else if k < feed.left && k in feed.delivered && step.Take? && Held(feed) != [] {
        var i :| 0 <= i < |feed.delivered| && feed.delivered[i] == k;
        assert next.delivered[i] == k;
      }
    }
  }

  lemma {:induction false} PublishedAfter<E>(feed: Feed<E>, steps: seq<Step<E>>, maxsize: int)
    requires Consistent(feed)
    ensures After(feed, steps, maxsize).published == feed.published + EventsOf(steps)
    decreases |steps|
  {
    if steps == [] {
      assert feed.published + [] == feed.published;
    } else {
      var rest := EventsOf(steps[1..]);
      PublishedAfter(Next(feed, steps[0], maxsize), steps[1..], maxsize);
      match steps[0]
      case Publish(event) =>
        assert EventsOf(steps) == [event] + rest;
        assert (feed.published + [event]) + rest == feed.published + ([event] + rest);
      case Take =>
        assert EventsOf(steps) == rest;
    }
  }

  lemma {:induction false} SoundThroughout<E>(feed: Feed<E>, steps: seq<Step<E>>, maxsize: int)
    requires Sound(feed, maxsize)
    ensures Sound(After(feed, steps, maxsize), maxsize)
    decreases |steps|
  {
    if steps != [] {
      SoundNext(feed, steps[0], maxsize);
      SoundThroughout(Next(feed, steps[0], maxsize), steps[1..], maxsize);
    }
  }

  /** Whatever mix of publishes and takes: the subscriber was sent them all, and the queue is sound. */
  lemma SoundAfter<E>(steps: seq<Step<E>>, maxsize: int)
    ensures var feed := After(Feed([], 0, []), steps, maxsize);
            Sound(feed, maxsize) && feed.published == EventsOf(steps)
  {
    SoundThroughout(Feed([], 0, []), steps, maxsize);
    PublishedAfter(Feed([], 0, []), steps, maxsize);
    assert [] + EventsOf(steps) == EventsOf(steps);
  }

  /** Each of the last events, as many as the queue holds, was delivered or still waits at its place. */
  lemma NothingMissed<E>(steps: seq<Step<E>>, maxsize: int, k: nat)
    requires k < |EventsOf(steps)| && (maxsize > 0 ==> k >= |EventsOf(steps)| - maxsize)
    ensures var feed := After(Feed([], 0, []), steps, maxsize);
            && |feed.published| == |EventsOf(steps)|
            && (k in feed.delivered || (feed.left <= k && Held(feed)[k - feed.left] == EventsOf(steps)[k]))
  {
    SoundAfter(steps, maxsize);
  }

  // ----- The channel -----

  class Subscriber<E> {
    var queue: seq<E>
    const maxsize: int
    ghost var feed: Feed<E>

    ghost predicate Valid()
      reads this
    {
      Sound(feed, maxsize) && queue == Held(feed)
    }

    constructor (maxsize: int)
      ensures Valid() && this.maxsize == maxsize && feed == Feed([], 0, [])
    {
      this.maxsize, queue, feed := maxsize, [], Feed([], 0, []);
    }

    /** Enqueues the event, evicting the oldest entry for as long as the queue is full. */
    method Offer(event: E)
      requires Valid()
      modifies this
      ensures Valid() && feed == Offered(old(feed), event, maxsize)
    {
      ghost var evicted := 0;
      while Full(|queue|, maxsize)
        invariant feed == old(feed) && 0 <= evicted <= |Held(feed)|
        invariant queue == Held(feed)[evicted..]
        invariant evicted > 0 ==> |queue| == maxsize - 1
        decreases |queue|
      {
        queue := queue[1..];
        evicted := evicted + 1;
      }
      SoundNext(feed, Publish(event), maxsize);
      feed := Offered(feed, event, maxsize);
      queue := queue + [event];
    }

    /** The next event of the iterator: the oldest one held. */
    method Get() returns (event: E)
      requires Valid() && queue != []
      modifies this
      ensures Valid() && feed == Taken(old(feed))
      ensures event == old(queue)[0] == old(feed).published[old(feed).left] && queue == old(queue)[1..]
      ensures feed.left == old(feed).left + 1 && feed.delivered == old(feed).delivered + [old(feed).left]
    {
      SoundNext(feed, Take, maxsize);
      feed := Taken(feed);
      event := queue[0];
      queue := queue[1..];
    }
  }

  class InMemoryChannel<E> {
    var subscribers: set<Subscriber<E>>
    var closed: bool
    const queueMaxsize: int

    ghost predicate Valid()
      reads this, subscribers
    {
      forall s :: s in subscribers ==> s.Valid() && s.maxsize == queueMaxsize
    }

    constructor (queueMaxsize: int)
      ensures Valid() && subscribers == {} && !closed && this.queueMaxsize == queueMaxsize
    {
      subscribers, closed := {}, false;
      this.queueMaxsize := queueMaxsize;
    }

    method Subscribe() returns (subscriber: Subscriber<E>)
      requires Valid()
      modifies this
      ensures Valid() && fresh(subscriber) && closed == old(closed)
      ensures subscribers == old(subscribers) + {subscriber} && subscriber.feed == Feed([], 0, [])
    {
      subscriber := new Subscriber(queueMaxsize);
      subscribers := subscribers + {subscriber};
    }

    /** Offers the event to every live subscriber, and to nobody else. */
    method Publish(event: E)
      requires Valid()
      modifies subscribers
      ensures Valid()
      ensures forall s :: s in subscribers ==> s.feed == Offered(old(s.feed), event, queueMaxsize)
    {
      var pending := subscribers;
      while pending != {}
        invariant pending <= subscribers
        invariant forall s :: s in subscribers ==> s.Valid()
        invariant forall s :: s in subscribers ==>
                    s.feed == if s in pending then old(s.feed) else Offered(old(s.feed), event, queueMaxsize)
        decreases |pending|
      {
        var s :| s in pending;
        s.Offer(event);
        pending := pending - {s};
      }
    }

    /** One turn of a subscriber's iterator: the oldest event, or nothing while its queue is empty. */
    method Iterate(subscriber: Subscriber<E>) returns (events: seq<E>)
      requires Valid() && subscriber.Valid() && subscriber.maxsize == queueMaxsize
      modifies this, subscriber
      ensures Valid() && subscriber.Valid() && closed == old(closed)
      ensures closed ==>
                && events == []
                && subscribers == old(subscribers) - {subscriber}
                && subscriber.feed == old(subscriber.feed)
      ensures !closed ==>
                && subscribers == old(subscribers)
                && subscriber.feed == Next(old(subscriber.feed), Take, queueMaxsize)
                && (old(subscriber.queue) == [] ==>
                      events == [] && subscriber.queue == [] && subscriber.feed == old(subscriber.feed))
                && (old(subscriber.queue) != [] ==>
                      && events == [old(subscriber.queue)[0]] && subscriber.queue == old(subscriber.queue)[1..]
                      && subscriber.feed.published == old(subscriber.feed).published
                      && subscriber.feed.left == old(subscriber.feed).left + 1
                      && subscriber.feed.delivered
                         == old(subscriber.feed).delivered + [old(subscriber.feed).left])
    {
      events := [];
      if closed {
        subscribers := subscribers - {subscriber};
      } else if subscriber.queue != [] {
        var event := subscriber.Get();
        events := [event];
      }
    }

    /** Every iterator ends, and no event reaches anyone any more. */
    method Close()
      modifies this
      ensures Valid() && closed && subscribers == {}
    {
      closed, subscribers := true, {};
    }
  }
}
