/**
 * The analytics event log every page keeps in storage (`seoUserEvents` on the
 * home and products pages, `seoContactEvents` on the contact page):
 * `trackUserAction` appends one event and keeps only the newest 100.
 * Timestamps, the page URL and the user agent come from the browser and are
 * parameters here.
 */
module EventLog {

  const Capacity: nat := 100

  /** One tracked action with its extra data as name/value pairs. */
  datatype Event = Event(action: string, timestamp: string, url: string, userAgent: string, data: seq<(string, string)>)

  /** `events.slice(-100)`: the newest entries, at most `Capacity` of them, in order. */
  function Recent(events: seq<Event>): (r: seq<Event>)
    ensures |r| == if |events| <= Capacity then |events| else Capacity
    ensures r == events[|events| - |r|..]
  {
    if |events| <= Capacity then events else events[|events| - Capacity..]
  }

  /** After tracking, the newest entry is the event just tracked. */
  lemma RecentKeepsNewest(events: seq<Event>, e: Event)
    ensures var r := Recent(events + [e]); |r| >= 1 && r[|r| - 1] == e
  {
  }

  /**
   * Truncating after every event is the same as keeping the full history and
   * truncating once: the log always holds the newest 100 events ever tracked.
   */
  lemma RecentOfRecent(events: seq<Event>, e: Event)
    ensures Recent(Recent(events) + [e]) == Recent(events + [e])
  {
    var r := Recent(events);
    var all := events + [e];
    if |events| > Capacity {
      assert r + [e] == all[|all| - Capacity - 1..];
      assert (r + [e])[1..] == all[|all| - Capacity..];
    }
  }

  /** Tracking a whole history one event at a time. */
  function TrackAll(log: seq<Event>, es: seq<Event>): seq<Event>
    decreases |es|
  {
    if es == [] then log else TrackAll(Recent(log + [es[0]]), es[1..])
  }

  /** After any run of tracked events the log is the newest 100 of the whole history. */
  lemma {:induction false} TrackAllIsRecent(log: seq<Event>, es: seq<Event>)
    requires |log| <= Capacity
    ensures TrackAll(log, es) == Recent(log + es)
    decreases |es|
  {
    if es == [] {
      assert log + es == log;
    } else {
      var first := log + [es[0]];
      var rest := es[1..];
      assert first + rest == log + es;
      calc {
        TrackAll(log, es);
        TrackAll(Recent(first), rest);
        { TrackAllIsRecent(Recent(first), rest); }
        Recent(Recent(first) + rest);
        { RecentOfSuffix(first, rest); }
        Recent(first + rest);
      }
    }
  }

  /** Truncating first and appending later keeps the same newest 100. */
  lemma {:induction false} RecentOfSuffix(a: seq<Event>, b: seq<Event>)
    ensures Recent(Recent(a) + b) == Recent(a + b)
    decreases |b|
  {
    if b == [] {
      assert Recent(a) + b == Recent(a) && a + b == a;
      assert Recent(Recent(a)) == Recent(a);
    } else {
      var b' := b[..|b| - 1];
      var e := b[|b| - 1];
      RecentOfSuffix(a, b');
      assert Recent(a) + b == Recent(a) + b' + [e];
      assert a + b == a + b' + [e];
      RecentOfRecent(Recent(a) + b', e);
      RecentOfRecent(a + b', e);
    }
  }

  /** One page's stored log. */
  class EventStore {
    /** The storage key the page writes to. */
    const key: string
    var events: seq<Event>

    /** The log as read from storage; a missing key reads as empty. */
    constructor Load(key: string, stored: seq<Event>)
      ensures this.key == key && events == stored
    {
      this.key := key;
      events := stored;
    }

    /** `trackUserAction`: push the event, then keep the newest 100. */
    method TrackUserAction(action: string, timestamp: string, url: string, userAgent: string, data: seq<(string, string)>)
      modifies this
      ensures events == Recent(old(events) + [Event(action, timestamp, url, userAgent, data)])
      ensures |events| <= Capacity && events[|events| - 1] == Event(action, timestamp, url, userAgent, data)
    {
      var all := events + [Event(action, timestamp, url, userAgent, data)];
      events := all[if |all| > Capacity then |all| - Capacity else 0..];
    }
  }
}
