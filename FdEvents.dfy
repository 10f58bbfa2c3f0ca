/**
 * The event translation of photon's fd-events.h (EventsMap_): photon's
 * own read/write event bits are mapped onto those of the underlying
 * poller, as epoll.cpp does for epoll.
 *
 * A bit mask is modelled as the set of the positions of its set bits:
 * `a & b` is the intersection, `a | b` the union and 0 the empty set.
 */
module FdEvents {
  /** A bit mask: the positions of its set bits. */
  type Mask = set<nat>

  /** Every bit of the mask fits in a word of the given width. */
  predicate Fits(b: Mask, width: nat)
  {
    forall i :: i in b ==> i < width
  }

  /** photon's EVENT_READ (1) and EVENT_WRITE (2). */
  const EVENT_READ: Mask := {0}
  const EVENT_WRITE: Mask := {1}

  /** Linux's EPOLLIN (0x001), EPOLLOUT (0x004) and EPOLLRDHUP (0x2000). */
  const EPOLLIN: Mask := {0}
  const EPOLLOUT: Mask := {2}
  const EPOLLRDHUP: Mask := {13}

  /**
   * EventsMap_<UNDERLAY_EVENT_READ, UNDERLAY_EVENT_WRITE>: the two
   * underlay masks (uint32_t template arguments) and the two caller event
   * values (uint64_t).
   */
  datatype EventsMap = EventsMap(underlayRead: Mask, underlayWrite: Mask, evRead: Mask, evWrite: Mask)

  /** The static_asserts on the template arguments and the asserts of the constructor. */
  predicate Valid(m: EventsMap)
  {
    Fits(m.underlayRead, 32) && Fits(m.underlayWrite, 32) && Fits(m.evRead, 64) && Fits(m.evWrite, 64) &&
    m.underlayRead != {} && m.underlayWrite != {} && m.underlayRead != m.underlayWrite &&
    m.evRead != {} && m.evWrite != {} && m.evRead != m.evWrite
  }

  /** The constructor: it keeps both event values and asserts them non-zero and distinct. */
  function NewEventsMap(underlayRead: Mask, underlayWrite: Mask, eventRead: Mask, eventWrite: Mask): (m: EventsMap)
    requires Fits(underlayRead, 32) && Fits(underlayWrite, 32) && Fits(eventRead, 64) && Fits(eventWrite, 64)
    requires underlayRead != {} && underlayWrite != {} && underlayRead != underlayWrite
    requires eventRead != {} && eventWrite != {} && eventRead != eventWrite
    ensures Valid(m)
    ensures m.evRead == eventRead && m.evWrite == eventWrite
    ensures m.underlayRead == underlayRead && m.underlayWrite == underlayWrite
  {
    EventsMap(underlayRead, underlayWrite, eventRead, eventWrite)
  }

  /**
   * translate_bitwisely: the underlay read mask when events shares a bit
   * with ev_read, the underlay write mask when it shares one with ev_write.
   */
  function TranslateBitwisely(m: EventsMap, events: Mask): (r: Mask)
    ensures r <= m.underlayRead + m.underlayWrite
    ensures events * m.evRead != {} ==> m.underlayRead <= r
    ensures events * m.evWrite != {} ==> m.underlayWrite <= r
    ensures events * m.evRead == {} && events * m.evWrite == {} ==> r == {}
  {
    var read := if events * m.evRead != {} then m.underlayRead else {};
    if events * m.evWrite != {} then read + m.underlayWrite else read
  }

  /** The result fits the underlay's 32-bit word. */
  lemma BitwiselyFits(m: EventsMap, events: Mask)
    requires Valid(m)
    ensures Fits(TranslateBitwisely(m, events), 32)
  {
  }

  /**
   * With disjoint underlay masks, the underlay read bits are set iff events
   * shares a bit with ev_read, and the write bits iff it shares one with
   * ev_write.
   */
  lemma BitwiselyIff(m: EventsMap, events: Mask)
    requires Valid(m) && m.underlayRead * m.underlayWrite == {}
    ensures var r := TranslateBitwisely(m, events);
      (r * m.underlayRead != {} <==> events * m.evRead != {}) &&
      (r * m.underlayWrite != {} <==> events * m.evWrite != {})
  {
    var r := TranslateBitwisely(m, events);
    var x :| x in m.underlayRead;
    var y :| y in m.underlayWrite;
    if events * m.evRead != {} {
      assert x in r * m.underlayRead;
    }
    if events * m.evWrite != {} {
      assert y in r * m.underlayWrite;
    }
  }

  /**
   * translate_byval: ev_read to the underlay read mask, ev_write to the
   * write mask. The source returns nothing for any other value, so only
   * these two are accepted.
   */
  function TranslateByval(m: EventsMap, event: Mask): (r: Mask)
    requires Valid(m)
    requires event == m.evRead || event == m.evWrite
    ensures event == m.evRead ==> r == m.underlayRead
    ensures event == m.evWrite ==> r == m.underlayWrite
    ensures r != {}
  {
    if event == m.evRead then m.underlayRead
    else m.underlayWrite
  }

  /**
   * When the two event values share no bit, both translations agree on
   * either single event.
   */
  lemma ByvalIsBitwise(m: EventsMap, event: Mask)
    requires Valid(m) && m.evRead * m.evWrite == {}
    requires event == m.evRead || event == m.evWrite
    ensures TranslateBitwisely(m, event) == TranslateByval(m, event)
  {
    var x :| x in event;
    assert x in event * event;
  }

  /** The epoll engine's map: EVENT_READ to EPOLLIN|EPOLLRDHUP, EVENT_WRITE to EPOLLOUT. */
  function EpollMap(): (m: EventsMap)
    ensures Valid(m)
  {
    NewEventsMap(EPOLLIN + EPOLLRDHUP, EPOLLOUT, EVENT_READ, EVENT_WRITE)
  }

  /** Under epoll, reading asks for input and peer hang-up, writing for output, both for both. */
  lemma EpollTranslation()
    ensures TranslateBitwisely(EpollMap(), EVENT_READ) == EPOLLIN + EPOLLRDHUP
    ensures TranslateBitwisely(EpollMap(), EVENT_WRITE) == EPOLLOUT
    ensures TranslateBitwisely(EpollMap(), EVENT_READ + EVENT_WRITE) == EPOLLIN + EPOLLRDHUP + EPOLLOUT
    ensures TranslateBitwisely(EpollMap(), {}) == {}
  {
    assert 0 in EVENT_READ * EpollMap().evRead;
    assert 1 in EVENT_WRITE * EpollMap().evWrite;
    assert EVENT_READ * EpollMap().evWrite == {} by {
      assert forall i :: i in EVENT_READ ==> i !in EpollMap().evWrite;
    }
    assert EVENT_WRITE * EpollMap().evRead == {} by {
      assert forall i :: i in EVENT_WRITE ==> i !in EpollMap().evRead;
    }
  }
}
