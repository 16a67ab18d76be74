/**
 One command/response exchange with the modem over a serial port
 (`rmutils.write`), against a port that keeps time in whole milliseconds.

 The port holds the bytes received but not yet read, the bytes still on
 their way (each with the time it reaches the port), a clock, and a trace of
 everything done on it: writes, sleeps and one-byte reads. Bytes reach the
 port only while the caller sleeps, in the order they were sent.
 */
module RmUtils {
  import opened Wrappers

  type byte = b: int | 0 <= b < 256

  /** `data` reaches the port once the clock reads `at` or later. */
  datatype Arrival = Arrival(at: nat, data: seq<byte>)

  /** One thing done on the port. */
  datatype Event = Wrote(data: seq<byte>) | Slept(ms: nat) | ReadOne(b: byte)

  /** Text to bytes (`str.encode()`) and back (`bytes.decode("utf-8")`, which
      fails on bytes that are not UTF-8). */
  datatype Codec = Codec(encode: string -> seq<byte>, decode: seq<byte> -> Option<string>)

  /** The arrival wait polls every 50 ms ... */
  const PollInterval: nat := 50
  /** ... for at most one second. */
  const ArrivalBudget: nat := 1000
  /** The pause before and after a trailing payload. */
  const PayloadSettle: nat := 1000

  // ---------------------------------------------------------------------------
  // Arrivals

  /** The bytes of the arrivals at the head of `schedule` whose time has come
      by `t`, in order. */
  function Delivered(schedule: seq<Arrival>, t: nat): seq<byte>
  {
    if schedule == [] || schedule[0].at > t then []
    else schedule[0].data + Delivered(schedule[1..], t)
  }

  /** The arrivals still on their way at `t`. */
  function Undelivered(schedule: seq<Arrival>, t: nat): (rest: seq<Arrival>)
    ensures rest == [] || rest[0].at > t
  {
    if schedule == [] || schedule[0].at > t then schedule
    else Undelivered(schedule[1..], t)
  }

  /** Delivering up to `t1` and then up to `t2` delivers what delivering up
      to `t2` at once does. */
  lemma {:induction false} DeliveredInSteps(schedule: seq<Arrival>, t1: nat, t2: nat)
    requires t1 <= t2
    ensures Delivered(schedule, t1) + Delivered(Undelivered(schedule, t1), t2) == Delivered(schedule, t2)
    ensures Undelivered(Undelivered(schedule, t1), t2) == Undelivered(schedule, t2)
  {
    if schedule != [] && schedule[0].at <= t1 {
      DeliveredInSteps(schedule[1..], t1, t2);
    }
  }

  /** Nothing is delivered before the head of the schedule is due. */
  lemma NothingDue(schedule: seq<Arrival>, t: nat)
    requires schedule == [] || schedule[0].at > t
    ensures Delivered(schedule, t) == [] && Undelivered(schedule, t) == schedule
  {
  }

  /** What has been delivered by `t1` is a prefix of what has been delivered
      by any later `t2`. */
  lemma DeliveredGrows(schedule: seq<Arrival>, t1: nat, t2: nat)
    requires t1 <= t2
    ensures Delivered(schedule, t1) <= Delivered(schedule, t2)
  {
    DeliveredInSteps(schedule, t1, t2);
  }

  /** The bytes waiting at time `t` when nothing has been read since the
      port held `pending` and had `schedule` to come. */
  function Waiting(pending: seq<byte>, schedule: seq<Arrival>, t: nat): seq<byte>
  {
    pending + Delivered(schedule, t)
  }

  /** The clock reading at which the arrival wait that began at `start`
      stops, when it is now `now`: the first poll instant at which a byte is
      waiting, or the first at which a second has elapsed. */
  function WaitEnd(pending: seq<byte>, schedule: seq<Arrival>, start: nat, now: nat): (stop: nat)
    requires start <= now
    ensures now <= stop
    decreases ArrivalBudget - (now - start)
  {
    if Waiting(pending, schedule, now) != [] || now - start >= ArrivalBudget then now
    else WaitEnd(pending, schedule, start, now + PollInterval)
  }

  /** The wait stops at a poll instant no later than one second after it
      began, and then either a byte is waiting or the second is up. */
  lemma {:induction false} WaitEndBounds(pending: seq<byte>, schedule: seq<Arrival>, start: nat, now: nat)
    requires start <= now <= start + ArrivalBudget && (now - start) % PollInterval == 0
    ensures now <= WaitEnd(pending, schedule, start, now) <= start + ArrivalBudget
    ensures (WaitEnd(pending, schedule, start, now) - start) % PollInterval == 0
    ensures Waiting(pending, schedule, WaitEnd(pending, schedule, start, now)) != []
         || WaitEnd(pending, schedule, start, now) == start + ArrivalBudget
    decreases ArrivalBudget - (now - start)
  {
    if Waiting(pending, schedule, now) == [] && now - start < ArrivalBudget {
      WaitEndBounds(pending, schedule, start, now + PollInterval);
    }
  }

  /** No byte was waiting at any earlier poll instant: the wait stops at the
      first chance it has. */
  lemma {:induction false} WaitEndFirst(pending: seq<byte>, schedule: seq<Arrival>, start: nat, now: nat, t: nat)
    requires start <= now <= t < WaitEnd(pending, schedule, start, now)
    requires (t - now) % PollInterval == 0
    ensures Waiting(pending, schedule, t) == []
    decreases ArrivalBudget - (now - start)
  {
    if t > now {
      WaitEndFirst(pending, schedule, start, now + PollInterval, t);
    }
  }

  /** When nothing has arrived one second after the wait began, the wait
      runs the full second and nothing is captured. */
  lemma NothingArrives(pending: seq<byte>, schedule: seq<Arrival>, start: nat)
    requires Waiting(pending, schedule, start + ArrivalBudget) == []
    ensures WaitEnd(pending, schedule, start, start) == start + ArrivalBudget
    ensures Waiting(pending, schedule, WaitEnd(pending, schedule, start, start)) == []
  {
    WaitEndBounds(pending, schedule, start, start);
    var stop := WaitEnd(pending, schedule, start, start);
    DeliveredGrows(schedule, stop, start + ArrivalBudget);
  }

  /** A byte already waiting when the wait begins ends it at once. */
  lemma AlreadyWaiting(pending: seq<byte>, schedule: seq<Arrival>, start: nat)
    requires pending != []
    ensures WaitEnd(pending, schedule, start, start) == start
  {
  }

  // ---------------------------------------------------------------------------
  // Traces

  /** `n` polls of the arrival wait. */
  function Polls(n: nat): (events: seq<Event>)
    ensures |events| == n
  {
    if n == 0 then [] else Polls(n - 1) + [Slept(PollInterval)]
  }

  /** Reading `bytes` one at a time. */
  function Reads(bytes: seq<byte>): (events: seq<Event>)
    ensures |events| == |bytes|
  {
    if bytes == [] then [] else Reads(bytes[..|bytes| - 1]) + [ReadOne(bytes[|bytes| - 1])]
  }

  /** The settle sleep, taken only for a positive delay. */
  function Settle(delay: nat): seq<Event>
  {
    if delay > 0 then [Slept(delay)] else []
  }

  /** The payload step: pause, write the payload, pause again. */
  function PayloadEvents(payload: Option<seq<byte>>): seq<Event>
  {
    if payload.Some? then [Slept(PayloadSettle), Wrote(payload.value), Slept(PayloadSettle)] else []
  }

  /** What one exchange does on the port: write the framed command, settle
      for `delay` if it is positive, poll `polls` times, read the `captured`
      bytes, and when there is a payload, pause, write it, pause again. */
  function Exchange(frame: seq<byte>, delay: nat, polls: nat, captured: seq<byte>,
                    payload: Option<seq<byte>>): seq<Event>
  {
    [Wrote(frame)] + Settle(delay) + Polls(polls) + Reads(captured) + PayloadEvents(payload)
  }

  lemma Assoc<T>(a: seq<T>, b: seq<T>, c: seq<T>)
    ensures a + b + c == a + (b + c)
  {
  }

  /** The byte strings written, in order. */
  function Writes(events: seq<Event>): seq<seq<byte>>
  {
    if events == [] then []
    else (if events[0].Wrote? then [events[0].data] else []) + Writes(events[1..])
  }

  /** The bytes read, in order. */
  function BytesRead(events: seq<Event>): seq<byte>
  {
    if events == [] then []
    else (if events[0].ReadOne? then [events[0].b] else []) + BytesRead(events[1..])
  }

  /** The total time slept. */
  function TimeSlept(events: seq<Event>): nat
  {
    if events == [] then 0
    else (if events[0].Slept? then events[0].ms else 0) + TimeSlept(events[1..])
  }

  lemma {:induction false} TraceConcat(a: seq<Event>, b: seq<Event>)
    ensures Writes(a + b) == Writes(a) + Writes(b)
    ensures BytesRead(a + b) == BytesRead(a) + BytesRead(b)
    ensures TimeSlept(a + b) == TimeSlept(a) + TimeSlept(b)
  {
    if a != [] {
      TraceConcat(a[1..], b);
      assert (a + b)[0] == a[0];
      assert (a + b)[1..] == a[1..] + b;
    } else {
      assert a + b == b;
    }
  }

  /** What a single event contributes. */
  lemma OneEvent(e: Event)
    ensures Writes([e]) == (if e.Wrote? then [e.data] else [])
    ensures BytesRead([e]) == (if e.ReadOne? then [e.b] else [])
    ensures TimeSlept([e]) == (if e.Slept? then e.ms else 0)
  {
    assert [e][1..] == [];
  }

  lemma {:induction false} PollsOnlySleep(n: nat)
    ensures Writes(Polls(n)) == [] && BytesRead(Polls(n)) == []
    ensures TimeSlept(Polls(n)) == PollInterval * n
  {
    if n > 0 {
      PollsOnlySleep(n - 1);
      TraceConcat(Polls(n - 1), [Slept(PollInterval)]);
      OneEvent(Slept(PollInterval));
    }
  }

  lemma {:induction false} ReadsOnlyRead(bytes: seq<byte>)
    ensures Writes(Reads(bytes)) == [] && TimeSlept(Reads(bytes)) == 0
    ensures BytesRead(Reads(bytes)) == bytes
  {
    if bytes != [] {
      var init, last := bytes[..|bytes| - 1], bytes[|bytes| - 1];
      assert Reads(bytes) == Reads(init) + [ReadOne(last)];
      ReadsOnlyRead(init);
      TraceConcat(Reads(init), [ReadOne(last)]);
      OneEvent(ReadOne(last));
      assert Writes(Reads(bytes)) == [] + [];
      assert BytesRead(Reads(bytes)) == init + [last];
      assert init + [last] == bytes;
    }
  }

  lemma {:induction false} PollsAt(n: nat, k: nat)
    requires k < n
    ensures Polls(n)[k] == Slept(PollInterval)
  {
    if k < n - 1 {
      PollsAt(n - 1, k);
    }
  }

  lemma {:induction false} ReadsAt(bytes: seq<byte>, k: nat)
    requires k < |bytes|
    ensures Reads(bytes)[k] == ReadOne(bytes[k])
  {
    if k < |bytes| - 1 {
      ReadsAt(bytes[..|bytes| - 1], k);
    }
  }

  /** One write without a payload, two with one: the command, then the
      payload. */
  lemma ExchangeWrites(frame: seq<byte>, delay: nat, polls: nat, captured: seq<byte>, payload: Option<seq<byte>>)
    ensures Writes(Exchange(frame, delay, polls, captured, payload))
      == [frame] + (if payload.Some? then [payload.value] else [])
  {
    var a := [Wrote(frame)] + Settle(delay);
    var b := a + Polls(polls);
    var c := b + Reads(captured);
    OneEvent(Wrote(frame));
    TraceConcat([Wrote(frame)], Settle(delay));
    if delay > 0 {
      OneEvent(Slept(delay));
    }
    assert Writes(a) == [frame];
    PollsOnlySleep(polls);
    TraceConcat(a, Polls(polls));
    assert Writes(b) == [frame];
    ReadsOnlyRead(captured);
    TraceConcat(b, Reads(captured));
    assert Writes(c) == [frame];
    TraceConcat(c, PayloadEvents(payload));
    if payload.Some? {
      PayloadSteps(payload.value);
    }
  }

  /** The bytes read in an exchange are exactly those captured. */
  lemma ExchangeReads(frame: seq<byte>, delay: nat, polls: nat, captured: seq<byte>, payload: Option<seq<byte>>)
    ensures BytesRead(Exchange(frame, delay, polls, captured, payload)) == captured
  {
    var a := [Wrote(frame)] + Settle(delay);
    var b := a + Polls(polls);
    var c := b + Reads(captured);
    OneEvent(Wrote(frame));
    TraceConcat([Wrote(frame)], Settle(delay));
    if delay > 0 {
      OneEvent(Slept(delay));
    }
    assert BytesRead(a) == [];
    PollsOnlySleep(polls);
    TraceConcat(a, Polls(polls));
    assert BytesRead(b) == [];
    ReadsOnlyRead(captured);
    TraceConcat(b, Reads(captured));
    assert BytesRead(c) == captured;
    TraceConcat(c, PayloadEvents(payload));
    if payload.Some? {
      PayloadSteps(payload.value);
    }
  }

  /** The time slept in an exchange is the settle delay, the polls, and the
      two pauses around a payload. */
  lemma ExchangeSleeps(frame: seq<byte>, delay: nat, polls: nat, captured: seq<byte>, payload: Option<seq<byte>>)
    ensures TimeSlept(Exchange(frame, delay, polls, captured, payload))
      == delay + PollInterval * polls + (if payload.Some? then 2 * PayloadSettle else 0)
  {
    var a := [Wrote(frame)] + Settle(delay);
    var b := a + Polls(polls);
    var c := b + Reads(captured);
    OneEvent(Wrote(frame));
    TraceConcat([Wrote(frame)], Settle(delay));
    if delay > 0 {
      OneEvent(Slept(delay));
    }
    assert TimeSlept(a) == delay;
    PollsOnlySleep(polls);
    TraceConcat(a, Polls(polls));
    ReadsOnlyRead(captured);
    TraceConcat(b, Reads(captured));
    assert TimeSlept(c) == delay + PollInterval * polls;
    TraceConcat(c, PayloadEvents(payload));
    if payload.Some? {
      PayloadSteps(payload.value);
    }
  }

  /** The payload step writes the payload once and sleeps two pauses. */
  lemma PayloadSteps(payload: seq<byte>)
    ensures Writes(PayloadEvents(Some(payload))) == [payload]
    ensures BytesRead(PayloadEvents(Some(payload))) == []
    ensures TimeSlept(PayloadEvents(Some(payload))) == 2 * PayloadSettle
  {
    OneEvent(Slept(PayloadSettle));
    OneEvent(Wrote(payload));
    TraceConcat([Slept(PayloadSettle)], [Wrote(payload)]);
    TraceConcat([Slept(PayloadSettle), Wrote(payload)], [Slept(PayloadSettle)]);
    assert [Slept(PayloadSettle)] + [Wrote(payload)] == [Slept(PayloadSettle), Wrote(payload)];
    assert PayloadEvents(Some(payload)) == [Slept(PayloadSettle), Wrote(payload)] + [Slept(PayloadSettle)];
  }

  /** The command is written first, before any byte is read; the settle
      sleep is there exactly when the delay is positive; and every byte is
      read before the payload is written. */
  lemma ExchangeOrder(frame: seq<byte>, delay: nat, polls: nat, captured: seq<byte>, payload: Option<seq<byte>>)
    ensures var events := Exchange(frame, delay, polls, captured, payload);
      && events[0] == Wrote(frame)
      && (|events| > 1 && events[1] == Slept(delay) <==> delay > 0)
      && forall i, j :: 0 < i < |events| && 0 <= j < |events| && events[i].Wrote? && events[j].ReadOne? ==> j < i
  {
    var events := Exchange(frame, delay, polls, captured, payload);
    var before := [Wrote(frame)] + Settle(delay) + Polls(polls);
    var upto := before + Reads(captured);
    assert events == upto + PayloadEvents(payload);
    forall k | 0 < k < |upto|
      ensures !events[k].Wrote?
    {
      if k < 1 + |Settle(delay)| {
        assert events[k] == Settle(delay)[k - 1];
      } else if k < |before| {
        assert events[k] == Polls(polls)[k - 1 - |Settle(delay)|];
        PollsAt(polls, k - 1 - |Settle(delay)|);
      } else {
        assert events[k] == Reads(captured)[k - |before|];
        ReadsAt(captured, k - |before|);
      }
    }
    forall k | |upto| <= k < |events|
      ensures !events[k].ReadOne?
    {
      assert events[k] == PayloadEvents(payload)[k - |upto|];
    }
    if delay == 0 && polls > 0 {
      assert events[1] == Polls(polls)[0];
      PollsAt(polls, 0);
    }
    if delay == 0 && polls == 0 && |captured| > 0 {
      assert events[1] == Reads(captured)[0];
      ReadsAt(captured, 0);
    }
  }

  // ---------------------------------------------------------------------------
  // The port

  class Port {
    /** Received and not yet read (`in_waiting` is its length). */
    var pending: seq<byte>
    /** Still on their way. */
    var schedule: seq<Arrival>
    /** Milliseconds. */
    var clock: nat
    /** Everything done on the port, oldest first. */
    var trace: seq<Event>

    /** Every arrival whose time has come has been delivered. */
    ghost predicate Valid()
      reads this
    {
      schedule == [] || schedule[0].at > clock
    }

    constructor (incoming: seq<Arrival>, now: nat)
      requires incoming == [] || incoming[0].at > now
      ensures Valid()
      ensures pending == [] && schedule == incoming && clock == now && trace == []
    {
      pending, schedule, clock, trace := [], incoming, now, [];
    }

    /** `ser.inWaiting()`. */
    method InWaiting() returns (n: nat)
      ensures n == |pending|
    {
      n := |pending|;
    }

    /** `ser.read()[0]`: the oldest received byte. */
    method Read() returns (b: byte)
      requires pending != []
      modifies this
      ensures b == old(pending)[0] && pending == old(pending)[1..]
      ensures trace == old(trace) + [ReadOne(b)]
      ensures schedule == old(schedule) && clock == old(clock)
    {
      b := pending[0];
      pending := pending[1..];
      trace := trace + [ReadOne(b)];
    }

    /** `ser.write(data)`. */
    method WriteBytes(data: seq<byte>)
      modifies this
      ensures trace == old(trace) + [Wrote(data)]
      ensures pending == old(pending) && schedule == old(schedule) && clock == old(clock)
    {
      trace := trace + [Wrote(data)];
    }

    /** `time.sleep(ms / 1000)`: the clock moves on and what has arrived in
        the meantime is appended to the pending bytes. */
    method Sleep(ms: nat)
      requires Valid()
      modifies this
      ensures Valid()
      ensures clock == old(clock) + ms
      ensures pending == old(pending) + Delivered(old(schedule), clock)
      ensures schedule == Undelivered(old(schedule), clock)
      ensures trace == old(trace) + [Slept(ms)]
    {
      clock := clock + ms;
      pending := pending + Delivered(schedule, clock);
      schedule := Undelivered(schedule, clock);
      trace := trace + [Slept(ms)];
    }
  }

  // ---------------------------------------------------------------------------
  // write

  /** The clock reading at which the arrival wait of an exchange that begins
      polling at `start` stops. */
  function StopTime(pending: seq<byte>, schedule: seq<Arrival>, start: nat): (stop: nat)
    ensures start <= stop
  {
    WaitEnd(pending, schedule, start, start)
  }

  /** The number of polls of that wait. */
  function PollCount(pending: seq<byte>, schedule: seq<Arrival>, start: nat): nat
  {
    (StopTime(pending, schedule, start) - start) / PollInterval
  }

  /** The bytes such an exchange reads back. */
  function Captured(pending: seq<byte>, schedule: seq<Arrival>, start: nat): seq<byte>
  {
    Waiting(pending, schedule, StopTime(pending, schedule, start))
  }

  /** When nothing has arrived one second after polling began, the exchange
      reads nothing back. */
  lemma NothingCaptured(pending: seq<byte>, schedule: seq<Arrival>, start: nat)
    requires Waiting(pending, schedule, start + ArrivalBudget) == []
    ensures Captured(pending, schedule, start) == []
  {
    NothingArrives(pending, schedule, start);
  }

  /** With a codec that decodes no bytes to the empty text, an exchange
      that gets no reply within the second decodes to `""`. */
  lemma QuietReply(codec: Codec, pending: seq<byte>, schedule: seq<Arrival>, start: nat)
    requires codec.decode([]) == Some("")
    ensures Waiting(pending, schedule, start + ArrivalBudget) == []
            ==> codec.decode(Captured(pending, schedule, start)) == Some("")
  {
    if Waiting(pending, schedule, start + ArrivalBudget) == [] {
      NothingCaptured(pending, schedule, start);
    }
  }

  /** Waiting to poll from `start` after some of the schedule has already
      been delivered by `c` is waiting from the state before. */
  lemma {:induction false} WaitEndShift(pending: seq<byte>, schedule: seq<Arrival>, c: nat, start: nat, now: nat)
    requires c <= start <= now
    ensures WaitEnd(pending + Delivered(schedule, c), Undelivered(schedule, c), start, now)
         == WaitEnd(pending, schedule, start, now)
    decreases ArrivalBudget - (now - start)
  {
    DeliveredInSteps(schedule, c, now);
    Assoc(pending, Delivered(schedule, c), Delivered(Undelivered(schedule, c), now));
    assert Waiting(pending + Delivered(schedule, c), Undelivered(schedule, c), now) == Waiting(pending, schedule, now);
    if Waiting(pending, schedule, now) == [] && now - start < ArrivalBudget {
      WaitEndShift(pending, schedule, c, start, now + PollInterval);
    }
  }

  /** The arrival wait: poll every 50 ms while nothing is waiting and less
      than a second has gone by. Nothing is read. */
  method AwaitReply(ser: Port)
    requires ser.Valid()
    modifies ser
    ensures ser.Valid()
    ensures ser.clock == StopTime(old(ser.pending), old(ser.schedule), old(ser.clock))
    ensures ser.pending == Waiting(old(ser.pending), old(ser.schedule), ser.clock)
    ensures ser.schedule == Undelivered(old(ser.schedule), ser.clock)
    ensures ser.trace == old(ser.trace) + Polls(PollCount(old(ser.pending), old(ser.schedule), old(ser.clock)))
  {
    ghost var p0, s0, t0 := ser.pending, ser.schedule, ser.trace;
    NothingDue(s0, ser.clock);
    var start := ser.clock;
    var elapsed := 0;
    ghost var polls := 0;
    var waiting := ser.InWaiting();
    while waiting == 0 && elapsed < ArrivalBudget
      invariant ser.Valid()
      invariant ser.clock == start + elapsed && elapsed == PollInterval * polls
      invariant ser.pending == Waiting(p0, s0, ser.clock)
      invariant ser.schedule == Undelivered(s0, ser.clock)
      invariant waiting == |ser.pending|
      invariant WaitEnd(p0, s0, start, ser.clock) == StopTime(p0, s0, start)
      invariant ser.trace == t0 + Polls(polls)
      decreases ArrivalBudget - elapsed
    {
      ghost var before := ser.clock;
      ser.Sleep(PollInterval);
      assert ser.pending == Waiting(p0, s0, ser.clock) by {
        DeliveredInSteps(s0, before, ser.clock);
        Assoc(p0, Delivered(s0, before), Delivered(Undelivered(s0, before), ser.clock));
      }
      assert ser.schedule == Undelivered(s0, ser.clock) by {
        DeliveredInSteps(s0, before, ser.clock);
      }
      assert ser.trace == t0 + Polls(polls + 1) by {
        Assoc(t0, Polls(polls), [Slept(PollInterval)]);
      }
      elapsed := ser.clock - start;
      polls := polls + 1;
      waiting := ser.InWaiting();
    }
    assert (ser.clock - start) / PollInterval == polls;
  }

  /** The drain: read every waiting byte, oldest first. */
  method Drain(ser: Port) returns (received: seq<byte>)
    modifies ser
    ensures received == old(ser.pending) && ser.pending == []
    ensures ser.clock == old(ser.clock) && ser.schedule == old(ser.schedule)
    ensures ser.trace == old(ser.trace) + Reads(received)
  {
    received := [];
    var waiting := ser.InWaiting();
    while waiting > 0
      invariant |received| <= |old(ser.pending)|
      invariant received == old(ser.pending)[..|received|]
      invariant ser.pending == old(ser.pending)[|received|..]
      invariant waiting == |ser.pending|
      invariant ser.clock == old(ser.clock) && ser.schedule == old(ser.schedule)
      invariant ser.trace == old(ser.trace) + Reads(received)
      decreases |ser.pending|
    {
      var b := ser.Read();
      ghost var before := received;
      received := received + [b];
      assert ser.trace == old(ser.trace) + Reads(received) by {
        assert received[..|received| - 1] == before;
        Assoc(old(ser.trace), Reads(before), [ReadOne(b)]);
      }
      waiting := ser.InWaiting();
    }
    assert received == old(ser.pending);
  }

  /** The opening step: write the framed command, then settle for `delay`
      when it is positive. */
  method SendCommand(ser: Port, frame: seq<byte>, delay: nat)
    requires ser.Valid()
    modifies ser
    ensures ser.Valid()
    ensures ser.clock == old(ser.clock) + delay
    ensures ser.pending == old(ser.pending) + Delivered(old(ser.schedule), ser.clock)
    ensures ser.schedule == Undelivered(old(ser.schedule), ser.clock)
    ensures ser.trace == old(ser.trace) + [Wrote(frame)] + Settle(delay)
  {
    NothingDue(ser.schedule, ser.clock);
    ser.WriteBytes(frame);
    if delay > 0 {
      ser.Sleep(delay);
    } else {
      assert ser.trace + Settle(delay) == ser.trace;
    }
  }

  /** The pieces of an exchange, appended to a trace one after the other. */
  lemma ExchangeInPieces(t0: seq<Event>, frame: seq<byte>, delay: nat, polls: nat, captured: seq<byte>,
                         payload: Option<seq<byte>>)
    ensures t0 + [Wrote(frame)] + Settle(delay) + Polls(polls) + Reads(captured) + PayloadEvents(payload)
         == t0 + Exchange(frame, delay, polls, captured, payload)
  {
    Assoc(t0, [Wrote(frame)], Settle(delay));
    Assoc(t0, [Wrote(frame)] + Settle(delay), Polls(polls));
    Assoc(t0, [Wrote(frame)] + Settle(delay) + Polls(polls), Reads(captured));
    Assoc(t0, [Wrote(frame)] + Settle(delay) + Polls(polls) + Reads(captured), PayloadEvents(payload));
  }

  /** The payload step: pause, write the payload, pause again. */
  method SendPayload(ser: Port, payload: seq<byte>)
    requires ser.Valid()
    modifies ser
    ensures ser.Valid()
    ensures ser.clock == old(ser.clock) + 2 * PayloadSettle
    ensures ser.pending == old(ser.pending) + Delivered(old(ser.schedule), ser.clock)
    ensures ser.schedule == Undelivered(old(ser.schedule), ser.clock)
    ensures ser.trace == old(ser.trace) + PayloadEvents(Some(payload))
  {
    ghost var p0, s0, c0, t0 := ser.pending, ser.schedule, ser.clock, ser.trace;
    ghost var c1, c2 := c0 + PayloadSettle, c0 + 2 * PayloadSettle;
    ser.Sleep(PayloadSettle);
    ser.WriteBytes(payload);
    ghost var p1, s1 := ser.pending, ser.schedule;
    assert p1 == p0 + Delivered(s0, c1) && s1 == Undelivered(s0, c1);
    ser.Sleep(PayloadSettle);
    assert ser.pending == p1 + Delivered(s1, c2);
    assert ser.pending == p0 + Delivered(s0, c2) by {
      DeliveredInSteps(s0, c1, c2);
      Assoc(p0, Delivered(s0, c1), Delivered(s1, c2));
    }
    assert ser.schedule == Undelivered(s0, c2) by {
      DeliveredInSteps(s0, c1, c2);
    }
    assert ser.trace == t0 + PayloadEvents(Some(payload)) by {
      var a, b, c := [Slept(PayloadSettle)], [Wrote(payload)], [Slept(PayloadSettle)];
      assert ser.trace == t0 + a + b + c;
      Assoc(t0 + a, b, c);
      Assoc(t0, a, b + c);
      assert a + (b + c) == PayloadEvents(Some(payload));
    }
  }

  /** The end of `write`: the payload step when there is a payload, and
      nothing otherwise. */
  method FinishPayload(ser: Port, payload: Option<seq<byte>>)
    requires ser.Valid()
    modifies ser
    ensures ser.Valid()
    ensures ser.clock == old(ser.clock) + (if payload.Some? then 2 * PayloadSettle else 0)
    ensures ser.pending == old(ser.pending) + Delivered(old(ser.schedule), ser.clock)
    ensures ser.schedule == Undelivered(old(ser.schedule), ser.clock)
    ensures ser.trace == old(ser.trace) + PayloadEvents(payload)
  {
    if payload.Some? {
      SendPayload(ser, payload.value);
    } else {
      NothingDue(ser.schedule, ser.clock);
      assert ser.pending + [] == ser.pending;
      assert ser.trace + [] == ser.trace;
    }
  }

  /** The command half of `write`: send the framed command, settle, wait
      for the reply, and read everything that has arrived by then. */
  method SendAndCapture(ser: Port, frame: seq<byte>, delay: nat) returns (received: seq<byte>)
    requires ser.Valid()
    modifies ser
    ensures ser.Valid()
    ensures received == Captured(old(ser.pending), old(ser.schedule), old(ser.clock) + delay)
    ensures ser.clock == StopTime(old(ser.pending), old(ser.schedule), old(ser.clock) + delay)
    ensures ser.pending == [] && ser.schedule == Undelivered(old(ser.schedule), ser.clock)
    ensures ser.trace == old(ser.trace) + [Wrote(frame)] + Settle(delay)
      + Polls(PollCount(old(ser.pending), old(ser.schedule), old(ser.clock) + delay)) + Reads(received)
  {
    ghost var p0, s0, c0 := ser.pending, ser.schedule, ser.clock;
    ghost var start := c0 + delay;
    ghost var stop := StopTime(p0, s0, start);
    SendCommand(ser, frame, delay);
    ghost var p1, s1 := ser.pending, ser.schedule;
    assert ser.clock == start && p1 == p0 + Delivered(s0, start) && s1 == Undelivered(s0, start);
    assert StopTime(p1, s1, start) == stop && PollCount(p1, s1, start) == PollCount(p0, s0, start) by {
      WaitEndShift(p0, s0, start, start, start);
    }
    AwaitReply(ser);
    assert ser.clock == stop;
    assert ser.pending == p1 + Delivered(s1, stop);
    assert ser.schedule == Undelivered(s1, stop);
    assert ser.pending == p0 + Delivered(s0, stop) by {
      DeliveredInSteps(s0, start, stop);
      Assoc(p0, Delivered(s0, start), Delivered(s1, stop));
    }
    assert ser.schedule == Undelivered(s0, stop) by {
      DeliveredInSteps(s0, start, stop);
    }
    received := Drain(ser);
    assert received == Captured(p0, s0, start);
  }

  /** `write(ser, cmd, moredata, delay)` with `delay` in milliseconds. The
      result is `None` where decoding the captured bytes fails (the source
      raises, and the payload is then not written). Decoding no bytes gives
      the empty text, as UTF-8 does, so an exchange that captures nothing
      returns `""`; one that gets no reply within the second captures
      nothing (`NothingCaptured`). */
  method Write(ser: Port, cmd: string, moredata: Option<string>, delay: nat, codec: Codec)
    returns (out: Option<string>)
    requires ser.Valid()
    requires codec.decode([]) == Some("")
    modifies ser
    ensures ser.Valid()
    ensures out == codec.decode(Captured(old(ser.pending), old(ser.schedule), old(ser.clock) + delay))
    ensures Captured(old(ser.pending), old(ser.schedule), old(ser.clock) + delay) == [] ==> out == Some("")
    ensures ser.trace == old(ser.trace)
      + Exchange(codec.encode(cmd + "\r\n"), delay,
                 PollCount(old(ser.pending), old(ser.schedule), old(ser.clock) + delay),
                 Captured(old(ser.pending), old(ser.schedule), old(ser.clock) + delay),
                 if out.Some? && moredata.Some? then Some(codec.encode(moredata.value)) else None)
    ensures ser.clock == StopTime(old(ser.pending), old(ser.schedule), old(ser.clock) + delay)
                         + (if out.Some? && moredata.Some? then 2 * PayloadSettle else 0)
    ensures ser.pending == Delivered(Undelivered(old(ser.schedule), StopTime(old(ser.pending), old(ser.schedule), old(ser.clock) + delay)), ser.clock)
    ensures ser.schedule == Undelivered(old(ser.schedule), ser.clock)
  {
    ghost var p0, s0, t0 := ser.pending, ser.schedule, ser.trace;
    ghost var start := ser.clock + delay;
    ghost var stop := StopTime(p0, s0, start);
    ghost var polls := PollCount(p0, s0, start);
    var frame := codec.encode(cmd + "\r\n");
    var received := SendAndCapture(ser, frame, delay);
    assert received == Captured(p0, s0, start);
    ghost var t1 := ser.trace;
    assert t1 == t0 + [Wrote(frame)] + Settle(delay) + Polls(polls) + Reads(received);
    out := codec.decode(received);
    var payload := if out.Some? && moredata.Some? then Some(codec.encode(moredata.value)) else None;
    ghost var rest := ser.schedule;
    assert ser.clock == stop;
    FinishPayload(ser, payload);
    assert stop <= ser.clock;
    assert ser.trace == t0 + Exchange(frame, delay, polls, received, payload) by {
      assert ser.trace == t1 + PayloadEvents(payload);
      ExchangeInPieces(t0, frame, delay, polls, received, payload);
    }
    assert ser.pending == Delivered(rest, ser.clock) by {
      assert [] + Delivered(rest, ser.clock) == Delivered(rest, ser.clock);
    }
    assert ser.schedule == Undelivered(s0, ser.clock) by {
      DeliveredInSteps(s0, stop, ser.clock);
    }
  }
}
