/** The loop of pubsub watch: events are handed on until enough have come, the context ends or the
    subscription closes. */
module Watch {
  import opened Bytes
  import opened Hex
  import opened WireJson
  import opened WireValue
  import Codec

  datatype Event = Event(publisher: bytes, topic: string, number: nat, publishedAt: nat, via: string, payload: Value)

  /** What the select finds ready next. */
  datatype Arrival = Came(event: Event) | Closed | Cancelled

  datatype Heard = Heard(publisher: string, topic: string, number: nat, publishedAt: nat, via: string, payload: string)

  /** t is the event as it is handed on. */
  ghost predicate Tells(h: Host, e: Event, t: Heard) {
    && t == Heard(EncodeHex(e.publisher), e.topic, e.number, e.publishedAt, e.via, t.payload)
    && Codec.Prints(h, e.payload, t.payload)
  }

  /** ts are the arrivals, events all of them, in their order. */
  ghost predicate TellsAll(h: Host, arrivals: seq<Arrival>, ts: seq<Heard>) {
    |ts| == |arrivals| && forall i :: 0 <= i < |arrivals| ==> arrivals[i].Came? && Tells(h, arrivals[i].event, ts[i])
  }

  /** Of a payload exactly one text is handed on. */
  lemma PayloadTold(h: Host, e: Event, t: Heard)
    requires IsPayload(e.payload) && Tells(h, e, t)
    ensures t.payload == Print(h, e.payload)
  {
    Codec.PayloadIsWellKeyed(e.payload);
    Codec.PrintsOnlyOne(h, e.payload, t.payload);
  }

  class Listener {
    var heard: seq<Heard>

    constructor ()
      ensures heard == []
    {
      heard := [];
    }

    method Hear(t: Heard)
      modifies this
      ensures heard == old(heard) + [t]
    {
      heard := heard + [t];
    }
  }

  /** The run comes to an end: enough events, or something that is none. */
  ghost predicate Ends(arrivals: seq<Arrival>, count: int) {
    count < 0 || (0 < count <= |arrivals|) || exists i :: 0 <= i < |arrivals| && !arrivals[i].Came?
  }

  method HandOn(h: Host, e: Event, listener: Listener) returns (ghost t: Heard)
    modifies listener
    ensures listener.heard == old(listener.heard) + [t] && Tells(h, e, t)
  {
    var payload := Codec.ToJson(h, e.payload);
    var told := Heard(EncodeHex(e.publisher), e.topic, e.number, e.publishedAt, e.via, payload);
    listener.Hear(told);
    t := told;
  }

  /** `watch`: exactly the first n arrivals, all of them events, are handed on in order; n is count when
      that many came first, and otherwise what follows them is the end of context or subscription. */
  method WatchTopic(h: Host, subscribed: bool, arrivals: seq<Arrival>, count: int, listener: Listener)
    returns (n: nat, ok: bool)
    requires Ends(arrivals, count)
    modifies listener
    ensures ok == subscribed && (!ok ==> n == 0)
    ensures n <= |arrivals| && old(listener.heard) <= listener.heard
    ensures TellsAll(h, arrivals[..n], listener.heard[|old(listener.heard)|..])
    ensures count > 0 ==> n <= count
    ensures count < 0 ==> n == 0
    ensures ok && count >= 0 && (count == 0 || n < count) ==> n < |arrivals| && !arrivals[n].Came?
  {
    n := 0;
    ok := subscribed;
    if !subscribed {
      return;
    }
    ghost var before, ts: seq<Heard> := listener.heard, [];
    while count == 0 || n < count
      invariant n <= |arrivals| && listener.heard == before + ts
      invariant TellsAll(h, arrivals[..n], ts)
      invariant count > 0 ==> n <= count
      invariant count < 0 ==> n == 0
      decreases |arrivals| - n
    {
      if !arrivals[n].Came? {
        return;
      }
      ghost var t := HandOn(h, arrivals[n].event, listener);
      assert before + ts + [t] == before + (ts + [t]);
      ts := ts + [t];
      n := n + 1;
    }
  }
}
