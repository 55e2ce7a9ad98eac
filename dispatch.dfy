/**
 * The dispatcher's message table as a value, and the two events that change
 * it. The table maps an acknowledgment number to the packets handed to the
 * message registered under it, in the order they were handed over.
 */
module Dispatch {
  import opened Packets

  type Table = map<uint32, seq<TcpPacket>>

  /** The two inputs of the dispatcher loop: a packet from the capture queue,
      or the notice that the message with this acknowledgment number has
      completed or expired. */
  datatype Event = Arrived(p: TcpPacket) | Finished(ack: uint32)

  /** A packet event: register a new message under the packet's ack when
      there is none, then hand the packet to the message under that ack. */
  function AfterPacket(t: Table, p: TcpPacket): (r: Table)
    ensures r.Keys == t.Keys + {AckOf(p)}
  {
    var k := AckOf(p);
    if k in t then t[k := t[k] + [p]] else t[k := [p]]
  }

  /** A packet event adds at most the packet's own ack to the table, reuses
      the message already registered there, and changes no other entry. */
  lemma PacketEvent(t: Table, p: TcpPacket)
    ensures AfterPacket(t, p).Keys == t.Keys + {AckOf(p)}
    ensures |AfterPacket(t, p)| == if AckOf(p) in t then |t| else |t| + 1
    ensures forall k :: k in t && k != AckOf(p) ==> AfterPacket(t, p)[k] == t[k]
    ensures AckOf(p) in t ==> AfterPacket(t, p)[AckOf(p)] == t[AckOf(p)] + [p]
    ensures AckOf(p) !in t ==> AfterPacket(t, p)[AckOf(p)] == [p]
  {
  }

  /** A completion event: remove the finished message's ack. */
  function AfterCompletion(t: Table, ack: uint32): (r: Table)
    ensures r.Keys == t.Keys - {ack}
  {
    t - {ack}
  }

  /** A completion event removes exactly the finished ack, changes no other
      entry, and is a no-op when the ack is not registered. */
  lemma CompletionEvent(t: Table, ack: uint32)
    ensures AfterCompletion(t, ack).Keys == t.Keys - {ack}
    ensures forall k :: k in AfterCompletion(t, ack) ==> AfterCompletion(t, ack)[k] == t[k]
    ensures ack in t ==> |AfterCompletion(t, ack)| == |t| - 1
    ensures ack !in t ==> AfterCompletion(t, ack) == t
  {
  }

  /** One event of the dispatcher loop: a packet event leaves its ack
      registered, a completion event leaves its ack unregistered, and no
      other ack is added. */
  function Step(t: Table, e: Event): (r: Table)
    ensures e.Arrived? ==> AckOf(e.p) in r && r.Keys <= t.Keys + {AckOf(e.p)}
    ensures e.Finished? ==> e.ack !in r && r.Keys <= t.Keys
  {
    match e
    case Arrived(p) => AfterPacket(t, p)
    case Finished(ack) => AfterCompletion(t, ack)
  }

  /** The table after the dispatcher has handled `es`, one event at a time.
      It only ever holds acks it started with or acks of arrived packets. */
  function Run(t: Table, es: seq<Event>): (r: Table)
    ensures forall k :: k in r ==> k in t || exists p :: Arrived(p) in es && AckOf(p) == k
  {
    if es == [] then t else Step(Run(t, es[..|es| - 1]), es[|es| - 1])
  }

  lemma RunAppend(t: Table, es: seq<Event>, e: Event)
    ensures Run(t, es + [e]) == Step(Run(t, es), e)
  {
    assert (es + [e])[..|es|] == es;
  }

  /** A message handed to the delivery queue: its ack and its packets. */
  datatype Delivery = Delivery(ack: uint32, packets: seq<TcpPacket>)

  /** The messages a run of `es` from `t` hands to the delivery queue, in
      order: at each completion event whose ack is registered, the entry
      registered under it. */
  function Delivered(t: Table, es: seq<Event>): seq<Delivery> {
    if es == [] then []
    else
      var n := |es| - 1;
      Delivered(t, es[..n]) + DeliveredBy(Run(t, es[..n]), es[n])
  }

  function DeliveredBy(t: Table, e: Event): seq<Delivery> {
    match e
    case Finished(k) => if k in t then [Delivery(k, t[k])] else []
    case Arrived(_) => []
  }

  lemma DeliveredAppend(t: Table, es: seq<Event>, e: Event)
    ensures Delivered(t, es + [e]) == Delivered(t, es) + DeliveredBy(Run(t, es), e)
  {
    assert (es + [e])[..|es|] == es;
  }

  /** One more event carries a table and a delivery list that follow a run
      over to the run extended by that event. */
  lemma Advance(t0: Table, es: seq<Event>, e: Event, d0: seq<Delivery>,
                t: Table, d: seq<Delivery>, t': Table, d': seq<Delivery>)
    requires t == Run(t0, es) && d == d0 + Delivered(t0, es)
    requires t' == Step(t, e) && d' == d + DeliveredBy(t, e)
    ensures t' == Run(t0, es + [e]) && d' == d0 + Delivered(t0, es + [e])
  {
    RunAppend(t0, es, e);
    DeliveredAppend(t0, es, e);
  }

  /** A completion of a registered ack delivers one message: the one under
      that ack, holding the packets it kept from the start (only if the ack
      had never completed) followed by every packet with that ack that
      arrived since its last completion, in arrival order. */
  lemma DeliveryContents(t: Table, es: seq<Event>, k: uint32)
    requires k in Run(t, es)
    ensures Delivered(t, es + [Finished(k)]) ==
      Delivered(t, es) + [Delivery(k, (if Finished(k) !in es && k in t then t[k] else []) + Since(es, k))]
  {
    DeliveredAppend(t, es, Finished(k));
    RunAt(t, es, k);
  }

  /** A completion of an ack that is not registered delivers nothing. */
  lemma NoDeliveryWhenAbsent(t: Table, es: seq<Event>, k: uint32)
    requires k !in Run(t, es)
    ensures Delivered(t, es + [Finished(k)]) == Delivered(t, es)
  {
    DeliveredAppend(t, es, Finished(k));
  }

  /** The packets of the packet events of `es`, in order. */
  function Arrivals(es: seq<Event>): (ps: seq<TcpPacket>)
    ensures forall p :: p in ps <==> Arrived(p) in es
  {
    if es == [] then []
    else
      var n := |es| - 1;
      match es[n]
      case Arrived(p) => Arrivals(es[..n]) + [p]
      case Finished(_) => Arrivals(es[..n])
  }

  /** The packets of `ps` that carry acknowledgment number `k`, in order. */
  function WithAck(ps: seq<TcpPacket>, k: uint32): (r: seq<TcpPacket>)
    ensures forall i :: 0 <= i < |r| ==> AckOf(r[i]) == k
  {
    if ps == [] then []
    else
      var n := |ps| - 1;
      if AckOf(ps[n]) == k then WithAck(ps[..n], k) + [ps[n]] else WithAck(ps[..n], k)
  }

  /** The events of `es` after the last completion of `k`; all of `es` when
      `k` never completes in it. */
  function SinceLastFinish(es: seq<Event>, k: uint32): seq<Event> {
    if es == [] then []
    else
      var n := |es| - 1;
      if es[n] == Finished(k) then [] else SinceLastFinish(es[..n], k) + [es[n]]
  }

  /** The packets with ack `k` that arrived after the last completion of `k`. */
  function Since(es: seq<Event>, k: uint32): seq<TcpPacket> {
    WithAck(Arrivals(SinceLastFinish(es, k)), k)
  }

  /** `r` holds under `k` what a run of `es` from `t` should leave there:
      `k` is present exactly when it was kept from `t` (present and never
      completed) or packets with ack `k` arrived after its last completion,
      and its entry is the kept one followed by those packets. */
  ghost predicate Describes(r: Table, t: Table, es: seq<Event>, k: uint32) {
    var kept := Finished(k) !in es && k in t;
    && (k in r <==> kept || Since(es, k) != [])
    && (k in r ==> r[k] == (if kept then t[k] else []) + Since(es, k))
  }

  /** What the table holds under any ack after any run of events: the ack is
      present exactly when it was present at the start and never completed,
      or some packet with that ack arrived after its last completion; and
      its message holds the packets it held at the start (only if it never
      completed) followed by the packets with that ack that arrived since,
      in arrival order. */
  lemma {:induction false} RunAt(t: Table, es: seq<Event>, k: uint32)
    ensures k in Run(t, es) <==> (Finished(k) !in es && k in t) || Since(es, k) != []
    ensures k in Run(t, es) ==>
      Run(t, es)[k] == (if Finished(k) !in es && k in t then t[k] else []) + Since(es, k)
  {
    RunDescribes(t, es, k);
  }

  lemma {:induction false} RunDescribes(t: Table, es: seq<Event>, k: uint32)
    ensures Describes(Run(t, es), t, es, k)
  {
    if es != [] {
      var n := |es| - 1;
      RunDescribes(t, es[..n], k);
      assert es == es[..n] + [es[n]];
      RunAppend(t, es[..n], es[n]);
      StepDescribes(Run(t, es[..n]), t, es[..n], es[n], k);
    }
  }

  lemma StepDescribes(r: Table, t: Table, es: seq<Event>, e: Event, k: uint32)
    requires Describes(r, t, es, k)
    ensures Describes(Step(r, e), t, es + [e], k)
  {
    var es' := es + [e];
    assert es'[..|es|] == es;
    assert Finished(k) in es' <==> Finished(k) in es || e == Finished(k);
    match e
    case Arrived(p) =>
      SinceArrived(es', k);
      if AckOf(p) == k {
        ArrivedSameAck(r, t, es, p, k);
      } else {
        PacketEvent(r, p);
      }
    case Finished(j) =>
      CompletionEvent(r, j);
      if j != k {
        SinceOtherFinished(es', k);
      }
  }

  lemma ArrivedSameAck(r: Table, t: Table, es: seq<Event>, p: TcpPacket, k: uint32)
    requires Describes(r, t, es, k)
    requires AckOf(p) == k
    requires Finished(k) in es + [Arrived(p)] <==> Finished(k) in es
    requires Since(es + [Arrived(p)], k) == Since(es, k) + [p]
    ensures Describes(AfterPacket(r, p), t, es + [Arrived(p)], k)
  {
    var kept := Finished(k) !in es && k in t;
    AppendAt(r, p, kept, if k in t then t[k] else [], Since(es, k));
  }

  lemma AppendAt(r: Table, p: TcpPacket, kept: bool, base: seq<TcpPacket>, s: seq<TcpPacket>)
    requires AckOf(p) in r <==> kept || s != []
    requires AckOf(p) in r ==> r[AckOf(p)] == (if kept then base else []) + s
    ensures AckOf(p) in AfterPacket(r, p)
    ensures AfterPacket(r, p)[AckOf(p)] == (if kept then base else []) + (s + [p])
  {
    if AckOf(p) !in r {
      assert s == [];
    }
  }

  lemma SinceArrived(es: seq<Event>, k: uint32)
    requires es != [] && es[|es| - 1].Arrived?
    ensures var p := es[|es| - 1].p;
            Since(es, k) == Since(es[..|es| - 1], k) + (if AckOf(p) == k then [p] else [])
  {
    var n := |es| - 1;
    var s := SinceLastFinish(es, k);
    assert s == SinceLastFinish(es[..n], k) + [es[n]];
    assert s[..|s| - 1] == SinceLastFinish(es[..n], k);
    var a := Arrivals(s);
    assert a == Arrivals(SinceLastFinish(es[..n], k)) + [es[n].p];
    assert a[..|a| - 1] == Arrivals(SinceLastFinish(es[..n], k));
  }

  lemma SinceOtherFinished(es: seq<Event>, k: uint32)
    requires es != [] && es[|es| - 1].Finished? && es[|es| - 1].ack != k
    ensures Since(es, k) == Since(es[..|es| - 1], k)
  {
    var n := |es| - 1;
    var s := SinceLastFinish(es, k);
    assert s == SinceLastFinish(es[..n], k) + [es[n]];
    assert s[..|s| - 1] == SinceLastFinish(es[..n], k);
  }

  /** The event sequence in which `ps` arrive, with no completion. */
  function Arrive(ps: seq<TcpPacket>): seq<Event> {
    seq(|ps|, i requires 0 <= i < |ps| => Arrived(ps[i]))
  }

  /** Packets only, from an empty table: every packet is handed to the
      message registered under its own ack, in arrival order, and there is
      exactly one message per ack seen. */
  lemma {:induction false} PacketsGroupedByAck(ps: seq<TcpPacket>, k: uint32)
    ensures k in Run(map[], Arrive(ps)) <==> exists i :: 0 <= i < |ps| && AckOf(ps[i]) == k
    ensures k in Run(map[], Arrive(ps)) ==> Run(map[], Arrive(ps))[k] == WithAck(ps, k)
  {
    ArrivalsOfArrive(ps, k);
    RunAt(map[], Arrive(ps), k);
    WithAckEmpty(ps, k);
  }

  lemma {:induction false} ArrivalsOfArrive(ps: seq<TcpPacket>, k: uint32)
    ensures Arrivals(Arrive(ps)) == ps
    ensures SinceLastFinish(Arrive(ps), k) == Arrive(ps)
    ensures Finished(k) !in Arrive(ps)
  {
    if ps != [] {
      var n := |ps| - 1;
      assert Arrive(ps)[..n] == Arrive(ps[..n]);
      ArrivalsOfArrive(ps[..n], k);
      assert ps == ps[..n] + [ps[n]];
      assert Arrive(ps) == Arrive(ps[..n]) + [Arrived(ps[n])];
    }
  }

  lemma {:induction false} WithAckEmpty(ps: seq<TcpPacket>, k: uint32)
    ensures WithAck(ps, k) == [] <==> forall i :: 0 <= i < |ps| ==> AckOf(ps[i]) != k
  {
    if ps != [] {
      var n := |ps| - 1;
      WithAckEmpty(ps[..n], k);
      assert forall i :: 0 <= i < n ==> ps[..n][i] == ps[i];
    }
  }

  /** The table grows by at most one entry per packet event. */
  lemma {:induction false} RunSize(t: Table, es: seq<Event>)
    ensures |Run(t, es)| <= |t| + |Arrivals(es)|
  {
    if es != [] {
      var n := |es| - 1;
      RunSize(t, es[..n]);
      match es[n]
      case Arrived(p) =>
      case Finished(ack) =>
        var prev := Run(t, es[..n]);
        assert |AfterCompletion(prev, ack).Keys| <= |prev.Keys| by {
          assert AfterCompletion(prev, ack).Keys <= prev.Keys;
          SubsetSize(AfterCompletion(prev, ack).Keys, prev.Keys);
        }
    }
  }

  lemma SubsetSize<T>(a: set<T>, b: set<T>)
    requires a <= b
    ensures |a| <= |b|
  {
    assert b == a + (b - a);
  }
}
