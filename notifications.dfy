/** The observer notifications of the graph. Every Fire* call of the graph
    delivers one event to each registered action handler, in registration
    order; the model records each delivery as a Notification in a log. */
module Notifications {
  import opened Handles

  /** What an action handler is told (ApplyAdd, ApplyDelete, ApplyMerge,
      ApplyGlue, ApplySplit). */
  datatype Event =
    | VertexAdded(vertex: VertexId)
    | EdgeAdded(edge: EdgeId)
    | VertexDeleted(vertex: VertexId)
    | EdgeDeleted(edge: EdgeId)
    | Merged(oldEdges: seq<EdgeId>, newEdge: EdgeId)
    | Glued(newEdge: EdgeId, edge1: EdgeId, edge2: EdgeId)
    | Split(oldEdge: EdgeId, newEdge1: EdgeId, newEdge2: EdgeId)

  datatype Notification = Notification(handler: HandlerId, event: Event)

  /** One delivery of ev per handler, handlers in registration order. */
  function Broadcast(handlers: seq<HandlerId>, ev: Event): (r: seq<Notification>)
    ensures |r| == |handlers|
    ensures forall i :: 0 <= i < |r| ==> r[i] == Notification(handlers[i], ev)
  {
    if handlers == [] then []
    else Broadcast(handlers[..|handlers| - 1], ev) + [Notification(handlers[|handlers| - 1], ev)]
  }

  /** Broadcasting to one more handler delivers one more notification, last. */
  lemma BroadcastSnoc(handlers: seq<HandlerId>, h: HandlerId, ev: Event)
    ensures Broadcast(handlers + [h], ev) == Broadcast(handlers, ev) + [Notification(h, ev)]
  {
  }

  /** The events evs, each broadcast in turn. */
  function BroadcastAll(handlers: seq<HandlerId>, evs: seq<Event>): (r: seq<Notification>)
    ensures |r| == |handlers| * |evs|
  {
    if evs == [] then []
    else BroadcastAll(handlers, evs[..|evs| - 1]) + Broadcast(handlers, evs[|evs| - 1])
  }

  lemma BroadcastAllSnoc(handlers: seq<HandlerId>, evs: seq<Event>, ev: Event)
    ensures BroadcastAll(handlers, evs + [ev]) == BroadcastAll(handlers, evs) + Broadcast(handlers, ev)
  {
    assert (evs + [ev])[..|evs + [ev]| - 1] == evs;
  }

  /** Every delivery in BroadcastAll(handlers, evs) carries one of evs. */
  lemma {:induction false} BroadcastAllEvents(handlers: seq<HandlerId>, evs: seq<Event>, n: Notification)
    requires n in BroadcastAll(handlers, evs)
    ensures n.handler in handlers && n.event in evs
  {
    if evs != [] {
      var p := evs[..|evs| - 1];
      if n in BroadcastAll(handlers, p) {
        BroadcastAllEvents(handlers, p, n);
        assert n.event in evs;
      } else {
        var b := Broadcast(handlers, evs[|evs| - 1]);
        assert n in b;
        var i :| 0 <= i < |b| && b[i] == n;
      }
    }
  }

  function EdgeDeletions(es: seq<EdgeId>): (r: seq<Event>)
    ensures |r| == |es|
    ensures forall i :: 0 <= i < |es| ==> r[i] == EdgeDeleted(es[i])
  {
    if es == [] then [] else EdgeDeletions(es[..|es| - 1]) + [EdgeDeleted(es[|es| - 1])]
  }

  lemma EdgeDeletionsSnoc(es: seq<EdgeId>, e: EdgeId)
    ensures EdgeDeletions(es + [e]) == EdgeDeletions(es) + [EdgeDeleted(e)]
  {
    assert (es + [e])[..|es|] == es;
  }

  /** Deleting one more edge is broadcast after the others. */
  lemma BroadcastDeletionsSnoc(handlers: seq<HandlerId>, es: seq<EdgeId>, e: EdgeId)
    ensures BroadcastAll(handlers, EdgeDeletions(es + [e]))
         == BroadcastAll(handlers, EdgeDeletions(es)) + Broadcast(handlers, EdgeDeleted(e))
  {
    EdgeDeletionsSnoc(es, e);
    BroadcastAllSnoc(handlers, EdgeDeletions(es), EdgeDeleted(e));
  }

  /** Deleting the i-th edge of es, after what was logged before. */
  lemma LogDeletionsStep(log: seq<Notification>, handlers: seq<HandlerId>, es: seq<EdgeId>, i: nat)
    requires i < |es|
    ensures log + BroadcastAll(handlers, EdgeDeletions(es[..i + 1]))
         == (log + BroadcastAll(handlers, EdgeDeletions(es[..i]))) + Broadcast(handlers, EdgeDeleted(es[i]))
  {
    assert es[..i + 1] == es[..i] + [es[i]];
    BroadcastDeletionsSnoc(handlers, es[..i], es[i]);
  }

  /** The corrected DeleteAllOutgoing's log after the i-th edge: it grows
      exactly when the edge is the first of its conjugate pair. */
  lemma LogFirstOfPairsStep(log: seq<Notification>, handlers: seq<HandlerId>, es: seq<EdgeId>, i: nat, m: map<nat, nat>)
    requires i < |es|
    ensures log + BroadcastAll(handlers, EdgeDeletions(FirstOfPairs(es[..i + 1], m)))
         == (log + BroadcastAll(handlers, EdgeDeletions(FirstOfPairs(es[..i], m))))
            + (if es[i] in ConjClosure(Elems(es[..i]), m) then [] else Broadcast(handlers, EdgeDeleted(es[i])))
  {
    assert es[..i + 1] == es[..i] + [es[i]];
    FirstOfPairsSnoc(es[..i], es[i], m);
    if es[i] !in ConjClosure(Elems(es[..i]), m) {
      BroadcastDeletionsSnoc(handlers, FirstOfPairs(es[..i], m), es[i]);
    }
  }

  /** Before the first turn of DeleteAllOutgoing's loop nothing is logged. */
  lemma LogNothing(log: seq<Notification>, handlers: seq<HandlerId>, es: seq<EdgeId>, m: map<nat, nat>)
    ensures log + BroadcastAll(handlers, EdgeDeletions(FirstOfPairs(es[..0], m))) == log
    ensures log + BroadcastAll(handlers, EdgeDeletions(es[..0])) == log
  {
    assert es[..0] == [];
  }

  function VertexDeletions(vs: seq<VertexId>): (r: seq<Event>)
    ensures |r| == |vs|
    ensures forall i :: 0 <= i < |vs| ==> r[i] == VertexDeleted(vs[i])
  {
    if vs == [] then [] else VertexDeletions(vs[..|vs| - 1]) + [VertexDeleted(vs[|vs| - 1])]
  }

  /** Deleting one more edge, after what was logged before. */
  lemma LogEdgeDeletionsSnoc(log: seq<Notification>, handlers: seq<HandlerId>, es: seq<EdgeId>, e: EdgeId)
    ensures log + BroadcastAll(handlers, EdgeDeletions(es + [e]))
         == (log + BroadcastAll(handlers, EdgeDeletions(es))) + Broadcast(handlers, EdgeDeleted(e))
  {
    BroadcastDeletionsSnoc(handlers, es, e);
  }

  /** Deleting one more vertex, after what was logged before. */
  lemma LogVertexDeletionsSnoc(log: seq<Notification>, handlers: seq<HandlerId>, vs: seq<VertexId>, v: VertexId)
    ensures log + BroadcastAll(handlers, VertexDeletions(vs + [v]))
         == (log + BroadcastAll(handlers, VertexDeletions(vs))) + Broadcast(handlers, VertexDeleted(v))
  {
    assert (vs + [v])[..|vs|] == vs;
    BroadcastAllSnoc(handlers, VertexDeletions(vs), VertexDeleted(v));
  }

  /** Broadcasting evs and then fs, event by event. */
  lemma {:induction false} BroadcastAllAppend(handlers: seq<HandlerId>, evs: seq<Event>, fs: seq<Event>)
    ensures BroadcastAll(handlers, evs + fs) == BroadcastAll(handlers, evs) + BroadcastAll(handlers, fs)
    decreases |fs|
  {
    if fs == [] {
      assert evs + fs == evs;
    } else {
      var p, f := fs[..|fs| - 1], fs[|fs| - 1];
      assert fs == p + [f];
      assert evs + fs == (evs + p) + [f];
      var b := Broadcast(handlers, f);
      calc {
        BroadcastAll(handlers, evs + fs);
        { BroadcastAllSnoc(handlers, evs + p, f); }
        BroadcastAll(handlers, evs + p) + b;
        { BroadcastAllAppend(handlers, evs, p); }
        (BroadcastAll(handlers, evs) + BroadcastAll(handlers, p)) + b;
        BroadcastAll(handlers, evs) + (BroadcastAll(handlers, p) + b);
        { BroadcastAllSnoc(handlers, p, f); }
        BroadcastAll(handlers, evs) + BroadcastAll(handlers, fs);
      }
    }
  }

  /** Deleting the vertices of vs and then those of ws. */
  lemma VertexDeletionsAppend(handlers: seq<HandlerId>, vs: seq<VertexId>, ws: seq<VertexId>)
    ensures BroadcastAll(handlers, VertexDeletions(vs + ws))
         == BroadcastAll(handlers, VertexDeletions(vs)) + BroadcastAll(handlers, VertexDeletions(ws))
  {
    assert VertexDeletions(vs + ws) == VertexDeletions(vs) + VertexDeletions(ws);
    BroadcastAllAppend(handlers, VertexDeletions(vs), VertexDeletions(ws));
  }

  /** Deleting the vertices of vs and then those of ws, after what was
      logged before. */
  lemma LogVertexDeletionsAppend(log: seq<Notification>, handlers: seq<HandlerId>, vs: seq<VertexId>, ws: seq<VertexId>)
    ensures (log + BroadcastAll(handlers, VertexDeletions(vs))) + BroadcastAll(handlers, VertexDeletions(ws))
         == log + BroadcastAll(handlers, VertexDeletions(vs + ws))
  {
    var a := BroadcastAll(handlers, VertexDeletions(vs));
    var b := BroadcastAll(handlers, VertexDeletions(ws));
    VertexDeletionsAppend(handlers, vs, ws);
    assert (log + a) + b == log + (a + b);
  }

  /** The graph's action_handler_list_ together with its applier: the
      registered handlers, in registration order, and what they have been told. */
  class Dispatcher {
    const handlers: seq<HandlerId>
    var log: seq<Notification>

    constructor(handlers: seq<HandlerId>)
      ensures this.handlers == handlers && log == []
    {
      this.handlers := handlers;
      log := [];
    }

    /** The Fire* calls: ev is applied to every handler in turn. */
    method Fire(ev: Event)
      modifies this
      ensures log == old(log) + Broadcast(handlers, ev)
    {
      for i := 0 to |handlers|
        invariant log == old(log) + Broadcast(handlers[..i], ev)
      {
        assert handlers[..i + 1][..i] == handlers[..i];
        log := log + [Notification(handlers[i], ev)];
      }
      assert handlers[..|handlers|] == handlers;
    }
  }
}
