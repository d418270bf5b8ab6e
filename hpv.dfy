/**
 * The view-owning state of a HyParView node (src/hpv/mod.rs): its
 * configuration and its active and passive views, each a bounded set of peers.
 */
module Hpv {
  import opened Collections
  import opened BoundedSet

  /** The delivery address a peer is reached through; only its identity matters here. */
  type Recipient(==)

  /** A remote node; two peers are the same exactly when they share a recipient. */
  datatype Peer = Peer(recipient: Recipient)

  /** Tunable protocol parameters (the shuffle timer interval is not modelled). */
  datatype Config = Config(
    maxActiveViewSize: nat,
    maxPassiveViewSize: nat,
    activeRwl: nat,
    passiveRwl: nat,
    shuffleRwl: nat,
    shuffleActive: nat,
    shufflePassive: nat)
  {
    /** The parameters a node starts with. */
    static function Default(): (c: Config)
      ensures c.maxActiveViewSize == 4 && c.maxPassiveViewSize == 4
      ensures c.activeRwl == 3 && c.passiveRwl == 2 && c.shuffleRwl == 1
      ensures c.shuffleActive == 2 && c.shufflePassive == 2
    {
      Config(4, 4, 3, 2, 1, 2, 2)
    }
  }

  /**
   * Inserts the members of `peers` one by one, in iteration order, into `view`;
   * inserts that find the view full are refused.
   */
  method InsertAll<E>(view: SetWithCapacity<E>, peers: set<E>)
    requires view.Valid()
    modifies view
    ensures view.Valid() && view.capacity == old(view.capacity)
    ensures old(view.wraps) <= view.wraps <= old(view.wraps) + peers
    ensures |view.wraps| == Min(view.capacity, |old(view.wraps) + peers|)
    ensures |old(view.wraps) + peers| <= view.capacity ==> peers <= view.wraps
  {
    ghost var start := view.wraps;
    ghost var offered: set<E> := {};
    var order := Enumerate(peers);
    for i := 0 to |order|
      invariant view.Valid() && view.capacity == old(view.capacity)
      invariant offered == Elems(order[..i])
      invariant start <= view.wraps <= start + offered
      invariant |view.wraps| == Min(view.capacity, |start + offered|)
    {
      ghost var before := view.wraps;
      ElemsSnoc(order, i);
      var inserted := view.Insert(order[i]);
      InsertStep(before, view.wraps, start + offered, order[i], view.capacity);
      assert start + offered + {order[i]} == start + (offered + {order[i]});
      offered := offered + {order[i]};
    }
    assert order[..|order|] == order;
    SubsetCard(view.wraps, old(view.wraps) + peers);
  }

  /**
   * One refused-when-full insert keeps a view as large as the capacity allows
   * within everything offered so far.
   */
  lemma InsertStep<E>(before: set<E>, after: set<E>, seen: set<E>, x: E, capacity: nat)
    requires before <= seen && |before| == Min(capacity, |seen|)
    requires after == if |before| < capacity then before + {x} else before
    ensures after <= seen + {x}
    ensures |after| == Min(capacity, |seen + {x}|)
  {
    SubsetCard(before, seen);
    SubsetCard(seen, seen + {x});
  }

  class HyParViewActor {
    var config: Config
    var activeView: SetWithCapacity<Peer>
    var passiveView: SetWithCapacity<Peer>

    /**
     * The views are two separate sets, each within its own capacity, and no
     * capacity exceeds the configured maximum for its view.
     */
    ghost predicate Valid()
      reads this, activeView, passiveView
    {
      && activeView != passiveView
      && activeView.Valid()
      && passiveView.Valid()
      && activeView.capacity <= config.maxActiveViewSize
      && passiveView.capacity <= config.maxPassiveViewSize
    }

    /** A node with the default configuration and two empty views sized by it. */
    constructor Default()
      ensures Valid()
      ensures fresh(activeView) && fresh(passiveView)
      ensures config == Config.Default()
      ensures activeView.wraps == {} && activeView.capacity == config.maxActiveViewSize
      ensures passiveView.wraps == {} && passiveView.capacity == config.maxPassiveViewSize
    {
      var c := Config.Default();
      config := c;
      activeView := new SetWithCapacity.New(c.maxActiveViewSize);
      passiveView := new SetWithCapacity.New(c.maxPassiveViewSize);
    }

    /**
     * Replaces the configuration; the new maximum view sizes may not fall below
     * the views' current capacities, and the views themselves are left as they are.
     */
    method SetConfig(c: Config)
      requires Valid()
      requires c.maxActiveViewSize >= activeView.capacity
      requires c.maxPassiveViewSize >= passiveView.capacity
      modifies this`config
      ensures Valid()
      ensures config == c
      ensures activeView == old(activeView) && passiveView == old(passiveView)
      ensures unchanged(activeView, passiveView)
    {
      config := c;
    }

    /** Offers every peer of `peers` to the passive view. */
    method AddPassiveView(peers: set<Peer>)
      requires Valid()
      modifies passiveView
      ensures Valid()
      ensures passiveView.capacity == old(passiveView.capacity)
      ensures old(passiveView.wraps) <= passiveView.wraps <= old(passiveView.wraps) + peers
      ensures |passiveView.wraps| == Min(passiveView.capacity, |old(passiveView.wraps) + peers|)
      ensures |old(passiveView.wraps) + peers| <= passiveView.capacity ==> peers <= passiveView.wraps
      ensures unchanged(activeView)
    {
      InsertAll(passiveView, peers);
    }

    /** Offers every peer of `peers` to the active view. */
    method AddActiveView(peers: set<Peer>)
      requires Valid()
      modifies activeView
      ensures Valid()
      ensures activeView.capacity == old(activeView.capacity)
      ensures old(activeView.wraps) <= activeView.wraps <= old(activeView.wraps) + peers
      ensures |activeView.wraps| == Min(activeView.capacity, |old(activeView.wraps) + peers|)
      ensures |old(activeView.wraps) + peers| <= activeView.capacity ==> peers <= activeView.wraps
      ensures unchanged(passiveView)
    {
      InsertAll(activeView, peers);
    }

    /** The reply to an inspection request: a copy of both views, taken without changing anything. */
    method Inspect() returns (v: Views)
      requires Valid()
      ensures v.activeView == SetValue(activeView.capacity, activeView.wraps)
      ensures v.passiveView == SetValue(passiveView.capacity, passiveView.wraps)
      ensures |v.activeView.elements| <= v.activeView.capacity
      ensures |v.passiveView.elements| <= v.passiveView.capacity
    {
      v := Views.FromHyParView(this);
    }
  }

  /** A snapshot of a node's two views. */
  datatype Views = Views(activeView: SetValue<Peer>, passiveView: SetValue<Peer>)
  {
    /** Copies the actor's views as they are now; each copy is within its capacity. */
    static function FromHyParView(actor: HyParViewActor): (v: Views)
      reads actor, actor.activeView, actor.passiveView
      requires actor.Valid()
      ensures v.activeView.elements == actor.activeView.wraps
      ensures v.activeView.capacity == actor.activeView.capacity
      ensures v.passiveView.elements == actor.passiveView.wraps
      ensures v.passiveView.capacity == actor.passiveView.capacity
      ensures |v.activeView.elements| <= v.activeView.capacity
      ensures |v.passiveView.elements| <= v.passiveView.capacity
    {
      Views(actor.activeView.Cloned(), actor.passiveView.Cloned())
    }
  }
}
