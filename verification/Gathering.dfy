/**
 * Gathering: the king collects one message from every party, some of which may be late or lost, and
 * afterwards sends one message to each.
 */
module Gathering {
  import opened Results
  import opened ScalarField
  import opened Polynomials
  import opened PackedSharing
  import opened SharedVectors
  import opened RecoveryBound

  datatype NetError = Generic | Protocol(party: nat)

  // ----- receiving

  /** What happens at the king before the timeout: a message arrives, or its connection fails. */
  datatype Event<B> = Arrived(id: nat, bytes: B) | Failed(id: nat)

  datatype Gathered<B> = Full(all: seq<B>) | Partial(some: map<nat, B>)

  /** What has arrived; a later arrival would replace an earlier one. */
  function Stored<B>(events: seq<Event<B>>): map<nat, B> {
    if events == [] then map[]
    else
      var store := Stored(events[..|events| - 1]);
      match events[|events| - 1]
      case Arrived(id, bytes) => store[id := bytes]
      case Failed(_) => store
  }

  /** The arrivals of one run: party id sends the message msgs[id], and never the king itself. */
  ghost predicate Faithful<B>(events: seq<Event<B>>, msgs: seq<B>) {
    forall k :: 0 <= k < |events| && events[k].Arrived?
      ==> 1 <= events[k].id < |msgs| && events[k].bytes == msgs[events[k].id]
  }

  ghost predicate HasArrived<B>(events: seq<Event<B>>, id: nat) {
    exists k :: 0 <= k < |events| && events[k].Arrived? && events[k].id == id
  }

  lemma {:induction false} StoredIs<B>(events: seq<Event<B>>, msgs: seq<B>)
    requires Faithful(events, msgs)
    ensures forall id: nat :: id in Stored(events) <==> HasArrived(events, id)
    ensures forall id: nat :: id in Stored(events) ==> 1 <= id < |msgs| && Stored(events)[id] == msgs[id]
    decreases |events|
  {
    if events != [] {
      var n := |events| - 1;
      StoredIs(events[..n], msgs);
      forall id: nat
        ensures HasArrived(events, id) <==> HasArrived(events[..n], id) || (events[n].Arrived? && events[n].id == id)
      {
        assert forall k :: 0 <= k < n ==> events[..n][k] == events[k];
      }
    }
  }

  /** Stores arrivals as they come, adds the king's own message, and lists them all if none is missing. */
  method ClientSendOrKingReceive<B(==)>(n: nat, own: B, events: seq<Event<B>>, ghost msgs: seq<B>) returns (r: Gathered<B>)
    requires n >= 1 && |msgs| == n && msgs[0] == own && Faithful(events, msgs)
    ensures r.Full? <==> forall id: nat :: 1 <= id < n ==> HasArrived(events, id)
    ensures r.Full? ==> r.all == msgs
    ensures r.Partial? ==> forall id: nat :: id in r.some <==> id == 0 || HasArrived(events, id)
    ensures r.Partial? ==> forall id: nat :: id in r.some ==> id < n && r.some[id] == msgs[id]
  {
    hide HasArrived, Faithful;
    var store: map<nat, B> := map[];
    for k := 0 to |events|
      invariant store == Stored(events[..k])
    {
      assert events[..k + 1][..k] == events[..k];
      match events[k]
      case Arrived(id, bytes) => store := store[id := bytes];
      case Failed(_) =>
    }
    assert events[..|events|] == events;
    StoredIs(events, msgs);
    if 0 !in store {
      store := store[0 := own];
    }
    AllPresent(store, n);
    EveryoneArrived(store, n, events);
    if |store| == n {
      var sorted := [];
      ghost var whole := store;
      for x := 0 to n
        invariant sorted == msgs[..x]
        invariant forall id: nat :: id in store <==> id in whole && id >= x
        invariant forall id: nat :: id in store ==> store[id] == whole[id]
      {
        assert msgs[..x + 1] == msgs[..x] + [msgs[x]];
        sorted := sorted + [store[x]];
        store := store - {x};
      }
      r := Full(sorted);
    } else {
      r := Partial(store);
    }
  }

  lemma EveryoneArrived<B>(store: map<nat, B>, n: nat, events: seq<Event<B>>)
    requires forall id: nat :: id in store <==> id == 0 || HasArrived(events, id)
    ensures (forall id: nat :: 0 <= id < n ==> id in store) <==> (forall id: nat :: 1 <= id < n ==> HasArrived(events, id))
  {
    hide HasArrived;
    if forall id: nat :: 0 <= id < n ==> id in store {
      forall id: nat | 1 <= id < n
        ensures HasArrived(events, id)
      {
        assert id in store;
      }
    }
  }

  function Below(n: nat): (r: set<nat>)
    ensures |r| == n && forall id: nat :: id in r <==> id < n
  {
    if n == 0 then {} else Below(n - 1) + {n - 1}
  }

  /** As many entries as parties means an entry for every party. */
  lemma AllPresent<B>(store: map<nat, B>, n: nat)
    requires forall id: nat :: id in store ==> id < n
    ensures |store| == n <==> forall id: nat :: 0 <= id < n ==> id in store
  {
    var all := Below(n);
    assert store.Keys <= all;
    SubsetFull(store.Keys, all);
  }

  lemma SubsetFull(s: set<nat>, t: set<nat>)
    requires s <= t
    ensures |s| == |t| <==> s == t
  {
    assert t == s + (t - s);
  }

  // ----- decoding

  datatype ReceivedShares<T> = ReceivedShares(shares: seq<T>, parties: seq<nat>)

  /** Party by party, the decoded messages that could be decoded. */
  function Decodable<B, T>(some: map<nat, B>, order: seq<nat>, decode: B -> Option<T>): (r: ReceivedShares<T>)
    requires forall k :: 0 <= k < |order| ==> order[k] in some
    ensures |r.shares| == |r.parties| <= |order|
  {
    if order == [] then ReceivedShares([], [])
    else
      var n := |order| - 1;
      var before := Decodable(some, order[..n], decode);
      match decode(some[order[n]])
      case Some(share) => ReceivedShares(before.shares + [share], before.parties + [order[n]])
      case None => before
  }

  /** The iteration order of a hash map: every key once. */
  ghost predicate Enumerates<B>(some: map<nat, B>, order: seq<nat>) {
    Distinct(order) && forall id: nat :: id in some <==> id in order
  }

  /**
   * A full answer must decode entirely and lists the parties in order; a partial one drops what cannot
   * be decoded and must keep at least the threshold.
   */
  method DecodeGathered<B, T>(n: nat, g: Gathered<B>, decode: B -> Option<T>, threshold: nat, order: seq<nat>)
    returns (r: Result<ReceivedShares<T>, NetError>)
    requires g.Full? ==> |g.all| == n
    requires g.Partial? ==> Enumerates(g.some, order)
    ensures g.Full? ==> (r.Ok? <==> forall k :: 0 <= k < n ==> decode(g.all[k]).Some?)
    ensures g.Full? && r.Ok? ==>
      r.value.parties == Everyone(n) && |r.value.shares| == n
      && forall k :: 0 <= k < n ==> decode(g.all[k]) == Some(r.value.shares[k])
    ensures g.Partial? ==>
      var d := Decodable(g.some, order, decode);
      r == if |d.shares| < threshold then Err(Protocol(0)) else Ok(d)
  {
    match g {
      case Full(all) =>
        var ret := [];
        for k := 0 to n
          invariant |ret| == k && forall j :: 0 <= j < k ==> decode(all[j]) == Some(ret[j])
        {
          match decode(all[k])
          case None => return Err(Generic);
          case Some(share) => ret := ret + [share];
        }
        r := Ok(ReceivedShares(ret, Everyone(n)));
      case Partial(some) =>
        var shares, parties := [], [];
        for k := 0 to |order|
          invariant ReceivedShares(shares, parties) == Decodable(some, order[..k], decode)
        {
          assert order[..k + 1][..k] == order[..k];
          match decode(some[order[k]])
          case None =>
          case Some(share) => shares, parties := shares + [share], parties + [order[k]];
        }
        assert order[..|order|] == order;
        if |shares| < threshold {
          return Err(Protocol(0));
        }
        r := Ok(ReceivedShares(shares, parties));
    }
  }

  lemma {:induction false} DecodableAligned<B, T>(some: map<nat, B>, order: seq<nat>, decode: B -> Option<T>)
    requires Distinct(order) && forall k :: 0 <= k < |order| ==> order[k] in some
    ensures var d := Decodable(some, order, decode);
      && Distinct(d.parties)
      && (forall k :: 0 <= k < |d.parties| ==>
           d.parties[k] in order && d.parties[k] in some && decode(some[d.parties[k]]) == Some(d.shares[k]))
      && (forall k :: 0 <= k < |order| && decode(some[order[k]]).Some? ==> order[k] in d.parties)
    decreases |order|
  {
    if order != [] {
      var n := |order| - 1;
      var init, last := order[..n], order[n];
      assert order == init + [last];
      DecodableAligned(some, init, decode);
      var before := Decodable(some, init, decode);
      forall k | 0 <= k < n
        ensures order[k] == init[k] && init[k] != last
      {
      }
      assert last !in before.parties;
    }
  }

  // ----- what the protocols get

  /** Party i's message decodes to its column of shares. */
  ghost predicate Encodes<B>(msgs: seq<B>, sh: seq<Vec>, decode: B -> Option<Vec>) {
    |msgs| == |sh| && forall i :: 0 <= i < |sh| ==> decode(msgs[i]) == Some(sh[i])
  }

  /**
   * Under every order of arrivals and losses, what the king works on is the shares of the parties it
   * lists, each next to its own party. The gathering succeeds when everyone or as many as the threshold
   * answered; recovery works if and only if as many answered as a product has coefficients.
   */
  method GatherShares<B(==)>(pp: Params, own: B, events: seq<Event<B>>, decode: B -> Option<Vec>, threshold: nat,
                             order: seq<nat>, ghost msgs: seq<B>, ghost sh: seq<Vec>, ghost rows: seq<Vec>)
    returns (r: Result<ReceivedShares<Vec>, NetError>)
    requires pp.Valid() && |msgs| == pp.n && msgs[0] == own && Faithful(events, msgs) && Encodes(msgs, sh, decode)
    requires Represents(pp, sh, rows, pp.ProductSize())
    requires Distinct(order) && forall id: nat :: id in order <==> id == 0 || HasArrived(events, id)
    ensures r.Ok? <==> |order| == pp.n || threshold <= |order|
    ensures r.Ok? ==>
      && Heard(pp, r.value.parties) && |r.value.parties| == |order|
      && |sh| == pp.n && r.value.shares == Received(sh, r.value.parties)
    ensures r.Ok? && |r.value.parties| >= pp.ProductSize() ==>
      Rectangular(r.value.shares, |rows|) && Recover(pp, r.value.shares, r.value.parties, |rows|) == rows
    ensures r.Ok? && CosetApart(pp) && 0 < pp.l ==> (Recovers(pp, r.value.parties) <==> pp.ProductSize() <= |order|)
  {
    hide Represents, Recover, Faithful, HasArrived, Decodable, Stored, Recovers;
    RepresentsShape(pp, sh, rows, pp.ProductSize());
    ArrivedInRange(events, msgs);
    OrderLength(order, pp.n);
    var g := ClientSendOrKingReceive(pp.n, own, events, msgs);
    r := DecodeGathered(pp.n, g, decode, threshold, order);
    if g.Full? {
      FullOrder(order, pp.n);
      assert r.value.shares == Received(sh, r.value.parties);
    } else {
      DecodableAligned(g.some, order, decode);
      AllDecoded(g.some, order, decode, msgs, sh);
    }
    if r.Ok? && CosetApart(pp) && 0 < pp.l {
      RecoversExact(pp, r.value.parties);
    }
    if r.Ok? && |r.value.parties| >= pp.ProductSize() {
      RecoverRows(pp, sh, rows, r.value.parties);
    }
  }

  lemma ArrivedInRange<B>(events: seq<Event<B>>, msgs: seq<B>)
    requires Faithful(events, msgs)
    ensures forall id: nat :: HasArrived(events, id) ==> 1 <= id < |msgs|
  {
  }

  function Members(order: seq<nat>): set<nat> {
    set id | id in order
  }

  lemma {:induction false} DistinctCount(order: seq<nat>)
    requires Distinct(order)
    ensures |Members(order)| == |order|
    decreases |order|
  {
    if order != [] {
      var n := |order| - 1;
      DistinctCount(order[..n]);
      assert order == order[..n] + [order[n]];
      assert Members(order) == Members(order[..n]) + {order[n]};
      forall k | 0 <= k < n
        ensures order[..n][k] != order[n]
      {
      }
    }
  }

  lemma OrderLength(order: seq<nat>, n: nat)
    requires Distinct(order) && forall id: nat :: id in order ==> id < n
    ensures |order| <= n && (|order| == n <==> forall id: nat :: 0 <= id < n ==> id in order)
  {
    DistinctCount(order);
    var s := Members(order);
    var all := Below(n);
    assert s <= all;
    SubsetFull(s, all);
    assert all == s + (all - s);
    forall id: nat
      ensures id in all <==> id < n
      ensures id in s <==> id in order
    {
    }
    if s == all {
      forall id: nat | 0 <= id < n
        ensures id in order
      {
        assert id in all;
      }
    }
  }

  lemma FullOrder(order: seq<nat>, n: nat)
    requires Distinct(order) && forall id: nat :: id in order <==> id < n
    ensures |order| == n
  {
    OrderLength(order, n);
  }

  /** When every message decodes, nothing is dropped. */
  lemma {:induction false} AllDecoded<B>(some: map<nat, B>, order: seq<nat>, decode: B -> Option<Vec>, msgs: seq<B>,
                                         sh: seq<Vec>)
    requires Encodes(msgs, sh, decode) && forall k :: 0 <= k < |order| ==> order[k] in some
    requires forall id: nat :: id in some ==> id < |msgs| && some[id] == msgs[id]
    ensures Decodable(some, order, decode) == ReceivedShares(Received(sh, order), order)
    decreases |order|
  {
    if order != [] {
      hide Received;
      var n := |order| - 1;
      AllDecoded(some, order[..n], decode, msgs, sh);
      ReceivedLast(sh, order);
      assert decode(some[order[n]]) == Some(sh[order[n]]);
      assert order == order[..n] + [order[n]];
    } else {
      assert Received(sh, order) == [];
    }
  }

  lemma ReceivedLast(sh: seq<Vec>, order: seq<nat>)
    requires order != [] && forall k :: 0 <= k < |order| ==> order[k] < |sh|
    ensures var n := |order| - 1; Received(sh, order) == Received(sh, order[..n]) + [sh[order[n]]]
  {
  }

  // ----- sending

  /** The king sends everyone their message and keeps its own, unless the lengths differ. */
  method ClientReceiveOrKingSend(n: nat, bytesOut: seq<seq<int>>)
    returns (sent: map<nat, seq<int>>, r: Result<seq<int>, NetError>)
    requires n >= 1 && |bytesOut| == n
    ensures r.Ok? <==> forall id: nat :: 1 <= id < n ==> |bytesOut[id]| == |bytesOut[0]|
    ensures r.Ok? ==> r.value == bytesOut[0] && forall id: nat :: id in sent <==> 1 <= id < n
    ensures forall id: nat :: id in sent ==> 1 <= id < n && sent[id] == bytesOut[id]
    ensures r.Err? ==> r.error.Protocol? && 1 <= r.error.party < n && |bytesOut[r.error.party]| != |bytesOut[0]|
    ensures r.Err? ==> forall id: nat :: id in sent <==> 1 <= id < r.error.party
  {
    sent := map[];
    var m := |bytesOut[0]|;
    for id: nat := 1 to n
      invariant forall j: nat :: j in sent <==> 1 <= j < id
      invariant forall j: nat :: j in sent ==> 1 <= j < n && sent[j] == bytesOut[j]
      invariant forall j :: 1 <= j < id ==> |bytesOut[j]| == m
    {
      if |bytesOut[id]| != m {
        return sent, Err(Protocol(id));
      }
      sent := sent[id := bytesOut[id]];
    }
    r := Ok(bytesOut[0]);
  }
}
