/** Which transaction a vertex carries. */
module ConsensusTransactions {
  import opened Collections
  import opened Consensus
  import opened ConsensusRuns
  import opened ConsensusTheorems

  /** The nonces of what is pending go on where the node's own counter stands. */
  predicate NoncesGoOn(s: Node) {
    && s.nonce == Count(s.clock, s.nodeId) + |s.pending|
    && forall k :: 0 <= k < |s.pending| ==> s.pending[k].nonce == Count(s.clock, s.nodeId) + 1 + k
  }

  ghost predicate NonceInv(s: Network) {
    && (forall n :: n in s.nodes ==> s.nodes[n].nodeId == n && NoncesGoOn(s.nodes[n]))
    && (forall x :: x in s.history ==> s.history[x].transaction.nonce == Number(s.history[x]))
  }

  lemma SubmitGoesOn(s: Node, id: Id, txType: TransactionType, data: seq<bv8>)
    requires NoncesGoOn(s)
    ensures NoncesGoOn(Submitted(s, id, txType, data))
  {
  }

  lemma CreateGoesOn(s: Node, v: Vertex)
    requires NoncesGoOn(s) && IsNextVertex(s, v)
    ensures NoncesGoOn(Created(s, v)) && v.transaction.nonce == Number(v)
  {
    hide Tips, Enumerates;
    var s' := Created(s, v);
    assert forall k :: 0 <= k < |s'.pending| ==> s'.pending[k] == s.pending[k + 1];
  }

  lemma DeliverGoesOn(s: Node, v: Vertex)
    requires NoncesGoOn(s) && Count(v.clock, s.nodeId) <= Count(s.clock, s.nodeId)
    ensures NoncesGoOn(Delivered(s, v))
  {
    DeliveredClock(s, v, s.nodeId);
    hide MergeClocks;
  }

  lemma PruneGoesOn(s: Node, keep: nat, s': Node)
    requires IsPruned(s, keep, s') && NoncesGoOn(s)
    ensures NoncesGoOn(s') && s'.nodeId == s.nodeId
  {
  }

  lemma OneNodeGoesOn(s: Network, n: NodeId, t: Node, h: History, rank: map<Id, nat>)
    requires NonceInv(s) && t.nodeId == n && NoncesGoOn(t)
    requires forall x :: x in h && x !in s.history ==> h[x].transaction.nonce == Number(h[x])
    requires forall x :: x in h && x in s.history ==> h[x] == s.history[x]
    ensures NonceInv(Network(s.nodes[n := t], h, rank))
  {
    hide NoncesGoOn, Number;
  }

  lemma NonceOf(s: Network, n: NodeId)
    requires NonceInv(s) && n in s.nodes
    ensures s.nodes[n].nodeId == n && NoncesGoOn(s.nodes[n])
  {
  }

  lemma NextKeepsNonces(s: Network, e: Event, s': Network)
    requires Inv(s) && Next(s, e, s') && NonceInv(s)
    ensures NonceInv(s')
  {
    hide Inv, NoncesGoOn, NonceInv, IsPruned, IsNextVertex, Deliverable, Number, Finalized, Delivered, Submitted, Created;
    match e
    case Join(n, quorum) =>
      NewNodeGoesOn(n, quorum);
      OneNodeGoesOn(s, n, s'.nodes[n], s'.history, s'.rank);
    case Submit(n, txId, txType, data) =>
      NonceOf(s, n);
      SubmitGoesOn(s.nodes[n], txId, txType, data);
      SameName(s.nodes[n]);
      OneNodeGoesOn(s, n, s'.nodes[n], s'.history, s'.rank);
    case Create(n, v) =>
      NonceOf(s, n);
      CreateGoesOn(s.nodes[n], v);
      CreatedName(s.nodes[n], v);
      OneNodeGoesOn(s, n, s'.nodes[n], s'.history, s'.rank);
    case Deliver(n, id) =>
      NonceOf(s, n);
      CreatorKnowsMost(s, n, id);
      DeliverGoesOn(s.nodes[n], s.history[id]);
      SameName(s.nodes[n]);
      OneNodeGoesOn(s, n, if s' == s then s.nodes[n] else s'.nodes[n], s'.history, s'.rank);
    case Finalize(n) =>
      NonceOf(s, n);
      FinalizeGoesOn(s.nodes[n]);
      OneNodeGoesOn(s, n, s'.nodes[n], s'.history, s'.rank);
    case Prune(n, keep) =>
      NonceOf(s, n);
      PruneGoesOn(s.nodes[n], keep, s'.nodes[n]);
      OneNodeGoesOn(s, n, s'.nodes[n], s'.history, s'.rank);
  }

  lemma NewNodeGoesOn(n: NodeId, quorum: nat)
    ensures NoncesGoOn(NewNode(n, quorum)) && NewNode(n, quorum).nodeId == n
  {
  }

  lemma FinalizeGoesOn(s: Node)
    requires NoncesGoOn(s)
    ensures NoncesGoOn(Finalized(s)) && Finalized(s).nodeId == s.nodeId
  {
    hide Confirmed;
  }

  lemma SameName(s: Node)
    ensures forall id, txType, data :: Submitted(s, id, txType, data).nodeId == s.nodeId
    ensures forall v :: Delivered(s, v).nodeId == s.nodeId
  {
    hide MergeClocks;
  }

  lemma CreatedName(s: Node, v: Vertex)
    requires IsNextVertex(s, v)
    ensures s.pending != [] && Created(s, v).nodeId == s.nodeId
  {
  }

  lemma NoNoncesYet()
    ensures NonceInv(EMPTY)
  {
  }

  lemma {:induction false} RunKeepsNonces(states: seq<Network>, events: seq<Event>, i: nat)
    requires Run(states, events) && i < |states|
    ensures NonceInv(states[i])
  {
    hide NonceInv, Inv, Next;
    if i == 0 {
      NoNoncesYet();
    } else {
      RunKeepsNonces(states, events, i - 1);
      RunKeepsInv(states, events, i - 1);
      assert Next(states[i - 1], events[i - 1], states[i - 1 + 1]);
      NextKeepsNonces(states[i - 1], events[i - 1], states[i]);
    }
  }

  // ---------------------------------------------------------------- where transactions come from

  /** The step submits the transaction at node n, as the nonce-th there. */
  predicate Submits(s: Network, e: Event, n: NodeId, tx: Transaction) {
    n in s.nodes && e == Submit(n, tx.id, tx.txType, tx.data) && tx.nonce == s.nodes[n].nonce + 1
  }

  ghost predicate WasSubmitted(states: seq<Network>, events: seq<Event>, i: nat, n: NodeId, tx: Transaction)
    requires i <= |events| < |states|
  {
    exists j :: 0 <= j < i && Submits(states[j], events[j], n, tx)
  }

  /** The transaction is pending at n, or in a vertex that n created. */
  predicate IsAt(s: Network, n: NodeId, tx: Transaction) {
    || (n in s.nodes && tx in s.nodes[n].pending)
    || exists x :: x in s.history && s.history[x].nodeId == n && s.history[x].transaction == tx
  }

  lemma AtByStep(s: Network, e: Event, s': Network, n: NodeId, tx: Transaction)
    requires Next(s, e, s') && IsAt(s', n, tx) && forall m :: m in s.nodes ==> s.nodes[m].nodeId == m
    ensures IsAt(s, n, tx) || Submits(s, e, n, tx)
  {
    hide Tips, Enumerates, MergeClocks, Finalized, Deliverable;
    if x :| x in s'.history && s'.history[x].nodeId == n && s'.history[x].transaction == tx && x in s.history {
      assert s.history[x] == s'.history[x];
    }
    match e
    case Create(m, v) =>
      assert s.nodes[m].pending[0] in s.nodes[m].pending;
    case Finalize(m) =>
      FinalizeKeepsPending(s.nodes[m]);
    case _ =>
  }

  lemma FinalizeKeepsPending(s: Node)
    ensures Finalized(s).pending == s.pending
  {
    hide Confirmed;
  }

  lemma {:induction false} AtWasSubmitted(states: seq<Network>, events: seq<Event>, i: nat, n: NodeId, tx: Transaction)
    requires Run(states, events) && i < |states| && IsAt(states[i], n, tx)
    ensures WasSubmitted(states, events, i, n, tx)
  {
    if i > 0 {
      RunKeepsNonces(states, events, i - 1);
      assert Next(states[i - 1], events[i - 1], states[i - 1 + 1]);
      hide Next, IsAt, NoncesGoOn;
      AtByStep(states[i - 1], events[i - 1], states[i], n, tx);
      if IsAt(states[i - 1], n, tx) {
        AtWasSubmitted(states, events, i - 1, n, tx);
        var j :| 0 <= j < i - 1 && Submits(states[j], events[j], n, tx);
        assert j < i;
      } else {
        assert Submits(states[i - 1], events[i - 1], n, tx);
      }
    }
  }

  /** In every run the m-th vertex of a node carries the m-th transaction that was submitted there, unchanged; so every
      transaction is in one vertex of its node at most, and in the order of submission. */
  lemma VertexCarriesItsTransaction(states: seq<Network>, events: seq<Event>, i: nat, v: Id)
    requires Run(states, events) && i < |states| && v in states[i].history
    ensures
      var x := states[i].history[v];
      && x.transaction.nonce == Number(x)
      && exists j :: 0 <= j < i && Submits(states[j], events[j], x.nodeId, x.transaction)
  {
    RunKeepsNonces(states, events, i);
    AtWasSubmitted(states, events, i, states[i].history[v].nodeId, states[i].history[v].transaction);
  }

  /** Two vertices of one node carry different transactions. */
  lemma OneVertexPerTransaction(states: seq<Network>, events: seq<Event>, i: nat, u: Id, v: Id)
    requires Run(states, events) && i < |states| && u in states[i].history && v in states[i].history
    requires states[i].history[u].nodeId == states[i].history[v].nodeId
    requires states[i].history[u].transaction.nonce == states[i].history[v].transaction.nonce
    ensures u == v
  {
    var h, rank := states[i].history, states[i].rank;
    RunKeepsNonces(states, events, i);
    HistoryOfRun(states, events, i);
    hide Run, AncestorOrSelf;
    MatchesAncestry(h, u, v);
    MatchesAncestry(h, v, u);
    RankOf(h, rank);
    if u != v {
      NotAncestorOfItsAncestor(h, rank, u, v);
    }
  }
}
