/** Three runs from an empty cluster, one for each hypothesis of the theorems on runs.  Each run misses one of them in
    a single step, and ends in what the theorems exclude: a replica loses an entry; an entry comes back after its
    deletion was collected; a node that is set back about itself uses a version twice. */
module Anomalies {
  import opened Types
  import opened NodeStates
  import opened Replication
  import opened Reconciliation
  import opened Runs

  // ---------- reaching a state ----------

  /** The step meets the hypotheses of `RunsAreGenuine` and `RunsAreFaithful`. */
  predicate Safe(c: Cluster, step: Step) {
    SparesOwner(c, step) && SafeStep(c, step)
  }

  /** The steps that miss a hypothesis. */
  function Misses(states: seq<Cluster>, steps: seq<Step>): seq<Step>
    requires |states| == |steps| + 1
  {
    if steps == [] then []
    else
      var n := |steps| - 1;
      Misses(states[..|steps|], steps[..n]) + if Safe(states[n], steps[n]) then [] else [steps[n]]
  }

  /** Some run leads to `c`; `misses` are its steps that miss a hypothesis; if `behind`, nobody ever collected further
      than the owner. */
  ghost predicate Reaches(c: Cluster, misses: seq<Step>, behind: bool) {
    exists states: seq<Cluster>, steps: seq<Step> :: LeadsTo(states, steps, c, misses, behind)
  }

  ghost predicate LeadsTo(states: seq<Cluster>, steps: seq<Step>, c: Cluster, misses: seq<Step>, behind: bool) {
    && Run(states, steps) && states[|steps|] == c && Misses(states, steps) == misses
    && (behind ==> forall i | 0 <= i < |states| :: CollectsBehindOwner(states[i]))
  }

  lemma Start()
    ensures Reaches(INIT, [], true)
  {
    assert LeadsTo([INIT], [], INIT, [], true);
  }

  lemma ReachesBehind(c: Cluster, misses: seq<Step>)
    requires Reaches(c, misses, true)
    ensures CollectsBehindOwner(c)
  {
    var states, steps :| LeadsTo(states, steps, c, misses, true);
    assert CollectsBehindOwner(states[|steps|]);
  }

  /** One step more. */
  lemma Then(c: Cluster, misses: seq<Step>, behind: bool, step: Step) returns (next: Cluster)
    requires Reaches(c, misses, behind) && Enabled(c, step)
    requires behind ==> CollectsBehindOwner(Take(c, step))
    ensures next == Take(c, step)
    ensures Reaches(next, if Safe(c, step) then misses else misses + [step], behind)
  {
    hide Enabled, Take, CollectsBehindOwner, Safe;
    next := Take(c, step);
    var states, steps :| LeadsTo(states, steps, c, misses, behind);
    var longer, more := states + [next], steps + [step];
    assert longer[..|more|] == states && more[..|more| - 1] == steps;
    forall i | 0 <= i < |more| ensures Enabled(longer[i], more[i]) && longer[i + 1] == Take(longer[i], more[i]) {
      assert i < |steps| ==> longer[i] == states[i] && longer[i + 1] == states[i + 1];
    }
    assert LeadsTo(longer, more, next, if Safe(c, step) then misses else misses + [step], behind);
  }

  lemma Joins(c: Cluster, misses: seq<Step>, p: Id) returns (next: Cluster)
    requires Reaches(c, misses, true) && p !in c.logs && forall l | l in c.views :: l.about != p
    ensures next == c.(logs := c.logs[p := []], views := c.views[Link(p, p) := EMPTY_VIEW])
    ensures Reaches(next, misses, true)
  {
    ReachesBehind(c, misses);
    next := Then(c, misses, true, Join(p));
  }

  lemma Writes(c: Cluster, misses: seq<Step>, behind: bool, p: Id, op: OwnerOp, w: Write, t: NodeView) returns (next: Cluster)
    requires Reaches(c, misses, behind) && p in c.logs && Link(p, p) in c.views
    requires LogAfter(c.logs[p], c.views[Link(p, p)], op) == c.logs[p] + [w] && OwnerWrite(c.views[Link(p, p)], op, 0.0) == t
    ensures next == c.(logs := c.logs[p := c.logs[p] + [w]], views := c.views[Link(p, p) := t])
    ensures Reaches(next, misses, behind)
  {
    hide OwnerWrite, LogAfter;
    WriteKeepsGc(c.views[Link(p, p)], op, 0.0);
    if behind {
      ReachesBehind(c, misses);
    }
    next := Then(c, misses, behind, LocalWrite(p, op, 0.0));
  }

  /** A process collects what it knows of `id`, no further than `id` itself if that is to stay so. */
  lemma Collects(c: Cluster, misses: seq<Step>, behind: bool, p: Id, id: Id, t: NodeView) returns (next: Cluster)
    requires Reaches(c, misses, behind) && Link(p, id) in c.views && Collect(c.views[Link(p, id)], 2.0, 1.0) == t
    requires behind ==> p == id
    ensures next == c.(views := c.views[Link(p, id) := t])
    ensures Reaches(next, misses, behind)
  {
    hide Collect;
    CollectionRaisesGc(c.views[Link(p, id)], 2.0, 1.0);
    if behind {
      ReachesBehind(c, misses);
    }
    next := Then(c, misses, behind, CollectKeys(p, id, 2.0, 1.0));
  }

  lemma Emits(c: Cluster, misses: seq<Step>, behind: bool, p: Id, to: Id, gc: Version, max: Version, packet: Packet)
    returns (next: Cluster)
    requires Reaches(c, misses, behind) && to in c.logs && Link(p, packet.delta.chitchatId) in c.views
    requires var s := c.views[Link(p, packet.delta.chitchatId)];
             DeltaFrom(s, gc, max, packet.delta) && packet == Sent(s, to, packet.delta)
    ensures next == c.(net := c.net + {packet})
    ensures Reaches(next, misses, behind)
  {
    hide DeltaFrom, Sent;
    if behind {
      ReachesBehind(c, misses);
    }
    next := Then(c, misses, behind, Emit(p, to, gc, max, packet.delta));
  }

  lemma Receives(c: Cluster, misses: seq<Step>, behind: bool, packet: Packet, t: NodeView) returns (next: Cluster)
    requires Reaches(c, misses, behind) && packet in c.net
    requires var l := Link(packet.to, packet.delta.chitchatId);
             && ApplyDelta(ViewOf(c, l), packet.delta, 0.0) == t
             && (behind ==> l.at != l.about
                            && (Link(l.about, l.about) in c.views ==> t.lastGcVersion <= c.views[Link(l.about, l.about)].lastGcVersion))
    ensures next == c.(views := c.views[Link(packet.to, packet.delta.chitchatId) := t])
    ensures Reaches(next, if Safe(c, Receive(packet, 0.0)) then misses else misses + [Receive(packet, 0.0)], behind)
  {
    hide ApplyDelta, Safe;
    if behind {
      ReachesBehind(c, misses);
    }
    next := Then(c, misses, behind, Receive(packet, 0.0));
  }

  // ---------- the processes and what they know ----------

  const OWNER := SOMEONE
  const READER := ChitchatId([114], 0, SocketAddr(V4([127, 0, 0, 1]), 7281))
  const OLD := ChitchatId([111], 0, SocketAddr(V4([127, 0, 0, 1]), 7282))

  const OWN := Link(OWNER, OWNER)
  const COPY := Link(READER, OWNER)
  const OLDCOPY := Link(OLD, OWNER)

  function Entry(b: byte, v: Version): VersionedValue {
    VersionedValue([b], v, DeletionStatus.Set)
  }

  const TOMBSTONE := VersionedValue([], 3, Deleted(0.0))

  // The owner sets A and B, deletes B and collects the deletion.
  const O1 := NodeView(0, map[KEY_A := Entry(1, 1)], 1, 0)
  const O2 := NodeView(0, map[KEY_A := Entry(1, 1), KEY_B := Entry(2, 2)], 2, 0)
  const O3 := NodeView(0, map[KEY_A := Entry(1, 1), KEY_B := TOMBSTONE], 3, 0)
  const O4 := NodeView(0, map[KEY_A := Entry(1, 1)], 3, 3)

  const W1 := Write(KEY_A, [1], MutSet)
  const W2 := Write(KEY_B, [2], MutSet)
  const W3 := Write(KEY_B, [], MutDelete)
  const W4 := Write(KEY_B, [4], MutSet)

  lemma FirstWrite()
    ensures OwnerWrite(EMPTY_VIEW, OpSet(KEY_A, [1]), 0.0) == O1
    ensures LogAfter([], EMPTY_VIEW, OpSet(KEY_A, [1])) == [] + [W1]
  {
  }

  lemma SecondWrite()
    ensures OwnerWrite(O1, OpSet(KEY_B, [2]), 0.0) == O2
    ensures LogAfter([W1], O1, OpSet(KEY_B, [2])) == [W1] + [W2]
  {
  }

  lemma Deletion()
    ensures OwnerWrite(O2, OpDelete(KEY_B), 0.0) == O3
    ensures LogAfter([W1, W2], O2, OpDelete(KEY_B)) == [W1, W2] + [W3]
  {
  }

  lemma Collection()
    ensures Collect(O3, 2.0, 1.0) == O4
  {
    assert ExpiredVersions(O3.keyValues, 2.0, 1.0) == {3} by {
      assert Expired(O3.keyValues[KEY_B], 2.0, 1.0) && !Expired(O3.keyValues[KEY_A], 2.0, 1.0);
    }
    assert MaxVersionOf({3}, 0) == 3;
  }

  /** The cluster once the owner has set A and B, with any processes besides. */
  lemma OwnerSetsTwo(c: Cluster) returns (next: Cluster)
    requires Reaches(c, [], true) && OWNER in c.logs && c.logs[OWNER] == [] && OWN in c.views && c.views[OWN] == EMPTY_VIEW
    ensures Reaches(next, [], true)
    ensures next.logs == c.logs[OWNER := [W1, W2]] && next.views == c.views[OWN := O2] && next.net == c.net
  {
    hide OwnerWrite, LogAfter;
    FirstWrite();
    next := Writes(c, [], true, OWNER, OpSet(KEY_A, [1]), W1, O1);
    assert [] + [W1] == [W1] && [W1] + [W2] == [W1, W2];
    SecondWrite();
    next := Writes(next, [], true, OWNER, OpSet(KEY_B, [2]), W2, O2);
  }

  lemma OwnerDeletes(c: Cluster) returns (next: Cluster)
    requires Reaches(c, [], true) && OWNER in c.logs && c.logs[OWNER] == [W1, W2] && OWN in c.views && c.views[OWN] == O2
    ensures Reaches(next, [], true)
    ensures next.logs == c.logs[OWNER := [W1, W2, W3]] && next.views == c.views[OWN := O3] && next.net == c.net
  {
    hide OwnerWrite, LogAfter;
    Deletion();
    assert [W1, W2] + [W3] == [W1, W2, W3];
    next := Writes(c, [], true, OWNER, OpDelete(KEY_B), W3, O3);
  }

  // ---------- the first deltas ----------

  const D1 := NodeDelta(OWNER, 0, 0, [MutationOf(KEY_A, Entry(1, 1)), MutationOf(KEY_B, TOMBSTONE)], None)
  const P1 := Packet(READER, D1, 3, 3)

  lemma FirstDelta()
    ensures DeltaFrom(O3, 0, 0, D1) && P1 == Sent(O3, READER, D1)
    ensures ApplyDelta(EMPTY_VIEW, D1, 0.0) == O3 && SafeToReceive(EMPTY_VIEW, D1, 3)
  {
    StaleKeyValuesIsTheSort(O3, 0, D1.keyValues);
    var m1, m2 := D1.keyValues[0], D1.keyValues[1];
    ApplyOne(EMPTY_VIEW, m1, 0.0);
    assert [m1, m2][..1] == [m1];
  }

  lemma OwnerAndReader() returns (c: Cluster)
    ensures Reaches(c, [], true)
    ensures c == Cluster(map[OWNER := [], READER := []], map[OWN := EMPTY_VIEW, Link(READER, READER) := EMPTY_VIEW], {})
  {
    Start();
    c := Joins(INIT, [], OWNER);
    c := Joins(c, [], READER);
  }

  /** The reader has all that the owner has, before the deletion of B is collected anywhere. */
  lemma ReaderFollows() returns (c: Cluster)
    ensures Reaches(c, [], true) && OWNER in c.logs && READER in c.logs && c.logs[OWNER] == [W1, W2, W3]
    ensures OWN in c.views && COPY in c.views && c.views[OWN] == O3 && c.views[COPY] == O3
  {
    c := OwnerAndReader();
    c := OwnerSetsTwo(c);
    c := OwnerDeletes(c);
    FirstDelta();
    hide DeltaFrom, ApplyDelta, SafeToReceive, Sent;
    c := Emits(c, [], true, OWNER, READER, 0, 0, P1);
    c := Receives(c, [], true, P1, O3);
  }

  // ---------- an entry is lost ----------

  const O5 := NodeView(0, map[KEY_A := Entry(1, 1), KEY_B := Entry(4, 4)], 4, 3)
  const R2 := NodeView(0, map[KEY_B := Entry(4, 4)], 4, 3)
  const D2 := NodeDelta(OWNER, 3, 3, [MutationOf(KEY_B, Entry(4, 4))], None)
  const P2 := Packet(READER, D2, 4, 4)

  lemma LastWrite()
    ensures OwnerWrite(O4, OpSet(KEY_B, [4]), 0.0) == O5
    ensures LogAfter([W1, W2, W3], O4, OpSet(KEY_B, [4])) == [W1, W2, W3] + [W4]
  {
  }

  lemma SecondDelta()
    ensures DeltaFrom(O5, 0, 3, D2) && P2 == Sent(O5, READER, D2)
    ensures ApplyDelta(O3, D2, 0.0) == R2 && !SafeToReceive(O3, D2, 4)
  {
    StaleKeyValuesIsTheSort(O5, 3, D2.keyValues);
    ApplyOne(ResetView(D2), D2.keyValues[0], 0.0);
  }

  lemma LatestOfA()
    ensures Latest([W1, W2, W3] + [W4], KEY_A) == 1
  {
    LatestAfterWrite([], W1, KEY_A);
    LatestAfterWrite([W1], W2, KEY_A);
    LatestAfterWrite([W1, W2], W3, KEY_A);
    LatestAfterWrite([W1, W2, W3], W4, KEY_A);
    assert [] + [W1] == [W1] && [W1] + [W2] == [W1, W2] && [W1, W2] + [W3] == [W1, W2, W3];
  }

  lemma EntryIsLost(c: Cluster)
    requires OWNER in c.logs && c.logs[OWNER] == [W1, W2, W3] + [W4] && COPY in c.views && c.views[COPY] == R2
    ensures !AllFaithful(c)
  {
    LatestOfA();
    assert !Current(c.logs[OWNER], R2, KEY_A);
    assert !CompleteLink(c, COPY);
  }

  /** A reachable loss.  Nobody collects further than the owner, and only the last receipt misses a hypothesis: it
      resets the replica with a delta that starts at 3.  The replica then claims version 4 and has lost key A, which
      the owner set in version 1 and never deleted. */
  lemma LossIsReachable() returns (c: Cluster)
    ensures Reaches(c, [Receive(P2, 0.0)], true) && !AllFaithful(c)
    ensures OWN in c.views && c.views[OWN] == O5 && COPY in c.views && c.views[COPY] == R2
  {
    c := ReaderFollows();
    Collection();
    LastWrite();
    SecondDelta();
    hide Collect, OwnerWrite, LogAfter, DeltaFrom, ApplyDelta, SafeToReceive, Sent;
    c := Collects(c, [], true, OWNER, OWNER, O4);
    c := Writes(c, [], true, OWNER, OpSet(KEY_B, [4]), W4, O5);
    c := Emits(c, [], true, OWNER, READER, 0, 3, P2);
    c := Receives(c, [], true, P2, R2);
    assert [] + [Receive(P2, 0.0)] == [Receive(P2, 0.0)];
    EntryIsLost(c);
  }

  // ---------- a deleted entry comes back ----------

  const O6 := NodeView(0, map[KEY_A := Entry(4, 4)], 4, 3)
  const R3 := NodeView(0, map[KEY_A := Entry(1, 1)], 1, 3)
  const R4 := NodeView(0, map[KEY_A := Entry(1, 1), KEY_B := Entry(2, 2)], 2, 3)
  const R5 := NodeView(0, map[KEY_A := Entry(4, 4), KEY_B := Entry(2, 2)], 4, 3)
  const W5 := Write(KEY_A, [4], MutSet)

  const E1 := NodeDelta(OWNER, 0, 0, [MutationOf(KEY_A, Entry(1, 1)), MutationOf(KEY_B, Entry(2, 2))], None)
  const E2 := NodeDelta(OWNER, 0, 3, [MutationOf(KEY_A, Entry(1, 1))], None)
  const E3 := NodeDelta(OWNER, 1, 0, [MutationOf(KEY_B, Entry(2, 2))], None)
  const E4 := NodeDelta(OWNER, 2, 3, [MutationOf(KEY_A, Entry(4, 4))], None)

  const Q1 := Packet(OLD, E1, 2, 2)
  const Q2 := Packet(READER, E2, 3, 3)
  const Q3 := Packet(READER, E3, 2, 2)
  const Q4 := Packet(READER, E4, 4, 4)

  lemma DeltaToOld()
    ensures DeltaFrom(O2, 0, 0, E1) && Untruncated(O2, E1) && Q1 == Sent(O2, OLD, E1)
    ensures ApplyDelta(EMPTY_VIEW, E1, 0.0) == O2 && SafeToReceive(EMPTY_VIEW, E1, 2)
  {
    StaleKeyValuesIsTheSort(O2, 0, E1.keyValues);
    var m1, m2 := E1.keyValues[0], E1.keyValues[1];
    ApplyOne(EMPTY_VIEW, m1, 0.0);
    assert [m1, m2][..1] == [m1];
  }

  lemma DeltaToNew()
    ensures DeltaFrom(O4, 0, 0, E2) && Untruncated(O4, E2) && Q2 == Sent(O4, READER, E2)
    ensures ApplyDelta(EMPTY_VIEW, E2, 0.0) == R3 && SafeToReceive(EMPTY_VIEW, E2, 3)
  {
    StaleKeyValuesIsTheSort(O4, 0, E2.keyValues);
    ApplyOne(ResetView(E2), E2.keyValues[0], 0.0);
  }

  lemma DeltaFromOld()
    ensures DeltaFrom(O2, 3, 1, E3) && Untruncated(O2, E3) && Q3 == Sent(O2, READER, E3)
    ensures ApplyDelta(R3, E3, 0.0) == R4 && !SafeToReceive(R3, E3, 2)
  {
    StaleKeyValuesIsTheSort(O2, 1, E3.keyValues);
    ApplyOne(R3, E3.keyValues[0], 0.0);
  }

  lemma LaterDelta()
    ensures DeltaFrom(O6, 3, 2, E4) && Untruncated(O6, E4) && Q4 == Sent(O6, READER, E4)
  {
    StaleKeyValuesIsTheSort(O6, 2, E4.keyValues);
  }

  lemma LaterReceipt()
    ensures ApplyDelta(R4, E4, 0.0) == R5 && SafeToReceive(R4, E4, 4)
  {
    ApplyOne(R4, E4.keyValues[0], 0.0);
  }

  lemma LaterWrite()
    ensures OwnerWrite(O4, OpSet(KEY_A, [4]), 0.0) == O6
    ensures LogAfter([W1, W2, W3], O4, OpSet(KEY_A, [4])) == [W1, W2, W3] + [W5]
  {
  }

  lemma OldJoins() returns (c: Cluster)
    ensures Reaches(c, [], true) && {OWNER, READER, OLD} <= c.logs.Keys && c.logs[OWNER] == [W1, W2]
    ensures OWN in c.views && OLDCOPY !in c.views && COPY !in c.views && c.views[OWN] == O2
  {
    c := OwnerAndReader();
    c := Joins(c, [], OLD);
    c := OwnerSetsTwo(c);
  }

  lemma OldCopies() returns (c: Cluster)
    ensures Reaches(c, [], true) && OWNER in c.logs && READER in c.logs && c.logs[OWNER] == [W1, W2]
    ensures OWN in c.views && OLDCOPY in c.views && COPY !in c.views && c.views[OWN] == O2 && c.views[OLDCOPY] == O2
  {
    c := OldJoins();
    DeltaToOld();
    hide DeltaFrom, ApplyDelta, SafeToReceive, Sent, Untruncated, SetsBack;
    c := Emits(c, [], true, OWNER, OLD, 0, 0, Q1);
    c := Receives(c, [], true, Q1, O2);
  }

  /** The old process has a copy from before the deletion; the owner has collected the deletion. */
  lemma OldStaysBehind() returns (c: Cluster)
    ensures Reaches(c, [], true) && OWNER in c.logs && READER in c.logs && c.logs[OWNER] == [W1, W2, W3]
    ensures OWN in c.views && OLDCOPY in c.views && COPY !in c.views && c.views[OWN] == O4 && c.views[OLDCOPY] == O2
  {
    c := OldCopies();
    c := OwnerDeletes(c);
    Collection();
    hide Collect;
    c := Collects(c, [], true, OWNER, OWNER, O4);
  }

  lemma ReaderHearsOld() returns (c: Cluster)
    ensures Reaches(c, [Receive(Q3, 0.0)], true) && OWNER in c.logs && READER in c.logs && c.logs[OWNER] == [W1, W2, W3]
    ensures OWN in c.views && COPY in c.views && c.views[OWN] == O4 && c.views[COPY] == R4
  {
    c := OldStaysBehind();
    DeltaToNew();
    DeltaFromOld();
    hide DeltaFrom, ApplyDelta, SafeToReceive, Sent, Untruncated;
    c := Emits(c, [], true, OWNER, READER, 0, 0, Q2);
    c := Receives(c, [], true, Q2, R3);
    c := Emits(c, [], true, OLD, READER, 3, 1, Q3);
    c := Receives(c, [], true, Q3, R4);
    assert [] + [Receive(Q3, 0.0)] == [Receive(Q3, 0.0)];
  }

  lemma EntryIsBack(c: Cluster)
    requires OWNER in c.logs && c.logs[OWNER] == [W1, W2, W3] + [W5] && COPY in c.views && c.views[COPY] == R5
    ensures !AllFaithful(c)
  {
    var log := [W1, W2, W3] + [W5];
    assert log[2] == W3 && log[3] == W5 && Latest(log, KEY_B) == 3;
    assert !Current(log, R5, KEY_B);
    assert !CompleteLink(c, COPY);
  }

  /** A reachable resurrection.  Nothing is cut short and nobody collects further than the owner; only one receipt
      misses a hypothesis, that of the old process's delta.  At the end the replica claims version 4 and has the entry
      B of version 2, which the owner deleted in version 3 and collected. */
  lemma ResurrectionIsReachable() returns (c: Cluster)
    ensures Reaches(c, [Receive(Q3, 0.0)], true) && !AllFaithful(c)
    ensures Untruncated(O2, E1) && Untruncated(O4, E2) && Untruncated(O2, E3) && Untruncated(O6, E4)
    ensures OWNER in c.logs && c.logs[OWNER] == [W1, W2, W3] + [W5]
    ensures OWN in c.views && c.views[OWN] == O6 && COPY in c.views && c.views[COPY] == R5
  {
    c := ReaderHearsOld();
    var misses := [Receive(Q3, 0.0)];
    LaterWrite();
    LaterDelta();
    LaterReceipt();
    DeltaToOld();
    DeltaToNew();
    DeltaFromOld();
    hide OwnerWrite, LogAfter, DeltaFrom, ApplyDelta, SafeToReceive, Sent, Untruncated;
    c := Writes(c, misses, true, OWNER, OpSet(KEY_A, [4]), W5, O6);
    c := Emits(c, misses, true, OWNER, READER, 3, 2, Q4);
    c := Receives(c, misses, true, Q4, R5);
    EntryIsBack(c);
  }

  // ---------- a version is used twice ----------

  const O7 := NodeView(0, map[KEY_A := Entry(1, 1), KEY_B := Entry(9, 2)], 2, 3)
  const W6 := Write(KEY_B, [9], MutSet)
  const Q5 := Packet(OWNER, E2, 3, 3)

  lemma DeltaToOwner()
    ensures DeltaFrom(O4, 0, 0, E2) && Q5 == Sent(O4, OWNER, E2)
    ensures ApplyDelta(O3, E2, 0.0) == R3 && SafeToReceive(O3, E2, 3) && SetsBack([W1, W2, W3], O3, E2)
  {
    StaleKeyValuesIsTheSort(O4, 0, E2.keyValues);
    ApplyOne(ResetView(E2), E2.keyValues[0], 0.0);
  }

  lemma SecondVersionTwo()
    ensures OwnerWrite(R3, OpSet(KEY_B, [9]), 0.0) == O7
    ensures LogAfter([W1, W2, W3], R3, OpSet(KEY_B, [9])) == [W1, W2, W3] + [W6]
  {
  }

  lemma Weaken(c: Cluster, misses: seq<Step>)
    requires Reaches(c, misses, true)
    ensures Reaches(c, misses, false)
  {
    var states, steps :| LeadsTo(states, steps, c, misses, true);
    assert LeadsTo(states, steps, c, misses, false);
  }

  lemma OwnerIsOverruled() returns (c: Cluster)
    ensures Reaches(c, [], false) && Q5 in c.net
    ensures OWNER in c.logs && c.logs[OWNER] == [W1, W2, W3] && OWN in c.views && c.views[OWN] == O3
  {
    c := ReaderFollows();
    Weaken(c, []);
    Collection();
    DeltaToOwner();
    hide Collect, DeltaFrom, ApplyDelta, SafeToReceive, Sent, SetsBack;
    c := Collects(c, [], false, READER, OWNER, O4);
    c := Emits(c, [], false, READER, OWNER, 0, 0, Q5);
  }

  lemma OwnerStartsOver(before: Cluster) returns (c: Cluster)
    requires Reaches(before, [], false) && Q5 in before.net
    requires OWNER in before.logs && before.logs[OWNER] == [W1, W2, W3] && OWN in before.views && before.views[OWN] == O3
    ensures SafeStep(before, Receive(Q5, 0.0)) && !SparesOwner(before, Receive(Q5, 0.0))
    ensures Reaches(c, [Receive(Q5, 0.0)], false) && c == before.(views := before.views[OWN := R3])
  {
    DeltaToOwner();
    hide ApplyDelta, SafeToReceive, SetsBack;
    c := Receives(before, [], false, Q5, R3);
    assert [] + [Receive(Q5, 0.0)] == [Receive(Q5, 0.0)];
  }

  lemma VersionIsReused(c: Cluster)
    requires OWNER in c.logs && c.logs[OWNER] == [W1, W2, W3] + [W6] && OWN in c.views && c.views[OWN] == O7
    ensures !AllGenuine(c)
  {
    assert !GenuineEntry(c.logs[OWNER], O7, KEY_B);
    assert !GenuineLink(c, OWN);
  }

  /** A reachable reuse.  The reader collects before the owner does, and answers the first digest the owner ever sent.
      The receipt meets both hypotheses on receipts; only, it sets the owner back, whose next write has version 2 again. */
  lemma ReuseIsReachable() returns (before: Cluster, c: Cluster)
    ensures Reaches(before, [], false) && Enabled(before, Receive(Q5, 0.0))
    ensures SafeStep(before, Receive(Q5, 0.0)) && !SparesOwner(before, Receive(Q5, 0.0))
    ensures Reaches(c, [Receive(Q5, 0.0)], false) && !AllGenuine(c)
    ensures OWNER in c.logs && c.logs[OWNER] == [W1, W2, W3] + [W6] && OWN in c.views && c.views[OWN] == O7
  {
    before := OwnerIsOverruled();
    c := OwnerStartsOver(before);
    SecondVersionTwo();
    hide OwnerWrite, LogAfter, Safe, SafeStep, SparesOwner, AllGenuine;
    c := Writes(c, [Receive(Q5, 0.0)], false, OWNER, OpSet(KEY_B, [9]), W6, O7);
    VersionIsReused(c);
  }
}
