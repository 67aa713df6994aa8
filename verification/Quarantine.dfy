/** Forgetting a dead node everywhere: if the processes notice its death at about the same time, none of them hears of
    it again once it has removed it. */
module Quarantines {
  import opened Types
  import opened NodeStates
  import opened Replication
  import opened Deltas
  import opened PartialDeltas
  import opened ClusterStates
  import opened SamplingWindows
  import opened FailureDetectors
  import opened MessageLimits
  import opened Chitchats
  import opened Rounds

  // ---------- who is named ----------

  predicate Names(msg: Message, id: ChitchatId) {
    match msg
    case Syn(_, digest) => id in digest
    case SynAck(digest, delta) => id in digest || exists d :: d in delta.nodeDeltas && d.chitchatId == id
    case Ack(delta) => exists d :: d in delta.nodeDeltas && d.chitchatId == id
    case BadCluster => false
  }

  /** A message that a process sends whose node states are `views`: the opening of a handshake, or an answer. */
  ghost predicate Draws(c: Setting, views: Views, scheduled: set<ChitchatId>, msg: Message) {
    || msg == Syn(c.clusterId, DigestOfAll(views, scheduled))
    || exists asked, order, taken ::
         IsOutcome(c.zstd, c.clusterId, c.checks, c.maxPayload, c.digestLen, views, asked, scheduled, Answered(Some(msg)), order, taken)
  }

  /** Whoever is named is known, and not about to be deleted. */
  lemma NamedIsKnown(c: Setting, views: Views, scheduled: set<ChitchatId>, msg: Message, id: ChitchatId)
    requires Draws(c, views, scheduled, msg) && Names(msg, id)
    ensures id in views && id !in scheduled
  {
    hide IsPartialDelta, DeltaFrom, Untruncated, NoStalerThan, ScoreOf, KeepsMtu, DeltaMtu, IsOversized;
  }

  // ---------- the lives of the processes ----------

  /** What a process's failure detector went through; event `removal` is a collection that removes the node. */
  datatype Life = Life(config: Config, states: seq<DetectorView<ChitchatId>>, events: seq<DetectorEvent<ChitchatId>>, removal: nat)

  ghost predicate Removes(l: Life, id: ChitchatId) {
    && Usable(l.config) && History(l.config, l.states, l.events) && l.removal < |l.events|
    && l.events[l.removal].Collection? && id in Collectible(l.config, l.states[l.removal], l.events[l.removal].at)
  }

  function TimeOfDeath(l: Life, id: ChitchatId): Instant
    requires l.removal < |l.states| && id in l.states[l.removal].dead
  {
    l.states[l.removal].dead[id]
  }

  function TimeOfRemoval(l: Life): Instant
    requires l.removal < |l.events|
  {
    l.events[l.removal].at
  }

  /** State j is the present one at time t. */
  predicate PresentAt(l: Life, j: nat, t: Instant) {
    j <= |l.events| && j < |l.states| && (j > 0 ==> l.events[j - 1].at <= t) && (j < |l.events| ==> t <= l.events[j].at)
  }

  // ---------- messages ----------

  /** A message on its way; `views` and state `state` are what its sender had when it sent it. */
  datatype Letter = Letter(from: ChitchatId, to: ChitchatId, msg: Message, views: Views, state: nat, sentAt: Instant, receivedAt: Instant)

  ghost predicate AllRemove(lives: map<ChitchatId, Life>, id: ChitchatId) {
    forall p | p in lives :: Removes(lives[p], id)
  }

  /** Letter i is drawn from what its sender knows, and takes no longer than `delay`; after removing the node its sender
      knows it only if an earlier letter named it. */
  ghost predicate Posted(c: Setting, lives: map<ChitchatId, Life>, id: ChitchatId, letters: seq<Letter>, delay: Instant, i: nat)
    requires i < |letters| && AllRemove(lives, id)
  {
    var m := letters[i];
    && m.from in lives && m.to in lives && m.sentAt <= m.receivedAt <= m.sentAt + delay
    && PresentAt(lives[m.from], m.state, m.sentAt)
    && Draws(c, m.views, Scheduled(lives[m.from].config, lives[m.from].states[m.state], m.sentAt), m.msg)
    && (m.state > lives[m.from].removal && id in m.views ==>
          exists k | 0 <= k < i ::
            letters[k].to == m.from && Names(letters[k].msg, id) && letters[k].receivedAt >= TimeOfRemoval(lives[m.from]))
  }

  /** The times of death lie close together: no grace period ends before anyone else's first half does, and a message
      sent then has arrived. */
  ghost predicate DiesTogether(lives: map<ChitchatId, Life>, id: ChitchatId, delay: Instant)
    requires AllRemove(lives, id)
  {
    forall p, q | p in lives && q in lives ::
      TimeOfDeath(lives[q], id) + lives[q].config.deadNodeGracePeriod / 2.0 + delay
      < TimeOfDeath(lives[p], id) + lives[p].config.deadNodeGracePeriod
  }

  /** Before it removes a node, a process names it in the first half of the grace period at most. */
  lemma NamedEarly(l: Life, id: ChitchatId, j: nat, t: Instant)
    requires Removes(l, id) && j <= l.removal && PresentAt(l, j, t)
    requires id !in Scheduled(l.config, l.states[j], t)
    ensures t <= TimeOfDeath(l, id) + l.config.deadNodeGracePeriod / 2.0
  {
    hide Scheduled;
    if TimeOfDeath(l, id) + l.config.deadNodeGracePeriod / 2.0 < t {
      RemovedNodesWereQuarantined(l.config, l.states, l.events, l.removal, id, j, t);
    }
  }

  /** Cluster-wide quarantine.  If all processes notice the death of a node within half the grace period less the
      delay of messages, no message that names it arrives after its receiver has removed it; so nobody learns of it
      again. */
  lemma {:induction false} NobodyLearnsAgain(c: Setting, lives: map<ChitchatId, Life>, id: ChitchatId, letters: seq<Letter>,
                                             delay: Instant, i: nat)
    requires AllRemove(lives, id) && DiesTogether(lives, id, delay) && i < |letters|
    requires forall k | 0 <= k <= i :: Posted(c, lives, id, letters, delay, k)
    requires Names(letters[i].msg, id)
    ensures letters[i].to in lives && letters[i].receivedAt < TimeOfRemoval(lives[letters[i].to])
    decreases i
  {
    hide Draws, Names, Scheduled;
    var m := letters[i];
    assert Posted(c, lives, id, letters, delay, i);
    var from := lives[m.from];
    NamedIsKnown(c, m.views, Scheduled(from.config, from.states[m.state], m.sentAt), m.msg, id);
    if m.state > from.removal {
      var k :| 0 <= k < i && letters[k].to == m.from && Names(letters[k].msg, id) && letters[k].receivedAt >= TimeOfRemoval(from);
      NobodyLearnsAgain(c, lives, id, letters, delay, k);
    } else {
      NamedEarly(from, id, m.state, m.sentAt);
    }
  }

  // ---------- otherwise ----------

  function DeadAt(id: ChitchatId, t: Instant): DetectorView<ChitchatId> {
    DetectorView(map[], {}, map[id := t])
  }

  /** The process never heard a heartbeat of the node: it finds it dead at time t, and removes it in due course. */
  function LifeOfOne(c: Config, id: ChitchatId, t: Instant): Life {
    var end := t + c.deadNodeGracePeriod;
    Life(c, [EmptyDetector(), DeadAt(id, t), AfterCollection(c, DeadAt(id, t), end)], [Liveness(id, t), Collection(end)], 1)
  }

  lemma LifeOfOneRemoves(c: Config, id: ChitchatId, t: Instant)
    requires Usable(c)
    ensures Removes(LifeOfOne(c, id, t), id)
    ensures TimeOfDeath(LifeOfOne(c, id, t), id) == t && TimeOfRemoval(LifeOfOne(c, id, t)) == t + c.deadNodeGracePeriod
  {
  }

  function Late(p: ChitchatId, q: ChitchatId, id: ChitchatId, clusterId: Text, at: Instant, delay: Instant): Letter {
    Letter(q, p, Syn(clusterId, map[id := DigestOf(EMPTY_VIEW)]), map[id := EMPTY_VIEW], 1, at, at + delay)
  }

  lemma LateIsPosted(c: Setting, config: Config, lives: map<ChitchatId, Life>, p: ChitchatId, q: ChitchatId, id: ChitchatId,
                     t: Instant, at: Instant, delay: Instant)
    requires Usable(config) && p != q && delay >= 0.0 && t <= at <= t + config.deadNodeGracePeriod / 2.0
    requires lives == map[p := LifeOfOne(config, id, 0.0), q := LifeOfOne(config, id, t)] && AllRemove(lives, id)
    ensures Posted(c, lives, id, [Late(p, q, id, c.clusterId, at, delay)], delay, 0)
  {
    var m := Late(p, q, id, c.clusterId, at, delay);
    assert Scheduled(config, DeadAt(id, t), at) == {};
    assert DigestOfAll(m.views, {}) == map[id := DigestOf(EMPTY_VIEW)];
  }

  /** Two processes that notice a death at times that lie further apart, for the delay of messages: one of them learns
      of the node again. */
  lemma TogetherIsNeeded(c: Setting, config: Config, p: ChitchatId, q: ChitchatId, id: ChitchatId, t: Instant, delay: Instant)
    returns (lives: map<ChitchatId, Life>, letter: Letter)
    requires Usable(config) && p != q && t >= 0.0 && delay >= 0.0 && t + delay >= config.deadNodeGracePeriod / 2.0
    ensures lives.Keys == {p, q} && AllRemove(lives, id) && lives[p].config == lives[q].config == config
    ensures TimeOfDeath(lives[p], id) == 0.0 && TimeOfDeath(lives[q], id) == t
    ensures Posted(c, lives, id, [letter], delay, 0) && letter.to == p && Names(letter.msg, id)
    ensures letter.receivedAt >= TimeOfRemoval(lives[p])
  {
    hide Posted, Removes;
    LifeOfOneRemoves(config, id, 0.0);
    LifeOfOneRemoves(config, id, t);
    lives := map[p := LifeOfOne(config, id, 0.0), q := LifeOfOne(config, id, t)];
    var at := if t >= config.deadNodeGracePeriod - delay then t else config.deadNodeGracePeriod - delay;
    letter := Late(p, q, id, c.clusterId, at, delay);
    LateIsPosted(c, config, lives, p, q, id, t, at, delay);
  }
}
