/** Times in a node state: the time from which a deletion counts, and the grace period during which it is kept. */
module Dates {
  import opened Types
  import opened NodeStates
  import opened Replication
  import opened Reconciliation
  import opened Deltas
  import opened PartialDeltas
  import opened ClusterStates

  // ---------- what a write leaves ----------

  /** What the owner reads back under the key of a write that was not in vain. */
  predicate ReadsBack(s: NodeView, op: OwnerOp, now: Instant, vv: VersionedValue) {
    match op
    case OpSet(_, value) => vv.value == value && vv.status == DeletionStatus.Set
    case OpSetWithTtl(_, value) => vv.value == value && vv.status == DeleteAfterTtl(now)
    case OpDelete(_) => vv.value == [] && vv.status == Deleted(now)
    case OpDeleteAfterTtl(k) => k in s.keyValues && vv.value == s.keyValues[k].value && vv.status == DeleteAfterTtl(now)
  }

  /** Which writes are in vain: setting what is set already, in the same way, and deleting what is not there. */
  ghost predicate InVain(s: NodeView, op: OwnerOp) {
    match op
    case OpSet(k, value) => k in s.keyValues && s.keyValues[k].value == value && s.keyValues[k].status == DeletionStatus.Set
    case OpSetWithTtl(k, value) =>
      k in s.keyValues && s.keyValues[k].value == value
      && exists since: Instant :: s.keyValues[k].status == DeleteAfterTtl(since)
    case OpDelete(k) => k !in s.keyValues
    case OpDeleteAfterTtl(k) => k !in s.keyValues
  }

  /** A write changes nothing exactly if it is in vain; otherwise the next version is the one read back. */
  lemma WritesReadBack(s: NodeView, op: OwnerOp, now: Instant)
    requires VersionsBounded(s)
    ensures var t := AfterEvent(s, Wrote(op, now));
            && (t == s <==> InVain(s, op))
            && (forall k | k != op.key :: SameEntry(s, t, k))
            && t.lastGcVersion == s.lastGcVersion && t.heartbeat == s.heartbeat
            && (t != s ==>
                  && t.maxVersion == s.maxVersion + 1
                  && op.key in t.keyValues && t.keyValues[op.key].version == t.maxVersion
                  && ReadsBack(s, op, now, t.keyValues[op.key]))
  {
    if op.OpSetWithTtl? && op.key in s.keyValues && s.keyValues[op.key].status.DeleteAfterTtl? {
      assert s.keyValues[op.key].status == DeleteAfterTtl(s.keyValues[op.key].status.since);
    }
  }

  /** Setting twice is setting once. */
  lemma SettingIsIdempotent(s: NodeView, op: OwnerOp, now: Instant, later: Instant)
    requires VersionsBounded(s) && (op.OpSet? || op.OpSetWithTtl?)
    ensures var once := AfterEvent(s, Wrote(op, now)); AfterEvent(once, Wrote(op, later)) == once
  {
  }

  /** Deleting is not: every deletion of a key that has an entry, a tombstone even, makes a version and starts the grace
      period again. */
  lemma DeletingStartsAgain(s: NodeView, k: Text, now: Instant, later: Instant)
    requires k in s.keyValues
    ensures var t := AfterEvent(AfterEvent(s, Wrote(OpDelete(k), now)), Wrote(OpDelete(k), later));
            t.maxVersion == s.maxVersion + 2 && k in t.keyValues && t.keyValues[k].status == Deleted(later)
  {
  }

  // ---------- what a delta leaves ----------

  /** The entry a mutation becomes when it is received: a deletion counts from now. */
  predicate Became(m: KeyValueMutation, vv: VersionedValue, now: Instant) {
    && vv.value == m.value && vv.version == m.version
    && match m.status
       case MutSet => vv.status == DeletionStatus.Set
       case MutDelete => vv.status == Deleted(now)
       case MutDeleteAfterTtl => vv.status == DeleteAfterTtl(now)
  }

  ghost predicate Brought(ms: seq<KeyValueMutation>, k: Text, current: Version, vv: VersionedValue, now: Instant) {
    exists m :: m in ms && m.key == k && m.version > current && Became(m, vv, now)
  }

  lemma {:induction false} MutationsAreDatedNow(s: NodeView, current: Version, ms: seq<KeyValueMutation>, now: Instant, k: Text)
    ensures var t := ApplyMutations(s, current, ms, now);
            && (k in t.keyValues ==> (k in s.keyValues && t.keyValues[k] == s.keyValues[k]) || Brought(ms, k, current, t.keyValues[k], now))
            && (k in s.keyValues ==> k in t.keyValues)
  {
    if ms != [] {
      var init, m := ms[..|ms| - 1], ms[|ms| - 1];
      MutationsAreDatedNow(s, current, init, now, k);
      var before, t := ApplyMutations(s, current, init, now), ApplyMutations(s, current, ms, now);
      assert forall x | x in init :: x in ms;
      if k in t.keyValues && (k !in before.keyValues || t.keyValues[k] != before.keyValues[k]) {
        assert m in ms && m.key == k && Became(m, t.keyValues[k], now);
      }
    }
  }

  /** After a delta every entry is the very entry held before, in a state that was not started over, or what a mutation
      of the delta becomes now. */
  lemma ReceivedIsDatedNow(s: NodeView, d: NodeDelta, now: Instant, k: Text)
    ensures var t := AfterEvent(s, Got(d, now));
            k in t.keyValues ==>
              || (k in s.keyValues && t.keyValues[k] == s.keyValues[k] && t.lastGcVersion == s.lastGcVersion)
              || Brought(d.keyValues, k, if t.lastGcVersion == s.lastGcVersion then s.maxVersion else 0, t.keyValues[k], now)
  {
    MutationsAreDatedNow(s, s.maxVersion, d.keyValues, now, k);
    MutationsAreDatedNow(ResetView(d), ResetView(d).maxVersion, d.keyValues, now, k);
    ApplyMutationsProgress(s, s.maxVersion, d.keyValues, now);
    ApplyMutationsProgress(ResetView(d), ResetView(d).maxVersion, d.keyValues, now);
  }

  // ---------- dates in a run ----------

  ghost function Before(s: NodeView, es: seq<Event>, i: nat): NodeView
    requires i <= |es|
  {
    AfterEvents(s, es[..i])
  }

  ghost predicate Holds(s: NodeView, k: Text, vv: VersionedValue) {
    k in s.keyValues && s.keyValues[k] == vv
  }

  /** The event by which the state took the entry. */
  ghost predicate TakenBy(before: NodeView, e: Event, k: Text, vv: VersionedValue) {
    match e
    case Wrote(op, at) => op.key == k && vv.version == before.maxVersion + 1 && ReadsBack(before, op, at, vv)
    case Collected(_, _) => false
    case Got(d, at) => exists m :: m in d.keyValues && m.key == k && Became(m, vv, at)
  }

  /** Taken by event i, and held ever since. */
  ghost predicate HeldSince(s: NodeView, es: seq<Event>, i: nat, k: Text, vv: VersionedValue)
    requires i < |es|
  {
    && TakenBy(Before(s, es, i), es[i], k, vv)
    && forall j | i < j <= |es| :: Holds(Before(s, es, j), k, vv)
  }

  predicate Parsed(es: seq<Event>) {
    forall e | e in es :: e.Got? ==> StrictlyIncreasing(e.delta.keyValues)
  }

  lemma CollectedIsNotNew(s: NodeView, at: Instant, grace: Instant, k: Text)
    ensures var t := AfterEvent(s, Collected(at, grace)); k in t.keyValues ==> Holds(s, k, t.keyValues[k])
  {
  }

  /** In any run, an entry that was not there from the start was taken by some event and held since then: its status is
      that of the write or the mutation, and a deletion counts from the time of that event. */
  lemma {:induction false} EntriesAreDatedByTheirEvents(s: NodeView, es: seq<Event>, k: Text)
    requires VersionsBounded(s) && VersionsDistinct(s) && Parsed(es)
    ensures var t := AfterEvents(s, es);
            k in t.keyValues ==> Holds(s, k, t.keyValues[k]) || exists i: nat | i < |es| :: HeldSince(s, es, i, k, t.keyValues[k])
  {
    hide VersionsBounded, VersionsDistinct, StrictlyIncreasing, AfterEvent, TakenBy;
    if es != [] {
      var n := |es| - 1;
      var init, e, t := es[..n], es[n], AfterEvents(s, es);
      var before := AfterEvents(s, init);
      assert forall x | x in init :: x in es;
      EntriesAreDatedByTheirEvents(s, init, k);
      VersionsStayDistinct(s, init);
      assert Before(s, es, n) == before;
      assert es[..n + 1] == es;
      if k in t.keyValues {
        var vv := t.keyValues[k];
        KeptOrTaken(before, e, k);
        if Holds(before, k, vv) {
          if i: nat :| i < n && HeldSince(s, init, i, k, vv) {
            forall j | i < j <= |es| ensures Holds(Before(s, es, j), k, vv) {
              assert j <= n ==> init[..j] == es[..j] && Holds(Before(s, init, j), k, vv);
            }
            assert init[..i] == es[..i];
            assert HeldSince(s, es, i, k, vv);
          }
        } else {
          assert HeldSince(s, es, n, k, vv);
        }
      }
    }
  }

  lemma KeptOrTaken(before: NodeView, e: Event, k: Text)
    requires VersionsBounded(before)
    ensures var t := AfterEvent(before, e);
            k in t.keyValues ==> Holds(before, k, t.keyValues[k]) || TakenBy(before, e, k, t.keyValues[k])
  {
    match e
    case Wrote(op, at) => WritesReadBack(before, op, at);
    case Collected(at, grace) => CollectedIsNotNew(before, at, grace, k);
    case Got(d, at) => ReceivedIsDatedNow(before, d, at, k);
  }

  // ---------- the grace period ----------

  /** It is time to collect the entry: it is marked for deletion, and that at least `grace` ago. */
  predicate Due(vv: VersionedValue, at: Instant, grace: Instant) {
    match vv.status
    case Set => false
    case Deleted(since) => since + grace <= at
    case DeleteAfterTtl(since) => since + grace <= at
  }

  /** A collection removes exactly the entries that are due, and records that it removed their versions. */
  lemma CollectionTakesWhatIsDue(s: NodeView, at: Instant, grace: Instant)
    ensures var t := AfterEvent(s, Collected(at, grace));
            && (forall k | k in s.keyValues :: if Due(s.keyValues[k], at, grace) then k !in t.keyValues else Holds(t, k, s.keyValues[k]))
            && (forall k | k in s.keyValues && Due(s.keyValues[k], at, grace) :: s.keyValues[k].version <= t.lastGcVersion)
            && (t.lastGcVersion == s.lastGcVersion
                || exists k :: k in s.keyValues && Due(s.keyValues[k], at, grace) && s.keyValues[k].version == t.lastGcVersion)
            && t.keyValues.Keys <= s.keyValues.Keys && s.lastGcVersion <= t.lastGcVersion
            && t.maxVersion == s.maxVersion && t.heartbeat == s.heartbeat
  {
    var t := AfterEvent(s, Collected(at, grace));
    forall k | k in s.keyValues && Due(s.keyValues[k], at, grace) ensures s.keyValues[k].version <= t.lastGcVersion {
      assert s.keyValues[k].version in ExpiredVersions(s.keyValues, at, grace);
    }
  }

  /** How a state can lose an entry: by a write to the key, by a collection when it is due, by a newer mutation of the
      key, and by starting over. */
  ghost predicate Loses(before: NodeView, e: Event, k: Text, vv: VersionedValue) {
    match e
    case Wrote(op, _) => op.key == k
    case Collected(at, grace) => Due(vv, at, grace)
    case Got(d, _) => StartsOver(before, e) || exists m :: m in d.keyValues && m.key == k && m.version > before.maxVersion
  }

  /** A delta raises lastGcVersion exactly when it makes the state start over. */
  ghost predicate StartsOver(before: NodeView, e: Event) {
    e.Got? && before.lastGcVersion < AfterEvent(before, e).lastGcVersion
  }

  lemma StartsOverExactly(before: NodeView, e: Event)
    ensures StartsOver(before, e) <==> e.Got? && Resets(before, e.delta)
  {
    if e.Got? {
      ApplyMutationsProgress(before, before.maxVersion, e.delta.keyValues, e.at);
      ApplyMutationsProgress(ResetView(e.delta), ResetView(e.delta).maxVersion, e.delta.keyValues, e.at);
    }
  }

  lemma NothingElseLoses(before: NodeView, e: Event, k: Text, vv: VersionedValue)
    requires VersionsBounded(before) && !Loses(before, e, k, vv)
    ensures Holds(before, k, vv) ==> Holds(AfterEvent(before, e), k, vv)
    ensures k !in before.keyValues ==> k !in AfterEvent(before, e).keyValues
  {
    match e
    case Wrote(op, at) => WritesReadBack(before, op, at);
    case Collected(at, grace) => CollectionTakesWhatIsDue(before, at, grace);
    case Got(d, at) =>
      StartsOverExactly(before, e);
      MutationsAreDatedNow(before, before.maxVersion, d.keyValues, at, k);
  }

  /** An entry that is lost in a run was lost in one of these ways. */
  lemma {:induction false} EntriesAreLostBy(s: NodeView, es: seq<Event>, k: Text, vv: VersionedValue)
    requires VersionsBounded(s) && VersionsDistinct(s) && Parsed(es) && Holds(s, k, vv)
    ensures Holds(AfterEvents(s, es), k, vv)
            || exists i: nat | i < |es| :: Holds(Before(s, es, i), k, vv) && Loses(Before(s, es, i), es[i], k, vv)
  {
    hide VersionsBounded, VersionsDistinct, StrictlyIncreasing, AfterEvent, Loses;
    if es != [] {
      var n := |es| - 1;
      var init, e := es[..n], es[n];
      assert forall x | x in init :: x in es;
      EntriesAreLostBy(s, init, k, vv);
      VersionsStayDistinct(s, init);
      if Holds(AfterEvents(s, init), k, vv) {
        assert Before(s, es, n) == AfterEvents(s, init);
        if !Loses(AfterEvents(s, init), e, k, vv) {
          NothingElseLoses(AfterEvents(s, init), e, k, vv);
        }
      } else {
        var i: nat :| i < n && Holds(Before(s, init, i), k, vv) && Loses(Before(s, init, i), init[i], k, vv);
        assert init[..i] == es[..i] && Before(s, es, i) == Before(s, init, i);
      }
    }
  }

  /** Nobody writes or sends the key anew, and the state is not started over. */
  ghost predicate Undisturbed(s: NodeView, es: seq<Event>, k: Text) {
    forall i: nat | i < |es| :: !es[i].Collected? ==> Untouched(Before(s, es, i), es[i], k)
  }

  ghost predicate Untouched(before: NodeView, e: Event, k: Text) {
    match e
    case Wrote(op, _) => op.key != k
    case Collected(_, _) => true
    case Got(d, _) => !StartsOver(before, e) && forall m | m in d.keyValues && m.key == k :: m.version <= before.maxVersion
  }

  lemma UndisturbedInit(s: NodeView, es: seq<Event>, k: Text)
    requires es != [] && Undisturbed(s, es, k)
    ensures Undisturbed(s, es[..|es| - 1], k)
    ensures !es[|es| - 1].Collected? ==> Untouched(AfterEvents(s, es[..|es| - 1]), es[|es| - 1], k)
  {
    hide Untouched;
    var n := |es| - 1;
    forall i: nat | i < n && !es[i].Collected? ensures Untouched(Before(s, es[..n], i), es[..n][i], k) {
      assert es[..n][..i] == es[..i] && Untouched(Before(s, es, i), es[i], k);
    }
    assert Before(s, es, n) == AfterEvents(s, es[..n]);
  }

  /** The grace period.  Undisturbed, an entry is there exactly until the first collection for which it is due; so a
      deletion is kept for the whole grace period and not beyond the collection after it, and what is set is kept.  Once
      collected, lastGcVersion tells. */
  lemma {:induction false} KeptForTheGracePeriod(s: NodeView, es: seq<Event>, k: Text, vv: VersionedValue)
    requires VersionsBounded(s) && VersionsDistinct(s) && Parsed(es) && Holds(s, k, vv) && Undisturbed(s, es, k)
    ensures var t := AfterEvents(s, es);
            if forall e | e in es && e.Collected? :: !Due(vv, e.at, e.grace) then Holds(t, k, vv)
            else k !in t.keyValues && vv.version <= t.lastGcVersion
  {
    hide VersionsBounded, VersionsDistinct, StrictlyIncreasing, AfterEvent, Due, Untouched;
    if es != [] {
      var n := |es| - 1;
      var init, e := es[..n], es[n];
      assert es == init + [e];
      UndisturbedInit(s, es, k);
      KeptForTheGracePeriod(s, init, k, vv);
      VersionsStayDistinct(s, init);
      UndisturbedStep(AfterEvents(s, init), e, k, vv);
    }
  }

  lemma UndisturbedStep(before: NodeView, e: Event, k: Text, vv: VersionedValue)
    requires VersionsBounded(before) && (e.Collected? || Untouched(before, e, k))
    ensures Holds(before, k, vv) ==>
              if e.Collected? && Due(vv, e.at, e.grace)
              then k !in AfterEvent(before, e).keyValues && vv.version <= AfterEvent(before, e).lastGcVersion
              else Holds(AfterEvent(before, e), k, vv)
    ensures k !in before.keyValues ==> k !in AfterEvent(before, e).keyValues
    ensures before.lastGcVersion <= AfterEvent(before, e).lastGcVersion
  {
    match e
    case Wrote(op, at) => WritesReadBack(before, op, at);
    case Collected(at, grace) => CollectionTakesWhatIsDue(before, at, grace);
    case Got(d, at) =>
      NothingElseLoses(before, e, k, vv);
      ApplyDeltaProgress(before, d, at);
  }

  /** A collection by a process takes what is due from what it knows of every node, and from no node anything else. */
  lemma ProcessesCollectWhatIsDue(views: Views, at: Instant, grace: Instant, id: ChitchatId)
    requires id in views
    ensures var after := CollectAll(views, at, grace);
            && after.Keys == views.Keys && after[id].maxVersion == views[id].maxVersion && after[id].heartbeat == views[id].heartbeat
            && (forall k | k in views[id].keyValues ::
                  if Due(views[id].keyValues[k], at, grace)
                  then k !in after[id].keyValues && views[id].keyValues[k].version <= after[id].lastGcVersion
                  else Holds(after[id], k, views[id].keyValues[k]))
  {
    CollectionTakesWhatIsDue(views[id], at, grace);
    hide Collect;
  }
}
