/**
 * Tasks of the blob cache interleaved: single-flight fetching, verified publication, pins and eviction. Each step is what
 * one task does under one lock, or one file operation.
 */
module BlobRuns {
  import opened Bytes
  import opened BlobIndexes
  import opened Tallies

  datatype Pc =
    | Idle
    /** Looked the key up and missed; not yet at the in-flight map. */
    | Missed(key: Key)
    | Waiting(key: Key, channel: nat)
    | Fetching(key: Key, channel: nat)
    /** Renamed the verified file into place; its index entry is still to come. */
    | Placed(key: Key, channel: nat, size: nat)
    | Evicting(key: Key, channel: nat)
    | Settling(key: Key, channel: nat, ok: bool)
    | Sending(key: Key, channel: nat, ok: bool)
    | Ready(key: Key)
    | Opened(key: Key)

  /** What went out on a channel: whether the fetch of a key succeeded. */
  datatype Sent = Sent(key: Key, ok: bool)

  datatype State = State(
    index: Index, files: map<Key, ByteString>, inflight: map<Key, nat>, sent: map<nat, Sent>, tasks: seq<Pc>, nextChannel: nat)

  datatype Event =
    | Touch(t: nat, key: Key)
    | Join(t: nat)
    | FetchFailed(t: nat)
    | Publish(t: nat, content: ByteString)
    | Enter(t: nat)
    | Evict(t: nat, order: seq<Key>, stuck: set<Key>)
    | Settle(t: nat)
    | Send(t: nat)
    | Receive(t: nat)
    | PinReady(t: nat)
    | Finish(t: nat)
    | Release(t: nat)

  datatype World = World(hash: ByteString -> Key, quota: nat)

  ghost predicate Enabled(s: State, e: Event) {
    e.t < |s.tasks|
    && var pc := s.tasks[e.t];
       match e
       case Touch(_, _) => pc.Idle?
       case Join(_) => pc.Missed?
       case FetchFailed(_) => pc.Fetching?
       case Publish(_, _) => pc.Fetching?
       case Enter(_) => pc.Placed?
       case Evict(_, order, stuck) => pc.Evicting? && Candidates(s.index, order) && stuck <= s.files.Keys
       case Settle(_) => pc.Settling?
       case Send(_) => pc.Sending?
       case Receive(_) => pc.Waiting? && pc.channel in s.sent
       case PinReady(_) => pc.Ready?
       case Finish(_) => pc.Ready?
       case Release(_) => pc.Opened?
  }

  function At(s: State, t: nat, pc: Pc): State
    requires t < |s.tasks|
  {
    s.(tasks := s.tasks[t := pc])
  }

  function Outcome(key: Key, ok: bool): Pc {
    if ok then Ready(key) else Idle
  }

  function Step(w: World, s: State, e: Event): State
    requires Enabled(s, e)
  {
    var pc := s.tasks[e.t];
    match e
    case Touch(t, key) =>
      var (index, hit) := Use(s.index, key);
      At(s, t, if hit then Ready(key) else Missed(key)).(index := index)
    case Join(t) =>
      if pc.key in s.inflight then At(s, t, Waiting(pc.key, s.inflight[pc.key]))
      else
        At(s, t, Fetching(pc.key, s.nextChannel))
        .(inflight := s.inflight[pc.key := s.nextChannel], nextChannel := s.nextChannel + 1)
    case FetchFailed(t) => At(s, t, Settling(pc.key, pc.channel, false))
    case Publish(t, content) =>
      if w.hash(content) != pc.key then At(s, t, Settling(pc.key, pc.channel, false))
      else At(s, t, Placed(pc.key, pc.channel, |content|)).(files := s.files[pc.key := content])
    case Enter(t) => At(s, t, Evicting(pc.key, pc.channel)).(index := Insert(s.index, pc.key, pc.size))
    case Evict(t, order, stuck) =>
      var index := EvictAlong(s.index, order, w.quota, stuck);
      At(s, t, Settling(pc.key, pc.channel, true)).(index := index, files := s.files - (s.index.entries.Keys - index.entries.Keys))
    case Settle(t) => At(s, t, Sending(pc.key, pc.channel, pc.ok)).(inflight := s.inflight - {pc.key})
    case Send(t) => At(s, t, Outcome(pc.key, pc.ok)).(sent := s.sent[pc.channel := Sent(pc.key, pc.ok)])
    case Receive(t) => At(s, t, Outcome(pc.key, s.sent[pc.channel].ok))
    case PinReady(t) =>
      var (index, present) := Pin(s.index, pc.key);
      At(s, t, if present then Opened(pc.key) else Idle).(index := index)
    case Finish(t) => At(s, t, Idle)
    case Release(t) => At(s, t, Idle).(index := Unpin(s.index, pc.key))
  }

  /** A hit needs no fetch; a miss joins the fetch of its key, or starts it when there is none. */
  lemma HitJoinOrFetch(w: World, s: State, e: Event)
    requires Enabled(s, e) && (e.Touch? || e.Join?)
    ensures Step(w, s, e).files == s.files && Step(w, s, e).sent == s.sent && Step(w, s, e).index.entries.Keys == s.index.entries.Keys
    ensures e.Touch? ==>
            && Step(w, s, e).tasks[e.t] == (if e.key in s.index.entries then Ready(e.key) else Missed(e.key))
            && Step(w, s, e).inflight == s.inflight
    ensures e.Join? ==>
            var key := s.tasks[e.t].key;
            if key in s.inflight then
              Step(w, s, e).tasks[e.t] == Waiting(key, s.inflight[key]) && Step(w, s, e).inflight == s.inflight
            else
              Step(w, s, e).tasks[e.t] == Fetching(key, s.nextChannel) && Step(w, s, e).inflight == s.inflight[key := s.nextChannel]
  {
  }

  /** Content that does not hash to its key is written nowhere and fails the fetch; content that does is in place before it is indexed. */
  lemma OnlyVerifiedIsPlaced(w: World, s: State, t: nat, content: ByteString)
    requires Enabled(s, Publish(t, content))
    ensures var after, key, channel := Step(w, s, Publish(t, content)), s.tasks[t].key, s.tasks[t].channel;
            && after.index == s.index
            && if w.hash(content) == key then after.files == s.files[key := content] && after.tasks[t] == Placed(key, channel, |content|)
               else after.files == s.files && after.tasks[t] == Settling(key, channel, false)
  {
  }

  /** A fetch that fails is reported as one, and one that published as done: to the fetcher's caller and on its channel. */
  lemma OutcomeIsReported(w: World, s: State, e: Event)
    requires Enabled(s, e)
    ensures var key := if s.tasks[e.t].Fetching? || s.tasks[e.t].Evicting? || s.tasks[e.t].Settling? || s.tasks[e.t].Sending?
                       then s.tasks[e.t].key else [];
            var after := Step(w, s, e);
            && (e.FetchFailed? ==> after == s.(tasks := s.tasks[e.t := Settling(key, s.tasks[e.t].channel, false)]))
            && (e.Evict? ==> after.tasks[e.t] == Settling(key, s.tasks[e.t].channel, true))
            && (e.Settle? ==>
                  after.tasks[e.t] == Sending(key, s.tasks[e.t].channel, s.tasks[e.t].ok) && after.inflight == s.inflight - {key})
            && (e.Send? ==>
                  && after.sent == s.sent[s.tasks[e.t].channel := Sent(key, s.tasks[e.t].ok)]
                  && after.tasks[e.t] == if s.tasks[e.t].ok then Ready(key) else Idle)
            && (e.Receive? ==> after.tasks[e.t] == Outcome(s.tasks[e.t].key, s.sent[s.tasks[e.t].channel].ok))
    ensures Outcome([], true) == Ready([]) && Outcome([], false) == Idle
  {
    hide Candidates;
    hide EvictAlong;
  }

  /** An open succeeds exactly when the key is indexed, with one more pin; a release takes one away, down to none. */
  lemma OpenAndRelease(w: World, s: State, e: Event)
    requires Enabled(s, e) && (e.PinReady? || e.Release?)
    ensures var after, key := Step(w, s, e), s.tasks[e.t].key;
            && after.files == s.files && after.index.entries.Keys == s.index.entries.Keys
            && (e.PinReady? ==> after.tasks[e.t] == if key in s.index.entries then Opened(key) else Idle)
            && (e.PinReady? && key in s.index.entries ==> after.index.entries[key].pins == s.index.entries[key].pins + 1)
            && (e.Release? ==> after.tasks[e.t] == Idle)
            && (e.Release? && key in s.index.entries ==>
                  after.index.entries[key].pins == if s.index.entries[key].pins == 0 then 0 else s.index.entries[key].pins - 1)
  {
  }

  // ---------------------------------------------------------------------------
  // Single flight
  // ---------------------------------------------------------------------------

  /** A task whose sender is in the in-flight map. */
  predicate Registered(pc: Pc) {
    pc.Fetching? || pc.Placed? || pc.Evicting? || pc.Settling?
  }

  /** A task that has yet to send on its channel. */
  predicate Owns(pc: Pc) {
    Registered(pc) || pc.Sending?
  }

  /** Every registered task is the one under its key. */
  predicate Listed(tasks: seq<Pc>, inflight: map<Key, nat>) {
    forall t :: 0 <= t < |tasks| && Registered(tasks[t]) ==>
      tasks[t].key in inflight && inflight[tasks[t].key] == tasks[t].channel
  }

  /** Every key in flight has a task that registered it. */
  predicate Flown(tasks: seq<Pc>, inflight: map<Key, nat>) {
    forall k <- inflight :: exists t :: 0 <= t < |tasks| && Registered(tasks[t]) && tasks[t].key == k
  }

  /** No two tasks send on one channel. */
  predicate OwnChannels(tasks: seq<Pc>) {
    forall t, u :: 0 <= t < u < |tasks| && Owns(tasks[t]) && Owns(tasks[u]) ==> tasks[t].channel != tasks[u].channel
  }

  /** Channels are numbered as they are made. */
  predicate OldChannels(tasks: seq<Pc>, sent: map<nat, Sent>, next: nat) {
    && (forall t :: 0 <= t < |tasks| && Owns(tasks[t]) ==> tasks[t].channel < next)
    && (forall c <- sent :: c < next)
  }

  /** A channel still to be sent on has carried nothing. */
  predicate Unsent(tasks: seq<Pc>, sent: map<nat, Sent>) {
    forall t :: 0 <= t < |tasks| && Owns(tasks[t]) ==> tasks[t].channel !in sent
  }

  predicate HasSender(tasks: seq<Pc>, key: Key, channel: nat) {
    exists t :: 0 <= t < |tasks| && Owns(tasks[t]) && tasks[t].key == key && tasks[t].channel == channel
  }

  /** A channel carries, or is still to carry, the result for a key. */
  predicate Answers(tasks: seq<Pc>, sent: map<nat, Sent>, key: Key, channel: nat) {
    HasSender(tasks, key, channel) || (channel in sent && sent[channel].key == key)
  }

  /** Every waiter's channel answers for the waiter's key. */
  predicate Heard(tasks: seq<Pc>, sent: map<nat, Sent>) {
    forall t :: 0 <= t < |tasks| && tasks[t].Waiting? ==> Answers(tasks, sent, tasks[t].key, tasks[t].channel)
  }

  predicate SingleFlight(s: State) {
    && Listed(s.tasks, s.inflight) && Flown(s.tasks, s.inflight)
    && OwnChannels(s.tasks) && OldChannels(s.tasks, s.sent, s.nextChannel) && Unsent(s.tasks, s.sent) && Heard(s.tasks, s.sent)
  }

  /** Two tasks never fetch one key. */
  lemma OneFetcher(s: State, t: nat, u: nat)
    requires SingleFlight(s) && t < |s.tasks| && u < |s.tasks|
    requires Registered(s.tasks[t]) && Registered(s.tasks[u])
    ensures s.tasks[t].key == s.tasks[u].key ==> t == u
  {
    hide Heard;
    hide Flown;
    hide OldChannels;
    if s.tasks[t].key == s.tasks[u].key {
      assert s.tasks[t].channel == s.tasks[u].channel;
    }
  }

  /** A sender stays one while its task keeps its channel. */
  lemma SenderStays(tasks: seq<Pc>, t: nat, pc: Pc, key: Key, channel: nat)
    requires t < |tasks| && HasSender(tasks, key, channel)
    requires Owns(tasks[t]) ==> Owns(pc) && pc.key == tasks[t].key && pc.channel == tasks[t].channel
    ensures HasSender(tasks[t := pc], key, channel)
  {
    var v :| 0 <= v < |tasks| && Owns(tasks[v]) && tasks[v].key == key && tasks[v].channel == channel;
    var after := tasks[t := pc];
    assert Owns(after[v]) && after[v].key == key && after[v].channel == channel;
  }

  lemma StillHeard(tasks: seq<Pc>, sent: map<nat, Sent>, t: nat, pc: Pc)
    requires t < |tasks| && Heard(tasks, sent)
    requires Owns(tasks[t]) ==> Owns(pc) && pc.key == tasks[t].key && pc.channel == tasks[t].channel
    requires pc.Waiting? ==> HasSender(tasks, pc.key, pc.channel)
    ensures Heard(tasks[t := pc], sent)
  {
    hide Owns;
    hide HasSender;
    var after := tasks[t := pc];
    forall u | 0 <= u < |after| && after[u].Waiting? ensures Answers(after, sent, after[u].key, after[u].channel) {
      if u != t {
        assert Answers(tasks, sent, tasks[u].key, tasks[u].channel);
      }
      if HasSender(tasks, after[u].key, after[u].channel) {
        SenderStays(tasks, t, pc, after[u].key, after[u].channel);
      }
    }
  }

  /** The send itself is what its subscribers were waiting for. */
  lemma HeardAfterSend(tasks: seq<Pc>, sent: map<nat, Sent>, t: nat, pc: Pc)
    requires t < |tasks| && tasks[t].Sending? && !pc.Waiting? && Heard(tasks, sent) && Unsent(tasks, sent)
    requires OwnChannels(tasks)
    ensures Heard(tasks[t := pc], sent[tasks[t].channel := Sent(tasks[t].key, tasks[t].ok)])
  {
    var after, sent' := tasks[t := pc], sent[tasks[t].channel := Sent(tasks[t].key, tasks[t].ok)];
    forall u | 0 <= u < |after| && after[u].Waiting? ensures Answers(after, sent', after[u].key, after[u].channel) {
      assert u != t && Answers(tasks, sent, tasks[u].key, tasks[u].channel);
      hide Heard;
      if HasSender(tasks, tasks[u].key, tasks[u].channel) {
        var v :| 0 <= v < |tasks| && Owns(tasks[v]) && tasks[v].key == tasks[u].key && tasks[v].channel == tasks[u].channel;
        assert v != t ==> Owns(after[v]) && after[v].key == after[u].key && after[v].channel == after[u].channel;
      }
    }
  }

  lemma StillFlown(tasks: seq<Pc>, inflight: map<Key, nat>, t: nat, pc: Pc, after: map<Key, nat>)
    requires t < |tasks| && Flown(tasks, inflight)
    requires forall k <- after :: k in inflight || (Registered(pc) && pc.key == k)
    requires Registered(tasks[t]) ==> tasks[t].key !in after || (Registered(pc) && pc.key == tasks[t].key)
    ensures Flown(tasks[t := pc], after)
  {
    var tasks' := tasks[t := pc];
    forall k <- after ensures exists u :: 0 <= u < |tasks'| && Registered(tasks'[u]) && tasks'[u].key == k {
      if k in inflight {
        var u :| 0 <= u < |tasks| && Registered(tasks[u]) && tasks[u].key == k;
        assert u != t ==> tasks'[u] == tasks[u];
        assert u == t ==> Registered(tasks'[t]) && tasks'[t].key == k;
      } else {
        assert Registered(tasks'[t]) && tasks'[t].key == k;
      }
    }
  }

  /** A task moves on without changing its key, its channel or its part in the fetch. */
  predicate SamePart(a: Pc, b: Pc) {
    && Registered(a) == Registered(b) && Owns(a) == Owns(b) && !b.Waiting?
    && (Owns(a) ==> a.key == b.key && a.channel == b.channel)
  }

  lemma QuietStep(s: State, t: nat, pc: Pc)
    requires SingleFlight(s) && t < |s.tasks| && SamePart(s.tasks[t], pc)
    ensures SingleFlight(At(s, t, pc))
  {
    hide Registered;
    StillHeard(s.tasks, s.sent, t, pc);
    hide Heard;
    StillFlown(s.tasks, s.inflight, t, pc, s.inflight);
    hide Flown;
  }

  lemma FlightHasSender(tasks: seq<Pc>, inflight: map<Key, nat>, key: Key)
    requires Listed(tasks, inflight) && Flown(tasks, inflight) && key in inflight
    ensures HasSender(tasks, key, inflight[key])
  {
    var v :| 0 <= v < |tasks| && Registered(tasks[v]) && tasks[v].key == key;
  }

  lemma WaitStep(s: State, t: nat, key: Key)
    requires SingleFlight(s) && t < |s.tasks| && s.tasks[t] == Missed(key) && key in s.inflight
    ensures SingleFlight(At(s, t, Waiting(key, s.inflight[key])))
  {
    hide HasSender;
    hide Answers;
    var pc := Waiting(key, s.inflight[key]);
    FlightHasSender(s.tasks, s.inflight, key);
    StillHeard(s.tasks, s.sent, t, pc);
    hide Heard;
    StillFlown(s.tasks, s.inflight, t, pc, s.inflight);
    hide Flown;
  }

  lemma FetchStep(s: State, t: nat, key: Key)
    requires SingleFlight(s) && t < |s.tasks| && s.tasks[t] == Missed(key) && key !in s.inflight
    ensures SingleFlight(At(s, t, Fetching(key, s.nextChannel)).(inflight := s.inflight[key := s.nextChannel], nextChannel := s.nextChannel + 1))
  {
    var pc := Fetching(key, s.nextChannel);
    StillHeard(s.tasks, s.sent, t, pc);
    hide Heard;
    StillFlown(s.tasks, s.inflight, t, pc, s.inflight[key := s.nextChannel]);
    hide Flown;
  }

  lemma SettleStep(s: State, t: nat)
    requires SingleFlight(s) && t < |s.tasks| && s.tasks[t].Settling?
    ensures var pc := s.tasks[t];
            SingleFlight(At(s, t, Sending(pc.key, pc.channel, pc.ok)).(inflight := s.inflight - {pc.key}))
  {
    var pc := s.tasks[t];
    var next := Sending(pc.key, pc.channel, pc.ok);
    forall u | 0 <= u < |s.tasks| && Registered(s.tasks[u]) ensures s.tasks[u].key == pc.key ==> u == t {
      OneFetcher(s, u, t);
    }
    StillHeard(s.tasks, s.sent, t, next);
    StillFlown(s.tasks, s.inflight, t, next, s.inflight - {pc.key});
    hide Heard;
    hide Flown;
  }

  lemma SendStep(s: State, t: nat)
    requires SingleFlight(s) && t < |s.tasks| && s.tasks[t].Sending?
    ensures var pc := s.tasks[t];
            SingleFlight(At(s, t, Outcome(pc.key, pc.ok)).(sent := s.sent[pc.channel := Sent(pc.key, pc.ok)]))
  {
    var pc := s.tasks[t];
    HeardAfterSend(s.tasks, s.sent, t, Outcome(pc.key, pc.ok));
    hide Heard;
    StillFlown(s.tasks, s.inflight, t, Outcome(pc.key, pc.ok), s.inflight);
    hide Flown;
  }

  /** Everything but joining, settling and sending leaves the flight alone. */
  lemma OtherSteps(w: World, s: State, e: Event)
    requires Enabled(s, e) && !e.Join? && !e.Settle? && !e.Send?
    ensures var after := Step(w, s, e);
            && after.tasks == s.tasks[e.t := after.tasks[e.t]] && after.inflight == s.inflight && after.sent == s.sent
            && after.nextChannel == s.nextChannel
            && SamePart(s.tasks[e.t], after.tasks[e.t])
  {
    hide Candidates;
    hide EvictAlong;
  }

  lemma StepFlies(w: World, s: State, e: Event)
    requires SingleFlight(s) && Enabled(s, e)
    ensures SingleFlight(Step(w, s, e))
  {
    hide SingleFlight;
    hide Candidates;
    if e.Join? {
      if s.tasks[e.t].key in s.inflight {
        WaitStep(s, e.t, s.tasks[e.t].key);
      } else {
        FetchStep(s, e.t, s.tasks[e.t].key);
      }
    } else if e.Settle? {
      SettleStep(s, e.t);
    } else if e.Send? {
      SendStep(s, e.t);
    } else {
      OtherSteps(w, s, e);
      QuietStep(s, e.t, Step(w, s, e).tasks[e.t]);
      hide Step;
      SameFlight(At(s, e.t, Step(w, s, e).tasks[e.t]), Step(w, s, e));
    }
  }

  lemma SameFlight(a: State, b: State)
    requires SingleFlight(a) && a.tasks == b.tasks && a.inflight == b.inflight && a.sent == b.sent && a.nextChannel == b.nextChannel
    ensures SingleFlight(b)
  {
  }

  // ---------------------------------------------------------------------------
  // Contents and sizes
  // ---------------------------------------------------------------------------

  /** Every file in place hashes to its key, and one just placed has the size its task is about to enter. */
  ghost predicate Verified(w: World, s: State) {
    && (forall k <- s.files :: w.hash(s.files[k]) == k)
    && (forall t :: 0 <= t < |s.tasks| && s.tasks[t].Placed? && s.tasks[t].key in s.files ==>
          |s.files[s.tasks[t].key]| == s.tasks[t].size)
  }

  lemma StepVerifies(w: World, s: State, e: Event)
    requires Enabled(s, e) && Verified(w, s) && SingleFlight(s)
    ensures Verified(w, Step(w, s, e))
  {
    var after := Step(w, s, e);
    hide *;
    forall k <- after.files ensures w.hash(after.files[k]) == k {
      FileVerified(w, s, e, k);
    }
    forall t | 0 <= t < |after.tasks| && after.tasks[t].Placed? && after.tasks[t].key in after.files
      ensures |after.files[after.tasks[t].key]| == after.tasks[t].size
    {
      PlacedVerified(w, s, e, t);
    }
    VerifiedEach(w, after);
  }

  lemma VerifiedEach(w: World, s: State)
    requires forall k <- s.files :: w.hash(s.files[k]) == k
    requires forall t :: 0 <= t < |s.tasks| && s.tasks[t].Placed? && s.tasks[t].key in s.files ==>
               |s.files[s.tasks[t].key]| == s.tasks[t].size
    ensures Verified(w, s)
  {
  }

  lemma FileVerified(w: World, s: State, e: Event, k: Key)
    requires Enabled(s, e) && Verified(w, s) && k in Step(w, s, e).files
    ensures w.hash(Step(w, s, e).files[k]) == k
  {
    hide Candidates;
    hide EvictAlong;
  }

  lemma PlacedVerified(w: World, s: State, e: Event, t: nat)
    requires Enabled(s, e) && Verified(w, s) && SingleFlight(s)
    requires var after := Step(w, s, e); t < |after.tasks| && after.tasks[t].Placed? && after.tasks[t].key in after.files
    ensures var after := Step(w, s, e); |after.files[after.tasks[t].key]| == after.tasks[t].size
  {
    if e.Publish? && t != e.t && s.tasks[t].Placed? {
      OneFetcher(s, t, e.t);
    }
    hide SingleFlight;
    hide Candidates;
    hide EvictAlong;
  }

  lemma StepCounts(w: World, s: State, e: Event)
    requires Enabled(s, e) && Counted(s.index)
    ensures Counted(Step(w, s, e).index)
  {
    hide Counted;
    match e {
      case Touch(_, key) => UseCounts(s.index, key);
      case PinReady(_) => UseCounts(s.index, s.tasks[e.t].key);
      case Release(_) => UseCounts(s.index, s.tasks[e.t].key);
      case Enter(_) => InsertCounts(s.index, s.tasks[e.t].key, s.tasks[e.t].size);
      case Evict(_, order, stuck) => EvictCounts(w, s, order, stuck);
      case _ =>
    }
  }

  lemma EvictCounts(w: World, s: State, order: seq<Key>, stuck: set<Key>)
    requires Counted(s.index) && Candidates(s.index, order)
    ensures var index := EvictAlong(s.index, order, w.quota, stuck);
            && Counted(index)
            && (forall k <- index.entries :: k in s.index.entries && index.entries[k] == s.index.entries[k])
            && (forall k <- s.index.entries :: k !in index.entries ==> s.index.entries[k].pins == 0)
  {
    hide Counted;
    NothingStuckYet(s.index, order, stuck);
    EvictsToQuota(s.index, order, w.quota, stuck);
  }

  lemma NothingStuckYet(ix: Index, order: seq<Key>, stuck: set<Key>)
    requires Candidates(ix, order)
    ensures EvictionOrder(ix, order, stuck)
  {
  }

  // ---------------------------------------------------------------------------
  // Runs
  // ---------------------------------------------------------------------------

  /** A daemon starts with what an earlier one verified and left behind, nothing pinned and nothing in flight. */
  ghost predicate Initial(w: World, s: State) {
    && Verified(w, s) && Backed(s) && Counted(s.index) && s.inflight == map[] && s.sent == map[]
    && (forall t :: 0 <= t < |s.tasks| ==> s.tasks[t] == Idle)
    && (forall k <- s.index.entries :: s.index.entries[k].pins == 0)
  }

  ghost predicate Runs(w: World, s: State, events: seq<Event>)
    decreases |events|, 0
  {
    |events| == 0
    || (Runs(w, s, events[..|events| - 1]) && Enabled(After(w, s, events[..|events| - 1]), events[|events| - 1]))
  }

  ghost function After(w: World, s: State, events: seq<Event>): State
    requires Runs(w, s, events)
    decreases |events|, 1
  {
    if |events| == 0 then s else Step(w, After(w, s, events[..|events| - 1]), events[|events| - 1])
  }

  lemma StartsSound(w: World, s: State)
    requires Initial(w, s)
    ensures SingleFlight(s)
  {
  }

  /** In every run each file in place hashes to its key, the byte count is the sum indexed, and fetching is single-flight. */
  lemma {:induction false} EveryRun(w: World, s: State, events: seq<Event>)
    requires Initial(w, s) && Runs(w, s, events)
    ensures var now := After(w, s, events);
            SingleFlight(now) && Verified(w, now) && Counted(now.index)
    decreases |events|
  {
    hide Step;
    hide SingleFlight;
    hide Verified;
    hide Counted;
    hide Enabled;
    hide Initial;
    if |events| == 0 {
      StartsSound(w, s);
      Unpack(w, s);
    } else {
      var rest, last := events[..|events| - 1], events[|events| - 1];
      EveryRun(w, s, rest);
      StepFlies(w, After(w, s, rest), last);
      StepVerifies(w, After(w, s, rest), last);
      StepCounts(w, After(w, s, rest), last);
    }
  }

  lemma Unpack(w: World, s: State)
    requires Initial(w, s)
    ensures Verified(w, s) && Counted(s.index)
  {
  }

  /** A key is in flight exactly while one task fetches it, so taking the sender out never fails. */
  lemma InFlightExactly(w: World, s: State, events: seq<Event>, key: Key)
    requires Initial(w, s) && Runs(w, s, events)
    ensures var now := After(w, s, events);
            && (key in now.inflight <==> exists t :: 0 <= t < |now.tasks| && Registered(now.tasks[t]) && now.tasks[t].key == key)
            && (forall t, u | 0 <= t < |now.tasks| && 0 <= u < |now.tasks| && Registered(now.tasks[t]) && Registered(now.tasks[u]) ::
                  now.tasks[t].key == now.tasks[u].key ==> t == u)
  {
    EveryRun(w, s, events);
    var now := After(w, s, events);
    hide Runs;
    hide After;
    forall t, u | 0 <= t < |now.tasks| && 0 <= u < |now.tasks| && Registered(now.tasks[t]) && Registered(now.tasks[u])
      ensures now.tasks[t].key == now.tasks[u].key ==> t == u
    {
      OneFetcher(now, t, u);
    }
  }

  /**
   * Every joiner's channel has carried, or is still to carry by a task of its own key, one result: its key's. That result
   * is what the joiner receives, however late.
   */
  lemma JoinersAreHeard(w: World, s: State, events: seq<Event>, u: nat)
    requires Initial(w, s) && Runs(w, s, events)
    requires var now := After(w, s, events); u < |now.tasks| && now.tasks[u].Waiting?
    ensures var now := After(w, s, events);
            var key, channel := now.tasks[u].key, now.tasks[u].channel;
            && (channel in now.sent <==> !HasSender(now.tasks, key, channel))
            && (channel in now.sent <==> Enabled(now, Receive(u)))
            && (channel in now.sent ==>
                  now.sent[channel].key == key && Step(w, now, Receive(u)).tasks[u] == Outcome(key, now.sent[channel].ok))
  {
    EveryRun(w, s, events);
    var now := After(w, s, events);
    hide Runs;
    hide After;
    HeardFrom(now, u);
  }

  lemma HeardFrom(s: State, u: nat)
    requires SingleFlight(s) && u < |s.tasks| && s.tasks[u].Waiting?
    ensures s.tasks[u].channel in s.sent <==> !HasSender(s.tasks, s.tasks[u].key, s.tasks[u].channel)
    ensures s.tasks[u].channel in s.sent ==> s.sent[s.tasks[u].channel].key == s.tasks[u].key
  {
    hide Listed;
    hide Flown;
    hide OldChannels;
    assert Answers(s.tasks, s.sent, s.tasks[u].key, s.tasks[u].channel);
  }

  lemma UnsentYet(s: State, t: nat)
    requires SingleFlight(s) && t < |s.tasks| && s.tasks[t].Sending?
    ensures s.tasks[t].channel !in s.sent
  {
  }

  /** What went out on a channel is never replaced, so a joiner that receives late receives the same. */
  lemma SentIsFinal(w: World, s: State, events: seq<Event>, e: Event, channel: nat)
    requires Initial(w, s) && Runs(w, s, events) && Enabled(After(w, s, events), e)
    requires channel in After(w, s, events).sent
    ensures var now := After(w, s, events);
            var after := Step(w, now, e);
            channel in after.sent && after.sent[channel] == now.sent[channel]
  {
    EveryRun(w, s, events);
    var now := After(w, s, events);
    hide Runs;
    hide After;
    hide Initial;
    if e.Send? {
      UnsentYet(now, e.t);
    }
    hide SingleFlight;
    hide Verified;
    hide Counted;
    hide Candidates;
    hide EvictAlong;
  }

  // ---------------------------------------------------------------------------
  // Pins
  // ---------------------------------------------------------------------------

  function OpenOn(key: Key): Pc -> nat {
    (pc: Pc) => if pc == Opened(key) then 1 else 0
  }

  /** How many tasks hold a key open. */
  function Opens(s: State, key: Key): nat {
    Sum(s.tasks, OpenOn(key))
  }

  /** Pins count the open handles, and what is open is indexed. */
  predicate PinsRight(s: State, key: Key) {
    if key in s.index.entries then s.index.entries[key].pins == Opens(s, key) else Opens(s, key) == 0
  }

  ghost predicate PinsExact(s: State) {
    forall k: Key :: PinsRight(s, k)
  }

  /** How a step changes the number of open handles on a key. */
  lemma StepOpens(w: World, s: State, e: Event, key: Key)
    requires Enabled(s, e)
    ensures Opens(Step(w, s, e), key) + OpenOn(key)(s.tasks[e.t]) == Opens(s, key) + OpenOn(key)(Step(w, s, e).tasks[e.t])
  {
    hide Candidates;
    hide EvictAlong;
    SumUpdate(s.tasks, OpenOn(key), e.t, Step(w, s, e).tasks[e.t]);
  }

  lemma OpensAtLeast(s: State, t: nat, key: Key)
    requires t < |s.tasks|
    ensures Opens(s, key) >= OpenOn(key)(s.tasks[t])
  {
    SumAtLeast(s.tasks, OpenOn(key), t);
  }

  /** Every step but entering a key keeps the pins of every key right; in particular eviction takes nothing that is open. */
  lemma StepKeepsPins(w: World, s: State, e: Event, key: Key)
    requires Enabled(s, e) && PinsRight(s, key) && Counted(s.index)
    requires e.Enter? ==> key != s.tasks[e.t].key || Opens(s, key) == 0
    ensures PinsRight(Step(w, s, e), key)
  {
    hide Counted;
    hide EvictAlong;
    hide Candidates;
    hide Opens;
    StepOpens(w, s, e, key);
    if e.Evict? {
      EvictCounts(w, s, e.order, e.stuck);
    } else if e.Release? {
      OpensAtLeast(s, e.t, key);
    }
  }

  /** An index entry is not made for a key somebody has open. */
  predicate KeepsPins(s: State, e: Event) {
    e.Enter? && e.t < |s.tasks| && s.tasks[e.t].Placed? ==> Opens(s, s.tasks[e.t].key) == 0
  }

  /** A step keeps the pins right exactly when it makes no entry for an open key: entering starts the count again. */
  lemma StepKeepsPinsExactly(w: World, s: State, e: Event)
    requires Enabled(s, e) && PinsExact(s) && Counted(s.index)
    ensures PinsExact(Step(w, s, e)) <==> KeepsPins(s, e)
  {
    var key := if e.Enter? then s.tasks[e.t].key else [];
    StepOpens(w, s, e, key);
    hide Opens;
    hide Counted;
    hide Candidates;
    hide EvictAlong;
    if KeepsPins(s, e) {
      forall k: Key ensures PinsRight(Step(w, s, e), k) {
        assert PinsRight(s, k);
        hide PinsRight;
        StepKeepsPins(w, s, e, k);
      }
    } else {
      assert !PinsRight(Step(w, s, e), key);
    }
  }

  /** Something holds in every state of a run. */
  ghost predicate Throughout(w: World, s: State, events: seq<Event>, holds: State -> bool)
    requires Runs(w, s, events)
    decreases |events|
  {
    holds(After(w, s, events)) && (|events| > 0 ==> Throughout(w, s, events[..|events| - 1], holds))
  }

  /** Something holds of every step of a run, in the state it is taken in. */
  ghost predicate EachStep(w: World, s: State, events: seq<Event>, holds: (State, Event) -> bool)
    requires Runs(w, s, events)
    decreases |events|
  {
    |events| > 0 ==>
      var rest := events[..|events| - 1];
      holds(After(w, s, rest), events[|events| - 1]) && EachStep(w, s, rest, holds)
  }

  /** Pins count the open handles in every state of a run exactly when the run never makes an entry for an open key. */
  lemma {:induction false} RunKeepsPinsExactly(w: World, s: State, events: seq<Event>)
    requires Initial(w, s) && Runs(w, s, events)
    ensures Throughout(w, s, events, now => PinsExact(now)) <==> EachStep(w, s, events, KeepsPins)
    decreases |events|
  {
    if |events| == 0 {
      forall k: Key ensures PinsRight(s, k) {
        SumZero(s.tasks, OpenOn(k));
      }
    } else {
      var rest, last := events[..|events| - 1], events[|events| - 1];
      RunKeepsPinsExactly(w, s, rest);
      EveryRun(w, s, rest);
      var now := After(w, s, rest);
      hide PinsExact;
      hide KeepsPins;
      hide Step;
      hide Initial;
      hide SingleFlight;
      hide Counted;
      if PinsExact(now) {
        StepKeepsPinsExactly(w, now, last);
      }
    }
  }

  // ---------------------------------------------------------------------------
  // Files behind entries
  // ---------------------------------------------------------------------------

  /** Every indexed key has its file, of the indexed size. */
  predicate Backed(s: State) {
    forall k <- s.index.entries :: k in s.files && s.index.entries[k].size == |s.files[k]|
  }

  /** The file is still there when its entry is made, and a file renamed over an indexed one is no longer or shorter. */
  predicate KeepsBacked(w: World, s: State, e: Event) {
    e.t < |s.tasks| ==>
      match e
      case Enter(t) => s.tasks[t].Placed? ==> s.tasks[t].key in s.files
      case Publish(t, content) =>
        s.tasks[t].Fetching? && w.hash(content) == s.tasks[t].key && s.tasks[t].key in s.index.entries ==>
          s.index.entries[s.tasks[t].key].size == |content|
      case _ => true
  }

  lemma StepKeepsBackedExactly(w: World, s: State, e: Event)
    requires Enabled(s, e) && Backed(s) && Verified(w, s) && Counted(s.index)
    ensures Backed(Step(w, s, e)) <==> KeepsBacked(w, s, e)
  {
    var after := Step(w, s, e);
    if e.Evict? {
      EvictCounts(w, s, e.order, e.stuck);
    }
    hide Counted;
    hide Candidates;
    hide EvictAlong;
    if e.Enter? || e.Publish? {
      assert s.tasks[e.t].key in after.index.entries ==>
        (Backed(after) ==> s.tasks[e.t].key in after.files && after.index.entries[s.tasks[e.t].key].size == |after.files[s.tasks[e.t].key]|);
    }
  }

  /**
   * Every indexed key has its file in every state of a run exactly when each entry is made while the file just placed is
   * still there, and no rename over an indexed key changes the size.
   */
  lemma {:induction false} RunKeepsBackedExactly(w: World, s: State, events: seq<Event>)
    requires Initial(w, s) && Runs(w, s, events)
    ensures Throughout(w, s, events, Backed) <==> EachStep(w, s, events, (now, e) => KeepsBacked(w, now, e))
    decreases |events|
  {
    if |events| > 0 {
      var rest, last := events[..|events| - 1], events[|events| - 1];
      RunKeepsBackedExactly(w, s, rest);
      EveryRun(w, s, rest);
      var now := After(w, s, rest);
      hide Backed;
      hide KeepsBacked;
      hide Step;
      hide Initial;
      hide SingleFlight;
      hide Verified;
      hide Counted;
      if Backed(now) {
        StepKeepsBackedExactly(w, now, last);
      }
    }
  }

  /** What a task has open is pinned, indexed and on disk with verified content, in a run that meets both conditions. */
  lemma OpenBlobsStay(w: World, s: State, events: seq<Event>, t: nat)
    requires Initial(w, s) && Runs(w, s, events)
    requires EachStep(w, s, events, KeepsPins) && EachStep(w, s, events, (now, e) => KeepsBacked(w, now, e))
    requires var now := After(w, s, events); t < |now.tasks| && now.tasks[t].Opened?
    ensures var now := After(w, s, events);
            var key := now.tasks[t].key;
            && key in now.index.entries && now.index.entries[key].pins == Opens(now, key) > 0
            && key in now.files && now.index.entries[key].size == |now.files[key]| && w.hash(now.files[key]) == key
  {
    EveryRun(w, s, events);
    RunKeepsPinsExactly(w, s, events);
    RunKeepsBackedExactly(w, s, events);
    var now := After(w, s, events);
    assert PinsExact(now) && Backed(now);
    assert PinsRight(now, now.tasks[t].key);
    OpensAtLeast(now, t, now.tasks[t].key);
  }

  /** Looking up a missing key and going to the in-flight map are one step: nothing happens in between. */
  ghost predicate Gapless(w: World, s: State, events: seq<Event>)
    requires Runs(w, s, events)
    decreases |events|
  {
    |events| == 0
    || var rest := events[..|events| - 1];
       && Gapless(w, s, rest)
       && forall t :: 0 <= t < |After(w, s, rest).tasks| && After(w, s, rest).tasks[t].Missed? ==> events[|events| - 1] == Join(t)
  }

  /** What is missed or being fetched is not in the index, and a file just placed is there. */
  predicate Unheld(s: State) {
    && (forall t :: 0 <= t < |s.tasks| && Unindexed(s.tasks[t]) ==> s.tasks[t].key !in s.index.entries)
    && (forall t :: 0 <= t < |s.tasks| && s.tasks[t].Placed? ==> s.tasks[t].key in s.files)
  }

  predicate Unindexed(pc: Pc) {
    pc.Missed? || pc.Fetching? || pc.Placed?
  }

  lemma StepStaysUnheld(w: World, s: State, e: Event)
    requires Enabled(s, e) && Unheld(s) && SingleFlight(s) && Counted(s.index)
    requires forall t :: 0 <= t < |s.tasks| && s.tasks[t].Missed? ==> e == Join(t)
    ensures Unheld(Step(w, s, e))
  {
    var after := Step(w, s, e);
    hide *;
    StepKeepsTasks(w, s, e);
    forall t | 0 <= t < |after.tasks| && Unindexed(after.tasks[t]) ensures after.tasks[t].key !in after.index.entries {
      StepStaysUnindexed(w, s, e, t);
    }
    forall t | 0 <= t < |after.tasks| && after.tasks[t].Placed? ensures after.tasks[t].key in after.files {
      StepStaysPlaced(w, s, e, t);
    }
    HeldApart(after);
  }

  lemma StepKeepsTasks(w: World, s: State, e: Event)
    requires Enabled(s, e)
    ensures |Step(w, s, e).tasks| == |s.tasks|
  {
    hide Candidates;
    hide EvictAlong;
  }

  lemma HeldApart(s: State)
    requires forall t :: 0 <= t < |s.tasks| && Unindexed(s.tasks[t]) ==> s.tasks[t].key !in s.index.entries
    requires forall t :: 0 <= t < |s.tasks| && s.tasks[t].Placed? ==> s.tasks[t].key in s.files
    ensures Unheld(s)
  {
  }

  lemma StepStaysUnindexed(w: World, s: State, e: Event, t: nat)
    requires Enabled(s, e) && Unheld(s) && SingleFlight(s) && Counted(s.index)
    requires forall u :: 0 <= u < |s.tasks| && s.tasks[u].Missed? ==> e == Join(u)
    requires t < |Step(w, s, e).tasks| && Unindexed(Step(w, s, e).tasks[t])
    ensures Step(w, s, e).tasks[t].key !in Step(w, s, e).index.entries
  {
    if e.Evict? {
      EvictCounts(w, s, e.order, e.stuck);
    } else if e.Enter? && t != e.t {
      OneFetcher(s, t, e.t);
    }
    hide SingleFlight;
    hide Counted;
    hide Candidates;
    hide EvictAlong;
  }

  lemma StepStaysPlaced(w: World, s: State, e: Event, t: nat)
    requires Enabled(s, e) && Unheld(s)
    requires t < |Step(w, s, e).tasks| && Step(w, s, e).tasks[t].Placed?
    ensures Step(w, s, e).tasks[t].key in Step(w, s, e).files
  {
    hide Candidates;
    hide EvictAlong;
  }

  /** Where nothing missed is indexed, both conditions hold. */
  lemma UnheldKeeps(w: World, s: State, e: Event)
    requires Enabled(s, e) && Unheld(s) && PinsExact(s)
    ensures KeepsPins(s, e) && KeepsBacked(w, s, e)
  {
    if e.Enter? {
      assert PinsRight(s, s.tasks[e.t].key);
    }
    hide Opens;
    hide Candidates;
  }

  /** When missing and joining are one step, both conditions hold throughout. */
  lemma {:induction false} GaplessRunsMeetBoth(w: World, s: State, events: seq<Event>)
    requires Initial(w, s) && Runs(w, s, events) && Gapless(w, s, events)
    ensures EachStep(w, s, events, KeepsPins) && EachStep(w, s, events, (now, e) => KeepsBacked(w, now, e))
    ensures Unheld(After(w, s, events))
    decreases |events|
  {
    if |events| > 0 {
      var rest, last := events[..|events| - 1], events[|events| - 1];
      GaplessRunsMeetBoth(w, s, rest);
      RunKeepsPinsExactly(w, s, rest);
      EveryRun(w, s, rest);
      var now := After(w, s, rest);
      hide Initial;
      hide SingleFlight;
      hide Verified;
      hide Counted;
      assert PinsExact(now);
      hide PinsExact;
      StepStaysUnheld(w, now, last);
      UnheldKeeps(w, now, last);
    }
  }

  // ---------------------------------------------------------------------------
  // The gap between missing and joining
  // ---------------------------------------------------------------------------

  lemma RunOneMore(w: World, s: State, events: seq<Event>, e: Event)
    requires Runs(w, s, events) && Enabled(After(w, s, events), e)
    ensures Runs(w, s, events + [e]) && After(w, s, events + [e]) == Step(w, After(w, s, events), e)
  {
    hide Step;
    hide Enabled;
    assert (events + [e])[..|events|] == events;
  }

  lemma Next(w: World, s: State, events: seq<Event>, e: Event, next: State) returns (more: seq<Event>)
    requires Runs(w, s, events) && Enabled(After(w, s, events), e) && Step(w, After(w, s, events), e) == next
    ensures Runs(w, s, more) && After(w, s, more) == next
  {
    more := events + [e];
    RunOneMore(w, s, events, e);
  }

  /** Two idle tasks and an empty cache. */
  function TwoTasks(): State {
    State(Index(map[], 0, 0), map[], map[], map[], [Idle, Idle], 0)
  }

  /** One published blob, last used and pinned as given, and the result of its fetch sent. */
  function Published(key: Key, content: ByteString, clock: nat, pins: nat, tasks: seq<Pc>): State {
    State(Index(map[key := Entry(|content|, clock, pins)], |content|, clock), map[key := content], map[], map[0 := Sent(key, true)], tasks, 1)
  }

  /** Both tasks miss and the second becomes the fetcher. */
  lemma BothMiss(w: World, key: Key) returns (events: seq<Event>)
    ensures Runs(w, TwoTasks(), events)
    ensures After(w, TwoTasks(), events) == State(Index(map[], 0, 2), map[], map[key := 0], map[], [Missed(key), Fetching(key, 0)], 1)
  {
    var start := TwoTasks();
    events := [];
    assert After(w, start, events) == start;
    hide Runs;
    hide After;
    events := Next(w, start, events, Touch(0, key), State(Index(map[], 0, 1), map[], map[], map[], [Missed(key), Idle], 0));
    events := Next(w, start, events, Touch(1, key), State(Index(map[], 0, 2), map[], map[], map[], [Missed(key), Missed(key)], 0));
    events := Next(w, start, events, Join(1), State(Index(map[], 0, 2), map[], map[key := 0], map[], [Missed(key), Fetching(key, 0)], 1));
  }

  /** The second fetches and publishes. */
  lemma SecondPublishes(w: World, content: ByteString) returns (events: seq<Event>)
    requires |content| <= w.quota
    ensures var key := w.hash(content);
            && Runs(w, TwoTasks(), events)
            && After(w, TwoTasks(), events) ==
               State(Index(map[key := Entry(|content|, 3, 0)], |content|, 3), map[key := content], map[key := 0], map[],
                     [Missed(key), Settling(key, 0, true)], 1)
  {
    var key := w.hash(content);
    var start := TwoTasks();
    events := BothMiss(w, key);
    hide Runs;
    hide After;
    var index := Index(map[key := Entry(|content|, 3, 0)], |content|, 3);
    var files, inflight := map[key := content], map[key := 0];
    events := Next(w, start, events, Publish(1, content),
      State(Index(map[], 0, 2), files, inflight, map[], [Missed(key), Placed(key, 0, |content|)], 1));
    events := Next(w, start, events, Enter(1), State(index, files, inflight, map[], [Missed(key), Evicting(key, 0)], 1));
    EvictsNothing(index, [key], w.quota);
    events := Next(w, start, events, Evict(1, [key], {}), State(index, files, inflight, map[], [Missed(key), Settling(key, 0, true)], 1));
  }

  /** The second takes its sender out of the map. */
  lemma SecondSettles(w: World, content: ByteString) returns (events: seq<Event>)
    requires |content| <= w.quota
    ensures var key := w.hash(content);
            && Runs(w, TwoTasks(), events)
            && After(w, TwoTasks(), events) == Published(key, content, 3, 0, [Missed(key), Sending(key, 0, true)]).(sent := map[])
  {
    var key := w.hash(content);
    events := SecondPublishes(w, content);
    hide Runs;
    hide After;
    hide Candidates;
    hide EvictAlong;
    events := Next(w, TwoTasks(), events, Settle(1), Published(key, content, 3, 0, [Missed(key), Sending(key, 0, true)]).(sent := map[]));
  }

  /** It sends, and has its result. */
  lemma SecondReady(w: World, content: ByteString) returns (events: seq<Event>)
    requires |content| <= w.quota
    ensures var key := w.hash(content);
            && Runs(w, TwoTasks(), events)
            && After(w, TwoTasks(), events) == Published(key, content, 3, 0, [Missed(key), Ready(key)])
  {
    var key := w.hash(content);
    events := SecondSettles(w, content);
    hide Runs;
    hide After;
    hide Candidates;
    hide EvictAlong;
    events := Next(w, TwoTasks(), events, Send(1), Published(key, content, 3, 0, [Missed(key), Ready(key)]));
  }

  /** The first, still past its miss, fetches the key again and renames its file into place. */
  lemma FirstPlaces(w: World, events: seq<Event>, content: ByteString, clock: nat, pins: nat, second: Pc) returns (more: seq<Event>)
    requires var key := w.hash(content);
             && Runs(w, TwoTasks(), events)
             && After(w, TwoTasks(), events) == Published(key, content, clock, pins, [Missed(key), second])
    ensures var key := w.hash(content);
            && Runs(w, TwoTasks(), more)
            && After(w, TwoTasks(), more) ==
               Published(key, content, clock, pins, [Placed(key, 1, |content|), second]).(inflight := map[key := 1], nextChannel := 2)
  {
    hide Runs;
    hide After;
    hide Candidates;
    hide EvictAlong;
    var key := w.hash(content);
    var fetching := Published(key, content, clock, pins, [Fetching(key, 1), second]).(inflight := map[key := 1], nextChannel := 2);
    more := Next(w, TwoTasks(), events, Join(0), fetching);
    more := Next(w, TwoTasks(), more, Publish(0, content), fetching.(tasks := [Placed(key, 1, |content|), second]));
  }

  lemma EvictsNothing(ix: Index, order: seq<Key>, quota: nat)
    requires ix.bytes <= quota
    ensures EvictAlong(ix, order, quota, {}) == ix
  {
  }

  lemma StartsEmpty(w: World)
    ensures Initial(w, TwoTasks())
  {
  }

  /** Making an entry indexes the key, unpinned, whatever the files and the other tasks. */
  lemma Enters(w: World, s: State, t: nat)
    requires t < |s.tasks| && s.tasks[t].Placed?
    ensures Enabled(s, Enter(t))
    ensures var after := Step(w, s, Enter(t));
            && s.tasks[t].key in after.index.entries && after.index.entries[s.tasks[t].key].pins == 0
            && after.files == s.files && |after.tasks| == |s.tasks| && forall u :: 0 <= u < |s.tasks| && u != t ==> after.tasks[u] == s.tasks[u]
  {
    hide Candidates;
    hide EvictAlong;
  }

  lemma OpensPublished(w: World, key: Key, content: ByteString)
    ensures var before := Published(key, content, 3, 0, [Missed(key), Ready(key)]);
            && Enabled(before, PinReady(1))
            && Step(w, before, PinReady(1)) == Published(key, content, 4, 1, [Missed(key), Opened(key)])
  {
    hide Candidates;
    hide EvictAlong;
    hide Insert;
    hide Unpin;
  }

  /** The second opens the blob. */
  lemma SecondOpens(w: World, content: ByteString) returns (events: seq<Event>)
    requires |content| <= w.quota
    ensures var key := w.hash(content);
            && Runs(w, TwoTasks(), events)
            && After(w, TwoTasks(), events) == Published(key, content, 4, 1, [Missed(key), Opened(key)])
  {
    hide *;
    var key := w.hash(content);
    events := SecondReady(w, content);
    OpensPublished(w, key, content);
    events := Next(w, TwoTasks(), events, PinReady(1), Published(key, content, 4, 1, [Missed(key), Opened(key)]));
  }

  /**
   * With the gap the pins do go wrong: a task that missed before a publication fetches and publishes again after
   * another task opened the blob, and the open blob's pins are back at zero.
   */
  lemma GapResetsPins(w: World, content: ByteString) returns (events: seq<Event>)
    requires |content| <= w.quota
    ensures Initial(w, TwoTasks()) && Runs(w, TwoTasks(), events)
    ensures var now := After(w, TwoTasks(), events);
            var key := w.hash(content);
            |now.tasks| == 2 && now.tasks[1] == Opened(key) && key in now.index.entries && now.index.entries[key].pins == 0
  {
    hide Runs;
    hide After;
    hide Step;
    hide Enabled;
    hide Initial;
    StartsEmpty(w);
    events := SecondOpens(w, content);
    events := FirstPlaces(w, events, content, 4, 1, Opened(w.hash(content)));
    var before := After(w, TwoTasks(), events);
    Enters(w, before, 0);
    events := Next(w, TwoTasks(), events, Enter(0), Step(w, before, Enter(0)));
  }

  /** The first past its fetch of a published key, the second at work on another key. */
  function Apart(index: Index, files: map<Key, ByteString>, key: Key, size: nat, second: Pc): State {
    var inflight := if Registered(second) then map[key := 1, second.key := 2] else map[key := 1];
    State(index, files, inflight, map[0 := Sent(key, true)], [Placed(key, 1, size), second], if Registered(second) then 3 else 2)
  }

  /** Meanwhile the second is done with its call. */
  lemma SecondFinishes(w: World, content: ByteString) returns (events: seq<Event>)
    requires |content| <= w.quota
    ensures var key := w.hash(content);
            && Runs(w, TwoTasks(), events)
            && After(w, TwoTasks(), events) ==
               Apart(Index(map[key := Entry(|content|, 3, 0)], |content|, 3), map[key := content], key, |content|, Idle)
  {
    var key := w.hash(content);
    events := SecondReady(w, content);
    hide Runs;
    hide After;
    hide Candidates;
    hide EvictAlong;
    events := FirstPlaces(w, events, content, 3, 0, Ready(key));
    events := Next(w, TwoTasks(), events, Finish(1),
      Apart(Index(map[key := Entry(|content|, 3, 0)], |content|, 3), map[key := content], key, |content|, Idle));
  }

  /** It looks another key up and misses it. */
  lemma SecondMisses(w: World, content: ByteString, next: Key) returns (events: seq<Event>)
    requires next != w.hash(content) && |content| <= w.quota
    ensures var key := w.hash(content);
            && Runs(w, TwoTasks(), events)
            && After(w, TwoTasks(), events) ==
               Apart(Index(map[key := Entry(|content|, 3, 0)], |content|, 4), map[key := content], key, |content|, Missed(next))
  {
    var key := w.hash(content);
    events := SecondFinishes(w, content);
    hide Runs;
    hide After;
    hide Candidates;
    hide EvictAlong;
    events := Next(w, TwoTasks(), events, Touch(1, next),
      Apart(Index(map[key := Entry(|content|, 3, 0)], |content|, 4), map[key := content], key, |content|, Missed(next)));
  }

  /** It fetches that blob and renames it into place. */
  lemma SecondPlaces(w: World, content: ByteString, other: ByteString) returns (events: seq<Event>)
    requires w.hash(other) != w.hash(content) && |content| <= w.quota
    ensures var key, next := w.hash(content), w.hash(other);
            && Runs(w, TwoTasks(), events)
            && After(w, TwoTasks(), events) ==
               Apart(Index(map[key := Entry(|content|, 3, 0)], |content|, 4), map[key := content, next := other],
                     key, |content|, Placed(next, 2, |other|))
  {
    var key, next := w.hash(content), w.hash(other);
    events := SecondMisses(w, content, next);
    hide Runs;
    hide After;
    hide Candidates;
    hide EvictAlong;
    var index := Index(map[key := Entry(|content|, 3, 0)], |content|, 4);
    events := Next(w, TwoTasks(), events, Join(1), Apart(index, map[key := content], key, |content|, Fetching(next, 2)));
    events := Next(w, TwoTasks(), events, Publish(1, other),
      Apart(index, map[key := content, next := other], key, |content|, Placed(next, 2, |other|)));
  }

  /** It enters the blob, beside which there is no room for the first. */
  lemma SecondEnters(w: World, content: ByteString, other: ByteString) returns (events: seq<Event>)
    requires w.hash(other) != w.hash(content) && |content| <= w.quota
    ensures var key, next := w.hash(content), w.hash(other);
            var index := Index(map[key := Entry(|content|, 3, 0), next := Entry(|other|, 5, 0)], |content| + |other|, 5);
            && Runs(w, TwoTasks(), events)
            && After(w, TwoTasks(), events) ==
               Apart(index, map[key := content, next := other], key, |content|, Evicting(next, 2))
  {
    var key, next := w.hash(content), w.hash(other);
    events := SecondPlaces(w, content, other);
    hide Runs;
    hide After;
    hide EvictAlong;
    hide Candidates;
    var index := Index(map[key := Entry(|content|, 3, 0), next := Entry(|other|, 5, 0)], |content| + |other|, 5);
    events := Next(w, TwoTasks(), events, Enter(1),
      Apart(index, map[key := content, next := other], key, |content|, Evicting(next, 2)));
  }

  lemma TakesFirst(w: World, key: Key, size: nat, next: Key, content: ByteString, other: ByteString)
    requires key != next && size == |content| && size <= w.quota && |other| <= w.quota < size + |other|
    ensures var index := Index(map[key := Entry(size, 3, 0), next := Entry(|other|, 5, 0)], size + |other|, 5);
            var before := Apart(index, map[key := content, next := other], key, size, Evicting(next, 2));
            && Enabled(before, Evict(1, [key, next], {}))
            && Step(w, before, Evict(1, [key, next], {})) ==
               Apart(Index(map[next := Entry(|other|, 5, 0)], |other|, 5), map[next := other], key, size, Settling(next, 2, true))
  {
    hide EvictAlong;
    hide Candidates;
    hide Use;
    hide Pin;
    hide Unpin;
    hide Insert;
    hide Drop;
    EvictsOldest(key, next, size, |other|, w.quota);
    assert map[key := content, next := other] - {key} == map[next := other];
  }

  /** Its eviction takes the first blob. */
  lemma SecondEvicts(w: World, content: ByteString, other: ByteString) returns (events: seq<Event>)
    requires w.hash(other) != w.hash(content) && |content| <= w.quota && |other| <= w.quota < |content| + |other|
    ensures var key, next := w.hash(content), w.hash(other);
            && Runs(w, TwoTasks(), events)
            && After(w, TwoTasks(), events) ==
               Apart(Index(map[next := Entry(|other|, 5, 0)], |other|, 5), map[next := other], key, |content|, Settling(next, 2, true))
  {
    hide *;
    var key, next := w.hash(content), w.hash(other);
    events := SecondEnters(w, content, other);
    TakesFirst(w, key, |content|, next, content, other);
    var index := Index(map[next := Entry(|other|, 5, 0)], |other|, 5);
    events := Next(w, TwoTasks(), events, Evict(1, [key, next], {}),
      Apart(index, map[next := other], key, |content|, Settling(next, 2, true)));
  }

  lemma EvictsOldest(key: Key, next: Key, a: nat, b: nat, quota: nat)
    requires key != next && a <= quota && b <= quota < a + b
    ensures var index := Index(map[key := Entry(a, 3, 0), next := Entry(b, 5, 0)], a + b, 5);
            && Candidates(index, [key, next])
            && EvictAlong(index, [key, next], quota, {}) == Index(map[next := Entry(b, 5, 0)], b, 5)
  {
    var index := Index(map[key := Entry(a, 3, 0), next := Entry(b, 5, 0)], a + b, 5);
    assert Drop(index, key) == Index(map[next := Entry(b, 5, 0)], b, 5);
    EvictsNothing(Drop(index, key), [next], quota);
    assert [key, next][1..] == [next];
  }

  /** And so can an index entry be made after its file was evicted: the key is indexed, and nothing is on disk. */
  lemma GapIndexesNoFile(w: World, content: ByteString, other: ByteString) returns (events: seq<Event>)
    requires w.hash(other) != w.hash(content) && |content| <= w.quota && |other| <= w.quota < |content| + |other|
    ensures Initial(w, TwoTasks()) && Runs(w, TwoTasks(), events)
    ensures var now := After(w, TwoTasks(), events);
            w.hash(content) in now.index.entries && w.hash(content) !in now.files
  {
    hide Runs;
    hide After;
    hide Step;
    hide Enabled;
    hide Initial;
    StartsEmpty(w);
    events := SecondEvicts(w, content, other);
    var before := After(w, TwoTasks(), events);
    Enters(w, before, 0);
    events := Next(w, TwoTasks(), events, Enter(0), Step(w, before, Enter(0)));
  }
}
