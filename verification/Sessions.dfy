/** The proxy's connection limits (wsproxy/session.go): sessions by ID and a counter for each target. */
module Sessions {

  datatype Id = Id(text: string)
  datatype Target = Target(address: string)
  datatype Session = Session(id: Id, target: Target)

  type Tracked = map<Id, Session>
  type Counts = map<Target, int>

  /** Reading a Go map: zero for an unknown target. */
  function CountAt(counts: Counts, t: Target): int {
    if t in counts then counts[t] else 0
  }

  /** The tracked sessions with a target. */
  ghost function Of(sessions: Tracked, t: Target): set<Id> {
    set id | id in sessions && sessions[id].target == t
  }

  /** Every counter is the number of sessions with its target, and none is kept for a target without any. */
  ghost predicate Accounted(sessions: Tracked, counts: Counts) {
    forall t :: TargetAccounted(sessions, counts, t)
  }

  ghost predicate TargetAccounted(sessions: Tracked, counts: Counts, t: Target) {
    CountAt(counts, t) == |Of(sessions, t)| && (t in counts ==> counts[t] > 0)
  }

  ghost predicate Limited(sessions: Tracked, counts: Counts, maxConnections: int, maxPerTarget: int) {
    |sessions| <= maxConnections && forall t :: t in counts ==> counts[t] <= maxPerTarget
  }

  function Added(sessions: Tracked, s: Session): Tracked {
    sessions[s.id := s]
  }

  function CountedUp(counts: Counts, t: Target): Counts {
    counts[t := CountAt(counts, t) + 1]
  }

  /** One less; an entry that comes to zero or below is deleted. */
  function CountedDown(counts: Counts, t: Target): Counts {
    if CountAt(counts, t) - 1 <= 0 then counts - {t} else counts[t := CountAt(counts, t) - 1]
  }

  predicate HasRoom(sessions: Tracked, counts: Counts, maxConnections: int, maxPerTarget: int, t: Target) {
    |sessions| < maxConnections && CountAt(counts, t) < maxPerTarget
  }

  class ConnectionManager {
    var sessions: Tracked
    var targetCounts: Counts
    const maxConnections: int
    const maxPerTarget: int

    ghost predicate Valid()
      reads this
    {
      Accounted(sessions, targetCounts) && Limited(sessions, targetCounts, maxConnections, maxPerTarget)
    }

    constructor (maxConnections: int, maxPerTarget: int)
      ensures sessions == map[] && targetCounts == map[]
      ensures this.maxConnections == if maxConnections <= 0 then 100 else maxConnections
      ensures this.maxPerTarget == if maxPerTarget <= 0 then 10 else maxPerTarget
      ensures Valid()
    {
      this.maxConnections := if maxConnections <= 0 then 100 else maxConnections;
      this.maxPerTarget := if maxPerTarget <= 0 then 10 else maxPerTarget;
      sessions, targetCounts := map[], map[];
      new;
      forall t ensures TargetAccounted(sessions, targetCounts, t) {
        assert Of(sessions, t) == {};
      }
    }

    method TryAdd(s: Session) returns (ok: bool)
      modifies this
      ensures ok == HasRoom(old(sessions), old(targetCounts), maxConnections, maxPerTarget, s.target)
      ensures ok ==> sessions == Added(old(sessions), s) && targetCounts == CountedUp(old(targetCounts), s.target)
      ensures !ok ==> sessions == old(sessions) && targetCounts == old(targetCounts)
      ensures old(Valid()) && s.id !in old(sessions) ==> Valid()
    {
      if |sessions| >= maxConnections { return false; }
      if CountAt(targetCounts, s.target) >= maxPerTarget { return false; }
      ghost var before, countsBefore := sessions, targetCounts;
      sessions := sessions[s.id := s];
      targetCounts := targetCounts[s.target := CountAt(targetCounts, s.target) + 1];
      ok := true;
      if Accounted(before, countsBefore) && s.id !in before { AddAccounted(before, countsBefore, s); }
    }

    method Remove(s: Session)
      modifies this
      ensures if s.id !in old(sessions) then sessions == old(sessions) && targetCounts == old(targetCounts)
              else sessions == old(sessions) - {s.id} && targetCounts == CountedDown(old(targetCounts), s.target)
      ensures old(Valid()) && (s.id in old(sessions) ==> old(sessions)[s.id].target == s.target) ==> Valid()
    {
      if s.id !in sessions { return; }
      ghost var before, countsBefore := sessions, targetCounts;
      sessions := sessions - {s.id};
      targetCounts := targetCounts[s.target := CountAt(targetCounts, s.target) - 1];
      if CountAt(targetCounts, s.target) <= 0 {
        targetCounts := targetCounts - {s.target};
      }
      assert targetCounts == CountedDown(countsBefore, s.target);
      if Accounted(before, countsBefore) && before[s.id].target == s.target { RemoveAccounted(before, countsBefore, s); }
    }

    method Count() returns (n: nat)
      ensures n == |sessions|
    {
      n := |sessions|;
    }
  }

  lemma {:induction false} AddedOf(sessions: Tracked, s: Session, t: Target)
    ensures Of(Added(sessions, s), t) == if t == s.target then Of(sessions, t) + {s.id} else Of(sessions, t) - {s.id}
  {
  }

  lemma {:induction false} RemovedOf(sessions: Tracked, id: Id, t: Target)
    ensures Of(sessions - {id}, t) == Of(sessions, t) - {id}
  {
  }

  lemma {:induction false} AddAccounted(sessions: Tracked, counts: Counts, s: Session)
    requires Accounted(sessions, counts) && s.id !in sessions
    ensures Accounted(Added(sessions, s), CountedUp(counts, s.target))
  {
    forall t ensures TargetAccounted(Added(sessions, s), CountedUp(counts, s.target), t) {
      assert TargetAccounted(sessions, counts, t);
      AddedOf(sessions, s, t);
    }
  }

  lemma {:induction false} RemoveAccounted(sessions: Tracked, counts: Counts, s: Session)
    requires Accounted(sessions, counts) && s.id in sessions && sessions[s.id].target == s.target
    ensures Accounted(sessions - {s.id}, CountedDown(counts, s.target))
  {
    forall t ensures TargetAccounted(sessions - {s.id}, CountedDown(counts, s.target), t) {
      assert TargetAccounted(sessions, counts, t);
      RemovedOf(sessions, s.id, t);
      assert t == s.target ==> s.id in Of(sessions, t);
    }
  }

  /** A session that is let in keeps the books exactly when its ID is new. */
  lemma {:induction false} AddAccountedExactly(sessions: Tracked, counts: Counts, s: Session)
    requires Accounted(sessions, counts)
    ensures Accounted(Added(sessions, s), CountedUp(counts, s.target)) <==> s.id !in sessions
  {
    if s.id in sessions {
      var t := s.target;
      assert TargetAccounted(sessions, counts, t);
      AddedOf(sessions, s, t);
      var other := sessions[s.id].target;
      if other == t {
        assert Of(Added(sessions, s), t) == Of(sessions, t);
        assert !TargetAccounted(Added(sessions, s), CountedUp(counts, t), t);
      } else {
        assert TargetAccounted(sessions, counts, other);
        AddedOf(sessions, s, other);
        assert s.id in Of(sessions, other);
        assert !TargetAccounted(Added(sessions, s), CountedUp(counts, t), other);
      }
    } else {
      AddAccounted(sessions, counts, s);
    }
  }

  /** Removing a tracked ID keeps the books exactly when the session still has the target it came in with. */
  lemma {:induction false} RemoveAccountedExactly(sessions: Tracked, counts: Counts, s: Session)
    requires Accounted(sessions, counts) && s.id in sessions
    ensures Accounted(sessions - {s.id}, CountedDown(counts, s.target)) <==> sessions[s.id].target == s.target
  {
    var t := sessions[s.id].target;
    if t == s.target {
      RemoveAccounted(sessions, counts, s);
    } else {
      assert TargetAccounted(sessions, counts, t);
      RemovedOf(sessions, s.id, t);
      assert s.id in Of(sessions, t);
      assert !TargetAccounted(sessions - {s.id}, CountedDown(counts, s.target), t);
    }
  }

  ghost function Sum(counts: Counts): int
    decreases |counts|
  {
    if counts == map[] then 0
    else
      var t :| t in counts;
      counts[t] + Sum(counts - {t})
  }

  ghost function Without(sessions: Tracked, t: Target): Tracked {
    map id | id in sessions && sessions[id].target != t :: sessions[id]
  }

  lemma {:induction false} WithoutSize(sessions: Tracked, t: Target)
    ensures |sessions| == |Without(sessions, t)| + |Of(sessions, t)|
  {
    assert sessions.Keys == Without(sessions, t).Keys + Of(sessions, t);
    assert |sessions.Keys| == |sessions| && |Without(sessions, t).Keys| == |Without(sessions, t)|;
  }

  lemma {:induction false} WithoutOf(sessions: Tracked, t: Target, other: Target)
    ensures Of(Without(sessions, t), other) == if other == t then {} else Of(sessions, other)
  {
  }

  /** The target of a tracked session has a counter. */
  lemma {:induction false} SessionCounted(sessions: Tracked, counts: Counts, id: Id)
    requires Accounted(sessions, counts) && id in sessions
    ensures sessions[id].target in counts
  {
    var t := sessions[id].target;
    assert TargetAccounted(sessions, counts, t);
    assert id in Of(sessions, t);
  }

  /** The counters add up to the number of sessions. */
  lemma {:induction false} CountsAddUp(sessions: Tracked, counts: Counts)
    requires Accounted(sessions, counts)
    ensures Sum(counts) == |sessions|
    decreases |counts|
  {
    if counts == map[] {
      if sessions != map[] {
        var id :| id in sessions;
        SessionCounted(sessions, counts, id);
        assert false;
      }
    } else {
      var t :| t in counts && Sum(counts) == counts[t] + Sum(counts - {t});
      var rest, fewer := Without(sessions, t), counts - {t};
      forall other ensures TargetAccounted(rest, fewer, other) {
        WithoutOf(sessions, t, other);
        assert TargetAccounted(sessions, counts, other);
      }
      CountsAddUp(rest, fewer);
      WithoutSize(sessions, t);
      assert TargetAccounted(sessions, counts, t);
    }
  }

  datatype State = State(sessions: Tracked, counts: Counts, maxConnections: int, maxPerTarget: int) {
    ghost predicate Good() {
      Accounted(sessions, counts) && Limited(sessions, counts, maxConnections, maxPerTarget)
    }
  }

  datatype Event = Add(s: Session) | Drop(s: Session)

  function Apply(st: State, e: Event): State {
    match e
    case Add(s) =>
      if HasRoom(st.sessions, st.counts, st.maxConnections, st.maxPerTarget, s.target)
      then st.(sessions := Added(st.sessions, s), counts := CountedUp(st.counts, s.target)) else st
    case Drop(s) =>
      if s.id in st.sessions then st.(sessions := st.sessions - {s.id}, counts := CountedDown(st.counts, s.target)) else st
  }

  /** New IDs for new sessions, and a session keeps its target. */
  predicate Proper(st: State, e: Event) {
    match e
    case Add(s) => s.id !in st.sessions
    case Drop(s) => s.id in st.sessions ==> st.sessions[s.id].target == s.target
  }

  ghost predicate ProperRun(st: State, events: seq<Event>)
    decreases |events|
  {
    events == [] || (Proper(st, events[0]) && ProperRun(Apply(st, events[0]), events[1..]))
  }

  function Run(st: State, events: seq<Event>): State
    decreases |events|
  {
    if events == [] then st else Run(Apply(st, events[0]), events[1..])
  }

  lemma {:induction false} ApplyGood(st: State, e: Event)
    requires st.Good() && Proper(st, e)
    ensures Apply(st, e).Good()
  {
    match e
    case Add(s) => AddAccounted(st.sessions, st.counts, s);
    case Drop(s) => if s.id in st.sessions { RemoveAccounted(st.sessions, st.counts, s); }
  }

  /** After any run the books are right, the counters add up, and both limits hold. */
  lemma {:induction false} RunGood(st: State, events: seq<Event>)
    requires st.Good() && ProperRun(st, events)
    ensures Run(st, events).Good() && Sum(Run(st, events).counts) == |Run(st, events).sessions|
    decreases |events|
  {
    if events == [] {
      CountsAddUp(st.sessions, st.counts);
    } else {
      ApplyGood(st, events[0]);
      RunGood(Apply(st, events[0]), events[1..]);
    }
  }

  /** On right books a session is let in exactly when neither limit is reached by the sessions there are. */
  lemma {:induction false} RoomExactly(st: State, t: Target)
    requires st.Good()
    ensures HasRoom(st.sessions, st.counts, st.maxConnections, st.maxPerTarget, t) <==>
              |st.sessions| < st.maxConnections && |Of(st.sessions, t)| < st.maxPerTarget
  {
    assert TargetAccounted(st.sessions, st.counts, t);
  }
}
