/**
  Framebuffer update requests (rfb/server.go): the reader goroutine drops a request when the
  capacity-1 channel is full, the writer goroutine answers each request it takes with one update.
  Every interleaving of the two goroutines, the client and the server's unsolicited updates is a run
  of the actions below.
 */
module RequestChannel {
  import opened Streams

  /** Requests are numbered in the order the client sends them. */
  datatype State = State(
    sent: nat,
    /** Sent but not yet read. */
    toServer: seq<nat>,
    queued: Option<nat>,
    inService: Option<nat>,
    answered: seq<nat>,
    dropped: seq<nat>,
    /** Answers and unsolicited updates on their way, and those the client has seen. */
    answersOut: nat,
    seen: nat,
    noticesOut: nat,
    noticed: nat)
  {
    function Received(): int { sent - |toServer| }

    /** The requests the channel has accepted, in the order it accepted them. */
    function Accepted(): seq<nat> { answered + Listed(inService) + Listed(queued) }

    function Unanswered(): int { sent - seen }
  }

  function Listed(r: Option<nat>): seq<nat> {
    if r.Some? then [r.value] else []
  }

  const START := State(0, [], None, None, [], [], 0, 0, 0, 0)

  datatype Action =
    | Send
    /** The reader's `select`: into the channel, or dropped. */
    | Read
    /** The writer's loop takes a request, and later flushes its update. */
    | Take
    | Answer
    | SeeAnswer
    /** A cursor or resize update nobody asked for. */
    | Notify
    | SeeNotice

  predicate Enabled(st: State, a: Action) {
    match a
    case Send => true
    case Read => st.toServer != []
    case Take => st.queued.Some? && st.inService.None?
    case Answer => st.inService.Some?
    case SeeAnswer => st.answersOut > 0
    case Notify => true
    case SeeNotice => st.noticesOut > 0
  }

  function Step(st: State, a: Action): State
    requires Enabled(st, a)
  {
    match a
    case Send => st.(sent := st.sent + 1, toServer := st.toServer + [st.sent])
    case Read =>
      var r, rest := st.toServer[0], st.toServer[1..];
      if st.queued.None? then st.(toServer := rest, queued := Some(r))
      else st.(toServer := rest, dropped := st.dropped + [r])
    case Take => st.(queued := None, inService := st.queued)
    case Answer => st.(inService := None, answered := st.answered + [st.inService.value], answersOut := st.answersOut + 1)
    case SeeAnswer => st.(answersOut := st.answersOut - 1, seen := st.seen + 1)
    case Notify => st.(noticesOut := st.noticesOut + 1)
    case SeeNotice => st.(noticesOut := st.noticesOut - 1, noticed := st.noticed + 1)
  }

  ghost predicate Increasing(s: seq<nat>) {
    forall i, j :: 0 <= i < j < |s| ==> s[i] < s[j]
  }

  /**
    Each received request is accepted or dropped, never both; both happen in arrival order; every
    answer is one update, on its way or seen.
   */
  ghost predicate Good(st: State) {
    && |st.toServer| <= st.sent
    && (forall i :: 0 <= i < |st.toServer| ==> st.toServer[i] == st.Received() + i)
    && Increasing(st.Accepted()) && Increasing(st.dropped)
    && |st.Accepted()| + |st.dropped| == st.Received()
    && (forall r: nat :: r in st.Accepted() || r in st.dropped <==> r < st.Received())
    && (forall r: nat :: !(r in st.Accepted() && r in st.dropped))
    && st.answersOut + st.seen == |st.answered|
  }

  lemma {:induction false} IncreasingMore(s: seq<nat>, r: nat)
    requires Increasing(s) && forall x: nat :: x in s ==> x < r
    ensures Increasing(s + [r])
  {
    var t := s + [r];
    forall i, j | 0 <= i < j < |t| ensures t[i] < t[j] {
      assert t[i] == s[i] && t[i] in s;
    }
  }

  lemma {:induction false} ReadKeeps(st: State)
    requires Good(st) && Enabled(st, Read)
    ensures Good(Step(st, Read))
  {
    var r, later := st.toServer[0], Step(st, Read);
    assert r == st.Received() && later.Received() == r + 1;
    forall i | 0 <= i < |later.toServer| ensures later.toServer[i] == later.Received() + i {
      assert later.toServer[i] == st.toServer[i + 1];
    }
    if st.queued.None? {
      assert later.Accepted() == st.Accepted() + [r];
      IncreasingMore(st.Accepted(), r);
    } else {
      IncreasingMore(st.dropped, r);
    }
  }

  lemma {:induction false} StepKeeps(st: State, a: Action)
    requires Good(st) && Enabled(st, a)
    ensures Good(Step(st, a))
  {
    match a
    case Read => ReadKeeps(st);
    case Take => assert Step(st, a).Accepted() == st.Accepted();
    case Answer => assert Step(st, a).Accepted() == st.Accepted();
    case _ => assert Step(st, a).Accepted() == st.Accepted();
  }

  /** A run: each action is possible when its turn comes. */
  ghost predicate Runs(st: State, actions: seq<Action>)
    decreases |actions|
  {
    actions == [] || (Enabled(st, actions[0]) && Runs(Step(st, actions[0]), actions[1..]))
  }

  ghost function Run(st: State, actions: seq<Action>): State
    requires Runs(st, actions)
    decreases |actions|
  {
    if actions == [] then st else Run(Step(st, actions[0]), actions[1..])
  }

  /** In every interleaving each request is accounted for exactly once. */
  lemma {:induction false} RunKeeps(st: State, actions: seq<Action>)
    requires Good(st) && Runs(st, actions)
    ensures Good(Run(st, actions))
    decreases |actions|
  {
    if actions != [] {
      StepKeeps(st, actions[0]);
      RunKeeps(Step(st, actions[0]), actions[1..]);
    }
  }

  function Count(r: Option<nat>): nat { if r.Some? then 1 else 0 }

  ghost predicate Tallied(st: State) {
    && st.Received() == |st.answered| + Count(st.inService) + Count(st.queued) + |st.dropped|
    && st.answersOut + st.seen == |st.answered|
    && st.Unanswered() == |st.toServer| + Count(st.queued) + Count(st.inService) + st.answersOut + |st.dropped|
    && Increasing(st.answered)
  }

  lemma {:induction false} GoodTallies(st: State)
    requires Good(st)
    ensures Tallied(st)
  {
    var all := st.Accepted();
    forall i, j | 0 <= i < j < |st.answered| ensures st.answered[i] < st.answered[j] {
      assert all[i] == st.answered[i] && all[j] == st.answered[j];
    }
  }

  /** received = answered + in service + queued + dropped; one update for each answered request, in the order of arrival. */
  lemma {:induction false} Conservation(actions: seq<Action>)
    requires Runs(START, actions)
    ensures Good(Run(START, actions)) && Tallied(Run(START, actions))
  {
    RunKeeps(START, actions);
    GoodTallies(Run(START, actions));
  }

  /** Nothing is under way any more. */
  predicate Quiet(st: State) {
    st.toServer == [] && st.queued.None? && st.inService.None? && st.answersOut == 0
  }

  /** A client that waits for its answers then waits for the dropped ones, and for those for ever. */
  lemma {:induction false} QuietWaits(st: State)
    requires Good(st) && Quiet(st)
    ensures st.Unanswered() == |st.dropped|
  {
  }

  /** The steps left until everything is quiet, if the client sends no more. */
  function Work(st: State): nat {
    4 * |st.toServer| + 3 * Count(st.queued) + 2 * Count(st.inService) + st.answersOut
  }

  /** Until then some step is possible, and every one of them comes closer. */
  lemma {:induction false} WorkEnds(st: State)
    ensures !Quiet(st) ==> exists a :: (a == Read || a == Take || a == Answer || a == SeeAnswer) && Enabled(st, a)
    ensures forall a :: (a == Read || a == Take || a == Answer || a == SeeAnswer) && Enabled(st, a) ==> Work(Step(st, a)) < Work(st)
    ensures Work(st) == 0 <==> Quiet(st)
  {
    if !Quiet(st) {
      var a := if st.answersOut > 0 then SeeAnswer else if st.inService.Some? then Answer
               else if st.queued.Some? then Take else Read;
      assert Enabled(st, a);
    }
  }

  /** The client sends only while fewer than `u` of its requests are unanswered. */
  ghost predicate Restrained(st: State, actions: seq<Action>, u: int)
    requires Runs(st, actions)
    decreases |actions|
  {
    actions == [] ||
    ((actions[0] == Send ==> st.Unanswered() < u) && Restrained(Step(st, actions[0]), actions[1..], u))
  }

  lemma {:induction false} RestrainedKeeps(st: State, actions: seq<Action>, u: int)
    requires u <= 1 && Runs(st, actions) && Restrained(st, actions, u)
    requires st.dropped == [] && st.Unanswered() <= 1
    requires st.Unanswered() == |st.toServer| + Count(st.queued) + Count(st.inService) + st.answersOut
    ensures Run(st, actions).dropped == []
    decreases |actions|
  {
    if actions != [] { RestrainedKeeps(Step(st, actions[0]), actions[1..], u); }
  }

  ghost predicate NeverDrops(u: int) {
    forall actions :: Runs(START, actions) && Restrained(START, actions, u) ==> Run(START, actions).dropped == []
  }

  lemma {:induction false} TwoCanDrop(u: int)
    requires u >= 2
    ensures !NeverDrops(u)
  {
    var s1 := Step(START, Send);
    var s2 := Step(s1, Send);
    var s3 := Step(s2, Read);
    var s4 := Step(s3, Read);
    assert s4.dropped == [1];
    var a3: seq<Action>, a2: seq<Action>, a1: seq<Action>, a0: seq<Action> :=
      [Read], [Read, Read], [Send, Read, Read], [Send, Send, Read, Read];
    assert a3[1..] == [] && a2[1..] == a3 && a1[1..] == a2 && a0[1..] == a1;
    assert Runs(s4, []) && Restrained(s4, [], u) && Run(s4, []) == s4;
    assert Runs(s3, a3) && Restrained(s3, a3, u) && Run(s3, a3) == s4;
    assert Runs(s2, a2) && Restrained(s2, a2, u) && Run(s2, a2) == s4;
    assert Runs(s1, a1) && Restrained(s1, a1, u) && Run(s1, a1) == s4;
    assert Runs(START, a0) && Restrained(START, a0, u) && Run(START, a0) == s4;
  }

  /** No request is ever dropped, on any run, exactly when the client keeps at most one unanswered. */
  lemma {:induction false} NeverDropsExactly(u: int)
    ensures NeverDrops(u) <==> u <= 1
  {
    if u <= 1 {
      forall actions | Runs(START, actions) && Restrained(START, actions, u) ensures Run(START, actions).dropped == [] {
        RestrainedKeeps(START, actions, u);
      }
    } else {
      TwoCanDrop(u);
    }
  }

  /**
    The browser: one request when it connects, and for every update it handles, asked for or not, one
    more, or two when the update resizes the desktop.
   */
  datatype BrowserAction = Server(action: Action) | Handle(answer: bool, resize: bool)

  predicate BrowserEnabled(st: State, b: BrowserAction) {
    match b
    case Server(a) => a != Send && a != SeeAnswer && a != SeeNotice && Enabled(st, a)
    case Handle(answer, _) => Enabled(st, if answer then SeeAnswer else SeeNotice)
  }

  function BrowserStep(st: State, b: BrowserAction): State
    requires BrowserEnabled(st, b)
  {
    match b
    case Server(a) => Step(st, a)
    case Handle(answer, resize) =>
      var next := Step(Step(st, if answer then SeeAnswer else SeeNotice), Send);
      if resize then Step(next, Send) else next
  }

  ghost predicate Browses(st: State, actions: seq<BrowserAction>)
    decreases |actions|
  {
    actions == [] || (BrowserEnabled(st, actions[0]) && Browses(BrowserStep(st, actions[0]), actions[1..]))
  }

  ghost function Browse(st: State, actions: seq<BrowserAction>): State
    requires Browses(st, actions)
    decreases |actions|
  {
    if actions == [] then st else Browse(BrowserStep(st, actions[0]), actions[1..])
  }

  const CONNECTED := Step(START, Send)

  /** The requests and updates that go round between the browser and the server. */
  function Circulating(st: State): nat {
    |st.toServer| + Count(st.queued) + Count(st.inService) + st.answersOut + st.noticesOut
  }

  /** The updates nobody asked for, and the second requests after a resize. */
  function Extra(b: BrowserAction): nat {
    match b
    case Server(a) => if a == Notify then 1 else 0
    case Handle(_, resize) => if resize then 1 else 0
  }

  function Extras(actions: seq<BrowserAction>): nat {
    if actions == [] then 0 else Extra(actions[0]) + Extras(actions[1..])
  }

  lemma {:induction false} BrowserStepKeeps(st: State, b: BrowserAction)
    requires BrowserEnabled(st, b) && Circulating(st) >= 1
    ensures var later := BrowserStep(st, b);
            && Circulating(later) >= 1
            && Circulating(later) + |later.dropped| == Circulating(st) + |st.dropped| + Extra(b)
            && (Circulating(st) == 1 ==> later.dropped == st.dropped)
  {
  }

  lemma {:induction false} BrowseKeeps(st: State, actions: seq<BrowserAction>)
    requires Browses(st, actions) && Circulating(st) >= 1
    ensures var later := Browse(st, actions);
            && Circulating(later) >= 1
            && Circulating(later) + |later.dropped| == Circulating(st) + |st.dropped| + Extras(actions)
            && (Circulating(st) == 1 && Extras(actions) == 0 ==> later.dropped == st.dropped)
    decreases |actions|
  {
    if actions != [] {
      BrowserStepKeeps(st, actions[0]);
      BrowseKeeps(BrowserStep(st, actions[0]), actions[1..]);
    }
  }

  /**
    The browser is never left waiting: whatever is sent unasked and however often the desktop is
    resized, something is always on its way round; dropped requests only undo the extra ones. With no
    extras exactly one thing goes round, and nothing is dropped.
   */
  lemma {:induction false} BrowserNeverStalls(actions: seq<BrowserAction>)
    requires Browses(CONNECTED, actions)
    ensures var st := Browse(CONNECTED, actions);
            && Circulating(st) + |st.dropped| == 1 + Extras(actions) && Circulating(st) >= 1
            && (Extras(actions) == 0 ==> st.dropped == [] && Circulating(st) == 1)
            && exists b :: BrowserEnabled(st, b) && b != Server(Notify)
  {
    BrowseKeeps(CONNECTED, actions);
    var st := Browse(CONNECTED, actions);
    var b := if st.answersOut > 0 then Handle(true, false) else if st.noticesOut > 0 then Handle(false, false)
             else if st.inService.Some? then Server(Answer) else if st.queued.Some? then Server(Take) else Server(Read);
    assert BrowserEnabled(st, b);
  }
}
