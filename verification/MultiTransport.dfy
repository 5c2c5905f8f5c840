/** MultiTransport (udap/multi_transport.go) as a step system: one pump per child moves packets into
    a shared channel of 32 slots; Close closes the stop channel, then the children, then waits. */
module MultiTransport {
  import opened Bytes
  import Collections

  type Packet = seq<byte>

  const CAPACITY := 32

  /** A packet in the merged channel, with the child it came from. */
  datatype Message = Message(child: nat, packet: Packet)

  /** Where a pump goroutine stands: in its child's Recv, at the channel send, or returned. */
  datatype Pump = Idle | Holding(packet: Packet) | Exited

  /** taken and delivered are histories: what each child's Recv has returned, and what Recv has
      returned to the client. */
  datatype State = State(
    stopped: bool,
    closed: seq<bool>,
    pumps: seq<Pump>,
    merged: seq<Message>,
    taken: seq<seq<Packet>>,
    delivered: seq<Message>)

  datatype Step =
    | Take(i: nat, packet: Packet)  // the child's Recv returns a packet
    | Fail(i: nat)                  // the child's Recv returns an error
    | Push(i: nat)                  // the channel takes the packet
    | Abandon(i: nat)               // the stop channel is chosen instead
    | Deliver                       // Recv returns a packet
    | Stop                          // Close closes the stop channel
    | CloseChild(i: nat)            // Close closes a child

  /** The first Recv has started the pumps. */
  function Init(n: nat): (s: State)
    ensures Invariant(s) && |s.pumps| == n
  {
    State(false, seq(n, _ => false), seq(n, _ => Idle), [], seq(n, _ => []), [])
  }

  /** A closed child's Recv returns nothing but errors; a cancelled context need not win the race. */
  predicate Enabled(s: State, step: Step)
    requires |s.pumps| == |s.closed|
  {
    match step
    case Take(i, _) => i < |s.pumps| && s.pumps[i].Idle? && !s.closed[i]
    case Fail(i) => i < |s.pumps| && s.pumps[i].Idle?
    case Push(i) => i < |s.pumps| && s.pumps[i].Holding? && |s.merged| < CAPACITY
    case Abandon(i) => i < |s.pumps| && s.pumps[i].Holding? && s.stopped
    case Deliver => s.merged != []
    case Stop => !s.stopped
    case CloseChild(i) => i < |s.closed| && s.stopped
  }

  function Apply(s: State, step: Step): State
    requires |s.pumps| == |s.closed| == |s.taken| && Enabled(s, step)
  {
    match step
    case Take(i, p) => s.(pumps := s.pumps[i := Holding(p)], taken := s.taken[i := s.taken[i] + [p]])
    case Fail(i) => s.(pumps := s.pumps[i := Exited])
    case Push(i) => s.(pumps := s.pumps[i := Idle], merged := s.merged + [Message(i, s.pumps[i].packet)])
    case Abandon(i) => s.(pumps := s.pumps[i := Exited])
    case Deliver => s.(merged := s.merged[1..], delivered := s.delivered + [s.merged[0]])
    case Stop => s.(stopped := true)
    case CloseChild(i) => s.(closed := s.closed[i := true])
  }

  // ---- Conservation ------------------------------------------------------------------

  /** The packets of one child among messages, in order. */
  function PacketsOf(i: nat, messages: seq<Message>): seq<Packet> {
    if messages == [] then []
    else PacketsOf(i, messages[..|messages| - 1]) +
         (if messages[|messages| - 1].child == i then [messages[|messages| - 1].packet] else [])
  }

  lemma PacketsSnoc(i: nat, messages: seq<Message>, m: Message)
    ensures PacketsOf(i, messages + [m]) == PacketsOf(i, messages) + (if m.child == i then [m.packet] else [])
  {
    assert (messages + [m])[..|messages|] == messages;
  }

  lemma {:induction false} PacketsConcat(i: nat, a: seq<Message>, b: seq<Message>)
    ensures PacketsOf(i, a + b) == PacketsOf(i, a) + PacketsOf(i, b)
    decreases |b|
  {
    if b == [] {
      assert a + b == a;
    } else {
      var front, last := b[..|b| - 1], b[|b| - 1];
      PacketsConcat(i, a, front);
      PacketsStep(i, a, front, last);
      assert b == front + [last];
    }
  }

  lemma PacketsStep(i: nat, a: seq<Message>, front: seq<Message>, last: Message)
    requires PacketsOf(i, a + front) == PacketsOf(i, a) + PacketsOf(i, front)
    ensures PacketsOf(i, a + (front + [last])) == PacketsOf(i, a) + PacketsOf(i, front + [last])
  {
    var more := if last.child == i then [last.packet] else [];
    PacketsSnoc(i, a + front, last);
    PacketsSnoc(i, front, last);
    Collections.Associates(a, front, [last]);
    Collections.Associates(PacketsOf(i, a), PacketsOf(i, front), more);
  }

  function Held(p: Pump): seq<Packet> {
    if p.Holding? then [p.packet] else []
  }

  /** What of child i has been received and is not lost. */
  function Accounted(s: State, i: nat): seq<Packet>
    requires i < |s.pumps|
  {
    PacketsOf(i, s.delivered + s.merged) + Held(s.pumps[i])
  }

  /** Everything taken from child i is delivered, queued or held, in the order it was taken; a pump
      that returned after Close began may have dropped the last packet. */
  ghost predicate Conserved(s: State, i: nat)
    requires i < |s.pumps| == |s.taken|
  {
    || s.taken[i] == Accounted(s, i)
    || (s.stopped && s.pumps[i].Exited? && s.taken[i] != [] && s.taken[i][..|s.taken[i]| - 1] == Accounted(s, i))
  }

  ghost predicate Invariant(s: State) {
    && |s.pumps| == |s.closed| == |s.taken|
    && |s.merged| <= CAPACITY
    && (forall i :: 0 <= i < |s.pumps| ==> Conserved(s, i))
    && (forall i :: 0 <= i < |s.closed| && s.closed[i] ==> s.stopped)
  }

  /** A step that moves one message from the channel to the client. */
  lemma DeliverKeeps(s: State)
    requires Invariant(s) && s.merged != []
    ensures Invariant(Apply(s, Deliver))
  {
    var t := Apply(s, Deliver);
    assert t.delivered + t.merged == s.delivered + s.merged;
    forall i | 0 <= i < |t.pumps| ensures Conserved(t, i) {
      assert Conserved(s, i);
    }
  }

  lemma PushKeeps(s: State, i: nat)
    requires Invariant(s) && Enabled(s, Push(i))
    ensures Invariant(Apply(s, Push(i)))
  {
    var t, m := Apply(s, Push(i)), Message(i, s.pumps[i].packet);
    assert t.delivered + t.merged == (s.delivered + s.merged) + [m];
    forall j | 0 <= j < |t.pumps| ensures Conserved(t, j) {
      assert Conserved(s, j);
      PacketsSnoc(j, s.delivered + s.merged, m);
    }
  }

  lemma StepKeeps(s: State, step: Step)
    requires Invariant(s) && Enabled(s, step)
    ensures Invariant(Apply(s, step))
  {
    var t := Apply(s, step);
    match step {
      case Deliver => DeliverKeeps(s);
      case Push(i) => PushKeeps(s, i);
      case _ =>
        forall j | 0 <= j < |t.pumps| ensures Conserved(t, j) {
          assert Conserved(s, j);
        }
    }
  }

  /** The states reached by doing the steps of a run in turn, as long as each is enabled. */
  ghost predicate Reaches(s: State, run: seq<Step>, t: State)
    requires Invariant(s)
    decreases |run|
  {
    if run == [] then s == t
    else if !Enabled(s, run[0]) then false
    else
      StepKeeps(s, run[0]);
      Reaches(Apply(s, run[0]), run[1..], t)
  }

  lemma {:induction false} RunKeeps(s: State, run: seq<Step>, t: State)
    requires Invariant(s) && Reaches(s, run, t)
    ensures Invariant(t) && |t.pumps| == |s.pumps|
    decreases |run|
  {
    if run != [] {
      StepKeeps(s, run[0]);
      RunKeeps(Apply(s, run[0]), run[1..], t);
    }
  }

  function CountHolding(pumps: seq<Pump>): (c: nat)
    ensures c <= |pumps|
  {
    if pumps == [] then 0 else (if pumps[0].Holding? then 1 else 0) + CountHolding(pumps[1..])
  }

  /** In every reachable state before Close, each child's packets are, in order, those delivered,
      then those queued, then the one its pump may hold: nothing is lost, repeated or reordered.
      At most 32 packets and one per child are on the way. */
  lemma NothingLost(n: nat, run: seq<Step>, t: State)
    requires Reaches(Init(n), run, t) && !t.stopped
    ensures |t.pumps| == |t.taken| == n
    ensures forall i :: 0 <= i < n ==>
              t.taken[i] == PacketsOf(i, t.delivered) + PacketsOf(i, t.merged) + Held(t.pumps[i])
    ensures |t.merged| + CountHolding(t.pumps) <= 32 + n
  {
    RunKeeps(Init(n), run, t);
    forall i | 0 <= i < n
      ensures t.taken[i] == PacketsOf(i, t.delivered) + PacketsOf(i, t.merged) + Held(t.pumps[i])
    {
      assert Conserved(t, i);
      PacketsConcat(i, t.delivered, t.merged);
    }
  }

  /** After Close, each child has lost at most the packet its pump was holding. */
  lemma AtMostOneLost(n: nat, run: seq<Step>, t: State, i: nat)
    requires Reaches(Init(n), run, t) && i < n
    ensures |t.pumps| == |t.taken| == n
    ensures Accounted(t, i) <= t.taken[i] && |t.taken[i]| <= |Accounted(t, i)| + 1
  {
    RunKeeps(Init(n), run, t);
    assert Conserved(t, i);
  }

  // ---- Delivery ----------------------------------------------------------------------

  /** What is in the channel can be taken out of it, oldest first. */
  lemma {:induction false} Drains(s: State) returns (run: seq<Step>, t: State)
    requires Invariant(s)
    ensures |run| == |s.merged| && Reaches(s, run, t)
    ensures t == s.(merged := [], delivered := s.delivered + s.merged)
    decreases |s.merged|
  {
    if s.merged == [] {
      run, t := [], s;
      assert s.delivered + [] == s.delivered;
    } else {
      StepKeeps(s, Deliver);
      var rest, u := Drains(Apply(s, Deliver));
      run, t := [Deliver] + rest, u;
      assert run[1..] == rest;
      assert s.delivered + [s.merged[0]] + s.merged[1..] == s.delivered + s.merged;
    }
  }

  lemma {:induction false} RunsConcat(s: State, a: seq<Step>, t: State, b: seq<Step>, u: State)
    requires Invariant(s) && Reaches(s, a, t) && Invariant(t) && Reaches(t, b, u)
    ensures Reaches(s, a + b, u)
    decreases |a|
  {
    if a == [] {
      assert a + b == b;
    } else {
      StepKeeps(s, a[0]);
      RunsConcat(Apply(s, a[0]), a[1..], t, b, u);
      assert (a + b)[0] == a[0] && (a + b)[1..] == a[1..] + b;
    }
  }

  /** A packet held by a pump can always be delivered, behind those that are queued, even if the channel
      is full: as long as the client keeps receiving, nobody is stuck. */
  lemma HeldIsDelivered(s: State, i: nat) returns (run: seq<Step>, t: State)
    requires Invariant(s) && i < |s.pumps| && s.pumps[i].Holding?
    ensures |run| <= 34 && Reaches(s, run, t)
    ensures t.merged == [] && t.delivered == s.delivered + s.merged + [Message(i, s.pumps[i].packet)]
  {
    var first, u := Drains(s);
    RunKeeps(s, first, u);
    var pushed := Apply(u, Push(i));
    StepKeeps(u, Push(i));
    var second;
    second, t := Drains(pushed);
    assert ([Push(i)] + second)[1..] == second;
    RunsConcat(s, first, u, [Push(i)] + second, t);
    run := first + ([Push(i)] + second);
  }

  // ---- Shutdown ----------------------------------------------------------------------

  /** A step of some pump. */
  predicate IsPumpStep(step: Step) {
    step.Take? || step.Fail? || step.Push? || step.Abandon?
  }

  predicate ShutDown(s: State) {
    s.stopped && forall i :: 0 <= i < |s.closed| ==> s.closed[i]
  }

  function Rank(p: Pump): nat {
    match p case Holding(_) => 2 case Idle => 1 case Exited => 0
  }

  function Remaining(pumps: seq<Pump>): (r: nat)
    ensures r <= 2 * |pumps|
  {
    if pumps == [] then 0 else Rank(pumps[0]) + Remaining(pumps[1..])
  }

  lemma {:induction false} RemainingUpdate(pumps: seq<Pump>, i: nat, p: Pump)
    requires i < |pumps|
    ensures Remaining(pumps[i := p]) == Remaining(pumps) - Rank(pumps[i]) + Rank(p)
    decreases |pumps|
  {
    if i > 0 {
      RemainingUpdate(pumps[1..], i - 1, p);
      assert pumps[i := p][1..] == pumps[1..][i - 1 := p];
    } else {
      assert pumps[0 := p][1..] == pumps[1..];
    }
  }

  lemma {:induction false} RemainingZero(pumps: seq<Pump>)
    ensures Remaining(pumps) == 0 <==> forall i :: 0 <= i < |pumps| ==> pumps[i].Exited?
    decreases |pumps|
  {
    if pumps != [] {
      RemainingZero(pumps[1..]);
      assert forall i :: 1 <= i < |pumps| ==> pumps[i] == pumps[1..][i - 1];
    }
  }

  /** Once everything is closed a pump step brings its pump nearer to returning, and no other step
      sets one back. */
  lemma StepDescends(s: State, step: Step)
    requires Invariant(s) && ShutDown(s) && Enabled(s, step)
    ensures ShutDown(Apply(s, step))
    ensures Remaining(Apply(s, step).pumps) <= Remaining(s.pumps) - (if IsPumpStep(step) then 1 else 0)
  {
    match step {
      case Fail(i) => RemainingUpdate(s.pumps, i, Exited);
      case Push(i) => RemainingUpdate(s.pumps, i, Idle);
      case Abandon(i) => RemainingUpdate(s.pumps, i, Exited);
      case _ =>
    }
  }

  /** A pump that has not returned can always move, even with the channel full. */
  lemma PumpsCanMove(s: State)
    requires Invariant(s) && ShutDown(s)
    ensures (forall step :: Enabled(s, step) ==> !IsPumpStep(step)) <==> Remaining(s.pumps) == 0
  {
    RemainingZero(s.pumps);
    forall i | 0 <= i < |s.pumps| && !s.pumps[i].Exited?
      ensures exists step :: Enabled(s, step) && IsPumpStep(step)
    {
      var step := if s.pumps[i].Idle? then Fail(i) else Abandon(i);
      assert Enabled(s, step) && IsPumpStep(step);
    }
  }

  function PumpSteps(run: seq<Step>): nat {
    if run == [] then 0 else (if IsPumpStep(run[0]) then 1 else 0) + PumpSteps(run[1..])
  }

  /** Close returns: after the stop channel and all children are closed the pumps together take at
      most two steps per child, whatever else happens, and can only come to rest by all returning,
      which is what Close waits for. */
  lemma {:induction false} CloseReturns(s: State, run: seq<Step>, t: State)
    requires Invariant(s) && ShutDown(s) && Reaches(s, run, t)
    ensures Invariant(t) && ShutDown(t)
    ensures PumpSteps(run) + Remaining(t.pumps) <= Remaining(s.pumps) <= 2 * |s.pumps|
    ensures (forall step :: Enabled(t, step) ==> !IsPumpStep(step)) <==> forall i :: 0 <= i < |t.pumps| ==> t.pumps[i].Exited?
    decreases |run|
  {
    if run != [] {
      StepKeeps(s, run[0]);
      StepDescends(s, run[0]);
      CloseReturns(Apply(s, run[0]), run[1..], t);
    } else {
      PumpsCanMove(t);
      RemainingZero(t.pumps);
    }
  }

  // ---- Send ------------------------------------------------------------------------

  /** Send, given what each child's Send returns: it succeeds if one child does. */
  method Send(results: seq<bool>) returns (ok: bool, failures: nat)
    ensures ok <==> exists i :: 0 <= i < |results| && results[i]
    ensures failures == |results| ==> !ok
  {
    var successes := 0;
    failures := 0;
    for i := 0 to |results|
      invariant successes + failures == i
      invariant successes > 0 <==> exists j :: 0 <= j < i && results[j]
    {
      if !results[i] {
        failures := failures + 1;
        continue;
      }
      successes := successes + 1;
    }
    ok := successes != 0;
  }
}
