/** The one-slot wakeup channel of MockTransport (mocksbr/transport.go) as a step system: senders
    append under the lock and notify after releasing it; receivers check under the lock and wait
    outside it. */
module Wakeup {
  import opened Bytes

  type Reply = seq<byte>

  /** Where a Recv call stands: not running, about to take the lock, or in its select. */
  datatype Receiver = Away | Checking | Waiting

  /** owed counts the notifyWaiter calls still to come; accepted and delivered are histories. */
  datatype State = State(
    pending: seq<Reply>,
    closed: bool,
    token: bool,
    owed: nat,
    receivers: seq<Receiver>,
    accepted: seq<Reply>,
    delivered: seq<Reply>)

  datatype Step =
    | Enqueue(reply: Reply)  // the locked half of enqueue
    | Close                  // the locked half of Close
    | Notify                 // notifyWaiter
    | Call(k: nat)           // Recv is called
    | Check(k: nat)          // the locked half of one turn of Recv
    | Wake(k: nat)           // the select receives the token
    | Expire(k: nat)         // the select sees the context done

  function Init(n: nat): (s: State)
    ensures |s.receivers| == n && forall k :: 0 <= k < n ==> s.receivers[k] == Away
  {
    State([], false, false, 0, seq(n, _ => Away), [], [])
  }

  predicate Enabled(s: State, step: Step) {
    match step
    case Enqueue(_) => true
    case Close => true
    case Notify => s.owed > 0
    case Call(k) => k < |s.receivers| && s.receivers[k].Away?
    case Check(k) => k < |s.receivers| && s.receivers[k].Checking?
    case Wake(k) => k < |s.receivers| && s.receivers[k].Waiting? && s.token
    case Expire(k) => k < |s.receivers| && s.receivers[k].Waiting?
  }

  function Apply(s: State, step: Step): (t: State)
    requires Enabled(s, step)
    ensures |t.receivers| == |s.receivers|
  {
    match step
    case Enqueue(r) =>
      if s.closed then s else s.(pending := s.pending + [r], accepted := s.accepted + [r], owed := s.owed + 1)
    case Close => s.(closed := true, pending := [], owed := s.owed + 1)
    case Notify => s.(owed := s.owed - 1, token := true)
    case Call(k) => s.(receivers := s.receivers[k := Checking])
    case Check(k) =>
      if s.closed then s.(receivers := s.receivers[k := Away])
      else if s.pending != [] then
        s.(receivers := s.receivers[k := Away], pending := s.pending[1..], delivered := s.delivered + [s.pending[0]])
      else s.(receivers := s.receivers[k := Waiting])
    case Wake(k) => s.(receivers := s.receivers[k := Checking], token := false)
    case Expire(k) => s.(receivers := s.receivers[k := Away])
  }

  ghost predicate Reaches(s: State, run: seq<Step>, t: State)
    decreases |run|
  {
    if run == [] then s == t else Enabled(s, run[0]) && Reaches(Apply(s, run[0]), run[1..], t)
  }

  /** Whoever waits while there is something to see will be woken: the token is there or a notifier
      is about to put it there. */
  predicate NoLostWakeup(s: State) {
    forall k :: 0 <= k < |s.receivers| && s.receivers[k].Waiting? && (s.pending != [] || s.closed) ==> s.token || s.owed > 0
  }

  // ---- Order -------------------------------------------------------------------------

  /** What has been accepted is what was delivered and then what is queued; Close discards the
      queue. */
  predicate InOrder(s: State) {
    if s.closed then s.pending == [] && s.delivered <= s.accepted
    else s.accepted == s.delivered + s.pending
  }

  lemma {:induction false} Fifo(s: State, run: seq<Step>, t: State)
    requires InOrder(s) && Reaches(s, run, t)
    ensures InOrder(t)
    decreases |run|
  {
    if run != [] {
      var u := Apply(s, run[0]);
      if run[0].Check? && !s.closed && s.pending != [] {
        assert u.delivered + u.pending == s.delivered + s.pending;
      }
      Fifo(u, run[1..], t);
    }
  }

  /** For any number of receivers, replies come out in the order in which they were queued, each
      once. */
  lemma RepliesInOrder(n: nat, run: seq<Step>, t: State)
    requires Reaches(Init(n), run, t)
    ensures if t.closed then t.delivered <= t.accepted else t.accepted == t.delivered + t.pending
  {
    Fifo(Init(n), run, t);
  }

  // ---- Wakeups -----------------------------------------------------------------------

  lemma {:induction false} SingleReceiver(s: State, run: seq<Step>, t: State)
    requires |s.receivers| <= 1 && NoLostWakeup(s) && Reaches(s, run, t)
    ensures NoLostWakeup(t)
    decreases |run|
  {
    if run != [] {
      SingleReceiver(Apply(s, run[0]), run[1..], t);
    }
  }

  /** The steps that lose a wakeup: both receivers wait, two replies arrive, and the second notifier
      finds the slot full. */
  function LosingRun(): seq<Step> {
    [Call(0), Check(0), Call(1), Check(1), Enqueue([1]), Enqueue([2]), Notify, Notify, Wake(0), Check(0)]
  }

  /** Its last state: receiver 1 waits for a reply that is queued, and nothing will wake it. */
  function Lost(n: nat): State
    requires n >= 2
  {
    State([[2]], false, false, 0, Init(n).receivers[1 := Waiting], [[1], [2]], [[1]])
  }

  lemma LosingRunReaches(n: nat)
    requires n >= 2
    ensures Reaches(Init(n), LosingRun(), Lost(n)) && !NoLostWakeup(Lost(n))
  {
    var a := Init(n).receivers;
    var both := a[0 := Waiting][1 := Waiting];
    var s4 := State([], false, false, 0, both, [], []);
    var s8 := State([[1], [2]], false, true, 0, both, [[1], [2]], []);
    assert a[0 := Checking][0 := Waiting][1 := Checking][1 := Waiting] == both;
    assert both[0 := Checking][0 := Away] == a[1 := Waiting];
    assert LosingRun()[4..] == [Enqueue([1]), Enqueue([2]), Notify, Notify, Wake(0), Check(0)];
    assert LosingRun()[8..] == [Wake(0), Check(0)];
    assert Lost(n).receivers[1].Waiting?;
    LastTwo(n, s8);
    MiddleFour(s4, s8, Lost(n));
    FirstFour(n, s4);
  }

  lemma LastTwo(n: nat, s: State)
    requires n >= 2
    requires s == State([[1], [2]], false, true, 0, Init(n).receivers[0 := Waiting][1 := Waiting], [[1], [2]], [])
    ensures Reaches(s, [Wake(0), Check(0)], Lost(n))
  {
    var t := Apply(s, Wake(0));
    assert [Wake(0), Check(0)][1..] == [Check(0)] && [Check(0)][1..] == [];
    assert s.receivers[0 := Checking][0 := Away] == Init(n).receivers[1 := Waiting];
    assert Apply(t, Check(0)) == Lost(n);
  }

  lemma MiddleFour(s: State, u: State, t: State)
    requires s.pending == [] && !s.closed && !s.token && s.owed == 0 && s.accepted == [] && s.delivered == []
    requires u == s.(pending := [[1], [2]], accepted := [[1], [2]], token := true)
    requires Reaches(u, [Wake(0), Check(0)], t)
    ensures Reaches(s, [Enqueue([1]), Enqueue([2]), Notify, Notify, Wake(0), Check(0)], t)
  {
    var run := [Enqueue([1]), Enqueue([2]), Notify, Notify, Wake(0), Check(0)];
    var a := Apply(s, run[0]);
    var b := Apply(a, run[1]);
    var c := Apply(b, Notify);
    assert Apply(c, Notify) == u;
    assert run[1..][1..] == run[2..] && run[2..][1..] == run[3..] && run[3..][1..] == [Wake(0), Check(0)];
    assert Reaches(c, run[3..], t);
    assert Reaches(b, run[2..], t);
    assert Reaches(a, run[1..], t);
  }

  lemma FirstFour(n: nat, s: State)
    requires n >= 2 && s == State([], false, false, 0, Init(n).receivers[0 := Waiting][1 := Waiting], [], [])
    requires Reaches(s, LosingRun()[4..], Lost(n))
    ensures Reaches(Init(n), LosingRun(), Lost(n))
  {
    var run := LosingRun();
    var a := Apply(Init(n), Call(0));
    var b := Apply(a, Check(0));
    var c := Apply(b, Call(1));
    assert Apply(c, Check(1)) == s;
    assert run[1..][1..] == run[2..] && run[2..][1..] == run[3..] && run[3..][1..] == run[4..];
    assert Reaches(c, run[3..], Lost(n));
    assert Reaches(b, run[2..], Lost(n));
    assert Reaches(a, run[1..], Lost(n));
  }

  ghost predicate NeverLost(n: nat) {
    forall run, t :: Reaches(Init(n), run, t) ==> NoLostWakeup(t)
  }

  /** The one-slot channel is enough exactly for at most one receiver at a time. */
  lemma EnoughForOne(n: nat)
    ensures NeverLost(n) <==> n <= 1
  {
    if n <= 1 {
      forall run, t | Reaches(Init(n), run, t) ensures NoLostWakeup(t) {
        SingleReceiver(Init(n), run, t);
      }
    } else {
      LosingRunReaches(n);
      var run, t := LosingRun(), Lost(n);
      assert Reaches(Init(n), run, t) && !NoLostWakeup(t);
    }
  }

  /** So a lone receiver that waits while a reply is queued gets the oldest one after at most three
      more steps, none of which is its caller's. */
  lemma WaiterIsServed(s: State) returns (run: seq<Step>, t: State)
    requires |s.receivers| == 1 && s.receivers[0].Waiting? && s.pending != [] && !s.closed && NoLostWakeup(s)
    ensures |run| <= 3 && Reaches(s, run, t)
    ensures t.delivered == s.delivered + [s.pending[0]] && t.pending == s.pending[1..]
  {
    assert s.token || s.owed > 0;
    var ready := if s.token then s else Apply(s, Notify);
    var woken := Apply(ready, Wake(0));
    t := Apply(woken, Check(0));
    var tail := [Wake(0), Check(0)];
    assert tail[1..] == [Check(0)] && [Check(0)][1..] == [];
    assert Reaches(woken, [Check(0)], t);
    assert Reaches(ready, tail, t);
    if s.token {
      run := tail;
    } else {
      run := [Notify] + tail;
      assert run[1..] == tail;
    }
  }
}
