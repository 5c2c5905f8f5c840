/** MockTransport (mocksbr/transport.go) as one goroutine sees it, proved to follow the transport
    functions of ClientProtocol. Waiting and waking are the subject of Wakeup. */
module InProcessTransport {
  import opened Bytes
  import opened Parameters
  import opened SimNetwork
  import opened SimulatedNetwork
  import opened ClientProtocol

  class MockTransport {
    const net: Network
    var pending: seq<Pending>
    var delayed: seq<Pending>  // replies of slow devices whose timers have not fired
    var closed: bool

    ghost function View(): World
      reads this, net, net.devices.Values
    {
      World(net.View(), pending, delayed, closed)
    }

    ghost predicate Valid()
      reads this, net, net.devices.Values
    {
      net.Valid()
    }

    /** NewMockTransport */
    constructor (n: Network)
      requires n.Valid()
      ensures Valid() && net == n && View() == World(n.View(), [], [], false)
    {
      net := n;
      pending, delayed, closed := [], [], false;
    }

    /** enqueue: dropped once the transport is closed. */
    method EnqueueReply(p: Pending)
      modifies this`pending
      ensures pending == if closed then old(pending) else old(pending) + [p]
    {
      if closed {
        return;
      }
      pending := pending + [p];
    }

    /** scheduleReply */
    method ScheduleReply(r: ScheduledReply)
      modifies this`pending, this`delayed
      ensures View() == Enqueue(old(View()), [r])
    {
      var src := SourceOf(r.bytes);
      assert [r][1..] == [];
      if r.delay <= 0 {
        EnqueueReply(Pending(r.bytes, src));
        return;
      }
      delayed := delayed + [Pending(r.bytes, src)];
    }

    /** The function handed to time.AfterFunc, for the i-th reply that is waiting. */
    method Fire(i: nat)
      requires i < |delayed|
      modifies this`pending, this`delayed
      ensures View() == TimerFires(old(View()), i)
    {
      var p := delayed[i];
      delayed := delayed[..i] + delayed[i + 1..];
      EnqueueReply(p);
    }

    /** Send */
    method Send(s: Schema, clock: nat -> nat, packet: seq<byte>) returns (ok: bool)
      requires Valid()
      modifies this`pending, this`delayed, net`ticks, net.devices.Values
      ensures Valid() && ok
      ensures View() == ClientProtocol.Send(s, clock, old(View()), packet)
    {
      var replies := net.ReceiveScheduled(s, clock, packet);
      ghost var sent := View();
      for i := 0 to |replies|
        invariant Valid() && Enqueue(View(), replies[i..]) == Enqueue(sent, replies)
      {
        ScheduleNext(replies, i, View(), sent);
      }
      ok := true;
    }

    /** One turn of its loop, in the state w. */
    method ScheduleNext(replies: seq<ScheduledReply>, i: nat, ghost w: World, ghost sent: World)
      requires Valid() && View() == w && i < |replies| && Enqueue(w, replies[i..]) == Enqueue(sent, replies)
      modifies this`pending, this`delayed
      ensures Valid() && Enqueue(View(), replies[i + 1..]) == Enqueue(sent, replies)
    {
      EnqueueCons(w, replies[i..]);
      assert replies[i..][0] == replies[i] && replies[i..][1..] == replies[i + 1..];
      ScheduleReply(replies[i]);
    }

    /** Recv when the caller's context has no more time than it takes for what is queued. */
    method Recv() returns (r: Option<Pending>)
      modifies this`pending
      ensures closed ==> r == None && pending == old(pending)
      ensures !closed && old(pending) == [] ==> r == None && pending == []
      ensures !closed && old(pending) != [] ==> r == Some(old(pending)[0]) && pending == old(pending)[1..]
    {
      if closed {
        return None;
      }
      if |pending| > 0 {
        r := Some(pending[0]);
        pending := pending[1..];
        return;
      }
      return None;
    }

    /** InjectReply */
    method InjectReply(packet: seq<byte>, src: text)
      modifies this`pending
      ensures pending == if closed then old(pending) else old(pending) + [Pending(packet, src)]
    {
      EnqueueReply(Pending(packet, src));
    }

    /** Close discards what is queued, for good. */
    method Close()
      modifies this`pending, this`closed
      ensures View() == old(View()).(queue := [], closed := true)
    {
      closed := true;
      pending := [];
    }
  }

  lemma EnqueueCons(w: World, replies: seq<ScheduledReply>)
    requires replies != []
    ensures Enqueue(w, replies) == Enqueue(Enqueue(w, [replies[0]]), replies[1..])
  {
    assert [replies[0]][1..] == [];
  }

  /** picks names, timer by timer, which of the delayed replies comes next. */
  predicate Picks(picks: seq<nat>, n: nat)
    decreases n
  {
    |picks| == n && (n == 0 || (picks[0] < n && Picks(picks[1..], n - 1)))
  }

  function FireAll(w: World, picks: seq<nat>): World
    requires Picks(picks, |w.delayed|)
    decreases |picks|
  {
    if picks == [] then w else FireAll(TimerFires(w, picks[0]), picks[1..])
  }

  /** In whatever order their timers fire, on an open transport the delayed replies arrive behind what
      is queued, each once and no others. */
  lemma {:induction false} DelayedArrive(w: World, picks: seq<nat>)
    requires !w.closed && Picks(picks, |w.delayed|)
    ensures var w' := FireAll(w, picks);
            && w'.delayed == [] && w'.net == w.net && w.queue <= w'.queue
            && multiset(w'.queue) == multiset(w.queue) + multiset(w.delayed)
    decreases |picks|
  {
    if picks != [] {
      var i := picks[0];
      DelayedArrive(TimerFires(w, i), picks[1..]);
      assert w.delayed == w.delayed[..i] + [w.delayed[i]] + w.delayed[i + 1..];
    }
  }
}
