/** What a client that retries is owed. Each request brings retries + 1 answers and takes one, so over
    a session with a device that answers reads and refuses writes the queue grows, and each operation
    is given the answer to an ever older request. Which one it is has a closed form, and with it the
    answer to the question when a nil can be believed. */
module Backlog {
  import opened Bytes
  import opened Parameters
  import opened Wire
  import opened Items
  import opened ClientProtocol
  import opened LockStep
  import opened ReadModifyWrite
  import opened Runs
  import opened Retries
  import opened StaleAcks
  import opened Collections

  // ---- What waits for the client -----------------------------------------------------------

  /** The filter of waitForDeviceReply as a value. */
  function ReplyFilter(m: mac, ip: text): Pending -> bool {
    (p: Pending) => Matches(p, m, ip)
  }

  /** The queued packets that it will let through. */
  function Waiting(queue: seq<Pending>, m: mac, ip: text): seq<Pending> {
    Kept(ReplyFilter(m, ip), queue)
  }

  /** Waiting for a reply takes the first of them. */
  lemma {:induction false} AwaitTakes(queue: seq<Pending>, m: mac, ip: text)
    ensures Waiting(queue, m, ip) == [] ==> Await(queue, m, ip).1 == None
    ensures Waiting(queue, m, ip) != [] ==>
              && Matches(Waiting(queue, m, ip)[0], m, ip)
              && Await(queue, m, ip).1 == ParsePacket(Waiting(queue, m, ip)[0].bytes)
              && Waiting(Await(queue, m, ip).0, m, ip) == Waiting(queue, m, ip)[1..]
    decreases |queue|
  {
    if queue == [] {
    } else if Matches(queue[0], m, ip) {
    } else {
      AwaitTakes(queue[1..], m, ip);
    }
  }

  // ---- What is owed ----------------------------------------------------------------------

  /** Every packet sent, as the request it belongs to. */
  function Asked(requests: seq<RequestKind>, retries: nat): seq<RequestKind>
    decreases |requests|
  {
    if requests == [] then []
    else
      var last := requests[|requests| - 1];
      Asked(requests[..|requests| - 1], retries) + seq(retries + 1, _ => last)
  }

  lemma AskedMore(requests: seq<RequestKind>, x: RequestKind, retries: nat)
    ensures Asked(requests + [x], retries) == Asked(requests, retries) + seq(retries + 1, _ => x)
  {
    assert (requests + [x])[..|requests|] == requests;
  }

  /** The waiting packets answer what was asked from the n-th packet on. */
  ghost predicate InOrder(answers: (Pending, RequestKind) -> bool, waiting: seq<Pending>, asked: seq<RequestKind>, n: nat) {
    && |waiting| + n == |asked|
    && forall i :: 0 <= i < |waiting| ==> answers(waiting[i], asked[n + i])
  }

  ghost predicate AllAnswer(answers: (Pending, RequestKind) -> bool, more: seq<Pending>, x: RequestKind) {
    forall i :: 0 <= i < |more| ==> answers(more[i], x)
  }

  lemma TakeFirst(answers: (Pending, RequestKind) -> bool, waiting: seq<Pending>, asked: seq<RequestKind>, n: nat,
                  more: seq<Pending>, x: RequestKind)
    requires InOrder(answers, waiting, asked, n) && AllAnswer(answers, more, x) && more != []
    ensures var all := asked + seq(|more|, _ => x);
            && n < |all| && answers((waiting + more)[0], all[n])
            && InOrder(answers, (waiting + more)[1..], all, n + 1)
  {
    var now, all := waiting + more, asked + seq(|more|, _ => x);
    forall i | 0 <= i < |now| ensures answers(now[i], all[n + i]) {
      if i >= |waiting| {
        assert now[i] == more[i - |waiting|];
      }
    }
    assert now[0] == now[0 + 0] && all[n] == all[n + 0];
    forall i | 0 <= i < |now[1..]| ensures answers(now[1..][i], all[n + 1 + i]) {
      assert answers(now[i + 1], all[n + (i + 1)]);
    }
  }

  ghost function AnswersOf(s: Schema, working: map<text, text>, c: Session): (Pending, RequestKind) -> bool {
    (p: Pending, x: RequestKind) => IsAnswer(s, working, c, p, x)
  }

  /** One answer per packet sent and not taken yet: |requests| answers are taken, the others wait in
      the order in which they were asked for. */
  ghost predicate Owes(s: Schema, working: map<text, text>, c: Session, queue: seq<Pending>, requests: seq<RequestKind>) {
    InOrder(AnswersOf(s, working, c), Waiting(queue, c.m, c.ip), Asked(requests, c.retries), |requests|)
  }

  /** A request brings its answers, and its operation takes the oldest that waits. */
  lemma TakeOne(s: Schema, working: map<text, text>, c: Session, queue: seq<Pending>, more: seq<Pending>,
                requests: seq<RequestKind>, x: RequestKind)
    requires Owes(s, working, c, queue, requests) && |more| == c.retries + 1
    requires AllAnswer(AnswersOf(s, working, c), more, x)
    ensures |Asked(requests + [x], c.retries)| > |requests|
    ensures var (rest, r) := Await(queue + more, c.m, c.ip);
            && Tells(s, working, r, Asked(requests + [x], c.retries)[|requests|])
            && Owes(s, working, c, rest, requests + [x])
  {
    AskedMore(requests, x, c.retries);
    KeptConcat(ReplyFilter(c.m, c.ip), queue, more);
    forall i | 0 <= i < |more| ensures ReplyFilter(c.m, c.ip)(more[i]) {
      assert AnswersOf(s, working, c)(more[i], x);
    }
    KeptAll(ReplyFilter(c.m, c.ip), more);
    AwaitTakes(queue + more, c.m, c.ip);
    TakeFirst(AnswersOf(s, working, c), Waiting(queue, c.m, c.ip), Asked(requests, c.retries), |requests|, more, x);
  }

  /** The same for a request sent to the device. */
  lemma TakeAnswered(s: Schema, w: World, sent: World, c: Session, requests: seq<RequestKind>, x: RequestKind)
    requires Hosts(w, c) && Answered(s, w, sent, c, x, c.retries + 1)
    requires Owes(s, Target(w, c).working, c, w.queue, requests)
    ensures |Asked(requests + [x], c.retries)| > |requests|
    ensures var (rest, r) := Await(sent.queue, c.m, c.ip);
            && Tells(s, Target(w, c).working, r, Asked(requests + [x], c.retries)[|requests|])
            && Owes(s, Target(w, c).working, c, rest, requests + [x])
  {
    var more := sent.queue[|w.queue|..];
    assert sent.queue == w.queue + more;
    forall i | 0 <= i < |more| ensures AnswersOf(s, Target(w, c).working, c)(more[i], x) {
      assert more[i] == sent.queue[|w.queue| + i];
    }
    TakeOne(s, Target(w, c).working, c, w.queue, more, requests, x);
  }

  // ---- The closed form -------------------------------------------------------------------

  lemma CancelMul(a: int, b: int, d: int)
    requires 0 < d && a * d < b * d
    ensures a < b
  {
  }

  lemma QuotientIs(k: nat, q: nat, d: nat)
    requires 0 < d && q * d <= k < q * d + d
    ensures k / d == q
  {
    var e := k / d;
    assert e * d <= k < e * d + d;
    assert (e + 1) * d == e * d + d && (q + 1) * d == q * d + d;
    CancelMul(q, e + 1, d);
    CancelMul(e, q + 1, d);
  }

  lemma {:induction false} AskedLength(requests: seq<RequestKind>, retries: nat)
    ensures |Asked(requests, retries)| == |requests| * (retries + 1)
    decreases |requests|
  {
    if requests != [] {
      AskedLength(requests[..|requests| - 1], retries);
      assert (|requests| - 1) * (retries + 1) + (retries + 1) == |requests| * (retries + 1);
    }
  }

  /** The k-th packet sent belongs to request number k / (retries + 1). */
  lemma {:induction false} AskedAt(requests: seq<RequestKind>, retries: nat, k: nat)
    ensures |Asked(requests, retries)| == |requests| * (retries + 1)
    ensures k < |Asked(requests, retries)| ==>
              k / (retries + 1) < |requests| && Asked(requests, retries)[k] == requests[k / (retries + 1)]
    decreases |requests|
  {
    AskedLength(requests, retries);
    if requests != [] {
      var q := |requests| - 1;
      AskedAt(requests[..q], retries, k);
      if |Asked(requests[..q], retries)| <= k < |Asked(requests, retries)| {
        AskedLast(requests, retries, k);
      }
    }
  }

  lemma AskedLast(requests: seq<RequestKind>, retries: nat, k: nat)
    requires requests != []
    requires |Asked(requests[..|requests| - 1], retries)| <= k < |Asked(requests, retries)|
    ensures k / (retries + 1) == |requests| - 1 && Asked(requests, retries)[k] == requests[|requests| - 1]
  {
    var q, d := |requests| - 1, retries + 1;
    AskedLength(requests[..q], retries);
    AskedLength(requests, retries);
    assert q * d + d == |requests| * d;
    QuotientIs(k, q, d);
  }

  lemma LessSent(n: nat, retries: nat)
    requires n > 0 && retries > 0
    ensures n < n * (retries + 1)
  {
    assert n * (retries + 1) == n * retries + n;
    assert n * retries > 0;
  }

  /** The request whose answer comes next, if one is left over from an earlier one. */
  function StaleAnswer(requests: seq<RequestKind>, retries: nat): Option<RequestKind> {
    if retries == 0 || requests == [] then None
    else
      AskedAt(requests, retries, |requests|);
      LessSent(|requests|, retries);
      Some(requests[|requests| / (retries + 1)])
  }

  /** The queue holds an acknowledgement for the next write exactly when that answer is a read's. */
  lemma StaleAckExactly(s: Schema, working: map<text, text>, c: Session, queue: seq<Pending>, requests: seq<RequestKind>)
    requires Owes(s, working, c, queue, requests)
    ensures HasStaleAck(queue, c) <==> StaleAnswer(requests, c.retries) == Some(ReadRequest)
  {
    var waiting := Waiting(queue, c.m, c.ip);
    AwaitTakes(queue, c.m, c.ip);
    NextIsStale(requests, c.retries, |waiting|);
    if waiting != [] {
      assert AnswersOf(s, working, c)(waiting[0], Asked(requests, c.retries)[|requests| + 0]);
    }
  }

  /** Something is left over exactly when packets outnumber requests. */
  lemma NextIsStale(requests: seq<RequestKind>, retries: nat, waiting: nat)
    requires waiting + |requests| == |Asked(requests, retries)|
    ensures StaleAnswer(requests, retries) ==
            if waiting == 0 then None else Some(Asked(requests, retries)[|requests|])
  {
    AskedAt(requests, retries, |requests|);
    assert |requests| * (retries + 1) == |requests| * retries + |requests|;
    if waiting == 0 && requests != [] {
      assert |requests| * retries == 0;
    }
  }

  // ---- Sessions with a device that refuses writes ------------------------------------------------

  /** Between two operations: the device refuses writes, the client is owed what it has asked for, and
      what it has cached could be written back. */
  ghost predicate Alive(s: Schema, w: World, c: Session, requests: seq<RequestKind>) {
    && Refuses(s, w, c) && Owes(s, Target(w, c).working, c, w.queue, requests)
    && Canonical(s, c.cache) && Encodable(s, c.cache)
  }

  /** The state after one exchange, with another cache or the same. */
  lemma StaysAlive(s: Schema, w: World, c: Session, requests: seq<RequestKind>, x: RequestKind, w': World, c': Session)
    requires Alive(s, w, c, requests) && SameTarget(c, c') && w'.net.devices == w.net.devices && !w'.closed
    requires Owes(s, Target(w, c).working, c, w'.queue, requests + [x])
    requires Canonical(s, c'.cache) && Encodable(s, c'.cache)
    ensures Alive(s, w', c', requests + [x])
  {
    var working := Target(w, c).working;
    forall p, k | AnswersOf(s, working, c)(p, k) ensures AnswersOf(s, working, c')(p, k) {
    }
  }

  /** The request whose answer an operation is given: its own when nothing is left over. */
  function Given(requests: seq<RequestKind>, x: RequestKind, retries: nat): RequestKind {
    match StaleAnswer(requests, retries) case Some(y) => y case None => x
  }

  lemma {:induction false} MoreAsked(requests: seq<RequestKind>, retries: nat)
    ensures |Asked(requests, retries)| >= |requests|
    decreases |requests|
  {
    if requests != [] {
      MoreAsked(requests[..|requests| - 1], retries);
    }
  }

  lemma GivenIsNext(requests: seq<RequestKind>, x: RequestKind, retries: nat)
    requires |Asked(requests + [x], retries)| > |requests|
    ensures Asked(requests + [x], retries)[|requests|] == Given(requests, x, retries)
  {
    AskedMore(requests, x, retries);
    MoreAsked(requests, retries);
    NextIsStale(requests, retries, |Asked(requests, retries)| - |requests|);
  }

  /** A full read succeeds exactly when the answer it is given is a read's. */
  lemma ReadAgainst(s: Schema, clock: nat -> nat, w: World, c: Session, requests: seq<RequestKind>)
    requires Alive(s, w, c, requests)
    ensures var o := GetAll(s, clock, w, c);
            && Alive(s, o.world, o.session, requests + [ReadRequest])
            && o.world.net.devices == w.net.devices && SameTarget(c, o.session)
            && (o.ok <==> Given(requests, ReadRequest, c.retries) == ReadRequest)
            && (if o.ok then CacheAgrees(s, o.session.cache, Target(w, c).working) else o.session.cache == c.cache)
  {
    var sent := SendFullRead(s, clock, w, c);
    TakeAnswered(s, w, sent, c, requests, ReadRequest);
    GivenIsNext(requests, ReadRequest, c.retries);
    var o := ReadResult(s, sent, c);
    if o.ok {
      var r := Await(sent.queue, c.m, c.ip).1;
      RefreshAgrees(s, c.cache, GetDataResponse(s, r.value.1).value, Target(w, c).working);
      AgreeingEncodes(s, o.session.cache, Target(w, c).working);
    }
    StaysAlive(s, w, c, requests, ReadRequest, o.world, o.session);
  }

  lemma AgreeingEncodes(s: Schema, cache: map<text, text>, working: map<text, text>)
    requires s.Valid() && CacheAgrees(s, cache, working)
    ensures Encodable(s, cache)
  {
    forall k | k in KnownKeys(s, cache) ensures Encode(s.ByName(k).value.length, cache[k]).Some? {
      s.ByNameExactly(k);
    }
  }

  lemma MergeEncodes(s: Schema, cache: map<text, text>, config: map<text, text>)
    requires Encodable(s, cache)
    ensures Encodable(s, cache + config) <==> Encodable(s, config)
  {
    var all := cache + config;
    forall k | k in KnownKeys(s, all) && k !in config ensures Encode(s.ByName(k).value.length, all[k]).Some? {
      assert k in KnownKeys(s, cache);
    }
    forall k | k in KnownKeys(s, config) ensures k in KnownKeys(s, all) && all[k] == config[k] {
    }
  }

  /** A write returns nil exactly when the answer it is given is a read's. */
  lemma WriteAgainst(s: Schema, clock: nat -> nat, w: World, c: Session, config: map<text, text>, keys: seq<text>,
                     requests: seq<RequestKind>)
    requires Alive(s, w, c, requests) && Canonical(s, config) && Encodable(s, config)
    requires Listing(s, c.cache + config, keys)
    ensures var o := Write(s, clock, w, c, config, keys);
            && Alive(s, o.world, o.session, requests + [WriteRequest])
            && o.world.net.devices == w.net.devices && SameTarget(c, o.session)
            && (o.ok <==> Given(requests, WriteRequest, c.retries) == ReadRequest)
            && o.session.cache == if o.ok then c.cache + config else c.cache
  {
    MergedCanonical(s, c.cache, config);
    MergeEncodes(s, c.cache, config);
    var sent := SendWrite(s, clock, w, c, config, keys);
    TakeAnswered(s, w, sent, c, requests, WriteRequest);
    GivenIsNext(requests, WriteRequest, c.retries);
    var o := WriteResult(sent, c.(counter := NextSequence(c.counter)), c.cache + config);
    StaysAlive(s, w, c, requests, WriteRequest, o.world, o.session);
  }

  /** The requests an operation sends; cached tells whether the client has a cache already. */
  function Requests(s: Schema, cached: bool, op: ClientOp): seq<RequestKind> {
    match op
    case ReadAll => [ReadRequest]
    case Store(config) => (if cached then [] else [ReadRequest]) + (if Encodable(s, config) then [WriteRequest] else [])
    case Reboot => []
  }

  /** The requests of a session of reads and sets. */
  function History(s: Schema, cached: bool, ops: seq<ClientOp>): seq<RequestKind>
    decreases |ops|
  {
    if ops == [] then [] else Requests(s, cached, ops[0]) + History(s, true, ops[1..])
  }

  /** A client with nothing cached has asked for nothing, so its first read is given its own answer. */
  ghost predicate InSession(s: Schema, w: World, c: Session, requests: seq<RequestKind>) {
    Alive(s, w, c, requests) && (c.cache == map[] ==> requests == []) && s.Names() != {}
  }

  lemma CacheIsFilled(s: Schema, cache: map<text, text>, working: map<text, text>)
    requires CacheAgrees(s, cache, working) && s.Names() != {}
    ensures cache != map[]
  {
    var n :| n in s.Names();
    assert n in cache;
  }

  /** The requests before the write of a set. */
  function WithPrelude(cached: bool, requests: seq<RequestKind>): seq<RequestKind> {
    if cached then requests else requests + [ReadRequest]
  }

  lemma PreludeAgainst(s: Schema, clock: nat -> nat, w: World, c: Session, requests: seq<RequestKind>)
    requires InSession(s, w, c, requests)
    ensures var p := Prelude(s, clock, w, c);
            && p.ok && p.session.cache != map[] && InSession(s, p.world, p.session, WithPrelude(c.cache != map[], requests))
            && p.world.net.devices == w.net.devices && SameTarget(c, p.session)
  {
    if c.cache == map[] {
      ReadAgainst(s, clock, w, c, requests);
      CacheIsFilled(s, Prelude(s, clock, w, c).session.cache, Target(w, c).working);
    }
  }

  /** What an operation leaves: a session that goes on, no device changed, something cached. */
  ghost predicate GoesOn(s: Schema, w: World, c: Session, w': World, c': Session, requests: seq<RequestKind>) {
    && InSession(s, w', c', requests) && c'.cache != map[]
    && w'.net.devices == w.net.devices && SameTarget(c, c')
  }

  lemma ReadGoesOn(s: Schema, clock: nat -> nat, w: World, c: Session, requests: seq<RequestKind>)
    requires InSession(s, w, c, requests)
    ensures var o := GetAll(s, clock, w, c); GoesOn(s, w, c, o.world, o.session, requests + [ReadRequest])
  {
    ReadAgainst(s, clock, w, c, requests);
    var o := GetAll(s, clock, w, c);
    if o.ok {
      CacheIsFilled(s, o.session.cache, Target(w, c).working);
    }
  }

  lemma StoreGoesOn(s: Schema, clock: nat -> nat, w: World, c: Session, config: map<text, text>, requests: seq<RequestKind>)
    requires InSession(s, w, c, requests) && Canonical(s, config)
    ensures var o := Perform(s, clock, w, c, Store(config));
            GoesOn(s, w, c, o.world, o.session, requests + Requests(s, c.cache != map[], Store(config)))
  {
    var p, before := Prelude(s, clock, w, c), WithPrelude(c.cache != map[], requests);
    PreludeAgainst(s, clock, w, c, requests);
    StoreAgainst(s, clock, p.world, p.session, config, before);
    JoinRequests(s, c.cache != map[], config, requests);
  }

  lemma JoinRequests(s: Schema, cached: bool, config: map<text, text>, requests: seq<RequestKind>)
    ensures WithPrelude(cached, requests) + (if Encodable(s, config) then [WriteRequest] else []) ==
            requests + Requests(s, cached, Store(config))
  {
  }

  lemma PerformAgainst(s: Schema, clock: nat -> nat, w: World, c: Session, op: ClientOp, requests: seq<RequestKind>)
    requires InSession(s, w, c, requests) && !op.Reboot? && (op.Store? ==> Canonical(s, op.config))
    ensures var o := Perform(s, clock, w, c, op);
            GoesOn(s, w, c, o.world, o.session, requests + Requests(s, c.cache != map[], op))
  {
    match op {
      case ReadAll => ReadGoesOn(s, clock, w, c, requests);
      case Store(config) => StoreGoesOn(s, clock, w, c, config, requests);
    }
  }

  lemma MergeIsFull(cache: map<text, text>, config: map<text, text>)
    requires cache != map[]
    ensures cache + config != map[]
  {
    var k :| k in cache;
    assert k in cache + config;
  }

  lemma StoreAgainst(s: Schema, clock: nat -> nat, w: World, c: Session, config: map<text, text>, requests: seq<RequestKind>)
    requires InSession(s, w, c, requests) && c.cache != map[] && Canonical(s, config)
    ensures var keys := TableOrder(s.params, c.cache + config);
            && (forall k :: k in keys ==> k in KnownKeys(s, c.cache + config))
            && var o := Write(s, clock, w, c, config, keys);
               GoesOn(s, w, c, o.world, o.session, requests + if Encodable(s, config) then [WriteRequest] else [])
  {
    var keys := TableOrder(s.params, c.cache + config);
    MergedCanonical(s, c.cache, config);
    TableOrderIsListing(s, c.cache + config);
    if Encodable(s, config) {
      WriteAgainst(s, clock, w, c, config, keys, requests);
      MergeIsFull(c.cache, config);
    } else {
      MergeEncodes(s, c.cache, config);
      RefusedGoesOn(s, w, c, requests, Write(s, clock, w, c, config, keys));
    }
  }

  /** A write of values that do not encode sends nothing. */
  lemma RefusedGoesOn(s: Schema, w: World, c: Session, requests: seq<RequestKind>, o: Outcome)
    requires InSession(s, w, c, requests) && c.cache != map[]
    requires o.world == w && o.session == c.(counter := o.session.counter)
    ensures GoesOn(s, w, c, o.world, o.session, requests + [])
  {
    assert requests + [] == requests;
  }

  lemma {:induction false} RunAgainst(s: Schema, clock: nat -> nat, w: World, c: Session, ops: seq<ClientOp>, requests: seq<RequestKind>)
    requires InSession(s, w, c, requests)
    requires forall i :: 0 <= i < |ops| ==> !ops[i].Reboot? && (ops[i].Store? ==> Canonical(s, ops[i].config))
    ensures var r := Run(s, clock, w, c, ops);
            && InSession(s, r.world, r.session, requests + History(s, c.cache != map[], ops))
            && (r.session.cache != map[] <==> c.cache != map[] || ops != [])
            && r.world.net.devices == w.net.devices && SameTarget(c, r.session)
    decreases |ops|, 1
  {
    if ops == [] {
      assert requests + [] == requests;
    } else {
      PerformAgainst(s, clock, w, c, ops[0], requests);
      RestAgainst(s, clock, w, c, ops, requests, Perform(s, clock, w, c, ops[0]));
    }
  }

  lemma HistoryOfRest(s: Schema, cached: bool, ops: seq<ClientOp>, requests: seq<RequestKind>)
    requires ops != []
    ensures requests + Requests(s, cached, ops[0]) + History(s, true, ops[1..]) == requests + History(s, cached, ops)
  {
  }

  lemma {:induction false} RestAgainst(s: Schema, clock: nat -> nat, w: World, c: Session, ops: seq<ClientOp>, requests: seq<RequestKind>, o: Outcome)
    requires ops != [] && GoesOn(s, w, c, o.world, o.session, requests + Requests(s, c.cache != map[], ops[0]))
    requires forall i :: 0 <= i < |ops| ==> !ops[i].Reboot? && (ops[i].Store? ==> Canonical(s, ops[i].config))
    ensures var r := Run(s, clock, o.world, o.session, ops[1..]);
            GoesOn(s, w, c, r.world, r.session, requests + History(s, c.cache != map[], ops))
    decreases |ops|, 0
  {
    RunAgainst(s, clock, o.world, o.session, ops[1..], requests + Requests(s, c.cache != map[], ops[0]));
    HistoryOfRest(s, c.cache != map[], ops, requests);
  }

  /** A session starts with nothing from the target queued and a cache that could be written back. */
  ghost predicate Starts(s: Schema, w: World, c: Session) {
    Refuses(s, w, c) && NoneMatch(w.queue, c.m, c.ip) && Canonical(s, c.cache) && Encodable(s, c.cache)
  }

  lemma StartsAlive(s: Schema, w: World, c: Session)
    requires Starts(s, w, c)
    ensures Alive(s, w, c, [])
  {
    KeptNone(ReplyFilter(c.m, c.ip), w.queue);
  }

  lemma ChangesAName(s: Schema, config: map<text, text>, working: map<text, text>)
    requires Changes(s, config, working)
    ensures s.Names() != {}
  {
  }

  /** What a set does after such a session, given the requests before its write. */
  lemma SetAgainst(s: Schema, clock: nat -> nat, w: World, c: Session, config: map<text, text>, keys: seq<text>, requests: seq<RequestKind>)
    requires InSession(s, w, c, requests) && Canonical(s, config) && Changes(s, config, Target(w, c).working)
    requires var p := Prelude(s, clock, w, c); p.ok ==> Listing(s, p.session.cache + config, keys)
    ensures var stale := StaleAnswer(WithPrelude(c.cache != map[], requests), c.retries) == Some(ReadRequest);
            && (NilMeansApplied(s, clock, w, c, config, keys) <==> !(Encodable(s, config) && stale))
            && (Set(s, clock, w, c, config, keys).ok <==> Encodable(s, config) && stale)
  {
    var p, before := Prelude(s, clock, w, c), WithPrelude(c.cache != map[], requests);
    PreludeAgainst(s, clock, w, c, requests);
    NilTrustedExactly(s, clock, w, c, config, keys);
    StaleAckExactly(s, Target(p.world, p.session).working, p.session, p.world.queue, before);
    MergeEncodes(s, p.session.cache, config);
    if Encodable(s, config) {
      WriteTakesStale(s, clock, p.world, p.session, config, keys);
    }
  }

  /** The same for the set of a session, with what is cached after it. */
  lemma StoreReturns(s: Schema, clock: nat -> nat, w: World, c: Session, config: map<text, text>, requests: seq<RequestKind>)
    requires InSession(s, w, c, requests) && Canonical(s, config) && Encodable(s, config)
    requires StaleAnswer(WithPrelude(c.cache != map[], requests), c.retries) == Some(ReadRequest)
    ensures var o := Perform(s, clock, w, c, Store(config));
            o.ok && o.world.net.devices == w.net.devices && forall k :: k in config ==> k in o.session.cache && o.session.cache[k] == config[k]
  {
    var p, before := Prelude(s, clock, w, c), WithPrelude(c.cache != map[], requests);
    PreludeAgainst(s, clock, w, c, requests);
    MergedCanonical(s, p.session.cache, config);
    TableOrderIsListing(s, p.session.cache + config);
    WriteAgainst(s, clock, p.world, p.session, config, TableOrder(s.params, p.session.cache + config), before);
  }

  /** Over any session of reads and sets with a device that refuses writes, at any times: a set that
      asks for a change returns nil, and must not be believed, exactly when its values encode and the
      answer left over for its write is a read's. That is the answer to request number
      |before| / (retries + 1) of those sent before it; without retries there is none. */
  lemma HistoryDecides(s: Schema, clock: nat -> nat, w: World, c: Session, ops: seq<ClientOp>, config: map<text, text>, keys: seq<text>)
    requires Starts(s, w, c)
    requires forall i :: 0 <= i < |ops| ==> !ops[i].Reboot? && (ops[i].Store? ==> Canonical(s, ops[i].config))
    requires Canonical(s, config) && Changes(s, config, Target(w, c).working)
    requires var r := Run(s, clock, w, c, ops);
             var p := Prelude(s, clock, r.world, r.session); p.ok ==> Listing(s, p.session.cache + config, keys)
    ensures var r := Run(s, clock, w, c, ops);
            var before := WithPrelude(c.cache != map[] || ops != [], History(s, c.cache != map[], ops));
            var stale := StaleAnswer(before, c.retries) == Some(ReadRequest);
            && (NilMeansApplied(s, clock, r.world, r.session, config, keys) <==> !(Encodable(s, config) && stale))
            && (Set(s, clock, r.world, r.session, config, keys).ok <==> Encodable(s, config) && stale)
            && r.world.net.devices == w.net.devices
  {
    StartsAlive(s, w, c);
    ChangesAName(s, config, Target(w, c).working);
    RunAgainst(s, clock, w, c, ops, []);
    var r, history := Run(s, clock, w, c, ops), History(s, c.cache != map[], ops);
    assert [] + history == history;
    SetAgainst(s, clock, r.world, r.session, config, keys, history);
  }
}
