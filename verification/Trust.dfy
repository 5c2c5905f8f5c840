/** Runs of a client that does not retry, against a device of any configuration that answers at once:
    one that refuses, drops or garbles some of its replies, or announces parameters of its own. Every
    operation consumes its own reply, and every set that returns nil has been applied. */
module Trust {
  import opened Bytes
  import opened Parameters
  import opened Wire
  import opened Items
  import opened SimDevice
  import opened ClientProtocol
  import opened ReadModifyWrite
  import opened Runs
  import opened Retries

  lemma WriteIsSteady(s: Schema, clock: nat -> nat, w: World, c: Session, config: map<text, text>, keys: seq<text>)
    requires Steady(s, w, c) && Canonical(s, config) && Listing(s, c.cache + config, keys)
    ensures var o := Write(s, clock, w, c, config, keys);
            Steady(s, o.world, o.session) && SameTarget(c, o.session) && OnlyTargetChanged(w, o.world, c)
  {
    MergedCanonical(s, c.cache, config);
    if Encodable(s, c.cache + config) {
      SentWriteIsSteady(s, clock, w, c, config, keys);
    } else {
      SameReady(w, c, c.(counter := NextSequence(c.counter)));
    }
  }

  lemma SentWriteIsSteady(s: Schema, clock: nat -> nat, w: World, c: Session, config: map<text, text>, keys: seq<text>)
    requires Steady(s, w, c) && Canonical(s, c.cache + config) && Listing(s, c.cache + config, keys)
    requires Encodable(s, c.cache + config)
    ensures var o := Write(s, clock, w, c, config, keys);
            Steady(s, o.world, o.session) && SameTarget(c, o.session) && OnlyTargetChanged(w, o.world, c)
  {
    var counter, items := NextSequence(c.counter), ItemsFor(s, c.cache + config, keys);
    ListingFits(s, c.cache + config, keys);
    SetDataBytesAre(c.m, counter, items);
    ExchangeIsClean(s, clock, w, c, OpSet, Request(c.m, SET_DATA, false, counter), SetDataPayload(items));
    var sent := SendTimes(s, clock, w, SetDataBytes(c.m, counter, items), c.retries + 1);
    WriteTakes(s, clock, w, c, config, keys, sent);
    var o := WriteResult(sent, c.(counter := counter), c.cache + config);
    SameReady(o.world, c, o.session);
  }

  lemma ResetIsSteady(s: Schema, clock: nat -> nat, w: World, c: Session)
    requires Steady(s, w, c)
    ensures var o := Reset(s, clock, w, c);
            Steady(s, o.world, o.session) && SameTarget(c, o.session) && OnlyTargetChanged(w, o.world, c)
  {
    var req := Request(c.m, RESET, false, NextSequence(c.counter));
    assert EncodeHeader(req) + [] == ResetBytes(c.m, NextSequence(c.counter));
    ExchangeIsClean(s, clock, w, c, OpReset, req, []);
  }

  /** What the caller of a set may conclude from a nil, for every packet order. */
  ghost predicate StoreTrusted(s: Schema, clock: nat -> nat, w: World, c: Session, config: map<text, text>) {
    var p := Prelude(s, clock, w, c);
    p.ok ==> forall keys :: Listing(s, p.session.cache + config, keys) ==> WriteTrusted(s, clock, p.world, p.session, config, keys)
  }

  lemma SetIsSteady(s: Schema, clock: nat -> nat, w: World, c: Session, config: map<text, text>)
    requires Steady(s, w, c) && Canonical(s, config)
    ensures StoreTrusted(s, clock, w, c, config)
    ensures var o := Perform(s, clock, w, c, Store(config));
            Steady(s, o.world, o.session) && SameTarget(c, o.session) && OnlyTargetChanged(w, o.world, c)
  {
    var p := Prelude(s, clock, w, c);
    if c.cache == map[] {
      ReadIsSteady(s, clock, w, c);
    }
    if p.ok {
      MergedCanonical(s, p.session.cache, config);
      TableOrderIsListing(s, p.session.cache + config);
      WriteIsSteady(s, clock, p.world, p.session, config, TableOrder(s.params, p.session.cache + config));
      SteadyWriteTrusted(s, clock, p.world, p.session, config);
    }
  }

  lemma SteadyWriteTrusted(s: Schema, clock: nat -> nat, w: World, c: Session, config: map<text, text>)
    requires Steady(s, w, c)
    ensures forall keys :: Listing(s, c.cache + config, keys) ==> WriteTrusted(s, clock, w, c, config, keys)
  {
    QuietHasNoAck(w.queue, c);
    forall keys | Listing(s, c.cache + config, keys) ensures WriteTrusted(s, clock, w, c, config, keys) {
      WriteNilMeansApplied(s, clock, w, c, config, keys);
    }
  }

  lemma PerformIsSteady(s: Schema, clock: nat -> nat, w: World, c: Session, op: ClientOp)
    requires Steady(s, w, c) && (op.Store? ==> Canonical(s, op.config))
    ensures op.Store? ==> StoreTrusted(s, clock, w, c, op.config)
    ensures var o := Perform(s, clock, w, c, op);
            Steady(s, o.world, o.session) && SameTarget(c, o.session) && OnlyTargetChanged(w, o.world, c)
  {
    match op {
      case ReadAll => ReadIsSteady(s, clock, w, c);
      case Store(config) => SetIsSteady(s, clock, w, c, config);
      case Reboot => ResetIsSteady(s, clock, w, c);
    }
  }

  /** Every nil that a set of the run returns can be believed. */
  ghost predicate EveryNilApplied(s: Schema, clock: nat -> nat, w: World, c: Session, ops: seq<ClientOp>)
    decreases |ops|
  {
    ops == [] || (
      && (ops[0].Store? ==> StoreTrusted(s, clock, w, c, ops[0].config))
      && var o := Perform(s, clock, w, c, ops[0]);
         EveryNilApplied(s, clock, o.world, o.session, ops[1..]))
  }

  /** Over any run, whatever the device is configured to do and at any times: nothing is pending
      between operations, only the target changes, and every nil can be believed. */
  lemma {:induction false} RunIsSteady(s: Schema, clock: nat -> nat, w: World, c: Session, ops: seq<ClientOp>)
    requires Steady(s, w, c)
    requires forall i :: 0 <= i < |ops| && ops[i].Store? ==> Canonical(s, ops[i].config)
    ensures EveryNilApplied(s, clock, w, c, ops)
    ensures var r := Run(s, clock, w, c, ops);
            Steady(s, r.world, r.session) && SameTarget(c, r.session) && OnlyTargetChanged(w, r.world, c)
    decreases |ops|
  {
    if ops != [] {
      var o := Perform(s, clock, w, c, ops[0]);
      PerformIsSteady(s, clock, w, c, ops[0]);
      RunIsSteady(s, clock, o.world, o.session, ops[1..]);
    }
  }
}
