/** The memory of one simulated device under concurrent requests (mocksbr/device.go,
    mocksbr/handlers.go). Each step is one locked method; a set handler is two of them, applySet and
    applySave, and anything may happen in the gap between. */
module Interleaving {
  import opened Bytes
  import opened Parameters
  import opened SimDevice
  import Items

  /** The device, and the set handlers that are between their two halves. */
  datatype State = State(d: DeviceState, gap: set<nat>)

  datatype Step =
    | ApplySet(h: nat, params: map<text, text>)  // first half of set handler h
    | ApplySave(h: nat)                          // its second half; the acknowledgement follows
    | StartReboot(now: nat)                      // first half of a reset handler
    | ApplyReset                                 // its second half
    | Rebooting(now: nat)                        // the check made for every packet

  predicate Enabled(s: State, step: Step) {
    match step
    case ApplySet(h, _) => h !in s.gap
    case ApplySave(h) => h in s.gap
    case _ => true
  }

  /** What the locked methods do, one at a time. */
  function Apply(s: State, step: Step): State
    requires Enabled(s, step)
  {
    match step
    case ApplySet(h, params) => State(s.d.(working := s.d.working + params), s.gap + {h})
    case ApplySave(h) => State(s.d.(nvram := s.d.working), s.gap - {h})
    case StartReboot(now) => s.(d := s.d.(rebootDeadline := Some(now + s.d.cfg.rebootDelay)))
    case ApplyReset => s.(d := s.d.(working := s.d.nvram))
    case Rebooting(now) => s.(d := AfterRebootCheck(s.d, now))
  }

  ghost predicate Reaches(s: State, run: seq<Step>, t: State)
    decreases |run|
  {
    if run == [] then s == t else Enabled(s, run[0]) && Reaches(Apply(s, run[0]), run[1..], t)
  }

  // ---- Memories agree when nobody is writing -------------------------------------------------

  predicate Settled(s: State) {
    s.gap == {} ==> s.d.working == s.d.nvram
  }

  lemma {:induction false} StaysSettled(s: State, run: seq<Step>, t: State)
    requires Settled(s) && Reaches(s, run, t)
    ensures Settled(t)
    decreases |run|
  {
    if run != [] {
      StaysSettled(Apply(s, run[0]), run[1..], t);
    }
  }

  /** For any interleaving, working memory differs from NVRAM only while some set handler is between
      its two halves. */
  lemma MemoriesAgree(d: DeviceState, run: seq<Step>, t: State)
    requires d.working == d.nvram && Reaches(State(d, {}), run, t) && t.gap == {}
    ensures t.d.working == t.d.nvram
  {
    StaysSettled(State(d, {}), run, t);
  }

  // ---- Durability of an acknowledged set ---------------------------------------------------------

  function At(m: map<text, text>, n: text): Option<text> {
    if n in m then Some(m[n]) else None
  }

  /** Both memories hold v under n. */
  predicate Both(d: DeviceState, n: text, v: Option<text>) {
    At(d.working, n) == v && At(d.nvram, n) == v
  }

  predicate Writes(step: Step, n: text) {
    step.ApplySet? && n in step.params
  }

  predicate NoWrite(run: seq<Step>, n: text) {
    forall i :: 0 <= i < |run| ==> !Writes(run[i], n)
  }

  /** A value that is in both memories stays until it is overwritten, through any number of resets,
      reboots and other writes. */
  lemma {:induction false} Survives(s: State, run: seq<Step>, t: State, n: text, v: Option<text>)
    requires Both(s.d, n, v) && NoWrite(run, n) && Reaches(s, run, t)
    ensures Both(t.d, n, v)
    decreases |run|
  {
    if run != [] {
      assert !Writes(run[0], n);
      assert NoWrite(run[1..], n);
      Survives(Apply(s, run[0]), run[1..], t, n, v);
    }
  }

  /** The step throws away what is only in working memory. */
  predicate Loads(s: State, step: Step) {
    match step
    case ApplyReset => true
    case Rebooting(now) => s.d.rebootDeadline.Some? && s.d.rebootDeadline.value <= now
    case _ => false
  }

  /** Of the steps in a gap that save or load, the first is a save; with none, the handler's own
      save comes first. */
  ghost predicate SavedFirst(s: State, run: seq<Step>)
    decreases |run|
  {
    run == [] || run[0].ApplySave? ||
    (!Loads(s, run[0]) && Enabled(s, run[0]) && SavedFirst(Apply(s, run[0]), run[1..]))
  }

  lemma {:induction false} AfterGap(s: State, gap: seq<Step>, t: State, h: nat, n: text, v: text, was: Option<text>)
    requires At(s.d.working, n) == Some(v) && At(s.d.nvram, n) == was
    requires NoWrite(gap, n) && Reaches(s, gap + [ApplySave(h)], t)
    ensures Both(t.d, n, Some(v)) || Both(t.d, n, was)
    ensures Both(t.d, n, Some(v)) <==> SavedFirst(s, gap) || was == Some(v)
    decreases |gap|
  {
    var run := gap + [ApplySave(h)];
    if gap == [] {
      assert run[1..] == [];
    } else {
      assert run[0] == gap[0] && run[1..] == gap[1..] + [ApplySave(h)];
      assert !Writes(gap[0], n) && NoWrite(gap[1..], n);
      var u := Apply(s, gap[0]);
      if gap[0].ApplySave? {
        Survives(u, run[1..], t, n, Some(v));
      } else if Loads(s, gap[0]) {
        Survives(u, run[1..], t, n, was);
      } else {
        AfterGap(u, gap[1..], t, h, n, v, was);
      }
    }
  }

  /** When handler h has acknowledged a write of v to n, and nobody else wrote n in its gap, v is in
      both memories exactly when no reset or reboot reloaded the memory before somebody saved it (or
      v was there before). Then it also outlasts everything until n is written again; otherwise the
      device is back at the old value although the write was acknowledged. */
  lemma AckedSetExactly(s: State, gap: seq<Step>, t: State, h: nat, params: map<text, text>, n: text)
    requires n in params && NoWrite(gap, n) && h !in s.gap
    requires Reaches(Apply(s, ApplySet(h, params)), gap + [ApplySave(h)], t)
    ensures var started := Apply(s, ApplySet(h, params));
            Both(t.d, n, Some(params[n])) <==> SavedFirst(started, gap) || At(s.d.nvram, n) == Some(params[n])
    ensures !Both(t.d, n, Some(params[n])) ==> Both(t.d, n, At(s.d.nvram, n))
    ensures Both(t.d, n, Some(params[n])) ==>
              forall later, u :: NoWrite(later, n) && Reaches(t, later, u) ==> Both(u.d, n, Some(params[n]))
  {
    AfterGap(Apply(s, ApplySet(h, params)), gap, t, h, n, params[n], At(s.d.nvram, n));
    if Both(t.d, n, Some(params[n])) {
      forall later, u | NoWrite(later, n) && Reaches(t, later, u) ensures Both(u.d, n, Some(params[n])) {
        Survives(t, later, u, n, Some(params[n]));
      }
    }
  }

  /** A reset handler that runs its second half inside the gap loses the write. */
  lemma ResetInGapLoses(s: State, h: nat, params: map<text, text>, n: text)
    requires n in params && h !in s.gap && At(s.d.nvram, n) != Some(params[n])
    ensures var t := Apply(Apply(Apply(s, ApplySet(h, params)), ApplyReset), ApplySave(h));
            Reaches(Apply(s, ApplySet(h, params)), [ApplyReset] + [ApplySave(h)], t) && Both(t.d, n, At(s.d.nvram, n))
  {
    var started := Apply(s, ApplySet(h, params));
    var t := Apply(Apply(started, ApplyReset), ApplySave(h));
    var run := [ApplyReset] + [ApplySave(h)];
    assert run[1..] == [ApplySave(h)] && run[1..][1..] == [];
    assert Reaches(Apply(started, ApplyReset), run[1..], t);
  }

  /** With nothing between its halves a set handler does what a device does with one set packet, and a
      reset handler what it does with a reset. */
  lemma AloneIsAtomic(s: Schema, d: DeviceState, gap: set<nat>, h: nat, items: seq<Items.Item>, now: nat)
    requires h !in gap
    ensures Apply(Apply(State(d, gap), ApplySet(h, Updates(s, map[], items))), ApplySave(h)) == State(AfterSet(s, d, items), gap)
    ensures Apply(Apply(State(d, gap), StartReboot(now)), ApplyReset) == State(AfterReset(d, now), gap)
  {
    assert gap + {h} - {h} == gap;
  }
}
