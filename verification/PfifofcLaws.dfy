/** The four-band queue against definitions of its own: flow control as two switches with hysteresis,
    the fate of every packet sent, and the classes of traffic in the order they are served. */
module PfifofcLaws {
  import opened PfifofcSpec

  // ----- flow control -----

  /** A switch that goes on when the queue is longer than `on`, and off when it is down to `off`. */
  ghost predicate Switched(cfg: Config, es: seq<Effect>, off: nat, on: nat) {
    es != [] &&
    var n := |BandRun(cfg, es).queue|;
    n > on || (n > off && Switched(cfg, es[..|es| - 1], off, on))
  }

  /** The two switches together. */
  ghost function LevelBy(red: bool, all: bool): Level {
    if all then AllOn else if red then RedOn else AllOff
  }

  /** The level of a band is that of two switches that know nothing of each other: one for red packets
      and one for all, each with its own pair of thresholds. */
  lemma {:induction false} LevelIsTwoSwitches(cfg: Config, es: seq<Effect>)
    requires cfg.Ordered() && Possible(cfg, es)
    ensures
      var red, all := Switched(cfg, es, cfg.redOff, cfg.redOn), Switched(cfg, es, cfg.allOff, cfg.allOn);
      BandRun(cfg, es).fc == LevelBy(red, all) && (all ==> red)
  {
    if es != [] {
      var earlier, e := es[..|es| - 1], es[|es| - 1];
      LevelIsTwoSwitches(cfg, earlier);
      LevelInRange(cfg, earlier);
      SwitchesStep(cfg, BandRun(cfg, earlier), e, Switched(cfg, earlier, cfg.redOff, cfg.redOn),
                   Switched(cfg, earlier, cfg.allOff, cfg.allOn));
    }
  }

  lemma SwitchesStep(cfg: Config, band: Band, e: Effect, red: bool, all: bool)
    requires cfg.Ordered() && InRange(cfg, band) && Enabled(cfg, band, e)
    requires band.fc == LevelBy(red, all) && (all ==> red)
    ensures
      var band' := BandAfter(cfg, band, e);
      var n := |band'.queue|;
      var red', all' := n > cfg.redOn || (n > cfg.redOff && red), n > cfg.allOn || (n > cfg.allOff && all);
      band'.fc == LevelBy(red', all') && (all' ==> red')
  {
  }

  /** The same in numbers, for a queue without settings of its own. */
  lemma DefaultLevels(es: seq<Effect>)
    requires Possible(DEFAULTS, es)
    ensures |BandRun(DEFAULTS, es).queue| <= 640
    ensures BandRun(DEFAULTS, es).fc == LevelBy(Switched(DEFAULTS, es, 240, 320), Switched(DEFAULTS, es, 440, 520))
  {
    Fifo(DEFAULTS, es);
    LevelIsTwoSwitches(DEFAULTS, es);
  }

  // ----- every packet sent -----

  /** The packets sent to a band. */
  ghost function Sent(ops: seq<Op>, b: nat): seq<Packet> {
    if ops == [] then []
    else
      var op := ops[|ops| - 1];
      Sent(ops[..|ops| - 1], b) + if op.Enqueue? && BandOf(op.packet) == b then [op.packet] else []
  }

  /** The packets that were accepted, whatever happened then. */
  ghost function Accepted(es: seq<Effect>): seq<Packet> {
    if es == [] then []
    else Accepted(es[..|es| - 1]) + match es[|es| - 1] case Accept(p) => [p] case _ => []
  }

  ghost predicate IsSubsequence(a: seq<Packet>, b: seq<Packet>) {
    a == [] || (b != [] &&
                (IsSubsequence(a, b[..|b| - 1]) ||
                 (a[|a| - 1] == b[|b| - 1] && IsSubsequence(a[..|a| - 1], b[..|b| - 1]))))
  }

  lemma SubsequenceSnoc(a: seq<Packet>, b: seq<Packet>, p: Packet)
    requires IsSubsequence(a, b)
    ensures IsSubsequence(a, b + [p]) && IsSubsequence(a + [p], b + [p])
  {
    assert (a + [p])[..|a|] == a && (b + [p])[..|b|] == b;
  }

  /** Each packet sent to a band is counted once, as accepted or as dropped. */
  lemma {:induction false} SentAreCounted(cfg: Config, ops: seq<Op>, b: nat)
    requires b < BANDS
    ensures Run(cfg, ops).bands[b].total + Run(cfg, ops).bands[b].dropped == |Sent(ops, b)|
  {
    if ops != [] {
      SentAreCounted(cfg, ops[..|ops| - 1], b);
      SentStep(cfg, Run(cfg, ops[..|ops| - 1]), ops[|ops| - 1], b);
    }
  }

  /** The accepted packets are some of those sent to the band, in the same order. */
  lemma {:induction false} AcceptedInOrder(cfg: Config, ops: seq<Op>, b: nat)
    requires b < BANDS
    ensures IsSubsequence(Accepted(Effects(cfg, ops, b)), Sent(ops, b))
  {
    if ops != [] {
      var earlier, op := ops[..|ops| - 1], ops[|ops| - 1];
      AcceptedInOrder(cfg, earlier, b);
      SentStep(cfg, Run(cfg, earlier), op, b);
      OneMore(Effects(cfg, earlier, b), EffectOn(cfg, Run(cfg, earlier), op, b), Sent(earlier, b), op, b);
    }
  }

  lemma OneMore(es: seq<Effect>, e: Effect, sent: seq<Packet>, op: Op, b: nat)
    requires IsSubsequence(Accepted(es), sent)
    requires e.Accept? ==> op == Enqueue(e.packet) && BandOf(e.packet) == b
    ensures IsSubsequence(Accepted(es + [e]),
                          sent + if op.Enqueue? && BandOf(op.packet) == b then [op.packet] else [])
  {
    assert (es + [e])[..|es|] == es;
    assert sent + [] == sent && Accepted(es) + [] == Accepted(es);
    if op.Enqueue? {
      SubsequenceSnoc(Accepted(es), sent, op.packet);
    }
  }

  lemma SentStep(cfg: Config, s: State, op: Op, b: nat)
    requires Shape(s) && b < BANDS
    ensures
      var before, after, e := s.bands[b], Step(cfg, s, op).bands[b], EffectOn(cfg, s, op, b);
      && (op.Enqueue? && BandOf(op.packet) == b ==>
            after.total + after.dropped == before.total + before.dropped + 1 && (e == Accept(op.packet) || e.Drop?))
      && (!(op.Enqueue? && BandOf(op.packet) == b) ==>
            after.total + after.dropped == before.total + before.dropped && !e.Accept?)
      && after.total == before.total + if e.Accept? then 1 else 0
  {
  }

  /** A packet is dropped exactly if its band is full. */
  lemma DroppedExactly(cfg: Config, ops: seq<Op>, p: Packet)
    ensures
      var b := BandOf(p);
      var before, after := Run(cfg, ops).bands[b], Run(cfg, ops + [Enqueue(p)]).bands[b];
      && (|before.queue| == cfg.maxLen <==> after == before.(dropped := before.dropped + 1))
      && (|before.queue| < cfg.maxLen <==>
          after.queue == before.queue + [p] && after.total == before.total + 1 && after.dropped == before.dropped)
  {
    assert (ops + [Enqueue(p)])[..|ops|] == ops;
    RunProjects(cfg, ops, BandOf(p));
    Fifo(cfg, Effects(cfg, ops, BandOf(p)));
  }

  // ----- the classes of traffic -----

  /** The classes of the Linux priorities, as the queue serves them: interactive and control traffic
      first, best effort and the unnamed priority 3 after all others, bulk and filler traffic last. */
  ghost function Class(priority: nat): nat {
    var p := priority % 16;
    if p == 6 || p == 7 then 0
    else if p == 0 || p == 3 then 2
    else if p == 1 || p == 2 then 3
    else 1
  }

  lemma BandIsClass(priority: nat)
    ensures BandOfPriority(priority) == Class(priority)
  {
    var p := priority % 16;
    assert p == 0 || p == 1 || p == 2 || p == 3 || p == 4 || p == 5 || p == 6 || p == 7 || p >= 8;
  }

  /** A dequeue delivers a packet of the best class of all that are queued, and none only if no packet
      is queued. */
  lemma DeliversBestClass(cfg: Config, ops: seq<Op>, i: nat, p: Packet)
    requires i < BANDS && p in Run(cfg, ops).bands[i].queue
    ensures
      var s := Run(cfg, ops);
      var b := FirstBusy(s.bands);
      && b < BANDS && EffectOn(cfg, s, Dequeue, b) == Deliver(s.bands[b].queue[0])
      && Class(s.bands[b].queue[0].priority) <= Class(p.priority)
  {
    var s := Run(cfg, ops);
    var b := FirstBusy(s.bands);
    RunOwnPackets(cfg, ops);
    BandIsClass(p.priority);
    BandIsClass(s.bands[b].queue[0].priority);
  }
}
