/** The queueing discipline itself: per-band lists, levels and statistics, updated in place. */
module Pfifofc {
  import opened Wrappers
  import opened PfifofcSpec

  /** The packet that a peek shows and a dequeue takes. */
  ghost function NextPacket(s: State): Option<Packet>
    requires Shape(s)
  {
    var b := FirstBusy(s.bands);
    if b < BANDS then Some(s.bands[b].queue[0]) else None
  }

  /** What the device callback is told: a level, a probability to drop, and the priority of the packet
      that gave rise to it, which stands for its band. */
  datatype Signal = Signal(level: Level, probability: nat, priority: nat)

  const DROP_PROBABILITY: nat := 100

  /** The flow-control signals an operation sends to the device: at most one, for one band. */
  ghost function SignalsOf(cfg: Config, s: State, op: Op): seq<Signal>
    requires Shape(s)
  {
    match op
    case Enqueue(p) => ToDevice(p, SignalOf(cfg, s.bands[BandOf(p)], EffectOn(cfg, s, op, BandOf(p))))
    case Dequeue =>
      var b := FirstBusy(s.bands);
      if b < BANDS then ToDevice(s.bands[b].queue[0], SignalOf(cfg, s.bands[b], EffectOn(cfg, s, op, b))) else []
    case Reset => []
  }

  ghost function ToDevice(p: Packet, levels: seq<Level>): seq<Signal> {
    seq(|levels|, i requires 0 <= i < |levels| => Signal(levels[i], DROP_PROBABILITY, p.priority))
  }

  class Qdisc {
    const cfg: Config
    const q: array<seq<Packet>>
    const fc: array<Level>
    const total: array<nat>
    const dropped: array<nat>
    var qlen: int
    var backlog: int
    /** Everything the device callback was told. */
    ghost var signals: seq<Signal>

    ghost predicate Valid()
      reads this, q, fc, total, dropped
    {
      && q.Length == fc.Length == total.Length == dropped.Length == BANDS
      && total != dropped
    }

    ghost function BandAt(b: nat): Band
      requires Valid() && b < BANDS
      reads this, q, fc, total, dropped
    {
      Band(q[b], fc[b], total[b], dropped[b])
    }

    ghost function Model(): (s: State)
      requires Valid()
      reads this, q, fc, total, dropped
      ensures Shape(s)
      ensures forall b :: 0 <= b < BANDS ==> s.bands[b] == BandAt(b)
    {
      State([BandAt(0), BandAt(1), BandAt(2), BandAt(3)], qlen, backlog)
    }

    /** Thresholds given by the user are cut to 16 bits; without any, the defaults apply. */
    constructor (opt: Option<Config>)
      ensures Valid() && fresh(q) && fresh(fc) && fresh(total) && fresh(dropped)
      ensures Model() == INITIAL && signals == []
      ensures opt == None ==> cfg == DEFAULTS
      ensures opt.Some? ==>
        cfg == Config(opt.value.maxLen % 65536, opt.value.redOn % 65536, opt.value.redOff % 65536,
                      opt.value.allOn % 65536, opt.value.allOff % 65536)
    {
      cfg := match opt
        case None => DEFAULTS
        case Some(c) => Config(c.maxLen % 65536, c.redOn % 65536, c.redOff % 65536, c.allOn % 65536, c.allOff % 65536);
      q := new seq<Packet>[BANDS](_ => []);
      fc := new Level[BANDS](_ => AllOff);
      total := new nat[BANDS](_ => 0);
      dropped := new nat[BANDS](_ => 0);
      qlen, backlog, signals := 0, 0, [];
    }

    /** Sets the level of a band and tells the device. */
    method SignalFc(band: nat, level: Level, priority: nat)
      requires Valid() && band < BANDS
      modifies fc, this`signals
      ensures Valid() && fc[band] == level && signals == old(signals) + [Signal(level, 100, priority)]
      ensures forall b :: 0 <= b < BANDS && b != band ==> fc[b] == old(fc[b])
    {
      fc[band] := level;
      signals := signals + [Signal(level, DROP_PROBABILITY, priority)];
    }

    /** The level when a packet is accepted into a queue of length `len`. */
    method RaiseLevel(band: nat, len: nat, priority: nat)
      requires Valid() && band < BANDS
      modifies fc, this`signals
      ensures Valid() && fc[band] == EnqueueLevel(cfg, len, old(fc[band]))
      ensures signals == old(signals) +
        if fc[band] == old(fc[band]) then [] else [Signal(fc[band], DROP_PROBABILITY, priority)]
      ensures forall b :: 0 <= b < BANDS && b != band ==> fc[b] == old(fc[b])
    {
      if len >= cfg.redOn {
        if len < cfg.allOff && fc[band] != RedOn {
          SignalFc(band, RedOn, priority);
        } else if len >= cfg.allOn && fc[band] != AllOn {
          SignalFc(band, AllOn, priority);
        }
      }
    }

    /** The level when a packet was taken and left a queue of length `len`. */
    method LowerLevel(band: nat, len: nat, priority: nat)
      requires Valid() && band < BANDS
      modifies fc, this`signals
      ensures Valid() && fc[band] == DequeueLevel(cfg, len, old(fc[band]))
      ensures signals == old(signals) +
        if fc[band] == old(fc[band]) then [] else [Signal(fc[band], DROP_PROBABILITY, priority)]
      ensures forall b :: 0 <= b < BANDS && b != band ==> fc[b] == old(fc[b])
    {
      if len <= cfg.redOff && fc[band] != AllOff {
        SignalFc(band, AllOff, priority);
      } else if len >= cfg.redOn && len <= cfg.allOff && fc[band] != RedOn {
        SignalFc(band, RedOn, priority);
      }
    }

    method Enqueue(skb: Packet) returns (ok: bool)
      requires Valid()
      modifies this, q, fc, total, dropped
      ensures Valid()
      ensures Model() == Step(cfg, old(Model()), PfifofcSpec.Enqueue(skb))
      ensures signals == old(signals) + SignalsOf(cfg, old(Model()), PfifofcSpec.Enqueue(skb))
      ensures ok <==> EffectOn(cfg, old(Model()), PfifofcSpec.Enqueue(skb), BandOf(skb)) == Accept(skb)
    {
      var band := BandOf(skb);
      var len := |q[band]|;
      if len < cfg.maxLen {
        RaiseLevel(band, len, skb.priority);
        qlen := qlen + 1;
        total[band] := total[band] + 1;
        q[band] := q[band] + [skb];
        backlog := backlog + skb.size;
        ok := true;
      } else {
        dropped[band] := dropped[band] + 1;
        ok := false;
      }
      assert BandAt(band) == NextBands(cfg, old(Model()), PfifofcSpec.Enqueue(skb))[band];
      assert Model().bands == NextBands(cfg, old(Model()), PfifofcSpec.Enqueue(skb));
    }

    method Dequeue() returns (skb: Option<Packet>)
      requires Valid()
      modifies this, q, fc
      ensures Valid()
      ensures skb == NextPacket(old(Model()))
      ensures Model() == Step(cfg, old(Model()), PfifofcSpec.Dequeue)
      ensures signals == old(signals) + SignalsOf(cfg, old(Model()), PfifofcSpec.Dequeue)
    {
      var band := FindBusy();
      if band == BANDS {
        assert Model().bands == NextBands(cfg, old(Model()), PfifofcSpec.Dequeue);
        return None;
      }
      skb := Some(q[band][0]);
      q[band] := q[band][1..];
      qlen := qlen - 1;
      backlog := backlog - skb.value.size;
      var len := |q[band]|;
      LowerLevel(band, len, skb.value.priority);
      assert BandAt(band) == NextBands(cfg, old(Model()), PfifofcSpec.Dequeue)[band];
      assert Model().bands == NextBands(cfg, old(Model()), PfifofcSpec.Dequeue);
    }

    /** Scans the bands in order of priority for one with packets. */
    method FindBusy() returns (band: nat)
      requires Valid()
      ensures band == FirstBusy(Model().bands)
    {
      band := 0;
      while band < BANDS && q[band] == []
        invariant band <= BANDS
        invariant forall i :: 0 <= i < band ==> q[i] == []
      {
        band := band + 1;
      }
      FirstBusyIs(Model().bands, band);
    }

    method Peek() returns (skb: Option<Packet>)
      requires Valid()
      ensures skb == NextPacket(Model())
    {
      var band := FindBusy();
      skb := if band < BANDS then Some(q[band][0]) else None;
    }

    method Reset()
      requires Valid()
      modifies this, q, fc
      ensures Valid() && signals == old(signals)
      ensures Model() == Step(cfg, old(Model()), PfifofcSpec.Reset)
    {
      for band := 0 to BANDS
        invariant Valid() && signals == old(signals)
        invariant forall b :: 0 <= b < band ==> q[b] == [] && fc[b] == AllOff
        invariant forall b :: 0 <= b < BANDS ==> total[b] == old(total[b]) && dropped[b] == old(dropped[b])
      {
        q[band] := [];
        fc[band] := AllOff;
      }
      backlog, qlen := 0, 0;
      assert Model().bands == NextBands(cfg, old(Model()), PfifofcSpec.Reset);
    }
  }

  lemma FirstBusyIs(bands: seq<Band>, b: nat)
    requires b <= |bands| && (forall i :: 0 <= i < b ==> bands[i].queue == []) && (b < |bands| ==> bands[b].queue != [])
    ensures b == FirstBusy(bands)
  {
  }

  /** The levels signalled to the device for a band. */
  ghost function LevelsFor(signals: seq<Signal>, b: nat): seq<Level> {
    if signals == [] then []
    else
      var last := signals[|signals| - 1];
      LevelsFor(signals[..|signals| - 1], b) + if BandOfPriority(last.priority) == b then [last.level] else []
  }

  /** The signals of an operation are those of its effect on each band. */
  lemma LevelsStep(cfg: Config, s: State, op: Op, signals: seq<Signal>, b: nat)
    requires Shape(s) && OwnPackets(s) && b < BANDS
    ensures LevelsFor(signals + SignalsOf(cfg, s, op), b) ==
      LevelsFor(signals, b) + SignalOf(cfg, s.bands[b], EffectOn(cfg, s, op, b))
  {
    var more := SignalsOf(cfg, s, op);
    if more == [] {
      assert signals + more == signals;
    } else {
      assert (signals + more)[..|signals|] == signals;
    }
  }

  lemma LevelsRun(cfg: Config, ops: seq<Op>, signals: seq<Signal>, b: nat)
    requires b < BANDS && ops != []
    requires LevelsFor(signals, b) == AllSignals(cfg, Effects(cfg, ops[..|ops| - 1], b))
    ensures LevelsFor(signals + SignalsOf(cfg, Run(cfg, ops[..|ops| - 1]), ops[|ops| - 1]), b) ==
      AllSignals(cfg, Effects(cfg, ops, b))
  {
    var earlier, es := ops[..|ops| - 1], Effects(cfg, ops, b);
    RunOwnPackets(cfg, earlier);
    LevelsStep(cfg, Run(cfg, earlier), ops[|ops| - 1], signals, b);
    RunProjects(cfg, earlier, b);
    assert es[..|es| - 1] == Effects(cfg, earlier, b);
  }

  method Apply(d: Qdisc, op: Op)
    requires d.Valid()
    modifies d, d.q, d.fc, d.total, d.dropped
    ensures d.Valid() && d.Model() == Step(d.cfg, old(d.Model()), op)
    ensures d.signals == old(d.signals) + SignalsOf(d.cfg, old(d.Model()), op)
  {
    match op {
      case Enqueue(p) => var _ := d.Enqueue(p);
      case Dequeue => var _ := d.Dequeue();
      case Reset => d.Reset();
    }
    assert op.Reset? ==> d.signals + [] == d.signals;
  }

  /** The device was signalled for each band what the run of that band says, in that order. */
  ghost predicate Signalled(cfg: Config, ops: seq<Op>, signals: seq<Signal>) {
    forall b :: 0 <= b < BANDS ==> LevelsFor(signals, b) == AllSignals(cfg, Effects(cfg, ops, b))
  }

  lemma SignalledStep(cfg: Config, ops: seq<Op>, op: Op, signals: seq<Signal>)
    requires Signalled(cfg, ops, signals)
    ensures Signalled(cfg, ops + [op], signals + SignalsOf(cfg, Run(cfg, ops), op))
  {
    assert (ops + [op])[..|ops|] == ops;
    forall b | 0 <= b < BANDS ensures LevelsFor(signals + SignalsOf(cfg, Run(cfg, ops), op), b) ==
      AllSignals(cfg, Effects(cfg, ops + [op], b))
    {
      LevelsRun(cfg, ops + [op], signals, b);
    }
  }

  /** Any run of operations on the discipline is a run of the specification, so that all that holds
      of every run holds of it, with the signals that its device has received. */
  method RunOps(d: Qdisc, ops: seq<Op>)
    requires d.Valid() && d.Model() == INITIAL && d.signals == []
    modifies d, d.q, d.fc, d.total, d.dropped
    ensures d.Valid() && d.Model() == Run(d.cfg, ops) && Signalled(d.cfg, ops, d.signals)
  {
    for i := 0 to |ops|
      invariant d.Valid() && d.Model() == Run(d.cfg, ops[..i]) && Signalled(d.cfg, ops[..i], d.signals)
    {
      ghost var before := d.signals;
      assert ops[..i + 1] == ops[..i] + [ops[i]] && ops[..i + 1][..i] == ops[..i];
      SignalledStep(d.cfg, ops[..i], ops[i], before);
      Apply(d, ops[i]);
    }
    assert ops[..|ops|] == ops;
  }

  /** So the device is not signalled more often than the hysteresis allows. */
  lemma DeviceBound(cfg: Config, ops: seq<Op>, signals: seq<Signal>, b: nat)
    requires cfg.Ordered() && b < BANDS && Signalled(cfg, ops, signals)
    ensures |LevelsFor(signals, b)| * (cfg.Gap() + 1) <= Count(Effects(cfg, ops, b), IsWork)
  {
    EveryRun(cfg, ops, b);
  }

  /** The last level the device was told for a band is that of the band exactly if no reset has cut
      it off. */
  lemma DeviceKnows(cfg: Config, ops: seq<Op>, signals: seq<Signal>, b: nat)
    requires b < BANDS && Signalled(cfg, ops, signals)
    ensures
      var told := [AllOff] + LevelsFor(signals, b);
      told[|told| - 1] == Run(cfg, ops).bands[b].fc <==> !CutOff(cfg, Effects(cfg, ops, b))
  {
    RunProjects(cfg, ops, b);
    DeviceKnowsExactly(cfg, Effects(cfg, ops, b));
  }
}
