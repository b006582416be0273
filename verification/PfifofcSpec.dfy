/** The four-band strict-priority queue with two levels of flow control: what each operation does,
    and what holds over every run. */
module PfifofcSpec {

  const BANDS: nat := 4

  /** Flow control is off, on for red packets, or on for all packets. */
  datatype Level = AllOff | RedOn | AllOn {
    function Rank(): nat {
      match this case AllOff => 0 case RedOn => 1 case AllOn => 2
    }
  }

  /** Queue lengths: the maximum, and those at which each level is switched on and off. */
  datatype Config = Config(maxLen: nat, redOn: nat, redOff: nat, allOn: nat, allOff: nat) {
    predicate Ordered() {
      redOff <= redOn < allOff <= allOn <= maxLen
    }

    /** The smaller of the two hysteresis gaps; the upper one matters only if its level can be
        reached at all. */
    function Gap(): nat
      requires Ordered()
    {
      if allOn == maxLen || redOn - redOff < allOn - allOff then redOn - redOff else allOn - allOff
    }
  }

  const DEFAULTS := Config(640, 320, 240, 520, 440)

  datatype Packet = Packet(id: nat, priority: nat, size: nat)

  const PRIO_TO_BAND: seq<nat> := [2, 3, 3, 2, 1, 1, 0, 0, 1, 1, 1, 1, 1, 1, 1, 1]

  function BandOfPriority(priority: nat): (b: nat)
    ensures b < BANDS
  {
    PRIO_TO_BAND[priority % 16]
  }

  function BandOf(p: Packet): (b: nat)
    ensures b < BANDS
  {
    BandOfPriority(p.priority)
  }

  datatype Band = Band(queue: seq<Packet>, fc: Level, total: nat, dropped: nat)
  const EMPTY_BAND := Band([], AllOff, 0, 0)

  datatype State = State(bands: seq<Band>, qlen: int, backlog: int)

  datatype Op = Enqueue(packet: Packet) | Dequeue | Reset

  /** The level after a packet was accepted into a queue of length `n`. */
  function EnqueueLevel(cfg: Config, n: nat, fc: Level): Level {
    if n >= cfg.redOn && n < cfg.allOff && fc != RedOn then RedOn
    else if n >= cfg.redOn && n >= cfg.allOn && fc != AllOn then AllOn
    else fc
  }

  /** The level after a packet was taken and left a queue of length `n`. */
  function DequeueLevel(cfg: Config, n: nat, fc: Level): Level {
    if n <= cfg.redOff && fc != AllOff then AllOff
    else if n >= cfg.redOn && n <= cfg.allOff && fc != RedOn then RedOn
    else fc
  }

  ghost predicate Shape(s: State) {
    |s.bands| == BANDS
  }

  const INITIAL := State([EMPTY_BAND, EMPTY_BAND, EMPTY_BAND, EMPTY_BAND], 0, 0)

  // ----- what an operation does to one band -----

  datatype Effect = Idle | Accept(packet: Packet) | Drop | Deliver(packet: Packet) | Flush

  /** The first band that has packets, or `BANDS`. */
  function FirstBusy(bands: seq<Band>): (b: nat)
    ensures b <= |bands|
    ensures forall i :: 0 <= i < b ==> bands[i].queue == []
    ensures b < |bands| ==> bands[b].queue != []
  {
    if bands == [] then 0
    else if bands[0].queue != [] then 0
    else 1 + FirstBusy(bands[1..])
  }

  function EffectOn(cfg: Config, s: State, op: Op, b: nat): Effect
    requires Shape(s) && b < BANDS
  {
    match op
    case Enqueue(p) =>
      if b != BandOf(p) then Idle
      else if |s.bands[b].queue| < cfg.maxLen then Accept(p)
      else Drop
    case Dequeue =>
      if b == FirstBusy(s.bands) then Deliver(s.bands[b].queue[0]) else Idle
    case Reset => Flush
  }

  ghost predicate Enabled(cfg: Config, band: Band, e: Effect) {
    match e
    case Accept(_) => |band.queue| < cfg.maxLen
    case Deliver(p) => band.queue != [] && band.queue[0] == p
    case _ => true
  }

  function BandAfter(cfg: Config, band: Band, e: Effect): Band {
    match e
    case Idle => band
    case Accept(p) => Band(band.queue + [p], EnqueueLevel(cfg, |band.queue|, band.fc), band.total + 1, band.dropped)
    case Drop => band.(dropped := band.dropped + 1)
    case Deliver(_) =>
      if band.queue == [] then band
      else band.(queue := band.queue[1..], fc := DequeueLevel(cfg, |band.queue| - 1, band.fc))
    case Flush => band.(queue := [], fc := AllOff)
  }

  /** The bytes of a list of packets. */
  function Bytes(ps: seq<Packet>): nat {
    if ps == [] then 0 else Bytes(ps[..|ps| - 1]) + ps[|ps| - 1].size
  }

  function NextBands(cfg: Config, s: State, op: Op): (r: seq<Band>)
    requires Shape(s)
    ensures |r| == BANDS
    ensures forall b :: 0 <= b < BANDS ==> r[b] == BandAfter(cfg, s.bands[b], EffectOn(cfg, s, op, b))
  {
    seq(BANDS, b requires 0 <= b < BANDS && Shape(s) => BandAfter(cfg, s.bands[b], EffectOn(cfg, s, op, b)))
  }

  function Step(cfg: Config, s: State, op: Op): (s': State)
    requires Shape(s)
    ensures Shape(s')
  {
    var bands := NextBands(cfg, s, op);
    match op
    case Enqueue(p) =>
      if |s.bands[BandOf(p)].queue| < cfg.maxLen then State(bands, s.qlen + 1, s.backlog + p.size)
      else State(bands, s.qlen, s.backlog)
    case Dequeue =>
      var b := FirstBusy(s.bands);
      if b == BANDS then State(bands, s.qlen, s.backlog)
      else State(bands, s.qlen - 1, s.backlog - s.bands[b].queue[0].size)
    case Reset => State(bands, 0, 0)
  }

  function Run(cfg: Config, ops: seq<Op>): (s: State)
    ensures Shape(s)
  {
    if ops == [] then INITIAL else Step(cfg, Run(cfg, ops[..|ops| - 1]), ops[|ops| - 1])
  }

  // ----- histories of one band -----

  /** What a run does to band `b`, operation by operation. */
  ghost function Effects(cfg: Config, ops: seq<Op>, b: nat): (es: seq<Effect>)
    requires b < BANDS
    ensures |es| == |ops|
  {
    if ops == [] then []
    else
      var earlier := ops[..|ops| - 1];
      Effects(cfg, earlier, b) + [EffectOn(cfg, Run(cfg, earlier), ops[|ops| - 1], b)]
  }

  ghost function BandRun(cfg: Config, es: seq<Effect>): Band {
    if es == [] then EMPTY_BAND else BandAfter(cfg, BandRun(cfg, es[..|es| - 1]), es[|es| - 1])
  }

  ghost predicate Possible(cfg: Config, es: seq<Effect>) {
    es == [] || (Possible(cfg, es[..|es| - 1]) && Enabled(cfg, BandRun(cfg, es[..|es| - 1]), es[|es| - 1]))
  }

  /** Each band of a run is the result of its own history, which is possible. */
  lemma {:induction false} RunProjects(cfg: Config, ops: seq<Op>, b: nat)
    requires b < BANDS
    ensures Run(cfg, ops).bands[b] == BandRun(cfg, Effects(cfg, ops, b))
    ensures Possible(cfg, Effects(cfg, ops, b))
  {
    if ops != [] {
      var earlier, es := ops[..|ops| - 1], Effects(cfg, ops, b);
      RunProjects(cfg, earlier, b);
      assert es[..|es| - 1] == Effects(cfg, earlier, b);
    }
  }

  /** The packets accepted, and those delivered, since the last flush. */
  ghost function Input(es: seq<Effect>): seq<Packet> {
    if es == [] then []
    else
      var earlier := Input(es[..|es| - 1]);
      match es[|es| - 1] case Accept(p) => earlier + [p] case Flush => [] case _ => earlier
  }

  ghost function Output(es: seq<Effect>): seq<Packet> {
    if es == [] then []
    else
      var earlier := Output(es[..|es| - 1]);
      match es[|es| - 1] case Deliver(p) => earlier + [p] case Flush => [] case _ => earlier
  }

  /** First in, first out: what was delivered and what is queued are together what was accepted. */
  lemma {:induction false} Fifo(cfg: Config, es: seq<Effect>)
    requires Possible(cfg, es)
    ensures Input(es) == Output(es) + BandRun(cfg, es).queue
    ensures |BandRun(cfg, es).queue| <= cfg.maxLen
  {
    if es != [] {
      Fifo(cfg, es[..|es| - 1]);
    }
  }

  predicate IsAccept(e: Effect) { e.Accept? }
  predicate IsDrop(e: Effect) { e.Drop? }
  predicate IsDeliver(e: Effect) { e.Deliver? }
  predicate IsWork(e: Effect) { e.Accept? || e.Deliver? }

  ghost function Count(es: seq<Effect>, kind: Effect -> bool): nat {
    if es == [] then 0 else Count(es[..|es| - 1], kind) + if kind(es[|es| - 1]) then 1 else 0
  }

  /** The packets thrown away by flushes. */
  ghost function Flushed(cfg: Config, es: seq<Effect>): nat {
    if es == [] then 0
    else Flushed(cfg, es[..|es| - 1]) + if es[|es| - 1].Flush? then |BandRun(cfg, es[..|es| - 1]).queue| else 0
  }

  /** Nothing is lost: accepted packets are delivered, queued or flushed; and the band's statistics
      count the accepted and the dropped ones. */
  lemma {:induction false} Conservation(cfg: Config, es: seq<Effect>)
    requires Possible(cfg, es)
    ensures
      var band := BandRun(cfg, es);
      && band.total == Count(es, IsAccept)
      && band.dropped == Count(es, IsDrop)
      && band.total == Count(es, IsDeliver) + |band.queue| + Flushed(cfg, es)
  {
    if es != [] {
      Conservation(cfg, es[..|es| - 1]);
    }
  }

  // ----- flow control -----

  /** The queue lengths at which each level can be seen. */
  ghost predicate InRange(cfg: Config, band: Band) {
    var n := |band.queue|;
    match band.fc
    case AllOff => n <= cfg.redOn
    case RedOn => cfg.redOff < n <= cfg.allOn
    case AllOn => cfg.allOff < n && cfg.allOn < cfg.maxLen
  }

  lemma RangeStep(cfg: Config, band: Band, e: Effect)
    requires cfg.Ordered() && InRange(cfg, band) && Enabled(cfg, band, e)
    ensures InRange(cfg, BandAfter(cfg, band, e))
    ensures e != Flush && BandAfter(cfg, band, e).fc != band.fc ==> Adjacent(band.fc, BandAfter(cfg, band, e).fc)
  {
  }

  ghost predicate Adjacent(a: Level, b: Level) {
    a.Rank() == b.Rank() + 1 || b.Rank() == a.Rank() + 1
  }

  lemma {:induction false} LevelInRange(cfg: Config, es: seq<Effect>)
    requires cfg.Ordered() && Possible(cfg, es)
    ensures InRange(cfg, BandRun(cfg, es))
  {
    if es != [] {
      LevelInRange(cfg, es[..|es| - 1]);
      RangeStep(cfg, BandRun(cfg, es[..|es| - 1]), es[|es| - 1]);
    }
  }

  /** The signal an effect sends to the device: the new level, if it changes other than by a flush. */
  ghost function SignalOf(cfg: Config, band: Band, e: Effect): seq<Level> {
    if e.Flush? || BandAfter(cfg, band, e).fc == band.fc then [] else [BandAfter(cfg, band, e).fc]
  }

  /** The signals since the last flush, and all of them. */
  ghost function Signals(cfg: Config, es: seq<Effect>): seq<Level> {
    if es == [] || es[|es| - 1].Flush? then []
    else Signals(cfg, es[..|es| - 1]) + SignalOf(cfg, BandRun(cfg, es[..|es| - 1]), es[|es| - 1])
  }

  ghost function AllSignals(cfg: Config, es: seq<Effect>): seq<Level> {
    if es == [] then []
    else AllSignals(cfg, es[..|es| - 1]) + SignalOf(cfg, BandRun(cfg, es[..|es| - 1]), es[|es| - 1])
  }

  /** Between flushes, signals start from `AllOff`, move by one level at a time, never repeat, and
      the last one is the current level. */
  lemma {:induction false} SignalsMoveByOne(cfg: Config, es: seq<Effect>)
    requires cfg.Ordered() && Possible(cfg, es)
    ensures
      var log := [AllOff] + Signals(cfg, es);
      && log[|log| - 1] == BandRun(cfg, es).fc
      && forall i :: 1 <= i < |log| ==> Adjacent(log[i - 1], log[i])
  {
    if es != [] {
      var earlier, e := es[..|es| - 1], es[|es| - 1];
      SignalsMoveByOne(cfg, earlier);
      LevelInRange(cfg, earlier);
      RangeStep(cfg, BandRun(cfg, earlier), e);
      assert !e.Flush? ==>
        [AllOff] + Signals(cfg, es) == ([AllOff] + Signals(cfg, earlier)) + SignalOf(cfg, BandRun(cfg, earlier), e);
    }
  }

  /** The operations that surely took place since the last signal: how far the queue length has
      moved from where that level is entered. */
  ghost function Credit(cfg: Config, band: Band): nat {
    var n := |band.queue|;
    match band.fc
    case AllOff => if n > cfg.redOff then n - cfg.redOff else 0
    case RedOn => if n <= cfg.redOn then cfg.redOn + 1 - n else if n > cfg.allOff then n - cfg.allOff else 0
    case AllOn => if n <= cfg.allOn then cfg.allOn + 1 - n else 0
  }

  /** What the signal of an effect costs, if it sends one. */
  ghost function Price(cfg: Config, band: Band, e: Effect): nat
    requires cfg.Ordered()
  {
    if SignalOf(cfg, band, e) == [] then 0 else cfg.Gap() + 1
  }

  /** One operation pays at most one unit of credit, and a signal consumes a whole gap of it. */
  lemma CreditStep(cfg: Config, band: Band, e: Effect)
    requires cfg.Ordered() && InRange(cfg, band) && Enabled(cfg, band, e)
    ensures Price(cfg, band, e) + Credit(cfg, BandAfter(cfg, band, e)) <=
      Credit(cfg, band) + if IsWork(e) then 1 else 0
  {
    if SignalOf(cfg, band, e) != [] {
      assert Credit(cfg, BandAfter(cfg, band, e)) == 0;
      assert cfg.Gap() <= Credit(cfg, band);
    }
  }

  /** Hysteresis bounds the signalling: each signal is paid for by a full gap, and one more, of
      accepted and delivered packets. */
  lemma {:induction false} SignalsArePaidFor(cfg: Config, es: seq<Effect>)
    requires cfg.Ordered() && Possible(cfg, es)
    ensures |AllSignals(cfg, es)| * (cfg.Gap() + 1) + Credit(cfg, BandRun(cfg, es)) <= Count(es, IsWork)
  {
    if es != [] {
      var earlier, e := es[..|es| - 1], es[|es| - 1];
      var band := BandRun(cfg, earlier);
      SignalsArePaidFor(cfg, earlier);
      LevelInRange(cfg, earlier);
      CreditStep(cfg, band, e);
      Distribute(|AllSignals(cfg, earlier)|, 1, cfg.Gap() + 1);
      assert |AllSignals(cfg, es)| * (cfg.Gap() + 1) ==
        |AllSignals(cfg, earlier)| * (cfg.Gap() + 1) + Price(cfg, band, e);
    }
  }

  lemma Distribute(m: nat, n: nat, price: nat)
    ensures (m + n) * price == m * price + n * price
  {
  }

  // ----- what the device knows -----

  /** The last level the device was told, or `AllOff` from the beginning. */
  ghost function Told(cfg: Config, es: seq<Effect>): Level {
    var all := AllSignals(cfg, es);
    if all == [] then AllOff else all[|all| - 1]
  }

  /** A flush has found a level other than `AllOff`, and no signal has followed it. */
  ghost predicate CutOff(cfg: Config, es: seq<Effect>) {
    es != [] &&
    var band, e := BandRun(cfg, es[..|es| - 1]), es[|es| - 1];
    SignalOf(cfg, band, e) == [] && ((e.Flush? && band.fc != AllOff) || CutOff(cfg, es[..|es| - 1]))
  }

  /** A flush does not tell the device: it knows the level exactly if no flush has cut it off. */
  lemma {:induction false} DeviceKnowsExactly(cfg: Config, es: seq<Effect>)
    ensures Told(cfg, es) == BandRun(cfg, es).fc <==> !CutOff(cfg, es)
    ensures CutOff(cfg, es) ==> BandRun(cfg, es).fc == AllOff
  {
    if es != [] {
      var earlier, e := es[..|es| - 1], es[|es| - 1];
      DeviceKnowsExactly(cfg, earlier);
      assert SignalOf(cfg, BandRun(cfg, earlier), e) == [] ==> AllSignals(cfg, es) == AllSignals(cfg, earlier);
    }
  }

  // ----- the bound is the best possible -----

  /** A history of one band that takes in copies of one packet and delivers them. */
  ghost predicate OnlyOf(es: seq<Effect>, p: Packet) {
    forall i :: 0 <= i < |es| ==> es[i] == Accept(p) || es[i].Deliver?
  }

  ghost predicate At(cfg: Config, p: Packet, es: seq<Effect>, n: nat, fc: Level) {
    Possible(cfg, es) && OnlyOf(es, p) && |BandRun(cfg, es).queue| == n && BandRun(cfg, es).fc == fc
  }

  /** `es'` goes on from `es` with so much more work, and so many more signals. */
  ghost predicate Costs(cfg: Config, es: seq<Effect>, es': seq<Effect>, work: int, signals: int) {
    && Count(es', IsWork) == Count(es, IsWork) + work
    && |AllSignals(cfg, es')| == |AllSignals(cfg, es)| + signals
  }

  /** One more packet accepted, or delivered. */
  lemma OneAccept(cfg: Config, p: Packet, es: seq<Effect>, n: nat, fc: Level) returns (es': seq<Effect>)
    requires At(cfg, p, es, n, fc) && n < cfg.maxLen
    ensures At(cfg, p, es', n + 1, EnqueueLevel(cfg, n, fc))
    ensures Costs(cfg, es, es', 1, if EnqueueLevel(cfg, n, fc) == fc then 0 else 1)
  {
    es' := es + [Accept(p)];
    assert es'[..|es'| - 1] == es;
  }

  lemma OneDeliver(cfg: Config, p: Packet, es: seq<Effect>, n: nat, fc: Level) returns (es': seq<Effect>)
    requires At(cfg, p, es, n, fc) && n > 0
    ensures At(cfg, p, es', n - 1, DequeueLevel(cfg, n - 1, fc))
    ensures Costs(cfg, es, es', 1, if DequeueLevel(cfg, n - 1, fc) == fc then 0 else 1)
  {
    es' := es + [Deliver(BandRun(cfg, es).queue[0])];
    assert es'[..|es'| - 1] == es;
  }

  /** Filling a band to a length before which its level does not change. */
  lemma {:induction false} Fill(cfg: Config, p: Packet, es: seq<Effect>, n: nat, top: nat, fc: Level)
    returns (es': seq<Effect>)
    requires At(cfg, p, es, n, fc) && n <= top <= cfg.maxLen
    requires forall k :: n <= k < top ==> EnqueueLevel(cfg, k, fc) == fc
    ensures At(cfg, p, es', top, fc) && Costs(cfg, es, es', top - n, 0)
    decreases top - n
  {
    if n == top {
      es' := es;
    } else {
      es' := OneAccept(cfg, p, es, n, fc);
      es' := Fill(cfg, p, es', n + 1, top, fc);
    }
  }

  lemma {:induction false} Drain(cfg: Config, p: Packet, es: seq<Effect>, n: nat, bottom: nat, fc: Level)
    returns (es': seq<Effect>)
    requires At(cfg, p, es, n, fc) && bottom <= n
    requires forall k :: bottom <= k < n ==> DequeueLevel(cfg, k, fc) == fc
    ensures At(cfg, p, es', bottom, fc) && Costs(cfg, es, es', n - bottom, 0)
    decreases n
  {
    if n == bottom {
      es' := es;
    } else {
      es' := OneDeliver(cfg, p, es, n, fc);
      es' := Drain(cfg, p, es', n - 1, bottom, fc);
    }
  }

  /** The level goes from `low` to `high` beyond `on`, and back only at `off`. */
  ghost predicate Switches(cfg: Config, off: nat, on: nat, low: Level, high: Level) {
    && off <= on < cfg.maxLen && low != high
    && EnqueueLevel(cfg, on, low) == high && (forall k :: off <= k < on ==> EnqueueLevel(cfg, k, low) == low)
    && DequeueLevel(cfg, off, high) == low && (forall k :: off < k <= on ==> DequeueLevel(cfg, k, high) == high)
  }

  /** Up through the threshold at `on` and down through the one at `off`, back to where it began:
      two signals for twice the gap, and one more packet each. */
  lemma Cycle(cfg: Config, p: Packet, es: seq<Effect>, off: nat, on: nat, low: Level, high: Level)
    returns (es': seq<Effect>)
    requires At(cfg, p, es, off, low) && Switches(cfg, off, on, low, high)
    ensures At(cfg, p, es', off, low) && Costs(cfg, es, es', 2 * (on - off + 1), 2)
  {
    es' := Fill(cfg, p, es, off, on, low);
    es' := OneAccept(cfg, p, es', on, low);
    es' := Drain(cfg, p, es', on + 1, off + 1, high);
    es' := OneDeliver(cfg, p, es', off + 1, high);
  }

  lemma {:induction false} Cycles(cfg: Config, p: Packet, es: seq<Effect>, off: nat, on: nat, low: Level, high: Level,
                                  cycles: nat)
    returns (es': seq<Effect>)
    requires At(cfg, p, es, off, low) && Switches(cfg, off, on, low, high)
    ensures At(cfg, p, es', off, low) && Costs(cfg, es, es', WorkOf(cycles, on - off), 2 * cycles)
  {
    if cycles == 0 {
      es' := es;
    } else {
      es' := Cycles(cfg, p, es, off, on, low, high, cycles - 1);
      es' := Cycle(cfg, p, es', off, on, low, high);
    }
  }

  /** The work of so many cycles over a gap. */
  ghost function WorkOf(cycles: nat, gap: nat): nat {
    if cycles == 0 then 0 else WorkOf(cycles - 1, gap) + 2 * (gap + 1)
  }

  lemma {:induction false} WorkIsPaid(cycles: nat, gap: nat, signals: nat)
    requires signals >= 2 * cycles
    ensures WorkOf(cycles, gap) <= signals * (gap + 1)
  {
    if cycles > 0 {
      WorkIsPaid(cycles - 1, gap, signals - 2);
      Distribute(signals - 2, 2, gap + 1);
    }
  }

  lemma RedCycles(cfg: Config, p: Packet, cycles: nat) returns (es: seq<Effect>)
    requires cfg.Ordered()
    ensures At(cfg, p, es, cfg.redOff, AllOff)
    ensures Costs(cfg, [], es, cfg.redOff + WorkOf(cycles, cfg.redOn - cfg.redOff), 2 * cycles)
  {
    es := Fill(cfg, p, [], 0, cfg.redOff, AllOff);
    es := Cycles(cfg, p, es, cfg.redOff, cfg.redOn, AllOff, RedOn, cycles);
  }

  lemma UpToRed(cfg: Config, p: Packet) returns (es: seq<Effect>)
    requires cfg.Ordered()
    ensures At(cfg, p, es, cfg.allOff, RedOn) && Costs(cfg, [], es, cfg.allOff, 1)
  {
    es := Fill(cfg, p, [], 0, cfg.redOn, AllOff);
    es := OneAccept(cfg, p, es, cfg.redOn, AllOff);
    es := Fill(cfg, p, es, cfg.redOn + 1, cfg.allOff, RedOn);
  }

  lemma AllCycles(cfg: Config, p: Packet, cycles: nat) returns (es: seq<Effect>)
    requires cfg.Ordered() && cfg.allOn < cfg.maxLen
    ensures At(cfg, p, es, cfg.allOff, RedOn)
    ensures Costs(cfg, [], es, cfg.allOff + WorkOf(cycles, cfg.allOn - cfg.allOff), 1 + 2 * cycles)
  {
    es := UpToRed(cfg, p);
    es := Cycles(cfg, p, es, cfg.allOff, cfg.allOn, RedOn, AllOn, cycles);
  }

  /** No band but this one has packets, and its history is this one. */
  ghost predicate Realizes(cfg: Config, ops: seq<Op>, b: nat, es: seq<Effect>) {
    && b < BANDS && Effects(cfg, ops, b) == es
    && forall i :: 0 <= i < BANDS && i != b ==> Run(cfg, ops).bands[i].queue == []
  }

  lemma OnlyBusy(bands: seq<Band>, b: nat)
    requires |bands| == BANDS && b < BANDS && bands[b].queue != []
    requires forall i :: 0 <= i < BANDS && i != b ==> bands[i].queue == []
    ensures FirstBusy(bands) == b
  {
  }

  /** Such a history is that of a run of the queue, with the packets sent to their band. */
  lemma {:induction false} Realize(cfg: Config, p: Packet, es: seq<Effect>) returns (ops: seq<Op>)
    requires Possible(cfg, es) && OnlyOf(es, p)
    ensures Realizes(cfg, ops, BandOf(p), es)
  {
    if es == [] {
      ops := RealizeNone(cfg, p);
    } else {
      var n := |es| - 1;
      ops := Realize(cfg, p, es[..n]);
      assert es == es[..n] + [es[n]];
      ops := RealizeOne(cfg, p, ops, es[..n], es[n]);
    }
  }

  lemma RealizeNone(cfg: Config, p: Packet) returns (ops: seq<Op>)
    ensures Realizes(cfg, ops, BandOf(p), [])
  {
    ops := [];
  }

  lemma RealizeOne(cfg: Config, p: Packet, ops: seq<Op>, es: seq<Effect>, e: Effect) returns (ops': seq<Op>)
    requires Realizes(cfg, ops, BandOf(p), es) && Enabled(cfg, BandRun(cfg, es), e) && (e == Accept(p) || e.Deliver?)
    ensures Realizes(cfg, ops', BandOf(p), es + [e])
  {
    var b, s, op := BandOf(p), Run(cfg, ops), if e.Deliver? then Dequeue else Enqueue(p);
    RunProjects(cfg, ops, b);
    if e.Deliver? {
      OnlyBusy(s.bands, b);
    }
    ops' := ops + [op];
    assert ops'[..|ops|] == ops;
    assert EffectOn(cfg, s, op, b) == e;
    forall i | 0 <= i < BANDS && i != b ensures NextBands(cfg, s, op)[i].queue == [] {
      assert EffectOn(cfg, s, op, i) == Idle;
    }
  }

  /** A reset can cut the device off, for every configuration and band: it was told that red packets
      are held back, and is not told that they no longer are. */
  lemma ResetCutsOff(cfg: Config, p: Packet) returns (ops: seq<Op>)
    requires cfg.Ordered()
    ensures
      var es := Effects(cfg, ops, BandOf(p));
      CutOff(cfg, es) && Told(cfg, es) == RedOn && Run(cfg, ops).bands[BandOf(p)].fc == AllOff
  {
    var es := UpToRed(cfg, p);
    var before := Realize(cfg, p, es);
    RunProjects(cfg, before, BandOf(p));
    ToldRed(cfg, es);
    ops := FlushAfter(cfg, before, BandOf(p));
    FlushTells(cfg, es);
  }

  /** With one signal and the level on for red packets, that is what was signalled. */
  lemma ToldRed(cfg: Config, es: seq<Effect>)
    requires BandRun(cfg, es).fc == RedOn
    ensures Told(cfg, es) == RedOn
  {
    DeviceKnowsExactly(cfg, es);
  }

  lemma FlushAfter(cfg: Config, ops: seq<Op>, b: nat) returns (ops': seq<Op>)
    requires b < BANDS
    ensures Effects(cfg, ops', b) == Effects(cfg, ops, b) + [Flush] && Run(cfg, ops').bands[b].fc == AllOff
  {
    ops' := ops + [Reset];
    assert ops'[..|ops|] == ops;
  }

  lemma FlushTells(cfg: Config, es: seq<Effect>)
    requires BandRun(cfg, es).fc == RedOn && Told(cfg, es) == RedOn
    ensures CutOff(cfg, es + [Flush]) && Told(cfg, es + [Flush]) == RedOn
  {
    assert (es + [Flush])[..|es|] == es;
    assert AllSignals(cfg, es + [Flush]) == AllSignals(cfg, es);
  }

  lemma TightHistory(cfg: Config, p: Packet, cycles: nat) returns (es: seq<Effect>)
    requires cfg.Ordered()
    ensures Possible(cfg, es) && OnlyOf(es, p) && |AllSignals(cfg, es)| >= 2 * cycles
    ensures Count(es, IsWork) <= cfg.allOff + |AllSignals(cfg, es)| * (cfg.Gap() + 1)
  {
    if cfg.Gap() == cfg.redOn - cfg.redOff {
      es := RedCycles(cfg, p, cycles);
    } else {
      es := AllCycles(cfg, p, cycles);
    }
    WorkIsPaid(cycles, cfg.Gap(), |AllSignals(cfg, es)|);
  }

  /** For every configuration and every band there are runs with arbitrarily many signals that do no
      more work than `SignalsArePaidFor` asks for, up to filling the queue once: no better bound holds. */
  lemma BoundIsTight(cfg: Config, p: Packet, cycles: nat) returns (ops: seq<Op>)
    requires cfg.Ordered()
    ensures
      var es := Effects(cfg, ops, BandOf(p));
      && |AllSignals(cfg, es)| >= 2 * cycles
      && Count(es, IsWork) <= cfg.allOff + |AllSignals(cfg, es)| * (cfg.Gap() + 1)
  {
    var es := TightHistory(cfg, p, cycles);
    ops := Realize(cfg, p, es);
  }

  // ----- the whole queue -----

  function TotalLength(bands: seq<Band>): nat {
    if bands == [] then 0 else |bands[0].queue| + TotalLength(bands[1..])
  }

  function TotalBytes(bands: seq<Band>): nat {
    if bands == [] then 0 else Bytes(bands[0].queue) + TotalBytes(bands[1..])
  }

  /** Changing one band changes the totals by as much. */
  lemma {:induction false} TotalsChange(bands: seq<Band>, bands': seq<Band>, b: nat)
    requires |bands| == |bands'| && b < |bands|
    requires forall i :: 0 <= i < |bands| && i != b ==> bands'[i] == bands[i]
    ensures TotalLength(bands') - |bands'[b].queue| == TotalLength(bands) - |bands[b].queue|
    ensures TotalBytes(bands') - Bytes(bands'[b].queue) == TotalBytes(bands) - Bytes(bands[b].queue)
  {
    if b == 0 {
      assert bands[1..] == bands'[1..];
    } else {
      TotalsChange(bands[1..], bands'[1..], b - 1);
    }
  }

  lemma {:induction false} TotalsEmpty(bands: seq<Band>)
    requires forall i :: 0 <= i < |bands| ==> bands[i].queue == []
    ensures TotalLength(bands) == 0 && TotalBytes(bands) == 0
  {
    if bands != [] {
      TotalsEmpty(bands[1..]);
    }
  }

  /** The totals are those of the bands. */
  lemma {:induction false} Totals(cfg: Config, ops: seq<Op>)
    ensures Run(cfg, ops).qlen == TotalLength(Run(cfg, ops).bands)
    ensures Run(cfg, ops).backlog == TotalBytes(Run(cfg, ops).bands)
  {
    if ops == [] {
      TotalsEmpty(INITIAL.bands);
    } else {
      Totals(cfg, ops[..|ops| - 1]);
      TotalsStep(cfg, Run(cfg, ops[..|ops| - 1]), ops[|ops| - 1]);
    }
  }

  lemma TotalsStep(cfg: Config, s: State, op: Op)
    requires Shape(s) && s.qlen == TotalLength(s.bands) && s.backlog == TotalBytes(s.bands)
    ensures Step(cfg, s, op).qlen == TotalLength(Step(cfg, s, op).bands)
    ensures Step(cfg, s, op).backlog == TotalBytes(Step(cfg, s, op).bands)
  {
    assert Step(cfg, s, op).bands == NextBands(cfg, s, op);
    match op {
      case Enqueue(p) => EnqueueTotals(cfg, s, p);
      case Dequeue => DequeueTotals(cfg, s);
      case Reset => ResetTotals(cfg, s);
    }
  }

  lemma ResetTotals(cfg: Config, s: State)
    requires Shape(s)
    ensures TotalLength(NextBands(cfg, s, Reset)) == 0 && TotalBytes(NextBands(cfg, s, Reset)) == 0
  {
    TotalsEmpty(NextBands(cfg, s, Reset));
  }

  lemma EnqueueTotals(cfg: Config, s: State, p: Packet)
    requires Shape(s)
    ensures
      var bands', fits := NextBands(cfg, s, Enqueue(p)), |s.bands[BandOf(p)].queue| < cfg.maxLen;
      && TotalLength(bands') == TotalLength(s.bands) + (if fits then 1 else 0)
      && TotalBytes(bands') == TotalBytes(s.bands) + (if fits then p.size else 0)
  {
    BytesAppend(s.bands[BandOf(p)].queue, p);
    TotalsChange(s.bands, NextBands(cfg, s, Enqueue(p)), BandOf(p));
  }

  lemma DequeueTotals(cfg: Config, s: State)
    requires Shape(s)
    ensures
      var bands', b := NextBands(cfg, s, Dequeue), FirstBusy(s.bands);
      && TotalLength(bands') == TotalLength(s.bands) - (if b < BANDS then 1 else 0)
      && TotalBytes(bands') == TotalBytes(s.bands) - (if b < BANDS then s.bands[b].queue[0].size else 0)
  {
    var bands', b := NextBands(cfg, s, Dequeue), FirstBusy(s.bands);
    if b < BANDS {
      BytesHead(s.bands[b].queue);
      TotalsChange(s.bands, bands', b);
    } else {
      assert bands' == s.bands;
    }
  }

  lemma BytesAppend(ps: seq<Packet>, p: Packet)
    ensures Bytes(ps + [p]) == Bytes(ps) + p.size
  {
    assert (ps + [p])[..|ps|] == ps;
  }

  lemma {:induction false} BytesHead(ps: seq<Packet>)
    requires ps != []
    ensures Bytes(ps) == ps[0].size + Bytes(ps[1..])
  {
    if |ps| > 1 {
      BytesHead(ps[..|ps| - 1]);
      assert ps[1..][..|ps| - 2] == ps[..|ps| - 1][1..];
    }
  }

  /** A dequeue delivers the oldest packet of the first band that has any: the next of those
      accepted, where all earlier bands have delivered all of theirs. */
  lemma DeliversOldest(cfg: Config, ops: seq<Op>)
    ensures
      var s, b := Run(cfg, ops), FirstBusy(Run(cfg, ops).bands);
      && (forall i :: 0 <= i < b ==> Output(Effects(cfg, ops, i)) == Input(Effects(cfg, ops, i)))
      && (b < BANDS ==>
            var es := Effects(cfg, ops, b);
            && Output(es) < Input(es)
            && EffectOn(cfg, s, Dequeue, b) == Deliver(Input(es)[|Output(es)|]))
  {
    var b := FirstBusy(Run(cfg, ops).bands);
    forall i | 0 <= i <= b && i < BANDS ensures Input(Effects(cfg, ops, i)) ==
      Output(Effects(cfg, ops, i)) + Run(cfg, ops).bands[i].queue
    {
      RunProjects(cfg, ops, i);
      Fifo(cfg, Effects(cfg, ops, i));
    }
  }

  /** The packets of each band are those that its priorities send there. */
  ghost predicate OwnPackets(s: State) {
    forall b, i :: 0 <= b < |s.bands| && 0 <= i < |s.bands[b].queue| ==> BandOf(s.bands[b].queue[i]) == b
  }

  lemma {:induction false} RunOwnPackets(cfg: Config, ops: seq<Op>)
    ensures OwnPackets(Run(cfg, ops))
  {
    if ops != [] {
      var s, op := Run(cfg, ops[..|ops| - 1]), ops[|ops| - 1];
      RunOwnPackets(cfg, ops[..|ops| - 1]);
      forall b, i | 0 <= b < BANDS && 0 <= i < |NextBands(cfg, s, op)[b].queue|
        ensures BandOf(NextBands(cfg, s, op)[b].queue[i]) == b
      {
        assert |s.bands[b].queue| > 0 ==> BandOf(s.bands[b].queue[0]) == b;
      }
    }
  }

  /** The guarantees above, for each band of any run of the queue. */
  lemma EveryRun(cfg: Config, ops: seq<Op>, b: nat)
    requires cfg.Ordered() && b < BANDS
    ensures
      var band, es := Run(cfg, ops).bands[b], Effects(cfg, ops, b);
      && InRange(cfg, band)
      && Input(es) == Output(es) + band.queue
      && band.total == Count(es, IsDeliver) + |band.queue| + Flushed(cfg, es)
      && |AllSignals(cfg, es)| * (cfg.Gap() + 1) <= Count(es, IsWork)
  {
    var es := Effects(cfg, ops, b);
    RunProjects(cfg, ops, b);
    LevelInRange(cfg, es);
    Fifo(cfg, es);
    Conservation(cfg, es);
    SignalsArePaidFor(cfg, es);
  }

  /** With the default thresholds, 81 accepted or delivered packets per signal. */
  lemma DefaultBound(ops: seq<Op>, b: nat)
    requires b < BANDS
    ensures |AllSignals(DEFAULTS, Effects(DEFAULTS, ops, b))| * 81 <= Count(Effects(DEFAULTS, ops, b), IsWork)
  {
    assert DEFAULTS.Gap() == 80;
    EveryRun(DEFAULTS, ops, b);
  }
}
