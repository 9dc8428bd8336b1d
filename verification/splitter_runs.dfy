/** Whole runs of the splitter: none gets stuck, all of them end, and in the end every slot holds its entries. */
module SplitterRuns {
  import Linear
  import opened LoserTree
  import opened Splitter
  import opened SplitterProofs

  /** What holds in every state of every run. */
  ghost predicate Inv(c: Config, s: State) {
    Ok(c, s) && EndsOk(c, s) && forall w: Where :: Account(c, s, w) == Count(c, c.input, w)
  }

  lemma {:induction false} NothingLoaded(c: Config, w: Where)
    ensures Sum(Loads(c, Init(c), w)) == 0
  {
    SumZero(Loads(c, Init(c), w));
  }

  lemma InitInv(c: Config)
    requires GoodConfig(c)
    ensures Inv(c, Init(c))
  {
    var s := Init(c);
    forall w: Where
      ensures Account(c, s, w) == Count(c, c.input, w)
    {
      NothingLoaded(c, w);
      assert c.input[0..] == c.input;
    }
    assert EndedSet(s) == {} && ClosedSet(c, s) == {};
  }

  lemma InvKept(c: Config, s: State, step: Step)
    requires GoodConfig(c) && Inv(c, s) && Enabled(c, s, step)
    ensures Inv(c, Next(c, s, step))
  {
    OkKept(c, s, step);
    EndedCount(c, s, step);
    ClosedCount(c, s, step);
    forall w: Where
      ensures Account(c, Next(c, s, step), w) == Count(c, c.input, w)
    {
      AccountKept(c, s, step, w);
    }
  }

  lemma {:induction false} FullSet(a: set<nat>, b: set<nat>)
    requires a <= b && |a| >= |b|
    ensures a == b
  {
    if x :| x in a {
      FullSet(a - {x}, b - {x});
      assert a == (a - {x}) + {x} && b == (b - {x}) + {x};
    }
  }

  // No run gets stuck.

  lemma AllEnded(c: Config, s: State)
    requires Ok(c, s) && |EndedSet(s)| == c.mappers
    ensures forall m | 0 <= m < c.mappers :: Ended(s, m)
  {
    var ms := EndedSet(s);
    assert forall m | m in ms :: m in Linear.Below(c.mappers);
    FullSet(ms, Linear.Below(c.mappers));
    forall m | 0 <= m < c.mappers
      ensures Ended(s, m)
    {
      assert m in ms;
    }
  }

  lemma AllClosed(c: Config, s: State)
    requires Ok(c, s) && |ClosedSet(c, s)| == c.mappers
    ensures forall m | 0 <= m < c.mappers :: Closed(c, s, m) && s.mappers[m].outbox == []
  {
    var ms := ClosedSet(c, s);
    assert forall m | m in ms :: m in Linear.Below(c.mappers);
    FullSet(ms, Linear.Below(c.mappers));
    forall m | 0 <= m < c.mappers
      ensures Closed(c, s, m) && s.mappers[m].outbox == []
    {
      assert m in ms;
      OutboxInWhole(c, s.mappers[m], Held(s.writer, m));
    }
  }

  /** If all the mappers are done, so is the reader. */
  lemma NoneLeft(c: Config, s: State)
    requires Ok(c, s) && EndsOk(c, s) && forall m | 0 <= m < c.mappers :: s.mappers[m].pc.Done?
    ensures EofsSent(s.reader) == c.mappers
    ensures (forall m | 0 <= m < c.mappers :: s.mappers[m].outbox == []) && s.writer.Idle?
      ==> s.writer.eofs == c.mappers
  {
    assert EndedSet(s) == Linear.Below(c.mappers);
    if (forall m | 0 <= m < c.mappers :: s.mappers[m].outbox == []) && s.writer.Idle? {
      assert ClosedSet(c, s) == Linear.Below(c.mappers);
    }
  }

  lemma WriterExpects(c: Config, s: State) returns (step: Step)
    requires Ok(c, s) && s.writer.Expecting?
    ensures Enabled(c, s, step)
  {
    var m := s.writer.from;
    var p := s.mappers[m];
    assert MapperOk(c, p, Held(s.writer, m), Addressed(s.reader, m));
    if p.outbox != [] {
      WriterFinds(c, p, Held(s.writer, m));
      step := WriterBlock;
    } else {
      step := Send(m);
    }
  }

  /** A mapper that can go on by itself, or has something for the writer. */
  ghost predicate Busy(p: Mapper) {
    p.outbox != [] || SendsToWriter(p.pc) || p.pc.Mapping? || (p.pc.Waiting? && p.inbox != [])
  }

  lemma BusyMapper(c: Config, s: State, m: nat) returns (step: Step)
    requires Ok(c, s) && EndsOk(c, s) && s.writer.Idle? && m < c.mappers && Busy(s.mappers[m])
    ensures Enabled(c, s, step)
  {
    var p := s.mappers[m];
    if s.writer.eofs >= c.mappers {
      Linear.SubsetCard(ClosedSet(c, s), Linear.Below(c.mappers));
      AllClosed(c, s);
    }
    step := if p.outbox != [] then WriterTake(m) else if SendsToWriter(p.pc) then Send(m) else if p.pc.Mapping?
      then MapOne(m) else Receive(m);
  }

  /** When all the mappers wait for the reader, it can take a request or send an answer. */
  lemma ReaderGoesOn(c: Config, s: State) returns (step: Step)
    requires GoodConfig(c) && Ok(c, s) && EndsOk(c, s) && s.writer.Idle? && forall m | 0 <= m < c.mappers ::
      !Busy(s.mappers[m])
    requires ReaderListens(c, s.reader)
    ensures Enabled(c, s, step)
  {
    if m :| 0 <= m < c.mappers && s.mappers[m].requests > 0 {
      step := TakeRequest(m);
    } else if m :| 0 <= m < c.mappers && s.mappers[m].pc.Requesting? {
      step := Request(m);
    } else {
      forall m | 0 <= m < c.mappers
        ensures s.mappers[m].pc.Done?
      {
        assert MapperOk(c, s.mappers[m], Held(s.writer, m), Addressed(s.reader, m));
      }
      NoneLeft(c, s);
      step := ReadBlock;
    }
  }

  lemma ReaderEnded(c: Config, s: State)
    requires Ok(c, s) && EndsOk(c, s) && s.writer.Idle? && forall m | 0 <= m < c.mappers :: !Busy(s.mappers[m])
    requires s.reader == Ending(c.mappers)
    ensures Final(c, s)
  {
    AllEnded(c, s);
    forall m | 0 <= m < c.mappers
      ensures s.mappers[m].pc.Done?
    {
      assert Ended(s, m) && MapperOk(c, s.mappers[m], Held(s.writer, m), Addressed(s.reader, m));
    }
    NoneLeft(c, s);
  }

  /** No reachable state is stuck, unless all the processes have finished. */
  lemma NeverStuck(c: Config, s: State) returns (step: Step)
    requires GoodConfig(c) && Inv(c, s) && !Final(c, s)
    ensures Enabled(c, s, step)
  {
    if s.writer.Expecting? {
      step := WriterExpects(c, s);
    } else if m :| 0 <= m < c.mappers && Busy(s.mappers[m]) {
      step := BusyMapper(c, s, m);
    } else if s.reader.Reading? {
      step := ReadBlock;
    } else if ReaderListens(c, s.reader) {
      step := ReaderGoesOn(c, s);
    } else if s.reader.Ending? {
      ReaderEnded(c, s);
    } else {
      var m := s.reader.to;
      assert MapperOk(c, s.mappers[m], Held(s.writer, m), Addressed(s.reader, m));
      step := SendReply;
    }
  }

  // Every run ends.

  ghost function Letter(msg: ToMapper): (n: nat) {
    match msg
    case Nonces(block) => 6 * |block| + 4
    case NoMore => 1
  }

  ghost function PcWork(c: Config, pc: Pc): (n: nat) {
    var F := 4 * c.slots + 3;
    match pc
    case Requesting => F + 2
    case Waiting => F
    case Mapping(todo) => F + 3 + 6 * |todo|
    case FullKey(_, todo) => F + 8 + 6 * |todo|
    case FullBlock(_, todo) => F + 6 + 6 * |todo|
    case FlushKey(slot) => if slot <= c.slots then 4 * (c.slots - slot) + 2 else 0
    case FlushBlock(slot) => if slot <= c.slots then 4 * (c.slots - slot) else 0
    case Done => 0
  }

  ghost function MapperWork(c: Config, p: Mapper): (n: nat) {
    PcWork(c, p.pc) + p.requests + |p.outbox| + if p.inbox == [] then 0 else Letter(p.inbox[0])
  }

  ghost function ReaderWork(c: Config, s: State): (n: nat)
    requires ReaderOk(c, s)
  {
    12 * (|c.input| - s.position) +
    match s.reader
    case Reading => 2 * c.mappers + 1
    case Holding(block) => 2 * c.mappers + 6 + 6 * |block|
    case Sending(block, _) => 2 * c.mappers + 6 + 6 * |block|
    case Ending(sent) => 2 * (c.mappers - sent)
    case SendingEof(sent, _) => 2 * (c.mappers - sent)
  }

  ghost function MapperWorks(c: Config, s: State): (ns: seq<nat>)
    ensures |ns| == |s.mappers|
  {
    seq(|s.mappers|, m requires 0 <= m < |s.mappers| => MapperWork(c, s.mappers[m]))
  }

  /** A bound on the number of steps that are left. */
  ghost function Work(c: Config, s: State): (n: nat)
    requires ReaderOk(c, s)
  {
    ReaderWork(c, s) + Sum(MapperWorks(c, s))
  }

  /** The work of the mapper and the reader that take a step goes down. */
  ghost predicate Less(c: Config, s: State, s': State, m: nat) {
    && ReaderOk(c, s) && ReaderOk(c, s') && m < |s.mappers| == |s'.mappers|
    && MapperWork(c, s'.mappers[m]) + ReaderWork(c, s') < MapperWork(c, s.mappers[m]) + ReaderWork(c, s)
  }

  lemma LessTalk(c: Config, s: State, step: Step)
    requires Ok(c, s) && Enabled(c, s, step) && (step.TakeRequest? || step.SendReply? || step.Request? || step.Receive?)
    ensures Less(c, s, Next(c, s, step), Active(s, step))
  {
    var m := Active(s, step);
    assert MapperOk(c, s.mappers[m], Held(s.writer, m), Addressed(s.reader, m));
    ReaderKept(c, s, step);
  }

  lemma SendWork(c: Config, p: Mapper, held: seq<ToWriter>, addressed: nat)
    requires MapperOk(c, p, held, addressed) && SendsToWriter(p.pc)
    ensures MapperWork(c, Sent(c, p)) < MapperWork(c, p)
  {
  }

  lemma MapWork(c: Config, p: Mapper, held: seq<ToWriter>, addressed: nat)
    requires MapperOk(c, p, held, addressed) && p.pc.Mapping?
    ensures MapperWork(c, Mapped(c, p)) < MapperWork(c, p)
  {
  }

  lemma LessMail(c: Config, s: State, step: Step)
    requires Ok(c, s) && Enabled(c, s, step) && (step.MapOne? || step.Send?)
    ensures Less(c, s, Next(c, s, step), Active(s, step))
  {
    var m := Active(s, step);
    assert MapperOk(c, s.mappers[m], Held(s.writer, m), Addressed(s.reader, m));
    if step.MapOne? {
      LessToMap(c, s, m);
    } else {
      LessToSend(c, s, m);
    }
  }

  lemma LessToMap(c: Config, s: State, m: nat)
    requires m < |s.mappers| && MapperOk(c, s.mappers[m], Held(s.writer, m), Addressed(s.reader, m))
    requires ReaderOk(c, s) && Enabled(c, s, MapOne(m))
    ensures Less(c, s, Next(c, s, MapOne(m)), m)
  {
    MapWork(c, s.mappers[m], Held(s.writer, m), Addressed(s.reader, m));
  }

  lemma LessToSend(c: Config, s: State, m: nat)
    requires m < |s.mappers| && MapperOk(c, s.mappers[m], Held(s.writer, m), Addressed(s.reader, m))
    requires ReaderOk(c, s) && Enabled(c, s, Send(m))
    ensures Less(c, s, Next(c, s, Send(m)), m)
  {
    SendWork(c, s.mappers[m], Held(s.writer, m), Addressed(s.reader, m));
  }

  lemma LessTake(c: Config, s: State, step: Step)
    requires Ok(c, s) && Enabled(c, s, step) && (step.WriterTake? || step.WriterBlock?)
    ensures Less(c, s, Next(c, s, step), Active(s, step))
  {
    ReaderKept(c, s, step);
    var m := Active(s, step);
    assert |Next(c, s, step).mappers[m].outbox| == |s.mappers[m].outbox| - 1;
  }

  lemma LessWork(c: Config, s: State, step: Step)
    requires Ok(c, s) && Enabled(c, s, step) && Less(c, s, Next(c, s, step), Active(s, step))
    ensures ReaderOk(c, Next(c, s, step)) && Work(c, Next(c, s, step)) < Work(c, s)
  {
    var s', m := Next(c, s, step), Active(s, step);
    var x := MapperWork(c, s'.mappers[m]);
    forall i | 0 <= i < |s.mappers|
      ensures MapperWorks(c, s')[i] == MapperWorks(c, s)[m := x][i]
    {
      if i != m {
        OthersKept(c, s, step, i);
      }
    }
    assert MapperWorks(c, s') == MapperWorks(c, s)[m := x];
    SumUpdate(MapperWorks(c, s), m, x);
  }

  /** Every step brings the end nearer. */
  lemma WorkGoesDown(c: Config, s: State, step: Step)
    requires GoodConfig(c) && Ok(c, s) && Enabled(c, s, step)
    ensures ReaderOk(c, Next(c, s, step)) && Work(c, Next(c, s, step)) < Work(c, s)
  {
    if step == ReadBlock {
      ReaderKept(c, s, step);
      assert MapperWorks(c, Next(c, s, step)) == MapperWorks(c, s);
    } else {
      if step.TakeRequest? || step.SendReply? || step.Request? || step.Receive? {
        LessTalk(c, s, step);
      } else if step.MapOne? || step.Send? {
        LessMail(c, s, step);
      } else {
        LessTake(c, s, step);
      }
      LessWork(c, s, step);
    }
  }

  // Runs.

  ghost predicate IsRun(c: Config, steps: seq<Step>, states: seq<State>) {
    && |states| == |steps| + 1 && states[0] == Init(c)
    && forall i | 0 <= i < |steps| :: Enabled(c, states[i], steps[i]) && states[i + 1] == Next(c, states[i], steps[i])
  }

  lemma {:induction false} RunKeepsInv(c: Config, steps: seq<Step>, states: seq<State>)
    requires GoodConfig(c) && IsRun(c, steps, states)
    ensures Inv(c, states[|steps|]) && |steps| + Work(c, states[|steps|]) <= Work(c, Init(c))
  {
    InitInv(c);
    if steps != [] {
      var n := |steps| - 1;
      RunKeepsInv(c, steps[..n], states[..n + 1]);
      InvKept(c, states[n], steps[n]);
      WorkGoesDown(c, states[n], steps[n]);
    }
  }

  /** No message of the mapper is under way. */
  ghost predicate Silent(p: Mapper) {
    p.inbox == [] && p.outbox == [] && p.requests == 0
  }

  lemma DoneCarriesNothing(c: Config, s: State, m: nat, w: Where)
    requires Ok(c, s) && m < c.mappers && Closed(c, s, m)
    ensures Carried(c, s.mappers[m], Held(s.writer, m), w) == 0 && Silent(s.mappers[m])
  {
    assert MapperOk(c, s.mappers[m], Held(s.writer, m), Addressed(s.reader, m));
    OutboxInWhole(c, s.mappers[m], Held(s.writer, m));
  }

  lemma AllSilent(c: Config, s: State)
    requires Inv(c, s) && Final(c, s)
    ensures forall m | 0 <= m < c.mappers :: Closed(c, s, m) && Silent(s.mappers[m])
  {
    AllClosed(c, s);
    forall m | 0 <= m < c.mappers
      ensures Silent(s.mappers[m])
    {
      DoneCarriesNothing(c, s, m, Where(0, DUMMY));
    }
  }

  lemma FinalSlots(c: Config, s: State, w: Where)
    requires Inv(c, s) && Final(c, s)
    ensures InBuffers(s.files, w) == Count(c, c.input, w)
  {
    AllSilent(c, s);
    var loads := Loads(c, s, w);
    forall m | 0 <= m < c.mappers
      ensures loads[m] == 0
    {
      DoneCarriesNothing(c, s, m, w);
    }
    SumZero(loads);
    assert Account(c, s, w) == Count(c, c.input, w);
  }

  /** The splitter: whatever the order of the steps, a run that can go no further has finished all its processes, left
      no message behind, and put into every slot exactly the entries of the valid preimages with that key. No run is
      longer than a fixed bound. */
  lemma SplitterIsCorrect(c: Config, steps: seq<Step>, states: seq<State>)
    requires GoodConfig(c) && IsRun(c, steps, states)
    ensures |steps| <= Work(c, Init(c)) && states[|steps|].writer != Confused
    ensures (forall step :: !Enabled(c, states[|steps|], step)) ==> Final(c, states[|steps|])
    ensures var s := states[|steps|]; Final(c, s) ==>
      && |s.mappers| == c.mappers && |s.files| == c.slots
      && (forall m | 0 <= m < c.mappers :: Silent(s.mappers[m]))
      && forall k: nat, e: Entry | k < c.slots :: multiset(s.files[k])[e] == Count(c, c.input, Where(k, e))
  {
    var s := states[|steps|];
    RunKeepsInv(c, steps, states);
    if !Final(c, s) {
      var step := NeverStuck(c, s);
    } else {
      forall w: Where
        ensures InBuffers(s.files, w) == Count(c, c.input, w)
      {
        FinalSlots(c, s, w);
      }
      AllSilent(c, s);
      forall k: nat, e: Entry | k < c.slots
        ensures multiset(s.files[k])[e] == Count(c, c.input, Where(k, e))
      {
        assert InBuffers(s.files, Where(k, e)) == Count(c, c.input, Where(k, e));
      }
    }
  }
}
