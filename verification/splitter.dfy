/** The splitter: one reader, one writer and any number of mappers exchange messages. Between two processes,
    messages arrive in the order in which they were sent; otherwise anything may happen. */
module Splitter {
  import opened LoserTree

  const READER_BUFFER_SIZE: nat := 65536
  const WRITER_BUFFER_SIZE: nat := 1024

  /** What a valid preimage becomes: an entry for one of the slots. */
  datatype Placement = Invalid | Placed(slot: nat, entry: Entry)

  /** The parameters of a run. A channel holds up to `capacity` messages; beyond that, a message can only be sent to a
      process that is waiting for it. */
  datatype Config = Config(place: Preimage -> Placement, slots: nat, mappers: nat, capacity: nat, input: seq<Preimage>)

  ghost predicate GoodConfig(c: Config) {
    c.mappers > 0 && forall p :: c.place(p).Placed? ==> c.place(p).slot < c.slots
  }

  datatype ToMapper = Nonces(block: seq<Preimage>) | NoMore
  datatype ToWriter = Key(slot: nat) | Hashes(block: seq<Entry>) | End

  datatype Reader = Reading | Holding(block: seq<Preimage>) | Sending(block: seq<Preimage>, to: nat)
    | Ending(sent: nat) | SendingEof(sent: nat, to: nat)

  datatype Writer = Idle(eofs: nat) | Expecting(eofs: nat, slot: nat, from: nat) | Confused

  datatype Pc =
    | Requesting
    | Waiting
    | Mapping(todo: seq<Preimage>)
    | FullKey(slot: nat, todo: seq<Preimage>)
    | FullBlock(slot: nat, todo: seq<Preimage>)
    | FlushKey(slot: nat)
    | FlushBlock(slot: nat)
    | Done

  /** A mapper, with the messages on their way to the reader, from the reader, and to the writer. */
  datatype Mapper = Mapper(pc: Pc, output: seq<seq<Entry>>, requests: nat, inbox: seq<ToMapper>, outbox: seq<ToWriter>)

  datatype State = State(position: nat, reader: Reader, mappers: seq<Mapper>, writer: Writer, files: seq<seq<Entry>>)

  /** The steps of the processes. */
  datatype Step =
    | ReadBlock | TakeRequest(m: nat) | SendReply
    | Request(m: nat) | Receive(m: nat) | MapOne(m: nat) | Send(m: nat)
    | WriterTake(m: nat) | WriterBlock

  function Init(c: Config): (s: State) {
    State(0, Reading, seq(c.mappers, _ => Mapper(Requesting, seq(c.slots, _ => []), 0, [], [])), Idle(0),
      seq(c.slots, _ => []))
  }

  /** The message that a mapper is about to send to the writer. */
  function Outgoing(c: Config, p: Mapper): (msg: ToWriter)
    requires SendsToWriter(p.pc)
  {
    match p.pc
    case FullKey(slot, _) => Key(slot)
    case FullBlock(slot, _) => Hashes(if slot < |p.output| then p.output[slot] else [])
    case FlushKey(slot) => if slot < c.slots then Key(slot) else End
    case FlushBlock(slot) => Hashes(if slot < |p.output| then p.output[slot] else [])
  }

  predicate SendsToWriter(pc: Pc) {
    pc.FullKey? || pc.FullBlock? || pc.FlushKey? || pc.FlushBlock?
  }

  /** The mapper after that message has been sent. */
  function Sent(c: Config, p: Mapper): (p': Mapper)
    requires SendsToWriter(p.pc)
  {
    var q := p.(outbox := p.outbox + [Outgoing(c, p)]);
    match p.pc
    case FullKey(slot, todo) => q.(pc := FullBlock(slot, todo))
    case FullBlock(slot, todo) => Emptied(q, slot).(pc := Mapping(todo))
    case FlushKey(slot) => q.(pc := if slot < c.slots then FlushBlock(slot) else Done)
    case FlushBlock(slot) => Emptied(q, slot).(pc := FlushKey(slot + 1))
  }

  function Emptied(p: Mapper, slot: nat): (p': Mapper) {
    if slot < |p.output| then p.(output := p.output[slot := []]) else p
  }

  /** The next preimage of a mapper is hashed, and its entry goes into a buffer. */
  function Mapped(c: Config, p: Mapper): (p': Mapper)
    requires p.pc.Mapping?
  {
    if p.pc.todo == [] then p.(pc := Requesting) else
    var rest := p.pc.todo[1..];
    match c.place(p.pc.todo[0])
    case Invalid => p.(pc := Mapping(rest))
    case Placed(slot, e) =>
      if slot >= |p.output| then p.(pc := Mapping(rest)) else
      var output := p.output[slot := p.output[slot] + [e]];
      p.(output := output, pc := if |output[slot]| == WRITER_BUFFER_SIZE then FullKey(slot, rest) else Mapping(rest))
  }

  /** The reader waits for a request from any mapper. */
  predicate ReaderListens(c: Config, r: Reader) {
    r.Holding? || (r.Ending? && r.sent < c.mappers)
  }

  /** The writer waits for a message from mapper m. */
  predicate WriterListens(c: Config, w: Writer, m: nat) {
    (w.Idle? && w.eofs < c.mappers) || (w.Expecting? && w.from == m)
  }

  ghost predicate Enabled(c: Config, s: State, step: Step) {
    match step
    case ReadBlock => s.reader.Reading?
    case TakeRequest(m) => ReaderListens(c, s.reader) && m < |s.mappers| && s.mappers[m].requests > 0
    case SendReply =>
      && (s.reader.Sending? || s.reader.SendingEof?) && s.reader.to < |s.mappers|
      && var p := s.mappers[s.reader.to]; |p.inbox| < c.capacity || (p.inbox == [] && p.pc.Waiting?)
    case Request(m) =>
      && m < |s.mappers| && s.mappers[m].pc.Requesting?
      && (s.mappers[m].requests < c.capacity || (s.mappers[m].requests == 0 && ReaderListens(c, s.reader)))
    case Receive(m) => m < |s.mappers| && s.mappers[m].pc.Waiting? && s.mappers[m].inbox != []
    case MapOne(m) => m < |s.mappers| && s.mappers[m].pc.Mapping?
    case Send(m) =>
      && m < |s.mappers| && SendsToWriter(s.mappers[m].pc)
      && (|s.mappers[m].outbox| < c.capacity || (s.mappers[m].outbox == [] && WriterListens(c, s.writer, m)))
    case WriterTake(m) => s.writer.Idle? && s.writer.eofs < c.mappers && m < |s.mappers| && s.mappers[m].outbox != []
    case WriterBlock => s.writer.Expecting? && s.writer.from < |s.mappers| && HasHashes(s.mappers[s.writer.from].outbox)
  }

  predicate HasHashes(msgs: seq<ToWriter>) {
    msgs != [] && (msgs[0].Hashes? || HasHashes(msgs[1..]))
  }

  /** The place of the first block of hashes: the writer receives by tag. */
  function FirstHashes(msgs: seq<ToWriter>): (i: nat)
    requires HasHashes(msgs)
    ensures i < |msgs| && msgs[i].Hashes?
  {
    if msgs[0].Hashes? then 0 else 1 + FirstHashes(msgs[1..])
  }

  /** fread: the number of preimages in the next block. */
  function BlockSize(left: nat): (n: nat) {
    if left < READER_BUFFER_SIZE then left else READER_BUFFER_SIZE
  }

  function Next(c: Config, s: State, step: Step): (s': State)
    requires Enabled(c, s, step)
  {
    match step
    case ReadBlock =>
      if s.position >= |c.input| then s.(reader := Ending(0)) else
      var n := BlockSize(|c.input| - s.position);
      s.(position := s.position + n, reader := Holding(c.input[s.position..s.position + n]))
    case TakeRequest(m) =>
      var p := s.mappers[m];
      s.(mappers := s.mappers[m := p.(requests := p.requests - 1)],
         reader := if s.reader.Holding? then Sending(s.reader.block, m) else SendingEof(s.reader.sent, m))
    case SendReply =>
      var m := s.reader.to;
      var p := s.mappers[m];
      var msg := if s.reader.Sending? then Nonces(s.reader.block) else NoMore;
      s.(mappers := s.mappers[m := p.(inbox := p.inbox + [msg])],
         reader := if s.reader.Sending? then Reading else Ending(s.reader.sent + 1))
    case Request(m) =>
      var p := s.mappers[m];
      s.(mappers := s.mappers[m := p.(pc := Waiting, requests := p.requests + 1)])
    case Receive(m) =>
      var p := s.mappers[m];
      s.(mappers := s.mappers[m := p.(inbox := p.inbox[1..], pc := if p.inbox[0].Nonces? then Mapping(p.inbox[0].block)
        else FlushKey(0))])
    case MapOne(m) => s.(mappers := s.mappers[m := Mapped(c, s.mappers[m])])
    case Send(m) => s.(mappers := s.mappers[m := Sent(c, s.mappers[m])])
    case WriterTake(m) =>
      var p := s.mappers[m];
      s.(mappers := s.mappers[m := p.(outbox := p.outbox[1..])],
         writer := match p.outbox[0]
                   case End => Idle(s.writer.eofs + 1)
                   case Key(slot) => Expecting(s.writer.eofs, slot, m)
                   case Hashes(_) => Confused)
    case WriterBlock =>
      var m := s.writer.from;
      var p := s.mappers[m];
      var i := FirstHashes(p.outbox);
      s.(mappers := s.mappers[m := p.(outbox := p.outbox[..i] + p.outbox[i + 1..])],
         writer := if s.writer.slot < |s.files| then Idle(s.writer.eofs) else Confused,
         files := if s.writer.slot < |s.files| then s.files[s.writer.slot :=
           s.files[s.writer.slot] + p.outbox[i].block] else s.files)
  }

  /** All the processes have finished. */
  predicate Final(c: Config, s: State) {
    s.reader == Ending(c.mappers) && (forall m | 0 <= m < |s.mappers| :: s.mappers[m].pc == Done)
      && s.writer == Idle(c.mappers)
  }
}
