/** What the processes of the splitter keep, whatever the order of their steps. */
module SplitterProofs {
  import opened LoserTree
  import opened Splitter

  // One mapper.

  /** The key that the writer has taken from mapper m, and whose block it still expects. */
  ghost function Held(w: Writer, m: nat): (msgs: seq<ToWriter>) {
    if w.Expecting? && w.from == m then [Key(w.slot)] else []
  }

  /** The reader is about to answer mapper m. */
  ghost function Addressed(r: Reader, m: nat): (n: nat) {
    if (r.Sending? || r.SendingEof?) && r.to == m then 1 else 0
  }

  ghost predicate SendsBlock(pc: Pc) {
    pc.FullBlock? || pc.FlushBlock?
  }

  /** The messages to the writer that are not dealt with, including the block that belongs to a key already sent. */
  ghost function Whole(c: Config, p: Mapper, held: seq<ToWriter>): (msgs: seq<ToWriter>) {
    held + p.outbox + if SendsBlock(p.pc) then [Outgoing(c, p)] else []
  }

  lemma OutboxInWhole(c: Config, p: Mapper, held: seq<ToWriter>)
    ensures |Whole(c, p, held)| >= |p.outbox|
  {
  }

  /** Every key is followed by its block of hashes, and the end, if any, comes last. */
  ghost predicate Paired(c: Config, msgs: seq<ToWriter>, ends: bool) {
    if msgs == [] then !ends else
    if msgs[0].End? then ends && |msgs| == 1 else
    && |msgs| >= 2 && msgs[0].Key? && msgs[0].slot < c.slots && msgs[1].Hashes? && |msgs[1].block| <= WRITER_BUFFER_SIZE
    && Paired(c, msgs[2..], ends)
  }

  ghost predicate BuffersOk(c: Config, p: Mapper) {
    && |p.output| == c.slots
    && (forall k | 0 <= k < c.slots ::
          || |p.output[k]| < WRITER_BUFFER_SIZE
          || (p.pc.FullKey? && p.pc.slot == k && |p.output[k]| == WRITER_BUFFER_SIZE)
          || (p.pc.FullBlock? && p.pc.slot == k && |p.output[k]| == WRITER_BUFFER_SIZE))
    && match p.pc
       case FullKey(slot, _) => slot < c.slots
       case FullBlock(slot, _) => slot < c.slots
       case FlushKey(slot) => slot <= c.slots && forall k | 0 <= k < slot :: p.output[k] == []
       case FlushBlock(slot) => slot < c.slots && forall k | 0 <= k < slot :: p.output[k] == []
       case Done => forall k | 0 <= k < c.slots :: p.output[k] == []
       case _ => true
  }

  /** A mapper that waits has exactly one request, answer or answer-to-be under way; the others have none. */
  ghost predicate TalkOk(p: Mapper, addressed: nat) {
    && p.requests + |p.inbox| + addressed == (if p.pc.Waiting? then 1 else 0)
    && forall i | 0 <= i < |p.inbox| :: p.inbox[i].Nonces? ==> |p.inbox[i].block| <= READER_BUFFER_SIZE
  }

  ghost predicate MailOk(c: Config, p: Mapper, held: seq<ToWriter>) {
    var msgs := Whole(c, p, held);
    if p.pc.Done? then msgs == [] || Paired(c, msgs, true) else Paired(c, msgs, false)
  }

  ghost predicate MapperOk(c: Config, p: Mapper, held: seq<ToWriter>, addressed: nat) {
    BuffersOk(c, p) && TalkOk(p, addressed) && MailOk(c, p, held)
  }

  lemma {:induction false} PairedPair(c: Config, msgs: seq<ToWriter>, slot: nat, block: seq<Entry>)
    requires Paired(c, msgs, false) && slot < c.slots && |block| <= WRITER_BUFFER_SIZE
    ensures Paired(c, msgs + [Key(slot), Hashes(block)], false)
  {
    if msgs == [] {
      assert [Key(slot), Hashes(block)][2..] == [];
    } else {
      PairedPair(c, msgs[2..], slot, block);
      assert (msgs + [Key(slot), Hashes(block)])[2..] == msgs[2..] + [Key(slot), Hashes(block)];
    }
  }

  lemma {:induction false} PairedEnd(c: Config, msgs: seq<ToWriter>)
    requires Paired(c, msgs, false)
    ensures Paired(c, msgs + [End], true)
  {
    if msgs != [] {
      PairedEnd(c, msgs[2..]);
      assert (msgs + [End])[2..] == msgs[2..] + [End];
    }
  }

  /** What a mapper adds to its messages when it starts to send: a key with its block, or the end. */
  ghost function Begun(c: Config, p: Mapper): (msgs: seq<ToWriter>)
    requires BuffersOk(c, p) && SendsToWriter(p.pc)
  {
    if SendsBlock(p.pc) then [] else if p.pc == FlushKey(c.slots) then [End]
      else [Key(p.pc.slot), Hashes(p.output[p.pc.slot])]
  }

  lemma SentWhole(c: Config, p: Mapper, held: seq<ToWriter>)
    requires BuffersOk(c, p) && SendsToWriter(p.pc)
    ensures Whole(c, Sent(c, p), held) == Whole(c, p, held) + Begun(c, p)
  {
  }

  lemma SentMail(c: Config, p: Mapper, held: seq<ToWriter>)
    requires BuffersOk(c, p) && MailOk(c, p, held) && SendsToWriter(p.pc)
    ensures MailOk(c, Sent(c, p), held)
  {
    SentWhole(c, p, held);
    if SendsBlock(p.pc) {
      assert Whole(c, p, held) + [] == Whole(c, p, held);
    } else if p.pc == FlushKey(c.slots) {
      PairedEnd(c, Whole(c, p, held));
    } else {
      PairedPair(c, Whole(c, p, held), p.pc.slot, p.output[p.pc.slot]);
    }
  }

  /** A mapper that sends a message keeps its invariant. */
  lemma SendKeeps(c: Config, p: Mapper, held: seq<ToWriter>, addressed: nat)
    requires MapperOk(c, p, held, addressed) && SendsToWriter(p.pc)
    ensures MapperOk(c, Sent(c, p), held, addressed)
  {
    SentMail(c, p, held);
  }

  lemma MapKeeps(c: Config, p: Mapper, held: seq<ToWriter>, addressed: nat)
    requires MapperOk(c, p, held, addressed) && p.pc.Mapping?
    ensures MapperOk(c, Mapped(c, p), held, addressed)
  {
    assert Whole(c, Mapped(c, p), held) == Whole(c, p, held);
  }

  /** The messages that the writer finds: the first one is a key or the end, and after a key comes its block. */
  lemma WriterFinds(c: Config, p: Mapper, held: seq<ToWriter>)
    requires MailOk(c, p, held) && p.outbox != [] && |held| <= 1 && (held != [] ==> held[0].Key?)
    ensures if held == [] then !p.outbox[0].Hashes?
            else p.outbox[0].Hashes? && |p.outbox[0].block| <= WRITER_BUFFER_SIZE
    ensures held == [] && p.outbox[0].Key? ==> p.outbox[0].slot < c.slots
    ensures held == [] && p.outbox[0].End? ==> p.pc.Done? && Whole(c, p, held) == [End] && p.outbox == [End]
  {
    var msgs := Whole(c, p, held);
    assert msgs[|held|] == p.outbox[0];
  }

  // The whole system.

  ghost predicate ReaderOk(c: Config, s: State) {
    && s.position <= |c.input|
    && match s.reader
       case Reading => true
       case Holding(block) => |block| <= READER_BUFFER_SIZE
       case Sending(block, to) => |block| <= READER_BUFFER_SIZE && to < c.mappers
       case Ending(sent) => sent <= c.mappers && s.position == |c.input|
       case SendingEof(sent, to) => sent < c.mappers && s.position == |c.input| && to < c.mappers
  }

  ghost predicate WriterOk(c: Config, w: Writer) {
    match w
    case Idle(_) => true
    case Expecting(_, slot, from) => slot < c.slots && from < c.mappers
    case Confused => false
  }

  /** No message is taken for another one, and no buffer overflows. */
  ghost predicate Ok(c: Config, s: State) {
    && |s.mappers| == c.mappers && |s.files| == c.slots && ReaderOk(c, s) && WriterOk(c, s.writer)
    && forall m | 0 <= m < c.mappers :: MapperOk(c, s.mappers[m], Held(s.writer, m), Addressed(s.reader, m))
  }

  /** The mapper that takes part in a step. */
  ghost function Active(s: State, step: Step): (m: nat) {
    match step
    case ReadBlock => |s.mappers|
    case SendReply => if s.reader.Sending? || s.reader.SendingEof? then s.reader.to else |s.mappers|
    case WriterBlock => if s.writer.Expecting? then s.writer.from else |s.mappers|
    case TakeRequest(m) => m
    case Request(m) => m
    case Receive(m) => m
    case MapOne(m) => m
    case Send(m) => m
    case WriterTake(m) => m
  }

  /** The other mappers do not notice a step. */
  lemma OthersKept(c: Config, s: State, step: Step, i: nat)
    requires Enabled(c, s, step) && i < |s.mappers| && i != Active(s, step)
    ensures var s' := Next(c, s, step);
      |s'.mappers| == |s.mappers| && s'.mappers[i] == s.mappers[i] && Held(s'.writer, i) == Held(s.writer, i)
        && Addressed(s'.reader, i) == Addressed(s.reader, i)
  {
  }

  lemma TalkStep(c: Config, s: State, step: Step)
    requires Ok(c, s) && Enabled(c, s, step) && (step.TakeRequest? || step.SendReply? || step.Request? || step.Receive?)
    ensures var s' := Next(c, s, step); var m := Active(s, step);
      m < c.mappers && |s'.mappers| == c.mappers && MapperOk(c, s'.mappers[m], Held(s'.writer, m),
        Addressed(s'.reader, m))
  {
    var m := Active(s, step);
    var p, p' := s.mappers[m], Next(c, s, step).mappers[m];
    assert MapperOk(c, p, Held(s.writer, m), Addressed(s.reader, m));
    assert Whole(c, p', Held(s.writer, m)) == Whole(c, p, Held(s.writer, m));
  }

  lemma MailStep(c: Config, s: State, step: Step)
    requires Ok(c, s) && Enabled(c, s, step) && (step.MapOne? || step.Send?)
    ensures var s' := Next(c, s, step); var m := Active(s, step);
      m < c.mappers && |s'.mappers| == c.mappers && MapperOk(c, s'.mappers[m], Held(s'.writer, m),
        Addressed(s'.reader, m))
  {
    var m := Active(s, step);
    assert MapperOk(c, s.mappers[m], Held(s.writer, m), Addressed(s.reader, m));
    if step.MapOne? {
      MapKeeps(c, s.mappers[m], Held(s.writer, m), Addressed(s.reader, m));
    } else {
      SendKeeps(c, s.mappers[m], Held(s.writer, m), Addressed(s.reader, m));
    }
  }

  /** The writer takes the key or the end. */
  lemma TakeStep(c: Config, s: State, m: nat)
    requires Ok(c, s) && Enabled(c, s, WriterTake(m))
    ensures var s' := Next(c, s, WriterTake(m)); var p, p' := s.mappers[m], s'.mappers[m];
      && m < c.mappers && WriterOk(c, s'.writer) && MapperOk(c, p', Held(s'.writer, m), Addressed(s'.reader, m))
      && if p.outbox[0].Key? then Whole(c, p', Held(s'.writer, m)) == Whole(c, p, Held(s.writer, m))
         else
           && p.pc.Done? && s'.writer == Idle(s.writer.eofs + 1)
           && Whole(c, p, Held(s.writer, m)) == [End] && Whole(c, p', Held(s'.writer, m)) == []
  {
    var p, s' := s.mappers[m], Next(c, s, WriterTake(m));
    assert MapperOk(c, p, Held(s.writer, m), Addressed(s.reader, m));
    WriterFinds(c, p, []);
    if p.outbox[0].Key? {
      assert Whole(c, s'.mappers[m], Held(s'.writer, m)) == Whole(c, p, []);
    }
  }

  lemma DropPair<T>(k: T, o: seq<T>, t: seq<T>)
    requires o != []
    ensures [k] + o + t == [k, o[0]] + ([] + o[1..] + t) && ([k] + o + t)[2..] == [] + o[1..] + t
      && o[..0] + o[1..] == o[1..]
  {
    assert o == [o[0]] + o[1..];
  }

  /** A block that is received by tag is the first message, and belongs to the key that was taken. */
  lemma BlockIsNext(c: Config, p: Mapper, slot: nat, p': Mapper)
    requires MailOk(c, p, [Key(slot)]) && HasHashes(p.outbox)
      && p' == p.(outbox := p.outbox[..FirstHashes(p.outbox)] + p.outbox[FirstHashes(p.outbox) + 1..])
    ensures p.outbox[0].Hashes? && FirstHashes(p.outbox) == 0 && slot < c.slots
    ensures MailOk(c, p', []) && Whole(c, p, [Key(slot)]) == [Key(slot), p.outbox[0]] + Whole(c, p', [])
  {
    WriterFinds(c, p, [Key(slot)]);
    var tail := if SendsBlock(p.pc) then [Outgoing(c, p)] else [];
    DropPair(Key(slot), p.outbox, tail);
  }

  /** The writer takes the block that belongs to the key it has taken. */
  lemma BlockStep(c: Config, s: State)
    requires Ok(c, s) && Enabled(c, s, WriterBlock)
    ensures var s' := Next(c, s, WriterBlock); var m := s.writer.from; var p, p' := s.mappers[m], s'.mappers[m];
      && m < c.mappers && s'.writer == Idle(s.writer.eofs) && MapperOk(c, p', Held(s'.writer, m),
        Addressed(s'.reader, m))
      && p.outbox[0].Hashes? && s.writer.slot < c.slots
      && s'.files == s.files[s.writer.slot := s.files[s.writer.slot] + p.outbox[0].block]
      && Whole(c, p, Held(s.writer, m)) == [Key(s.writer.slot), p.outbox[0]] + Whole(c, p', Held(s'.writer, m))
  {
    var m := s.writer.from;
    assert MapperOk(c, s.mappers[m], Held(s.writer, m), Addressed(s.reader, m));
    BlockIsNext(c, s.mappers[m], s.writer.slot, Next(c, s, WriterBlock).mappers[m]);
  }

  /** The other mappers do not notice a step, and keep their invariant. */
  lemma OkAround(c: Config, s: State, step: Step)
    requires Ok(c, s) && Enabled(c, s, step)
    ensures |Next(c, s, step).mappers| == c.mappers
    ensures var s' := Next(c, s, step);
      forall i | 0 <= i < c.mappers && i != Active(s, step) ::
        MapperOk(c, s'.mappers[i], Held(s'.writer, i), Addressed(s'.reader, i))
  {
    var s' := Next(c, s, step);
    forall i | 0 <= i < c.mappers && i != Active(s, step)
      ensures MapperOk(c, s'.mappers[i], Held(s'.writer, i), Addressed(s'.reader, i))
    {
      OthersKept(c, s, step, i);
      assert MapperOk(c, s.mappers[i], Held(s.writer, i), Addressed(s.reader, i));
    }
  }

  lemma ReaderKept(c: Config, s: State, step: Step)
    requires Ok(c, s) && Enabled(c, s, step)
    ensures ReaderOk(c, Next(c, s, step))
  {
  }

  lemma ActiveKept(c: Config, s: State, step: Step)
    requires GoodConfig(c) && Ok(c, s) && Enabled(c, s, step)
    ensures WriterOk(c, Next(c, s, step).writer) && |Next(c, s, step).files| == c.slots
    ensures var s', m := Next(c, s, step), Active(s, step);
      m < |s'.mappers| ==> MapperOk(c, s'.mappers[m], Held(s'.writer, m), Addressed(s'.reader, m))
  {
    match step
    case ReadBlock =>
    case WriterTake(m) => TakeStep(c, s, m);
    case WriterBlock => BlockStep(c, s);
    case MapOne(m) => MailStep(c, s, step);
    case Send(m) => MailStep(c, s, step);
    case _ => TalkStep(c, s, step);
  }

  /** Every step keeps the invariant. */
  lemma OkKept(c: Config, s: State, step: Step)
    requires GoodConfig(c) && Ok(c, s) && Enabled(c, s, step)
    ensures Ok(c, Next(c, s, step))
  {
    var s' := Next(c, s, step);
    OkAround(c, s, step);
    ReaderKept(c, s, step);
    ActiveKept(c, s, step);
    forall m | 0 <= m < c.mappers
      ensures MapperOk(c, s'.mappers[m], Held(s'.writer, m), Addressed(s'.reader, m))
    {
    }
  }

  // Conservation: every valid preimage becomes one entry of its slot.

  /** A slot, and an entry that is counted in it. */
  datatype Where = Where(slot: nat, entry: Entry)

  /** How often the entry occurs in a block for slot k. */
  ghost function InBlock(block: seq<Entry>, k: nat, w: Where): (n: nat) {
    if k == w.slot then multiset(block)[w.entry] else 0
  }

  /** How often the entry is the placement of a preimage. */
  ghost function Count(c: Config, ps: seq<Preimage>, w: Where): (n: nat) {
    if ps == [] then 0 else Count(c, ps[1..], w) + if c.place(ps[0]) == Placed(w.slot, w.entry) then 1 else 0
  }

  lemma {:induction false} CountConcat(c: Config, ps: seq<Preimage>, qs: seq<Preimage>, w: Where)
    ensures Count(c, ps + qs, w) == Count(c, ps, w) + Count(c, qs, w)
  {
    if ps == [] {
      assert ps + qs == qs;
    } else {
      CountConcat(c, ps[1..], qs, w);
      assert (ps + qs)[1..] == ps[1..] + qs;
    }
  }

  /** How often the entry occurs in paired messages. */
  ghost function Mailed(msgs: seq<ToWriter>, w: Where): (n: nat) {
    if |msgs| < 2 || !msgs[0].Key? || !msgs[1].Hashes? then 0 else
    Mailed(msgs[2..], w) + InBlock(msgs[1].block, msgs[0].slot, w)
  }

  lemma {:induction false} MailedPair(c: Config, msgs: seq<ToWriter>, slot: nat, block: seq<Entry>, w: Where)
    requires Paired(c, msgs, false)
    ensures Mailed(msgs + [Key(slot), Hashes(block)], w) == Mailed(msgs, w) + InBlock(block, slot, w)
  {
    var pair := [Key(slot), Hashes(block)];
    if msgs == [] {
      assert pair[2..] == [];
    } else {
      MailedPair(c, msgs[2..], slot, block, w);
      assert (msgs + pair)[2..] == msgs[2..] + pair;
    }
  }

  lemma {:induction false} MailedEnd(c: Config, msgs: seq<ToWriter>, w: Where)
    requires Paired(c, msgs, false)
    ensures Mailed(msgs + [End], w) == Mailed(msgs, w)
  {
    if msgs != [] {
      MailedEnd(c, msgs[2..], w);
      assert (msgs + [End])[2..] == msgs[2..] + [End];
    }
  }

  /** The preimages that a mapper has to map. */
  ghost function Todo(pc: Pc): (ps: seq<Preimage>) {
    match pc
    case Mapping(todo) => todo
    case FullKey(_, todo) => todo
    case FullBlock(_, todo) => todo
    case _ => []
  }

  ghost function Received(inbox: seq<ToMapper>): (ps: seq<Preimage>) {
    if inbox != [] && inbox[0].Nonces? then inbox[0].block else []
  }

  ghost function InBuffers(output: seq<seq<Entry>>, w: Where): (n: nat) {
    if w.slot < |output| then multiset(output[w.slot])[w.entry] else 0
  }

  lemma InBuffersAdd(output: seq<seq<Entry>>, slot: nat, e: Entry, w: Where)
    requires slot < |output|
    ensures InBuffers(output[slot := output[slot] + [e]], w) == InBuffers(output, w) + if w == Where(slot, e) then 1
      else 0
  {
    assert multiset(output[slot] + [e])[w.entry] == multiset(output[slot])[w.entry] + if e == w.entry then 1 else 0;
  }

  /** How often the entry occurs in the buffer of a mapper, unless the block is being sent. */
  ghost function Buffered(p: Mapper, w: Where): (n: nat) {
    if SendsBlock(p.pc) && p.pc.slot == w.slot then 0 else InBuffers(p.output, w)
  }

  /** How often the entry occurs in what a mapper is responsible for. */
  ghost function Carried(c: Config, p: Mapper, held: seq<ToWriter>, w: Where): (n: nat) {
    Count(c, Todo(p.pc), w) + Count(c, Received(p.inbox), w) + Buffered(p, w) + Mailed(Whole(c, p, held), w)
  }

  lemma SentMailed(c: Config, p: Mapper, held: seq<ToWriter>, w: Where)
    requires BuffersOk(c, p) && MailOk(c, p, held) && SendsToWriter(p.pc)
    ensures Mailed(Whole(c, Sent(c, p), held), w)
         == Mailed(Whole(c, p, held), w) + if SendsBlock(p.pc) || p.pc == FlushKey(c.slots) then 0
           else InBlock(p.output[p.pc.slot], p.pc.slot, w)
  {
    SentWhole(c, p, held);
    if SendsBlock(p.pc) {
      assert Whole(c, p, held) + [] == Whole(c, p, held);
    } else if p.pc == FlushKey(c.slots) {
      MailedEnd(c, Whole(c, p, held), w);
    } else {
      MailedPair(c, Whole(c, p, held), p.pc.slot, p.output[p.pc.slot], w);
    }
  }

  lemma SendCarries(c: Config, p: Mapper, held: seq<ToWriter>, addressed: nat, w: Where)
    requires MapperOk(c, p, held, addressed) && SendsToWriter(p.pc)
    ensures Carried(c, Sent(c, p), held, w) == Carried(c, p, held, w)
  {
    SentMailed(c, p, held, w);
  }

  lemma MapBuffers(c: Config, p: Mapper, addressed: nat, w: Where)
    requires GoodConfig(c) && BuffersOk(c, p) && TalkOk(p, addressed) && p.pc.Mapping? && p.pc.todo != []
    ensures Buffered(Mapped(c, p), w) == Buffered(p, w) + if c.place(p.pc.todo[0]) == Placed(w.slot, w.entry) then 1
      else 0
  {
    var e := c.place(p.pc.todo[0]);
    if e.Placed? {
      InBuffersAdd(p.output, e.slot, e.entry, w);
    }
  }

  lemma MapTodo(c: Config, p: Mapper, addressed: nat, w: Where)
    requires BuffersOk(c, p) && TalkOk(p, addressed) && p.pc.Mapping? && p.pc.todo != []
    ensures Count(c, Todo(p.pc), w) == Count(c, Todo(Mapped(c, p).pc), w) + if c.place(p.pc.todo[0])
      == Placed(w.slot, w.entry) then 1 else 0
  {
    assert Todo(Mapped(c, p).pc) == Todo(p.pc)[1..];
  }

  lemma MapWhole(c: Config, p: Mapper, held: seq<ToWriter>)
    requires p.pc.Mapping?
    ensures Whole(c, Mapped(c, p), held) == Whole(c, p, held) && Mapped(c, p).inbox == p.inbox
  {
  }

  lemma MapCarries(c: Config, p: Mapper, held: seq<ToWriter>, addressed: nat, w: Where)
    requires GoodConfig(c) && BuffersOk(c, p) && TalkOk(p, addressed) && p.pc.Mapping?
    ensures Carried(c, Mapped(c, p), held, w) == Carried(c, p, held, w)
  {
    MapWhole(c, p, held);
    if p.pc.todo != [] {
      MapBuffers(c, p, addressed, w);
      MapTodo(c, p, addressed, w);
    }
  }

  ghost function Sum(xs: seq<nat>): (n: nat) {
    if xs == [] then 0 else Sum(xs[..|xs| - 1]) + xs[|xs| - 1]
  }

  lemma {:induction false} SumUpdate(xs: seq<nat>, i: nat, x: nat)
    requires i < |xs|
    ensures Sum(xs[i := x]) + xs[i] == Sum(xs) + x
  {
    var n := |xs| - 1;
    if i == n {
      assert xs[i := x][..n] == xs[..n];
    } else {
      SumUpdate(xs[..n], i, x);
      assert xs[i := x][..n] == xs[..n][i := x];
    }
  }

  lemma {:induction false} SumZero(xs: seq<nat>)
    ensures Sum(xs) == 0 <==> forall i | 0 <= i < |xs| :: xs[i] == 0
  {
    if xs != [] {
      SumZero(xs[..|xs| - 1]);
      assert forall i | 0 <= i < |xs| - 1 :: xs[i] == xs[..|xs| - 1][i];
    }
  }

  /** The loads of the mappers. */
  ghost function Loads(c: Config, s: State, w: Where): (ns: seq<nat>)
    ensures |ns| == |s.mappers|
  {
    seq(|s.mappers|, m requires 0 <= m < |s.mappers| => Carried(c, s.mappers[m], Held(s.writer, m), w))
  }

  ghost function ReaderHas(r: Reader): (ps: seq<Preimage>) {
    match r
    case Holding(block) => block
    case Sending(block, _) => block
    case _ => []
  }

  /** How often the entry occurs in the files, under way, and among the preimages still to be read. */
  ghost function Account(c: Config, s: State, w: Where): (n: nat)
    requires s.position <= |c.input|
  {
    InBuffers(s.files, w) + Sum(Loads(c, s, w)) + Count(c, ReaderHas(s.reader), w) + Count(c, c.input[s.position..], w)
  }

  lemma ReadLoads(c: Config, s: State, w: Where)
    requires Ok(c, s) && s.reader.Reading?
    ensures Loads(c, Next(c, s, ReadBlock), w) == Loads(c, s, w)
  {
  }

  lemma ReadInput(c: Config, from: nat, n: nat, w: Where)
    requires from + n <= |c.input|
    ensures Count(c, c.input[from..], w) == Count(c, c.input[from..from + n], w) + Count(c, c.input[from + n..], w)
  {
    assert c.input[from..] == c.input[from..from + n] + c.input[from + n..];
    CountConcat(c, c.input[from..from + n], c.input[from + n..], w);
  }

  lemma ReadReader(c: Config, s: State, w: Where)
    requires Ok(c, s) && s.reader.Reading?
    ensures var s' := Next(c, s, ReadBlock);
      && ReaderOk(c, s') && s'.files == s.files
      && Count(c, ReaderHas(s'.reader), w) + Count(c, c.input[s'.position..], w) == Count(c, ReaderHas(s.reader), w)
        + Count(c, c.input[s.position..], w)
  {
    if s.position < |c.input| {
      ReadInput(c, s.position, BlockSize(|c.input| - s.position), w);
    }
  }

  lemma ReadAccount(c: Config, s: State, w: Where)
    requires Ok(c, s) && s.reader.Reading?
    ensures ReaderOk(c, Next(c, s, ReadBlock)) && Account(c, Next(c, s, ReadBlock), w) == Account(c, s, w)
  {
    ReadLoads(c, s, w);
    ReadReader(c, s, w);
  }

  /** What a mapper, the reader and the files hold between them does not change when the mapper takes a step with one
      of them. */
  ghost predicate Exchange(c: Config, s: State, s': State, m: nat, w: Where) {
    && m < |s.mappers| == |s'.mappers|
    && Carried(c, s'.mappers[m], Held(s'.writer, m), w) + InBuffers(s'.files, w) + Count(c, ReaderHas(s'.reader), w)
       == Carried(c, s.mappers[m], Held(s.writer, m), w) + InBuffers(s.files, w) + Count(c, ReaderHas(s.reader), w)
  }

  lemma TalkExchange(c: Config, s: State, step: Step, w: Where)
    requires Ok(c, s) && Enabled(c, s, step) && (step.TakeRequest? || step.SendReply? || step.Request? || step.Receive?)
    ensures Exchange(c, s, Next(c, s, step), Active(s, step), w)
  {
    var m := Active(s, step);
    assert MapperOk(c, s.mappers[m], Held(s.writer, m), Addressed(s.reader, m));
    if step.TakeRequest? || step.SendReply? {
      ReaderExchange(c, s, step, m, w);
    } else {
      MapperExchange(c, s, step, m, w);
    }
  }

  lemma ReaderExchange(c: Config, s: State, step: Step, m: nat, w: Where)
    requires m < c.mappers == |s.mappers| && MapperOk(c, s.mappers[m], Held(s.writer, m), Addressed(s.reader, m))
    requires Enabled(c, s, step) && (step.TakeRequest? || step.SendReply?) && m == Active(s, step)
    ensures Exchange(c, s, Next(c, s, step), m, w)
  {
    var p, p' := s.mappers[m], Next(c, s, step).mappers[m];
    assert Whole(c, p', Held(s.writer, m)) == Whole(c, p, Held(s.writer, m));
  }

  lemma MapperExchange(c: Config, s: State, step: Step, m: nat, w: Where)
    requires m < c.mappers == |s.mappers| && MapperOk(c, s.mappers[m], Held(s.writer, m), Addressed(s.reader, m))
    requires Enabled(c, s, step) && (step.Request? || step.Receive?) && m == Active(s, step)
    ensures Exchange(c, s, Next(c, s, step), m, w)
  {
    var p, p' := s.mappers[m], Next(c, s, step).mappers[m];
    assert Whole(c, p', Held(s.writer, m)) == Whole(c, p, Held(s.writer, m));
  }

  lemma TakeExchange(c: Config, s: State, m: nat, w: Where)
    requires Ok(c, s) && Enabled(c, s, WriterTake(m))
    ensures Exchange(c, s, Next(c, s, WriterTake(m)), m, w)
  {
    TakeStep(c, s, m);
  }

  lemma FileGrows(files: seq<seq<Entry>>, slot: nat, block: seq<Entry>, w: Where)
    requires slot < |files|
    ensures InBuffers(files[slot := files[slot] + block], w) == InBuffers(files, w) + InBlock(block, slot, w)
  {
    assert multiset(files[slot] + block)[w.entry] == multiset(files[slot])[w.entry] + multiset(block)[w.entry];
  }

  lemma BlockExchange(c: Config, s: State, w: Where)
    requires Ok(c, s) && Enabled(c, s, WriterBlock)
    ensures Exchange(c, s, Next(c, s, WriterBlock), s.writer.from, w)
  {
    BlockStep(c, s);
    var m := s.writer.from;
    var block := s.mappers[m].outbox[0].block;
    FileGrows(s.files, s.writer.slot, block, w);
    var whole := Whole(c, s.mappers[m], Held(s.writer, m));
    assert whole[2..] == Whole(c, Next(c, s, WriterBlock).mappers[m], []);
  }

  lemma MailExchange(c: Config, s: State, step: Step, w: Where)
    requires GoodConfig(c) && Ok(c, s) && Enabled(c, s, step) && (step.MapOne? || step.Send?)
    ensures Exchange(c, s, Next(c, s, step), Active(s, step), w)
  {
    var m := Active(s, step);
    assert MapperOk(c, s.mappers[m], Held(s.writer, m), Addressed(s.reader, m));
    if step.MapOne? {
      MapCarries(c, s.mappers[m], Held(s.writer, m), Addressed(s.reader, m), w);
    } else {
      SendCarries(c, s.mappers[m], Held(s.writer, m), Addressed(s.reader, m), w);
    }
  }

  lemma ExchangeAccount(c: Config, s: State, step: Step, w: Where)
    requires Ok(c, s) && Enabled(c, s, step) && step != ReadBlock
      && Exchange(c, s, Next(c, s, step), Active(s, step), w)
    ensures ReaderOk(c, Next(c, s, step)) && Account(c, Next(c, s, step), w) == Account(c, s, w)
  {
    var s', m := Next(c, s, step), Active(s, step);
    ReaderKept(c, s, step);
    var x := Carried(c, s'.mappers[m], Held(s'.writer, m), w);
    OtherLoadsKept(c, s, step, m, w);
    SumUpdate(Loads(c, s, w), m, x);
  }

  lemma OtherLoadsKept(c: Config, s: State, step: Step, m: nat, w: Where)
    requires Ok(c, s) && Enabled(c, s, step) && step != ReadBlock && m == Active(s, step) && m < |s.mappers|
    requires |Next(c, s, step).mappers| == |s.mappers|
    ensures var s' := Next(c, s, step);
      Loads(c, s', w) == Loads(c, s, w)[m := Carried(c, s'.mappers[m], Held(s'.writer, m), w)]
  {
    var s' := Next(c, s, step);
    var x := Carried(c, s'.mappers[m], Held(s'.writer, m), w);
    forall i | 0 <= i < |s.mappers|
      ensures Loads(c, s', w)[i] == Loads(c, s, w)[m := x][i]
    {
      if i != m {
        OthersKept(c, s, step, i);
      }
    }
  }

  lemma AnyExchange(c: Config, s: State, step: Step, w: Where)
    requires GoodConfig(c) && Ok(c, s) && Enabled(c, s, step) && step != ReadBlock
    ensures Exchange(c, s, Next(c, s, step), Active(s, step), w)
  {
    match step
    case WriterTake(m) => TakeExchange(c, s, m, w);
    case WriterBlock => BlockExchange(c, s, w);
    case MapOne(m) => MailExchange(c, s, step, w);
    case Send(m) => MailExchange(c, s, step, w);
    case _ => TalkExchange(c, s, step, w);
  }

  /** No step loses or makes an entry. */
  lemma AccountKept(c: Config, s: State, step: Step, w: Where)
    requires GoodConfig(c) && Ok(c, s) && Enabled(c, s, step)
    ensures ReaderOk(c, Next(c, s, step)) && Account(c, Next(c, s, step), w) == Account(c, s, w)
  {
    if step == ReadBlock {
      ReadAccount(c, s, w);
    } else {
      AnyExchange(c, s, step, w);
      ExchangeAccount(c, s, step, w);
    }
  }

  // The ends of the three kinds of processes.

  /** Mapper m has been told that there are no more preimages, or is about to be. */
  ghost predicate Ended(s: State, m: nat)
    requires m < |s.mappers|
  {
    var p := s.mappers[m];
    p.pc.FlushKey? || p.pc.FlushBlock? || p.pc.Done? || (p.inbox != [] && p.inbox[0] == NoMore)
      || (s.reader.SendingEof? && s.reader.to == m)
  }

  ghost function EndedSet(s: State): (ms: set<nat>) {
    set m | 0 <= m < |s.mappers| && Ended(s, m)
  }

  ghost function EofsSent(r: Reader): (n: nat) {
    match r
    case Ending(sent) => sent
    case SendingEof(sent, _) => sent + 1
    case _ => 0
  }

  /** The writer has taken the last message of mapper m. */
  ghost predicate Closed(c: Config, s: State, m: nat)
    requires m < |s.mappers|
  {
    s.mappers[m].pc.Done? && Whole(c, s.mappers[m], Held(s.writer, m)) == []
  }

  ghost function ClosedSet(c: Config, s: State): (ms: set<nat>) {
    set m | 0 <= m < |s.mappers| && Closed(c, s, m)
  }

  ghost function EofsTaken(w: Writer): (n: nat) {
    match w
    case Idle(eofs) => eofs
    case Expecting(eofs, _, _) => eofs
    case Confused => 0
  }

  /** The reader and the writer count the ends of the mappers. */
  ghost predicate EndsOk(c: Config, s: State) {
    |EndedSet(s)| == EofsSent(s.reader) && |ClosedSet(c, s)| == EofsTaken(s.writer)
  }

  lemma EndedActive(c: Config, s: State, step: Step, m: nat)
    requires Ok(c, s) && Enabled(c, s, step) && m < c.mappers && m == Active(s, step)
    ensures |Next(c, s, step).mappers| == c.mappers
    ensures Ended(Next(c, s, step), m) <==> Ended(s, m) || (step == TakeRequest(m) && s.reader.Ending?)
    ensures step == TakeRequest(m) ==> !Ended(s, m)
  {
    assert MapperOk(c, s.mappers[m], Held(s.writer, m), Addressed(s.reader, m));
    if step.TakeRequest? {
      EndedByRequest(c, s, m);
    } else {
      EndedAsBefore(c, s, step, m);
    }
  }

  lemma EndedByRequest(c: Config, s: State, m: nat)
    requires m < c.mappers == |s.mappers| && MapperOk(c, s.mappers[m], Held(s.writer, m), Addressed(s.reader, m))
    requires Enabled(c, s, TakeRequest(m))
    ensures |Next(c, s, TakeRequest(m)).mappers| == c.mappers && !Ended(s, m)
    ensures Ended(Next(c, s, TakeRequest(m)), m) <==> s.reader.Ending?
  {
  }

  lemma EndedAsBefore(c: Config, s: State, step: Step, m: nat)
    requires m < c.mappers == |s.mappers| && MapperOk(c, s.mappers[m], Held(s.writer, m), Addressed(s.reader, m))
    requires Enabled(c, s, step) && m == Active(s, step) && !step.TakeRequest?
    ensures |Next(c, s, step).mappers| == c.mappers
    ensures Ended(Next(c, s, step), m) <==> Ended(s, m)
  {
  }

  lemma EndedOther(c: Config, s: State, step: Step, m: nat)
    requires Ok(c, s) && Enabled(c, s, step) && m < c.mappers && m != Active(s, step)
    ensures |Next(c, s, step).mappers| == c.mappers
    ensures Ended(Next(c, s, step), m) <==> Ended(s, m)
  {
    OthersKept(c, s, step, m);
    assert MapperOk(c, s.mappers[m], Held(s.writer, m), Addressed(s.reader, m));
  }

  /** The mappers that a step adds to the ended ones. */
  ghost function NewlyEnded(s: State, step: Step): (ms: set<nat>) {
    if step.TakeRequest? && s.reader.Ending? then {step.m} else {}
  }

  lemma EndedAny(c: Config, s: State, step: Step, m: nat)
    requires Ok(c, s) && Enabled(c, s, step) && m < c.mappers
    ensures |Next(c, s, step).mappers| == c.mappers
    ensures Ended(Next(c, s, step), m) <==> Ended(s, m) || m in NewlyEnded(s, step)
    ensures m in NewlyEnded(s, step) ==> !Ended(s, m)
  {
    if m == Active(s, step) {
      EndedActive(c, s, step, m);
    } else {
      EndedOther(c, s, step, m);
    }
  }

  lemma EndedNext(c: Config, s: State, step: Step)
    requires Ok(c, s) && Enabled(c, s, step)
    ensures EndedSet(Next(c, s, step)) == EndedSet(s) + NewlyEnded(s, step) && EndedSet(s) !! NewlyEnded(s, step)
  {
    var s', more := Next(c, s, step), NewlyEnded(s, step);
    forall m | 0 <= m < c.mappers
      ensures |s'.mappers| == c.mappers && (Ended(s', m) <==> Ended(s, m) || m in more) && (m in more ==> !Ended(s, m))
    {
      EndedAny(c, s, step, m);
    }
    OkAround(c, s, step);
    forall m | m in more
      ensures m < c.mappers && !Ended(s, m)
    {
    }
  }

  lemma EofsSentNext(c: Config, s: State, step: Step)
    requires Ok(c, s) && Enabled(c, s, step)
    ensures EofsSent(Next(c, s, step).reader) == EofsSent(s.reader) + |NewlyEnded(s, step)|
  {
  }

  lemma EndedCount(c: Config, s: State, step: Step)
    requires Ok(c, s) && Enabled(c, s, step) && |EndedSet(s)| == EofsSent(s.reader)
    ensures |EndedSet(Next(c, s, step))| == EofsSent(Next(c, s, step).reader)
  {
    EndedNext(c, s, step);
    EofsSentNext(c, s, step);
  }

  lemma NotLastPair(c: Config, key: ToWriter, block: ToWriter, rest: seq<ToWriter>)
    requires Paired(c, [key, block] + rest, true) && key.Key?
    ensures rest != []
  {
    assert ([key, block] + rest)[2..] == rest;
  }

  lemma ClosedByBlock(c: Config, s: State)
    requires Ok(c, s) && Enabled(c, s, WriterBlock)
    ensures s.writer.from < |Next(c, s, WriterBlock).mappers| == c.mappers
    ensures !Closed(c, s, s.writer.from) && !Closed(c, Next(c, s, WriterBlock), s.writer.from)
  {
    var m := s.writer.from;
    assert MapperOk(c, s.mappers[m], Held(s.writer, m), Addressed(s.reader, m));
    BlockStep(c, s);
    if s.mappers[m].pc.Done? {
      NotLastPair(c, Key(s.writer.slot), s.mappers[m].outbox[0], Whole(c, Next(c, s, WriterBlock).mappers[m], []));
    }
  }

  lemma ClosedByOther(c: Config, s: State, step: Step, m: nat)
    requires Ok(c, s) && Enabled(c, s, step) && m < c.mappers && m == Active(s, step) && !step.WriterTake?
      && !step.WriterBlock?
    ensures |Next(c, s, step).mappers| == c.mappers
    ensures !Closed(c, s, m) && !Closed(c, Next(c, s, step), m)
  {
    assert MapperOk(c, s.mappers[m], Held(s.writer, m), Addressed(s.reader, m));
    var p' := Next(c, s, step).mappers[m];
    assert p'.outbox != [] ==> Whole(c, p', Held(s.writer, m)) != [];
  }

  lemma ClosedActive(c: Config, s: State, step: Step, m: nat)
    requires Ok(c, s) && Enabled(c, s, step) && m < c.mappers && m == Active(s, step)
    ensures |Next(c, s, step).mappers| == c.mappers
    ensures Closed(c, Next(c, s, step), m) <==>
            Closed(c, s, m) || (step == WriterTake(m) && s.mappers[m].outbox[0].End?)
    ensures step == WriterTake(m) ==> !Closed(c, s, m)
  {
    if step.WriterTake? {
      TakeStep(c, s, m);
      assert s.mappers[m].outbox != [] ==> Whole(c, s.mappers[m], Held(s.writer, m)) != [];
    } else if step.WriterBlock? {
      ClosedByBlock(c, s);
    } else {
      ClosedByOther(c, s, step, m);
    }
  }

  lemma ClosedOther(c: Config, s: State, step: Step, m: nat)
    requires Ok(c, s) && Enabled(c, s, step) && m < c.mappers && m != Active(s, step)
    ensures |Next(c, s, step).mappers| == c.mappers
    ensures Closed(c, Next(c, s, step), m) <==> Closed(c, s, m)
  {
    OthersKept(c, s, step, m);
  }

  /** The mappers that a step adds to the closed ones. */
  ghost function NewlyClosed(s: State, step: Step): (ms: set<nat>) {
    if step.WriterTake? && step.m < |s.mappers| && s.mappers[step.m].outbox != [] && s.mappers[step.m].outbox[0].End?
      then {step.m} else {}
  }

  lemma ClosedAny(c: Config, s: State, step: Step, m: nat)
    requires Ok(c, s) && Enabled(c, s, step) && m < c.mappers
    ensures |Next(c, s, step).mappers| == c.mappers
    ensures Closed(c, Next(c, s, step), m) <==> Closed(c, s, m) || m in NewlyClosed(s, step)
    ensures m in NewlyClosed(s, step) ==> !Closed(c, s, m)
  {
    if m == Active(s, step) {
      ClosedActive(c, s, step, m);
    } else {
      ClosedOther(c, s, step, m);
    }
  }

  lemma ClosedNext(c: Config, s: State, step: Step)
    requires Ok(c, s) && Enabled(c, s, step)
    ensures ClosedSet(c, Next(c, s, step)) == ClosedSet(c, s) + NewlyClosed(s, step)
      && ClosedSet(c, s) !! NewlyClosed(s, step)
  {
    var s', more := Next(c, s, step), NewlyClosed(s, step);
    forall m | 0 <= m < c.mappers
      ensures |s'.mappers| == c.mappers && (Closed(c, s', m) <==> Closed(c, s, m) || m in more)
        && (m in more ==> !Closed(c, s, m))
    {
      ClosedAny(c, s, step, m);
    }
    OkAround(c, s, step);
    forall m | m in more
      ensures m < c.mappers && !Closed(c, s, m)
    {
    }
  }

  lemma EofsTakenNext(c: Config, s: State, step: Step)
    requires Ok(c, s) && Enabled(c, s, step)
    ensures EofsTaken(Next(c, s, step).writer) == EofsTaken(s.writer) + |NewlyClosed(s, step)|
  {
    match step
    case WriterTake(m) => TakeStep(c, s, m);
    case WriterBlock => BlockStep(c, s);
    case _ =>
  }

  lemma ClosedCount(c: Config, s: State, step: Step)
    requires Ok(c, s) && Enabled(c, s, step) && |ClosedSet(c, s)| == EofsTaken(s.writer)
    ensures |ClosedSet(c, Next(c, s, step))| == EofsTaken(Next(c, s, step).writer)
  {
    ClosedNext(c, s, step);
    EofsTakenNext(c, s, step);
  }
}
