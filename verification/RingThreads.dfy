/** The circular buffer under threads: every interleaving of calls, with the empty or full
    check outside the lock and the body inside it in separate steps. */
module RingThreads {
  import opened Json
  import opened CircleBuffer

  /** A call with the bytes or the length it was given; lengths are not negative. */
  datatype Call = Write(data: seq<byte>) | Read(len: nat) | Peek(len: nat) | Skip(len: nat)

  /** Where a thread is in its call. `start` is the length of the log when the call began,
      `at` the place of the call in the log. */
  datatype Pc =
    | Idle
    | Called(call: Call, start: nat)
    | Checked(call: Call, start: nat)
    | Entered(call: Call, start: nat)
    | Copied(call: Call, start: nat, n: nat, out: seq<byte>)
    | Moved(call: Call, start: nat, n: nat, out: seq<byte>)
    | Leaving(call: Call, start: nat, n: nat, out: seq<byte>, at: nat)
    | Done(call: Call, start: nat, n: nat, out: seq<byte>, at: nat)

  /** A call as one step of a queue: what it returned and the bytes it handed out. */
  datatype Op = Op(thread: nat, call: Call, n: nat, out: seq<byte>)

  /** The shared record, the threads, and the history that the proof keeps. */
  datatype State = State(
    buf: seq<byte>, datalen: nat, readpos: nat, writepos: nat, lock: Option<nat>,
    threads: map<nat, Pc>,
    log: seq<Op>, queue: seq<byte>, accepted: seq<byte>, consumed: seq<byte>)

  // ----- the queue every call should act on

  datatype Effect = Effect(queue: seq<byte>, n: nat, out: seq<byte>)

  /** One call on a queue that holds at most `cap` bytes. */
  function Apply(cap: nat, q: seq<byte>, call: Call): Effect
    requires |q| <= cap
  {
    match call
    case Write(data) =>
      var n := Min(|data|, cap - |q|);
      Effect(q + data[..n], n, [])
    case Read(len) =>
      var n := Min(len, |q|);
      Effect(q[n..], n, q[..n])
    case Peek(len) =>
      var n := Min(len, |q|);
      Effect(q, n, q[..n])
    case Skip(len) =>
      var n := Min(len, |q|);
      Effect(q[n..], n, [])
  }

  /** What a call may do to a queue of at most `cap` bytes: a write appends what it says it took, all it was
      given or as much as fits; a read, a look or a skip gets what it asks for, or everything queued. */
  ghost predicate Acts(cap: nat, q: seq<byte>, op: Op, r: seq<byte>) {
    match op.call
    case Write(data) =>
      op.out == [] && op.n <= |data| && r == q + data[..op.n] && |r| <= cap && (op.n == |data| || |r| == cap)
    case Read(len) => Granted(op.n, len, |q|) && op.out + r == q && |op.out| == op.n
    case Peek(len) => Granted(op.n, len, |q|) && op.out <= q && |op.out| == op.n && r == q
    case Skip(len) => Granted(op.n, len, |q|) && op.out == [] && r == q[op.n..]
  }

  /** The queues before and after each logged call, from the empty one on. */
  ghost predicate Legal(cap: nat, log: seq<Op>, qs: seq<seq<byte>>) {
    |qs| == |log| + 1 && qs[0] == [] && forall i :: 0 <= i < |log| ==> ActsAt(cap, log, qs, i)
  }

  ghost predicate ActsAt(cap: nat, log: seq<Op>, qs: seq<seq<byte>>, i: nat)
    requires i < |log| && i + 1 < |qs|
  {
    Acts(cap, qs[i], log[i], qs[i + 1])
  }

  lemma ApplyActs(cap: nat, q: seq<byte>, op: Op)
    requires |q| <= cap
    requires var e := Apply(cap, q, op.call); op.n == e.n && op.out == e.out
    ensures Acts(cap, q, op, Apply(cap, q, op.call).queue)
  {
    hide Min;
    match op.call
    case Write(data) =>
    case Read(len) => assert q[..op.n] + q[op.n..] == q;
    case Peek(len) =>
    case Skip(len) =>
  }

  lemma {:induction false} ReplayLegal(cap: nat, log: seq<Op>) returns (qs: seq<seq<byte>>)
    requires Replay(cap, log).Some?
    ensures Legal(cap, log, qs) && qs[|log|] == Replay(cap, log).value
    decreases |log|
  {
    hide Apply, Acts;
    if log == [] { return [[]]; }
    var n, before := |log| - 1, log[..|log| - 1];
    var ps := ReplayLegal(cap, before);
    ApplyActs(cap, ps[n], log[n]);
    qs := ps + [Replay(cap, log).value];
    forall i | 0 <= i < |log| ensures ActsAt(cap, log, qs, i) {
      if i < n { assert ActsAt(cap, before, ps, i); }
    }
  }

  /** The queue after the logged calls, if each returned what the queue says it should. */
  ghost function Replay(cap: nat, log: seq<Op>): (r: Option<seq<byte>>)
    ensures r.Some? ==> |r.value| <= cap
  {
    if log == [] then Some([])
    else
      var op := log[|log| - 1];
      match Replay(cap, log[..|log| - 1])
      case None => None
      case Some(q) =>
        var e := Apply(cap, q, op.call);
        if op.n == e.n && op.out == e.out then Some(e.queue) else None
  }

  // ----- steps

  function With(s: State, t: nat, pc: Pc): State {
    s.(threads := s.threads[t := pc])
  }

  predicate Bounds(s: State) {
    && 0 < |s.buf| <= 0x8000_0000
    && s.readpos < |s.buf| && s.writepos < |s.buf|
    && |s.queue| == s.datalen <= |s.buf|
  }

  /** The call enters the log with what it returned. */
  function Logged(s: State, t: nat, call: Call, n: nat, out: seq<byte>): State
    requires Bounds(s)
  {
    s.(log := s.log + [Op(t, call, n, out)],
       queue := Apply(|s.buf|, s.queue, call).queue,
       accepted := s.accepted + (match call case Write(data) => data[..Min(n, |data|)] case _ => []),
       consumed := s.consumed + (match call
                                 case Read(_) => out
                                 case Skip(_) => s.queue[..Min(n, |s.queue|)]
                                 case _ => []))
  }

  predicate Begin(s: State, t: nat, call: Call, s': State)
    requires t in s.threads
  {
    (s.threads[t].Idle? || s.threads[t].Done?) && s' == With(s, t, Called(call, |s.log|))
  }

  /** The unlocked check of `cb_full` or `cb_empty`; `cb_read_move_offset` has none. */
  predicate Check(s: State, t: nat, s': State)
    requires t in s.threads && Bounds(s)
  {
    && s.threads[t].Called?
    && var call, start := s.threads[t].call, s.threads[t].start;
       var fails := match call
                    case Write(_) => s.datalen == |s.buf|
                    case Read(_) => s.datalen == 0
                    case Peek(_) => s.datalen == 0
                    case Skip(_) => false;
       s' == if fails then With(Logged(s, t, call, 0, []), t, Done(call, start, 0, [], |s.log|))
             else With(s, t, Checked(call, start))
  }

  predicate Acquire(s: State, t: nat, s': State)
    requires t in s.threads
  {
    && s.threads[t].Checked? && s.lock == None
    && s' == With(s, t, Entered(s.threads[t].call, s.threads[t].start)).(lock := Some(t))
  }

  /** The lengths are computed and the bytes copied, in one or two pieces. */
  predicate Transfer(s: State, t: nat, s': State)
    requires t in s.threads && Bounds(s)
  {
    && s.threads[t].Entered?
    && var call, start := s.threads[t].call, s.threads[t].start;
       match call
       case Write(data) =>
         var n := Min(|data|, |s.buf| - s.datalen);
         s' == With(s, t, Copied(call, start, n, [])).(buf := Stored(s.buf, s.writepos, data[..n]))
       case Read(len) =>
         var n := Min(len, s.datalen);
         s' == With(s, t, Copied(call, start, n, Taken(s.buf, s.readpos, n)))
       case Peek(len) =>
         var n := Min(len, s.datalen);
         s' == With(s, t, Copied(call, start, n, Taken(s.buf, s.readpos, n)))
       case Skip(len) =>
         s' == With(s, t, Copied(call, start, Min(len, s.datalen), []))
  }

  function Taken(buf: seq<byte>, readpos: nat, n: nat): seq<byte>
    requires readpos < |buf| && n <= |buf|
  {
    if readpos + n <= |buf| then buf[readpos..readpos + n] else buf[readpos..] + buf[..n - (|buf| - readpos)]
  }

  /** The position is moved. */
  predicate Move(s: State, t: nat, s': State)
    requires t in s.threads && Bounds(s)
  {
    && s.threads[t].Copied? && !s.threads[t].call.Peek?
    && var pc := s.threads[t];
       var s1 := With(s, t, Moved(pc.call, pc.start, pc.n, pc.out));
       match pc.call
       case Write(_) => s' == s1.(writepos := Forward(|s.buf|, s.writepos, pc.n))
       case Read(_) => s' == s1.(readpos := Forward(|s.buf|, s.readpos, pc.n))
       case Skip(len) =>
         s' == s1.(readpos := if s.datalen <= len then s.writepos else Forward(|s.buf|, s.readpos, len))
       case Peek(_) => false
  }

  /** The count is updated; from here on other threads can see the call. */
  predicate Commit(s: State, t: nat, s': State)
    requires t in s.threads && Bounds(s)
  {
    && (s.threads[t].Moved? || (s.threads[t].Copied? && s.threads[t].call.Peek?))
    && var pc := s.threads[t];
       var s1 := With(Logged(s, t, pc.call, pc.n, pc.out), t, Leaving(pc.call, pc.start, pc.n, pc.out, |s.log|));
       match pc.call
       case Write(_) => s' == s1.(datalen := U32(s.datalen + pc.n))
       case Read(_) => s' == s1.(datalen := U32(s.datalen - pc.n))
       case Skip(_) => s' == s1.(datalen := U32(s.datalen - pc.n))
       case Peek(_) => s' == s1
  }

  predicate Release(s: State, t: nat, s': State)
    requires t in s.threads
  {
    && s.threads[t].Leaving?
    && var pc := s.threads[t];
       s' == With(s, t, Done(pc.call, pc.start, pc.n, pc.out, pc.at)).(lock := None)
  }

  /** Thread `t` takes one step; `call` is what it begins if it is between calls. */
  predicate Step(s: State, t: nat, call: Call, s': State)
    requires Bounds(s)
  {
    && t in s.threads
    && (|| Begin(s, t, call, s')
        || Check(s, t, s')
        || Acquire(s, t, s')
        || Transfer(s, t, s')
        || Move(s, t, s')
        || Commit(s, t, s')
        || Release(s, t, s'))
  }

  /** After `cb_init`: nothing queued, no thread in a call. */
  predicate Init(s: State) {
    && Bounds(s) && s.datalen == 0 && s.readpos == 0 && s.writepos == 0 && s.lock == None
    && (forall t :: t in s.threads ==> s.threads[t] == Idle)
    && s.log == [] && s.accepted == [] && s.consumed == []
  }

  // ----- the invariant

  predicate Critical(pc: Pc) {
    pc.Entered? || pc.Copied? || pc.Moved? || pc.Leaving?
  }

  ghost predicate Resting(s: State)
    requires Bounds(s)
  {
    Ring(s.buf, s.readpos, s.datalen) == s.queue && s.writepos == Wrap(|s.buf|, s.readpos, s.datalen)
  }

  /** The call will return what the queue says. */
  ghost predicate Correct(s: State, pc: Pc)
    requires Bounds(s) && (pc.Copied? || pc.Moved?)
  {
    var e := Apply(|s.buf|, s.queue, pc.call);
    pc.n == e.n && pc.out == e.out
  }

  /** The ring while the thread that holds the lock is at `pc`. */
  ghost predicate Shape(s: State, pc: Pc)
    requires Bounds(s)
  {
    match pc
    case Entered(_, _) => Resting(s)
    case Leaving(_, _, _, _, _) => Resting(s)
    case Copied(call, _, n, _) =>
      && Resting(s) && Correct(s, pc)
      && (call.Write? ==> Ring(s.buf, s.readpos, s.datalen + n) == Apply(|s.buf|, s.queue, call).queue)
    case Moved(call, _, n, _) =>
      && Correct(s, pc) && !call.Peek?
      && var count := if call.Write? then s.datalen + n else s.datalen - n;
         && Ring(s.buf, s.readpos, count) == Apply(|s.buf|, s.queue, call).queue
         && s.writepos == Wrap(|s.buf|, s.readpos, count)
    case _ => false
  }

  /** A call that has taken effect is in the log, after its beginning. */
  ghost predicate Recorded(log: seq<Op>, t: nat, pc: Pc) {
    match pc
    case Idle => true
    case Leaving(call, start, n, out, at) => start <= at < |log| && log[at] == Op(t, call, n, out)
    case Done(call, start, n, out, at) => start <= at < |log| && log[at] == Op(t, call, n, out)
    case _ => pc.start <= |log|
  }

  ghost predicate LockKept(s: State)
    requires Bounds(s)
  {
    match s.lock
    case None => Resting(s) && forall t :: t in s.threads ==> !Critical(s.threads[t])
    case Some(h) =>
      && h in s.threads && Critical(s.threads[h]) && Shape(s, s.threads[h])
      && forall t :: t in s.threads && t != h ==> !Critical(s.threads[t])
  }

  ghost predicate Inv(s: State) {
    && Bounds(s)
    && Replay(|s.buf|, s.log) == Some(s.queue)
    && s.accepted == s.consumed + s.queue
    && LockKept(s)
    && forall t :: t in s.threads ==> Recorded(s.log, t, s.threads[t])
  }

  lemma InitInv(s: State)
    requires Init(s)
    ensures Inv(s)
  {
    assert s.queue == [];
  }

  /** Every step of every thread keeps the invariant. */
  lemma StepKeepsInv(s: State, t: nat, call: Call, s': State)
    requires Inv(s) && Step(s, t, call, s')
    ensures Inv(s') && |s'.buf| == |s.buf| && s.log <= s'.log
  {
    if Begin(s, t, call, s') {
      BeginKeeps(s, t, call, s');
    } else if Check(s, t, s') {
      CheckKeeps(s, t, s');
    } else if Acquire(s, t, s') {
      AcquireKeeps(s, t, s');
    } else if Transfer(s, t, s') {
      TransferKeeps(s, t, s');
    } else if Move(s, t, s') {
      MoveKeeps(s, t, s');
    } else if Commit(s, t, s') {
      CommitKeeps(s, t, s');
    } else {
      ReleaseKeeps(s, t, s');
    }
  }

  lemma BeginKeeps(s: State, t: nat, call: Call, s': State)
    requires Inv(s) && t in s.threads && Begin(s, t, call, s')
    ensures Inv(s') && s'.buf == s.buf && s.log <= s'.log
  {
    hide Replay, Ring, Wrap, Apply;
  }

  lemma AcquireKeeps(s: State, t: nat, s': State)
    requires Inv(s) && t in s.threads && Acquire(s, t, s')
    ensures Inv(s') && s'.buf == s.buf && s.log <= s'.log
  {
    hide Replay, Ring, Wrap, Apply;
  }

  lemma ReleaseKeeps(s: State, t: nat, s': State)
    requires Inv(s) && t in s.threads && Release(s, t, s')
    ensures Inv(s') && s'.buf == s.buf && s.log <= s'.log
  {
    hide Replay, Ring, Wrap, Apply;
  }

  /** Logging a call that returned what the queue says keeps the history in order. */
  lemma LoggedKeeps(s: State, t: nat, call: Call, n: nat, out: seq<byte>)
    requires Bounds(s) && Replay(|s.buf|, s.log) == Some(s.queue) && s.accepted == s.consumed + s.queue
    requires n == Apply(|s.buf|, s.queue, call).n && out == Apply(|s.buf|, s.queue, call).out
    ensures var s1 := Logged(s, t, call, n, out);
            && Replay(|s.buf|, s1.log) == Some(s1.queue)
            && s1.accepted == s1.consumed + s1.queue
            && |s1.log| == |s.log| + 1 && s1.log[|s.log|] == Op(t, call, n, out) && s.log <= s1.log
  {
    ReplayMore(|s.buf|, s.log, Op(t, call, n, out), s.queue);
    hide Replay;
    match call
    case Write(data) => Assoc(s.consumed, s.queue, data[..n]);
    case Read(_) => SplitAssoc(s.consumed, s.queue, n);
    case Peek(_) =>
      assert s.consumed + [] == s.consumed && s.accepted + [] == s.accepted;
    case Skip(_) => SplitAssoc(s.consumed, s.queue, n);
  }

  lemma ReplayMore(cap: nat, log: seq<Op>, op: Op, q: seq<byte>)
    requires Replay(cap, log) == Some(q)
    requires op.n == Apply(cap, q, op.call).n && op.out == Apply(cap, q, op.call).out
    ensures Replay(cap, log + [op]) == Some(Apply(cap, q, op.call).queue)
  {
    hide Apply;
    assert (log + [op])[..|log|] == log;
  }

  lemma Assoc(a: seq<byte>, b: seq<byte>, c: seq<byte>)
    ensures (a + b) + c == a + (b + c)
  {
  }

  lemma SplitAssoc(done: seq<byte>, q: seq<byte>, n: nat)
    requires n <= |q|
    ensures done + q == (done + q[..n]) + q[n..]
    ensures done + q + [] == done + q
  {
    assert q[..n] + q[n..] == q;
    Assoc(done, q[..n], q[n..]);
  }

  lemma RecordedLater(log: seq<Op>, log': seq<Op>, t: nat, pc: Pc)
    requires Recorded(log, t, pc) && log <= log'
    ensures Recorded(log', t, pc)
  {
  }

  lemma CheckCases(s: State, t: nat, s': State)
    requires Inv(s) && t in s.threads && Check(s, t, s')
    ensures t in s'.threads && s.threads[t].Called?
    ensures !s'.threads[t].Done? ==> s' == With(s, t, Checked(s.threads[t].call, s.threads[t].start))
  {
    hide Replay, Ring, Wrap, Apply, Shape, Resting, LockKept, Recorded;
  }

  lemma PassedCheckKeeps(s: State, t: nat, s': State)
    requires Inv(s) && t in s.threads && s.threads[t].Called?
    requires s' == With(s, t, Checked(s.threads[t].call, s.threads[t].start))
    ensures Inv(s') && s'.buf == s.buf && s.log <= s'.log
  {
    SameRing(s, s');
    hide Replay, Ring, Wrap, Apply, Shape, Resting;
  }

  lemma CheckKeeps(s: State, t: nat, s': State)
    requires Inv(s) && t in s.threads && Check(s, t, s')
    ensures Inv(s') && s'.buf == s.buf && s.log <= s'.log
  {
    hide *;
    CheckCases(s, t, s');
    if s'.threads[t].Done? {
      FailedCheckKeeps(s, t, s');
    } else {
      PassedCheckKeeps(s, t, s');
    }
  }

  /** A call that finds the buffer full or empty acts on the queue at that moment. */
  lemma FailedCheckKeeps(s: State, t: nat, s': State)
    requires Inv(s) && t in s.threads && Check(s, t, s') && s'.threads[t].Done?
    ensures Inv(s') && s'.buf == s.buf && s.log <= s'.log
  {
    var call := s.threads[t].call;
    NothingToDo(s, call);
    LoggedKeeps(s, t, call, 0, []);
    hide Replay, Ring, Wrap, Apply, Shape, Resting;
    assert s'.queue == s.queue;
    forall u | u in s'.threads ensures Recorded(s'.log, u, s'.threads[u]) {
      if u != t { RecordedLater(s.log, s'.log, u, s.threads[u]); }
    }
    assert LockKept(s') by { SameRing(s, s'); }
  }

  lemma NothingToDo(s: State, call: Call)
    requires Bounds(s)
    requires (call.Write? && s.datalen == |s.buf|) || ((call.Read? || call.Peek?) && s.datalen == 0)
    ensures Apply(|s.buf|, s.queue, call) == Effect(s.queue, 0, [])
  {
    var e := Apply(|s.buf|, s.queue, call);
    assert e.queue == s.queue && e.out == [];
  }

  /** The shape speaks only of the ring and the queue. */
  lemma SameRing(s: State, s': State)
    requires Bounds(s) && Bounds(s')
    requires s'.buf == s.buf && s'.datalen == s.datalen && s'.readpos == s.readpos && s'.writepos == s.writepos
    requires s'.queue == s.queue
    ensures Resting(s') == Resting(s)
    ensures forall pc :: Shape(s', pc) == Shape(s, pc)
  {
  }

  lemma StoreKeeps(s: State, data: seq<byte>)
    requires Bounds(s) && Resting(s) && |data| <= |s.buf| - s.datalen
    ensures var buf := Stored(s.buf, s.writepos, data);
            && Ring(buf, s.readpos, s.datalen) == s.queue
            && Ring(buf, s.readpos, s.datalen + |data|) == s.queue + data
            && Wrap(|s.buf|, s.writepos, |data|) == Wrap(|s.buf|, s.readpos, s.datalen + |data|)
  {
    hide *;
    RestingIs(s);
    if data == [] {
      StoredNothing(s.buf, s.writepos);
      AddNothing(s.queue);
      WrapNone(|s.buf|, s.writepos);
    } else {
      RingStore(s.buf, s.readpos, s.datalen, data);
      RingShorter(Stored(s.buf, s.writepos, data), s.readpos, s.datalen, |data|);
      assert (s.queue + data)[..s.datalen] == s.queue;
      SumOfWraps(|s.buf|, s.readpos, s.datalen, |data|);
    }
  }

  lemma RestingIs(s: State)
    requires Bounds(s) && Resting(s)
    ensures Ring(s.buf, s.readpos, s.datalen) == s.queue && s.writepos == Wrap(|s.buf|, s.readpos, s.datalen)
    ensures s.readpos < |s.buf| && s.writepos < |s.buf| && |s.queue| == s.datalen <= |s.buf|
  {
    hide Ring, Wrap;
  }

  lemma StoredNothing(buf: seq<byte>, writepos: nat)
    requires writepos < |buf|
    ensures Stored(buf, writepos, []) == buf
  {
  }

  lemma AddNothing(q: seq<byte>)
    ensures q + [] == q
  {
  }

  lemma RingShorter(buf: seq<byte>, readpos: nat, datalen: nat, more: nat)
    requires readpos < |buf| && datalen + more <= |buf|
    ensures Ring(buf, readpos, datalen) == Ring(buf, readpos, datalen + more)[..datalen]
  {
  }

  /** A step of the holder that changes no history and leaves it inside. */
  lemma HolderMoves(s: State, t: nat, pc: Pc, s': State)
    requires Inv(s) && t in s.threads && Critical(s.threads[t])
    requires Bounds(s') && |s'.buf| == |s.buf|
    requires s'.threads == s.threads[t := pc] && s'.lock == s.lock
    requires s'.log == s.log && s'.queue == s.queue && s'.accepted == s.accepted && s'.consumed == s.consumed
    requires Critical(pc) && !pc.Leaving? && pc.start == s.threads[t].start && !s.threads[t].Leaving?
    requires Shape(s', pc)
    ensures Inv(s') && s.lock == Some(t)
  {
    hide Replay, Shape, Resting;
  }

  lemma HolderIs(s: State, t: nat)
    requires Inv(s) && t in s.threads && Critical(s.threads[t])
    ensures s.lock == Some(t) && Shape(s, s.threads[t])
  {
    hide Replay, Shape, Resting;
  }

  lemma WriteTransferShape(s: State, t: nat, s': State)
    requires Bounds(s) && t in s.threads && s.threads[t].Entered? && Resting(s) && Transfer(s, t, s')
    requires s.threads[t].call.Write?
    ensures Bounds(s') && Shape(s', s'.threads[t])
  {
    var data := s.threads[t].call.data;
    var n := Min(|data|, |s.buf| - s.datalen);
    StoreKeeps(s, data[..n]);
    hide Ring, Wrap, Stored;
    assert s'.threads[t] == Copied(s.threads[t].call, s.threads[t].start, n, []);
    assert s'.buf == Stored(s.buf, s.writepos, data[..n]) && |s'.buf| == |s.buf|;
    assert s'.readpos == s.readpos && s'.writepos == s.writepos && s'.datalen == s.datalen && s'.queue == s.queue;
    hide Transfer, Resting;
  }

  lemma OtherTransferShape(s: State, t: nat, s': State)
    requires Bounds(s) && t in s.threads && s.threads[t].Entered? && Resting(s) && Transfer(s, t, s')
    requires !s.threads[t].call.Write?
    ensures Bounds(s') && Shape(s', s'.threads[t])
  {
    var call := s.threads[t].call;
    RingTake(s.buf, s.readpos, s.datalen, Min(call.len, s.datalen));
    hide Ring, Wrap, Stored;
    assert s'.threads[t].call == call;
  }

  lemma TransferKeeps(s: State, t: nat, s': State)
    requires Inv(s) && t in s.threads && Transfer(s, t, s')
    ensures Inv(s') && |s'.buf| == |s.buf| && s.log <= s'.log
  {
    HolderIs(s, t);
    if s.threads[t].call.Write? { WriteTransferShape(s, t, s'); } else { OtherTransferShape(s, t, s'); }
    hide Inv, Shape, Stored, Taken, Resting;
    HolderMoves(s, t, s'.threads[t], s');
  }

  lemma WriteMoveShape(s: State, t: nat, s': State)
    requires Bounds(s) && t in s.threads && Move(s, t, s') && Shape(s, s.threads[t])
    requires s.threads[t].call.Write?
    ensures Bounds(s') && Shape(s', s'.threads[t])
  {
    var n := s.threads[t].n;
    SumOfWraps(|s.buf|, s.readpos, s.datalen, n);
    Advance(|s.buf|, s.writepos, n);
    hide Ring, Forward, Wrap;
    assert s'.threads[t].call == s.threads[t].call;
  }

  lemma ReadMoveShape(s: State, t: nat, s': State)
    requires Bounds(s) && t in s.threads && Move(s, t, s') && Shape(s, s.threads[t])
    requires s.threads[t].call.Read?
    ensures Bounds(s') && Shape(s', s'.threads[t])
  {
    var n := s.threads[t].n;
    RingDrop(s.buf, s.readpos, s.datalen, n);
    Advance(|s.buf|, s.readpos, n);
    hide Ring, Forward, Wrap;
    assert s'.threads[t].call == s.threads[t].call;
  }

  lemma SkipMoveShape(s: State, t: nat, s': State)
    requires Bounds(s) && t in s.threads && Move(s, t, s') && Shape(s, s.threads[t])
    requires s.threads[t].call.Skip?
    ensures Bounds(s') && Shape(s', s'.threads[t])
  {
    var n := s.threads[t].n;
    RingDrop(s.buf, s.readpos, s.datalen, n);
    Advance(|s.buf|, s.readpos, n);
    if n == s.datalen { WrapNone(|s.buf|, Wrap(|s.buf|, s.readpos, n)); }
    hide Ring, Forward, Wrap;
    assert s'.threads[t].call == s.threads[t].call;
  }

  lemma OtherMoveShape(s: State, t: nat, s': State)
    requires Bounds(s) && t in s.threads && Move(s, t, s') && Shape(s, s.threads[t])
    requires !s.threads[t].call.Write?
    ensures Bounds(s') && Shape(s', s'.threads[t])
  {
    if s.threads[t].call.Read? { ReadMoveShape(s, t, s'); } else { SkipMoveShape(s, t, s'); }
  }

  lemma WrapNone(buflen: nat, pos: nat)
    requires pos < buflen
    ensures Wrap(buflen, pos, 0) == pos
  {
  }

  lemma MoveKeeps(s: State, t: nat, s': State)
    requires Inv(s) && t in s.threads && Move(s, t, s')
    ensures Inv(s') && s'.buf == s.buf && s.log <= s'.log
  {
    HolderIs(s, t);
    if s.threads[t].call.Write? { WriteMoveShape(s, t, s'); } else { OtherMoveShape(s, t, s'); }
    hide Inv, Shape, Wrap, Forward;
    HolderMoves(s, t, s'.threads[t], s');
  }

  lemma SumOfWraps(buflen: nat, readpos: nat, a: nat, b: nat)
    requires readpos < buflen && a + b <= buflen
    ensures Wrap(buflen, readpos, a) < buflen
    ensures Wrap(buflen, Wrap(buflen, readpos, a), b) == Wrap(buflen, readpos, a + b)
  {
  }

  /** The holder's call takes effect. */
  lemma CommitKeeps(s: State, t: nat, s': State)
    requires Inv(s) && t in s.threads && Commit(s, t, s')
    ensures Inv(s') && s'.buf == s.buf && s.log <= s'.log
  {
    HolderIs(s, t);
    var pc := s.threads[t];
    LoggedKeeps(s, t, pc.call, pc.n, pc.out);
    CountKeeps(s, t, s');
    hide Replay, Ring, Wrap, U32, Apply, Shape, Logged;
    forall u | u in s'.threads ensures Recorded(s'.log, u, s'.threads[u]) {
      if u != t { RecordedLater(s.log, s'.log, u, s.threads[u]); }
    }
    assert LockKept(s') by { assert Shape(s', s'.threads[t]) by { LeavingShape(s', s'.threads[t]); } }
  }

  lemma LeavingShape(s: State, pc: Pc)
    requires Bounds(s) && Resting(s) && pc.Leaving?
    ensures Shape(s, pc)
  {
  }

  lemma CountKeeps(s: State, t: nat, s': State)
    requires Bounds(s) && t in s.threads && Commit(s, t, s') && Shape(s, s.threads[t])
    ensures Bounds(s') && Resting(s')
  {
    var pc := s.threads[t];
    if pc.call.Write? { U32Small(s.datalen + pc.n); } else if !pc.call.Peek? { U32Small(s.datalen - pc.n); }
    hide Ring, Wrap, U32;
  }

  // ----- whole runs

  /** A run of any length: every state follows from the one before by a step of some thread.
      Steps are defined within `Bounds`, which no run leaves. */
  ghost predicate IsRun(run: seq<State>) {
    && run != [] && Init(run[0])
    && forall i :: 0 <= i < |run| - 1 ==> StepAt(run, i)
  }

  ghost predicate StepAt(run: seq<State>, i: nat)
    requires i + 1 < |run|
  {
    Bounds(run[i]) && CanStep(run[i], run[i + 1])
  }

  ghost predicate CanStep(s: State, s': State)
    requires Bounds(s)
  {
    exists t: nat, call: Call :: Step(s, t, call, s')
  }

  lemma RunStarts(run: seq<State>)
    requires IsRun(run)
    ensures run != [] && Init(run[0])
  {
    hide Init, StepAt;
  }

  lemma StepTaken(run: seq<State>, i: nat)
    requires IsRun(run) && i + 1 < |run|
    ensures Bounds(run[i]) && CanStep(run[i], run[i + 1])
  {
    hide Init, CanStep, Bounds;
    assert StepAt(run, i);
  }

  lemma {:induction false} RunKeepsInv(run: seq<State>, i: nat)
    requires IsRun(run) && i < |run|
    ensures Inv(run[i]) && |run[i].buf| == |run[0].buf|
  {
    hide *;
    if i == 0 {
      RunStarts(run);
      InitInv(run[0]);
    } else {
      RunKeepsInv(run, i - 1);
      StepTaken(run, i - 1);
      CanStepKeepsInv(run[i - 1], run[i]);
    }
  }

  lemma CanStepKeepsInv(s: State, s': State)
    requires Inv(s) && Bounds(s) && CanStep(s, s')
    ensures Inv(s') && |s'.buf| == |s.buf| && s.log <= s'.log
  {
    hide Inv, Step;
    var t: nat, call: Call :| Step(s, t, call, s');
    StepKeepsInv(s, t, call, s');
  }

  /** In every state of every run: what was accepted is what was consumed followed by what
      is queued; the log is a legal history of one queue, in which every call takes or gives as
      much as it asks for or as there is; while no thread is inside, the
      ring holds exactly that queue; and a finished call returned what its log entry says,
      an entry made after the call began. */
  lemma RunIsLinearizable(run: seq<State>, i: nat)
    requires IsRun(run) && i < |run|
    ensures var s := run[i];
            && s.accepted == s.consumed + s.queue
            && Replay(|run[0].buf|, s.log) == Some(s.queue)
            && (exists qs :: Legal(|run[0].buf|, s.log, qs) && qs[|s.log|] == s.queue)
            && s.datalen == |s.queue| <= |s.buf| && s.readpos < |s.buf|
            && (s.lock == None ==> Ring(s.buf, s.readpos, s.datalen) == s.queue)
            && forall t :: t in s.threads && s.threads[t].Done? ==>
                 var pc := s.threads[t];
                 pc.start <= pc.at < |s.log| && s.log[pc.at] == Op(t, pc.call, pc.n, pc.out)
  {
    RunKeepsInv(run, i);
    var qs := ReplayLegal(|run[i].buf|, run[i].log);
    forall t | t in run[i].threads
      ensures Recorded(run[i].log, t, run[i].threads[t])
    {
    }
  }

  lemma PrefixOfPrefix<T>(a: seq<T>, b: seq<T>, c: seq<T>)
    requires a <= b <= c
    ensures a <= c
  {
  }

  /** The log only grows, so a call that ended before another began comes first in it. */
  lemma {:induction false} LogGrows(run: seq<State>, i: nat, j: nat)
    requires IsRun(run) && i <= j < |run|
    ensures run[i].log <= run[j].log
    decreases j - i
  {
    hide *;
    if i < j {
      LogGrows(run, i, j - 1);
      OneStepGrows(run, j - 1);
      PrefixOfPrefix(run[i].log, run[j - 1].log, run[j].log);
    }
  }

  lemma OneStepGrows(run: seq<State>, j: nat)
    requires IsRun(run) && j + 1 < |run|
    ensures run[j].log <= run[j + 1].log
  {
    hide *;
    RunKeepsInv(run, j);
    StepTaken(run, j);
    CanStepKeepsInv(run[j], run[j + 1]);
  }

  lemma RealTimeOrder(run: seq<State>, i: nat, j: nat, t: nat, u: nat, call: Call)
    requires IsRun(run) && i <= j && j + 1 < |run|
    requires t in run[i].threads && run[i].threads[t].Done?
    requires Bounds(run[j]) && u in run[j].threads && Begin(run[j], u, call, run[j + 1])
    ensures run[i].threads[t].at < run[j + 1].threads[u].start
  {
    RunKeepsInv(run, i);
    LogGrows(run, i, j);
    assert Recorded(run[i].log, t, run[i].threads[t]);
  }

  /** No two threads are inside the locked body at once. */
  lemma MutualExclusion(run: seq<State>, i: nat, t: nat, u: nat)
    requires IsRun(run) && i < |run|
    requires t in run[i].threads && u in run[i].threads
    requires Critical(run[i].threads[t]) && Critical(run[i].threads[u])
    ensures t == u
  {
    RunKeepsInv(run, i);
  }

  // ----- every entry belongs to one call

  /** The call has taken effect. */
  predicate Over(pc: Pc) {
    pc.Leaving? || pc.Done?
  }

  /** A step of thread `u` that makes the entry `op` for the call the thread is in. */
  ghost predicate Makes(s: State, s': State, op: Op) {
    && s'.log == s.log + [op]
    && op.thread in s.threads && op.thread in s'.threads
    && var before, after := s.threads[op.thread], s'.threads[op.thread];
    && !before.Idle? && !Over(before) && before.call == op.call
    && Over(after) && after.call == op.call && after.start == before.start
    && after.n == op.n && after.out == op.out && after.at == |s.log|
  }

  ghost predicate Grows(s: State, s': State) {
    exists op: Op :: Makes(s, s', op)
  }

  lemma StepLogs(s: State, u: nat, call: Call, s': State)
    requires Bounds(s) && Step(s, u, call, s')
    ensures s'.log == s.log || Grows(s, s')
  {
    hide Bounds, U32, Forward, Stored, Taken, Apply;
    var pc := s.threads[u];
    if Check(s, u, s') {
      if s'.threads[u].Done? { assert Makes(s, s', Op(u, pc.call, 0, [])); }
    } else if Commit(s, u, s') {
      assert s'.threads[u] == Leaving(pc.call, pc.start, pc.n, pc.out, |s.log|);
      assert Makes(s, s', Op(u, pc.call, pc.n, pc.out));
    }
  }

  /** Only its own step changes where a thread is, and only beginning a call leaves one that is over. */
  lemma OverStays(s: State, u: nat, call: Call, s': State, t: nat)
    requires Bounds(s) && Step(s, u, call, s') && t in s.threads && Over(s.threads[t])
    ensures t in s'.threads && (Over(s'.threads[t]) || (u == t && Begin(s, t, call, s')))
  {
    hide Bounds, U32, Forward, Stored, Taken, Apply;
  }

  /** Every entry of the log was made by one step of the run, for a call its thread was in since before;
      no other step made it. */
  lemma {:induction false} EntryMadeOnce(run: seq<State>, i: nat, k: nat) returns (j: nat)
    requires IsRun(run) && i < |run| && k < |run[i].log|
    ensures j < i && |run[j].log| == k && Makes(run[j], run[j + 1], run[i].log[k])
    ensures run[j].threads[run[i].log[k].thread].start <= k
    ensures forall j2 :: 0 <= j2 < i && |run[j2].log| == k && |run[j2 + 1].log| == k + 1 ==> j2 == j
    decreases i
  {
    hide *;
    if i == 0 { NoEntries(run); assert false; }
    RunStep(run, i - 1);
    LogGrows(run, i - 1, i);
    if k < |run[i - 1].log| {
      j := EntryMadeOnce(run, i - 1, k);
      assert run[i - 1].log[k] == run[i].log[k];
    } else {
      j := i - 1;
      GrowsIs(run[j], run[i]);
      StartBefore(run, j, run[i].log[k].thread);
    }
    forall j2 | 0 <= j2 < i && |run[j2].log| == k && |run[j2 + 1].log| == k + 1
      ensures j2 == j
    {
      OneStep(run, i, j, j2, run[i].log[k]);
    }
  }

  lemma GrowsIs(s: State, s': State)
    requires Grows(s, s')
    ensures |s'.log| == |s.log| + 1 && var op := s'.log[|s.log|];
      Makes(s, s', op) && op.thread in s.threads && !s.threads[op.thread].Idle? && !Over(s.threads[op.thread])
  {
    hide Makes, Over;
    var op: Op :| Makes(s, s', op);
    MadeLast(s, s', op);
  }

  lemma OneStep(run: seq<State>, i: nat, j: nat, j2: nat, op: Op)
    requires IsRun(run) && j < i < |run| && j2 < i && Makes(run[j], run[j + 1], op)
    requires |run[j2].log| == |run[j].log| && |run[j2 + 1].log| == |run[j2].log| + 1
    ensures j2 == j
  {
    MadeLast(run[j], run[j + 1], op);
    hide *;
    if j2 < j { LogGrows(run, j2 + 1, j); } else if j < j2 { LogGrows(run, j + 1, j2); }
  }

  lemma NoEntries(run: seq<State>)
    requires IsRun(run)
    ensures run[0].log == []
  {
  }

  lemma RunStep(run: seq<State>, j: nat)
    requires IsRun(run) && j + 1 < |run|
    ensures Bounds(run[j]) && Inv(run[j])
    ensures CanStep(run[j], run[j + 1])
    ensures run[j + 1].log == run[j].log || Grows(run[j], run[j + 1])
  {
    RunKeepsInv(run, j);
    StepTaken(run, j);
    hide Inv, Init, Step, Bounds, Makes, IsRun;
    var u: nat, call: Call :| Step(run[j], u, call, run[j + 1]);
    StepLogs(run[j], u, call, run[j + 1]);
  }

  lemma MadeLast(s: State, s': State, op: Op)
    requires Makes(s, s', op)
    ensures |s'.log| == |s.log| + 1 && s'.log[|s.log|] == op
    ensures op.thread in s.threads && !s.threads[op.thread].Idle? && !Over(s.threads[op.thread])
    ensures op.thread in s'.threads && Over(s'.threads[op.thread])
  {
  }

  lemma StartBefore(run: seq<State>, j: nat, t: nat)
    requires IsRun(run) && j < |run| && t in run[j].threads && !run[j].threads[t].Idle? && !Over(run[j].threads[t])
    ensures run[j].threads[t].start <= |run[j].log|
  {
    RunKeepsInv(run, j);
    assert Recorded(run[j].log, t, run[j].threads[t]);
  }

  /** Between two entries of one thread it begins a call, so no call makes two. */
  lemma {:induction false} NewCallBetween(run: seq<State>, j: nat, l: nat, t: nat) returns (m: nat, call: Call)
    requires IsRun(run) && j <= l < |run| && t in run[j].threads && Over(run[j].threads[t])
    requires t in run[l].threads && !Over(run[l].threads[t])
    ensures j <= m < l && Bounds(run[m]) && t in run[m].threads && Begin(run[m], t, call, run[m + 1])
    decreases l - j
  {
    if j == l { assert false; }
    hide Inv, Init, Step, Bounds, Begin, Over;
    RunStep(run, j);
    var u: nat, c: Call :| Step(run[j], u, c, run[j + 1]);
    OverStays(run[j], u, c, run[j + 1], t);
    if Over(run[j + 1].threads[t]) {
      m, call := NewCallBetween(run, j + 1, l, t);
    } else {
      m, call := j, c;
    }
  }

  /** Two entries of one thread stand for two calls: the second began after the first was made. */
  lemma EntriesOfTwoCalls(run: seq<State>, j: nat, l: nat, op: Op, op2: Op) returns (m: nat, call: Call)
    requires IsRun(run) && j < l && l + 1 < |run| && Makes(run[j], run[j + 1], op) && Makes(run[l], run[l + 1], op2)
    requires op.thread == op2.thread
    ensures j < m < l && Bounds(run[m]) && op.thread in run[m].threads && Begin(run[m], op.thread, call, run[m + 1])
  {
    MadeLast(run[j], run[j + 1], op);
    MadeLast(run[l], run[l + 1], op2);
    hide IsRun, Makes, Over, Bounds, Begin;
    m, call := NewCallBetween(run, j + 1, l, op.thread);
  }
}
