/**
  A stream fed by one thread and read by another. What each thread does under
  the lock is a step; so are the parts of `finish` and of a wait that the other
  thread can come between. Wake-ups are only those notified.
*/
module QueueStreams {
  import opened Channels
  import opened Sequences

  type Bytes = seq<Byte>

  /** Where the reader is in a call of `read`. */
  datatype Reader =
    | Idle      // in no call
    | Prepare   // at the start of `prepareBuf`
    | Checked   // holds the lock, found the stream open and the queue empty
    | Waiting   // waits, without the lock
    | Woken     // notified, to take the lock again
    | Take      // holds the lock, to look at the queue

  /** What a call was asked for and what it gave; nothing stands for the end of the stream. */
  datatype Returned = Returned(want: nat, bytes: Bytes)

  datatype State = State(
    queue: seq<Bytes>, buf: Bytes, pos: nat, isOpen: bool,
    reader: Reader, want: nat, got: Bytes, returned: seq<Returned>,
    finishing: bool,  // the producer is inside `finish`, with its notify to come
    added: Bytes)

  function Concat(queue: seq<Bytes>): Bytes {
    if queue == [] then [] else queue[0] + Concat(queue[1..])
  }

  function AllReturned(rs: seq<Returned>): Bytes {
    if rs == [] then [] else AllReturned(rs[..|rs| - 1]) + rs[|rs| - 1].bytes
  }

  function Delivered(s: State): Bytes {
    AllReturned(s.returned) + s.got
  }

  predicate ReaderHoldsLock(s: State) {
    s.reader.Checked? || s.reader.Take?
  }

  // -------------------------------------------------------------------- steps

  /** A notify wakes the reader if it waits, and is lost if not. */
  function Notified(r: Reader): Reader {
    if r.Waiting? then Woken else r
  }

  /** `addBuffer`. */
  predicate CanAdd(s: State) {
    !s.finishing && !ReaderHoldsLock(s)
  }

  function Added(s: State, b: Bytes): State {
    s.(queue := s.queue + [b], reader := Notified(s.reader), added := s.added + b)
  }

  /** `finish` closes the stream before it takes the lock to notify. */
  predicate CanFinish(s: State) {
    !s.finishing
  }

  function Finishing(s: State): State {
    s.(isOpen := false, finishing := true)
  }

  predicate CanNotify(s: State) {
    s.finishing && !ReaderHoldsLock(s)
  }

  function FinishDone(s: State): State {
    s.(finishing := false, reader := Notified(s.reader))
  }

  /** A call of `read` for `n` bytes begins. */
  function Begun(s: State, n: nat): State {
    if n == 0 then s.(returned := s.returned + [Returned(0, [])]) else s.(reader := Prepare, want := n, got := [])
  }

  function Over(s: State): State {
    s.(reader := Idle, returned := s.returned + [Returned(s.want, s.got)], got := [])
  }

  /** As much of the buffer as there is or is wanted. */
  function Copied(s: State): State
    requires s.pos <= |s.buf| && |s.got| <= s.want
  {
    var part := Min(|s.buf| - s.pos, s.want - |s.got|);
    s.(got := s.got + s.buf[s.pos..s.pos + part], pos := s.pos + part)
  }

  function Taken(s: State): State
    requires s.queue != []
  {
    s.(buf := s.queue[0], queue := s.queue[1..], pos := 0, reader := Prepare)
  }

  /** The next step of a call of `read`; there is none while it waits. */
  function ReaderStep(s: State): State
    requires s.pos <= |s.buf| && (!s.reader.Idle? ==> |s.got| < s.want)
  {
    match s.reader
    case Prepare =>
      if s.pos < |s.buf| then
        var t := Copied(s);
        if |t.got| < t.want then t else Over(t)
      else if s.isOpen && s.queue == [] then s.(reader := Checked)
      else s.(reader := Take)
    case Checked => s.(reader := Waiting)
    case Woken => s.(reader := Take)
    case Take =>
      if s.queue != [] then Taken(s) else Over(s)
    case Idle => s
    case Waiting => s
  }

  // ---------------------------------------------------------------- invariant

  /** No byte is lost, doubled or moved. */
  ghost predicate Conserves(s: State) {
    s.pos <= |s.buf| && Delivered(s) + s.buf[s.pos..] + Concat(s.queue) == s.added
  }

  /** A reader that waits, or is about to, with the stream finished has a notify to come; one that has been woken has cause. */
  ghost predicate WakesUp(s: State) {
    && (s.reader.Checked? || s.reader.Waiting? ==> s.queue == [] && (s.isOpen || s.finishing))
    && (s.reader.Woken? || s.reader.Take? ==> s.queue != [] || !s.isOpen)
  }

  ghost predicate Invariant(s: State) {
    && Conserves(s) && WakesUp(s)
    && (if s.reader.Idle? then s.got == [] else |s.got| < s.want)
    && (s.reader.Idle? || s.reader.Prepare? || s.pos == |s.buf|) && (s.finishing ==> !s.isOpen)
    && forall i :: 0 <= i < |s.returned| ==> |s.returned[i].bytes| <= s.returned[i].want
  }

  lemma {:induction false} ConcatAppend(queue: seq<Bytes>, b: Bytes)
    ensures Concat(queue + [b]) == Concat(queue) + b
  {
    if queue != [] {
      assert (queue + [b])[1..] == queue[1..] + [b];
      ConcatAppend(queue[1..], b);
      Associative(queue[0], Concat(queue[1..]), b);
    } else {
      assert Concat([b]) == b + Concat([]);
    }
  }

  lemma AddKeeps(s: State, b: Bytes)
    requires Invariant(s) && CanAdd(s)
    ensures Invariant(Added(s, b))
  {
    ConcatAppend(s.queue, b);
    Associative(Delivered(s) + s.buf[s.pos..], Concat(s.queue), b);
  }

  lemma FinishKeeps(s: State)
    requires Invariant(s)
    ensures CanFinish(s) ==> Invariant(Finishing(s))
    ensures CanNotify(s) ==> Invariant(FinishDone(s))
  {
  }

  lemma ReturnedAppend(rs: seq<Returned>, r: Returned)
    ensures AllReturned(rs + [r]) == AllReturned(rs) + r.bytes
  {
    assert (rs + [r])[..|rs|] == rs;
  }

  lemma ReturnKeeps(s: State)
    ensures Delivered(Over(s)) == Delivered(s)
  {
    ReturnedAppend(s.returned, Returned(s.want, s.got));
    assert Delivered(s) + [] == Delivered(s);
  }

  lemma BeginKeeps(s: State, n: nat)
    requires Invariant(s) && s.reader.Idle?
    ensures Invariant(Begun(s, n))
  {
    ReturnedAppend(s.returned, Returned(0, []));
    assert AllReturned(s.returned) + [] == AllReturned(s.returned);
  }

  /** Copying out of the buffer moves bytes from what is unread to what is delivered. */
  lemma CopyKeeps(s: State)
    requires Conserves(s) && |s.got| <= s.want
    ensures Conserves(Copied(s))
  {
    var part := Min(|s.buf| - s.pos, s.want - |s.got|);
    var piece := s.buf[s.pos..s.pos + part];
    var rest := s.buf[s.pos + part..];
    assert s.buf[s.pos..] == piece + rest;
    Associative(AllReturned(s.returned), s.got, piece);
    Associative(Delivered(s), piece, rest);
  }

  lemma TakeKeeps(s: State)
    requires Conserves(s) && s.pos == |s.buf| && s.queue != []
    ensures Conserves(Taken(s))
  {
    assert s.buf[s.pos..] == [] && s.queue[0][0..] == s.queue[0];
    assert Delivered(s) + [] == Delivered(s);
    Associative(Delivered(s), s.queue[0], Concat(s.queue[1..]));
  }

  lemma PrepareStepKeeps(s: State)
    requires Invariant(s) && s.reader.Prepare?
    ensures Invariant(ReaderStep(s))
  {
    if s.pos < |s.buf| {
      CopyKeeps(s);
      ReturnKeeps(Copied(s));
    }
  }

  lemma TakeStepKeeps(s: State)
    requires Invariant(s) && s.reader.Take?
    ensures Invariant(ReaderStep(s))
  {
    if s.queue != [] {
      TakeKeeps(s);
    } else {
      ReturnKeeps(s);
    }
  }

  lemma ReaderKeeps(s: State)
    requires Invariant(s)
    ensures Invariant(ReaderStep(s))
  {
    if s.reader.Prepare? {
      PrepareStepKeeps(s);
    } else if s.reader.Take? {
      TakeStepKeeps(s);
    }
  }

  // --------------------------------------------------------------------- runs

  datatype Move = AddBuffer(b: Bytes) | FinishBegins | FinishNotifies | ReadBegins(n: nat) | ReaderMoves

  function Start(): State {
    State([], [], 0, true, Idle, 0, [], [], false, [])
  }

  /** What a move does when its thread can make it; otherwise nothing happens. */
  ghost function Next(s: State, m: Move): (t: State)
    requires Invariant(s)
    ensures Invariant(t)
  {
    match m
    case AddBuffer(b) => if CanAdd(s) then AddKeeps(s, b); Added(s, b) else s
    case FinishBegins => if CanFinish(s) then FinishKeeps(s); Finishing(s) else s
    case FinishNotifies => if CanNotify(s) then FinishKeeps(s); FinishDone(s) else s
    case ReadBegins(n) => if s.reader.Idle? then BeginKeeps(s, n); Begun(s, n) else s
    case ReaderMoves => ReaderKeeps(s); ReaderStep(s)
  }

  /** The state after any interleaving of the two threads. */
  ghost function Reached(moves: seq<Move>): (s: State)
    ensures Invariant(s)
  {
    if moves == [] then Start() else Next(Reached(moves[..|moves| - 1]), moves[|moves| - 1])
  }

  /** What was delivered, what is left of the buffer and what is queued are what was added, in order. */
  lemma DeliversWhatWasAdded(moves: seq<Move>)
    ensures var s := Reached(moves); s.pos <= |s.buf| && Delivered(s) + s.buf[s.pos..] + Concat(s.queue) == s.added
  {
    assert Invariant(Reached(moves));
  }

  /** A reader never waits for good while there is something for it: a notify is still to come. */
  lemma NoWakeUpIsLost(moves: seq<Move>)
    ensures var s := Reached(moves); s.reader.Waiting? && (s.queue != [] || !s.isOpen) ==> s.finishing && CanNotify(s)
  {
    assert Invariant(Reached(moves));
  }

  /** The reader holds the lock for one step at a time, so the producer always gets to add, to finish and to notify. */
  lemma ProducerGoesOn(moves: seq<Move>, b: Bytes)
    ensures var s := Reached(moves); var soon := if ReaderHoldsLock(s) then Next(s, ReaderMoves) else s;
      && (!s.finishing ==> Next(soon, AddBuffer(b)).added == s.added + b)
      && (!s.finishing ==> Next(s, FinishBegins).finishing && !Next(s, FinishBegins).isOpen)
      && (s.finishing ==> !Next(soon, FinishNotifies).finishing && !Next(soon, FinishNotifies).reader.Waiting?)
  {
    hide Invariant;
  }

  /** The reader gets to begin a call whenever it is in none, and only a wait keeps it from going on. */
  lemma ReaderGoesOn(moves: seq<Move>, n: nat)
    ensures var s := Reached(moves);
      && (s.reader.Idle? && n > 0 ==> Next(s, ReadBegins(n)).want == n && Next(s, ReadBegins(n)).got == [] && !Next(s, ReadBegins(n)).reader.Idle?)
      && (Next(s, ReaderMoves) == s ==> s.reader.Idle? || s.reader.Waiting?)
  {
    var s := Reached(moves);
    assert Invariant(s);
    if s.reader.Prepare? && s.pos < |s.buf| {
      assert Copied(s).pos > s.pos;
    }
  }

  lemma NothingUnread(s: State)
    requires Conserves(s) && s.pos == |s.buf| && s.queue == []
    ensures Delivered(s) == s.added
  {
    assert Delivered(s) + s.buf[s.pos..] + Concat(s.queue) == Delivered(s);
  }

  /** `t` comes of `s` with no call over, or with one that got what it asked for, or with one at the end of the stream. */
  ghost predicate ReturnsProperly(s: State, t: State) {
    t.returned == s.returned ||
    exists r :: t.returned == s.returned + [r]
      && (|r.bytes| == r.want || (|r.bytes| < r.want && !t.isOpen && t.queue == [] && Delivered(t) == t.added))
  }

  lemma MovesReturnProperly(s: State, m: Move)
    requires Invariant(s)
    ensures ReturnsProperly(s, Next(s, m))
  {
    var t := Next(s, m);
    if s.reader.Take? && s.queue == [] && m.ReaderMoves? {
      ReturnKeeps(s);
      NothingUnread(s);
    }
    if |t.returned| == |s.returned| + 1 {
      assert t.returned == s.returned + [t.returned[|s.returned|]];
    }
  }

  /** A call gives less than it was asked for only when the stream is finished and everything added has been delivered. */
  lemma ShortReadsEndTheStream(moves: seq<Move>, m: Move)
    ensures ReturnsProperly(Reached(moves), Reached(moves + [m]))
  {
    assert (moves + [m])[..|moves|] == moves;
    MovesReturnProperly(Reached(moves), m);
  }

  /** The reader goes on, with the producer still, until its call is over or it waits. */
  ghost function ReadOn(s: State): (t: State)
    requires Invariant(s)
    ensures Invariant(t) && (t.reader.Idle? || t.reader.Waiting?) && t.added == s.added
    decreases |s.queue|, |s.buf| - s.pos, match s.reader case Prepare => 3 case Woken => 3 case Checked => 1 case Take => 2 case Waiting => 0 case Idle => 0
  {
    ReaderKeeps(s);
    if s.reader.Idle? || s.reader.Waiting? then s else ReadOn(ReaderStep(s))
  }

  ghost function Unread(s: State): Bytes
    requires s.pos <= |s.buf|
  {
    s.buf[s.pos..] + Concat(s.queue)
  }

  /** All a call can give without waiting. */
  ghost function AtHand(s: State): Bytes
    requires s.pos <= |s.buf|
  {
    s.got + Unread(s)
  }

  /** What a call does once it may go on: it gives what it was asked for if that much is there, all there is if the stream is finished, and waits otherwise. */
  ghost predicate ReadsWhatIsThere(s: State, all: Bytes, t: State) {
    if |all| >= s.want then t.reader.Idle? && t.returned == s.returned + [Returned(s.want, all[..s.want])]
    else if s.isOpen then t.reader.Waiting? && t.returned == s.returned && t.got == all
    else t.reader.Idle? && t.returned == s.returned + [Returned(s.want, all)]
  }

  lemma Shift(got: Bytes, buf: Bytes, pos: nat, part: nat, rest: Bytes)
    requires pos + part <= |buf|
    ensures (got + buf[pos..pos + part]) + (buf[pos + part..] + rest) == got + (buf[pos..] + rest)
  {
    assert buf[pos..] == buf[pos..pos + part] + buf[pos + part..];
    Associative(buf[pos..pos + part], buf[pos + part..], rest);
    Associative(got, buf[pos..pos + part], buf[pos + part..] + rest);
  }

  lemma CopyMoves(s: State)
    requires s.pos <= |s.buf| && |s.got| < s.want
    ensures AtHand(Copied(s)) == AtHand(s)
  {
    Shift(s.got, s.buf, s.pos, Copied(s).pos - s.pos, Concat(s.queue));
  }

  lemma CopyGives(s: State)
    requires s.pos <= |s.buf| && |s.got| < s.want
    ensures var t := Copied(s); |t.got| <= |AtHand(s)| && t.got == AtHand(s)[..|t.got|]
  {
    CopyMoves(s);
  }

  lemma TakeMoves(s: State)
    requires s.pos == |s.buf| && s.queue != []
    ensures AtHand(Taken(s)) == AtHand(s)
  {
    assert s.buf[s.pos..] == [] && s.queue[0][0..] == s.queue[0];
  }

  lemma NothingAtHand(s: State)
    requires s.pos == |s.buf| && s.queue == []
    ensures AtHand(s) == s.got
  {
  }

  /** A step leaves what is at hand alone, or is the last. */
  ghost predicate ReadsOn(s: State, t: State)
    requires t.pos <= |t.buf| && s.pos <= |s.buf|
  {
    match t.reader
    case Idle => ReadsWhatIsThere(s, AtHand(s), t)
    case Checked => t.isOpen && ReadsWhatIsThere(s, AtHand(s), t.(reader := Waiting))
    case _ => AtHand(t) == AtHand(s) && t.want == s.want && t.returned == s.returned && t.isOpen == s.isOpen
  }

  lemma StepReads(s: State)
    requires Invariant(s) && (s.reader.Prepare? || s.reader.Woken? || s.reader.Take?)
    ensures Invariant(ReaderStep(s)) && ReadsOn(s, ReaderStep(s))
  {
    ReaderKeeps(s);
    if s.reader.Prepare? && s.pos < |s.buf| {
      CopyMoves(s);
      CopyGives(s);
    } else if s.queue == [] {
      NothingAtHand(s);
    } else if s.reader.Take? {
      TakeMoves(s);
    }
  }

  lemma {:induction false} ReadOnReads(s: State)
    requires Invariant(s) && (s.reader.Prepare? || s.reader.Woken? || s.reader.Take?)
    ensures ReadsWhatIsThere(s, AtHand(s), ReadOn(s))
    decreases |s.queue|, |s.buf| - s.pos, match s.reader case Prepare => 3 case Woken => 3 case Checked => 1 case Take => 2 case Waiting => 0 case Idle => 0
  {
    var t := ReaderStep(s);
    StepReads(s);
    if t.reader.Checked? {
      ReaderKeeps(t);
      assert ReadOn(t) == ReadOn(ReaderStep(t)) == ReaderStep(t);
    } else if !t.reader.Idle? {
      ReadOnReads(t);
    }
  }

  // ----------------------------------------- a call with the producer still

  /** A call at `prepareBuf` copies what is left in the buffer, and is over or has used it up. */
  lemma CopiesOn(s: State)
    requires Invariant(s) && s.reader.Prepare?
    ensures var c := Copied(s);
      if |c.got| < s.want then Invariant(c) && ReadOn(c) == ReadOn(s) && c.pos == |c.buf| else |c.got| == s.want && ReadOn(s) == Over(c)
  {
    ReaderKeeps(s);
    if s.pos == |s.buf| {
      assert s.got + s.buf[s.pos..s.pos] == s.got;
      assert Copied(s) == s;
    }
  }

  /** With none left, it takes the next buffer, or waits, or is over. */
  lemma PreparesOn(s: State)
    requires Invariant(s) && s.reader.Prepare? && s.pos == |s.buf|
    ensures if s.queue != [] then Invariant(Taken(s)) && ReadOn(s) == ReadOn(Taken(s))
            else if s.isOpen then ReadOn(s) == s.(reader := Waiting)
            else ReadOn(s) == Over(s)
  {
    var t := ReaderStep(s);
    ReaderKeeps(s);
    ReaderKeeps(t);
    ReaderKeeps(ReaderStep(t));
    assert ReadOn(s) == ReadOn(t) == ReadOn(ReaderStep(t));
  }

  datatype Prepared = Ready | Ended | Waits

  /** What `read` comes to; a call that waits has read some bytes already. */
  datatype ReadResult = OutOfBounds | Count(n: int) | StillWaits(read: nat)

  /**
    What a call that began in state `s` and ended up in state `t` says. The end of
    the stream is told apart from buffers with nothing in them.
  */
  function Told(s: State, t: State): ReadResult
    requires t.reader.Waiting? || t.returned != []
  {
    if t.reader.Waiting? then StillWaits(|t.got|)
    else if s.pos == |s.buf| && s.queue == [] then Count(-1)
    else Count(|t.returned[|t.returned| - 1].bytes|)
  }

  function Given(t: State): Bytes
    requires t.reader.Waiting? || t.returned != []
  {
    if t.reader.Waiting? then t.got else t.returned[|t.returned| - 1].bytes
  }

  /**
    What `read` gives of all the bytes there are: as many as it wants, or else all
    of them. With less than it wants it waits while the stream is open; the end is
    told only when there is no buffer left at all.
  */
  ghost predicate Gives(all: Bytes, isOpen: bool, noBuffer: bool, want: nat, slice: Bytes, r: ReadResult)
    requires |slice| == want
  {
    if |all| >= want then r == Count(want) && slice == all[..want]
    else slice[..|all|] == all && r == (if isOpen then StillWaits(|all|) else if noBuffer then Count(-1) else Count(|all|))
  }

  /** What a call does, told from the bytes there are. */
  lemma CallGives(s: State, slice: Bytes)
    requires Invariant(s) && s.reader.Prepare? && s.got == [] && |slice| == s.want
    requires var t := ReadOn(s); (t.reader.Waiting? || t.returned != []) && Given(t) <= slice
    ensures Gives(Unread(s), s.isOpen, s.pos == |s.buf| && s.queue == [], s.want, slice, Told(s, ReadOn(s)))
  {
    ReadOnReads(s);
    hide ReadOn, Invariant, Unread;
    assert AtHand(s) == Unread(s);
  }

  /** And it leaves the others unread. */
  lemma CallLeaves(s: State)
    requires Invariant(s) && s.reader.Prepare? && s.got == []
    ensures Unread(ReadOn(s)) == Unread(s)[Min(s.want, |Unread(s)|)..]
  {
    var t, all := ReadOn(s), Unread(s);
    var given := all[..Min(s.want, |all|)];
    ReadOnReads(s);
    Balance(s);
    Balance(t);
    assert AtHand(s) == all;
    hide ReadOn, Invariant, Unread, Conserves;
    assert Delivered(t) == Delivered(s) + given by {
      assert AllReturned(s.returned) + [] == AllReturned(s.returned);
      ReturnedAppend(s.returned, Returned(s.want, given));
    }
    Balanced(Delivered(s), given, Unread(t), all);
  }

  lemma Balance(s: State)
    requires Invariant(s)
    ensures Delivered(s) + Unread(s) == s.added && (s.reader.Idle? ==> s.got == [])
  {
    Associative(Delivered(s), s.buf[s.pos..], Concat(s.queue));
  }

  lemma Balanced(before: Bytes, given: Bytes, left: Bytes, all: Bytes)
    requires (before + given) + left == before + all
    ensures left == all[|given|..]
  {
    Associative(before, given, left);
    assert (before + (given + left))[|before|..] == given + left && (before + all)[|before|..] == all;
  }

  /** What `read()` comes to. */
  datatype ByteResult = AByte(b: Byte) | AtEnd | Fails | ByteWaits

  /** The next buffer is needed, and there is nothing in it. */
  predicate FailsNext(s: State) {
    s.pos == |s.buf| && s.queue != [] && s.queue[0] == []
  }

  function AfterFailure(s: State): State
    requires s.queue != []
  {
    s.(buf := s.queue[0], queue := s.queue[1..], pos := 0)
  }

  /** The stream as a call leaves it, once it is over or waits. */
  function Left(t: State): State {
    t.(reader := Idle, want := 0, got := [])
  }

  lemma IdleAgain(t: State)
    requires Invariant(t) && t.reader.Idle?
    ensures Invariant(Left(t))
  {
    assert Delivered(Left(t)) == Delivered(t);
  }

  function ByteTold(t: State): ByteResult {
    if t.reader.Waiting? then ByteWaits
    else if t.returned == [] || t.returned[|t.returned| - 1].bytes == [] then AtEnd
    else AByte(t.returned[|t.returned| - 1].bytes[0])
  }

  /** What a read of one comes to: the next byte, none at the end, or a wait. */
  function OneRead(b: State): State
    requires b.pos <= |b.buf| && !FailsNext(b)
  {
    if b.pos < |b.buf| then
      b.(reader := Idle, pos := b.pos + 1, returned := b.returned + [Returned(1, [b.buf[b.pos]])])
    else if b.queue != [] then
      b.(reader := Idle, buf := b.queue[0], queue := b.queue[1..], pos := 1, returned := b.returned + [Returned(1, [b.queue[0][0]])])
    else if b.isOpen then b.(reader := Waiting)
    else b.(reader := Idle, returned := b.returned + [Returned(1, [])])
  }

  /** A read of one that does not fail gives the next byte of all there are, if there is one. */
  lemma ByteGives(b: State)
    requires Invariant(b) && !FailsNext(b) && b.got == [] && b.want == 1
    ensures var all := Unread(b); var t := OneRead(b);
      && t.pos <= |t.buf| && ByteTold(t) == (if all != [] then AByte(all[0]) else if b.isOpen then ByteWaits else AtEnd)
      && Unread(t) == if all != [] then all[1..] else []
  {
    if b.pos < |b.buf| {
      assert b.buf[b.pos..] == [b.buf[b.pos]] + b.buf[b.pos + 1..];
      Associative([b.buf[b.pos]], b.buf[b.pos + 1..], Concat(b.queue));
    } else {
      assert b.buf[b.pos..] == [];
      if b.queue != [] {
        var next := b.queue[0];
        assert next == [next[0]] + next[1..];
        Associative([next[0]], next[1..], Concat(b.queue[1..]));
      }
    }
  }

  lemma ByteIsCopied(b: State)
    requires Invariant(b) && b.reader.Prepare? && b.want == 1 && b.got == [] && b.pos < |b.buf|
    ensures ReadOn(b) == b.(reader := Idle, pos := b.pos + 1, returned := b.returned + [Returned(1, [b.buf[b.pos]])])
  {
    CopiesOn(b);
    hide ReadOn, Invariant;
    assert b.got + b.buf[b.pos..b.pos + 1] == [b.buf[b.pos]];
  }

  /** Only an empty buffer is what a read of one passes over, and the single-byte read does not. */
  lemma ByteReads(s: State)
    requires Invariant(s) && s.reader.Idle? && !s.finishing
    ensures Invariant(Begun(s, 1))
    ensures FailsNext(s) ==> Invariant(AfterFailure(s))
    ensures !FailsNext(s) ==> ReadOn(Begun(s, 1)) == OneRead(Begun(s, 1))
    ensures !FailsNext(s) && OneRead(Begun(s, 1)).reader.Idle? ==> Invariant(Left(OneRead(Begun(s, 1))))
  {
    var b := Begun(s, 1);
    BeginKeeps(s, 1);
    if ReadOn(b).reader.Idle? {
      IdleAgain(ReadOn(b));
    }
    hide ReadOn;
    if s.pos < |s.buf| {
      ByteIsCopied(b);
    } else {
      PreparesOn(b);
      if s.queue != [] {
        TakeKeeps(s);
        if s.queue[0] != [] {
          ByteIsCopied(Taken(b));
        }
      }
    }
  }

  class QueueInputStream {
    var queue: seq<Bytes>
    var buf: Bytes
    var pos: nat
    var isOpen: bool
    ghost var returned: seq<Returned>
    ghost var added: Bytes

    constructor ()
      ensures Valid() && Between() == Start()
    {
      queue, buf, pos, isOpen := [], [], 0, true;
      returned, added := [], [];
    }

    /** How much of the buffer is used up; a read that failed has counted a byte that is not there. */
    ghost function At(): nat
      reads this
    {
      Min(pos, |buf|)
    }

    /** The stream while no call is under way. */
    ghost function Between(): State
      reads this
    {
      State(queue, buf, At(), isOpen, Idle, 0, [], returned, false, added)
    }

    /** The stream in a call for `want` bytes that has got some. */
    ghost function Reading(want: nat, got: Bytes): State
      reads this
    {
      State(queue, buf, At(), isOpen, Prepare, want, got, returned, false, added)
    }

    ghost predicate Valid()
      reads this
    {
      Invariant(Between())
    }

    method AddBuffer(b: Bytes)
      requires Valid()
      modifies this
      ensures Valid() && Between() == Added(old(Between()), b)
    {
      AddKeeps(Between(), b);
      queue := queue + [b];
      added := added + b;
    }

    method Finish()
      requires Valid()
      modifies this
      ensures Valid() && Between() == FinishDone(Finishing(old(Between())))
    {
      isOpen := false;
    }

    /** `prepareBuf`, up to where it would wait. */
    method PrepareBuf() returns (r: Prepared)
      modifies this`queue, this`buf, this`pos
      ensures r.Ready? ==> pos <= |buf|
      ensures if old(pos) < |old(buf)| || old(queue) == []
              then queue == old(queue) && buf == old(buf) && pos == old(pos)
              else queue == old(queue)[1..] && buf == old(queue)[0] && pos == 0
      ensures r == if old(pos) < |old(buf)| || old(queue) != [] then Ready else if isOpen then Waits else Ended
    {
      if pos < |buf| {
        return Ready;
      }
      if isOpen && queue == [] {
        return Waits;
      }
      if queue != [] {
        buf, queue := queue[0], queue[1..];
        pos := 0;
        return Ready;
      }
      return Ended;
    }

    /**
      `read()`: a read of one, which fails on the one input that is not safe for it,
      an empty buffer next in the queue. That buffer is used up, and no byte lost.
    */
    method ReadByte() returns (r: ByteResult)
      requires Valid()
      modifies this
      ensures r.Fails? <==> FailsNext(old(Between()))
      ensures r.Fails? ==> Valid() && Between() == AfterFailure(old(Between()))
      ensures !r.Fails? ==> Invariant(Begun(old(Between()), 1)) && Between() == Left(ReadOn(Begun(old(Between()), 1)))
      ensures !r.Fails? ==> r == ByteTold(ReadOn(Begun(old(Between()), 1)))
      ensures !r.Fails? ==> r == (if old(Unread(Between())) != [] then AByte(old(Unread(Between()))[0]) else if old(isOpen) then ByteWaits else AtEnd)
      ensures !r.Fails? ==> Unread(Between()) == if old(Unread(Between())) != [] then old(Unread(Between()))[1..] else []
      ensures !r.ByteWaits? ==> Valid()
    {
      ByteReads(Between());
      if !FailsNext(Between()) {
        ByteGives(Begun(Between(), 1));
      }
      hide ReadOn, Invariant, OneRead, FailsNext;
      r := TakeByte();
    }

    /** The two steps of `read()`: the buffer is made ready, and a byte taken out of it. */
    method TakeByte() returns (r: ByteResult)
      modifies this`queue, this`buf, this`pos, this`returned
      ensures r.Fails? <==> FailsNext(old(Between()))
      ensures Between() == if r.Fails? then AfterFailure(old(Between())) else Left(OneRead(Begun(old(Between()), 1)))
      ensures r == if r.Fails? then Fails else ByteTold(OneRead(Begun(old(Between()), 1)))
    {
      var prepared := PrepareBuf();
      match prepared
      case Waits =>
        return ByteWaits;
      case Ended =>
        returned := returned + [Returned(1, [])];
        return AtEnd;
      case Ready =>
        pos := pos + 1;
        if pos > |buf| {
          return Fails;
        }
        returned := returned + [Returned(1, [buf[pos - 1]])];
        return AByte(buf[pos - 1]);
    }

    /** `System.arraycopy` out of the buffer. */
    method CopyOut(b: array<Byte>, at: nat, part: nat)
      requires pos + part <= |buf| && at + part <= b.Length
      modifies this`pos, b
      ensures Overwritten(old(b[..]), at, buf[old(pos)..old(pos) + part], b[..]) && pos == old(pos) + part
    {
      forall i | 0 <= i < part {
        b[at + i] := buf[pos + i];
      }
      pos := pos + part;
    }

    /** Copies as much as there is or is wanted, behind what the call has got already. */
    method CopyMore(len: nat, ghost got: Bytes, ghost was: Bytes, off: nat, b: array<Byte>, read: nat) returns (part: nat, ghost more: Bytes)
      requires pos <= |buf| && |got| == read <= len && off + len <= b.Length && Overwritten(was, off, got, b[..])
      modifies this`pos, b
      ensures Reading(len, more) == Copied(old(Reading(len, got))) && |more| == read + part && pos <= |buf|
      ensures Overwritten(was, off, more, b[..])
    {
      ghost var between, from := b[..], pos;
      part := Min(|buf| - pos, len - read);
      more := got + buf[from..from + part];
      CopyOut(b, off + read, part);
      OverwrittenTwice(was, off, got, between, buf[from..from + part], b[..]);
    }

    /**
      `read(byte[], int, int)`: copies from buffer after buffer into the slice, and
      into nothing else, until it is full, the stream has ended, or it has to wait.
    */
    method Read(b: array<Byte>, off: int, len: int) returns (r: ReadResult)
      requires Valid()
      modifies this, b
      ensures r == OutOfBounds <==> off < 0 || len < 0 || off + len > b.Length
      ensures r == OutOfBounds || len == 0 ==> b[..] == old(b[..]) && Between() == old(Between())
      ensures r != OutOfBounds && len == 0 ==> r == Count(0)
      ensures !r.StillWaits? ==> Valid()
      ensures r != OutOfBounds && len > 0 ==> Invariant(Begun(old(Between()), len)) && Ends(Begun(old(Between()), len), len, off, old(b[..]), b[..], r)
      ensures r != OutOfBounds && len > 0 ==>
        Gives(old(Unread(Between())), old(isOpen), old(At()) == |old(buf)| && old(queue) == [], len, b[off..off + len], r)
      ensures r != OutOfBounds && len > 0 ==> Unread(Between()) == old(Unread(Between()))[Min(len, |old(Unread(Between()))|)..]
    {
      if off < 0 || len < 0 || off + len > b.Length {
        return OutOfBounds;
      }
      if len == 0 {
        return Count(0);
      }
      BeginKeeps(Between(), len);
      ghost var s, was := Begun(Between(), len), b[..];
      hide Invariant, Ends;
      r := CopyBuffers(b, off, len);
      if !r.StillWaits? {
        StaysValid(s, len, off, was, b[..], r);
      }
      EndGives(s, len, off, was, b[..], r);
    }

    /** The copy loop. */
    method CopyBuffers(b: array<Byte>, off: nat, len: nat) returns (r: ReadResult)
      requires Valid() && 0 < len && off + len <= b.Length
      modifies this, b
      ensures r != OutOfBounds && Invariant(Begun(old(Between()), len))
      ensures Ends(Begun(old(Between()), len), len, off, old(b[..]), b[..], r)
    {
      BeginKeeps(Between(), len);
      ghost var s := Begun(Between(), len);
      ghost var was, got := b[..], [];
      assert s == Reading(len, got) && InCall(s, len, got, was, off, b[..]);
      hide InCall, Ends, ReadOn, Invariant;
      var prepared := PrepareFor(s, len, got, was, off, b);
      if prepared.Waits? {
        return StillWaits(0);
      }
      if prepared.Ended? {
        return Count(-1);
      }
      var read := 0;
      while read < len
        invariant |got| == read <= len && 0 <= off <= off + len <= b.Length
        invariant read < len ==> InCall(s, len, got, was, off, b[..]) && pos <= |buf|
        invariant read == len ==> Ends(s, len, off, was, b[..], Count(read))
        invariant s.pos < |s.buf| || s.queue != []
        decreases |queue|, len - read
      {
        var part;
        part, got := CopyFor(s, len, got, was, off, b, read);
        read := read + part;
        if read < len {
          prepared := PrepareFor(s, len, got, was, off, b);
          if prepared.Waits? {
            return StillWaits(read);
          }
          if prepared.Ended? {
            return Count(read);
          }
        }
      }
      return Count(read);
    }

    lemma StaysValid(s: State, len: nat, off: nat, was: Bytes, now: Bytes, r: ReadResult)
      requires Invariant(s) && Ends(s, len, off, was, now, r) && !r.StillWaits?
      ensures Valid()
    {
      IdleAgain(ReadOn(s));
    }

    lemma EndGives(s: State, len: nat, off: nat, was: Bytes, now: Bytes, r: ReadResult)
      requires Invariant(s) && Ends(s, len, off, was, now, r) && off + len <= |now|
      requires s.reader.Prepare? && s.got == [] && s.want == len
      ensures Gives(Unread(s), s.isOpen, s.pos == |s.buf| && s.queue == [], len, now[off..off + len], r)
      ensures Unread(Between()) == Unread(s)[Min(len, |Unread(s)|)..]
    {
      var t := ReadOn(s);
      ReadOnReads(s);
      CallLeaves(s);
      hide ReadOn, Invariant, Gives;
      assert Given(t) == now[off..off + |Given(t)|];
      assert now[off..off + len][..|Given(t)|] == Given(t);
      CallGives(s, now[off..off + len]);
    }

    /** `prepareBuf` in a call: the call goes on, or this is the end of it. */
    method PrepareFor(ghost s: State, ghost len: nat, ghost got: Bytes, ghost was: Bytes, ghost off: nat, ghost b: array<Byte>)
      returns (r: Prepared)
      requires Invariant(s) && InCall(s, len, got, was, off, b[..])
      modifies this
      ensures b[..] == old(b[..])
      ensures r.Ready? ==> InCall(s, len, got, was, off, b[..]) && pos <= |buf|
      ensures r.Ready? ==> |queue| < old(|queue|) || (old(pos) < |old(buf)| && queue == old(queue))
      ensures r.Waits? ==> Ends(s, len, off, was, b[..], StillWaits(|got|))
      ensures r.Ended? ==> old(At()) == |old(buf)| && old(queue) == []
      ensures r.Ended? ==> Ends(s, len, off, was, b[..], Count(if s.pos == |s.buf| && s.queue == [] then -1 else |got|))
    {
      hide ReadOn, Conserves, WakesUp;
      ghost var before := Reading(len, got);
      if pos >= |buf| {
        PreparesOn(before);
      }
      r := PrepareBuf();
      if r.Ended? {
        returned := returned + [Returned(len, got)];
      }
    }

    /** One copy out of the buffer: the call goes on with the buffer used up, or has all it wants. */
    method CopyFor(ghost s: State, len: nat, ghost got: Bytes, ghost was: Bytes, off: nat, b: array<Byte>, read: nat)
      returns (part: nat, ghost more: Bytes)
      requires Invariant(s) && InCall(s, len, got, was, off, b[..]) && |got| == read && off + len <= b.Length && pos <= |buf|
      requires s.pos < |s.buf| || s.queue != []
      modifies this, b
      ensures queue == old(queue) && |more| == read + part <= len
      ensures if read + part < len then InCall(s, len, more, was, off, b[..]) && pos == |buf|
              else Ends(s, len, off, was, b[..], Count(len))
    {
      CopiesOn(Reading(len, got));
      part, more := CopyMore(len, got, was, off, b, read);
      if read + part == len {
        returned := returned + [Returned(len, more)];
      }
    }

    /** In a call that began in state `s`: it goes on as it did from there, and the slice holds what it has got. */
    ghost predicate InCall(s: State, len: nat, got: Bytes, was: Bytes, off: nat, now: Bytes)
      reads this
      requires Invariant(s)
    {
      && |got| < len && Invariant(Reading(len, got)) && ReadOn(Reading(len, got)) == ReadOn(s)
      && Overwritten(was, off, got, now)
    }

    /** A call that began in state `s` is where `ReadOn` says, having given and told what that says. */
    ghost predicate Ends(s: State, len: nat, off: nat, was: Bytes, now: Bytes, r: ReadResult)
      reads this
      requires Invariant(s)
    {
      var t := ReadOn(s);
      && (t.reader.Waiting? || t.returned != []) && r == Told(s, t) && Overwritten(was, off, Given(t), now)
      && t == State(queue, buf, At(), isOpen, t.reader, len, t.got, returned, false, added)
    }
  }
}
