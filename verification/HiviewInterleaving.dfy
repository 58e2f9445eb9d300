/**
 The cache under interruption.  A write is one locked step.  A read is several: the unlocked size
 check, the locked cursor computation, the unlocked byte-by-byte copy, and the locked decrement of
 usedSize (left out by a preread).  Writes may fall between any two of them.
 */
module HiviewInterleavings {
  import opened Bytes
  import opened HiviewCaches

  // start is what was unread when the read began; copied is what has reached the caller's buffer.
  datatype Reader =
    | Idle
    | Checked(n: nat, peek: bool, start: seq<Byte>)
    | Copying(n: nat, peek: bool, start: seq<Byte>, cursor: nat, copied: seq<Byte>)

  // written and delivered: all bytes accepted, and all bytes handed over by reads, since the last discard.
  datatype State = State(ring: Ring, reader: Reader, written: seq<Byte>, delivered: seq<Byte>)

  datatype Step = Write(data: seq<Byte>) | Begin(n: nat, peek: bool) | TakeCursor | CopyByte | Finish | Discard

  function Init(memory: seq<Byte>): State {
    State(Ring(memory, 0, 0), Idle, [], [])
  }

  // The k-th byte copied, given the cursor taken: one run of bytes, or two if it passes the end.
  function SourceCell(size: nat, cursor: nat, n: nat, k: nat): int {
    if cursor + n > size && k >= size - cursor then k - (size - cursor) else cursor + k
  }

  // One step; a step that is not enabled, or a call that returns -1, changes nothing.
  function Apply(s: State, step: Step): (t: State)
    requires s.ring.Ok()
    ensures t.ring.Ok() && |t.ring.buffer| == |s.ring.buffer|
  {
    match step
    case Write(d) =>
      if s.ring.HasRoom(|d|) then s.(ring := s.ring.Written(d), written := s.written + d) else s
    case Begin(n, peek) =>
      if s.reader.Idle? && 0 < n <= s.ring.usedSize then s.(reader := Checked(n, peek, s.ring.Contents())) else s
    case TakeCursor =>
      if s.reader.Checked?
      then s.(reader := Copying(s.reader.n, s.reader.peek, s.reader.start, s.ring.ReadCursor(), []))
      else s
    case CopyByte =>
      if s.reader.Copying? && |s.reader.copied| < s.reader.n
         && 0 <= SourceCell(|s.ring.buffer|, s.reader.cursor, s.reader.n, |s.reader.copied|) < |s.ring.buffer|
      then
        var cell := SourceCell(|s.ring.buffer|, s.reader.cursor, s.reader.n, |s.reader.copied|);
        s.(reader := s.reader.(copied := s.reader.copied + [s.ring.buffer[cell]]))
      else s
    case Finish =>
      if CanFinish(s) then
        if s.reader.peek then s.(reader := Idle)
        else s.(reader := Idle, ring := s.ring.Consumed(s.reader.n), delivered := s.delivered + s.reader.copied)
      else s
    case Discard =>
      if s.reader.Idle? then State(Ring(s.ring.buffer, 0, 0), Idle, [], []) else s
  }

  predicate CanFinish(s: State) {
    s.reader.Copying? && |s.reader.copied| == s.reader.n <= s.ring.usedSize
  }

  function Run(s: State, steps: seq<Step>): (t: State)
    requires s.ring.Ok()
    ensures t.ring.Ok()
  {
    if steps == [] then s else Apply(Run(s, steps[..|steps| - 1]), steps[|steps| - 1])
  }

  ghost predicate Inv(s: State) {
    && s.ring.Ok()
    && s.delivered + s.ring.Contents() == s.written
    && (!s.reader.Idle? ==> 0 < s.reader.n <= |s.reader.start| && s.reader.start <= s.ring.Contents())
    && (s.reader.Copying? ==>
          && s.reader.cursor == s.ring.ReadCursor()
          && |s.reader.copied| <= s.reader.n
          && s.reader.copied == s.reader.start[..|s.reader.copied|])
  }

  lemma ApplyKeepsInv(s: State, step: Step)
    requires Inv(s)
    ensures Inv(Apply(s, step))
  {
    match step
    case Write(d) =>
      if s.ring.HasRoom(|d|) { WriteKeepsInv(s, d); }
    case CopyByte =>
      if s.reader.Copying? && |s.reader.copied| < s.reader.n { CopyKeepsInv(s); }
    case Finish =>
      if CanFinish(s) { FinishKeepsInv(s); }
    case _ =>
  }

  lemma WriteKeepsInv(s: State, d: seq<Byte>)
    requires Inv(s) && s.ring.HasRoom(|d|)
    ensures Inv(Apply(s, Write(d)))
  {
    WriteAppends(s.ring, d);
    hide Ring.Written, Ring.Contents, Ring.ReadCursor;
    assert s.delivered + (s.ring.Contents() + d) == (s.delivered + s.ring.Contents()) + d;
  }

  lemma CopyKeepsInv(s: State)
    requires Inv(s) && s.reader.Copying? && |s.reader.copied| < s.reader.n
    ensures Inv(Apply(s, CopyByte)) && |Apply(s, CopyByte).reader.copied| == |s.reader.copied| + 1
  {
    var k, c := |s.reader.copied|, s.ring.Contents();
    var cell := SourceCell(|s.ring.buffer|, s.reader.cursor, s.reader.n, k);
    assert cell == s.ring.Cell(k) && s.ring.buffer[cell] == c[k] == s.reader.start[k];
    hide Ring.Contents, Ring.Cell, Ring.ReadCursor, SourceCell;
    assert s.reader.start[..k + 1] == s.reader.start[..k] + [s.reader.start[k]];
  }

  lemma FinishKeepsInv(s: State)
    requires Inv(s) && CanFinish(s)
    ensures Inv(Apply(s, Finish)) && s.reader.copied == s.reader.start[..s.reader.n] == s.ring.Contents()[..s.reader.n]
  {
    ReadTakesOldest(s.ring, s.reader.n);
    var c, n := s.ring.Contents(), s.reader.n;
    PrefixTakes(s.reader.start, c, n);
    assert s.reader.copied == c[..n];
    hide Ring.Contents, Ring.ReadCursor, Inv;
    assert s.delivered + c == s.written by { InvQueue(s); }
    TakeAcross(s.delivered, c, n);
  }

  lemma InvQueue(s: State)
    requires Inv(s)
    ensures s.delivered + s.ring.Contents() == s.written
  {
  }

  lemma PrefixTakes(a: seq<Byte>, c: seq<Byte>, n: nat)
    requires a <= c && n <= |a|
    ensures a[..n] == c[..n]
  {
  }

  lemma TakeAcross(d: seq<Byte>, c: seq<Byte>, n: nat)
    requires n <= |c|
    ensures d + c == (d + c[..n]) + c[n..]
  {
  }

  /** Every reachable state keeps the FIFO order: delivered bytes, then unread bytes, are the written bytes. */
  lemma {:induction false} RunKeepsInv(memory: seq<Byte>, steps: seq<Step>)
    requires |memory| < 0x1_0000
    ensures Inv(Run(Init(memory), steps))
  {
    if steps != [] {
      RunKeepsInv(memory, steps[..|steps| - 1]);
      ApplyKeepsInv(Run(Init(memory), steps[..|steps| - 1]), steps[|steps| - 1]);
    }
  }

  // t lies inside a read of n bytes begun in s: what is unread has only grown, and the copy so far,
  // the next byte and the final hand-over are all of the bytes unread in s.
  ghost predicate Reading(s: State, t: State, n: nat, peek: bool)
    requires s.ring.Ok() && t.ring.Ok()
  {
    var c := s.ring.Contents();
    && !t.reader.Idle? && t.reader.n == n <= |c| && t.reader.peek == peek && t.reader.start == c
    && n <= t.ring.usedSize && c <= t.ring.Contents() && t.delivered == s.delivered
    && (t.reader.Copying? ==>
          && |t.reader.copied| <= n && t.reader.copied == c[..|t.reader.copied|]
          && (if |t.reader.copied| < n then |Apply(t, CopyByte).reader.copied| == |t.reader.copied| + 1
              else CanFinish(t) && Apply(t, Finish).delivered == s.delivered + if peek then [] else c[..n]))
  }

  /** A read of n bytes, through any writes that fall between its steps, is never blocked and returns
      exactly the n bytes that were oldest when it began; a preread returns the same and takes nothing. */
  lemma {:induction false} ReadReturnsOldest(
      memory: seq<Byte>, before: seq<Step>, n: nat, peek: bool, during: seq<Step>)
    requires |memory| < 0x1_0000
    requires Run(Init(memory), before).reader.Idle? && 0 < n <= Run(Init(memory), before).ring.usedSize
    requires forall i :: 0 <= i < |during| ==> !during[i].Finish?
    ensures Reading(Run(Init(memory), before), Run(Init(memory), before + [Begin(n, peek)] + during), n, peek)
  {
    var s, steps := Run(Init(memory), before), before + [Begin(n, peek)] + during;
    if during == [] {
      assert steps[..|steps| - 1] == before;
      RunKeepsInv(memory, before);
    } else {
      var less := during[..|during| - 1];
      var earlier := before + [Begin(n, peek)] + less;
      assert steps[..|steps| - 1] == earlier && steps[|steps| - 1] == during[|less|];
      ReadReturnsOldest(memory, before, n, peek, less);
      RunKeepsInv(memory, earlier);
      ReadingStays(s, Run(Init(memory), earlier), n, peek, during[|less|]);
    }
  }

  lemma ReadingStays(s: State, t: State, n: nat, peek: bool, step: Step)
    requires s.ring.Ok() && Inv(t) && Reading(s, t, n, peek) && !step.Finish?
    ensures Reading(s, Apply(t, step), n, peek)
  {
    var u := Apply(t, step);
    ApplyKeepsInv(t, step);
    if step.Write? && t.ring.HasRoom(|step.data|) { WriteAppends(t.ring, step.data); }
    hide Ring.Contents, Ring.Written, Ring.ReadCursor;
    assert u.reader.start == s.ring.Contents() && u.delivered == s.delivered;
    if u.reader.Copying? && |u.reader.copied| < n { CopyKeepsInv(u); }
  }

  // How many bytes the steps copy, if each copies one.
  function Copies(steps: seq<Step>): nat {
    if steps == [] then 0
    else Copies(steps[..|steps| - 1]) + if steps[|steps| - 1].CopyByte? then 1 else 0
  }

  // How far a read of n bytes is: nowhere until the cursor is taken, then one byte for each copying step up to n.
  ghost predicate Advanced(reader: Reader, n: nat, during: seq<Step>) {
    && (reader.Checked? <==> TakeCursor !in during)
    && (reader.Copying? ==> forall i: nat :: i < |during| && during[i].TakeCursor? && TakeCursor !in during[..i] ==>
          |reader.copied| == if Copies(during[i + 1..]) < n then Copies(during[i + 1..]) else n)
  }

  lemma CopiesStep(steps: seq<Step>, i: nat, step: Step)
    requires i <= |steps|
    ensures Copies((steps + [step])[i..]) == Copies(steps[i..]) + if step.CopyByte? then 1 else 0
  {
    assert (steps + [step])[i..] == steps[i..] + [step];
    assert (steps[i..] + [step])[..|steps| - i] == steps[i..];
  }

  // A step within a read moves it on as it should.
  lemma AdvancedOn(s: State, t: State, n: nat, peek: bool, during: seq<Step>, step: Step)
    requires s.ring.Ok() && t.ring.Ok() && Reading(s, t, n, peek) && !step.Finish? && Advanced(t.reader, n, during)
    ensures Advanced(Apply(t, step).reader, n, during + [step])
  {
    hide Copies, Ring.Contents, Ring.Written, Ring.ReadCursor, SourceCell;
    var u, after := Apply(t, step), during + [step];
    if u.reader.Copying? {
      forall i: nat | i < |after| && after[i].TakeCursor? && TakeCursor !in after[..i]
        ensures |u.reader.copied| == if Copies(after[i + 1..]) < n then Copies(after[i + 1..]) else n
      {
        if i < |during| {
          assert after[..i] == during[..i];
          CopiesStep(during, i + 1, step);
          assert t.reader.Copying?;
        } else {
          assert after[..i] == during && after[i + 1..] == [];
          NoCopies();
        }
      }
    }
  }

  lemma NoCopies()
    ensures Copies([]) == 0
  {
  }

  lemma {:induction false} ReadAdvances(memory: seq<Byte>, before: seq<Step>, n: nat, peek: bool, during: seq<Step>)
    requires |memory| < 0x1_0000
    requires Run(Init(memory), before).reader.Idle? && 0 < n <= Run(Init(memory), before).ring.usedSize
    requires forall i :: 0 <= i < |during| ==> !during[i].Finish?
    ensures Advanced(Run(Init(memory), before + [Begin(n, peek)] + during).reader, n, during)
  {
    hide Run, Apply, Reading, Advanced, Copies, Ring.Contents;
    var s, steps := Run(Init(memory), before), before + [Begin(n, peek)] + during;
    if during == [] {
      assert steps == before + [Begin(n, peek)];
      RunOn(Init(memory), before, Begin(n, peek));
      JustBegun(s, n, peek);
    } else {
      var less := during[..|during| - 1];
      var earlier := before + [Begin(n, peek)] + less;
      assert steps == earlier + [during[|less|]] && during == less + [during[|less|]];
      RunOn(Init(memory), earlier, during[|less|]);
      ReadReturnsOldest(memory, before, n, peek, less);
      ReadAdvances(memory, before, n, peek, less);
      AdvancedOn(s, Run(Init(memory), earlier), n, peek, less, during[|less|]);
    }
  }

  lemma JustBegun(s: State, n: nat, peek: bool)
    requires s.ring.Ok() && s.reader.Idle? && 0 < n <= s.ring.usedSize
    ensures Advanced(Apply(s, Begin(n, peek)).reader, n, [])
  {
  }

  lemma RunOn(s: State, steps: seq<Step>, step: Step)
    requires s.ring.Ok()
    ensures Run(s, steps + [step]) == Apply(Run(s, steps), step)
  {
    assert (steps + [step])[..|steps|] == steps;
  }

  // The cursor is taken, and then at least n bytes are copied.
  ghost predicate Copied(n: nat, during: seq<Step>) {
    exists i: nat :: i < |during| && during[i].TakeCursor? && Copies(during[i + 1..]) >= n
  }

  lemma {:induction false} LaterCopiesLess(steps: seq<Step>, i: nat, j: nat)
    requires i <= j <= |steps|
    ensures Copies(steps[j..]) <= Copies(steps[i..])
    decreases |steps|
  {
    if steps != [] && j < |steps| {
      var less, last := steps[..|steps| - 1], steps[|steps| - 1];
      assert steps == less + [last];
      LaterCopiesLess(less, i, j);
      CopiesStep(less, i, last);
      CopiesStep(less, j, last);
    } else {
      assert steps[j..] == [];
    }
  }

  lemma FirstTaken(during: seq<Step>, j: nat) returns (i: nat)
    requires j < |during| && during[j].TakeCursor?
    ensures i <= j && during[i].TakeCursor? && TakeCursor !in during[..i]
    ensures forall m :: 0 <= m < i ==> !during[m].TakeCursor?
  {
    i := 0;
    while !during[i].TakeCursor?
      invariant i <= j && TakeCursor !in during[..i] && forall m :: 0 <= m < i ==> !during[m].TakeCursor?
      decreases j - i
    {
      i := i + 1;
    }
  }

  lemma AdvancedIsCopied(reader: Reader, n: nat, during: seq<Step>)
    requires Advanced(reader, n, during) && n > 0 && !reader.Idle?
    ensures reader.Copying? && |reader.copied| == n <==> Copied(n, during)
  {
    hide Copies;
    if TakeCursor in during {
      var any: nat :| any < |during| && during[any].TakeCursor?;
      var i := FirstTaken(during, any);
      forall j: nat | j < |during| && during[j].TakeCursor?
        ensures Copies(during[j + 1..]) <= Copies(during[i + 1..])
      {
        LaterCopiesLess(during, i + 1, j + 1);
      }
    }
  }

  /**
   A read of n bytes comes to its end exactly if its steps are taken: the cursor first and then n times one byte, writes
   and whatever else anywhere between. It then has delivered exactly the n bytes that were oldest when it began, or
   nothing if it was a preread; otherwise nothing is delivered.
   */
  lemma ReadDelivers(memory: seq<Byte>, before: seq<Step>, n: nat, peek: bool, during: seq<Step>)
    requires |memory| < 0x1_0000
    requires Run(Init(memory), before).reader.Idle? && 0 < n <= Run(Init(memory), before).ring.usedSize
    requires forall i :: 0 <= i < |during| ==> !during[i].Finish?
    ensures var s, t := Run(Init(memory), before), Run(Init(memory), before + [Begin(n, peek)] + during + [Finish]);
      && (t.reader.Idle? <==> Copied(n, during))
      && t.delivered == s.delivered + if Copied(n, during) && !peek then s.ring.Contents()[..n] else []
  {
    hide Run, Apply, Reading, Advanced, Copied, Ring.Contents;
    var s := Run(Init(memory), before);
    var steps := before + [Begin(n, peek)] + during;
    ReadReturnsOldest(memory, before, n, peek, during);
    ReadAdvances(memory, before, n, peek, during);
    RunOn(Init(memory), steps, Finish);
    ReadingIs(s, Run(Init(memory), steps), n, peek);
    AdvancedIsCopied(Run(Init(memory), steps).reader, n, during);
  }

  lemma ReadingIs(s: State, t: State, n: nat, peek: bool)
    requires s.ring.Ok() && t.ring.Ok() && Reading(s, t, n, peek)
    ensures !t.reader.Idle? && n <= |s.ring.Contents()|
    ensures var u := Apply(t, Finish); var done := t.reader.Copying? && |t.reader.copied| == n;
      && (u.reader.Idle? <==> done)
      && u.delivered == s.delivered + if done && !peek then s.ring.Contents()[..n] else []
  {
    hide Ring.Contents, Ring.ReadCursor, SourceCell;
  }

  /**
   In any reachable state a write is taken exactly if there is data and room for it, and then stands behind what was
   unread; a discard between reads leaves nothing.
   */
  lemma WriteAdds(memory: seq<Byte>, steps: seq<Step>, data: seq<Byte>)
    requires |memory| < 0x1_0000
    ensures var s, t := Run(Init(memory), steps).ring, Run(Init(memory), steps + [Write(data)]).ring;
      t.Contents() == s.Contents() + if |s.Contents()| + |data| <= |memory| then data else []
    ensures Run(Init(memory), steps).reader.Idle? ==> Run(Init(memory), steps + [Discard]).ring.Contents() == []
  {
    RunOn(Init(memory), steps, Write(data));
    RunOn(Init(memory), steps, Discard);
    BufferSize(memory, steps);
    hide Run;
    var s := Run(Init(memory), steps);
    if s.ring.HasRoom(|data|) { WriteAppends(s.ring, data); }
  }

  /** A read begins exactly if none is under way and it asks for some bytes and no more than are unread. */
  lemma BeginsIf(memory: seq<Byte>, steps: seq<Step>, n: nat, peek: bool)
    requires |memory| < 0x1_0000
    ensures var s, t := Run(Init(memory), steps), Run(Init(memory), steps + [Begin(n, peek)]);
      t != s <==> s.reader.Idle? && 0 < n <= |s.ring.Contents()|
  {
    RunOn(Init(memory), steps, Begin(n, peek));
    hide Run;
  }

  lemma {:induction false} BufferSize(memory: seq<Byte>, steps: seq<Step>)
    requires |memory| < 0x1_0000
    ensures |Run(Init(memory), steps).ring.buffer| == |memory|
  {
    hide Apply;
    if steps != [] { BufferSize(memory, steps[..|steps| - 1]); }
  }

  /** In any reachable state a write leaves every unread byte where it is and as it is. */
  lemma WriteTouchesNoUnread(memory: seq<Byte>, steps: seq<Step>, data: seq<Byte>, i: nat)
    requires |memory| < 0x1_0000
    requires i < Run(Init(memory), steps).ring.usedSize
    ensures var s, t := Run(Init(memory), steps), Apply(Run(Init(memory), steps), Write(data));
      && i < t.ring.usedSize && t.ring.Cell(i) == s.ring.Cell(i)
      && t.ring.buffer[s.ring.Cell(i)] == s.ring.buffer[s.ring.Cell(i)]
  {
    var s := Run(Init(memory), steps);
    if s.ring.HasRoom(|data|) {
      WriteSparesUnread(s.ring, data, i);
    }
  }
}
