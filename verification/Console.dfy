/** threads/synchcons.cc over machine/console.cc: writing whole lines to a device that takes
    one character at a time and reports completion by interrupt. Any number of threads write;
    their steps and the device's interrupts interleave freely. */
module Consoles {

  type Tid = nat

  /** Where a thread is inside SynchConsole::Write. */
  datatype Pc =
    | Away
    | AtLine(line: string)                 // before WLineBlock->P()
    | AtPut(line: string, next: nat)       // at the head of the character loop
    | AtDone(line: string, next: nat)      // before synchWriteAvail->P(), line[next] put

  /** The console. interrupts counts the WriteDone interrupts scheduled and not yet fired; holder
      and written are history: who has the line, and the lines written to the end, in order. */
  datatype State = State(
    pcs: map<Tid, Pc>,
    lineBlock: nat,
    writeAvail: nat,
    putBusy: bool,
    interrupts: nat,
    output: string,
    holder: set<Tid>,
    written: seq<string>)

  datatype Event =
    | Begin(t: Tid, line: string)
    | TakeLine(t: Tid)
    | PutChar(t: Tid)
    | WriteDone
    | Resume(t: Tid)
    | GiveLine(t: Tid)

  function PcOf(st: State, t: Tid): Pc {
    if t in st.pcs then st.pcs[t] else Away
  }

  predicate Enabled(st: State, e: Event) {
    match e
    case Begin(t, _) => PcOf(st, t) == Away
    case TakeLine(t) => PcOf(st, t).AtLine? && st.lineBlock > 0
    case PutChar(t) => PcOf(st, t).AtPut? && PcOf(st, t).next < |PcOf(st, t).line|
    case WriteDone => st.interrupts > 0
    case Resume(t) => PcOf(st, t).AtDone? && st.writeAvail > 0
    case GiveLine(t) => PcOf(st, t).AtPut? && PcOf(st, t).next >= |PcOf(st, t).line|
  }

  function Next(st: State, e: Event): State
    requires Enabled(st, e)
  {
    match e
    case Begin(t, line) => st.(pcs := st.pcs[t := AtLine(line)])
    case TakeLine(t) =>
      st.(lineBlock := st.lineBlock - 1, pcs := st.pcs[t := AtPut(PcOf(st, t).line, 0)], holder := st.holder + {t})
    case PutChar(t) =>
      var p := PcOf(st, t);
      st.(output := st.output + [p.line[p.next]], putBusy := true,
          interrupts := st.interrupts + 1, pcs := st.pcs[t := AtDone(p.line, p.next)])
    case WriteDone =>
      st.(interrupts := st.interrupts - 1, putBusy := false, writeAvail := st.writeAvail + 1)
    case Resume(t) =>
      var p := PcOf(st, t);
      st.(writeAvail := st.writeAvail - 1, pcs := st.pcs[t := AtPut(p.line, p.next + 1)])
    case GiveLine(t) =>
      st.(lineBlock := st.lineBlock + 1, pcs := st.pcs[t := Away], holder := st.holder - {t},
          written := st.written + [PcOf(st, t).line])
  }

  function Concat(lines: seq<string>): string {
    if lines == [] then "" else Concat(lines[..|lines| - 1]) + lines[|lines| - 1]
  }

  ghost predicate Init(st: State) {
    st == State(map[], 1, 0, false, 0, "", {}, [])
  }

  /** The holder of the line, with what it has put so far, and the state of the device. */
  ghost predicate Holding(st: State, t: Tid) {
    match PcOf(st, t)
    case AtPut(line, n) =>
      n <= |line| && !st.putBusy && st.interrupts == 0 && st.writeAvail == 0 && st.output == Concat(st.written) + line[..n]
    case AtDone(line, n) =>
      && n < |line| && st.output == Concat(st.written) + line[..n + 1]
      && st.interrupts + st.writeAvail == 1 && (st.putBusy <==> st.interrupts == 1)
    case _ => false
  }

  ghost predicate Inv(st: State) {
    && st.lineBlock + |st.holder| == 1
    && (forall t :: t in st.holder <==> PcOf(st, t).AtPut? || PcOf(st, t).AtDone?)
    && (forall t | t in st.holder :: Holding(st, t))
    && (st.holder == {} ==> !st.putBusy && st.interrupts == 0 && st.writeAvail == 0 && st.output == Concat(st.written))
  }

  lemma Alone(s: set<Tid>, t: Tid)
    requires t in s && |s| <= 1
    ensures s == {t}
  {
    var rest := s - {t};
    assert |rest| == |s| - 1 && rest == {};
    assert s == rest + {t};
  }

  lemma TakeLineKeepsInv(st: State, t: Tid)
    requires Inv(st) && Enabled(st, TakeLine(t))
    ensures Inv(Next(st, TakeLine(t)))
  {
    assert st.holder == {};
  }

  lemma PutCharKeepsInv(st: State, t: Tid)
    requires Inv(st) && Enabled(st, PutChar(t))
    ensures Inv(Next(st, PutChar(t)))
  {
    Alone(st.holder, t);
    assert Holding(st, t);
    var p := PcOf(st, t);
    assert p.line[..p.next] + [p.line[p.next]] == p.line[..p.next + 1];
    assert st.output + [p.line[p.next]] == Concat(st.written) + p.line[..p.next + 1];
    hide Concat;
    assert Holding(Next(st, PutChar(t)), t);
  }

  lemma DeviceKeepsInv(st: State, e: Event)
    requires Inv(st) && Enabled(st, e) && (e.WriteDone? || e.Resume?)
    ensures Inv(Next(st, e))
  {
    hide Concat;
    assert st.holder != {};
    var t :| t in st.holder;
    Alone(st.holder, t);
    assert Holding(st, t);
    assert Holding(Next(st, e), t);
  }

  lemma GiveLineKeepsInv(st: State, t: Tid)
    requires Inv(st) && Enabled(st, GiveLine(t))
    ensures Inv(Next(st, GiveLine(t)))
  {
    Alone(st.holder, t);
    assert Holding(st, t);
    var line, st' := PcOf(st, t).line, Next(st, GiveLine(t));
    assert line[..|line|] == line;
    assert st'.written[..|st.written|] == st.written;
    assert Concat(st'.written) == Concat(st.written) + line;
    forall x ensures x in st'.holder <==> PcOf(st', x).AtPut? || PcOf(st', x).AtDone? {
      assert x in st.holder <==> PcOf(st, x).AtPut? || PcOf(st, x).AtDone?;
    }
  }

  lemma StepKeepsInv(st: State, e: Event)
    requires Inv(st) && Enabled(st, e)
    ensures Inv(Next(st, e))
  {
    match e
    case Begin(t, _) =>
      var st' := Next(st, e);
      forall x | x in st'.holder ensures Holding(st', x) { assert Holding(st, x); }
    case TakeLine(t) => TakeLineKeepsInv(st, t);
    case PutChar(t) => PutCharKeepsInv(st, t);
    case GiveLine(t) => GiveLineKeepsInv(st, t);
    case _ => DeviceKeepsInv(st, e);
  }

  ghost predicate IsRun(sts: seq<State>, es: seq<Event>) {
    && |sts| == |es| + 1 && Init(sts[0])
    && forall i {:trigger es[i]} | 0 <= i < |es| :: Enabled(sts[i], es[i]) && sts[i + 1] == Next(sts[i], es[i])
  }

  lemma RunLength(sts: seq<State>, es: seq<Event>)
    requires IsRun(sts, es)
    ensures |sts| == |es| + 1
  {
  }

  lemma {:induction false} RunKeepsInv(sts: seq<State>, es: seq<Event>, k: nat)
    requires IsRun(sts, es) && k <= |es|
    ensures Inv(sts[k])
  {
    if k > 0 {
      RunKeepsInv(sts, es, k - 1);
      StepKeepsInv(sts[k - 1], es[k - 1]);
    }
  }

  // ---------------------------------------------------------------- what the log of a run says

  /** The line that thread t handed to Write last. */
  ghost function LineOf(es: seq<Event>, k: nat, t: Tid): (line: string)
    requires k <= |es|
  {
    if k == 0 then "" else if es[k - 1].Begin? && es[k - 1].t == t then es[k - 1].line else LineOf(es, k - 1, t)
  }

  /** The lines whose Write has come to its end, in that order. */
  ghost function Lines(es: seq<Event>, k: nat): (lines: seq<string>)
    requires k <= |es|
  {
    if k == 0 then [] else Lines(es, k - 1) + if es[k - 1].GiveLine? then [LineOf(es, k - 1, es[k - 1].t)] else []
  }

  /** Thread t has taken the line and not given it back. */
  ghost predicate HasLine(es: seq<Event>, k: nat, t: Tid)
    requires k <= |es|
  {
    k > 0 && (es[k - 1] == TakeLine(t) || (es[k - 1] != GiveLine(t) && HasLine(es, k - 1, t)))
  }

  /** What a writer is writing is what it was asked to write. */
  lemma {:induction false} WritesWhatWasAsked(sts: seq<State>, es: seq<Event>, k: nat, t: Tid)
    requires IsRun(sts, es) && k <= |es|
    ensures PcOf(sts[k], t).Away? || PcOf(sts[k], t).line == LineOf(es, k, t)
    ensures t in sts[k].holder <==> HasLine(es, k, t)
  {
    if k > 0 {
      hide Next, Enabled, PcOf;
      WritesWhatWasAsked(sts, es, k - 1, t);
      WriterStep(sts[k - 1], es[k - 1], t);
    } else {
      NobodyWrites(sts[0], t);
    }
  }

  lemma NobodyWrites(st: State, t: Tid)
    requires Init(st)
    ensures PcOf(st, t).Away? && t !in st.holder
  {
  }

  /** What one step does to a writer. */
  lemma WriterStep(st: State, e: Event, t: Tid)
    requires Enabled(st, e)
    ensures var p, p' := PcOf(st, t), PcOf(Next(st, e), t);
      p'.Away? || (if e.Begin? && e.t == t then p'.line == e.line else !p.Away? && p'.line == p.line)
    ensures t in Next(st, e).holder <==> e == TakeLine(t) || (e != GiveLine(t) && t in st.holder)
  {
  }

  lemma {:induction false} WrittenAreLines(sts: seq<State>, es: seq<Event>, k: nat)
    requires IsRun(sts, es) && k <= |es|
    ensures sts[k].written == Lines(es, k)
  {
    if k > 0 {
      WrittenAreLines(sts, es, k - 1);
      if es[k - 1].GiveLine? { WritesWhatWasAsked(sts, es, k - 1, es[k - 1].t); }
    }
  }

  /** For any number of writers, in every reachable state: the output is the lines whose Write has
      ended, each whole and in one piece, followed by a beginning of the one line that is
      being written, if any. */
  lemma LinesComeOutWhole(sts: seq<State>, es: seq<Event>, k: nat)
    requires IsRun(sts, es) && k <= |es|
    ensures exists part: string :: sts[k].output == Concat(Lines(es, k)) + part
              && (part == "" || exists t :: HasLine(es, k, t) && part <= LineOf(es, k, t))
  {
    hide IsRun, Inv, PcOf, Concat, Lines, LineOf, HasLine;
    RunKeepsInv(sts, es, k);
    RunLength(sts, es);
    WrittenAreLines(sts, es, k);
    var part, t := PartWritten(sts[k]);
    if part != "" { WritesWhatWasAsked(sts, es, k, t); }
  }

  /** The output of a state: whole lines, and part of the line of its holder. */
  lemma PartWritten(st: State) returns (part: string, t: Tid)
    requires Inv(st)
    ensures st.output == Concat(st.written) + part
    ensures part == "" || (t in st.holder && !PcOf(st, t).Away? && part <= PcOf(st, t).line)
  {
    part, t := "", 0;
    if x :| x in st.holder {
      assert Holding(st, x);
      var p := PcOf(st, x);
      part, t := if p.AtPut? then p.line[..p.next] else p.line[..p.next + 1], x;
    }
  }

  /** Since a character was put last, no WriteDone has come. */
  ghost predicate Outstanding(es: seq<Event>, k: nat)
    requires k <= |es|
  {
    k > 0 && es[k - 1] != WriteDone && (es[k - 1].PutChar? || Outstanding(es, k - 1))
  }

  lemma {:induction false} BusyIsOutstanding(sts: seq<State>, es: seq<Event>, k: nat)
    requires IsRun(sts, es) && k <= |es|
    ensures sts[k].putBusy <==> Outstanding(es, k)
  {
    if k > 0 { BusyIsOutstanding(sts, es, k - 1); }
  }

  /** No character is put before the device has reported that the one before is out. */
  lemma DeviceIsNeverBusy(sts: seq<State>, es: seq<Event>, k: nat)
    requires IsRun(sts, es) && k < |es| && es[k].PutChar?
    ensures !sts[k].putBusy && !Outstanding(es, k)
  {
    RunKeepsInv(sts, es, k);
    BusyIsOutstanding(sts, es, k);
    Alone(sts[k].holder, es[k].t);
    assert Holding(sts[k], es[k].t);
  }

  /** The writer that has the line never waits for good: it can step, or the device will
      interrupt and then it can. */
  lemma WriterProgresses(sts: seq<State>, es: seq<Event>, k: nat, t: Tid)
    requires IsRun(sts, es) && k <= |es| && t in sts[k].holder
    ensures Enabled(sts[k], PutChar(t)) || Enabled(sts[k], GiveLine(t)) || Enabled(sts[k], Resume(t))
            || (Enabled(sts[k], WriteDone) && Enabled(Next(sts[k], WriteDone), Resume(t)))
  {
    RunKeepsInv(sts, es, k);
    assert Holding(sts[k], t);
  }

  // ---------------------------------------------------------------- every line can be written

  ghost predicate CanDo(st: State, es: seq<Event>)
    decreases |es|
  {
    es == [] || (Enabled(st, es[0]) && CanDo(Next(st, es[0]), es[1..]))
  }

  ghost function After(st: State, es: seq<Event>): (r: State)
    requires CanDo(st, es)
    decreases |es|
  {
    if es == [] then st else After(Next(st, es[0]), es[1..])
  }

  lemma DoFirst(st: State, e: Event, es: seq<Event>)
    requires Enabled(st, e) && CanDo(Next(st, e), es)
    ensures CanDo(st, [e] + es) && After(st, [e] + es) == After(Next(st, e), es)
  {
    assert ([e] + es)[0] == e && ([e] + es)[1..] == es;
    hide Next, Enabled;
  }

  /** What one character takes: the writer puts it, the device reports, the writer goes on. */
  lemma OneCharacter(st: State, t: Tid)
    requires Inv(st) && PcOf(st, t).AtPut? && PcOf(st, t).next < |PcOf(st, t).line|
    ensures Enabled(st, PutChar(t)) && Enabled(Next(st, PutChar(t)), WriteDone)
    ensures Enabled(Next(Next(st, PutChar(t)), WriteDone), Resume(t))
    ensures var p, st' := PcOf(st, t), Next(Next(Next(st, PutChar(t)), WriteDone), Resume(t));
      PcOf(st', t) == AtPut(p.line, p.next + 1) && st'.output == st.output + [p.line[p.next]] && Inv(st')
  {
    assert Holding(st, t);
    StepKeepsInv(st, PutChar(t));
    var st1 := Next(st, PutChar(t));
    StepKeepsInv(st1, WriteDone);
    StepKeepsInv(Next(st1, WriteDone), Resume(t));
    hide Inv, Holding;
  }

  lemma {:induction false} RestCanBeWritten(st: State, t: Tid) returns (es: seq<Event>)
    requires Inv(st) && PcOf(st, t).AtPut? && PcOf(st, t).next <= |PcOf(st, t).line|
    ensures CanDo(st, es)
    ensures PcOf(After(st, es), t) == Away && After(st, es).output == st.output + PcOf(st, t).line[PcOf(st, t).next..]
    decreases |PcOf(st, t).line| - PcOf(st, t).next
  {
    var p := PcOf(st, t);
    if p.next == |p.line| {
      DoFirst(st, GiveLine(t), []);
      es := [GiveLine(t)] + [];
      assert PcOf(Next(st, GiveLine(t)), t) == Away;
    } else {
      OneCharacter(st, t);
      var st1 := Next(st, PutChar(t));
      var st2 := Next(st1, WriteDone);
      hide Next, Enabled, Inv, PcOf;
      var rest := RestCanBeWritten(Next(st2, Resume(t)), t);
      DoFirst(st2, Resume(t), rest);
      DoFirst(st1, WriteDone, [Resume(t)] + rest);
      DoFirst(st, PutChar(t), [WriteDone] + ([Resume(t)] + rest));
      es := [PutChar(t)] + ([WriteDone] + ([Resume(t)] + rest));
      assert [p.line[p.next]] + p.line[p.next + 1..] == p.line[p.next..];
    }
  }

  /** From every state in which nobody has the line, any thread that is not writing can write any
      line, and then exactly that line has been added to the output. */
  lemma LineCanBeWritten(st: State, t: Tid, line: string) returns (es: seq<Event>)
    requires Inv(st) && st.holder == {} && PcOf(st, t) == Away
    ensures CanDo(st, es) && |es| > 0 && es[0] == Begin(t, line)
    ensures PcOf(After(st, es), t) == Away && After(st, es).output == st.output + line
  {
    StepKeepsInv(st, Begin(t, line));
    var st1 := Next(st, Begin(t, line));
    assert st1.lineBlock == 1 && Enabled(st1, TakeLine(t));
    StepKeepsInv(st1, TakeLine(t));
    var st2 := Next(st1, TakeLine(t));
    assert PcOf(st2, t) == AtPut(line, 0) && st2.output == st.output;
    hide Inv;
    var rest := RestCanBeWritten(st2, t);
    DoFirst(st1, TakeLine(t), rest);
    DoFirst(st, Begin(t, line), [TakeLine(t)] + rest);
    es := [Begin(t, line)] + ([TakeLine(t)] + rest);
    assert line[0..] == line;
  }
}
