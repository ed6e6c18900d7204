/** test/MayRotNuoc.c, sinhvien.c and voinuoc.c: three programs that share files and hand a turn
    around by three semaphores, so that students with bottles are served at two water taps. */
module WaterTaps {

  // ---------------------------------------------------------------- the tap rule

  function Max(a: int, b: int): int { if a > b then a else b }

  /** How long each of the two taps has been promised. */
  datatype Taps = Taps(one: int, two: int)

  /** voinuoc.c: the next bottle goes to tap 1 unless tap 2 is free sooner. */
  function Assign(taps: Taps, time: int): Taps {
    if time == 0 then taps
    else if taps.one <= taps.two then taps.(one := taps.one + time)
    else taps.(two := taps.two + time)
  }

  function Greedy(times: seq<nat>): Taps {
    if times == [] then Taps(0, 0) else Assign(Greedy(times[..|times| - 1]), times[|times| - 1])
  }

  function Sum(times: seq<nat>): nat {
    if times == [] then 0 else Sum(times[..|times| - 1]) + times[|times| - 1]
  }

  function Largest(times: seq<nat>): (m: nat)
    ensures forall i | 0 <= i < |times| :: times[i] <= m
  {
    if times == [] then 0 else Max(Largest(times[..|times| - 1]), times[|times| - 1])
  }

  /** Any way to send the bottles to the taps; choice[i] sends bottle i to tap 1. */
  function Served(times: seq<nat>, choice: seq<bool>): Taps
    requires |times| == |choice|
  {
    if times == [] then Taps(0, 0)
    else
      var n := |times| - 1;
      var t := Served(times[..n], choice[..n]);
      if choice[n] then t.(one := t.one + times[n]) else t.(two := t.two + times[n])
  }

  function Makespan(t: Taps): int { Max(t.one, t.two) }

  /** The rule keeps the taps within one bottle of each other. */
  lemma {:induction false} GreedyIsBalanced(times: seq<nat>)
    ensures var t := Greedy(times);
      t.one + t.two == Sum(times) && 0 <= t.one && 0 <= t.two && t.one - t.two <= Largest(times) && t.two - t.one <= Largest(times)
  {
    if times != [] { GreedyIsBalanced(times[..|times| - 1]); }
  }

  lemma {:induction false} EveryScheduleIsLong(times: seq<nat>, choice: seq<bool>)
    requires |times| == |choice|
    ensures var t := Served(times, choice);
      t.one + t.two == Sum(times) && 0 <= t.one && 0 <= t.two && Makespan(t) >= Largest(times)
  {
    if times != [] { EveryScheduleIsLong(times[..|times| - 1], choice[..|times| - 1]); }
  }

  /** The tap rule never takes more than 3/2 of the time of any other way to serve the same
      bottles, although it sees them one at a time. */
  lemma GreedyWithinThreeHalves(times: seq<nat>, choice: seq<bool>)
    requires |times| == |choice|
    ensures 2 * Makespan(Greedy(times)) <= 3 * Makespan(Served(times, choice))
  {
    GreedyIsBalanced(times);
    EveryScheduleIsLong(times, choice);
  }

  /** And 3/2 cannot be improved: bottles of 1, 1 and 2. */
  lemma ThreeHalvesIsTight() returns (times: seq<nat>, choice: seq<bool>)
    ensures |times| == |choice| && Makespan(Served(times, choice)) > 0
    ensures 2 * Makespan(Greedy(times)) == 3 * Makespan(Served(times, choice))
  {
    hide Greedy, Served;
    NothingServed();
    var t1, c1 := ServeOne([], [], 1, true);
    assert Greedy(t1) == Taps(1, 0) && Served(t1, c1) == Taps(1, 0);
    var t2, c2 := ServeOne(t1, c1, 1, true);
    assert Greedy(t2) == Taps(1, 1) && Served(t2, c2) == Taps(2, 0);
    times, choice := ServeOne(t2, c2, 2, false);
    assert Greedy(times) == Taps(3, 1) && Served(times, choice) == Taps(2, 2);
  }

  lemma NothingServed()
    ensures Greedy([]) == Taps(0, 0) && Served([], []) == Taps(0, 0)
  {
  }

  lemma ServeOne(times: seq<nat>, choice: seq<bool>, t: nat, c: bool) returns (times': seq<nat>, choice': seq<bool>)
    requires |times| == |choice|
    ensures |times'| == |choice'| && Greedy(times') == Assign(Greedy(times), t)
    ensures var s := Served(times, choice);
      Served(times', choice') == if c then s.(one := s.one + t) else s.(two := s.two + t)
  {
    times', choice' := times + [t], choice + [c];
    assert times'[..|times|] == times && choice'[..|times|] == choice;
  }

  /** The loop over the requests of one time point. */
  method ServeAll(times: seq<nat>) returns (tap1: int, tap2: int)
    ensures Taps(tap1, tap2) == Greedy(times)
  {
    tap1, tap2 := 0, 0;
    for i := 0 to |times|
      invariant Taps(tap1, tap2) == Greedy(times[..i])
    {
      var tapTime := times[i];
      assert times[..i + 1][..i] == times[..i];
      if tapTime != 0 {
        if tap1 <= tap2 { tap1 := tap1 + tapTime; } else { tap2 := tap2 + tapTime; }
      }
    }
    assert times[..|times|] == times;
  }

  // ---------------------------------------------------------------- what the output should be

  /** A line of the input split at its spaces; a space at its very end adds no further request. */
  function Tokens(line: string): seq<string> {
    Split([], line)
  }

  function Split(begun: string, rest: string): seq<string>
    decreases rest
  {
    if rest == [] then (if begun == [] then [] else [begun])
    else if rest[0] == ' ' then [begun] + Split([], rest[1..])
    else Split(begun + [rest[0]], rest[1..])
  }

  /** The requests with single spaces between them. */
  function Join(tokens: seq<string>): string {
    if tokens == [] then "" else if |tokens| == 1 then tokens[0] else tokens[0] + " " + Join(tokens[1..])
  }

  lemma {:induction false} SplitJoins(begun: string, rest: string)
    requires ' ' !in begun
    ensures var ts := Split(begun, rest);
      && (begun + rest == Join(ts) || begun + rest == Join(ts) + " ") && forall i | 0 <= i < |ts| :: ' ' !in ts[i]
    decreases rest
  {
    if rest != [] {
      if rest[0] == ' ' {
        SplitJoins([], rest[1..]);
        var ts, more := Split(begun, rest), Split([], rest[1..]);
        assert ts[1..] == more && rest == [' '] + rest[1..];
        EmptySplit(rest[1..]);
        assert begun + rest == begun + " " + rest[1..] && [] + rest[1..] == rest[1..];
      } else {
        SplitJoins(begun + [rest[0]], rest[1..]);
        assert begun + rest == begun + [rest[0]] + rest[1..];
      }
    }
  }

  lemma EmptySplit(rest: string)
    ensures Split([], rest) == [] ==> rest == []
  {
    if rest != [] { SplitIsSome([], rest); }
  }

  lemma {:induction false} SplitIsSome(begun: string, rest: string)
    requires begun != [] || rest != []
    ensures Split(begun, rest) != []
    decreases rest
  {
    if rest != [] && rest[0] != ' ' { SplitIsSome(begun + [rest[0]], rest[1..]); }
  }

  /** The requests of a line are the words between its spaces: put together again they give the
      line, but for a space at its very end. */
  lemma TokensJoin(line: string)
    ensures line == Join(Tokens(line)) || line == Join(Tokens(line)) + " "
    ensures forall i | 0 <= i < |Tokens(line)| :: ' ' !in Tokens(line)[i]
  {
    SplitJoins([], line);
    assert [] + line == line;
  }

  /** The number a request stands for, as the programs compute it. */
  function Value(digits: string): int {
    if digits == [] then 0
    else Value(digits[..|digits| - 1]) * 10 + (digits[|digits| - 1] as int - 48)
  }

  /** How numbers are written in the input. */
  function Decimal(n: nat): string {
    if n < 10 then [(n + 48) as char] else Decimal(n / 10) + [(n % 10 + 48) as char]
  }

  /** The programs read every number back. */
  lemma {:induction false} ValueOfDecimal(n: nat)
    ensures Value(Decimal(n)) == n
  {
    if n < 10 {
      assert Decimal(n)[..0] == [];
    } else {
      ValueOfDecimal(n / 10);
      assert Decimal(n)[..|Decimal(n)| - 1] == Decimal(n / 10);
    }
  }

  function Mark(taps: Taps, time: int): string {
    if time == 0 then "" else if taps.one <= taps.two then " 1" else " 2"
  }

  /** The tap that is printed is the one whose time grows, and the other one's does not. */
  lemma MarkIsCharged(taps: Taps, time: int)
    requires time >= 0
    ensures var after := Assign(taps, time);
      && (Mark(taps, time) == " 1" <==> after.one > taps.one) && (Mark(taps, time) == " 2" <==> after.two > taps.two)
      && (Mark(taps, time) == "" <==> after == taps) && after.one + after.two == taps.one + taps.two + time
  {
  }

  /** The output for the requests of one time point, from the given state of the taps on. */
  function Render(tokens: seq<string>, taps: Taps): string {
    if tokens == [] then ""
    else
      var time := Value(tokens[0]);
      tokens[0] + Mark(taps, time)
      + (if |tokens| == 1 then "\r\n" else "   " + Render(tokens[1..], Assign(taps, time)))
  }

  function RenderAll(lines: seq<string>): string {
    if lines == [] then "" else Render(Tokens(lines[0]), Taps(0, 0)) + RenderAll(lines[1..])
  }

  function Times(tokens: seq<string>): (times: seq<nat>)
    requires forall i | 0 <= i < |tokens| :: Value(tokens[i]) >= 0
    ensures |times| == |tokens|
  {
    seq(|tokens|, i requires 0 <= i < |tokens| => Value(tokens[i]))
  }

  /** Each request of a line is marked with the tap that the rule gives it after the requests
      before it. */
  lemma {:induction false} MarksFollowTheRule(tokens: seq<string>, k: nat) returns (text: string)
    requires k < |tokens| && forall i | 0 <= i < |tokens| :: Value(tokens[i]) >= 0
    ensures Render(tokens, Taps(0, 0)) == text + Render(tokens[k..], Greedy(Times(tokens)[..k]))
  {
    var times := Times(tokens);
    if k == 0 {
      text := "";
      assert tokens[0..] == tokens && times[..0] == [];
    } else {
      var text' := MarksFollowTheRule(tokens, k - 1);
      var g := Greedy(times[..k - 1]);
      var first := tokens[k - 1] + Mark(g, Value(tokens[k - 1])) + "   ";
      assert times[..k][..k - 1] == times[..k - 1] && Greedy(times[..k]) == Assign(g, times[k - 1]);
      assert tokens[k - 1..][1..] == tokens[k..];
      hide Greedy, Value, Mark, Assign, Times;
      text := text' + first;
      assert Render(tokens[k - 1..], g) == first + Render(tokens[k..], Greedy(times[..k]));
    }
  }

  // ---------------------------------------------------------------- the three programs

  datatype Driver = Writing | Waiting
  datatype Student = Outside | Reading(pos: nat) | Handing(pos: nat)
  datatype Tap = Idle | Serving | Finishing
  datatype Signaller = Nobody | ByDriver | ByTap

  /** The semaphores, the programs, the files they share, and the input still to come.
      lastSignal is history: who last signalled "sinhvien". */
  datatype State = State(
    main: nat, sinhvien: nat, voinuoc: nat,
    driver: Driver, student: Student, tap: Tap,
    lines: seq<string>,        // input.txt, a line per time point
    lineFile: string,          // sinhvien.txt
    requestFile: string,       // voinuoc.txt
    output: string,            // output.txt
    taps: Taps,
    lastSignal: Signaller)

  datatype Event =
    | DriverSignal | DriverWait
    | StudentStart | StudentRead | StudentResume | StudentEnd
    | TapStart | TapServe | TapSignal

  predicate Enabled(st: State, e: Event) {
    match e
    case DriverSignal => st.driver == Writing && st.lines != []
    case DriverWait => st.driver == Waiting && st.main > 0
    case StudentStart => st.student == Outside && st.sinhvien > 0
    case StudentRead => st.student.Reading? && st.student.pos < |st.lineFile|
    case StudentResume => st.student.Handing? && st.sinhvien > 0
    case StudentEnd => st.student.Reading? && st.student.pos >= |st.lineFile|
    case TapStart => st.tap == Idle && st.voinuoc > 0
    case TapServe => st.tap == Serving
    case TapSignal => st.tap == Finishing
  }

  /** The request in voinuoc.txt, up to the mark that ends a time point. */
  function Request(file: string): string {
    if file == [] || file[0] == '*' then [] else [file[0]] + Request(file[1..])
  }

  function Next(st: State, e: Event): State
    requires Enabled(st, e)
  {
    match e
    case DriverSignal =>
      st.(lineFile := st.lines[0], lines := st.lines[1..], sinhvien := st.sinhvien + 1, driver := Waiting, lastSignal := ByDriver)
    case DriverWait => st.(main := st.main - 1, driver := Writing)
    case StudentStart => st.(sinhvien := st.sinhvien - 1, student := Reading(0), requestFile := [])
    case StudentRead =>
      var pos := st.student.pos;
      var c, last := st.lineFile[pos], pos == |st.lineFile| - 1;
      var word := if c != ' ' then [c] else [];
      var file := st.requestFile + word + (if last then "*" else "");
      var st1 := st.(requestFile := file, output := st.output + word);
      if c == ' ' || last then st1.(voinuoc := st.voinuoc + 1, student := Handing(pos))
      else st1.(student := Reading(pos + 1))
    case StudentResume =>
      st.(sinhvien := st.sinhvien - 1, student := Reading(st.student.pos + 1), requestFile := [])
    case StudentEnd => st.(main := st.main + 1, student := Outside)
    case TapStart => st.(voinuoc := st.voinuoc - 1, tap := Serving)
    case TapServe =>
      var time, solved := Value(Request(st.requestFile)), '*' in st.requestFile;
      st.(output := st.output + Mark(st.taps, time) + (if solved then "\r\n" else "   "),
          taps := if solved then Taps(0, 0) else Assign(st.taps, time), tap := Finishing)
    case TapSignal => st.(sinhvien := st.sinhvien + 1, tap := Idle, lastSignal := ByTap)
  }

  ghost predicate Init(st: State) {
    && st.main == st.sinhvien == st.voinuoc == 0 && st.driver == Writing && st.student == Outside && st.tap == Idle
    && st.output == [] && st.taps == Taps(0, 0) && st.lastSignal == Nobody
  }

  // ---------------------------------------------------------------- the turn

  /** There is one turn, and it is with a program or on its way to one. */
  ghost predicate Ring(st: State) {
    if st.student == Outside then
      && st.tap == Idle && st.voinuoc == 0 && st.main + st.sinhvien <= 1
      && (st.driver == Writing <==> st.main + st.sinhvien == 0)
      && (st.sinhvien == 1 ==> st.lastSignal == ByDriver)
    else
      && st.driver == Waiting && st.main == 0
      && (if st.student.Reading? then st.tap == Idle && st.voinuoc == st.sinhvien == 0
          else st.voinuoc + st.sinhvien + (if st.tap == Idle then 0 else 1) == 1
               && (st.sinhvien == 1 ==> st.lastSignal == ByTap))
  }

  lemma StepKeepsRing(st: State, e: Event)
    requires Ring(st) && Enabled(st, e)
    ensures Ring(Next(st, e))
  {
  }

  /** How many programs are inside a section that uses the shared files. */
  function Working(st: State): nat {
    (if st.driver == Writing then 1 else 0) + (if st.student.Reading? then 1 else 0) + (if st.tap == Idle then 0 else 1)
  }

  ghost predicate IsRun(sts: seq<State>, es: seq<Event>) {
    && |sts| == |es| + 1 && Init(sts[0])
    && forall i {:trigger es[i]} | 0 <= i < |es| :: Enabled(sts[i], es[i]) && sts[i + 1] == Next(sts[i], es[i])
  }

  lemma {:induction false} RunKeepsRing(sts: seq<State>, es: seq<Event>, k: nat)
    requires IsRun(sts, es) && k <= |es|
    ensures Ring(sts[k])
  {
    if k > 0 {
      RunKeepsRing(sts, es, k - 1);
      StepKeepsRing(sts[k - 1], es[k - 1]);
    }
  }

  /** In every reachable state the semaphores and the programs at work add up to one turn, so
      the files are never used by two programs at once; the student waiting for the driver
      is only ever let on by the driver, and waiting for the taps only by the taps; and some
      program can go on until the input is used up. */
  lemma OneTurn(sts: seq<State>, es: seq<Event>, k: nat)
    requires IsRun(sts, es) && k <= |es|
    ensures var st := sts[k];
      && st.main + st.sinhvien + st.voinuoc + Working(st) == 1
      && (Enabled(st, StudentStart) ==> st.lastSignal == ByDriver)
      && (Enabled(st, StudentResume) ==> st.lastSignal == ByTap)
      && ((exists e :: Enabled(st, e)) || (st.driver == Writing && st.lines == []))
  {
    RunKeepsRing(sts, es, k);
    var st := sts[k];
    assert Enabled(st, DriverSignal) || Enabled(st, DriverWait) || Enabled(st, StudentStart) || Enabled(st, StudentRead)
        || Enabled(st, StudentResume) || Enabled(st, StudentEnd) || Enabled(st, TapStart) || Enabled(st, TapServe)
        || Enabled(st, TapSignal) || (st.driver == Writing && st.lines == []);
  }

  // ---------------------------------------------------------------- the data

  ghost predicate EndsWith(s: string, t: string) {
    |t| <= |s| && s[|s| - |t|..] == t
  }

  /** s without its ending t. */
  function Chop(s: string, t: string): string {
    if |t| <= |s| then s[..|s| - |t|] else []
  }

  /** The request waits for the taps, or is being served. */
  predicate Pending(st: State) { st.voinuoc > 0 || st.tap == Serving }

  ghost predicate Plain(lines: seq<string>) {
    forall i | 0 <= i < |lines| :: '*' !in lines[i]
  }

  /** What the files hold, given where the programs are. */
  ghost predicate Data(st: State) {
    && Plain(st.lines) && '*' !in st.lineFile
    && match st.student
       case Outside => st.taps == Taps(0, 0)
       case Reading(pos) =>
         && pos <= |st.lineFile| && '*' !in st.requestFile && EndsWith(st.output, st.requestFile)
         && (pos == |st.lineFile| ==> st.requestFile == [] && st.taps == Taps(0, 0))
       case Handing(pos) =>
         && pos < |st.lineFile|
         && (if Pending(st) then
               && EndsWith(st.output, Request(st.requestFile)) && '*' !in Request(st.requestFile)
               && st.requestFile == Request(st.requestFile) + (if pos == |st.lineFile| - 1 then "*" else "")
             else pos == |st.lineFile| - 1 ==> st.taps == Taps(0, 0))
  }

  /** The whole output, as it will be in the end: what is there, and what is still to come. */
  ghost function Promise(st: State): string {
    Current(st) + RenderAll(st.lines)
  }

  /** The part of it that is due before the next line is begun. */
  ghost function Current(st: State): string {
    match st.student
     case Outside => st.output + if st.sinhvien > 0 then Render(Tokens(st.lineFile), Taps(0, 0)) else []
     case Reading(pos) =>
       if pos <= |st.lineFile| then Chop(st.output, st.requestFile) + Render(Split(st.requestFile, st.lineFile[pos..]), st.taps)
       else []
     case Handing(pos) =>
       if pos >= |st.lineFile| then []
       else
         var rest := Split([], st.lineFile[pos + 1..]);
         if Pending(st) then
           var r := Request(st.requestFile);
           Chop(st.output, r) + Render([r] + rest, st.taps)
         else st.output + Render(rest, st.taps)
  }

  lemma {:induction false} RequestOf(r: string, mark: string)
    requires '*' !in r && (mark == [] || mark == "*")
    ensures Request(r + mark) == r
  {
    if r != [] {
      RequestOf(r[1..], mark);
      assert (r + mark)[1..] == r[1..] + mark;
    }
  }

  lemma {:induction false} SplitEmpty(begun: string, rest: string)
    ensures Split(begun, rest) == [] <==> begun == [] && rest == []
    decreases |rest|
  {
    if rest != [] { SplitEmpty(begun + [rest[0]], rest[1..]); }
  }

  /** What the student has read of a request, one character later. */
  function ReadSoFar(st: State): string
    requires Enabled(st, StudentRead)
  {
    var c := st.lineFile[st.student.pos];
    st.requestFile + if c != ' ' then [c] else []
  }

  lemma AppendBoth(s: string, t: string, w: string)
    requires EndsWith(s, t)
    ensures EndsWith(s + w, t + w) && Chop(s + w, t + w) == Chop(s, t)
  {
  }

  lemma SplitStep(st: State)
    requires Enabled(st, StudentRead)
    ensures var pos, r := st.student.pos, ReadSoFar(st);
      Split(st.requestFile, st.lineFile[pos..]) ==
        if st.lineFile[pos] == ' ' || pos == |st.lineFile| - 1 then [r] + Split([], st.lineFile[pos + 1..])
        else Split(r, st.lineFile[pos + 1..])
  {
    var pos, line := st.student.pos, st.lineFile;
    assert line[pos..][1..] == line[pos + 1..];
    if line[pos] == ' ' { assert ReadSoFar(st) == st.requestFile; }
    else if pos == |line| - 1 { assert line[pos + 1..] == [] && ReadSoFar(st) != []; }
  }

  lemma ReadData(st: State)
    requires Ring(st) && Data(st) && Enabled(st, StudentRead)
    ensures Data(Next(st, StudentRead))
    ensures var st' := Next(st, StudentRead); st'.student.Handing? ==> Request(st'.requestFile) == ReadSoFar(st)
    ensures Chop(Next(st, StudentRead).output, ReadSoFar(st)) == Chop(st.output, st.requestFile)
  {
    var pos, r := st.student.pos, ReadSoFar(st);
    assert st.lineFile[pos] in st.lineFile;
    AppendBoth(st.output, st.requestFile, if st.lineFile[pos] != ' ' then [st.lineFile[pos]] else []);
    hide EndsWith, Chop;
    RequestOf(r, if pos == |st.lineFile| - 1 then "*" else "");
  }

  /** Reading one more character of a request, or the end of it. */
  lemma ReadKeepsPromise(st: State)
    requires Ring(st) && Data(st) && Enabled(st, StudentRead)
    ensures Data(Next(st, StudentRead)) && Promise(Next(st, StudentRead)) == Promise(st)
  {
    ReadData(st);
    ReadCurrent(st);
    hide Data, Current, RenderAll;
  }

  lemma ReadCurrent(st: State)
    requires Ring(st) && Data(st) && Enabled(st, StudentRead)
    ensures Current(Next(st, StudentRead)) == Current(st)
  {
    hide Data, Chop, Render, Request, Split, Ring, ReadSoFar, Next;
    ReadData(st);
    SplitStep(st);
    ReadShape(st);
    var st', pos, r := Next(st, StudentRead), st.student.pos, ReadSoFar(st);
    if st.lineFile[pos] == ' ' || pos == |st.lineFile| - 1 {
      assert Current(st') == Chop(st'.output, r) + Render([r] + Split([], st.lineFile[pos + 1..]), st.taps);
    } else {
      assert Current(st') == Chop(st'.output, r) + Render(Split(r, st.lineFile[pos + 1..]), st.taps);
    }
  }

  lemma ReadShape(st: State)
    requires Ring(st) && Enabled(st, StudentRead)
    ensures var st', pos := Next(st, StudentRead), st.student.pos;
      && st'.lineFile == st.lineFile && st'.taps == st.taps && pos < |st.lineFile|
      && (if st.lineFile[pos] == ' ' || pos == |st.lineFile| - 1 then st'.student == Handing(pos) && Pending(st')
          else st'.student == Reading(pos + 1) && st'.requestFile == ReadSoFar(st))
  {
  }

  /** Serving the request: the taps write its mark and the separator. */
  lemma ServeKeepsPromise(st: State)
    requires Ring(st) && Data(st) && Enabled(st, TapServe)
    ensures Data(Next(st, TapServe)) && Promise(Next(st, TapServe)) == Promise(st)
  {
    ServeShape(st);
    ServeCurrent(st);
    hide Current, RenderAll, EndsWith, Request;
  }

  lemma ServeCurrent(st: State)
    requires Ring(st) && Data(st) && Enabled(st, TapServe)
    ensures Current(Next(st, TapServe)) == Current(st)
  {
    hide Data, Render, Split, Request, Value, Mark, Chop, Assign, Ring;
    ServeShape(st);
    var st', pos, r := Next(st, TapServe), st.student.pos, Request(st.requestFile);
    var rest, last := Split([], st.lineFile[pos + 1..]), pos == |st.lineFile| - 1;
    SplitEmpty([], st.lineFile[pos + 1..]);
    RenderFirst(r, rest, st.taps);
    assert Current(st) == Chop(st.output, r) + Render([r] + rest, st.taps);
    assert Current(st') == st'.output + Render(rest, st'.taps);
    hide Current, Next, Enabled, Pending;
    Regroup(Chop(st.output, r), r, Mark(st.taps, Value(r)), if last then "\r\n" else "   ", Render(rest, st'.taps));
  }

  lemma ServeShape(st: State)
    requires Ring(st) && Data(st) && Enabled(st, TapServe)
    ensures var st', r := Next(st, TapServe), Request(st.requestFile);
      var last, a := st.student.pos == |st.lineFile| - 1, Chop(st.output, r);
      && st.student.Handing? && st.student.pos < |st.lineFile| && Pending(st) && !Pending(st')
      && st'.output == a + r + Mark(st.taps, Value(r)) + (if last then "\r\n" else "   ")
      && st'.taps == (if last then Taps(0, 0) else Assign(st.taps, Value(r)))
  {
    var r := Request(st.requestFile);
    assert ('*' in st.requestFile) == (st.student.pos == |st.lineFile| - 1);
    assert st.output == Chop(st.output, r) + r;
  }

  lemma Regroup(a: string, b: string, c: string, d: string, e: string)
    ensures a + b + c + d + e == a + (b + c + (d + e))
  {
  }

  lemma RenderFirst(r: string, rest: seq<string>, taps: Taps)
    ensures rest == [] ==> Render(rest, Taps(0, 0)) == ""
    ensures Render([r] + rest, taps) == r + Mark(taps, Value(r))
            + (if rest == [] then "\r\n" + Render(rest, Taps(0, 0)) else "   " + Render(rest, Assign(taps, Value(r))))
  {
    assert ([r] + rest)[1..] == rest;
  }

  lemma DriverSignalKeepsPromise(st: State)
    requires Ring(st) && Data(st) && Enabled(st, DriverSignal)
    ensures Data(Next(st, DriverSignal)) && Promise(Next(st, DriverSignal)) == Promise(st)
  {
    assert forall i | 0 <= i < |st.lines[1..]| :: st.lines[1..][i] == st.lines[i + 1];
    hide Render, Tokens;
    var x, y := Render(Tokens(st.lines[0]), Taps(0, 0)), RenderAll(st.lines[1..]);
    assert RenderAll(st.lines) == x + y;
    assert st.output + x + y == st.output + [] + (x + y);
  }

  lemma StudentStartKeepsPromise(st: State)
    requires Ring(st) && Data(st) && Enabled(st, StudentStart)
    ensures Data(Next(st, StudentStart)) && Promise(Next(st, StudentStart)) == Promise(st)
  {
    assert st.lineFile[0..] == st.lineFile;
    hide Render, RenderAll;
  }

  lemma StudentEndKeepsPromise(st: State)
    requires Ring(st) && Data(st) && Enabled(st, StudentEnd)
    ensures Data(Next(st, StudentEnd)) && Promise(Next(st, StudentEnd)) == Promise(st)
  {
    hide RenderAll, Request, Value, Mark, Assign;
    assert st.lineFile[st.student.pos..] == [];
    assert Render(Split([], []), st.taps) == [];
  }

  lemma StudentResumeKeepsPromise(st: State)
    requires Ring(st) && Data(st) && Enabled(st, StudentResume)
    ensures Data(Next(st, StudentResume)) && Promise(Next(st, StudentResume)) == Promise(st)
  {
    hide RenderAll, Request, Render, Split;
    assert Chop(st.output, []) == st.output;
  }

  lemma QuietStepKeepsPromise(st: State, e: Event)
    requires Ring(st) && Data(st) && Enabled(st, e) && (e == DriverWait || e == TapStart || e == TapSignal)
    ensures Data(Next(st, e)) && Promise(Next(st, e)) == Promise(st)
  {
    hide RenderAll, Request, Render, Split, Chop;
  }

  lemma StepKeepsPromise(st: State, e: Event)
    requires Ring(st) && Data(st) && Enabled(st, e)
    ensures Data(Next(st, e)) && Promise(Next(st, e)) == Promise(st)
  {
    match e
    case DriverSignal => DriverSignalKeepsPromise(st);
    case StudentStart => StudentStartKeepsPromise(st);
    case StudentRead => ReadKeepsPromise(st);
    case StudentResume => StudentResumeKeepsPromise(st);
    case StudentEnd => StudentEndKeepsPromise(st);
    case TapServe => ServeKeepsPromise(st);
    case _ => QuietStepKeepsPromise(st, e);
  }

  lemma {:induction false} RunKeepsPromise(sts: seq<State>, es: seq<Event>, k: nat)
    requires IsRun(sts, es) && Plain(sts[0].lines) && '*' !in sts[0].lineFile && k <= |es|
    ensures Data(sts[k]) && Promise(sts[k]) == RenderAll(sts[0].lines)
  {
    hide Promise, Next, Data, RenderAll;
    if k == 0 {
      InitPromise(sts[0]);
    } else {
      RunKeepsPromise(sts, es, k - 1);
      RunKeepsRing(sts, es, k - 1);
      StepKeepsPromise(sts[k - 1], es[k - 1]);
    }
  }

  lemma InitPromise(st: State)
    requires Init(st) && Plain(st.lines) && '*' !in st.lineFile
    ensures Data(st) && Promise(st) == RenderAll(st.lines)
  {
  }

  /** However the three programs interleave, when the driver has used up its input output.txt
      holds, for every time point, each request followed by the tap that the rule assigns to
      it, in order. */
  lemma OutputIsRight(sts: seq<State>, es: seq<Event>)
    requires IsRun(sts, es) && Plain(sts[0].lines) && '*' !in sts[0].lineFile
    requires var st := sts[|es|]; st.driver == Writing && st.lines == []
    ensures sts[|es|].output == RenderAll(sts[0].lines)
  {
    RunKeepsPromise(sts, es, |es|);
    RunKeepsRing(sts, es, |es|);
    assert RenderAll([]) == [];
  }

  // ---------------------------------------------------------------- the end

  /** The student never reads past the end of the line. */
  ghost predicate InLine(st: State) {
    match st.student
    case Outside => true
    case Reading(pos) => pos <= |st.lineFile|
    case Handing(pos) => pos < |st.lineFile|
  }

  function LinesLeft(lines: seq<string>): nat {
    if lines == [] then 0 else 5 * |lines[0]| + 4 + LinesLeft(lines[1..])
  }

  /** A bound on the steps that all programs together can still take. */
  ghost function StepsLeft(st: State): nat
    requires Ring(st) && InLine(st)
  {
    LinesLeft(st.lines) +
    match st.student
    case Outside => if st.driver == Writing then 0 else if st.main > 0 then 1 else 5 * |st.lineFile| + 3
    case Reading(pos) => 5 * (|st.lineFile| - pos) + 2
    case Handing(pos) =>
      5 * (|st.lineFile| - pos) - 3 +
      (if st.voinuoc > 0 then 4 else if st.tap == Serving then 3 else if st.tap == Finishing then 2 else 1)
  }

  /** Every step uses up some of it. */
  lemma StepsLeftFall(st: State, e: Event)
    requires Ring(st) && InLine(st) && Enabled(st, e)
    ensures Ring(Next(st, e)) && InLine(Next(st, e)) && StepsLeft(Next(st, e)) < StepsLeft(st)
  {
    StepKeepsRing(st, e);
    hide Value, Request, Mark, Assign;
  }

  lemma {:induction false} RunsAreBounded(sts: seq<State>, es: seq<Event>, k: nat)
    requires IsRun(sts, es) && k <= |es|
    ensures Ring(sts[k]) && InLine(sts[k]) && StepsLeft(sts[k]) + k <= LinesLeft(sts[0].lines)
  {
    hide Next, Enabled;
    if k > 0 {
      RunsAreBounded(sts, es, k - 1);
      StepsLeftFall(sts[k - 1], es[k - 1]);
    }
  }

  /** The programs cannot run for ever, and wherever they stop, the whole output is right. */
  lemma ProgramsFinish(sts: seq<State>, es: seq<Event>)
    requires IsRun(sts, es)
    ensures |es| <= LinesLeft(sts[0].lines)
    ensures Plain(sts[0].lines) && '*' !in sts[0].lineFile && !(exists e :: Enabled(sts[|es|], e)) ==>
              sts[|es|].lines == [] && sts[|es|].output == RenderAll(sts[0].lines)
  {
    RunsAreBounded(sts, es, |es|);
    OneTurn(sts, es, |es|);
    if Plain(sts[0].lines) && '*' !in sts[0].lineFile && !(exists e :: Enabled(sts[|es|], e)) {
      OutputIsRight(sts, es);
    }
  }
}
