/**
 * Whole sessions of the output multiplexer: any number of rounds, what a reader of the terminal has at
 * the end, and what is lost.
 */
module LineSession {
  import opened Sequences
  import opened MuxRecords
  import opened MuxBuffer
  import opened LineMux

  ghost predicate AllNeverLate(rounds: seq<Round>) {
    forall i :: 0 <= i < |rounds| ==> NeverLateIn(rounds[i])
  }

  // ---------------------------------------------------------------------------------------
  // What is left at the end
  // ---------------------------------------------------------------------------------------

  /** No line that ends in a newline is too long for a record in the empty terminal buffer. */
  ghost predicate LinesFit(all: string) {
    forall i, j :: 0 <= i <= j < |all| && all[j] == '\n' && j - i > BUF_SIZE - PREFIX_SIZE ==> '\n' in all[i..j]
  }

  /** The first line is complete, but too long to go into the empty terminal buffer behind the widest header. */
  predicate StartsTooLong(data: string) {
    var n := IndexOf(data, 0, '\n');
    n < |data| && n > BUF_SIZE - PREFIX_SIZE
  }

  lemma NextFits(data: string, s: Stamp)
    requires !StartsTooLong(data) && IsStamp(s)
    ensures NextRecordSize(data, s) <= BUF_SIZE
  {
    hide IndexOf;
    ShortHeader(s);
  }

  /** Those are exactly the data whose next record may not fit the empty terminal buffer. */
  lemma StuckExactly(data: string)
    ensures StartsTooLong(data) <==> exists s :: IsStamp(s) && NextRecordSize(data, s) > BUF_SIZE
  {
    hide IndexOf, NextRecordSize, StartsTooLong, IsStamp;
    if StartsTooLong(data) {
      var widest := Stamp(seq(PREFIX_SIZE - 15, _ => '0'), "");
      TooLongBehind(data, widest);
    } else {
      forall s | IsStamp(s)
        ensures NextRecordSize(data, s) <= BUF_SIZE
      {
        NextFits(data, s);
      }
    }
  }

  lemma TooLongBehind(data: string, widest: Stamp)
    requires StartsTooLong(data) && widest == Stamp(seq(PREFIX_SIZE - 15, _ => '0'), "")
    ensures IsStamp(widest) && NextRecordSize(data, widest) > BUF_SIZE
  {
    hide IndexOf;
  }

  /** In a stream whose lines fit, no such line is left. */
  lemma FittingLines(shown: string, data: string)
    requires LinesFit(shown + data)
    ensures !StartsTooLong(data)
  {
    hide IndexOf;
    var n := IndexOf(data, 0, '\n');
    assert (shown + data)[|shown|..|shown| + n] == data[..n];
  }

  /** Apart from such lines, copying to an empty buffer only leaves a line that is neither over-long nor late. */
  lemma FittingWaits(data: string, clock: Clock)
    requires !StartsTooLong(data) && IsClock(clock) && Stopped(data, BUF_SIZE, clock)
    ensures data == "" || Waiting(data, clock)
  {
    hide Waiting, NextRecordSize, StartsTooLong;
    forall k: nat
      ensures NextRecordSize(data, clock.stamp(k)) <= BUF_SIZE
    {
      NextFits(data, clock.stamp(k));
    }
  }

  lemma ShortHeader(s: Stamp)
    requires IsStamp(s)
    ensures |Header('L', s, STDIN_TAG)| < PREFIX_SIZE
  {
  }

  /**
   * What copying to an empty terminal buffer leaves of a source: nothing but the end of an unfinished line,
   * unless a complete line is left that is too long; nothing, if it was found late whenever looked at; and
   * without any timeout, exactly what chunks of full length leave of that line.
   */
  lemma EndsThere(shown: string, left: string, clock: Clock)
    requires IsClock(clock) && Stopped(left, BUF_SIZE, clock)
    ensures LinesFit(shown + left) ==> !StartsTooLong(left)
    ensures !StartsTooLong(left) ==> '\n' !in left && |left| < 100000 && |left| <= TailLength(shown + left)
    ensures !StartsTooLong(left) && (forall k: nat :: clock.late(k)) ==> left == ""
    ensures !StartsTooLong(left) && WholeChunks(shown) ==> |left| == TailLength(shown + left) % 100000
  {
    hide Stopped, TailLength, LinesFit, StartsTooLong;
    if LinesFit(shown + left) {
      FittingLines(shown, left);
    }
    if !StartsTooLong(left) {
      if left != "" {
        FittingWaits(left, clock);
      }
      TailOfConcat(shown, left);
      Quotient(TailLength(shown), |left|);
    }
  }

  lemma Quotient(n: nat, k: nat)
    ensures n % LINE_SIZE_MAX == 0 && k < LINE_SIZE_MAX ==> (n + k) % LINE_SIZE_MAX == k
  {
  }

  // ---------------------------------------------------------------------------------------
  // Any number of rounds
  // ---------------------------------------------------------------------------------------

  ghost predicate AllRounds(rounds: seq<Round>) {
    forall i :: 0 <= i < |rounds| ==> IsRound(rounds[i])
  }

  /** The states before, between and after some of the first rounds, each of which had something to do. */
  ghost predicate Trace(views: seq<View>, rounds: seq<Round>)
    requires AllRounds(rounds)
  {
    && 0 < |views| <= |rounds| + 1
    && (forall k :: 0 <= k < |views| ==> Told(views[k]) && (AllNeverLate(rounds) ==> Unbroken(views[k])))
    && (forall k :: 0 < k < |views| ==> OneStep(views, rounds, k))
  }

  /** The `k`-th state comes from the one before by the `k`-th round. */
  ghost predicate OneStep(views: seq<View>, rounds: seq<Round>, k: nat)
    requires 0 < k < |views| <= |rounds| + 1
  {
    var was, r, now := views[k - 1], rounds[k - 1], views[k];
    !Idle(was) && Follows(was, r, now) && Told(now) && IsRound(r) && Settled(now, r)
  }

  lemma TraceStarts(v: View, rounds: seq<Round>)
    requires AllRounds(rounds) && Told(v) && Unbroken(v)
    ensures Trace([v], rounds)
  {
  }

  lemma TraceGoesOn(views: seq<View>, rounds: seq<Round>, now: View)
    requires AllRounds(rounds) && Trace(views, rounds) && |views| <= |rounds|
    requires Told(now) && (AllNeverLate(rounds) ==> Unbroken(now))
    requires var was, r := views[|views| - 1], rounds[|views| - 1];
             !Idle(was) && Follows(was, r, now) && IsRound(r) && Settled(now, r)
    ensures Trace(views + [now], rounds)
  {
    hide Idle, Follows, Settled, Told, Unbroken, AllNeverLate, AllRounds, IsRound;
    var vs := views + [now];
    forall k | 0 < k < |vs|
      ensures OneStep(vs, rounds, k)
    {
      assert k < |views| ==> OneStep(views, rounds, k);
    }
  }

  lemma StepAt(views: seq<View>, rounds: seq<Round>, k: nat)
    requires AllRounds(rounds) && Trace(views, rounds) && 0 < k < |views|
    ensures |views| <= |rounds| + 1
    ensures var was, r, now := views[k - 1], rounds[k - 1], views[k];
            !Idle(was) && Follows(was, r, now) && Told(was) && Told(now) && IsRound(r) && Settled(now, r)
    ensures AllNeverLate(rounds) ==> Unbroken(views[k])
  {
    hide Idle, Follows, Settled, Told, Unbroken, AllNeverLate, AllRounds, IsRound;
    assert OneStep(views, rounds, k);
  }

  lemma IsOneRound(rounds: seq<Round>, k: nat)
    requires AllRounds(rounds) && k < |rounds|
    ensures IsRound(rounds[k]) && (AllNeverLate(rounds) ==> NeverLateIn(rounds[k]))
  {
  }

  /** The main loop over any number of rounds. It ends early exactly if it has nothing left to wait for. */
  method Run(m: Mux, rounds: seq<Round>) returns (finished: bool, ghost views: seq<View>)
    requires m.Inv() && Told(m.Now()) && Unbroken(m.Now()) && AllRounds(rounds)
    modifies m.Repr()
    ensures m.Inv() && Trace(views, rounds) && views[0] == old(m.Now()) && views[|views| - 1] == m.Now()
    ensures finished <==> |views| <= |rounds|
    ensures finished ==> Idle(m.Now())
  {
    hide IsRound, Unbroken, NeverLateIn, Mux.Inv, Mux.Now, Idle, Follows, Settled, Told, Trace, AllNeverLate, AllRounds;
    views := [m.Now()];
    TraceStarts(m.Now(), rounds);
    finished := false;
    var i := 0;
    while i < |rounds| && !finished
      invariant 0 <= i <= |rounds| && m.Inv() && Trace(views, rounds) && |views| == i + 1
      invariant views[0] == old(m.Now()) && views[i] == m.Now()
      invariant finished ==> i < |rounds| && Idle(m.Now())
      invariant AllNeverLate(rounds) ==> Unbroken(m.Now())
      decreases |rounds| - i, !finished
    {
      IsOneRound(rounds, i);
      var more := m.Step(rounds[i]);
      if more {
        TraceGoesOn(views, rounds, m.Now());
        views := views + [m.Now()];
        i := i + 1;
      } else {
        finished := true;
      }
    }
  }

  /**
   * A whole session from the start of the program, as the states that it goes through. The lemmas below say
   * what each round does, what a reader of the terminal has at any moment, and what is missing at the end.
   */
  method Session(stdinPipe: bool, rounds: seq<Round>) returns (m: Mux, finished: bool, ghost views: seq<View>)
    requires AllRounds(rounds)
    ensures m.Inv() && Trace(views, rounds) && views[|views| - 1] == m.Now()
    ensures views[0] == View("", "", "", "", "", "", "", "", "", "", stdinPipe, true, true, stdinPipe, true, true)
    ensures finished <==> |views| <= |rounds|
    ensures finished ==> Idle(views[|views| - 1])
  {
    hide Stream, Mux.Inv, Idle, Follows, Settled, Trace, AllNeverLate, AllRounds, IsRound, Told, Sane;
    m := Start(stdinPipe);
    m.StateIsSane();
    finished, views := Run(m, rounds);
  }

  // ---------------------------------------------------------------------------------------
  // What happens in a round
  // ---------------------------------------------------------------------------------------

  /** The rounds go on as long as there is a child to wait for, a source that can be read or bytes to write. */
  lemma LoopGoesOn(views: seq<View>, rounds: seq<Round>, k: nat)
    requires AllRounds(rounds) && Trace(views, rounds) && k < |views|
    requires k < |views| - 1 || Idle(views[k])
    ensures var v := views[k];
            k == |views| - 1 <==>
              && !v.running && (!v.childOpen || v.child == v.passedOn)
              && (!v.inOpen || |v.stdin| - |v.passedOn| == 204800 || |v.stdin| - |v.inShown| == 204800)
              && (if v.terminal != v.text then !v.termOpen
                  else (!v.outOpen || |v.stdout| - |v.outShown| == 204800)
                       && (!v.errOpen || |v.stderr| - |v.errShown| == 204800))
  {
    hide Stream, Follows, Settled, AllRounds, IsRound;
    if k < |views| - 1 {
      StepAt(views, rounds, k + 1);
    }
  }

  /**
   * Standard input is read if it is open and ready, the child is running, and there is room in its buffer and in
   * the one of its copy for the terminal; the read gets what is there, as far as it fits both.
   */
  lemma StandardInputIsRead(views: seq<View>, rounds: seq<Round>, k: nat)
    requires AllRounds(rounds) && Trace(views, rounds) && 0 < k < |views|
    ensures var was, now, r := views[k - 1], views[k], rounds[k - 1];
            var left := if |was.passedOn| < |was.inShown| then |was.passedOn| else |was.inShown|;
            var room := 204800 - (|was.stdin| - left);
            var tried := was.inOpen && now.running && r.stdinReady && room > 0;
            && now.running == (was.running && !r.childExits)
            && now.stdin == was.stdin + (if !tried || !r.stdin.Available? then ""
                                         else if |r.stdin.bytes| <= room then r.stdin.bytes else r.stdin.bytes[..room])
            && (now.inOpen <==> was.inOpen && now.running && (tried ==> r.stdin.Available? && r.stdin.bytes != ""))
  {
    hide Stream, Settled, AllRounds, Idle, Trace, IsRound;
    StepAt(views, rounds, k);
  }

  /** The outputs of the child are read if they are open and ready, have room, and the terminal buffer is empty. */
  lemma OutputsAreRead(views: seq<View>, rounds: seq<Round>, k: nat)
    requires AllRounds(rounds) && Trace(views, rounds) && 0 < k < |views|
    ensures var was, now, r := views[k - 1], views[k], rounds[k - 1];
            var room := 204800 - (|was.stdout| - |was.outShown|);
            var tried := was.outOpen && was.text == was.terminal && r.stdoutReady && room > 0;
            && now.stdout == was.stdout + (if !tried || !r.stdout.Available? then ""
                                           else if |r.stdout.bytes| <= room then r.stdout.bytes
                                           else r.stdout.bytes[..room])
            && (now.outOpen <==> was.outOpen && (tried ==> r.stdout.Available? && r.stdout.bytes != ""))
    ensures var was, now, r := views[k - 1], views[k], rounds[k - 1];
            var room := 204800 - (|was.stderr| - |was.errShown|);
            var tried := was.errOpen && was.text == was.terminal && r.stderrReady && room > 0;
            && now.stderr == was.stderr + (if !tried || !r.stderr.Available? then ""
                                           else if |r.stderr.bytes| <= room then r.stderr.bytes
                                           else r.stderr.bytes[..room])
            && (now.errOpen <==> was.errOpen && (tried ==> r.stderr.Available? && r.stderr.bytes != ""))
  {
    hide Stream, Settled, AllRounds, Idle, Trace, IsRound;
    StepAt(views, rounds, k);
  }

  /**
   * What waits for the child is offered to one write, which fails if it takes nothing; after that, standard input
   * is passed on as far as there is room again. The child's input is closed with the child, after a failed write,
   * or when all of a finished standard input is written.
   */
  lemma ChildGetsInput(views: seq<View>, rounds: seq<Round>, k: nat)
    requires AllRounds(rounds) && Trace(views, rounds) && 0 < k < |views|
    ensures var was, now, r := views[k - 1], views[k], rounds[k - 1];
            var tried := was.childOpen && was.child != was.passedOn && now.running && r.childReady;
            var taken := if !tried || r.childAccepts <= 0 then 0
                         else if r.childAccepts < 204800 then r.childAccepts else 204800;
            && |was.child| <= |now.stdin|
            && now.child == now.stdin[..if taken == 0 then |was.child|
                                        else if |was.child| + taken <= |now.stdin| then |was.child| + taken
                                        else |now.stdin|]
            && now.passedOn == now.stdin[..if |now.child| + 204800 <= |now.stdin| then |now.child| + 204800
                                           else |now.stdin|]
            && (now.childOpen <==> was.childOpen && now.running && (tried ==> taken > 0)
                                   && (now.inOpen || now.passedOn != now.child))
  {
    hide Stream, Settled, AllRounds, Idle, Trace, IsRound;
    StepAt(views, rounds, k);
  }

  /** All that waits for the terminal is written when it is ready, unless a write fails. */
  lemma TerminalIsWritten(views: seq<View>, rounds: seq<Round>, k: nat)
    requires AllRounds(rounds) && Trace(views, rounds) && 0 < k < |views|
    ensures var was, now, r := views[k - 1], views[k], rounds[k - 1];
            && was.terminal <= now.terminal
            && (if was.termOpen && was.terminal != was.text && r.termReady
                then was.text <= now.terminal || !now.termOpen
                else now.terminal == was.terminal && now.termOpen == was.termOpen)
            && ((forall i: nat :: r.termAccepts(i) > 0) ==> now.termOpen == was.termOpen)
  {
    hide Stream, Settled, AllRounds, Idle, Trace, IsRound;
    StepAt(views, rounds, k);
  }

  /**
   * At every moment, the lines of each tag, written or on their way to the terminal, give back what has left the
   * buffer of that source, and a buffer holds at most its size. The child gets a first part of standard input.
   */
  lemma TerminalTellsAll(views: seq<View>, rounds: seq<Round>, k: nat)
    requires AllRounds(rounds) && Trace(views, rounds) && k < |views|
    ensures var v := views[k];
            && v.terminal <= v.text && v.child <= v.passedOn <= v.stdin
            && Stream(v.text, "STDIN ") == v.inShown <= v.stdin
            && Stream(v.text, "STDOUT") == v.outShown <= v.stdout
            && Stream(v.text, "STDERR") == v.errShown <= v.stderr
  {
    hide Stream, Settled, AllRounds, OneStep;
  }

  lemma SettledBecause(left: string, free: int, clock: Clock)
    requires Stopped(left, free, clock)
    ensures || left == ""
            || ('\n' !in left && |left| < 100000 && exists i: nat :: !clock.late(i))
            || (exists i: nat :: NextRecordSize(left, clock.stamp(i)) > free)
  {
    hide NextRecordSize;
  }

  /**
   * After every round, a source holds nothing, an unfinished line that is neither over-long nor late, or a record
   * that does not fit the room that is left in the terminal buffer.
   */
  lemma WhatIsLeft(views: seq<View>, rounds: seq<Round>, k: nat, source: nat)
    requires AllRounds(rounds) && Trace(views, rounds) && 0 < k < |views| && source < 3
    ensures IsRound(rounds[k - 1])
    ensures var v, clock := views[k], rounds[k - 1].clocks[3 + source];
            var all, shown := if source == 0 then v.stdin else if source == 1 then v.stdout else v.stderr,
                Stream(v.text, ["STDIN ", "STDOUT", "STDERR"][source]);
            && shown <= all
            && var left := all[|shown|..];
            || left == ""
            || ('\n' !in left && |left| < 100000 && exists i: nat :: !clock.late(i))
            || (exists i: nat :: NextRecordSize(left, clock.stamp(i)) > 204800 - (|v.text| - |v.terminal|))
  {
    hide Stream, AllRounds, Idle, Trace, Follows, NextRecordSize, IsClock;
    StepAt(views, rounds, k);
    var v := views[k];
    var free, c := 204800 - (|v.text| - |v.terminal|), rounds[k - 1].clocks;
    SettledBecause(v.stdin[|v.inShown|..], free, c[3]);
    SettledBecause(v.stdout[|v.outShown|..], free, c[4]);
    SettledBecause(v.stderr[|v.errShown|..], free, c[5]);
  }

  /**
   * What a reader of the terminal misses when the loop has ended with the terminal open: nothing of a source but
   * the end of an unfinished line, unless a complete line is held up that is too long for the terminal buffer;
   * nothing, if the last look found that line late; and if no line was ever late, exactly what chunks of full
   * length leave of it.
   */
  lemma WhatIsMissing(views: seq<View>, rounds: seq<Round>, source: nat)
    requires AllRounds(rounds) && Trace(views, rounds) && source < 3
    requires views[0].running && Idle(views[|views| - 1]) && views[|views| - 1].termOpen
    ensures var v := views[|views| - 1];
            var all := if source == 0 then v.stdin else if source == 1 then v.stdout else v.stderr;
            var shown := Stream(v.terminal, ["STDIN ", "STDOUT", "STDERR"][source]);
            && shown <= all && 1 < |views| && |rounds[|views| - 2].clocks| == 6
            && var left := all[|shown|..];
            && (LinesFit(all) ==> !StartsTooLong(left))
            && (!StartsTooLong(left) ==>
                  && '\n' !in left && |left| < 100000 && |left| <= TailLength(all)
                  && ((var clock := rounds[|views| - 2].clocks[3 + source]; forall k: nat :: clock.late(k)) ==>
                        left == "")
                  && ((forall i :: 0 <= i < |rounds| ==> NeverLateIn(rounds[i])) ==>
                        |left| == TailLength(all) % 100000))
  {
    hide Stream, Stopped, Follows, LinesFit, StartsTooLong, TailLength, WholeChunks, IsClock, NeverLateIn;
    var last := |views| - 1;
    var v := views[last];
    assert last > 0;
    StepAt(views, rounds, last);
    var r := rounds[last - 1];
    assert Settled(v, r) && Told(v) && v.text == v.terminal && (AllNeverLate(rounds) ==> Unbroken(v));
    EndsThere(v.inShown, v.stdin[|v.inShown|..], r.clocks[3]);
    EndsThere(v.outShown, v.stdout[|v.outShown|..], r.clocks[4]);
    EndsThere(v.errShown, v.stderr[|v.errShown|..], r.clocks[5]);
    assert v.stdin == v.inShown + v.stdin[|v.inShown|..];
    assert v.stdout == v.outShown + v.stdout[|v.outShown|..];
    assert v.stderr == v.errShown + v.stderr[|v.errShown|..];
  }

  // ---------------------------------------------------------------------------------------
  // A fragment that is lost
  // ---------------------------------------------------------------------------------------

  function SomeClock(): Clock {
    Clock(_ => Stamp("", ""), _ => false)
  }

  /** A round in which the child's output is ready, and nothing else but its end. */
  function OutputRound(exits: bool, output: Input): Round {
    Round(exits, false, Eof, true, output, true, Eof, false, 0, false, _ => 0,
          [SomeClock(), SomeClock(), SomeClock(), SomeClock(), SomeClock(), SomeClock()])
  }

  lemma RoundNeverLate(exits: bool, output: Input)
    ensures IsRound(OutputRound(exits, output)) && NeverLateIn(OutputRound(exits, output))
  {
  }

  /** A single character, never found late, is not shown. */
  lemma OneLeft(v: View)
    requires Told(v) && Unbroken(v) && v.stdout == "x" && v.stdin == v.stderr == ""
    ensures v.outShown == "" && v.text == "" && v.terminal == "" && Stream(v.terminal, "STDOUT") == ""
  {
    hide Stream;
    assert TailLength("") == 0 && TailLength("x") == 1;
    assert v.outShown == "" || v.outShown == "x";
    EmptyStream("STDOUT");
  }

  /** The child's output has delivered one character, which has not been shown. */
  ghost predicate OneRead(v: View) {
    && v.stdout == "x" && v.text == v.terminal == "" && v.outShown == "" && v.termOpen
    && !v.running && !v.inOpen && !v.childOpen && !v.errOpen
  }

  lemma FirstRound(views: seq<View>, rounds: seq<Round>)
    requires AllRounds(rounds) && AllNeverLate(rounds) && Trace(views, rounds) && |views| > 1
    requires rounds[0] == OutputRound(true, Available("x"))
    requires views[0] == View("", "", "", "", "", "", "", "", "", "", false, true, true, false, true, true)
    ensures OneRead(views[1]) && views[1].outOpen && views[1].stdin == views[1].stderr == ""
  {
    hide Stream, Settled, AllRounds, AllNeverLate, Idle, Trace, IsRound;
    StepAt(views, rounds, 1);
    OneLeft(views[1]);
  }

  lemma SecondRound(views: seq<View>, rounds: seq<Round>)
    requires AllRounds(rounds) && AllNeverLate(rounds) && Trace(views, rounds) && |views| > 2
    requires rounds[1] == OutputRound(false, Eof)
    requires OneRead(views[1]) && views[1].outOpen && views[1].stdin == views[1].stderr == ""
    ensures OneRead(views[2]) && !views[2].outOpen && Idle(views[2])
  {
    hide Stream, Settled, AllRounds, AllNeverLate, Trace, IsRound;
    StepAt(views, rounds, 2);
    OneLeft(views[2]);
  }

  /**
   * The child prints one character without a newline and exits; the next round finds the end of its
   * output, and the loop ends. The terminal is open, but the character never gets there.
   */
  method LostFragment() returns (m: Mux, finished: bool)
    ensures finished && m.Inv() && m.Now().termOpen
    ensures m.Now().stdout == "x" && Stream(m.Now().terminal, "STDOUT") == ""
  {
    hide Stream, Mux.Inv, Settled, AllNeverLate, AllRounds, IsRound, NeverLateIn, Follows, Told, Unbroken;
    var rounds := [OutputRound(true, Available("x")), OutputRound(false, Eof), OutputRound(false, Eof)];
    RoundNeverLate(true, Available("x"));
    RoundNeverLate(false, Eof);
    assert AllRounds(rounds) && AllNeverLate(rounds) by { ThreeRounds(rounds); }
    ghost var views;
    m, finished, views := Session(false, rounds);
    FirstRound(views, rounds);
    SecondRound(views, rounds);
    if |views| > 3 {
      StepAt(views, rounds, 3);
    }
    EmptyStream("STDOUT");
  }

  lemma ThreeRounds(rounds: seq<Round>)
    requires |rounds| == 3 && IsRound(rounds[0]) && IsRound(rounds[1]) && IsRound(rounds[2])
    requires NeverLateIn(rounds[0]) && NeverLateIn(rounds[1]) && NeverLateIn(rounds[2])
    ensures AllRounds(rounds) && AllNeverLate(rounds)
  {
    hide IsRound, NeverLateIn;
  }
}
