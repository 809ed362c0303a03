/**
 * The output multiplexer: standard input, output and error of a child process are buffered, cut
 * into tagged records and interleaved into one terminal buffer, while standard input is also
 * passed on to the child.
 */
module LineMux {
  import opened Sequences
  import opened MuxRecords
  import opened MuxBuffer

  const STDIN_TAG: string := "STDIN "
  const STDOUT_TAG: string := "STDOUT"
  const STDERR_TAG: string := "STDERR"

  lemma Tags()
    ensures IsTag(STDIN_TAG) && IsTag(STDOUT_TAG) && IsTag(STDERR_TAG)
    ensures STDIN_TAG != STDOUT_TAG && STDIN_TAG != STDERR_TAG && STDOUT_TAG != STDERR_TAG
  {
    assert STDIN_TAG[5] == ' ' && STDOUT_TAG[5] == 'T' && STDERR_TAG[5] == 'R';
  }

  /** The clock and the line timeout, as seen at successive looks at them. */
  datatype Clock = Clock(stamp: nat -> Stamp, late: nat -> bool)

  ghost predicate IsClock(c: Clock) {
    forall k: nat :: IsStamp(c.stamp(k))
  }

  /** No line is ever late. */
  ghost predicate NeverLate(c: Clock) {
    forall k: nat :: !c.late(k)
  }

  /** No fragments of lines. */
  ghost predicate NoFragments(rs: seq<Record>) {
    forall r :: r in rs ==> r.letter != 'T'
  }

  /** A text with records appended, one line each. */
  ghost function AppendRecords(text: string, rs: seq<Record>, ss: seq<Stamp>): string
  {
    if rs == [] || ss == [] then text
    else AppendRecords(text, rs[..|rs| - 1], ss[..|ss| - 1]) + Encode(rs[|rs| - 1], ss[|ss| - 1])
  }

  /** A stream with the bytes of records appended. */
  ghost function AppendBytes(stream: string, rs: seq<Record>): string {
    if rs == [] then stream else AppendBytes(stream, rs[..|rs| - 1]) + Bytes(rs[|rs| - 1])
  }

  /** Records of one source, cut as the rules allow. */
  ghost predicate Cut(rs: seq<Record>, ss: seq<Stamp>, tag: string) {
    && |rs| == |ss|
    && forall i :: 0 <= i < |rs| ==> WellCut(rs[i]) && rs[i].tag == tag && IsStamp(ss[i])
  }

  lemma CutMeans(rs: seq<Record>, ss: seq<Stamp>, tag: string)
    requires Cut(rs, ss, tag)
    ensures forall i :: 0 <= i < |rs| ==>
              && '\n' !in rs[i].payload && (rs[i].letter == 'L' || (rs[i].letter == 'C' && |rs[i].payload| == 100000)
                                            || (rs[i].letter == 'T' && 0 < |rs[i].payload| < 100000))
  {
  }

  /** Records of one tag extend its stream by their bytes and leave every other stream alone. */
  lemma {:induction false} RecordsExtendStream(text: string, rs: seq<Record>, ss: seq<Stamp>, from: string, tag: string)
    requires Complete(text) && Cut(rs, ss, from)
    ensures Complete(AppendRecords(text, rs, ss))
    ensures Stream(AppendRecords(text, rs, ss), tag) ==
            if tag == from then AppendBytes(Stream(text, tag), rs) else Stream(text, tag)
    decreases |rs|
  {
    hide Stream, Encode, Bytes, Complete;
    if rs != [] {
      var n := |rs| - 1;
      RecordsExtendStream(text, rs[..n], ss[..n], from, tag);
      RecordExtendsStream(AppendRecords(text, rs[..n], ss[..n]), rs[n], ss[n], tag);
    }
  }

  lemma {:induction false} RecordsAreAppended(text: string, stream: string, rs: seq<Record>, ss: seq<Stamp>)
    ensures text <= AppendRecords(text, rs, ss) && stream <= AppendBytes(stream, rs)
    decreases |rs|
  {
    if rs != [] {
      RecordsAreAppended(text, stream, rs[..|rs| - 1], if ss == [] then [] else ss[..|ss| - 1]);
    }
  }

  /** How many characters follow the last newline. */
  function TailLength(s: string): nat {
    if s == "" || s[|s| - 1] == '\n' then 0 else TailLength(s[..|s| - 1]) + 1
  }

  lemma {:induction false} TailIsTail(s: string)
    ensures var n := TailLength(s); n <= |s| && '\n' !in s[|s| - n..] && (n < |s| ==> s[|s| - n - 1] == '\n')
    decreases |s|
  {
    if s != "" && s[|s| - 1] != '\n' {
      var init := s[..|s| - 1];
      TailIsTail(init);
      var n := TailLength(init);
      assert s[|s| - n - 1..] == init[|init| - n..] + [s[|s| - 1]];
    }
  }

  lemma TailSnoc(s: string, c: char)
    ensures TailLength(s + [c]) == if c == '\n' then 0 else TailLength(s) + 1
  {
    assert (s + [c])[..|s|] == s;
  }

  lemma {:induction false} TailOfConcat(a: string, b: string)
    ensures TailLength(a + b) == if '\n' in b then TailLength(b) else TailLength(a) + |b|
    decreases |b|
  {
    hide TailLength;
    if b == "" {
      assert a + b == a;
    } else {
      var init, c := b[..|b| - 1], b[|b| - 1];
      assert b == init + [c] && a + b == (a + init) + [c];
      TailOfConcat(a, init);
      TailSnoc(init, c);
      TailSnoc(a + init, c);
    }
  }

  /** A stream that ends with a whole line, or with a whole number of chunks of an over-long one. */
  ghost predicate WholeChunks(stream: string) {
    TailLength(stream) % LINE_SIZE_MAX == 0
  }

  /** Complete lines and chunks keep it that way. */
  lemma {:induction false} StaysWhole(stream: string, rs: seq<Record>, ss: seq<Stamp>, tag: string)
    requires Cut(rs, ss, tag)
    ensures NoFragments(rs) && WholeChunks(stream) ==> WholeChunks(AppendBytes(stream, rs))
    decreases |rs|
  {
    hide TailLength;
    if rs != [] && NoFragments(rs) && WholeChunks(stream) {
      var n := |rs| - 1;
      StaysWhole(stream, rs[..n], ss[..n], tag);
      var r := rs[n];
      assert r in rs;
      var before := AppendBytes(stream, rs[..n]);
      TailOfConcat(before, Bytes(r));
      if r.letter == 'L' {
        NewlineLast(r.payload);
      } else {
        OneChunkMore(TailLength(before));
      }
    }
  }

  lemma NewlineLast(s: string)
    ensures '\n' in s + "\n" && TailLength(s + "\n") == 0
  {
    assert (s + "\n")[|s|] == '\n';
  }

  lemma OneChunkMore(n: nat)
    requires n % LINE_SIZE_MAX == 0
    ensures (n + LINE_SIZE_MAX) % LINE_SIZE_MAX == 0
  {
  }

  /** The room that the next record of `data` needs; headers of all letters and tags are equally long. */
  function NextRecordSize(data: string, s: Stamp): int {
    var k := IndexOf(data, 0, '\n');
    |Header('L', s, STDIN_TAG)| + (if k == |data| then Min(k, LINE_SIZE_MAX) else k) + 1
  }

  /** Nothing is left, or the next record does not fit into `free` bytes. */
  ghost predicate Blocked(data: string, free: int, clock: Clock) {
    data == "" || exists k: nat :: NextRecordSize(data, clock.stamp(k)) > free
  }

  /** An incomplete line that is neither over-long nor late. */
  ghost predicate Waiting(data: string, clock: Clock) {
    '\n' !in data && |data| < LINE_SIZE_MAX && exists k: nat :: !clock.late(k)
  }

  /** Why copying stopped with `data` left. */
  ghost predicate Stopped(data: string, free: int, clock: Clock) {
    Blocked(data, free, clock) || Waiting(data, clock)
  }

  /** `r` is what the rules cut from the front of `data`. */
  ghost predicate CutsFront(r: Record, data: string) {
    && WellCut(r) && Bytes(r) <= data
    && (r.letter == 'L' <==> '\n' in data)
  }

  method PutRecord(to: FdData, r: Record, s: Stamp)
    requires to.Valid() && |Encode(r, s)| <= to.Free()
    modifies to`dataEnd, to`received, to.buf
    ensures to.Valid() && to.received == old(to.received) + Encode(r, s)
    ensures to.Free() == old(to.Free()) - |Encode(r, s)| && to.Data() == old(to.Data()) + Encode(r, s)
  {
    var h := Header(r.letter, s, r.tag);
    hide Header;
    ghost var before, data := to.received, to.Data();
    to.Put(h);
    to.Put(r.payload);
    to.Put("\n");
    assert before + h + r.payload + "\n" == before + Encode(r, s);
    assert data + h + r.payload + "\n" == data + Encode(r, s);
  }

  /** The characters of a record leave the source, with the newline behind them if there is one. */
  method TakeRecord(from: FdData, r: Record)
    requires from.Valid() && from.Data() != "" && CutsFront(r, from.Data())
    modifies from`dataBegin, from`removed
    ensures from.Valid() && from.removed == old(from.removed) + Bytes(r)
    ensures old(from.Data()) == Bytes(r) + from.Data()
  {
    ghost var data := from.Data();
    var n := |r.payload|;
    assert data[..n] == r.payload;
    from.Take(n);
    ghost var rest := from.Data();
    assert rest == data[n..];
    if r.letter == 'L' {
      assert data[n] == Bytes(r)[n] == '\n';
    } else {
      assert rest != "" ==> rest[0] in data;
    }
    if !from.IsEmpty() && from.buf[from.dataBegin] == '\n' {
      assert rest[0] == '\n' && rest[..1] == "\n";
      from.Take(1);
    }
  }

  method CopyRecord(from: FdData, to: FdData, r: Record, s: Stamp)
    requires from.Valid() && to.Valid() && from != to && from.buf != to.buf
    requires |Encode(r, s)| <= to.Free() && from.Data() != "" && CutsFront(r, from.Data())
    modifies from`dataBegin, from`removed, to`dataEnd, to`received, to.buf
    ensures from.Valid() && to.Valid()
    ensures to.received == old(to.received) + Encode(r, s) && from.removed == old(from.removed) + Bytes(r)
    ensures old(from.Data()) == Bytes(r) + from.Data()
  {
    hide Encode, CutsFront, Bytes;
    PutRecord(to, r, s);
    TakeRecord(from, r);
  }

  /** The letter and length of the next record, or none while the line may still grow. */
  method NextRecord(from: FdData, tag: string, late: bool) returns (r: Record, ready: bool)
    requires from.Valid() && from.Data() != "" && IsTag(tag)
    ensures ready ==> CutsFront(r, from.Data()) && r.tag == tag && (r.letter == 'T' ==> late)
    ensures ready ==> forall s :: |Header(r.letter, s, tag)| + |r.payload| + 1 == NextRecordSize(from.Data(), s)
    ensures !ready ==> '\n' !in from.Data() && |from.Data()| < LINE_SIZE_MAX && !late
  {
    hide CutsFront, Header, NextRecordSize;
    ghost var data := from.Data();
    var lb := Find(from.buf, from.dataBegin, from.dataEnd, '\n');
    var size := lb - from.dataBegin;
    assert forall i :: 0 <= i < size ==> data[i] == from.buf[from.dataBegin + i];
    FirstNewline(data, size);
    ready := true;
    var letter;
    if lb != from.dataEnd {
      letter := 'L';
    } else if size >= LINE_SIZE_MAX {
      letter := 'C';
      size := Min(size, LINE_SIZE_MAX);
    } else if late {
      letter := 'T';
    } else {
      letter := '?';
      ready := false;
    }
    r := Record(letter, tag, from.buf[from.dataBegin..from.dataBegin + size]);
    assert |r.payload| == size && forall i :: 0 <= i < size ==> r.payload[i] == data[i];
    if ready {
      FrontRecord(data, lb - from.dataBegin, r);
    }
  }

  lemma FrontRecord(data: string, k: nat, r: Record)
    requires data != "" && k == IndexOf(data, 0, '\n') && IsTag(r.tag)
    requires |r.payload| <= k && forall i :: 0 <= i < |r.payload| ==> r.payload[i] == data[i]
    requires if k < |data| then r.letter == 'L' && |r.payload| == k
             else if k >= LINE_SIZE_MAX then r.letter == 'C' && |r.payload| == LINE_SIZE_MAX
             else r.letter == 'T' && |r.payload| == k
    ensures CutsFront(r, data)
    ensures forall s :: |Header(r.letter, s, r.tag)| + |r.payload| + 1 == NextRecordSize(data, s)
  {
    hide Header, IndexOf;
    FirstNewline(data, k);
    assert r.payload == data[..|r.payload|];
    if k < |data| {
      assert Bytes(r) == data[..k + 1];
    }
    forall s
      ensures |Header(r.letter, s, r.tag)| == |Header('L', s, STDIN_TAG)|
    {
      HeaderSize(r.letter, s, r.tag);
    }
  }

  lemma HeaderSize(letter: char, s: Stamp, tag: string)
    requires IsTag(tag)
    ensures |Header(letter, s, tag)| == |Header('L', s, STDIN_TAG)|
  {
  }

  lemma FirstNewline(data: string, k: nat)
    requires k <= |data| && (k < |data| ==> data[k] == '\n') && forall i :: 0 <= i < k ==> data[i] != '\n'
    ensures IndexOf(data, 0, '\n') == k && ('\n' in data <==> k < |data|)
  {
    if k < |data| {
      IndexOfFirst(data, 0, '\n', k);
    }
  }

  /** Copies whole records until the source is used up, the next one does not fit, or more input is needed. */
  method CopyLines(from: FdData, to: FdData, tag: string, clock: Clock)
    returns (poll: bool, ghost rs: seq<Record>, ghost ss: seq<Stamp>)
    requires from.Valid() && to.Valid() && from != to && from.buf != to.buf
    requires IsTag(tag) && IsClock(clock)
    modifies from`dataBegin, from`dataEnd, from`removed, from.buf, to`dataEnd, to`received, to.buf
    ensures from.Valid() && to.Valid() && Cut(rs, ss, tag)
    ensures forall i :: 0 <= i < |rs| ==>
              && '\n' !in rs[i].payload && (rs[i].letter == 'L' || (rs[i].letter == 'C' && |rs[i].payload| == 100000)
                                            || (rs[i].letter == 'T' && 0 < |rs[i].payload| < 100000))
    ensures to.received == AppendRecords(old(to.received), rs, ss)
    ensures from.removed == AppendBytes(old(from.removed), rs)
    ensures Stopped(from.Data(), to.Free(), clock) && (!poll ==> Blocked(from.Data(), to.Free(), clock))
    ensures to.Free() <= old(to.Free()) && from.dataBegin == 0
    ensures NeverLate(clock) ==> NoFragments(rs)
    ensures if rs == [] then to.received == old(to.received) else |from.removed| > |old(from.removed)|
  {
    hide Encode, Bytes, CutsFront, Stopped, Blocked, AppendRecords, AppendBytes, Cut, Header, NextRecordSize;
    NoneYet(to.received, from.removed, tag);
    rs, ss, poll := [], [], false;
    var k, full := 0, false;
    while !from.IsEmpty() && !full
      invariant from.Valid() && to.Valid() && Cut(rs, ss, tag) && k >= 0
      invariant to.received == AppendRecords(old(to.received), rs, ss)
      invariant from.removed == AppendBytes(old(from.removed), rs)
      invariant full ==> Stopped(from.Data(), to.Free(), clock) && Blocked(from.Data(), to.Free(), clock)
      invariant !poll && to.Free() <= old(to.Free())
      invariant NeverLate(clock) ==> NoFragments(rs)
      invariant |from.removed| >= |old(from.removed)| + |rs| && (rs == [] ==> to.received == old(to.received))
      decreases |from.Data()|, !full
    {
      var r, ready := NextRecord(from, tag, clock.late(k));
      if !ready {
        poll := true;
        NotReady(from.Data(), to.Free(), clock, k);
        break;
      }
      var stamp := clock.stamp(k);
      if |Header(r.letter, stamp, tag)| + |r.payload| + 1 <= to.Free() {
        OneMore(old(to.received), old(from.removed), rs, ss, r, stamp, tag, from.Data());
        CopyRecord(from, to, r, stamp);
        rs, ss := rs + [r], ss + [stamp];
      } else {
        full := true;
        DoesNotFit(from.Data(), to.Free(), clock, k);
      }
      k := k + 1;
    }
    CutMeans(rs, ss, tag);
    if from.IsEmpty() {
      AllCopied(to.Free(), clock);
    }
    from.MoveToFront();
  }

  lemma NoneYet(text: string, stream: string, tag: string)
    ensures Cut([], [], tag) && AppendRecords(text, [], []) == text && AppendBytes(stream, []) == stream
  {
  }

  lemma AllCopied(free: int, clock: Clock)
    ensures Stopped("", free, clock) && Blocked("", free, clock)
  {
  }

  lemma NotReady(data: string, free: int, clock: Clock, k: nat)
    requires '\n' !in data && |data| < LINE_SIZE_MAX && !clock.late(k)
    ensures Stopped(data, free, clock)
  {
  }

  lemma DoesNotFit(data: string, free: int, clock: Clock, k: nat)
    requires NextRecordSize(data, clock.stamp(k)) > free
    ensures Stopped(data, free, clock) && Blocked(data, free, clock)
  {
  }

  lemma OneMore(text: string, stream: string, rs: seq<Record>, ss: seq<Stamp>, r: Record, s: Stamp, tag: string,
      data: string)
    requires Cut(rs, ss, tag) && CutsFront(r, data) && r.tag == tag && IsStamp(s)
    ensures Cut(rs + [r], ss + [s], tag) && Bytes(r) != ""
    ensures |Encode(r, s)| == |Header(r.letter, s, tag)| + |r.payload| + 1
    ensures AppendRecords(text, rs + [r], ss + [s]) == AppendRecords(text, rs, ss) + Encode(r, s)
    ensures AppendBytes(stream, rs + [r]) == AppendBytes(stream, rs) + Bytes(r)
  {
    assert (rs + [r])[..|rs|] == rs && (ss + [s])[..|ss|] == ss;
  }

  // ---------------------------------------------------------------------------------------
  // The main loop
  // ---------------------------------------------------------------------------------------

  /** What the outside does during one round: readiness, data and write sizes, child state, clock. */
  datatype Round = Round(
    childExits: bool,
    stdinReady: bool, stdin: Input,
    stdoutReady: bool, stdout: Input,
    stderrReady: bool, stderr: Input,
    childReady: bool, childAccepts: int,
    termReady: bool, termAccepts: nat -> int,
    clocks: seq<Clock>)

  ghost predicate IsRound(r: Round) {
    |r.clocks| == 6 && forall i :: 0 <= i < 6 ==> IsClock(r.clocks[i])
  }

  datatype Ready = Ready(stdin: bool, stdout: bool, stderr: bool, child: bool, term: bool)

  ghost predicate NeverLateIn(r: Round) {
    forall i :: 0 <= i < |r.clocks| ==> NeverLate(r.clocks[i])
  }

  datatype Chunks = Chunks(stdin: string, stdout: string, stderr: string)

  /**
   * The state of the program. For each source, what has been read and what has left its buffer: standard
   * input is passed on to the child and shown, the two outputs are shown. For each sink, what has entered
   * its buffer (for the child, this is what has been passed on) and what has been written.
   */
  datatype View = View(
    stdin: string, passedOn: string, inShown: string, stdout: string, outShown: string, stderr: string,
    errShown: string, child: string, text: string, terminal: string,
    inOpen: bool, outOpen: bool, errOpen: bool, childOpen: bool, termOpen: bool, running: bool)

  /** Each buffer holds what has entered it and not left it. */
  ghost predicate Sane(v: View) {
    && v.child <= v.passedOn <= v.stdin && v.inShown <= v.stdin && v.outShown <= v.stdout && v.errShown <= v.stderr
    && v.terminal <= v.text
  }

  /**
   * Signals and reads: an end of file or an error closes a source, and standard input and the child's input
   * are closed when the child has exited.
   */
  ghost predicate Took(was: View, now: View, offer: Chunks, ready: Ready, alive: bool) {
    now == was.(stdin := was.stdin + (if alive then offer.stdin else ""), stdout := was.stdout + offer.stdout,
                stderr := was.stderr + offer.stderr, running := was.running && alive,
                childOpen := was.childOpen && alive,
                inOpen := was.inOpen && alive && (ready.stdin ==> offer.stdin != ""),
                outOpen := was.outOpen && (ready.stdout ==> offer.stdout != ""),
                errOpen := was.errOpen && (ready.stderr ==> offer.stderr != ""))
  }

  /** Standard input is passed on as far as there is room; lines enter the terminal buffer. */
  ghost predicate Refilled(was: View, now: View) {
    && was.inShown <= now.inShown && was.outShown <= now.outShown && was.errShown <= now.errShown
    && was.text <= now.text
    && now == was.(inShown := now.inShown, outShown := now.outShown, errShown := now.errShown, text := now.text,
                   passedOn := was.stdin[..Min(|was.stdin|, |was.child| + BUF_SIZE)])
  }

  /** The writes: one to the child, and all that is there to the terminal, unless a write fails. */
  ghost predicate Wrote(was: View, now: View, r: Round, ready: Ready) {
    && was.child <= now.child <= was.passedOn
    && |now.child| == |was.child| + (if ready.child && was.childOpen && r.childAccepts > 0
                                     then Min(r.childAccepts, |was.passedOn| - |was.child|) else 0)
    && (now.childOpen <==> was.childOpen && (ready.child && was.passedOn != was.child ==> r.childAccepts > 0))
    && was.terminal <= now.terminal
    && (if ready.term && was.termOpen then now.terminal == was.text || !now.termOpen
        else now.terminal == was.terminal && now.termOpen == was.termOpen)
    && ((forall k: nat :: r.termAccepts(k) > 0) ==> now.termOpen == was.termOpen)
    && now == was.(child := now.child, childOpen := now.childOpen, terminal := now.terminal, termOpen := now.termOpen)
  }

  /** After the end of standard input, and with all of it written, the child's input is closed. */
  ghost predicate Finished(was: View, now: View) {
    now == was.(childOpen := was.childOpen && (was.inOpen || was.passedOn != was.child))
  }

  /** What a whole round changes, apart from which lines enter the terminal buffer. */
  ghost predicate Progressed(was: View, now: View, r: Round, offer: Chunks, ready: Ready) {
    var alive := was.running && !r.childExits;
    && now.stdin == was.stdin + (if alive then offer.stdin else "")
    && now.stdout == was.stdout + offer.stdout && now.stderr == was.stderr + offer.stderr
    && (now.inOpen <==> was.inOpen && alive && (ready.stdin ==> offer.stdin != ""))
    && (now.outOpen <==> was.outOpen && (ready.stdout ==> offer.stdout != ""))
    && (now.errOpen <==> was.errOpen && (ready.stderr ==> offer.stderr != ""))
    && now.running == alive
    && was.child <= now.child
    && |now.child| == (if ready.child && alive && r.childAccepts > 0
                       then Min(|was.child| + Min(r.childAccepts, BUF_SIZE), |now.stdin|) else |was.child|)
    && now.passedOn == now.stdin[..Min(|now.stdin|, |now.child| + BUF_SIZE)]
    && (now.childOpen <==> was.childOpen && alive && (ready.child ==> r.childAccepts > 0)
                           && (now.inOpen || now.passedOn != now.child))
    && was.terminal <= now.terminal
    && (if ready.term then was.text <= now.terminal || !now.termOpen
        else now.terminal == was.terminal && now.termOpen == was.termOpen)
    && ((forall k: nat :: r.termAccepts(k) > 0) ==> now.termOpen == was.termOpen)
  }

  lemma RoundProgresses(v: View, a: View, b: View, c: View, d: View, e: View, r: Round, offer: Chunks, ready: Ready)
    requires Sane(v) && Sane(a) && Sane(b) && Sane(c) && Sane(d)
    requires Took(v, a, offer, ready, v.running && !r.childExits) && Refilled(a, b)
    requires Wrote(b, c, r, ready) && Refilled(c, d) && Finished(d, e)
    requires (ready.child ==> v.childOpen && v.passedOn != v.child) && (ready.term ==> v.termOpen)
    requires |v.passedOn| <= |v.child| + BUF_SIZE
    ensures Progressed(v, e, r, offer, ready)
  {
  }

  /** What a buffer holds, from the front on, is what has entered and not left it. */
  lemma DataIsLeft(fdd: FdData)
    requires fdd.Valid() && fdd.dataBegin == 0
    ensures fdd.received == fdd.removed + fdd.Data() && fdd.Data() == fdd.received[|fdd.removed|..]
    ensures fdd.dataEnd == |fdd.Data()| == |fdd.received| - |fdd.removed| <= BUF_SIZE && fdd.removed <= fdd.received
  {
  }

  lemma PassedOn(all: string, removed: string, child: string, data: string)
    requires all == removed + data && |child| <= |removed| <= |child| + BUF_SIZE
    ensures var n := Min(BUF_SIZE - (|removed| - |child|), |data|);
            0 <= n <= |data| && removed + data[..n] == all[..Min(|all|, |child| + BUF_SIZE)]
  {
  }

  lemma FlushedIsPrefix(all: string, data: string, removed: string, nowData: string, nowRemoved: string, n: nat)
    requires Flushed(data, removed, nowData, nowRemoved, n) && all == removed + data
    ensures removed <= nowRemoved <= all && |nowRemoved| == |removed| + n && all == nowRemoved + nowData
    ensures nowData == "" ==> nowRemoved == all
    ensures nowData == data ==> nowRemoved == removed
  {
    if nowData == data {
      assert n == 0;
    }
  }

  /** Room in a buffer that has taken in `received` and let out `removed`. */
  function Room(received: string, removed: string): int {
    BUF_SIZE - (|received| - |removed|)
  }

  /** What a read delivers that is tried with this much room. */
  function Delivered(tried: bool, input: Input, room: int): string {
    if !tried || !input.Available? || room <= 0 then ""
    else if |input.bytes| <= room then input.bytes
    else input.bytes[..room]
  }

  /** The sources that are read, and what they deliver. */
  ghost predicate Offered(v: View, r: Round, offer: Chunks, ready: Ready) {
    var inRoom := Min(Room(v.stdin, v.passedOn), Room(v.stdin, v.inShown));
    var outRoom, errRoom := Room(v.stdout, v.outShown), Room(v.stderr, v.errShown);
    var free := |v.text| == |v.terminal|;
    && ready == Ready(v.inOpen && r.stdinReady && inRoom > 0, free && v.outOpen && r.stdoutReady && outRoom > 0,
                      free && v.errOpen && r.stderrReady && errRoom > 0,
                      v.childOpen && |v.child| < |v.passedOn| && r.childReady, v.termOpen && !free && r.termReady)
    && offer == Chunks(Delivered(ready.stdin, r.stdin, inRoom), Delivered(ready.stdout, r.stdout, outRoom),
                       Delivered(ready.stderr, r.stderr, errRoom))
  }

  /** Nothing is left to wait for: no source to read from and no bytes to write. */
  ghost predicate Idle(v: View) {
    && !v.running
    && (v.inOpen ==> Room(v.stdin, v.passedOn) == 0 || Room(v.stdin, v.inShown) == 0)
    && (v.childOpen ==> v.child == v.passedOn) && (v.termOpen ==> v.text == v.terminal)
    && (v.outOpen && v.text == v.terminal ==> Room(v.stdout, v.outShown) == 0)
    && (v.errOpen && v.text == v.terminal ==> Room(v.stderr, v.errShown) == 0)
  }

  /**
   * What one round does. A source is read if it is open and ready and its buffer has room: standard input while
   * the child is running and its copy for the terminal has room, too, the two outputs only while the terminal
   * buffer is empty. The read takes what is there, as far as it fits. What waits for the child is offered to one
   * write, which may fail, and standard input is passed on as far as there is room again. What waits for the
   * terminal is all written, unless a write fails.
   */
  ghost predicate Follows(was: View, r: Round, now: View) {
    && now.running == (was.running && !r.childExits)
    && (var room := Min(Room(was.stdin, was.passedOn), Room(was.stdin, was.inShown));
        var tried := was.inOpen && now.running && r.stdinReady && room > 0;
        && now.stdin == was.stdin + Delivered(tried, r.stdin, room)
        && (now.inOpen <==> was.inOpen && now.running && (tried ==> r.stdin.Available? && r.stdin.bytes != "")))
    && (var room := Room(was.stdout, was.outShown);
        var tried := was.outOpen && |was.text| == |was.terminal| && r.stdoutReady && room > 0;
        && now.stdout == was.stdout + Delivered(tried, r.stdout, room)
        && (now.outOpen <==> was.outOpen && (tried ==> r.stdout.Available? && r.stdout.bytes != "")))
    && (var room := Room(was.stderr, was.errShown);
        var tried := was.errOpen && |was.text| == |was.terminal| && r.stderrReady && room > 0;
        && now.stderr == was.stderr + Delivered(tried, r.stderr, room)
        && (now.errOpen <==> was.errOpen && (tried ==> r.stderr.Available? && r.stderr.bytes != "")))
    && (var tried := was.childOpen && |was.child| < |was.passedOn| && now.running && r.childReady;
        && was.child <= now.child
        && |now.child| == (if tried && r.childAccepts > 0
                           then Min(|was.child| + Min(r.childAccepts, BUF_SIZE), |now.stdin|) else |was.child|)
        && now.passedOn == now.stdin[..Min(|now.stdin|, |now.child| + BUF_SIZE)]
        && (now.childOpen <==> was.childOpen && now.running && (tried ==> r.childAccepts > 0)
                               && (now.inOpen || now.passedOn != now.child)))
    && was.terminal <= now.terminal
    && (if was.termOpen && |was.terminal| < |was.text| && r.termReady
        then was.text <= now.terminal || !now.termOpen
        else now.terminal == was.terminal && now.termOpen == was.termOpen)
    && ((forall k: nat :: r.termAccepts(k) > 0) ==> now.termOpen == was.termOpen)
  }

  lemma RoundFollows(was: View, now: View, r: Round, offer: Chunks, ready: Ready)
    requires Progressed(was, now, r, offer, ready) && Offered(was, r, offer, ready) && Sane(was) && Sane(now)
    ensures Follows(was, r, now)
  {
  }

  /** The terminal text tells what is shown of each source. */
  ghost predicate Told(v: View) {
    && Sane(v)
    && v.inShown == Stream(v.text, "STDIN ") && v.outShown == Stream(v.text, "STDOUT")
    && v.errShown == Stream(v.text, "STDERR")
    && (v.inShown == v.outShown == v.errShown == "" ==> v.text == "")
  }

  /** Why copying has left what each source holds. */
  ghost predicate Settled(v: View, r: Round)
    requires Sane(v) && IsRound(r)
  {
    var free := Room(v.text, v.terminal);
    && Stopped(v.stdin[|v.inShown|..], free, r.clocks[3]) && Stopped(v.stdout[|v.outShown|..], free, r.clocks[4])
    && Stopped(v.stderr[|v.errShown|..], free, r.clocks[5])
  }

  /** What is shown of each source ends with a whole line or a whole number of chunks of one. */
  ghost predicate Unbroken(v: View) {
    WholeChunks(v.inShown) && WholeChunks(v.outShown) && WholeChunks(v.errShown)
  }

  /** How many bytes one write takes of those that wait. */
  function Written(open: bool, ready: bool, accepts: int, waits: string): nat {
    if open && ready && accepts > 0 then Min(accepts, |waits|) else 0
  }

  class Mux {
    const rdIn: FdData      // standard input
    const rdInEcho: FdData  // a copy of it for the terminal
    const wrIn: FdData      // towards the child's standard input
    const rdOut: FdData     // from the child's standard output
    const rdErr: FdData     // from the child's standard error
    const wrOut: FdData     // towards the terminal
    var pollTimeout: bool
    var childRunning: bool

    ghost function Repr(): set<object> {
      {this, rdIn, rdIn.buf, rdInEcho, rdInEcho.buf, wrIn, wrIn.buf,
       rdOut, rdOut.buf, rdErr, rdErr.buf, wrOut, wrOut.buf}
    }

    ghost predicate Apart() {
      && {rdIn} !! {rdInEcho} !! {wrIn} !! {rdOut} !! {rdErr} !! {wrOut}
      && {rdIn.buf} !! {rdInEcho.buf} !! {wrIn.buf} !! {rdOut.buf} !! {rdErr.buf} !! {wrOut.buf}
    }

    /** Every buffer is consistent, and what has left each source is exactly what the terminal text says. */
    ghost predicate Inv()
      reads rdIn, rdIn.buf, rdInEcho, rdInEcho.buf, wrIn, wrIn.buf, rdOut, rdOut.buf, rdErr, rdErr.buf, wrOut, wrOut.buf
    {
      && Apart()
      && rdIn.Valid() && rdInEcho.Valid() && wrIn.Valid() && rdOut.Valid() && rdErr.Valid() && wrOut.Valid()
      && rdInEcho.received == rdIn.received
      && wrIn.received == rdIn.removed
      && rdIn.dataBegin == rdInEcho.dataBegin == wrIn.dataBegin == rdOut.dataBegin == rdErr.dataBegin == 0
      && Complete(wrOut.received) && wrOut.dataBegin == 0
      && Stream(wrOut.received, STDIN_TAG) == rdInEcho.removed
      && Stream(wrOut.received, STDOUT_TAG) == rdOut.removed
      && Stream(wrOut.received, STDERR_TAG) == rdErr.removed
      && (rdInEcho.removed == rdOut.removed == rdErr.removed == "" ==> wrOut.received == "")
    }

    constructor (rdIn: FdData, rdInEcho: FdData, wrIn: FdData, rdOut: FdData, rdErr: FdData, wrOut: FdData)
      requires {rdIn} !! {rdInEcho} !! {wrIn} !! {rdOut} !! {rdErr} !! {wrOut}
      requires {rdIn.buf} !! {rdInEcho.buf} !! {wrIn.buf} !! {rdOut.buf} !! {rdErr.buf} !! {wrOut.buf}
      requires rdIn.Valid() && rdInEcho.Valid() && wrIn.Valid() && rdOut.Valid() && rdErr.Valid() && wrOut.Valid()
      requires rdIn.received == rdInEcho.received == wrIn.received == rdOut.received == rdErr.received
                == wrOut.received == ""
      requires rdIn.dataBegin == rdInEcho.dataBegin == wrIn.dataBegin == rdOut.dataBegin == rdErr.dataBegin == 0
      requires wrOut.dataBegin == 0
      ensures this.rdIn == rdIn && this.rdInEcho == rdInEcho && this.wrIn == wrIn
      ensures this.rdOut == rdOut && this.rdErr == rdErr && this.wrOut == wrOut && Inv() && childRunning
    {
      this.rdIn, this.rdInEcho, this.wrIn, this.rdOut, this.rdErr, this.wrOut :=
          rdIn, rdInEcho, wrIn, rdOut, rdErr, wrOut;
      pollTimeout, childRunning := false, true;
      new;
      hide Stream;
      EmptyStream(STDIN_TAG);
      EmptyStream(STDOUT_TAG);
      EmptyStream(STDERR_TAG);
    }

    /** One source into the terminal buffer. */
    method CopySource(from: FdData, tag: string, clock: Clock)
      requires Inv() && IsClock(clock)
      requires (from == rdInEcho && tag == STDIN_TAG) || (from == rdOut && tag == STDOUT_TAG)
                || (from == rdErr && tag == STDERR_TAG)
      modifies `pollTimeout, from`dataBegin, from`dataEnd, from`removed, from.buf, wrOut`dataEnd, wrOut`received,
          wrOut.buf
      ensures Inv() && Stopped(from.Data(), wrOut.Free(), clock) && wrOut.Free() <= old(wrOut.Free())
      ensures old(from.removed) <= from.removed && old(wrOut.received) <= wrOut.received
      ensures from.dataBegin == 0 && (NeverLate(clock) && old(Unbroken(Now())) ==> Unbroken(Now()))
      ensures (old(pollTimeout) ==> pollTimeout) && (!pollTimeout ==> Blocked(from.Data(), wrOut.Free(), clock))
    {
      hide Stream, Complete, AppendRecords, AppendBytes, Cut, Stopped, Blocked, FdData.Valid, FdData.Data;
      hide NeverLate, NoFragments, WholeChunks;
      Tags();
      ghost var text, removed := wrOut.received, from.removed;
      var poll, rs, ss := CopyLines(from, wrOut, tag, clock);
      if poll {
        pollTimeout := true;
      }
      RecordsExtendStream(text, rs, ss, tag, STDIN_TAG);
      RecordsExtendStream(text, rs, ss, tag, STDOUT_TAG);
      RecordsExtendStream(text, rs, ss, tag, STDERR_TAG);
      StaysWhole(removed, rs, ss, tag);
      RecordsAreAppended(text, removed, rs, ss);
    }

    /** What each source has left is excused; and the loop will look again at a line that may still grow. */
    ghost predicate AllStopped(c: Clock, d: Clock, e: Clock)
      reads `pollTimeout, rdInEcho, rdInEcho.buf, rdOut, rdOut.buf, rdErr, rdErr.buf, wrOut
    {
      && rdInEcho.Valid() && rdOut.Valid() && rdErr.Valid()
      && rdInEcho.dataBegin == rdOut.dataBegin == rdErr.dataBegin == 0
      && Stopped(rdInEcho.Data(), wrOut.Free(), c)
      && Stopped(rdOut.Data(), wrOut.Free(), d)
      && Stopped(rdErr.Data(), wrOut.Free(), e)
      && (!pollTimeout ==> && Blocked(rdInEcho.Data(), wrOut.Free(), c)
                           && Blocked(rdOut.Data(), wrOut.Free(), d)
                           && Blocked(rdErr.Data(), wrOut.Free(), e))
    }

    /** Standard input is passed on as far as there is room for it. */
    method PassOn()
      requires Inv()
      modifies rdIn`dataBegin, rdIn`dataEnd, rdIn`removed, rdIn.buf, wrIn`dataEnd, wrIn`received, wrIn.buf
      ensures Inv() && var all := rdIn.received; rdIn.removed == all[..Min(|all|, |wrIn.removed| + BUF_SIZE)]
    {
      hide Stream, Complete, FdData.Valid, FdData.Data;
      DataIsLeft(rdIn);
      DataIsLeft(wrIn);
      ghost var removed, data := rdIn.removed, rdIn.Data();
      PassedOn(rdIn.received, removed, wrIn.removed, data);
      CopyThrough(rdIn, wrIn);
    }

    /** Passes standard input on and fills the terminal buffer from the three sources. */
    method Refill(c: Clock, d: Clock, e: Clock)
      requires Inv() && IsClock(c) && IsClock(d) && IsClock(e)
      modifies `pollTimeout, {rdIn, rdInEcho, rdOut, rdErr}`dataBegin
      modifies {rdIn, rdInEcho, rdOut, rdErr, wrIn, wrOut}`dataEnd
      modifies {rdIn, rdInEcho, rdOut, rdErr}`removed, {wrIn, wrOut}`received
      modifies rdIn.buf, rdInEcho.buf, wrIn.buf, rdOut.buf, rdErr.buf, wrOut.buf
      ensures Inv() && AllStopped(c, d, e) && Refilled(old(Now()), Now())
      ensures NeverLate(c) && NeverLate(d) && NeverLate(e) && old(Unbroken(Now())) ==> Unbroken(Now())
    {
      hide Stream, Complete, Stopped, Blocked, FdData.Data, FdData.Valid, NeverLate, WholeChunks;
      PassOn();
      CopySource(rdInEcho, STDIN_TAG, c);
      ghost var free1 := wrOut.Free();
      CopySource(rdOut, STDOUT_TAG, d);
      ghost var free2 := wrOut.Free();
      CopySource(rdErr, STDERR_TAG, e);
      StoppedWithLess(rdInEcho.Data(), free1, wrOut.Free(), c);
      StoppedWithLess(rdOut.Data(), free2, wrOut.Free(), d);
    }

    /** The invariant, as far as it is about what has entered and left the buffers. */
    lemma StateIsSane()
      requires Inv()
      ensures Sane(Now())
      ensures var v := Now();
              && rdIn.dataEnd == |v.stdin| - |v.passedOn| && rdInEcho.dataEnd == |v.stdin| - |v.inShown|
              && rdOut.dataEnd == |v.stdout| - |v.outShown| && rdErr.dataEnd == |v.stderr| - |v.errShown|
              && wrIn.dataEnd == |v.passedOn| - |v.child| && wrOut.dataEnd == |v.text| - |v.terminal|
              && wrIn.received == v.passedOn
      ensures rdIn.dataEnd <= BUF_SIZE && rdInEcho.dataEnd <= BUF_SIZE && wrIn.dataEnd <= BUF_SIZE
      ensures rdOut.dataEnd <= BUF_SIZE && rdErr.dataEnd <= BUF_SIZE
      ensures rdIn.dataBegin == rdInEcho.dataBegin == wrIn.dataBegin == rdOut.dataBegin == rdErr.dataBegin == 0
      ensures wrOut.dataBegin == 0
      ensures Told(Now())
    {
      hide Stream, Complete;
    }

    lemma StateIsSettled(r: Round)
      requires Inv() && IsRound(r) && AllStopped(r.clocks[3], r.clocks[4], r.clocks[5])
      ensures Sane(Now()) && Settled(Now(), r)
    {
      hide Inv, Stopped, Blocked;
      StateIsSane();
      assert rdInEcho.received == rdIn.received by { EchoIsInput(); }
      DataIsLeft(rdInEcho);
      DataIsLeft(rdOut);
      DataIsLeft(rdErr);
    }

    lemma EchoIsInput()
      requires Inv()
      ensures rdInEcho.received == rdIn.received
    {
      hide Stream, Complete;
    }

    /** Selecting is possible: open, with room or with bytes to write. */
    predicate SelectIn()
      reads rdIn, rdInEcho
    {
      rdIn.open && rdIn.dataEnd != BUF_SIZE && rdInEcho.dataEnd != BUF_SIZE
    }

    predicate SelectOut(source: FdData)
      reads source, wrOut
    {
      wrOut.IsEmpty() && source.open && source.dataEnd != BUF_SIZE
    }

    predicate SelectWrite(sink: FdData)
      reads sink
    {
      sink.open && !sink.IsEmpty()
    }

    /** What is ready of what was selected. */
    function Selected(r: Round): Ready
      reads this, rdIn, rdInEcho, wrIn, rdOut, rdErr, wrOut
    {
      Ready(SelectIn() && r.stdinReady, SelectOut(rdOut) && r.stdoutReady, SelectOut(rdErr) && r.stderrReady,
            SelectWrite(wrIn) && r.childReady, SelectWrite(wrOut) && r.termReady)
    }

    /** What one read gets, if it is tried. */
    ghost function Got(source: FdData, ready: bool, input: Input, room: int): string
      reads source
    {
      if source.open && ready then Chunk(input, room) else ""
    }

    ghost function Now(): View
      reads {rdIn, rdOut, rdErr, wrOut}`received, {rdIn, rdInEcho, rdOut, rdErr, wrIn, wrOut}`removed
      reads {rdIn, rdOut, rdErr, wrIn, wrOut}`open, `childRunning
    {
      View(rdIn.received, rdIn.removed, rdInEcho.removed, rdOut.received, rdOut.removed, rdErr.received, rdErr.removed,
           wrIn.removed, wrOut.received, wrOut.removed,
           rdIn.open, rdOut.open, rdErr.open, wrIn.open, wrOut.open, childRunning)
    }

    /** What a round would read from the three sources, for what is ready. */
    ghost function Offer(r: Round, ready: Ready): Chunks
      reads rdIn, rdInEcho, rdOut, rdErr
    {
      Chunks(Got(rdIn, ready.stdin, r.stdin, Min(rdIn.Free(), rdInEcho.Free())),
             Got(rdOut, ready.stdout, r.stdout, rdOut.Free()), Got(rdErr, ready.stderr, r.stderr, rdErr.Free()))
    }

    /** The reads of a round. */
    method ReadPhase(r: Round, ready: Ready)
      requires Inv()
      modifies {rdIn, rdOut, rdErr}`open, {rdIn, rdOut, rdErr}`dataEnd, {rdIn, rdOut, rdErr}`received
      modifies rdInEcho, rdIn.buf, rdInEcho.buf, rdOut.buf, rdErr.buf
      ensures Inv() && Took(old(Now()), Now(), old(Offer(r, ready)), ready, true)
      ensures old(Unbroken(Now())) ==> Unbroken(Now())
    {
      hide Stream, Complete, Chunk, FdData.Data, FdData.Valid, WholeChunks;
      CopyToBuffer(ready.stdin, r.stdin, rdIn, rdInEcho);
      CopyToBuffer(ready.stdout, r.stdout, rdOut, null);
      CopyToBuffer(ready.stderr, r.stderr, rdErr, null);
    }

    /** One write to the child. */
    method WriteToChild(r: Round, ready: bool)
      requires Inv()
      modifies wrIn`open, wrIn`dataBegin, wrIn`dataEnd, wrIn`removed, wrIn.buf
      ensures Inv() && old(Now().child) <= Now().child <= old(Now().passedOn)
      ensures var was, now := old(Now()), Now();
              && now == was.(child := now.child, childOpen := now.childOpen)
              && |now.child| == |was.child| + (if ready && was.childOpen && r.childAccepts > 0
                                               then Min(r.childAccepts, |was.passedOn| - |was.child|) else 0)
              && (now.childOpen <==> was.childOpen && (ready && was.passedOn != was.child ==> r.childAccepts > 0))
    {
      hide Stream, Complete, FdData.Valid, FdData.Data, Flushed;
      DataIsLeft(wrIn);
      ghost var child, waits := wrIn.removed, wrIn.Data();
      ghost var k := Written(wrIn.open, ready, r.childAccepts, waits);
      CopyToFd(ready, r.childAccepts, wrIn);
      FlushedIsPrefix(wrIn.received, waits, child, wrIn.Data(), wrIn.removed, k);
    }

    /** The writes to the terminal. */
    method WriteToTerm(r: Round, ready: bool)
      requires Inv()
      modifies wrOut`open, wrOut`dataBegin, wrOut`dataEnd, wrOut`removed, wrOut.buf
      ensures Inv() && old(Now().terminal) <= Now().terminal
      ensures var was, now := old(Now()), Now();
              && now == was.(terminal := now.terminal, termOpen := now.termOpen)
              && (if ready && was.termOpen then now.terminal == was.text || !now.termOpen
                  else now.terminal == was.terminal && now.termOpen == was.termOpen)
              && ((forall k: nat :: r.termAccepts(k) > 0) ==> now.termOpen == was.termOpen)
    {
      hide Stream, Complete, FdData.Valid, FdData.Data, Flushed;
      DataIsLeft(wrOut);
      ghost var terminal, text := wrOut.removed, wrOut.Data();
      ghost var n := CopyToTerm(ready, r.termAccepts, wrOut);
      FlushedIsPrefix(wrOut.received, text, terminal, wrOut.Data(), wrOut.removed, n);
    }

    /** The writes of a round. */
    method WritePhase(r: Round, ready: Ready)
      requires Inv()
      modifies {wrIn, wrOut}`open, {wrIn, wrOut}`dataBegin, {wrIn, wrOut}`dataEnd, {wrIn, wrOut}`removed
      modifies wrIn.buf, wrOut.buf
      ensures Inv() && Wrote(old(Now()), Now(), r, ready)
    {
      hide Inv;
      WriteToChild(r, ready.child);
      WriteToTerm(r, ready.term);
    }

    /** Nothing is left to wait for. */
    ghost predicate Quiet()
      reads this, rdIn, rdInEcho, wrIn, rdOut, rdErr, wrOut
    {
      && !childRunning && !SelectIn() && !SelectWrite(wrIn) && !SelectWrite(wrOut)
      && !SelectOut(rdOut) && !SelectOut(rdErr)
    }

    /** One round of the main loop, unless there is nothing left to wait for. */
    method Step(r: Round) returns (more: bool)
      requires Inv() && IsRound(r)
      modifies Repr()
      ensures Inv()
      ensures !more <==> old(Idle(Now()))
      ensures more ==> Follows(old(Now()), r, Now())
      ensures Told(Now()) && (more ==> Settled(Now(), r))
      ensures !more ==> unchanged(Repr())
      ensures NeverLateIn(r) && old(Unbroken(Now())) ==> Unbroken(Now())
    {
      hide Inv, AllStopped, FdData.Valid, Unbroken, NeverLateIn, Now, Offer, Selected, Quiet;
      hide Progressed, Follows, Idle, Settled;
      StateIsSane();
      WhatIsRead(r);
      WhatIsWaitedFor();
      ghost var v, offer, ready := Now(), Offer(r, Selected(r)), Selected(r);
      more := Advance(r);
      StateIsSane();
      if more {
        RoundFollows(v, Now(), r, offer, ready);
        StateIsSettled(r);
      }
    }

    lemma WhatIsRead(r: Round)
      requires Inv()
      ensures Offered(Now(), r, Offer(r, Selected(r)), Selected(r))
    {
      hide Inv;
      StateIsSane();
    }

    lemma WhatIsWaitedFor()
      requires Inv()
      ensures Quiet() <==> Idle(Now())
    {
      hide Inv;
      StateIsSane();
    }

    method Advance(r: Round) returns (more: bool)
      requires Inv() && IsRound(r)
      modifies Repr()
      ensures Inv()
      ensures !more <==> old(Quiet())
      ensures more ==> AllStopped(r.clocks[3], r.clocks[4], r.clocks[5])
      ensures more ==> Progressed(old(Now()), Now(), r, old(Offer(r, Selected(r))), old(Selected(r)))
      ensures !more ==> unchanged(Repr())
      ensures NeverLateIn(r) && old(Unbroken(Now())) ==> Unbroken(Now())
    {
      hide Inv, AllStopped, FdData.Valid, Chunk, Unbroken, NeverLateIn, Now, Offer, Progressed;
      var ready := Selected(r);
      more := SelectIn() || SelectWrite(wrIn) || SelectWrite(wrOut) || childRunning || SelectOut(rdOut)
          || SelectOut(rdErr);
      if !more {
        return;
      }
      Transfer(r, ready);
    }

    /** The round itself, for what is ready. */
    method Transfer(r: Round, ready: Ready)
      requires Inv() && IsRound(r)
      requires (ready.child ==> SelectWrite(wrIn)) && (ready.term ==> SelectWrite(wrOut))
      modifies Repr()
      ensures Inv() && AllStopped(r.clocks[3], r.clocks[4], r.clocks[5])
      ensures Progressed(old(Now()), Now(), r, old(Offer(r, ready)), ready)
      ensures NeverLateIn(r) && old(Unbroken(Now())) ==> Unbroken(Now())
    {
      hide Inv, AllStopped, FdData.Valid, Chunk, Min, Unbroken, NeverLateIn;
      hide Offer, Took, Refilled, Wrote, Finished, Progressed, Sane, Now;
      StateIsSane();
      ghost var v, offer := Now(), Offer(r, ready);
      assert (ready.child ==> v.childOpen && v.passedOn != v.child) && (ready.term ==> v.termOpen)
             && |v.passedOn| <= |v.child| + BUF_SIZE by {
        WritesWait(r, ready);
      }
      ghost var a := Gather(r, ready);
      StateIsSane();
      ghost var b := Now();
      ghost var c := Deliver(r, ready);
      StateIsSane();
      ghost var d := Now();
      FinishInput(r);
      RoundProgresses(v, a, b, c, d, Now(), r, offer, ready);
    }

    lemma WritesWait(r: Round, ready: Ready)
      requires Inv() && (ready.child ==> SelectWrite(wrIn)) && (ready.term ==> SelectWrite(wrOut))
      ensures var v := Now();
              && (ready.child ==> v.childOpen && v.passedOn != v.child) && (ready.term ==> v.termOpen)
              && |v.passedOn| <= |v.child| + BUF_SIZE
    {
      hide Inv;
      StateIsSane();
    }

    /** Reads, and copies what has been read. */
    method Gather(r: Round, ready: Ready) returns (ghost a: View)
      requires Inv() && IsRound(r)
      modifies Repr()
      ensures Inv() && Sane(a) && Refilled(a, Now())
      ensures Took(old(Now()), a, old(Offer(r, ready)), ready, old(Now().running) && !r.childExits)
      ensures NeverLateIn(r) && old(Unbroken(Now())) ==> Unbroken(Now())
    {
      assert Apart();
      hide Inv, FdData.Valid, Chunk, Min, Unbroken, NeverLate;
      assert childRunning == Now().running;
      hide Offer, Took, Refilled, Sane, Now;
      Accept(r, ready);
      StateIsSane();
      a := Now();
      Refill(r.clocks[0], r.clocks[1], r.clocks[2]);
    }

    /** Writes, and copies once more into the room that the writes have made. */
    method Deliver(r: Round, ready: Ready) returns (ghost c: View)
      requires Inv() && IsRound(r)
      modifies `pollTimeout, {wrIn, wrOut}`open, {rdIn, rdInEcho, rdOut, rdErr, wrIn, wrOut}`dataBegin
      modifies {rdIn, rdInEcho, rdOut, rdErr, wrIn, wrOut}`dataEnd, {rdIn, rdInEcho, rdOut, rdErr, wrIn, wrOut}`removed
      modifies {wrIn, wrOut}`received, rdIn.buf, rdInEcho.buf, wrIn.buf, rdOut.buf, rdErr.buf, wrOut.buf
      ensures Inv() && AllStopped(r.clocks[3], r.clocks[4], r.clocks[5])
      ensures Sane(c) && Wrote(old(Now()), c, r, ready) && Refilled(c, Now())
      ensures NeverLateIn(r) && old(Unbroken(Now())) ==> Unbroken(Now())
    {
      assert Apart();
      hide Inv, AllStopped, FdData.Valid, NeverLate, Unbroken;
      hide Refilled, Wrote, Sane, Now;
      WritePhase(r, ready);
      StateIsSane();
      c := Now();
      Refill(r.clocks[3], r.clocks[4], r.clocks[5]);
    }

    /** Signals and reads. */
    method Accept(r: Round, ready: Ready)
      requires Inv() && IsRound(r)
      modifies `pollTimeout, `childRunning, {rdIn, rdOut, rdErr, wrIn}`open, {rdIn, rdOut, rdErr}`dataEnd
      modifies {rdIn, rdOut, rdErr}`received, rdInEcho, rdIn.buf, rdInEcho.buf, rdOut.buf, rdErr.buf
      ensures Inv()
      ensures Took(old(Now()), Now(), old(Offer(r, ready)), ready, old(childRunning) && !r.childExits)
      ensures old(Unbroken(Now())) ==> Unbroken(Now())
    {
      assert Apart();
      hide Inv, FdData.Valid, Chunk, Min, Unbroken;
      HandleSignals(r.childExits);
      ReadPhase(r, ready);
    }

    /** The timeout is over, and a child that has exited takes no more input. */
    method HandleSignals(childExits: bool)
      requires Inv()
      modifies `pollTimeout, `childRunning, rdIn`open, wrIn`open
      ensures Inv() && childRunning == (old(childRunning) && !childExits)
      ensures rdIn.open == (old(rdIn.open) && childRunning) && wrIn.open == (old(wrIn.open) && childRunning)
    {
      hide Stream, Complete;
      pollTimeout := false;
      if childExits {
        childRunning := false;
      }
      if !childRunning {
        rdIn.Close();
        wrIn.Close();
      }
    }

    /** After the end of standard input, and with all of it passed on, the child's input is closed. */
    method FinishInput(ghost r: Round)
      requires Inv() && IsRound(r) && AllStopped(r.clocks[3], r.clocks[4], r.clocks[5])
      modifies wrIn`open
      ensures Inv() && Finished(old(Now()), Now())
      ensures AllStopped(r.clocks[3], r.clocks[4], r.clocks[5]) && (old(Unbroken(Now())) ==> Unbroken(Now()))
    {
      hide Stream, Complete, Stopped, Blocked, WholeChunks;
      if !rdIn.open && wrIn.IsEmpty() {
        wrIn.Close();
      }
    }
  }

  lemma StoppedWithLess(data: string, free: int, less: int, clock: Clock)
    requires Stopped(data, free, clock) && less <= free
    ensures Stopped(data, less, clock) && (Blocked(data, free, clock) ==> Blocked(data, less, clock))
  {
  }

  /** The buffers as `main` sets them up. */
  method Start(stdinPipe: bool) returns (m: Mux)
    ensures m.Inv() && fresh(m.Repr())
    ensures m.Now() == View("", "", "", "", "", "", "", "", "", "", stdinPipe, true, true, stdinPipe, true, true)
  {
    hide Mux.Inv, FdData.Valid;
    var rdIn := new FdData(stdinPipe);
    var rdInEcho := new FdData(false);
    var wrIn := new FdData(stdinPipe);
    var rdOut := new FdData(true);
    var wrOut := new FdData(true);
    var rdErr := new FdData(true);
    m := new Mux(rdIn, rdInEcho, wrIn, rdOut, rdErr, wrOut);
  }

  /**
   * What a reader of the terminal gets, at every moment: the lines of a tag, read back from
   * what is written and still buffered, followed by what the source buffer still holds, are
   * exactly the bytes read from that source. Standard input reaches the child the same way.
   */
  lemma TerminalTellsStreams(m: Mux)
    requires m.Inv()
    ensures var text := m.wrOut.removed + m.wrOut.Data();
            && Stream(text, "STDIN ") + m.rdInEcho.Data() == m.rdIn.received
            && Stream(text, "STDOUT") + m.rdOut.Data() == m.rdOut.received
            && Stream(text, "STDERR") + m.rdErr.Data() == m.rdErr.received
    ensures m.wrIn.removed + m.wrIn.Data() + m.rdIn.Data() == m.rdIn.received
  {
    hide Stream;
  }
}
