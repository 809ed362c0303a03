/**
 * Finding the commands that the user's words may abbreviate: the syntax is cut into words in place,
 * and the matching commands are chained in the order of the command list.
 */
module CommandMatch {
  import opened CText

  const MAX_CMD_LEN: nat := 501
  const MAX_WORDS: nat := 64

  function ToLower(c: char): (l: char)
    ensures l == '\0' <==> c == '\0'
    ensures IsSpace(l) <==> IsSpace(c)
  {
    if 'A' <= c <= 'Z' then c - 'A' + 'a' else c
  }

  function Lower(s: CString): (l: CString)
    ensures |l| == |s| && forall i :: 0 <= i < |s| ==> l[i] == ToLower(s[i])
  {
    seq(|s|, i requires 0 <= i < |s| => ToLower(s[i]))
  }

  /** The 26 capital letters of ASCII become small; nothing else changes. */
  lemma LowerMeans(s: CString)
    ensures |Lower(s)| == |s|
    ensures forall i :: 0 <= i < |s| ==>
              Lower(s)[i] as int == if 65 <= s[i] as int <= 90 then s[i] as int + 32 else s[i] as int
  {
  }

  // ---------------------------------------------------------------------------------------
  // Words
  // ---------------------------------------------------------------------------------------

  /** A word starts here: no space, but one in front, or nothing. */
  predicate StartsWord(s: CString, i: nat)
    requires i < |s|
  {
    !IsSpace(s[i]) && (i == 0 || IsSpace(s[i - 1]))
  }

  /** Where words start in front of `i`. */
  function Starts(s: CString, i: nat): (r: seq<nat>)
    requires i <= |s|
    ensures forall k :: 0 <= k < |r| ==> r[k] < i && StartsWord(s, r[k])
  {
    if i == 0 then [] else Starts(s, i - 1) + (if StartsWord(s, i - 1) then [i - 1] else [])
  }

  /** Where the word that starts at `a` ends. */
  function WordEnd(s: CString, a: nat): (e: nat)
    requires a <= |s|
    ensures a <= e <= |s| && (e < |s| ==> IsSpace(s[e]))
    ensures forall i :: a <= i < e ==> !IsSpace(s[i])
    decreases |s| - a
  {
    if a == |s| || IsSpace(s[a]) then a else WordEnd(s, a + 1)
  }

  /** The words of `s` in lower case. */
  function Words(s: CString): (r: seq<CString>)
    ensures |r| == |Starts(s, |s|)|
    ensures forall k :: 0 <= k < |r| ==> var a := Starts(s, |s|)[k]; a <= |s| && r[k] == Lower(s[a..WordEnd(s, a)])
  {
    WordsAt(s, Starts(s, |s|))
  }

  function WordsAt(s: CString, starts: seq<nat>): (r: seq<CString>)
    requires forall k :: 0 <= k < |starts| ==> starts[k] < |s|
    ensures |r| == |starts|
    ensures forall k :: 0 <= k < |r| ==> var a := starts[k]; a <= |s| && r[k] == Lower(s[a..WordEnd(s, a)])
  {
    if starts == [] then [] else [Lower(s[starts[0]..WordEnd(s, starts[0])])] + WordsAt(s, starts[1..])
  }

  /** The C string at `a`. */
  function StringAt(b: seq<char>, a: nat): (s: CString)
    requires a < |b| && b[|b| - 1] == '\0'
    ensures a + |s| < |b| && s == b[a..a + |s|] && b[a + |s|] == '\0'
    ensures forall k :: a <= k < a + |s| ==> b[k] != '\0'
    decreases |b| - a
  {
    if b[a] == '\0' then [] else [b[a]] + StringAt(b, a + 1)
  }

  /** What cutting makes of the text: lower case, and NUL for white space. */
  function Cut(s: CString): (b: seq<char>)
    ensures |b| == |s| + 1 && b[|s|] == '\0'
    ensures forall i :: 0 <= i < |s| ==> b[i] == if IsSpace(s[i]) then '\0' else ToLower(s[i])
  {
    seq(|s|, i requires 0 <= i < |s| => if IsSpace(s[i]) then '\0' else ToLower(s[i])) + ['\0']
  }

  /** The strings at the word starts are the words. */
  lemma CutWords(s: CString, a: nat)
    requires a < |s|
    ensures StringAt(Cut(s), a) == Lower(s[a..WordEnd(s, a)])
  {
    hide ToLower, IsSpace, StringAt, WordEnd, Cut, Lower;
    var b, t, e := Cut(s), StringAt(Cut(s), a), WordEnd(s, a);
    NoNul(s);
    assert forall i :: a <= i < e ==> b[i] != '\0';
    assert b[e] == '\0';
    assert a + |t| == e;
    assert forall i :: 0 <= i < |t| ==> t[i] == b[a + i] == ToLower(s[a..e][i]);
  }

  lemma NoNul(s: CString)
    ensures forall i :: 0 <= i < |s| ==> s[i] != '\0'
  {
    forall i | 0 <= i < |s|
      ensures s[i] != '\0'
    {
      assert s[i] in s;
    }
  }

  /** The words of a text are parts without white space, and with white space or an end on both sides. */
  lemma WordsMean(s: CString, k: nat)
    requires k < |Words(s)|
    ensures exists a: nat, e: nat ::
              && a == Starts(s, |s|)[k] && a < e <= |s| && Words(s)[k] == Lower(s[a..e])
              && (forall i :: a <= i < e ==> s[i] != ' ' && !('\t' <= s[i] <= '\r'))
              && (e < |s| ==> s[e] == ' ' || '\t' <= s[e] <= '\r')
              && (a > 0 ==> s[a - 1] == ' ' || '\t' <= s[a - 1] <= '\r')
  {
    hide Lower, Starts;
    var a := Starts(s, |s|)[k];
    var e := WordEnd(s, a);
    assert StartsWord(s, a);
    assert a < e && Words(s)[k] == Lower(s[a..e]);
  }

  /** From `a` to `i` there is no white space. */
  ghost predicate Within(s: CString, a: nat, i: nat) {
    a <= i < |s| && forall j :: a <= j <= i ==> !IsSpace(s[j])
  }

  /** Every character that is not white space belongs to a word. */
  lemma {:induction false} WordsAreAll(s: CString, i: nat, n: nat)
    requires i < n <= |s| && !IsSpace(s[i])
    ensures exists a :: a in Starts(s, n) && Within(s, a, i)
    decreases n
  {
    hide Starts, IsSpace;
    StartsStep(s, n - 1);
    if i < n - 1 {
      WordsAreAll(s, i, n - 1);
    } else if StartsWord(s, i) {
      assert i in Starts(s, n) && Within(s, i, i);
    } else {
      WordsAreAll(s, i - 1, n - 1);
      var a :| a in Starts(s, n - 1) && Within(s, a, i - 1);
      assert a in Starts(s, n) && Within(s, a, i);
    }
  }

  /** Words are listed in the order in which they start. */
  lemma {:induction false} StartsAscend(s: CString, n: nat)
    requires n <= |s|
    ensures forall k, l :: 0 <= k < l < |Starts(s, n)| ==> Starts(s, n)[k] < Starts(s, n)[l]
    decreases n
  {
    hide StartsWord;
    if n > 0 {
      StartsAscend(s, n - 1);
    }
  }

  /** Cuts the string at the front of the buffer into words, in lower case; stores their offsets. */
  method BuildWords(buf: array<char>, words: array<nat>, ghost s: CString) returns (count: nat)
    requires |s| < buf.Length && buf[..|s| + 1] == s + ['\0']
    requires |Starts(s, |s|)| <= words.Length
    modifies buf, words
    ensures count == |Starts(s, |s|)| && words[..count] == Starts(s, |s|)
    ensures buf[..|s| + 1] == Cut(s)
  {
    hide ToLower, IsSpace, Starts, Cut;
    ghost var was := buf[..];
    var inWord := false;
    var i := 0;
    count := 0;
    assert forall k :: 0 <= k < |s| ==> was[k] == s[k] by {
      assert forall k :: 0 <= k < |s| ==> was[..|s| + 1][k] == s[k];
    }
    assert was[|s|] == was[..|s| + 1][|s|] == '\0';
    StartsStep(s, 0);
    NoNul(s);
    while buf[i] != '\0'
      invariant i <= |s| && (inWord <==> i > 0 && !IsSpace(s[i - 1]))
      invariant count == |Starts(s, i)| && count <= words.Length && words[..count] == Starts(s, i)
      invariant forall k :: 0 <= k < i ==> buf[k] == Cut(s)[k]
      invariant forall k :: i <= k <= |s| ==> buf[k] == was[k]
      decreases |s| - i
      modifies buf, words
    {
      StartsStep(s, i);
      StartsGrow(s, i + 1, |s|);
      if IsSpace(buf[i]) {
        inWord := false;
        buf[i] := '\0';
      } else {
        if !inWord {
          words[count] := i;
          count := count + 1;
        }
        buf[i] := ToLower(buf[i]);
        inWord := true;
      }
      i := i + 1;
    }
  }

  lemma {:induction false} StartsGrow(s: CString, i: nat, j: nat)
    requires i <= j <= |s|
    ensures |Starts(s, i)| <= |Starts(s, j)|
    decreases j - i
  {
    hide StartsWord;
    if i < j {
      StartsGrow(s, i, j - 1);
    }
  }

  lemma StartsStep(s: CString, i: nat)
    requires i <= |s|
    ensures i < |s| ==> Starts(s, i + 1) == Starts(s, i) + (if StartsWord(s, i) then [i] else [])
    ensures Starts(s, 0) == []
  {
  }

  // ---------------------------------------------------------------------------------------
  // Matching
  // ---------------------------------------------------------------------------------------

  predicate IsParameter(word: CString) {
    At(word, 0) == '<' || At(word, 0) == '['
  }

  /** The index of the first parameter from `i` on, or the number of words. */
  function FirstParameter(words: seq<CString>, i: nat): (k: nat)
    requires i <= |words|
    ensures i <= k <= |words| && (k < |words| ==> IsParameter(words[k]))
    ensures forall j :: i <= j < k ==> !IsParameter(words[j])
    decreases |words| - i
  {
    if i == |words| || IsParameter(words[i]) then i else FirstParameter(words, i + 1)
  }

  /** `strcasestr(word, arg) == word` */
  predicate Abbreviates(arg: CString, word: CString) {
    Lower(arg) <= Lower(word)
  }

  /** Each of the user's words abbreviates the fixed word in its place, as far as both go. */
  ghost predicate Matches(words: seq<CString>, argv: seq<CString>) {
    forall i :: 0 <= i < FirstParameter(words, 0) && i < |argv| ==> Abbreviates(argv[i], words[i])
  }

  class Command {
    const syntax: CString
    var matchNext: Command?

    constructor (syntax: CString)
      ensures this.syntax == syntax && matchNext == null
    {
      this.syntax, matchNext := syntax, null;
    }
  }

  /** The matching ones of the first `n` commands, in order. */
  ghost function Matching(cmds: seq<Command>, argv: seq<CString>, n: nat): (r: seq<Command>)
    requires n <= |cmds|
  {
    if n == 0 then []
    else Matching(cmds, argv, n - 1) + (if Matches(Words(cmds[n - 1].syntax), argv) then [cmds[n - 1]] else [])
  }

  /**
   * A command matches if each of the user's words, as far as there are so many, is the beginning of the word in its
   * place without regard to case; words from the first one with `<` or `[` on match anything.
   */
  lemma MatchesMeans(words: seq<CString>, argv: seq<CString>)
    ensures Matches(words, argv) <==>
            forall i :: 0 <= i < |words| && i < |argv|
                        && (forall j :: 0 <= j <= i ==>
                              words[j] == "" || (words[j][0] != '<' && words[j][0] != '[')) ==>
              |argv[i]| <= |words[i]| && Lower(argv[i]) == Lower(words[i])[..|argv[i]|]
  {
    hide Lower;
    var k := FirstParameter(words, 0);
    assert forall j :: 0 <= j < |words| ==>
              (IsParameter(words[j]) <==> !(words[j] == "" || (words[j][0] != '<' && words[j][0] != '[')));
    if k < |words| {
      assert IsParameter(words[k]);
    }
  }

  lemma {:induction false} MatchingMembers(cmds: seq<Command>, argv: seq<CString>, n: nat, c: Command)
    requires n <= |cmds|
    ensures c in Matching(cmds, argv, n) <==> (exists i :: 0 <= i < n && cmds[i] == c) && Matches(Words(c.syntax), argv)
  {
    hide Matches, Words;
    if n > 0 {
      MatchingMembers(cmds, argv, n - 1, c);
      assert c == cmds[n - 1] ==> exists i :: 0 <= i < n && cmds[i] == c;
    }
  }

  /** Following `matchNext` from `first` visits these commands and ends. */
  ghost predicate Chain(first: Command?, cmds: seq<Command>)
    reads (set c | c in cmds)`matchNext
  {
    && (first == if cmds == [] then null else cmds[0])
    && forall i :: 0 <= i < |cmds| ==> cmds[i].matchNext == if i + 1 < |cmds| then cmds[i + 1] else null
  }

  /** The first parameter's index in the last of these commands that has parameters; 0 if none has. */
  ghost function LastParameter(cmds: seq<Command>): nat {
    if cmds == [] then 0
    else
      var words := Words(cmds[|cmds| - 1].syntax);
      var k := FirstParameter(words, 0);
      if k < |words| then k else LastParameter(cmds[..|cmds| - 1])
  }

  /** With one match, the index is that of its own first parameter, or 0. */
  lemma OneMatch(cmd: Command)
    ensures var words := Words(cmd.syntax); var k := FirstParameter(words, 0);
            LastParameter([cmd]) == if k < |words| then k else 0
  {
    assert [cmd][..0] == [];
    assert LastParameter([]) == 0;
  }

  lemma WordString(s: CString, i: nat)
    requires i < |Starts(s, |s|)|
    ensures var a := Starts(s, |s|)[i]; a < |s| && StringAt(Cut(s), a) == Words(s)[i]
  {
    hide Starts, StringAt, Lower;
    var a := Starts(s, |s|)[i];
    CutWords(s, a);
  }

  /** Compares the user's words with one syntax; the index is set where its parameters start. */
  method CompareWords(buf: array<char>, s: CString, words: seq<nat>, argv: seq<CString>, iParm: nat)
    returns (matches: bool, now: nat)
    requires |s| < buf.Length && buf[..|s| + 1] == Cut(s) && words == Starts(s, |s|)
    ensures matches <==> Matches(Words(s), argv)
    ensures var k := FirstParameter(Words(s), 0); now == if matches && k < |words| then k else iParm
  {
    hide Starts, Lower, WordEnd, Cut, IsParameter, Abbreviates, Words, StringAt;
    var i := 0;
    ghost var ws := Words(s);
    ghost var first := FirstParameter(ws, 0);
    matches, now := true, iParm;
    while i < |words|
      invariant i <= first && now == iParm && matches
      invariant forall j :: 0 <= j < i && j < |argv| ==> Abbreviates(argv[j], ws[j])
      decreases |words| - i
    {
      WordString(s, i);
      var stx := StringAt(buf[..|s| + 1], words[i]);
      if IsParameter(stx) {
        now := i;
        return;
      }
      if i < |argv| && !Abbreviates(argv[i], stx) {
        matches := false;
        return;
      }
      i := i + 1;
    }
  }

  /** The syntax, with its terminator, and the offsets of its words fit the buffers that they are copied to. */
  predicate FitsBuffers(s: CString) {
    |s| < MAX_CMD_LEN && |Starts(s, |s|)| <= MAX_WORDS
  }

  /** Copies one syntax, cuts it and compares it with the user's words. */
  method MatchOne(stxBuf: array<char>, stxWords: array<nat>, s: CString, argv: seq<CString>, iParm: nat)
    returns (matches: bool, now: nat)
    requires stxBuf.Length == MAX_CMD_LEN && stxWords.Length == MAX_WORDS && FitsBuffers(s)
    modifies stxBuf, stxWords
    ensures matches <==> Matches(Words(s), argv)
    ensures var words := Words(s); var k := FirstParameter(words, 0); now == if matches && k < |words| then k else iParm
  {
    hide Matches, FirstParameter, Cut, Starts, Words;
    forall i | 0 <= i <= |s| {
      stxBuf[i] := At(s, i);
    }
    var count := BuildWords(stxBuf, stxWords, s);
    matches, now := CompareWords(stxBuf, s, stxWords[..count], argv, iParm);
    assert count == |Words(s)|;
  }

  /** Chains a command behind the matches so far. */
  method Append(first: Command?, last: Command?, cmd: Command, ghost found: seq<Command>) returns (now: Command?)
    requires Chain(first, found) && cmd !in found && Unique(found)
    requires last == if found == [] then null else found[|found| - 1]
    modifies (if last == null then {} else {last})`matchNext, cmd`matchNext
    ensures Chain(now, found + [cmd])
  {
    if last == null {
      now := cmd;
    } else {
      last.matchNext := cmd;
      now := first;
    }
    cmd.matchNext := null;
  }

  ghost predicate Unique(cmds: seq<Command>) {
    forall i, j :: 0 <= i < j < |cmds| ==> cmds[i] != cmds[j]
  }

  // All commands compared; a syntax refused as too long; or one that overruns a buffer
  datatype ScanRc = Scanned | TooLong | Overrun

  /** The outcome is decided by the first syntax that does not fit; the check lets some of them pass. */
  function ScanResult(cmds: seq<Command>): ScanRc {
    if cmds == [] then Scanned
    else if FitsBuffers(cmds[0].syntax) then ScanResult(cmds[1..])
    else if |cmds[0].syntax| > MAX_CMD_LEN then TooLong
    else Overrun
  }

  /**
   * Compares the user's words with all commands. A syntax that is too long ends the search, but one of
   * exactly the buffer's length, or with too many words, is not noticed; nothing is said of what happens
   * then. The index that all commands share is that of the last matching command with parameters.
   */
  method Scan(cmds: seq<Command>, argv: seq<CString>) returns (rc: ScanRc, first: Command?, iParm: nat)
    requires Unique(cmds)
    modifies (set c | c in cmds)`matchNext
    ensures rc == ScanResult(cmds)
    ensures rc == Scanned ==>
              Chain(first, Matching(cmds, argv, |cmds|)) && iParm == LastParameter(Matching(cmds, argv, |cmds|))
  {
    hide Matches, Words, FirstParameter, Matching, Chain, LastParameter, Unique, FitsBuffers;
    var stxBuf := new char[MAX_CMD_LEN](_ => '\0');
    var stxWords := new nat[MAX_WORDS](_ => 0);
    var last: Command? := null;
    ghost var found: seq<Command> := [];
    first, iParm := null, 0;
    var n := 0;
    NoneMatching(cmds, argv);
    assert cmds[0..] == cmds;
    while n < |cmds|
      invariant n <= |cmds| && found == Matching(cmds, argv, n) && ScanResult(cmds) == ScanResult(cmds[n..])
      invariant Chain(first, found) && iParm == LastParameter(found)
      invariant last == if found == [] then null else found[|found| - 1]
      modifies (set c | c in cmds)`matchNext, stxBuf, stxWords
    {
      var cmd := cmds[n];
      assert cmds[n..][0] == cmd && cmds[n..][1..] == cmds[n + 1..];
      if |cmd.syntax| > MAX_CMD_LEN {
        assert !FitsBuffers(cmd.syntax) by { TooLongForBuffers(cmd.syntax); }
        return TooLong, first, iParm;
      }
      if !FitsBuffers(cmd.syntax) {
        return Overrun, first, iParm;
      }
      OneMoreMatching(cmds, argv, n);
      var matches;
      matches, iParm := MatchOne(stxBuf, stxWords, cmd.syntax, argv, iParm);
      if matches {
        first := Append(first, last, cmd, found);
        found := found + [cmd];
        last := cmd;
      }
      n := n + 1;
    }
    rc := Scanned;
  }

  lemma TooLongForBuffers(s: CString)
    ensures |s| >= MAX_CMD_LEN ==> !FitsBuffers(s)
  {
  }

  /**
   * All commands are compared exactly if each syntax has less than 501 characters and at most 64 words. Otherwise
   * the first one that has not decides: more than 501 characters are refused, anything else overruns a buffer.
   */
  lemma {:induction false} ScannedExactly(cmds: seq<Command>)
    ensures ScanResult(cmds) == Scanned <==>
            forall i :: 0 <= i < |cmds| ==> |cmds[i].syntax| < 501 && |Words(cmds[i].syntax)| <= 64
    ensures ScanResult(cmds) != Scanned ==>
              exists k :: 0 <= k < |cmds|
                && (forall i :: 0 <= i < k ==> |cmds[i].syntax| < 501 && |Words(cmds[i].syntax)| <= 64)
                && (|cmds[k].syntax| >= 501 || |Words(cmds[k].syntax)| > 64)
                && (ScanResult(cmds) == TooLong <==> |cmds[k].syntax| > 501)
  {
    hide Words, Starts;
    if cmds != [] {
      var more := cmds[1..];
      ScannedExactly(more);
      assert forall i :: 0 < i < |cmds| ==> cmds[i] == more[i - 1];
      assert FitsBuffers(cmds[0].syntax) <==> |cmds[0].syntax| < 501 && |Words(cmds[0].syntax)| <= 64;
      if ScanResult(cmds) != Scanned && FitsBuffers(cmds[0].syntax) {
        var k :| 0 <= k < |more|
          && (forall i :: 0 <= i < k ==> |more[i].syntax| < 501 && |Words(more[i].syntax)| <= 64)
          && (|more[k].syntax| >= 501 || |Words(more[k].syntax)| > 64)
          && (ScanResult(more) == TooLong <==> |more[k].syntax| > 501);
        assert cmds[k + 1] == more[k];
        forall i | 0 <= i < k + 1
          ensures |cmds[i].syntax| < 501 && |Words(cmds[i].syntax)| <= 64
        {
          assert i > 0 ==> cmds[i] == more[i - 1];
        }
      }
    }
  }

  lemma NoneMatching(cmds: seq<Command>, argv: seq<CString>)
    ensures Matching(cmds, argv, 0) == [] && Chain(null, []) && LastParameter([]) == 0
  {
  }

  lemma OneMoreMatching(cmds: seq<Command>, argv: seq<CString>, n: nat)
    requires n < |cmds| && Unique(cmds)
    ensures var found, cmd := Matching(cmds, argv, n), cmds[n];
            var words := Words(cmd.syntax);
            var k := FirstParameter(words, 0);
            && cmd !in found && Unique(found) && cmd in cmds && (forall c :: c in found ==> c in cmds)
            && Matching(cmds, argv, n + 1) == (if Matches(words, argv) then found + [cmd] else found)
            && LastParameter(found + [cmd]) == (if k < |words| then k else LastParameter(found))
  {
    hide Matches, Words, FirstParameter;
    var found, cmd := Matching(cmds, argv, n), cmds[n];
    forall c | c in found
      ensures c in cmds
    {
      MatchingMembers(cmds, argv, n, c);
    }
    MatchingMembers(cmds, argv, n, cmd);
    MatchingUnique(cmds, argv, n);
    assert (found + [cmd])[..|found|] == found;
  }

  lemma {:induction false} MatchingUnique(cmds: seq<Command>, argv: seq<CString>, n: nat)
    requires n <= |cmds| && Unique(cmds)
    ensures Unique(Matching(cmds, argv, n))
  {
    hide Matches, Words;
    if n > 0 {
      MatchingUnique(cmds, argv, n - 1);
      MatchingMembers(cmds, argv, n - 1, cmds[n - 1]);
    }
  }
}
