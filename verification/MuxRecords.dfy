/**
 * The line format of the output multiplexer. Every record is one line: a header with a letter,
 * a process number, a time and a tag, then the payload. Reading the lines of one tag back gives
 * the bytes of one stream.
 */
module MuxRecords {
  import opened CText

  const LINE_SIZE_MAX: nat := 100000
  const PREFIX_SIZE: nat := 40
  const TAG_SIZE: nat := 6

  /** Process number and time of a header, as printed. */
  datatype Stamp = Stamp(pid: string, ts: string)

  ghost predicate IsStamp(s: Stamp) {
    && '-' !in s.pid && '\n' !in s.pid && '-' !in s.ts && '\n' !in s.ts
    && |s.pid| + |s.ts| + 14 < PREFIX_SIZE
  }

  ghost predicate IsTag(tag: string) {
    |tag| == TAG_SIZE && '\n' !in tag
  }

  /** `ER-<letter>-<pid>-<time>-<tag> ` */
  function Header(letter: char, s: Stamp, tag: string): string {
    "ER-" + [letter] + "-" + s.pid + "-" + s.ts + "-" + tag + " "
  }

  /** L: a complete line; C: a chunk of an over-long line; T: a fragment after a pause. */
  datatype Record = Record(letter: char, tag: string, payload: string)

  function Encode(r: Record, s: Stamp): string {
    Header(r.letter, s, r.tag) + r.payload + "\n"
  }

  /** The bytes of the source that a record stands for. */
  function Bytes(r: Record): string {
    if r.letter == 'L' then r.payload + "\n" else r.payload
  }

  ghost predicate IsRecord(r: Record) {
    r.letter in {'L', 'C', 'T'} && IsTag(r.tag) && '\n' !in r.payload
  }

  /** How a source may be cut into records. */
  ghost predicate WellCut(r: Record) {
    && IsRecord(r)
    && (r.letter == 'C' ==> |r.payload| == LINE_SIZE_MAX)
    && (r.letter == 'T' ==> 0 < |r.payload| < LINE_SIZE_MAX)
  }

  // ---------------------------------------------------------------------------------------
  // Reading the lines back
  // ---------------------------------------------------------------------------------------

  /** The offset of the first `c` from `from` on, or the length. */
  function IndexOf(s: string, from: nat, c: char): (k: nat)
    requires from <= |s|
    ensures from <= k <= |s| && (k < |s| ==> s[k] == c)
    ensures forall i :: from <= i < k ==> s[i] != c
    decreases |s| - from
  {
    if from == |s| || s[from] == c then from else IndexOf(s, from + 1, c)
  }

  /** A line, taken apart at the dashes behind process number and time. */
  function ParseLine(line: string): Option<Record> {
    if |line| < 5 || line[..3] != "ER-" || line[4] != '-' then None
    else
      var p := IndexOf(line, 5, '-');
      if p == |line| then None
      else
        var q := IndexOf(line, p + 1, '-');
        if q + TAG_SIZE + 1 >= |line| || line[q + TAG_SIZE + 1] != ' ' then None
        else Some(Record(line[3], line[q + 1..q + TAG_SIZE + 1], line[q + TAG_SIZE + 2..]))
  }

  /** What a line contributes to the stream of `tag`. */
  function Contribution(line: string, tag: string): string {
    match ParseLine(line)
    case None => ""
    case Some(r) => if r.tag == tag then Bytes(r) else ""
  }

  /** The stream of `tag`: the contributions of all complete lines. */
  function Stream(text: string, tag: string): string
    decreases |text|
  {
    var k := IndexOf(text, 0, '\n');
    if k == |text| then "" else Contribution(text[..k], tag) + Stream(text[k + 1..], tag)
  }

  /** The text ends between two lines. */
  ghost predicate Complete(text: string) {
    text == "" || text[|text| - 1] == '\n'
  }

  lemma IndexOfFirst(s: string, from: nat, c: char, k: nat)
    requires from <= k < |s| && s[k] == c && forall i :: from <= i < k ==> s[i] != c
    ensures IndexOf(s, from, c) == k
  {
  }

  lemma NotIn(s: string, t: string, from: nat, c: char)
    requires from + |t| <= |s| && s[from..from + |t|] == t && c !in t
    ensures forall i :: from <= i < from + |t| ==> s[i] != c
  {
    forall i | from <= i < from + |t|
      ensures s[i] != c
    {
      assert s[i] == t[i - from] && t[i - from] in t;
    }
  }

  /** The parts of a header, by position. */
  lemma HeaderParts(letter: char, s: Stamp, tag: string, payload: string)
    requires IsTag(tag)
    ensures var line := Header(letter, s, tag) + payload;
            var p := 5 + |s.pid|;
            var q := p + 1 + |s.ts|;
            && |Header(letter, s, tag)| == q + TAG_SIZE + 2 && |line| == q + TAG_SIZE + 2 + |payload|
            && line[..3] == "ER-" && line[3] == letter && line[4] == '-'
            && line[5..p] == s.pid && line[p] == '-'
            && line[p + 1..q] == s.ts && line[q] == '-'
            && line[q + 1..q + TAG_SIZE + 1] == tag && line[q + TAG_SIZE + 1] == ' '
            && line[q + TAG_SIZE + 2..] == payload
  {
  }

  lemma ParseEncoded(r: Record, s: Stamp)
    requires IsRecord(r) && IsStamp(s)
    ensures ParseLine(Header(r.letter, s, r.tag) + r.payload) == Some(r)
  {
    hide Header, IndexOf;
    var line := Header(r.letter, s, r.tag) + r.payload;
    var p := 5 + |s.pid|;
    var q := p + 1 + |s.ts|;
    HeaderParts(r.letter, s, r.tag, r.payload);
    NotIn(line, s.pid, 5, '-');
    NotIn(line, s.ts, p + 1, '-');
    assert IndexOf(line, 5, '-') == p by { IndexOfFirst(line, 5, '-', p); }
    assert IndexOf(line, p + 1, '-') == q by { IndexOfFirst(line, p + 1, '-', q); }
  }

  lemma EncodedIsOneLine(r: Record, s: Stamp)
    requires IsRecord(r) && IsStamp(s)
    ensures var line := Header(r.letter, s, r.tag) + r.payload;
            '\n' !in line && Encode(r, s) == line + "\n"
  {
  }

  lemma StreamOfRecord(r: Record, s: Stamp, tag: string)
    requires IsRecord(r) && IsStamp(s)
    ensures Stream(Encode(r, s), tag) == if r.tag == tag then Bytes(r) else ""
  {
    hide Header, Encode, ParseLine;
    var line := Header(r.letter, s, r.tag) + r.payload;
    EncodedIsOneLine(r, s);
    ParseEncoded(r, s);
    var text := line + "\n";
    NotIn(text, line, 0, '\n');
    IndexOfFirst(text, 0, '\n', |line|);
    assert text[..|line|] == line && text[|line| + 1..] == "";
  }

  lemma StreamFirstLine(text: string, k: nat, tag: string)
    requires k < |text| && text[k] == '\n' && forall i :: 0 <= i < k ==> text[i] != '\n'
    ensures Stream(text, tag) == Contribution(text[..k], tag) + Stream(text[k + 1..], tag)
  {
    hide Contribution;
    IndexOfFirst(text, 0, '\n', k);
  }

  /** Streams of complete texts are concatenated. */
  lemma {:induction false} StreamAppend(a: string, b: string, tag: string)
    requires Complete(a)
    ensures Stream(a + b, tag) == Stream(a, tag) + Stream(b, tag)
    decreases |a|
  {
    hide Contribution, Stream, IndexOf;
    if a == "" {
      assert a + b == b;
      assert Stream("", tag) == "" by { EmptyStream(tag); }
    } else {
      var k := IndexOf(a, 0, '\n');
      assert k < |a|;
      var rest := a[k + 1..];
      StreamFirstLine(a, k, tag);
      StreamFirstLine(a + b, k, tag);
      assert (a + b)[..k] == a[..k] && (a + b)[k + 1..] == rest + b;
      StreamAppend(rest, b, tag);
    }
  }

  lemma EmptyStream(tag: string)
    ensures Stream("", tag) == ""
  {
  }

  /** Appending a record to a complete text adds its bytes to the stream of its tag and to no other. */
  lemma RecordExtendsStream(text: string, r: Record, s: Stamp, tag: string)
    requires Complete(text) && IsRecord(r) && IsStamp(s)
    ensures Complete(text + Encode(r, s))
    ensures Stream(text + Encode(r, s), tag) == if r.tag == tag then Stream(text, tag) + Bytes(r) else Stream(text, tag)
  {
    hide Header, Stream;
    StreamAppend(text, Encode(r, s), tag);
    StreamOfRecord(r, s, tag);
    assert Stream(text, tag) + "" == Stream(text, tag);
  }
}
