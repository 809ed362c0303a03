/**
 * The query pattern: up to three components separated by colons, each a name or glob with an
 * optional replication list in brackets.
 */
module PatternSyntax {
  import opened CText
  import opened Registers
  import opened ReplList
  import opened RegisterState
  import opened RegisterQuery
  import RegisterCheck
  import Glob

  const SYMREG_REPL_LEN_MAX: nat := 32

  /** The longest component that fits its buffer. */
  const COMPONENT_LEN_MAX: nat := SYMREG_NAME_LEN_MAX + SYMREG_REPL_LEN_MAX

  datatype PatRc = PatOk | Param | OutOfMemory | TooManyColons | ComponentTooLong | AtLeastOneComponentMustBeSpecified
                 | TwoLeftBracketsSeen | RightBracketSeenBeforeLeftBracket | ExtraCharactersAfterEndBracket
                 | MissingRightBracket | InvalidReplicationList

  function ToUpper(c: char): char {
    if 'a' <= c <= 'z' then c - 'a' + 'A' else c
  }

  function Upper(s: CString): (u: CString)
    ensures |u| == |s| && forall i :: 0 <= i < |s| ==> u[i] == ToUpper(s[i])
  {
    seq(|s|, i requires 0 <= i < |s| => ToUpper(s[i]))
  }

  // ---------------------------------------------------------------------------------------
  // One component
  // ---------------------------------------------------------------------------------------

  predicate NoBrackets(s: seq<char>) {
    '[' !in s && ']' !in s
  }

  /** A name without brackets, or a name followed by one bracketed text at the end. */
  predicate Listed(c: CString, b: nat) {
    && b + 1 < |c| && c[b] == '[' && c[|c| - 1] == ']'
    && NoBrackets(c[..b]) && NoBrackets(c[b + 1..|c| - 1])
  }

  datatype Brackets = Brackets(start: int, end: int) | Broken(rc: PatRc)

  /** What the scan of a component finds from `i` on. */
  function ScanBrackets(c: CString, i: nat, start: int, end: int): Brackets
    requires i <= |c|
    decreases |c| - i
  {
    if i == |c| then (if start >= 0 && end < 0 then Broken(MissingRightBracket) else Brackets(start, end))
    else if c[i] == '[' then
      (if start >= 0 then Broken(TwoLeftBracketsSeen) else ScanBrackets(c, i + 1, i, end))
    else if end < 0 && c[i] == ']' then
      (if start < 0 then Broken(RightBracketSeenBeforeLeftBracket) else ScanBrackets(c, i + 1, start, i))
    else if end >= 0 then Broken(ExtraCharactersAfterEndBracket)
    else ScanBrackets(c, i + 1, start, end)
  }

  /** The scan accepts exactly the two shapes of a component. */
  lemma {:induction false} ScanIsExact(c: CString, i: nat, start: int, end: int)
    requires i <= |c| && -1 <= start < i && -1 <= end < i && (end >= 0 ==> 0 <= start < end && end == i - 1)
    requires start < 0 ==> NoBrackets(c[..i])
    requires start >= 0 ==> c[start] == '[' && NoBrackets(c[..start])
    requires start >= 0 && end < 0 ==> NoBrackets(c[start + 1..i])
    requires end >= 0 ==> c[end] == ']' && NoBrackets(c[start + 1..end])
    ensures var r := ScanBrackets(c, i, start, end);
            && (r == Brackets(-1, -1) <==> NoBrackets(c))
            && (forall b: nat :: r == Brackets(b, |c| - 1) <==> Listed(c, b))
            && (r.Brackets? ==> r == Brackets(-1, -1) || (0 <= r.start < r.end == |c| - 1))
            && (r.Broken? ==> r.rc != PatOk)
    decreases |c| - i
  {
    forall b: nat | Listed(c, b)
      ensures forall k :: 0 <= k < |c| ==> (c[k] == '[' <==> k == b) && (c[k] == ']' <==> k == |c| - 1)
    {
      ListedBrackets(c, b);
    }
    if i == |c| {
      assert c[..i] == c;
    } else {
      assert c[i] in c;
      assert c[..i + 1] == c[..i] + [c[i]];
      if start >= 0 {
        assert c[start] in c;
        assert end < 0 ==> c[start + 1..i + 1] == c[start + 1..i] + [c[i]];
      }
      if c[i] == '[' && start < 0 {
        ScanIsExact(c, i + 1, i, end);
      } else if c[i] == ']' && start >= 0 && end < 0 {
        ScanIsExact(c, i + 1, start, i);
      } else if c[i] != '[' && c[i] != ']' && end < 0 {
        ScanIsExact(c, i + 1, start, end);
      }
    }
  }

  /** Where the brackets of a listed component are. */
  lemma ListedBrackets(c: CString, b: nat)
    requires Listed(c, b)
    ensures forall k :: 0 <= k < |c| ==> (c[k] == '[' <==> k == b) && (c[k] == ']' <==> k == |c| - 1)
  {
    forall k | 0 <= k < |c|
      ensures (c[k] == '[' <==> k == b) && (c[k] == ']' <==> k == |c| - 1)
    {
      if k < b {
        assert c[k] in c[..b];
      } else if b < k < |c| - 1 {
        assert c[k] in c[b + 1..|c| - 1];
      }
    }
  }

  /** The list text of a listed component, in upper case like the rest. */
  function ListText(c: CString, b: nat): CString
    requires b + 1 < |c|
  {
    Upper(c[b + 1..|c| - 1])
  }

  function ComponentRc(c: CString): PatRc {
    match ScanBrackets(c, 0, -1, -1)
    case Broken(rc) => rc
    case Brackets(start, end) =>
      if 0 <= start && start + 1 < end < |c| && end == |c| - 1
         && Items(ListText(c, start), 0, 0, LAST_REPL) == None
      then InvalidReplicationList else PatOk
  }

  predicate HasWildcards(c: seq<char>) {
    '*' in c || '?' in c
  }

  function NameOrAny(name: CString, wildcards: bool, allRepls: bool, repls: set<nat>): Selector {
    if name == "" then Selector("*", true, allRepls, repls) else Selector(name, wildcards, allRepls, repls)
  }

  /**
   * What an accepted component selects: a name without list, or a name with a non-empty list;
   * an empty list stays part of the name.
   */
  ghost function ComponentSelector(c: CString): Selector {
    if exists b: nat :: Listed(c, b) && b + 2 < |c| then
      var b: nat :| Listed(c, b) && b + 2 < |c|;
      var items := Items(ListText(c, b), 0, 0, LAST_REPL);
      NameOrAny(Upper(c[..b]), HasWildcards(c), false,
                if items.Some? then set k: nat | k <= LAST_REPL && Covers(items.value, k) else {})
    else NameOrAny(Upper(c), HasWildcards(c), true, {})
  }

  /** The well-formed components: no brackets, or one list at the end, which is empty or readable. */
  ghost predicate WellFormed(c: CString) {
    || NoBrackets(c)
    || exists b: nat :: Listed(c, b) && (b + 2 == |c| || Items(ListText(c, b), 0, 0, LAST_REPL).Some?)
  }

  lemma AcceptedIsWellFormed(c: CString)
    ensures ComponentRc(c) == PatOk <==> WellFormed(c)
  {
    hide Items, ScanBrackets, NoBrackets;
    ScanIsExact(c, 0, -1, -1);
    var r := ScanBrackets(c, 0, -1, -1);
    if WellFormed(c) && !NoBrackets(c) {
      var b: nat :| Listed(c, b) && (b + 2 == |c| || Items(ListText(c, b), 0, 0, LAST_REPL).Some?);
      assert r == Brackets(b, |c| - 1);
    }
    if r.Brackets? && r != Brackets(-1, -1) {
      var b: nat := r.start;
      assert Listed(c, b);
    }
  }

  lemma SelectorOfListed(c: CString, b: nat)
    requires Listed(c, b) && b + 2 < |c|
    ensures ComponentSelector(c) ==
            var items := Items(ListText(c, b), 0, 0, LAST_REPL);
            NameOrAny(Upper(c[..b]), HasWildcards(c), false,
                      if items.Some? then set k: nat | k <= LAST_REPL && Covers(items.value, k) else {})
  {
    hide Items, HasWildcards, Covers;
    forall b': nat | Listed(c, b') && b' + 2 < |c|
      ensures b' == b
    {
      ListedBrackets(c, b);
      ListedBrackets(c, b');
    }
  }

  lemma SelectorOfUnlisted(c: CString)
    requires forall b: nat :: Listed(c, b) ==> b + 2 == |c|
    ensures ComponentSelector(c) == NameOrAny(Upper(c), HasWildcards(c), true, {})
  {
  }

  // ---------------------------------------------------------------------------------------
  // What a component selects, and what is wrong with others
  // ---------------------------------------------------------------------------------------

  /** Only the 26 small letters of ASCII change. */
  lemma UpperMeans(s: CString)
    ensures |Upper(s)| == |s|
    ensures forall i :: 0 <= i < |s| ==>
              Upper(s)[i] as int == if 97 <= s[i] as int <= 122 then s[i] as int - 32 else s[i] as int
  {
  }

  lemma StarMatchesAll(n: seq<char>)
    ensures Glob.Matches("*", n)
  {
    assert n[|n|..] == [] && "*"[1..] == "";
  }

  /** Which names a name part selects: all if it is empty, else those that it matches as a glob, in upper case. */
  lemma NamePartSelects(name: CString, c: CString, sel: Selector, n: CString)
    requires |name| <= |c| && c[..|name|] == name
    requires sel == NameOrAny(Upper(name), HasWildcards(c), sel.allRepls, sel.repls)
    ensures NameMatches(sel, n) <==> name == "" || Glob.Matches(Upper(name), n)
  {
    hide Glob.Matches, HasWildcards;
    StarMatchesAll(n);
    UpperKeeps(name);
    WildcardsOfPart(name, c);
    FlagIsHarmless(Upper(name), n, HasWildcards(c));
  }

  /** A name without a list selects all replications. */
  lemma NameSelects(name: CString, n: CString, k: nat)
    requires NoBrackets(name)
    ensures NameMatches(ComponentSelector(name), n) <==> name == "" || Glob.Matches(Upper(name), n)
    ensures ReplMatches(ComponentSelector(name), k)
  {
    hide Glob.Matches, HasWildcards, ComponentSelector, Upper, NameMatches, NoBrackets;
    NoListInName(name);
    assert name[..|name|] == name;
    NamePartSelects(name, name, ComponentSelector(name), n);
  }

  /** A name with a list selects the replications that the list names. */
  lemma ListSelects(name: CString, list: CString, n: CString, k: nat)
    requires NoBrackets(name) && NoBrackets(list) && list != "" && Items(Upper(list), 0, 0, 8191).Some?
    ensures var sel := ComponentSelector(name + "[" + list + "]");
            && (NameMatches(sel, n) <==> name == "" || Glob.Matches(Upper(name), n))
            && (ReplMatches(sel, k) <==> k <= 8191 && Covers(Items(Upper(list), 0, 0, 8191).value, k))
  {
    hide Glob.Matches, HasWildcards, Items, ComponentSelector, Upper, NameMatches, NoBrackets, Covers;
    var c: CString := name + "[" + list + "]";
    assert c[..|name|] == name && c[|name| + 1..|c| - 1] == list;
    SelectorOfListed(c, |name|);
    NamePartSelects(name, c, ComponentSelector(c), n);
  }

  /** An empty list stays part of the name. */
  lemma EmptyListSelects(name: CString, n: CString, k: nat)
    requires NoBrackets(name)
    ensures var sel := ComponentSelector(name + "[]");
            (NameMatches(sel, n) <==> Glob.Matches(Upper(name + "[]"), n)) && ReplMatches(sel, k)
  {
    hide Glob.Matches, HasWildcards, ComponentSelector, Upper, NameMatches, NoBrackets;
    var e: CString := name + "[]";
    EmptyListIsName(name);
    assert e[..|e|] == e;
    NamePartSelects(e, e, ComponentSelector(e), n);
  }

  lemma EmptyListIsName(name: CString)
    requires NoBrackets(name)
    ensures ComponentSelector(name + "[]") == NameOrAny(Upper(name + "[]"), HasWildcards(name + "[]"), true, {})
  {
    hide ComponentSelector, HasWildcards;
    var c: CString := name + "[]";
    forall k: nat | Listed(c, k)
      ensures k + 2 == |c|
    {
      ListedBrackets(c, k);
      assert c[|name|] == '[';
    }
    SelectorOfUnlisted(c);
  }

  /** Characters other than brackets are passed over, unless a list is already complete. */
  lemma {:induction false} PassPlain(c: CString, i: nat, j: nat, start: int)
    requires i <= j <= |c| && NoBrackets(c[i..j])
    ensures ScanBrackets(c, i, start, -1) == ScanBrackets(c, j, start, -1)
    decreases j - i
  {
    if i < j {
      assert c[i] == c[i..j][0] && c[i] in c[i..j];
      assert c[i..j] == [c[i]] + c[i + 1..j];
      PassPlain(c, i + 1, j, start);
    }
  }

  /** What is found behind a name without brackets, and behind a list that has been opened. */
  lemma ScanBehind(c: CString, name: CString, list: CString)
    requires NoBrackets(name) && name <= c
    ensures ScanBrackets(c, 0, -1, -1) == ScanBrackets(c, |name|, -1, -1)
    ensures NoBrackets(list) && name + "[" + list <= c ==>
              ScanBrackets(c, 0, -1, -1) == ScanBrackets(c, |name| + 1 + |list|, |name|, -1)
  {
    hide NoBrackets;
    var a, b := |name|, |name| + 1 + |list|;
    assert c[0..a] == name;
    PassPlain(c, 0, a, -1);
    if NoBrackets(list) && name + "[" + list <= c {
      assert c[a] == (name + "[" + list)[a] == '[';
      assert c[a + 1..b] == (name + "[" + list)[a + 1..b] == list;
      PassPlain(c, a + 1, b, a);
    }
  }

  /** A closing bracket without an opening one, and an opening one without a closing one. */
  lemma UnpairedBracket(c: CString, name: CString, rest: CString)
    requires NoBrackets(name)
    ensures c == name + "]" + rest ==> ComponentRc(c) == RightBracketSeenBeforeLeftBracket
    ensures c == name + "[" + rest && NoBrackets(rest) ==> ComponentRc(c) == MissingRightBracket
  {
    hide NoBrackets, Items;
    if c == name + "]" + rest {
      ScanBehind(c, name, "");
      assert c[|name|] == ']';
    }
    if c == name + "[" + rest {
      ScanBehind(c, name, rest);
    }
  }

  /** A second opening bracket, or anything behind a list. */
  lemma MoreThanOneList(c: CString, name: CString, list: CString, rest: CString)
    requires NoBrackets(name) && NoBrackets(list)
    ensures c == name + "[" + list + "[" + rest ==> ComponentRc(c) == TwoLeftBracketsSeen
    ensures c == name + "[" + list + "]" + rest && rest != "" ==>
              ComponentRc(c) == if rest[0] == '[' then TwoLeftBracketsSeen else ExtraCharactersAfterEndBracket
  {
    hide NoBrackets, Items;
    var b := |name| + 1 + |list|;
    if c == name + "[" + list + "[" + rest {
      ScanBehind(c, name, list);
      assert c[b] == '[';
    }
    if c == name + "[" + list + "]" + rest && rest != "" {
      ScanBehind(c, name, list);
      assert c[b] == ']' && c[b + 1] == rest[0];
    }
  }

  lemma UnreadableList(c: CString, name: CString, list: CString)
    requires NoBrackets(name) && NoBrackets(list) && list != ""
    ensures c == name + "[" + list + "]" && Items(Upper(list), 0, 0, 8191) == None ==>
              ComponentRc(c) == InvalidReplicationList
  {
    hide NoBrackets, Items, Upper;
    if c == name + "[" + list + "]" {
      ScanBehind(c, name, list);
      assert c[|name| + 1 + |list|] == ']' && c[|name| + 1..|c| - 1] == list;
    }
  }

  /** The buffer after the first `j` characters have been converted. */
  function HalfUpper(c: CString, j: nat): CString
    requires j <= |c|
  {
    Upper(c)[..j] + c[j..]
  }

  lemma NothingScanned(c: CString)
    ensures HalfUpper(c, 0) == c && !HasWildcards(c[..0])
    ensures HalfUpper(c, |c|) == Upper(c) && c[..|c|] == c
  {
  }

  lemma ScanStep(c: CString, j: nat)
    requires j < |c|
    ensures |HalfUpper(c, j)| == |c| && HalfUpper(c, j)[j] == c[j]
    ensures HalfUpper(c, j)[j := ToUpper(c[j])] == HalfUpper(c, j + 1)
    ensures HasWildcards(c[..j + 1]) <==> HasWildcards(c[..j]) || ToUpper(c[j]) == '?' || ToUpper(c[j]) == '*'
    ensures (ToUpper(c[j]) == '[' <==> c[j] == '[') && (ToUpper(c[j]) == ']' <==> c[j] == ']')
  {
    assert c[..j + 1] == c[..j] + [c[j]];
  }

  /** Upper case, wildcards and brackets in one pass over the component's buffer. */
  method ScanComponent(c: CString) returns (rc: PatRc, text: CString, wildcards: bool, start: int, end: int)
    ensures rc == PatOk ==>
              && ScanBrackets(c, 0, -1, -1)
                  == (if start >= 0 && end < 0 then Broken(MissingRightBracket) else Brackets(start, end))
                            && text == Upper(c) && wildcards == HasWildcards(c)
    ensures rc != PatOk ==> ScanBrackets(c, 0, -1, -1) == Broken(rc)
  {
    hide HasWildcards, ToUpper, Upper, HalfUpper;
    text, wildcards, start, end := c, false, -1, -1;
    NothingScanned(c);
    var j := 0;
    while j < |c|
      invariant 0 <= j <= |c| == |text| && text == HalfUpper(c, j)
      invariant wildcards == HasWildcards(c[..j])
      invariant ScanBrackets(c, 0, -1, -1) == ScanBrackets(c, j, start, end)
    {
      ScanStep(c, j);
      text := text[j := ToUpper(text[j])];
      if text[j] == '?' || text[j] == '*' {
        wildcards := true;
      }
      if text[j] == '[' {
        if start >= 0 {
          return TwoLeftBracketsSeen, text, wildcards, start, end;
        }
        start := j;
      } else if end < 0 && text[j] == ']' {
        if start < 0 {
          return RightBracketSeenBeforeLeftBracket, text, wildcards, start, end;
        }
        end := j;
      } else if end >= 0 {
        return ExtraCharactersAfterEndBracket, text, wildcards, start, end;
      }
      j := j + 1;
    }
    rc := PatOk;
  }

  method ParseComponent(c: CString, repls: array<bv8>)
    returns (rc: PatRc, pattern: CString, wildcards: bool, allRepls: bool)
    requires repls.Length == BitFieldSize(SYMREG_REPL_CNT_MAX) && Contents(repls[..], 0, LAST_REPL, true) == {}
    modifies repls
    ensures rc == ComponentRc(c)
    ensures rc == PatOk ==>
              ComponentSelector(c) == Selector(pattern, wildcards, allRepls, Contents(repls[..], 0, LAST_REPL, true))
  {
    hide Items, ScanBrackets, HasWildcards, Covers, NoBrackets, ComponentSelector, Member;
    pattern, wildcards, allRepls := "", false, true;
    ScanIsExact(c, 0, -1, -1);
    var text, start, end;
    rc, text, wildcards, start, end := ScanComponent(c);
    if rc != PatOk {
      return;
    }
    if start >= 0 && end < 0 {
      return MissingRightBracket, text, wildcards, true;
    }
    pattern := text;
    if start >= 0 && end > start + 1 {
      allRepls := false;
      pattern := text[..start];
      assert text[start + 1..end] == ListText(c, start) && pattern == Upper(c[..start]);
      var list := Txt2ListBf(Some(text[start + 1..end]), repls, 0, LAST_REPL, false, true);
      if list != Ok {
        return InvalidReplicationList, pattern, wildcards, allRepls;
      }
      SelectorOfListed(c, start);
    } else {
      SelectorOfUnlisted(c);
    }
    if pattern == "" {
      pattern := "*";
      wildcards := true;
    }
  }

  // ---------------------------------------------------------------------------------------
  // The whole pattern
  // ---------------------------------------------------------------------------------------

  /** The offset of the first colon, or the length. */
  function Colon(s: CString): (k: nat)
    ensures k <= |s| && ':' !in s[..k] && (k < |s| ==> s[k] == ':')
  {
    if s == [] || s[0] == ':' then 0
    else
      var k := Colon(s[1..]);
      assert s[..k + 1] == [s[0]] + s[1..][..k];
      k + 1
  }

  /** The texts between the colons. */
  function Pieces(s: CString): (ps: seq<CString>)
    ensures ps != []
    decreases |s|
  {
    if Colon(s) == |s| then [s] else [s[..Colon(s)]] + Pieces(s[Colon(s) + 1..])
  }

  function Component(ps: seq<CString>, i: nat): CString {
    if i < |ps| then ps[i] else ""
  }

  predicate AllEmpty(ps: seq<CString>) {
    forall i :: 0 <= i < |ps| ==> ps[i] == ""
  }

  lemma AllEmptySnoc(ps: seq<CString>, i: nat)
    requires i < |ps|
    ensures AllEmpty(ps[..i + 1]) <==> AllEmpty(ps[..i]) && ps[i] == ""
  {
    assert ps[..i + 1] == ps[..i] + [ps[i]];
  }

  function SplitRc(ps: seq<CString>): PatRc
    requires ps != []
  {
    if |ps[0]| > COMPONENT_LEN_MAX then ComponentTooLong
    else if |ps| > 1 && |ps[1]| > COMPONENT_LEN_MAX then ComponentTooLong
    else if |ps| > 3 then TooManyColons
    else if |ps| > 2 && |ps[2]| > COMPONENT_LEN_MAX then ComponentTooLong
    else if AllEmpty(ps) then AtLeastOneComponentMustBeSpecified
    else PatOk
  }

  /** The first complaint about a pattern, component by component. */
  function PatternRc(pattern: CString): PatRc {
    var ps := Pieces(pattern);
    if SplitRc(ps) != PatOk then SplitRc(ps)
    else if ComponentRc(Component(ps, 0)) != PatOk then ComponentRc(Component(ps, 0))
    else if ComponentRc(Component(ps, 1)) != PatOk then ComponentRc(Component(ps, 1))
    else ComponentRc(Component(ps, 2))
  }

  ghost function PatternQuery(pattern: CString): Query {
    var ps := Pieces(pattern);
    Query(ComponentSelector(Component(ps, 0)), ComponentSelector(Component(ps, 1)), ComponentSelector(Component(ps, 2)))
  }

  /** The pieces with colons between them. */
  function WithColons(ps: seq<CString>): CString
    requires ps != []
  {
    if |ps| == 1 then ps[0] else ps[0] + ":" + WithColons(ps[1..])
  }

  /** The pieces have no colons, and with colons between them they are the pattern. */
  lemma {:induction false} PiecesMakePattern(s: CString)
    ensures WithColons(Pieces(s)) == s && forall i :: 0 <= i < |Pieces(s)| ==> ':' !in Pieces(s)[i]
    decreases |s|
  {
    hide Colon;
    var k := Colon(s);
    if k == |s| {
      assert s[..k] == s;
    } else {
      PiecesMakePattern(s[k + 1..]);
      var more := Pieces(s[k + 1..]);
      assert Pieces(s) == [s[..k]] + more && Pieces(s)[1..] == more;
      assert s == s[..k] + ":" + s[k + 1..];
    }
  }

  /** They are the only such texts. */
  lemma {:induction false} PiecesAreUnique(ps: seq<CString>)
    requires ps != [] && forall i :: 0 <= i < |ps| ==> ':' !in ps[i]
    ensures Pieces(WithColons(ps)) == ps
    decreases |ps|
  {
    var s := WithColons(ps);
    if |ps| == 1 {
      FirstColon(s, |s|);
    } else {
      PiecesAreUnique(ps[1..]);
      forall j | 0 <= j < |ps[0]|
        ensures s[j] != ':'
      {
        assert s[j] == ps[0][j] && ps[0][j] in ps[0];
      }
      FirstColon(s, |ps[0]|);
      assert s[..|ps[0]|] == ps[0] && s[|ps[0]| + 1..] == WithColons(ps[1..]);
    }
  }

  lemma FirstColon(s: CString, k: nat)
    requires k <= |s| && (k < |s| ==> s[k] == ':') && forall j :: 0 <= j < k ==> s[j] != ':'
    ensures Colon(s) == k
  {
    assert forall j :: 0 <= j < Colon(s) ==> s[j] in s[..Colon(s)];
  }

  /** Target, group and register come in this order; a missing component at the end is like an empty one. */
  lemma PatternLevels(pattern: CString, a: CString, b: CString, c: CString)
    requires ':' !in a && ':' !in b && ':' !in c
    ensures pattern == a + ":" + b + ":" + c ==>
              PatternQuery(pattern) == Query(ComponentSelector(a), ComponentSelector(b), ComponentSelector(c))
    ensures pattern == a + ":" + b ==>
              PatternQuery(pattern) == Query(ComponentSelector(a), ComponentSelector(b), ComponentSelector(""))
    ensures pattern == a ==>
              PatternQuery(pattern) == Query(ComponentSelector(a), ComponentSelector(""), ComponentSelector(""))
  {
    hide ComponentSelector, Pieces, WithColons;
    PiecesAreUnique([a]);
    PiecesAreUnique([a, b]);
    PiecesAreUnique([a, b, c]);
    ThreeWithColons(a, b, c);
  }

  /** The components are checked in this order, once they all fit and are not all empty. */
  lemma PatternComplaints(pattern: CString, a: CString, b: CString, c: CString)
    requires ':' !in a && ':' !in b && ':' !in c && |a| <= 132 && |b| <= 132 && |c| <= 132
    requires (a != "" || b != "" || c != "") && pattern == a + ":" + b + ":" + c
    ensures PatternRc(pattern) == if ComponentRc(a) != PatOk then ComponentRc(a)
                                  else if ComponentRc(b) != PatOk then ComponentRc(b) else ComponentRc(c)
  {
    hide ComponentRc, Pieces, WithColons;
    PiecesAreUnique([a, b, c]);
    ThreeWithColons(a, b, c);
    var ps := [a, b, c];
    assert ps[0] == a && ps[1] == b && ps[2] == c;
  }

  lemma ThreeWithColons(a: CString, b: CString, c: CString)
    ensures WithColons([a]) == a && WithColons([a, b]) == a + ":" + b
    ensures WithColons([a, b, c]) == a + ":" + b + ":" + c
  {
    assert [a, b][1..] == [b] && [a, b, c][1..] == [b, c] && [b, c][1..] == [c];
    assert WithColons([b, c]) == b + ":" + c;
    assert WithColons([a, b, c]) == a + ":" + (b + ":" + c);
    assert a + ":" + (b + ":" + c) == a + ":" + b + ":" + c;
  }

  lemma FirstPiece(str: CString, ps: seq<CString>, i: nat)
    requires i < |ps| && Pieces(str) == ps[i..]
    ensures ps[i] == str[..Colon(str)]
    ensures if Colon(str) == |str| then |ps| == i + 1 else i + 1 < |ps| && Pieces(str[Colon(str) + 1..]) == ps[i + 1..]
  {
    assert ps[i..][0] == ps[i] && ps[i + 1..] == ps[i..][1..];
  }

  lemma AllEmptyMeans(ps: seq<CString>)
    ensures AllEmpty(ps) <==> forall i :: 0 <= i < |ps| ==> ps[i] == ""
  {
  }

  lemma NothingSplit(ps: seq<CString>)
    ensures AllEmpty(ps[..0]) && ps[0..] == ps
  {
  }

  method SplitPattern(pattern: CString) returns (rc: PatRc, comps: seq<CString>)
    ensures rc == SplitRc(Pieces(pattern))
    ensures var ps := Pieces(pattern);
            rc == if |ps[0]| > 132 || (|ps| > 1 && |ps[1]| > 132) then ComponentTooLong
                  else if |ps| > 3 then TooManyColons
                  else if |ps| == 3 && |ps[2]| > 132 then ComponentTooLong
                  else if forall i :: 0 <= i < |ps| ==> ps[i] == "" then AtLeastOneComponentMustBeSpecified
                  else PatOk
    ensures rc == PatOk ==> |comps| == 3 && forall i :: 0 <= i < 3 ==> comps[i] == Component(Pieces(pattern), i)
  {
    hide AllEmpty, Pieces;
    ghost var ps := Pieces(pattern);
    AllEmptyMeans(ps);
    NothingSplit(ps);
    comps := ["", "", ""];
    var found := false;
    var rest: Option<CString> := Some(pattern);
    var i := 0;
    while i < 3 && rest.Some?
      invariant 0 <= i <= 3 == |comps|
      invariant rest.Some? ==> i < |ps| && Pieces(rest.value) == ps[i..]
      invariant rest == None ==> i == |ps|
      invariant forall j :: 0 <= j < 3 ==> comps[j] == (if j < i then Component(ps, j) else "")
      invariant forall j :: 0 <= j < i ==> |ps[j]| <= COMPONENT_LEN_MAX
      invariant i <= |ps| && found == !AllEmpty(ps[..i])
      invariant i == 3 ==> rest == None
      decreases 3 - i
    {
      var str := rest.value;
      var cnt := Colon(str);
      FirstPiece(str, ps, i);
      AllEmptySnoc(ps, i);
      if cnt < |str| {
        if i == 2 {
          return TooManyColons, comps;
        }
      }
      if cnt > COMPONENT_LEN_MAX {
        return ComponentTooLong, comps;
      }
      if cnt > 0 {
        comps := comps[i := str[..cnt]];
        found := true;
      }
      rest := if cnt < |str| then Some(str[cnt + 1..]) else None;
      i := i + 1;
    }
    assert ps[..|ps|] == ps;
    rc := if found then PatOk else AtLeastOneComponentMustBeSpecified;
  }

  datatype InitRc = BadPattern(p: PatRc) | Checked(q: QueryRc)

  /** Component `c` becomes the state of one iterator. */
  method NewState(c: CString) returns (rc: PatRc, s: SymregState)
    ensures rc == ComponentRc(c)
    ensures fresh(s) && fresh(s.repls) && fresh(s.matchedRepls) && s.Allocated()
    ensures rc == PatOk ==> s.Sel() == ComponentSelector(c)
  {
    hide ComponentRc, ComponentSelector, Member;
    var repls := new bv8[BitFieldSize(SYMREG_REPL_CNT_MAX)];
    FillMembers(repls, 0, LAST_REPL, false, true);
    assert Contents(repls[..], 0, LAST_REPL, true) == {};
    var pattern, wildcards, allRepls;
    rc, pattern, wildcards, allRepls := ParseComponent(c, repls);
    s := new SymregState(wildcards, allRepls, pattern, repls);
  }

  method QueryInit(pattern: Option<CString>, targets: seq<Target>, memory: bool)
    returns (rc: InitRc, handle: QueryInst?, maxWidth: nat, regCnt: nat)
    requires TablesFit(targets)
    ensures rc == (if pattern == None then BadPattern(Param)
                   else if !memory then BadPattern(OutOfMemory)
                   else if PatternRc(pattern.value) != PatOk then BadPattern(PatternRc(pattern.value))
                   else
                     var ps := Pieces(pattern.value);
                     Checked(RegisterCheck.CheckResult(targets, Query(
                         ComponentSelector(ps[0]), ComponentSelector(if |ps| > 1 then ps[1] else ""),
                         ComponentSelector(if |ps| > 2 then ps[2] else "")))))
    ensures handle != null <==> rc == Checked(RcOk)
    ensures handle != null ==>
              var ps := Pieces(pattern.value);
              && handle.Valid() && |ps| <= 3
              && handle.t.Sel() == ComponentSelector(ps[0])
              && handle.g.Sel() == ComponentSelector(if |ps| > 1 then ps[1] else "")
              && handle.r.Sel() == ComponentSelector(if |ps| > 2 then ps[2] else "")
    ensures handle != null ==>
              && fresh(handle) && handle.Valid()
              && fresh(handle.t) && fresh(handle.g) && fresh(handle.r)
              && fresh(handle.t.matchedRepls) && fresh(handle.g.matchedRepls) && fresh(handle.r.matchedRepls)
              && handle.Q() == PatternQuery(pattern.value)
              && RegisterCheck.AllInTables(targets, All(targets, handle.Q()))
              && maxWidth == RegisterCheck.MaxWidth(targets, All(targets, handle.Q()))
              && regCnt == |All(targets, handle.Q())| % UINT32_MODULUS
  {
    hide ComponentRc, ComponentSelector, Contents, All, Pieces;
    handle, maxWidth, regCnt := null, 0, 0;
    if pattern == None {
      return BadPattern(Param), handle, maxWidth, regCnt;
    }
    if !memory {
      return BadPattern(OutOfMemory), handle, maxWidth, regCnt;
    }
    var split, comps := SplitPattern(pattern.value);
    if split != PatOk {
      return BadPattern(split), handle, maxWidth, regCnt;
    }
    var rcT, t := NewState(comps[0]);
    if rcT != PatOk {
      return BadPattern(rcT), handle, maxWidth, regCnt;
    }
    var rcG, g := NewState(comps[1]);
    if rcG != PatOk {
      return BadPattern(rcG), handle, maxWidth, regCnt;
    }
    var rcR, r := NewState(comps[2]);
    if rcR != PatOk {
      return BadPattern(rcR), handle, maxWidth, regCnt;
    }
    var inst := new QueryInst(t, g, r);
    var check;
    check, maxWidth, regCnt := RegisterCheck.CheckPattern(inst, targets);
    rc := Checked(check);
    if check == RcOk {
      handle := inst;
    }
  }

  // How the listing ends
  datatype Listing = Refused(rc: InitRc) | NoNameMemory | AccessFailed | Complete

  /**
   * The command: for an accepted pattern, one line per selected register, in table order, each fitting
   * the width that was measured, up to the first register that cannot be accessed; if there is none,
   * as many lines as were counted. Whether memory is left for the query and for the name is up to the
   * environment.
   */
  method RegsPrint(pattern: Option<CString>, targets: seq<Target>, origin: nat, access: RegisterCheck.Access,
                   memory: bool, nameMemory: bool)
    returns (listing: Listing, maxWidth: nat, regCnt: nat, names: seq<CString>, addrs: seq<nat>)
    requires TablesFit(targets) && origin < UINT32_MODULUS
    ensures listing.Refused? <==>
            || !memory || pattern == None || PatternRc(pattern.value) != PatOk
            || RegisterCheck.CheckResult(targets, PatternQuery(pattern.value)) != RcOk
    ensures !listing.Refused? ==> (listing == NoNameMemory <==> !nameMemory)
    ensures listing == Complete || listing == AccessFailed ==>
              var ys := All(targets, PatternQuery(pattern.value));
              && RegisterCheck.AllInTables(targets, ys)
              && |names| == |addrs| <= |ys|
              && (forall i :: 0 <= i < |names| ==>
                    && names[i] == YieldName(targets, ys[i]) && addrs[i] == YieldAddr(targets, ys[i])
                    && access(i, (addrs[i] + 0x1_0000_0000 - origin) % 0x1_0000_0000 / 4))
              && (|names| < |ys| ==>
                    !access(|names|, (YieldAddr(targets, ys[|names|]) + 0x1_0000_0000 - origin) % 0x1_0000_0000 / 4))
              && (listing == Complete <==> |names| == |ys|)
              && regCnt == |ys| % UINT32_MODULUS
              && (forall i :: 0 <= i < |names| ==> |names[i]| <= maxWidth)
              && (listing == Complete && names != [] ==> exists i :: 0 <= i < |names| && |names[i]| == maxWidth)
  {
    hide All, PatternRc, ComponentSelector, Pieces, YieldName, YieldAddr;
    hide RegisterCheck.CheckResult, RegisterCheck.AccessedUpTo, RegisterCheck.Listed;
    names, addrs := [], [];
    var rc, handle;
    rc, handle, maxWidth, regCnt := QueryInit(pattern, targets, memory);
    if handle == null {
      return Refused(rc), maxWidth, regCnt, names, addrs;
    }
    if !nameMemory {
      return NoNameMemory, maxWidth, regCnt, names, addrs;
    }
    var failed;
    names, addrs, failed := RegisterCheck.ListRegs(handle, targets, origin, access);
    RegisterCheck.WidthsFit(targets, All(targets, handle.Q()), names, addrs);
    RegisterCheck.ListedMeans(targets, All(targets, handle.Q()), origin, access, names, addrs);
    listing := if failed then AccessFailed else Complete;
  }

  // ---------------------------------------------------------------------------------------
  // An empty list
  // ---------------------------------------------------------------------------------------

  /** A name that the glob `w` matches: stars stand for nothing, question marks for a letter. */
  ghost function Witness(w: seq<char>): seq<char> {
    if w == [] then []
    else if w[0] == '*' then Witness(w[1..])
    else [if w[0] == '?' then 'A' else w[0]] + Witness(w[1..])
  }

  lemma {:induction false} WitnessMatches(w: CString)
    ensures Glob.Matches(w, Witness(w)) && '\0' !in Witness(w)
    ensures NoBrackets(w) ==> NoBrackets(Witness(w))
    decreases |w|
  {
    if w != [] {
      WitnessMatches(w[1..]);
      assert NoBrackets(w) ==> NoBrackets(w[1..]) && w[0] in w;
      if w[0] == '*' {
        assert Witness(w)[0..] == Witness(w);
      } else {
        assert Witness(w)[1..] == Witness(w[1..]);
      }
    }
  }

  lemma {:induction false} LastCharMatches(w: seq<char>, s: seq<char>)
    requires w != [] && w[|w| - 1] != '*' && w[|w| - 1] != '?' && Glob.Matches(w, s)
    ensures s != [] && s[|s| - 1] == w[|w| - 1]
    decreases |w|
  {
    if w[0] == '*' {
      var k :| 0 <= k <= |s| && Glob.Matches(w[1..], s[k..]);
      LastCharMatches(w[1..], s[k..]);
    } else if |w| > 1 {
      LastCharMatches(w[1..], s[1..]);
    }
  }

  lemma {:induction false} PlainGlobIsEquality(w: seq<char>, s: seq<char>)
    requires !HasWildcards(w)
    ensures Glob.Matches(w, s) <==> w == s
    decreases |w|
  {
    if w != [] {
      assert w[0] in w && !HasWildcards(w[1..]);
      if s != [] {
        PlainGlobIsEquality(w[1..], s[1..]);
        assert w == [w[0]] + w[1..] && s == [s[0]] + s[1..];
      }
    }
  }

  /** The flag only decides how an expanded name is compared, not which names match. */
  lemma FlagIsHarmless(w: CString, n: CString, flag: bool)
    requires HasWildcards(w) ==> flag
    ensures NameMatches(Selector(w, flag, false, {}), n) <==> Glob.Matches(w, n)
  {
    if !HasWildcards(w) {
      PlainGlobIsEquality(w, n);
    }
  }

  lemma UpperKeeps(s: CString)
    ensures HasWildcards(Upper(s)) == HasWildcards(s)
    ensures NoBrackets(s) ==> NoBrackets(Upper(s))
  {
    var u := Upper(s);
    forall i | 0 <= i < |s|
      ensures u[i] in u && s[i] in s
    {
    }
    if HasWildcards(s) {
      var i :| 0 <= i < |s| && (s[i] == '*' || s[i] == '?');
      assert u[i] in u;
    }
  }

  lemma BracketsIn(s: seq<char>, k: nat)
    requires k < |s|
    ensures s[k] == '[' ==> '[' in s
    ensures s[k] == ']' ==> ']' in s
  {
  }

  lemma NoListInName(name: CString)
    requires NoBrackets(name)
    ensures ComponentSelector(name) == NameOrAny(Upper(name), HasWildcards(name), true, {})
  {
    forall k: nat
      ensures Listed(name, k) ==> '[' in name
    {
      if Listed(name, k) {
        BracketsIn(name, k);
      }
    }
    SelectorOfUnlisted(name);
  }

  /** The name part of a component with a list selects the names it selects alone. */
  lemma ListKeepsName(name: CString, c: CString, n: CString)
    requires NoBrackets(name) && Listed(c, |name|) && |name| + 2 < |c| && c[..|name|] == name
    ensures NameMatches(ComponentSelector(c), n) <==> NameMatches(ComponentSelector(name), n)
  {
    hide Glob.Matches, Items, ComponentSelector, HasWildcards;
    NoListInName(name);
    SelectorOfListed(c, |name|);
    UpperKeeps(name);
    WildcardsOfPart(name, c);
    FlagIsHarmless(Upper(name), n, HasWildcards(c));
    FlagIsHarmless(Upper(name), n, HasWildcards(name));
  }

  lemma WildcardsOfPart(name: CString, c: CString)
    requires |name| <= |c| && c[..|name|] == name
    ensures HasWildcards(name) ==> HasWildcards(c)
  {
    if HasWildcards(name) {
      var i :| 0 <= i < |name| && (name[i] == '*' || name[i] == '?');
      assert c[i] == c[..|name|][i] && c[i] in c;
    }
  }

  /** With an empty list the brackets are part of the name: some name is lost, in fact every one. */
  lemma EmptyListIsLiteral(name: CString) returns (n: CString)
    requires NoBrackets(name)
    ensures NoBrackets(n) && NameMatches(ComponentSelector(name), n)
    ensures forall m: CString :: NoBrackets(m) ==> !NameMatches(ComponentSelector(name + "[]"), m)
  {
    hide Items, ComponentSelector;
    var c: CString := name + "[]";
    NoListInName(name);
    UpperKeeps(name);
    WitnessMatches(Upper(name));
    n := Witness(Upper(name));
    if name == "" {
      assert Glob.Matches("*", n) by { assert n[|n|..] == []; assert "*"[1..] == ""; }
    } else {
      FlagIsHarmless(Upper(name), n, HasWildcards(name));
    }
    SelectorOfUnlisted(c) by {
      forall k: nat | Listed(c, k)
        ensures k + 2 == |c|
      {
        ListedBrackets(c, k);
        assert c[|name|] == '[';
      }
    }
    forall m: CString | NoBrackets(m)
      ensures !NameMatches(ComponentSelector(c), m)
    {
      assert Upper(c)[|c| - 1] == ']';
      if m != "" {
        BracketsIn(m, |m| - 1);
      }
      if Glob.Matches(Upper(c), m) {
        LastCharMatches(Upper(c), m);
      }
    }
  }

  /**
   * A component with an empty list is meant to show all replications of the name in front of
   * it. It does so exactly when there is no empty list: otherwise the brackets stay part of the
   * pattern, and no name without brackets matches.
   */
  lemma EmptyListSelectsNothing(name: CString, list: CString)
    requires NoBrackets(name) && NoBrackets(list) && WellFormed(name + "[" + list + "]")
    ensures (forall n: CString :: NoBrackets(n) ==>
               (NameMatches(ComponentSelector(name + "[" + list + "]"), n) <==>
                   NameMatches(ComponentSelector(name), n)))
            <==> list != ""
  {
    hide ComponentSelector, NameMatches, Items;
    var c: CString := name + "[" + list + "]";
    if list != "" {
      assert c[..|name|] == name && c[|name| + 1..|c| - 1] == list;
      forall n: CString
        ensures NameMatches(ComponentSelector(c), n) <==> NameMatches(ComponentSelector(name), n)
      {
        ListKeepsName(name, c, n);
      }
    } else {
      assert c == name + "[]";
      var n := EmptyListIsLiteral(name);
      assert NoBrackets(n);
    }
  }
}
