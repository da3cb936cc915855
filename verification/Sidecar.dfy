/** Byte-range indexes of GRIB files: the NOMADS `.idx` inventory and selection among its entries. */
module Sidecar {
  import opened Basics
  import opened Text

  /** One addressable record; a zero length means the range is open-ended. */
  datatype IndexEntry = IndexEntry(
    param: string, level: string, step: string, raw: string,
    offset: u64, length: u64, record: nat, member: int)

  /** What one line of an index contributes. */
  datatype LineOutcome = Skip | Bad | Entry(entry: IndexEntry)

  // ----- One NOMADS line

  predicate NamesControl(tok: string) {
    StartsWith(tok, "low-res ctl") || StartsWith(tok, "hi-res ctl") || StartsWith(tok, "ctl")
  }

  /** What follows "ENS=": a control is member 0, an unsigned or plus-signed number that fits an int its own. */
  function TokenMember(tok: string): int {
    if NamesControl(tok) then 0
    else
      var unsigned := if tok != "" && (tok[0] == '+' || tok[0] == '-') then tok[1..] else tok;
      match FromChars(unsigned, I32_MAX)
      case Some(n) => if StartsWith(tok, "-") then -1 else n.value
      case None => -1
  }

  function MemberTag(rest: string): int {
    match Find(rest, "ENS=", 0)
    case Some(p) => TokenMember(rest[p + 4..])
    case None => -1
  }

  method ParseNomadsMember(rest: string) returns (member: int)
    ensures member == MemberTag(rest)
  {
    hide FromChars;
    var p := Find(rest, "ENS=", 0);
    if p.None? {
      return -1;
    }
    var tok := rest[p.value + 4..];
    if StartsWith(tok, "low-res ctl") || StartsWith(tok, "hi-res ctl") || StartsWith(tok, "ctl") {
      return 0;
    }
    var i := 0;
    if i < |tok| && (tok[i] == '+' || tok[i] == '-') {
      i := i + 1;
    }
    var j := i;
    while j < |tok| && Digit(tok[j])
      invariant i <= j <= |tok|
      invariant forall x :: i <= x < j ==> Digit(tok[x])
    {
      j := j + 1;
    }
    FromCharsOfRun(tok, i, j, I32_MAX);
    assert tok[0..] == tok;
    if j == i {
      return -1;
    }
    var n := FromChars(tok[i..j], I32_MAX);
    return if n.Some? && !StartsWith(tok, "-") then n.value.value else -1;
  }

  ghost predicate NumberIn(field: string, least: nat, most: nat) {
    field != "" && AllDigits(field) && least <= Value(field) <= most
  }

  ghost predicate SpellsNumber(tok: string, sign: string, digits: string, tail: string, k: nat) {
    && tok == sign + (digits + tail) && (sign == "" || sign == "+")
    && NumberIn(digits, k, k) && (tail != "" ==> !Digit(tail[0]))
  }

  /** `tok` starts with the number k, which may carry a plus sign, and goes on with something else. */
  ghost predicate NamesNumber(tok: string, k: nat) {
    exists sign, digits, tail :: SpellsNumber(tok, sign, digits, tail, k)
  }

  /** The first ensemble tag in `rest` starts at p and names member k. */
  ghost predicate TagAt(rest: string, p: nat, k: nat) {
    && OccursAt(rest, "ENS=", p) && (forall i :: 0 <= i < p ==> !OccursAt(rest, "ENS=", i))
    && var tok := rest[p + 4..];
       if "low-res ctl" <= tok || "hi-res ctl" <= tok || "ctl" <= tok then k == 0
       else k <= 0x7FFF_FFFF && NamesNumber(tok, k)
  }

  lemma SpelledIsRead(tok: string, sign: string, digits: string, tail: string, k: nat)
    requires SpellsNumber(tok, sign, digits, tail, k) && !NamesControl(tok)
    ensures TokenMember(tok) == if k <= I32_MAX then k else -1
  {
    hide FromChars;
    FromCharsOf(digits, tail, I32_MAX);
    assert Digit(digits[0]);
    if sign == "" {
      assert tok == digits + tail && tok[0] == digits[0];
    } else {
      assert tok[0] == '+' && tok[1..] == digits + tail;
    }
  }

  lemma ReadIsSpelled(tok: string)
    requires !NamesControl(tok) && TokenMember(tok) >= 0
    ensures TokenMember(tok) <= I32_MAX && NamesNumber(tok, TokenMember(tok))
  {
    var sign := if tok != "" && tok[0] == '+' then "+" else "";
    var unsigned := tok[|sign|..];
    var n := DigitRun(unsigned);
    assert unsigned == unsigned[..n] + unsigned[n..];
    assert tok == sign + (unsigned[..n] + unsigned[n..]);
    assert SpellsNumber(tok, sign, unsigned[..n], unsigned[n..], TokenMember(tok));
  }

  lemma TokenIsNamed(tok: string, k: nat)
    ensures TokenMember(tok) == k <==> if NamesControl(tok) then k == 0 else k <= I32_MAX && NamesNumber(tok, k)
    ensures TokenMember(tok) >= -1
  {
    if !NamesControl(tok) {
      if sign, digits, tail :| SpellsNumber(tok, sign, digits, tail, k) {
        SpelledIsRead(tok, sign, digits, tail, k);
      }
      if TokenMember(tok) >= 0 {
        ReadIsSpelled(tok);
      }
    }
  }

  /** Any trailing text: it gives member k iff its first tag is a control and k is 0, or names k within an int. */
  lemma MemberIsNamed(rest: string, k: nat)
    ensures MemberTag(rest) == k <==> exists p :: TagAt(rest, p, k)
    ensures MemberTag(rest) >= -1
  {
    hide TokenMember;
    hide NamesNumber;
    match Find(rest, "ENS=", 0)
    case None =>
    case Some(p) =>
      TokenIsNamed(rest[p + 4..], k);
      assert TagAt(rest, p, k) <==> TokenMember(rest[p + 4..]) == k;
      forall q: nat | TagAt(rest, q, k) ensures q == p {
        assert !(q < p) && !(p < q);
      }
  }

  function Trailing(fields: seq<string>): string {
    if fields == [] then "" else fields[0] + ":" + Trailing(fields[1..])
  }

  function StripCr(line: string): string {
    if line != "" && line[|line| - 1] == '\r' then line[..|line| - 1] else line
  }

  /** The record number and the offset come first, and the fourth to sixth fields are parameter, level and step. */
  function ReadFields(line: string, f: seq<string>): LineOutcome
    requires |f| >= 6
  {
    match ToU64(f[0])
    case None => Bad
    case Some(rec) =>
      if rec == 0 || rec > U32_MAX then Bad
      else
        match ToU64(f[1])
        case None => Bad
        case Some(offset) =>
          ToU64Exact(f[1]);
          Entry(IndexEntry(f[3], f[4], f[5], line, offset, 0, rec, MemberTag(Trailing(f[6..]))))
  }

  function ReadLine(rawLine: string): LineOutcome {
    var line := StripCr(rawLine);
    if line == "" then Skip
    else
      var f := Split(line, ':');
      if |f| < 6 then Skip else ReadFields(line, f)
  }

  // ----- The whole index

  /** All entries of the lines in order, or the parse error of the first bad line. */
  function Collect(lines: seq<string>): Result<seq<IndexEntry>, ErrorCode> {
    if lines == [] then Ok([])
    else
      match ReadLine(lines[0])
      case Skip => Collect(lines[1..])
      case Bad => Err(ParseError)
      case Entry(e) =>
        match Collect(lines[1..])
        case Err(code) => Err(code)
        case Ok(rest) => Ok([e] + rest)
  }

  predicate Increasing(entries: seq<IndexEntry>) {
    forall i :: 0 <= i && i + 1 < |entries| ==> entries[i].offset < entries[i + 1].offset
  }

  /** Every length but the last is the distance to the next offset; the last range stays as it was. */
  function WithLength(entries: seq<IndexEntry>, i: nat): IndexEntry
    requires Increasing(entries) && i < |entries|
  {
    if i + 1 < |entries| then
      assert entries[i].offset < entries[i + 1].offset;
      entries[i].(length := entries[i + 1].offset - entries[i].offset)
    else entries[i]
  }

  function WithLengths(entries: seq<IndexEntry>): (r: seq<IndexEntry>)
    requires Increasing(entries)
    ensures |r| == |entries|
    ensures forall i :: 0 <= i < |entries| ==> r[i] == WithLength(entries, i)
  {
    seq(|entries|, i requires 0 <= i < |entries| => WithLength(entries, i))
  }

  function ParsedNomads(text: string): Result<seq<IndexEntry>, ErrorCode> {
    match Collect(Split(text, '\n'))
    case Err(code) => Err(code)
    case Ok(entries) => if Increasing(entries) then Ok(WithLengths(entries)) else Err(ParseError)
  }

  /** The rest of the lines, after the entries already collected. */
  ghost function After(entries: seq<IndexEntry>, rest: Result<seq<IndexEntry>, ErrorCode>)
    : Result<seq<IndexEntry>, ErrorCode>
  {
    match rest
    case Err(code) => Err(code)
    case Ok(more) => Ok(entries + more)
  }

  /** Anything after the sixth field, each field with its separator. */
  method JoinTrailing(f: seq<string>) returns (trailing: string)
    requires |f| >= 6
    ensures trailing == Trailing(f[6..])
  {
    trailing := "";
    var i := 6;
    while i < |f|
      invariant 6 <= i <= |f|
      invariant trailing + Trailing(f[i..]) == Trailing(f[6..])
    {
      assert f[i..][0] == f[i] && f[i..][1..] == f[i + 1..];
      ghost var rest := Trailing(f[i + 1..]);
      assert trailing + (f[i] + ":" + rest) == trailing + f[i] + ":" + rest;
      trailing := trailing + f[i] + ":";
      i := i + 1;
    }
  }

  method ReadEntry(rawLine: string) returns (outcome: LineOutcome)
    ensures outcome == ReadLine(rawLine)
  {
    hide MemberTag;
    hide Split;
    hide ToU64;
    hide Trailing;
    var line := rawLine;
    if line != "" && line[|line| - 1] == '\r' {
      line := line[..|line| - 1];
    }
    if line == "" {
      return Skip;
    }
    var f := SplitLoop(line, ':');
    if |f| < 6 {
      return Skip;
    }
    var rec := ToU64(f[0]);
    if rec.None? || rec.value == 0 || rec.value > U32_MAX {
      return Bad;
    }
    var offset := ToU64(f[1]);
    if offset.None? {
      return Bad;
    }
    ToU64Exact(f[1]);
    var trailing := JoinTrailing(f);
    var member := ParseNomadsMember(trailing);
    return Entry(IndexEntry(f[3], f[4], f[5], line, offset.value, 0, rec.value, member));
  }

  /** The second pass: lengths patched in place, from each entry's successor. */
  method AssignLengths(collected: seq<IndexEntry>) returns (r: Result<seq<IndexEntry>, ErrorCode>)
    ensures r == if Increasing(collected) then Ok(WithLengths(collected)) else Err(ParseError)
  {
    var entries := collected;
    var i := 0;
    while i + 1 < |entries|
      invariant 0 <= i <= |entries| == |collected| && (|entries| > 0 ==> i < |entries|)
      invariant forall j :: 0 <= j < i ==> collected[j].offset < collected[j + 1].offset
      invariant forall j :: 0 <= j < i ==>
                  entries[j] == collected[j].(length := collected[j + 1].offset - collected[j].offset)
      invariant forall j :: i <= j < |entries| ==> entries[j] == collected[j]
    {
      if entries[i + 1].offset <= entries[i].offset {
        assert collected[i].offset >= collected[i + 1].offset;
        return Err(ParseError);
      }
      entries := entries[i := entries[i].(length := entries[i + 1].offset - entries[i].offset)];
      i := i + 1;
    }
    assert Increasing(collected);
    assert entries == WithLengths(collected);
    return Ok(entries);
  }

  method ParseNomadsIdx(text: string) returns (r: Result<seq<IndexEntry>, ErrorCode>)
    ensures r == ParsedNomads(text)
  {
    hide ReadLine;
    hide Split;
    var entries: seq<IndexEntry> := [];
    var lines := SplitLoop(text, '\n');
    var k := 0;
    assert lines[0..] == lines && forall more: seq<IndexEntry> :: [] + more == more;
    while k < |lines|
      invariant 0 <= k <= |lines|
      invariant Collect(lines) == After(entries, Collect(lines[k..]))
    {
      assert lines[k..][1..] == lines[k + 1..];
      var outcome := ReadEntry(lines[k]);
      match outcome {
        case Skip =>
        case Bad => return Err(ParseError);
        case Entry(e) =>
          assert forall more :: entries + ([e] + more) == (entries + [e]) + more;
          entries := entries + [e];
      }
      k := k + 1;
    }
    assert entries + [] == entries;
    r := AssignLengths(entries);
  }

  // ----- What an accepted index guarantees

  /**
   A line is an inventory line iff it has at least five separators; it is refused iff its record number
   is not a decimal in 1..2^32-1 or its offset is not a 64-bit decimal.
   */
  lemma LineIsRefusedIff(rawLine: string)
    ensures var f := Split(StripCr(rawLine), ':');
            && (ReadLine(rawLine) == Skip <==> |f| < 6)
            && (ReadLine(rawLine) == Bad <==> |f| >= 6 && !(NumberIn(f[0], 1, U32_MAX) && NumberIn(f[1], 0, U64_MAX)))
  {
    hide MemberTag;
    var f := Split(StripCr(rawLine), ':');
    if StripCr(rawLine) == "" {
      SplitWhole("", ':');
    }
    if |f| >= 6 {
      ToU64Exact(f[0]);
      ToU64Exact(f[1]);
    }
  }

  /** Parsing fails exactly on a bad inventory line or on offsets that do not increase. */
  lemma {:induction false} AcceptedIff(lines: seq<string>)
    ensures Collect(lines).Ok? <==> forall k :: 0 <= k < |lines| ==> ReadLine(lines[k]) != Bad
    ensures Collect(lines).Err? ==> Collect(lines).error == ParseError
    decreases |lines|
  {
    hide ReadLine;
    if lines == [] {
    } else {
      AcceptedIff(lines[1..]);
      assert forall k :: 0 < k < |lines| ==> lines[k] == lines[1..][k - 1];
      if Collect(lines[1..]).Err? {
        var k :| 0 <= k < |lines[1..]| && ReadLine(lines[1..][k]) == Bad;
        assert ReadLine(lines[k + 1]) == Bad;
      }
    }
  }

  lemma {:induction false} TrailingIsJoin(fields: seq<string>)
    requires fields != []
    ensures Trailing(fields) == Join(fields, ':') + ":"
    decreases |fields|
  {
    if |fields| == 1 {
      assert fields[1..] == [];
    } else {
      TrailingIsJoin(fields[1..]);
    }
  }

  lemma {:induction false} JoinConcat(front: seq<string>, back: seq<string>, delim: char)
    requires front != [] && back != []
    ensures Join(front + back, delim) == Join(front, delim) + [delim] + Join(back, delim)
    decreases |front|
  {
    if |front| == 1 {
      assert (front + back)[1..] == back;
    } else {
      assert (front + back)[1..] == front[1..] + back;
      JoinConcat(front[1..], back, delim);
    }
  }

  /** The text of a line after its sixth field, empty when there is none, otherwise closed by a separator. */
  ghost predicate Follows(line: string, six: seq<string>, rest: string) {
    && |six| == 6 && FreeOf(six, ':')
    && (rest == "" ==> line == Join(six, ':'))
    && (rest != "" ==> line + ":" == Join(six, ':') + ":" + rest)
  }

  /**
   What an inventory line becomes: its second field is the offset, the first the record number, the fourth to
   sixth are parameter, level and step, the member comes from all of the text after them, and the length is open.
   */
  lemma EntryOfLine(rawLine: string) returns (six: seq<string>, rest: string)
    requires ReadLine(rawLine).Entry?
    ensures Follows(StripCr(rawLine), six, rest)
    ensures NumberIn(six[0], 1, 0xFFFF_FFFF) && NumberIn(six[1], 0, 0xFFFF_FFFF_FFFF_FFFF)
    ensures ReadLine(rawLine).entry
            == IndexEntry(six[3], six[4], six[5], StripCr(rawLine), Value(six[1]), 0, Value(six[0]), MemberTag(rest))
  {
    hide MemberTag;
    hide Split;
    hide ToU64;
    var line := StripCr(rawLine);
    var f := Split(line, ':');
    LineIsRefusedIff(rawLine);
    JoinOfSplit(line, ':');
    ToU64Exact(f[0]);
    ToU64Exact(f[1]);
    six, rest := f[..6], "";
    assert f == six + f[6..];
    if |f| == 6 {
      assert f[6..] == [] && six == f;
    } else {
      rest := Trailing(f[6..]);
      TrailingIsJoin(f[6..]);
      JoinConcat(six, f[6..], ':');
    }
  }

  /** The lines with at least six fields. */
  function Inventory(lines: seq<string>): seq<string> {
    if lines == [] then []
    else (if |Split(StripCr(lines[0]), ':')| >= 6 then [lines[0]] else []) + Inventory(lines[1..])
  }

  /** Accepted lines give one entry per inventory line, in the order of the lines; other lines give none. */
  lemma {:induction false} EntriesFollowInventory(lines: seq<string>)
    requires Collect(lines).Ok?
    ensures |Collect(lines).value| == |Inventory(lines)|
    ensures forall i :: 0 <= i < |Inventory(lines)| ==> ReadLine(Inventory(lines)[i]) == Entry(Collect(lines).value[i])
    decreases |lines|
  {
    hide ReadLine;
    if lines == [] {
    } else {
      LineIsRefusedIff(lines[0]);
      EntriesFollowInventory(lines[1..]);
    }
  }

  function SumLengths(entries: seq<IndexEntry>): nat {
    if entries == [] then 0 else entries[0].length + SumLengths(entries[1..])
  }

  ghost predicate Tiled(es: seq<IndexEntry>) {
    forall k :: 0 <= k && k + 1 < |es| ==>
      es[k].length > 0 && es[k].offset + es[k].length == es[k + 1].offset
  }

  lemma LengthsTile(collected: seq<IndexEntry>)
    requires Increasing(collected)
    ensures Tiled(WithLengths(collected))
  {
  }

  lemma {:induction false} CollectedLengths(lines: seq<string>)
    ensures Collect(lines).Ok? ==> forall k :: 0 <= k < |Collect(lines).value| ==> Collect(lines).value[k].length == 0
    decreases |lines|
  {
    hide Split;
    if lines == [] {
    } else {
      CollectedLengths(lines[1..]);
    }
  }

  lemma {:induction false} LaterOffset(es: seq<IndexEntry>, i: nat, j: nat)
    requires Tiled(es) && i <= j < |es|
    ensures es[i].offset <= es[j].offset
    decreases j - i
  {
    if i == j {
    } else {
      LaterOffset(es, i + 1, j);
    }
  }

  lemma {:induction false} TilesTelescope(es: seq<IndexEntry>)
    requires Tiled(es) && es != [] && es[|es| - 1].length == 0
    ensures SumLengths(es) == es[|es| - 1].offset - es[0].offset
    decreases |es|
  {
    if |es| == 1 {
    } else {
      forall k | 0 <= k && k + 1 < |es[1..]|
        ensures es[1..][k].length > 0 && es[1..][k].offset + es[1..][k].length == es[1..][k + 1].offset
      {
        assert es[k + 1].length > 0 && es[k + 1].offset + es[k + 1].length == es[k + 2].offset;
      }
      TilesTelescope(es[1..]);
    }
  }

  /**
   Accepted entries tile the file from the first offset to the last: each bounded range ends where the
   next begins, so ranges are positive and pairwise disjoint; only the last is open-ended.
   */
  lemma EntriesTile(text: string, i: nat, j: nat)
    requires ParsedNomads(text).Ok? && i < j < |ParsedNomads(text).value|
    ensures var es := ParsedNomads(text).value;
            && es[i].length > 0
            && es[i].offset + es[i].length == es[i + 1].offset
            && es[i].offset + es[i].length <= es[j].offset
            && es[|es| - 1].length == 0
            && SumLengths(es) == es[|es| - 1].offset - es[0].offset
  {
    hide Collect;
    hide Split;
    var es := ParsedNomads(text).value;
    CollectedLengths(Split(text, '\n'));
    LengthsTile(Collect(Split(text, '\n')).value);
    TilesTelescope(es);
    LaterOffset(es, i + 1, j);
  }

  // ----- Selection

  /** Unset fields select everything; set ones match by substring, the member by equality. */
  datatype Selector = Selector(
    param: Option<string>, level: Option<string>, step: Option<string>, member: Option<int>)

  predicate Contains(text: string, pattern: Option<string>) {
    pattern.Some? ==> Find(text, pattern.value, 0).Some?
  }

  /** The reading of a selector that its documentation suggests: equality of every set field. */
  predicate SelectsExactly(sel: Selector, e: IndexEntry) {
    && (sel.param.Some? ==> e.param == sel.param.value)
    && (sel.level.Some? ==> e.level == sel.level.value)
    && (sel.step.Some? ==> e.step == sel.step.value)
    && (sel.member.Some? ==> e.member == sel.member.value)
  }

  predicate Selects(sel: Selector, e: IndexEntry) {
    && Contains(e.param, sel.param) && Contains(e.level, sel.level) && Contains(e.step, sel.step)
    && (sel.member.Some? ==> e.member == sel.member.value)
  }

  function Selected(entries: seq<IndexEntry>, sel: Selector): seq<IndexEntry> {
    if entries == [] then []
    else (if Selects(sel, entries[0]) then [entries[0]] else []) + Selected(entries[1..], sel)
  }

  /** Every set text occurs somewhere in its field, and a set member is the entry's. */
  ghost predicate Wanted(sel: Selector, e: IndexEntry) {
    && (sel.param.Some? ==> Occurs(e.param, sel.param.value))
    && (sel.level.Some? ==> Occurs(e.level, sel.level.value))
    && (sel.step.Some? ==> Occurs(e.step, sel.step.value))
    && (sel.member.Some? ==> e.member == sel.member.value)
  }

  lemma FoundIffOccurs(field: string, text: Option<string>)
    ensures Contains(field, text) <==> (text.Some? ==> Occurs(field, text.value))
  {
  }

  lemma SelectsIffWanted(sel: Selector, e: IndexEntry)
    ensures Selects(sel, e) <==> Wanted(sel, e)
  {
    FoundIffOccurs(e.param, sel.param);
    FoundIffOccurs(e.level, sel.level);
    FoundIffOccurs(e.step, sel.step);
  }

  /** Selection keeps exactly the matching entries, with their multiplicity. */
  lemma {:induction false} SelectionIsExact(entries: seq<IndexEntry>, sel: Selector, e: IndexEntry)
    ensures multiset(Selected(entries, sel))[e] == if Wanted(sel, e) then multiset(entries)[e] else 0
    decreases |entries|
  {
    hide Selects;
    hide Wanted;
    if entries == [] {
    } else {
      SelectsIffWanted(sel, e);
      SelectionIsExact(entries[1..], sel, e);
      assert entries == [entries[0]] + entries[1..];
    }
  }

  /** One turn of the selecting loop. */
  lemma SelectedStep(entries: seq<IndexEntry>, sel: Selector, k: nat, out: seq<IndexEntry>)
    requires k < |entries|
    ensures out + Selected(entries[k..], sel)
            == (if Selects(sel, entries[k]) then out + [entries[k]] else out) + Selected(entries[k + 1..], sel)
  {
    hide Selects;
    var rest := Selected(entries[k + 1..], sel);
    assert entries[k..][0] == entries[k] && entries[k..][1..] == entries[k + 1..];
    assert out + ([entries[k]] + rest) == out + [entries[k]] + rest && [] + rest == rest;
  }

  lemma SelectionsAreExact(entries: seq<IndexEntry>, sel: Selector)
    ensures forall e :: multiset(Selected(entries, sel))[e] == if Wanted(sel, e) then multiset(entries)[e] else 0
  {
    hide Selected;
    hide Wanted;
    forall e ensures multiset(Selected(entries, sel))[e] == if Wanted(sel, e) then multiset(entries)[e] else 0 {
      SelectionIsExact(entries, sel, e);
    }
  }

  method Select(entries: seq<IndexEntry>, sel: Selector) returns (out: seq<IndexEntry>)
    ensures out == Selected(entries, sel)
    ensures forall e :: multiset(out)[e] == if Wanted(sel, e) then multiset(entries)[e] else 0
  {
    assert Selected([], sel) == [] && entries[0..] == entries;
    hide Selected;
    hide Find;
    hide Wanted;
    out := [];
    var k := 0;
    while k < |entries|
      invariant 0 <= k <= |entries|
      invariant out + Selected(entries[k..], sel) == Selected(entries, sel)
    {
      var e := entries[k];
      SelectedStep(entries, sel, k, out);
      if sel.param.Some? && Find(e.param, sel.param.value, 0).None? {
      } else if sel.level.Some? && Find(e.level, sel.level.value, 0).None? {
      } else if sel.step.Some? && Find(e.step, sel.step.value, 0).None? {
      } else if sel.member.Some? && e.member != sel.member.value {
      } else {
        out := out + [e];
      }
      k := k + 1;
    }
    assert entries[k..] == [] && out + [] == out;
    SelectionsAreExact(entries, sel);
  }

  /** A selector for one parameter refuses another. */
  lemma TmpRefusesPrmsl(e: IndexEntry)
    requires e.param == "PRMSL"
    ensures !Wanted(Selector(Some("TMP"), None, None, None), e)
  {
    assert forall i :: 0 <= i < 5 ==> e.param[i] != 'T';
    forall i: nat ensures !OccursAt(e.param, "TMP", i) {
      assert i + 3 <= 5 ==> e.param[i..i + 3][0] == e.param[i];
    }
  }

  /** A selector for step 6 also selects step 36. */
  lemma SixSelectsThirtySix(e: IndexEntry)
    requires e.step == "36 hour fcst"
    ensures var sel := Selector(None, None, Some("6 hour fcst"), None);
            Selects(sel, e) && !SelectsExactly(sel, e)
  {
    assert e.step[1..12] == "6 hour fcst";
    assert OccursAt(e.step, "6 hour fcst", 1);
  }

  lemma EqualIsFound(text: string)
    ensures Find(text, text, 0).Some?
  {
    assert OccursAt(text, text, 0);
  }

  lemma LongerIsFound(text: string)
    ensures Find(text + "x", text, 0).Some?
  {
    assert OccursAt(text + "x", text, 0);
  }

  /** Equality of every set field would select the same entries iff none of the three texts is set. */
  lemma SubstringIsEqualityIff(sel: Selector)
    ensures (forall e :: Selects(sel, e) <==> SelectsExactly(sel, e))
            <==> sel.param.None? && sel.level.None? && sel.step.None?
  {
    hide Find;
    if sel.param.Some? || sel.level.Some? || sel.step.Some? {
      var param := if sel.param.Some? then sel.param.value else "";
      var level := if sel.level.Some? then sel.level.value else "";
      var step := if sel.step.Some? then sel.step.value else "";
      LongerIsFound(param);
      LongerIsFound(level);
      LongerIsFound(step);
      var member := if sel.member.Some? then sel.member.value else 0;
      var e := IndexEntry(param + "x", level + "x", step + "x", "", 0, 0, 0, member);
      assert |param + "x"| > |param| && |level + "x"| > |level| && |step + "x"| > |step|;
      assert Selects(sel, e) && !SelectsExactly(sel, e);
    }
  }

  /** Selection never loses an entry whose set fields are equal. */
  lemma EqualityIsSelected(sel: Selector, e: IndexEntry)
    requires SelectsExactly(sel, e)
    ensures Selects(sel, e)
  {
    EqualIsFound(e.param);
    EqualIsFound(e.level);
    EqualIsFound(e.step);
  }

  /** Selecting keeps the order: it distributes over any cut of the list. */
  lemma {:induction false} SelectionKeepsOrder(front: seq<IndexEntry>, back: seq<IndexEntry>, sel: Selector)
    ensures Selected(front + back, sel) == Selected(front, sel) + Selected(back, sel)
    decreases |front|
  {
    if front == [] {
      assert front + back == back;
    } else {
      assert (front + back)[1..] == front[1..] + back;
      SelectionKeepsOrder(front[1..], back, sel);
    }
  }
}
