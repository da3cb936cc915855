/**
 The ECMWF `.index`: newline-delimited JSON with explicit byte ranges. JSON reading is a foreign call:
 an arbitrary function from a line to an object, or none for text that is not one.
 */
module EcmwfIndex {
  import opened Basics
  import opened Text
  import opened Sidecar
  import opened HttpRange

  /** A JSON value; the shortest decimal text of a real comes with it. */
  datatype Json =
    | Text(text: string)
    | Unsigned(n: u64)
    | Signed(i: i64)
    | Real(r: real, shortest: string)
    | NonFinite
    | Other
  {
    predicate IsNumber() {
      Unsigned? || Signed? || Real? || NonFinite?
    }
  }

  type Object = map<string, Json>

  function SignedText(i: i64): string {
    var v: int := i;
    if v < 0 then "-" + ToString(-v) else ToString(v)
  }

  function GenericToString(v: Json): string {
    match v
    case Text(t) => t
    case Unsigned(n) => ToString(n)
    case Signed(i) => SignedText(i)
    case Real(_, shortest) => shortest
    case _ => ""
  }

  // 2^53: beyond it a double no longer tells neighbouring integers apart
  const EXACT_LIMIT: real := 9007199254740992.0

  function ExactU64(v: Json): Option<u64> {
    match v
    case Unsigned(n) => Some(n)
    case Signed(i) => if i >= 0 then Some(i) else None
    case Real(r, _) => if 0.0 <= r < EXACT_LIMIT && r.Floor as real == r then Some(r.Floor) else None
    case _ => None
  }

  /** The number a JSON value denotes. */
  function Denoted(v: Json): Option<real> {
    match v
    case Unsigned(n) => Some(n as real)
    case Signed(i) => Some(i as real)
    case Real(r, _) => Some(r)
    case _ => None
  }

  /** The value is exactly the natural number `n`, and far enough from rounding if it is a real. */
  ghost predicate IsExactly(v: Json, n: u64) {
    Denoted(v) == Some(n as real) && (v.Real? ==> n as real < EXACT_LIMIT)
  }

  /**
   Numbers convert without changing their value, and exactly the natural numbers convert: all integers
   of integer type that are not negative, and reals below 2^53 with no fraction.
   */
  lemma ExactMeansUnchanged(v: Json)
    ensures ExactU64(v).Some? ==> IsExactly(v, ExactU64(v).value)
    ensures ExactU64(v).None? ==> forall n :: !IsExactly(v, n)
  {
  }

  /** Signed `from_chars` over the whole text, for a 32-bit int; -1 when it is not one. */
  function WholeInt(s: string): int {
    var negative := StartsWith(s, "-");
    var digits := if negative then s[1..] else s;
    match FromChars(digits, if negative then I32_MAX + 1 else I32_MAX)
    case Some(p) =>
      var v: int := p.value;
      if p.consumed != |digits| then -1 else if negative then -v else v
    case None => -1
  }

  function FieldText(obj: Object, key: string): string {
    if key in obj then GenericToString(obj[key]) else ""
  }

  function MemberOf(obj: Object): int {
    if "type" in obj && obj["type"] == Text("cf") then 0
    else if "number" in obj then WholeInt(GenericToString(obj["number"]))
    else -1
  }

  function LevelOf(obj: Object): string {
    if "levelist" in obj then GenericToString(obj["levelist"]) else FieldText(obj, "levtype")
  }

  function RangeOf(obj: Object): Option<(u64, u64)> {
    if "_offset" !in obj || "_length" !in obj || !obj["_offset"].IsNumber() || !obj["_length"].IsNumber() then None
    else
      match (ExactU64(obj["_offset"]), ExactU64(obj["_length"]))
      case (Some(offset), Some(length)) => if RangeFits(offset, length) then Some((offset, length)) else None
      case _ => None
  }

  function ReadJsonLine(rawLine: string, read: string -> Option<Object>): LineOutcome {
    var line := StripCr(rawLine);
    if line == "" then LineOutcome.Skip
    else
      match read(line)
      case None => Bad
      case Some(obj) =>
        match RangeOf(obj)
        case None => Bad
        case Some((offset, length)) =>
          Entry(IndexEntry(FieldText(obj, "param"), LevelOf(obj), FieldText(obj, "step"), line,
                           offset, length, 0, MemberOf(obj)))
  }

  function CollectJson(lines: seq<string>, read: string -> Option<Object>): Result<seq<IndexEntry>, ErrorCode> {
    if lines == [] then Ok([])
    else
      match ReadJsonLine(lines[0], read)
      case Skip => CollectJson(lines[1..], read)
      case Bad => Err(ParseError)
      case Entry(e) =>
        match CollectJson(lines[1..], read)
        case Err(code) => Err(code)
        case Ok(rest) => Ok([e] + rest)
  }

  method ReadJsonEntry(rawLine: string, read: string -> Option<Object>) returns (outcome: LineOutcome)
    ensures outcome == ReadJsonLine(rawLine, read)
  {
    var line := rawLine;
    if line != "" && line[|line| - 1] == '\r' {
      line := line[..|line| - 1];
    }
    if line == "" {
      return LineOutcome.Skip;
    }
    var root := read(line);
    if root.None? {
      return Bad;
    }
    var obj := root.value;
    if "_offset" !in obj || "_length" !in obj || !obj["_offset"].IsNumber() || !obj["_length"].IsNumber() {
      return Bad;
    }
    var offset, length := ExactU64(obj["_offset"]), ExactU64(obj["_length"]);
    if offset.None? || length.None? || (length.value > 0 && length.value - 1 > U64_MAX - offset.value) {
      return Bad;
    }
    var param, level, step, member := "", "", "", -1;
    if "param" in obj {
      param := GenericToString(obj["param"]);
    }
    if "levelist" in obj {
      level := GenericToString(obj["levelist"]);
    } else if "levtype" in obj {
      level := GenericToString(obj["levtype"]);
    }
    if "step" in obj {
      step := GenericToString(obj["step"]);
    }
    if "type" in obj && obj["type"] == Text("cf") {
      member := 0;
    } else if "number" in obj {
      member := WholeInt(GenericToString(obj["number"]));
    }
    return Entry(IndexEntry(param, level, step, line, offset.value, length.value, 0, member));
  }

  // ----- When an index is accepted

  /** The object states this byte range: two exact naturals, the last byte at a 64-bit position. */
  ghost predicate StatesRange(obj: Object, offset: u64, length: u64) {
    && "_offset" in obj && IsExactly(obj["_offset"], offset)
    && "_length" in obj && IsExactly(obj["_length"], length)
    && (length == 0 || offset + length <= U64_MOD)
  }

  /** The line is an object that states a byte range. */
  ghost predicate Usable(rawLine: string, read: string -> Option<Object>) {
    read(StripCr(rawLine)).Some? && exists offset, length :: StatesRange(read(StripCr(rawLine)).value, offset, length)
  }

  /** A line's range is accepted iff both numbers are exact naturals and its last byte has a 64-bit position. */
  lemma RangeIsExact(obj: Object, offset: u64, length: u64)
    ensures RangeOf(obj) == Some((offset, length)) <==> StatesRange(obj, offset, length)
  {
  }

  /** Blank lines are skipped; of the others exactly the unusable ones are refused. */
  lemma JsonLineIsRefusedIff(rawLine: string, read: string -> Option<Object>)
    ensures ReadJsonLine(rawLine, read) == LineOutcome.Skip <==> StripCr(rawLine) == ""
    ensures ReadJsonLine(rawLine, read) == Bad <==> StripCr(rawLine) != "" && !Usable(rawLine, read)
  {
    hide StatesRange;
    hide RangeOf;
    var root := read(StripCr(rawLine));
    if root.Some? {
      if offset, length :| StatesRange(root.value, offset, length) {
        RangeIsExact(root.value, offset, length);
      }
      if RangeOf(root.value).Some? {
        RangeIsExact(root.value, RangeOf(root.value).value.0, RangeOf(root.value).value.1);
      }
    }
  }

  /** An index is accepted iff every line that is not blank is usable; the only error is a parse error. */
  lemma {:induction false} JsonAcceptedIff(lines: seq<string>, read: string -> Option<Object>)
    ensures CollectJson(lines, read).Ok?
            <==> forall line :: line in lines && StripCr(line) != "" ==> Usable(line, read)
    ensures CollectJson(lines, read).Err? ==> CollectJson(lines, read).error == ParseError
    decreases |lines|
  {
    hide ReadJsonLine;
    hide Usable;
    if lines == [] {
    } else {
      JsonLineIsRefusedIff(lines[0], read);
      JsonAcceptedIff(lines[1..], read);
      assert forall line :: line in lines <==> line == lines[0] || line in lines[1..];
    }
  }

  method ParseEcmwfIndex(text: string, read: string -> Option<Object>) returns (r: Result<seq<IndexEntry>, ErrorCode>)
    ensures r == CollectJson(Split(text, '\n'), read)
    ensures r.Ok? <==> forall line :: line in Split(text, '\n') && StripCr(line) != "" ==> Usable(line, read)
  {
    hide ReadJsonLine;
    hide Usable;
    JsonAcceptedIff(Split(text, '\n'), read);
    hide Split;
    var entries: seq<IndexEntry> := [];
    var lines := SplitLoop(text, '\n');
    var k := 0;
    assert lines[0..] == lines && forall more: seq<IndexEntry> :: [] + more == more;
    while k < |lines|
      invariant 0 <= k <= |lines|
      invariant CollectJson(lines, read) == After(entries, CollectJson(lines[k..], read))
    {
      assert lines[k..][1..] == lines[k + 1..];
      var outcome := ReadJsonEntry(lines[k], read);
      match outcome {
        case Skip =>
        case Bad => return Err(ParseError);
        case Entry(e) =>
          assert forall more :: entries + ([e] + more) == (entries + [e]) + more;
          entries := entries + [e];
      }
      k := k + 1;
    }
    assert entries + [] == entries;
    r := Ok(entries);
  }

  // ----- What the entries are

  /** The lines that are not blank, without their carriage returns. */
  function Contents(lines: seq<string>): seq<string> {
    if lines == [] then []
    else (if StripCr(lines[0]) == "" then [] else [StripCr(lines[0])]) + Contents(lines[1..])
  }

  /** The text a JSON value is shown as: a string is itself, a number has its digits, anything else is blank. */
  ghost predicate Shows(v: Json, text: string) {
    match v
    case Text(t) => text == t
    case Unsigned(n) => text == ToString(n)
    case Signed(i) => if i >= 0 then text == ToString(i) else text == ['-'] + ToString(-(i as int))
    case Real(_, shortest) => text == shortest
    case NonFinite => text == ""
    case Other => text == ""
  }

  lemma ShownText(v: Json, text: string)
    ensures Shows(v, text) <==> text == GenericToString(v)
  {
  }

  /** A key that is left out shows the empty text. */
  ghost predicate FieldShows(obj: Object, key: string, text: string) {
    if key in obj then Shows(obj[key], text) else text == ""
  }

  /** The level is the level list where there is one, and the type of level otherwise. */
  ghost predicate LevelShows(obj: Object, text: string) {
    if "levelist" in obj then Shows(obj["levelist"], text) else FieldShows(obj, "levtype", text)
  }

  /** The whole text is `v` in decimal, with or without leading zeros, and `v` is a 32-bit int. */
  ghost predicate IsIntText(s: string, v: int) {
    || (s != "" && AllDigits(s) && v == Value(s) && v <= 2147483647)
    || (|s| > 1 && s[0] == '-' && AllDigits(s[1..]) && v == 0 - Value(s[1..]) && v >= -2147483648)
  }

  lemma DigitsOrNot(s: string, max: nat)
    ensures s != "" && AllDigits(s) && Value(s) <= max ==> FromChars(s, max) == Some(Parsed(Value(s), |s|))
    ensures FromChars(s, max).Some? && FromChars(s, max).value.consumed == |s| ==>
              s != "" && AllDigits(s) && Value(s) <= max && FromChars(s, max).value.value == Value(s)
  {
    if s != "" && AllDigits(s) {
      FromCharsOf(s, "", max);
      assert s + "" == s;
    } else {
      assert s[..|s|] == s;
    }
  }

  /** Any text either is a 32-bit int, which it is read as, or is read as -1. */
  lemma WholeIntIs(s: string)
    ensures IsIntText(s, WholeInt(s)) || (WholeInt(s) == -1 && forall v :: !IsIntText(s, v))
  {
    hide FromChars;
    hide Value;
    DigitsOrNot(s, I32_MAX);
    if StartsWith(s, "-") {
      DigitsOrNot(s[1..], I32_MAX + 1);
      assert s[0] == '-' && !Digit(s[0]);
    }
  }

  /** Member 0 is the control; otherwise the number is the member, and -1 stands for none or one that is no int. */
  ghost predicate HasMember(obj: Object, member: int) {
    if "type" in obj && obj["type"] == Text("cf") then member == 0
    else if "number" !in obj then member == -1
    else
      forall text :: Shows(obj["number"], text) ==>
        IsIntText(text, member) || (member == -1 && forall v :: !IsIntText(text, v))
  }

  lemma MemberIs(obj: Object)
    ensures HasMember(obj, MemberOf(obj))
  {
    hide WholeInt;
    hide IsIntText;
    hide Shows;
    hide GenericToString;
    if "number" in obj {
      var text := GenericToString(obj["number"]);
      WholeIntIs(text);
      forall other | Shows(obj["number"], other) ensures other == text {
        ShownText(obj["number"], other);
      }
    }
  }

  /** What entry `e` takes from the text of its line. */
  ghost predicate ComesFrom(e: IndexEntry, line: string, read: string -> Option<Object>) {
    && e.raw == line && e.record == 0
    && read(line).Some? && StatesRange(read(line).value, e.offset, e.length)
    && FieldShows(read(line).value, "param", e.param)
    && LevelShows(read(line).value, e.level)
    && FieldShows(read(line).value, "step", e.step)
    && HasMember(read(line).value, e.member)
  }

  lemma LineGivesEntry(rawLine: string, read: string -> Option<Object>)
    ensures ReadJsonLine(rawLine, read).Entry? ==> ComesFrom(ReadJsonLine(rawLine, read).entry, StripCr(rawLine), read)
  {
    hide StatesRange;
    hide RangeOf;
    hide MemberOf;
    hide HasMember;
    var root := read(StripCr(rawLine));
    if root.Some? && RangeOf(root.value).Some? {
      RangeIsExact(root.value, RangeOf(root.value).value.0, RangeOf(root.value).value.1);
      MemberIs(root.value);
    }
  }

  /** An accepted index has one entry per line that is not blank, in order, with its range, texts and member. */
  lemma {:induction false} EntriesFollowLines(lines: seq<string>, read: string -> Option<Object>)
    requires CollectJson(lines, read).Ok?
    ensures |CollectJson(lines, read).value| == |Contents(lines)|
    ensures forall i :: 0 <= i < |Contents(lines)| ==>
              ComesFrom(CollectJson(lines, read).value[i], Contents(lines)[i], read)
    decreases |lines|
  {
    hide ComesFrom;
    hide StripCr;
    if lines == [] {
    } else {
      EntriesFollowLines(lines[1..], read);
      LineGivesEntry(lines[0], read);
    }
  }

  lemma DigitsHaveNoSign(n: nat)
    ensures !StartsWith(ToString(n), "-")
  {
    assert Digit(ToString(n)[0]);
  }

  /** A printed 32-bit integer reads back, whatever its sign. */
  lemma IntReadsBack(i: i64)
    requires -I32_MAX - 1 <= i <= I32_MAX
    ensures WholeInt(SignedText(i)) == i
  {
    var v: int := i;
    var size: nat := if v < 0 then -v else v;
    var digits := ToString(size);
    DigitsHaveNoSign(size);
    FromCharsOf(digits, "", if v < 0 then I32_MAX + 1 else I32_MAX);
    assert digits + "" == digits;
    ValueOfToString(size);
    if v < 0 {
      assert SignedText(i)[1..] == digits;
    }
  }

  /** The control forecast is member 0; another numbered one has its number, written as text or as a number. */
  lemma MemberIsNumber(obj: Object, k: u64)
    requires k <= I32_MAX && "number" in obj
    requires obj["number"] == Text(ToString(k)) || obj["number"] == Unsigned(k) || obj["number"] == Signed(k)
    ensures MemberOf(obj) == if "type" in obj && obj["type"] == Text("cf") then 0 else k
  {
    IntReadsBack(k);
    assert SignedText(k) == ToString(k);
    assert GenericToString(obj["number"]) == ToString(k);
  }

  // ----- Printing an index and parsing it back

  datatype Level = Listed(levelist: string) | TypeOnly(levtype: string)

  datatype Role = Deterministic | Control | Perturbed(k: nat)

  /** One product as the producer knows it. */
  datatype Product = Product(param: string, level: Level, step: string, offset: u64, length: u64, role: Role)

  ghost predicate HasRole(obj: Object, role: Role) {
    var control := "type" in obj && obj["type"] == Text("cf");
    match role
    case Control => control
    case Deterministic => !control && "number" !in obj
    case Perturbed(k) => !control && "number" in obj && Shows(obj["number"], ToString(k))
  }

  /** An object with these fields, whatever other keys it has. */
  ghost predicate Presents(obj: Object, p: Product) {
    && FieldShows(obj, "param", p.param) && FieldShows(obj, "step", p.step)
    && (match p.level
        case Listed(text) => "levelist" in obj && Shows(obj["levelist"], text)
        case TypeOnly(text) => "levelist" !in obj && FieldShows(obj, "levtype", text))
    && "_offset" in obj && IsExactly(obj["_offset"], p.offset)
    && "_length" in obj && IsExactly(obj["_length"], p.length)
    && HasRole(obj, p.role)
  }

  /** The member a role stands for; numbers beyond a 32-bit int are not members. */
  function MemberOfRole(role: Role): int {
    match role
    case Deterministic => -1
    case Control => 0
    case Perturbed(k) => if k <= I32_MAX then k else -1
  }

  function ProductEntry(p: Product, line: string): IndexEntry {
    IndexEntry(p.param, if p.level.Listed? then p.level.levelist else p.level.levtype, p.step, line,
               p.offset, p.length, 0, MemberOfRole(p.role))
  }

  lemma RoleReadsBack(obj: Object, role: Role)
    requires HasRole(obj, role)
    ensures MemberOf(obj) == MemberOfRole(role)
  {
    if role.Perturbed? {
      var digits := ToString(role.k);
      ShownText(obj["number"], digits);
      DigitsHaveNoSign(role.k);
      FromCharsOf(digits, "", I32_MAX);
      assert digits + "" == digits;
      ValueOfToString(role.k);
    }
  }

  /** `show` prints objects on one line, and `read` reads them back. */
  ghost predicate Inverts(objs: seq<Object>, show: Object -> string, read: string -> Option<Object>) {
    forall obj :: obj in objs ==>
      && read(show(obj)) == Some(obj)
      && show(obj) != "" && '\n' !in show(obj) && StripCr(show(obj)) == show(obj)
  }

  lemma StatedRangeReadsBack(obj: Object, offset: u64, length: u64)
    requires "_offset" in obj && IsExactly(obj["_offset"], offset)
    requires "_length" in obj && IsExactly(obj["_length"], length)
    ensures RangeOf(obj) == if RangeFits(offset, length) then Some((offset, length)) else None
  {
  }

  lemma ProductReadsBack(obj: Object, p: Product, show: Object -> string, read: string -> Option<Object>, cr: string)
    requires Presents(obj, p) && Inverts([obj], show, read) && (cr == "" || cr == "\r")
    ensures ReadJsonLine(show(obj) + cr, read)
            == if RangeFits(p.offset, p.length) then Entry(ProductEntry(p, show(obj))) else Bad
  {
    hide IsExactly;
    hide MemberOf;
    hide RangeOf;
    hide HasRole;
    assert obj in [obj];
    var line := show(obj);
    assert (line + "\r")[..|line|] == line && line + "" == line;
    assert StripCr(line + cr) == line;
    RoleReadsBack(obj, p.role);
    StatedRangeReadsBack(obj, p.offset, p.length);
  }

  function PrintJson(objs: seq<Object>, show: Object -> string, eol: string): string {
    if objs == [] then "" else show(objs[0]) + eol + PrintJson(objs[1..], show, eol)
  }

  function JsonLines(objs: seq<Object>, show: Object -> string, cr: string): seq<string> {
    if objs == [] then [""] else [show(objs[0]) + cr] + JsonLines(objs[1..], show, cr)
  }

  lemma {:induction false} PrintedJsonLines(objs: seq<Object>, show: Object -> string,
                                            read: string -> Option<Object>, cr: string)
    requires Inverts(objs, show, read) && (cr == "" || cr == "\r")
    ensures Split(PrintJson(objs, show, cr + "\n"), '\n') == JsonLines(objs, show, cr)
    decreases |objs|
  {
    hide Split;
    if objs == [] {
      SplitWhole("", '\n');
    } else {
      assert objs[0] in objs;
      var head, tail := show(objs[0]) + cr, PrintJson(objs[1..], show, cr + "\n");
      assert show(objs[0]) + (cr + "\n") + tail == head + ['\n'] + tail;
      SplitAtFirst(head, '\n', tail);
      PrintedJsonLines(objs[1..], show, read, cr);
    }
  }

  ghost predicate PresentAll(objs: seq<Object>, ps: seq<Product>) {
    |objs| == |ps| && forall i :: 0 <= i < |objs| ==> Presents(objs[i], ps[i])
  }

  ghost predicate AllFit(ps: seq<Product>) {
    forall p :: p in ps ==> RangeFits(p.offset, p.length)
  }

  function ProductEntries(ps: seq<Product>, objs: seq<Object>, show: Object -> string): (es: seq<IndexEntry>)
    requires |ps| == |objs|
    ensures |es| == |ps| && forall i :: 0 <= i < |ps| ==> es[i] == ProductEntry(ps[i], show(objs[i]))
  {
    seq(|ps|, i requires 0 <= i < |ps| => ProductEntry(ps[i], show(objs[i])))
  }

  lemma {:induction false} PrintedProducts(ps: seq<Product>, objs: seq<Object>, show: Object -> string,
                                           read: string -> Option<Object>, cr: string)
    requires PresentAll(objs, ps) && Inverts(objs, show, read) && (cr == "" || cr == "\r")
    ensures CollectJson(JsonLines(objs, show, cr), read)
            == if AllFit(ps) then Ok(ProductEntries(ps, objs, show)) else Err(ParseError)
    decreases |objs|
  {
    hide Presents;
    hide ReadJsonLine;
    hide ProductEntry;
    var lines := JsonLines(objs, show, cr);
    if objs == [] {
      JsonLineIsRefusedIff("", read);
      assert lines[1..] == [];
    } else {
      assert objs[0] in objs && lines[1..] == JsonLines(objs[1..], show, cr);
      ProductReadsBack(objs[0], ps[0], show, read, cr);
      PrintedProducts(ps[1..], objs[1..], show, read, cr);
      assert forall p :: p in ps <==> p == ps[0] || p in ps[1..];
      if AllFit(ps) {
        assert ProductEntries(ps, objs, show)
               == [ProductEntry(ps[0], show(objs[0]))] + ProductEntries(ps[1..], objs[1..], show);
      }
    }
  }

  /**
   ECMWF round trip, for any JSON reader that inverts a one-line printer: objects that present products,
   one per line and with any other keys, are accepted iff every range ends within 64-bit positions, and
   then every product comes back in its place, with LF or CRLF line ends.
   */
  lemma PrintThenParseJson(ps: seq<Product>, objs: seq<Object>, show: Object -> string,
                           read: string -> Option<Object>, crlf: bool)
    requires PresentAll(objs, ps) && Inverts(objs, show, read)
    ensures CollectJson(Split(PrintJson(objs, show, if crlf then "\r\n" else "\n"), '\n'), read)
            == if AllFit(ps) then Ok(ProductEntries(ps, objs, show)) else Err(ParseError)
  {
    hide Split;
    hide CollectJson;
    hide PrintJson;
    var cr := if crlf then "\r" else "";
    assert cr + "\n" == if crlf then "\r\n" else "\n";
    PrintedJsonLines(objs, show, read, cr);
    PrintedProducts(ps, objs, show, read, cr);
  }

  // ----- Ranges from either index can be requested

  lemma JsonRangesFit(lines: seq<string>, read: string -> Option<Object>, i: nat)
    requires CollectJson(lines, read).Ok? && i < |CollectJson(lines, read).value|
    ensures RangeFits(CollectJson(lines, read).value[i].offset, CollectJson(lines, read).value[i].length)
  {
    hide CollectJson;
    hide Contents;
    EntriesFollowLines(lines, read);
    assert ComesFrom(CollectJson(lines, read).value[i], Contents(lines)[i], read);
  }

  lemma NomadsRangesFit(text: string, i: nat)
    requires ParsedNomads(text).Ok? && i < |ParsedNomads(text).value|
    ensures RangeFits(ParsedNomads(text).value[i].offset, ParsedNomads(text).value[i].length)
  {
    hide Collect;
    hide Split;
    var es := ParsedNomads(text).value;
    if i + 1 < |es| {
      EntriesTile(text, i, i + 1);
    } else {
      CollectedLengths(Split(text, '\n'));
    }
  }

  /**
   Every entry of an accepted index, of either kind, is a range that ends within 64-bit positions, so
   `get_range` never refuses it before asking the server.
   */
  lemma EntriesAreUsable(text: string, read: string -> Option<Object>, i: nat)
    ensures forall es :: (es == ParsedNomads(text) || es == CollectJson(Split(text, '\n'), read))
                         && es.Ok? && i < |es.value| ==>
              var e := es.value[i];
              RangeFits(e.offset, e.length) && e.offset + e.length <= U64_MOD
  {
    hide ParsedNomads;
    hide CollectJson;
    hide Split;
    if ParsedNomads(text).Ok? && i < |ParsedNomads(text).value| {
      NomadsRangesFit(text, i);
    }
    var json := CollectJson(Split(text, '\n'), read);
    if json.Ok? && i < |json.value| {
      JsonRangesFit(Split(text, '\n'), read, i);
    }
  }
}
