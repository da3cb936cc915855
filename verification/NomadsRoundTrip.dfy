/** Printing a NOMADS inventory and parsing it back, with LF or CRLF line ends. */
module NomadsRoundTrip {
  import opened Basics
  import opened Text
  import opened Sidecar

  datatype Tag = NoTag | LowResControl | HiResControl | PlainControl | Member(k: nat)

  /** One inventory record as the producer knows it; a closed one ends with a separator after its last field. */
  datatype Record = Record(
    number: nat, offset: u64, date: string, param: string, level: string, step: string, tag: Tag, closed: bool)

  function TagText(tag: Tag): string {
    match tag
    case NoTag => ""
    case LowResControl => "ENS=" + "low-res ctl"
    case HiResControl => "ENS=" + "hi-res ctl"
    case PlainControl => "ENS=" + "ctl"
    case Member(k) => "ENS=+" + ToString(k)
  }

  /** The fields after the sixth. */
  function Extras(tag: Tag, closed: bool): seq<string> {
    (if tag.NoTag? then [] else [TagText(tag)]) + (if closed then [""] else [])
  }

  function Fields(r: Record): seq<string> {
    [ToString(r.number), ToString(r.offset), "d=" + r.date, r.param, r.level, r.step] + Extras(r.tag, r.closed)
  }

  function Line(r: Record): string {
    Join(Fields(r), ':')
  }

  function PrintIndex(rs: seq<Record>, eol: string): string {
    if rs == [] then "" else Line(rs[0]) + eol + PrintIndex(rs[1..], eol)
  }

  predicate Plain(field: string) {
    ':' !in field && '\n' !in field
  }

  /** Fields free of separators; where the step ends the line, it must not look like a part of the line end. */
  ghost predicate Printable(r: Record) {
    && 1 <= r.number <= U32_MAX
    && Plain(r.date) && Plain(r.param) && Plain(r.level) && Plain(r.step)
    && (r.tag.NoTag? && !r.closed ==> StripCr(r.step) == r.step)
  }

  /** The member a tag stands for; numbers beyond a 32-bit int are not members. */
  function MemberOfTag(tag: Tag): int {
    match tag
    case NoTag => -1
    case Member(k) => if k <= I32_MAX then k else -1
    case _ => 0
  }

  function EntryOf(r: Record): IndexEntry {
    IndexEntry(r.param, r.level, r.step, Line(r), r.offset, 0, r.number, MemberOfTag(r.tag))
  }

  lemma DigitsArePlain(n: nat)
    ensures Plain(ToString(n))
  {
  }

  lemma TagIsPlain(tag: Tag)
    ensures Plain(TagText(tag))
  {
    if tag.Member? {
      DigitsArePlain(tag.k);
      assert "ENS=+"[0] == 'E';
    }
  }

  lemma FieldsArePlain(r: Record)
    requires Printable(r)
    ensures forall f :: f in Fields(r) ==> Plain(f)
  {
    DigitsArePlain(r.number);
    DigitsArePlain(r.offset);
    TagIsPlain(r.tag);
  }

  lemma {:induction false} JoinAvoids(pieces: seq<string>, delim: char, c: char)
    requires pieces != [] && FreeOf(pieces, c) && c != delim
    ensures c !in Join(pieces, delim)
  {
    if |pieces| == 1 {
    } else {
      JoinAvoids(pieces[1..], delim, c);
    }
  }

  lemma {:induction false} JoinEnds(pieces: seq<string>, delim: char)
    requires |pieces| >= 2
    ensures var s, last := Join(pieces, delim), pieces[|pieces| - 1];
            s != "" && s[|s| - 1] == if last == "" then delim else last[|last| - 1]
  {
    if |pieces| == 2 {
    } else {
      JoinEnds(pieces[1..], delim);
    }
  }

  lemma TagEnds(tag: Tag)
    requires !tag.NoTag?
    ensures TagText(tag) != "" && TagText(tag)[|TagText(tag)| - 1] != '\r'
  {
    if tag.Member? {
      var digits := ToString(tag.k);
      assert Digit(digits[|digits| - 1]);
    }
  }

  lemma LastField(r: Record)
    requires Printable(r)
    ensures var f := Fields(r); |f| >= 6 && StripCr(f[|f| - 1]) == f[|f| - 1]
  {
    hide TagText;
    if !r.tag.NoTag? {
      TagEnds(r.tag);
    }
  }

  /** The parts of a printed line the reader relies on. */
  lemma LineShape(r: Record)
    requires Printable(r)
    ensures Split(Line(r), ':') == Fields(r)
    ensures '\n' !in Line(r)
    ensures Line(r) != "" && StripCr(Line(r)) == Line(r)
  {
    hide Fields;
    FieldsArePlain(r);
    LastField(r);
    SplitOfJoin(Fields(r), ':');
    JoinAvoids(Fields(r), ':', '\n');
    JoinEnds(Fields(r), ':');
  }

  // ----- The ensemble tag

  lemma FindAtStart(rest: string)
    requires StartsWith(rest, "ENS=")
    ensures Find(rest, "ENS=", 0) == Some(0)
  {
  }

  lemma TokenOfTag(name: string, rest: string)
    ensures MemberTag("ENS=" + name + rest) == TokenMember(name + rest)
  {
    hide Find;
    hide TokenMember;
    var text := "ENS=" + name + rest;
    FindAtStart(text);
    assert text[4..] == name + rest;
  }

  lemma MemberReadsBack(k: nat, rest: string)
    requires rest != "" && rest[0] == ':'
    ensures MemberTag("ENS=+" + ToString(k) + rest) == if k <= I32_MAX then k else -1
  {
    hide TokenMember;
    var name := "+" + ToString(k);
    ValueOfToString(k);
    TokenOfTag(name, rest);
    assert "ENS=" + name + rest == "ENS=+" + ToString(k) + rest;
    assert name + rest == "+" + (ToString(k) + rest);
    assert (name + rest)[0] == '+';
    SpelledIsRead(name + rest, "+", ToString(k), rest, k);
  }

  lemma ControlReadsBack(name: string, rest: string)
    requires name == "low-res ctl" || name == "hi-res ctl" || name == "ctl"
    ensures MemberTag("ENS=" + name + rest) == 0
  {
    TokenOfTag(name, rest);
  }

  lemma NoTagReadsBack()
    ensures MemberTag("") == -1 && MemberTag(":") == -1
  {
  }

  lemma TrailingOfExtras(tag: Tag, closed: bool)
    ensures Trailing(Extras(tag, closed))
            == (if tag.NoTag? then "" else TagText(tag) + ":") + (if closed then ":" else "")
  {
    var f := Extras(tag, closed);
    assert Trailing([""]) == ":";
    if !tag.NoTag? {
      assert f[1..] == if closed then [""] else [];
    }
  }

  /** A tag reads back as its member, whether or not a separator closes the line. */
  lemma TagReadsBack(tag: Tag, closed: bool)
    ensures MemberTag(Trailing(Extras(tag, closed))) == MemberOfTag(tag)
  {
    hide MemberTag;
    hide Trailing;
    TrailingOfExtras(tag, closed);
    var rest := ":" + if closed then ":" else "";
    assert tag.NoTag? ==> Trailing(Extras(tag, closed)) == if closed then ":" else "";
    assert TagText(tag) + ":" + (if closed then ":" else "") == TagText(tag) + rest;
    match tag
    case NoTag => NoTagReadsBack();
    case Member(k) => MemberReadsBack(k, rest);
    case LowResControl => ControlReadsBack("low-res ctl", rest);
    case HiResControl => ControlReadsBack("hi-res ctl", rest);
    case PlainControl => ControlReadsBack("ctl", rest);
  }

  // ----- One line

  lemma FieldsReadBack(r: Record)
    requires Printable(r)
    ensures ReadFields(Line(r), Fields(r)) == Entry(EntryOf(r))
  {
    hide MemberTag;
    hide ToU64;
    hide TagText;
    var f := Fields(r);
    assert f[0] == ToString(r.number) && f[1] == ToString(r.offset);
    assert f[3] == r.param && f[4] == r.level && f[5] == r.step;
    ToU64OfToString(r.number);
    ToU64OfToString(r.offset);
    assert f[6..] == Extras(r.tag, r.closed);
    TagReadsBack(r.tag, r.closed);
  }

  /** A printed line reads back as its record, with or without a carriage return at its end. */
  lemma LineReadsBack(r: Record)
    requires Printable(r)
    ensures ReadLine(Line(r)) == Entry(EntryOf(r))
    ensures ReadLine(Line(r) + "\r") == Entry(EntryOf(r))
  {
    hide Split;
    hide MemberTag;
    LineShape(r);
    assert (Line(r) + "\r")[..|Line(r)|] == Line(r);
    assert StripCr(Line(r) + "\r") == Line(r);
    FieldsReadBack(r);
  }

  // ----- The whole index

  function Lines(rs: seq<Record>, cr: string): (lines: seq<string>)
    ensures |lines| == |rs| + 1
  {
    if rs == [] then [""] else [Line(rs[0]) + cr] + Lines(rs[1..], cr)
  }

  lemma {:induction false} PrintedLines(rs: seq<Record>, cr: string)
    requires (forall r :: r in rs ==> Printable(r)) && (cr == "" || cr == "\r")
    ensures Split(PrintIndex(rs, cr + "\n"), '\n') == Lines(rs, cr)
    decreases |rs|
  {
    hide Split;
    hide Line;
    hide Printable;
    if rs == [] {
      SplitWhole("", '\n');
    } else {
      assert rs[0] in rs;
      LineShape(rs[0]);
      var head, tail := Line(rs[0]) + cr, PrintIndex(rs[1..], cr + "\n");
      assert Line(rs[0]) + (cr + "\n") + tail == head + ['\n'] + tail;
      SplitAtFirst(head, '\n', tail);
      PrintedLines(rs[1..], cr);
    }
  }

  function EntriesOf(rs: seq<Record>): (es: seq<IndexEntry>)
    ensures |es| == |rs|
  {
    seq(|rs|, i requires 0 <= i < |rs| => EntryOf(rs[i]))
  }

  lemma EmptyLineIsSkipped()
    ensures ReadLine("") == LineOutcome.Skip
  {
  }

  lemma EntriesOfTail(rs: seq<Record>)
    requires rs != []
    ensures EntriesOf(rs) == [EntryOf(rs[0])] + EntriesOf(rs[1..])
  {
  }

  lemma {:induction false} PrintedEntries(rs: seq<Record>, cr: string)
    requires (forall r :: r in rs ==> Printable(r)) && (cr == "" || cr == "\r")
    ensures Collect(Lines(rs, cr)) == Ok(EntriesOf(rs))
    decreases |rs|
  {
    hide Line;
    hide Printable;
    hide ReadLine;
    if rs == [] {
      EmptyLineIsSkipped();
      assert Lines(rs, cr)[1..] == [];
      assert EntriesOf(rs) == [];
    } else {
      assert rs[0] in rs;
      LineReadsBack(rs[0]);
      assert Line(rs[0]) + "" == Line(rs[0]);
      PrintedEntries(rs[1..], cr);
      assert Lines(rs, cr)[1..] == Lines(rs[1..], cr);
      EntriesOfTail(rs);
    }
  }

  ghost predicate OffsetsIncrease(rs: seq<Record>) {
    forall i :: 0 <= i && i + 1 < |rs| ==> rs[i].offset < rs[i + 1].offset
  }

  /** The entry of record i inside the printed index: its own fields, and the distance to the next offset. */
  function PlacedEntry(rs: seq<Record>, i: nat): IndexEntry
    requires i < |rs| && OffsetsIncrease(rs)
  {
    if i + 1 < |rs| then
      assert rs[i].offset < rs[i + 1].offset;
      EntryOf(rs[i]).(length := rs[i + 1].offset - rs[i].offset)
    else EntryOf(rs[i])
  }

  lemma IncreasingEntries(rs: seq<Record>)
    ensures Increasing(EntriesOf(rs)) <==> OffsetsIncrease(rs)
    ensures OffsetsIncrease(rs) ==> forall i :: 0 <= i < |rs| ==> WithLengths(EntriesOf(rs))[i] == PlacedEntry(rs, i)
  {
    hide Line;
    var es := EntriesOf(rs);
    assert forall i :: 0 <= i < |rs| ==> es[i].offset == rs[i].offset;
    if Increasing(es) {
      forall i | 0 <= i && i + 1 < |rs| ensures rs[i].offset < rs[i + 1].offset {
        assert es[i].offset < es[i + 1].offset;
      }
    }
    if OffsetsIncrease(rs) {
      forall i | 0 <= i && i + 1 < |es| ensures es[i].offset < es[i + 1].offset {
        assert rs[i].offset < rs[i + 1].offset;
      }
    }
  }

  /**
   NOMADS round trip. The parse of a printed index is accepted iff its offsets strictly increase, and
   then gives back every field, offset and member, each non-final length being the distance to the next
   offset. CRLF line ends give the same result as LF.
   */
  lemma PrintThenParse(rs: seq<Record>, crlf: bool)
    requires forall r :: r in rs ==> Printable(r)
    ensures var parsed := ParsedNomads(PrintIndex(rs, if crlf then "\r\n" else "\n"));
            if OffsetsIncrease(rs) then
              && parsed.Ok? && |parsed.value| == |rs|
              && forall i :: 0 <= i < |rs| ==> parsed.value[i] == PlacedEntry(rs, i)
            else parsed == Err(ParseError)
  {
    hide PrintIndex;
    hide Line;
    hide Split;
    hide Collect;
    var cr := if crlf then "\r" else "";
    assert cr + "\n" == if crlf then "\r\n" else "\n";
    PrintedLines(rs, cr);
    PrintedEntries(rs, cr);
    IncreasingEntries(rs);
  }

  // ----- Line ends of any text

  function ToCrlf(text: string): string {
    if text == "" then ""
    else (if text[0] == '\n' then "\r\n" else [text[0]]) + ToCrlf(text[1..])
  }

  function WithCr(lines: seq<string>): seq<string>
    requires lines != []
  {
    if |lines| == 1 then lines else [lines[0] + "\r"] + WithCr(lines[1..])
  }

  lemma {:induction false} CrlfOfConcat(a: string, b: string)
    ensures ToCrlf(a + b) == ToCrlf(a) + ToCrlf(b)
    decreases |a|
  {
    if a == "" {
      assert a + b == b;
    } else {
      assert (a + b)[1..] == a[1..] + b && (a + b)[0] == a[0];
      CrlfOfConcat(a[1..], b);
      var first := if a[0] == '\n' then "\r\n" else [a[0]];
      assert ToCrlf(a + b) == first + (ToCrlf(a[1..]) + ToCrlf(b)) == (first + ToCrlf(a[1..])) + ToCrlf(b);
    }
  }

  lemma {:induction false} CrlfOfLine(a: string)
    requires '\n' !in a
    ensures ToCrlf(a) == a
    decreases |a|
  {
    if a == "" {
    } else {
      assert a == [a[0]] + a[1..];
      CrlfOfLine(a[1..]);
    }
  }

  lemma {:induction false} CrlfLines(lines: seq<string>)
    requires lines != [] && FreeOf(lines, '\n')
    ensures ToCrlf(Join(lines, '\n')) == Join(WithCr(lines), '\n')
    ensures FreeOf(WithCr(lines), '\n')
    decreases |lines|
  {
    if |lines| == 1 {
      CrlfOfLine(lines[0]);
    } else {
      var rest := Join(lines[1..], '\n');
      CrlfLines(lines[1..]);
      CrlfOfConcat(lines[0] + ['\n'], rest);
      CrlfOfConcat(lines[0], ['\n']);
      CrlfOfLine(lines[0]);
      assert ToCrlf(['\n']) == "\r\n" by {
        assert ['\n'][1..] == "";
      }
      assert WithCr(lines)[1..] == WithCr(lines[1..]);
      assert lines[0] + "\r\n" + ToCrlf(rest) == lines[0] + "\r" + ['\n'] + ToCrlf(rest);
    }
  }

  /** A carriage return more at the end of a line stays in its last field. */
  lemma {:induction false} SplitWithCr(s: string, delim: char)
    requires delim != '\r'
    ensures var f := Split(s, delim); Split(s + "\r", delim) == f[|f| - 1 := f[|f| - 1] + "\r"]
    decreases |s|
  {
    hide Split;
    match FindChar(s, delim, 0)
    case None =>
      assert s[0..] == s;
      SplitWhole(s, delim);
      SplitWhole(s + "\r", delim);
    case Some(p) =>
      var head, tail := s[..p], s[p + 1..];
      assert s == head + [delim] + tail && s[0..p] == head;
      assert s + "\r" == head + [delim] + (tail + "\r");
      SplitAtFirst(head, delim, tail);
      SplitAtFirst(head, delim, tail + "\r");
      SplitWithCr(tail, delim);
  }

  /** Two outcomes of the same kind and at the same place. */
  ghost predicate Alike(a: LineOutcome, b: LineOutcome) {
    match (a, b)
    case (Skip, Skip) => true
    case (Bad, Bad) => true
    case (Entry(e), Entry(f)) => e.offset == f.offset && e.length == f.length == 0
    case _ => false
  }

  /** A carriage return more never changes what kind of line it is; it changes an entry iff there was one already. */
  lemma LineWithCr(line: string)
    ensures Alike(ReadLine(line), ReadLine(line + "\r"))
    ensures ReadLine(line) == ReadLine(line + "\r") <==> (ReadLine(line).Entry? ==> StripCr(line) == line)
  {
    hide Split;
    hide ToU64;
    hide MemberTag;
    var bare := StripCr(line);
    assert (line + "\r")[..|line|] == line && StripCr(line + "\r") == line;
    if bare != line {
      assert line == bare + "\r";
      SplitWithCr(bare, ':');
      SplitWhole("", ':');
      var f, g := Split(bare, ':'), Split(line, ':');
      if |f| >= 6 {
        assert g[0] == f[0] && g[1] == f[1];
      }
    }
  }

  /** No inventory line but the last piece of text ends in a carriage return. */
  ghost predicate CleanEntries(lines: seq<string>) {
    forall i :: 0 <= i && i + 1 < |lines| ==> (ReadLine(lines[i]).Entry? ==> StripCr(lines[i]) == lines[i])
  }

  lemma NothingBeforeLast(lines: seq<string>)
    requires |lines| == 1
    ensures CleanEntries(lines)
  {
  }

  lemma CleanEntriesStep(lines: seq<string>)
    requires |lines| > 1
    ensures CleanEntries(lines)
            <==> CleanEntries(lines[1..]) && (ReadLine(lines[0]).Entry? ==> StripCr(lines[0]) == lines[0])
  {
    hide ReadLine;
    if CleanEntries(lines[1..]) && (ReadLine(lines[0]).Entry? ==> StripCr(lines[0]) == lines[0]) {
      forall i | 0 <= i && i + 1 < |lines| ensures ReadLine(lines[i]).Entry? ==> StripCr(lines[i]) == lines[i] {
        assert i > 0 ==> lines[i] == lines[1..][i - 1];
      }
    }
    if CleanEntries(lines) {
      forall i | 0 <= i && i + 1 < |lines[1..]|
        ensures ReadLine(lines[1..][i]).Entry? ==> StripCr(lines[1..][i]) == lines[1..][i]
      {
        assert lines[i + 1] == lines[1..][i];
      }
    }
  }

  ghost predicate SamePlaces(a: seq<IndexEntry>, b: seq<IndexEntry>) {
    |a| == |b| && forall i :: 0 <= i < |a| ==> a[i].offset == b[i].offset && a[i].length == b[i].length == 0
  }

  lemma SameLists<T>(x: T, y: T, xs: seq<T>, ys: seq<T>)
    ensures [x] + xs == [y] + ys <==> x == y && xs == ys
  {
    if [x] + xs == [y] + ys {
      assert ([x] + xs)[0] == x && ([y] + ys)[0] == y;
      assert ([x] + xs)[1..] == xs && ([y] + ys)[1..] == ys;
    }
  }

  /** Both parses fail alike, or both give entries at the same places, which are the same iff `clean`. */
  ghost predicate Tracks(
    a: Result<seq<IndexEntry>, ErrorCode>, b: Result<seq<IndexEntry>, ErrorCode>, clean: bool)
  {
    if a.Err? then a == b else b.Ok? && SamePlaces(a.value, b.value) && (a.value == b.value <==> clean)
  }

  /** The parse of a line in front of the parse of the others. */
  ghost function InFront(outcome: LineOutcome, rest: Result<seq<IndexEntry>, ErrorCode>)
    : Result<seq<IndexEntry>, ErrorCode>
  {
    match outcome
    case Skip => rest
    case Bad => Err(ParseError)
    case Entry(e) => After([e], rest)
  }

  lemma TracksInFront(x: LineOutcome, y: LineOutcome, same: bool,
                      a: Result<seq<IndexEntry>, ErrorCode>, b: Result<seq<IndexEntry>, ErrorCode>, clean: bool)
    requires Alike(x, y) && (x == y <==> (x.Entry? ==> same)) && Tracks(a, b, clean)
    ensures Tracks(InFront(x, a), InFront(y, b), clean && (x.Entry? ==> same))
  {
    if x.Entry? && a.Ok? {
      SameLists(x.entry, y.entry, a.value, b.value);
    }
  }

  lemma CollectInFront(lines: seq<string>)
    requires lines != []
    ensures Collect(lines) == InFront(ReadLine(lines[0]), Collect(lines[1..]))
  {
    hide ReadLine;
  }

  lemma SameTracks(lines: seq<string>)
    requires |lines| == 1
    ensures Tracks(Collect(lines), Collect(lines), CleanEntries(lines))
  {
    hide ReadLine;
    hide Collect;
    CollectedLengths(lines);
    NothingBeforeLast(lines);
  }

  lemma {:induction false} CollectWithCr(lines: seq<string>)
    requires lines != []
    ensures Tracks(Collect(lines), Collect(WithCr(lines)), CleanEntries(lines))
    decreases |lines|
  {
    hide ReadLine;
    hide CleanEntries;
    hide Tracks;
    if |lines| == 1 {
      SameTracks(lines);
    } else {
      LineWithCr(lines[0]);
      CleanEntriesStep(lines);
      CollectWithCr(lines[1..]);
      hide Collect;
      assert WithCr(lines)[1..] == WithCr(lines[1..]) && WithCr(lines)[0] == lines[0] + "\r";
      CollectInFront(lines);
      CollectInFront(WithCr(lines));
      TracksInFront(ReadLine(lines[0]), ReadLine(lines[0] + "\r"), StripCr(lines[0]) == lines[0],
                    Collect(lines[1..]), Collect(WithCr(lines[1..])), CleanEntries(lines[1..]));
    }
  }

  lemma SamePlacesParse(a: seq<IndexEntry>, b: seq<IndexEntry>)
    requires SamePlaces(a, b)
    ensures Increasing(a) <==> Increasing(b)
    ensures Increasing(a) ==> (WithLengths(a) == WithLengths(b) <==> a == b)
  {
    if Increasing(a) && WithLengths(a) == WithLengths(b) {
      forall i | 0 <= i < |a| ensures a[i] == b[i] {
        assert WithLength(a, i) == WithLength(b, i);
      }
    }
  }

  /**
   Changing every LF of a text to CRLF changes the parse iff the text is accepted and one of its
   inventory lines already ended in a carriage return; on such lines one of the two stays in the entry.
   */
  lemma CrlfChangesNothingIff(text: string)
    ensures ParsedNomads(ToCrlf(text)) == ParsedNomads(text)
            <==> ParsedNomads(text).Err? || CleanEntries(Split(text, '\n'))
  {
    hide Split;
    hide Collect;
    hide CleanEntries;
    var lines := Split(text, '\n');
    JoinOfSplit(text, '\n');
    CrlfLines(lines);
    SplitOfJoin(WithCr(lines), '\n');
    CollectWithCr(lines);
    if Collect(lines).Ok? {
      SamePlacesParse(Collect(lines).value, Collect(WithCr(lines)).value);
    }
  }

  lemma PrintedIsUnclean(rs: seq<Record>)
    requires rs != [] && Printable(rs[0])
    ensures !CleanEntries(Lines(rs, "\r"))
  {
    hide Line;
    hide ReadLine;
    LineReadsBack(rs[0]);
    LineShape(rs[0]);
    var lines := Lines(rs, "\r");
    assert lines[0] == Line(rs[0]) + "\r" && |lines| >= 2;
    assert lines[0][..|lines[0]| - 1] == Line(rs[0]);
  }

  /** Converting an accepted index that has CRLF line ends already always changes it. */
  lemma CrlfTwiceChangesIndex(rs: seq<Record>)
    requires rs != [] && (forall r :: r in rs ==> Printable(r)) && OffsetsIncrease(rs)
    ensures var text := PrintIndex(rs, "\r\n");
            ParsedNomads(text).Ok? && ParsedNomads(ToCrlf(text)) != ParsedNomads(text)
  {
    hide Split;
    hide ParsedNomads;
    hide CleanEntries;
    hide Line;
    hide Printable;
    assert rs[0] in rs && "\r" + "\n" == "\r\n";
    PrintThenParse(rs, true);
    PrintedLines(rs, "\r");
    PrintedIsUnclean(rs);
    CrlfChangesNothingIff(PrintIndex(rs, "\r\n"));
  }

  lemma OneRecordFields(r: Record)
    requires r == Record(1, 0, "1", "A", "B", "C", NoTag, true)
    ensures Printable(r) && Fields(r) == ["1", "0", "d=1", "A", "B", "C", ""]
  {
    assert ToString(1) == "1" && ToString(0) == "0";
    assert Extras(r.tag, r.closed) == [""];
    assert "d=" + r.date == "d=1";
    assert Fields(r) == [ToString(1), ToString(0), "d=" + r.date, "A", "B", "C"] + [""];
  }

  lemma OneRecordLine(r: Record)
    requires r == Record(1, 0, "1", "A", "B", "C", NoTag, true)
    ensures Printable(r) && Line(r) == "1:0:d=1:A:B:C:"
  {
    hide Fields;
    var f := Fields(r);
    OneRecordFields(r);
    assert Join(f[6..], ':') == "";
    assert Join(f[5..], ':') == "C:";
    assert Join(f[4..], ':') == "B:C:";
    assert Join(f[3..], ':') == "A:B:C:";
    assert Join(f[2..], ':') == "d=1:A:B:C:";
    assert Join(f[1..], ':') == "0:d=1:A:B:C:";
    assert f[0..] == f;
  }

  /** One such index. */
  lemma CrlfChangesThisIndex()
    ensures var text := "1:0:d=1:A:B:C:\r\n";
            ParsedNomads(text).Ok? && ParsedNomads(ToCrlf(text)) != ParsedNomads(text)
  {
    hide ParsedNomads;
    hide ToCrlf;
    hide Line;
    hide Printable;
    var r := Record(1, 0, "1", "A", "B", "C", NoTag, true);
    OneRecordLine(r);
    assert PrintIndex([r], "\r\n") == "1:0:d=1:A:B:C:\r\n" by {
      assert PrintIndex([r][1..], "\r\n") == "";
      assert PrintIndex([r], "\r\n") == Line(r) + "\r\n" + "";
    }
    CrlfTwiceChangesIndex([r]);
  }
}
