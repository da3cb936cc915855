/**
 Byte-range requests and their replies: the request arithmetic of `get_range` and its validation of a
 206 reply (sections 14.1.2, 14.4 and 15.3.7 of RFC 9110).
 */
module HttpRange {
  import opened Basics
  import opened Text

  datatype Response = Response(status: int, headers: seq<(string, string)>, body: seq<byte>)

  /** The negation of the overflow guard: the last requested byte has a 64-bit position. */
  predicate RangeFits(offset: u64, length: u64) {
    length == 0 || length - 1 <= U64_MAX - offset
  }

  /** `offset + length - 1` as the code computes it, wrapping at 2^64 after each operation. */
  function LastWrapped(offset: u64, length: u64): u64 {
    ((offset + length) % U64_MOD - 1) % U64_MOD
  }

  /** The wrapped value is the true one even where the intermediate sum is exactly 2^64. */
  lemma LastIsExact(offset: u64, length: u64)
    requires length > 0 && RangeFits(offset, length)
    ensures LastWrapped(offset, length) == offset + length - 1
  {
  }

  function RangeText(offset: u64, length: u64): string {
    ToString(offset) + "-" + if length > 0 then ToString(LastWrapped(offset, length)) else ""
  }

  // ----- The Content-Range header

  function LowerChar(c: char): char {
    if 'A' <= c <= 'Z' then (c as int + ('a' as int - 'A' as int)) as char else c
  }

  function Lower(s: string): (r: string)
    ensures |r| == |s|
  {
    seq(|s|, i requires 0 <= i < |s| => LowerChar(s[i]))
  }

  method LowerInPlace(name: string) returns (lower: string)
    ensures lower == Lower(name)
  {
    lower := name;
    var i := 0;
    while i < |lower|
      invariant 0 <= i <= |lower| == |name|
      invariant forall j :: 0 <= j < i ==> lower[j] == LowerChar(name[j])
      invariant forall j :: i <= j < |name| ==> lower[j] == name[j]
    {
      var c := lower[i];
      if 'A' <= c <= 'Z' {
        lower := lower[i := (c as int + ('a' as int - 'A' as int)) as char];
      }
      i := i + 1;
    }
  }

  /** The value of the last Content-Range header, whatever its case; empty when there is none. */
  function LastContentRange(headers: seq<(string, string)>): string
    decreases |headers|
  {
    if headers == [] then ""
    else
      var last := headers[|headers| - 1];
      if Lower(last.0) == "content-range" then last.1 else LastContentRange(headers[..|headers| - 1])
  }

  method FindContentRange(headers: seq<(string, string)>) returns (value: string)
    ensures value == LastContentRange(headers)
  {
    value := "";
    var i := 0;
    while i < |headers|
      invariant 0 <= i <= |headers|
      invariant value == LastContentRange(headers[..i])
    {
      var lower := LowerInPlace(headers[i].0);
      assert headers[..i + 1][..i] == headers[..i];
      if lower == "content-range" {
        value := headers[i].1;
      }
      i := i + 1;
    }
    assert headers[..|headers|] == headers;
  }

  /** The same letters, each either small or capital. */
  ghost predicate AnyCase(s: string, small: string, capital: string)
    requires |small| == |capital|
  {
    |s| == |small| && forall i :: 0 <= i < |s| ==> s[i] == small[i] || s[i] == capital[i]
  }

  ghost predicate IsCapital(small: char, capital: char) {
    if 'a' <= small <= 'z' then capital as int == small as int - 32
    else capital == small && !('A' <= small <= 'Z')
  }

  /** Character by character, a small letter and its capital, or twice a character that is no letter. */
  ghost predicate Spellings(small: string, capital: string) {
    |small| == |capital| && forall i :: 0 <= i < |small| ==> IsCapital(small[i], capital[i])
  }

  lemma LowerIsAnyCase(s: string, small: string, capital: string)
    requires Spellings(small, capital)
    ensures Lower(s) == small <==> AnyCase(s, small, capital)
  {
    if Lower(s) == small {
      forall i | 0 <= i < |s| ensures s[i] == small[i] || s[i] == capital[i] {
        assert Lower(s)[i] == LowerChar(s[i]) == small[i];
      }
    }
  }

  /** A header is taken as Content-Range iff each of its characters is that of the name, small or capital. */
  ghost predicate NamesContentRange(name: string) {
    AnyCase(name, "content-range", "CONTENT-RANGE")
  }

  lemma NameIsAnyCase(name: string)
    ensures Lower(name) == "content-range" <==> NamesContentRange(name)
  {
    LowerIsAnyCase(name, "content-range", "CONTENT-RANGE");
  }

  /** Header i is the last one of that name. */
  ghost predicate LastNamed(headers: seq<(string, string)>, i: nat) {
    && i < |headers| && NamesContentRange(headers[i].0)
    && forall j :: i < j < |headers| ==> !NamesContentRange(headers[j].0)
  }

  /** On any headers: the value of the last Content-Range one in any letter case, empty when there is none. */
  lemma {:induction false} LastContentRangeIs(headers: seq<(string, string)>)
    ensures forall i: nat :: LastNamed(headers, i) ==> LastContentRange(headers) == headers[i].1
    ensures (forall i: nat :: !LastNamed(headers, i)) ==> LastContentRange(headers) == ""
    decreases |headers|
  {
    if headers == [] {
    } else {
      var n := |headers| - 1;
      NameIsAnyCase(headers[n].0);
      if Lower(headers[n].0) == "content-range" {
        assert LastNamed(headers, n);
      } else {
        LastContentRangeIs(headers[..n]);
        forall i: nat ensures LastNamed(headers, i) <==> LastNamed(headers[..n], i) {
          assert forall j :: 0 <= j < n ==> headers[..n][j] == headers[j];
        }
      }
    }
  }

  /** A parsed header; the total is None for an unknown size, "*". */
  datatype ContentRange = ContentRange(first: nat, last: nat, total: Option<nat>)

  const UNIT: string := "bytes "

  function ParseContentRange(value: string): Option<ContentRange> {
    if !StartsWith(value, UNIT) then None
    else
      var s := value[|UNIT|..];
      match FromChars(s, U64_MAX)
      case None => None
      case Some(f) =>
        if f.consumed == |s| || s[f.consumed] != '-' then None
        else
          var s2 := s[f.consumed + 1..];
          match FromChars(s2, U64_MAX)
          case None => None
          case Some(l) =>
            if l.consumed == |s2| || s2[l.consumed] != '/' then None
            else
              var total := s2[l.consumed + 1..];
              if total == "*" then Some(ContentRange(f.value, l.value, None))
              else match ToU64(total)
                   case Some(size) => Some(ContentRange(f.value, l.value, Some(size)))
                   case None => None
  }

  /** The checks on the parsed numbers, in the code's 64-bit terms. */
  predicate Checks(offset: u64, length: u64, bodyLen: nat, cr: ContentRange) {
    && bodyLen > 0
    && cr.first == offset && cr.first <= cr.last && cr.last - cr.first == bodyLen - 1
    && (length > 0 ==> bodyLen <= length)
    && match cr.total
       case None => length != 0 && bodyLen == length
       case Some(size) =>
         && cr.last < size
         && cr.last == if length == 0 then size - 1 else Min(LastWrapped(offset, length), size - 1)
  }

  predicate Accepts(offset: u64, length: u64, response: Response) {
    match ParseContentRange(LastContentRange(response.headers))
    case Some(cr) => Checks(offset, length, |response.body|, cr)
    case None => false
  }

  function RangeResult(offset: u64, length: u64, server: string -> Result<Response, ErrorCode>)
    : Result<Response, ErrorCode>
  {
    if !RangeFits(offset, length) then Err(InvalidRequest)
    else
      match server(RangeText(offset, length))
      case Err(e) => Err(e)
      case Ok(response) =>
        if 200 <= response.status < 300 && (response.status != 206 || !Accepts(offset, length, response))
        then Err(NetworkError)
        else Ok(response)
  }

  method ValidatePartial(offset: u64, length: u64, value: string, bodyLen: nat) returns (valid: bool)
    ensures valid == match ParseContentRange(value)
                     case Some(cr) => Checks(offset, length, bodyLen, cr)
                     case None => false
  {
    hide FromChars;
    hide ToU64;
    if !StartsWith(value, UNIT) || bodyLen == 0 {
      return false;
    }
    var rest := value[|UNIT|..];
    var first := FromChars(rest, U64_MAX);
    if first.None? || first.value.consumed == |rest| || rest[first.value.consumed] != '-' {
      return false;
    }
    rest := rest[first.value.consumed + 1..];
    var last := FromChars(rest, U64_MAX);
    if last.None? || last.value.consumed == |rest| || rest[last.value.consumed] != '/' {
      return false;
    }
    var f, l := first.value.value, last.value.value;
    if f != offset || l < f || l - f != bodyLen - 1 || (length > 0 && bodyLen > length) {
      return false;
    }
    var total := rest[last.value.consumed + 1..];
    if total == "*" {
      return !(length == 0 || bodyLen != length);
    }
    var size := ToU64(total);
    if size.None? || size.value <= l {
      return false;
    }
    return l == if length == 0 then size.value - 1 else Min(LastWrapped(offset, length), size.value - 1);
  }

  /** `server` stands for `perform`: an arbitrary reply to the range text. */
  method GetRange(offset: u64, length: u64, server: string -> Result<Response, ErrorCode>)
    returns (r: Result<Response, ErrorCode>)
    ensures r == RangeResult(offset, length, server)
  {
    hide ToString;
    hide FromChars;
    hide ToU64;
    if length > 0 && length - 1 > U64_MAX - offset {
      return Err(InvalidRequest);
    }
    var range := ToString(offset) + "-";
    if length > 0 {
      range := range + ToString(LastWrapped(offset, length));
    }
    assert range == RangeText(offset, length);
    var reply := server(range);
    if reply.Err? {
      return Err(reply.error);
    }
    var response := reply.value;
    if 200 <= response.status < 300 && response.status != 206 {
      return Err(NetworkError);
    }
    if response.status == 206 {
      var value := FindContentRange(response.headers);
      var valid := ValidatePartial(offset, length, value, |response.body|);
      if !valid {
        return Err(NetworkError);
      }
    }
    return Ok(response);
  }

  // ----- The header's grammar, independently of the parser (section 14.4 of RFC 9110)

  /** A character of a token, section 5.6.2. */
  predicate TokenChar(c: char) {
    Digit(c) || 'a' <= c <= 'z' || 'A' <= c <= 'Z' || c in "!#$%&'*+-.^_`|~"
  }

  /** range-unit = token */
  predicate RangeUnit(unit: string) {
    unit != "" && forall i :: 0 <= i < |unit| ==> TokenChar(unit[i])
  }

  /** A range of a representation, or only the size of one that the requested range was outside of. */
  datatype RangeHeader = Resp(range: ContentRange) | Unsatisfied(size: nat)

  /** 1*DIGIT, of any size */
  ghost predicate Numeral(s: string, n: nat) {
    s != "" && AllDigits(s) && Value(s) == n
  }

  ghost predicate TotalText(t: string, total: Option<nat>) {
    match total
    case None => t == "*"
    case Some(n) => Numeral(t, n)
  }

  /** range-resp = first-pos "-" last-pos "/" ( complete-length / "*" ) */
  ghost predicate RespSpelled(body: string, f: string, l: string, t: string, cr: ContentRange) {
    && body == f + ("-" + (l + ("/" + t)))
    && Numeral(f, cr.first) && Numeral(l, cr.last) && TotalText(t, cr.total)
  }

  ghost predicate RespText(body: string, cr: ContentRange) {
    exists f, l, t :: RespSpelled(body, f, l, t, cr)
  }

  /** unsatisfied-range = "*" "/" complete-length */
  ghost predicate UnsatisfiedText(body: string, size: nat) {
    StartsWith(body, "*/") && Numeral(body[2..], size)
  }

  /** Content-Range = range-unit SP ( range-resp / unsatisfied-range ) */
  ghost predicate Denotes(value: string, unit: string, h: RangeHeader) {
    && RangeUnit(unit) && StartsWith(value, unit + " ")
    && match h
       case Resp(cr) => RespText(value[|unit| + 1..], cr)
       case Unsatisfied(size) => UnsatisfiedText(value[|unit| + 1..], size)
  }

  /** Names of range units are case-insensitive, section 14.1. */
  ghost predicate IsBytes(unit: string) {
    AnyCase(unit, "bytes", "BYTES")
  }

  predicate Fits64(cr: ContentRange) {
    cr.first <= U64_MAX && cr.last <= U64_MAX && (cr.total.Some? ==> cr.total.value <= U64_MAX)
  }

  /** What the parser can read of the grammar: the lower-case unit, and numbers below 2^64. */
  predicate Readable(unit: string, h: RangeHeader) {
    unit == "bytes" && h.Resp? && Fits64(h.range)
  }

  lemma NumeralReads(s: string, n: nat, rest: string)
    requires Numeral(s, n) && (rest != "" ==> !Digit(rest[0]))
    ensures FromChars(s + rest, U64_MAX) == if n <= U64_MAX then Some(Parsed(n, |s|)) else None
    ensures (s + rest)[|s|..] == rest
  {
    FromCharsOf(s, rest, U64_MAX);
  }

  lemma TotalReads(t: string, total: Option<nat>)
    requires TotalText(t, total)
    ensures t == "*" <==> total.None?
    ensures total.Some? ==> ToU64(t) == if total.value <= U64_MAX then total else None
  {
    ToU64Exact(t);
    assert total.Some? ==> Digit(t[0]);
  }

  lemma RespReads(value: string, f: string, l: string, t: string, cr: ContentRange)
    requires StartsWith(value, UNIT) && RespSpelled(value[|UNIT|..], f, l, t, cr)
    ensures ParseContentRange(value) == if Fits64(cr) then Some(cr) else None
  {
    hide FromChars;
    hide ToU64;
    hide Numeral;
    var tail := "/" + t;
    var mid := "-" + (l + tail);
    NumeralReads(f, cr.first, mid);
    assert (f + mid)[|f|] == '-' && (f + mid)[|f| + 1..] == l + tail;
    NumeralReads(l, cr.last, tail);
    assert (l + tail)[|l|] == '/' && (l + tail)[|l| + 1..] == t;
    TotalReads(t, cr.total);
  }

  /** A value has at most one unit: it ends at the first space. */
  lemma UnitEndsAtSpace(value: string, unit: string, other: string)
    requires RangeUnit(unit) && RangeUnit(other) && StartsWith(value, unit + " ") && StartsWith(value, other + " ")
    ensures unit == other
  {
    assert value[|unit|] == ' ' == value[|other|];
    assert forall i :: 0 <= i < |unit| ==> value[i] == unit[i] && TokenChar(value[i]);
    assert forall i :: 0 <= i < |other| ==> value[i] == other[i] && TokenChar(value[i]);
  }

  /** Of the grammar the parser reads exactly the readable part, and reads it as what it denotes. */
  lemma GrammarIsReadIff(value: string, unit: string, h: RangeHeader)
    requires Denotes(value, unit, h)
    ensures ParseContentRange(value) == if Readable(unit, h) then Some(h.range) else None
  {
    hide Numeral;
    assert RangeUnit("bytes") && "bytes" + " " == UNIT;
    if StartsWith(value, UNIT) {
      UnitEndsAtSpace(value, unit, "bytes");
      var body := value[|UNIT|..];
      match h
      case Resp(cr) =>
        var f, l, t :| RespSpelled(body, f, l, t, cr);
        RespReads(value, f, l, t, cr);
      case Unsatisfied(_) =>
        assert body[0] == '*';
    }
  }

  lemma ParsedNumeral(s: string)
    requires FromChars(s, U64_MAX).Some?
    ensures var p := FromChars(s, U64_MAX).value; p.consumed <= |s| && Numeral(s[..p.consumed], p.value)
  {
  }

  lemma TotalIsSpelled(t: string)
    ensures ToU64(t).Some? ==> Numeral(t, ToU64(t).value) && ToU64(t).value <= U64_MAX
  {
    ToU64Exact(t);
  }

  lemma ParsedIsSpelled(value: string)
    requires ParseContentRange(value).Some?
    ensures RespText(value[|UNIT|..], ParseContentRange(value).value) && Fits64(ParseContentRange(value).value)
  {
    hide FromChars;
    hide ToU64;
    hide Numeral;
    var s := value[|UNIT|..];
    ParsedNumeral(s);
    var i := FromChars(s, U64_MAX).value.consumed;
    var s2 := s[i + 1..];
    ParsedNumeral(s2);
    var j := FromChars(s2, U64_MAX).value.consumed;
    var t := s2[j + 1..];
    TotalIsSpelled(t);
    assert s == s[..i] + ("-" + s2);
    assert s2 == s2[..j] + ("/" + t);
    assert RespSpelled(s, s[..i], s2[..j], t, ParseContentRange(value).value);
  }

  /** The parser's language: the range-resp values of the grammar with a lower-case unit and numbers below 2^64. */
  lemma ParserIsGrammar(value: string, cr: ContentRange)
    ensures ParseContentRange(value) == Some(cr) <==> Denotes(value, "bytes", Resp(cr)) && Fits64(cr)
  {
    hide RespText;
    hide FromChars;
    if Denotes(value, "bytes", Resp(cr)) {
      GrammarIsReadIff(value, "bytes", Resp(cr));
    }
    if ParseContentRange(value) == Some(cr) {
      ParsedIsSpelled(value);
      assert RangeUnit("bytes") && "bytes" + " " == UNIT;
    }
  }

  /** The unit in another case is still a byte range by the standard, but is not read. */
  lemma CapitalUnitIsRefused()
    ensures Denotes("Bytes 0-4/5", "Bytes", Resp(ContentRange(0, 4, Some(5)))) && IsBytes("Bytes")
    ensures ParseContentRange("Bytes 0-4/5") == None
  {
    hide ParseContentRange;
    var h := Resp(ContentRange(0, 4, Some(5)));
    assert "Bytes 0-4/5"[6..] == "0" + ("-" + ("4" + ("/" + "5")));
    assert RespSpelled("Bytes 0-4/5"[6..], "0", "4", "5", h.range);
    GrammarIsReadIff("Bytes 0-4/5", "Bytes", h);
  }

  lemma UnsatisfiedIsRefused()
    ensures Denotes("bytes */5", "bytes", Unsatisfied(5)) && ParseContentRange("bytes */5") == None
  {
    hide ParseContentRange;
    assert "bytes */5"[6..][2..] == "5";
    GrammarIsReadIff("bytes */5", "bytes", Unsatisfied(5));
  }

  // ----- Which replies are accepted

  /** The reply holds exactly the requested bytes of a representation of the stated size. */
  ghost predicate Satisfies(offset: nat, length: nat, bodyLen: nat, cr: ContentRange) {
    && cr.first == offset && cr.first <= cr.last && bodyLen == cr.last - cr.first + 1
    && match cr.total
       case None => length > 0 && bodyLen == length
       case Some(size) =>
         cr.last < size && cr.last == if length == 0 then size - 1 else Min(offset + length - 1, size - 1)
  }

  /** By the standard's reading of its own header, the reply carries exactly the requested bytes. */
  ghost predicate Delivers(offset: u64, length: u64, response: Response, unit: string, cr: ContentRange) {
    && IsBytes(unit) && Denotes(LastContentRange(response.headers), unit, Resp(cr))
    && Satisfies(offset, length, |response.body|, cr)
  }

  ghost predicate DeliversReadably(offset: u64, length: u64, response: Response) {
    exists unit, cr :: Delivers(offset, length, response, unit, cr) && Readable(unit, Resp(cr))
  }

  lemma ChecksAreSatisfies(offset: u64, length: u64, bodyLen: nat, cr: ContentRange)
    requires RangeFits(offset, length)
    ensures Checks(offset, length, bodyLen, cr) <==> Satisfies(offset, length, bodyLen, cr)
  {
    hide LastWrapped;
    if length > 0 {
      LastIsExact(offset, length);
    }
  }

  /** A 206 reply is accepted iff its header denotes, readably, a range that satisfies the request. */
  lemma AcceptanceIsExact(offset: u64, length: u64, response: Response)
    requires RangeFits(offset, length)
    ensures Accepts(offset, length, response) <==> DeliversReadably(offset, length, response)
  {
    hide ParseContentRange;
    hide Denotes;
    hide LastContentRange;
    hide Checks;
    hide Satisfies;
    hide Fits64;
    var value := LastContentRange(response.headers);
    if Accepts(offset, length, response) {
      var cr := ParseContentRange(value).value;
      ParserIsGrammar(value, cr);
      ChecksAreSatisfies(offset, length, |response.body|, cr);
      assert Delivers(offset, length, response, "bytes", cr) && Readable("bytes", Resp(cr));
    }
    if unit, cr :| Delivers(offset, length, response, unit, cr) && Readable(unit, Resp(cr)) {
      ParserIsGrammar(value, cr);
      ChecksAreSatisfies(offset, length, |response.body|, cr);
    }
  }

  /** Of the replies that deliver the range by the standard, exactly the readable ones are accepted. */
  lemma DeliveredIsAcceptedIff(offset: u64, length: u64, response: Response, unit: string, cr: ContentRange)
    requires RangeFits(offset, length) && Delivers(offset, length, response, unit, cr)
    ensures Accepts(offset, length, response) <==> Readable(unit, Resp(cr))
  {
    hide ParseContentRange;
    hide Denotes;
    hide LastContentRange;
    hide Checks;
    hide Satisfies;
    GrammarIsReadIff(LastContentRange(response.headers), unit, Resp(cr));
    ChecksAreSatisfies(offset, length, |response.body|, cr);
  }

  /**
   What a caller gets from `get_range`, for every server: an error before anything is sent iff the range
   ends beyond 64 bits; the server's errors and its replies outside 2xx as they are; and of its 2xx
   replies exactly the 206 ones that deliver the range readably.
   */
  lemma RangeOutcomes(offset: u64, length: u64, server: string -> Result<Response, ErrorCode>)
    ensures var r, reply := RangeResult(offset, length, server), server(RangeText(offset, length));
            && (offset + length > U64_MOD ==> r == Err(InvalidRequest))
            && (offset + length <= U64_MOD && reply.Err? ==> r == reply)
            && (offset + length <= U64_MOD && reply.Ok? && !(200 <= reply.value.status < 300) ==> r == reply)
            && (offset + length <= U64_MOD && reply.Ok? && 200 <= reply.value.status < 300 ==>
                  r == if reply.value.status == 206 && DeliversReadably(offset, length, reply.value) then reply
                       else Err(NetworkError))
  {
    hide RangeText;
    hide Accepts;
    hide DeliversReadably;
    if RangeFits(offset, length) && server(RangeText(offset, length)).Ok? {
      AcceptanceIsExact(offset, length, server(RangeText(offset, length)).value);
    }
  }
}
