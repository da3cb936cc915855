/**
 Collecting a reply from the transport: body chunks under a size limit, and header lines of which only
 those of the last response count. The transport stops as soon as a callback takes fewer bytes than given.
 */
module ResponseSink {
  import opened Basics
  import opened Text

  type Header = (string, string)

  predicate Blank(c: char) {
    c == ' ' || c == '\t' || c == '\r' || c == '\n'
  }

  predicate AllBlank(s: string) {
    forall i :: 0 <= i < |s| ==> Blank(s[i])
  }

  function FirstNotBlank(s: string): (k: nat)
    ensures k <= |s| && AllBlank(s[..k]) && (k < |s| ==> !Blank(s[k]))
  {
    if s == "" || !Blank(s[0]) then 0
    else
      var k := 1 + FirstNotBlank(s[1..]);
      assert forall i :: 0 < i < k ==> s[..k][i] == s[1..][..k - 1][i - 1];
      k
  }

  /** One past the last character that is not blank. */
  function LastNotBlank(s: string): (k: nat)
    ensures k <= |s| && AllBlank(s[k..]) && (k > 0 ==> !Blank(s[k - 1]))
    decreases |s|
  {
    if s == "" || !Blank(s[|s| - 1]) then |s|
    else
      var k := LastNotBlank(s[..|s| - 1]);
      assert forall i :: 0 <= i < |s| - 1 - k ==> s[k..][i] == s[..|s| - 1][k..][i];
      k
  }

  lemma TrimBounds(s: string)
    requires FirstNotBlank(s) < |s|
    ensures FirstNotBlank(s) < LastNotBlank(s)
  {
  }

  function Trim(s: string): string {
    if FirstNotBlank(s) == |s| then ""
    else
      TrimBounds(s);
      s[FirstNotBlank(s)..LastNotBlank(s)]
  }

  /** What one header line adds: nothing without a colon. */
  function Added(line: string): seq<Header> {
    match FindChar(line, ':', 0)
    case None => []
    case Some(colon) => [(line[..colon], Trim(line[colon + 1..]))]
  }

  function HeadersAfter(headers: seq<Header>, line: string): seq<Header> {
    (if StartsWith(line, "HTTP/") then [] else headers) + Added(line)
  }

  function Collected(headers: seq<Header>, lines: seq<string>): seq<Header>
    decreases |lines|
  {
    if lines == [] then headers else Collected(HeadersAfter(headers, lines[0]), lines[1..])
  }

  /** The body after one chunk, and whether the chunk was taken. */
  datatype Intake = Intake(body: seq<byte>, taken: bool)

  function Take(limit: nat, body: seq<byte>, chunk: seq<byte>): Intake
    requires limit > 0 ==> |body| <= limit
  {
    if limit > 0 && |chunk| > limit - |body| then Intake(body, false)
    else Intake(body + chunk, true)
  }

  lemma ProductFits(size: nat, count: nat)
    requires size > 0
    ensures count > U64_MAX / size <==> size * count > U64_MAX
  {
    var q := U64_MAX / size;
    assert q * size <= U64_MAX < (q + 1) * size;
    if count <= q {
      ProductIsMonotone(count, q, size);
    } else {
      ProductIsMonotone(q + 1, count, size);
    }
    assert size * count == count * size;
  }

  class Sink {
    const limit: nat
    var headers: seq<Header>
    var body: seq<byte>
    var overflowed: bool

    ghost predicate Valid()
      reads this
    {
      limit > 0 ==> |body| <= limit
    }

    constructor (limit: nat)
      ensures Valid() && this.limit == limit && headers == [] && body == [] && !overflowed
    {
      this.limit, headers, body, overflowed := limit, [], [], false;
    }

    method WriteCallback(data: seq<byte>, size: nat, count: nat) returns (taken: nat)
      requires Valid() && size <= U64_MAX && count <= U64_MAX
      requires size * count <= U64_MAX ==> |data| == size * count
      modifies this`body, this`overflowed
      ensures Valid()
      ensures size * count > U64_MAX ==> taken == 0 && body == old(body) && overflowed == old(overflowed)
      ensures size * count <= U64_MAX ==>
                var intake := Take(limit, old(body), data);
                body == intake.body && (taken == if intake.taken then |data| else 0)
      ensures size * count <= U64_MAX ==>
                if limit == 0 || |old(body)| + |data| <= limit
                then body == old(body) + data && taken == |data| && overflowed == old(overflowed)
                else body == old(body) && taken == 0 && overflowed
    {
      if size > 0 {
        ProductFits(size, count);
      }
      if size != 0 && count > U64_MAX / size {
        return 0;
      }
      var bytes := size * count;
      if limit > 0 && bytes > limit - |body| {
        overflowed := true;
        return 0;
      }
      body := body + data;
      return bytes;
    }

    method HeaderCallback(line: string, size: nat, count: nat) returns (taken: nat)
      requires size <= U64_MAX && count <= U64_MAX
      requires size * count <= U64_MAX ==> |line| == size * count
      modifies this`headers
      ensures size * count > U64_MAX ==> taken == 0 && headers == old(headers)
      ensures size * count <= U64_MAX ==> headers == HeadersAfter(old(headers), line) && taken == |line|
    {
      hide StartsWith;
      hide Trim;
      if size > 0 {
        ProductFits(size, count);
      }
      if size != 0 && count > U64_MAX / size {
        return 0;
      }
      if StartsWith(line, "HTTP/") {
        headers := [];
      }
      var colon := FindChar(line, ':', 0);
      if colon.Some? {
        headers := headers + [(line[..colon.value], Trim(line[colon.value + 1..]))];
      }
      return size * count;
    }
  }

  /** What the sink holds after the transport's chunks, and whether all of them were taken. */
  function Delivered(limit: nat, body: seq<byte>, chunks: seq<seq<byte>>): (seq<byte>, bool)
    requires limit > 0 ==> |body| <= limit
    decreases |chunks|
  {
    if chunks == [] then (body, true)
    else
      var intake := Take(limit, body, chunks[0]);
      if intake.taken then Delivered(limit, intake.body, chunks[1..]) else (intake.body, false)
  }

  function Concat(chunks: seq<seq<byte>>): seq<byte> {
    if chunks == [] then [] else chunks[0] + Concat(chunks[1..])
  }

  /** However the body is cut into chunks, all of it arrives iff it fits the limit, and never more than that. */
  lemma {:induction false} DeliveredIffFits(limit: nat, body: seq<byte>, chunks: seq<seq<byte>>)
    requires limit > 0 ==> |body| <= limit
    ensures var (held, complete) := Delivered(limit, body, chunks);
            && (complete <==> limit == 0 || |body + Concat(chunks)| <= limit)
            && held <= body + Concat(chunks)
            && (complete ==> held == body + Concat(chunks))
            && (limit > 0 ==> |held| <= limit)
    decreases |chunks|
  {
    if chunks == [] {
    } else {
      var rest := Concat(chunks[1..]);
      assert body + (chunks[0] + rest) == (body + chunks[0]) + rest;
      if Take(limit, body, chunks[0]).taken {
        DeliveredIffFits(limit, body + chunks[0], chunks[1..]);
      }
    }
  }

  // ----- Headers of the last response

  lemma {:induction false} CollectedConcat(headers: seq<Header>, l1: seq<string>, l2: seq<string>)
    ensures Collected(headers, l1 + l2) == Collected(Collected(headers, l1), l2)
    decreases |l1|
  {
    if l1 == [] {
      assert l1 + l2 == l2;
    } else {
      assert (l1 + l2)[1..] == l1[1..] + l2;
      CollectedConcat(HeadersAfter(headers, l1[0]), l1[1..], l2);
    }
  }

  lemma StatusForgets(headers: seq<Header>, status: string)
    requires StartsWith(status, "HTTP/")
    ensures HeadersAfter(headers, status) == HeadersAfter([], status)
  {
  }

  /** Whatever was collected before, a status line starts over: a redirect's headers never leak into the reply. */
  lemma OnlyLastResponseCounts(headers: seq<Header>, before: seq<string>, status: string, after: seq<string>)
    requires StartsWith(status, "HTTP/")
    ensures Collected(headers, before + [status] + after) == Collected([], [status] + after)
  {
    hide HeadersAfter;
    assert before + [status] + after == before + ([status] + after);
    CollectedConcat(headers, before, [status] + after);
    assert ([status] + after)[1..] == after;
    StatusForgets(Collected(headers, before), status);
  }

  /** Nothing but blanks, tabs, carriage returns and line feeds. */
  ghost predicate Padding(s: string) {
    forall c :: c in s ==> c in " \t\r\n"
  }

  /** A value that survives trimming: empty, or with no such character at either end. */
  predicate Trimmed(value: string) {
    value != "" ==> value[0] !in " \t\r\n" && value[|value| - 1] !in " \t\r\n"
  }

  lemma {:induction false} FirstNotBlankIs(s: string, k: nat)
    requires k <= |s| && AllBlank(s[..k]) && (k < |s| ==> !Blank(s[k]))
    ensures FirstNotBlank(s) == k
    decreases k
  {
  }

  lemma {:induction false} LastNotBlankIs(s: string, k: nat)
    requires k <= |s| && AllBlank(s[k..]) && (k > 0 ==> !Blank(s[k - 1]))
    ensures LastNotBlank(s) == k
    decreases |s|
  {
  }

  lemma PaddingIsBlank(s: string)
    ensures Padding(s) <==> AllBlank(s)
  {
    assert forall i :: 0 <= i < |s| ==> s[i] in s;
  }

  /** Trimming removes exactly the blanks around a trimmed value. */
  lemma TrimOfPadded(left: string, value: string, right: string)
    requires Padding(left) && Padding(right) && Trimmed(value)
    ensures Trim(left + value + right) == value
  {
    var s := left + value + right;
    PaddingIsBlank(left);
    PaddingIsBlank(right);
    if value == "" {
      assert s[..|s|] == s && forall i :: 0 <= i < |s| ==> Blank(s[i]);
      FirstNotBlankIs(s, |s|);
    } else {
      assert s[..|left|] == left && s[|left| + |value|..] == right;
      FirstNotBlankIs(s, |left|);
      LastNotBlankIs(s, |left| + |value|);
      assert s[|left|..|left| + |value|] == value;
    }
  }

  /** A line without a colon adds nothing; otherwise it adds its name and the trimmed rest, later colons included. */
  lemma LineAdds(name: string, left: string, value: string, right: string)
    requires ':' !in name && Padding(left) && Padding(right) && Trimmed(value)
    ensures Added(name) == []
    ensures Added(name + [':'] + (left + value + right)) == [(name, value)]
  {
    hide Trim;
    var line := name + [':'] + (left + value + right);
    assert name[0..] == name;
    assert line[0..|name|] == name && line[..|name|] == name && line[|name| + 1..] == left + value + right;
    FindCharIs(line, ':', 0, |name|);
    TrimOfPadded(left, value, right);
  }

  function HeaderLine(h: Header): string {
    h.0 + [':'] + (" " + h.1 + "\r\n")
  }

  ghost predicate Sendable(h: Header) {
    ':' !in h.0 && !StartsWith(h.0 + [':'], "HTTP/") && Trimmed(h.1)
  }

  lemma PosesAsStatus(name: string, rest: string)
    ensures StartsWith(name + [':'] + rest, "HTTP/") ==> StartsWith(name + [':'], "HTTP/")
  {
    var line := name + [':'] + rest;
    assert line[|name|] == ':';
    assert forall i :: 0 <= i < 5 ==> "HTTP/"[i] != ':';
    assert StartsWith(line, "HTTP/") ==> forall i :: 0 <= i < 5 ==> line[i] == "HTTP/"[i];
  }

  /** A header sent on its own line is collected as it was, unless its name poses as a status line. */
  lemma HeaderReadsBack(headers: seq<Header>, h: Header)
    requires Sendable(h)
    ensures HeadersAfter(headers, HeaderLine(h)) == headers + [h]
  {
    LineAdds(h.0, " ", h.1, "\r\n");
    PosesAsStatus(h.0, " " + h.1 + "\r\n");
  }

  function HeaderLines(hs: seq<Header>): seq<string> {
    if hs == [] then [] else [HeaderLine(hs[0])] + HeaderLines(hs[1..])
  }

  lemma {:induction false} LinesReadBack(headers: seq<Header>, hs: seq<Header>)
    requires forall h :: h in hs ==> Sendable(h)
    ensures Collected(headers, HeaderLines(hs)) == headers + hs
    decreases |hs|
  {
    hide Sendable;
    hide HeaderLine;
    hide HeadersAfter;
    if hs == [] {
    } else {
      assert hs[0] in hs;
      HeaderReadsBack(headers, hs[0]);
      LinesReadBack(headers + [hs[0]], hs[1..]);
      assert headers + [hs[0]] + hs[1..] == headers + hs;
    }
  }

  lemma BlankLineAddsNothing(headers: seq<Header>)
    ensures Collected(headers, ["\r\n"]) == headers
  {
    assert ["\r\n"][1..] == [];
    assert ':' !in "\r\n" && Added("\r\n") == [];
    assert HeadersAfter(headers, "\r\n") == headers;
  }

  /**
   After any number of earlier responses, the collected headers are exactly those sent with the last
   one, in order; the blank line after them adds nothing, and a status line with a colon in its reason
   one entry of its own in front.
   */
  lemma WireRoundTrip(before: seq<string>, status: string, hs: seq<Header>)
    requires StartsWith(status, "HTTP/") && forall h :: h in hs ==> Sendable(h)
    ensures Collected([], before + [status] + (HeaderLines(hs) + ["\r\n"])) == Added(status) + hs
  {
    hide Added;
    var after := HeaderLines(hs) + ["\r\n"];
    OnlyLastResponseCounts([], before, status, after);
    assert ([status] + after)[1..] == after;
    assert HeadersAfter([], status) == Added(status);
    LinesReadBack(Added(status), hs);
    CollectedConcat(Added(status), HeaderLines(hs), ["\r\n"]);
    BlankLineAddsNothing(Added(status) + hs);
  }
}
