/**
 The pipeline from index to message: a file of well-formed messages, its printed index of either kind, a
 server that honours byte ranges, the collecting of its reply, and the framing of what was sent.
 */
module EndToEnd {
  import opened Basics
  import opened Text
  import opened Sidecar
  import opened NomadsRoundTrip
  import opened HttpRange
  import opened ResponseSink
  import E = EcmwfIndex
  import opened Framing
  import opened FramingStreams

  // ----- A server that honours ranges (section 14.1.2 of RFC 9110)

  datatype RangeSpec = RangeSpec(first: nat, last: Option<nat>)

  /** int-range = first-pos "-" [ last-pos ] */
  function ReadRange(range: string): Option<RangeSpec> {
    match FromChars(range, U64_MAX)
    case None => None
    case Some(f) =>
      if f.consumed == |range| || range[f.consumed] != '-' then None
      else
        var rest := range[f.consumed + 1..];
        if rest == "" then Some(RangeSpec(f.value, None))
        else match ToU64(rest)
             case None => None
             case Some(l) => Some(RangeSpec(f.value, Some(l)))
  }

  /** The last position sent: the requested one, or the last of the file when that comes first. */
  function LastSent(spec: RangeSpec, size: nat): int {
    match spec.last
    case None => size - 1
    case Some(l) => Min(l, size - 1)
  }

  function SentHeader(first: nat, last: nat, size: nat): string {
    UNIT + (ToString(first) + ("-" + (ToString(last) + ("/" + ToString(size)))))
  }

  /** What the server has to say: a status, the value of Content-Range if there is one, and the body. */
  datatype Reply = Reply(status: int, contentRange: Option<string>, body: seq<byte>)

  /** 206 with exactly the requested bytes, or a refusal. */
  function Serve(file: seq<byte>, range: string): Reply {
    match ReadRange(range)
    case None => Reply(400, None, [])
    case Some(spec) =>
      var last := LastSent(spec, |file|);
      if spec.first >= |file| || last < spec.first then Reply(416, None, [])
      else Reply(206, Some(SentHeader(spec.first, last, |file|)), file[spec.first..last + 1])
  }

  /**
   How a reply travels: the header lines of earlier responses, the status line, the other headers in
   front of and behind Content-Range, how the body is cut into chunks, and the caller's size limit.
   */
  datatype Wire = Wire(
    before: seq<string>, status: string, front: seq<Header>, back: seq<Header>,
    cut: seq<byte> -> seq<seq<byte>>, limit: nat)

  ghost predicate Carries(w: Wire) {
    && StartsWith(w.status, "HTTP/")
    && (forall h :: h in w.front || h in w.back ==> Sendable(h))
    && (forall h :: h in w.back ==> !NamesContentRange(h.0))
    && (forall body :: Concat(w.cut(body)) == body)
  }

  /** The reply may be as long as the caller's limit allows. */
  predicate WithinLimit(w: Wire, size: nat) {
    w.limit == 0 || size <= w.limit
  }

  function SentHeaders(w: Wire, reply: Reply): seq<Header> {
    w.front + (match reply.contentRange case Some(v) => [("Content-Range", v)] case None => []) + w.back
  }

  /** What `perform` returns: the collected reply, or an error when the body exceeds the limit. */
  function Transfer(w: Wire, reply: Reply): Result<Response, ErrorCode> {
    var lines := w.before + [w.status] + (HeaderLines(SentHeaders(w, reply)) + ["\r\n"]);
    var (held, complete) := Delivered(w.limit, [], w.cut(reply.body));
    if complete then Ok(Response(reply.status, Collected([], lines), held)) else Err(InvalidRequest)
  }

  /** `get_range` against this server. */
  function Fetch(file: seq<byte>, w: Wire, offset: u64, length: u64): Result<Response, ErrorCode> {
    RangeResult(offset, length, range => Transfer(w, Serve(file, range)))
  }

  /** A number, a dash and what follows are read as written. */
  lemma RangeSpecReads(first: nat, tail: string, last: Option<nat>)
    requires first <= U64_MAX && (if tail == "" then last.None? else ToU64(tail) == last && last.Some?)
    ensures ReadRange(ToString(first) + ("-" + tail)) == Some(RangeSpec(first, last))
  {
    hide FromChars;
    hide ToU64;
    hide ToString;
    var f := ToString(first);
    ValueOfToString(first);
    NumeralReads(f, first, "-" + tail);
    assert (f + ("-" + tail))[|f| + 1..] == tail;
  }

  lemma RangeTextReadsBack(offset: u64, length: u64)
    requires RangeFits(offset, length)
    ensures ReadRange(RangeText(offset, length))
            == Some(RangeSpec(offset, if length == 0 then None else Some(offset + length - 1)))
  {
    hide ReadRange;
    hide ToU64;
    hide ToString;
    if length == 0 {
      RangeSpecReads(offset, "", None);
      assert RangeText(offset, length) == ToString(offset) + "-" + "" == ToString(offset) + ("-" + "");
    } else {
      LastIsExact(offset, length);
      ToU64OfToString(offset + length - 1);
      var tail := ToString(offset + length - 1);
      RangeSpecReads(offset, tail, Some(offset + length - 1));
      assert ToString(offset) + "-" + tail == ToString(offset) + ("-" + tail);
    }
  }

  lemma NumeralOf(n: nat)
    ensures Numeral(ToString(n), n)
  {
    ValueOfToString(n);
  }

  /** The last position of the reply to a request that starts inside the file. */
  function LastOf(file: seq<byte>, offset: u64, length: u64): int {
    if length == 0 then |file| - 1 else Min(offset + length - 1, |file| - 1)
  }

  /** The reply to a request that starts inside the file. */
  lemma ServedReply(file: seq<byte>, offset: u64, length: u64)
    requires offset < |file| && RangeFits(offset, length)
    ensures var last := LastOf(file, offset, length);
            && offset <= last < |file|
            && Serve(file, RangeText(offset, length))
               == Reply(206, Some(SentHeader(offset, last, |file|)), file[offset..last + 1])
  {
    hide ReadRange;
    hide RangeText;
    hide ToString;
    RangeTextReadsBack(offset, length);
  }

  /** The Content-Range value can be sent on a header line and denotes what was sent. */
  lemma SentHeaderIsGood(first: nat, last: nat, size: nat)
    ensures Denotes(SentHeader(first, last, size), "bytes", Resp(ContentRange(first, last, Some(size))))
    ensures Sendable(("Content-Range", SentHeader(first, last, size)))
  {
    hide Numeral;
    hide ToString;
    var value, tail := SentHeader(first, last, size), ToString(size);
    var body := value[|UNIT|..];
    NumeralOf(first);
    NumeralOf(last);
    NumeralOf(size);
    assert body == ToString(first) + ("-" + (ToString(last) + ("/" + tail)));
    assert RespSpelled(body, ToString(first), ToString(last), tail, ContentRange(first, last, Some(size)));
    assert RangeUnit("bytes") && "bytes" + " " == UNIT;
    assert ("Content-Range" + [':'])[0] == 'C';
    assert value[0] == 'b' && value[|value| - 1] == tail[|tail| - 1] && Digit(tail[|tail| - 1]);
  }

  /** What arrives: everything that was sent, or an error when the body exceeds the limit. */
  lemma TransferIsFaithful(w: Wire, reply: Reply)
    requires Carries(w) && (reply.contentRange.Some? ==> Sendable(("Content-Range", reply.contentRange.value)))
    ensures Transfer(w, reply)
            == if WithinLimit(w, |reply.body|)
               then Ok(Response(reply.status, Added(w.status) + SentHeaders(w, reply), reply.body))
               else Err(InvalidRequest)
  {
    hide Sendable;
    hide Collected;
    hide Delivered;
    hide Concat;
    WireRoundTrip(w.before, w.status, SentHeaders(w, reply));
    DeliveredIffFits(w.limit, [], w.cut(reply.body));
    assert [] + Concat(w.cut(reply.body)) == reply.body;
  }

  /** The sent Content-Range is the last one collected, whatever other headers came with it. */
  lemma CollectedHeader(w: Wire, reply: Reply)
    requires Carries(w) && reply.contentRange.Some?
    ensures LastContentRange(Added(w.status) + SentHeaders(w, reply)) == reply.contentRange.value
  {
    assert NamesContentRange("Content-Range");
    hide Sendable;
    hide Added;
    hide NamesContentRange;
    hide LastContentRange;
    var front := Added(w.status) + w.front;
    var all := Added(w.status) + SentHeaders(w, reply);
    assert all == front + [("Content-Range", reply.contentRange.value)] + w.back;
    LastContentRangeIs(all);
    forall j | |front| < j < |all| ensures !NamesContentRange(all[j].0) {
      assert all[j] == w.back[j - |front| - 1];
    }
    assert LastNamed(all, |front|);
  }

  /**
   Against such a server, `get_range` returns exactly the requested slice of the file, however the
   reply travelled; if the slice exceeds the caller's limit, it returns that error.
   */
  lemma HonestServerIsAccepted(file: seq<byte>, w: Wire, offset: u64, length: u64)
    requires Carries(w) && offset < |file| <= U64_MAX && RangeFits(offset, length)
    ensures var last, r := LastOf(file, offset, length), Fetch(file, w, offset, length);
            && offset <= last < |file|
            && if WithinLimit(w, last + 1 - offset)
               then r.Ok? && r.value.status == 206 && r.value.body == file[offset..last + 1]
               else r == Err(InvalidRequest)
  {
    hide Carries;
    hide Serve;
    hide RangeText;
    hide Denotes;
    hide Accepts;
    hide Transfer;
    hide LastContentRange;
    hide SentHeader;
    hide SentHeaders;
    hide Sendable;
    var last := LastOf(file, offset, length);
    ServedReply(file, offset, length);
    var reply := Serve(file, RangeText(offset, length));
    SentHeaderIsGood(offset, last, |file|);
    TransferIsFaithful(w, reply);
    CollectedHeader(w, reply);
    if Transfer(w, reply).Ok? {
      var response := Transfer(w, reply).value;
      var cr := ContentRange(offset, last, Some(|file|));
      assert Satisfies(offset, length, |response.body|, cr);
      assert Delivers(offset, length, response, "bytes", cr);
      DeliveredIsAcceptedIff(offset, length, response, "bytes", cr);
    }
  }

  // ----- The file and its index

  /** The bytes from the start of message i to the start of the next one, or to the end. */
  function SliceEnd(blocks: seq<Block>, lastGap: seq<byte>, i: nat): nat
    requires i < |blocks|
  {
    if i + 1 < |blocks| then StartOf(blocks, i + 1) else |Bytes(blocks)| + |lastGap|
  }

  function GapAfter(blocks: seq<Block>, lastGap: seq<byte>, i: nat): seq<byte>
    requires i < |blocks|
  {
    if i + 1 < |blocks| then blocks[i + 1].gap else lastGap
  }

  lemma SliceOfFirst(gap: seq<byte>, msg: seq<byte>, next: seq<byte>, rest: seq<byte>)
    ensures (gap + msg + (next + rest))[|gap|..|gap| + |msg| + |next|] == msg + next
  {
  }

  lemma SliceOfLater(head: seq<byte>, rest: seq<byte>, s: nat, e: nat)
    requires s <= e <= |rest|
    ensures (head + rest)[|head| + s..|head| + e] == rest[s..e]
  {
  }

  /** The slice predicate: message i and the gap after it. */
  ghost predicate SliceIs(blocks: seq<Block>, lastGap: seq<byte>, i: nat)
    requires i < |blocks|
  {
    var file, s, e := Bytes(blocks) + lastGap, StartOf(blocks, i), SliceEnd(blocks, lastGap, i);
    s <= e <= |file| && file[s..e] == blocks[i].msg + GapAfter(blocks, lastGap, i)
  }

  lemma FirstSlice(blocks: seq<Block>, lastGap: seq<byte>)
    requires blocks != []
    ensures SliceIs(blocks, lastGap, 0)
  {
    var gap, msg, more := blocks[0].gap, blocks[0].msg, blocks[1..];
    if more != [] {
      var next, after := more[0].gap, more[0].msg + Bytes(more[1..]) + lastGap;
      assert Bytes(blocks) + lastGap == gap + msg + (next + after);
      assert StartOf(blocks, 1) == |gap| + |msg| + StartOf(more, 0);
      SliceOfFirst(gap, msg, next, after);
    } else {
      assert Bytes(blocks) + lastGap == gap + msg + (lastGap + []);
      SliceOfFirst(gap, msg, lastGap, []);
    }
  }

  lemma {:induction false} SliceIsMessage(blocks: seq<Block>, lastGap: seq<byte>, i: nat)
    requires i < |blocks|
    ensures SliceIs(blocks, lastGap, i)
    decreases |blocks|
  {
    if i == 0 {
      FirstSlice(blocks, lastGap);
    } else {
      var head, rest := blocks[0].gap + blocks[0].msg, Bytes(blocks[1..]) + lastGap;
      assert Bytes(blocks) + lastGap == head + rest;
      SliceIsMessage(blocks[1..], lastGap, i - 1);
      SliceOfLater(head, rest, StartOf(blocks[1..], i - 1), SliceEnd(blocks[1..], lastGap, i - 1));
    }
  }

  /** Records of the file's index: numbered from 1, at the messages' offsets, with any printable text. */
  ghost predicate Indexes(rs: seq<Record>, blocks: seq<Block>) {
    && |rs| == |blocks|
    && forall i :: 0 <= i < |rs| ==>
         Printable(rs[i]) && rs[i].number == i + 1 && rs[i].offset == StartOf(blocks, i)
  }

  lemma {:induction false} NextStart(blocks: seq<Block>, i: nat)
    requires i + 1 < |blocks|
    ensures StartOf(blocks, i + 1) == StartOf(blocks, i) + |blocks[i].msg| + |blocks[i + 1].gap|
  {
    if i == 0 {
    } else {
      NextStart(blocks[1..], i - 1);
    }
  }

  lemma IndexIncreases(rs: seq<Record>, blocks: seq<Block>)
    requires Indexes(rs, blocks) && WholeMessages(blocks)
    ensures OffsetsIncrease(rs)
  {
    forall i | 0 <= i && i + 1 < |rs| ensures rs[i].offset < rs[i + 1].offset {
      NextStart(blocks, i);
      assert blocks[i] in blocks;
    }
  }

  lemma EntryCoversSlice(blocks: seq<Block>, lastGap: seq<byte>, rs: seq<Record>, i: nat)
    requires WholeMessages(blocks) && Indexes(rs, blocks) && i < |blocks| && OffsetsIncrease(rs)
    requires |Bytes(blocks) + lastGap| <= U64_MAX
    ensures var e := PlacedEntry(rs, i);
            && e.offset == StartOf(blocks, i) && RangeFits(e.offset, e.length)
            && StartOf(blocks, i) < SliceEnd(blocks, lastGap, i) <= |Bytes(blocks) + lastGap|
            && (e.length == 0 ==> SliceEnd(blocks, lastGap, i) == |Bytes(blocks) + lastGap|)
            && (e.length > 0 ==> e.offset + e.length == SliceEnd(blocks, lastGap, i))
  {
    hide Line;
    SliceIsMessage(blocks, lastGap, i);
    assert blocks[i] in blocks;
    if i + 1 < |blocks| {
      assert rs[i].offset < rs[i + 1].offset;
      NextStart(blocks, i);
      SliceIsMessage(blocks, lastGap, i + 1);
    }
  }

  /**
   End to end. For any file of well-formed messages separated by any bytes, and the printed index of
   their offsets: parsing the index, taking entry i and fetching its range yields a reply that starts
   with exactly message i, followed only by the bytes up to the next message; scanning the reply frames
   message i at its start. The last, open-ended entry is included.
   */
  lemma IndexToMessage(blocks: seq<Block>, lastGap: seq<byte>, rs: seq<Record>, crlf: bool, w: Wire, i: nat)
    requires WholeMessages(blocks) && Indexes(rs, blocks) && i < |blocks|
    requires |Bytes(blocks) + lastGap| <= U64_MAX
    requires Carries(w) && WithinLimit(w, |blocks[i].msg + GapAfter(blocks, lastGap, i)|)
    ensures var file := Bytes(blocks) + lastGap;
            var index := ParsedNomads(PrintIndex(rs, if crlf then "\r\n" else "\n"));
            && index.Ok? && |index.value| == |blocks|
            && var reply := Fetch(file, w, index.value[i].offset, index.value[i].length);
               && reply.Ok? && reply.value.status == 206
               && reply.value.body == blocks[i].msg + GapAfter(blocks, lastGap, i)
               && ScanFrom(reply.value.body, 0) == Found(0, |blocks[i].msg|)
  {
    hide ParsedNomads;
    hide PrintIndex;
    hide Fetch;
    hide Carries;
    hide ScanFrom;
    hide WellFormed;
    hide Printable;
    hide EntryOf;
    var file := Bytes(blocks) + lastGap;
    assert forall r :: r in rs ==> Printable(r);
    IndexIncreases(rs, blocks);
    PrintThenParse(rs, crlf);
    var e := PlacedEntry(rs, i);
    assert blocks[i] in blocks;
    ScanAtMessage(blocks[i].msg, GapAfter(blocks, lastGap, i));
    SliceIsMessage(blocks, lastGap, i);
    MessageStart(blocks[i].msg, []);
    EntryCoversSlice(blocks, lastGap, rs, i);
    HonestServerIsAccepted(file, w, e.offset, e.length);
  }

  /** With nothing between the messages, the reply is the message. */
  lemma ContiguousFile(blocks: seq<Block>, rs: seq<Record>, crlf: bool, w: Wire, i: nat)
    requires WholeMessages(blocks) && Indexes(rs, blocks) && i < |blocks| && |Bytes(blocks)| <= U64_MAX
    requires forall b :: b in blocks ==> b.gap == []
    requires Carries(w) && WithinLimit(w, |blocks[i].msg|)
    ensures var index := ParsedNomads(PrintIndex(rs, if crlf then "\r\n" else "\n"));
            && index.Ok? && |index.value| == |blocks|
            && var reply := Fetch(Bytes(blocks), w, index.value[i].offset, index.value[i].length);
               && reply.Ok? && reply.value.body == blocks[i].msg
               && ScanFrom(reply.value.body, 0) == Found(0, |reply.value.body|)
  {
    hide ParsedNomads;
    hide PrintIndex;
    hide Fetch;
    hide Carries;
    hide ScanFrom;
    hide WellFormed;
    assert Bytes(blocks) + [] == Bytes(blocks);
    assert GapAfter(blocks, [], i) == [];
    assert blocks[i].msg + [] == blocks[i].msg;
    IndexToMessage(blocks, [], rs, crlf, w, i);
  }

  // ----- The same from an ECMWF index, whose entries state their lengths

  /**
   An accepted ECMWF entry whose bytes lie inside the file fetches exactly as many bytes as it states iff
   it states more than none; a length of 0 fetches everything from its offset to the end of the file.
   */
  lemma JsonEntryFetch(text: string, read: string -> Option<E.Object>, i: nat, file: seq<byte>, w: Wire)
    requires var index := E.CollectJson(Split(text, '\n'), read);
             && index.Ok? && i < |index.value| && index.value[i].offset < |file| <= U64_MAX
             && index.value[i].offset + index.value[i].length <= |file|
    requires var e := E.CollectJson(Split(text, '\n'), read).value[i];
             Carries(w) && WithinLimit(w, if e.length > 0 then e.length else |file| - e.offset)
    ensures var e := E.CollectJson(Split(text, '\n'), read).value[i];
            var r := Fetch(file, w, e.offset, e.length);
            && r.Ok?
            && (|r.value.body| == e.length <==> e.length > 0)
            && r.value.body == file[e.offset..if e.length > 0 then e.offset + e.length else |file|]
  {
    hide E.CollectJson;
    hide Split;
    hide Fetch;
    hide Carries;
    var e := E.CollectJson(Split(text, '\n'), read).value[i];
    E.JsonRangesFit(Split(text, '\n'), read, i);
    HonestServerIsAccepted(file, w, e.offset, e.length);
  }

  /** Products placed at the messages of the file, with the messages' lengths. */
  ghost predicate Places(ps: seq<E.Product>, blocks: seq<Block>) {
    && |ps| == |blocks|
    && forall i :: 0 <= i < |ps| ==> ps[i].offset == StartOf(blocks, i) && ps[i].length == |blocks[i].msg|
  }

  lemma PlacedProductsFit(ps: seq<E.Product>, blocks: seq<Block>, lastGap: seq<byte>)
    requires Places(ps, blocks) && |Bytes(blocks) + lastGap| <= U64_MAX
    ensures E.AllFit(ps)
  {
    forall i | 0 <= i < |ps| ensures RangeFits(ps[i].offset, ps[i].length) {
      StreamSlice(blocks, lastGap, i);
    }
  }

  /**
   End to end from an ECMWF index: for any JSON reader that inverts the producer's printer, entry i of the
   parsed index fetches exactly message i, without what is between the messages, and the frame is the
   whole reply.
   */
  lemma JsonIndexToMessage(blocks: seq<Block>, lastGap: seq<byte>, ps: seq<E.Product>, objs: seq<E.Object>,
                           show: E.Object -> string, read: string -> Option<E.Object>, crlf: bool, w: Wire, i: nat)
    requires WholeMessages(blocks) && Places(ps, blocks) && i < |blocks|
    requires |Bytes(blocks) + lastGap| <= U64_MAX
    requires E.PresentAll(objs, ps) && E.Inverts(objs, show, read)
    requires Carries(w) && WithinLimit(w, |blocks[i].msg|)
    ensures var index := E.CollectJson(Split(E.PrintJson(objs, show, if crlf then "\r\n" else "\n"), '\n'), read);
            && index.Ok? && |index.value| == |blocks|
            && var reply := Fetch(Bytes(blocks) + lastGap, w, index.value[i].offset, index.value[i].length);
               && reply.Ok? && reply.value.status == 206 && reply.value.body == blocks[i].msg
               && ScanFrom(reply.value.body, 0) == Found(0, |reply.value.body|)
  {
    hide E.CollectJson;
    hide E.PrintJson;
    hide E.Presents;
    hide E.Inverts;
    hide Split;
    hide Fetch;
    hide Carries;
    hide ScanFrom;
    hide Bytes;
    hide StartOf;
    hide E.AllFit;
    hide WellFormed;
    var file, msg := Bytes(blocks) + lastGap, blocks[i].msg;
    PlacedProductsFit(ps, blocks, lastGap);
    E.PrintThenParseJson(ps, objs, show, read, crlf);
    StreamSlice(blocks, lastGap, i);
    assert blocks[i] in blocks;
    MessageStart(msg, []);
    ScanAtMessage(msg, []);
    assert msg + [] == msg;
    HonestServerIsAccepted(file, w, ps[i].offset, ps[i].length);
  }
}
