/**
 Streams of messages: what repeated `next()` calls frame, for concatenations of well-formed messages
 with other bytes between them, and for such streams cut short.
 */
module FramingStreams {
  import opened Basics
  import opened Framing

  /** One message preceded by bytes that belong to no message. */
  datatype Block = Block(gap: seq<byte>, msg: seq<byte>)

  function Bytes(blocks: seq<Block>): seq<byte> {
    if blocks == [] then [] else blocks[0].gap + blocks[0].msg + Bytes(blocks[1..])
  }

  /** Where the i-th message starts. */
  function StartOf(blocks: seq<Block>, i: nat): nat
    requires i < |blocks|
  {
    |blocks[0].gap| + if i == 0 then 0 else |blocks[0].msg| + StartOf(blocks[1..], i - 1)
  }

  /** Before a message: the gap's markers, if any, are all of other editions, or too near its end to have one. */
  ghost predicate Quiet(gap: seq<byte>) {
    forall i :: 0 <= i && i + 8 <= |gap| && MarkerAt(gap, i) ==> gap[i + 7] != 1 && gap[i + 7] != 2
  }

  /** At the end of the stream: a marker too near the end is broken as well. */
  ghost predicate Silent(gap: seq<byte>) {
    forall i :: 0 <= i <= |gap| ==> !Decisive(gap, i)
  }

  ghost predicate WholeMessages(blocks: seq<Block>) {
    forall b :: b in blocks ==> WellFormed(b.msg)
  }

  ghost predicate QuietGaps(blocks: seq<Block>) {
    forall b :: b in blocks ==> Quiet(b.gap)
  }

  ghost predicate Proper(blocks: seq<Block>) {
    WholeMessages(blocks) && QuietGaps(blocks)
  }

  /** The cursor after one `next()` call: past a found message, otherwise where it was. */
  function CursorAfter(pos: nat, scan: Scan): nat {
    if scan.Found? then scan.start + scan.len else pos
  }

  /** What `n` successive calls of `next()` frame, from cursor `pos`. */
  function Calls(buf: seq<byte>, pos: nat, n: nat): (scans: seq<Scan>)
    ensures |scans| == n
    decreases n
  {
    if n == 0 then []
    else
      var scan := ScanFrom(buf, pos);
      [scan] + Calls(buf, CursorAfter(pos, scan), n - 1)
  }

  function Shift(scan: Scan, offset: nat): Scan {
    if scan.Found? then Found(scan.start + offset, scan.len) else scan
  }

  // ----- Every call

  lemma FoundIsInBounds(buf: seq<byte>, pos: nat)
    requires ScanFrom(buf, pos).Found?
    ensures var scan := ScanFrom(buf, pos);
            && pos <= scan.start && 12 <= scan.len && scan.start + scan.len <= |buf|
            && WellFormed(buf[scan.start..scan.start + scan.len])
  {
    ScanDescribes(buf, pos);
  }

  lemma {:induction false} LaterCalls(buf: seq<byte>, pos: nat, n: nat, j: nat)
    requires j < n
    ensures var scan := Calls(buf, pos, n)[j];
            && (scan.Found? ==> pos <= scan.start && scan.start + scan.len <= |buf|)
            && (!ScanFrom(buf, pos).Found? ==> scan == ScanFrom(buf, pos))
    decreases n
  {
    var first := ScanFrom(buf, pos);
    if first.Found? {
      FoundIsInBounds(buf, pos);
    }
    if j == 0 {
    } else {
      LaterCalls(buf, CursorAfter(pos, first), n - 1, j - 1);
    }
  }

  /**
   Over any number of calls on any buffer: framed spans are in bounds, increasing and disjoint, and
   once a call frames nothing every later call says the same.
   */
  lemma {:induction false} SpansAreDisjoint(buf: seq<byte>, pos: nat, n: nat, i: nat, j: nat)
    requires i < j < n
    ensures var scans := Calls(buf, pos, n);
            && (scans[j].Found? ==> scans[i].Found? && pos <= scans[i].start && 12 <= scans[i].len)
            && (scans[j].Found? ==> scans[i].start + scans[i].len <= scans[j].start)
            && (scans[j].Found? ==> scans[j].start + scans[j].len <= |buf|)
            && (!scans[i].Found? ==> scans[j] == scans[i])
    decreases n
  {
    var first := ScanFrom(buf, pos);
    var next := CursorAfter(pos, first);
    if first.Found? {
      FoundIsInBounds(buf, pos);
    }
    if i > 0 {
      SpansAreDisjoint(buf, next, n - 1, i - 1, j - 1);
    } else {
      LaterCalls(buf, next, n - 1, j - 1);
    }
  }

  /** A found message stays found when bytes are appended to the buffer. */
  lemma FoundIsStable(buf: seq<byte>, from: nat, more: seq<byte>)
    requires ScanFrom(buf, from).Found?
    ensures ScanFrom(buf + more, from) == ScanFrom(buf, from)
  {
    var scan := ScanFrom(buf, from);
    FoundIsInBounds(buf, from);
    ScanDescribes(buf, from);
    var all := buf + more;
    assert all[scan.start..scan.start + scan.len] == buf[scan.start..scan.start + scan.len];
    forall i | from <= i <= scan.start ensures Decisive(all, i) == Decisive(buf, i) {
      assert all[i..i + 4] == buf[i..i + 4];
    }
    assert Describes(all, from, scan);
    ScanIsDetermined(all, from, scan);
  }

  // ----- Moving a buffer

  lemma LengthShift(pre: seq<byte>, buf: seq<byte>, i: nat, len: nat, least: nat)
    requires i <= |buf| && 4 <= least
    ensures LengthVerdict(pre + buf, |pre| + i, len, least) == LengthVerdict(buf, i, len, least)
  {
  }

  lemma ExamineShift(pre: seq<byte>, buf: seq<byte>, i: nat)
    requires i + 4 <= |buf|
    ensures Examine(pre + buf, |pre| + i) == Examine(buf, i)
  {
    hide BigEndian;
    var all, k := pre + buf, |pre| + i;
    assert all[k..k + 4] == buf[i..i + 4];
    if i + 8 <= |buf| {
      assert all[k + 4..k + 7] == buf[i + 4..i + 7];
      LengthShift(pre, buf, i, BigEndian(buf[i + 4..i + 7]), 12);
      if i + 16 <= |buf| {
        assert all[k + 8..k + 16] == buf[i + 8..i + 16];
        LengthShift(pre, buf, i, BigEndian(buf[i + 8..i + 16]), 20);
      }
    }
  }

  lemma {:induction false} ScanShift(pre: seq<byte>, buf: seq<byte>, from: nat)
    ensures ScanFrom(pre + buf, |pre| + from) == Shift(ScanFrom(buf, from), |pre|)
    decreases |buf| - from
  {
    hide Examine;
    if |buf| < from + 4 {
    } else {
      ExamineShift(pre, buf, from);
      if Examine(buf, from) == Skip {
        ScanShift(pre, buf, from + 1);
      }
    }
  }

  lemma {:induction false} CallsShift(pre: seq<byte>, buf: seq<byte>, pos: nat, n: nat, i: nat)
    requires i < n
    ensures Calls(pre + buf, |pre| + pos, n)[i] == Shift(Calls(buf, pos, n)[i], |pre|)
    decreases n
  {
    ScanShift(pre, buf, pos);
    if i == 0 {
    } else {
      CallsShift(pre, buf, CursorAfter(pos, ScanFrom(buf, pos)), n - 1, i - 1);
    }
  }

  // ----- Gaps

  /**
   A marker cannot straddle a gap and what follows, if that starts like a marker: no proper suffix of
   "GRIB" is also a prefix of it.
   */
  lemma NoMarkerStraddles(gap: seq<byte>, rest: seq<byte>, i: nat)
    requires i < |gap| < i + 4 <= |gap| + |rest| && rest[0] == GRIB[0]
    ensures !MarkerAt(gap + rest, i)
  {
    assert (gap + rest)[i..i + 4][|gap| - i] == rest[0];
  }

  /** Before a message, or a piece that holds its marker, the scan commits nowhere in the gap iff the gap is quiet. */
  lemma QuietIffUndecided(gap: seq<byte>, rest: seq<byte>)
    requires MarkerAt(rest, 0)
    ensures Quiet(gap) <==> forall i :: 0 <= i < |gap| ==> !Decisive(gap + rest, i)
  {
    var all := gap + rest;
    forall i | 0 <= i && i + 4 <= |gap| ensures MarkerAt(all, i) <==> MarkerAt(gap, i) {
      assert all[i..i + 4] == gap[i..i + 4];
    }
    forall i | 0 <= i < |gap| ensures Decisive(all, i)
                                      <==> i + 8 <= |gap| && MarkerAt(gap, i) && (gap[i + 7] == 1 || gap[i + 7] == 2)
    {
      if |gap| < i + 4 {
        NoMarkerStraddles(gap, rest, i);
      } else if |gap| < i + 8 {
        assert all[i + 7] == rest[..4][i + 7 - |gap|] == GRIB[i + 7 - |gap|];
      } else {
        assert all[i + 7] == gap[i + 7];
      }
    }
    if forall i :: 0 <= i < |gap| ==> !Decisive(all, i) {
      forall i | 0 <= i && i + 8 <= |gap| && MarkerAt(gap, i) ensures gap[i + 7] != 1 && gap[i + 7] != 2 {
        assert !Decisive(all, i);
      }
    }
  }

  /** Bytes without a decisive position are passed over. */
  lemma {:induction false} SkipUndecided(gap: seq<byte>, rest: seq<byte>, i: nat)
    requires i <= |gap| && forall j :: i <= j < |gap| ==> !Decisive(gap + rest, j)
    ensures ScanFrom(gap + rest, i) == Shift(ScanFrom(rest, 0), |gap|)
    decreases |gap| - i
  {
    hide Examine;
    if i == |gap| {
      ScanShift(gap, rest, 0);
    } else if i + 4 <= |gap| + |rest| {
      SkipIsNotDecisive(gap + rest, i);
      SkipUndecided(gap, rest, i + 1);
    }
  }

  lemma SkipGap(gap: seq<byte>, rest: seq<byte>)
    requires Quiet(gap) && MarkerAt(rest, 0)
    ensures ScanFrom(gap + rest, 0) == Shift(ScanFrom(rest, 0), |gap|)
  {
    QuietIffUndecided(gap, rest);
    SkipUndecided(gap, rest, 0);
  }

  /** Nothing is framed in the bytes after the last message, and nothing is broken there, iff they are silent. */
  lemma SilentIffEnd(gap: seq<byte>)
    ensures ScanFrom(gap, 0) == End <==> Silent(gap)
  {
    ScanIsDetermined(gap, 0, End);
  }

  /** A scan at the start of a whole message frames it, whatever follows. */
  lemma ScanAtMessage(msg: seq<byte>, rest: seq<byte>)
    requires WellFormed(msg)
    ensures ScanFrom(msg + rest, 0) == Found(0, |msg|)
  {
    hide BigEndian;
    assert (msg + rest)[0..|msg|] == msg;
    FrameIsMessage(msg + rest, 0, |msg|);
  }

  // ----- Whole streams

  lemma MessageStart(msg: seq<byte>, rest: seq<byte>)
    requires WellFormed(msg)
    ensures |msg| >= 12 && MarkerAt(msg, 0) && MarkerAt(msg + rest, 0)
  {
    assert (msg + rest)[0..4] == msg[..4];
  }

  /** The first call on a stream frames the first message, and the cursor then stands before the rest. */
  lemma FirstCall(gap: seq<byte>, msg: seq<byte>, rest: seq<byte>)
    requires Quiet(gap) && WellFormed(msg)
    ensures ScanFrom(gap + msg + rest, 0) == Found(|gap|, |msg|)
  {
    hide ScanFrom;
    hide Quiet;
    MessageStart(msg, rest);
    SkipGap(gap, msg + rest);
    ScanAtMessage(msg, rest);
    assert gap + msg + rest == gap + (msg + rest);
  }

  lemma {:induction false} StreamCalls(blocks: seq<Block>, tail: seq<byte>, n: nat, i: nat)
    requires Proper(blocks) && !ScanFrom(tail, 0).Found? && i < n
    ensures Calls(Bytes(blocks) + tail, 0, n)[i]
            == if i < |blocks| then Found(StartOf(blocks, i), |blocks[i].msg|) else ScanFrom(tail, 0)
  {
    hide WellFormed;
    hide Quiet;
    hide ScanFrom;
    if blocks == [] {
      assert Bytes(blocks) + tail == tail;
      LaterCalls(tail, 0, n, i);
    } else {
      var head, rest := blocks[0].gap + blocks[0].msg, Bytes(blocks[1..]) + tail;
      assert Bytes(blocks) + tail == head + rest;
      assert blocks[0] in blocks;
      FirstCall(blocks[0].gap, blocks[0].msg, rest);
      if i > 0 {
        StreamCalls(blocks[1..], tail, n - 1, i - 1);
        CallsShift(head, rest, 0, n - 1, i - 1);
      }
    }
  }

  lemma {:induction false} StreamSlice(blocks: seq<Block>, tail: seq<byte>, i: nat)
    requires i < |blocks|
    ensures StartOf(blocks, i) + |blocks[i].msg| <= |Bytes(blocks)|
    ensures (Bytes(blocks) + tail)[StartOf(blocks, i)..StartOf(blocks, i) + |blocks[i].msg|] == blocks[i].msg
  {
    var head, rest := blocks[0].gap + blocks[0].msg, Bytes(blocks[1..]) + tail;
    assert Bytes(blocks) + tail == head + rest;
    if i == 0 {
    } else {
      StreamSlice(blocks[1..], tail, i - 1);
      var s, len := StartOf(blocks[1..], i - 1), |blocks[i].msg|;
      assert (head + rest)[|head| + s..|head| + s + len] == rest[s..s + len];
    }
  }

  /** The answer of call i that a stream of these messages calls for: message i, and then the end for ever. */
  function Expected(blocks: seq<Block>, i: nat): Scan {
    if i < |blocks| then Found(StartOf(blocks, i), |blocks[i].msg|) else End
  }

  /** Calls of `next()` frame exactly the messages in order, then report the end for ever. */
  ghost predicate FramesExactly(blocks: seq<Block>, lastGap: seq<byte>) {
    forall n: nat, i: nat :: i < n ==> Calls(Bytes(blocks) + lastGap, 0, n)[i] == Expected(blocks, i)
  }

  lemma ProperIsFramed(blocks: seq<Block>, lastGap: seq<byte>, n: nat, i: nat)
    requires Proper(blocks) && Silent(lastGap) && i < n
    ensures Calls(Bytes(blocks) + lastGap, 0, n)[i] == Expected(blocks, i)
  {
    hide Calls;
    hide Silent;
    SilentIffEnd(lastGap);
    StreamCalls(blocks, lastGap, n, i);
  }

  lemma FirstFramed(gap: seq<byte>, msg: seq<byte>, rest: seq<byte>)
    requires WellFormed(msg) && ScanFrom(gap + (msg + rest), 0) == Found(|gap|, |msg|)
    ensures Quiet(gap)
  {
    hide ScanFrom;
    ScanDescribes(gap + (msg + rest), 0);
    MessageStart(msg, rest);
    QuietIffUndecided(gap, msg + rest);
  }

  /** As many calls as these frame the messages one by one and then report the end. */
  ghost predicate FramesIn(blocks: seq<Block>, lastGap: seq<byte>, n: nat) {
    forall i :: 0 <= i < n ==> Calls(Bytes(blocks) + lastGap, 0, n)[i] == Expected(blocks, i)
  }

  lemma LaterFramed(blocks: seq<Block>, lastGap: seq<byte>, n: nat)
    requires blocks != [] && WellFormed(blocks[0].msg) && FramesIn(blocks, lastGap, n + 1)
    ensures FramesIn(blocks[1..], lastGap, n)
  {
    hide WellFormed;
    hide ScanFrom;
    var head, rest := blocks[0].gap + blocks[0].msg, Bytes(blocks[1..]) + lastGap;
    assert Bytes(blocks) + lastGap == head + rest;
    var all := Calls(head + rest, 0, n + 1);
    assert all[0] == Expected(blocks, 0);
    assert all[1..] == Calls(head + rest, |head|, n);
    forall i | 0 <= i < n ensures Calls(rest, 0, n)[i] == Expected(blocks[1..], i) {
      CallsShift(head, rest, 0, n, i);
      assert all[i + 1] == Expected(blocks, i + 1);
    }
  }

  /** One more call than there are messages is enough to see that every gap is as it must be. */
  lemma {:induction false} FramedIsProper(blocks: seq<Block>, lastGap: seq<byte>)
    requires WholeMessages(blocks) && FramesIn(blocks, lastGap, |blocks| + 1)
    ensures QuietGaps(blocks) && Silent(lastGap)
    decreases |blocks|
  {
    hide WellFormed;
    hide Quiet;
    hide Silent;
    hide ScanFrom;
    var stream := Bytes(blocks) + lastGap;
    assert Calls(stream, 0, |blocks| + 1)[0] == ScanFrom(stream, 0) == Expected(blocks, 0);
    if blocks == [] {
      assert stream == lastGap;
      SilentIffEnd(lastGap);
    } else {
      var gap, msg := blocks[0].gap, blocks[0].msg;
      assert stream == gap + (msg + (Bytes(blocks[1..]) + lastGap)) && blocks[0] in blocks;
      FirstFramed(gap, msg, Bytes(blocks[1..]) + lastGap);
      LaterFramed(blocks, lastGap, |blocks|);
      FramedIsProper(blocks[1..], lastGap);
      assert forall b :: b in blocks ==> b == blocks[0] || b in blocks[1..];
    }
  }

  /**
   Framing round trip. Calls on well-formed messages with bytes before, between and after them frame
   exactly those messages in order, and then report the end for ever, iff no gap holds a marker that
   commits the scan: one of edition 1 or 2 before a message, one of edition 1 or 2 or a cut one at the end.
   */
  lemma FramingRoundTrip(blocks: seq<Block>, lastGap: seq<byte>)
    requires WholeMessages(blocks)
    ensures FramesExactly(blocks, lastGap) <==> QuietGaps(blocks) && Silent(lastGap)
  {
    hide Calls;
    hide Silent;
    hide QuietGaps;
    hide WholeMessages;
    if FramesExactly(blocks, lastGap) {
      assert FramesIn(blocks, lastGap, |blocks| + 1);
      FramedIsProper(blocks, lastGap);
    }
    if QuietGaps(blocks) && Silent(lastGap) {
      forall n: nat, i: nat | i < n ensures Calls(Bytes(blocks) + lastGap, 0, n)[i] == Expected(blocks, i) {
        ProperIsFramed(blocks, lastGap, n, i);
      }
    }
  }

  /** The framed spans hold the messages, byte for byte. */
  lemma FramedBytes(blocks: seq<Block>, lastGap: seq<byte>, i: nat)
    requires i < |blocks|
    ensures var stream, scan := Bytes(blocks) + lastGap, Expected(blocks, i);
            scan.start + scan.len <= |stream| && stream[scan.start..scan.start + scan.len] == blocks[i].msg
  {
    StreamSlice(blocks, lastGap, i);
  }

  // ----- Cut streams

  /** A proper piece of a message is Invalid as soon as its marker is whole, and unseen before that. */
  lemma ScanOfPiece(msg: seq<byte>, kept: nat)
    requires WellFormed(msg) && kept < |msg|
    ensures ScanFrom(msg[..kept], 0) == if kept < 4 then End else Invalid
  {
    hide BigEndian;
    var piece := msg[..kept];
    if 4 <= kept {
      assert piece[0..4] == msg[..4];
      if 8 <= kept {
        assert piece[4..7] == msg[4..7];
      }
      if 16 <= kept {
        assert piece[8..16] == msg[8..16];
      }
    }
  }

  lemma {:induction false} CutStream(blocks: seq<Block>, j: nat, kept: nat)
    requires j < |blocks| && kept <= |blocks[j].msg|
    ensures StartOf(blocks, j) + kept <= |Bytes(blocks)|
    ensures Bytes(blocks)[..StartOf(blocks, j) + kept]
            == Bytes(blocks[..j]) + (blocks[j].gap + blocks[j].msg[..kept])
  {
    var head, rest := blocks[0].gap + blocks[0].msg, Bytes(blocks[1..]);
    assert Bytes(blocks) == head + rest;
    if j == 0 {
      assert (blocks[0].gap + blocks[0].msg + rest)[..|blocks[0].gap| + kept] == blocks[0].gap + blocks[0].msg[..kept];
    } else {
      CutStream(blocks[1..], j - 1, kept);
      assert blocks[..j][1..] == blocks[1..][..j - 1];
      var s := StartOf(blocks[1..], j - 1) + kept;
      assert (head + rest)[..|head| + s] == head + rest[..s];
    }
  }

  /** A marker in the gap that the cut leaves with fewer than eight bytes. */
  ghost predicate CutMarker(gap: seq<byte>, kept: nat) {
    exists i :: 0 <= i && |gap| + kept < i + 8 && MarkerAt(gap, i)
  }

  lemma PieceDecides(gap: seq<byte>, msg: seq<byte>, kept: nat, i: nat)
    requires Quiet(gap) && WellFormed(msg) && kept < 4
    ensures Decisive(gap + msg[..kept], i) <==> |gap| + kept < i + 8 && MarkerAt(gap, i)
  {
    hide BigEndian;
    var piece := msg[..kept];
    var all := gap + piece;
    if i + 4 <= |gap| {
      assert all[i..i + 4] == gap[i..i + 4];
      assert MarkerAt(all, i) <==> MarkerAt(gap, i);
      if |gap| < i + 8 <= |gap| + kept {
        assert all[i + 7] == msg[..4][i + 7 - |gap|] == GRIB[i + 7 - |gap|];
      } else if i + 8 <= |gap| {
        assert all[i + 7] == gap[i + 7];
      }
    } else if i < |gap| && i + 4 <= |all| {
      assert piece[0] == msg[..4][0];
      NoMarkerStraddles(gap, piece, i);
    }
  }

  /** With less than a marker kept, the scan ends, unless a marker in the gap was cut before its edition. */
  lemma ShortPiece(gap: seq<byte>, msg: seq<byte>, kept: nat)
    requires Quiet(gap) && WellFormed(msg) && kept < 4
    ensures ScanFrom(gap + msg[..kept], 0) == if CutMarker(gap, kept) then Invalid else End
  {
    hide ScanFrom;
    hide WellFormed;
    MessageStart(msg, []);
    var all := gap + msg[..kept];
    forall i: nat ensures Decisive(all, i) <==> |gap| + kept < i + 8 && MarkerAt(gap, i) {
      PieceDecides(gap, msg, kept, i);
    }
    ScanDescribes(all, 0);
    if CutMarker(gap, kept) {
      if ScanFrom(all, 0).Found? {
        FoundIsInBounds(all, 0);
      }
    } else {
      ScanIsDetermined(all, 0, End);
    }
  }

  /** The scan of a quiet gap and what was kept of the message after it. */
  lemma ScanOfCut(gap: seq<byte>, msg: seq<byte>, kept: nat)
    requires Quiet(gap) && WellFormed(msg) && kept < |msg|
    ensures ScanFrom(gap + msg[..kept], 0) == if 4 <= kept || CutMarker(gap, kept) then Invalid else End
  {
    hide ScanFrom;
    var piece := msg[..kept];
    if 4 <= kept {
      assert piece[0..4] == msg[..4];
      SkipGap(gap, piece);
      ScanOfPiece(msg, kept);
    } else {
      ShortPiece(gap, msg, kept);
    }
  }

  lemma {:induction false} StartOfPrefix(blocks: seq<Block>, j: nat, i: nat)
    requires i < j <= |blocks|
    ensures StartOf(blocks[..j], i) == StartOf(blocks, i)
  {
    if i == 0 {
    } else {
      assert blocks[..j][1..] == blocks[1..][..j - 1];
      StartOfPrefix(blocks[1..], j - 1, i - 1);
    }
  }

  /**
   Truncation is detected. A stream cut inside message j frames the messages before it and then, on
   every later call, reports Invalid, unless fewer than the four bytes of the marker were kept and the
   cut did not break a marker in the gap either, in which case it reports the end.
   */
  lemma TruncationIsDetected(blocks: seq<Block>, j: nat, kept: nat, n: nat, i: nat)
    requires Proper(blocks) && j < |blocks| && kept < |blocks[j].msg| && i < n
    ensures StartOf(blocks, j) + kept <= |Bytes(blocks)|
    ensures Calls(Bytes(blocks)[..StartOf(blocks, j) + kept], 0, n)[i]
            == if i < j then Found(StartOf(blocks, i), |blocks[i].msg|)
               else if 4 <= kept || CutMarker(blocks[j].gap, kept) then Invalid else End
  {
    hide WellFormed;
    hide ScanFrom;
    hide CutMarker;
    hide Quiet;
    var gap, piece := blocks[j].gap, blocks[j].msg[..kept];
    assert blocks[j] in blocks;
    CutStream(blocks, j, kept);
    ScanOfCut(gap, blocks[j].msg, kept);
    StreamCalls(blocks[..j], gap + piece, n, i);
    if i < j {
      StartOfPrefix(blocks, j, i);
    }
  }

  // ----- Writing messages

  function Edition1(body: seq<byte>): seq<byte> {
    GRIB + Encode(12 + |body|, 3) + [1] + body + SEVENS
  }

  /** `head` is the reserved bytes and the discipline. */
  function Edition2(head: seq<byte>, body: seq<byte>): seq<byte>
    requires |head| == 3
  {
    GRIB + head + [2] + Encode(20 + |body|, 8) + body + SEVENS
  }

  lemma {:induction false} DecodeEncode(s: seq<byte>)
    ensures Encode(BigEndian(s), |s|) == s
    decreases |s|
  {
    if s == [] {
    } else {
      DecodeEncode(s[..|s| - 1]);
    }
  }

  lemma WrittenIsWellFormed(head: seq<byte>, body: seq<byte>)
    requires |head| == 3
    ensures 12 + |body| < 0x100_0000 ==> WellFormed(Edition1(body))
    ensures 20 + |body| < U64_MOD ==> WellFormed(Edition2(head, body))
  {
    FieldWidths();
    var m1, m2 := Edition1(body), Edition2(head, body);
    assert m1[..4] == GRIB && m1[4..7] == Encode(12 + |body|, 3) && m1[|m1| - 4..] == SEVENS;
    assert m2[..4] == GRIB && m2[8..16] == Encode(20 + |body|, 8) && m2[|m2| - 4..] == SEVENS;
    if 12 + |body| < 0x100_0000 {
      EncodeDecode(12 + |body|, 3);
    }
    if 20 + |body| < U64_MOD {
      EncodeDecode(20 + |body|, 8);
    }
  }

  /** Well-formed messages are exactly the written ones. */
  lemma WellFormedIsWritten(m: seq<byte>)
    requires WellFormed(m)
    ensures m == Edition1(m[8..|m| - 4]) || (20 <= |m| && m == Edition2(m[4..7], m[16..|m| - 4]))
  {
    hide Encode;
    hide BigEndian;
    if m[7] == 1 {
      DecodeEncode(m[4..7]);
      assert m == m[..4] + m[4..7] + [m[7]] + m[8..|m| - 4] + m[|m| - 4..];
    } else {
      DecodeEncode(m[8..16]);
      assert m == m[..4] + m[4..7] + [m[7]] + m[8..16] + m[16..|m| - 4] + m[|m| - 4..];
    }
  }
}
