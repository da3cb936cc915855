/**
 `GribFile`, the cursor over one buffer, `GribHandle::from_bytes`, and the member search built on them.
 Decoding is a foreign call: an arbitrary function from the framed bytes to a handle, or no handle.
 */
module MemberSearch {
  import opened Basics
  import opened Framing
  import opened FramingStreams

  class GribFile {
    var buf: seq<byte>
    var pos: nat

    constructor Open(bytes: seq<byte>)
      ensures buf == bytes && pos == 0
    {
      buf, pos := bytes, 0;
    }

    /** The next handle, None at the end of the buffer, or an error. */
    method Next<H>(decode: seq<byte> -> Option<H>) returns (r: Result<Option<H>, ErrorCode>)
      requires |buf| <= U64_MAX
      modifies this`pos
      ensures pos == CursorAfter(old(pos), ScanFrom(buf, old(pos)))
      ensures match ScanFrom(buf, old(pos))
              case End => r == Ok(None)
              case Invalid => r == Err(DecodeError)
              case Found(start, len) =>
                && old(pos) < pos == start + len <= |buf|
                && r == match decode(buf[start..start + len])
                        case Some(h) => Ok(Some(h))
                        case None => Err(DecodeError)
    {
      var scan := FindMessage(buf, pos);
      match scan
      case Invalid => r := Err(DecodeError);
      case End => r := Ok(None);
      case Found(start, len) =>
        FoundIsInBounds(buf, pos);
        var h := decode(buf[start..start + len]);
        pos := start + len;
        r := if h.Some? then Ok(Some(h.value)) else Err(DecodeError);
    }
  }

  /** The messages successive `next()` calls frame, until one frames nothing. */
  function MessagesFrom(buf: seq<byte>, pos: nat): seq<seq<byte>>
    decreases |buf| - pos
  {
    var scan := ScanFrom(buf, pos);
    if scan.Found? then
      FoundIsInBounds(buf, pos);
      [buf[scan.start..scan.start + scan.len]] + MessagesFrom(buf, scan.start + scan.len)
    else []
  }

  /** The handle of the first of the messages that can be framed, if it decodes. */
  function FirstHandle<H>(bytes: seq<byte>, decode: seq<byte> -> Option<H>): Result<H, ErrorCode> {
    var messages := MessagesFrom(bytes, 0);
    if messages == [] then Err(DecodeError)
    else match decode(messages[0])
         case Some(h) => Ok(h)
         case None => Err(DecodeError)
  }

  method FromBytes<H>(bytes: seq<byte>, decode: seq<byte> -> Option<H>) returns (r: Result<H, ErrorCode>)
    requires |bytes| <= U64_MAX
    ensures r == FirstHandle(bytes, decode)
  {
    if bytes == [] {
      return Err(DecodeError);
    }
    var scan := FindMessage(bytes, 0);
    if !scan.Found? {
      return Err(DecodeError);
    }
    FoundIsInBounds(bytes, 0);
    var h := decode(bytes[scan.start..scan.start + scan.len]);
    if h.None? {
      return Err(DecodeError);
    }
    r := Ok(h.value);
  }

  /** `from_bytes` gives the handle of the first `next()` on the same bytes; only the end becomes an error too. */
  method FirstNextIsFromBytes<H>(bytes: seq<byte>, decode: seq<byte> -> Option<H>)
    returns (whole: Result<H, ErrorCode>, first: Result<Option<H>, ErrorCode>)
    requires |bytes| <= U64_MAX
    ensures whole == match first
                     case Ok(Some(h)) => Ok(h)
                     case Ok(None) => Err(DecodeError)
                     case Err(e) => Err(e)
  {
    whole := FromBytes(bytes, decode);
    var file := new GribFile.Open(bytes);
    first := file.Next(decode);
  }

  // ----- The messages of a buffer

  /** The outcome of the i-th call is the i-th message, and nothing once they are used up. */
  ghost predicate Yields(buf: seq<byte>, scan: Scan, messages: seq<seq<byte>>, i: nat) {
    if i < |messages| then
      scan.Found? && scan.start + scan.len <= |buf| && messages[i] == buf[scan.start..scan.start + scan.len]
    else !scan.Found?
  }

  lemma {:induction false} MessagesAreCalls(buf: seq<byte>, pos: nat, n: nat, i: nat)
    requires i < n
    ensures Yields(buf, Calls(buf, pos, n)[i], MessagesFrom(buf, pos), i)
    decreases n
  {
    hide ScanFrom;
    hide WellFormed;
    var first := ScanFrom(buf, pos);
    if first.Found? {
      FoundIsInBounds(buf, pos);
      if i > 0 {
        var next := first.start + first.len;
        MessagesAreCalls(buf, next, n - 1, i - 1);
        assert Calls(buf, pos, n)[i] == Calls(buf, next, n - 1)[i - 1];
      }
    } else {
      LaterCalls(buf, pos, n, i);
    }
  }

  /** The messages of a stream are those it was made of. */
  lemma StreamMessages(blocks: seq<Block>, lastGap: seq<byte>)
    requires Proper(blocks) && Silent(lastGap)
    ensures |MessagesFrom(Bytes(blocks) + lastGap, 0)| == |blocks|
    ensures forall i :: 0 <= i < |blocks| ==> MessagesFrom(Bytes(blocks) + lastGap, 0)[i] == blocks[i].msg
  {
    hide Calls;
    hide MessagesFrom;
    hide Proper;
    hide Silent;
    var stream := Bytes(blocks) + lastGap;
    var count := |MessagesFrom(stream, 0)|;
    var n := |blocks| + count + 1;
    ProperIsFramed(blocks, lastGap, n, |blocks|);
    MessagesAreCalls(stream, 0, n, |blocks|);
    ProperIsFramed(blocks, lastGap, n, count);
    MessagesAreCalls(stream, 0, n, count);
    forall i | 0 <= i < |blocks| ensures MessagesFrom(stream, 0)[i] == blocks[i].msg {
      ProperIsFramed(blocks, lastGap, n, i);
      MessagesAreCalls(stream, 0, n, i);
      FramedBytes(blocks, lastGap, i);
    }
  }

  // ----- The member search

  /** What a decoded message offers: its ensemble keys and its point lookup. */
  datatype Handle = Handle(
    perturbationNumber: Option<int>, number: Option<int>, nearest: (real, real) -> Result<real, ErrorCode>)

  function MemberOf(h: Handle): int {
    match h.perturbationNumber
    case Some(m) => m
    case None => match h.number
                 case Some(m) => m
                 case None => -1
  }

  /** Message by message: stop at the first that does not decode or whose member matches. */
  function Search(messages: seq<seq<byte>>, decode: seq<byte> -> Option<Handle>, lat: real, lon: real, member: int)
    : Result<real, ErrorCode>
  {
    if messages == [] then Err(DecodeError)
    else match decode(messages[0])
         case None => Err(DecodeError)
         case Some(h) => if MemberOf(h) == member then h.nearest(lat, lon)
                         else Search(messages[1..], decode, lat, lon, member)
  }

  method ExtractPointMember(blob: seq<byte>, decode: seq<byte> -> Option<Handle>, lat: real, lon: real, member: int)
    returns (r: Result<real, ErrorCode>)
    requires |blob| <= U64_MAX
    ensures r == Search(MessagesFrom(blob, 0), decode, lat, lon, member)
  {
    hide ScanFrom;
    hide WellFormed;
    var file := new GribFile.Open(blob);
    while true
      invariant file.buf == blob
      invariant Search(MessagesFrom(blob, file.pos), decode, lat, lon, member)
                == Search(MessagesFrom(blob, 0), decode, lat, lon, member)
      decreases |blob| - file.pos
    {
      var msg := file.Next(decode);
      if msg.Err? {
        return Err(msg.error);
      }
      if msg.value.None? {
        break;
      }
      var h := msg.value.value;
      var m := -1;
      if h.perturbationNumber.Some? {
        m := h.perturbationNumber.value;
      } else if h.number.Some? {
        m := h.number.value;
      }
      if m == member {
        return h.nearest(lat, lon);
      }
    }
    return Err(DecodeError);
  }

  /** The message decodes, and its member is the perturbation number, else the number, else -1. */
  ghost predicate Matches(message: seq<byte>, decode: seq<byte> -> Option<Handle>, member: int) {
    && decode(message).Some?
    && var h := decode(message).value;
       || h.perturbationNumber == Some(member)
       || (h.perturbationNumber == None && h.number == Some(member))
       || (h.perturbationNumber == None && h.number == None && member == -1)
  }

  /** Message k is the answer: it matches, and every earlier one decodes to another member. */
  ghost predicate FirstMatch(messages: seq<seq<byte>>, decode: seq<byte> -> Option<Handle>, member: int, k: nat) {
    && k < |messages| && Matches(messages[k], decode, member)
    && forall j :: 0 <= j < k ==> decode(messages[j]).Some? && !Matches(messages[j], decode, member)
  }

  lemma {:induction false} SearchFindsFirstMatch(
    messages: seq<seq<byte>>, decode: seq<byte> -> Option<Handle>, lat: real, lon: real, member: int, k: nat)
    requires FirstMatch(messages, decode, member, k)
    ensures Search(messages, decode, lat, lon, member) == decode(messages[k]).value.nearest(lat, lon)
    decreases k
  {
    if k == 0 {
    } else {
      var rest := messages[1..];
      assert decode(messages[0]).Some? && !Matches(messages[0], decode, member);
      forall j | 0 <= j < k - 1 ensures decode(rest[j]).Some? && !Matches(rest[j], decode, member) {
        assert rest[j] == messages[j + 1];
      }
      SearchFindsFirstMatch(rest, decode, lat, lon, member, k - 1);
    }
  }

  /** An answer other than an error of the search itself needs a first match. */
  lemma {:induction false} SearchFailsWithoutMatch(
    messages: seq<seq<byte>>, decode: seq<byte> -> Option<Handle>, lat: real, lon: real, member: int)
    ensures Search(messages, decode, lat, lon, member) == Err(DecodeError)
            || exists k: nat :: FirstMatch(messages, decode, member, k)
    decreases |messages|
  {
    if messages == [] || decode(messages[0]).None? {
    } else {
      if Matches(messages[0], decode, member) {
        assert FirstMatch(messages, decode, member, 0);
      } else {
        var rest := messages[1..];
        SearchFailsWithoutMatch(rest, decode, lat, lon, member);
        if k: nat :| FirstMatch(rest, decode, member, k) {
          forall j | 0 <= j < k + 1 ensures decode(messages[j]).Some? && !Matches(messages[j], decode, member) {
            assert j > 0 ==> messages[j] == rest[j - 1];
          }
          assert FirstMatch(messages, decode, member, k + 1);
        }
      }
    }
  }

  /** On a proper stream, the search looks at exactly its messages. */
  lemma SearchOverStream(blocks: seq<Block>, lastGap: seq<byte>, decode: seq<byte> -> Option<Handle>,
                         lat: real, lon: real, member: int, k: nat)
    requires Proper(blocks) && Silent(lastGap) && k < |blocks|
    requires Matches(blocks[k].msg, decode, member)
    requires forall j :: 0 <= j < k ==> decode(blocks[j].msg).Some? && !Matches(blocks[j].msg, decode, member)
    ensures Search(MessagesFrom(Bytes(blocks) + lastGap, 0), decode, lat, lon, member)
            == decode(blocks[k].msg).value.nearest(lat, lon)
  {
    hide MessagesFrom;
    hide Matches;
    var messages := MessagesFrom(Bytes(blocks) + lastGap, 0);
    StreamMessages(blocks, lastGap);
    assert forall j :: 0 <= j < k ==> messages[j] == blocks[j].msg;
    assert FirstMatch(messages, decode, member, k);
    SearchFindsFirstMatch(messages, decode, lat, lon, member, k);
  }
}
