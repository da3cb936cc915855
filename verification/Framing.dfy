/**
 Framing of GRIB messages: the Indicator Section (Section 0) and End Section (Section 8) of FM 92 GRIB,
 editions 1 and 2, in the WMO Manual on Codes (WMO-No. 306, Volume I.2).
 */
module Framing {
  import opened Basics

  const GRIB: seq<byte> := [0x47, 0x52, 0x49, 0x42]
  const SEVENS: seq<byte> := [0x37, 0x37, 0x37, 0x37]

  datatype Scan = Found(start: nat, len: nat) | End | Invalid

  /** The number whose base-256 digits are `s`, most significant first. */
  function BigEndian(s: seq<byte>): (v: nat)
    decreases |s|
  {
    if s == [] then 0 else BigEndian(s[..|s| - 1]) * 256 + s[|s| - 1]
  }

  /** 256 to the power `width`. */
  function Capacity(width: nat): (c: nat)
    ensures c > 0
  {
    if width == 0 then 1 else 256 * Capacity(width - 1)
  }

  function Encode(v: nat, width: nat): (s: seq<byte>)
    ensures |s| == width
  {
    if width == 0 then [] else Encode(v / 256, width - 1) + [v % 256]
  }

  lemma {:induction false} BigEndianBound(s: seq<byte>)
    ensures BigEndian(s) < Capacity(|s|)
    decreases |s|
  {
    if s == [] {
    } else {
      BigEndianBound(s[..|s| - 1]);
    }
  }

  lemma {:induction false} EncodeDecode(v: nat, width: nat)
    requires v < Capacity(width)
    ensures BigEndian(Encode(v, width)) == v
  {
    if width == 0 {
    } else {
      EncodeDecode(v / 256, width - 1);
      assert Encode(v, width)[..width - 1] == Encode(v / 256, width - 1);
    }
  }

  /** The eight-byte and three-byte length fields fit 64 and 24 bits. */
  lemma FieldWidths()
    ensures Capacity(8) == U64_MOD && Capacity(3) == 0x100_0000
  {
  }

  /** What a scan decides about one position at which at least four bytes remain. */
  datatype Verdict = Skip | Broken | Frame(len: nat)

  function LengthVerdict(buf: seq<byte>, i: nat, len: nat, least: nat): Verdict
    requires i <= |buf| && 4 <= least
  {
    if len < least || len > |buf| - i then Broken
    else if buf[i + len - 4..i + len] != SEVENS then Broken
    else Frame(len)
  }

  predicate MarkerAt(buf: seq<byte>, i: nat) {
    i + 4 <= |buf| && buf[i..i + 4] == GRIB
  }

  lemma MarkerBytes(buf: seq<byte>, i: nat)
    requires i + 4 <= |buf|
    ensures MarkerAt(buf, i)
            <==> buf[i] == 0x47 && buf[i + 1] == 0x52 && buf[i + 2] == 0x49 && buf[i + 3] == 0x42
  {
  }

  function Examine(buf: seq<byte>, i: nat): Verdict
    requires i + 4 <= |buf|
  {
    var n := |buf|;
    if !MarkerAt(buf, i) then Skip
    else if n - i < 8 then Broken
    else if buf[i + 7] == 2 then
      if n - i < 16 then Broken else LengthVerdict(buf, i, BigEndian(buf[i + 8..i + 16]), 20)
    else if buf[i + 7] == 1 then LengthVerdict(buf, i, BigEndian(buf[i + 4..i + 7]), 12)
    else Skip
  }

  function ScanFrom(buf: seq<byte>, from: nat): Scan
    decreases |buf| - from
  {
    if |buf| < from + 4 then End
    else
      match Examine(buf, from)
      case Skip => ScanFrom(buf, from + 1)
      case Broken => Invalid
      case Frame(len) => Found(from, len)
  }

  lemma {:induction false} CapacityGrows(a: nat, b: nat)
    requires a <= b
    ensures Capacity(a) <= Capacity(b)
    decreases b - a
  {
    if a == b {
    } else {
      CapacityGrows(a, b - 1);
    }
  }

  lemma ShiftFits(s: seq<byte>)
    requires 0 < |s| <= 8
    ensures BigEndian(s[..|s| - 1]) * 256 < U64_MOD
  {
    var p := s[..|s| - 1];
    BigEndianBound(p);
    CapacityGrows(|s|, 8);
    FieldWidths();
  }

  /** The shift-and-or loop over `width` bytes, in 64-bit arithmetic. */
  method DecodeLength(buf: seq<byte>, at: nat, width: nat) returns (len: nat)
    requires at + width <= |buf| && width <= 8
    ensures len == BigEndian(buf[at..at + width])
  {
    len := 0;
    var b := 0;
    while b < width
      invariant 0 <= b <= width
      invariant len == BigEndian(buf[at..at + b])
    {
      assert buf[at..at + b + 1][..b] == buf[at..at + b];
      ShiftFits(buf[at..at + b + 1]);
      len := (len * 256) % U64_MOD + buf[at + b];
      b := b + 1;
    }
  }

  method FindMessage(buf: seq<byte>, from: nat) returns (scan: Scan)
    requires |buf| <= U64_MAX
    ensures scan == ScanFrom(buf, from)
  {
    hide BigEndian;
    hide MarkerAt;
    var n := |buf|;
    var i := from;
    while i < n && n - i >= 4
      invariant from <= i
      invariant ScanFrom(buf, i) == ScanFrom(buf, from)
      decreases n - i
    {
      MarkerBytes(buf, i);
      if buf[i] == 0x47 && buf[i + 1] == 0x52 && buf[i + 2] == 0x49 && buf[i + 3] == 0x42 {
        if n - i < 8 {
          return Invalid;
        }
        var edition := buf[i + 7];
        var len := 0;
        if edition == 2 {
          if n - i < 16 {
            return Invalid;
          }
          len := DecodeLength(buf, i + 8, 8);
        } else if edition == 1 {
          len := DecodeLength(buf, i + 4, 3);
        } else {
          i := i + 1;
          continue;
        }
        if len < (if edition == 2 then 20 else 12) || len > n - i {
          return Invalid;
        }
        if buf[i + len - 4..i + len] != SEVENS {
          return Invalid;
        }
        return Found(i, len);
      }
      i := i + 1;
    }
    return End;
  }

  // ----- What a message is, independently of how it is found

  /** A complete message: marker, edition, its own length, and the end marker. */
  ghost predicate WellFormed(m: seq<byte>) {
    && 12 <= |m| && m[..4] == GRIB && m[|m| - 4..] == SEVENS
    && ((m[7] == 1 && BigEndian(m[4..7]) == |m|) || (m[7] == 2 && 20 <= |m| && BigEndian(m[8..16]) == |m|))
  }

  /** The number in three bytes, most significant first. */
  function Three(a: nat, b: nat, c: nat): nat {
    a * 65536 + b * 256 + c
  }

  lemma BigEndianOfThree(s: seq<byte>)
    requires |s| == 3
    ensures BigEndian(s) == Three(s[0], s[1], s[2])
  {
    var two := s[..2];
    var one := two[..1];
    assert one[..0] == [] && BigEndian(one) == s[0];
    assert BigEndian(two) == BigEndian(one) * 256 + s[1];
  }

  lemma {:induction false} BigEndianConcat(high: seq<byte>, low: seq<byte>)
    ensures BigEndian(high + low) == BigEndian(high) * Capacity(|low|) + BigEndian(low)
    decreases |low|
  {
    if low == [] {
      assert high + low == high;
    } else {
      var front := low[..|low| - 1];
      assert (high + low)[..|high + low| - 1] == high + front;
      BigEndianConcat(high, front);
      assert BigEndian(high) * (256 * Capacity(|front|)) == (BigEndian(high) * Capacity(|front|)) * 256;
    }
  }

  lemma BigEndianOfEight(s: seq<byte>)
    requires |s| == 8
    ensures BigEndian(s) == Three(s[0], s[1], s[2]) * 0x100_0000_0000 + Three(s[3], s[4], s[5]) * 0x1_0000
                              + Three(0, s[6], s[7])
  {
    assert s == s[..3] + (s[3..6] + s[6..]);
    BigEndianOfThree(s[..3]);
    BigEndianOfThree(s[3..6]);
    BigEndianConcat(s[..3], s[3..6] + s[6..]);
    BigEndianConcat(s[3..6], s[6..]);
    BigEndianOfThree([0] + s[6..]);
    BigEndianConcat([0], s[6..]);
    assert [0][..0] == [] && BigEndian([0]) == 0;
    assert Capacity(1) == 256 && Capacity(2) == 0x1_0000 && Capacity(3) == 0x100_0000;
    assert Capacity(5) == 0x100_0000_0000;
  }

  /** A message, byte by byte: "GRIB", the edition, the length of the whole in its own bytes, and "7777". */
  lemma MessageBytes(m: seq<byte>)
    ensures WellFormed(m) <==>
              && 12 <= |m|
              && m[0] == 0x47 && m[1] == 0x52 && m[2] == 0x49 && m[3] == 0x42
              && (forall i :: |m| - 4 <= i < |m| ==> m[i] == 0x37)
              && ((m[7] == 1 && |m| == Three(m[4], m[5], m[6]))
                  || (m[7] == 2 && 20 <= |m|
                      && |m| == Three(m[8], m[9], m[10]) * 0x100_0000_0000 + Three(m[11], m[12], m[13]) * 0x1_0000
                                + Three(0, m[14], m[15])))
  {
    hide BigEndian;
    if 12 <= |m| {
      MarkerBytes(m, 0);
      assert m[0..4] == m[..4];
      var tail := m[|m| - 4..];
      assert forall i :: |m| - 4 <= i < |m| ==> m[i] == tail[i - (|m| - 4)];
      assert forall i :: 0 <= i < 4 ==> tail[i] == m[|m| - 4 + i];
      BigEndianOfThree(m[4..7]);
      if 16 <= |m| {
        BigEndianOfEight(m[8..16]);
      }
    }
  }

  /** A position where the scan must commit: a marker of edition 1 or 2, or one cut before its edition. */
  ghost predicate Decisive(buf: seq<byte>, i: nat) {
    MarkerAt(buf, i) && (|buf| < i + 8 || buf[i + 7] == 1 || buf[i + 7] == 2)
  }

  ghost predicate FirstDecisive(buf: seq<byte>, from: nat, j: nat) {
    from <= j && Decisive(buf, j) && forall i :: from <= i < j ==> !Decisive(buf, i)
  }

  ghost predicate MessageAt(buf: seq<byte>, i: nat, len: nat) {
    i + len <= |buf| && WellFormed(buf[i..i + len])
  }

  lemma SliceOfSlice<T>(s: seq<T>, a: nat, b: nat, c: nat, d: nat)
    requires a <= b <= |s| && c <= d <= b - a
    ensures s[a..b][c..d] == s[a + c..a + d]
  {
    var l, r := s[a..b][c..d], s[a + c..a + d];
    assert forall k :: 0 <= k < d - c ==> l[k] == s[a + c + k] == r[k];
    assert l == r;
  }

  lemma SkipIsNotDecisive(buf: seq<byte>, i: nat)
    requires i + 4 <= |buf|
    ensures Examine(buf, i) == Skip <==> !Decisive(buf, i)
  {
  }

  lemma FrameIsMessage(buf: seq<byte>, i: nat, len: nat)
    requires i + 4 <= |buf|
    ensures Examine(buf, i) == Frame(len) <==> MessageAt(buf, i, len)
  {
    hide BigEndian;
    if i + 12 <= i + len <= |buf| {
      SliceOfSlice(buf, i, i + len, 0, 4);
      SliceOfSlice(buf, i, i + len, 4, 7);
      SliceOfSlice(buf, i, i + len, len - 4, len);
      if len >= 16 {
        SliceOfSlice(buf, i, i + len, 8, 16);
      }
    }
  }

  /** The scan stops at the first decisive position and reports whether a whole message starts there. */
  ghost predicate Describes(buf: seq<byte>, from: nat, scan: Scan) {
    match scan
    case Found(start, len) => FirstDecisive(buf, from, start) && MessageAt(buf, start, len)
    case End => forall i :: from <= i ==> !Decisive(buf, i)
    case Invalid => exists j :: FirstDecisive(buf, from, j) && forall len :: !MessageAt(buf, j, len)
  }

  lemma {:induction false} ScanDescribes(buf: seq<byte>, from: nat)
    ensures Describes(buf, from, ScanFrom(buf, from))
    decreases |buf| - from
  {
    hide LengthVerdict;
    hide WellFormed;
    if |buf| < from + 4 {
    } else {
      SkipIsNotDecisive(buf, from);
      forall len ensures Examine(buf, from) == Frame(len) <==> MessageAt(buf, from, len) {
        FrameIsMessage(buf, from, len);
      }
      if Examine(buf, from) == Skip {
        ScanDescribes(buf, from + 1);
        if ScanFrom(buf, from).Invalid? {
          var j :| FirstDecisive(buf, from + 1, j) && forall len :: !MessageAt(buf, j, len);
          assert FirstDecisive(buf, from, j);
        }
      } else {
        assert FirstDecisive(buf, from, from);
      }
    }
  }

  /** No other answer fits: the description determines the scan. */
  lemma ScanIsDetermined(buf: seq<byte>, from: nat, scan: Scan)
    ensures Describes(buf, from, scan) <==> scan == ScanFrom(buf, from)
  {
    var actual := ScanFrom(buf, from);
    ScanDescribes(buf, from);
    if Describes(buf, from, scan) && scan != actual {
      if scan.Found? && actual.Found? {
        assert scan.start == actual.start;
        FrameIsMessage(buf, scan.start, scan.len);
        FrameIsMessage(buf, scan.start, actual.len);
      }
      assert false;
    }
  }
}
