/** The string functions the parsers use: find, split, decimal printing and `from_chars`. */
module Text {
  import opened Basics

  // ----- Searching

  ghost predicate OccursAt(s: string, pattern: string, i: nat) {
    i + |pattern| <= |s| && s[i..i + |pattern|] == pattern
  }

  ghost predicate Occurs(s: string, pattern: string) {
    exists i: nat :: OccursAt(s, pattern, i)
  }

  /** The first position at or after `from` at which `pattern` occurs. */
  function Find(s: string, pattern: string, from: nat): (r: Option<nat>)
    ensures r.Some? ==> from <= r.value && OccursAt(s, pattern, r.value)
                        && forall i :: from <= i < r.value ==> !OccursAt(s, pattern, i)
    ensures r.None? ==> forall i :: from <= i ==> !OccursAt(s, pattern, i)
    decreases |s| - from
  {
    if |s| < from + |pattern| then None
    else if s[from..from + |pattern|] == pattern then Some(from)
    else Find(s, pattern, from + 1)
  }

  function FindChar(s: string, c: char, from: nat): (r: Option<nat>)
    requires from <= |s|
    ensures r.Some? ==> from <= r.value < |s| && s[r.value] == c && c !in s[from..r.value]
    ensures r.None? ==> c !in s[from..]
    decreases |s| - from
  {
    if from == |s| then None
    else if s[from] == c then Some(from)
    else FindChar(s, c, from + 1)
  }

  predicate StartsWith(s: string, prefix: string) {
    prefix <= s
  }

  // ----- Splitting

  function Split(s: string, delim: char): (pieces: seq<string>)
    ensures pieces != []
    decreases |s|
  {
    match FindChar(s, delim, 0)
    case None => [s]
    case Some(p) => [s[..p]] + Split(s[p + 1..], delim)
  }

  function Join(pieces: seq<string>, delim: char): string
    requires pieces != []
  {
    if |pieces| == 1 then pieces[0] else pieces[0] + [delim] + Join(pieces[1..], delim)
  }

  ghost predicate FreeOf(pieces: seq<string>, delim: char) {
    forall p :: p in pieces ==> delim !in p
  }

  lemma {:induction false} FindCharIs(s: string, c: char, from: nat, p: nat)
    requires from <= p < |s| && s[p] == c && c !in s[from..p]
    ensures FindChar(s, c, from) == Some(p)
    decreases p - from
  {
  }

  lemma SplitAtFirst(head: string, delim: char, tail: string)
    requires delim !in head
    ensures Split(head + [delim] + tail, delim) == [head] + Split(tail, delim)
  {
    var s := head + [delim] + tail;
    assert s[0..|head|] == head && s[..|head|] == head && s[|head| + 1..] == tail;
    FindCharIs(s, delim, 0, |head|);
  }

  lemma SplitWhole(s: string, delim: char)
    requires delim !in s
    ensures Split(s, delim) == [s]
  {
  }

  /** One turn of the splitting loop. */
  lemma SplitStep(s: string, delim: char, start: nat)
    requires start <= |s|
    ensures Split(s[start..], delim)
            == match FindChar(s, delim, start)
               case None => [s[start..]]
               case Some(p) => [s[start..p]] + Split(s[p + 1..], delim)
  {
    hide Split;
    hide FindChar;
    var tail := s[start..];
    match FindChar(s, delim, start)
    case None =>
      SplitWhole(tail, delim);
    case Some(p) =>
      assert tail == s[start..p] + [delim] + s[p + 1..];
      SplitAtFirst(s[start..p], delim, s[p + 1..]);
  }

  method SplitLoop(s: string, delim: char) returns (out: seq<string>)
    ensures out == Split(s, delim)
  {
    hide Split;
    hide FindChar;
    out := [];
    var start := 0;
    assert s[0..] == s;
    while start <= |s|
      invariant 0 <= start <= |s|
      invariant Split(s, delim) == out + Split(s[start..], delim)
      decreases |s| - start
    {
      SplitStep(s, delim, start);
      var pos := FindChar(s, delim, start);
      if pos.None? {
        out := out + [s[start..]];
        break;
      }
      out := out + [s[start..pos.value]];
      start := pos.value + 1;
    }
  }

  lemma {:induction false} JoinOfSplit(s: string, delim: char)
    ensures FreeOf(Split(s, delim), delim) && Join(Split(s, delim), delim) == s
    decreases |s|
  {
    match FindChar(s, delim, 0)
    case None =>
      assert s[0..] == s;
    case Some(p) =>
      JoinOfSplit(s[p + 1..], delim);
      assert s == s[..p] + [delim] + s[p + 1..];
      assert Split(s, delim)[1..] == Split(s[p + 1..], delim);
      assert s[0..p] == s[..p];
  }

  /** Splitting undoes joining, so on delimiter-free pieces the two are inverse to each other. */
  lemma {:induction false} SplitOfJoin(pieces: seq<string>, delim: char)
    requires pieces != [] && FreeOf(pieces, delim)
    ensures Split(Join(pieces, delim), delim) == pieces
  {
    if |pieces| == 1 {
      SplitWhole(pieces[0], delim);
    } else {
      SplitOfJoin(pieces[1..], delim);
      SplitAtFirst(pieces[0], delim, Join(pieces[1..], delim));
    }
  }

  // ----- Decimal numbers

  predicate Digit(c: char) {
    '0' <= c <= '9'
  }

  predicate AllDigits(s: string) {
    forall i :: 0 <= i < |s| ==> Digit(s[i])
  }

  /** The number a string of digits denotes. */
  function Value(digits: string): nat
    requires AllDigits(digits)
    decreases |digits|
  {
    if digits == "" then 0
    else Value(digits[..|digits| - 1]) * 10 + (digits[|digits| - 1] as int - '0' as int)
  }

  function PowerOfTen(n: nat): nat {
    if n == 0 then 1 else 10 * PowerOfTen(n - 1)
  }

  /** Numerals are positional, the most significant digit first. */
  lemma {:induction false} ValueOfConcat(high: string, low: string)
    requires AllDigits(high) && AllDigits(low)
    ensures AllDigits(high + low)
    ensures Value(high + low) == Value(high) * PowerOfTen(|low|) + Value(low)
    decreases |low|
  {
    if low == "" {
      assert high + low == high;
    } else {
      var front := low[..|low| - 1];
      assert (high + low)[..|high + low| - 1] == high + front;
      ValueOfConcat(high, front);
      assert Value(high) * (10 * PowerOfTen(|front|)) == (Value(high) * PowerOfTen(|front|)) * 10;
    }
  }

  lemma ValueOfDigit(c: char)
    requires Digit(c)
    ensures Value([c]) == c as int - '0' as int
  {
    assert [c][..0] == "";
  }

  function DigitChar(d: nat): (c: char)
    requires d < 10
    ensures Digit(c) && c as int - '0' as int == d
  {
    ('0' as int + d) as char
  }

  /** `std::to_string`. */
  function ToString(n: nat): (s: string)
    ensures s != "" && AllDigits(s)
  {
    if n < 10 then [DigitChar(n)] else ToString(n / 10) + [DigitChar(n % 10)]
  }

  lemma {:induction false} ValueOfToString(n: nat)
    ensures Value(ToString(n)) == n
  {
    if n < 10 {
    } else {
      ValueOfToString(n / 10);
      assert ToString(n)[..|ToString(n)| - 1] == ToString(n / 10);
    }
  }

  /** The number of digits at the start of `s`. */
  function DigitRun(s: string): (k: nat)
    ensures k <= |s| && AllDigits(s[..k]) && (k < |s| ==> !Digit(s[k]))
  {
    if s == "" || !Digit(s[0]) then 0
    else
      var k := 1 + DigitRun(s[1..]);
      assert forall i :: 0 < i < k ==> s[..k][i] == s[1..][..k - 1][i - 1];
      k
  }

  lemma {:induction false} DigitRunIs(s: string, k: nat)
    requires k <= |s| && AllDigits(s[..k]) && (k < |s| ==> !Digit(s[k]))
    ensures DigitRun(s) == k
    decreases k
  {
  }

  lemma DigitRunOf(digits: string, rest: string)
    requires AllDigits(digits) && (rest != "" ==> !Digit(rest[0]))
    ensures DigitRun(digits + rest) == |digits| && (digits + rest)[..|digits|] == digits
  {
  }

  datatype Parsed = Parsed(value: nat, consumed: nat)

  /**
   Unsigned `from_chars` for numbers up to `max`: the longest run of digits, leading zeros included;
   None when there is no digit or the number is out of range.
   */
  function FromChars(s: string, max: nat): (r: Option<Parsed>)
    ensures r.Some? ==> 0 < r.value.consumed <= |s| && r.value.value <= max
  {
    var k := DigitRun(s);
    if k == 0 then None
    else
      var v := Value(s[..k]);
      if v <= max then Some(Parsed(v, k)) else None
  }

  lemma FromCharsOf(digits: string, rest: string, max: nat)
    requires AllDigits(digits) && digits != "" && (rest != "" ==> !Digit(rest[0]))
    ensures FromChars(digits + rest, max)
            == if Value(digits) <= max then Some(Parsed(Value(digits), |digits|)) else None
  {
    DigitRunOf(digits, rest);
  }

  /** Only the run of digits at the start matters. */
  lemma FromCharsOfRun(s: string, i: nat, j: nat, max: nat)
    requires i <= j <= |s| && (forall x :: i <= x < j ==> Digit(s[x])) && (j < |s| ==> !Digit(s[j]))
    ensures FromChars(s[i..j], max) == FromChars(s[i..], max)
    ensures i == j ==> FromChars(s[i..], max) == None
  {
    assert s[i..][..j - i] == s[i..j] && s[i..j][..j - i] == s[i..j];
    DigitRunIs(s[i..], j - i);
    DigitRunIs(s[i..j], j - i);
  }

  /** `to_u64`: the whole string must be the number. */
  function ToU64(s: string): Option<nat> {
    match FromChars(s, U64_MAX)
    case Some(p) => if p.consumed == |s| then Some(p.value) else None
    case None => None
  }

  /** It accepts exactly the non-empty digit strings that denote a 64-bit number. */
  lemma ToU64Exact(s: string)
    ensures ToU64(s).Some? <==> s != "" && AllDigits(s) && Value(s) <= U64_MAX
    ensures ToU64(s).Some? ==> ToU64(s).value == Value(s)
  {
    if s != "" && AllDigits(s) {
      FromCharsOf(s, "", U64_MAX);
      assert s + "" == s;
    } else {
      assert s[..|s|] == s;
    }
  }

  lemma ToU64OfToString(n: nat)
    requires n <= U64_MAX
    ensures ToU64(ToString(n)) == Some(n)
  {
    ToU64Exact(ToString(n));
    ValueOfToString(n);
  }
}
