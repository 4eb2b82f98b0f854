/** Reading numbers (`strtoul`), against section 7.22.1.4 of ISO C11. */
module Reading {
  import opened Basics
  import opened Numerals

  predicate IsSpace(c: char) { c in " \n\r\t\U{0B}\U{0C}" }

  /** What a character counts as a digit for; 36 and more is no digit of any base. */
  function DigitOf(c: char): nat {
    if c < '0' then 36
    else
      var upper := if 'a' <= c <= 'z' then c as int - ('a' as int - 'A' as int) else c as int;
      if upper >= 'A' as int then upper - ('A' as int - '9' as int - 1) - '0' as int else upper - '0' as int
  }

  /** Digits by the C standard: decimal digits and letters in either case. */
  function StandardDigit(c: char): nat {
    if '0' <= c <= '9' then c as int - '0' as int
    else if 'a' <= c <= 'z' then c as int - 'a' as int + 10
    else if 'A' <= c <= 'Z' then c as int - 'A' as int + 10
    else 36
  }

  /** The digits of a base are those of the standard, except that the seven characters
      between '9' and 'A' also count, from base 11 on. */
  lemma DigitsAgree(c: char, b: nat)
    requires 2 <= b <= 36
    ensures (if DigitOf(c) < b then StandardDigit(c) == DigitOf(c) else b <= StandardDigit(c))
            <==> !(':' <= c <= '@' && c as int - '0' as int < b)
  {
  }

  function SpaceEnd(s: string, i: nat): (j: nat)
    requires i <= |s|
    ensures i <= j <= |s| && forall k | i <= k < j :: IsSpace(s[k])
    ensures j < |s| ==> !IsSpace(s[j])
    decreases |s| - i
  {
    if i < |s| && IsSpace(s[i]) then SpaceEnd(s, i + 1) else i
  }

  function DigitsEnd(s: string, i: nat, b: nat): (j: nat)
    requires i <= |s|
    ensures i <= j <= |s| && forall k | i <= k < j :: DigitOf(s[k]) < b
    ensures j < |s| ==> b <= DigitOf(s[j])
    decreases |s| - i
  {
    if i < |s| && DigitOf(s[i]) < b then DigitsEnd(s, i + 1, b) else i
  }

  /** The digits written from i to j. */
  function Written(s: string, i: nat, j: nat): (ds: Digits)
    requires i <= j <= |s|
    ensures |ds| == j - i && forall k | 0 <= k < |ds| :: ds[k] == DigitOf(s[i + k])
  {
    seq<nat>(j - i, k requires 0 <= k < j - i => DigitOf(s[i + k]))
  }

  // ---------- what is read ----------

  predicate IsBase(base: int) { base == 0 || 2 <= base <= 36 }

  /** Behind the whitespace and the sign. */
  function SignEnd(s: string): (j: nat)
    ensures j <= |s|
  {
    var i := SpaceEnd(s, 0);
    if i < |s| && s[i] in "+-" then i + 1 else i
  }

  predicate Minus(s: string) {
    var i := SpaceEnd(s, 0);
    i < |s| && s[i] == '-'
  }

  /** A zero and an x where the digits should begin. */
  predicate Marked(s: string) {
    var j := SignEnd(s);
    j + 1 < |s| && s[j] == '0' && s[j + 1] in "xX"
  }

  /** Where the digits begin and in which base. */
  datatype Start = Start(at: nat, base: nat)

  /** A zero is skipped, and with it an x; a base other than 16 refuses the x. */
  function StartOf(s: string, base: int): (start: Option<Start>)
    requires IsBase(base)
    ensures start.Some? ==> SignEnd(s) <= start.value.at <= |s| && 2 <= start.value.base <= 36
  {
    var j := SignEnd(s);
    if Marked(s) then if base != 0 && base != 16 then None else Some(Start(j + 2, 16))
    else if j < |s| && s[j] == '0' then Some(Start(j + 1, if base == 0 then 8 else base))
    else Some(Start(j, if base == 0 then 10 else base))
  }

  /** A number in the bits that `unsigned long` has. */
  function Low(span: Span, v: nat): (r: nat)
    ensures r < span && (v < span ==> r == v)
  {
    if span == SPAN_32 then v % SPAN_32 else v % SPAN_64
  }

  /** `-x` for an unsigned x. */
  function Negated(span: Span, v: nat): (r: nat)
    requires v < span
    ensures r < span && Low(span, r + v) == 0
  {
    if v == 0 then 0 else span - v
  }

  function Signed(span: Span, minus: bool, v: nat): (r: nat)
    requires v < span
    ensures r < span
  {
    if minus then Negated(span, v) else v
  }

  /** In the bits there are the number gets smaller by its digit n. */
  ghost predicate Drops(span: Span, ds: Digits, b: nat, n: nat)
    requires n < |ds|
  {
    Low(span, Value(ds[..n + 1], b)) < Low(span, Value(ds[..n], b))
  }

  /** The first digit from n on that makes the number smaller. */
  ghost function FirstDrop(span: Span, ds: Digits, b: nat, n: nat): (k: nat)
    requires n <= |ds|
    ensures n <= k <= |ds| && (k < |ds| ==> Drops(span, ds, b, k)) && forall i | n <= i < k :: !Drops(span, ds, b, i)
    decreases |ds| - n
  {
    if n == |ds| || Drops(span, ds, b, n) then n else FirstDrop(span, ds, b, n + 1)
  }

  /** The result, and where reading ends: the largest number, at the first digit that
      makes the number smaller; without such a digit, the number's low bits,
      negated by a minus sign, behind its digits. */
  ghost function Outcome(span: Span, ds: Digits, b: nat, at: nat, minus: bool): (nat, nat) {
    var k := FirstDrop(span, ds, b, 0);
    if k < |ds| then (span - 1, at + k) else (Signed(span, minus, Low(span, Value(ds, b))), at + |ds|)
  }

  ghost function Read(span: Span, s: string, base: int): (nat, nat) {
    if !IsBase(base) then (0, 0)
    else
      var start := StartOf(s, base);
      if start.None? then (0, 0)
      else
        var at, b := start.value.at, start.value.base;
        Outcome(span, Written(s, at, DigitsEnd(s, at, b)), b, at, Minus(s))
  }

  /** Numbers in range never get smaller. */
  lemma InRangeNeverDrops(span: Span, ds: Digits, b: nat, n: nat)
    requires 1 <= b && n <= |ds| && Value(ds[..n], b) < span
    ensures forall i | 0 <= i < n :: !Drops(span, ds, b, i)
    ensures n <= FirstDrop(span, ds, b, 0)
  {
    forall i | 0 <= i < n
      ensures !Drops(span, ds, b, i)
    {
      PrefixSmaller(ds, b, i, i + 1);
      PrefixSmaller(ds, b, i + 1, n);
    }
  }

  lemma PrefixSmaller(ds: Digits, b: nat, m: nat, n: nat)
    requires 1 <= b && m <= n <= |ds|
    ensures Value(ds[..m], b) <= Value(ds[..n], b)
  {
    ValueGrows(ds[..n], m, b);
    assert ds[..n][..m] == ds[..m];
  }

  lemma DigitOfChar(d: nat, upcase: bool)
    requires d < 36
    ensures DigitOf(CharOf(d, upcase)) == d && !IsSpace(CharOf(d, upcase)) && CharOf(d, upcase) !in "+-"
    ensures CharOf(d, upcase) == '0' <==> d == 0
  {
  }

  lemma NothingRead(ds: Digits, b: nat)
    ensures Value(ds[..0], b) == 0
  {
  }

  lemma OutcomeInRange(span: Span, ds: Digits, b: nat, at: nat, minus: bool)
    requires 1 <= b && Value(ds, b) < span
    ensures Outcome(span, ds, b, at, minus) == (Signed(span, minus, Value(ds, b)), at + |ds|)
  {
    hide Value, FirstDrop;
    assert ds[..|ds|] == ds;
    InRangeNeverDrops(span, ds, b, |ds|);
  }

  /** Reading back what was printed gives the number, and ends at the terminator. */
  lemma RoundTrip(span: Span, ds: Digits, b: nat, upcase: bool, more: string)
    requires 2 <= b <= 36 && Numeral(ds, b) && DigitsOf(ds, 36) && Value(ds, b) < span
    ensures Read(span, Text(ds, upcase) + [END] + more, b) == (Value(ds, b), |ds|)
  {
    PrintedStart(ds, b, upcase, more);
    SingleZero(ds, b);
    hide Value, StartOf, DigitsEnd, Written, Minus, SignEnd, Outcome, Text;
    if ds[0] == 0 {
      OutcomeInRange(span, [], b, 1, false);
    } else {
      OutcomeInRange(span, ds, b, 0, false);
    }
  }

  lemma ReadPrinted(span: Span, ds: Digits, b: nat, upcase: bool, more: string)
    requires 2 <= b <= 36 && Numeral(ds, b) && DigitsOf(ds, 36) && ds[0] != 0
    ensures Read(span, Text(ds, upcase) + [END] + more, b) == Outcome(span, ds, b, 0, false)
  {
    hide StartOf, DigitsEnd, Written, Minus, SignEnd, Outcome;
    PrintedStart(ds, b, upcase, more);
  }

  lemma SingleZero(ds: Digits, b: nat)
    ensures Value([], b) == 0
    ensures |ds| == 1 && ds[0] == 0 ==> Value(ds, b) == 0
  {
    if |ds| == 1 {
      assert ds == [] + [ds[0]];
      ValueOfMore([], ds[0], b);
    }
  }

  /** The digits found in a printed number; a single zero is skipped. */
  lemma PrintedStart(ds: Digits, b: nat, upcase: bool, more: string)
    requires 2 <= b <= 36 && Numeral(ds, b) && DigitsOf(ds, 36)
    ensures var t := Text(ds, upcase) + [END] + more;
            && SignEnd(t) == 0 && !Minus(t)
            && if ds[0] == 0
               then StartOf(t, b) == Some(Start(1, b)) && DigitsEnd(t, 1, b) == 1 && Written(t, 1, 1) == []
               else StartOf(t, b) == Some(Start(0, b)) && DigitsEnd(t, 0, b) == |ds| && Written(t, 0, |ds|) == ds
  {
    var t := Text(ds, upcase) + [END] + more;
    assert ds[0] in ds;
    DigitOfChar(ds[0], upcase);
    assert t[0] == CharOf(ds[0], upcase) && t[|ds|] == END;
    if ds[0] != 0 {
      forall k | 0 <= k < |ds|
        ensures DigitOf(t[k]) == ds[k] < b
      {
        assert ds[k] in ds;
        DigitOfChar(ds[k], upcase);
      }
    }
  }

  /** A number in range that one more nine takes out of it. */
  function InRangeStill(span: Span): nat {
    if span == SPAN_32 then 2_999_999_999 else 2_999_999_999_999_999_999
  }

  /** Not every overflow is noticed: 29999999999 and 29999999999999999999 are read as
      other numbers, and the standard has the largest one. */
  lemma UnnoticedOverflow(span: Span, ds: Digits, upcase: bool)
    requires Numeral(ds, 10) && Value(ds, 10) == InRangeStill(span)
    ensures DigitsOf(ds + [9], 36) && span <= Value(ds + [9], 10) == 10 * InRangeStill(span) + 9
    ensures Read(span, Text(ds + [9], upcase) + [END], 10) ==
            (if span == SPAN_32 then 4_230_196_223 else 11_553_255_926_290_448_383, |ds| + 1)
  {
    hide Value, Outcome, Numeral, DigitsOf, Read, Text;
    ValueOfMore(ds, 9, 10);
    OneMoreNine(ds);
    var text := Text(ds + [9], upcase) + [END];
    assert text == text + [];
    ReadPrinted(span, ds + [9], 10, upcase, []);
    UnnoticedDigits(span, ds, ds + [9]);
  }

  lemma OneMoreNine(ds: Digits)
    requires Numeral(ds, 10) && 0 < Value(ds, 10)
    ensures Numeral(ds + [9], 10) && DigitsOf(ds + [9], 36) && (ds + [9])[0] != 0
  {
    hide Value;
    SingleZero(ds, 10);
  }

  lemma UnnoticedDigits(span: Span, ds: Digits, all: Digits)
    requires Value(ds, 10) == InRangeStill(span) && all == ds + [9]
    ensures Outcome(span, all, 10, 0, false) ==
            (if span == SPAN_32 then 4_230_196_223 else 11_553_255_926_290_448_383, |all|)
  {
    hide Value;
    var n := |ds|;
    ValueOfMore(ds, 9, 10);
    assert all[..n] == ds && all[..n + 1] == all;
    InRangeNeverDrops(span, all, 10, n);
    assert !Drops(span, all, 10, n);
  }

  // ---------- the standard ----------

  /** Behind the digits of a base, as the standard has them. */
  function StandardEnd(s: string, i: nat, b: nat): (j: nat)
    requires i <= |s|
    ensures i <= j <= |s| && forall k | i <= k < j :: StandardDigit(s[k]) < b
    ensures j < |s| ==> b <= StandardDigit(s[j])
    decreases |s| - i
  {
    if i < |s| && StandardDigit(s[i]) < b then StandardEnd(s, i + 1, b) else i
  }

  function StandardWritten(s: string, i: nat, j: nat): (ds: Digits)
    requires i <= j <= |s|
    ensures |ds| == j - i && forall k | 0 <= k < |ds| :: ds[k] == StandardDigit(s[i + k])
  {
    seq<nat>(j - i, k requires 0 <= k < j - i => StandardDigit(s[i + k]))
  }

  /** A hexadecimal prefix counts only with a hexadecimal digit behind it. */
  predicate HexPrefix(s: string, base: int) {
    var j := SignEnd(s);
    (base == 0 || base == 16) && Marked(s) && j + 2 < |s| && StandardDigit(s[j + 2]) < 16
  }

  /** Base 0 takes the base from the number: as for integer constants. */
  function StandardStart(s: string, base: int): (start: Start)
    requires IsBase(base)
    ensures SignEnd(s) <= start.at <= |s| && 2 <= start.base <= 36
  {
    var j := SignEnd(s);
    if HexPrefix(s, base) then Start(j + 2, 16)
    else Start(j, if base != 0 then base else if j < |s| && s[j] == '0' then 8 else 10)
  }

  /** The largest number if the number is out of range. */
  function InRange(span: Span, minus: bool, v: nat): nat { if v < span then Signed(span, minus, v) else span - 1 }

  /** The subject sequence is the longest of the expected form; without one there is no
      conversion, and reading ends where the text begins. */
  function StandardRead(span: Span, s: string, base: int): (nat, nat)
    requires IsBase(base)
  {
    var start := StandardStart(s, base);
    var end := StandardEnd(s, start.at, start.base);
    if end == start.at then (0, 0)
    else (InRange(span, Minus(s), Value(StandardWritten(s, start.at, end), start.base)), end)
  }

  /** The prefix, if any, is one both read alike. */
  predicate PrefixAlike(s: string, base: int) { Marked(s) ==> HexPrefix(s, base) }

  /** A character between '9' and 'A' that is read as a digit. */
  predicate ExtraDigit(s: string, i: nat, b: nat) { i < |s| && ':' <= s[i] <= '@' && s[i] as int - '0' as int < b }

  /** When reading meets the standard. The last two cases are coincidences: the largest
      number comes out of an overflow although none was noticed, or one was noticed at
      an extra digit. */
  ghost predicate Meets(span: Span, s: string, base: int)
    requires IsBase(base)
  {
    PrefixAlike(s, base) &&
    var at, b := StandardStart(s, base).at, StandardStart(s, base).base;
    var end := StandardEnd(s, at, b);
    var ds := Written(s, at, DigitsEnd(s, at, b));
    var v, k := Value(StandardWritten(s, at, end), b), FirstDrop(span, ds, b, 0);
    if end == at then at == 0 && !ExtraDigit(s, end, b)
    else if !ExtraDigit(s, end, b) then
      v < span || (k == |ds| && Signed(span, Minus(s), Low(span, v)) == span - 1)
    else k == end - at && InRange(span, Minus(s), v) == span - 1
  }

  lemma {:induction false} LeadingZero(ds: Digits, b: nat)
    ensures Value([0] + ds, b) == Value(ds, b)
    decreases |ds|
  {
    if ds == [] {
      assert [0] == [] + [0];
      ValueOfMore([], 0, b);
    } else {
      var n := |ds| - 1;
      LeadingZero(ds[..n], b);
      assert ds == ds[..n] + [ds[n]] && [0] + ds == ([0] + ds[..n]) + [ds[n]];
      ValueOfMore(ds[..n], ds[n], b);
      ValueOfMore([0] + ds[..n], ds[n], b);
    }
  }

  lemma LeadingZeroStep(span: Span, ds: Digits, b: nat, n: nat)
    requires n < |ds|
    ensures Drops(span, [0] + ds, b, n + 1) <==> Drops(span, ds, b, n)
  {
    hide Value, Low;
    var all := [0] + ds;
    LeadingZero(ds[..n], b);
    LeadingZero(ds[..n + 1], b);
    assert all[..n + 1] == [0] + ds[..n] && all[..n + 2] == [0] + ds[..n + 1];
  }

  lemma {:induction false} LeadingZeroDrops(span: Span, ds: Digits, b: nat, n: nat)
    requires n <= |ds|
    ensures FirstDrop(span, [0] + ds, b, n + 1) == FirstDrop(span, ds, b, n) + 1
    decreases |ds| - n
  {
    hide Drops;
    if n < |ds| {
      LeadingZeroStep(span, ds, b, n);
      LeadingZeroDrops(span, ds, b, n + 1);
    }
  }

  /** It makes no difference whether a leading zero is skipped. */
  lemma LeadingZeroOutcome(span: Span, ds: Digits, b: nat, at: nat, minus: bool)
    ensures Outcome(span, [0] + ds, b, at, minus) == Outcome(span, ds, b, at + 1, minus)
  {
    hide Value;
    var all := [0] + ds;
    NothingRead(all, b);
    assert !Drops(span, all, b, 0) by {
      LeadingZero([], b);
      NothingRead(ds, b);
      assert all[..1] == [0] + ds[..0];
      LeadingZero(ds[..0], b);
    }
    LeadingZeroDrops(span, ds, b, 0);
    LeadingZero(ds, b);
  }

  /** With a prefix read alike, both begin at the same digits. */
  lemma ReadFromStandardStart(span: Span, s: string, base: int)
    requires IsBase(base) && PrefixAlike(s, base)
    ensures var at, b := StandardStart(s, base).at, StandardStart(s, base).base;
            Read(span, s, base) == Outcome(span, Written(s, at, DigitsEnd(s, at, b)), b, at, Minus(s))
  {
    hide SignEnd, Minus, Outcome, DigitsEnd, Written;
    var j := SignEnd(s);
    if !Marked(s) && j < |s| && s[j] == '0' {
      var b := StandardStart(s, base).base;
      ZeroWritten(s, j, b);
      LeadingZeroOutcome(span, Written(s, j + 1, DigitsEnd(s, j + 1, b)), b, j, Minus(s));
    }
  }

  lemma ZeroWritten(s: string, j: nat, b: nat)
    requires j < |s| && s[j] == '0' && 2 <= b
    ensures j + 1 <= DigitsEnd(s, j + 1, b) == DigitsEnd(s, j, b) <= |s|
    ensures Written(s, j, DigitsEnd(s, j, b)) == [0] + Written(s, j + 1, DigitsEnd(s, j + 1, b))
  {
    assert DigitOf(s[j]) == 0;
  }

  /** With another prefix, reading ends elsewhere. */
  lemma PrefixDiffers(span: Span, s: string, base: int)
    requires IsBase(base) && !PrefixAlike(s, base)
    ensures Read(span, s, base).1 != StandardRead(span, s, base).1
  {
    hide SignEnd, Minus, Value;
    var j, b := SignEnd(s), StandardStart(s, base).base;
    assert StandardDigit('0') == 0;
    assert StandardEnd(s, j, b) == StandardEnd(s, j + 1, b);
    assert base == 0 || base == 16 ==> StandardEnd(s, j + 1, b) == j + 1;
  }

  lemma {:induction false} DigitsReach(s: string, i: nat, j: nat, b: nat)
    requires i <= j <= |s| && forall k | i <= k < j :: DigitOf(s[k]) < b
    ensures j <= DigitsEnd(s, i, b)
    decreases j - i
  {
    if i < j {
      DigitsReach(s, i + 1, j, b);
    }
  }

  /** The standard's digits are the first that are read, and all unless an extra digit
      follows. */
  lemma SameDigits(s: string, at: nat, b: nat)
    requires at <= |s| && 2 <= b <= 36
    ensures var end := StandardEnd(s, at, b);
            && end <= DigitsEnd(s, at, b)
            && Written(s, at, DigitsEnd(s, at, b))[..end - at] == StandardWritten(s, at, end)
            && (end < DigitsEnd(s, at, b) <==> ExtraDigit(s, end, b))
  {
    var end, last := StandardEnd(s, at, b), DigitsEnd(s, at, b);
    forall k | at <= k < end
      ensures DigitOf(s[k]) == StandardDigit(s[k]) < b
    {
      DigitsAgree(s[k], b);
    }
    DigitsReach(s, at, end, b);
    if end < |s| {
      DigitsAgree(s[end], b);
    }
  }

  /** The results are the standard's exactly in the cases named. */
  lemma ReadingMeets(span: Span, s: string, base: int)
    requires IsBase(base)
    ensures Read(span, s, base) == StandardRead(span, s, base) <==> Meets(span, s, base)
  {
    if PrefixAlike(s, base) {
      DigitsMeet(span, s, base);
    } else {
      PrefixDiffers(span, s, base);
    }
  }

  /** The standard's result in terms of the digits read. */
  lemma StandardInParts(span: Span, s: string, base: int)
    requires IsBase(base)
    ensures var at, b := StandardStart(s, base).at, StandardStart(s, base).base;
            var end, ds := StandardEnd(s, at, b), Written(s, at, DigitsEnd(s, at, b));
            && end - at <= |ds|
            && StandardRead(span, s, base) ==
               if end == at then (0, 0) else (InRange(span, Minus(s), Value(ds[..end - at], b)), end)
  {
    hide StandardStart, Minus, Value;
    SameDigits(s, StandardStart(s, base).at, StandardStart(s, base).base);
  }

  lemma MeetsInParts(span: Span, s: string, base: int)
    requires IsBase(base) && PrefixAlike(s, base)
    ensures var at, b, minus := StandardStart(s, base).at, StandardStart(s, base).base, Minus(s);
            var end, ds := StandardEnd(s, at, b), Written(s, at, DigitsEnd(s, at, b));
            var n, k := end - at, FirstDrop(span, ds, b, 0);
            && n <= |ds|
            && (Meets(span, s, base) <==>
                  var v := Value(ds[..n], b);
                  if n == 0 then at == 0 && |ds| == 0
                  else if |ds| == n then v < span || (k == |ds| && Signed(span, minus, Low(span, v)) == span - 1)
                  else k == n && InRange(span, minus, v) == span - 1)
  {
    hide StandardStart, Minus, Value, FirstDrop, Signed, InRange, ExtraDigit, PrefixAlike;
    SameDigits(s, StandardStart(s, base).at, StandardStart(s, base).base);
  }

  /** The digits read and how many of them are the standard's. */
  lemma Parts(span: Span, s: string, base: int) returns (ds: Digits, b: nat, at: nat, n: nat)
    requires IsBase(base) && PrefixAlike(s, base)
    ensures n <= |ds| && 1 <= b && (at == 0 ==> !Minus(s))
    ensures Read(span, s, base) == Outcome(span, ds, b, at, Minus(s))
    ensures StandardRead(span, s, base) ==
            if n == 0 then (0, 0) else (InRange(span, Minus(s), Value(ds[..n], b)), at + n)
    ensures var v, k := Value(ds[..n], b), FirstDrop(span, ds, b, 0);
            Meets(span, s, base) <==>
              if n == 0 then at == 0 && |ds| == 0
              else if |ds| == n then v < span || (k == |ds| && Signed(span, Minus(s), Low(span, v)) == span - 1)
              else k == n && InRange(span, Minus(s), v) == span - 1
  {
    hide StandardStart, StandardRead, Meets, Read, Outcome, FirstDrop, Value, Minus, Signed, InRange, PrefixAlike,
         Drops;
    StartInside(s, base);
    at, b := StandardStart(s, base).at, StandardStart(s, base).base;
    ds, n := Written(s, at, DigitsEnd(s, at, b)), StandardEnd(s, at, b) - at;
    StandardInParts(span, s, base);
    MeetsInParts(span, s, base);
    ReadFromStandardStart(span, s, base);
  }

  lemma DigitsMeet(span: Span, s: string, base: int)
    requires IsBase(base) && PrefixAlike(s, base)
    ensures Read(span, s, base) == StandardRead(span, s, base) <==> Meets(span, s, base)
  {
    hide StandardRead, Meets, Read, Outcome, FirstDrop, Value, Minus, Signed, InRange, PrefixAlike, IsBase;
    var ds, b, at, n := Parts(span, s, base);
    OutcomeMeets(span, ds, b, at, n, Minus(s));
  }

  lemma StartInside(s: string, base: int)
    requires IsBase(base)
    ensures StandardStart(s, base).at <= |s| && 2 <= StandardStart(s, base).base <= 36
    ensures StandardStart(s, base).at == 0 ==> !Minus(s)
  {
  }

  /** The same for the digits alone, of which the first n are the standard's. */
  lemma OutcomeMeets(span: Span, ds: Digits, b: nat, at: nat, n: nat, minus: bool)
    requires n <= |ds| && 1 <= b && (at == 0 ==> !minus)
    ensures var v, k := Value(ds[..n], b), FirstDrop(span, ds, b, 0);
            Outcome(span, ds, b, at, minus) == (if n == 0 then (0, 0) else (InRange(span, minus, v), at + n)) <==>
            if n == 0 then at == 0 && |ds| == 0
            else if |ds| == n then v < span || (k == |ds| && Signed(span, minus, Low(span, v)) == span - 1)
            else k == n && InRange(span, minus, v) == span - 1
  {
    hide Value;
    NothingRead(ds, b);
    assert |ds| > 0 ==> !Drops(span, ds, b, 0);
    if |ds| == n {
      assert ds[..n] == ds;
      if Value(ds, b) < span {
        OutcomeInRange(span, ds, b, at, minus);
      }
    }
  }

  /** Where they differ, by example. */
  lemma Differences(span: Span)
    ensures Read(span, "+" + [END], 10) == (0, 1) && StandardRead(span, "+" + [END], 10) == (0, 0)
    ensures Read(span, "0x" + [END], 16) == (0, 2) && StandardRead(span, "0x" + [END], 16) == (0, 1)
    ensures Read(span, "0x5" + [END], 10) == (0, 0) && StandardRead(span, "0x5" + [END], 10) == (0, 1)
    ensures Read(span, ":" + [END], 16) == (10, 1) && StandardRead(span, ":" + [END], 16) == (0, 0)
  {
    SignAlone(span);
    PrefixAlone(span);
    PrefixRefused(span);
    ColonRead(span);
  }

  lemma SignAlone(span: Span)
    ensures Read(span, "+" + [END], 10) == (0, 1) && StandardRead(span, "+" + [END], 10) == (0, 0)
  {
    var s := "+" + [END];
    assert SpaceEnd(s, 0) == 0 && DigitsEnd(s, 1, 10) == 1 && Written(s, 1, 1) == [];
    OutcomeInRange(span, [], 10, 1, false);
    assert StandardEnd(s, 1, 10) == 1;
  }

  lemma PrefixAlone(span: Span)
    ensures Read(span, "0x" + [END], 16) == (0, 2) && StandardRead(span, "0x" + [END], 16) == (0, 1)
  {
    var s := "0x" + [END];
    assert SpaceEnd(s, 0) == 0 && StartOf(s, 16) == Some(Start(2, 16)) && !Minus(s);
    assert DigitsEnd(s, 2, 16) == 2 && Written(s, 2, 2) == [];
    assert StandardStart(s, 16) == Start(0, 16);
    assert StandardEnd(s, 0, 16) == StandardEnd(s, 1, 16) == 1 && StandardWritten(s, 0, 1) == [0];
    hide SpaceEnd, StartOf, DigitsEnd, Written, StandardStart, StandardEnd, StandardWritten, Outcome, Minus;
    OneDigit(0, 16);
    OutcomeInRange(span, [], 16, 2, false);
  }

  lemma PrefixRefused(span: Span)
    ensures Read(span, "0x5" + [END], 10) == (0, 0) && StandardRead(span, "0x5" + [END], 10) == (0, 1)
  {
    var s := "0x5" + [END];
    assert SpaceEnd(s, 0) == 0;
    assert StandardEnd(s, 0, 10) == StandardEnd(s, 1, 10) == 1;
    assert StandardWritten(s, 0, 1) == [0];
    SingleZero([0], 10);
  }

  lemma ColonRead(span: Span)
    ensures Read(span, ":" + [END], 16) == (10, 1) && StandardRead(span, ":" + [END], 16) == (0, 0)
  {
    var s := ":" + [END];
    assert SpaceEnd(s, 0) == 0 && StartOf(s, 16) == Some(Start(0, 16)) && !Minus(s);
    assert DigitsEnd(s, 0, 16) == DigitsEnd(s, 1, 16) == 1 && Written(s, 0, 1) == [10];
    assert StandardEnd(s, 0, 16) == 0;
    hide SpaceEnd, StartOf, DigitsEnd, Written, StandardEnd, Outcome, Minus;
    OneDigit(10, 16);
    OutcomeInRange(span, [10], 16, 0, false);
  }

  lemma OneDigit(d: nat, b: nat)
    ensures Value([d], b) == d
  {
    assert [d] == [] + [d];
    ValueOfMore([], d, b);
  }

  // ---------- the method ----------

  method SkipSpace(s: string) returns (pos: nat)
    requires END in s
    ensures pos == SpaceEnd(s, 0) < |s| && END in s[pos..]
  {
    pos := 0;
    while IsSpace(s[pos])
      invariant pos < |s| && END in s[pos..] && SpaceEnd(s, pos) == SpaceEnd(s, 0)
      decreases |s| - pos
    {
      NotYet(s, pos);
      pos := pos + 1;
    }
  }

  method SkipSign(s: string) returns (pos: nat, minus: bool)
    requires END in s
    ensures pos == SignEnd(s) < |s| && END in s[pos..] && minus == Minus(s)
  {
    hide SpaceEnd, IsSpace;
    pos := SkipSpace(s);
    minus := false;
    if s[pos] == '+' || s[pos] == '-' {
      minus := s[pos] == '-';
      NotYet(s, pos);
      pos := pos + 1;
    }
  }

  method SkipStart(s: string, base: int) returns (minus: bool, start: Option<Start>)
    requires END in s && IsBase(base)
    ensures minus == Minus(s) && start == StartOf(s, base)
    ensures start.Some? ==> END in s[start.value.at..]
  {
    hide SignEnd, Minus;
    var pos: nat;
    pos, minus := SkipSign(s);
    var b := base;
    if s[pos] == '0' {
      NotYet(s, pos);
      pos := pos + 1;
      if s[pos] == 'x' || s[pos] == 'X' {
        if b != 0 && b != 16 {
          return minus, None;
        }
        b := 16;
        NotYet(s, pos);
        pos := pos + 1;
      } else if b == 0 {
        b := 8;
      }
    } else if b == 0 {
      b := 10;
    }
    return minus, Some(Start(pos, b));
  }

  /** Before the terminator there is a next character. */
  lemma NotYet(s: string, i: nat)
    requires i < |s| && END in s[i..] && s[i] != END
    ensures i + 1 < |s| && END in s[i + 1..]
  {
    assert s[i..] == [s[i]] + s[i + 1..];
  }

  method Strtoul(span: Span, s: string, base: int) returns (result: nat, end: nat)
    requires END in s
    ensures (result, end) == Read(span, s, base)
  {
    hide StartOf, SignEnd, Minus, DigitsEnd, Written, FirstDrop, Value;
    result, end := 0, 0;
    if base != 0 && (base < 2 || base > 36) {
      return;
    }
    var minus, start := SkipStart(s, base);
    if start.None? {
      return;
    }
    var noticed;
    result, end, noticed := ReadDigits(span, s, start.value.at, start.value.base);
    if minus && !noticed {
      result := Negated(span, result);
    }
  }

  /** One more digit in the bits there are. */
  function Appended(span: Span, result: nat, b: nat, d: nat): (r: nat)
    ensures r < span
  {
    Low(span, result * b + d)
  }

  /** Only the low bits of the number matter for those of the next one. */
  lemma AppendedIsLow(span: Span, v: nat, b: nat, d: nat)
    ensures Appended(span, Low(span, v), b, d) == Low(span, v * b + d)
  {
    hide Low;
    var q := HighPart(span, v);
    var r: nat := Low(span, v);
    TimesBase(span, q, r, b);
    WholeSpans(span, q * b, r * b + d);
  }

  lemma HighPart(span: Span, v: nat) returns (q: nat)
    ensures v == span * q + Low(span, v)
  {
    if span == SPAN_32 {
      q := v / SPAN_32;
    } else {
      q := v / SPAN_64;
    }
  }

  lemma TimesBase(n: nat, q: nat, r: nat, b: nat)
    ensures (n * q + r) * b == n * (q * b) + r * b
  {
  }

  lemma WholeSpans(span: Span, k: nat, t: nat)
    ensures Low(span, span * k + t) == Low(span, t)
  {
    if span == SPAN_32 {
      assert span * k == SPAN_32 * k;
    } else {
      assert span * k == SPAN_64 * k;
    }
  }

  lemma DigitStep(span: Span, ds: Digits, b: nat, n: nat)
    requires n < |ds|
    ensures Appended(span, Low(span, Value(ds[..n], b)), b, ds[n]) == Low(span, Value(ds[..n + 1], b))
    ensures FirstDrop(span, ds, b, n) ==
              if Appended(span, Low(span, Value(ds[..n], b)), b, ds[n]) < Low(span, Value(ds[..n], b)) then n
              else FirstDrop(span, ds, b, n + 1)
  {
    hide Value;
    assert ds[..n + 1] == ds[..n] + [ds[n]];
    ValueOfMore(ds[..n], ds[n], b);
    AppendedIsLow(span, Value(ds[..n], b), b, ds[n]);
  }

  method ReadDigits(span: Span, s: string, at: nat, b: nat) returns (result: nat, end: nat, noticed: bool)
    requires at < |s| && END in s[at..] && 2 <= b <= 36
    ensures var ds := Written(s, at, DigitsEnd(s, at, b));
            var k := FirstDrop(span, ds, b, 0);
            if k < |ds| then noticed && result == span - 1 && end == at + k
            else !noticed && result == Low(span, Value(ds, b)) && end == at + |ds|
  {
    hide Value, DigitOf, Appended, FirstDrop;
    var pos := at;
    result, noticed := 0, false;
    ghost var ds := Written(s, at, DigitsEnd(s, at, b));
    ghost var n := 0;
    NothingRead(ds, b);
    while true
      invariant at <= pos < |s| && END in s[pos..] && n == pos - at
      invariant DigitsEnd(s, pos, b) == DigitsEnd(s, at, b)
      invariant result == Low(span, Value(ds[..n], b)) && FirstDrop(span, ds, b, n) == FirstDrop(span, ds, b, 0)
      decreases |s| - pos
    {
      var d := DigitOf(s[pos]);
      if d >= b {
        break;
      }
      EndIsNoDigit();
      NotYet(s, pos);
      assert ds[n] == d;
      DigitStep(span, ds, b, n);
      var previous := result;
      result := Appended(span, result, b, d);
      if result < previous {
        return span - 1, pos, true;
      }
      pos := pos + 1;
      n := n + 1;
    }
    end := pos;
    assert ds[..n] == ds;
    NoMoreDigits(span, ds, b);
  }

  lemma EndIsNoDigit()
    ensures DigitOf(END) == 36
  {
  }

  lemma NoMoreDigits(span: Span, ds: Digits, b: nat)
    ensures FirstDrop(span, ds, b, |ds|) == |ds|
  {
  }
}
