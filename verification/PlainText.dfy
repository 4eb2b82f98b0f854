/** Printing and reading numbers in plain terms: character tables, positions in the text,
    and remainders. */
module PlainText {
  import opened Basics
  import opened Numerals
  import opened Reading

  /** The digits, as they are written. */
  function Upper(d: nat): char
    requires d < 36
  {
    "0123456789ABCDEFGHIJKLMNOPQRSTUVWXYZ"[d]
  }

  function Lower(d: nat): char
    requires d < 36
  {
    "0123456789abcdefghijklmnopqrstuvwxyz"[d]
  }

  lemma UpperCode(d: nat)
    requires d < 36
    ensures Upper(d) as int == d + if d < 10 then 48 else 55
  {
  }

  lemma LowerCode(d: nat)
    requires d < 36
    ensures Lower(d) as int == d + if d < 10 then 48 else 87
  {
  }

  /** What a digit is printed as. */
  lemma CharByTable(d: nat, upcase: bool)
    requires d < 36
    ensures CharOf(d, upcase) == if upcase then Upper(d) else Lower(d)
  {
    UpperCode(d);
    LowerCode(d);
    hide Upper, Lower;
  }

  /** What a character is read as: a digit as it is written in either case; the seven
      characters that follow '9' are read as 10 to 16, too. */
  lemma DigitByTable(c: char, d: nat)
    requires d < 36
    ensures StandardDigit(c) == d <==> c == Upper(d) || c == Lower(d)
    ensures DigitOf(c) == d <==> c == Upper(d) || c == Lower(d) || (10 <= d <= 16 && c as int == '0' as int + d)
  {
    UpperCode(d);
    LowerCode(d);
    hide Upper, Lower;
  }

  /** What is printed: digits of the base, the first of them a zero only if it is the only one. */
  lemma NumeralByDigits(ds: Digits, b: nat)
    ensures Numeral(ds, b) <==>
            ds != [] && (forall i | 0 <= i < |ds| :: ds[i] < b) && (ds[0] == 0 ==> |ds| == 1)
  {
    assert forall i | 0 <= i < |ds| :: ds[i] in ds;
  }

  /** The value by weights: each digit counts as much as the digits behind it can number. */
  lemma {:induction false} ValueByWeights(d: nat, rest: Digits, b: nat)
    ensures Value([d] + rest, b) == d * Pow(b, |rest|) + Value(rest, b)
    decreases |rest|
  {
    if rest == [] {
      OneDigit(d, b);
      assert [d] + rest == [d];
    } else {
      var front, last := rest[..|rest| - 1], rest[|rest| - 1];
      ValueByWeights(d, front, b);
      assert [d] + rest == ([d] + front) + [last] && rest == front + [last];
      ValueOfMore([d] + front, last, b);
      ValueOfMore(front, last, b);
      Distribute(d, Pow(b, |front|), Value(front, b), b);
    }
  }

  lemma Distribute(d: nat, p: nat, v: nat, b: nat)
    ensures (d * p + v) * b == d * (b * p) + v * b
  {
  }

  /** Behind i characters of whitespace: the sign, and where the digits begin. */
  lemma StartByText(s: string, i: nat, base: int)
    requires i <= |s| && (base == 0 || 2 <= base <= 36)
    requires forall k | 0 <= k < i :: s[k] as int == 32 || 9 <= s[k] as int <= 13
    requires i < |s| ==> s[i] as int != 32 && !(9 <= s[i] as int <= 13)
    ensures Minus(s) <==> i < |s| && s[i] == '-'
    ensures var j := if i < |s| && (s[i] == '+' || s[i] == '-') then i + 1 else i;
            var zero := j < |s| && s[j] == '0';
            var x := zero && j + 1 < |s| && (s[j + 1] == 'x' || s[j + 1] == 'X');
            && StartOf(s, base) == (if x then if base == 0 || base == 16 then Some(Start(j + 2, 16)) else None
                                    else if zero then Some(Start(j + 1, if base == 0 then 8 else base))
                                    else Some(Start(j, if base == 0 then 10 else base)))
            && StandardStart(s, base) ==
               if x && (base == 0 || base == 16) && j + 2 < |s| && StandardDigit(s[j + 2]) < 16 then Start(j + 2, 16)
               else Start(j, if base != 0 then base else if zero then 8 else 10)
  {
    SpacesEnd(s, 0, i);
    hide SpaceEnd, StandardDigit;
  }

  lemma {:induction false} SpacesEnd(s: string, n: nat, i: nat)
    requires n <= i <= |s|
    requires forall k | n <= k < i :: s[k] as int == 32 || 9 <= s[k] as int <= 13
    requires i < |s| ==> s[i] as int != 32 && !(9 <= s[i] as int <= 13)
    ensures SpaceEnd(s, n) == i
    decreases i - n
  {
    if n < i {
      SpacesEnd(s, n + 1, i);
    }
  }

  /** In the bits there are, digit i makes the number smaller. */
  ghost predicate Shrinks(span: Span, ds: Digits, b: nat, i: nat)
    requires i < |ds|
  {
    Value(ds[..i + 1], b) % span < Value(ds[..i], b) % span
  }

  lemma ShrinksIsDrops(span: Span, ds: Digits, b: nat, i: nat)
    requires i < |ds|
    ensures Shrinks(span, ds, b, i) <==> Drops(span, ds, b, i)
  {
    LowIsRemainder(span, Value(ds[..i + 1], b));
    LowIsRemainder(span, Value(ds[..i], b));
    hide Value, Low;
  }

  /** The result for digits of which the k-th is the first to make the number smaller, modulo
      the span, if k is not all of them. */
  lemma OutcomeByNumbers(span: Span, ds: Digits, b: nat, at: nat, minus: bool, k: nat)
    requires k <= |ds| && (forall i | 0 <= i < k :: !Shrinks(span, ds, b, i)) && (k < |ds| ==> Shrinks(span, ds, b, k))
    ensures Outcome(span, ds, b, at, minus) ==
            if k < |ds| then (span - 1, at + k)
            else
              (if minus then (span - Value(ds, b) % span) % span else Value(ds, b) % span, at + |ds|)
  {
    hide Value, Low, Signed, FirstDrop, Drops, Shrinks;
    forall i | 0 <= i < |ds|
      ensures Drops(span, ds, b, i) <==> Shrinks(span, ds, b, i)
    {
      ShrinksIsDrops(span, ds, b, i);
    }
    FirstDropIs(span, ds, b, 0, k);
    SignedByNumbers(span, minus, Value(ds, b));
  }

  /** What is read from digits that end before s[e]. */
  lemma ReadByDigits(span: Span, s: string, base: int, start: Start, e: nat)
    requires IsBase(base) && StartOf(s, base) == Some(start) && start.at <= e <= |s|
    requires forall i | start.at <= i < e :: DigitOf(s[i]) < start.base
    requires e < |s| ==> start.base <= DigitOf(s[e])
    ensures Read(span, s, base) == Outcome(span, Written(s, start.at, e), start.base, start.at, Minus(s))
  {
    DigitsReach(s, start.at, e, start.base);
    assert DigitsEnd(s, start.at, start.base) == e;
    hide StartOf, Minus, DigitsEnd, Written, Outcome;
  }

  lemma {:induction false} FirstDropIs(span: Span, ds: Digits, b: nat, n: nat, k: nat)
    requires n <= k <= |ds| && (forall i | n <= i < k :: !Drops(span, ds, b, i)) && (k < |ds| ==> Drops(span, ds, b, k))
    ensures FirstDrop(span, ds, b, n) == k
    decreases k - n
  {
    hide Drops;
    if n < k {
      FirstDropIs(span, ds, b, n + 1, k);
    }
  }

  lemma LowIsRemainder(span: Span, v: nat)
    ensures Low(span, v) == v % span
  {
  }

  lemma SignedByNumbers(span: Span, minus: bool, v: nat)
    ensures Signed(span, minus, Low(span, v)) == if minus then (span - v % span) % span else v % span
  {
    LowIsRemainder(span, v);
    hide Low;
  }

  /** Bases there are none of, and prefixes that are refused, are no numbers. */
  lemma NotANumber(span: Span, s: string, base: int)
    ensures !(base == 0 || 2 <= base <= 36) ==> Read(span, s, base) == (0, 0)
    ensures IsBase(base) && StartOf(s, base) == None ==> Read(span, s, base) == (0, 0)
  {
  }
}
