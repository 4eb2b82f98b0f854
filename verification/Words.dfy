/** 16-bit machine words as the raster engine uses them.
    Bit 0 is the most significant bit, as in the Smalltalk-80 book. */
module Words {
  const NONE: seq<bool> := [false, false, false, false, false, false, false, false,
                            false, false, false, false, false, false, false, false]

  type Word = w: seq<bool> | |w| == 16 witness NONE

  const ZERO: Word := NONE
  const ALL_ONES: Word := Not(ZERO)

  function Put(bits: seq<Word>, i: nat, w: Word): seq<Word>
    requires i < |bits|
  {
    bits[i := w]
  }

  function And(a: Word, b: Word): Word { seq(16, i requires 0 <= i < 16 => a[i] && b[i]) }
  function Or(a: Word, b: Word): Word { seq(16, i requires 0 <= i < 16 => a[i] || b[i]) }
  function Xor(a: Word, b: Word): Word { seq(16, i requires 0 <= i < 16 => a[i] != b[i]) }
  function Not(a: Word): Word { seq(16, i requires 0 <= i < 16 => !a[i]) }

  /** `w << n` truncated to 16 bits. */
  function ShiftLeft(w: Word, n: nat): Word { seq(16, i requires 0 <= i < 16 => i + n < 16 && w[i + n]) }

  /** `w >> n` for an unsigned word. */
  function ShiftRight(w: Word, n: nat): Word { seq(16, i requires 0 <= i < 16 => n <= i && w[i - n]) }

  /** Entry n of the table of right masks: the n low-order bits. */
  function RightMask(n: nat): Word { seq(16, i requires 0 <= i < 16 => 16 - n <= i) }

  /** The unsigned number a bit string denotes, most significant bit first. */
  function Value(bits: seq<bool>): nat {
    if bits == [] then 0
    else 2 * Value(bits[..|bits| - 1]) + (if bits[|bits| - 1] then 1 else 0)
  }

  /** The table as it is written in the program. */
  const RIGHT_MASKS: seq<nat> := [
    0, 0x1, 0x3, 0x7, 0xF, 0x1F, 0x3F, 0x7F, 0xFF,
    0x1FF, 0x3FF, 0x7FF, 0xFFF, 0x1FFF, 0x3FFF, 0x7FFF, 0xFFFF]

  function Ones(len: nat, n: nat): seq<bool> { seq(len, i => len - n <= i) }

  lemma TableStep(n: nat)
    requires 0 < n <= 16
    ensures RIGHT_MASKS[n] == 2 * RIGHT_MASKS[n - 1] + 1
  {
  }

  lemma {:induction false} OnesValue(len: nat, n: nat)
    requires n <= len && n <= 16
    ensures Value(Ones(len, n)) == RIGHT_MASKS[n]
  {
    var s := Ones(len, n);
    if n == 0 {
      if len > 0 {
        OnesValue(len - 1, 0);
        assert s[..len - 1] == Ones(len - 1, 0);
      }
    } else {
      OnesValue(len - 1, n - 1);
      TableStep(n);
      assert s[..len - 1] == Ones(len - 1, n - 1);
    }
  }

  /** The bit-vector masks are exactly the hexadecimal constants of the program. */
  lemma RightMaskTable(n: nat)
    requires n <= 16
    ensures Value(RightMask(n)) == RIGHT_MASKS[n]
  {
    OnesValue(16, n);
    assert RightMask(n) == Ones(16, n);
  }

  /** The sixteen combination rules. */
  function Merge(rule: nat, source: Word, dest: Word): Word
    requires rule < 16
  {
    match rule
    case 0 => ZERO
    case 1 => And(source, dest)
    case 2 => And(source, Not(dest))
    case 3 => source
    case 4 => And(Not(source), dest)
    case 5 => dest
    case 6 => Xor(source, dest)
    case 7 => Or(source, dest)
    case 8 => And(Not(source), Not(dest))
    case 9 => Xor(Not(source), dest)
    case 10 => Not(dest)
    case 11 => Or(source, Not(dest))
    case 12 => Not(source)
    case 13 => Or(Not(source), dest)
    case 14 => Or(Not(source), Not(dest))
    case 15 => ALL_ONES
  }

  /** A rule number read as the truth table of a Boolean operator: its bits of
      weight 1, 2, 4, 8 answer (source, dest) = (1,1), (1,0), (0,1), (0,0). */
  predicate RuleBit(rule: nat, source: bool, dest: bool) {
    var weight := if source then (if dest then 1 else 2) else if dest then 4 else 8;
    rule / weight % 2 == 1
  }

  lemma MergeIsTruthTable(rule: nat, source: Word, dest: Word, k: nat)
    requires rule < 16 && k < 16
    ensures Merge(rule, source, dest)[k] == RuleBit(rule, source[k], dest[k])
  {
    match rule
    case 0 => case 1 => case 2 => case 3 => case 4 => case 5 => case 6 => case 7 =>
    case 8 => case 9 => case 10 => case 11 => case 12 => case 13 => case 14 => case 15 =>
  }

  /** The 16-bit rotation spelled with two shifts. */
  function Rotate(w: Word, n: nat): Word
    requires n < 16
  {
    Or(ShiftLeft(w, n), ShiftRight(w, 16 - n))
  }

  /** One pass through the body of the inner loop, word by word. */
  function Skewed(prev: Word, next: Word, skewMask: Word, skew: nat): Word
    requires skew < 16
  {
    Rotate(Or(And(prev, skewMask), And(next, Not(skewMask))), skew)
  }

  lemma SkewedBit(prev: Word, next: Word, skewMask: Word, skew: nat, k: nat)
    requires skew < 16 && k < 16
    ensures Skewed(prev, next, skewMask, skew)[k] ==
            var j := (k + skew) % 16; if skewMask[j] then prev[j] else next[j]
  {
  }
}
