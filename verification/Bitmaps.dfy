/** Rule bitmaps: one bit per filter, packed into 32-bit words with rule 0 in the
    lowest bit of the last word, as the class tables of frcore_rfc.c store them. */
module Bitmaps {

  const LENGTH: nat := 32
  const SIZE: nat := 64
  const MAX_FILTERS: nat := 2048

  /** An unsigned int, as its 32 bits with the lowest first. */
  type Word = w: seq<bool> | |w| == LENGTH witness seq(LENGTH, _ => false)

  const ZERO: Word := seq(LENGTH, _ => false)
  const ONE: Word := ZERO[0 := true]

  function Or(a: Word, b: Word): Word {
    seq(LENGTH, p requires 0 <= p < LENGTH => a[p] || b[p])
  }

  function And(a: Word, b: Word): Word {
    seq(LENGTH, p requires 0 <= p < LENGTH => a[p] && b[p])
  }

  function Not(a: Word): Word {
    seq(LENGTH, p requires 0 <= p < LENGTH => !a[p])
  }

  /** a << n: the bits move up, zeroes come in from below, the top bits are lost. */
  function ShiftLeft(a: Word, n: nat): Word {
    seq(LENGTH, p requires 0 <= p < LENGTH => p >= n && a[p - n])
  }

  type Bitmap = b: seq<Word> | |b| == SIZE witness seq(SIZE, _ => ZERO)

  predicate BitAt(b: Bitmap, i: nat)
    requires i < MAX_FILTERS
  {
    b[SIZE - 1 - i / LENGTH][i % LENGTH]
  }

  /** The set of rules a bitmap stands for. */
  ghost function Rules(b: Bitmap): set<nat> {
    set i: nat | i < MAX_FILTERS && BitAt(b, i)
  }

  /** Equal rule sets have equal words: comparing words compares rule sets. */
  lemma RulesInjective(a: Bitmap, b: Bitmap)
    requires Rules(a) == Rules(b)
    ensures a == b
  {
    forall k, p | 0 <= k < SIZE && 0 <= p < LENGTH
      ensures a[k][p] == b[k][p]
    {
      var i := LENGTH * (SIZE - 1 - k) + p;
      assert i / LENGTH == SIZE - 1 - k && i % LENGTH == p;
      assert i in Rules(a) <==> i in Rules(b);
    }
    forall k | 0 <= k < SIZE
      ensures a[k] == b[k]
    {
    }
  }

  /** Sets or clears the bit of rule i and leaves every other bit alone. */
  method SetBmpBit(bmp: array<Word>, i: nat, value: bool)
    requires bmp.Length == SIZE && i < MAX_FILTERS
    modifies bmp
    ensures Rules(bmp[..]) == if value then old(Rules(bmp[..])) + {i} else old(Rules(bmp[..])) - {i}
  {
    var k := SIZE - 1 - i / LENGTH;
    var pos := i % LENGTH;
    var tempInt := ShiftLeft(ONE, pos);
    if value {
      bmp[k] := Or(bmp[k], tempInt);
    } else {
      tempInt := Not(tempInt);
      bmp[k] := And(bmp[k], tempInt);
    }
    forall j: nat | j < MAX_FILTERS
      ensures BitAt(bmp[..], j) == if j == i then value else old(BitAt(bmp[..], j))
    {
    }
  }

  method CompareBmp(a: Bitmap, bmp: array<Word>) returns (same: bool)
    requires bmp.Length == SIZE
    ensures same <==> Rules(a) == Rules(bmp[..])
  {
    var i := 0;
    while i < SIZE
      invariant 0 <= i <= SIZE
      invariant forall j | 0 <= j < i :: a[j] == bmp[j]
    {
      if a[i] != bmp[i] {
        if Rules(a) == Rules(bmp[..]) {
          RulesInjective(a, bmp[..]);
        }
        return false;
      }
      i := i + 1;
    }
    assert a == bmp[..];
    return true;
  }

  /** The rules in both bitmaps, word by word. */
  method Intersect(a: Bitmap, b: Bitmap, bmp: array<Word>)
    requires bmp.Length == SIZE
    modifies bmp
    ensures Rules(bmp[..]) == Rules(a) * Rules(b)
  {
    var m := 0;
    while m < SIZE
      invariant 0 <= m <= SIZE
      invariant forall j | 0 <= j < m :: bmp[j] == And(a[j], b[j])
    {
      bmp[m] := And(a[m], b[m]);
      m := m + 1;
    }
    forall j: nat | j < MAX_FILTERS
      ensures BitAt(bmp[..], j) <==> BitAt(a, j) && BitAt(b, j)
    {
    }
  }

  /** The highest-priority rule of a set: its smallest index, or the last slot when it is empty. */
  ghost predicate IsCost(rules: set<nat>, cost: nat) {
    if rules == {} then cost == MAX_FILTERS - 1
    else cost in rules && forall r | r in rules :: cost <= r
  }

  method GetRuleCost(bmp: array<Word>) returns (cost: nat)
    requires bmp.Length == SIZE
    ensures cost < MAX_FILTERS && IsCost(Rules(bmp[..]), cost)
  {
    var k := SIZE - 1;
    while k >= 0
      invariant -1 <= k < SIZE
      invariant forall j: nat | j < LENGTH * (SIZE - 1 - k) :: !BitAt(bmp[..], j)
    {
      var tempInt := ONE;
      var pos := 0;
      while pos < LENGTH
        invariant 0 <= pos <= LENGTH
        invariant forall p | 0 <= p < LENGTH :: tempInt[p] <==> p == pos
        invariant forall j: nat | j < LENGTH * (SIZE - 1 - k) + pos :: !BitAt(bmp[..], j)
      {
        var i := LENGTH * (SIZE - 1 - k) + pos;
        assert i / LENGTH == SIZE - 1 - k && i % LENGTH == pos;
        var tempValue := And(bmp[k], tempInt);
        if tempValue != ZERO {
          assert i in Rules(bmp[..]);
          return i;
        }
        assert !tempValue[pos];
        tempInt := ShiftLeft(tempInt, 1);
        pos := pos + 1;
      }
      k := k - 1;
    }
    return MAX_FILTERS - 1;
  }
}
