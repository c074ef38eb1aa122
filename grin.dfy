/**
 The counting pass of the Grin driver (`Grin.createFrequencyMap`): read the
 input eight bits at a time and build a map from each 8-bit value to the
 number of times it occurs. The bit stream is given as the sequence of 8-bit
 groups it yields; counters are Java `int`s.
 */
module Grin {
  import opened JavaTypes

  /** Number of times `b` occurs in `s`. */
  function Occurrences(s: seq<Byte>, b: int): nat
  {
    if s == [] then 0
    else Occurrences(s[..|s| - 1], b) + (if s[|s| - 1] == b then 1 else 0)
  }

  /** The map the counting pass returns: one entry per distinct 8-bit value
      read, holding its count as a Java `int`. */
  function FrequencyOf(s: seq<Byte>): map<Short, Int32>
  {
    map b: Short | b in s :: Wrap32(Occurrences(s, b))
  }

  /** Sum of the occurrence counts of the values 0 .. n-1. */
  function OccurrenceTotal(s: seq<Byte>, n: nat): nat
  {
    if n == 0 then 0 else OccurrenceTotal(s, n - 1) + Occurrences(s, n - 1)
  }

  /** Sum of the entries of `m` stored under the keys 0 .. n-1. */
  function MapTotal(m: map<Short, Int32>, n: nat): int
    requires n <= 0x8000
  {
    if n == 0 then 0
    else MapTotal(m, n - 1) + (if (n - 1) as Short in m then m[(n - 1) as Short] else 0)
  }

  /** `createFrequencyMap`: a `HashMap` updated in place, one entry per
      8-bit group read. */
  method CreateFrequencyMap(input: seq<Byte>) returns (ret: map<Short, Int32>)
    ensures ret == FrequencyOf(input)
    ensures forall b: Short :: b in ret <==> b in input
    ensures 256 !in ret
  {
    ret := map[];
    var pos := 0;
    while pos < |input|
      invariant 0 <= pos <= |input|
      invariant forall b: Short :: b in ret <==> b in input[..pos]
      invariant forall b :: b in ret ==> ret[b] == Wrap32(Occurrences(input[..pos], b))
    {
      var temp: Short := input[pos];
      assert input[..pos + 1][..pos] == input[..pos];
      if temp in ret {
        WrapIncrement(Occurrences(input[..pos], temp));
        ret := ret[temp := Wrap32(ret[temp] as int + 1)];
      } else {
        OccurrencesAbsent(input[..pos], temp);
        ret := ret[temp := 1];
      }
      pos := pos + 1;
    }
    assert input[..pos] == input;
  }

  lemma {:induction false} OccurrencesAbsent(s: seq<Byte>, b: int)
    requires b !in s
    ensures Occurrences(s, b) == 0
  {
    if s != [] {
      OccurrencesAbsent(s[..|s| - 1], b);
    }
  }

  /** A value occurs a positive number of times exactly when it is in the
      input, and never more often than the input is long. */
  lemma {:induction false} OccurrencesBounds(s: seq<Byte>, b: int)
    ensures Occurrences(s, b) > 0 <==> b in s
    ensures Occurrences(s, b) <= |s|
  {
    if s != [] {
      var init := s[..|s| - 1];
      OccurrencesBounds(init, b);
      assert s == init + [s[|s| - 1]];
      assert b in s <==> b in init || b == s[|s| - 1];
    }
  }

  /** Every stored count is the exact number of occurrences, hence at least
      one, as long as no counter wraps around (fewer than 2^31 groups read). */
  lemma FrequencyExact(s: seq<Byte>)
    requires |s| < 0x8000_0000
    ensures forall b :: b in FrequencyOf(s) ==> FrequencyOf(s)[b] == Occurrences(s, b) >= 1
  {
    forall b | b in FrequencyOf(s)
      ensures FrequencyOf(s)[b] == Occurrences(s, b) >= 1
    {
      OccurrencesBounds(s, b);
    }
  }

  /** Empty input gives an empty map. */
  lemma FrequencyOfEmpty()
    ensures FrequencyOf([]) == map[]
  {
  }

  lemma {:induction false} OccurrenceTotalAppend(s: seq<Byte>, x: Byte, n: nat)
    ensures OccurrenceTotal(s + [x], n) == OccurrenceTotal(s, n) + (if x < n then 1 else 0)
  {
    assert (s + [x])[..|s + [x]| - 1] == s;
    if n > 0 {
      OccurrenceTotalAppend(s, x, n - 1);
    }
  }

  lemma {:induction false} OccurrenceTotalEmpty(n: nat)
    ensures OccurrenceTotal([], n) == 0
  {
    if n > 0 {
      OccurrenceTotalEmpty(n - 1);
    }
  }

  /** Every 8-bit group is counted once: the counts of 0 .. 255 add up to the
      length of the input. */
  lemma {:induction false} OccurrenceTotalIsLength(s: seq<Byte>)
    ensures OccurrenceTotal(s, 256) == |s|
  {
    if s == [] {
      OccurrenceTotalEmpty(256);
    } else {
      var init := s[..|s| - 1];
      OccurrenceTotalIsLength(init);
      assert s == init + [s[|s| - 1]];
      OccurrenceTotalAppend(init, s[|s| - 1], 256);
    }
  }

  lemma {:induction false} MapTotalIsOccurrenceTotal(s: seq<Byte>, n: nat)
    requires |s| < 0x8000_0000
    requires n <= 256
    ensures MapTotal(FrequencyOf(s), n) == OccurrenceTotal(s, n)
  {
    if n > 0 {
      MapTotalIsOccurrenceTotal(s, n - 1);
      var b: Short := n - 1;
      OccurrencesBounds(s, b);
    }
  }

  /** The sum of all counts in the map equals the number of 8-bit groups
      read (while no counter wraps around). */
  lemma FrequencyTotal(s: seq<Byte>)
    requires |s| < 0x8000_0000
    ensures MapTotal(FrequencyOf(s), 256) == |s|
  {
    MapTotalIsOccurrenceTotal(s, 256);
    OccurrenceTotalIsLength(s);
  }
}
