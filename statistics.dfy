/**
  vectors/src/main.rs: the mode and the median of a vector of `i32`.
  The mode counts occurrences in a hash map and keeps every key whose count
  is the largest; the median sorts the vector in place and reads the middle.
*/
module Statistics {
  /** Rust's `i32`. */
  type i32 = x: int | -0x8000_0000 <= x < 0x8000_0000

  /**
    2^24: every integer of at most this magnitude is exact in `f32`, so the
    even-length median, which goes through `f32`, is exact when the two
    middle elements sum to at most this in magnitude.
  */
  const F32ExactInt: int := 0x100_0000

  /** A value of `s` that occurs at least as often as any other value. */
  predicate IsMode(s: seq<i32>, x: i32)
  {
    x in s && forall y: i32 :: multiset(s)[y] <= multiset(s)[x]
  }

  /** Every non-empty list has a mode. */
  lemma {:induction false} ModeExists(s: seq<i32>)
    requires s != []
    ensures exists x :: IsMode(s, x)
  {
    var x := MostFrequentOf(s, s);
    assert IsMode(s, x);
  }

  /** A value of `candidates` whose count in `s` is the largest among `candidates`. */
  function MostFrequentOf(s: seq<i32>, candidates: seq<i32>): (x: i32)
    requires candidates != []
    ensures x in candidates
    ensures forall y :: y in candidates ==> multiset(s)[y] <= multiset(s)[x]
  {
    if |candidates| == 1 then candidates[0]
    else
      var x := MostFrequentOf(s, candidates[1..]);
      if multiset(s)[candidates[0]] >= multiset(s)[x] then candidates[0] else x
  }

  /** The `for number in numbers` loop: each number mapped to how often it occurs. */
  method CountOccurrences(numbers: seq<i32>) returns (counts: map<i32, nat>)
    ensures forall x :: x in counts <==> x in numbers
    ensures forall x :: x in counts ==> counts[x] == multiset(numbers)[x]
  {
    counts := map[];
    var i := 0;
    while i < |numbers|
      invariant 0 <= i <= |numbers|
      invariant forall x :: x in counts <==> x in numbers[..i]
      invariant forall x :: x in counts ==> counts[x] == multiset(numbers[..i])[x]
    {
      var n := numbers[i];
      var count := if n in counts then counts[n] else 0;
      counts := counts[n := count + 1];
      assert numbers[..i + 1] == numbers[..i] + [n];
      i := i + 1;
    }
    assert numbers[..i] == numbers;
  }

  /** `values().cloned().max().unwrap_or(0)`: the largest count, 0 for an empty map. */
  method MaxCount(counts: map<i32, nat>) returns (max: nat)
    ensures forall x :: x in counts ==> counts[x] <= max
    ensures counts == map[] ==> max == 0
    ensures counts != map[] ==> exists x :: x in counts && counts[x] == max
  {
    max := 0;
    var rest := counts.Keys;
    while rest != {}
      invariant rest <= counts.Keys
      invariant forall x :: x in counts.Keys - rest ==> counts[x] <= max
      invariant (rest == counts.Keys && max == 0) || (exists x :: x in counts.Keys - rest && counts[x] == max)
      decreases rest
    {
      var k :| k in rest;
      if counts[k] > max {
        max := counts[k];
      }
      rest := rest - {k};
    }
    if counts != map[] {
      var k :| k in counts;
      assert k !in rest;
    }
  }

  /**
    `into_iter().filter(..).map(..).collect()`: the keys whose count is `max`,
    each once, in the map's iteration order (unspecified; chosen arbitrarily).
  */
  method KeysWithCount(counts: map<i32, nat>, max: nat) returns (keys: seq<i32>)
    ensures forall x :: x in keys <==> x in counts && counts[x] == max
    ensures forall i, j :: 0 <= i < j < |keys| ==> keys[i] != keys[j]
  {
    keys := [];
    var rest := counts.Keys;
    while rest != {}
      invariant rest <= counts.Keys
      invariant forall x :: x in keys <==> x in counts.Keys - rest && counts[x] == max
      invariant forall i, j :: 0 <= i < j < |keys| ==> keys[i] != keys[j]
      decreases rest
    {
      var k :| k in rest;
      if counts[k] == max {
        keys := keys + [k];
      }
      rest := rest - {k};
    }
  }

  /**
    `calculate_mode`: count every number, take the largest count, and collect
    the numbers with that count. Each mode is returned exactly once.
  */
  method CalculateMode(numbers: seq<i32>) returns (modes: seq<i32>)
    ensures forall x :: x in modes <==> IsMode(numbers, x)
    ensures forall i, j :: 0 <= i < j < |modes| ==> modes[i] != modes[j]
    ensures numbers == [] <==> modes == []
  {
    var counts := CountOccurrences(numbers);
    var max := MaxCount(counts);
    modes := KeysWithCount(counts, max);
    forall x ensures x in modes <==> IsMode(numbers, x) {
      if x in modes {
        forall y: i32 ensures multiset(numbers)[y] <= multiset(numbers)[x] {
          if y in counts {
            assert counts[y] <= max;
          }
        }
      }
      if IsMode(numbers, x) {
        var w :| w in counts && counts[w] == max;
        assert multiset(numbers)[w] <= multiset(numbers)[x];
      }
    }
    if numbers != [] {
      ModeExists(numbers);
      var x :| IsMode(numbers, x);
      assert x in modes;
    }
    if modes != [] {
      assert IsMode(numbers, modes[0]);
    }
  }

  predicate Sorted(s: seq<int>)
  {
    forall i, j :: 0 <= i < j < |s| ==> s[i] <= s[j]
  }

  /** Exchange two elements of the array, which keeps the same elements. */
  method Swap(a: array<i32>, p: nat, q: nat)
    requires p < a.Length && q < a.Length
    modifies a
    ensures a[p] == old(a[q]) && a[q] == old(a[p])
    ensures forall k :: 0 <= k < a.Length && k != p && k != q ==> a[k] == old(a[k])
    ensures multiset(a[..]) == multiset(old(a[..]))
  {
    a[p], a[q] := a[q], a[p];
  }

  /** One step of insertion sort: move `a[i]` left into the sorted prefix `a[..i]`. */
  method InsertInto(a: array<i32>, i: nat)
    requires i < a.Length && Sorted(a[..i])
    modifies a
    ensures Sorted(a[..i + 1])
    ensures forall k :: i < k < a.Length ==> a[k] == old(a[k])
    ensures multiset(a[..]) == multiset(old(a[..]))
  {
    var j := i;
    while j > 0 && a[j - 1] > a[j]
      invariant 0 <= j <= i
      invariant forall p, q :: 0 <= p < q <= i && p != j && q != j ==> a[p] <= a[q]
      invariant forall q :: j < q <= i ==> a[j] < a[q]
      invariant 0 < j < i ==> a[j - 1] <= a[j + 1]
      invariant forall k :: i < k < a.Length ==> a[k] == old(a[k])
      invariant multiset(a[..]) == multiset(old(a[..]))
    {
      Swap(a, j - 1, j);
      j := j - 1;
    }
  }

  /** `slice::sort` on the vector: an insertion sort stands in for the library's merge sort. */
  method SortInPlace(a: array<i32>)
    modifies a
    ensures Sorted(a[..])
    ensures multiset(a[..]) == multiset(old(a[..]))
  {
    for i := 0 to a.Length
      invariant Sorted(a[..i])
      invariant multiset(a[..]) == multiset(old(a[..]))
    {
      InsertInto(a, i);
    }
    assert a[..a.Length] == a[..];
  }

  /** `(x as f32 / 2.0) as i32` when `x` is exact in `f32`: half of `x`, truncated toward zero. */
  function TruncHalf(x: int): (r: int)
    ensures x >= 0 ==> 0 <= x - 2 * r <= 1
    ensures x < 0 ==> -1 <= x - 2 * r <= 0
  {
    if x >= 0 then x / 2 else -((-x) / 2)
  }

  /**
    The value `calculate_median` reads from the sorted contents: the middle
    element for an odd length, the truncated mean of the two middle elements
    for an even one.
  */
  function MedianOfSorted(s: seq<i32>): int
    requires s != []
  {
    var mid := |s| / 2;
    if |s| % 2 == 0 then TruncHalf(s[mid - 1] as int + s[mid] as int) else s[mid]
  }

  /** The two middle elements of an even-length `s` sum to an integer that `f32` holds exactly. */
  predicate MiddleSumExact(s: seq<i32>)
    requires |s| % 2 == 0 && s != []
  {
    -F32ExactInt <= s[|s| / 2 - 1] as int + s[|s| / 2] as int <= F32ExactInt
  }

  /**
    `calculate_median`: sort the vector in place, then read its middle. The
    even case goes through `f32`; its value is promised only where that path
    is exact, that is where the two middle elements sum to at most
    `F32ExactInt` in magnitude.
  */
  method CalculateMedian(numbers: array<i32>) returns (median: i32)
    requires numbers.Length > 0
    modifies numbers
    ensures Sorted(numbers[..])
    ensures multiset(numbers[..]) == multiset(old(numbers[..]))
    ensures numbers.Length % 2 == 1 ==> median == MedianOfSorted(numbers[..])
    ensures numbers.Length % 2 == 0 && MiddleSumExact(numbers[..]) ==> median == MedianOfSorted(numbers[..])
  {
    SortInPlace(numbers);
    var mid := numbers.Length / 2;
    if numbers.Length % 2 == 0 {
      median := TruncHalf(numbers[mid - 1] as int + numbers[mid] as int);
    } else {
      median := numbers[mid];
    }
  }

  /** Two sorted lists with the same elements are the same list. */
  lemma {:induction false} SortedPermutationUnique(s: seq<int>, t: seq<int>)
    requires Sorted(s) && Sorted(t) && multiset(s) == multiset(t)
    ensures s == t
    decreases |s|
  {
    if s != [] {
      SortedHeadsAgree(s, t);
      MultisetOfTail(s);
      MultisetOfTail(t);
      SortedPermutationUnique(s[1..], t[1..]);
      assert s == [s[0]] + s[1..] && t == [t[0]] + t[1..];
    } else {
      assert |t| == |multiset(t)| == 0;
    }
  }

  /** Sorted lists with the same non-empty contents start with the same, smallest, element. */
  lemma SortedHeadsAgree(s: seq<int>, t: seq<int>)
    requires Sorted(s) && Sorted(t) && multiset(s) == multiset(t) && s != []
    ensures t != [] && s[0] == t[0]
  {
    assert s[0] in multiset(t);
    var i :| 0 <= i < |t| && t[i] == s[0];
    assert t[0] in multiset(s);
    var j :| 0 <= j < |s| && s[j] == t[0];
  }

  lemma MultisetOfTail(s: seq<int>)
    requires s != []
    ensures multiset(s[1..]) == multiset(s) - multiset{s[0]}
  {
    assert s == [s[0]] + s[1..];
  }

  /**
    The median depends only on which numbers the vector holds, not on their
    order: any sorted rearrangement of the same numbers gives the same value.
  */
  lemma MedianOrderIndependent(s: seq<i32>, t: seq<i32>)
    requires s != [] && Sorted(s) && Sorted(t) && multiset(s) == multiset(t)
    ensures t != [] && MedianOfSorted(s) == MedianOfSorted(t)
  {
    SortedPermutationUnique(s, t);
  }

  /**
    For an odd length the median is an element of the vector with as many
    elements at or below it as at or above it.
  */
  lemma OddMedianSplits(s: seq<i32>)
    requires Sorted(s) && |s| % 2 == 1
    ensures MedianOfSorted(s) in s
    ensures forall i :: 0 <= i < |s| / 2 ==> s[i] <= MedianOfSorted(s)
    ensures forall i :: |s| / 2 < i < |s| ==> MedianOfSorted(s) <= s[i]
  {
  }

  /** For an even length the median lies between the two middle elements. */
  lemma EvenMedianBetween(s: seq<i32>)
    requires Sorted(s) && |s| % 2 == 0 && s != []
    ensures s[|s| / 2 - 1] <= MedianOfSorted(s) <= s[|s| / 2]
  {
  }
}
