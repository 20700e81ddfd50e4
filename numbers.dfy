/** Summing a slice of integers. */
module Numbers {

  /** The mathematical sum of `s`. */
  function Sum(s: seq<int>): int
  {
    if s == [] then 0 else s[0] + Sum(s[1..])
  }

  /** The sum of a concatenation is the sum of the parts. */
  lemma {:induction false} SumAppend(a: seq<int>, b: seq<int>)
    ensures Sum(a + b) == Sum(a) + Sum(b)
  {
    if a == [] {
      assert a + b == b;
    } else {
      assert (a + b)[1..] == a[1..] + b;
      SumAppend(a[1..], b);
    }
  }

  /** The sum does not depend on the order of the elements. */
  lemma {:induction false} SumPermutation(a: seq<int>, b: seq<int>)
    requires multiset(a) == multiset(b)
    ensures Sum(a) == Sum(b)
  {
    if a == [] {
      assert |b| == |multiset(b)| == 0;
    } else {
      var x := a[0];
      assert a == [x] + a[1..];
      assert x in multiset(b);
      var i :| 0 <= i < |b| && b[i] == x;
      var rest := b[..i] + b[i + 1..];
      assert b == b[..i] + [x] + b[i + 1..];
      SumAppend(b[..i] + [x], b[i + 1..]);
      SumAppend(b[..i], [x]);
      SumAppend(b[..i], b[i + 1..]);
      calc {
        multiset(a[1..]);
        multiset(a) - multiset{x};
        multiset(b) - multiset{x};
        { assert multiset(b) == multiset(b[..i]) + multiset{x} + multiset(b[i + 1..]); }
        multiset(rest);
      }
      SumPermutation(a[1..], rest);
    }
  }

  /** Adds up `numbers` with an accumulator, one element at a time. */
  method SumOfNumbers(numbers: seq<int>) returns (sum: int)
    ensures sum == Sum(numbers)
    ensures numbers == [] ==> sum == 0
    ensures |numbers| == 1 ==> sum == numbers[0]
  {
    sum := 0;
    for i := 0 to |numbers|
      invariant sum == Sum(numbers[..i])
    {
      assert numbers[..i + 1] == numbers[..i] + [numbers[i]];
      SumAppend(numbers[..i], [numbers[i]]);
      sum := sum + numbers[i];
    }
    assert numbers[..|numbers|] == numbers;
  }
}
