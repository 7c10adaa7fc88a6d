/** Counting primes twice: by trial division, and by a sieve that strikes out 2 before it starts.
 */
module Sieve {
  import opened Arith

  // d divides n.
  ghost predicate Divides(d: int, n: int)
    requires d > 0
  {
    n % d == 0
  }

  ghost predicate IsPrime(n: int) {
    n >= 2 && forall d :: 2 <= d < n ==> !Divides(d, n)
  }

  // What the sieve leaves standing.
  ghost predicate Survives(n: int) {
    (IsPrime(n) && n != 2) || n == 4
  }

  /* ------------------------------- division ------------------------------- */

  lemma DividesBy(d: int, k: int)
    requires d > 0
    ensures Divides(d, d * k)
  {
    var q := d * k / d;
    MulOrder(d, k, q);
    MulOrder(d, q, k);
  }

  lemma DividesTrans(a: int, b: int, c: int)
    requires a > 0 && b > 0 && Divides(a, b) && Divides(b, c)
    ensures Divides(a, c)
  {
    var k, m := b / a, c / b;
    assert b == a * k && c == b * m;
    assert c == a * (k * m) by {
      assert a * k * m == a * (k * m);
    }
    DividesBy(a, k * m);
  }

  // If d divides n, so does the other factor, and one of the two is small.
  lemma OtherFactor(d: int, n: int) returns (e: int)
    requires 2 <= d < n && Divides(d, n)
    ensures 2 <= e < n && Divides(e, n) && d * e == n
  {
    e := n / d;
    assert d * e == n;
    MulOrder(d, e, 1);
    MulOrder(e, 1, d);
    assert e * d == d * e;
    DividesBy(e, d);
  }

  // Every number from 2 on has a prime factor.
  lemma PrimeFactor(n: int) returns (p: int)
    requires n >= 2
    ensures IsPrime(p) && p <= n && Divides(p, n)
    decreases n
  {
    if IsPrime(n) {
      p := n;
      assert n % n == 0;
    } else {
      var d :| 2 <= d < n && Divides(d, n);
      p := PrimeFactor(d);
      DividesTrans(p, d, n);
    }
  }

  // An odd number has an odd prime factor.
  lemma OddFactor(n: int) returns (p: int)
    requires n >= 3 && n % 2 == 1
    ensures IsPrime(p) && p != 2 && p <= n && Divides(p, n)
  {
    p := PrimeFactor(n);
  }

  // What is neither an odd prime nor 4, nor 2, is a multiple of something smaller that is.
  lemma StruckOut(n: int) returns (s: int)
    requires n >= 3 && !Survives(n)
    ensures Survives(s) && 3 <= s < n && Divides(s, n)
  {
    if n % 2 == 1 {
      s := OddFactor(n);
    } else {
      var m := n / 2;
      assert n == 2 * m && m >= 3;
      if m % 2 == 0 {
        s := 4;
        DividesBy(4, m / 2);
        assert n == 4 * (m / 2);
      } else {
        s := OddFactor(m);
        assert Divides(m, n) by {
          DividesBy(m, 2);
        }
        DividesTrans(s, m, n);
      }
    }
  }

  // And what is one of them is no multiple of a smaller one.
  lemma LeftStanding(n: int, s: int)
    requires Survives(n) && Survives(s) && s < n
    ensures !Divides(s, n)
  {
    if n == 4 {
      assert s == 3 by {
        assert Divides(2, 4);
      }
    }
  }

  /* ------------------------------- trial division ------------------------------- */

  // No divisor up to the root means no divisor at all.
  lemma RootSuffices(n: int, i: int)
    requires n >= 2 && i >= 2 && i * i > n && forall d :: 2 <= d < i && d < n ==> !Divides(d, n)
    ensures IsPrime(n)
  {
    forall d | 2 <= d < n
      ensures !Divides(d, n)
    {
      if Divides(d, n) && d >= i {
        var e := OtherFactor(d, n);
        if e >= i {
          SquareLarge(d, e, i);
        }
      }
    }
  }

  lemma SquareLarge(d: int, e: int, i: int)
    requires d >= i >= 2 && e >= i
    ensures d * e >= i * i
  {
    assert d * e >= d * i by {
      assert d * (e - i) >= 0;
    }
    assert d * i >= i * i by {
      assert (d - i) * i >= 0;
    }
  }

  // is_prime
  method TestPrime(num: int) returns (r: bool)
    ensures r <==> IsPrime(num)
  {
    if num <= 1 {
      return false;
    }
    var i := 2;
    while i * i <= num
      invariant 2 <= i
      invariant forall d :: 2 <= d < i && d < num ==> !Divides(d, num)
      decreases num - i
    {
      Below(i, num);
      if num % i == 0 {
        assert Divides(i, num);
        return false;
      }
      i := i + 1;
    }
    RootSuffices(num, i);
    r := true;
  }

  lemma Below(i: int, n: int)
    requires i >= 2 && i * i <= n
    ensures i < n
  {
    assert i * i >= 2 * i;
  }

  /* ------------------------------- counting ------------------------------- */

  // The primes from 2 to n, and the survivors.
  ghost function Primes(n: int): (c: nat)
    decreases n
  {
    if n < 2 then 0 else Primes(n - 1) + if IsPrime(n) then 1 else 0
  }

  ghost function Survivors(n: int): (c: nat)
    decreases n
  {
    if n < 2 then 0 else Survivors(n - 1) + if Survives(n) then 1 else 0
  }

  lemma SmallPrimes()
    ensures IsPrime(2) && IsPrime(3) && !IsPrime(4)
  {
    assert Divides(2, 4);
  }

  // The survivors are as many as the primes as soon as 4 is there to stand in for 2.
  lemma {:induction false} CountsAgree(n: int)
    ensures Survivors(n) == Primes(n) <==> n < 2 || n >= 4
    ensures n >= 4 ==> Survivors(n) == Primes(n)
    decreases n
  {
    SmallPrimes();
    if n >= 5 {
      CountsAgree(n - 1);
    } else {
      assert Primes(1) == 0 && Survivors(1) == 0;
      assert n == 2 ==> Primes(2) == 1 && Survivors(2) == 0;
      assert n == 3 ==> Primes(2) == 1 && Primes(3) == 2 && Survivors(2) == 0 && Survivors(3) == 1;
      assert n == 4 ==> Primes(3) == 2 && Primes(4) == 2 && Survivors(3) == 1 && Survivors(4) == 2;
    }
  }

  /* ------------------------------- the sieve ------------------------------- */

  // Standing at step i: not 2, and no multiple of a smaller survivor that has had its turn.
  ghost predicate Stands(n: int, i: int) {
    n != 2 && forall s :: 2 <= s < i && s < n && Survives(s) ==> !Divides(s, n)
  }

  // When its turn comes, a number stands exactly if it survives.
  lemma StandsExactly(i: int)
    requires i >= 2
    ensures Stands(i, i) <==> Survives(i)
  {
    SmallPrimes();
    if Survives(i) {
      forall s | 2 <= s < i && Survives(s)
        ensures !Divides(s, i)
      {
        LeftStanding(i, s);
      }
    } else if i > 2 {
      var s := StruckOut(i);
      assert Survives(s) && Divides(s, i);
    }
  }

  // validate_prime_calculation, for a table of any size: it answers whether the two counts agree.
  method Validate(size: nat, table: array<int>) returns (r: bool)
    requires table.Length == size + 5
    modifies table
    ensures r <==> size < 2 || size >= 4
  {
    var count := CountByDivision(size);
    var sum := CountBySieve(size, table);
    CountsAgree(size);
    return sum == count;
  }

  method CountByDivision(size: nat) returns (count: int)
    ensures count == Primes(size)
  {
    count := 0;
    var i := 2;
    while i <= size
      invariant i >= 2 && (i <= size + 1 || (size < 2 && i == 2)) && count == Primes(i - 1)
    {
      var p := TestPrime(i);
      if p {
        count := count + 1;
      }
      i := i + 1;
    }
  }

  method CountBySieve(size: nat, table: array<int>) returns (sum: int)
    requires table.Length == size + 5
    modifies table
    ensures sum == Survivors(size)
  {
    sum := 0;
    for i := 0 to size + 1
      invariant forall k :: 0 <= k < i ==> table[k] == 1
    {
      table[i] := 1;
    }
    table[2] := 0;
    var i := 2;
    while i <= size
      invariant i >= 2 && (i <= size + 1 || (size < 2 && i == 2)) && sum == Survivors(i - 1)
      invariant forall k :: 2 <= k <= size ==> (table[k] != 0 <==> Stands(k, i))
    {
      StandsExactly(i);
      if table[i] != 0 {
        sum := sum + 1;
        Strike(size, table, i);
      } else {
        NoStrike(size, i);
      }
      i := i + 1;
    }
  }

  lemma NoStrike(size: nat, i: int)
    requires i >= 2 && !Survives(i)
    ensures forall k :: 2 <= k <= size ==> (Stands(k, i) <==> Stands(k, i + 1))
  {
  }

  // Strikes out the multiples of i, a survivor.
  method Strike(size: nat, table: array<int>, i: int)
    requires table.Length == size + 5 && 2 <= i <= size && Survives(i)
    requires forall k :: 2 <= k <= size ==> (table[k] != 0 <==> Stands(k, i))
    modifies table
    ensures forall k :: 2 <= k <= size ==> (table[k] != 0 <==> Stands(k, i + 1))
  {
    var j := i * 2;
    NextMultiple(i, i);
    while j <= size
      invariant j > i && Divides(i, j)
      invariant forall k :: 2 <= k <= size ==> (table[k] != 0 <==> Stands(k, i) && !(Divides(i, k) && i < k < j))
      decreases size - j
    {
      NextMultiple(i, j);
      table[j] := 0;
      j := j + i;
    }
    StrikeDone(size, i);
  }

  lemma StrikeDone(size: nat, i: int)
    requires i >= 2 && Survives(i)
    ensures forall k :: 2 <= k <= size ==> (Stands(k, i + 1) <==> Stands(k, i) && !(Divides(i, k) && i < k))
  {
  }

  // After a multiple of i the next one is i further on, and there is none between.
  lemma NextMultiple(i: int, j: int)
    requires i >= 2 && Divides(i, j)
    ensures Divides(i, j + i)
    ensures forall k :: j < k < j + i ==> !Divides(i, k)
  {
    var m := j / i;
    assert j == i * m && j + i == i * (m + 1);
    DividesBy(i, m + 1);
    forall k | j < k < j + i
      ensures !Divides(i, k)
    {
      MulOrder(i, k / i, m);
    }
  }
}
