/** The C types of 32 and 64 bits: what is left of a number that is taken as one. */
module Words {

  function Uint32(n: int): int {
    n % 0x1_0000_0000
  }

  function Int32(n: int): int {
    (n + 0x8000_0000) % 0x1_0000_0000 - 0x8000_0000
  }

  function Int64(n: int): int {
    (n + 0x8000_0000_0000_0000) % 0x1_0000_0000_0000_0000 - 0x8000_0000_0000_0000
  }

  lemma Int32Of(n: int)
    requires 0 <= n < 0x1_0000_0000
    ensures Int32(n) == if n < 0x8000_0000 then n else n - 0x1_0000_0000
  {
    if n >= 0x8000_0000 {
      assert n + 0x8000_0000 == 0x1_0000_0000 + (n - 0x8000_0000);
    }
  }

  lemma Wraps(n: int, q: int)
    ensures Uint32(n + q * 0x1_0000_0000) == Uint32(n)
  {
    var m := 0x1_0000_0000;
    assert n == n / m * m + n % m;
    assert n + q * m == (n / m + q) * m + n % m;
  }

  // The difference of two counters that wrap
  lemma WrapMinus(a: int, b: int)
    ensures Uint32(Uint32(a) - Uint32(b)) == Uint32(a - b)
  {
    var m := 0x1_0000_0000;
    assert a == a / m * m + Uint32(a) && b == b / m * m + Uint32(b);
    assert a - b == Uint32(a) - Uint32(b) + (a / m - b / m) * m;
    Wraps(Uint32(a) - Uint32(b), a / m - b / m);
  }

  // A number of the range of an int is what is left of it.
  lemma SignBack(n: int)
    requires -0x8000_0000 <= n < 0x8000_0000
    ensures Int32(Uint32(n)) == n
  {
    if n < 0 {
      assert Uint32(n) == n + 0x1_0000_0000;
    }
    Int32Of(Uint32(n));
  }
}
