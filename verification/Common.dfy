/** The optional value and the one fact about set sizes used throughout the models. */
module Common {
  datatype Option<+T> = None | Some(value: T)

  lemma SubsetSize<T>(a: set<T>, b: set<T>)
    requires a <= b
    ensures |a| <= |b|
  {
    assert b == a + (b - a);
  }
}

/** Numbers below 256 as bytes, proved by counting up from zero. */
module ByteNumbers {
  lemma Back(b: bv8)
    ensures (b as int) as bv8 == b
  {}

  lemma Next(b: bv8)
    requires b as int < 255
    ensures (b + 1) as int == b as int + 1
  {}

  lemma {:induction false} Reached(n: nat) returns (b: bv8)
    requires n < 256
    ensures b as int == n
  {
    if n == 0 {
      b := 0;
    } else {
      var c := Reached(n - 1);
      Next(c);
      b := c + 1;
    }
  }

  lemma SmallByte(n: nat)
    requires n < 256
    ensures (n as bv8) as int == n
  {
    var b := Reached(n);
    Back(b);
    assert n as bv8 == (b as int) as bv8;
  }

  lemma ZeroByte()
    ensures (0 as bv8) as int == 0
  {}
}
