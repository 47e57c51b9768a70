/** Which alterations of the checked bytes the checksum notices. */
module Bursts {
  import opened Galois
  import opened WireFormat
  import opened Crc32

  function ByteXor(a: Byte, b: Byte): Byte { a ^ b }

  function SeqXor(s: Bytes, t: Bytes): Bytes
    requires |s| == |t|
  {
    seq(|s|, i requires 0 <= i < |s| => ByteXor(s[i], t[i]))
  }

  function Zeros(n: nat): Bytes { seq(n, _ => 0) }

  lemma WidenXor(a: Byte, b: Byte)
    ensures Widen(ByteXor(a, b)) == Xor(Widen(a), Widen(b))
    ensures ByteXor(a, b) == 0 <==> a == b
  {}

  lemma StepXor(c: bv32, d: bv32, a: Byte, b: Byte)
    ensures Step(Xor(c, d), ByteXor(a, b)) == Xor(Step(c, a), Step(d, b))
  {
    hide Xor, Shift8, Widen, ByteXor;
    WidenXor(a, b);
    XorSwap(c, d, Widen(a), Widen(b));
    Shift8Xor(Xor(c, Widen(a)), Xor(d, Widen(b)));
  }

  /** The difference of two runs is the run of the differences. */
  lemma {:induction false} UpdateXor(c: bv32, d: bv32, s: Bytes, t: Bytes)
    requires |s| == |t|
    ensures Update(Xor(c, d), SeqXor(s, t)) == Xor(Update(c, s), Update(d, t))
    decreases |s|
  {
    hide Xor, Step, ByteXor;
    if |s| > 0 {
      var n := |s| - 1;
      UpdateXor(c, d, s[..n], t[..n]);
      assert SeqXor(s, t)[..n] == SeqXor(s[..n], t[..n]);
      StepXor(Update(c, s[..n]), Update(d, t[..n]), s[n], t[n]);
    }
  }

  lemma {:induction false} UpdateConcat(c: bv32, s: Bytes, t: Bytes)
    ensures Update(c, s + t) == Update(Update(c, s), t)
    decreases |t|
  {
    hide Step;
    if |t| == 0 {
      assert s + t == s;
    } else {
      var n := |t| - 1;
      assert (s + t)[..|s + t| - 1] == s + t[..n];
      UpdateConcat(c, s, t[..n]);
    }
  }

  lemma {:induction false} ZerosKeepZero(d: bv32, n: nat)
    ensures Update(d, Zeros(n)) == 0 <==> d == 0
  {
    hide Shift8, Xor, Widen;
    if n > 0 {
      assert Zeros(n)[..n - 1] == Zeros(n - 1);
      ZerosKeepZero(d, n - 1);
      WidenZero();
      XorZero(Update(d, Zeros(n - 1)));
      Shift8Zero(Update(d, Zeros(n - 1)));
    }
  }

  lemma WidenZero()
    ensures Widen(0) == 0
  {}

  // ---------- Four bytes at a time ----------

  function Small(y: bv32): bv32 { y & 0xFFFFFF }

  function Up8(y: bv32): bv32 { y << 8 }

  lemma UpShifts(y: bv32)
    ensures Shift8(Up8(y)) == Small(y)
  {}

  /** A later byte may be taken in early, above the bits still to be shifted. */
  lemma TakenEarly(x: bv32, y: bv32)
    requires Small(y) == y
    ensures Xor(Shift8(x), y) == Shift8(Xor(x, Up8(y)))
  {
    hide Xor, Shift8, Small, Up8;
    Shift8Xor(x, Up8(y));
    UpShifts(y);
  }

  lemma SmallBytes(b: Byte)
    ensures Small(Widen(b)) == Widen(b) && Small(Up8(Widen(b))) == Up8(Widen(b))
    ensures Small(Up8(Up8(Widen(b)))) == Up8(Up8(Widen(b)))
  {}

  function Word(w: Bytes): bv32
    requires |w| == 4
  {
    Xor(Xor(Xor(Widen(w[0]), Up8(Widen(w[1]))), Up8(Up8(Widen(w[2])))), Up8(Up8(Up8(Widen(w[3])))))
  }

  function Shift32(c: bv32): bv32 { Shift8(Shift8(Shift8(Shift8(c)))) }

  lemma Steps4(c: bv32, w: Bytes)
    requires |w| == 4
    ensures Update(c, w) == Step(Step(Step(Step(c, w[0]), w[1]), w[2]), w[3])
  {
    hide Step;
    assert w[..3][..2] == w[..2] && w[..2][..1] == w[..1] && w[..1][..0] == w[..0];
    assert Update(c, w[..0]) == c;
    assert Update(c, w[..1]) == Step(c, w[0]);
    assert Update(c, w[..2]) == Step(Update(c, w[..1]), w[1]);
    assert Update(c, w[..3]) == Step(Update(c, w[..2]), w[2]);
  }

  /** Four bytes amount to one 32-bit word taken in at once. */
  lemma FourSteps(c: bv32, w: Bytes)
    requires |w| == 4
    ensures Update(c, w) == Shift32(Xor(c, Word(w)))
  {
    hide Xor, Shift8, Widen, Up8, Small;
    Steps4(c, w);
    var w0, w1, w2, w3 := Widen(w[0]), Widen(w[1]), Widen(w[2]), Widen(w[3]);
    SmallBytes(w[1]); SmallBytes(w[2]); SmallBytes(w[3]);
    var x1 := Xor(c, w0);
    var x2 := Xor(x1, Up8(w1));
    var x3 := Xor(x2, Up8(Up8(w2)));
    TakenEarly(x1, w1);
    TakenEarly(Shift8(x2), w2);
    TakenEarly(x2, Up8(w2));
    TakenEarly(Shift8(Shift8(x3)), w3);
    TakenEarly(Shift8(x3), Up8(w3));
    TakenEarly(x3, Up8(Up8(w3)));
    XorAssoc(c, w0, Up8(w1));
    XorAssoc(c, Xor(w0, Up8(w1)), Up8(Up8(w2)));
    XorAssoc(c, Xor(Xor(w0, Up8(w1)), Up8(Up8(w2))), Up8(Up8(Up8(w3))));
  }

  lemma WordZero(w: Bytes)
    requires |w| == 4
    ensures Word(w) == 0 <==> w == Zeros(4)
  {
    WordZeroBytes(w[0], w[1], w[2], w[3]);
    assert w == [w[0], w[1], w[2], w[3]];
    hide Xor, Widen, Up8;
  }

  lemma WordZeroBytes(a: Byte, b: Byte, c: Byte, d: Byte)
    ensures Xor(Xor(Xor(Widen(a), Up8(Widen(b))), Up8(Up8(Widen(c)))), Up8(Up8(Up8(Widen(d))))) == 0
            <==> a == 0 && b == 0 && c == 0 && d == 0
  {}

  lemma Shift32Zero(c: bv32)
    ensures Shift32(c) == 0 <==> c == 0
  {
    hide Shift8;
    Shift8Zero(c);
    Shift8Zero(Shift8(c));
    Shift8Zero(Shift8(Shift8(c)));
    Shift8Zero(Shift8(Shift8(Shift8(c))));
  }

  lemma WindowOfZeros(d: Bytes, i: nat)
    requires i + 4 <= |d|
    requires forall j :: 0 <= j < |d| && !(i <= j < i + 4) ==> d[j] == 0
    ensures d == Zeros(i) + d[i..i + 4] + Zeros(|d| - i - 4)
    ensures d == Zeros(|d|) <==> d[i..i + 4] == Zeros(4)
  {
    assert Zeros(i) + Zeros(4) + Zeros(|d| - i - 4) == Zeros(|d|);
    assert Zeros(|d|)[i..i + 4] == Zeros(4);
  }

  /** A difference confined to four bytes never cancels. */
  lemma WindowNoticed(d: Bytes, i: nat)
    requires i + 4 <= |d|
    requires forall j :: 0 <= j < |d| && !(i <= j < i + 4) ==> d[j] == 0
    ensures Update(0, d) == 0 <==> d == Zeros(|d|)
  {
    hide Update, Shift32, Xor, Word;
    var w, rest := d[i..i + 4], |d| - i - 4;
    WindowOfZeros(d, i);
    UpdateConcat(0, Zeros(i) + w, Zeros(rest));
    UpdateConcat(0, Zeros(i), w);
    ZerosKeepZero(0, i);
    FourSteps(0, w);
    XorZero(Word(w));
    Shift32Zero(Word(w));
    WordZero(w);
    ZerosKeepZero(Update(0, w), rest);
  }

  lemma PaddedZeros(d: Bytes)
    ensures Zeros(4) + d == Zeros(|d| + 4) <==> d == Zeros(|d|)
  {
    assert Zeros(4) + Zeros(|d|) == Zeros(|d| + 4);
    assert (Zeros(4) + d)[4..] == d && Zeros(|d| + 4)[4..] == Zeros(|d|);
  }

  /** Wherever the four bytes begin, also past the end. */
  lemma DifferenceNoticed(d: Bytes, i: nat)
    requires forall j :: 0 <= j < |d| && !(i <= j < i + 4) ==> d[j] == 0
    ensures Update(0, d) == 0 <==> d == Zeros(|d|)
  {
    hide Update;
    var padded := Zeros(4) + d;
    var from := if i < |d| then i + 4 else |d|;
    WindowNoticed(padded, if from + 4 <= |padded| then from else |d|);
    UpdateConcat(0, Zeros(4), d);
    ZerosKeepZero(0, 4);
    PaddedZeros(d);
  }

  /** The two strings agree outside four consecutive bytes from i on. */
  ghost predicate DifferWithin(s: Bytes, t: Bytes, i: nat) {
    |s| == |t| && forall j :: 0 <= j < |s| && !(i <= j < i + 4) ==> s[j] == t[j]
  }

  /** Strings that differ only within four consecutive bytes have equal checksums exactly when they are
      equal: every burst of up to 32 bits is noticed. */
  lemma BurstNoticed(c: bv32, s: Bytes, t: Bytes, i: nat)
    requires DifferWithin(s, t, i)
    ensures Update(c, s) == Update(c, t) <==> s == t
  {
    hide Update, Xor;
    DifferenceZero(s, t);
    forall j | 0 <= j < |s| && !(i <= j < i + 4) ensures SeqXor(s, t)[j] == 0 {
      WidenXor(s[j], t[j]);
    }
    DifferenceNoticed(SeqXor(s, t), i);
    UpdateXor(c, c, s, t);
    XorZero(c);
    XorCancel(Update(c, s), Update(c, t));
  }

  lemma DifferenceZero(s: Bytes, t: Bytes)
    requires |s| == |t|
    ensures SeqXor(s, t) == Zeros(|s|) <==> s == t
  {
    forall i | 0 <= i < |s| ensures SeqXor(s, t)[i] == 0 <==> s[i] == t[i] {
      WidenXor(s[i], t[i]);
    }
    hide ByteXor;
    if SeqXor(s, t) == Zeros(|s|) {
      forall i | 0 <= i < |s| ensures s[i] == t[i] {
        assert Zeros(|s|)[i] == 0;
      }
    }
  }

  /** Five bytes are one too many: the polynomial itself, as a burst of 33 bits, goes unnoticed. */
  lemma FiveBytesUnnoticed(c: bv32, s: Bytes)
    requires |s| == 5
    ensures SeqXor(s, [0x41, 0x06, 0x71, 0xDB, 0x01]) != s
    ensures Update(c, SeqXor(s, [0x41, 0x06, 0x71, 0xDB, 0x01])) == Update(c, s)
  {
    var g := [0x41, 0x06, 0x71, 0xDB, 0x01];
    hide Step, Xor, Shift8, ByteXor, Widen;
    UpdateXor(c, 0, s, g);
    XorZero(c);
    PatternCancels();
    XorZero(Update(c, s));
    assert SeqXor(s, g)[0] == ByteXor(s[0], 0x41);
    ByteChanges(s[0]);
  }

  lemma ByteChanges(b: Byte)
    ensures ByteXor(b, 0x41) != b
  {}

  lemma PatternCancels()
    ensures Update(0, [0x41, 0x06, 0x71, 0xDB, 0x01]) == 0
  {
    var g := [0x41, 0x06, 0x71, 0xDB, 0x01];
    assert g[..4] == [0x41, 0x06, 0x71, 0xDB];
    Steps4(0, g[..4]);
    assert Step(0, 0x41) == 0x1db7106;
    assert Step(0x1db7106, 0x06) == 0x1db71;
    assert Step(0x1db71, 0x71) == 0x1db;
    assert Step(0x1db, 0xDB) == 0x1;
    assert Step(0x1, 0x01) == 0;
    hide Step;
  }
}
