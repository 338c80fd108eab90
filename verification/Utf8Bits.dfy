/** The encoding bit by bit: the table of section 3 of RFC 3629. */
module Utf8Bits {
  import opened Bytes
  import opened Utf8

  /** The last `k` binary digits of `n`. */
  function Bits(n: nat, k: nat): (s: string)
    ensures |s| == k
  {
    if k == 0 then "" else Bits(n / 2, k - 1) + [if n % 2 == 0 then '0' else '1']
  }

  function BitsOf(s: bytes): string {
    if s == [] then "" else Bits(s[0] as nat, 8) + BitsOf(s[1..])
  }

  function Pow2(k: nat): (r: nat)
    ensures r > 0
  {
    if k == 0 then 1 else 2 * Pow2(k - 1)
  }

  lemma DoubledProduct(q: nat, p: nat)
    ensures q * (2 * p) == 2 * (q * p)
  {
  }

  /** The digits of `q` in front of the `k` digits of `r`. */
  lemma {:induction false} BitsJoin(q: nat, j: nat, r: nat, k: nat)
    requires r < Pow2(k)
    ensures Bits(q * Pow2(k) + r, j + k) == Bits(q, j) + Bits(r, k)
  {
    if k == 0 {
      assert Bits(q, j) + "" == Bits(q, j);
    } else {
      var p := Pow2(k - 1);
      var n, m := q * Pow2(k) + r, q * p;
      DoubledProduct(q, p);
      assert n == 2 * m + r && n / 2 == m + r / 2 && n % 2 == r % 2;
      BitsJoin(q, j, r / 2, k - 1);
      Together(Bits(q, j), Bits(r / 2, k - 1), [if n % 2 == 0 then '0' else '1']);
    }
  }

  lemma Together(a: string, b: string, c: string)
    ensures (a + b) + c == a + (b + c)
  {
  }

  lemma SixBits(n: nat, j: nat)
    ensures Bits(n, j + 6) == Bits(n / 0x40, j) + Bits(n % 0x40, 6)
  {
    Marks();
    BitsJoin(n / 0x40, j, n % 0x40, 6);
  }

  lemma Marks()
    ensures Bits(2, 2) == "10" && Bits(6, 3) == "110" && Bits(14, 4) == "1110" && Bits(30, 5) == "11110"
    ensures Bits(0, 1) == "0"
    ensures Pow2(3) == 8 && Pow2(4) == 0x10 && Pow2(5) == 0x20 && Pow2(6) == 0x40 && Pow2(7) == 0x80
  {
    assert Bits(1, 1) == "1" && Bits(3, 2) == "11" && Bits(7, 3) == "111" && Bits(15, 4) == "1111" by {
      assert Bits(0, 0) == "";
    }
  }

  lemma ContinuationBits(bits: nat)
    ensures Bits(Continuation(bits) as nat, 8) == "10" + Bits(bits % 0x40, 6)
  {
    var b: nat := 0x80 + bits % 0x40;
    Marks();
    SixBits(b, 2);
    assert b / 0x40 == 2 && b % 0x40 == bits % 0x40;
  }

  lemma OfOne(a: byte)
    ensures BitsOf([a]) == Bits(a as nat, 8)
  {
    assert [a][1..] == [] && BitsOf([]) == "";
    assert Bits(a as nat, 8) + "" == Bits(a as nat, 8);
  }

  lemma OfMore(a: byte, s: bytes)
    ensures BitsOf([a] + s) == Bits(a as nat, 8) + BitsOf(s)
  {
    assert ([a] + s)[1..] == s;
  }

  lemma OneByte(cp: nat)
    requires cp < 0x80
    ensures BitsOf(Encode(cp)) == "0" + Bits(cp, 7)
  {
    Marks();
    OfOne(cp as byte);
    BitsJoin(0, 1, cp, 7);
  }

  lemma TwoBytes(cp: nat)
    requires 0x80 <= cp < 0x800
    ensures var x := Bits(cp, 11); BitsOf(Encode(cp)) == "110" + x[..5] + ("10" + x[5..])
  {
    hide Bits, BitsOf, Pow2;
    Marks();
    var e := Encode(cp);
    BitsJoin(6, 3, cp / 0x40, 5);
    ContinuationBits(cp);
    SixBits(cp, 5);
    BitsLength(cp / 0x40, 5);
    assert e == [e[0]] + [e[1]];
    OfMore(e[0], [e[1]]);
    OfOne(e[1]);
  }

  lemma BitsLength(n: nat, k: nat)
    ensures |Bits(n, k)| == k
  {
  }

  lemma ThreeBytes(cp: nat)
    requires 0x800 <= cp < 0x1_0000 && IsScalar(cp)
    ensures var x := Bits(cp, 16); BitsOf(Encode(cp)) == "1110" + x[..4] + ("10" + x[4..10] + ("10" + x[10..]))
  {
    hide Bits, BitsOf, Pow2;
    Marks();
    var e := Encode(cp);
    BitsJoin(14, 4, cp / 0x1000, 4);
    ContinuationBits(cp / 0x40);
    ContinuationBits(cp);
    SixBits(cp, 10);
    SixBits(cp / 0x40, 4);
    DividedTwice(cp);
    BitsLength(cp / 0x1000, 4);
    BitsLength(cp / 0x40 % 0x40, 6);
    assert e == [e[0]] + ([e[1]] + [e[2]]);
    OfMore(e[0], [e[1]] + [e[2]]);
    OfMore(e[1], [e[2]]);
    OfOne(e[2]);
  }

  lemma FourBytes(cp: nat)
    requires 0x1_0000 <= cp < 0x11_0000
    ensures var x := Bits(cp, 21);
            BitsOf(Encode(cp)) == "11110" + x[..3] + ("10" + x[3..9] + ("10" + x[9..15] + ("10" + x[15..])))
  {
    hide Bits, BitsOf, Pow2;
    Marks();
    var e := Encode(cp);
    BitsJoin(30, 5, cp / 0x4_0000, 3);
    ContinuationBits(cp / 0x1000);
    ContinuationBits(cp / 0x40);
    ContinuationBits(cp);
    SixBits(cp, 15);
    SixBits(cp / 0x40, 9);
    SixBits(cp / 0x1000, 3);
    DividedTwice(cp);
    DividedTwice(cp / 0x40);
    ShiftedQuotient(cp, cp / 0x40);
    BitsLength(cp / 0x4_0000, 3);
    BitsLength(cp / 0x1000 % 0x40, 6);
    BitsLength(cp / 0x40 % 0x40, 6);
    assert e == [e[0]] + ([e[1]] + ([e[2]] + [e[3]]));
    OfMore(e[0], [e[1]] + ([e[2]] + [e[3]]));
    OfMore(e[1], [e[2]] + [e[3]]);
    OfMore(e[2], [e[3]]);
    OfOne(e[3]);
  }

  /** The four rows of the table, with the binary digits of the code point for its x. */
  lemma EncodingTable(cp: nat)
    requires IsScalar(cp)
    ensures var e := BitsOf(Encode(cp));
            if cp <= 0x7F then e == "0" + Bits(cp, 7)
            else if cp <= 0x7FF then
              var x := Bits(cp, 11); e == "110" + x[..5] + ("10" + x[5..])
            else if cp <= 0xFFFF then
              var x := Bits(cp, 16); e == "1110" + x[..4] + ("10" + x[4..10] + ("10" + x[10..]))
            else
              var x := Bits(cp, 21);
              e == "11110" + x[..3] + ("10" + x[3..9] + ("10" + x[9..15] + ("10" + x[15..])))
  {
    hide Encode, Bits, BitsOf;
    if cp < 0x80 {
      OneByte(cp);
    } else if cp < 0x800 {
      TwoBytes(cp);
    } else if cp < 0x1_0000 {
      ThreeBytes(cp);
    } else {
      FourBytes(cp);
    }
  }
}
