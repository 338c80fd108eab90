/** UTF-8 as section 3 of RFC 3629 defines it: one row of its table per length. */
module Utf8 {
  import opened Bytes

  /** A code point that is not a surrogate. */
  predicate IsScalar(cp: nat) {
    cp < 0xD800 || 0xE000 <= cp < 0x11_0000
  }

  function Continuation(bits: nat): byte {
    (0x80 + bits % 0x40) as byte
  }

  function Encode(cp: nat): (s: bytes)
    requires IsScalar(cp)
    ensures 1 <= |s| <= 4
  {
    if cp < 0x80 then
      [cp as byte]
    else if cp < 0x800 then
      [(0xC0 + cp / 0x40) as byte, Continuation(cp)]
    else if cp < 0x1_0000 then
      [(0xE0 + cp / 0x1000) as byte, Continuation(cp / 0x40), Continuation(cp)]
    else
      [(0xF0 + cp / 0x4_0000) as byte, Continuation(cp / 0x1000), Continuation(cp / 0x40), Continuation(cp)]
  }

  function EncodeAll(cps: seq<nat>): bytes
    requires forall i | 0 <= i < |cps| :: IsScalar(cps[i])
  {
    if cps == [] then [] else Encode(cps[0]) + EncodeAll(cps[1..])
  }

  /** The number of bytes the first byte announces; 0 when it cannot start a sequence. */
  function SequenceLength(first: byte): nat {
    if first < 0x80 then 1
    else if first < 0xC2 then 0
    else if first < 0xE0 then 2
    else if first < 0xF0 then 3
    else if first < 0xF5 then 4
    else 0
  }

  predicate IsContinuation(b: byte) {
    0x80 <= b < 0xC0
  }

  function Low(b: byte): nat
    requires IsContinuation(b)
  {
    b as nat - 0x80
  }

  /** Strict decoding of one code point: overlong forms, surrogates and values past U+10FFFF are refused. */
  function DecodeFirst(s: bytes): (r: Option<(nat, nat)>)
    ensures r.Some? ==> 1 <= r.value.1 <= |s|
  {
    if s == [] then
      None
    else
      var n := SequenceLength(s[0]);
      if n == 0 || n > |s| || exists i | 1 <= i < n :: !IsContinuation(s[i]) then
        None
      else if n == 1 then
        Some((s[0] as nat, 1))
      else if n == 2 then
        Some(((s[0] as nat - 0xC0) * 0x40 + Low(s[1]), 2))
      else if n == 3 then
        var cp := (s[0] as nat - 0xE0) * 0x1000 + Low(s[1]) * 0x40 + Low(s[2]);
        if cp < 0x800 || !IsScalar(cp) then None else Some((cp, 3))
      else
        var cp := (s[0] as nat - 0xF0) * 0x4_0000 + Low(s[1]) * 0x1000 + Low(s[2]) * 0x40 + Low(s[3]);
        if cp < 0x1_0000 || cp >= 0x11_0000 then None else Some((cp, 4))
  }

  function DecodeAll(s: bytes): Option<seq<nat>>
    decreases |s|
  {
    if s == [] then
      Some([])
    else
      match DecodeFirst(s)
      case None => None
      case Some((cp, n)) =>
        match DecodeAll(s[n..])
        case None => None
        case Some(rest) => Some([cp] + rest)
  }

  /** Splitting a code point in base 64 loses nothing. */
  lemma Base64Digits(cp: nat)
    ensures cp == cp / 0x1000 * 0x1000 + cp / 0x40 % 0x40 * 0x40 + cp % 0x40
    ensures cp == cp / 0x4_0000 * 0x4_0000 + cp / 0x1000 % 0x40 * 0x1000 + cp / 0x40 % 0x40 * 0x40 + cp % 0x40
  {
    var q, p := cp / 0x40, cp / 0x1000;
    DividedTwice(cp);
    DividedTwice(q);
    assert cp == q * 0x40 + cp % 0x40;
    assert q == p * 0x40 + q % 0x40;
    assert p == cp / 0x4_0000 * 0x40 + p % 0x40 by {
      assert q / 0x1000 == cp / 0x4_0000 by {
        ShiftedQuotient(cp, q);
      }
    }
  }

  lemma DividedTwice(n: nat)
    ensures n / 0x1000 == n / 0x40 / 0x40
  {
    var q := n / 0x40;
    var p := q / 0x40;
    assert n == q * 0x40 + n % 0x40 && q == p * 0x40 + q % 0x40;
    assert 0 <= n - p * 0x1000 < 0x1000;
  }

  lemma ShiftedQuotient(n: nat, q: nat)
    requires q == n / 0x40
    ensures q / 0x1000 == n / 0x4_0000
  {
    var p := q / 0x1000;
    assert n == q * 0x40 + n % 0x40 && q == p * 0x1000 + q % 0x1000;
    assert 0 <= n - p * 0x4_0000 < 0x4_0000;
  }

  lemma DecodeFirstEncode(cp: nat, tail: bytes)
    requires IsScalar(cp)
    ensures DecodeFirst(Encode(cp) + tail) == Some((cp, |Encode(cp)|))
  {
    var e := Encode(cp);
    var s := e + tail;
    Base64Digits(cp);
    assert s[0] == e[0] && SequenceLength(s[0]) == |e|;
    assert forall i | 1 <= i < |e| :: s[i] == e[i] && IsContinuation(s[i]);
    if |e| == 2 {
      assert Low(s[1]) == cp % 0x40;
    } else if |e| == 3 {
      assert Low(s[1]) == cp / 0x40 % 0x40 && Low(s[2]) == cp % 0x40;
    } else if |e| == 4 {
      assert Low(s[1]) == cp / 0x1000 % 0x40 && Low(s[2]) == cp / 0x40 % 0x40 && Low(s[3]) == cp % 0x40;
    }
  }

  lemma {:induction false} DecodeAllEncodeAll(cps: seq<nat>)
    requires forall i | 0 <= i < |cps| :: IsScalar(cps[i])
    ensures DecodeAll(EncodeAll(cps)) == Some(cps)
  {
    if cps == [] {
    } else {
      var tail := EncodeAll(cps[1..]);
      DecodeFirstEncode(cps[0], tail);
      AppendDrop(Encode(cps[0]), tail);
      DecodeAllEncodeAll(cps[1..]);
      assert [cps[0]] + cps[1..] == cps;
    }
  }
}
