/** Bit strings as the DCF77 encoder builds them: strings of the characters
    '0' and '1', written least-significant bit first. This module holds the
    string helpers `concat`, `reverse`, `binary`, `bcd` and `evenParity`,
    together with the reading of a bit string back into a number. */
module Bits {

  predicate IsBit(c: char) { c == '0' || c == '1' }

  predicate IsBits(s: string) { forall i :: 0 <= i < |s| ==> IsBit(s[i]) }

  lemma BitsConcat(a: string, b: string)
    requires IsBits(a) && IsBits(b)
    ensures IsBits(a + b)
  {
  }

  function BitValue(c: char): nat { if c == '1' then 1 else 0 }

  function Pow2(n: nat): (p: nat)
    ensures 1 <= p
  {
    if n == 0 then 1 else 2 * Pow2(n - 1)
  }

  /** The number a bit string stands for when read least-significant bit
      first: the sum of s[i] * 2^i. This is how a receiver reads a field. */
  function LsbValue(s: string): nat
  {
    if s == [] then 0 else BitValue(s[0]) + 2 * LsbValue(s[1..])
  }

  /** The number a bit string stands for when read most-significant bit
      first, the order in which `Number.prototype.toString(2)` writes. */
  function MsbValue(s: string): nat
  {
    if s == [] then 0 else 2 * MsbValue(s[..|s| - 1]) + BitValue(s[|s| - 1])
  }

  /** `concat(input, n)`: the character repeated n times. */
  function Repeat(c: char, n: nat): (r: string)
    ensures |r| == n
  {
    if n == 0 then [] else [c] + Repeat(c, n - 1)
  }

  lemma {:induction false} RepeatAt(c: char, n: nat, i: nat)
    requires i < n
    ensures Repeat(c, n)[i] == c
  {
    if i > 0 {
      RepeatAt(c, n - 1, i - 1);
    }
  }

  /** `reverse(string)`. */
  function Reverse(s: string): (r: string)
    ensures |r| == |s|
  {
    if s == [] then [] else Reverse(s[1..]) + [s[0]]
  }

  lemma {:induction false} ReverseAt(s: string, i: nat)
    requires i < |s|
    ensures Reverse(s)[i] == s[|s| - 1 - i]
  {
    if i < |s| - 1 {
      ReverseAt(s[1..], i);
    }
  }

  /** `v.toString(2)`: the shortest most-significant-first binary numeral
      of v ("0" for zero, otherwise no leading zero). */
  function Radix2(v: nat): (r: string)
    ensures 1 <= |r|
    ensures MsbValue(r) == v
    ensures 1 < |r| ==> r[0] == '1'
  {
    if v < 2 then [if v == 0 then '0' else '1']
    else
      var high := Radix2(v / 2);
      assert (high + [if v % 2 == 0 then '0' else '1'])[..|high|] == high;
      high + [if v % 2 == 0 then '0' else '1']
  }

  lemma {:induction false} Radix2Bits(v: nat)
    ensures IsBits(Radix2(v))
  {
    if v >= 2 {
      Radix2Bits(v / 2);
    }
  }

  /** The numeral of v fits in n >= 1 digits exactly when v < 2^n. */
  lemma {:induction false} Radix2Length(v: nat, n: nat)
    requires 1 <= n
    ensures |Radix2(v)| <= n <==> v < Pow2(n)
  {
    if v >= 2 {
      if n == 1 {
        assert Pow2(1) == 2;
      } else {
        Radix2Length(v / 2, n - 1);
      }
    } else if n > 1 {
      assert Pow2(n) == 2 * Pow2(n - 1);
    }
  }

  /** Reading a reversed string least-significant first gives the value of
      the original read most-significant first. */
  lemma {:induction false} LsbOfReverse(s: string)
    ensures LsbValue(Reverse(s)) == MsbValue(s)
  {
    if s != [] {
      var init, last := s[..|s| - 1], s[|s| - 1];
      forall i | 0 <= i < |s| ensures Reverse(s)[i] == ([last] + Reverse(init))[i] {
        ReverseAt(s, i);
        if i > 0 { ReverseAt(init, i - 1); }
      }
      assert Reverse(s) == [last] + Reverse(init);
      assert ([last] + Reverse(init))[1..] == Reverse(init);
      LsbOfReverse(init);
    }
  }

  lemma {:induction false} LsbOfZeros(n: nat)
    ensures LsbValue(Repeat('0', n)) == 0
  {
    if n > 0 {
      LsbOfZeros(n - 1);
    }
  }

  /** Zero padding on the high (right) end does not change the value. */
  lemma {:induction false} LsbOfZeroPadded(s: string, n: nat)
    ensures LsbValue(s + Repeat('0', n)) == LsbValue(s)
  {
    if s == [] {
      assert s + Repeat('0', n) == Repeat('0', n);
      LsbOfZeros(n);
    } else {
      assert (s + Repeat('0', n))[1..] == s[1..] + Repeat('0', n);
      LsbOfZeroPadded(s[1..], n);
    }
  }

  /** `binary(input, size)`: the numeral of v reversed to least-significant
      first and padded with '0' up to `size` characters. `concat(0, k)` with
      k == -1 is the empty string and with k <= -2 throws a RangeError, so the
      source can only be called with a numeral of at most size + 1 digits. */
  function Binary(v: nat, size: nat): (r: string)
    requires |Radix2(v)| <= size + 1
    ensures |r| == if |Radix2(v)| <= size then size else size + 1
    ensures LsbValue(r) == v
  {
    var bin := Radix2(v);
    var pad := if |bin| <= size then size - |bin| else 0;
    LsbOfReverse(bin);
    LsbOfZeroPadded(Reverse(bin), pad);
    Reverse(bin) + Repeat('0', pad)
  }

  lemma BinaryBits(v: nat, size: nat)
    requires |Radix2(v)| <= size + 1
    ensures IsBits(Binary(v, size))
  {
    var bin := Radix2(v);
    var pad := if |bin| <= size then size - |bin| else 0;
    Radix2Bits(v);
    assert Binary(v, size) == Reverse(bin) + Repeat('0', pad);
    forall i | 0 <= i < |bin| + pad ensures IsBit((Reverse(bin) + Repeat('0', pad))[i]) {
      if i < |bin| { ReverseAt(bin, i); } else { RepeatAt('0', pad, i - |bin|); }
    }
  }

  /** Two bit strings of the same length that read as the same value are
      the same string. */
  lemma {:induction false} LsbInjective(a: string, b: string)
    requires IsBits(a) && IsBits(b) && |a| == |b|
    requires LsbValue(a) == LsbValue(b)
    ensures a == b
  {
    if a != [] {
      assert BitValue(a[0]) == LsbValue(a) % 2 == LsbValue(b) % 2 == BitValue(b[0]);
      LsbInjective(a[1..], b[1..]);
      assert a == [a[0]] + a[1..] && b == [b[0]] + b[1..];
    }
  }

  /** A bit string of n characters stands for less than 2^n. */
  lemma {:induction false} LsbBound(s: string)
    ensures LsbValue(s) < Pow2(|s|)
  {
    if s != [] {
      LsbBound(s[1..]);
    }
  }

  /** For 0 <= v < 2^size and size >= 1, `binary(v, size)` is exactly `size`
      bits that read back, least-significant first, as v. */
  lemma BinaryExact(v: nat, size: nat)
    requires 1 <= size && v < Pow2(size)
    ensures |Radix2(v)| <= size
    ensures |Binary(v, size)| == size
    ensures IsBits(Binary(v, size)) && LsbValue(Binary(v, size)) == v
  {
    Radix2Length(v, size);
    BinaryBits(v, size);
  }

  /** Every non-empty bit string is the `binary` encoding, at its own width,
      of the value it reads as. */
  lemma BinaryUnique(s: string)
    requires IsBits(s) && 1 <= |s|
    ensures LsbValue(s) < Pow2(|s|) && |Radix2(LsbValue(s))| <= |s|
    ensures s == Binary(LsbValue(s), |s|)
  {
    LsbBound(s);
    BinaryExact(LsbValue(s), |s|);
    LsbInjective(s, Binary(LsbValue(s), |s|));
  }

  /** `binary(0, size)` is all zeros. */
  lemma BinaryOfZero(size: nat)
    requires 1 <= size
    ensures Binary(0, size) == Repeat('0', size)
  {
    BinaryExact(0, size);
    LsbOfZeros(size);
    assert IsBits(Repeat('0', size)) by {
      forall i | 0 <= i < size ensures IsBit(Repeat('0', size)[i]) { RepeatAt('0', size, i); }
    }
    LsbInjective(Binary(0, size), Repeat('0', size));
  }

  /** What `bcd(input, size)` needs for neither of its `binary` calls to
      throw (the ones digit always fits its 4 bits). */
  predicate BcdDefined(v: nat, size: nat)
  {
    if size <= 4 then |Radix2(v)| <= size + 1 else |Radix2(v / 10)| <= size - 3
  }

  /** `bcd(input, size)`: plain binary up to 4 bits; wider fields hold the
      ones digit in their first 4 bits and the tens in the rest. */
  function Bcd(v: nat, size: nat): (r: string)
    requires BcdDefined(v, size)
    ensures size <= 4 ==> LsbValue(r) == v
    ensures 4 < size ==> 4 <= |r| && LsbValue(r[..4]) == v % 10 && LsbValue(r[4..]) == v / 10
  {
    if size <= 4 then Binary(v, size)
    else
      Radix2Length(v % 10, 4);
      Binary(v % 10, 4) + Binary(v / 10, size - 4)
  }

  lemma BcdBits(v: nat, size: nat)
    requires BcdDefined(v, size)
    ensures IsBits(Bcd(v, size))
  {
    if size <= 4 {
      BinaryBits(v, size);
    } else {
      Radix2Length(v % 10, 4);
      BinaryBits(v % 10, 4);
      BinaryBits(v / 10, size - 4);
    }
  }

  /** How a receiver reads a BCD field of the width it expects: up to 4
      bits plain binary, otherwise ones in the first 4 bits, tens after. */
  function BcdValue(s: string): nat
  {
    if |s| <= 4 then LsbValue(s) else LsbValue(s[..4]) + 10 * LsbValue(s[4..])
  }

  /** The ones digit of a wide field is a decimal digit. */
  predicate BcdCanonical(s: string)
  {
    |s| <= 4 || LsbValue(s[..4]) < 10
  }

  /** The values for which `bcd(v, size)` is exactly `size` bits wide. */
  predicate BcdFits(v: nat, size: nat)
  {
    1 <= size && if size <= 4 then v < Pow2(size) else v / 10 < Pow2(size - 4)
  }

  /** In range, `bcd(v, size)` is `size` bits in canonical form, its first
      4 bits read as the ones digit and the rest as the tens, and the field
      reads back as v. */
  lemma BcdRoundTrip(v: nat, size: nat)
    requires BcdFits(v, size)
    ensures BcdDefined(v, size)
    ensures |Bcd(v, size)| == size
    ensures BcdCanonical(Bcd(v, size))
    ensures BcdValue(Bcd(v, size)) == v
    ensures 4 < size ==> LsbValue(Bcd(v, size)[..4]) == v % 10 && LsbValue(Bcd(v, size)[4..]) == v / 10
  {
    if size <= 4 {
      Radix2Length(v, size);
    } else {
      Radix2Length(v % 10, 4);
      Radix2Length(v / 10, size - 4);
      var r := Bcd(v, size);
      assert r[..4] == Binary(v % 10, 4);
      assert r[4..] == Binary(v / 10, size - 4);
    }
  }

  /** A canonical BCD field is the encoding of the value it reads as. */
  lemma BcdUnique(s: string)
    requires IsBits(s) && 1 <= |s| && BcdCanonical(s)
    ensures BcdFits(BcdValue(s), |s|) && BcdDefined(BcdValue(s), |s|)
    ensures Bcd(BcdValue(s), |s|) == s
  {
    if |s| <= 4 {
      BinaryUnique(s);
    } else {
      BcdUniqueWide(s);
    }
  }

  lemma BcdUniqueWide(s: string)
    requires IsBits(s) && 4 < |s| && BcdCanonical(s)
    ensures BcdFits(BcdValue(s), |s|) && BcdDefined(BcdValue(s), |s|)
    ensures Bcd(BcdValue(s), |s|) == s
  {
    var v := BcdValue(s);
    var ones, tens := s[..4], s[4..];
    var o, t := LsbValue(ones), LsbValue(tens);
    BitsSplit(s, 4);
    BinaryUnique(ones);
    BinaryUnique(tens);
    DecimalDigits(o, t);
    assert v % 10 == o && v / 10 == t;
    assert Bcd(v, |s|) == Binary(o, 4) + Binary(t, |s| - 4);
    assert s == ones + tens;
  }

  lemma BitsSplit(s: string, k: nat)
    requires IsBits(s) && k <= |s|
    ensures IsBits(s[..k]) && IsBits(s[k..])
  {
    assert forall i :: 0 <= i < |s| - k ==> s[k..][i] == s[k + i];
  }

  lemma DecimalDigits(ones: nat, tens: nat)
    requires ones < 10
    ensures (ones + 10 * tens) % 10 == ones && (ones + 10 * tens) / 10 == tens
  {
  }

  /** `(input.match(/1/g) || []).length`: the number of '1' characters. */
  function CountOnes(s: string): (n: nat)
    ensures n <= |s|
  {
    if s == [] then 0 else CountOnes(s[..|s| - 1]) + (if s[|s| - 1] == '1' then 1 else 0)
  }

  lemma {:induction false} CountOnesConcat(a: string, b: string)
    ensures CountOnes(a + b) == CountOnes(a) + CountOnes(b)
  {
    if b != [] {
      assert (a + b)[..|a + b| - 1] == a + b[..|b| - 1];
      CountOnesConcat(a, b[..|b| - 1]);
    } else {
      assert a + b == a;
    }
  }

  /** `evenParity(input)`: the bit that makes the count of '1's in the
      field followed by it even. */
  function EvenParity(s: string): (p: char)
    ensures IsBit(p)
    ensures CountOnes(s + [p]) % 2 == 0
  {
    assert (s + ['0'])[..|s|] == s && (s + ['1'])[..|s|] == s;
    if CountOnes(s) % 2 == 0 then '0' else '1'
  }

  /** The parity bit is the only bit that makes the count even. */
  lemma ParityUnique(s: string, p: char)
    requires IsBit(p) && CountOnes(s + [p]) % 2 == 0
    ensures p == EvenParity(s)
  {
    assert (s + [p])[..|s|] == s;
  }
}
