/** The base-83 digit packer: a fixed 83-symbol alphabet and helpers that
    append one, two or four big-endian digits to a byte buffer. The decoder
    (DigitValue, Decode) is the partner against which the helpers are proved. */
module Base83 {
  import opened Wrappers
  import opened Bits

  /** The alphabet, digit value 0 first, in four runs. */
  const Digits: string := "0123456789"
  const Upper: string := "ABCDEFGHIJKLMNOPQRSTUVWXYZ"
  const Lower: string := "abcdefghijklmnopqrstuvwxyz"
  const Punctuation: string := "#$%*+,-.:;=?@[]^_{|}~"
  const Alphabet: string := Digits + Upper + Lower + Punctuation

  lemma DigitsAt(k: nat)
    requires k < 10
    ensures Digits[k] as int == '0' as int + k
  {
  }

  lemma UpperAt(k: nat)
    requires k < 26
    ensures Upper[k] as int == 'A' as int + k
  {
  }

  lemma LowerAt(k: nat)
    requires k < 26
    ensures Lower[k] as int == 'a' as int + k
  {
  }

  lemma PunctuationAt(k: nat)
    requires k < 21
    ensures Punctuation[k] as int == PunctuationChar(62 + k)
  {
  }

  /** Where each run sits inside the alphabet. */
  lemma AlphabetRuns(d: nat)
    requires d < 83
    ensures |Alphabet| == 83
    ensures d < 10 ==> Alphabet[d] == Digits[d]
    ensures 10 <= d < 36 ==> Alphabet[d] == Upper[d - 10]
    ensures 36 <= d < 62 ==> Alphabet[d] == Lower[d - 36]
    ensures 62 <= d ==> Alphabet[d] == Punctuation[d - 62]
  {
  }

  /** The symbol of each digit value from 62 on. */
  function PunctuationChar(d: nat): (c: byte)
    requires 62 <= d < 83
  {
    if d == 62 then '#' as int
    else if d == 63 then '$' as int
    else if d == 64 then '%' as int
    else if d == 65 then '*' as int
    else if d == 66 then '+' as int
    else if d == 67 then ',' as int
    else if d == 68 then '-' as int
    else if d == 69 then '.' as int
    else if d == 70 then ':' as int
    else if d == 71 then ';' as int
    else if d == 72 then '=' as int
    else if d == 73 then '?' as int
    else if d == 74 then '@' as int
    else if d == 75 then '[' as int
    else if d == 76 then ']' as int
    else if d == 77 then '^' as int
    else if d == 78 then '_' as int
    else if d == 79 then '{' as int
    else if d == 80 then '|' as int
    else if d == 81 then '}' as int
    else '~' as int
  }

  /** The byte of digit `d`, by the four runs of the alphabet. */
  function Char(d: nat): (c: byte)
    requires d < 83
    ensures '#' as int <= c <= '~' as int
  {
    if d < 10 then '0' as int + d
    else if d < 36 then 'A' as int + (d - 10)
    else if d < 62 then 'a' as int + (d - 36)
    else PunctuationChar(d)
  }

  /** `Char(d)` is `base83chars[d]`: the symbol at position `d` of the alphabet. */
  lemma CharIsAlphabet(d: nat)
    requires d < 83
    ensures |Alphabet| == 83 && Char(d) == Alphabet[d] as int
  {
    AlphabetRuns(d);
    if d < 10 {
      DigitsAt(d);
    } else if d < 36 {
      UpperAt(d - 10);
    } else if d < 62 {
      LowerAt(d - 36);
    } else {
      PunctuationAt(d - 62);
    }
  }

  /** Distinct digits have distinct symbols. */
  lemma CharInjective(d: nat, e: nat)
    requires d < e < 83
    ensures Char(d) != Char(e)
  {
  }

  /** The digit a byte stands for: the first digit from `d` on whose symbol it
      is, or None for a byte outside the alphabet. */
  function DigitFrom(c: byte, d: nat): (r: Option<nat>)
    decreases 83 - d
  {
    if d >= 83 then None
    else if Char(d) == c then Some(d)
    else DigitFrom(c, d + 1)
  }

  /** The digit a byte stands for: its position in the alphabet, if any. */
  function DigitValue(c: byte): Option<nat> {
    DigitFrom(c, 0)
  }

  lemma {:induction false} DigitFromChar(d: nat, e: nat)
    requires e <= d < 83
    ensures DigitFrom(Char(d), e) == Some(d)
    decreases d - e
  {
    if e < d {
      CharInjective(e, d);
      DigitFromChar(d, e + 1);
    }
  }

  /** Decoding the symbol of `d` gives `d` back. */
  lemma CharDecodes(d: nat)
    requires d < 83
    ensures DigitValue(Char(d)) == Some(d)
  {
    DigitFromChar(d, 0);
  }

  lemma {:induction false} DigitFromInverse(c: byte, e: nat)
    requires DigitFrom(c, e).Some?
    ensures var d := DigitFrom(c, e).value; e <= d < 83 && Char(d) == c
    decreases 83 - e
  {
    if e < 83 && Char(e) != c {
      DigitFromInverse(c, e + 1);
    }
  }

  /** Every byte the decoder accepts is the alphabet symbol of its value. */
  lemma DigitValueInverse(c: byte)
    requires DigitValue(c).Some?
    ensures DigitValue(c).value < 83 && Char(DigitValue(c).value) == c
  {
    DigitFromInverse(c, 0);
  }

  /** The 83 symbols of the alphabet are pairwise distinct. */
  lemma AlphabetDistinct(i: nat, j: nat)
    requires i < j < 83
    ensures Alphabet[i] != Alphabet[j]
  {
    CharIsAlphabet(i);
    CharIsAlphabet(j);
    CharInjective(i, j);
  }

  function Pow83(n: nat): (r: nat)
    ensures r >= 1
  {
    if n == 0 then 1 else 83 * Pow83(n - 1)
  }

  /** Big-endian value of a run of digits, most significant first. */
  function Decode(s: seq<byte>): Option<nat> {
    if s == [] then Some(0)
    else match (Decode(s[..|s| - 1]), DigitValue(s[|s| - 1]))
      case (Some(high), Some(low)) => Some(high * 83 + low)
      case _ => None
  }

  /** Appends the lowest base-83 digit of `v`. Go's `%` truncates, so a
      negative `v` that is not a multiple of 83 gives a negative index and
      panics; the encoder passes only non-negative values, hence `nat`. */
  function Append1(dst: seq<byte>, v: nat): (r: seq<byte>)
    ensures |r| == |dst| + 1 && r[..|dst|] == dst && r[|dst|] == Char(v % 83)
  {
    dst + [Char(v % 83)]
  }

  /** Appends the two lowest digits of `v`, most significant first. */
  function Append2(dst: seq<byte>, v: nat): (r: seq<byte>)
    ensures |r| == |dst| + 2 && r[..|dst|] == dst
    ensures r[|dst|] == Char(v / 83 % 83) && r[|dst| + 1] == Char(v % 83)
  {
    dst + [Char(v / 83 % 83), Char(v % 83)]
  }

  /** `append2Base83` is `append1Base83` of `v / 83`, then of `v`. */
  lemma Append2ByAppend1(dst: seq<byte>, v: nat)
    ensures Append2(dst, v) == Append1(Append1(dst, v / 83), v)
  {
    var m := Append1(dst, v / 83);
    var r := Append1(m, v);
    assert r[..|m|][..|dst|] == dst;
    assert r[|dst|] == m[|dst|];
  }

  /** Appends the four lowest digits of `v`, most significant first. */
  function Append4(dst: seq<byte>, v: nat): (r: seq<byte>)
    ensures |r| == |dst| + 4 && r[..|dst|] == dst
    ensures r[|dst|] == Char(v / (83 * 83 * 83) % 83) && r[|dst| + 1] == Char(v / (83 * 83) % 83)
    ensures r[|dst| + 2] == Char(v / 83 % 83) && r[|dst| + 3] == Char(v % 83)
  {
    dst + [Char(v / (83 * 83 * 83) % 83), Char(v / (83 * 83) % 83), Char(v / 83 % 83), Char(v % 83)]
  }

  /** `append4Base83` is `append2Base83` of `v / 83^2`, then of `v`. */
  lemma Append4ByAppend2(dst: seq<byte>, v: nat)
    ensures Append4(dst, v) == Append2(Append2(dst, v / (83 * 83)), v)
  {
    var m := Append2(dst, v / (83 * 83));
    var r := Append2(m, v);
    DivDiv(v, 83 * 83, 83);
    assert r[..|m|][..|dst|] == dst;
    assert r[|dst|] == m[|dst|] && r[|dst| + 1] == m[|dst| + 1];
  }

  /** What Append2 adds does not depend on what it is added to. */
  lemma Append2Suffix(dst: seq<byte>, v: nat)
    ensures Append2(dst, v)[|dst|..] == Append2([], v)
  {
    var r, e := Append2(dst, v)[|dst|..], Append2([], v);
    assert r[0] == e[0] && r[1] == e[1];
  }

  /** What Append4 adds does not depend on what it is added to. */
  lemma Append4Suffix(dst: seq<byte>, v: nat)
    ensures Append4(dst, v)[|dst|..] == Append4([], v)
  {
    var r, e := Append4(dst, v)[|dst|..], Append4([], v);
    assert r[0] == e[0] && r[1] == e[1] && r[2] == e[2] && r[3] == e[3];
  }

  /** The appended digit decodes to `v` modulo 83. */
  lemma DecodeAppend1(dst: seq<byte>, v: nat)
    ensures Decode(Append1(dst, v)[|dst|..]) == Some(v % 83)
  {
    var r := Append1(dst, v);
    CharDecodes(v % 83);
    assert r[|dst|..] == [r[|dst|]];
    assert r[|dst|..][..0] == [];
  }

  /** The two appended digits decode to `v` modulo 83^2. */
  lemma DecodeAppend2(dst: seq<byte>, v: nat)
    ensures Decode(Append2(dst, v)[|dst|..]) == Some(v % (83 * 83))
  {
    Append2ByAppend1(dst, v);
    var m := Append1(dst, v / 83);
    var r := Append1(m, v);
    assert r[|dst|..] == m[|dst|..] + r[|m|..];
    DecodeAppend1(dst, v / 83);
    DecodeAppend1(m, v);
    DecodeConcat(m[|dst|..], r[|m|..]);
    assert Pow83(1) == 83;
    DigitPairs(v, 83);
  }

  /** The four appended digits decode to `v` modulo 83^4. */
  lemma DecodeAppend4(dst: seq<byte>, v: nat)
    ensures Decode(Append4(dst, v)[|dst|..]) == Some(v % (83 * 83 * 83 * 83))
  {
    Append4ByAppend2(dst, v);
    var m := Append2(dst, v / (83 * 83));
    var r := Append2(m, v);
    var x, y := m[|dst|..], r[|m|..];
    assert r[|dst|..] == x + y;
    DecodeAppend2(dst, v / (83 * 83));
    DecodeAppend2(m, v);
    DecodeConcat(x, y);
    assert Pow83(|y|) == 83 * Pow83(1) == 83 * 83;
    var hi, lo := v / (83 * 83) % (83 * 83), v % (83 * 83);
    assert Decode(x + y) == Some(hi * (83 * 83) + lo);
    DigitPairs(v, 83 * 83);
    assert Append4(dst, v) == r;
  }

  /** Dividing twice is dividing by the product. */
  lemma DivDiv(v: nat, a: nat, b: nat)
    requires a >= 1 && b >= 1
    ensures v / a / b == v / (a * b)
  {
    var q := v / a / b;
    var t := (v / a % b) * a + v % a;
    assert v / a == q * b + v / a % b;
    assert v == q * (a * b) + t;
    assert t < a * b by {
      assert (v / a % b) * a <= (b - 1) * a;
    }
    ModUnique(v, a * b, q, t);
  }

  /** Two digit runs decode to the first's value shifted past the second. */
  lemma {:induction false} DecodeConcat(a: seq<byte>, b: seq<byte>)
    requires Decode(a).Some? && Decode(b).Some?
    ensures Decode(a + b) == Some(Decode(a).value * Pow83(|b|) + Decode(b).value)
    decreases |b|
  {
    if b == [] {
      assert a + b == a;
    } else {
      var n := |b| - 1;
      assert (a + b)[..|a + b| - 1] == a + b[..n];
      assert (a + b)[|a + b| - 1] == b[n];
      DecodeConcat(a, b[..n]);
      var x, y, d := Decode(a).value, Decode(b[..n]).value, DigitValue(b[n]).value;
      assert Decode(a + b) == Some((x * Pow83(n) + y) * 83 + d);
      assert Decode(b) == Some(y * 83 + d);
      MulAssoc(x, Pow83(n), y, d);
    }
  }

  lemma MulAssoc(x: int, p: int, y: int, d: int)
    ensures (x * p + y) * 83 + d == x * (83 * p) + (y * 83 + d)
  {
    calc {
      (x * p + y) * 83 + d;
      (x * p) * 83 + y * 83 + d;
      x * (83 * p) + (y * 83 + d);
    }
  }

  /** Two base-`m` digits of `v` give `v` modulo `m * m`. */
  lemma DigitPairs(v: nat, m: nat)
    requires m >= 1
    ensures (v / m % m) * m + v % m == v % (m * m)
  {
    var q, t := v / m, v % m;
    var t2 := (q % m) * m + t;
    assert v == q * m + t;
    assert q == (q / m) * m + q % m;
    Regroup(q / m, q % m, m, t);
    assert v == (q / m) * (m * m) + t2;
    DigitBound(q % m, t, m);
    ModUnique(v, m * m, q / m, t2);
  }
}
