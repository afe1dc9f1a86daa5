/** The integer packing of the hash's fields: the packed component shape, the
    24-bit DC colour, the 19-ary AC channel combination, the integer clamps
    applied to the floored quantiser outputs, and the top-8-bit extraction of
    a 16-bit colour sample. */
module Fields {
  import opened Bits

  /** Largest component count per axis the format can carry. */
  const MaxComponents: nat := 9

  /** Top channel digit of an AC term: digits lie in [0, 18]. */
  const MaxChannelDigit: nat := 18

  /** Top scale index: one base-83 digit. */
  const MaxScaleIndex: nat := 82

  /** `(h-1)*9 + (w-1)`: one digit that both component counts are read back from. */
  function PackShape(w: int, h: int): (ps: nat)
    requires 1 <= w <= MaxComponents && 1 <= h <= MaxComponents
    ensures ps <= 80
    ensures ps % 9 + 1 == w && ps / 9 + 1 == h
  {
    (h - 1) * 9 + (w - 1)
  }

  /** The DC colour: the three gamma-encoded bytes the colour conversion produced. */
  datatype Rgb = Rgb(r: byte, g: byte, b: byte)

  /** The 24-bit DC value: red in the high byte, blue in the low one. */
  function PackDC(c: Rgb): (v: nat)
    ensures v < 0x100_0000
  {
    c.r * 0x1_0000 + c.g * 0x100 + c.b
  }

  /** Go's `(R<<16)|(G<<8)|B` computes PackDC: the shifted bytes do not overlap,
      so or-ing them adds them. */
  lemma PackDCBitwise(c: Rgb)
    ensures Or(Or(ShiftLeft(c.r, 16), ShiftLeft(c.g, 8)), c.b) == PackDC(c)
  {
    assert Pow2(8) == 0x100 && Pow2(16) == 0x1_0000;
    OrIntoLowBits(c.r, 8, c.g);
    assert ShiftLeft(c.r * 0x100 + c.g, 8) == ShiftLeft(c.r, 16) + ShiftLeft(c.g, 8);
    OrIntoLowBits(c.r, 16, ShiftLeft(c.g, 8));
    OrIntoLowBits(c.r * 0x100 + c.g, 8, c.b);
  }

  /** Splits a 24-bit DC value back into its bytes. */
  function UnpackDC(v: nat): Rgb
    requires v < 0x100_0000
  {
    Rgb(v / 0x1_0000, v / 0x100 % 0x100, v % 0x100)
  }

  lemma UnpackPackDC(c: Rgb)
    ensures UnpackDC(PackDC(c)) == c
  {
    var v := PackDC(c);
    ModUnique(v, 0x1_0000, c.r, c.g * 0x100 + c.b);
    ModUnique(v, 0x100, c.r * 0x100 + c.g, c.b);
    ModUnique(c.r * 0x100 + c.g, 0x100, c.r, c.g);
  }

  lemma PackUnpackDC(v: nat)
    requires v < 0x100_0000
    ensures PackDC(UnpackDC(v)) == v
  {
    var c := UnpackDC(v);
    var q := v / 0x100;
    assert v == q * 0x100 + c.b;
    assert q == c.r * 0x100 + c.g by {
      assert q / 0x100 == c.r;
    }
  }

  /** One value per colour channel; the floored quantiser outputs before the
      clamp, and the AC channel digits after it. */
  datatype Channels = Channels(r: int, g: int, b: int) {
    predicate IsDigits() {
      0 <= r <= MaxChannelDigit && 0 <= g <= MaxChannelDigit && 0 <= b <= MaxChannelDigit
    }
  }

  /** Go's `clamp(min, max, x)` = `Max(min, Min(max, x))`, on the integer-valued
      results of `math.Floor`. */
  function Clamp(lo: int, hi: int, x: int): (r: int)
    requires lo <= hi
    ensures lo <= r <= hi
    ensures lo <= x <= hi ==> r == x
    ensures x < lo ==> r == lo
    ensures x > hi ==> r == hi
  {
    if hi < x then hi else if x < lo then lo else x
  }

  /** The clamp of each channel of an AC term to a digit in [0, 18]. */
  function QuantiseAC(f: Channels): (q: Channels)
    ensures q.IsDigits()
    ensures f.IsDigits() ==> q == f
  {
    Channels(Clamp(0, MaxChannelDigit, f.r), Clamp(0, MaxChannelDigit, f.g), Clamp(0, MaxChannelDigit, f.b))
  }

  /** `qR*19^2 + qG*19 + qB`: fits two base-83 digits. */
  function PackAC(q: Channels): (v: nat)
    requires q.IsDigits()
    ensures v <= 6858 < 83 * 83
  {
    q.r * (19 * 19) + q.g * 19 + q.b
  }

  /** The packed value gives each channel digit back. */
  lemma UnpackPackAC(q: Channels)
    requires q.IsDigits()
    ensures UnpackAC(PackAC(q)) == q
  {
    var v := PackAC(q);
    ModUnique(v, 19 * 19, q.r, q.g * 19 + q.b);
    ModUnique(v, 19, q.r * 19 + q.g, q.b);
    ModUnique(q.r * 19 + q.g, 19, q.r, q.g);
  }

  /** Splits a packed AC value back into its channel digits. */
  function UnpackAC(v: nat): Channels {
    Channels(v / (19 * 19), v / 19 % 19, v % 19)
  }

  lemma PackUnpackAC(v: nat)
    requires v <= 6858
    ensures UnpackAC(v).IsDigits() && PackAC(UnpackAC(v)) == v
  {
    var q := v / 19;
    assert v == q * 19 + v % 19;
    assert q == (v / (19 * 19)) * 19 + q % 19 by {
      assert q / 19 == v / (19 * 19);
    }
  }

  /** The integer part of `encodeAC`: clamp each floored channel, then pack. */
  function EncodeAC(f: Channels): (v: nat)
    ensures v <= 6858
  {
    PackAC(QuantiseAC(f))
  }

  /** Unpacking an encoded term gives its clamped channel digits. */
  lemma UnpackEncodeAC(f: Channels)
    ensures UnpackAC(EncodeAC(f)) == QuantiseAC(f)
  {
    UnpackPackAC(QuantiseAC(f));
  }

  /** `(p >> 8) & 0xff`: the upper byte of a 16-bit colour sample. */
  function Top8(p: uint32): (c: byte)
    ensures c == p / 0x100 % 0x100
  {
    assert Pow2(8) == 0x100;
    AndLowMask(ShiftRight(p, 8), 8);
    And(ShiftRight(p, 8), 0xff)
  }

  /** On a 16-bit sample the mask drops nothing: the byte is the high half. */
  lemma Top8Of16Bit(p: uint32)
    requires p < 0x1_0000
    ensures Top8(p) == p / 0x100
  {
    var q := p / 0x100;
    ModUnique(p, 0x100, q, p % 0x100);
    if q >= 0x100 {
      MulLeq(0x100, q, 0x100);
    }
    ModUnique(q, 0x100, 0, q);
  }

  /** An 8-bit channel `c` widened to 16 bits as `c | c<<8` reads back as `c`. */
  lemma Top8OfWidened(c: byte)
    ensures Or(ShiftLeft(c, 8), c) == c * 0x101 && Top8(Or(ShiftLeft(c, 8), c)) == c
  {
    assert Pow2(8) == 0x100;
    OrIntoLowBits(c, 8, c);
    var p := c * 0x100 + c;
    assert p == c * 0x101 && p < 0x1_0000;
    ModUnique(p, 0x100, c, c);
    Top8Of16Bit(p);
  }
}
