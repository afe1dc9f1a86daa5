/** Assembly of the hash: the order of its fields, the scale-digit rule, its
    exact length, and a parser of the finished text that every assembled
    hash reads back through. */
module Hash {
  import opened Wrappers
  import opened Bits
  import opened Base83
  import opened Fields

  /** One shape digit, one scale digit, four DC digits, two per AC term. */
  function EncodedLen(w: int, h: int): (n: int)
    ensures n % 2 == 0
    ensures n == 6 <==> w * h == 1
    ensures n > 6 <==> w * h > 1
  {
    var packedShapeBytes, maxValueBytes, dcBytes := 1, 1, 4;
    var acBytes := (w * h - 1) * 2;
    packedShapeBytes + maxValueBytes + dcBytes + acBytes
  }

  lemma EncodedLenRange(w: int, h: int)
    requires 1 <= w <= MaxComponents && 1 <= h <= MaxComponents
    ensures 6 <= EncodedLen(w, h) <= 166 && EncodedLen(w, h) % 2 == 0
    ensures EncodedLen(w, h) == 6 <==> w * h == 1
  {
    assert 1 <= w * h <= 81 by {
      assert w * h <= 9 * h <= 81;
    }
  }

  /** The scale digit: the clamped floor of the AC maximum when there are AC
      terms, and 0 when there are none. */
  function ScaleIndex(acCount: nat, maxFloor: int): (q: nat)
    ensures q <= MaxScaleIndex
    ensures acCount == 0 ==> q == 0
    ensures acCount > 0 && 0 <= maxFloor <= MaxScaleIndex ==> q == maxFloor
    ensures acCount > 0 && maxFloor < 0 ==> q == 0
    ensures acCount > 0 && maxFloor > MaxScaleIndex ==> q == MaxScaleIndex
  {
    if acCount > 0 then Clamp(0, MaxScaleIndex, maxFloor) else 0
  }

  /** The six header bytes: shape digit, scale digit, four DC digits. */
  function AppendHeader(dst: seq<byte>, w: int, h: int, acCount: nat, maxFloor: int, dc: Rgb): (r: seq<byte>)
    requires 1 <= w <= MaxComponents && 1 <= h <= MaxComponents
    ensures |r| == |dst| + 6 && r[..|dst|] == dst
    ensures r[|dst|] == Char(PackShape(w, h)) && r[|dst| + 1] == Char(ScaleIndex(acCount, maxFloor))
    ensures r[|dst| + 2..] == Append4([], PackDC(dc))
  {
    var r1 := Append1(dst, PackShape(w, h));
    var r2 := Append1(r1, ScaleIndex(acCount, maxFloor));
    var r := Append4(r2, PackDC(dc));
    assert r[..|r2|][..|r1|] == r1 && r1[..|dst|] == dst;
    assert r[..|r2|][|dst| + 1] == r2[|r1|];
    ModUnique(PackShape(w, h), 83, 0, PackShape(w, h));
    ModUnique(ScaleIndex(acCount, maxFloor), 83, 0, ScaleIndex(acCount, maxFloor));
    Append4Suffix(r2, PackDC(dc));
    r
  }

  /** Each header field decodes back to its value. */
  lemma DecodeHeader(dst: seq<byte>, w: int, h: int, acCount: nat, maxFloor: int, dc: Rgb)
    requires 1 <= w <= MaxComponents && 1 <= h <= MaxComponents
    ensures var r := AppendHeader(dst, w, h, acCount, maxFloor, dc);
      Decode(r[|dst|..|dst| + 1]) == Some(PackShape(w, h))
      && Decode(r[|dst| + 1..|dst| + 2]) == Some(ScaleIndex(acCount, maxFloor))
      && Decode(r[|dst| + 2..|dst| + 6]) == Some(PackDC(dc))
  {
    var shape, scale, dcv := PackShape(w, h), ScaleIndex(acCount, maxFloor), PackDC(dc);
    var r1 := Append1(dst, shape);
    var r2 := Append1(r1, scale);
    var r := Append4(r2, dcv);
    assert r[|dst|..|dst| + 1] == r1[|dst|..];
    assert r[|dst| + 1..|dst| + 2] == r2[|r1|..];
    assert r[|dst| + 2..|dst| + 6] == r[|r2|..];
    DecodeAppend1(dst, shape);
    DecodeAppend1(r1, scale);
    DecodeAppend4(r2, dcv);
    ModUnique(shape, 83, 0, shape);
    ModUnique(scale, 83, 0, scale);
    ModUnique(dcv, 83 * 83 * 83 * 83, 0, dcv);
  }

  /** Two digits for each of the first `n` AC terms, in the order of the terms. */
  function AppendAC(dst: seq<byte>, acFloors: seq<Channels>, n: nat): (r: seq<byte>)
    requires n <= |acFloors|
    ensures |r| == |dst| + 2 * n && r[..|dst|] == dst
  {
    if n == 0 then dst
    else
      var p := AppendAC(dst, acFloors, n - 1);
      var r := Append2(p, EncodeAC(acFloors[n - 1]));
      assert r[..|dst|] == p[..|p|][..|dst|];
      r
  }

  /** What `Append` adds to `dst`: the header, then the AC terms. */
  function AppendHash(dst: seq<byte>, w: int, h: int, maxFloor: int, dc: Rgb, acFloors: seq<Channels>): (r: seq<byte>)
    requires 1 <= w <= MaxComponents && 1 <= h <= MaxComponents
    ensures |r| == |dst| + 6 + 2 * |acFloors| && r[..|dst|] == dst
  {
    AppendAC(AppendHeader(dst, w, h, |acFloors|, maxFloor, dc), acFloors, |acFloors|)
  }

  /** The clamped channel digits of the first `n` AC terms. */
  function Quantised(acFloors: seq<Channels>, n: nat): (q: seq<Channels>)
    requires n <= |acFloors|
    ensures |q| == n
    ensures forall i :: 0 <= i < n ==> q[i] == QuantiseAC(acFloors[i]) && q[i].IsDigits()
  {
    if n == 0 then [] else Quantised(acFloors, n - 1) + [QuantiseAC(acFloors[n - 1])]
  }

  /** The part of `r` after `k`, cut where its prefix `p` ends. */
  lemma SplitSuffix(r: seq<byte>, p: seq<byte>, k: nat)
    requires k <= |p| <= |r| && r[..|p|] == p
    ensures r[k..] == p[k..] + r[|p|..]
  {
  }

  /** The fields a hash carries. */
  datatype Blur = Blur(w: int, h: int, scale: nat, dc: Rgb, ac: seq<Channels>)

  /** Reads a hash back: the shape digit fixes the length, then the scale
      digit, the DC colour and each AC term's channel digits. */
  function Parse(s: seq<byte>): Option<Blur> {
    if |s| < 6 then None
    else match (Decode(s[..1]), Decode(s[1..2]), Decode(s[2..6]))
      case (Some(shape), Some(scale), Some(dc)) =>
        if shape > 80 || dc >= 0x100_0000 then None
        else
          var w, h := shape % 9 + 1, shape / 9 + 1;
          if |s| != EncodedLen(w, h) then None
          else (match ParseAC(s[6..])
            case Some(ac) => Some(Blur(w, h, scale, UnpackDC(dc), ac))
            case None => None)
      case _ => None
  }

  /** Reads consecutive two-digit AC terms. */
  function ParseAC(s: seq<byte>): Option<seq<Channels>>
    decreases |s|
  {
    if s == [] then Some([])
    else if |s| < 2 then None
    else match (ParseAC(s[..|s| - 2]), Decode(s[|s| - 2..]))
      case (Some(init), Some(v)) => if v > 6858 then None else Some(init + [UnpackAC(v)])
      case _ => None
  }

  /** One more AC term read after those already read. */
  lemma ParseACSnoc(t: seq<byte>, u: seq<byte>, v: nat)
    requires ParseAC(t).Some? && |u| == 2 && Decode(u) == Some(v) && v <= 6858
    ensures ParseAC(t + u) == Some(ParseAC(t).value + [UnpackAC(v)])
  {
    var s := t + u;
    assert s[..|s| - 2] == t && s[|s| - 2..] == u;
  }

  /** The first `n` AC terms read back as their clamped channel digits. */
  lemma ParseAppendAC(dst: seq<byte>, acFloors: seq<Channels>, n: nat)
    requires n <= |acFloors|
    ensures ParseAC(AppendAC(dst, acFloors, n)[|dst|..]) == Some(Quantised(acFloors, n))
  {
    ParseAppendACNone(dst, acFloors);
    var i := 0;
    while i < n
      invariant i <= n
      invariant ParseAC(AppendAC(dst, acFloors, i)[|dst|..]) == Some(Quantised(acFloors, i))
    {
      i := i + 1;
      ParseAppendACNext(dst, acFloors, i);
    }
  }

  /** No terms read back as no digits. */
  lemma ParseAppendACNone(dst: seq<byte>, acFloors: seq<Channels>)
    ensures ParseAC(AppendAC(dst, acFloors, 0)[|dst|..]) == Some(Quantised(acFloors, 0))
  {
    assert AppendAC(dst, acFloors, 0)[|dst|..] == [];
  }

  /** Reading term `n - 1` after the terms before it gives its clamped digits. */
  lemma ParseAppendACNext(dst: seq<byte>, acFloors: seq<Channels>, n: nat)
    requires 0 < n <= |acFloors|
    requires ParseAC(AppendAC(dst, acFloors, n - 1)[|dst|..]) == Some(Quantised(acFloors, n - 1))
    ensures ParseAC(AppendAC(dst, acFloors, n)[|dst|..]) == Some(Quantised(acFloors, n))
  {
    var p := AppendAC(dst, acFloors, n - 1);
    var v := EncodeAC(acFloors[n - 1]);
    var r := Append2(p, v);
    AppendACNext(dst, acFloors, n - 1);
    var t, u := p[|dst|..], r[|p|..];
    SplitSuffix(r, p, |dst|);
    DecodeAppend2(p, v);
    ModUnique(v, 83 * 83, 0, v);
    ParseACSnoc(t, u, v);
    UnpackEncodeAC(acFloors[n - 1]);
  }

  /** Parse, read off the decoded fields of a text of the right length. */
  lemma ParseFields(s: seq<byte>, w: int, h: int, shape: nat, scale: nat, dc: nat, ac: seq<Channels>)
    requires shape <= 80 && shape % 9 + 1 == w && shape / 9 + 1 == h && dc < 0x100_0000
    requires |s| == EncodedLen(w, h) && |s| >= 6
    requires Decode(s[..1]) == Some(shape) && Decode(s[1..2]) == Some(scale)
    requires Decode(s[2..6]) == Some(dc) && ParseAC(s[6..]) == Some(ac)
    ensures Parse(s) == Some(Blur(w, h, scale, UnpackDC(dc), ac))
  {
  }

  /** The fields of a text `r` that extends a header `hdr` written after `k` bytes. */
  lemma HeaderView(r: seq<byte>, hdr: seq<byte>, k: nat)
    requires |hdr| == k + 6 && |hdr| <= |r| && r[..|hdr|] == hdr
    ensures r[k..][..1] == hdr[k..k + 1] && r[k..][1..2] == hdr[k + 1..k + 2]
    ensures r[k..][2..6] == hdr[k + 2..k + 6] && r[k..][6..] == r[|hdr|..]
  {
    SliceInPrefix(r, hdr, k, k + 1);
    SliceInPrefix(r, hdr, k + 1, k + 2);
    SliceInPrefix(r, hdr, k + 2, k + 6);
    assert r[k..][..1] == r[k..k + 1];
    assert r[k..][1..2] == r[k + 1..k + 2];
    assert r[k..][2..6] == r[k + 2..k + 6];
  }

  /** The bytes of a header `hdr` written after `k` bytes, seen in a text `r`
      that extends it. */
  lemma HeaderBytes(r: seq<byte>, hdr: seq<byte>, k: nat)
    requires |hdr| == k + 6 && |hdr| <= |r| && r[..|hdr|] == hdr
    ensures r[k] == hdr[k] && r[k + 1] == hdr[k + 1] && r[k + 2..k + 6] == hdr[k + 2..]
  {
    assert r[..|hdr|][k] == r[k] && r[..|hdr|][k + 1] == r[k + 1];
    SliceInPrefix(r, hdr, k + 2, k + 6);
  }

  /** A prefix of a prefix `p` of `r` is a prefix of `r`. */
  lemma PrefixOfPrefix(r: seq<byte>, p: seq<byte>, m: nat)
    requires m <= |p| <= |r| && r[..|p|] == p
    ensures r[..m] == p[..m]
  {
    assert r[..|p|][..m] == r[..m];
  }

  /** A slice inside a prefix `p` of `r` is the same slice of `p`. */
  lemma SliceInPrefix(r: seq<byte>, p: seq<byte>, i: nat, j: nat)
    requires i <= j <= |p| <= |r| && r[..|p|] == p
    ensures r[i..j] == p[i..j]
  {
    forall k | i <= k < j
      ensures r[k] == p[k]
    {
      assert r[..|p|][k] == r[k];
    }
  }

  /** Every assembled hash parses back to its shape, its scale index, its DC
      colour and the clamped digits of its AC terms. */
  lemma ParseAppendHash(dst: seq<byte>, w: int, h: int, maxFloor: int, dc: Rgb, acFloors: seq<Channels>)
    requires 1 <= w <= MaxComponents && 1 <= h <= MaxComponents
    requires |acFloors| == w * h - 1
    ensures Parse(AppendHash(dst, w, h, maxFloor, dc, acFloors)[|dst|..])
         == Some(Blur(w, h, ScaleIndex(|acFloors|, maxFloor), dc, Quantised(acFloors, |acFloors|)))
  {
    var hdr := AppendHeader(dst, w, h, |acFloors|, maxFloor, dc);
    var r := AppendAC(hdr, acFloors, |acFloors|);
    var s := r[|dst|..];
    DecodeHeader(dst, w, h, |acFloors|, maxFloor, dc);
    HeaderView(r, hdr, |dst|);
    ParseAppendAC(hdr, acFloors, |acFloors|);
    UnpackPackDC(dc);
    assert |s| == 6 + 2 * (w * h - 1) == EncodedLen(w, h);
    ParseFields(s, w, h, PackShape(w, h), ScaleIndex(|acFloors|, maxFloor), PackDC(dc), Quantised(acFloors, |acFloors|));
  }

  /** The hash is `EncodedLen(w, h)` bytes after what `dst` held, which it
      keeps; its scale digit is '0' when there are no AC terms. */
  lemma AppendHashLength(dst: seq<byte>, w: int, h: int, maxFloor: int, dc: Rgb, acFloors: seq<Channels>)
    requires 1 <= w <= MaxComponents && 1 <= h <= MaxComponents
    requires |acFloors| == w * h - 1
    ensures var s := AppendHash(dst, w, h, maxFloor, dc, acFloors);
      |s| == |dst| + EncodedLen(w, h) && s[..|dst|] == dst
      && (|acFloors| == 0 ==> s[|dst| + 1] == '0' as int)
  {
    var hdr := AppendHeader(dst, w, h, |acFloors|, maxFloor, dc);
    var s := AppendAC(hdr, acFloors, |acFloors|);
    assert s[..|hdr|] == hdr;
    assert s[..|dst|] == hdr[..|dst|];
    assert s[|dst| + 1] == hdr[|dst| + 1];
  }

  /** One more term appends its two digits. */
  lemma AppendACNext(dst: seq<byte>, acFloors: seq<Channels>, n: nat)
    requires n < |acFloors|
    ensures AppendAC(dst, acFloors, n + 1) == Append2(AppendAC(dst, acFloors, n), EncodeAC(acFloors[n]))
  {
  }

  /** The text of the first `j` terms is a prefix of the text of the first `n`. */
  lemma {:induction false} AppendACPrefix(dst: seq<byte>, acFloors: seq<Channels>, j: nat, n: nat)
    requires j <= n <= |acFloors|
    ensures AppendAC(dst, acFloors, n)[..|dst| + 2 * j] == AppendAC(dst, acFloors, j)
  {
    if j == n {
      var r := AppendAC(dst, acFloors, n);
      assert r[..|r|] == r;
    } else {
      AppendACPrefix(dst, acFloors, j, n - 1);
      AppendACPrefixNext(dst, acFloors, j, n);
    }
  }

  /** A prefix of the text of the first `n - 1` terms stays one when term `n - 1` is added. */
  lemma AppendACPrefixNext(dst: seq<byte>, acFloors: seq<Channels>, j: nat, n: nat)
    requires j < n <= |acFloors|
    requires AppendAC(dst, acFloors, n - 1)[..|dst| + 2 * j] == AppendAC(dst, acFloors, j)
    ensures AppendAC(dst, acFloors, n)[..|dst| + 2 * j] == AppendAC(dst, acFloors, j)
  {
    PrefixOfPrefix(AppendAC(dst, acFloors, n), AppendAC(dst, acFloors, n - 1), |dst| + 2 * j);
  }

  /** The AC term `i` occupies bytes `2i` and `2i+1` after the header. */
  lemma ACTermAt(dst: seq<byte>, acFloors: seq<Channels>, i: nat)
    requires i < |acFloors|
    ensures var k := |dst| + 2 * i;
      AppendAC(dst, acFloors, |acFloors|)[k..k + 2] == Append2([], EncodeAC(acFloors[i]))
  {
    var k := |dst| + 2 * i;
    var p := AppendAC(dst, acFloors, i);
    var q := AppendAC(dst, acFloors, i + 1);
    AppendACPrefix(dst, acFloors, i + 1, |acFloors|);
    SliceInPrefix(AppendAC(dst, acFloors, |acFloors|), q, k, k + 2);
    Append2Suffix(p, EncodeAC(acFloors[i]));
    assert q[k..k + 2] == q[|p|..];
  }

  /** The field order, header first: the shape digit, the scale digit, then
      the four DC digits. */
  lemma HeaderLayout(dst: seq<byte>, w: int, h: int, maxFloor: int, dc: Rgb, acFloors: seq<Channels>)
    requires 1 <= w <= MaxComponents && 1 <= h <= MaxComponents
    ensures var s := AppendHash(dst, w, h, maxFloor, dc, acFloors);
      |s| == |dst| + 6 + 2 * |acFloors|
      && s[|dst|] == Char(PackShape(w, h))
      && s[|dst| + 1] == Char(ScaleIndex(|acFloors|, maxFloor))
      && s[|dst| + 2..|dst| + 6] == Append4([], PackDC(dc))
  {
    var hdr := AppendHeader(dst, w, h, |acFloors|, maxFloor, dc);
    HeaderBytes(AppendAC(hdr, acFloors, |acFloors|), hdr, |dst|);
  }

  /** The field order after the header: AC term `i` fills bytes `6 + 2i` and
      `7 + 2i`. */
  lemma TermLayout(dst: seq<byte>, w: int, h: int, maxFloor: int, dc: Rgb, acFloors: seq<Channels>, i: nat)
    requires 1 <= w <= MaxComponents && 1 <= h <= MaxComponents
    requires i < |acFloors|
    ensures var s := AppendHash(dst, w, h, maxFloor, dc, acFloors);
      s[|dst| + 6 + 2 * i..|dst| + 8 + 2 * i] == Append2([], EncodeAC(acFloors[i]))
  {
    ACTermAt(AppendHeader(dst, w, h, |acFloors|, maxFloor, dc), acFloors, i);
  }

  /** `Append`: grows `dst` by the shape digit, the scale digit, the four DC
      digits and two digits per AC term. The DCT, the colour conversion and
      the float quantisers are not modelled: `dc` is the converted colour,
      `maxFloor` the floored `actualMax*166 - 0.5` and `acFloors` the floored
      `signSqrt(v/max)*9 + 9.5` of each AC term's channels. */
  method Append(dst: seq<byte>, w: int, h: int, maxFloor: int, dc: Rgb, acFloors: seq<Channels>)
    returns (r: seq<byte>)
    requires 1 <= w <= MaxComponents && 1 <= h <= MaxComponents
    requires |acFloors| == w * h - 1
    ensures r == AppendHash(dst, w, h, maxFloor, dc, acFloors)
    ensures |r| == |dst| + EncodedLen(w, h) && r[..|dst|] == dst
    ensures |acFloors| == 0 ==> r[|dst| + 1] == '0' as int
    ensures Parse(r[|dst|..]) == Some(Blur(w, h, ScaleIndex(|acFloors|, maxFloor), dc, Quantised(acFloors, |acFloors|)))
  {
    var packedShape := PackShape(w, h);
    r := Append1(dst, packedShape);
    if |acFloors| > 0 {
      var quantisedMax := Clamp(0, MaxScaleIndex, maxFloor);
      r := Append1(r, quantisedMax);
    } else {
      r := Append1(r, 0);
    }
    r := Append4(r, PackDC(dc));
    assert r == AppendHeader(dst, w, h, |acFloors|, maxFloor, dc);
    r := AppendTerms(r, acFloors);
    AppendHashLength(dst, w, h, maxFloor, dc, acFloors);
    ParseAppendHash(dst, w, h, maxFloor, dc, acFloors);
  }

  /** The AC loop of `Append`: two digits per term, in the order of the terms. */
  method AppendTerms(dst: seq<byte>, acFloors: seq<Channels>) returns (r: seq<byte>)
    ensures r == AppendAC(dst, acFloors, |acFloors|)
  {
    r := dst;
    var i := 0;
    while i < |acFloors|
      invariant 0 <= i <= |acFloors|
      invariant r == AppendAC(dst, acFloors, i)
    {
      AppendACNext(dst, acFloors, i);
      r := Append2(r, EncodeAC(acFloors[i]));
      i := i + 1;
    }
  }

  /** `Encode`: the hash on its own, exactly `EncodedLen(w, h)` bytes long. */
  method Encode(w: int, h: int, maxFloor: int, dc: Rgb, acFloors: seq<Channels>) returns (s: seq<byte>)
    requires 1 <= w <= MaxComponents && 1 <= h <= MaxComponents
    requires |acFloors| == w * h - 1
    ensures s == AppendHash([], w, h, maxFloor, dc, acFloors)
    ensures |s| == EncodedLen(w, h)
    ensures Parse(s) == Some(Blur(w, h, ScaleIndex(|acFloors|, maxFloor), dc, Quantised(acFloors, |acFloors|)))
  {
    s := Append([], w, h, maxFloor, dc, acFloors);
    assert s[0..] == s;
  }

  /** The neutral AC term: each channel floors to 9, the floor of
      `signSqrt(v/max)*9 + 9.5` for a coefficient too small to move it, and
      3429 = 41*83 + 26 is written "fQ". */
  lemma NeutralACTerm()
    ensures Append2([], EncodeAC(Channels(9, 9, 9))) == ['f' as int, 'Q' as int]
  {
    var neutral := Channels(9, 9, 9);
    assert neutral.IsDigits() && QuantiseAC(neutral) == neutral;
    assert PackAC(neutral) == 3429;
    assert 3429 / 83 % 83 == 41 && 3429 % 83 == 26;
  }

  /** A hash whose AC terms all quantise to the neutral digit 9 and whose
      floored maximum is at most 0: the scale digit is '0' and every AC term
      reads "fQ". All-zero AC coefficients (`floor(0*9 + 9.5)` is 9 and
      `floor(0*166 - 0.5)` is -1) are one such input. */
  lemma NeutralACImage(w: int, h: int, maxFloor: int, dc: Rgb, acFloors: seq<Channels>)
    requires 1 <= w <= MaxComponents && 1 <= h <= MaxComponents
    requires maxFloor <= 0
    requires forall i :: 0 <= i < |acFloors| ==> acFloors[i] == Channels(9, 9, 9)
    ensures var s := AppendHash([], w, h, maxFloor, dc, acFloors);
      s[1] == '0' as int
      && forall i :: 0 <= i < |acFloors| ==> s[6 + 2 * i..8 + 2 * i] == ['f' as int, 'Q' as int]
  {
    var hdr := AppendHeader([], w, h, |acFloors|, maxFloor, dc);
    var s := AppendHash([], w, h, maxFloor, dc, acFloors);
    assert s[..6] == hdr;
    assert s[1] == hdr[1];
    forall i | 0 <= i < |acFloors|
      ensures s[6 + 2 * i..8 + 2 * i] == ['f' as int, 'Q' as int]
    {
      ACTermAt(hdr, acFloors, i);
      NeutralACTerm();
    }
  }
}
