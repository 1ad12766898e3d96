/** Python's binary text conversions as the assembler uses them:
    `format(n, '0wb')` (zero-padded binary digits) and `int(s, 2)`. */
module BinaryText {
  import opened PyText

  function Pow2(n: nat): (p: nat)
    ensures p >= 1
  {
    if n == 0 then 1 else 2 * Pow2(n - 1)
  }

  predicate IsBinary(s: string) {
    forall i :: 0 <= i < |s| ==> s[i] == '0' || s[i] == '1'
  }

  function BitChar(b: nat): char
    requires b < 2
  {
    if b == 0 then '0' else '1'
  }

  /** `format(n, 'b')`: the shortest binary spelling of `n` ("0" for zero). */
  function ToBinary(n: nat): (s: string)
    ensures |s| > 0 && IsBinary(s)
  {
    if n < 2 then [BitChar(n)] else ToBinary(n / 2) + [BitChar(n % 2)]
  }

  function Zeros(k: nat): (s: string)
    ensures |s| == k && IsBinary(s)
  {
    if k == 0 then [] else Zeros(k - 1) + ['0']
  }

  /** Left-pads `s` with '0' up to width `w`; never truncates. */
  function ZeroPad(s: string, w: nat): (r: string)
    ensures |r| == if |s| < w then w else |s|
    ensures IsBinary(s) ==> IsBinary(r)
  {
    if |s| < w then Zeros(w - |s|) + s else s
  }

  /** `format(n, '0{w}b')`: a negative number is spelled with a leading '-'
      that counts toward the width. */
  function Format(n: int, w: nat): (s: string)
    ensures n >= 0 ==> IsBinary(s)
    ensures n < 0 ==> |s| > 0 && s[0] == '-'
  {
    if n >= 0 then ZeroPad(ToBinary(n), w)
    else "-" + ZeroPad(ToBinary(-n), if w > 0 then w - 1 else 0)
  }

  /** Value of a string of binary digits, most significant first. */
  function BinValue(s: string): nat
    decreases |s|
  {
    if |s| == 0 then 0
    else BinValue(s[..|s| - 1]) * 2 + (if s[|s| - 1] == '1' then 1 else 0)
  }

  /** `int(s, 2)` on the strings the assembler builds, which always start with
      an opcode digit: a value for a non-empty run of binary digits, `None`
      (Python's `ValueError`) as soon as any other character occurs. */
  function ParseBinary(s: string): (r: Option<nat>)
    ensures r.Some? <==> |s| > 0 && IsBinary(s)
    ensures r.Some? ==> r.value < Pow2(|s|)
  {
    if |s| > 0 && IsBinary(s) then
      BinValueBound(s);
      Some(BinValue(s))
    else None
  }

  lemma {:induction false} BinValueBound(s: string)
    ensures BinValue(s) < Pow2(|s|)
    decreases |s|
  {
    if |s| > 0 {
      BinValueBound(s[..|s| - 1]);
    }
  }

  /** Reading a concatenation: the high part is shifted left by the width of
      the low part. */
  lemma {:induction false} BinValueAppend(a: string, b: string)
    ensures BinValue(a + b) == BinValue(a) * Pow2(|b|) + BinValue(b)
    decreases |b|
  {
    if |b| > 0 {
      var b' := b[..|b| - 1];
      var bit := if b[|b| - 1] == '1' then 1 else 0;
      assert (a + b)[..|a + b| - 1] == a + b';
      assert (a + b)[|a + b| - 1] == b[|b| - 1];
      BinValueAppend(a, b');
      assert BinValue(a + b) == BinValue(a + b') * 2 + bit;
      assert BinValue(b) == BinValue(b') * 2 + bit;
      ShiftStep(BinValue(a), Pow2(|b'|), BinValue(b'), bit);
    } else {
      assert a + b == a;
    }
  }

  lemma ShiftStep(x: nat, p: nat, y: nat, bit: nat)
    ensures (x * p + y) * 2 + bit == x * (2 * p) + (y * 2 + bit)
  {
  }

  lemma {:induction false} ZerosValue(k: nat)
    ensures BinValue(Zeros(k)) == 0
  {
    if k > 0 {
      assert Zeros(k)[..k - 1] == Zeros(k - 1);
      ZerosValue(k - 1);
    }
  }

  /** `int(format(n, 'b'), 2) == n`. */
  lemma {:induction false} ToBinaryValue(n: nat)
    ensures BinValue(ToBinary(n)) == n
  {
    if n >= 2 {
      var s := ToBinary(n);
      assert s[..|s| - 1] == ToBinary(n / 2);
      ToBinaryValue(n / 2);
    } else {
      assert ToBinary(n)[..0] == [];
    }
  }

  /** A number below `2^w` needs at most `w` binary digits. */
  lemma {:induction false} ToBinaryLength(n: nat, w: nat)
    requires w >= 1 && n < Pow2(w)
    ensures |ToBinary(n)| <= w
  {
    if n >= 2 {
      ToBinaryLength(n / 2, w - 1);
    }
  }

  lemma ZeroPadValue(s: string, w: nat)
    ensures BinValue(ZeroPad(s, w)) == BinValue(s)
  {
    if |s| < w {
      BinValueAppend(Zeros(w - |s|), s);
      ZerosValue(w - |s|);
    }
  }

  /** For `0 <= n < 2^w`, `format(n, '0{w}b')` is exactly `w` binary digits
      spelling `n`. */
  lemma FormatInRange(n: int, w: nat)
    requires w >= 1 && 0 <= n < Pow2(w)
    ensures |Format(n, w)| == w
    ensures IsBinary(Format(n, w))
    ensures BinValue(Format(n, w)) == n
  {
    ToBinaryLength(n, w);
    ToBinaryValue(n);
    ZeroPadValue(ToBinary(n), w);
  }

  /** Without the range condition the spelling widens but still reads back as
      `n`: `format` does not truncate. */
  lemma FormatValue(n: nat, w: nat)
    ensures |Format(n, w)| >= w
    ensures BinValue(Format(n, w)) == n
  {
    ToBinaryValue(n);
    ZeroPadValue(ToBinary(n), w);
  }

  function Bit(c: char): nat {
    if c == '1' then 1 else 0
  }

  /** A 4-digit binary string read digit by digit. */
  lemma {:induction false} NibbleValue(s: string)
    requires |s| == 4
    ensures BinValue(s) == Bit(s[0]) * 8 + Bit(s[1]) * 4 + Bit(s[2]) * 2 + Bit(s[3])
  {
    var s3, s2, s1 := s[..3], s[..2], s[..1];
    assert s3[..2] == s2 && s2[..1] == s1 && s1[..0] == [];
    assert BinValue(s1) == Bit(s[0]);
    assert BinValue(s2) == Bit(s[0]) * 2 + Bit(s[1]);
    assert BinValue(s3) == Bit(s[0]) * 4 + Bit(s[1]) * 2 + Bit(s[2]);
  }
}
