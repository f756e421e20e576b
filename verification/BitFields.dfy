/**
 A frame as a run of unsigned parameters of given widths, each stored from its most significant bit.
 */
module BitFields {
  import opened Bits

  /** Where parameter `i` starts. */
  function Offset(ws: seq<nat>, i: nat): (n: nat)
    requires i <= |ws|
  {
    if i == 0 then 0 else Offset(ws, i - 1) + ws[i - 1]
  }

  lemma OffsetMonotone(ws: seq<nat>, i: nat, j: nat)
    requires i <= j <= |ws|
    ensures Offset(ws, i) <= Offset(ws, j)
  {
  }

  /** `w = (w << 1) | bit` over all bits. */
  function Value(bits: seq<bool>): (v: nat) {
    if bits == [] then 0
    else 2 * Value(bits[..|bits| - 1]) + if bits[|bits| - 1] then 1 else 0
  }

  lemma ValueBound(bits: seq<bool>)
    ensures Value(bits) < Pow2(|bits|)
  {
  }

  lemma ValueStep(bits: seq<bool>, j: nat, k: nat)
    requires j + k < |bits|
    ensures Value(bits[j..j + k + 1]) == 2 * Value(bits[j..j + k]) + if bits[j + k] then 1 else 0
  {
    assert bits[j..j + k + 1][..k] == bits[j..j + k];
  }

  /** `w & (1 << (l - k - 1))` for k = 0 .. l - 1. */
  function Digits(w: nat, l: nat): (bits: seq<bool>)
    ensures |bits| == l
  {
    seq(l, k requires 0 <= k < l => Bit(w, l - k - 1))
  }

  lemma DigitsStep(w: nat, l: nat)
    requires l > 0
    ensures Digits(w, l) == Digits(w / 2, l - 1) + [w % 2 == 1]
  {
    forall k | 0 <= k < l
      ensures Digits(w, l)[k] == (Digits(w / 2, l - 1) + [w % 2 == 1])[k]
    {
      assert k < l - 1 ==> Bit(w, l - k - 1) == Bit(w / 2, l - k - 2);
    }
  }

  lemma {:induction false} DigitsValue(bits: seq<bool>)
    ensures Digits(Value(bits), |bits|) == bits
  {
    if bits == [] {
    } else {
      var front := bits[..|bits| - 1];
      DigitsValue(front);
      DigitsStep(Value(bits), |bits|);
      assert Value(bits) / 2 == Value(front);
    }
  }

  lemma Times(m: nat, d: int)
    ensures d >= 1 ==> m * d >= m
    ensures d <= -1 ==> m * d + m <= 0
  {
  }

  lemma ModUnique(w: nat, m: nat, q: nat, s: nat)
    requires w == m * q + s && s < m
    ensures w % m == s
  {
    var d := q - w / m;
    assert m * q == m * (w / m) + m * d;
    Times(m, d);
  }

  lemma {:induction false} ValueDigits(w: nat, l: nat)
    ensures Value(Digits(w, l)) == w % Pow2(l)
  {
    if l == 0 {
    } else {
      var h, m := w / 2, Pow2(l - 1);
      ValueDigits(h, l - 1);
      DigitsStep(w, l);
      assert Digits(w, l)[..l - 1] == Digits(h, l - 1);
      HalfMod(w, m);
    }
  }

  lemma HalfMod(w: nat, m: nat)
    requires m > 0
    ensures w % (2 * m) == 2 * (w / 2 % m) + w % 2
  {
    var h := w / 2;
    var q, r := h / m, h % m;
    assert h == m * q + r;
    assert 2 * m * q == 2 * (m * q);
    ModUnique(w, 2 * m, q, 2 * r + w % 2);
  }

  /** The first `i` parameters of a frame. */
  function Fields(ws: seq<nat>, bits: seq<bool>, i: nat): (ps: seq<nat>)
    requires i <= |ws| && Offset(ws, i) <= |bits|
    ensures |ps| == i
  {
    if i == 0 then []
    else Fields(ws, bits, i - 1) + [Value(bits[Offset(ws, i - 1)..Offset(ws, i)])]
  }

  lemma {:induction false} FieldIs(ws: seq<nat>, bits: seq<bool>, i: nat, n: nat)
    requires i < n <= |ws| && Offset(ws, n) <= |bits|
    ensures Offset(ws, i + 1) <= Offset(ws, n)
    ensures Fields(ws, bits, n)[i] == Value(bits[Offset(ws, i)..Offset(ws, i + 1)])
  {
    if i == n - 1 {
    } else {
      FieldIs(ws, bits, i, n - 1);
    }
  }

  /** The frame made of the first `i` parameters. */
  function Unfields(ws: seq<nat>, ps: seq<nat>, i: nat): (bits: seq<bool>)
    requires i <= |ws| == |ps|
    ensures |bits| == Offset(ws, i)
  {
    if i == 0 then []
    else Unfields(ws, ps, i - 1) + Digits(ps[i - 1], ws[i - 1])
  }

  /** Every frame is rebuilt from its parameters, whatever the widths. */
  lemma {:induction false} UnfieldsFields(ws: seq<nat>, bits: seq<bool>, ps: seq<nat>, i: nat)
    requires i <= |ws| == |ps| && Offset(ws, i) <= |bits| && ps[..i] == Fields(ws, bits, i)
    ensures Unfields(ws, ps, i) == bits[..Offset(ws, i)]
  {
    if i == 0 {
    } else {
      var a, b := Offset(ws, i - 1), Offset(ws, i);
      assert ps[..i - 1] == ps[..i][..i - 1] == Fields(ws, bits, i - 1);
      UnfieldsFields(ws, bits, ps, i - 1);
      assert ps[i - 1] == ps[..i][i - 1] == Value(bits[a..b]);
      DigitsValue(bits[a..b]);
      assert bits[..b] == bits[..a] + bits[a..b];
    }
  }

  /** Parameter `j` of a built frame is the given one reduced to its width. */
  lemma {:induction false} FieldsUnfields(ws: seq<nat>, ps: seq<nat>, bits: seq<bool>, i: nat, j: nat)
    requires j < i <= |ws| == |ps|
    requires Offset(ws, i) <= |bits| && bits[..Offset(ws, i)] == Unfields(ws, ps, i)
    ensures Fields(ws, bits, i)[j] == ps[j] % Pow2(ws[j])
  {
    var a, b := Offset(ws, i - 1), Offset(ws, i);
    if j == i - 1 {
      assert bits[a..b] == bits[..b][a..] == Digits(ps[j], ws[j]);
      ValueDigits(ps[j], ws[j]);
    } else {
      assert bits[..a] == bits[..b][..a] == Unfields(ws, ps, i - 1);
      FieldsUnfields(ws, ps, bits, i - 1, j);
    }
  }
}
