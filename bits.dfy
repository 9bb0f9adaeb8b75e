/** Strings of '0'/'1' characters and the integers they denote, as Python's
    `int(s, 2)`, `bin(n)[2:]`, `str.zfill` and `'0' * n` treat them. */
module Bits {
  import opened Results

  function Pow2(n: nat): (r: nat)
    ensures r >= 1
  {
    if n == 0 then 1 else 2 * Pow2(n - 1)
  }

  lemma {:induction false} Pow2Add(a: nat, b: nat)
    ensures Pow2(a + b) == Pow2(a) * Pow2(b)
  {
    if a > 0 {
      Pow2Add(a - 1, b);
    }
  }

  lemma {:induction false} Pow2Monotone(a: nat, b: nat)
    requires a <= b
    ensures Pow2(a) <= Pow2(b)
  {
    if a < b {
      Pow2Monotone(a, b - 1);
    }
  }

  predicate IsBinary(s: string) {
    forall i :: 0 <= i < |s| ==> s[i] == '0' || s[i] == '1'
  }

  /** Python's `'0' * n`. */
  function Zeros(n: nat): (z: string)
    ensures |z| == n && IsBinary(z)
    ensures forall i :: 0 <= i < n ==> z[i] == '0'
  {
    seq(n, _ => '0')
  }

  function BitValue(b: char): nat {
    if b == '1' then 1 else 0
  }

  /** The number a binary string denotes, most significant bit first. */
  function Value(s: string): nat {
    if s == [] then 0 else 2 * Value(s[..|s| - 1]) + BitValue(s[|s| - 1])
  }

  /** Python's `int(s, 2)`: the empty string and any character other than
      '0' and '1' raise ValueError. */
  function ParseBinary(s: string): (r: Result<nat>)
    ensures r.Ok? <==> s != [] && IsBinary(s)
    ensures r.Ok? ==> r.value == Value(s) && r.value < Pow2(|s|)
  {
    if s != [] && IsBinary(s) then ValueBound(s); Ok(Value(s)) else Err(ValueError)
  }

  /** Python's `bin(n)[2:]`: the shortest binary rendering of n. */
  function Bin(n: nat): (b: string)
    ensures IsBinary(b) && |b| >= 1
    ensures Value(b) == n
    ensures n < Pow2(|b|)
    ensures |b| > 1 ==> b[0] == '1' && Pow2(|b| - 1) <= n
  {
    if n < 2 then
      [if n == 0 then '0' else '1']
    else
      var p := Bin(n / 2);
      var b := p + [if n % 2 == 0 then '0' else '1'];
      assert b[..|b| - 1] == p;
      b
  }

  /** Python's `s.zfill(w)` on a digit string: left-pad with '0' up to width w. */
  function ZFill(s: string, w: nat): (z: string)
    ensures |z| == if |s| >= w then |s| else w
    ensures IsBinary(s) ==> IsBinary(z) && Value(z) == Value(s)
  {
    if |s| >= w then s
    else
      ValueConcat(Zeros(w - |s|), s);
      ValueZeros(w - |s|);
      Zeros(w - |s|) + s
  }

  lemma {:induction false} ValueZeros(n: nat)
    ensures Value(Zeros(n)) == 0
  {
    if n > 0 {
      assert Zeros(n)[..n - 1] == Zeros(n - 1);
      ValueZeros(n - 1);
    }
  }

  /** Reading a concatenation: the left part is shifted by the width of the right. */
  lemma {:induction false} ValueConcat(a: string, b: string)
    ensures Value(a + b) == Value(a) * Pow2(|b|) + Value(b)
  {
    if b == [] {
      assert a + b == a;
    } else {
      var n := |b| - 1;
      var b' := b[..n];
      var ab := a + b;
      var last := |ab| - 1;
      assert ab[..last] == a + b' && ab[last] == b[n];
      ValueConcat(a, b');
      assert Value(ab) == 2 * Value(a + b') + BitValue(b[n]);
      assert Value(b) == 2 * Value(b') + BitValue(b[n]);
      Distribute(Value(a), Pow2(n), Value(b'), BitValue(b[n]));
    }
  }

  lemma Distribute(x: nat, p: nat, y: nat, c: nat)
    ensures 2 * (x * p + y) + c == x * (2 * p) + (2 * y + c)
  {
  }

  lemma {:induction false} ValueBound(s: string)
    ensures Value(s) < Pow2(|s|)
  {
    if s != [] {
      ValueBound(s[..|s| - 1]);
    }
  }

  /** Two binary strings of one width that denote the same number are equal. */
  lemma {:induction false} ValueInjective(s: string, t: string)
    requires IsBinary(s) && IsBinary(t) && |s| == |t|
    requires Value(s) == Value(t)
    ensures s == t
  {
    if s != [] {
      var n := |s| - 1;
      var s', t' := s[..n], t[..n];
      assert Value(s) == 2 * Value(s') + BitValue(s[n]);
      assert Value(t) == 2 * Value(t') + BitValue(t[n]);
      Halves(Value(s'), BitValue(s[n]), Value(t'), BitValue(t[n]));
      assert s[n] == t[n];
      assert IsBinary(s') && IsBinary(t') by {
        assert forall i :: 0 <= i < n ==> s'[i] == s[i] && t'[i] == t[i];
      }
      ValueInjective(s', t');
      assert s == s' + [s[n]];
      assert t == t' + [t[n]];
    }
  }

  /** Halving with a remainder bit is unique. */
  lemma Halves(x: nat, a: nat, y: nat, b: nat)
    requires a < 2 && b < 2 && 2 * x + a == 2 * y + b
    ensures a == b && x == y
  {
  }

  /** `bin(n)[2:]` fits in w digits exactly when n < 2^w. */
  lemma {:induction false} BinFits(n: nat, w: nat)
    requires w >= 1
    ensures |Bin(n)| <= w <==> n < Pow2(w)
  {
    if |Bin(n)| <= w {
      Pow2Monotone(|Bin(n)|, w);
    }
    if n < Pow2(w) && |Bin(n)| > w {
      Pow2Monotone(w, |Bin(n)| - 1);
    }
  }

  /** `bin(n)[2:].zfill(w)`, the rendering that the canonical coder and the
      byte packer use. */
  function Render(n: nat, w: nat): (z: string)
    ensures IsBinary(z) && Value(z) == n
  {
    ZFill(Bin(n), w)
  }

  lemma RenderWidth(n: nat, w: nat)
    requires w >= 1 && n < Pow2(w)
    ensures |Render(n, w)| == w
  {
    BinFits(n, w);
  }

  /** A binary string is the zero-filled rendering of its own value. */
  lemma RenderValue(s: string)
    requires IsBinary(s) && |s| >= 1
    ensures Render(Value(s), |s|) == s
  {
    ValueBound(s);
    RenderWidth(Value(s), |s|);
    ValueInjective(Render(Value(s), |s|), s);
  }
}
