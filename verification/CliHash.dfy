/** The hash of option names (cli.c). */
module CliHash {
  const ULL: nat := 0x1_0000_0000_0000_0000   // 2^64

  // -------- The polynomial rolling hash --------

  const P: nat := 67

  function Pow(n: nat): nat { if n == 0 then 1 else P * Pow(n - 1) }

  /** A plain `char` is signed, so the conversion to the unsigned hash type wraps a negative one. */
  function CharValue(c: char): nat {
    var b := c as int % 256;
    if b < 128 then b else ULL - (256 - b)
  }

  /** The polynomial in unbounded arithmetic: the i-th character has weight 67^i. */
  function Polynomial(s: string): nat {
    if s == [] then 0 else Polynomial(s[..|s| - 1]) + CharValue(s[|s| - 1]) * Pow(|s| - 1)
  }

  function Hash(s: string): nat { Polynomial(s) % ULL }

  // Arithmetic of the unsigned hash type
  function WrapAdd(a: nat, b: nat): nat { (a + b) % ULL }
  function WrapMul(a: nat, b: nat): nat { a * b % ULL }

  lemma WrapMulAdd(a: nat, b: nat, c: nat)
    ensures WrapAdd(a % ULL, WrapMul(b, c % ULL)) == (a + b * c) % ULL
  {
    var q, r := c / ULL, c % ULL;
    assert c == q * ULL + r;
    Distribute(b, q, r);
    ModDrop(b * r, b * q);
    ModAdd(a, b * r);
    ModAdd(a, b * c);
  }

  lemma WeightStep(c: nat)
    ensures WrapMul(c % ULL, P) == P * c % ULL
  {
    ModDrop(P * (c % ULL), P * (c / ULL));
  }

  lemma HashStep(s: string, i: nat)
    requires i < |s|
    ensures WrapAdd(Polynomial(s[..i]) % ULL, WrapMul(CharValue(s[i]), Pow(i) % ULL)) == Polynomial(s[..i + 1]) % ULL
    ensures WrapMul(Pow(i) % ULL, P) == Pow(i + 1) % ULL
  {
    hide WrapAdd, WrapMul, CharValue;
    assert s[..i + 1][..i] == s[..i];
    WrapMulAdd(Polynomial(s[..i]), CharValue(s[i]), Pow(i));
    WeightStep(Pow(i));
  }

  lemma Distribute(b: nat, q: nat, r: nat)
    ensures b * (q * ULL + r) == (b * q) * ULL + b * r
  {
  }

  lemma ModDrop(x: nat, k: nat)
    ensures (k * ULL + x) % ULL == x % ULL
  {
  }

  lemma ModAdd(x: nat, y: nat)
    ensures (x % ULL + y % ULL) % ULL == (x + y) % ULL
  {
  }

  /** `cli_hash_from_str`: every operation wraps, and the result is still the polynomial modulo 2^64. */
  method HashFromStr(s: string) returns (hash: nat)
    ensures hash == Hash(s)
  {
    hide WrapAdd, WrapMul;
    hash := 0;
    var pc := 1;
    for i := 0 to |s|
      invariant hash == Polynomial(s[..i]) % ULL
      invariant pc == Pow(i) % ULL
    {
      HashStep(s, i);
      hash := WrapAdd(hash, WrapMul(CharValue(s[i]), pc));
      pc := WrapMul(pc, P);
    }
    assert s[..|s|] == s;
  }

  /** The hash in numbers: the first character counts once, the next 67 times, and one above 127 counts from the
      top. */
  lemma HashExample()
    ensures Hash("") == 0 && Hash("a") == 97 && Hash("ab") == 97 + 98 * 67
    ensures Hash("\U{00FF}") == 0xFFFF_FFFF_FFFF_FFFF
  {
    assert "ab"[..1] == "a" && "a"[..0] == "" && "\U{00FF}"[..0] == "";
    assert Pow(1) == 67;
  }
}
