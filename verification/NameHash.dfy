/** The bucket function of gateway_hashtable.c: a polynomial in 37 accumulated in 32 bits. */
module NameHash {
  import opened Base

  const WORD := 0x1_0000_0000
  const TABLE_SIZE := 10
  const FACTOR := 37

  /** The value the loop would accumulate if the accumulator never wrapped. */
  function Horner(key: Name): int {
    if key == [] then 0 else Horner(key[..|key| - 1]) * FACTOR + key[|key| - 1]
  }

  function Bucket(key: Name): (b: nat)
    ensures b < 10
  {
    Horner(key) % WORD % TABLE_SIZE
  }

  /** `hash`: the accumulator wraps at every character, and the bucket is still the one of the
      unwrapped polynomial reduced once. */
  method Hash(key: Name) returns (value: nat)
    ensures value == Bucket(key)
  {
    value := 0;
    var i := 0;
    while i < |key|
      invariant 0 <= i <= |key|
      invariant value == Horner(key[..i]) % WORD
    {
      assert key[..i + 1][..i] == key[..i];
      WrapOnce(Horner(key[..i]), key[i]);
      value := (value * FACTOR + key[i]) % WORD;
      i := i + 1;
    }
    assert key[..|key|] == key;
    value := value % TABLE_SIZE;
  }

  lemma WrapOnce(acc: int, c: int)
    ensures (acc % WORD * FACTOR + c) % WORD == (acc * FACTOR + c) % WORD
  {
    var q := acc / WORD;
    ModShift(acc % WORD * FACTOR + c, q * FACTOR);
  }

  lemma ModShift(x: int, k: int)
    ensures (x + k * WORD) % WORD == x % WORD
  {
    var q, r := x / WORD, x % WORD;
    assert x + k * WORD == (q + k) * WORD + r;
    DivModUnique(x + k * WORD, q + k, r, WORD);
  }

  lemma DivModUnique(x: int, q: int, r: int, m: int)
    requires m > 0 && 0 <= r < m && x == q * m + r
    ensures x / m == q && x % m == r
  {
    var d := x / m - q;
    assert d * m == r - x % m;
    if d != 0 {
      MultipleIsFar(d, m);
      assert false;
    }
  }

  lemma MultipleIsFar(d: int, m: int)
    requires m > 0 && d != 0
    ensures d * m >= m || d * m <= -m
  {
    if d > 0 {
      assert (d - 1) * m >= 0;
    } else {
      assert (-d - 1) * m >= 0;
    }
  }

  function Power(n: nat): nat {
    if n == 0 then 1 else 37 * Power(n - 1)
  }

  /** The polynomial written as a sum of weighted characters, the first one weighing most. */
  function WeightedSum(key: Name): int {
    if key == [] then 0 else key[0] * Power(|key| - 1) + WeightedSum(key[1..])
  }

  lemma {:induction false} HornerIsWeightedSum(key: Name)
    ensures Horner(key) == WeightedSum(key)
    ensures Bucket(key) == WeightedSum(key) % 4294967296 % 10
  {
    if key != [] {
      var init, last := key[..|key| - 1], key[|key| - 1];
      HornerIsWeightedSum(init);
      assert key == init + [last];
      WeightedSumSnoc(init, last);
    }
  }

  lemma {:induction false} WeightedSumSnoc(key: Name, c: CChar)
    ensures WeightedSum(key + [c]) == WeightedSum(key) * 37 + c
  {
    if key == [] {
      assert Power(0) == 1;
      assert (key + [c])[1..] == [];
    } else {
      WeightedSumSnoc(key[1..], c);
      assert (key + [c])[1..] == key[1..] + [c];
      assert Power(|key|) == 37 * Power(|key| - 1);
      assert key[0] * Power(|key|) == key[0] * Power(|key| - 1) * 37;
    }
  }

  /** The two reductions agree with a single `% 10` exactly when the number of lost 2^32 laps is a
      multiple of five: 2^32 leaves 6 modulo 10. */
  lemma WrapHarmlessIff(key: Name)
    ensures Bucket(key) == Horner(key) % 10 <==> Horner(key) / 4294967296 % 5 == 0
  {
    var h := Horner(key);
    var q, r := h / WORD, h % WORD;
    assert h == 4294967296 * q + r;
    TenthsAgreeIff(h, q, r);
  }

  lemma TenthsAgreeIff(h: int, q: int, r: int)
    requires h == 4294967296 * q + r
    ensures r % 10 == h % 10 <==> q % 5 == 0
  {
    var a, b, c := r / 10, h / 10, q / 5;
    assert 10 * b + h % 10 == 4294967290 * q + 6 * (5 * c + q % 5) + 10 * a + r % 10;
    assert h % 10 - r % 10 == 10 * (429496729 * q + 3 * c + a - b) + 6 * (q % 5);
  }

  /** Six times 'z' laps the word twice, and the wrapped bucket differs from the unwrapped one. */
  lemma WrapMatters()
    ensures exists key: Name :: |key| <= 9 && Bucket(key) != Horner(key) % TABLE_SIZE
  {
    var z: CChar := 122;
    var k1: Name := [z];
    var k2: Name := [z, z];
    var k3: Name := [z, z, z];
    var k4: Name := [z, z, z, z];
    var k5: Name := [z, z, z, z, z];
    var k6: Name := [z, z, z, z, z, z];
    assert k1[..0] == [] && k2[..1] == k1 && k3[..2] == k2 && k4[..3] == k3 && k5[..4] == k4 && k6[..5] == k5;
    assert Horner(k1) == 122;
    assert Horner(k2) == 4636;
    assert Horner(k3) == 171654;
    assert Horner(k4) == 6351320;
    assert Horner(k5) == 234998962;
    assert Horner(k6) == 8694961716;
    assert |k6| <= 9 && Bucket(k6) != Horner(k6) % TABLE_SIZE;
  }
}
