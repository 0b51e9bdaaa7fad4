/**
 * An ideal, noise-free stand-in for the BFV scheme of the SEAL library with
 * the parameters the program generates: plain modulus 65537, every
 * plaintext a constant polynomial. A ciphertext records the operations that
 * built it, and `Decrypt` evaluates that record modulo the plain modulus, so
 * the homomorphic laws hold by construction. Key material, randomness and
 * noise are not represented.
 */
module Seal {
  import opened Wrappers
  import opened Cpp
  import opened Numerals

  /** `plainModulus` chosen when the keys are generated. */
  const PlainModulus: int := 65537

  /** A plaintext holding one constant coefficient. */
  datatype Plaintext = Plaintext(coeff: UInt64) {

    /** `Plaintext::to_string`: the coefficient in upper-case hexadecimal. */
    function ToString(): string {
      Numeral(coeff, 16)
    }
  }

  /**
   * `seal::Plaintext(hex)`: a constant polynomial written as hexadecimal
   * digits (either case). Anything else, or a value that does not fit in a
   * 64-bit coefficient, is rejected (the library throws).
   */
  function ParsePlaintext(hex: string): (p: Option<Plaintext>)
    ensures p.Some? <==> hex != [] && AllDigitsIn(hex, 16) && DigitsValue(hex, 16) < TwoTo64
    ensures p.Some? ==> p.value == Plaintext(DigitsValue(hex, 16))
  {
    if hex != [] && AllDigitsIn(hex, 16) && DigitsValue(hex, 16) < TwoTo64
    then Some(Plaintext(DigitsValue(hex, 16)))
    else None
  }

  /** A plaintext built from `uint_to_hex_string(&v, 1)` holds `v` again. */
  lemma ParsePlaintextOfHex(v: UInt64)
    ensures ParsePlaintext(Numeral(v, 16)) == Some(Plaintext(v))
  {
    NumeralValue(v, 16);
  }

  /**
   * The two steps the core takes to turn a weight or a feature value into a
   * plaintext: write it with `uint_to_hex_string(&v, 1)`, then construct a
   * `seal::Plaintext` from that text. The plaintext holds `v` again.
   */
  method PlaintextOfValue(v: UInt64) returns (p: Plaintext)
    ensures p == Plaintext(v)
  {
    var hexString := Numeral(v, 16);
    ParsePlaintextOfHex(v);
    p := ParsePlaintext(hexString).value;
  }

  /** A ciphertext, as the record of the scheme operations that produced it. */
  datatype Ciphertext =
    | EncryptedZero
    | Encrypted(plain: Plaintext)
    | ProductPlain(factor: Ciphertext, plain: Plaintext)
    | Sum(left: Ciphertext, right: Ciphertext)

  /** Ideal decryption: the plaintext a ciphertext stands for, reduced modulo `PlainModulus`. */
  function Decrypt(c: Ciphertext): (p: Plaintext)
    ensures p.coeff < PlainModulus
  {
    match c
    case EncryptedZero => Plaintext(0)
    case Encrypted(plain) => Plaintext(plain.coeff % PlainModulus)
    case ProductPlain(factor, plain) => Plaintext((Decrypt(factor).coeff * plain.coeff) % PlainModulus)
    case Sum(left, right) => Plaintext((Decrypt(left).coeff + Decrypt(right).coeff) % PlainModulus)
  }

  /** `Encryptor::encrypt_zero` */
  function EncryptZero(): (c: Ciphertext)
    ensures Decrypt(c).coeff == 0
  {
    EncryptedZero
  }

  /** `Encryptor::encrypt` */
  function Encrypt(plain: Plaintext): (c: Ciphertext)
    ensures Decrypt(c).coeff == plain.coeff % PlainModulus
  {
    Encrypted(plain)
  }

  /** `Evaluator::multiply_plain`: ciphertext times plaintext. */
  function MultiplyPlain(c: Ciphertext, plain: Plaintext): (r: Ciphertext)
    ensures Decrypt(r).coeff == (Decrypt(c).coeff * plain.coeff) % PlainModulus
    ensures Depth(r) == Depth(c) + 1 && PlainProducts(r) == PlainProducts(c) + 1
  {
    ProductPlain(c, plain)
  }

  /** `Evaluator::add_inplace`: the new value of the first operand. */
  function Add(a: Ciphertext, b: Ciphertext): (r: Ciphertext)
    ensures Decrypt(r).coeff == (Decrypt(a).coeff + Decrypt(b).coeff) % PlainModulus
    ensures Depth(r) == if Depth(a) < Depth(b) then Depth(b) else Depth(a)
    ensures PlainProducts(r) == PlainProducts(a) + PlainProducts(b)
  {
    Sum(a, b)
  }

  /** The longest chain of plaintext multiplications: what the noise budget pays for. */
  function Depth(c: Ciphertext): nat {
    match c
    case EncryptedZero => 0
    case Encrypted(_) => 0
    case ProductPlain(factor, _) => Depth(factor) + 1
    case Sum(left, right) =>
      var l, r := Depth(left), Depth(right);
      if l < r then r else l
  }

  /** How many `multiply_plain` calls went into a ciphertext. */
  function PlainProducts(c: Ciphertext): nat {
    match c
    case EncryptedZero => 0
    case Encrypted(_) => 0
    case ProductPlain(factor, _) => PlainProducts(factor) + 1
    case Sum(left, right) => PlainProducts(left) + PlainProducts(right)
  }

  /**
   * Decoding a decrypted result as the program's driver does it,
   * `std::stoi(x_decrypted.to_string(), nullptr, 16)`: the hexadecimal text
   * of a decrypted value always reads back as that value.
   */
  function DecodeDecrypted(c: Ciphertext): (r: Result<int, CppException>)
    ensures r == Success(Decrypt(c).coeff)
  {
    StoiNumeral(Decrypt(c).coeff, 16);
    Stoi(Decrypt(c).ToString(), 16)
  }

  /**
   * One multiply-accumulate step: adding `coefficient` times `plain` to an
   * accumulator that decrypts to `sum` gives one that decrypts to
   * `sum + coefficient * plain`, all modulo `PlainModulus`.
   */
  lemma MultiplyAccumulate(acc: Ciphertext, coefficient: Ciphertext, plain: Plaintext, sum: int)
    requires Decrypt(acc).coeff == sum % PlainModulus
    ensures Decrypt(Add(acc, MultiplyPlain(coefficient, plain))).coeff
         == (Decrypt(coefficient).coeff * plain.coeff + sum) % PlainModulus
  {
    var term := MultiplyPlain(coefficient, plain);
    ModAccumulate(Decrypt(acc).coeff, sum, Decrypt(term).coeff, Decrypt(coefficient).coeff * plain.coeff);
  }

  /** Adding reduced values and reducing again is reducing the exact sum. */
  lemma ModAccumulate(a: int, sum: int, t: int, product: int)
    requires a == sum % PlainModulus
    requires t == product % PlainModulus
    ensures (a + t) % PlainModulus == (product + sum) % PlainModulus
  {
    ModUnique(t, 0, t);
    ModUnique(a, 0, a);
    ModAddCongruent(a, sum, t, product);
  }

  /**
   * What one multiply-accumulate step costs: one more plaintext
   * multiplication, and no deeper circuit when a fresh encryption is
   * multiplied into an accumulator of depth at most one.
   */
  lemma MultiplyAccumulateCost(acc: Ciphertext, coefficient: Ciphertext, plain: Plaintext)
    ensures PlainProducts(Add(acc, MultiplyPlain(coefficient, plain)))
         == PlainProducts(acc) + PlainProducts(coefficient) + 1
    ensures Depth(acc) <= 1 && Depth(coefficient) == 0 ==> Depth(Add(acc, MultiplyPlain(coefficient, plain))) <= 1
  {
  }

  /** Sums of congruent summands are congruent modulo `PlainModulus`. */
  lemma ModAddCongruent(a1: int, a2: int, b1: int, b2: int)
    requires a1 % PlainModulus == a2 % PlainModulus
    requires b1 % PlainModulus == b2 % PlainModulus
    ensures (a1 + b1) % PlainModulus == (a2 + b2) % PlainModulus
  {
    var r, t := a1 % PlainModulus, b1 % PlainModulus;
    var q1, q2, p1, p2 := a1 / PlainModulus, a2 / PlainModulus, b1 / PlainModulus, b2 / PlainModulus;
    assert a1 == q1 * PlainModulus + r && a2 == q2 * PlainModulus + r;
    assert b1 == p1 * PlainModulus + t && b2 == p2 * PlainModulus + t;
    if r + t < PlainModulus {
      ModUnique(a1 + b1, q1 + p1, r + t);
      ModUnique(a2 + b2, q2 + p2, r + t);
    } else {
      ModUnique(a1 + b1, q1 + p1 + 1, r + t - PlainModulus);
      ModUnique(a2 + b2, q2 + p2 + 1, r + t - PlainModulus);
    }
  }

  /** The remainder modulo `PlainModulus` is the one `r` in range with `x == q * PlainModulus + r`. */
  lemma ModUnique(x: int, q: int, r: int)
    requires 0 <= r < PlainModulus && x == q * PlainModulus + r
    ensures x % PlainModulus == r
  {
  }

  /** Products of congruent factors are congruent modulo `PlainModulus`. */
  lemma ModMulCongruent(a: int, b: int, v: int)
    requires a % PlainModulus == b % PlainModulus
    ensures (a * v) % PlainModulus == (b * v) % PlainModulus
  {
    var q := a / PlainModulus - b / PlainModulus;
    assert a - b == q * PlainModulus;
    assert a * v - b * v == (q * v) * PlainModulus;
  }
}
