/**
 * The `LinearRegression` class: a plaintext coefficient map loaded from a
 * CSV file, the encrypted model derived from it, and the two predictions,
 * one computed in the clear and one homomorphically.
 *
 * The source iterates `std::map`s in key order; the loops here take the
 * remaining keys in any order, and every result below is independent of it.
 */
module LinearRegressionModel {
  import opened Wrappers
  import opened Cpp
  import opened Numerals
  import opened Seal
  import opened SparseDot
  import opened Csv

  /** What `loadCoefficients` returns, or the exception it lets escape. */
  datatype LoadOutcome = Returned(code: int) | Threw(error: CppException)

  /** The coefficients as `predictPlaintext` reads them: `int coefficient = coefficients.at(name)`. */
  function AsInt(coeffs: map<string, UInt64>): (m: map<string, int>)
    ensures m.Keys == coeffs.Keys
    ensures forall name :: name in coeffs ==> m[name] == Wrap32(coeffs[name])
  {
    map name | name in coeffs :: Wrap32(coeffs[name])
  }

  /** The encrypted model `encryptModel` derives: one fresh encryption per weight, under the same name. */
  function EncryptAll(coeffs: map<string, UInt64>): (enc: map<string, Ciphertext>)
    ensures enc.Keys == coeffs.Keys
    ensures forall name :: name in coeffs ==> enc[name].Encrypted?
    ensures forall name :: name in coeffs ==> Decrypt(enc[name]).coeff == coeffs[name] % PlainModulus
  {
    map name | name in coeffs :: Encrypt(Plaintext(coeffs[name]))
  }

  /** What an encrypted model decrypts to, name by name. */
  function DecryptAll(enc: map<string, Ciphertext>): (m: map<string, int>)
    ensures m.Keys == enc.Keys
    ensures forall name :: name in enc ==> 0 <= m[name] < PlainModulus
  {
    map name | name in enc :: Decrypt(enc[name]).coeff
  }

  class LinearRegression {
    var coefficients: map<string, UInt64>
    var encryptedCoefficients: map<string, Ciphertext>

    /** Every encrypted coefficient is a fresh encryption: no homomorphic operation has been spent on it yet. */
    ghost predicate Valid()
      reads this
    {
      forall name :: name in encryptedCoefficients ==> encryptedCoefficients[name].Encrypted?
    }

    /** Every plaintext weight has an encryption that decrypts to it modulo the plain modulus. */
    ghost predicate ModelEncrypted()
      reads this
    {
      forall name :: name in coefficients ==>
        name in encryptedCoefficients && Decrypt(encryptedCoefficients[name]).coeff == coefficients[name] % PlainModulus
    }

    constructor()
      ensures Valid()
      ensures coefficients == map[] && encryptedCoefficients == map[]
    {
      coefficients := map[];
      encryptedCoefficients := map[];
    }

    /**
     * `loadCoefficients`, with the file given as its lines (`None` when it
     * cannot be opened). The header line is skipped, then each row is
     * stored as it is read.
     */
    method LoadCoefficients(file: Option<seq<string>>) returns (outcome: LoadOutcome)
      modifies this`coefficients
      ensures encryptedCoefficients == old(encryptedCoefficients)
      ensures file.None? ==> outcome == Returned(-1) && coefficients == old(coefficients)
      ensures file.Some? ==>
        var loaded := LoadRows(old(coefficients), DataRows(file.value));
        && coefficients == loaded.coefficients
        && outcome == if loaded.error.None? then Returned(0) else Threw(loaded.error.value)
    {
      if file.None? {
        return Returned(-1);
      }
      var lines := file.value;
      if lines == [] {
        return Returned(0);
      }
      ghost var parsed := ParseRows(DataRows(lines));
      var i := 1;
      while i < |lines|
        invariant 1 <= i <= |lines|
        invariant Store(old(coefficients), parsed) == Store(coefficients, parsed[i - 1..])
      {
        assert parsed[i - 1..][1..] == parsed[i..];
        match ParseRow(lines[i]) {
          case Failure(e) =>
            return Threw(e);
          case Success(row) =>
            coefficients := coefficients[row.name := row.weight];
        }
        i := i + 1;
      }
      return Returned(0);
    }

    /**
     * `predictPlaintext`: the sparse dot product of the coefficients and the
     * feature values in 32-bit `int` arithmetic. A feature without a
     * coefficient is skipped.
     */
    method PredictPlaintext(features: map<string, Int32>) returns (prediction: Int32)
      ensures prediction == Wrap32(Dot(AsInt(coefficients), features))
      ensures features == map[] ==> prediction == 0
    {
      prediction := 0;
      var remaining := features.Keys;
      assert features - remaining == map[];
      while remaining != {}
        invariant remaining <= features.Keys
        invariant prediction == Wrap32(Dot(AsInt(coefficients), features - remaining))
        decreases remaining
      {
        var featureName :| featureName in remaining;
        var featureValue: int := features[featureName];
        DotVisit(AsInt(coefficients), features, remaining, featureName);
        if featureName in coefficients {
          var coefficient: int := Wrap32(coefficients[featureName]);
          Wrap32Add(Dot(AsInt(coefficients), features - remaining), coefficient * featureValue);
          prediction := Wrap32(prediction + Wrap32(coefficient * featureValue));
        }
        remaining := remaining - {featureName};
      }
      assert features - remaining == features;
    }

    /**
     * `encryptModel`: each weight is written in hexadecimal, read back into a
     * plaintext, encrypted and stored under its name. Entries whose names
     * have no weight are left as they were.
     */
    method EncryptModel() returns (status: int)
      requires Valid()
      modifies this`encryptedCoefficients
      ensures Valid() && ModelEncrypted()
      ensures status == 0
      ensures coefficients == old(coefficients)
      ensures encryptedCoefficients == old(encryptedCoefficients) + EncryptAll(coefficients)
    {
      var remaining := coefficients.Keys;
      assert coefficients - remaining == map[];
      assert encryptedCoefficients == old(encryptedCoefficients) + EncryptAll(map[]);
      while remaining != {}
        invariant remaining <= coefficients.Keys
        invariant encryptedCoefficients == old(encryptedCoefficients) + EncryptAll(coefficients - remaining)
        decreases remaining
      {
        var key :| key in remaining;
        var value := coefficients[key];
        var xPlain := PlaintextOfValue(value);
        var xEncrypted := Encrypt(xPlain);
        EncryptAllVisit(old(encryptedCoefficients), coefficients, remaining, key);
        encryptedCoefficients := encryptedCoefficients[key := xEncrypted];
        remaining := remaining - {key};
      }
      assert coefficients - remaining == coefficients;
      return 0;
    }

    /**
     * `predictEncrypted`: starting from an encryption of zero, multiply each
     * feature's encrypted coefficient by the feature value (as a plaintext)
     * and add the product to the accumulator. The coefficient is looked up
     * with `std::map::at`, so a feature without one throws
     * `std::out_of_range` instead of being skipped.
     */
    method PredictEncrypted(features: map<string, UInt64>) returns (r: Result<Ciphertext, CppException>)
      requires Valid()
      ensures r.Failure? <==> !(features.Keys <= encryptedCoefficients.Keys)
      ensures r.Failure? ==> r.error == OutOfRange
      ensures r.Success? ==> Decrypt(r.value).coeff == Dot(DecryptAll(encryptedCoefficients), features) % PlainModulus
      ensures r.Success? ==> PlainProducts(r.value) == |features.Keys|
      ensures r.Success? ==> Depth(r.value) <= 1
      ensures ModelEncrypted() && features.Keys <= coefficients.Keys ==>
        r.Success? && Decrypt(r.value).coeff == Dot(coefficients, features) % PlainModulus
    {
      var model := encryptedCoefficients;
      var decrypted := DecryptAll(model);
      var prediction := EncryptZero();
      var remaining := features.Keys;
      AccumulatesNothing(decrypted, features);
      while remaining != {}
        invariant remaining <= features.Keys
        invariant features.Keys - remaining <= model.Keys
        invariant Accumulates(prediction, decrypted, features, remaining)
        decreases remaining
      {
        var featureName :| featureName in remaining;
        var featureValue := features[featureName];
        if featureName !in model {
          return Failure(OutOfRange);
        }
        var coefficient := model[featureName];
        var plaintext := PlaintextOfValue(featureValue);
        var temp := MultiplyPlain(coefficient, plaintext);
        AccumulateFeature(prediction, coefficient, plaintext, decrypted, features, remaining, featureName);
        prediction := Add(prediction, temp);
        remaining := remaining - {featureName};
      }
      AccumulatesEverything(prediction, decrypted, features);
      assert ModelEncrypted() && features.Keys <= coefficients.Keys ==>
          Decrypt(prediction).coeff == Dot(coefficients, features) % PlainModulus by {
        if ModelEncrypted() && features.Keys <= coefficients.Keys {
          EncryptedModelPredicts(encryptedCoefficients, coefficients, features);
        }
      }
      return Success(prediction);
    }
  }

  /**
   * The step of `predictEncrypted`'s loop: adding the product of one more
   * feature's encrypted coefficient and its value to the accumulator adds
   * that feature's term to the decrypted sum, and spends one more plaintext
   * multiplication without deepening the circuit.
   */
  lemma AccumulateFeature(prediction: Ciphertext, coefficient: Ciphertext, plaintext: Plaintext,
                          decrypted: map<string, int>, features: map<string, UInt64>, remaining: set<string>, name: string)
    requires Accumulates(prediction, decrypted, features, remaining) && name in remaining
    requires name in decrypted && decrypted[name] == Decrypt(coefficient).coeff && coefficient.Encrypted?
    requires plaintext.coeff == features[name]
    ensures Accumulates(Add(prediction, MultiplyPlain(coefficient, plaintext)), decrypted, features, remaining - {name})
  {
    DotVisit(decrypted, features, remaining, name);
    MultiplyAccumulate(prediction, coefficient, plaintext, Dot(decrypted, features - remaining));
    MultiplyAccumulateCost(prediction, coefficient, plaintext);
    assert |remaining - {name}| == |remaining| - 1;
  }

  /**
   * What `predictEncrypted`'s accumulator holds once every feature outside
   * `remaining` has been visited: the dot product of those features with
   * the decrypted coefficients, one plaintext multiplication per feature,
   * and no ciphertext that has been through more than one.
   */
  ghost predicate Accumulates(prediction: Ciphertext, decrypted: map<string, int>, features: map<string, UInt64>, remaining: set<string>) {
    && remaining <= features.Keys
    && Decrypt(prediction).coeff == Dot(decrypted, features - remaining) % PlainModulus
    && PlainProducts(prediction) + |remaining| == |features.Keys|
    && Depth(prediction) <= 1
  }

  /** Before the loop of `predictEncrypted`, an encryption of zero accounts for no feature. */
  lemma AccumulatesNothing(decrypted: map<string, int>, features: map<string, UInt64>)
    ensures Accumulates(EncryptZero(), decrypted, features, features.Keys)
  {
    var none := features - features.Keys;
    assert none == map[];
    assert Dot(decrypted, none) == 0;
    assert PlainProducts(EncryptZero()) == 0 && Depth(EncryptZero()) == 0;
  }

  /** After the loop of `predictEncrypted`, the accumulator accounts for every feature. */
  lemma AccumulatesEverything(prediction: Ciphertext, decrypted: map<string, int>, features: map<string, UInt64>)
    requires Accumulates(prediction, decrypted, features, {})
    ensures Decrypt(prediction).coeff == Dot(decrypted, features) % PlainModulus
    ensures PlainProducts(prediction) == |features.Keys| && Depth(prediction) <= 1
  {
    assert features - {} == features;
  }

  /** The step of `encryptModel`'s loop: storing one more encrypted weight. */
  lemma EncryptAllVisit(before: map<string, Ciphertext>, coeffs: map<string, UInt64>, remaining: set<string>, name: string)
    requires name in remaining && remaining <= coeffs.Keys
    ensures (before + EncryptAll(coeffs - remaining))[name := Encrypt(Plaintext(coeffs[name]))]
         == before + EncryptAll(coeffs - (remaining - {name}))
  {
  }

  /**
   * An encrypted model whose entries decrypt to the weights gives, for
   * features that all have a weight, the plaintext dot product modulo the
   * plain modulus.
   */
  lemma EncryptedModelPredicts(enc: map<string, Ciphertext>, coeffs: map<string, UInt64>, features: map<string, UInt64>)
    requires forall name :: name in coeffs ==>
      name in enc && Decrypt(enc[name]).coeff == coeffs[name] % PlainModulus
    requires features.Keys <= coeffs.Keys
    ensures Dot(DecryptAll(enc), features) % PlainModulus == Dot(coeffs, features) % PlainModulus
  {
    var decrypted := DecryptAll(enc);
    forall name | name in features
      ensures name in decrypted && name in coeffs
      ensures decrypted[name] % PlainModulus == coeffs[name] % PlainModulus
    {
      var d := Decrypt(enc[name]).coeff;
      assert decrypted[name] == d && d == coeffs[name] % PlainModulus;
      ModUnique(d, 0, d);
    }
    DotCongruent(decrypted, coeffs, features);
  }

  /**
   * When no weight reaches 2^31, no feature value is negative and the exact
   * dot product fits in an `int`, `predictPlaintext` does not wrap around:
   * it is the exact dot product.
   */
  lemma PlaintextPredictionExact(coeffs: map<string, UInt64>, features: map<string, Int32>)
    requires forall name :: name in coeffs ==> coeffs[name] <= Int32Max
    requires forall name :: name in features ==> features[name] >= 0
    requires Dot(coeffs, features) <= Int32Max
    ensures Wrap32(Dot(AsInt(coeffs), features)) == Dot(coeffs, features)
  {
    assert AsInt(coeffs) == coeffs;
    DotNonNegative(coeffs, features);
  }

  /**
   * Both predictions of one encrypted model on the same feature values:
   * under the bounds of `PlaintextPredictionExact`, and with a weight for
   * every feature, `predictEncrypted` succeeds and its result decrypts to
   * the plaintext prediction reduced modulo the plain modulus.
   */
  method ComparePredictions(model: LinearRegression, features: map<string, Int32>)
      returns (plain: Int32, encrypted: Result<Ciphertext, CppException>)
    requires model.Valid() && model.ModelEncrypted()
    requires features.Keys <= model.coefficients.Keys
    requires forall name :: name in model.coefficients ==> model.coefficients[name] <= Int32Max
    requires forall name :: name in features ==> features[name] >= 0
    requires Dot(model.coefficients, features) <= Int32Max
    ensures plain == Dot(model.coefficients, features)
    ensures encrypted.Success? && Decrypt(encrypted.value).coeff == plain % PlainModulus
  {
    var coeffs := model.coefficients;
    var unsignedFeatures: map<string, UInt64> := map name | name in features :: features[name] as UInt64;
    ghost var asUnsigned: map<string, int>, asSigned: map<string, int> := unsignedFeatures, features;
    assert asUnsigned == asSigned;
    plain := model.PredictPlaintext(features);
    encrypted := model.PredictEncrypted(unsignedFeatures);
    PlaintextPredictionExact(coeffs, features);
  }

  /**
   * A weight written in decimal in the model file, negative or not, is read
   * back by `predictPlaintext` as that same `int`, although it is stored as
   * a `uint64_t` in between.
   */
  lemma WeightReadBack(name: string, weight: Int32)
    requires ',' !in name
    ensures ParseRow(name + "," + DecimalString(weight)).Success?
    ensures Wrap32(ParseRow(name + "," + DecimalString(weight)).value.weight) == weight
  {
    var line := name + "," + DecimalString(weight);
    if weight < 0 {
      ParseRowOfNegative(name, weight);
      ToUInt64OfNegative(weight);
    } else {
      assert line + [] == line;
      ParseRowOfDecimal(name, weight, []);
    }
    assert ParseRow(line) == Success(Row(name, ToUInt64(weight)));
    Wrap32OfToUInt64(weight);
  }
}
