/**
 * The program's driver, `main`: load the model, encrypt it, predict on
 * encrypted feature values, decrypt the prediction and read it back as a
 * number. Key generation, key files and the console are not represented:
 * the model file is given by its lines and the feature values as a map.
 */
module Driver {
  import opened Wrappers
  import opened Cpp
  import opened Seal
  import opened SparseDot
  import opened Csv
  import opened LinearRegressionModel

  /**
   * The weights `main` works with after `loadCoefficients`: none when the
   * file cannot be opened (the -1 it returns is ignored), otherwise those of
   * the data rows, or the exception a rejected row raises.
   */
  function LoadedWeights(file: Option<seq<string>>): (r: Result<map<string, UInt64>, CppException>)
    ensures file.None? ==> r == Success(map[])
    ensures file.Some? ==> (r.Success? <==> LoadRows(map[], DataRows(file.value)).error.None?)
    ensures file.Some? && r.Success? ==> r.value == LoadRows(map[], DataRows(file.value)).coefficients
    ensures file.Some? && r.Failure? ==> LoadRows(map[], DataRows(file.value)).error == Some(r.error)
  {
    if file.None? then Success(map[])
    else
      var loaded := LoadRows(map[], DataRows(file.value));
      if loaded.error.None? then Success(loaded.coefficients) else Failure(loaded.error.value)
  }

  /**
   * `main` from the loaded model to the printed prediction. Whatever the
   * file holds, the number printed is the dot product of the loaded weights
   * and the feature values modulo the plain modulus, provided every feature
   * has a weight; otherwise `predictEncrypted` throws `std::out_of_range`.
   */
  method RunDriver(file: Option<seq<string>>, features: map<string, UInt64>) returns (printed: Result<int, CppException>)
    ensures LoadedWeights(file).Failure? ==> printed == Failure(LoadedWeights(file).error)
    ensures LoadedWeights(file).Success? ==>
      var weights := LoadedWeights(file).value;
      printed == if features.Keys <= weights.Keys then Success(Dot(weights, features) % PlainModulus)
                 else Failure(OutOfRange)
  {
    var model := new LinearRegression();
    var outcome := model.LoadCoefficients(file);
    if outcome.Threw? {
      return Failure(outcome.error);
    }
    var status := model.EncryptModel();
    var prediction := model.PredictEncrypted(features);
    if prediction.Failure? {
      return Failure(prediction.error);
    }
    printed := DecodeDecrypted(prediction.value);
  }
}
