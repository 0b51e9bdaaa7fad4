# Encrypted linear regression, modelled in Dafny

The program computes a linear-regression prediction two ways. Its
`LinearRegression` class loads a map from feature names to integer weights
from a CSV file. `predictPlaintext` computes the prediction in the clear.
`encryptModel` encrypts every weight under the BFV scheme of the SEAL
library, and `predictEncrypted` computes the prediction homomorphically:
each encrypted weight is multiplied by the feature value as a plaintext, and
the products are added into an encryption of zero. The driver, `main`,
decrypts the result and reads its hexadecimal text back as a number.

The model is built from eight modules:

- `Wrappers`: `Option` and `Result`.
- `Cpp`: `int` and `uint64_t` as explicit ranges, two's-complement
  wrap-around, `static_cast<uint64_t>`, and the two standard exceptions the
  core can raise.
- `Numerals`: `seal::util::uint_to_hex_string` and `std::stoi`, in base 10
  and base 16, with their round trips.
- `Seal`: an ideal, noise-free BFV with plain modulus 65537. A ciphertext
  records the operations that built it, and decryption evaluates that
  record modulo 65537.
- `SparseDot`: the sparse dot product both predictions compute, with its
  independence from iteration order.
- `Csv`: how `loadCoefficients` cuts and reads each row, and what a whole
  load leaves in the map.
- `LinearRegressionModel`: the class itself. Its two maps are fields. The
  four operations are methods whose loops are proved against the
  functions above.
- `Driver`: `main` from loading to the printed number.

The central result is `LinearRegression.PredictEncrypted`, together with
`Driver.RunDriver`. When every feature has an encrypted weight, the
decrypted prediction is the dot product of the weights and the feature
values modulo 65537. When some feature has none, the call throws
`std::out_of_range`.

## Model

| member | source | states |
|---|---|---|
| Cpp.Wrap32 | seal/src/linear_regression.cpp:46-47 | the `int` result is congruent to the exact value modulo 2^32, and equal to it when it fits in an `int` |
| Cpp.ToUInt64 | seal/src/linear_regression.cpp:28 | `static_cast<uint64_t>` is congruent to its argument modulo 2^64 and leaves a value in range unchanged |
| Cpp.Wrap32Add | seal/src/linear_regression.cpp:47 | wrapping after every `+=` gives the wrap of the exact sum |
| Cpp.ToUInt64OfNegative | seal/src/linear_regression.cpp:28 | a negative weight is stored as itself plus 2^64 |
| Cpp.Wrap32OfToUInt64 | seal/src/linear_regression.cpp:28-46 | an `int` weight stored as `uint64_t` and read back as `int` is the original weight |
| Numerals.NumeralValue | seal/src/linear_regression.cpp:62 | `uint_to_hex_string` writes a non-empty run of hexadecimal digits whose value is the input |
| Numerals.NumeralLeadingDigit | seal/src/linear_regression.cpp:62 | the hexadecimal text has no leading zero, except "0" for zero |
| Numerals.SkipSpace | seal/src/linear_regression.cpp:28 | `std::stoi` skips exactly the leading white space: everything it drops is white space, and what remains is a suffix that does not start with white space |
| Numerals.DigitRun | seal/src/linear_regression.cpp:28 | the digits `std::stoi` reads are the longest prefix of digits of the base |
| Numerals.Stoi | seal/src/linear_regression.cpp:28 | after white space, one optional sign and (base 16) a "0x" prefix: no digit raises `invalid_argument`, a digit run whose signed value does not fit in an `int` raises `out_of_range`, and otherwise the result is that signed value |
| Numerals.ReadDigits | seal/src/linear_regression.cpp:28 | raises `invalid_argument` exactly when no digit starts the text, `out_of_range` exactly when the signed value of the leading digit run leaves the `int` range, and otherwise returns that value |
| Numerals.ReadDigitsOfRun | seal/src/linear_regression.cpp:28 | a full digit run followed by a non-digit reads as its signed value |
| Numerals.DigitRunAppend | seal/src/linear_regression.cpp:28 | reading stops exactly at the first non-digit after a run of digits |
| Numerals.StoiUnsigned | seal/src/main.cpp:41 | text without leading white space, sign or "0x" prefix is read from its first character |
| Numerals.PlainDigits | seal/src/main.cpp:41 | a digit string with no leading zero is read with no prefix stripped |
| Numerals.StoiOfDigits | seal/src/main.cpp:41 | such a digit string reads as its value when that value fits in an `int` |
| Numerals.StoiNumeral | seal/src/main.cpp:41 | `std::stoi(text, nullptr, 16)` reads back every value up to `INT_MAX` from its hexadecimal text |
| Numerals.StoiDecimal | seal/src/linear_regression.cpp:28 | `std::stoi` reads back the decimal text of every `int`, negative ones included |
| Numerals.StoiIgnoresSuffix | seal/src/linear_regression.cpp:27-28 | text after the digits (a further comma and field, say) does not change the value read |
| Numerals.StoiTooLarge | seal/src/linear_regression.cpp:28 | the decimal text of a value above `INT_MAX` raises `out_of_range` |
| Seal.ParsePlaintext | seal/src/linear_regression.cpp:65 | a plaintext is built exactly from a non-empty hexadecimal string whose value fits in 64 bits, and it holds that value |
| Seal.ParsePlaintextOfHex | seal/src/linear_regression.cpp:91-92 | the plaintext built from `uint_to_hex_string(&v, 1)` holds `v` |
| Seal.PlaintextOfValue | seal/src/linear_regression.cpp:62-65 | writing a value in hexadecimal and constructing a plaintext from that text gives the plaintext holding the value |
| Seal.Decrypt | seal/src/main.cpp:38-40 | decryption yields a coefficient below the plain modulus |
| Seal.EncryptZero | seal/src/linear_regression.cpp:80 | `encrypt_zero` decrypts to 0 |
| Seal.Encrypt | seal/src/linear_regression.cpp:68 | `encrypt` decrypts to the plaintext modulo 65537 |
| Seal.MultiplyPlain | seal/src/linear_regression.cpp:93 | `multiply_plain` decrypts to the product modulo 65537 and costs one level and one plaintext product |
| Seal.Add | seal/src/linear_regression.cpp:94 | `add_inplace` decrypts to the sum modulo 65537, keeps the deeper operand's depth and adds the product counts |
| Seal.DecodeDecrypted | seal/src/main.cpp:38-41 | the printed number is exactly the decrypted coefficient |
| Seal.MultiplyAccumulate | seal/src/linear_regression.cpp:93-94 | one multiply-and-add adds weight times value to what the accumulator decrypts to, modulo 65537 |
| Seal.MultiplyAccumulateCost | seal/src/linear_regression.cpp:93-94 | one multiply-and-add spends one plaintext product and keeps the depth at most one |
| SparseDot.DotRemove | seal/src/linear_regression.cpp:39-49 | the sum over the features is the same whichever feature is taken first, so the order `std::map` visits them in does not matter |
| SparseDot.DotVisit | seal/src/linear_regression.cpp:39-49 | visiting one more feature adds exactly that feature's term |
| SparseDot.DotSkipsUnknown | seal/src/linear_regression.cpp:44 | a feature without a weight does not change the plaintext prediction |
| SparseDot.DotOverCommonNames | seal/src/linear_regression.cpp:44-48 | only the features that have a weight contribute |
| SparseDot.DotNonNegative | seal/src/linear_regression.cpp:47 | non-negative weights and values give a non-negative sum |
| SparseDot.DotCongruent | seal/src/linear_regression.cpp:89-94 | weights congruent modulo 65537 give predictions congruent modulo 65537 |
| Csv.FirstComma | seal/src/linear_regression.cpp:26 | `getline(ss, featureName, ',')` stops at the first comma, or takes the whole line when there is none |
| Csv.ParseRow | seal/src/linear_regression.cpp:24-28 | an accepted row's name is the comma-free text before the first comma, and a line without a comma raises `invalid_argument` |
| Csv.ParseRowAfterName | seal/src/linear_regression.cpp:24-28 | the weight is what `std::stoi` reads from everything after the first comma |
| Csv.ParseRowOfDecimal | seal/src/linear_regression.cpp:24-28 | a row of a name and a non-negative decimal weight, followed by any non-digit text, is read as that name and weight |
| Csv.ParseRowOfNegative | seal/src/linear_regression.cpp:28 | a row with a negative weight is stored as that weight plus 2^64 |
| Csv.ParseRowRejectsNonNumeric | seal/src/linear_regression.cpp:24-28 | a weight whose text, after white space and one optional sign, does not start with a decimal digit raises `invalid_argument` |
| Csv.ParseRowRejectsTooLarge | seal/src/linear_regression.cpp:24-28 | a weight above `INT_MAX` raises `out_of_range` |
| Csv.FirstCommaAfter | seal/src/linear_regression.cpp:26 | the name ends at the first comma |
| Csv.DataRows | seal/src/linear_regression.cpp:21-22 | the first line is discarded as the header |
| Csv.ParseRows | seal/src/linear_regression.cpp:22-28 | every data row is read independently of the others |
| Csv.StoreSucceeds | seal/src/linear_regression.cpp:22-29 | a load completes exactly when every row is accepted |
| Csv.FirstRejected | seal/src/linear_regression.cpp:22-29 | the rows before the first rejected one are all accepted, and that row is rejected |
| Csv.StoreStopsAtFirstError | seal/src/linear_regression.cpp:22-29 | a load throws exactly when some row is rejected, with that row's exception, and keeps the rows before it |
| Csv.StoreKeepsUnnamed | seal/src/linear_regression.cpp:28 | a name no row carries keeps the weight it had before the load |
| Csv.StoreLastWins | seal/src/linear_regression.cpp:28 | after a complete load, a name holds the weight of the last row carrying it |
| Csv.StoreNames | seal/src/linear_regression.cpp:22-29 | after a complete load, the names are the previous names plus those of the rows |
| LinearRegressionModel.AsInt | seal/src/linear_regression.cpp:46 | `predictPlaintext` sees every weight as its low 32 bits |
| LinearRegressionModel.EncryptAll | seal/src/linear_regression.cpp:57-70 | the encrypted model has the same names, each a fresh encryption decrypting to the weight modulo 65537 |
| LinearRegressionModel.LinearRegression.constructor | seal/src/linear_regression.cpp:6 | a new model holds no weights and no encrypted weights |
| LinearRegressionModel.LinearRegression.LoadCoefficients | seal/src/linear_regression.cpp:8-32 | an unopenable file returns -1 and changes nothing; otherwise the data rows are stored in order, the load returns 0 or throws the first rejected row's exception, and the encrypted model is untouched |
| LinearRegressionModel.LinearRegression.PredictPlaintext | seal/src/linear_regression.cpp:34-52 | the result is the 32-bit wrap of the sparse dot product of the weights (as `int`) and the features; no features give 0 |
| LinearRegressionModel.LinearRegression.EncryptModel | seal/src/linear_regression.cpp:54-73 | every weight gets an encryption that decrypts to it modulo 65537, other entries and the weights are untouched, and it returns 0 |
| LinearRegressionModel.LinearRegression.PredictEncrypted | seal/src/linear_regression.cpp:75-98 | throws `out_of_range` exactly when a feature has no encrypted weight; otherwise decrypts to the dot product modulo 65537, with one plaintext product per feature at depth one |
| LinearRegressionModel.AccumulateFeature | seal/src/linear_regression.cpp:87-94 | one loop iteration adds one feature's term and one plaintext product to the accumulator |
| LinearRegressionModel.AccumulatesNothing | seal/src/linear_regression.cpp:78-80 | the accumulator starts as an encryption of zero covering no feature |
| LinearRegressionModel.AccumulatesEverything | seal/src/linear_regression.cpp:85-97 | after the loop, the accumulator covers every feature |
| LinearRegressionModel.EncryptAllVisit | seal/src/linear_regression.cpp:69 | storing one more encrypted weight extends the encrypted model by that name |
| LinearRegressionModel.EncryptedModelPredicts | seal/src/linear_regression.cpp:75-98 | with an encrypted model that matches the weights, the encrypted prediction decrypts to the plaintext dot product modulo 65537 |
| LinearRegressionModel.PlaintextPredictionExact | seal/src/linear_regression.cpp:34-52 | for weights below 2^31, non-negative values and a sum that fits in an `int`, the plaintext prediction does not wrap: it is the exact dot product |
| LinearRegressionModel.ComparePredictions | seal/src/linear_regression.cpp:34-98 | under those bounds, and with a weight for every feature, `predictEncrypted` on an encrypted model succeeds and decrypts to the `predictPlaintext` result modulo 65537 |
| LinearRegressionModel.WeightReadBack | seal/src/linear_regression.cpp:28-46 | a weight written in decimal, negative or not, is accepted, stored as `uint64_t`, and read back by `predictPlaintext` as the same `int` |
| Driver.LoadedWeights | seal/src/main.cpp:13 | with no file the program goes on with no weights; otherwise it goes on with exactly the map the data rows load into an empty model, or stops with the exception that load raises |
| Driver.RunDriver | seal/src/main.cpp:11-41 | the printed number is the dot product of the loaded weights and the features modulo 65537 when every feature has a weight, and otherwise `out_of_range` is thrown |

## Left out

- File access, console output and `enterFeatureValues`: the model file is a parameter holding its lines, `None` when it cannot be opened, and the features are a map parameter.
- Key generation, key files and `loadKeys` (`seal/src/interface.cpp`): keys play no part in the ideal scheme, so they are not modelled.
- The empty `predictEncrypted` in `seal/src/interface.cpp` is not part of this model.
- `printCoefficients` (console output only) and the unused `base64Coefficients` field.
- SEAL internals: randomness, noise growth and the noise budget, the ciphertext size, key switching, and the library's own validity checks. Real SEAL rejects a plaintext coefficient of 65537 or more with `std::invalid_argument` in `encrypt` and `multiply_plain`. The model reduces such a coefficient modulo 65537 instead.
- A consequence of that choice: 2^64 is congruent to 1 modulo 65537. A negative weight, stored as itself plus 2^64, therefore decrypts to the weight plus 1 in the model, where real SEAL would throw.
- Seal.Encrypt: deterministic, so two encryptions of the same value are equal terms. Semantic security is not modelled.
- Seal.ParsePlaintext: only constant polynomials are read. The `"c x^i + ..."` polynomial syntax never occurs in this program.
- `std::map` iteration order: the loops take the remaining keys in any order. `SparseDot.DotRemove` shows that no result depends on it.
- LinearRegressionModel.LinearRegression.PredictPlaintext: signed overflow is undefined behaviour in C++. It is modelled as the two's-complement wrap-around the usual compilers produce.
- `std::stoi` for a locale other than "C": white space is the six ASCII characters `isspace` accepts there.
- LinearRegressionModel.LinearRegression.PredictEncrypted: a feature without an encrypted weight throws `std::out_of_range`, because the code looks it up with `std::map::at` (`seal/src/linear_regression.cpp:89`). Skipping such features, as `predictPlaintext` does, would be the other reasonable policy. The model follows the code. `SparseDot.DotSkipsUnknown` states the skipping behaviour only for `predictPlaintext`.
- LinearRegressionModel.LinearRegression.PredictEncrypted: a feature value of 0 becomes the zero plaintext. SEAL's `multiply_plain` then produces a transparent ciphertext, which the library rejects by throwing `std::logic_error` in its default build. The model treats the product like any other and goes on, so `PredictEncrypted`, `ComparePredictions` and `Driver.RunDriver` do not cover this exception.
- LinearRegressionModel.ComparePredictions and Driver.RunDriver: for the same reason, a zero feature value succeeds in the model where the real program throws `std::logic_error`.
- LinearRegressionModel.LinearRegression.LoadCoefficients: the code takes any text after the weight's digits (`"a,12,3"` stores 12). A stricter reader would reject a row that does not split into exactly two fields. The model follows the code.
- LinearRegressionModel.LinearRegression.LoadCoefficients: an unopenable file makes the code return -1. `main` ignores that value and goes on with an empty model, rather than stopping. The model follows the code.
