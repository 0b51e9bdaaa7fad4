/**
 * The sparse dot product both prediction routines compute: the sum, over the
 * feature names that also have a coefficient, of coefficient times feature
 * value. Names without a coefficient contribute nothing.
 */
module SparseDot {
  import opened Seal

  /** The contribution of one feature. */
  function Term(coeffs: map<string, int>, name: string, value: int): int {
    if name in coeffs then coeffs[name] * value else 0
  }

  /** The sum of the terms of every feature, taken in no particular order. */
  ghost function Dot(coeffs: map<string, int>, features: map<string, int>): int
    decreases |features|
  {
    if features == map[] then 0
    else
      var name :| name in features;
      Term(coeffs, name, features[name]) + Dot(coeffs, features - {name})
  }

  /** Any feature can be taken out of the sum first: the order of summation does not matter. */
  lemma {:induction false} DotRemove(coeffs: map<string, int>, features: map<string, int>, name: string)
    requires name in features
    ensures Dot(coeffs, features) == Term(coeffs, name, features[name]) + Dot(coeffs, features - {name})
    decreases |features|
  {
    var first :| first in features && Dot(coeffs, features)
      == Term(coeffs, first, features[first]) + Dot(coeffs, features - {first});
    if first != name {
      var rest := features - {first} - {name};
      DotRemove(coeffs, features - {first}, name);
      assert (features - {first}) - {name} == rest;
      DotRemove(coeffs, features - {name}, first);
      assert (features - {name}) - {first} == rest;
    }
  }

  /**
   * The step of a loop that visits the features one name at a time: moving
   * `name` from the names still to visit to the names done adds its term.
   */
  lemma DotVisit(coeffs: map<string, int>, features: map<string, int>, remaining: set<string>, name: string)
    requires name in remaining && remaining <= features.Keys
    ensures Dot(coeffs, features - (remaining - {name}))
         == Term(coeffs, name, features[name]) + Dot(coeffs, features - remaining)
  {
    var done' := features - (remaining - {name});
    assert done' - {name} == features - remaining;
    DotRemove(coeffs, done', name);
  }

  /** A feature that has no coefficient is skipped: adding it changes nothing. */
  lemma DotSkipsUnknown(coeffs: map<string, int>, features: map<string, int>, name: string, value: int)
    requires name !in coeffs
    ensures Dot(coeffs, features[name := value]) == Dot(coeffs, features)
  {
    DotRemove(coeffs, features[name := value], name);
    assert features[name := value] - {name} == features - {name};
    if name in features {
      DotRemove(coeffs, features, name);
    } else {
      assert features - {name} == features;
    }
  }

  /** Only the features that have a coefficient count. */
  lemma {:induction false} DotOverCommonNames(coeffs: map<string, int>, features: map<string, int>)
    ensures Dot(coeffs, features) == Dot(coeffs, map name | name in features && name in coeffs :: features[name])
    decreases |features|
  {
    var common := map name | name in features && name in coeffs :: features[name];
    if features != map[] {
      var name :| name in features;
      DotRemove(coeffs, features, name);
      DotOverCommonNames(coeffs, features - {name});
      var rest := map n | n in features - {name} && n in coeffs :: (features - {name})[n];
      if name in coeffs {
        DotRemove(coeffs, common, name);
        assert common - {name} == rest;
      } else {
        assert common == rest;
      }
    }
  }

  /** The sum of products of non-negative numbers is non-negative. */
  lemma {:induction false} DotNonNegative(coeffs: map<string, int>, features: map<string, int>)
    requires forall name :: name in coeffs ==> coeffs[name] >= 0
    requires forall name :: name in features ==> features[name] >= 0
    ensures Dot(coeffs, features) >= 0
    decreases |features|
  {
    if features != map[] {
      var name :| name in features;
      var rest := features - {name};
      assert forall other :: other in rest ==> rest[other] >= 0;
      DotNonNegative(coeffs, rest);
      DotRemove(coeffs, features, name);
      assert Term(coeffs, name, features[name]) >= 0 by {
        if name in coeffs {
          assert coeffs[name] >= 0 && features[name] >= 0;
        }
      }
    }
  }

  /**
   * Coefficients that agree modulo the plain modulus on every feature give
   * dot products that agree modulo the plain modulus.
   */
  lemma {:induction false} DotCongruent(c1: map<string, int>, c2: map<string, int>, features: map<string, int>)
    requires forall name :: name in features ==> (name in c1 <==> name in c2)
    requires forall name :: name in features && name in c1 ==> c1[name] % PlainModulus == c2[name] % PlainModulus
    ensures Dot(c1, features) % PlainModulus == Dot(c2, features) % PlainModulus
    decreases |features|
  {
    if features != map[] {
      var name :| name in features;
      var rest := features - {name};
      DotRemove(c1, features, name);
      DotRemove(c2, features, name);
      DotCongruent(c1, c2, rest);
      var t1, t2 := Term(c1, name, features[name]), Term(c2, name, features[name]);
      if name in c1 {
        ModMulCongruent(c1[name], c2[name], features[name]);
      }
      ModAddCongruent(t1, t2, Dot(c1, rest), Dot(c2, rest));
    }
  }
}
