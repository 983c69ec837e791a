/**
 * UniqueItemsValidator: a bean-validation constraint that, once switched on by
 * its annotation, accepts a list only when no two of its elements are equal.
 */
module UniqueItemsValidation {
  import opened Wrappers

  /** The @UniqueItems annotation: its `value`, true unless given. */
  datatype UniqueItems = UniqueItems(value: bool)

  /** The annotation as written without arguments. */
  const DefaultUniqueItems := UniqueItems(true)

  /** No two positions of `s` hold equal elements. */
  predicate Distinct<T(==)>(s: seq<T>)
  {
    forall i, j :: 0 <= i < j < |s| ==> s[i] != s[j]
  }

  /** The elements of `s` as a set (new HashSet(source)). */
  function Elements<T>(s: seq<T>): set<T>
  {
    set x | x in s
  }

  /** A list has as many distinct elements as positions exactly when no element repeats. */
  lemma {:induction false} ElementsCount<T>(s: seq<T>)
    ensures |Elements(s)| <= |s|
    ensures |Elements(s)| == |s| <==> Distinct(s)
  {
    if |s| > 0 {
      var rest := s[1..];
      ElementsCount(rest);
      assert Elements(s) == {s[0]} + Elements(rest);
      assert forall i :: 1 <= i < |s| ==> s[i] == rest[i - 1];
      if s[0] in rest {
        assert Elements(s) == Elements(rest);
        var k :| 0 <= k < |rest| && rest[k] == s[0];
        assert s[0] == s[k + 1];
      } else {
        assert s[0] !in Elements(rest);
        assert Distinct(s) <==> Distinct(rest);
      }
    }
  }

  class UniqueItemsValidator {
    /** Whether distinctness is enforced; false until initialize is called. */
    var unique: bool

    constructor ()
      ensures !unique
    {
      unique := false;
    }

    /** initialize: takes the flag from the annotation and changes nothing else. */
    method Initialize(annotation: UniqueItems)
      modifies this
      ensures unique == annotation.value
    {
      unique := annotation.value;
    }

    /**
     * isValid: a null or empty list, or any list while the flag is off, is
     * valid; otherwise a list is valid exactly when its elements are pairwise
     * distinct. Neither the list nor the flag is changed.
     */
    method IsValid<T(==)>(source: Option<seq<T>>) returns (valid: bool)
      ensures valid <==> !unique || source.None? || Distinct(source.value)
    {
      valid := !unique || source.None? || |source.value| == 0 || |Elements(source.value)| == |source.value|;
      if source.Some? {
        ElementsCount(source.value);
      }
    }
  }

  /** A freshly built validator accepts every list, repeated elements included. */
  method FreshValidatorAcceptsAll<T(==)>(source: Option<seq<T>>) returns (valid: bool)
    ensures valid
  {
    var v := new UniqueItemsValidator();
    valid := v.IsValid(source);
  }

  /** Initialized with the annotation's default, a validator rejects every list with a repeated element. */
  method DefaultValidatorRejectsRepeats<T(==)>(s: seq<T>, i: nat, j: nat) returns (valid: bool)
    requires i < j < |s| && s[i] == s[j]
    ensures !valid
  {
    var v := new UniqueItemsValidator();
    v.Initialize(DefaultUniqueItems);
    valid := v.IsValid(Some(s));
  }
}
