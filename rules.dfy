/**
 * The authoring constants of the validator and the sorted rendering of a
 * strand's missing variants.
 */
module Rules {
  import opened Wrappers

  /** REQUIRED_VARIANTS. A lesson's variant may be absent, hence `Option`. */
  const RequiredVariants: set<Option<string>> :=
    {Some("practice"), Some("challenge"), Some("remediation")}

  /** `sorted(REQUIRED_VARIANTS)`, the list quoted in a bad-variant error. */
  const RequiredVariantNames: seq<string> := ["challenge", "practice", "remediation"]

  /** REQUIRED_DIFFICULTIES. */
  const RecognisedDifficulties: set<Option<string>> :=
    {Some("emerging"), Some("developing"), Some("secure"), Some("extending")}

  /** Python's `<` on `str`: lexicographic by code point, a proper prefix first. */
  predicate StrLess(a: string, b: string)
    decreases |a|
  {
    if a == [] then b != []
    else if b == [] then false
    else a[0] < b[0] || (a[0] == b[0] && StrLess(a[1..], b[1..]))
  }

  /** Sorted in ascending order without duplicates. */
  predicate StrictlySorted(s: seq<string>) {
    forall i, j :: 0 <= i < j < |s| ==> StrLess(s[i], s[j])
  }

  lemma {:induction false} StrLessIrreflexive(a: string)
    ensures !StrLess(a, a)
    decreases |a|
  {
    if a != [] {
      StrLessIrreflexive(a[1..]);
    }
  }

  lemma {:induction false} StrLessAsymmetric(a: string, b: string)
    ensures StrLess(a, b) ==> !StrLess(b, a)
    decreases |a|
  {
    if a != [] && b != [] && a[0] == b[0] {
      StrLessAsymmetric(a[1..], b[1..]);
    }
  }

  /** The names of `names`, in their order, whose variant is not in `present`. */
  function KeepAbsent(names: seq<string>, present: set<Option<string>>): seq<string> {
    if names == [] then []
    else (if Some(names[0]) in present then [] else [names[0]]) + KeepAbsent(names[1..], present)
  }

  /** `KeepAbsent` keeps exactly the absent names, and keeps an ascending list ascending. */
  lemma {:induction false} KeepAbsentSpec(names: seq<string>, present: set<Option<string>>)
    ensures forall n :: n in KeepAbsent(names, present) <==> n in names && Some(n) !in present
    ensures StrictlySorted(names) ==> StrictlySorted(KeepAbsent(names, present))
  {
    if names != [] {
      KeepAbsentSpec(names[1..], present);
      var rest := KeepAbsent(names[1..], present);
      if StrictlySorted(names) {
        forall n | n in rest ensures StrLess(names[0], n) {
          var j :| 0 <= j < |names[1..]| && names[1..][j] == n;
          assert names[j + 1] == n;
        }
      }
    }
  }

  /** `sorted(REQUIRED_VARIANTS - variants)`, filtered from the sorted constant list. */
  function MissingVariants(present: set<Option<string>>): seq<string> {
    KeepAbsent(RequiredVariantNames, present)
  }

  /**
   * The missing list holds exactly the required variants absent from
   * `present`, in ascending order.
   */
  lemma MissingVariantsSpec(present: set<Option<string>>)
    ensures StrictlySorted(MissingVariants(present))
    ensures forall n :: n in MissingVariants(present) <==> Some(n) in RequiredVariants && Some(n) !in present
  {
    RequiredVariantNamesSorted();
    KeepAbsentSpec(RequiredVariantNames, present);
  }

  /** Two ascending duplicate-free lists with the same elements are equal. */
  lemma {:induction false} SortedUnique(a: seq<string>, b: seq<string>)
    requires StrictlySorted(a) && StrictlySorted(b)
    requires forall n :: n in a <==> n in b
    ensures a == b
    decreases |a|
  {
    assert |a| == 0 <==> |b| == 0 by {
      if |a| > 0 { assert a[0] in b; }
      if |b| > 0 { assert b[0] in a; }
    }
    if |a| > 0 {
      assert a[0] == b[0] by {
        assert a[0] in b;
        assert b[0] in a;
        StrLessAsymmetric(a[0], b[0]);
        StrLessIrreflexive(a[0]);
      }
      forall n ensures n in a[1..] <==> n in b[1..] {
        StrLessIrreflexive(a[0]);
        if n in a[1..] {
          var i :| 0 <= i < |a[1..]| && a[1..][i] == n;
          assert a[i + 1] == n && StrLess(a[0], n);
          assert n in b && n != b[0];
          var j :| 0 <= j < |b| && b[j] == n;
          assert b[1..][j - 1] == n;
        }
        if n in b[1..] {
          var j :| 0 <= j < |b[1..]| && b[1..][j] == n;
          assert b[j + 1] == n && StrLess(b[0], n);
          assert n in a && n != a[0];
          var i :| 0 <= i < |a| && a[i] == n;
          assert a[1..][i - 1] == n;
        }
      }
      SortedUnique(a[1..], b[1..]);
    }
  }

  /** `MissingVariants` is THE sorted list of the required variants not present. */
  lemma MissingVariantsIsSortedDifference(present: set<Option<string>>, s: seq<string>)
    requires StrictlySorted(s)
    requires forall n :: n in s <==> Some(n) in RequiredVariants && Some(n) !in present
    ensures s == MissingVariants(present)
  {
    MissingVariantsSpec(present);
    SortedUnique(s, MissingVariants(present));
  }

  /** Nothing is reported missing exactly when every required variant is present. */
  lemma MissingVariantsEmptyIff(present: set<Option<string>>)
    ensures MissingVariants(present) == [] <==> RequiredVariants <= present
  {
    var r := MissingVariants(present);
    MissingVariantsSpec(present);
    if r != [] {
      assert r[0] in r;
    } else {
      forall x | x in RequiredVariants ensures x in present {
        assert Some(x.value) == x;
      }
    }
  }

  /** The list quoted in a bad-variant error is `sorted(REQUIRED_VARIANTS)`. */
  lemma RequiredVariantNamesSorted()
    ensures StrictlySorted(RequiredVariantNames)
    ensures forall n :: n in RequiredVariantNames <==> Some(n) in RequiredVariants
  {
    assert StrLess("challenge", "practice");
    assert StrLess("challenge", "remediation");
    assert StrLess("practice", "remediation");
  }
}
