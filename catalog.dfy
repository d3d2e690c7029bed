/**
 * What `validate_lessons` returns for a whole catalog: which errors, in
 * which order, and when there are none.
 */
module CatalogProperties {
  import opened Wrappers
  import opened Curriculum
  import opened Rules
  import opened Validation
  import opened ValidationProperties
  import opened StrandProperties

  /** The per-lesson errors are those some lesson raises. */
  lemma {:induction false} AllLessonErrorsMembers(ls: seq<Lesson>)
    ensures forall e :: e in AllLessonErrors(ls) <==> exists i :: 0 <= i < |ls| && Raises(ls[i], e)
  {
    if ls != [] {
      var n := |ls|;
      var init, last := ls[..n - 1], ls[n - 1];
      AllLessonErrorsMembers(init);
      LessonErrorsSplit(AllLessonErrors(init), last);
      LessonErrorsExact(last);
      assert AllLessonErrors(ls) == AllLessonErrors(init) + LessonErrors(last);
      forall e ensures e in AllLessonErrors(ls) <==> exists i :: 0 <= i < n && Raises(ls[i], e) {
        if e in AllLessonErrors(init) {
          var i :| 0 <= i < n - 1 && Raises(init[i], e);
          assert ls[i] == init[i];
        }
        if e in LessonErrors(last) {
          assert Raises(ls[n - 1], e);
        }
        if exists i :: 0 <= i < n && Raises(ls[i], e) {
          var i :| 0 <= i < n && Raises(ls[i], e);
          if i < n - 1 {
            assert init[i] == ls[i];
          }
        }
      }
    }
  }

  /** The errors of lesson `i` sit between those of the lessons before and after it. */
  lemma LessonErrorsInPlace(ls: seq<Lesson>, i: nat)
    requires i < |ls|
    ensures AllLessonErrors(ls) == AllLessonErrors(ls[..i]) + LessonErrors(ls[i]) + AllLessonErrors(ls[i + 1..])
  {
    assert ls == ls[..i] + ([ls[i]] + ls[i + 1..]);
    AllLessonErrorsAppend(ls[..i], [ls[i]] + ls[i + 1..]);
    AllLessonErrorsAppend([ls[i]], ls[i + 1..]);
    var single := [ls[i]];
    assert single[..|single| - 1] == [];
    assert LessonsChecks([], single) == LessonAndItemChecks(LessonsChecks([], []), ls[i]);
    AppendAssoc(AllLessonErrors(ls[..i]), LessonErrors(ls[i]), AllLessonErrors(ls[i + 1..]));
  }

  /**
   * Every error of the catalog is raised by one of its lessons or by one of
   * its groups, and every such error is reported.
   */
  lemma ValidateExact(c: Catalog)
    ensures forall e :: e in Validate(c) <==>
      (exists i :: 0 <= i < |LessonsOf(c)| && Raises(LessonsOf(c)[i], e)) || StrandRaises(LessonsOf(c), e)
  {
    var ls := LessonsOf(c);
    ValidateSplit(c);
    AllLessonErrorsMembers(ls);
    StrandErrorsExact(ls);
  }

  /** In `own + strands`, strand errors come last and keep the order of `strands`. */
  lemma StrandsLast(ls: seq<Lesson>, own: seq<ValidationError>, strands: seq<ValidationError>)
    requires forall e :: e in own ==> !e.StrandMissing?
    requires StrandOrdered(ls, strands)
    ensures forall p, q :: 0 <= p < q < |own + strands| ==>
      var r := own + strands;
      r[p].StrandMissing? ==> r[q].StrandMissing? && FirstIndex(ls, GroupOf(r[p])) < FirstIndex(ls, GroupOf(r[q]))
  {
    var r := own + strands;
    forall p, q | 0 <= p < q < |r|
      ensures r[p].StrandMissing? ==> r[q].StrandMissing? && FirstIndex(ls, GroupOf(r[p])) < FirstIndex(ls, GroupOf(r[q]))
    {
      if p < |own| {
        assert r[p] == own[p] && own[p] in own;
      } else {
        assert r[p] == strands[p - |own|] && r[q] == strands[q - |own|];
        assert strands[q - |own|] in strands;
      }
    }
  }

  /** No lesson raises a strand error. */
  lemma NoStrandErrorFromLessons(ls: seq<Lesson>)
    ensures forall e :: e in AllLessonErrors(ls) ==> !e.StrandMissing?
  {
    AllLessonErrorsMembers(ls);
    forall e | e in AllLessonErrors(ls) ensures !e.StrandMissing? {
      var i :| 0 <= i < |ls| && Raises(ls[i], e);
    }
  }

  /**
   * Lesson errors come first, then the strand errors, and those in the order
   * in which each group's first lesson appears.
   */
  lemma ValidateOrdered(c: Catalog)
    ensures forall p, q :: 0 <= p < q < |Validate(c)| ==>
      var r := Validate(c);
      r[p].StrandMissing? ==>
        r[q].StrandMissing? && FirstIndex(LessonsOf(c), GroupOf(r[p])) < FirstIndex(LessonsOf(c), GroupOf(r[q]))
  {
    var ls := LessonsOf(c);
    ValidateSplit(c);
    NoStrandErrorFromLessons(ls);
    StrandErrorsOrdered(ls);
    StrandsLast(ls, AllLessonErrors(ls), StrandErrors(ls));
  }

  /** A lesson passes its seven lesson-level checks. */
  predicate LevelPasses(l: Lesson) {
    && Filled(l.objectives)
    && l.variant in RequiredVariants
    && l.difficulty in RecognisedDifficulties
    && Filled(l.hints)
    && Filled(l.scaffolds)
    && HasKey(l.masteryRule, "scoreThreshold")
    && HasKey(l.masteryRule, "minimumItems")
  }

  /** Every item has hints and scaffolds. */
  predicate ItemsPass(items: seq<Item>) {
    forall j :: 0 <= j < |items| ==> Filled(items[j].hints) && Filled(items[j].scaffolds)
  }

  /** A lesson passes every lesson-level and item-level check. */
  predicate LessonPasses(l: Lesson) {
    LevelPasses(l) && ItemsPass(ItemsOf(l))
  }

  /** A lesson yields no lesson-level error exactly when it passes those seven checks. */
  lemma LevelPassesIff(l: Lesson)
    ensures LessonLevelErrors(l) == [] <==> LevelPasses(l)
  {
    var lid, own := LessonId(l), LessonLevelErrors(l);
    LessonLevelMembers(l);
    EmptyIffNoMember(own);
    if !Filled(l.objectives) {
      assert ObjectivesEmpty(lid) in own;
    } else if l.variant !in RequiredVariants {
      assert BadVariant(lid, l.variant, RequiredVariantNames) in own;
    } else if l.difficulty !in RecognisedDifficulties {
      assert BadDifficulty(lid, l.difficulty) in own;
    } else if !Filled(l.hints) {
      assert LessonHintsEmpty(lid) in own;
    } else if !Filled(l.scaffolds) {
      assert LessonScaffoldsEmpty(lid) in own;
    } else if !HasKey(l.masteryRule, "scoreThreshold") {
      assert MissingScoreThreshold(lid) in own;
    } else if !HasKey(l.masteryRule, "minimumItems") {
      assert MissingMinimumItems(lid) in own;
    }
  }

  /** The items yield no error exactly when every item has hints and scaffolds. */
  lemma ItemsPassIff(lid: string, items: seq<Item>)
    ensures ItemErrors(lid, items) == [] <==> ItemsPass(items)
  {
    ItemErrorsExact(lid, items);
    ItemErrorsShape(lid, items);
    EmptyIffNoMember(ItemErrors(lid, items));
    if !ItemsPass(items) {
      var j :| 0 <= j < |items| && !(Filled(items[j].hints) && Filled(items[j].scaffolds));
      if !Filled(items[j].hints) {
        assert ItemMissingHint(lid, j + 1) in ItemErrors(lid, items);
      } else {
        assert ItemMissingScaffold(lid, j + 1) in ItemErrors(lid, items);
      }
    }
  }

  /** A lesson yields no error exactly when it passes every check. */
  lemma LessonPassesIff(l: Lesson)
    ensures LessonErrors(l) == [] <==> LessonPasses(l)
  {
    LessonErrorsSplit([], l);
    LevelPassesIff(l);
    ItemsPassIff(LessonId(l), ItemsOf(l));
  }

  /** A lesson that fails a check makes the result non-empty. */
  lemma LessonFailureReported(c: Catalog, i: nat)
    requires i < |LessonsOf(c)| && !LessonPasses(LessonsOf(c)[i])
    ensures Validate(c) != []
  {
    var l := LessonsOf(c)[i];
    LessonPassesIff(l);
    LessonErrorsExact(l);
    var e := LessonErrors(l)[0];
    assert e in LessonErrors(l);
    ValidateExact(c);
    assert e in Validate(c);
  }

  /** A lesson whose group's variant set is not the required set makes the result non-empty. */
  lemma GroupFailureReported(c: Catalog, i: nat)
    requires i < |LessonsOf(c)| && VariantsOf(LessonsOf(c), KeyOf(LessonsOf(c)[i])) != RequiredVariants
    ensures Validate(c) != []
  {
    var ls := LessonsOf(c);
    var k := KeyOf(ls[i]);
    assert HasGroup(ls, k);
    ValidateExact(c);
    assert StrandMissing(k.0, k.1, MissingVariants(VariantsOf(ls, k))) in Validate(c);
  }

  /** Lessons that all pass every check yield no per-lesson error. */
  lemma {:induction false} PassingLessonsNoErrors(ls: seq<Lesson>)
    requires forall i :: 0 <= i < |ls| ==> LessonPasses(ls[i])
    ensures AllLessonErrors(ls) == []
  {
    if ls != [] {
      var init, last := ls[..|ls| - 1], ls[|ls| - 1];
      assert forall i :: 0 <= i < |init| ==> init[i] == ls[i];
      PassingLessonsNoErrors(init);
      LessonPassesIff(last);
      LessonErrorsSplit(AllLessonErrors(init), last);
    }
  }

  /** Groups whose variant sets are all exactly the required set yield no strand error. */
  lemma CompleteGroupsNoErrors(ls: seq<Lesson>)
    requires forall i :: 0 <= i < |ls| ==> VariantsOf(ls, KeyOf(ls[i])) == RequiredVariants
    ensures StrandErrors(ls) == []
  {
    GroupChecksMembers(ls, GroupKeys(ls));
    GroupKeysFirstSeen(ls);
    forall k | k in GroupKeys(ls) ensures GroupVariants(ls, k) == RequiredVariants {
      GroupVariantsMembers(ls, k);
      var i :| 0 <= i < |ls| && KeyOf(ls[i]) == k;
    }
    EmptyIffNoMember(StrandErrors(ls));
  }

  /** When every lesson and every group passes, nothing is reported. */
  lemma AllPassNoErrors(c: Catalog)
    requires forall i :: 0 <= i < |LessonsOf(c)| ==> LessonPasses(LessonsOf(c)[i])
    requires forall i :: 0 <= i < |LessonsOf(c)| ==> VariantsOf(LessonsOf(c), KeyOf(LessonsOf(c)[i])) == RequiredVariants
    ensures Validate(c) == []
  {
    var ls := LessonsOf(c);
    ValidateSplit(c);
    PassingLessonsNoErrors(ls);
    CompleteGroupsNoErrors(ls);
  }

  /**
   * The catalog yields no error exactly when every lesson passes every check
   * and the variant set of every lesson's group is exactly the required set.
   */
  lemma NoErrorsIff(c: Catalog)
    ensures Validate(c) == [] <==>
      && (forall i :: 0 <= i < |LessonsOf(c)| ==> LessonPasses(LessonsOf(c)[i]))
      && (forall i :: 0 <= i < |LessonsOf(c)| ==> VariantsOf(LessonsOf(c), KeyOf(LessonsOf(c)[i])) == RequiredVariants)
  {
    var ls := LessonsOf(c);
    if exists i :: 0 <= i < |ls| && !LessonPasses(ls[i]) {
      var i :| 0 <= i < |ls| && !LessonPasses(ls[i]);
      LessonFailureReported(c, i);
    } else if exists i :: 0 <= i < |ls| && VariantsOf(ls, KeyOf(ls[i])) != RequiredVariants {
      var i :| 0 <= i < |ls| && VariantsOf(ls, KeyOf(ls[i])) != RequiredVariants;
      GroupFailureReported(c, i);
    } else {
      AllPassNoErrors(c);
    }
  }

  /**
   * Every group holding an absent or unrecognised variant is reported, even
   * one that also holds all three required variants (with nothing listed as
   * missing).
   */
  lemma PoisonedGroupReported(c: Catalog, i: nat)
    requires i < |LessonsOf(c)| && LessonsOf(c)[i].variant !in RequiredVariants
    ensures exists m :: StrandMissing(KeyOf(LessonsOf(c)[i]).0, KeyOf(LessonsOf(c)[i]).1, m) in Validate(c)
    ensures RequiredVariants < VariantsOf(LessonsOf(c), KeyOf(LessonsOf(c)[i])) ==>
      StrandMissing(KeyOf(LessonsOf(c)[i]).0, KeyOf(LessonsOf(c)[i]).1, []) in Validate(c)
  {
    var ls := LessonsOf(c);
    var k := KeyOf(ls[i]);
    ValidateExact(c);
    UnrecognisedVariantPoisonsGroup(ls, i);
    assert StrandMissing(k.0, k.1, MissingVariants(VariantsOf(ls, k))) in Validate(c);
  }

  /** A lesson of grade 3, strand `fractions`, with the given variant. */
  function Sample(variant: Option<string>): Lesson {
    Lesson(Some("g3-frac"), Some("3"), Some("fractions"), variant, Some("secure"),
           Some(["compare"]), Some(["hint"]), Some(["scaffold"]),
           Some(map["scoreThreshold" := 0.8, "minimumItems" := 3.0]), Some([]))
  }

  /**
   * A group holding all three required variants and one lesson without a
   * variant is still reported, with an empty missing list.
   */
  lemma PoisonedGroupExample()
    ensures StrandMissing("3", "fractions", []) in Validate(Catalog(Some(
      [Sample(Some("practice")), Sample(Some("challenge")), Sample(Some("remediation")), Sample(None)])))
  {
    var ls := [Sample(Some("practice")), Sample(Some("challenge")), Sample(Some("remediation")), Sample(None)];
    var c := Catalog(Some(ls));
    var k := ("3", "fractions");
    assert KeyOf(ls[0]) == k && KeyOf(ls[1]) == k && KeyOf(ls[2]) == k && KeyOf(ls[3]) == k;
    assert ls[0].variant in VariantsOf(ls, k);
    assert ls[1].variant in VariantsOf(ls, k);
    assert ls[2].variant in VariantsOf(ls, k);
    assert None in VariantsOf(ls, k);
    PoisonedGroupReported(c, 3);
  }
}
