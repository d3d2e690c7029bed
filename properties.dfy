/**
 * What `validate_lessons` promises about the error list it returns: which
 * condition yields which error, the order errors come out in, one strand
 * error per incomplete group, and when the list is empty.
 */
module ValidationProperties {
  import opened Wrappers
  import opened Curriculum
  import opened Rules
  import opened Validation

  // ---------------------------------------------------------------------------
  // The accumulated error list, read as a concatenation
  // ---------------------------------------------------------------------------

  /** The errors one lesson contributes by itself. */
  function LessonLevelErrors(l: Lesson): seq<ValidationError> {
    LessonChecks([], l)
  }

  /** The errors the items of lesson `lid` contribute. */
  function ItemErrors(lid: string, items: seq<Item>): seq<ValidationError> {
    ItemChecks([], lid, items)
  }

  /** Everything reported about one lesson. */
  function LessonErrors(l: Lesson): seq<ValidationError> {
    LessonAndItemChecks([], l)
  }

  /** The per-lesson part of the result. */
  function AllLessonErrors(ls: seq<Lesson>): seq<ValidationError> {
    LessonsChecks([], ls)
  }

  /** The strand part of the result. */
  function StrandErrors(ls: seq<Lesson>): seq<ValidationError> {
    GroupChecks([], ls, GroupKeys(ls))
  }

  predicate IsItemError(e: ValidationError) {
    e.ItemMissingHint? || e.ItemMissingScaffold?
  }

  lemma AppendAssoc<T>(a: seq<T>, b: seq<T>, c: seq<T>)
    ensures (a + b) + c == a + (b + c)
  {
  }

  /** Checking a lesson after earlier errors appends its own errors to them. */
  lemma LessonChecksShift(acc: seq<ValidationError>, l: Lesson)
    ensures LessonChecks(acc, l) == acc + LessonLevelErrors(l)
  {
    var lid := LessonId(l);
    var mastery := MasteryOf(l);
    var f1 := Flag(!Filled(l.objectives), ObjectivesEmpty(lid));
    var f2 := Flag(l.variant !in RequiredVariants, BadVariant(lid, l.variant, RequiredVariantNames));
    var f3 := Flag(l.difficulty !in RecognisedDifficulties, BadDifficulty(lid, l.difficulty));
    var f4 := Flag(!Filled(l.hints), LessonHintsEmpty(lid));
    var f5 := Flag(!Filled(l.scaffolds), LessonScaffoldsEmpty(lid));
    var f6 := Flag("scoreThreshold" !in mastery, MissingScoreThreshold(lid));
    var f7 := Flag("minimumItems" !in mastery, MissingMinimumItems(lid));
    var p1 := [] + f1;
    assert p1 == f1;
    var p2 := p1 + f2;
    AppendAssoc(acc, p1, f2);
    var p3 := p2 + f3;
    AppendAssoc(acc, p2, f3);
    var p4 := p3 + f4;
    AppendAssoc(acc, p3, f4);
    var p5 := p4 + f5;
    AppendAssoc(acc, p4, f5);
    var p6 := p5 + f6;
    AppendAssoc(acc, p5, f6);
    AppendAssoc(acc, p6, f7);
  }

  /** Checking one item after earlier errors appends its errors to them. */
  lemma ItemCheckShift(acc: seq<ValidationError>, lid: string, k: nat, item: Item)
    ensures ItemCheck(acc, lid, k, item) == acc + ItemCheck([], lid, k, item)
  {
    var f1 := Flag(!Filled(item.hints), ItemMissingHint(lid, k));
    var f2 := Flag(!Filled(item.scaffolds), ItemMissingScaffold(lid, k));
    assert [] + f1 == f1;
    AppendAssoc(acc, f1, f2);
  }

  /** Checking items after earlier errors appends the items' errors to them. */
  lemma {:induction false} ItemChecksShift(acc: seq<ValidationError>, lid: string, items: seq<Item>)
    ensures ItemChecks(acc, lid, items) == acc + ItemErrors(lid, items)
  {
    if items == [] {
      assert acc + [] == acc;
    } else {
      var n := |items|;
      var prev, tail := ItemErrors(lid, items[..n - 1]), ItemCheck([], lid, n, items[n - 1]);
      ItemChecksShift(acc, lid, items[..n - 1]);
      ItemCheckShift(acc + prev, lid, n, items[n - 1]);
      ItemCheckShift(prev, lid, n, items[n - 1]);
      AppendAssoc(acc, prev, tail);
    }
  }

  /** A lesson's errors are its lesson-level errors followed by its items' errors. */
  lemma LessonErrorsSplit(acc: seq<ValidationError>, l: Lesson)
    ensures LessonAndItemChecks(acc, l) == acc + LessonErrors(l)
    ensures LessonErrors(l) == LessonLevelErrors(l) + ItemErrors(LessonId(l), ItemsOf(l))
  {
    var lid, items := LessonId(l), ItemsOf(l);
    var own, fromItems := LessonLevelErrors(l), ItemErrors(lid, items);
    var before := LessonChecks(acc, l);
    LessonChecksShift(acc, l);
    ItemChecksShift(before, lid, items);
    assert LessonAndItemChecks(acc, l) == (acc + own) + fromItems;
    ItemChecksShift(own, lid, items);
    assert LessonErrors(l) == own + fromItems;
    AppendAssoc(acc, own, fromItems);
  }

  /** Checking lessons after earlier errors appends the lessons' errors to them. */
  lemma {:induction false} LessonsChecksShift(acc: seq<ValidationError>, ls: seq<Lesson>)
    ensures LessonsChecks(acc, ls) == acc + AllLessonErrors(ls)
  {
    if ls == [] {
      assert acc + [] == acc;
    } else {
      var init, last := ls[..|ls| - 1], ls[|ls| - 1];
      var earlier, own := AllLessonErrors(init), LessonErrors(last);
      LessonsChecksShift(acc, init);
      LessonErrorsSplit(LessonsChecks(acc, init), last);
      assert LessonsChecks(acc, ls) == (acc + earlier) + own;
      LessonErrorsSplit(earlier, last);
      assert AllLessonErrors(ls) == earlier + own;
      AppendAssoc(acc, earlier, own);
    }
  }

  /** Checking groups after earlier errors appends the groups' errors to them. */
  lemma {:induction false} GroupChecksShift(acc: seq<ValidationError>, ls: seq<Lesson>, keys: seq<Key>)
    ensures GroupChecks(acc, ls, keys) == acc + GroupChecks([], ls, keys)
  {
    if keys == [] {
      assert acc + [] == acc;
    } else {
      var n := |keys|;
      GroupChecksShift(acc, ls, keys[..n - 1]);
      var k := keys[n - 1];
      AppendAssoc(acc, GroupChecks([], ls, keys[..n - 1]),
                  Flag(GroupVariants(ls, k) != RequiredVariants, StrandMissing(k.0, k.1, MissingVariants(GroupVariants(ls, k)))));
    }
  }

  /** The result is the per-lesson errors followed by the strand errors. */
  lemma ValidateSplit(c: Catalog)
    ensures Validate(c) == AllLessonErrors(LessonsOf(c)) + StrandErrors(LessonsOf(c))
  {
    var ls := LessonsOf(c);
    GroupChecksShift(AllLessonErrors(ls), ls, GroupKeys(ls));
  }

  /** Errors of earlier lessons come before errors of later lessons. */
  lemma {:induction false} AllLessonErrorsAppend(a: seq<Lesson>, b: seq<Lesson>)
    ensures AllLessonErrors(a + b) == AllLessonErrors(a) + AllLessonErrors(b)
    decreases |b|
  {
    if b == [] {
      assert a + b == a;
    } else {
      var init, last := b[..|b| - 1], b[|b| - 1];
      assert (a + b)[..|a + b| - 1] == a + init;
      assert (a + b)[|a + b| - 1] == last;
      var front, middle, own := AllLessonErrors(a), AllLessonErrors(init), LessonErrors(last);
      AllLessonErrorsAppend(a, init);
      LessonErrorsSplit(AllLessonErrors(a + init), last);
      assert AllLessonErrors(a + b) == (front + middle) + own;
      LessonErrorsSplit(middle, last);
      assert AllLessonErrors(b) == middle + own;
      AppendAssoc(front, middle, own);
    }
  }

  lemma EmptyIffNoMember<T>(s: seq<T>)
    ensures s == [] <==> forall x :: x !in s
  {
    if s != [] {
      assert s[0] in s;
    }
  }

  // ---------------------------------------------------------------------------
  // Per-lesson and per-item checks
  // ---------------------------------------------------------------------------

  /** Every item error of a lesson names that lesson and one of its items. */
  lemma {:induction false} ItemErrorsShape(lid: string, items: seq<Item>)
    ensures forall e :: e in ItemErrors(lid, items) ==> IsItemError(e) && e.lesson == lid && 1 <= e.item <= |items|
  {
    if items != [] {
      ItemErrorsShape(lid, items[..|items| - 1]);
    }
  }

  /**
   * The `k`-th item (1-based) gets a missing-hint error exactly when its
   * hints are absent or empty, and independently a missing-scaffold error
   * exactly when its scaffolds are.
   */
  lemma {:induction false} ItemErrorsExact(lid: string, items: seq<Item>)
    ensures forall x, k: nat :: ItemMissingHint(x, k) in ItemErrors(lid, items) <==>
      x == lid && 1 <= k <= |items| && !Filled(items[k - 1].hints)
    ensures forall x, k: nat :: ItemMissingScaffold(x, k) in ItemErrors(lid, items) <==>
      x == lid && 1 <= k <= |items| && !Filled(items[k - 1].scaffolds)
  {
    if items != [] {
      var init := items[..|items| - 1];
      ItemErrorsExact(lid, init);
      ItemErrorsShape(lid, init);
      forall j | 0 <= j < |init| ensures init[j] == items[j] {
      }
    }
  }

  /** Item `a` is reported before item `b`: lower item first, hint before scaffold. */
  predicate ItemPrecedes(a: ValidationError, b: ValidationError) {
    && IsItemError(a) && IsItemError(b)
    && (a.item < b.item || (a.item == b.item && a.ItemMissingHint? && b.ItemMissingScaffold?))
  }

  /** Every earlier error of `r` precedes every later one. */
  predicate ItemOrdered(r: seq<ValidationError>) {
    forall p, q :: 0 <= p < q < |r| ==> ItemPrecedes(r[p], r[q])
  }

  /** The errors of one item name that item, a hint error first. */
  lemma ItemCheckOrdered(lid: string, n: nat, item: Item)
    ensures ItemOrdered(ItemCheck([], lid, n, item))
    ensures forall e :: e in ItemCheck([], lid, n, item) ==> IsItemError(e) && e.item == n
  {
  }

  /** Errors of later items appended after those of earlier items keep the order. */
  lemma ItemsAppendOrdered(earlier: seq<ValidationError>, tail: seq<ValidationError>, n: nat)
    requires ItemOrdered(earlier) && ItemOrdered(tail)
    requires forall e :: e in earlier ==> IsItemError(e) && e.item < n
    requires forall e :: e in tail ==> IsItemError(e) && e.item == n
    ensures ItemOrdered(earlier + tail)
  {
    var r := earlier + tail;
    forall p, q | 0 <= p < q < |r| ensures ItemPrecedes(r[p], r[q]) {
      if q < |earlier| {
        assert r[p] == earlier[p] && r[q] == earlier[q];
      } else if p < |earlier| {
        assert r[p] == earlier[p] && earlier[p] in earlier;
        assert r[q] == tail[q - |earlier|] && tail[q - |earlier|] in tail;
      } else {
        assert r[p] == tail[p - |earlier|] && r[q] == tail[q - |earlier|];
      }
    }
  }

  /** Item errors come out in item order, a hint error before its scaffold error. */
  lemma {:induction false} ItemErrorsOrdered(lid: string, items: seq<Item>)
    ensures ItemOrdered(ItemErrors(lid, items))
  {
    if items != [] {
      var n := |items|;
      var init := items[..n - 1];
      var earlier := ItemErrors(lid, init);
      var tail := ItemCheck([], lid, n, items[n - 1]);
      ItemErrorsOrdered(lid, init);
      ItemErrorsShape(lid, init);
      ItemCheckOrdered(lid, n, items[n - 1]);
      ItemCheckShift(earlier, lid, n, items[n - 1]);
      ItemsAppendOrdered(earlier, tail, n);
    }
  }

  /**
   * Declarative reading of the per-lesson checks: lesson `l` raises `e`
   * exactly when `e` names `l` and the check `e` stands for fails.
   */
  predicate Raises(l: Lesson, e: ValidationError) {
    var lid := LessonId(l);
    var items := ItemsOf(l);
    match e
    case ObjectivesEmpty(x) => x == lid && !Filled(l.objectives)
    case BadVariant(x, v, a) => x == lid && v == l.variant && a == RequiredVariantNames && v !in RequiredVariants
    case BadDifficulty(x, d) => x == lid && d == l.difficulty && d !in RecognisedDifficulties
    case LessonHintsEmpty(x) => x == lid && !Filled(l.hints)
    case LessonScaffoldsEmpty(x) => x == lid && !Filled(l.scaffolds)
    case MissingScoreThreshold(x) => x == lid && !HasKey(l.masteryRule, "scoreThreshold")
    case MissingMinimumItems(x) => x == lid && !HasKey(l.masteryRule, "minimumItems")
    case ItemMissingHint(x, k) => x == lid && 1 <= k <= |items| && !Filled(items[k - 1].hints)
    case ItemMissingScaffold(x, k) => x == lid && 1 <= k <= |items| && !Filled(items[k - 1].scaffolds)
    case StrandMissing(_, _, _) => false
  }

  /** Membership in the lesson-level error list, read off its seven checks. */
  lemma LessonLevelMembers(l: Lesson)
    ensures forall x :: x in LessonLevelErrors(l) <==>
      var lid, mastery := LessonId(l), MasteryOf(l);
      || (!Filled(l.objectives) && x == ObjectivesEmpty(lid))
      || (l.variant !in RequiredVariants && x == BadVariant(lid, l.variant, RequiredVariantNames))
      || (l.difficulty !in RecognisedDifficulties && x == BadDifficulty(lid, l.difficulty))
      || (!Filled(l.hints) && x == LessonHintsEmpty(lid))
      || (!Filled(l.scaffolds) && x == LessonScaffoldsEmpty(lid))
      || ("scoreThreshold" !in mastery && x == MissingScoreThreshold(lid))
      || ("minimumItems" !in mastery && x == MissingMinimumItems(lid))
  {
  }

  /** A lesson gets the objectives error exactly when `objectives` is absent or empty. */
  lemma ObjectivesErrorIff(l: Lesson)
    ensures forall x :: ObjectivesEmpty(x) in LessonErrors(l) <==> x == LessonId(l) && !Filled(l.objectives)
  {
    LessonErrorsSplit([], l);
    ItemErrorsShape(LessonId(l), ItemsOf(l));
    LessonLevelMembers(l);
  }

  /** A lesson gets the variant error exactly when its variant, possibly absent, is not required. */
  lemma VariantErrorIff(l: Lesson)
    ensures forall x, v, a :: BadVariant(x, v, a) in LessonErrors(l) <==>
      x == LessonId(l) && v == l.variant && a == RequiredVariantNames && l.variant !in RequiredVariants
  {
    LessonErrorsSplit([], l);
    ItemErrorsShape(LessonId(l), ItemsOf(l));
    LessonLevelMembers(l);
  }

  /** A lesson gets the difficulty error exactly when its difficulty, possibly absent, is not recognised. */
  lemma DifficultyErrorIff(l: Lesson)
    ensures forall x, d :: BadDifficulty(x, d) in LessonErrors(l) <==>
      x == LessonId(l) && d == l.difficulty && l.difficulty !in RecognisedDifficulties
  {
    LessonErrorsSplit([], l);
    ItemErrorsShape(LessonId(l), ItemsOf(l));
    LessonLevelMembers(l);
  }

  /** A lesson gets the lesson-hint error exactly when `hints` is absent or empty. */
  lemma LessonHintsErrorIff(l: Lesson)
    ensures forall x :: LessonHintsEmpty(x) in LessonErrors(l) <==> x == LessonId(l) && !Filled(l.hints)
  {
    LessonErrorsSplit([], l);
    ItemErrorsShape(LessonId(l), ItemsOf(l));
    LessonLevelMembers(l);
  }

  /** A lesson gets the lesson-scaffold error exactly when `scaffolds` is absent or empty. */
  lemma LessonScaffoldsErrorIff(l: Lesson)
    ensures forall x :: LessonScaffoldsEmpty(x) in LessonErrors(l) <==> x == LessonId(l) && !Filled(l.scaffolds)
  {
    LessonErrorsSplit([], l);
    ItemErrorsShape(LessonId(l), ItemsOf(l));
    LessonLevelMembers(l);
  }

  /** A lesson gets the score-threshold error exactly when its rule lacks that key. */
  lemma ScoreThresholdErrorIff(l: Lesson)
    ensures forall x :: MissingScoreThreshold(x) in LessonErrors(l) <==>
      x == LessonId(l) && !HasKey(l.masteryRule, "scoreThreshold")
  {
    LessonErrorsSplit([], l);
    ItemErrorsShape(LessonId(l), ItemsOf(l));
    LessonLevelMembers(l);
  }

  /** A lesson gets the minimum-items error exactly when its rule lacks that key. */
  lemma MinimumItemsErrorIff(l: Lesson)
    ensures forall x :: MissingMinimumItems(x) in LessonErrors(l) <==>
      x == LessonId(l) && !HasKey(l.masteryRule, "minimumItems")
  {
    LessonErrorsSplit([], l);
    ItemErrorsShape(LessonId(l), ItemsOf(l));
    LessonLevelMembers(l);
  }

  /** The item errors of a lesson are those of its items, and no lesson yields a strand error. */
  lemma LessonItemErrorsIff(l: Lesson)
    ensures forall x, k: nat :: ItemMissingHint(x, k) in LessonErrors(l) <==>
      x == LessonId(l) && 1 <= k <= |ItemsOf(l)| && !Filled(ItemsOf(l)[k - 1].hints)
    ensures forall x, k: nat :: ItemMissingScaffold(x, k) in LessonErrors(l) <==>
      x == LessonId(l) && 1 <= k <= |ItemsOf(l)| && !Filled(ItemsOf(l)[k - 1].scaffolds)
    ensures forall g, s, m :: StrandMissing(g, s, m) !in LessonErrors(l)
  {
    LessonErrorsSplit([], l);
    ItemErrorsShape(LessonId(l), ItemsOf(l));
    ItemErrorsExact(LessonId(l), ItemsOf(l));
    LessonLevelMembers(l);
  }

  /** Which errors a lesson gets, and when, as one statement. */
  lemma LessonErrorsExact(l: Lesson)
    ensures forall e :: e in LessonErrors(l) <==> Raises(l, e)
  {
    forall e ensures e in LessonErrors(l) <==> Raises(l, e) {
      ErrorExact(l, e);
    }
  }

  /** One error is reported for a lesson exactly when the lesson raises it. */
  lemma ErrorExact(l: Lesson, e: ValidationError)
    ensures e in LessonErrors(l) <==> Raises(l, e)
  {
    match e
    case ObjectivesEmpty(_) => ObjectivesErrorIff(l);
    case BadVariant(_, _, _) => VariantErrorIff(l);
    case BadDifficulty(_, _) => DifficultyErrorIff(l);
    case LessonHintsEmpty(_) => LessonHintsErrorIff(l);
    case LessonScaffoldsEmpty(_) => LessonScaffoldsErrorIff(l);
    case MissingScoreThreshold(_) => ScoreThresholdErrorIff(l);
    case MissingMinimumItems(_) => MinimumItemsErrorIff(l);
    case ItemMissingHint(_, _) => LessonItemErrorsIff(l);
    case ItemMissingScaffold(_, _) => LessonItemErrorsIff(l);
    case StrandMissing(_, _, _) => LessonItemErrorsIff(l);
  }

  /** No lesson-level error is an item error. */
  lemma LessonLevelNotItem(l: Lesson)
    ensures forall e :: e in LessonLevelErrors(l) ==> !IsItemError(e)
  {
    LessonLevelMembers(l);
  }

  /** Errors of the second part follow every error of the first part. */
  lemma ItemsFollow(own: seq<ValidationError>, items: seq<ValidationError>)
    requires forall e :: e in own ==> !IsItemError(e)
    requires forall e :: e in items ==> IsItemError(e)
    ensures forall p, q :: 0 <= p < q < |own + items| && IsItemError((own + items)[p]) ==>
      IsItemError((own + items)[q])
  {
    var r := own + items;
    forall p, q | 0 <= p < q < |r| ensures IsItemError(r[p]) ==> IsItemError(r[q]) {
      if p < |own| {
        assert r[p] == own[p] && own[p] in own;
      } else {
        assert r[q] == items[q - |own|] && items[q - |own|] in items;
      }
    }
  }

  /** A lesson's own errors all precede its item errors. */
  lemma LessonLevelBeforeItems(l: Lesson)
    ensures forall p, q :: 0 <= p < q < |LessonErrors(l)| && IsItemError(LessonErrors(l)[p]) ==>
      IsItemError(LessonErrors(l)[q])
  {
    LessonErrorsSplit([], l);
    ItemErrorsShape(LessonId(l), ItemsOf(l));
    LessonLevelNotItem(l);
    ItemsFollow(LessonLevelErrors(l), ItemErrors(LessonId(l), ItemsOf(l)));
  }

  /** Position of a lesson-level check in source order; 0 for the other errors. */
  function LevelRank(e: ValidationError): nat {
    match e
    case ObjectivesEmpty(_) => 1
    case BadVariant(_, _, _) => 2
    case BadDifficulty(_, _) => 3
    case LessonHintsEmpty(_) => 4
    case LessonScaffoldsEmpty(_) => 5
    case MissingScoreThreshold(_) => 6
    case MissingMinimumItems(_) => 7
    case _ => 0
  }

  /** Every earlier error of `r` comes from an earlier lesson-level check. */
  predicate LevelOrdered(r: seq<ValidationError>) {
    forall p, q :: 0 <= p < q < |r| ==> LevelRank(r[p]) < LevelRank(r[q])
  }

  /** Appending the error of a later check keeps the order. */
  lemma LevelFlagAppend(r: seq<ValidationError>, cond: bool, e: ValidationError)
    requires LevelOrdered(r) && 1 <= LevelRank(e)
    requires forall x :: x in r ==> 1 <= LevelRank(x) < LevelRank(e)
    ensures LevelOrdered(r + Flag(cond, e))
    ensures forall x :: x in r + Flag(cond, e) ==> 1 <= LevelRank(x) <= LevelRank(e)
  {
    var s := r + Flag(cond, e);
    forall p, q | 0 <= p < q < |s| ensures LevelRank(s[p]) < LevelRank(s[q]) {
      assert s[p] == r[p] && r[p] in r;
      if q < |r| {
        assert s[q] == r[q];
      }
    }
  }

  /** Seven flags whose errors have ranks 1 to 7, appended in that order, stay ordered. */
  lemma LevelChainOrdered(c1: bool, e1: ValidationError, c2: bool, e2: ValidationError,
                          c3: bool, e3: ValidationError, c4: bool, e4: ValidationError,
                          c5: bool, e5: ValidationError, c6: bool, e6: ValidationError,
                          c7: bool, e7: ValidationError)
    requires LevelRank(e1) == 1 && LevelRank(e2) == 2 && LevelRank(e3) == 3 && LevelRank(e4) == 4
    requires LevelRank(e5) == 5 && LevelRank(e6) == 6 && LevelRank(e7) == 7
    ensures var r := [] + Flag(c1, e1) + Flag(c2, e2) + Flag(c3, e3) + Flag(c4, e4)
                     + Flag(c5, e5) + Flag(c6, e6) + Flag(c7, e7);
      LevelOrdered(r) && forall e :: e in r ==> 1 <= LevelRank(e) <= 7
  {
    var p0: seq<ValidationError> := [];
    LevelFlagAppend(p0, c1, e1);
    var p1 := p0 + Flag(c1, e1);
    LevelFlagAppend(p1, c2, e2);
    var p2 := p1 + Flag(c2, e2);
    LevelFlagAppend(p2, c3, e3);
    var p3 := p2 + Flag(c3, e3);
    LevelFlagAppend(p3, c4, e4);
    var p4 := p3 + Flag(c4, e4);
    LevelFlagAppend(p4, c5, e5);
    var p5 := p4 + Flag(c5, e5);
    LevelFlagAppend(p5, c6, e6);
    var p6 := p5 + Flag(c6, e6);
    LevelFlagAppend(p6, c7, e7);
  }

  /**
   * A lesson's own errors come out in source order: objectives, variant,
   * difficulty, hints, scaffolds, score threshold, minimum items; so each
   * of the seven is reported at most once per lesson.
   */
  lemma LessonLevelOrdered(l: Lesson)
    ensures LevelOrdered(LessonLevelErrors(l))
    ensures forall e :: e in LessonLevelErrors(l) ==> 1 <= LevelRank(e) <= 7
  {
    var lid := LessonId(l);
    var mastery := MasteryOf(l);
    LevelChainOrdered(
      !Filled(l.objectives), ObjectivesEmpty(lid),
      l.variant !in RequiredVariants, BadVariant(lid, l.variant, RequiredVariantNames),
      l.difficulty !in RecognisedDifficulties, BadDifficulty(lid, l.difficulty),
      !Filled(l.hints), LessonHintsEmpty(lid),
      !Filled(l.scaffolds), LessonScaffoldsEmpty(lid),
      "scoreThreshold" !in mastery, MissingScoreThreshold(lid),
      "minimumItems" !in mastery, MissingMinimumItems(lid));
  }

  /**
   * The mastery checks look at key presence only: no rule (or an empty one)
   * yields both errors, a rule holding both keys yields neither.
   */
  lemma MasteryKeyPresence(l: Lesson)
    ensures l.masteryRule.None? ==>
      MissingScoreThreshold(LessonId(l)) in LessonErrors(l) && MissingMinimumItems(LessonId(l)) in LessonErrors(l)
    ensures HasKey(l.masteryRule, "scoreThreshold") && HasKey(l.masteryRule, "minimumItems") ==>
      forall x :: MissingScoreThreshold(x) !in LessonErrors(l) && MissingMinimumItems(x) !in LessonErrors(l)
  {
    ScoreThresholdErrorIff(l);
    MinimumItemsErrorIff(l);
  }

  /** The values held by the mastery rule never affect the result. */
  lemma MasteryValuesIgnored(l: Lesson, rule: map<string, real>)
    requires l.masteryRule.Some? && rule.Keys == l.masteryRule.value.Keys
    ensures LessonErrors(l.(masteryRule := Some(rule))) == LessonErrors(l)
  {
    var l' := l.(masteryRule := Some(rule));
    assert LessonId(l') == LessonId(l) && ItemsOf(l') == ItemsOf(l);
    assert ("scoreThreshold" in MasteryOf(l')) == ("scoreThreshold" in MasteryOf(l));
    assert ("minimumItems" in MasteryOf(l')) == ("minimumItems" in MasteryOf(l));
    assert LessonChecks([], l') == LessonChecks([], l);
  }
}
