/**
 * The lesson validator: its error values, a functional reference definition
 * of the error list it returns, and the loop-based procedure proved equal to
 * that reference.
 */
module Validation {
  import opened Wrappers
  import opened Curriculum
  import opened Rules

  /** One authoring-rule violation; `item` numbers items from 1. */
  datatype ValidationError =
    | ObjectivesEmpty(lesson: string)
    | BadVariant(lesson: string, variant: Option<string>, allowed: seq<string>)
    | BadDifficulty(lesson: string, difficulty: Option<string>)
    | LessonHintsEmpty(lesson: string)
    | LessonScaffoldsEmpty(lesson: string)
    | MissingScoreThreshold(lesson: string)
    | MissingMinimumItems(lesson: string)
    | ItemMissingHint(lesson: string, item: nat)
    | ItemMissingScaffold(lesson: string, item: nat)
    | StrandMissing(grade: string, strand: string, missing: seq<string>)

  /** What `if cond: errors.append(e)` appends. */
  function Flag(cond: bool, e: ValidationError): seq<ValidationError> {
    if cond then [e] else []
  }

  /** `lesson.get("masteryRule") or {}` */
  function MasteryOf(l: Lesson): map<string, real> {
    if l.masteryRule.Some? then l.masteryRule.value else map[]
  }

  /** `errors` after the lesson-level checks of `l`, made in source order. */
  function LessonChecks(errors: seq<ValidationError>, l: Lesson): seq<ValidationError> {
    var lid := LessonId(l);
    var mastery := MasteryOf(l);
    errors
    + Flag(!Filled(l.objectives), ObjectivesEmpty(lid))
    + Flag(l.variant !in RequiredVariants, BadVariant(lid, l.variant, RequiredVariantNames))
    + Flag(l.difficulty !in RecognisedDifficulties, BadDifficulty(lid, l.difficulty))
    + Flag(!Filled(l.hints), LessonHintsEmpty(lid))
    + Flag(!Filled(l.scaffolds), LessonScaffoldsEmpty(lid))
    + Flag("scoreThreshold" !in mastery, MissingScoreThreshold(lid))
    + Flag("minimumItems" !in mastery, MissingMinimumItems(lid))
  }

  /** `errors` after the checks of the `k`-th item (1-based) of lesson `lid`. */
  function ItemCheck(errors: seq<ValidationError>, lid: string, k: nat, item: Item): seq<ValidationError> {
    errors
    + Flag(!Filled(item.hints), ItemMissingHint(lid, k))
    + Flag(!Filled(item.scaffolds), ItemMissingScaffold(lid, k))
  }

  /** `errors` after the checks of `items`, first to last. */
  function ItemChecks(errors: seq<ValidationError>, lid: string, items: seq<Item>): seq<ValidationError> {
    if items == [] then errors
    else ItemCheck(ItemChecks(errors, lid, items[..|items| - 1]), lid, |items|, items[|items| - 1])
  }

  /** `errors` after all checks of one lesson: its own, then its items'. */
  function LessonAndItemChecks(errors: seq<ValidationError>, l: Lesson): seq<ValidationError> {
    ItemChecks(LessonChecks(errors, l), LessonId(l), ItemsOf(l))
  }

  /** `errors` after the per-lesson checks of `ls`, first to last. */
  function LessonsChecks(errors: seq<ValidationError>, ls: seq<Lesson>): seq<ValidationError> {
    if ls == [] then errors
    else LessonAndItemChecks(LessonsChecks(errors, ls[..|ls| - 1]), ls[|ls| - 1])
  }

  /** The keys of `variants_by_strand` in insertion order. */
  function GroupKeys(ls: seq<Lesson>): seq<Key> {
    if ls == [] then []
    else
      var keys := GroupKeys(ls[..|ls| - 1]);
      var k := KeyOf(ls[|ls| - 1]);
      if k in keys then keys else keys + [k]
  }

  /** `variants_by_strand[k]`: the variants (absent ones included) of group `k`. */
  function GroupVariants(ls: seq<Lesson>, k: Key): set<Option<string>> {
    if ls == [] then {}
    else
      var last := ls[|ls| - 1];
      GroupVariants(ls[..|ls| - 1], k) + (if KeyOf(last) == k then {last.variant} else {})
  }

  /** A group not (yet) among the keys has collected no variant. */
  lemma {:induction false} UnseenGroupIsEmpty(ls: seq<Lesson>, k: Key)
    requires k !in GroupKeys(ls)
    ensures GroupVariants(ls, k) == {}
  {
    if ls != [] {
      UnseenGroupIsEmpty(ls[..|ls| - 1], k);
    }
  }

  /** `errors` after the strand check of group `k`. */
  function GroupCheck(errors: seq<ValidationError>, k: Key, variants: set<Option<string>>): seq<ValidationError> {
    errors + Flag(variants != RequiredVariants, StrandMissing(k.0, k.1, MissingVariants(variants)))
  }

  /** `errors` after the strand checks of the groups `keys`, in that order. */
  function GroupChecks(errors: seq<ValidationError>, ls: seq<Lesson>, keys: seq<Key>): seq<ValidationError> {
    if keys == [] then errors
    else
      var k := keys[|keys| - 1];
      GroupCheck(GroupChecks(errors, ls, keys[..|keys| - 1]), k, GroupVariants(ls, k))
  }

  /** Reference definition of `validate_lessons`. */
  function Validate(c: Catalog): (r: seq<ValidationError>)
    ensures LessonsOf(c) == [] ==> r == []
  {
    var ls := LessonsOf(c);
    GroupChecks(LessonsChecks([], ls), ls, GroupKeys(ls))
  }

  /** The item loop of `validate_lessons` for one lesson. */
  method CheckItems(errors: seq<ValidationError>, lid: string, items: seq<Item>)
    returns (result: seq<ValidationError>)
    ensures result == ItemChecks(errors, lid, items)
  {
    result := errors;
    var j := 0;
    while j < |items|
      invariant 0 <= j <= |items|
      invariant result == ItemChecks(errors, lid, items[..j])
    {
      assert items[..j + 1][..j] == items[..j];
      var item := items[j];
      ghost var r0 := result;
      if !Filled(item.hints) {
        result := result + [ItemMissingHint(lid, j + 1)];
      }
      assert result == r0 + Flag(!Filled(item.hints), ItemMissingHint(lid, j + 1));
      ghost var r1 := result;
      if !Filled(item.scaffolds) {
        result := result + [ItemMissingScaffold(lid, j + 1)];
      }
      assert result == r1 + Flag(!Filled(item.scaffolds), ItemMissingScaffold(lid, j + 1));
      assert result == ItemCheck(r0, lid, j + 1, item);
      j := j + 1;
    }
    assert items[..j] == items;
  }

  /** The body of the lesson loop of `validate_lessons`, after the grouping step. */
  method CheckLesson(errors: seq<ValidationError>, lesson: Lesson)
    returns (result: seq<ValidationError>)
    ensures result == LessonAndItemChecks(errors, lesson)
  {
    result := errors;
    var lid := LessonId(lesson);
    var variant := lesson.variant;
    var difficulty := lesson.difficulty;
    ghost var r0 := result;
    if !Filled(lesson.objectives) {
      result := result + [ObjectivesEmpty(lid)];
    }
    assert result == r0 + Flag(!Filled(lesson.objectives), ObjectivesEmpty(lid));
    ghost var r1 := result;
    if variant !in RequiredVariants {
      result := result + [BadVariant(lid, variant, RequiredVariantNames)];
    }
    assert result == r1 + Flag(variant !in RequiredVariants, BadVariant(lid, variant, RequiredVariantNames));
    ghost var r2 := result;
    if difficulty !in RecognisedDifficulties {
      result := result + [BadDifficulty(lid, difficulty)];
    }
    assert result == r2 + Flag(difficulty !in RecognisedDifficulties, BadDifficulty(lid, difficulty));
    ghost var r3 := result;
    if !Filled(lesson.hints) {
      result := result + [LessonHintsEmpty(lid)];
    }
    assert result == r3 + Flag(!Filled(lesson.hints), LessonHintsEmpty(lid));
    ghost var r4 := result;
    if !Filled(lesson.scaffolds) {
      result := result + [LessonScaffoldsEmpty(lid)];
    }
    assert result == r4 + Flag(!Filled(lesson.scaffolds), LessonScaffoldsEmpty(lid));
    var mastery := MasteryOf(lesson);
    ghost var r5 := result;
    if "scoreThreshold" !in mastery {
      result := result + [MissingScoreThreshold(lid)];
    }
    assert result == r5 + Flag("scoreThreshold" !in mastery, MissingScoreThreshold(lid));
    ghost var r6 := result;
    if "minimumItems" !in mastery {
      result := result + [MissingMinimumItems(lid)];
    }
    assert result == r6 + Flag("minimumItems" !in mastery, MissingMinimumItems(lid));
    assert result == LessonChecks(errors, lesson);
    result := CheckItems(result, lid, ItemsOf(lesson));
  }

  /** The loop of `validate_lessons` over `variants_by_strand.items()`. */
  method CheckStrands(errors: seq<ValidationError>, lessons: seq<Lesson>, order: seq<Key>,
                      variantsByStrand: map<Key, set<Option<string>>>)
    returns (result: seq<ValidationError>)
    requires forall k :: k in order ==> k in variantsByStrand && variantsByStrand[k] == GroupVariants(lessons, k)
    ensures result == GroupChecks(errors, lessons, order)
  {
    result := errors;
    var g := 0;
    while g < |order|
      invariant 0 <= g <= |order|
      invariant result == GroupChecks(errors, lessons, order[..g])
    {
      assert order[..g + 1][..g] == order[..g];
      var key := order[g];
      var variants := variantsByStrand[key];
      assert variants == GroupVariants(lessons, key);
      ghost var r0 := result;
      if variants != RequiredVariants {
        result := result + [StrandMissing(key.0, key.1, MissingVariants(variants))];
      }
      assert result == GroupCheck(r0, key, variants);
      g := g + 1;
    }
    assert order[..g] == order;
  }

  /**
   * `variants_by_strand[(grade, strand)].add(variant)` for lesson `i`: the
   * grouping state moves from the first `i` lessons to the first `i + 1`.
   */
  method RecordVariant(lessons: seq<Lesson>, i: nat, order: seq<Key>,
                       variantsByStrand: map<Key, set<Option<string>>>)
    returns (order': seq<Key>, variantsByStrand': map<Key, set<Option<string>>>)
    requires i < |lessons|
    requires order == GroupKeys(lessons[..i])
    requires forall k :: k in variantsByStrand <==> k in order
    requires forall k :: k in variantsByStrand ==> variantsByStrand[k] == GroupVariants(lessons[..i], k)
    ensures order' == GroupKeys(lessons[..i + 1])
    ensures forall k :: k in variantsByStrand' <==> k in order'
    ensures forall k :: k in variantsByStrand' ==> variantsByStrand'[k] == GroupVariants(lessons[..i + 1], k)
  {
    var lesson := lessons[i];
    ghost var done, next := lessons[..i], lessons[..i + 1];
    assert next[..i] == done && next[i] == lesson;
    var key := KeyOf(lesson);
    order', variantsByStrand' := order, variantsByStrand;
    if key !in variantsByStrand' {
      UnseenGroupIsEmpty(done, key);
      order' := order' + [key];
      variantsByStrand' := variantsByStrand'[key := {}];
    }
    variantsByStrand' := variantsByStrand'[key := variantsByStrand'[key] + {lesson.variant}];
    forall k | k in variantsByStrand' ensures variantsByStrand'[k] == GroupVariants(next, k) {
      assert GroupVariants(next, k) == GroupVariants(done, k) + (if key == k then {lesson.variant} else {});
    }
  }

  /**
   * `validate_lessons`: one pass over the lessons that records each lesson's
   * variant under its `(grade, strand)` group and appends its errors, then one
   * pass over the groups in insertion order.
   */
  method ValidateLessons(catalog: Catalog) returns (errors: seq<ValidationError>)
    ensures errors == Validate(catalog)
  {
    errors := [];
    var variantsByStrand: map<Key, set<Option<string>>> := map[];
    var order: seq<Key> := [];
    var lessons := LessonsOf(catalog);

    var i := 0;
    while i < |lessons|
      invariant 0 <= i <= |lessons|
      invariant errors == LessonsChecks([], lessons[..i])
      invariant order == GroupKeys(lessons[..i])
      invariant forall k :: k in variantsByStrand <==> k in order
      invariant forall k :: k in variantsByStrand ==> variantsByStrand[k] == GroupVariants(lessons[..i], k)
    {
      var lesson := lessons[i];
      assert lessons[..i + 1][..i] == lessons[..i];
      order, variantsByStrand := RecordVariant(lessons, i, order, variantsByStrand);
      errors := CheckLesson(errors, lesson);
      i := i + 1;
    }

    assert lessons[..i] == lessons;
    errors := CheckStrands(errors, lessons, order, variantsByStrand);
  }
}
