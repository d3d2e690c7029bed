# Lesson catalog validator

This project models `validate_lessons` in `scripts/validate_lessons.py`. The
function is the authoring-rule checker for the curriculum catalog. It takes an
already-parsed catalog and returns the list of rule violations, in the order
it finds them. It checks two kinds of rule:

- **Per lesson.** `objectives`, `hints` and `scaffolds` must be present and
  non-empty. The variant must be one of the three required variants, and the
  difficulty one of the four recognised levels. The mastery rule must hold the
  keys `scoreThreshold` and `minimumItems`. Every item needs hints and
  scaffolds; items are numbered from 1.
- **Per `(grade, strand)` group.** Lessons are grouped by grade and strand,
  and each group collects the set of its lessons' variants, an absent variant
  included. A group whose set is not exactly the required set is reported once.
  The report lists the required variants the group lacks, sorted.

The Dafny files are:

- `wrappers.dfy`: the `Option` type.
- `curriculum.dfy`: the catalog, lessons and items as datatypes. Every key the
  validator reads is optional, and Python's "falsy list" is "absent or empty"
  (`Filled`).
- `rules.dfy`: the two constants and the sorted rendering of a group's missing
  variants, with string order as Python's code-point order.
- `validation.dfy`: the error datatype, and a functional reference definition
  of the result (`Validate`) that follows the source's loops step by step. It
  also holds the imperative procedure `ValidateLessons`, proved equal to that
  reference. The procedure keeps an error list, a map from group to variant
  set, and the groups' insertion order, as the Python `defaultdict` does.
- `properties.dfy`: what each lesson contributes, and in which order.
- `strands.dfy`: the groups, their order of first appearance, and their
  errors.
- `catalog.dfy`: statements about the whole result: which errors, in which
  order, and when there are none.

Errors are values of `ValidationError`, one constructor per message kind. Each
constructor carries the data that the message interpolates.

## Model

| member | source | states |
|---|---|---|
| Rules.RequiredVariantNamesSorted | scripts/validate_lessons.py:13 | the list quoted in a bad-variant error is `sorted(REQUIRED_VARIANTS)`: ascending, and it holds exactly the required variants |
| Rules.KeepAbsentSpec | scripts/validate_lessons.py:66-68 | the filter keeps exactly the listed names whose variant is not present; an ascending input stays ascending |
| Rules.MissingVariantsSpec | scripts/validate_lessons.py:66-68 | the reported missing list is ascending and holds exactly the required variants absent from the group's set |
| Rules.MissingVariantsIsSortedDifference | scripts/validate_lessons.py:66-68 | any ascending list of exactly `REQUIRED_VARIANTS - variants` equals the reported list, so it is `sorted(missing)` |
| Rules.MissingVariantsEmptyIff | scripts/validate_lessons.py:65-68 | the missing list is empty exactly when the group holds every required variant |
| Validation.UnseenGroupIsEmpty | scripts/validate_lessons.py:29 | a group not yet among the dictionary's keys has collected no variant, as a fresh `defaultdict(set)` entry |
| Validation.Validate | scripts/validate_lessons.py:31 | a catalog with no lessons, or no `lessons` key, yields no error |
| Validation.CheckItems | scripts/validate_lessons.py:57-62 | the item loop appends exactly what the item-check reference appends, item by item, numbering items from 1 |
| Validation.CheckLesson | scripts/validate_lessons.py:32-62 | the per-lesson body appends the seven lesson-level checks in source order, then the item checks |
| Validation.CheckStrands | scripts/validate_lessons.py:64-69 | the loop over the groups appends exactly the strand errors of the reference, in key order |
| Validation.RecordVariant | scripts/validate_lessons.py:38 | adding a lesson's variant under its group creates the group on first sight, after the existing keys, and keeps map and key order equal to `GroupVariants` and `GroupKeys` of one more lesson |
| Validation.ValidateLessons | scripts/validate_lessons.py:27-71 | the imperative validator returns exactly the reference result `Validate` (its loop invariants keep the grouping map and key order equal to `GroupVariants` and `GroupKeys`) |
| ValidationProperties.LessonChecksShift | scripts/validate_lessons.py:40-55 | the lesson-level checks only append to the errors found before |
| ValidationProperties.ItemCheckShift | scripts/validate_lessons.py:59-62 | the checks of one item only append to the errors found before |
| ValidationProperties.ItemChecksShift | scripts/validate_lessons.py:57-62 | the item loop only appends to the errors found before |
| ValidationProperties.LessonErrorsSplit | scripts/validate_lessons.py:40-62 | a lesson's errors are appended to the earlier ones, lesson-level errors first and then its items' errors |
| ValidationProperties.LessonsChecksShift | scripts/validate_lessons.py:31-62 | the lesson loop only appends to the errors found before |
| ValidationProperties.GroupChecksShift | scripts/validate_lessons.py:64-69 | the group loop only appends to the errors found before |
| ValidationProperties.ValidateSplit | scripts/validate_lessons.py:27-71 | the result is all per-lesson errors followed by all strand errors |
| ValidationProperties.AllLessonErrorsAppend | scripts/validate_lessons.py:31-62 | the errors of lessons `a + b` are those of `a` followed by those of `b` |
| ValidationProperties.ItemErrorsShape | scripts/validate_lessons.py:57-62 | every item error names its lesson and an item number between 1 and the item count |
| ValidationProperties.ItemErrorsExact | scripts/validate_lessons.py:57-62 | item `k` (1-based) gets a hint error iff its hints are absent or empty, and a scaffold error iff its scaffolds are, independently |
| ValidationProperties.ItemErrorsOrdered | scripts/validate_lessons.py:57-62 | item errors come out by item number, a hint error before the same item's scaffold error |
| ValidationProperties.LessonLevelMembers | scripts/validate_lessons.py:40-55 | an error is among a lesson's lesson-level errors iff it is one of the seven checks' errors and that check fails |
| ValidationProperties.ObjectivesErrorIff | scripts/validate_lessons.py:40-41 | a lesson gets the objectives error iff `objectives` is absent or empty |
| ValidationProperties.VariantErrorIff | scripts/validate_lessons.py:42-43 | a lesson gets the variant error iff its variant, possibly absent, is not required; the error quotes the sorted required list |
| ValidationProperties.DifficultyErrorIff | scripts/validate_lessons.py:44-45 | a lesson gets the difficulty error iff its difficulty, possibly absent, is not recognised |
| ValidationProperties.LessonHintsErrorIff | scripts/validate_lessons.py:46-47 | a lesson gets the hint error iff `hints` is absent or empty |
| ValidationProperties.LessonScaffoldsErrorIff | scripts/validate_lessons.py:48-49 | a lesson gets the scaffold error iff `scaffolds` is absent or empty |
| ValidationProperties.ScoreThresholdErrorIff | scripts/validate_lessons.py:51-53 | a lesson gets the score-threshold error iff its mastery rule is absent or lacks that key |
| ValidationProperties.MinimumItemsErrorIff | scripts/validate_lessons.py:51-55 | a lesson gets the minimum-items error iff its mastery rule is absent or lacks that key |
| ValidationProperties.LessonItemErrorsIff | scripts/validate_lessons.py:57-62 | a lesson's item errors are exactly those of its items, and a lesson never yields a strand error |
| ValidationProperties.ErrorExact | scripts/validate_lessons.py:32-62 | one given error is reported for a lesson iff the lesson raises it, constructor by constructor |
| ValidationProperties.LessonErrorsExact | scripts/validate_lessons.py:32-62 | an error is reported for a lesson iff the declarative `Raises` says that lesson fails that check |
| ValidationProperties.LessonLevelNotItem | scripts/validate_lessons.py:40-55 | the lesson-level checks never yield an item error |
| ValidationProperties.LessonLevelBeforeItems | scripts/validate_lessons.py:40-62 | within one lesson, no lesson-level error follows an item error |
| ValidationProperties.LessonLevelOrdered | scripts/validate_lessons.py:40-55 | a lesson's own errors come out in source order (objectives, variant, difficulty, hints, scaffolds, score threshold, minimum items), each at most once |
| ValidationProperties.MasteryKeyPresence | scripts/validate_lessons.py:51-55 | a missing mastery rule yields both mastery errors; a rule holding both keys yields neither |
| ValidationProperties.MasteryValuesIgnored | scripts/validate_lessons.py:51-55 | replacing the mastery rule by one with the same keys and other values leaves the lesson's errors unchanged |
| StrandProperties.FirstIndex | scripts/validate_lessons.py:38 | the position of the first lesson of a group, or the lesson count when there is none |
| StrandProperties.GroupKeysMembers | scripts/validate_lessons.py:29-38 | a group is among the dictionary's keys iff some lesson belongs to it |
| StrandProperties.FirstIndexFinds | scripts/validate_lessons.py:38 | the first lesson of a group is found iff the group has a lesson |
| StrandProperties.GroupKeysOrdered | scripts/validate_lessons.py:29-38 | the keys are ordered by the position of each group's first lesson, as Python dictionaries keep insertion order |
| StrandProperties.GroupKeysFirstSeen | scripts/validate_lessons.py:29-38 | the visited groups are exactly those some lesson belongs to, in order of each group's first lesson |
| StrandProperties.GroupKeysDistinct | scripts/validate_lessons.py:29-38 | no group is visited twice |
| StrandProperties.GroupVariantsMembers | scripts/validate_lessons.py:38 | the set collected for a group is exactly the set of its lessons' variants, an absent variant included |
| StrandProperties.GroupChecksMembers | scripts/validate_lessons.py:64-69 | the group loop reports a visited group iff its set differs from the required set, with the sorted missing list |
| StrandProperties.StrandErrorsExact | scripts/validate_lessons.py:64-69 | a strand error is reported iff the declarative `StrandRaises` holds: the group occurs, its variants are not exactly the required set, and the error lists what it lacks |
| StrandProperties.GroupChecksOrdered | scripts/validate_lessons.py:64-69 | groups visited in first-appearance order yield strand errors in that order |
| StrandProperties.StrandErrorsOrdered | scripts/validate_lessons.py:64-69 | strand errors come out in order of each group's first lesson, so each group is reported at most once |
| StrandProperties.UnrecognisedVariantPoisonsGroup | scripts/validate_lessons.py:64-68 | a lesson with an absent or unrecognised variant always has its group reported; if the group also holds all three required variants, the missing list is empty |
| CatalogProperties.AllLessonErrorsMembers | scripts/validate_lessons.py:31-62 | the per-lesson errors are exactly those some lesson of the catalog raises |
| CatalogProperties.LessonErrorsInPlace | scripts/validate_lessons.py:31-62 | lesson `i`'s errors come after those of earlier lessons and before those of later ones |
| CatalogProperties.ValidateExact | scripts/validate_lessons.py:27-71 | an error is in the result iff some lesson raises it or some group raises it |
| CatalogProperties.NoStrandErrorFromLessons | scripts/validate_lessons.py:31-62 | the lesson loop never yields a strand error |
| CatalogProperties.ValidateOrdered | scripts/validate_lessons.py:31-69 | no lesson error follows a strand error, and strand errors follow each group's first appearance |
| CatalogProperties.LevelPassesIff | scripts/validate_lessons.py:40-55 | a lesson yields no lesson-level error iff it passes all seven lesson-level checks |
| CatalogProperties.ItemsPassIff | scripts/validate_lessons.py:57-62 | the items yield no error iff every item has hints and scaffolds |
| CatalogProperties.LessonPassesIff | scripts/validate_lessons.py:40-62 | a lesson yields no error iff it passes every lesson-level and item-level check |
| CatalogProperties.LessonFailureReported | scripts/validate_lessons.py:40-62 | one failing lesson makes the result non-empty |
| CatalogProperties.GroupFailureReported | scripts/validate_lessons.py:64-69 | one group whose variant set is not the required set makes the result non-empty |
| CatalogProperties.PassingLessonsNoErrors | scripts/validate_lessons.py:31-62 | lessons that all pass yield no per-lesson error |
| CatalogProperties.CompleteGroupsNoErrors | scripts/validate_lessons.py:64-69 | when every group holds exactly the required variants, no strand error is reported |
| CatalogProperties.AllPassNoErrors | scripts/validate_lessons.py:27-71 | when every lesson and every group passes, the result is empty |
| CatalogProperties.NoErrorsIff | scripts/validate_lessons.py:27-71 | the result is empty iff every lesson passes every check and every group's variant set equals the required set |
| CatalogProperties.PoisonedGroupReported | scripts/validate_lessons.py:64-69 | in a catalog, an absent or unrecognised variant always gets its group reported, with an empty missing list when the group is otherwise complete |
| CatalogProperties.PoisonedGroupExample | scripts/validate_lessons.py:64-69 | the three required variants plus a variant-less lesson in one group yield `StrandMissing("3", "fractions", [])` |

## Left out

- `load_catalog` (scripts/validate_lessons.py:17-24) reads a file and decodes JSON, failing on a missing file or bad JSON. That is I/O, so the model starts from the parsed catalog as a datatype.
- `main` (scripts/validate_lessons.py:74-95) parses arguments and prints. It returns exit code 1 when the error list is non-empty and 0 otherwise, except that with an empty list it raises at line 93 or 94 when some lesson has no string `grade`: `sorted` fails on a mix of `None` and strings, and `', '.join` fails on a `None`. A catalog of such lessons can pass every check, so the model does not promise the exit code. That is command-line plumbing; `NoErrorsIff` characterises when the error list is empty.
- Message wording: each error is a constructor carrying the values the message interpolates, not a formatted string.
- JSON `null` and absent keys are both `None`. In Python, `lesson.get("id", "<missing>")` returns `None`, not `<missing>`, for an explicit `null`. An explicit `"items": null` makes the Python loop fail. The model treats both as absent.
- Values of unexpected JSON types are not modelled, e.g. a string where a list is expected, or a non-string grade. Python's falsy values other than "absent" and "empty list" are not modelled either.
- Mastery rule values are modelled as `real`. The validator never reads them, and `MasteryValuesIgnored` shows they do not matter.
- `ValidateLessons` is split into `RecordVariant`, `CheckLesson`, `CheckItems` and `CheckStrands`. They are the steps and loop bodies of the one Python function.
