/**
 * The already-parsed curriculum catalog that the lesson validator reads.
 *
 * Every JSON key the validator consults is optional; an absent key is `None`.
 * Lists whose emptiness is checked are `Option<seq<_>>`: Python treats both an
 * absent key and an empty list as falsy.
 */
module Curriculum {
  import opened Wrappers

  /** One question of a lesson; only its hint and scaffold lists are checked. */
  datatype Item = Item(hints: Option<seq<string>>, scaffolds: Option<seq<string>>)

  /**
   * A lesson record. `masteryRule` is a mapping whose values the validator
   * never reads (only which keys are present).
   */
  datatype Lesson = Lesson(
    id: Option<string>,
    grade: Option<string>,
    strandID: Option<string>,
    variant: Option<string>,
    difficulty: Option<string>,
    objectives: Option<seq<string>>,
    hints: Option<seq<string>>,
    scaffolds: Option<seq<string>>,
    masteryRule: Option<map<string, real>>,
    items: Option<seq<Item>>)

  /** The catalog object; `lessons` may be absent. */
  datatype Catalog = Catalog(lessons: Option<seq<Lesson>>)

  /** A strand group is identified by its grade and strand identifier. */
  type Key = (string, string)

  /** The placeholder used for a missing id, grade or strandID. */
  const MissingLabel: string := "<missing>"

  /** `catalog.get("lessons", [])` */
  function LessonsOf(c: Catalog): seq<Lesson> {
    c.lessons.GetOr([])
  }

  /** `lesson.get("items", [])` */
  function ItemsOf(l: Lesson): seq<Item> {
    l.items.GetOr([])
  }

  /** `lesson.get("id", "<missing>")` */
  function LessonId(l: Lesson): string {
    l.id.GetOr(MissingLabel)
  }

  /** The `(grade, strand)` pair a lesson is grouped under. */
  function KeyOf(l: Lesson): Key {
    (l.grade.GetOr(MissingLabel), l.strandID.GetOr(MissingLabel))
  }

  /** Python truthiness of an optional list: present and non-empty. */
  predicate Filled<T>(o: Option<seq<T>>) {
    o.Some? && o.value != []
  }

  /** Whether an optional mastery rule is present and holds `key`. */
  predicate HasKey(rule: Option<map<string, real>>, key: string) {
    rule.Some? && key in rule.value
  }
}
