/**
 * The grouping step of `validate_lessons`: which `(grade, strand)` groups
 * exist, in which order they are visited, which variants each collects, and
 * which strand errors the groups yield.
 */
module StrandProperties {
  import opened Wrappers
  import opened Curriculum
  import opened Rules
  import opened Validation

  /** Position of the first lesson of group `k`, or `|ls|` when the group is absent. */
  function FirstIndex(ls: seq<Lesson>, k: Key): (i: nat)
    ensures i <= |ls|
    ensures i < |ls| ==> KeyOf(ls[i]) == k
    ensures forall j :: 0 <= j < i ==> KeyOf(ls[j]) != k
  {
    if ls == [] then 0
    else
      var init := ls[..|ls| - 1];
      var i := FirstIndex(init, k);
      if i < |init| then i
      else if KeyOf(ls[|ls| - 1]) == k then |ls| - 1
      else |ls|
  }

  /** Some lesson of `ls` belongs to group `k`. */
  predicate HasGroup(ls: seq<Lesson>, k: Key) {
    exists i :: 0 <= i < |ls| && KeyOf(ls[i]) == k
  }

  /** Declarative reading of `variants_by_strand[k]`. */
  function VariantsOf(ls: seq<Lesson>, k: Key): set<Option<string>> {
    set i | 0 <= i < |ls| && KeyOf(ls[i]) == k :: ls[i].variant
  }

  /** A group is among the keys exactly when some lesson belongs to it. */
  lemma {:induction false} GroupKeysMembers(ls: seq<Lesson>)
    ensures forall k :: k in GroupKeys(ls) <==> FirstIndex(ls, k) < |ls|
  {
    if ls != [] {
      GroupKeysMembers(ls[..|ls| - 1]);
    }
  }

  /** `FirstIndex` finds a lesson of the group exactly when there is one. */
  lemma FirstIndexFinds(ls: seq<Lesson>, k: Key)
    ensures FirstIndex(ls, k) < |ls| <==> HasGroup(ls, k)
  {
    if HasGroup(ls, k) {
      var i :| 0 <= i < |ls| && KeyOf(ls[i]) == k;
      assert FirstIndex(ls, k) <= i;
    }
  }

  /** The keys are ordered by the position of each group's first lesson. */
  lemma {:induction false} GroupKeysOrdered(ls: seq<Lesson>)
    ensures forall p, q :: 0 <= p < q < |GroupKeys(ls)| ==>
      FirstIndex(ls, GroupKeys(ls)[p]) < FirstIndex(ls, GroupKeys(ls)[q])
  {
    if ls != [] {
      var n := |ls|;
      var init := ls[..n - 1];
      var last := KeyOf(ls[n - 1]);
      var before := GroupKeys(init);
      GroupKeysOrdered(init);
      GroupKeysMembers(init);
      forall k | k in before ensures FirstIndex(ls, k) == FirstIndex(init, k) {
      }
      if last !in before {
        var keys := GroupKeys(ls);
        assert keys == before + [last];
        assert FirstIndex(ls, last) == n - 1;
        forall p, q | 0 <= p < q < |keys| ensures FirstIndex(ls, keys[p]) < FirstIndex(ls, keys[q]) {
          assert keys[p] == before[p] && keys[p] in before;
          if q < |before| {
            assert keys[q] == before[q] && keys[q] in before;
          }
        }
      } else {
        forall p, q | 0 <= p < q < |before| ensures FirstIndex(ls, before[p]) < FirstIndex(ls, before[q]) {
          assert before[p] in before && before[q] in before;
        }
      }
    }
  }

  /**
   * The group keys are exactly the groups that occur, each once, ordered by
   * the position of their first lesson.
   */
  lemma GroupKeysFirstSeen(ls: seq<Lesson>)
    ensures forall k :: k in GroupKeys(ls) <==> FirstIndex(ls, k) < |ls|
    ensures forall k :: k in GroupKeys(ls) <==> HasGroup(ls, k)
    ensures forall p, q :: 0 <= p < q < |GroupKeys(ls)| ==>
      FirstIndex(ls, GroupKeys(ls)[p]) < FirstIndex(ls, GroupKeys(ls)[q])
  {
    GroupKeysMembers(ls);
    GroupKeysOrdered(ls);
    forall k {
      FirstIndexFinds(ls, k);
    }
  }

  /** No group is visited twice. */
  lemma GroupKeysDistinct(ls: seq<Lesson>)
    ensures forall p, q :: 0 <= p < q < |GroupKeys(ls)| ==> GroupKeys(ls)[p] != GroupKeys(ls)[q]
  {
    GroupKeysFirstSeen(ls);
  }

  /** The set collected for group `k` holds exactly the variants of the group's lessons. */
  lemma {:induction false} GroupVariantsMembers(ls: seq<Lesson>, k: Key)
    ensures GroupVariants(ls, k) == VariantsOf(ls, k)
  {
    if ls != [] {
      var n := |ls|;
      var init := ls[..n - 1];
      GroupVariantsMembers(init, k);
      forall v ensures v in GroupVariants(ls, k) <==> v in VariantsOf(ls, k) {
        if v in VariantsOf(ls, k) {
          var i :| 0 <= i < n && KeyOf(ls[i]) == k && ls[i].variant == v;
          if i < n - 1 {
            assert init[i] == ls[i];
          }
        }
        if v in VariantsOf(init, k) {
          var i :| 0 <= i < n - 1 && KeyOf(init[i]) == k && init[i].variant == v;
          assert ls[i] == init[i];
        }
      }
    }
  }

  /**
   * Declarative reading of the strand check: `e` is the error of a group that
   * occurs in `ls` and whose variant set is not exactly the required set, and
   * `e` lists the required variants the group lacks.
   */
  predicate StrandRaises(ls: seq<Lesson>, e: ValidationError) {
    && e.StrandMissing?
    && HasGroup(ls, (e.grade, e.strand))
    && VariantsOf(ls, (e.grade, e.strand)) != RequiredVariants
    && e.missing == MissingVariants(VariantsOf(ls, (e.grade, e.strand)))
  }

  /** The errors the strand checks over `keys` yield. */
  lemma {:induction false} GroupChecksMembers(ls: seq<Lesson>, keys: seq<Key>)
    ensures forall e :: e in GroupChecks([], ls, keys) <==>
      && e.StrandMissing?
      && (e.grade, e.strand) in keys
      && GroupVariants(ls, (e.grade, e.strand)) != RequiredVariants
      && e.missing == MissingVariants(GroupVariants(ls, (e.grade, e.strand)))
  {
    if keys != [] {
      var init := keys[..|keys| - 1];
      GroupChecksMembers(ls, init);
      assert keys == init + [keys[|keys| - 1]];
    }
  }

  /** The strand errors of `ls` are exactly those `StrandRaises` describes. */
  lemma StrandErrorsExact(ls: seq<Lesson>)
    ensures forall e :: e in GroupChecks([], ls, GroupKeys(ls)) <==> StrandRaises(ls, e)
  {
    GroupChecksMembers(ls, GroupKeys(ls));
    GroupKeysFirstSeen(ls);
    forall k {
      GroupVariantsMembers(ls, k);
    }
  }

  /** The `(grade, strand)` group a strand error is about. */
  function GroupOf(e: ValidationError): Key
    requires e.StrandMissing?
  {
    (e.grade, e.strand)
  }

  /**
   * `r` holds only strand errors, and later ones name groups whose first
   * lesson comes later.
   */
  predicate StrandOrdered(ls: seq<Lesson>, r: seq<ValidationError>) {
    && (forall e :: e in r ==> e.StrandMissing?)
    && (forall p, q :: 0 <= p < q < |r| ==> FirstIndex(ls, GroupOf(r[p])) < FirstIndex(ls, GroupOf(r[q])))
  }

  /** Appending the error of a group that first appears later keeps the order. */
  lemma OrderedAppend(ls: seq<Lesson>, earlier: seq<ValidationError>, e: ValidationError)
    requires StrandOrdered(ls, earlier) && e.StrandMissing?
    requires forall x :: x in earlier ==> FirstIndex(ls, GroupOf(x)) < FirstIndex(ls, GroupOf(e))
    ensures StrandOrdered(ls, earlier + [e])
  {
    var r := earlier + [e];
    forall p, q | 0 <= p < q < |r| ensures FirstIndex(ls, GroupOf(r[p])) < FirstIndex(ls, GroupOf(r[q])) {
      assert r[p] == earlier[p] && earlier[p] in earlier;
      if q < |earlier| {
        assert r[q] == earlier[q];
      }
    }
  }

  /**
   * When the keys are visited in order of first appearance, so are the
   * strand errors.
   */
  lemma {:induction false} GroupChecksOrdered(ls: seq<Lesson>, keys: seq<Key>)
    requires forall p, q :: 0 <= p < q < |keys| ==> FirstIndex(ls, keys[p]) < FirstIndex(ls, keys[q])
    ensures StrandOrdered(ls, GroupChecks([], ls, keys))
  {
    if keys != [] {
      var n := |keys|;
      var init, k := keys[..n - 1], keys[n - 1];
      forall p, q | 0 <= p < q < |init| ensures FirstIndex(ls, init[p]) < FirstIndex(ls, init[q]) {
        assert init[p] == keys[p] && init[q] == keys[q];
      }
      GroupChecksOrdered(ls, init);
      GroupChecksMembers(ls, init);
      var earlier := GroupChecks([], ls, init);
      var e := StrandMissing(k.0, k.1, MissingVariants(GroupVariants(ls, k)));
      if GroupVariants(ls, k) != RequiredVariants {
        forall x | x in earlier ensures FirstIndex(ls, GroupOf(x)) < FirstIndex(ls, GroupOf(e)) {
          var j :| 0 <= j < |init| && init[j] == GroupOf(x);
          assert keys[j] == init[j];
        }
        OrderedAppend(ls, earlier, e);
        assert GroupChecks([], ls, keys) == earlier + [e];
      } else {
        assert GroupChecks([], ls, keys) == earlier + [];
        assert earlier + [] == earlier;
      }
    }
  }

  /**
   * The strand errors come out in order of each group's first appearance, so
   * no group is reported twice.
   */
  lemma StrandErrorsOrdered(ls: seq<Lesson>)
    ensures StrandOrdered(ls, GroupChecks([], ls, GroupKeys(ls)))
  {
    GroupKeysFirstSeen(ls);
    GroupChecksOrdered(ls, GroupKeys(ls));
  }

  /**
   * A lesson whose variant is absent or unrecognised puts that value in its
   * group's set, so the group is always reported, even when it also holds
   * every required variant; then the reported missing list is empty.
   */
  lemma UnrecognisedVariantPoisonsGroup(ls: seq<Lesson>, i: nat)
    requires i < |ls| && ls[i].variant !in RequiredVariants
    ensures StrandRaises(ls, StrandMissing(KeyOf(ls[i]).0, KeyOf(ls[i]).1, MissingVariants(VariantsOf(ls, KeyOf(ls[i])))))
    ensures RequiredVariants < VariantsOf(ls, KeyOf(ls[i])) ==>
      StrandRaises(ls, StrandMissing(KeyOf(ls[i]).0, KeyOf(ls[i]).1, []))
  {
    var k := KeyOf(ls[i]);
    assert ls[i].variant in VariantsOf(ls, k);
    assert HasGroup(ls, k);
    MissingVariantsEmptyIff(VariantsOf(ls, k));
  }
}
