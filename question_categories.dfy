/**
 * mod_studentquiz_check_question_category: a category whose parent is still
 * the placeholder -1 is attached to the root category (parent 0) of the
 * parent context with the lowest id. The record lookups are parameters: the
 * activity's category (None when there is no record) and the candidate roots.
 */
module QuestionCategories {
  import opened Wrappers

  /** The placeholder parent a freshly created StudentQuiz category gets. */
  const UnattachedParent: int := -1

  datatype QuestionCategory = QuestionCategory(id: int, name: string, contextid: int, parent: int)

  /** True when `id` belongs to one of the candidates and is at most every candidate's id. */
  predicate IsLowestId(id: int, candidates: seq<QuestionCategory>) {
    (exists j :: 0 <= j < |candidates| && candidates[j].id == id)
    && forall j :: 0 <= j < |candidates| ==> id <= candidates[j].id
  }

  /**
   * Returns the record written back with update_record, or None when nothing is
   * written: no record, a parent other than -1, or no candidate roots. A PHP
   * `false` record reads as a null parent, which differs from -1.
   */
  method CheckQuestionCategory(category: Option<QuestionCategory>, candidates: seq<QuestionCategory>)
    returns (written: Option<QuestionCategory>)
    ensures (category.None? || category.value.parent != UnattachedParent || |candidates| == 0)
            <==> written.None?
    ensures written.Some? ==>
      && written.value == category.value.(parent := written.value.parent)
      && IsLowestId(written.value.parent, candidates)
  {
    if category.None? || category.value.parent != UnattachedParent {
      return None;
    }
    if |candidates| == 0 {
      return None;
    }
    var questioncategory := category.value;
    questioncategory := questioncategory.(parent := candidates[0].id);
    var i := 0;
    while i < |candidates|
      invariant 0 <= i <= |candidates|
      invariant questioncategory == category.value.(parent := questioncategory.parent)
      invariant exists j :: 0 <= j < |candidates| && candidates[j].id == questioncategory.parent
      invariant forall j :: 0 <= j < i ==> questioncategory.parent <= candidates[j].id
    {
      if questioncategory.parent > candidates[i].id {
        questioncategory := questioncategory.(parent := candidates[i].id);
      }
      i := i + 1;
    }
    written := Some(questioncategory);
  }

  /** At most one candidate id can be the lowest, so the chosen parent is determined. */
  lemma LowestIdUnique(a: int, b: int, candidates: seq<QuestionCategory>)
    requires IsLowestId(a, candidates) && IsLowestId(b, candidates)
    ensures a == b
  {
    var ja :| 0 <= ja < |candidates| && candidates[ja].id == a;
    var jb :| 0 <= jb < |candidates| && candidates[jb].id == b;
    assert a <= candidates[jb].id && b <= candidates[ja].id;
  }
}
