/**
 * The studentquiz_question table as far as the approval flag goes: one record
 * per question id holding the stored `approved` value. Flipping and ensuring
 * a record are the two writes locallib.php makes to it.
 */
module Approval {
  import opened Wrappers

  type QuestionId = int

  /** PHP truthiness of the stored flag: "0" is false, every other number true. */
  predicate IsApproved(flag: int) { flag != 0 }

  /** The stored flag of question `q`, or nothing when there is no record (get_field's `false`). */
  function StoredFlag(table: map<QuestionId, int>, q: QuestionId): Option<int> {
    if q in table then Some(table[q]) else None
  }

  /** The value the negated flag is stored as: a boolean written as 0 or 1. */
  function Negate(flag: int): (r: int)
    ensures r == 0 || r == 1
    ensures IsApproved(r) <==> !IsApproved(flag)
  {
    if IsApproved(flag) then 0 else 1
  }

  /** The table after flipping question `q`; a missing record is left missing. */
  function Flipped(table: map<QuestionId, int>, q: QuestionId): (r: map<QuestionId, int>)
    ensures r.Keys == table.Keys
    ensures forall p :: p in table && p != q ==> r[p] == table[p]
    ensures q in table ==> (IsApproved(r[q]) <==> !IsApproved(table[q]))
  {
    if q in table then table[q := Negate(table[q])] else table
  }

  /** The table after ensuring a record for question `q` exists. */
  function Ensured(table: map<QuestionId, int>, q: QuestionId): (r: map<QuestionId, int>)
    ensures r.Keys == table.Keys + {q}
    ensures forall p :: p in table ==> r[p] == table[p]
    ensures q !in table ==> r[q] == 0
  {
    if q in table then table else table[q := 0]
  }

  /** Every stored flag is 0 or 1. */
  predicate Normalised(table: map<QuestionId, int>) {
    forall p :: p in table ==> table[p] == 0 || table[p] == 1
  }

  /** Flipping twice restores a 0/1 flag; other records are never touched. */
  lemma FlipTwice(table: map<QuestionId, int>, q: QuestionId)
    requires q in table ==> table[q] == 0 || table[q] == 1
    ensures Flipped(Flipped(table, q), q) == table
  {
  }

  /** A flag holding another true value (say 2) comes back as 1: a double flip normalises it. */
  lemma FlipTwiceNormalises(table: map<QuestionId, int>, q: QuestionId)
    requires q in table && table[q] !in {0, 1}
    ensures Flipped(Flipped(table, q), q) == table[q := 1]
  {
  }

  /** Ensuring a record a second time changes nothing. */
  lemma EnsureIdempotent(table: map<QuestionId, int>, q: QuestionId)
    ensures Ensured(Ensured(table, q), q) == Ensured(table, q)
  {
  }

  /** Both writes keep every flag 0 or 1. */
  lemma WritesKeepNormalised(table: map<QuestionId, int>, q: QuestionId)
    requires Normalised(table)
    ensures Normalised(Flipped(table, q)) && Normalised(Ensured(table, q))
  {
  }

  class StudentQuizQuestions {
    /** questionid -> approved */
    var approved: map<QuestionId, int>

    constructor ()
      ensures approved == map[]
    {
      approved := map[];
    }

    /** get_field('studentquiz_question', 'approved', ...): PHP `false` when there is no record. */
    function ApprovedField(q: QuestionId): Option<int>
      reads this
    {
      StoredFlag(approved, q)
    }

    /**
     * mod_studentquiz_flip_approved: reads the flag and writes its negation;
     * with no record the write matches no row.
     */
    method FlipApproved(questionid: QuestionId)
      modifies this
      ensures approved == Flipped(old(approved), questionid)
    {
      var flag := ApprovedField(questionid);
      var negated := if flag.Some? then Negate(flag.value) else 1;
      if questionid in approved {
        approved := approved[questionid := negated];
      }
    }

    /** mod_studentquiz_ensure_studentquiz_question_record: insert approved = 0 when no record. */
    method EnsureQuestionRecord(id: QuestionId)
      modifies this
      ensures approved == Ensured(old(approved), id)
    {
      if id !in approved {
        approved := approved[id := 0];
      }
    }
  }
}
