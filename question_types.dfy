/**
 * mod_studentquiz_get_question_types: the creatable question types offered in
 * a StudentQuiz, which are all of them except "randomsamatch". The question
 * bank's list of creatable types, with each type's localised name, is a parameter.
 */
module QuestionTypes {
  /** A creatable question type: its identifier and its local name. */
  datatype QuestionType = QuestionType(name: string, localName: string)

  const Excluded: string := "randomsamatch"

  function AvailableTypes(types: seq<QuestionType>): (r: seq<QuestionType>)
    ensures forall t :: t in r <==> t in types && t.name != Excluded
    ensures |r| <= |types|
    ensures (forall t :: t in types ==> t.name != Excluded) ==> r == types
  {
    if types == [] then []
    else
      var rest := AvailableTypes(types[1..]);
      assert forall t :: t in types <==> t == types[0] || t in types[1..];
      if types[0].name != Excluded then [types[0]] + rest else rest
  }

  /** The listing keeps the question bank's order. */
  lemma {:induction false} AvailableTypesAppend(a: seq<QuestionType>, b: seq<QuestionType>)
    ensures AvailableTypes(a + b) == AvailableTypes(a) + AvailableTypes(b)
  {
    if a == [] {
      assert a + b == b;
    } else {
      assert (a + b)[1..] == a[1..] + b;
      AvailableTypesAppend(a[1..], b);
    }
  }

  /** Exactly the randomsamatch entries are dropped. */
  lemma {:induction false} AvailableTypesCount(types: seq<QuestionType>)
    ensures |AvailableTypes(types)| == |types| - |FilterNamed(types, Excluded)|
  {
    if types != [] {
      AvailableTypesCount(types[1..]);
    }
  }

  function FilterNamed(types: seq<QuestionType>, name: string): seq<QuestionType> {
    if types == [] then []
    else (if types[0].name == name then [types[0]] else []) + FilterNamed(types[1..], name)
  }
}
