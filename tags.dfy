/**
 * mod_studentquiz_get_tags_by_question_ids: the tag rows of the requested
 * questions, grouped by question id. The joined tag / tag_instance table is a
 * parameter; the WHERE clause of the query is the selection `Selected`.
 */
module Tags {
  /** A row of the join of tag and tag_instance. */
  datatype TagInstance = TagInstance(id: int, tagid: int, name: string, rawname: string,
                                     itemtype: string, itemid: int)

  /** The columns the query selects: ti.id, t.id, t.name, t.rawname, ti.itemid. */
  datatype TagRow = TagRow(id: int, tagid: int, name: string, rawname: string, itemid: int)

  const QuestionItemType: string := "question"

  /** The query's result: tag instances on questions whose item id was requested, in table order. */
  function Selected(ids: seq<int>, instances: seq<TagInstance>): (rows: seq<TagRow>)
    ensures forall t :: t in rows ==> t.itemid in ids
    ensures forall t :: t in rows <==> exists i :: 0 <= i < |instances| && IsSelected(ids, instances[i])
                                                && t == Project(instances[i])
    ensures forall i :: (0 <= i < |instances| && instances[i].itemtype == QuestionItemType
                         && instances[i].itemid in ids) ==> Project(instances[i]) in rows
  {
    if instances == [] then []
    else
      var t := instances[0];
      (if t.itemtype == QuestionItemType && t.itemid in ids then [Project(t)] else [])
      + Selected(ids, instances[1..])
  }

  /** The query's WHERE clause: a tag instance on a question whose id was requested. */
  predicate IsSelected(ids: seq<int>, t: TagInstance) {
    t.itemtype == QuestionItemType && t.itemid in ids
  }

  /** The query keeps table order. */
  lemma {:induction false} SelectedAppend(ids: seq<int>, a: seq<TagInstance>, b: seq<TagInstance>)
    ensures Selected(ids, a + b) == Selected(ids, a) + Selected(ids, b)
  {
    if a == [] {
      assert a + b == b;
    } else {
      assert (a + b)[1..] == a[1..] + b;
      SelectedAppend(ids, a[1..], b);
    }
  }

  function Project(t: TagInstance): TagRow {
    TagRow(t.id, t.tagid, t.name, t.rawname, t.itemid)
  }

  /** The rows of `tags` whose item is `item`, in input order. */
  function RowsFor(tags: seq<TagRow>, item: int): (group: seq<TagRow>)
    ensures forall t :: t in group <==> t in tags && t.itemid == item
  {
    if tags == [] then []
    else
      var init := tags[..|tags| - 1];
      var last := tags[|tags| - 1];
      assert forall t :: t in tags <==> t in init || t == last;
      RowsFor(init, item) + if last.itemid == item then [last] else []
  }

  /** The item ids that occur in `tags`. */
  function ItemIds(tags: seq<TagRow>): set<int> {
    set t | t in tags :: t.itemid
  }

  /** Grouping preserves order: rows earlier in the input stay earlier within their group. */
  lemma {:induction false} RowsForAppend(a: seq<TagRow>, b: seq<TagRow>, item: int)
    ensures RowsFor(a + b, item) == RowsFor(a, item) + RowsFor(b, item)
    decreases |b|
  {
    if b == [] {
      assert a + b == a;
    } else {
      var b' := b[..|b| - 1];
      assert (a + b)[..|a + b| - 1] == a + b';
      assert (a + b)[|a + b| - 1] == b[|b| - 1];
      RowsForAppend(a, b', item);
    }
  }

  /** Every row occurs in its own group as often as in the input, and in no other group. */
  lemma {:induction false} RowsForCount(tags: seq<TagRow>, item: int, t: TagRow)
    ensures multiset(RowsFor(tags, item))[t] == if t.itemid == item then multiset(tags)[t] else 0
  {
    if tags != [] {
      var init := tags[..|tags| - 1];
      assert tags == init + [tags[|tags| - 1]];
      RowsForCount(init, item, t);
    }
  }

  /** Extending the input by one row adds that row's item id. */
  lemma ItemIdsStep(tags: seq<TagRow>, i: nat)
    requires i < |tags|
    ensures ItemIds(tags[..i + 1]) == ItemIds(tags[..i]) + {tags[i].itemid}
  {
    assert tags[..i + 1] == tags[..i] + [tags[i]];
  }

  /** Extending the input by one row extends only that row's group, by that row. */
  lemma RowsForStep(tags: seq<TagRow>, i: nat, item: int)
    requires i < |tags|
    ensures RowsFor(tags[..i + 1], item) == RowsFor(tags[..i], item) + if tags[i].itemid == item then [tags[i]] else []
  {
    assert tags[..i + 1][..i] == tags[..i];
  }

  /** An item id that has not occurred yet has an empty group. */
  lemma RowsForAbsent(tags: seq<TagRow>, item: int)
    requires item !in ItemIds(tags)
    ensures RowsFor(tags, item) == []
  {
  }

  /**
   * The grouping loop: every row is appended to its item's group, with an
   * empty group created first for an item not yet seen.
   */
  method GroupByItem(tags: seq<TagRow>) returns (result: map<int, seq<TagRow>>)
    ensures result.Keys == ItemIds(tags)
    ensures forall item :: item in result ==> result[item] == RowsFor(tags, item) && result[item] != []
  {
    result := map[];
    var i := 0;
    while i < |tags|
      invariant 0 <= i <= |tags|
      invariant result.Keys == ItemIds(tags[..i])
      invariant forall item :: item in result ==> result[item] == RowsFor(tags[..i], item) && result[item] != []
    {
      var tag := tags[i];
      ItemIdsStep(tags, i);
      ghost var before := result;
      if tag.itemid !in result {
        RowsForAbsent(tags[..i], tag.itemid);
        result := result[tag.itemid := []];
      }
      result := result[tag.itemid := result[tag.itemid] + [tag]];
      forall item | item in result
        ensures result[item] == RowsFor(tags[..i + 1], item) && result[item] != []
      {
        RowsForStep(tags, i, item);
        if item != tag.itemid {
          assert result[item] == before[item];
        }
      }
      i := i + 1;
    }
    assert tags[..i] == tags;
  }

  /** The whole helper: an empty id list short-cuts to an empty result. */
  method GetTagsByQuestionIds(ids: seq<int>, instances: seq<TagInstance>) returns (result: map<int, seq<TagRow>>)
    ensures ids == [] ==> result == map[]
    ensures result.Keys <= set id | id in ids
    ensures ids != [] ==> result.Keys == ItemIds(Selected(ids, instances))
    ensures forall item :: item in result ==> result[item] == RowsFor(Selected(ids, instances), item)
  {
    if |ids| == 0 {
      return map[];
    }
    result := GroupByItem(Selected(ids, instances));
  }
}
