/** The topic table: the mapping built by `load_topic_mapping`
    (getmeduall.py:15-22) and the lookup with a sentinel that
    `create_word_doc` performs (getmeduall.py:63). Reading the CSV file is
    not modelled: the table arrives as its rows, or as `None` when reading
    it raised. */
module Topics {
  import opened Wrappers

  const NoUnit: string := "分野名なし"

  /** `dict(zip(first_column, second_column))`: one entry per row, a later
      row for the same id replacing an earlier one. */
  function BuildMapping(rows: seq<(string, string)>): map<string, string> {
    if rows == [] then map[]
    else
      var last := rows[|rows| - 1];
      BuildMapping(rows[..|rows| - 1])[last.0 := last.1]
  }

  /** `load_topic_mapping()`: the table's mapping, or the empty mapping when
      reading the table failed. */
  function LoadTopicMapping(table: Option<seq<(string, string)>>): (m: map<string, string>)
    ensures table.None? ==> m == map[]
    ensures table.Some? ==> m.Keys == set i | 0 <= i < |table.value| :: table.value[i].0
  {
    match table
    case None => map[]
    case Some(rows) =>
      BuildMappingKeys(rows);
      BuildMapping(rows)
  }

  /** `topic_map.get(qid, "分野名なし")` */
  function UnitOf(topicMap: map<string, string>, qid: string): (u: string)
    ensures qid in topicMap ==> u == topicMap[qid]
    ensures qid !in topicMap ==> u == NoUnit
  {
    if qid in topicMap then topicMap[qid] else NoUnit
  }

  /** The mapping has an entry for exactly the ids in the first column. */
  lemma {:induction false} BuildMappingKeys(rows: seq<(string, string)>)
    ensures BuildMapping(rows).Keys == set i | 0 <= i < |rows| :: rows[i].0
    decreases |rows|
  {
    if rows != [] {
      var front := rows[..|rows| - 1];
      BuildMappingKeys(front);
      var s := set i | 0 <= i < |rows| :: rows[i].0;
      var s' := set i | 0 <= i < |front| :: front[i].0;
      assert s == s' + {rows[|rows| - 1].0} by {
        forall k | k in s ensures k in s' + {rows[|rows| - 1].0} {
          var i :| 0 <= i < |rows| && rows[i].0 == k;
          if i < |front| { assert front[i] == rows[i]; }
        }
        forall k | k in s' ensures k in s {
          var i :| 0 <= i < |front| && front[i].0 == k;
          assert rows[i] == front[i];
        }
      }
    }
  }

  /** An id's entry is the value of the last row that carries it. */
  lemma {:induction false} BuildMappingLastWins(rows: seq<(string, string)>, i: nat)
    requires i < |rows|
    requires forall j :: i < j < |rows| ==> rows[j].0 != rows[i].0
    ensures rows[i].0 in BuildMapping(rows) && BuildMapping(rows)[rows[i].0] == rows[i].1
    decreases |rows|
  {
    if i < |rows| - 1 {
      var front := rows[..|rows| - 1];
      assert front[i] == rows[i];
      BuildMappingLastWins(front, i);
    }
  }

  /** The unit line a page gets from a table that loaded: the value of the
      last row carrying its id, or the sentinel when no row carries it. */
  lemma UnitFromTable(rows: seq<(string, string)>, qid: string)
    ensures (forall i :: 0 <= i < |rows| ==> rows[i].0 != qid) ==>
              UnitOf(LoadTopicMapping(Some(rows)), qid) == NoUnit
    ensures forall i :: 0 <= i < |rows| && rows[i].0 == qid && (forall j :: i < j < |rows| ==> rows[j].0 != qid) ==>
              UnitOf(LoadTopicMapping(Some(rows)), qid) == rows[i].1
  {
    BuildMappingKeys(rows);
    forall i | 0 <= i < |rows| && rows[i].0 == qid && (forall j :: i < j < |rows| ==> rows[j].0 != qid)
      ensures UnitOf(LoadTopicMapping(Some(rows)), qid) == rows[i].1
    {
      BuildMappingLastWins(rows, i);
    }
  }
}
