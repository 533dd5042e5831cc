/** The persistent failing-node table, keyed by registry node. */
module FailingNodeDatastore {
  import opened FailingNode

  datatype Row = Row(node: nat, failed: nat)

  class Datastore {
    var rows: map<nat, nat>

    constructor ()
      ensures rows == map[]
    {
      rows := map[];
    }

    /** `INSERT` under a primary key: a second insert of a node keeps the first failure time. */
    method InsertFailingNode(row: Row)
      modifies this
      ensures rows == Insert(old(rows), row.node, row.failed)
      ensures rows.Keys == old(rows).Keys + {row.node}
      ensures forall n :: n in rows ==> rows[n] == if n in old(rows) then old(rows)[n] else row.failed
    {
      if row.node !in rows {
        rows := rows[row.node := row.failed];
      }
    }

    method DeleteData(node: nat)
      modifies this
      ensures rows == old(rows) - {node}
    {
      rows := rows - {node};
    }

    /** `SELECT` has no `ORDER BY`, so the caller's list grows by the rows in some order. */
    method ReadFailingNodes(failingNodes: seq<Row>) returns (r: seq<Row>)
      ensures failingNodes <= r
      ensures Enumerates(r[|failingNodes|..], rows)
    {
      r := failingNodes;
      var left := rows.Keys;
      while left != {}
        invariant failingNodes <= r && left <= rows.Keys
        invariant Enumerates(r[|failingNodes|..], rows - left)
        decreases left
      {
        var node :| node in left;
        ghost var before, seen := r[|failingNodes|..], rows - left;
        r := r + [Row(node, rows[node])];
        EnumerationGrows(before, seen, Row(node, rows[node]));
        assert r[|failingNodes|..] == before + [Row(node, rows[node])];
        left := left - {node};
        assert rows - left == seen[node := rows[node]];
      }
      assert rows - {} == rows;
    }
  }

  lemma EnumerationGrows(list: seq<Row>, rows: map<nat, nat>, row: Row)
    requires Enumerates(list, rows) && row.node !in rows
    ensures Enumerates(list + [row], rows[row.node := row.failed])
  {
    assert (list + [row])[|list|] == row;
    assert forall n :: n in rows ==> Row(n, rows[n]) in list + [row];
  }

  /** The list holds every row of the table exactly once. */
  ghost predicate Enumerates(list: seq<Row>, rows: map<nat, nat>) {
    && (forall i :: 0 <= i < |list| ==> list[i].node in rows && rows[list[i].node] == list[i].failed)
    && (forall i, j :: 0 <= i < j < |list| ==> list[i].node != list[j].node)
    && (forall n :: n in rows ==> Row(n, rows[n]) in list)
  }
}
