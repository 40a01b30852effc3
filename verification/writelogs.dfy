/** Tables as maps from keys to rows, and what a sequence of upserts makes of one. */
module WriteLogs {
  import opened Positions

  /** INSERT ... ON CONFLICT DO UPDATE, one row after another. */
  function Upsert<K, V>(table: map<K, V>, rows: seq<(K, V)>): map<K, V> {
    if rows == [] then table else Upsert(table, rows[..|rows| - 1])[rows[|rows| - 1].0 := rows[|rows| - 1].1]
  }

  function RowKeys<K, V>(rows: seq<(K, V)>): set<K> {
    set i | 0 <= i < |rows| :: rows[i].0
  }

  lemma {:induction false} UpsertKeys<K, V>(table: map<K, V>, rows: seq<(K, V)>)
    ensures Upsert(table, rows).Keys == table.Keys + RowKeys(rows)
  {
    if rows != [] {
      var head := rows[..|rows| - 1];
      UpsertKeys(table, head);
      forall k ensures k in RowKeys(rows) <==> k in RowKeys(head) + {rows[|rows| - 1].0} {
        if k in RowKeys(rows) {
          var i :| 0 <= i < |rows| && rows[i].0 == k;
          if i < |head| { assert head[i].0 == k; }
        }
        if k in RowKeys(head) {
          var i :| 0 <= i < |head| && head[i].0 == k;
          assert rows[i].0 == k;
        }
      }
    }
  }

  lemma {:induction false} UpsertAppend<K, V>(table: map<K, V>, a: seq<(K, V)>, b: seq<(K, V)>)
    ensures Upsert(table, a + b) == Upsert(Upsert(table, a), b)
    decreases |b|
  {
    if b == [] {
      assert a + b == a;
    } else {
      assert (a + b)[..|a + b| - 1] == a + b[..|b| - 1];
      UpsertAppend(table, a, b[..|b| - 1]);
    }
  }

  lemma UpsertOne<K, V>(table: map<K, V>, rows: seq<(K, V)>, key: K, value: V)
    ensures Upsert(table, rows + [(key, value)]) == Upsert(table, rows)[key := value]
  {
    assert (rows + [(key, value)])[..|rows|] == rows;
  }

  // ---------------------------------------------------------------- which write of a key counts

  /** A write, with the place in its input where a loop makes it. */
  datatype Write<K, V> = Write(at: Place, key: K, value: V)

  ghost predicate InOrder<K, V>(log: seq<Write<K, V>>) {
    forall i, j :: 0 <= i < j < |log| ==> log[i].at.Before(log[j].at)
  }

  /** The last write of its key. */
  ghost predicate IsLast<K, V>(log: seq<Write<K, V>>, i: nat)
    requires i < |log|
  {
    forall j :: i < j < |log| ==> log[j].key != log[i].key
  }

  ghost predicate Untouched<K(!new), V>(log: seq<Write<K, V>>, k: K) {
    forall i :: 0 <= i < |log| ==> log[i].key != k
  }

  /** The last write of each key is in the table, and keys that are not written are as before. */
  ghost predicate LastWins<K(!new), V>(before: map<K, V>, after: map<K, V>, log: seq<Write<K, V>>) {
    && (forall i :: 0 <= i < |log| && IsLast(log, i) ==> log[i].key in after && after[log[i].key] == log[i].value)
    && (forall k :: Untouched(log, k) ==> (k in before <==> k in after) && (k in before ==> after[k] == before[k]))
  }

  function RowsOfLog<K, V>(log: seq<Write<K, V>>): seq<(K, V)> {
    seq(|log|, i requires 0 <= i < |log| => (log[i].key, log[i].value))
  }

  lemma {:induction false} LogWins<K(!new), V>(before: map<K, V>, log: seq<Write<K, V>>)
    ensures Replayed(before, log)
  {
    if log == [] {
      NothingWritten(before, log);
    } else {
      var head, last := log[..|log| - 1], log[|log| - 1];
      LogWins(before, head);
      assert head + [last] == log;
      WinsWithOneMore(before, head, last);
    }
  }

  ghost predicate Replayed<K(!new), V>(before: map<K, V>, log: seq<Write<K, V>>) {
    LastWins(before, Upsert(before, RowsOfLog(log)), log)
  }

  lemma NothingWritten<K(!new), V>(before: map<K, V>, log: seq<Write<K, V>>)
    requires log == []
    ensures Replayed(before, log)
  {
  }

  lemma WinsWithOneMore<K(!new), V>(before: map<K, V>, log: seq<Write<K, V>>, w: Write<K, V>)
    requires Replayed(before, log)
    ensures Replayed(before, log + [w])
  {
    OneMoreRow(before, log, w);
    WinsMore(before, Upsert(before, RowsOfLog(log)), log, w);
  }

  lemma OneMoreRow<K, V>(before: map<K, V>, log: seq<Write<K, V>>, w: Write<K, V>)
    ensures Upsert(before, RowsOfLog(log + [w])) == Upsert(before, RowsOfLog(log))[w.key := w.value]
  {
    assert RowsOfLog(log + [w]) == RowsOfLog(log) + [(w.key, w.value)];
    UpsertOne(before, RowsOfLog(log), w.key, w.value);
  }

  lemma WinsMore<K(!new), V>(before: map<K, V>, mid: map<K, V>, log: seq<Write<K, V>>, w: Write<K, V>)
    requires LastWins(before, mid, log)
    ensures LastWins(before, mid[w.key := w.value], log + [w])
  {
    var more, after := log + [w], mid[w.key := w.value];
    assert more[|log|] == w;
    forall i | 0 <= i < |more| && IsLast(more, i) ensures more[i].key in after && after[more[i].key] == more[i].value {
      if i < |log| {
        assert more[|log|].key != more[i].key;
        forall j | i < j < |log| ensures log[j].key != log[i].key {
          assert more[j] == log[j];
        }
        assert IsLast(log, i);
      }
    }
    forall k | Untouched(more, k) ensures (k in before <==> k in after) && (k in before ==> after[k] == before[k]) {
      forall i | 0 <= i < |log| ensures log[i].key != k {
        assert more[i] == log[i];
      }
      assert Untouched(log, k) && more[|log|].key != k;
    }
  }

  lemma RowsOfBoth<K, V>(a: seq<Write<K, V>>, b: seq<Write<K, V>>)
    ensures RowsOfLog(a + b) == RowsOfLog(a) + RowsOfLog(b)
  {
  }
}
