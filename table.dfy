/** The metadata table and the merge split_audio performs on it:
    `pd.concat([existing, new]).drop_duplicates(subset='frame_name', keep='first')`. */
module Table {
  import opened Metadata

  /** The frame names occurring in a table. */
  function Names(rows: seq<Row>): set<string> {
    set i | 0 <= i < |rows| :: rows[i].frameName
  }

  /** No row before row i carries the frame name of row i. */
  predicate FirstOfName(rows: seq<Row>, i: nat)
    requires i < |rows|
  {
    forall j :: 0 <= j < i ==> rows[j].frameName != rows[i].frameName
  }

  lemma NamesCons(rows: seq<Row>)
    requires rows != []
    ensures Names(rows) == {rows[0].frameName} + Names(rows[1..])
  {
  }

  /** Keeps, scanning from the front, each row whose frame name is neither
      in seen nor carried by an earlier row; order is kept. */
  function KeepFirstFrom(rows: seq<Row>, seen: set<string>): (r: seq<Row>)
    ensures DistinctNames(r)
    ensures Names(r) == Names(rows) - seen
    ensures |r| <= |rows|
    decreases |rows|
  {
    if rows == [] then []
    else
      NamesCons(rows);
      if rows[0].frameName in seen then KeepFirstFrom(rows[1..], seen)
      else
        var tail := KeepFirstFrom(rows[1..], seen + {rows[0].frameName});
        NamesCons([rows[0]] + tail);
        assert ([rows[0]] + tail)[1..] == tail;
        assert forall k :: 0 <= k < |tail| ==> tail[k].frameName in Names(tail);
        [rows[0]] + tail
  }

  /** drop_duplicates(subset='frame_name', keep='first'). */
  function DropDuplicates(rows: seq<Row>): seq<Row> {
    KeepFirstFrom(rows, {})
  }

  /** The table written back when frames_metadata.csv already exists. */
  function Merge(existing: seq<Row>, added: seq<Row>): seq<Row> {
    DropDuplicates(existing + added)
  }

  /** Deduplicating a concatenation deduplicates the front, then the back
      against every name the front holds. */
  lemma {:induction false} KeepFirstAppend(a: seq<Row>, b: seq<Row>, seen: set<string>)
    ensures KeepFirstFrom(a + b, seen) == KeepFirstFrom(a, seen) + KeepFirstFrom(b, seen + Names(a))
    decreases |a|
  {
    if a == [] {
      assert a + b == b;
      assert seen + Names(a) == seen;
    } else {
      NamesCons(a);
      assert (a + b)[0] == a[0];
      assert (a + b)[1..] == a[1..] + b;
      if a[0].frameName in seen {
        KeepFirstAppend(a[1..], b, seen);
        assert seen + Names(a[1..]) == seen + Names(a);
      } else {
        var seen' := seen + {a[0].frameName};
        KeepFirstAppend(a[1..], b, seen');
        assert seen' + Names(a[1..]) == seen + Names(a);
      }
    }
  }

  /** A row is in the result exactly when it is the first row of its frame
      name and that name was not already seen. */
  lemma {:induction false} KeepFirstMember(rows: seq<Row>, seen: set<string>, x: Row)
    ensures x in KeepFirstFrom(rows, seen) <==>
              exists i :: 0 <= i < |rows| && rows[i] == x && x.frameName !in seen && FirstOfName(rows, i)
    decreases |rows|
  {
    if rows != [] {
      var h, t := rows[0], rows[1..];
      var seen' := if h.frameName in seen then seen else seen + {h.frameName};
      KeepFirstMember(t, seen', x);
      var inTail := exists i :: 0 <= i < |t| && t[i] == x && x.frameName !in seen' && FirstOfName(t, i);
      if x in KeepFirstFrom(rows, seen) {
        if x == h && h.frameName !in seen {
          assert rows[0] == x && FirstOfName(rows, 0);
        } else {
          assert inTail;
          var i :| 0 <= i < |t| && t[i] == x && x.frameName !in seen' && FirstOfName(t, i);
          assert rows[i + 1] == x;
          assert FirstOfName(rows, i + 1);
        }
      } else {
        forall i | 0 <= i < |rows| && rows[i] == x && x.frameName !in seen
          ensures !FirstOfName(rows, i)
        {
          if i > 0 && FirstOfName(rows, i) {
            assert t[i - 1] == x && FirstOfName(t, i - 1);
          }
        }
      }
    }
  }

  /** A table whose names are distinct and unseen is left as it is. */
  lemma {:induction false} KeepFirstOfDistinct(rows: seq<Row>, seen: set<string>)
    requires DistinctNames(rows) && Names(rows) !! seen
    ensures KeepFirstFrom(rows, seen) == rows
    decreases |rows|
  {
    if rows != [] {
      NamesCons(rows);
      var seen' := seen + {rows[0].frameName};
      forall k | 0 <= k < |rows[1..]| ensures rows[1..][k].frameName !in seen' {
        assert rows[1..][k].frameName in Names(rows[1..]);
        assert rows[0].frameName != rows[k + 1].frameName;
      }
      KeepFirstOfDistinct(rows[1..], seen');
    }
  }

  /** Rows whose names were all seen before are all dropped. */
  lemma KeepFirstAllSeen(rows: seq<Row>, seen: set<string>)
    requires Names(rows) <= seen
    ensures KeepFirstFrom(rows, seen) == []
  {
  }

  /** The merged table is the existing table deduplicated, followed by the
      new rows whose names are new, first occurrence each. */
  lemma MergeShape(existing: seq<Row>, added: seq<Row>)
    ensures Merge(existing, added) == DropDuplicates(existing) + KeepFirstFrom(added, Names(existing))
    ensures DistinctNames(Merge(existing, added))
    ensures Names(Merge(existing, added)) == Names(existing) + Names(added)
  {
    KeepFirstAppend(existing, added, {});
    assert {} + Names(existing) == Names(existing);
    NamesAppend(existing, added);
  }

  lemma NamesAppend(a: seq<Row>, b: seq<Row>)
    ensures Names(a + b) == Names(a) + Names(b)
  {
    var ab := a + b;
    forall n | n in Names(a + b) ensures n in Names(a) + Names(b) {
      var i :| 0 <= i < |ab| && ab[i].frameName == n;
      if i >= |a| {
        assert b[i - |a|].frameName == n;
      }
    }
    forall n | n in Names(b) ensures n in Names(ab) {
      var i :| 0 <= i < |b| && b[i].frameName == n;
      assert ab[i + |a|].frameName == n;
    }
    forall n | n in Names(a) ensures n in Names(ab) {
      var i :| 0 <= i < |a| && a[i].frameName == n;
      assert ab[i].frameName == n;
    }
  }

  /** A table written by split_audio (distinct names) survives a merge
      unchanged as the prefix of the result. */
  lemma MergeKeepsExisting(existing: seq<Row>, added: seq<Row>)
    requires DistinctNames(existing)
    ensures |existing| <= |Merge(existing, added)|
    ensures Merge(existing, added)[..|existing|] == existing
  {
    MergeShape(existing, added);
    KeepFirstOfDistinct(existing, {});
  }

  /** A row of one call (distinct names) ends up after the kept existing
      rows exactly when no existing row carries its frame name. */
  lemma MergeKeepsNewRow(existing: seq<Row>, added: seq<Row>, j: nat)
    requires DistinctNames(added) && j < |added|
    ensures |DropDuplicates(existing)| <= |Merge(existing, added)|
    ensures added[j] in Merge(existing, added)[|DropDuplicates(existing)|..] <==>
              added[j].frameName !in Names(existing)
  {
    MergeShape(existing, added);
    var m := Merge(existing, added);
    assert m[|DropDuplicates(existing)|..] == KeepFirstFrom(added, Names(existing));
    KeepFirstMember(added, Names(existing), added[j]);
    if added[j].frameName !in Names(existing) {
      assert FirstOfName(added, j);
    }
  }

  /** The first row for each name wins: a row of either table is in the
      merge exactly when it is the first row of existing ++ added with its
      frame name. */
  lemma MergeFirstWins(existing: seq<Row>, added: seq<Row>, x: Row)
    ensures x in Merge(existing, added) <==>
              exists i :: 0 <= i < |existing + added| && (existing + added)[i] == x &&
                FirstOfName(existing + added, i)
  {
    KeepFirstMember(existing + added, {}, x);
  }

  /** Merging the same rows twice changes nothing: re-running split_audio
      on the same recording leaves the table as it was. */
  lemma MergeIdempotent(existing: seq<Row>, added: seq<Row>)
    ensures Merge(Merge(existing, added), added) == Merge(existing, added)
  {
    var m := Merge(existing, added);
    MergeShape(existing, added);
    MergeShape(m, added);
    KeepFirstOfDistinct(m, {});
    KeepFirstAllSeen(added, Names(m));
  }

  /** With no table yet, split_audio writes its rows without deduplication;
      since their names are distinct, that is what a merge into an empty
      table gives too. */
  lemma MergeIntoEmpty(added: seq<Row>)
    requires DistinctNames(added)
    ensures Merge([], added) == added
  {
    assert [] + added == added;
    KeepFirstOfDistinct(added, {});
  }
}
