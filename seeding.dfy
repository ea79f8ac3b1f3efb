/**
 * The start-up hook `create_default_questions`: after the `pages` app is
 * migrated, `get_or_create` a Question row for each preset key. Question
 * texts carry no unique constraint, so a key can have several rows.
 */
module Seeding {
  import opened Wrappers
  import opened Models

  /** The Question table: rows by id, and the id the next insert receives. */
  datatype QuestionTable = QuestionTable(rows: map<QuestionId, string>, nextId: QuestionId)

  /** Every stored id was handed out before `nextId`. */
  predicate TableValid(t: QuestionTable) {
    forall id :: id in t.rows ==> id < t.nextId
  }

  /** `Question.objects.filter(text=text)`. */
  function RowsWithText(rows: map<QuestionId, string>, text: string): set<QuestionId> {
    set id | id in rows && rows[id] == text
  }

  /** The table after a run, and whether the run stopped on an error. */
  datatype Seeded = Seeded(table: QuestionTable, failed: bool)

  /**
   * `Question.objects.get_or_create(text=text)`: one matching row is
   * fetched, none means a new row, more than one raises
   * MultipleObjectsReturned and nothing is written.
   */
  function GetOrCreate(t: QuestionTable, text: string): (r: Seeded)
    requires TableValid(t)
    ensures TableValid(r.table)
    ensures r.failed <==> |RowsWithText(t.rows, text)| >= 2
    ensures |RowsWithText(t.rows, text)| != 0 ==> r.table == t
    ensures !r.failed ==> |RowsWithText(r.table.rows, text)| == 1
    ensures |RowsWithText(t.rows, text)| == 0 ==> |r.table.rows| == |t.rows| + 1
    ensures forall id :: id in t.rows ==> id in r.table.rows && r.table.rows[id] == t.rows[id]
    ensures forall id :: id in r.table.rows && id !in t.rows ==> r.table.rows[id] == text
  {
    var found := RowsWithText(t.rows, text);
    if |found| >= 2 then Seeded(t, true)
    else if |found| == 1 then Seeded(t, false)
    else
      var rows := t.rows[t.nextId := text];
      assert RowsWithText(rows, text) == {t.nextId};
      Seeded(QuestionTable(rows, t.nextId + 1), false)
  }

  /** The loop over `keys`, stopping at the first error. */
  function GetOrCreateAll(t: QuestionTable, keys: seq<string>): (r: Seeded)
    requires TableValid(t)
    ensures TableValid(r.table)
    ensures forall id :: id in t.rows ==> id in r.table.rows && r.table.rows[id] == t.rows[id]
    ensures forall id :: id in r.table.rows && id !in t.rows ==> r.table.rows[id] in keys
    decreases |keys|
  {
    if keys == [] then Seeded(t, false)
    else
      var init := keys[..|keys| - 1];
      var s := GetOrCreateAll(t, init);
      if s.failed then s else GetOrCreate(s.table, keys[|keys| - 1])
  }

  /** `get_or_create` for one text leaves the rows of every other text alone. */
  lemma GetOrCreateFrame(t: QuestionTable, text: string, other: string)
    requires TableValid(t) && other != text
    ensures RowsWithText(GetOrCreate(t, text).table.rows, other) == RowsWithText(t.rows, other)
  {
  }

  /** The loop leaves the rows of texts outside `keys` alone. */
  lemma {:induction false} GetOrCreateAllFrame(t: QuestionTable, keys: seq<string>, other: string)
    requires TableValid(t) && other !in keys
    ensures RowsWithText(GetOrCreateAll(t, keys).table.rows, other) == RowsWithText(t.rows, other)
    decreases |keys|
  {
    if keys != [] {
      var init := keys[..|keys| - 1];
      assert forall i :: 0 <= i < |init| ==> init[i] == keys[i];
      GetOrCreateAllFrame(t, init, other);
      var s := GetOrCreateAll(t, init);
      if !s.failed {
        GetOrCreateFrame(s.table, keys[|keys| - 1], other);
      }
    }
  }

  /** Once the loop has stopped on an error, the later keys are never reached. */
  lemma {:induction false} StopsAtFailure(t: QuestionTable, keys: seq<string>, j: nat)
    requires TableValid(t) && j <= |keys|
    requires GetOrCreateAll(t, keys[..j]).failed
    ensures GetOrCreateAll(t, keys) == GetOrCreateAll(t, keys[..j])
    decreases |keys| - j
  {
    if j < |keys| {
      var longer := keys[..j + 1];
      assert longer[..j] == keys[..j];
      assert GetOrCreateAll(t, longer) == GetOrCreateAll(t, keys[..j]);
      StopsAtFailure(t, keys, j + 1);
    } else {
      assert keys[..j] == keys;
    }
  }

  /** The signal handler: only the `pages` app's migration seeds the table. */
  function CreateDefaultQuestions(t: QuestionTable, senderName: string): (r: Seeded)
    requires TableValid(t)
    ensures senderName != "pages" ==> r == Seeded(t, false)
    ensures TableValid(r.table)
    ensures forall id :: id in t.rows ==> id in r.table.rows && r.table.rows[id] == t.rows[id]
    ensures forall id :: id in r.table.rows && id !in t.rows ==> r.table.rows[id] in QuestionKeys()
  {
    if senderName == "pages" then GetOrCreateAll(t, QuestionKeys()) else Seeded(t, false)
  }

  predicate DistinctKeys(keys: seq<string>) {
    forall i, j :: 0 <= i < j < |keys| ==> keys[i] != keys[j]
  }

  /** Each key has exactly one row. */
  ghost predicate Settled(t: QuestionTable, keys: seq<string>) {
    forall i :: 0 <= i < |keys| ==> |RowsWithText(t.rows, keys[i])| == 1
  }

  /** A run that did not fail leaves exactly one row per key. */
  lemma {:induction false} CompletedRunSettles(t: QuestionTable, keys: seq<string>)
    requires TableValid(t) && DistinctKeys(keys)
    requires !GetOrCreateAll(t, keys).failed
    ensures Settled(GetOrCreateAll(t, keys).table, keys)
    decreases |keys|
  {
    if keys != [] {
      var init := keys[..|keys| - 1];
      var last := keys[|keys| - 1];
      var s := GetOrCreateAll(t, init);
      assert !s.failed;
      CompletedRunSettles(t, init);
      var r := GetOrCreate(s.table, last);
      assert r == GetOrCreateAll(t, keys);
      forall i | 0 <= i < |keys| - 1 ensures |RowsWithText(r.table.rows, keys[i])| == 1 {
        assert init[i] == keys[i] != last;
        GetOrCreateFrame(s.table, last, keys[i]);
      }
    }
  }

  /** On a table where every key already has one row, a run changes nothing. */
  lemma {:induction false} SettledRunIsNoOp(t: QuestionTable, keys: seq<string>)
    requires TableValid(t) && Settled(t, keys)
    ensures GetOrCreateAll(t, keys) == Seeded(t, false)
    decreases |keys|
  {
    if keys != [] {
      var init := keys[..|keys| - 1];
      assert forall i :: 0 <= i < |init| ==> init[i] == keys[i];
      SettledRunIsNoOp(t, init);
    }
  }

  /**
   * A failed run stops at a key with several rows; running again passes the
   * same keys without writing and stops at the same one.
   */
  lemma {:induction false} RerunAfterFailure(t: QuestionTable, keys: seq<string>)
    requires TableValid(t) && DistinctKeys(keys)
    requires GetOrCreateAll(t, keys).failed
    ensures GetOrCreateAll(GetOrCreateAll(t, keys).table, keys) == GetOrCreateAll(t, keys)
    decreases |keys|
  {
    var init := keys[..|keys| - 1];
    var last := keys[|keys| - 1];
    var s := GetOrCreateAll(t, init);
    var r := GetOrCreateAll(t, keys);
    if s.failed {
      RerunAfterFailure(t, init);
      assert GetOrCreateAll(r.table, init) == s;
    } else {
      CompletedRunSettles(t, init);
      assert r == GetOrCreate(s.table, last) && r.table == s.table;
      SettledRunIsNoOp(s.table, init);
    }
  }

  /** Running the loop twice leaves the same table as running it once. */
  lemma {:induction false} GetOrCreateAllIdempotent(t: QuestionTable, keys: seq<string>)
    requires TableValid(t) && DistinctKeys(keys)
    ensures GetOrCreateAll(GetOrCreateAll(t, keys).table, keys) == GetOrCreateAll(t, keys)
  {
    var r := GetOrCreateAll(t, keys);
    if r.failed {
      RerunAfterFailure(t, keys);
    } else {
      CompletedRunSettles(t, keys);
      SettledRunIsNoOp(r.table, keys);
    }
  }

  /** The start-up hook is idempotent. */
  lemma CreateDefaultQuestionsIdempotent(t: QuestionTable, senderName: string)
    requires TableValid(t)
    ensures CreateDefaultQuestions(CreateDefaultQuestions(t, senderName).table, senderName)
            == CreateDefaultQuestions(t, senderName)
  {
    if senderName == "pages" {
      GetOrCreateAllIdempotent(t, QuestionKeys());
    }
  }

  /** A completed run of the hook leaves exactly one row per preset key. */
  lemma CreateDefaultQuestionsSettles(t: QuestionTable)
    requires TableValid(t)
    requires !CreateDefaultQuestions(t, "pages").failed
    ensures Settled(CreateDefaultQuestions(t, "pages").table, QuestionKeys())
  {
    CompletedRunSettles(t, QuestionKeys());
  }

  /** A key with no row gets one new row holding it. */
  lemma CreateAddsOne(t: QuestionTable, text: string)
    requires TableValid(t) && RowsWithText(t.rows, text) == {}
    ensures GetOrCreate(t, text).table.rows.Values == t.rows.Values + {text}
  {
    var rows := GetOrCreate(t, text).table.rows;
    assert rows == t.rows[t.nextId := text];
  }

  /** Keys with no row yet each get one new row and nothing fails. */
  lemma {:induction false} FreshKeysAdded(t: QuestionTable, keys: seq<string>)
    requires TableValid(t) && DistinctKeys(keys)
    requires forall i :: 0 <= i < |keys| ==> RowsWithText(t.rows, keys[i]) == {}
    ensures !GetOrCreateAll(t, keys).failed
    ensures |GetOrCreateAll(t, keys).table.rows| == |t.rows| + |keys|
    ensures forall i :: 0 <= i < |keys| ==> keys[i] in GetOrCreateAll(t, keys).table.rows.Values
    decreases |keys|
  {
    if keys != [] {
      var init := keys[..|keys| - 1];
      var last := keys[|keys| - 1];
      assert forall i :: 0 <= i < |init| ==> init[i] == keys[i];
      FreshKeysAdded(t, init);
      var s := GetOrCreateAll(t, init);
      assert last !in init;
      GetOrCreateAllFrame(t, init, last);
      CreateAddsOne(s.table, last);
      var r := GetOrCreate(s.table, last);
      assert GetOrCreateAll(t, keys) == r;
      assert |r.table.rows| == |s.table.rows| + 1;
      forall i | 0 <= i < |keys| ensures keys[i] in r.table.rows.Values {
        if i < |keys| - 1 {
          assert init[i] == keys[i] && init[i] in s.table.rows.Values;
        }
      }
    }
  }

  /**
   * On an empty table the hook creates exactly three rows, whose texts are
   * the preset keys ("mother_maiden", "first_pet", "favorite_color").
   */
  lemma SeedEmptyTable(nextId: QuestionId)
    ensures !CreateDefaultQuestions(QuestionTable(map[], nextId), "pages").failed
    ensures |CreateDefaultQuestions(QuestionTable(map[], nextId), "pages").table.rows| == 3
    ensures forall text ::
              text in CreateDefaultQuestions(QuestionTable(map[], nextId), "pages").table.rows.Values <==>
              text in QuestionKeys()
  {
    var empty := QuestionTable(map[], nextId);
    var keys := QuestionKeys();
    var r := GetOrCreateAll(empty, keys);
    assert CreateDefaultQuestions(empty, "pages") == r;
    FreshKeysAdded(empty, keys);
    assert keys[0] in r.table.rows.Values && keys[1] in r.table.rows.Values && keys[2] in r.table.rows.Values;
    forall v | v in r.table.rows.Values ensures v in keys {
      var id :| id in r.table.rows && r.table.rows[id] == v;
    }
  }
}
