/** The repository's writes and queries over the word table. Query failures are decided by the caller
    of the protocol; here every statement reaches the table. */
module WordRepo {
  import opened Vocabulary
  import opened WordTable

  predicate HasText(rows: map<nat, Row>, text: string) {
    exists id <- rows :: rows[id].text == text
  }

  /** The row as stored: the write stamps it. */
  function Stamped(row: Row, now: nat): Row {
    row.(stamp := now)
  }

  function Later(a: nat, b: nat): nat {
    if a < b then b else a
  }

  /** One insert: a taken text adds nothing, but an automatic id is used up all the same. */
  function Inserted(t: Table, row: Row, now: nat): Table {
    if HasText(t.rows, row.text) then t.(nextId := t.nextId + 1)
    else Table(t.rows[t.nextId := Stamped(row, now)], t.nextId + 1, Later(t.clock, now))
  }

  const BATCH_SIZE := 500

  /** The rows go in batches; every batch is stamped when it is sent. */
  function InsertedAll(t: Table, rows: seq<Row>, stamps: nat -> nat): Table {
    if rows == [] then t
    else Inserted(InsertedAll(t, Init(rows), stamps), Last(rows), stamps((|rows| - 1) / BATCH_SIZE))
  }

  /** `u` extends `t` by rows under fresh ids that carry one of the stamps. */
  ghost predicate Extends(t: Table, u: Table, stamps: nat -> nat) {
    && Included(t.rows, u.rows) && t.nextId <= u.nextId && t.clock <= u.clock
    && (forall id | id in u.rows && id !in t.rows :: t.nextId <= id < u.nextId && StampedBy(u.rows[id].stamp, stamps))
    && forall id | id in u.rows && id !in t.rows :: u.rows[id].stamp <= u.clock
  }

  ghost predicate StampedBy(stamp: nat, stamps: nat -> nat) {
    exists b :: stamps(b) == stamp
  }

  lemma InsertExtends(t: Table, mid: Table, row: Row, stamps: nat -> nat, batch: nat)
    requires ValidTable(t) && Extends(t, mid, stamps)
    ensures Extends(t, Inserted(mid, row, stamps(batch)), stamps)
  {
    var u := Inserted(mid, row, stamps(batch));
    assert mid.nextId !in mid.rows;
    assert forall id | id in mid.rows :: id in u.rows && u.rows[id] == mid.rows[id];
    assert StampedBy(stamps(batch), stamps);
  }

  lemma InsertKeepsTexts(mid: Table, row: Row, now: nat)
    requires mid.nextId !in mid.rows
    ensures HasText(Inserted(mid, row, now).rows, row.text)
    ensures forall text | HasText(mid.rows, text) :: HasText(Inserted(mid, row, now).rows, text)
  {
    var u := Inserted(mid, row, now);
    assert forall id | id in mid.rows :: id in u.rows && u.rows[id] == mid.rows[id];
    if !HasText(mid.rows, row.text) {
      assert u.rows[mid.nextId].text == row.text;
    }
  }

  /** A batch insert keeps the rows that were there, makes every text present, uses one automatic id for
      every row it is given, and stamps what it adds batch by batch. */
  lemma {:induction false} BatchExtends(t: Table, rows: seq<Row>, stamps: nat -> nat)
    requires ValidTable(t)
    ensures Extends(t, InsertedAll(t, rows, stamps), stamps)
    ensures InsertedAll(t, rows, stamps).nextId == t.nextId + |rows|
    ensures forall k | 0 <= k < |rows| :: HasText(InsertedAll(t, rows, stamps).rows, rows[k].text)
  {
    if rows != [] {
      hide HasText;
      var mid, batch := InsertedAll(t, Init(rows), stamps), (|rows| - 1) / BATCH_SIZE;
      BatchExtends(t, Init(rows), stamps);
      InsertExtends(t, mid, Last(rows), stamps, batch);
      InsertKeepsTexts(mid, Last(rows), stamps(batch));
      forall k | 0 <= k < |rows| ensures HasText(InsertedAll(t, rows, stamps).rows, rows[k].text) {
        assert k < |rows| - 1 ==> rows[k] == Init(rows)[k];
      }
    }
  }

  /** The row is one of those given, stamped when its batch of 500 was sent. */
  ghost predicate IsCopy(stored: Row, rows: seq<Row>, stamps: nat -> nat) {
    exists k: nat :: k < |rows|
      && stored == Row(rows[k].text, rows[k].category, rows[k].level, rows[k].status, stamps(k / 500))
  }

  lemma CopyStays(stored: Row, rows: seq<Row>, stamps: nat -> nat)
    requires rows != [] && IsCopy(stored, Init(rows), stamps)
    ensures IsCopy(stored, rows, stamps)
  {
    var k: nat :| k < |Init(rows)| && stored == Row(Init(rows)[k].text, Init(rows)[k].category, Init(rows)[k].level,
                                                    Init(rows)[k].status, stamps(k / 500));
    assert rows[k] == Init(rows)[k];
  }

  /** What a batch insert adds are copies of the rows it was given. */
  lemma {:induction false} BatchCopies(t: Table, rows: seq<Row>, stamps: nat -> nat)
    requires ValidTable(t)
    ensures forall id | id in InsertedAll(t, rows, stamps).rows && id !in t.rows ::
              IsCopy(InsertedAll(t, rows, stamps).rows[id], rows, stamps)
  {
    if rows != [] {
      hide IsCopy, HasText;
      var mid, after := InsertedAll(t, Init(rows), stamps), InsertedAll(t, rows, stamps);
      BatchCopies(t, Init(rows), stamps);
      forall id | id in after.rows && id !in t.rows ensures IsCopy(after.rows[id], rows, stamps) {
        if id in mid.rows && after.rows[id] == mid.rows[id] {
          CopyStays(mid.rows[id], rows, stamps);
        } else {
          LastIsCopy(rows, stamps);
        }
      }
    }
  }

  lemma LastIsCopy(rows: seq<Row>, stamps: nat -> nat)
    requires rows != []
    ensures IsCopy(Stamped(Last(rows), stamps((|rows| - 1) / BATCH_SIZE)), rows, stamps)
  {
    assert rows[|rows| - 1] == Last(rows);
  }

  /** Hence the fingerprint notices a batch insert under either discipline. */
  lemma ExtendsIsWrite(t: Table, u: Table, stamps: nat -> nat)
    requires ValidTable(t) && Extends(t, u, stamps)
    ensures InsertOrDelete(t, u) && ((forall b :: stamps(b) > t.clock) ==> StampedWrite(t, u))
  {
    if forall b :: stamps(b) > t.clock {
      forall id | id in u.rows && id !in t.rows ensures u.rows[id].stamp > t.clock {
        var b :| stamps(b) == u.rows[id].stamp;
      }
    }
  }

  /** The row that saving `id` writes to: the row that is there, else the one that has the text, else a new one. */
  ghost predicate IsTarget(t: Table, id: nat, text: string, target: nat) {
    if id in t.rows || !HasText(t.rows, text) then target == id else target in t.rows && t.rows[target].text == text
  }

  ghost predicate UniqueTexts(rows: map<nat, Row>) {
    forall a, b | a in rows && b in rows && rows[a].text == rows[b].text :: a == b
  }

  lemma InsertKeepsUnique(t: Table, row: Row, now: nat)
    requires ValidTable(t) && UniqueTexts(t.rows)
    ensures ValidTable(Inserted(t, row, now)) && UniqueTexts(Inserted(t, row, now).rows)
  {
  }

  function Saved(t: Table, id: nat, row: Row, now: nat): Table {
    Table(t.rows[id := Stamped(row, now)], Later(t.nextId, id + 1), Later(t.clock, now))
  }

  class Repository {
    var table: Table

    /** The unique key on the text and the automatic ids. */
    ghost predicate Valid()
      reads this
    {
      ValidTable(table) && UniqueTexts(table.rows)
    }

    /** The id of the row that has the text, or `absent` if there is none. */
    method TextOwner(absent: nat, text: string) returns (id: nat)
      ensures if HasText(table.rows, text) then id in table.rows && table.rows[id].text == text else id == absent
    {
      var todo := table.rows.Keys;
      while todo != {}
        invariant todo <= table.rows.Keys
        invariant forall k | k in table.rows && k !in todo :: table.rows[k].text != text
      {
        var k :| k in todo;
        if table.rows[k].text == text {
          return k;
        }
        todo := todo - {k};
      }
      return absent;
    }

    constructor ()
      ensures table == Table(map[], 1, 0) && Valid()
    {
      table := Table(map[], 1, 0);
    }

    /** Inserts under the next id; a text that is already there violates the unique key, and uses up the id. */
    method Create(row: Row, now: nat) returns (id: Option<nat>)
      requires Valid()
      modifies this
      ensures Valid()
      ensures id == if HasText(old(table).rows, row.text) then None else Some(old(table).nextId)
      ensures table == Inserted(old(table), row, now)
      ensures id.None? ==> table.rows == old(table).rows
      ensures id.Some? ==>
        && id.value !in old(table).rows
        && table.rows == old(table).rows[id.value := Row(row.text, row.category, row.level, row.status, now)]
        && (id.value in Active(table) <==> row.status == 1)
    {
      InsertKeepsUnique(table, row, now);
      if HasText(table.rows, row.text) {
        table := table.(nextId := table.nextId + 1);
        return None;
      }
      id := Some(table.nextId);
      table := Table(table.rows[table.nextId := Stamped(row, now)], table.nextId + 1, Later(table.clock, now));
    }

    /** Saves every column. Without an id this is an insert. A row that is there is updated, unless another
        row has the text. A row that is gone is inserted again under its old id, unless its text is there
        by now: then the row that has the text is overwritten, and keeps its own id. */
    method Update(id: nat, row: Row, now: nat) returns (ok: bool)
      requires Valid()
      modifies this
      ensures Valid()
      ensures id == 0 ==> ok == !HasText(old(table).rows, row.text) && table == Inserted(old(table), row, now)
      ensures id != 0 && id in old(table).rows ==> ok == !HasText(old(table).rows - {id}, row.text)
      ensures id != 0 && id !in old(table).rows ==> ok
      ensures id != 0 && !ok ==> table == old(table)
      ensures id != 0 && ok ==>
        exists target :: IsTarget(old(table), id, row.text, target) && table == Saved(old(table), target, row, now)
      ensures ok && id != 0 && (id in old(table).rows || !HasText(old(table).rows, row.text)) ==>
        && table.rows == old(table).rows[id := Row(row.text, row.category, row.level, row.status, now)]
        && (id in Active(table) <==> row.status == 1)
      ensures ok && id != 0 && id !in old(table).rows && HasText(old(table).rows, row.text) ==>
        exists taken ::
          && taken in old(table).rows && old(table).rows[taken].text == row.text
          && table.rows == old(table).rows[taken := Row(row.text, row.category, row.level, row.status, now)]
      ensures now > old(table).clock ==> StampedWrite(old(table), table)
    {
      if id == 0 {
        var created := Create(row, now);
        return created.Some?;
      }
      ok := id !in table.rows || !HasText(table.rows - {id}, row.text);
      if ok {
        var target := id;
        if id !in table.rows {
          target := TextOwner(id, row.text);
        }
        assert IsTarget(table, id, row.text, target);
        forall k | k in table.rows && k != target ensures table.rows[k].text != row.text {
          assert id in table.rows ==> k in table.rows - {id} && (table.rows - {id})[k] == table.rows[k];
        }
        table := Saved(table, target, row, now);
      }
    }

    method Delete(id: nat)
      requires Valid()
      modifies this
      ensures Valid()
      ensures table == old(table).(rows := old(table).rows - {id})
      ensures StampedWrite(old(table), table) && InsertOrDelete(old(table), table)
    {
      table := table.(rows := table.rows - {id});
    }

    /** Inserts the rows in order, batch by batch, skipping texts that are already there. */
    method BatchCreate(rows: seq<Row>, stamps: nat -> nat) returns (created: nat)
      requires Valid()
      modifies this
      ensures Valid()
      ensures table == InsertedAll(old(table), rows, stamps)
      ensures created == |table.rows| - |old(table).rows|
      ensures forall id | id in old(table).rows :: id in table.rows && table.rows[id] == old(table).rows[id]
      ensures forall id | id in table.rows && id !in old(table).rows :: IsCopy(table.rows[id], rows, stamps)
      ensures forall k | 0 <= k < |rows| :: exists id :: id in table.rows && table.rows[id].text == rows[k].text
    {
      created := 0;
      if rows == [] {
        return;
      }
      for i := 0 to |rows|
        invariant Valid() && table == InsertedAll(old(table), rows[..i], stamps)
        invariant created == |table.rows| - |old(table).rows|
      {
        BatchExtends(old(table), rows[..i], stamps);
        assert Init(rows[..i + 1]) == rows[..i];
        var id := Create(rows[i], stamps(i / BATCH_SIZE));
        if id.Some? {
          created := created + 1;
        }
      }
      assert rows[..|rows|] == rows;
      BatchExtends(old(table), rows, stamps);
      BatchCopies(old(table), rows, stamps);
    }

    /** The active rows, each once, in no particular order. */
    method FindAllActive() returns (found: seq<(nat, Row)>)
      ensures forall id, row :: (id, row) in found <==> id in Active(table) && Active(table)[id] == row
      ensures forall x, y | 0 <= x < y < |found| :: found[x].0 != found[y].0
    {
      found := [];
      var todo := table.rows.Keys;
      while todo != {}
        invariant todo <= table.rows.Keys
        invariant forall id, row :: (id, row) in found <==>
                    id !in todo && id in Active(table) && Active(table)[id] == row
        invariant forall x, y | 0 <= x < y < |found| :: found[x].0 != found[y].0
      {
        var id :| id in todo;
        todo := todo - {id};
        if IsActive(table.rows[id]) {
          forall x | 0 <= x < |found| ensures found[x].0 != id {
            assert (found[x].0, found[x].1) in found;
          }
          found := found + [(id, table.rows[id])];
        }
      }
    }

    /** One pass over the table: count, largest id and latest stamp of the active rows. */
    method ActiveFingerprint() returns (fp: Fingerprint)
      ensures fp == FingerprintOf(Active(table))
    {
      hide FingerprintOf;
      fp := Fingerprint(0, 0, 0);
      var todo := table.rows.Keys;
      ghost var seen: map<nat, Row> := map[];
      while todo != {}
        invariant todo <= table.rows.Keys
        invariant seen == map id | id in Active(table) && id !in todo :: Active(table)[id]
        invariant IsFingerprint(seen, fp)
      {
        var id :| id in todo;
        todo := todo - {id};
        var row := table.rows[id];
        if IsActive(row) {
          FingerprintWith(seen, fp, id, row);
          seen := seen[id := row];
          fp := Fingerprint(fp.count + 1, Later(fp.maxId, id), Later(fp.maxStamp, row.stamp));
        }
      }
      assert seen == Active(table);
      FingerprintUnique(seen, fp, FingerprintOf(Active(table)));
    }
  }

  lemma FingerprintWith(rows: map<nat, Row>, fp: Fingerprint, id: nat, row: Row)
    requires IsFingerprint(rows, fp) && id !in rows
    ensures IsFingerprint(rows[id := row],
                          Fingerprint(fp.count + 1, Later(fp.maxId, id), Later(fp.maxStamp, row.stamp)))
  {
    var grown := rows[id := row];
    assert grown[id] == row;
    assert forall i | i in rows :: grown[i] == rows[i];
    if fp.maxStamp > row.stamp {
      var i :| i in rows && rows[i].stamp == fp.maxStamp;
      assert grown[i].stamp == fp.maxStamp;
    }
  }
}
