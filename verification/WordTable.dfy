/** The word table and the fingerprint of its active rows. */
module WordTable {
  import opened Vocabulary

  datatype Row = Row(text: string, category: string, level: int, status: int, stamp: nat)

  /** The table, the next automatic id and the latest write stamp. */
  datatype Table = Table(rows: map<nat, Row>, nextId: nat, clock: nat)

  datatype Fingerprint = Fingerprint(count: nat, maxId: nat, maxStamp: nat)

  predicate IsActive(row: Row) {
    row.status == 1
  }

  function Active(t: Table): map<nat, Row> {
    map id | id in t.rows && IsActive(t.rows[id]) :: t.rows[id]
  }

  ghost predicate Included(a: map<nat, Row>, b: map<nat, Row>) {
    forall id | id in a :: id in b && b[id] == a[id]
  }

  /** Count, largest id and latest stamp of the rows; zero for no rows. */
  ghost predicate IsFingerprint(rows: map<nat, Row>, fp: Fingerprint) {
    && fp.count == |rows|
    && (forall id | id in rows :: id <= fp.maxId && rows[id].stamp <= fp.maxStamp)
    && (fp.maxId in rows || (rows == map[] && fp.maxId == 0))
    && ((exists id :: id in rows && rows[id].stamp == fp.maxStamp) || (rows == map[] && fp.maxStamp == 0))
  }

  ghost function FingerprintOf(rows: map<nat, Row>): (fp: Fingerprint)
    ensures IsFingerprint(rows, fp)
    decreases |rows|
  {
    if rows == map[] then Fingerprint(0, 0, 0) else
      var id :| id in rows;
      var rest := rows - {id};
      assert rest.Keys == rows.Keys - {id};
      var fp := FingerprintOf(rest);
      assert forall i | i in rows :: i == id || (i in rest && rest[i] == rows[i]);
      var stamp := rows[id].stamp;
      assert fp.maxStamp > stamp ==> exists i :: i in rest && rows[i].stamp == fp.maxStamp;
      assert fp.maxStamp <= stamp ==> rows[id].stamp == stamp;
      Fingerprint(fp.count + 1, if id > fp.maxId then id else fp.maxId,
                  if stamp > fp.maxStamp then stamp else fp.maxStamp)
  }

  lemma FingerprintUnique(rows: map<nat, Row>, a: Fingerprint, b: Fingerprint)
    requires IsFingerprint(rows, a) && IsFingerprint(rows, b)
    ensures a == b
  {
  }

  // ---- Writes ----

  ghost predicate ValidTable(t: Table) {
    forall id | id in t.rows :: id < t.nextId && t.rows[id].stamp <= t.clock
  }

  /** A write with a stamp later than all earlier ones: rows are kept, dropped or freshly stamped. */
  ghost predicate StampedWrite(t: Table, u: Table) {
    && t.nextId <= u.nextId && t.clock <= u.clock
    && forall id | id in u.rows ::
         || (id in t.rows && u.rows[id] == t.rows[id])
         || (t.clock < u.rows[id].stamp <= u.clock && id < u.nextId)
  }

  /** Only inserts with fresh ids and deletes; nothing is assumed of the stamps. */
  ghost predicate InsertOrDelete(t: Table, u: Table) {
    && t.nextId <= u.nextId
    && forall id | id in u.rows ::
         || (id in t.rows && u.rows[id] == t.rows[id])
         || t.nextId <= id < u.nextId
  }

  ghost predicate StampedHistory(h: seq<Table>) {
    h != [] && ValidTable(h[0]) && forall i | 0 < i < |h| :: StampedWrite(h[i - 1], h[i])
  }

  ghost predicate InsertDeleteHistory(h: seq<Table>) {
    && h != [] && (forall id | id in h[0].rows :: id < h[0].nextId)
    && forall i | 0 < i < |h| :: InsertOrDelete(h[i - 1], h[i])
  }

  /** A row of a later table was there before, or carries a later stamp. */
  lemma {:induction false} RowsSince(h: seq<Table>, s: nat, t: nat)
    requires StampedHistory(h) && s <= t < |h|
    ensures ValidTable(h[t]) && h[s].clock <= h[t].clock
    ensures forall id | id in h[t].rows ::
              (id in h[s].rows && h[s].rows[id] == h[t].rows[id]) || h[s].clock < h[t].rows[id].stamp
    decreases t
  {
    if t == 0 {
    } else if s == t {
      RowsSince(h, s - 1, t - 1);
      assert StampedWrite(h[t - 1], h[t]);
    } else {
      RowsSince(h, s, t - 1);
      assert StampedWrite(h[t - 1], h[t]);
    }
  }

  lemma {:induction false} IdsSince(h: seq<Table>, s: nat, t: nat)
    requires InsertDeleteHistory(h) && s <= t < |h|
    ensures h[s].nextId <= h[t].nextId && forall id | id in h[t].rows :: id < h[t].nextId
    ensures forall id | id in h[t].rows ::
              (id in h[s].rows && h[s].rows[id] == h[t].rows[id]) || h[s].nextId <= id
    decreases t
  {
    if t == 0 {
    } else if s == t {
      IdsSince(h, s - 1, t - 1);
      assert InsertOrDelete(h[t - 1], h[t]);
    } else {
      IdsSince(h, s, t - 1);
      assert InsertOrDelete(h[t - 1], h[t]);
    }
  }

  lemma IncludedOfEqualSize(a: map<nat, Row>, b: map<nat, Row>)
    requires Included(a, b) && |a| == |b|
    ensures a == b
  {
    assert a.Keys <= b.Keys;
    SubsetOfEqualSize(a.Keys, b.Keys);
  }

  lemma {:induction false} SubsetOfEqualSize(a: set<nat>, b: set<nat>)
    requires a <= b && |a| == |b|
    ensures a == b
  {
    assert |b - a| == |b| - |a|;
  }

  /** Equal fingerprints mean equal active rows, when every write is stamped later than all before. */
  lemma StampsTellTablesApart(h: seq<Table>, s: nat, t: nat)
    requires StampedHistory(h) && s <= t < |h|
    ensures FingerprintOf(Active(h[s])) == FingerprintOf(Active(h[t])) <==> Active(h[s]) == Active(h[t])
  {
    hide FingerprintOf;
    var a, b := Active(h[s]), Active(h[t]);
    if FingerprintOf(a) == FingerprintOf(b) {
      NoLaterStamp(h, s, t);
      IncludedOfEqualSize(b, a);
    }
  }

  /** No active row is newer than the clock at `s`, so all of them were there already. */
  lemma NoLaterStamp(h: seq<Table>, s: nat, t: nat)
    requires StampedHistory(h) && s <= t < |h|
    requires FingerprintOf(Active(h[s])) == FingerprintOf(Active(h[t]))
    ensures Included(Active(h[t]), Active(h[s]))
  {
    hide FingerprintOf;
    RowsSince(h, s, s);
    RowsSince(h, s, t);
    if Active(h[s]) != map[] {
      assert FingerprintOf(Active(h[s])).maxStamp <= h[s].clock;
    }
  }

  /** The same without any assumption on clocks, when rows are only inserted under fresh ids and deleted. */
  lemma IdsTellTablesApart(h: seq<Table>, s: nat, t: nat)
    requires InsertDeleteHistory(h) && s <= t < |h|
    ensures FingerprintOf(Active(h[s])) == FingerprintOf(Active(h[t])) <==> Active(h[s]) == Active(h[t])
  {
    var a, b := Active(h[s]), Active(h[t]);
    if FingerprintOf(a) == FingerprintOf(b) {
      IdsSince(h, s, s);
      IdsSince(h, s, t);
      assert Included(b, a);
      IncludedOfEqualSize(b, a);
    }
  }

  /** Whatever clock the writer has: an update of an active row goes unnoticed exactly when its stamp equals
      the latest one, or lies below it while another active row carries the latest one. */
  lemma UpdateUnnoticedIff(t: Table, id: nat, row: Row)
    requires id in Active(t) && IsActive(row)
    ensures var u, max := t.(rows := t.rows[id := row]), FingerprintOf(Active(t)).maxStamp;
            FingerprintOf(Active(u)) == FingerprintOf(Active(t))
            <==> || row.stamp == max
                 || (row.stamp < max && exists j :: j in Active(t) && j != id && Active(t)[j].stamp == max)
  {
    hide FingerprintOf;
    var u := t.(rows := t.rows[id := row]);
    var a, b := Active(t), Active(u);
    assert b == a[id := row] && b.Keys == a.Keys;
    assert |b| == |b.Keys| == |a.Keys| == |a|;
    assert b[id].stamp == row.stamp;
    var max := FingerprintOf(a).maxStamp;
    if j :| j in a && j != id && a[j].stamp == max && row.stamp <= max {
      assert b[j].stamp == max;
      assert IsFingerprint(b, FingerprintOf(a));
      FingerprintUnique(b, FingerprintOf(a), FingerprintOf(b));
    } else if row.stamp == max {
      assert IsFingerprint(b, FingerprintOf(a));
      FingerprintUnique(b, FingerprintOf(a), FingerprintOf(b));
    }
  }
}
