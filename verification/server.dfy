/**
 * The server's three tables and its REST handlers. Each handler is one
 * synchronous transition of the store plus the HTTP status it answers with;
 * the sqlite driver's callbacks and Express routing are not modelled.
 */
module Server {
  import opened Common
  import opened Records
  import Codec
  import Table

  /** A `tests` row as stored: `questions` holds the encoded text. */
  datatype StoredTest = StoredTest(
    title: string,
    difficulty: string,
    questions: seq<Codec.Token>,
    prereq: Option<int>)

  /** The database: the users table and two AUTOINCREMENT tables with their sequence values. */
  datatype Store = Store(
    users: set<string>,
    tests: seq<Row<StoredTest>>,
    testSeq: int,
    history: seq<Row<HistoryRecord>>,
    historySeq: int)

  /** What a handler answers: 200, 200 with `{id}`, 404 or 500. */
  datatype Response = Ok | OkId(id: int) | NotFound | ServerError

  datatype Reply = Reply(store: Store, response: Response)

  /** The tables as `CREATE TABLE IF NOT EXISTS` leaves them in a new database file. */
  const Fresh: Store := Store({}, [], 0, [], 0)

  predicate Readable(t: StoredTest)
  {
    Codec.Decode(t.questions).Some?
  }

  /** The store invariant: unique ascending ids below each sequence value, and readable questions. */
  predicate Valid(s: Store)
  {
    && Table.WellFormed(s.tests, s.testSeq)
    && Table.WellFormed(s.history, s.historySeq)
    && forall i :: 0 <= i < |s.tests| ==> Readable(s.tests[i].val)
  }

  lemma FreshValid()
    ensures Valid(Fresh)
  {
  }

  /** `t.prereq || null`: every falsy prereq (0, missing, null) is stored as none. */
  function NormalizePrereq(p: Option<int>): (r: Option<int>)
    ensures r.None? <==> p.None? || p == Some(0)
    ensures r.Some? ==> r == p
  {
    if p == Some(0) then None else p
  }

  /** The row a create or update writes for a request body. */
  function ToStored(t: TestRecord): (r: StoredTest)
    ensures Readable(r)
  {
    Codec.RoundTrip(t.questions);
    StoredTest(t.title, t.difficulty, Codec.Encode(t.questions), NormalizePrereq(t.prereq))
  }

  /** A stored row as `GET /api/tests` sends it, with `questions` parsed. */
  function FromStored(t: StoredTest): Option<TestRecord>
  {
    match Codec.Decode(t.questions)
    case None => None
    case Some(qs) => Some(TestRecord(t.title, t.difficulty, qs, t.prereq))
  }

  /** Reading back a written row gives the body with only `prereq` normalised. */
  lemma StoredRoundTrip(t: TestRecord)
    ensures FromStored(ToStored(t)) == Some(t.(prereq := NormalizePrereq(t.prereq)))
  {
    Codec.RoundTrip(t.questions);
  }

  /** The test the server creates when its tests table is empty at start-up. */
  const SampleTest: TestRecord := TestRecord(
    "Sample Test", "Easy",
    [ Question("What is 2+2?", ["1", "2", "3", "4"], 3),
      Question("Capital of France?", ["Paris", "London", "Rome", "Berlin"], 0) ],
    None)

  /**
   * Start-up seeding: an empty users table gets the single user "Guest", an
   * empty tests table gets SampleTest; a non-empty table is left alone.
   */
  function Seed(s: Store): (r: Store)
    requires Valid(s)
    ensures Valid(r)
    ensures r.users == if |s.users| == 0 then {"Guest"} else s.users
    ensures |s.tests| > 0 ==> r.tests == s.tests && r.testSeq == s.testSeq
    ensures |s.tests| == 0 && s.testSeq < Table.MaxRowId ==>
              r.tests == [Row(s.testSeq + 1, ToStored(SampleTest))] && r.testSeq == s.testSeq + 1
    ensures |s.tests| == 0 && s.testSeq == Table.MaxRowId ==> r.tests == s.tests && r.testSeq == s.testSeq
    ensures r.history == s.history && r.historySeq == s.historySeq
  {
    SeedWith(s, ToStored(SampleTest))
  }

  /** Seeding with a given readable first test. */
  function SeedWith(s: Store, sample: StoredTest): (r: Store)
    requires Valid(s) && Readable(sample)
    ensures Valid(r)
    ensures r.users == if |s.users| == 0 then {"Guest"} else s.users
    ensures |s.tests| > 0 ==> r.tests == s.tests && r.testSeq == s.testSeq
    ensures |s.tests| == 0 && s.testSeq < Table.MaxRowId ==>
              r.tests == [Row(s.testSeq + 1, sample)] && r.testSeq == s.testSeq + 1
    ensures |s.tests| == 0 && s.testSeq == Table.MaxRowId ==> r.tests == s.tests && r.testSeq == s.testSeq
    ensures r.history == s.history && r.historySeq == s.historySeq
  {
    var users := if |s.users| == 0 then {"Guest"} else s.users;
    if |s.tests| == 0 then
      match Table.Insert(s.tests, s.testSeq, sample)
      case None => s.(users := users)
      case Some(ins) =>
        SeedRows(s, sample, ins);
        s.(users := users, tests := ins.rows, testSeq := ins.last)
    else s.(users := users)
  }

  lemma SeedRows(s: Store, sample: StoredTest, ins: Table.Inserted<StoredTest>)
    requires Valid(s) && Readable(sample) && |s.tests| == 0
    requires ins.rows == s.tests + [Row(ins.id, sample)] && ins.id == s.testSeq + 1 && ins.last == ins.id
    requires Table.WellFormed(ins.rows, ins.last)
    ensures ins.rows == [Row(s.testSeq + 1, sample)]
    ensures Valid(s.(tests := ins.rows, testSeq := ins.last))
  {
    assert ins.rows == [Row(ins.id, sample)];
  }

  /** Seeding a second time changes nothing. */
  lemma SeedIdempotent(s: Store)
    requires Valid(s)
    ensures Seed(Seed(s)) == Seed(s)
  {
  }

  /** `POST /api/users` (`INSERT OR IGNORE`): the name is present afterwards; an existing name changes nothing. */
  function PostUser(s: Store, name: string): (r: Reply)
    ensures r.response == Ok
    ensures r.store.users == s.users + {name}
    ensures r.store == s.(users := r.store.users)
    ensures name in s.users ==> r.store == s
  {
    Reply(s.(users := s.users + {name}), Ok)
  }

  /** `DELETE /api/users/:u`: removes that name if present; an absent name is a successful no-op. */
  function DeleteUser(s: Store, name: string): (r: Reply)
    ensures r.response == Ok
    ensures r.store.users == s.users - {name}
    ensures r.store == s.(users := r.store.users)
    ensures name !in s.users ==> r.store == s
  {
    Reply(s.(users := s.users - {name}), Ok)
  }

  /** Parses every stored row, in table order; None where `JSON.parse` would throw. */
  function DecodeRows(rows: seq<Row<StoredTest>>): (r: Option<seq<Row<TestRecord>>>)
    ensures r.Some? <==> forall i :: 0 <= i < |rows| ==> Readable(rows[i].val)
    ensures r.Some? ==> |r.value| == |rows|
                        && forall i :: 0 <= i < |rows| ==>
                             r.value[i].id == rows[i].id && FromStored(rows[i].val) == Some(r.value[i].val)
  {
    if |rows| == 0 then Some([])
    else match FromStored(rows[0].val)
      case None => None
      case Some(t) =>
        match DecodeRows(rows[1..])
        case None =>
          assert !Readable(rows[1..][0].val) || exists i :: 0 <= i < |rows| - 1 && !Readable(rows[1..][i].val);
          None
        case Some(ts) => Some([Row(rows[0].id, t)] + ts)
  }

  /**
   * `GET /api/tests`: every row with its questions parsed. A store that
   * satisfies the invariant always yields the list.
   */
  function GetTests(s: Store): (r: Option<seq<Row<TestRecord>>>)
    ensures Valid(s) ==> r.Some?
  {
    DecodeRows(s.tests)
  }

  /** Looking an id up in the parsed list is parsing the stored row with that id. */
  lemma {:induction false} LookupDecoded(rows: seq<Row<StoredTest>>, out: seq<Row<TestRecord>>, id: int)
    requires DecodeRows(rows) == Some(out)
    ensures Table.Lookup(out, id) == match Table.Lookup(rows, id)
                                       case None => None
                                       case Some(t) => FromStored(t)
  {
    if |rows| > 0 {
      LookupDecoded(rows[1..], out[1..], id);
    }
  }

  /**
   * `POST /api/tests`: a new row with a fresh id holds the body (prereq
   * normalised); the answer carries that id. Only a full id space fails.
   */
  function PostTest(s: Store, t: TestRecord): (r: Reply)
    requires Valid(s)
    ensures Valid(r.store)
    ensures r.response.OkId? || r.response.ServerError?
    ensures r.response.ServerError? <==> s.testSeq == Table.MaxRowId
    ensures r.response.ServerError? ==> r.store == s
    ensures r.response.OkId? ==>
              && r.response.id == s.testSeq + 1 && r.store.testSeq == r.response.id
              && !Table.HasId(s.tests, r.response.id)
              && Table.Lookup(r.store.tests, r.response.id) == Some(ToStored(t))
              && (forall k :: k != r.response.id ==> Table.Lookup(r.store.tests, k) == Table.Lookup(s.tests, k))
              && r.store.users == s.users && r.store.history == s.history && r.store.historySeq == s.historySeq
  {
    match Table.Insert(s.tests, s.testSeq, ToStored(t))
    case None => Reply(s, ServerError)
    case Some(ins) =>
      var s' := s.(tests := ins.rows, testSeq := ins.last);
      assert forall i :: 0 <= i < |ins.rows| ==> Readable(ins.rows[i].val) by {
        forall i | 0 <= i < |ins.rows| ensures Readable(ins.rows[i].val) {
          if i < |s.tests| {
            assert ins.rows[i] == s.tests[i];
          }
        }
      }
      Reply(s', OkId(ins.id))
  }

  /**
   * `PUT /api/tests/:id`: the row with that id gets all four fields from the
   * body; other rows keep theirs; a missing id changes nothing. Always 200.
   */
  function PutTest(s: Store, id: int, t: TestRecord): (r: Reply)
    requires Valid(s)
    ensures Valid(r.store)
    ensures r.response == Ok
    ensures Table.Lookup(r.store.tests, id) == if Table.HasId(s.tests, id) then Some(ToStored(t)) else None
    ensures forall k :: k != id ==> Table.Lookup(r.store.tests, k) == Table.Lookup(s.tests, k)
    ensures !Table.HasId(s.tests, id) ==> r.store == s
    ensures r.store == s.(tests := r.store.tests)
  {
    var rows := Table.Update(s.tests, id, ToStored(t));
    Reply(s.(tests := rows), Ok)
  }

  /** `DELETE /api/tests/:id`: removes that id only; always 200. */
  function DeleteTest(s: Store, id: int): (r: Reply)
    requires Valid(s)
    ensures Valid(r.store)
    ensures r.response == Ok
    ensures !Table.HasId(r.store.tests, id)
    ensures forall k :: k != id ==> Table.Lookup(r.store.tests, k) == Table.Lookup(s.tests, k)
    ensures !Table.HasId(s.tests, id) ==> r.store == s
    ensures r.store == s.(tests := r.store.tests)
  {
    var rows := Table.Remove(s.tests, id);
    Table.RemoveWellFormed(s.tests, s.testSeq, id);
    Reply(s.(tests := rows), Ok)
  }

  /** After a successful create, `GET /api/tests` lists the new id with the body as sent, prereq normalised. */
  lemma ReadBackAfterPost(s: Store, t: TestRecord)
    requires Valid(s)
    requires PostTest(s, t).response.OkId?
    ensures GetTests(PostTest(s, t).store).Some?
    ensures Table.Lookup(GetTests(PostTest(s, t).store).value, PostTest(s, t).response.id)
            == Some(t.(prereq := NormalizePrereq(t.prereq)))
  {
    var r := PostTest(s, t);
    LookupDecoded(r.store.tests, GetTests(r.store).value, r.response.id);
    StoredRoundTrip(t);
  }

  /** After an update of an existing id, `GET /api/tests` lists that id with the new body, prereq normalised. */
  lemma ReadBackAfterPut(s: Store, id: int, t: TestRecord)
    requires Valid(s) && Table.HasId(s.tests, id)
    ensures GetTests(PutTest(s, id, t).store).Some?
    ensures Table.Lookup(GetTests(PutTest(s, id, t).store).value, id)
            == Some(t.(prereq := NormalizePrereq(t.prereq)))
  {
    var r := PutTest(s, id, t);
    LookupDecoded(r.store.tests, GetTests(r.store).value, id);
    StoredRoundTrip(t);
  }

  /**
   * `POST /api/history`: appends the record under a fresh id and answers with
   * it. Only a full id space fails.
   */
  function PostHistory(s: Store, h: HistoryRecord): (r: Reply)
    requires Valid(s)
    ensures Valid(r.store)
    ensures r.response.OkId? || r.response.ServerError?
    ensures r.response.ServerError? <==> s.historySeq == Table.MaxRowId
    ensures r.response.ServerError? ==> r.store == s
    ensures r.response.OkId? ==>
              && r.response.id == s.historySeq + 1 && r.store.historySeq == r.response.id
              && !Table.HasId(s.history, r.response.id)
              && r.store.history == s.history + [Row(r.response.id, h)]
              && r.store == s.(history := r.store.history, historySeq := r.store.historySeq)
  {
    match Table.Insert(s.history, s.historySeq, h)
    case None => Reply(s, ServerError)
    case Some(ins) => Reply(s.(history := ins.rows, historySeq := ins.last), OkId(ins.id))
  }

  /**
   * `DELETE /api/history/:id`: 404 and no change when no row has the id;
   * otherwise exactly that row goes and the answer is 200.
   */
  function DeleteHistory(s: Store, id: int): (r: Reply)
    requires Valid(s)
    ensures Valid(r.store)
    ensures r.response == Ok || r.response == NotFound
    ensures r.response == NotFound <==> !Table.HasId(s.history, id)
    ensures r.response == NotFound ==> r.store == s
    ensures r.response == Ok ==>
              && (exists k :: 0 <= k < |s.history| && s.history[k].id == id
                   && r.store.history == s.history[..k] + s.history[k + 1..])
              && !Table.HasId(r.store.history, id)
              && r.store == s.(history := r.store.history)
  {
    var rows := Table.Remove(s.history, id);
    Table.RemoveWellFormed(s.history, s.historySeq, id);
    var changes := |s.history| - |rows|;
    if changes == 0 then Reply(s, NotFound)
    else
      var k :| 0 <= k < |s.history| && s.history[k].id == id;
      Table.RemoveAt(s.history, k);
      Reply(s.(history := rows), Ok)
  }

  /** `DELETE /api/history`: always empties the table and answers 200; ids are still never reused. */
  function DeleteAllHistory(s: Store): (r: Reply)
    requires Valid(s)
    ensures Valid(r.store)
    ensures r.response == Ok
    ensures r.store.history == []
    ensures r.store == s.(history := [])
  {
    Reply(s.(history := []), Ok)
  }

  /** Clearing the history twice is the same as clearing it once. */
  lemma DeleteAllIdempotent(s: Store)
    requires Valid(s)
    ensures DeleteAllHistory(DeleteAllHistory(s).store) == DeleteAllHistory(s)
  {
  }
}
