/**
 * The `queries` table: a keyed table of support tickets. Writes are methods
 * of `QueryTable`, which holds the table as a map from query id to row; each
 * is tied to a pure function on the table value below, and the reads
 * (`fetch_queries`, `get_query_image`) are such functions themselves.
 */
module Queries {
  import opened Wrappers
  import opened Strings
  import opened QueryIds

  newtype byte = x: int | 0 <= x < 256

  const Opened: string := "Opened"
  const Closed: string := "Closed"

  /** One row of the table, without its key. Times are `'%Y-%m-%d %H:%M:%S'` strings. */
  datatype Query = Query(
    mailId: string,
    mobileNumber: string,
    heading: string,
    description: string,
    status: string,
    createdTime: string,
    closedTime: Option<string>,
    image: Option<seq<byte>>)

  type Table = map<string, Query>

  /** A row as the listing returns it: the key and every column except the image. */
  datatype QueryRecord = QueryRecord(
    queryId: string,
    mailId: string,
    mobileNumber: string,
    heading: string,
    description: string,
    status: string,
    createdTime: string,
    closedTime: Option<string>)

  /** A row of the import file, its columns already renamed to the table's. */
  datatype ImportRow = ImportRow(
    queryId: string,
    mailId: string,
    mobileNumber: string,
    heading: string,
    description: string,
    status: string,
    createdTime: string,
    closedTime: Option<string>)

  datatype Error =
    | IntegrityError   // a plain INSERT hit an existing primary key
    | FileNotFound     // the import file does not exist
    | ValidationError  // the submission form left a required field empty

  /** The lifecycle invariant of rows the application writes: a closed time exactly when closed. */
  predicate ClosedTimeMatchesStatus(q: Query)
  {
    q.status == Closed <==> q.closedTime.Some?
  }

  // ---------------------------------------------------------------------------
  // insert_query
  // ---------------------------------------------------------------------------

  /** The row a new submission gets: status Opened, created now, not closed. */
  function NewQuery(mailId: string, mobileNumber: string, heading: string, description: string,
                    image: Option<seq<byte>>, now: string): (q: Query)
    ensures q.status == Opened && q.closedTime == None && q.createdTime == now && q.image == image
    ensures q.mailId == mailId && q.mobileNumber == mobileNumber
    ensures q.heading == heading && q.description == description
    ensures ClosedTimeMatchesStatus(q)
  {
    Query(mailId, mobileNumber, heading, description, Opened, now, None, image)
  }

  /** A plain INSERT: it fails on an existing key and otherwise adds exactly one row. */
  function InsertRow(t: Table, id: string, q: Query): (r: Result<Table, Error>)
    ensures r.Failure? <==> id in t
    ensures r.Failure? ==> r.error == IntegrityError
    ensures r.Success? ==> r.value.Keys == t.Keys + {id} && r.value[id] == q
    ensures r.Success? ==> forall k :: k in t ==> r.value[k] == t[k]
  {
    if id in t then Failure(IntegrityError) else Success(t[id := q])
  }

  /** A new submission satisfies the lifecycle invariant, and the other rows keep theirs. */
  lemma NewQueryConsistent(t: Table, mailId: string, mobileNumber: string, heading: string,
                           description: string, image: Option<seq<byte>>, now: string)
    requires forall k :: k in t ==> ClosedTimeMatchesStatus(t[k])
    requires InsertRow(t, NextQueryId(t.Keys), NewQuery(mailId, mobileNumber, heading, description, image, now)).Success?
    ensures var t' := InsertRow(t, NextQueryId(t.Keys), NewQuery(mailId, mobileNumber, heading, description, image, now)).value;
            forall k :: k in t' ==> ClosedTimeMatchesStatus(t'[k])
  {
  }

  /** On a table whose ids are all "Q" and four digits, the INSERT of a new submission cannot fail. */
  lemma InsertNextIdSucceeds(t: Table, q: Query)
    requires forall k :: k in t ==> IsFourDigitId(k)
    ensures InsertRow(t, NextQueryId(t.Keys), q).Success?
  {
    NextIdFresh(t.Keys);
  }

  /** Past Q9999 the generated id collides: with Q9999 and Q10000 present the INSERT fails. */
  lemma InsertFailsPastQ9999(t: Table, q: Query)
    requires t.Keys == {"Q9999", "Q10000"}
    ensures InsertRow(t, NextQueryId(t.Keys), q) == Failure(IntegrityError)
  {
    NextIdRepeatsPastQ9999();
  }

  // ---------------------------------------------------------------------------
  // close_query
  // ---------------------------------------------------------------------------

  /** `UPDATE ... SET status = 'Closed', query_closed_time = now WHERE query_id = id`. */
  function CloseRow(t: Table, id: string, now: string): (r: Table)
    ensures r.Keys == t.Keys
    ensures forall k :: k in t && k != id ==> r[k] == t[k]
    ensures id in t ==> r[id].status == Closed && r[id].closedTime == Some(now)
    ensures id in t ==> && r[id].createdTime == t[id].createdTime
                        && r[id].image == t[id].image
                        && r[id].mailId == t[id].mailId
                        && r[id].mobileNumber == t[id].mobileNumber
                        && r[id].heading == t[id].heading
                        && r[id].description == t[id].description
  {
    if id in t then t[id := t[id].(status := Closed, closedTime := Some(now))] else t
  }

  /** Closing keeps the lifecycle invariant of every row. */
  lemma CloseRowConsistent(t: Table, id: string, now: string)
    requires forall k :: k in t ==> ClosedTimeMatchesStatus(t[k])
    ensures forall k :: k in CloseRow(t, id, now) ==> ClosedTimeMatchesStatus(CloseRow(t, id, now)[k])
  {
  }

  /** Closing twice is closing once at the later time: a re-close overwrites the closed time. */
  lemma CloseRowTwice(t: Table, id: string, first: string, second: string)
    ensures CloseRow(CloseRow(t, id, first), id, second) == CloseRow(t, id, second)
  {
  }

  // ---------------------------------------------------------------------------
  // import_csv
  // ---------------------------------------------------------------------------

  /** The row an imported record becomes: every column as given, no image. */
  function FromImport(row: ImportRow): (q: Query)
    ensures q.image == None
    ensures q.mailId == row.mailId && q.mobileNumber == row.mobileNumber
    ensures q.heading == row.heading && q.description == row.description
    ensures q.status == row.status
    ensures q.createdTime == row.createdTime && q.closedTime == row.closedTime
  {
    Query(row.mailId, row.mobileNumber, row.heading, row.description,
          row.status, row.createdTime, row.closedTime, None)
  }

  /** One `INSERT OR IGNORE`: an existing key keeps its row. */
  function InsertOrIgnore(t: Table, row: ImportRow): (r: Table)
    ensures r.Keys == t.Keys + {row.queryId}
    ensures forall k :: k in t ==> r[k] == t[k]
    ensures row.queryId !in t ==> r[row.queryId] == FromImport(row)
  {
    if row.queryId in t then t else t[row.queryId := FromImport(row)]
  }

  /** The ids an import file mentions. */
  function SourceIds(src: seq<ImportRow>): set<string>
  {
    set i | 0 <= i < |src| :: src[i].queryId
  }

  /** The first row of `src` with key `i`'s id is row `i`. */
  predicate FirstWithId(src: seq<ImportRow>, i: int)
    requires 0 <= i < |src|
  {
    forall j :: 0 <= j < i ==> src[j].queryId != src[i].queryId
  }

  /** The insert-or-ignore loop over the file, in file order. */
  function ImportAll(t: Table, src: seq<ImportRow>): (r: Table)
    ensures r.Keys == t.Keys + SourceIds(src)
    decreases |src|
  {
    if src == [] then t
    else
      var init := src[..|src| - 1];
      assert SourceIds(src) == SourceIds(init) + {src[|src| - 1].queryId} by {
        assert forall i :: 0 <= i < |init| ==> init[i] == src[i];
      }
      InsertOrIgnore(ImportAll(t, init), src[|src| - 1])
  }

  /** An import never touches a row that was already there, and stores no image for the rows it adds. */
  lemma {:induction false} ImportAllKeepsExisting(t: Table, src: seq<ImportRow>)
    ensures forall k :: k in t ==> ImportAll(t, src)[k] == t[k]
    ensures forall k :: k in ImportAll(t, src) && k !in t ==> ImportAll(t, src)[k].image == None
    decreases |src|
  {
    if src != [] {
      ImportAllKeepsExisting(t, src[..|src| - 1]);
    }
  }

  /**
   * Each id new to the table gets the FIRST file row that carries it: presence
   * is checked against the table as the import has filled it so far, so a
   * later row with the same id is ignored.
   */
  lemma {:induction false} ImportAllFirstWins(t: Table, src: seq<ImportRow>, i: nat)
    requires i < |src| && src[i].queryId !in t && FirstWithId(src, i)
    ensures ImportAll(t, src)[src[i].queryId] == FromImport(src[i])
    decreases |src|
  {
    var init := src[..|src| - 1];
    var prev := ImportAll(t, init);
    if i < |src| - 1 {
      assert FirstWithId(init, i);
      ImportAllFirstWins(t, init, i);
    } else {
      assert src[i].queryId !in SourceIds(init);
    }
  }

  // ---------------------------------------------------------------------------
  // fetch_queries
  // ---------------------------------------------------------------------------

  /** `status.lower() == 'all'`, with ASCII case folding. */
  predicate IsAllKeyword(s: string)
  {
    LowerAscii(s) == "all"
  }

  /** Exactly the eight case variants of "all" select everything. */
  lemma IsAllKeywordCases(s: string)
    ensures IsAllKeyword(s) <==>
              |s| == 3 && (s[0] == 'a' || s[0] == 'A') && (s[1] == 'l' || s[1] == 'L') && (s[2] == 'l' || s[2] == 'L')
  {
    if IsAllKeyword(s) {
      assert LowerAscii(s)[0] == LowerChar(s[0]) == 'a';
      assert LowerAscii(s)[1] == LowerChar(s[1]) == 'l';
      assert LowerAscii(s)[2] == LowerChar(s[2]) == 'l';
    }
    if |s| == 3 && (s[0] == 'a' || s[0] == 'A') && (s[1] == 'l' || s[1] == 'L') && (s[2] == 'l' || s[2] == 'L') {
      assert LowerAscii(s) == "all";
    }
  }

  /** The WHERE clause: no filter, or "all" in any case, keeps every row; otherwise the status must match exactly. */
  predicate Selected(filter: Option<string>, status: string)
    ensures filter.None? ==> Selected(filter, status)
    ensures filter.Some? && IsAllKeyword(filter.value) ==> Selected(filter, status)
    ensures filter.Some? && !IsAllKeyword(filter.value) ==> (Selected(filter, status) <==> status == filter.value)
  {
    filter.None? || IsAllKeyword(filter.value) || status == filter.value
  }

  function Record(id: string, q: Query): QueryRecord
  {
    QueryRecord(id, q.mailId, q.mobileNumber, q.heading, q.description, q.status, q.createdTime, q.closedTime)
  }

  predicate NoDuplicates<T(==)>(s: seq<T>)
  {
    forall i, j :: 0 <= i < j < |s| ==> s[i] != s[j]
  }

  /** All keys, greatest first: a fixed order to read rows in before sorting them by time. */
  function KeysDescending(keys: set<string>): (s: seq<string>)
    ensures forall k :: k in s <==> k in keys
    ensures NoDuplicates(s)
    decreases |keys|
  {
    if keys == {} then []
    else
      var g := GreatestId(keys).value;
      [g] + KeysDescending(keys - {g})
  }

  /** The rows of `ids` that the filter selects, as listing records, in the order of `ids`. */
  function SelectRecords(t: Table, filter: Option<string>, ids: seq<string>): (r: seq<QueryRecord>)
    requires forall k :: k in ids ==> k in t
    ensures forall x :: x in r ==> x.queryId in ids && Selected(filter, t[x.queryId].status) && x == Record(x.queryId, t[x.queryId])
    ensures forall k :: k in ids && Selected(filter, t[k].status) ==> Record(k, t[k]) in r
    ensures NoDuplicates(ids) ==> NoDuplicates(r)
  {
    if ids == [] then []
    else
      var rest := SelectRecords(t, filter, ids[1..]);
      if Selected(filter, t[ids[0]].status) then
        assert NoDuplicates(ids) ==> Record(ids[0], t[ids[0]]) !in rest by {
          if NoDuplicates(ids) {
            assert ids[0] !in ids[1..];
          }
        }
        [Record(ids[0], t[ids[0]])] + rest
      else
        rest
  }

  /** `ORDER BY query_created_time DESC`: created times never increase along the listing. */
  predicate SortedByCreatedDesc(s: seq<QueryRecord>)
  {
    forall i, j :: 0 <= i < j < |s| ==> LexLe(s[j].createdTime, s[i].createdTime)
  }

  function InsertByCreated(x: QueryRecord, s: seq<QueryRecord>): (r: seq<QueryRecord>)
  {
    if s == [] then [x]
    else if LexLe(s[0].createdTime, x.createdTime) then [x] + s
    else [s[0]] + InsertByCreated(x, s[1..])
  }

  lemma {:induction false} InsertByCreatedPermutes(x: QueryRecord, s: seq<QueryRecord>)
    ensures multiset(InsertByCreated(x, s)) == multiset(s) + multiset{x}
    ensures forall y :: y in InsertByCreated(x, s) ==> y == x || y in s
  {
    var r := InsertByCreated(x, s);
    if s != [] && !LexLe(s[0].createdTime, x.createdTime) {
      InsertByCreatedPermutes(x, s[1..]);
      assert s == [s[0]] + s[1..];
    }
    forall y | y in r
      ensures y == x || y in s
    {
      assert y in multiset(r);
    }
  }

  /** Inserting into a newest-first listing keeps it newest-first. */
  lemma {:induction false} InsertByCreatedSorted(x: QueryRecord, s: seq<QueryRecord>)
    requires SortedByCreatedDesc(s)
    ensures SortedByCreatedDesc(InsertByCreated(x, s))
  {
    if s == [] {
    } else if LexLe(s[0].createdTime, x.createdTime) {
      forall j | 0 < j < |s|
        ensures LexLe(s[j].createdTime, x.createdTime)
      {
        LexLeTransitive(s[j].createdTime, s[0].createdTime, x.createdTime);
      }
    } else {
      LexLeTotal(s[0].createdTime, x.createdTime);
      var rest := InsertByCreated(x, s[1..]);
      InsertByCreatedSorted(x, s[1..]);
      InsertByCreatedPermutes(x, s[1..]);
      forall j | 0 <= j < |rest|
        ensures LexLe(rest[j].createdTime, s[0].createdTime)
      {
        assert rest[j] in rest;
      }
    }
  }

  lemma {:induction false} InsertByCreatedNoDuplicates(x: QueryRecord, s: seq<QueryRecord>)
    requires x !in s && NoDuplicates(s)
    ensures NoDuplicates(InsertByCreated(x, s))
  {
    if s != [] && !LexLe(s[0].createdTime, x.createdTime) {
      var rest := InsertByCreated(x, s[1..]);
      assert x !in s[1..];
      InsertByCreatedNoDuplicates(x, s[1..]);
      InsertByCreatedPermutes(x, s[1..]);
      assert s[0] !in s[1..];
      assert s[0] !in rest;
    }
  }

  /** Insertion sort by created time, newest first. */
  function SortByCreatedDesc(s: seq<QueryRecord>): (r: seq<QueryRecord>)
  {
    if s == [] then [] else InsertByCreated(s[0], SortByCreatedDesc(s[1..]))
  }

  /** The sort yields a newest-first permutation of its input, without duplicates if it had none. */
  lemma {:induction false} SortByCreatedDescCorrect(s: seq<QueryRecord>)
    ensures SortedByCreatedDesc(SortByCreatedDesc(s))
    ensures multiset(SortByCreatedDesc(s)) == multiset(s)
    ensures NoDuplicates(s) ==> NoDuplicates(SortByCreatedDesc(s))
  {
    if s != [] {
      var rest := SortByCreatedDesc(s[1..]);
      SortByCreatedDescCorrect(s[1..]);
      InsertByCreatedSorted(s[0], rest);
      InsertByCreatedPermutes(s[0], rest);
      assert s == [s[0]] + s[1..];
      if NoDuplicates(s) {
        assert s[0] !in s[1..];
        assert s[0] !in multiset(rest);
        InsertByCreatedNoDuplicates(s[0], rest);
      }
    }
  }

  /**
   * `fetch_queries(filter)`: every selected row once, as a record without
   * its image, never newer than the row before it. The order among rows
   * created at the same second is the model's own choice.
   */
  function Fetch(t: Table, filter: Option<string>): (r: seq<QueryRecord>)
    ensures forall x :: x in r ==> x.queryId in t && Selected(filter, t[x.queryId].status) && x == Record(x.queryId, t[x.queryId])
    ensures forall k :: k in t && Selected(filter, t[k].status) ==> Record(k, t[k]) in r
    ensures forall i, j :: 0 <= i < j < |r| ==> r[i].queryId != r[j].queryId
    ensures SortedByCreatedDesc(r)
  {
    var selected := SelectRecords(t, filter, KeysDescending(t.Keys));
    var r := SortByCreatedDesc(selected);
    SortByCreatedDescCorrect(selected);
    assert forall x :: x in r <==> x in selected by {
      forall x ensures x in r <==> x in selected {
        assert x in r <==> x in multiset(r);
        assert x in selected <==> x in multiset(selected);
      }
    }
    assert forall i, j :: 0 <= i < j < |r| ==> r[i].queryId != r[j].queryId by {
      forall i, j | 0 <= i < j < |r| ensures r[i].queryId != r[j].queryId {
        assert r[i] in r && r[j] in r;
      }
    }
    r
  }

  lemma {:induction false} SelectRecordsAll(t: Table, s: string, ids: seq<string>)
    requires forall k :: k in ids ==> k in t
    requires IsAllKeyword(s)
    ensures SelectRecords(t, Some(s), ids) == SelectRecords(t, None, ids)
  {
    if ids != [] {
      SelectRecordsAll(t, s, ids[1..]);
    }
  }

  /** Passing "all" in any case lists exactly what passing no filter lists. */
  lemma FetchAllIsUnfiltered(t: Table, s: string)
    requires IsAllKeyword(s)
    ensures Fetch(t, Some(s)) == Fetch(t, None)
  {
    SelectRecordsAll(t, s, KeysDescending(t.Keys));
  }

  /** A status filter lists only rows of that status, and every one of them. */
  lemma FetchByStatus(t: Table, status: string)
    requires !IsAllKeyword(status)
    ensures forall x :: x in Fetch(t, Some(status)) ==> x.status == status
    ensures forall k :: k in t && t[k].status == status ==> Record(k, t[k]) in Fetch(t, Some(status))
  {
  }

  // ---------------------------------------------------------------------------
  // get_query_image
  // ---------------------------------------------------------------------------

  /** The stored image of a row, or none when the row or its image is missing. */
  function ImageOf(t: Table, id: string): (r: Option<seq<byte>>)
    ensures r.Some? <==> id in t && t[id].image.Some?
    ensures r.Some? ==> r == t[id].image
  {
    if id in t then t[id].image else None
  }

  /** The image is fixed at creation: closing and importing never change a stored image. */
  lemma ImagesAreImmutable(t: Table, id: string, now: string, src: seq<ImportRow>, k: string)
    ensures ImageOf(CloseRow(t, id, now), k) == ImageOf(t, k)
    ensures k in t ==> ImageOf(ImportAll(t, src), k) == ImageOf(t, k)
    ensures k !in t ==> ImageOf(ImportAll(t, src), k) == None
  {
    ImportAllKeepsExisting(t, src);
  }

  /** A first submission into an empty table gets Q0001, Opened; closing it records the time. */
  lemma SubmitThenCloseExample(created: string, closed: string)
    ensures var q := NewQuery("a@x.com", "555", "H", "D", None, created);
            var inserted := InsertRow(map[], NextQueryId({}), q);
            && inserted == Success(map["Q0001" := q])
            && inserted.value["Q0001"].status == Opened && inserted.value["Q0001"].closedTime == None
            && CloseRow(inserted.value, "Q0001", closed)["Q0001"].status == Closed
            && CloseRow(inserted.value, "Q0001", closed)["Q0001"].closedTime == Some(closed)
  {
    NextIdOfEmpty();
  }

  // ---------------------------------------------------------------------------
  // The table object
  // ---------------------------------------------------------------------------

  class QueryTable {
    var rows: Table

    /** A freshly created, empty table. */
    constructor ()
      ensures rows == map[]
    {
      rows := map[];
    }

    /**
     * `insert_query`: the id is generated from the current keys; the INSERT
     * either adds that one Opened row or, on a taken key, fails and changes nothing.
     */
    method InsertQuery(mailId: string, mobileNumber: string, heading: string, description: string,
                       image: Option<seq<byte>>, now: string)
      returns (r: Result<string, Error>)
      modifies this
      ensures var id := NextQueryId(old(rows).Keys);
              var q := NewQuery(mailId, mobileNumber, heading, description, image, now);
              match InsertRow(old(rows), id, q)
              case Success(t) => r == Success(id) && rows == t
              case Failure(e) => r == Failure(e) && rows == old(rows)
    {
      var id := NextQueryId(rows.Keys);
      if id in rows {
        r := Failure(IntegrityError);
      } else {
        rows := rows[id := NewQuery(mailId, mobileNumber, heading, description, image, now)];
        r := Success(id);
      }
    }

    /** `close_query`: marks the matching row closed at `now`; an unknown id matches nothing. */
    method CloseQuery(id: string, now: string)
      modifies this
      ensures rows == CloseRow(old(rows), id, now)
    {
      if id in rows {
        rows := rows[id := rows[id].(status := Closed, closedTime := Some(now))];
      }
    }

    /**
     * `import_csv`: `None` stands for a missing file, which fails before any
     * write; otherwise the rows are inserted one by one with INSERT OR IGNORE.
     */
    method ImportCsv(source: Option<seq<ImportRow>>) returns (r: Outcome<Error>)
      modifies this
      ensures source.None? ==> r == Fail(FileNotFound) && rows == old(rows)
      ensures source.Some? ==> r == Pass && rows == ImportAll(old(rows), source.value)
    {
      if source.None? {
        return Fail(FileNotFound);
      }
      var src := source.value;
      for i := 0 to |src|
        invariant rows == ImportAll(old(rows), src[..i])
      {
        assert src[..i + 1][..i] == src[..i];
        var row := src[i];
        if row.queryId !in rows {
          rows := rows[row.queryId := FromImport(row)];
        }
      }
      assert src[..|src|] == src;
      r := Pass;
    }
  }
}
