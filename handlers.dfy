/** The five request handlers of the attendance service, over the table. A store failure is the
    boolean `storeFails`: the statement then has no effect and the handler answers 500. */
module Handlers {
  import opened Js
  import opened Parser
  import opened Table
  import opened Query

  const InvalidDataFormat: string := "Invalid data format"
  const MissingFields: string := "Missing studentId or timestamp"
  const SaveFailed: string := "Failed to save attendance"
  const FetchFailed: string := "Failed to fetch attendance"
  const SearchFailed: string := "Failed to search attendance"
  const UpdateFailed: string := "Failed to update attendance"
  const DeleteFailed: string := "Failed to delete attendance"

  /** The responses the handlers send; the JSON message strings of the success bodies are fixed
      by the constructor. */
  datatype Response =
    | Created(studentId: string, timestamp: string)  // 201 'Attendance recorded'
    | Rows(rows: seq<Record>)                         // 200, the rows as a JSON array
    | Updated(id: int)                                // 200 'Attendance updated'
    | Deleted(id: int)                                // 200 'Attendance deleted'
    | BadRequest(error: string)                       // 400
    | ServerError(error: string)                      // 500
  {
    function Status(): int {
      match this
      case Created(_, _) => 201
      case BadRequest(_) => 400
      case ServerError(_) => 500
      case _ => 200
    }
  }

  /** The outcome of a handler's checks, made before any storage access: the values to store,
      or the message of the 400 response. */
  datatype Checked<T> = Accept(value: T) | Reject(error: string)

  /** The create handler's checks: the body must be a truthy string, then the parsed studentId and
      timestamp must both be truthy (present and non-empty). */
  function CheckCreate(body: Value): (r: Checked<(string, string)>)
    ensures r == Reject(InvalidDataFormat) <==> !(body.Str? && body.s != "")
    ensures r == Reject(MissingFields) <==>
      body.Str? && body.s != "" &&
      (ParseAttendanceData(body.s).studentId == "" || !Present(ParseAttendanceData(body.s).timestamp))
    ensures r.Accept? <==>
      body.Str? && body.s != "" &&
      ParseAttendanceData(body.s).studentId != "" && Present(ParseAttendanceData(body.s).timestamp)
    ensures r.Accept? ==>
      && body.Str?
      && r.value.0 != "" && r.value.1 != ""
      && ParseAttendanceData(body.s) == Parsed(r.value.0, Some(r.value.1))
  {
    if !Truthy(body) || !body.Str? then Reject(InvalidDataFormat)
    else
      var p := ParseAttendanceData(body.s);
      if !Truthy(Str(p.studentId)) || !Present(p.timestamp) then Reject(MissingFields)
      else Accept((p.studentId, p.timestamp.value))
  }

  /** A body without a comma has no timestamp and is rejected. */
  lemma CreateRejectsNoComma(s: string)
    requires s != "" && Comma !in s
    ensures CheckCreate(Str(s)) == Reject(MissingFields)
  {
  }

  /** A body starting with a comma has an empty studentId and is rejected. */
  lemma CreateRejectsEmptyStudentId(s: string)
    requires s != "" && s[0] == Comma
    ensures CheckCreate(Str(s)) == Reject(MissingFields)
  {
  }

  /** A body whose first comma ends the text or is followed by another comma has an empty
      timestamp and is rejected. */
  lemma CreateRejectsEmptyTimestamp(studentId: string, rest: string)
    requires Comma !in studentId
    requires rest == [] || rest[0] == Comma
    ensures CheckCreate(Str(studentId + [Comma] + rest)) == Reject(MissingFields)
  {
    ParseWellFormed(studentId, "", rest);
    assert studentId + [Comma] + rest == studentId + [Comma] + "" + rest;
  }

  /** A body "<studentId>,<timestamp>" with both parts non-empty, possibly followed by further
      comma-separated fields, is accepted with exactly those two parts. */
  lemma CreateAcceptsWellFormed(studentId: string, timestamp: string, rest: string)
    requires studentId != "" && timestamp != ""
    requires Comma !in studentId && Comma !in timestamp
    requires rest == [] || rest[0] == Comma
    ensures CheckCreate(Str(studentId + [Comma] + timestamp + rest)) == Accept((studentId, timestamp))
  {
    ParseWellFormed(studentId, timestamp, rest);
  }

  /** The update handler's checks: studentId and timestamp must be truthy; a classId that is
      missing or empty is replaced by the default. */
  function CheckUpdate(studentId: Option<string>, timestamp: Option<string>, classId: Option<string>)
    : (r: Checked<(string, string, string)>)
    ensures r.Reject? <==> !Present(studentId) || !Present(timestamp)
    ensures r.Reject? ==> r.error == MissingFields
    ensures r.Accept? ==>
      && r.value.0 == studentId.value != ""
      && r.value.1 == timestamp.value != ""
      && r.value.2 != ""
      && (Present(classId) ==> r.value.2 == classId.value)
      && (!Present(classId) ==> r.value.2 == DefaultClassId)
  {
    if !Present(studentId) || !Present(timestamp) then Reject(MissingFields)
    else
      var cls := if Present(classId) then classId.value else DefaultClassId;
      Accept((studentId.value, timestamp.value, cls))
  }

  /** POST /attendance. */
  method PostAttendance(t: AttendanceTable, body: Value, storeFails: bool) returns (resp: Response)
    requires t.Valid()
    modifies t
    ensures t.Valid()
    ensures resp.Status() == (if CheckCreate(body).Reject? then 400 else if storeFails then 500 else 201)
    ensures CheckCreate(body).Reject? ==>
      resp == BadRequest(CheckCreate(body).error) && t.rows == old(t.rows) && t.nextId == old(t.nextId)
    ensures CheckCreate(body).Accept? && storeFails ==>
      resp == ServerError(SaveFailed) && t.rows == old(t.rows) && t.nextId == old(t.nextId)
    ensures CheckCreate(body).Accept? && !storeFails ==>
      var (studentId, timestamp) := CheckCreate(body).value;
      && resp == Created(studentId, timestamp)
      && (forall x :: x in old(t.rows) ==> x.id < old(t.nextId))
      && t.rows == old(t.rows) + [Record(old(t.nextId), studentId, timestamp, DefaultClassId)]
      && t.nextId == old(t.nextId) + 1
  {
    var checked := CheckCreate(body);
    if checked.Reject? {
      return BadRequest(checked.error);
    }
    if storeFails {
      return ServerError(SaveFailed);
    }
    var (studentId, timestamp) := checked.value;
    var id := t.Insert(studentId, timestamp, DefaultClassId);
    resp := Created(studentId, timestamp);
  }

  /** GET /attendance: the whole table. */
  method GetAttendance(t: AttendanceTable, storeFails: bool) returns (resp: Response)
    ensures resp.Status() == (if storeFails then 500 else 200)
    ensures storeFails ==> resp == ServerError(FetchFailed)
    ensures !storeFails ==> resp == Rows(t.rows)
  {
    if storeFails {
      return ServerError(FetchFailed);
    }
    var rows := RunSelect(t.rows, ListAllQuery, []);
    ListAllReturnsTable(t.rows);
    resp := Rows(rows.value);
  }

  /** GET /attendance/search: builds the statement, hands it to the store and answers with the
      rows it selects. Building the statement has no effect, so a failing store is answered
      before it is built. */
  method SearchAttendance(t: AttendanceTable, studentId: Option<string>, date: Option<string>, storeFails: bool)
    returns (resp: Response)
    ensures storeFails ==> resp == ServerError(SearchFailed) && resp.Status() == 500
    ensures !storeFails ==> resp == Rows(Select(t.rows, SearchConditions(studentId, date))) && resp.Status() == 200
    ensures !storeFails ==> forall x :: x in resp.rows <==>
      && x in t.rows
      && (Present(studentId) ==> x.studentId == studentId.value)
      && (Present(date) ==> Like(x.timestamp, date.value + "%"))
    ensures !storeFails && !Present(studentId) && !Present(date) ==> resp == Rows(t.rows)
  {
    if storeFails {
      return ServerError(SearchFailed);
    }
    var found := RunSearch(t.rows, studentId, date);
    resp := Rows(found);
    SearchSelects(t.rows, studentId, date);
    SelectNoConditions(t.rows);
  }

  /** The store's answer to the statement the search handler builds: exactly the rows its
      filters select. */
  method RunSearch(rows: seq<Record>, studentId: Option<string>, date: Option<string>)
    returns (found: seq<Record>)
    ensures found == Select(rows, SearchConditions(studentId, date))
  {
    var query, params := BuildSearchQuery(studentId, date);
    var answer := RunSelect(rows, query, params);
    RunSearchStatement(rows, SearchConditions(studentId, date));
    found := answer.value;
  }

  /** PUT /attendance/:id. */
  method PutAttendance(t: AttendanceTable, id: int, studentId: Option<string>, timestamp: Option<string>,
                       classId: Option<string>, storeFails: bool) returns (resp: Response)
    requires t.Valid()
    modifies t
    ensures t.Valid() && t.nextId == old(t.nextId)
    ensures resp.Status() ==
      (if CheckUpdate(studentId, timestamp, classId).Reject? then 400 else if storeFails then 500 else 200)
    ensures CheckUpdate(studentId, timestamp, classId).Reject? ==>
      resp == BadRequest(MissingFields) && t.rows == old(t.rows)
    ensures CheckUpdate(studentId, timestamp, classId).Accept? && storeFails ==>
      resp == ServerError(UpdateFailed) && t.rows == old(t.rows)
    ensures CheckUpdate(studentId, timestamp, classId).Accept? && !storeFails ==>
      var (s, ts, cls) := CheckUpdate(studentId, timestamp, classId).value;
      resp == Updated(id) && t.rows == WithUpdate(old(t.rows), id, s, ts, cls)
  {
    var checked := CheckUpdate(studentId, timestamp, classId);
    if checked.Reject? {
      return BadRequest(checked.error);
    }
    if storeFails {
      return ServerError(UpdateFailed);
    }
    var (s, ts, cls) := checked.value;
    t.Update(id, s, ts, cls);
    resp := Updated(id);
  }

  /** DELETE /attendance/:id. */
  method DeleteAttendance(t: AttendanceTable, id: int, storeFails: bool) returns (resp: Response)
    requires t.Valid()
    modifies t
    ensures t.Valid() && t.nextId == old(t.nextId)
    ensures resp.Status() == (if storeFails then 500 else 200)
    ensures storeFails ==> resp == ServerError(DeleteFailed) && t.rows == old(t.rows)
    ensures !storeFails ==> resp == Deleted(id) && t.rows == WithoutId(old(t.rows), id)
  {
    if storeFails {
      return ServerError(DeleteFailed);
    }
    t.Delete(id);
    resp := Deleted(id);
  }

  /** A create followed by a search by studentId, on a fresh table: the search finds the one
      row, with the default classId. */
  method CreateThenSearch() {
    var t := new AttendanceTable();
    var studentId, timestamp := "12345", "2025-03-22 10:00";
    CreateAcceptsWellFormed(studentId, timestamp, "");
    assert studentId + [Comma] + timestamp + "" == studentId + [Comma] + timestamp;
    var created := PostAttendance(t, Str(studentId + [Comma] + timestamp), false);
    assert created == Created(studentId, timestamp);
    var found := SearchAttendance(t, Some(studentId), None, false);
    var row := Record(1, studentId, timestamp, DefaultClassId);
    assert t.rows == [row];
    assert found.rows == [row] by {
      assert Matches(row, SearchConditions(Some(studentId), None));
    }
  }
}
