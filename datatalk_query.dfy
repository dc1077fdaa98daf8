/**
 * `DataTalk::executeQuery`: the candidate SQL in a reply is checked to be a SELECT, then run
 * against the database, falling back to the alternative candidate when the first one fails,
 * and every fetched row is collected into the reply's `answer`.
 */
module DataTalkQuery {
  import opened Wrappers
  import opened PhpText
  import opened DataTalkPrompt

  /** One fetched row, column name to value, as `db_fetch_assoc` gives it. */
  type Row = map<string, string>

  /** What the database does with one SQL text: a failure with its message, or the rows of a result set. */
  datatype DbResult = DbError(message: string) | DbRows(rows: seq<Row>)

  /** The database as an oracle from SQL text to outcome. */
  type Database = string -> DbResult

  datatype Usage = Usage(promptTokens: nat, completionTokens: nat, totalTokens: nat)

  /** The reply object; `None` stands for a key that is `null` or missing. */
  datatype Reply = Reply(
    id: Option<int>,
    prompt: Option<Prompt>,
    answer: Option<seq<Row>>,
    query: Option<string>,
    alternativeQuery: Option<string>,
    tokenUsage: Option<Usage>,
    error: Option<ErrorText>)

  /**
   * The `error` values the pipeline produces: the two fixed rejections of executeQuery,
   * or a message passed through from the database, the chat service or a stored record.
   */
  datatype ErrorText = NotSelect | EmptyQuery | Message(text: string)

  /** The text sent to the client for each error. */
  function ErrorString(e: ErrorText): string {
    match e
    case NotSelect => "Query must begin with SELECT."
    case EmptyQuery => "Query is empty. Please make sure you are <a href=\"?page=settings\">using a valid, non-expired ChatGPT API key</a>."
    case Message(t) => t
  }

  /** PHP truthiness of the `error` key: a null error, `""` or `"0"` is falsy. */
  predicate HasError(r: Reply) {
    r.error.Some? && Truthy(Some(ErrorString(r.error.value)))
  }

  /** `replyTemplate`: every key present and null. */
  function ReplyTemplate(): Reply {
    Reply(None, None, None, None, None, None, None)
  }

  /** One execution: the updated reply and the SQL texts sent to the database, in order. */
  datatype Execution = Execution(reply: Reply, calls: seq<string>)


  /** The query text; a null query reads as the empty string. */
  function QueryText(r: Reply): string {
    r.query.GetOr("")
  }

  predicate AllSpace(s: string) {
    forall i :: 0 <= i < |s| ==> IsPcreSpace(s[i])
  }

  /** The explicit matcher for `/^\s*SELECT\s+/i`: skip the leading whitespace, then `SELECT` in any case and one whitespace. */
  predicate HasSelectPrefix(q: string) {
    var k := SkipSpaces(q, 0);
    k + 7 <= |q| && CaseEq(q[k..k + 6], "SELECT") && IsPcreSpace(q[k + 6])
  }

  /** What the regular expression means: some (possibly empty) run of whitespace, `SELECT` in any case, then whitespace. */
  ghost predicate SelectRegexMatches(q: string) {
    exists k :: 0 <= k && k + 7 <= |q| && AllSpace(q[..k]) && CaseEq(q[k..k + 6], "SELECT") && IsPcreSpace(q[k + 6])
  }

  /** A text of the shape the regular expression describes is one the matcher accepts. */
  lemma SelectPrefixFromParts(q: string, k: nat)
    requires k + 7 <= |q| && AllSpace(q[..k]) && CaseEq(q[k..k + 6], "SELECT") && IsPcreSpace(q[k + 6])
    ensures HasSelectPrefix(q)
  {
    assert Lower(q[k]) == Lower("SELECT"[0]);
    assert forall i :: 0 <= i < k ==> IsPcreSpace(q[..k][i]);
    SkipSpacesStopsAt(q, 0, k);
  }

  /** The matcher accepts exactly the texts the regular expression matches. */
  lemma SelectMatcherAgrees(q: string)
    ensures HasSelectPrefix(q) <==> SelectRegexMatches(q)
  {
    if HasSelectPrefix(q) {
      var j := SkipSpaces(q, 0);
      assert AllSpace(q[..j]);
    }
    if SelectRegexMatches(q) {
      var k :| 0 <= k && k + 7 <= |q| && AllSpace(q[..k]) && CaseEq(q[k..k + 6], "SELECT") && IsPcreSpace(q[k + 6]);
      SelectPrefixFromParts(q, k);
    }
  }

  /** Both checks executeQuery makes before running a text: the SELECT prefix, and not the bare word `SELECT`. */
  predicate Acceptable(q: string) {
    HasSelectPrefix(q) && Trim(q) != "SELECT"
  }

  /**
   * executeQuery as written: the alternative query, when there is one, is run without
   * either check.
   */
  function ExecuteAsWritten(reply: Reply, db: Database): (r: Execution)
    ensures |r.calls| <= 2
    ensures r.calls != [] ==> r.calls[0] == QueryText(reply) && Acceptable(r.calls[0])
    ensures |r.calls| == 2 ==>
      db(r.calls[0]).DbError? && Truthy(reply.alternativeQuery) && r.calls[1] == reply.alternativeQuery.value
  {
    var q := QueryText(reply);
    if !HasSelectPrefix(q) then Execution(reply.(error := Some(NotSelect)), [])
    else if Trim(q) == "SELECT" then Execution(reply.(error := Some(EmptyQuery)), [])
    else
      match db(q)
      case DbRows(rows) => Execution(reply.(answer := Some(rows)), [q])
      case DbError(m) =>
        if !Truthy(reply.alternativeQuery) then Execution(reply.(error := Some(Message(m))), [q])
        else
          var alt := reply.alternativeQuery.value;
          match db(alt)
          case DbRows(rows) => Execution(reply.(answer := Some(rows)), [q, alt])
          case DbError(m2) => Execution(reply.(error := Some(Message(m2))), [q, alt])
  }

  /**
   * executeQuery with the alternative held to the same checks as the primary query: an
   * alternative that fails them is treated as absent. It differs from the code as written
   * only there: the code would also send that alternative to the database.
   */
  function Execute(reply: Reply, db: Database): (r: Execution)
    ensures r != ExecuteAsWritten(reply, db) ==>
      && Truthy(reply.alternativeQuery) && !Acceptable(reply.alternativeQuery.value)
      && r.calls == [QueryText(reply)]
      && ExecuteAsWritten(reply, db).calls == [QueryText(reply), reply.alternativeQuery.value]
  {
    var q := QueryText(reply);
    if !HasSelectPrefix(q) then Execution(reply.(error := Some(NotSelect)), [])
    else if Trim(q) == "SELECT" then Execution(reply.(error := Some(EmptyQuery)), [])
    else
      match db(q)
      case DbRows(rows) => Execution(reply.(answer := Some(rows)), [q])
      case DbError(m) =>
        if !Truthy(reply.alternativeQuery) || !Acceptable(reply.alternativeQuery.value) then
          Execution(reply.(error := Some(Message(m))), [q])
        else
          var alt := reply.alternativeQuery.value;
          match db(alt)
          case DbRows(rows) => Execution(reply.(answer := Some(rows)), [q, alt])
          case DbError(m2) => Execution(reply.(error := Some(Message(m2))), [q, alt])
  }

  /**
   * The imperative executeQuery, as written: validate the primary query, run it, fall back
   * to the (unchecked) alternative, then fetch the result set row by row into the answer.
   */
  method ExecuteQuery(reply: Reply, db: Database) returns (updated: Reply, calls: seq<string>)
    ensures Execution(updated, calls) == ExecuteAsWritten(reply, db)
  {
    updated, calls := reply, [];
    var q := QueryText(reply);
    if !HasSelectPrefix(q) {
      updated := updated.(error := Some(NotSelect));
      return;
    }
    if Trim(q) == "SELECT" {
      updated := updated.(error := Some(EmptyQuery));
      return;
    }
    assert Acceptable(q);
    var res := db(q);
    calls := [q];
    if res.DbError? {
      if !Truthy(reply.alternativeQuery) {
        updated := updated.(error := Some(Message(res.message)));
        return;
      }
      var alt := reply.alternativeQuery.value;
      res := db(alt);
      calls := calls + [alt];
      if res.DbError? {
        updated := updated.(error := Some(Message(res.message)));
        return;
      }
    }
    var dataset := FetchAll(res.rows);
    assert dataset == res.rows;
    updated := updated.(answer := Some(dataset));
  }

  /** The fetch loop: every row of the result set, appended one at a time, in fetch order. */
  method FetchAll(cursor: seq<Row>) returns (dataset: seq<Row>)
    ensures |dataset| == |cursor|
    ensures forall k :: 0 <= k < |cursor| ==> dataset[k] == cursor[k]
  {
    dataset := [];
    var i := 0;
    while i < |cursor|
      invariant 0 <= i <= |cursor|
      invariant dataset == cursor[..i]
    {
      dataset := dataset + [cursor[i]];
      i := i + 1;
    }
  }

  // ------------------------------------------------------------ properties

  /** An execution changes only the `answer` and `error` keys; the recorded query texts, id, prompt and usage stay. */
  lemma ExecuteKeepsQueries(reply: Reply, db: Database)
    ensures var out := ExecuteAsWritten(reply, db);
      out.reply == reply.(answer := out.reply.answer, error := out.reply.error)
  {
  }

  /**
   * With the correction, at most two texts reach the database and each passed both checks;
   * the primary query is always the first, and the alternative is run only after the
   * primary one failed.
   */
  lemma ExecuteRunsOnlyAcceptable(reply: Reply, db: Database)
    ensures var out := Execute(reply, db);
      && |out.calls| <= 2
      && (forall k :: 0 <= k < |out.calls| ==> Acceptable(out.calls[k]))
      && (out.calls != [] ==> out.calls[0] == QueryText(reply))
      && (|out.calls| == 2 ==> db(out.calls[0]).DbError? && reply.alternativeQuery == Some(out.calls[1]))
  {
    var q := QueryText(reply);
    if HasSelectPrefix(q) && Trim(q) != "SELECT" {
      assert Acceptable(q);
    }
  }

  /**
   * The outcome of the last text run decides the reply: its rows become the answer, or its
   * message becomes the error. When nothing was run, the reply carries one of the two rejections.
   */
  lemma ExecuteLastCallDecides(reply: Reply, db: Database)
    ensures var out := ExecuteAsWritten(reply, db);
      && (out.calls != [] ==>
            var last := db(out.calls[|out.calls| - 1]);
            if last.DbRows? then out.reply.answer == Some(last.rows) && out.reply.error == reply.error
            else out.reply.error == Some(Message(last.message)) && out.reply.answer == reply.answer)
      && (out.calls == [] ==>
            out.reply.answer == reply.answer && (out.reply.error == Some(NotSelect) || out.reply.error == Some(EmptyQuery)))
  {
  }

  /**
   * A query the regular expression does not match is rejected with "Query must begin with
   * SELECT.", nothing is sent to the database and the answer stays as it was.
   */
  lemma RejectsNonSelect(reply: Reply, db: Database)
    requires !SelectRegexMatches(QueryText(reply))
    ensures ExecuteAsWritten(reply, db).calls == []
    ensures ExecuteAsWritten(reply, db).reply == reply.(error := Some(NotSelect))
  {
    SelectMatcherAgrees(QueryText(reply));
  }

  /**
   * A query that trims to exactly `SELECT` never reaches the database; once past the
   * prefix check it is rejected as empty.
   */
  lemma RejectsBareSelect(reply: Reply, db: Database)
    requires Trim(QueryText(reply)) == "SELECT"
    ensures ExecuteAsWritten(reply, db).calls == []
    ensures ExecuteAsWritten(reply, db).reply.answer == reply.answer
    ensures HasSelectPrefix(QueryText(reply)) ==> ExecuteAsWritten(reply, db).reply.error == Some(EmptyQuery)
  {
  }

  lemma LowerSelectFacts()
    ensures HasSelectPrefix("select ") && Trim("select ") == "select"
  {
    var t := "select ";
    assert SkipSpaces(t, 0) == 0;
    assert CaseEq(t[0..6], "SELECT");
    TrimPadded("", "select", " ");
    assert "" + "select" + " " == t;
  }

  lemma UpperSelectFacts()
    ensures HasSelectPrefix("SELECT ") && Trim("SELECT ") == "SELECT"
  {
    var t := "SELECT ";
    assert SkipSpaces(t, 0) == 0;
    assert CaseEq(t[0..6], "SELECT");
    TrimPadded("", "SELECT", " ");
    assert "" + "SELECT" + " " == t;
  }

  /** The comparison with `SELECT` is case-sensitive: `"select "` passes both checks and is run. */
  lemma LowerCaseSelectIsRun(db: Database)
    ensures ExecuteAsWritten(ReplyTemplate().(query := Some("select ")), db).calls == ["select "]
  {
    var r := ReplyTemplate().(query := Some("select "));
    assert QueryText(r) == "select ";
    LowerSelectFacts();
  }

  /** ... while `"SELECT "` passes the prefix check and is rejected as empty. */
  lemma UpperCaseSelectIsEmpty(db: Database)
    ensures ExecuteAsWritten(ReplyTemplate().(query := Some("SELECT ")), db).calls == []
    ensures ExecuteAsWritten(ReplyTemplate().(query := Some("SELECT ")), db).reply.error == Some(EmptyQuery)
  {
    var r := ReplyTemplate().(query := Some("SELECT "));
    assert QueryText(r) == "SELECT ";
    UpperSelectFacts();
  }

  /**
   * The primary query failed and there is no alternative: the database's message becomes the
   * error, no answer is set and the query field keeps the primary text.
   */
  lemma FailureWithoutAlternative(reply: Reply, db: Database)
    requires Acceptable(QueryText(reply)) && db(QueryText(reply)).DbError?
    requires !Truthy(reply.alternativeQuery)
    ensures ExecuteAsWritten(reply, db).calls == [QueryText(reply)]
    ensures ExecuteAsWritten(reply, db).reply == reply.(error := Some(Message(db(QueryText(reply)).message)))
  {
  }

  /**
   * The primary query failed and a (truthy) alternative exists: the alternative is run next,
   * whatever its text, and its outcome decides the reply, whose query field still holds the
   * primary text.
   */
  lemma FallbackToAlternative(reply: Reply, db: Database)
    requires Acceptable(QueryText(reply)) && db(QueryText(reply)).DbError?
    requires Truthy(reply.alternativeQuery)
    ensures ExecuteAsWritten(reply, db).calls == [QueryText(reply), reply.alternativeQuery.value]
    ensures ExecuteAsWritten(reply, db).reply.query == reply.query
    ensures db(reply.alternativeQuery.value).DbRows? ==>
      ExecuteAsWritten(reply, db).reply.answer == Some(db(reply.alternativeQuery.value).rows)
    ensures db(reply.alternativeQuery.value).DbError? ==>
      ExecuteAsWritten(reply, db).reply.error == Some(Message(db(reply.alternativeQuery.value).message))
  {
  }

  /**
   * As written, a failing SELECT with an alternative that is not a SELECT at all gets the
   * alternative run against the database.
   */
  lemma AlternativeBypassesSelectCheck()
    ensures var reply := ReplyTemplate().(query := Some("SELECT * FROM missing"), alternativeQuery := Some("DROP TABLE users"));
      var db: Database := _ => DbError("Table 'missing' doesn't exist");
      && ExecuteAsWritten(reply, db).calls == ["SELECT * FROM missing", "DROP TABLE users"]
      && !Acceptable("DROP TABLE users")
  {
    SelectFromMissingIsAcceptable();
    DropIsNotSelect();
  }

  lemma SelectFromMissingIsAcceptable()
    ensures HasSelectPrefix("SELECT * FROM missing") && Trim("SELECT * FROM missing") != "SELECT"
  {
    var q := "SELECT * FROM missing";
    assert SkipSpaces(q, 0) == 0;
    assert CaseEq(q[0..6], "SELECT");
    assert TrimLeft(q) == q && TrimRight(q) == q;
  }

  lemma DropIsNotSelect()
    ensures !HasSelectPrefix("DROP TABLE users")
  {
    var d := "DROP TABLE users";
    assert SkipSpaces(d, 0) == 0;
    assert Lower(d[0]) != Lower("SELECT"[0]);
  }

  lemma ShowIsNotSelect()
    ensures !HasSelectPrefix("SHOW TABLES")
  {
    var t := "SHOW TABLES";
    assert SkipSpaces(t, 0) == 0;
    assert t[0..6] == "SHOW T";
    assert Lower(t[1]) != Lower("SELECT"[1]);
  }
}
