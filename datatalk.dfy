/**
 * The DataTalk question store and answer pipeline: a member's questions are kept in the
 * `appgini_datatalk_questions` table; a question is answered from a stored record when one
 * matches (by id, then by question text), otherwise the chat completion service is asked
 * for a query, and the query is run against the application database. A fresh, successful
 * answer is stored for later reuse.
 */
module DataTalk {
  import opened Wrappers
  import opened PhpText
  import opened DataTalkPrompt
  import opened DataTalkQuery

  /** A row of `appgini_datatalk_questions` (the `date` column is not part of the model). */
  datatype QuestionRecord = QuestionRecord(
    id: int,
    question: string,
    query: string,
    memberId: string,
    resultsCount: int,
    isError: bool)

  /** What is posted to the chat completion endpoint: the bearer key and the two messages. */
  datatype ChatRequest = ChatRequest(apiKey: string, prompt: Prompt)

  /**
   * The chat completion service's answer: a transport or decoding failure with its message,
   * or a completion with the first choice's content, the second choice's content when the
   * response has one, and the token usage when the response reports it.
   */
  datatype ChatOutcome =
    | ChatFailure(message: string)
    | Completion(query: Option<string>, alternative: Option<string>, usage: Option<Usage>)

  /** The chat completion service as an oracle. */
  type ChatService = ChatRequest -> ChatOutcome

  /** SQL `LIKE` as the table's collation evaluates it: stored value, then pattern. */
  type LikeMatcher = (string, string) -> bool

  /** A call that leaves the plugin while a question is answered. */
  datatype ExternalCall = ChatCall(request: ChatRequest) | DbCall(sql: string)

  /** An answer: the reply object and the external calls made to produce it, in order. */
  datatype Answer = Answer(reply: Reply, calls: seq<ExternalCall>)

  /** The name of the setting that holds the chat service key. */
  const ApiKeySetting := "chatgpt_api_key"

  /** The SQL texts run by an execution, as external calls. */
  function DbCalls(sqls: seq<string>): seq<ExternalCall> {
    seq(|sqls|, k requires 0 <= k < |sqls| => DbCall(sqls[k]))
  }

  /** PHP truthiness of a question id: null and `0` are falsy. */
  predicate IdTruthy(id: Option<int>) {
    id.Some? && id.value != 0
  }

  /**
   * `replyFromQuestion`: a reply rebuilt from a stored record. `is_error` arrives from the
   * database as the string "1" or "0", so the reply's error is truthy exactly when the record
   * was flagged.
   */
  function ReplyFromQuestion(rec: QuestionRecord, schema: seq<Table>): (r: Reply)
    ensures HasError(r) <==> rec.isError
    ensures r.id == Some(rec.id) && r.query == Some(rec.query)
    ensures r.prompt.Some? && r.prompt.value.user == rec.question
    ensures r.answer.None? && r.alternativeQuery.None? && r.tokenUsage.None?
  {
    ReplyTemplate().(
      id := Some(rec.id),
      prompt := Some(PreparePrompt(rec.question, schema)),
      query := Some(rec.query),
      error := Some(Message(if rec.isError then "1" else "0")))
  }

  /**
   * `getQueryFromChatGpt`: a failure yields a reply holding only the error message; a
   * completion yields the prompt, both candidate queries and the usage, and no error.
   */
  function ReplyFromChat(prompt: Prompt, outcome: ChatOutcome): (r: Reply)
    ensures r.id.None? && r.answer.None?
    ensures outcome.ChatFailure? ==> r.error == Some(Message(outcome.message)) && r.prompt.None? && r.query.None?
    ensures outcome.Completion? ==>
      && !HasError(r) && r.prompt == Some(prompt)
      && r.query == outcome.query && r.alternativeQuery == outcome.alternative && r.tokenUsage == outcome.usage
  {
    match outcome
    case ChatFailure(m) => ReplyTemplate().(error := Some(Message(m)))
    case Completion(q, alt, usage) =>
      ReplyTemplate().(prompt := Some(prompt), query := q, alternativeQuery := alt, tokenUsage := usage)
  }

  /** The store decision of handleUserQuestion: no id was posted, the reply has none, and it carries no error. */
  predicate ShouldStore(questionId: Option<int>, reply: Reply) {
    !IdTruthy(questionId) && !IdTruthy(reply.id) && !HasError(reply)
  }

  /** A record that `getQuestion` may return for this member and question text. */
  predicate Matches(rec: QuestionRecord, member: string, question: string, like: LikeMatcher) {
    rec.memberId == member && like(rec.question, Trim(question))
  }

  /**
   * The question table and the settings table, seen from one logged-in member. Ids are
   * handed out by auto-increment, so every stored id lies below `nextId`.
   */
  class DataTalkStore {
    /** The logged-in member every question query is restricted to. */
    const memberId: string
    /** `appgini_datatalk_questions`, keyed by id, holding every member's rows. */
    var rows: map<int, QuestionRecord>
    /** The next auto-increment value. */
    var nextId: int
    /** `appgini_datatalk_settings`, name to value. */
    var settings: map<string, string>

    ghost predicate Valid()
      reads this
    {
      1 <= nextId && forall id :: id in rows ==> 1 <= id < nextId && rows[id].id == id
    }

    /** The tables as the plugin's setup creates them: empty. */
    constructor (member: string)
      ensures Valid()
      ensures memberId == member && rows == map[] && nextId == 1 && settings == map[]
    {
      memberId := member;
      rows := map[];
      nextId := 1;
      settings := map[];
    }

    /** The row with this id exists and belongs to the logged-in member. */
    predicate Owned(id: int)
      reads this
    {
      id in rows && rows[id].memberId == memberId
    }

    /**
     * `getQuestionById`: the member's record with that id, or nothing when the id is
     * unknown or belongs to another member.
     */
    function GetQuestionById(id: int): (r: Option<QuestionRecord>)
      reads this
      requires Valid()
      ensures r.Some? ==> id in rows && rows[id] == r.value && r.value.id == id && r.value.memberId == memberId
      ensures r.None? ==> forall k :: k in rows ==> rows[k].id != id || rows[k].memberId != memberId
    {
      if Owned(id) then Some(rows[id]) else None
    }

    /** The first record, by ascending id from `from`, that matches the member and the question text. */
    function FirstMatch(question: string, like: LikeMatcher, from: int): (r: Option<QuestionRecord>)
      reads this
      requires Valid() && 1 <= from
      ensures r.Some? ==> r.value.id in rows && rows[r.value.id] == r.value && from <= r.value.id
      ensures r.Some? ==> Matches(r.value, memberId, question, like)
      ensures forall id :: id in rows && from <= id && (r.Some? ==> id < r.value.id) ==>
        !Matches(rows[id], memberId, question, like)
      decreases nextId - from
    {
      if nextId <= from then None
      else if Owned(from) && like(rows[from].question, Trim(question)) then Some(rows[from])
      else FirstMatch(question, like, from + 1)
    }

    /**
     * `getQuestion`: a record of this member whose question is LIKE the trimmed text; the
     * one with the smallest id when several match, and nothing when none does.
     */
    function GetQuestion(question: string, like: LikeMatcher): (r: Option<QuestionRecord>)
      reads this
      requires Valid()
      ensures r.Some? ==> r.value.id in rows && rows[r.value.id] == r.value && Matches(r.value, memberId, question, like)
      ensures r.None? ==> forall k :: k in rows ==> !Matches(rows[k], memberId, question, like)
      ensures r.Some? ==> forall k :: k in rows && Matches(rows[k], memberId, question, like) ==> r.value.id <= k
    {
      FirstMatch(question, like, 1)
    }

    /** The member's records with id below `hi`, newest (highest id) first. */
    function OwnedDesc(hi: int): seq<QuestionRecord>
      reads this
      decreases hi
    {
      if hi <= 1 then []
      else (if Owned(hi - 1) then [rows[hi - 1]] else []) + OwnedDesc(hi - 1)
    }

    /**
     * `getRecentQuestions`: the member's most recent `n` questions, newest first; a limit
     * below one yields nothing.
     */
    method GetRecentQuestions(n: int) returns (questions: seq<QuestionRecord>)
      requires Valid()
      ensures var all := OwnedDesc(nextId);
        questions == all[..if n <= 0 then 0 else if n < |all| then n else |all|]
    {
      questions := [];
      if n <= 0 {
        return;
      }
      var id := nextId - 1;
      while 1 <= id && |questions| < n
        invariant 0 <= id < nextId
        invariant |questions| <= n
        invariant questions + OwnedDesc(id + 1) == OwnedDesc(nextId)
        decreases id
      {
        var rest := OwnedDesc(id);
        if Owned(id) {
          assert OwnedDesc(id + 1) == [rows[id]] + rest;
          questions := questions + [rows[id]];
        } else {
          assert OwnedDesc(id + 1) == rest;
        }
        id := id - 1;
      }
      var all := OwnedDesc(nextId);
      if |questions| == n {
        assert all[..n] == questions;
      } else {
        assert OwnedDesc(id + 1) == [];
      }
    }

    /**
     * `storeQuestion`: on success a new row with the next id, the trimmed question and query
     * (a null query stored as the empty string) and the given count and flag, owned by the
     * logged-in member; on a failed insert nothing changes and the result is false (`None`).
     */
    method StoreQuestion(question: string, query: Option<string>, resultsCount: int, isError: bool, dbUp: bool)
      returns (id: Option<int>)
      modifies this
      requires Valid()
      ensures Valid()
      ensures settings == old(settings)
      ensures !dbUp ==> id.None? && rows == old(rows) && nextId == old(nextId)
      ensures dbUp ==>
        && id == Some(old(nextId)) && nextId == old(nextId) + 1
        && rows == old(rows)[old(nextId) := QuestionRecord(old(nextId), Trim(question), Trim(query.GetOr("")), memberId, resultsCount, isError)]
      ensures dbUp ==> GetQuestionById(id.value).Some? && OwnedDesc(nextId)[0] == rows[id.value]
    {
      if !dbUp {
        return None;
      }
      var rec := QuestionRecord(nextId, Trim(question), Trim(query.GetOr("")), memberId, resultsCount, isError);
      rows := rows[nextId := rec];
      id := Some(nextId);
      nextId := nextId + 1;
    }

    /**
     * `deleteQuestion`: the member's row with that id is removed; another member's row or an
     * unknown id is left alone, and the result reports only whether the statement ran.
     */
    method DeleteQuestion(id: int, dbUp: bool) returns (ok: bool)
      modifies this
      requires Valid()
      ensures Valid()
      ensures ok == dbUp
      ensures nextId == old(nextId) && settings == old(settings)
      ensures rows == if dbUp && old(Owned(id)) then old(rows) - {id} else old(rows)
      ensures dbUp ==> GetQuestionById(id).None?
    {
      if dbUp && Owned(id) {
        rows := rows - {id};
      }
      ok := dbUp;
    }

    /** The stored value of a setting, trimmed; a missing setting reads as the empty string. */
    function SettingValue(name: string): (v: string)
      reads this
      ensures v == [] || (!IsTrimChar(v[0]) && !IsTrimChar(v[|v| - 1]))
      ensures name !in settings ==> v == ""
    {
      if name in settings then
        TrimShape(settings[name]);
        Trim(settings[name])
      else ""
    }

    /** `setting`: write the value when one is given (an empty string included), then read the setting back. */
    method Setting(name: string, value: Option<string>, dbUp: bool) returns (v: string)
      modifies this
      requires Valid()
      ensures Valid()
      ensures rows == old(rows) && nextId == old(nextId)
      ensures settings == if value.Some? && dbUp then old(settings)[name := value.value] else old(settings)
      ensures v == SettingValue(name)
      ensures value.Some? && dbUp ==> v == Trim(value.value)
    {
      if value.Some? && dbUp {
        settings := settings[name := value.value];
      }
      v := SettingValue(name);
    }

    /**
     * The record getAnswer reuses: a truthy posted id that names a record of the member wins;
     * otherwise the text lookup decides.
     */
    function CachedRecord(question: string, questionId: Option<int>, like: LikeMatcher): (r: Option<QuestionRecord>)
      reads this
      requires Valid()
      ensures IdTruthy(questionId) && Owned(questionId.value) ==> r == Some(rows[questionId.value])
      ensures !(IdTruthy(questionId) && Owned(questionId.value)) ==> r == GetQuestion(question, like)
      ensures r.Some? ==> r.value.id in rows && rows[r.value.id] == r.value && r.value.memberId == memberId && 1 <= r.value.id
      ensures r.None? ==> (IdTruthy(questionId) ==> !Owned(questionId.value))
      ensures r.None? ==> forall k :: k in rows ==> !Matches(rows[k], memberId, question, like)
    {
      if IdTruthy(questionId) && GetQuestionById(questionId.value).Some? then GetQuestionById(questionId.value)
      else GetQuestion(question, like)
    }

    /**
     * `getAnswer`: a reused record is replayed (or returned at once when it was flagged as an
     * error); otherwise the chat service is asked with the prepared prompt and the stored key,
     * and the query it suggests is executed unless the request failed.
     */
    function GetAnswer(question: string, questionId: Option<int>, schema: seq<Table>,
                       chat: ChatService, db: Database, like: LikeMatcher): (r: Answer)
      reads this
      requires Valid()
      ensures |r.calls| <= 3
      ensures forall k :: 1 <= k < |r.calls| ==> r.calls[k].DbCall?
      ensures r.reply.id == if CachedRecord(question, questionId, like).Some?
        then Some(CachedRecord(question, questionId, like).value.id) else None
    {
      match CachedRecord(question, questionId, like)
      case Some(rec) =>
        var reply := ReplyFromQuestion(rec, schema);
        if HasError(reply) then Answer(reply, [])
        else
          var e := ExecuteAsWritten(reply, db);
          Answer(e.reply, DbCalls(e.calls))
      case None =>
        var request := ChatRequest(SettingValue(ApiKeySetting), PreparePrompt(question, schema));
        var reply := ReplyFromChat(request.prompt, chat(request));
        if HasError(reply) then Answer(reply, [ChatCall(request)])
        else
          var e := ExecuteAsWritten(reply, db);
          Answer(e.reply, [ChatCall(request)] + DbCalls(e.calls))
    }

    /**
     * `handleUserQuestion`: answer the question, store it when it was a fresh success (the
     * new id goes into the reply), and report 500 when the reply carries an error.
     */
    method HandleUserQuestion(question: string, questionId: Option<int>, schema: seq<Table>,
                              chat: ChatService, db: Database, like: LikeMatcher, dbUp: bool)
      returns (reply: Reply, status: int, calls: seq<ExternalCall>)
      modifies this
      requires Valid()
      ensures Valid()
      ensures var a := old(GetAnswer(question, questionId, schema, chat, db, like));
        && calls == a.calls
        && (if ShouldStore(questionId, a.reply) then
              && reply == a.reply.(id := if dbUp then Some(old(nextId)) else None)
              && (dbUp ==> rows == old(rows)[old(nextId) := QuestionRecord(
                    old(nextId), Trim(question), Trim(QueryText(a.reply)), memberId,
                    |a.reply.answer.GetOr([])|, false)])
              && (!dbUp ==> rows == old(rows))
            else reply == a.reply && rows == old(rows))
        && nextId == if ShouldStore(questionId, a.reply) && dbUp then old(nextId) + 1 else old(nextId)
      ensures settings == old(settings)
      ensures status == if HasError(reply) then 500 else 200
    {
      var a := GetAnswer(question, questionId, schema, chat, db, like);
      reply, calls := a.reply, a.calls;
      if ShouldStore(questionId, reply) {
        var id := StoreQuestion(question, reply.query, |reply.answer.GetOr([])|, false, dbUp);
        reply := reply.(id := id);
      }
      status := if HasError(reply) then 500 else 200;
    }
  }

  // ------------------------------------------------------------ properties

  /** Every record in `OwnedDesc(hi)` is the member's, below `hi`, and they come in strictly descending id order. */
  lemma {:induction false} OwnedDescSorted(s: DataTalkStore, hi: int)
    requires s.Valid()
    ensures forall k :: 0 <= k < |s.OwnedDesc(hi)| ==>
      var r := s.OwnedDesc(hi)[k]; r.memberId == s.memberId && r.id < hi && r.id in s.rows && s.rows[r.id] == r
    ensures forall k, l :: 0 <= k < l < |s.OwnedDesc(hi)| ==> s.OwnedDesc(hi)[k].id > s.OwnedDesc(hi)[l].id
    decreases hi
  {
    if hi > 1 {
      OwnedDescSorted(s, hi - 1);
      var rest := s.OwnedDesc(hi - 1);
      var head := if s.Owned(hi - 1) then [s.rows[hi - 1]] else [];
      var xs := s.OwnedDesc(hi);
      assert xs == head + rest;
      forall k | 0 <= k < |xs|
        ensures xs[k].memberId == s.memberId && xs[k].id < hi && xs[k].id in s.rows && s.rows[xs[k].id] == xs[k]
      {
        if k < |head| {
          assert xs[k] == s.rows[hi - 1];
        } else {
          assert xs[k] == rest[k - |head|];
        }
      }
      forall k, l | 0 <= k < l < |xs|
        ensures xs[k].id > xs[l].id
      {
        if l < |head| {
          assert false;
        } else if k < |head| {
          assert xs[l] == rest[l - |head|];
        } else {
          assert xs[k] == rest[k - |head|] && xs[l] == rest[l - |head|];
        }
      }
    }
  }

  /** Every record of the member with id below `hi` is listed in `OwnedDesc(hi)`. */
  lemma {:induction false} OwnedDescComplete(s: DataTalkStore, hi: int, id: int)
    requires s.Valid() && s.Owned(id) && id < hi
    ensures s.rows[id] in s.OwnedDesc(hi)
    decreases hi
  {
    if hi - 1 != id {
      OwnedDescComplete(s, hi - 1, id);
    }
  }

  /** A reused record never reaches the chat service, and the answer it gives is never stored again. */
  lemma CacheHitSkipsChatService(s: DataTalkStore, question: string, questionId: Option<int>, schema: seq<Table>,
                                 chat: ChatService, db: Database, like: LikeMatcher)
    requires s.Valid() && s.CachedRecord(question, questionId, like).Some?
    ensures var a := s.GetAnswer(question, questionId, schema, chat, db, like);
      && (forall k :: 0 <= k < |a.calls| ==> a.calls[k].DbCall?)
      && !ShouldStore(questionId, a.reply)
  {
  }

  /** A record flagged as an error is returned as it is, with error "1", and nothing is run. */
  lemma FlaggedRecordShortCircuits(s: DataTalkStore, question: string, questionId: Option<int>, schema: seq<Table>,
                                   chat: ChatService, db: Database, like: LikeMatcher)
    requires s.Valid()
    requires var c := s.CachedRecord(question, questionId, like); c.Some? && c.value.isError
    ensures var a := s.GetAnswer(question, questionId, schema, chat, db, like);
      && a.calls == []
      && a.reply.error == Some(Message("1"))
      && a.reply.answer.None?
  {
  }

  /**
   * A reused record that is not flagged re-runs its stored query and nothing else: a stored
   * record has no alternative query, so at most its own query is sent (exactly that one when
   * it passes the SELECT checks), and the reply keeps the record's id and query.
   */
  lemma CacheHitRunsStoredQuery(s: DataTalkStore, question: string, questionId: Option<int>, schema: seq<Table>,
                                chat: ChatService, db: Database, like: LikeMatcher)
    requires s.Valid()
    requires var c := s.CachedRecord(question, questionId, like); c.Some? && !c.value.isError
    ensures var rec := s.CachedRecord(question, questionId, like).value;
      var a := s.GetAnswer(question, questionId, schema, chat, db, like);
      && (a.calls == [] || a.calls == [DbCall(rec.query)])
      && (Acceptable(rec.query) <==> a.calls == [DbCall(rec.query)])
      && a.reply.id == Some(rec.id) && a.reply.query == Some(rec.query)
  {
    var rec := s.CachedRecord(question, questionId, like).value;
    var reply := ReplyFromQuestion(rec, schema);
    ExecuteKeepsQueries(reply, db);
    assert QueryText(reply) == rec.query;
  }

  /**
   * Re-asking with the id of one of the member's records replays that record: the reply
   * carries its id and stored query, the chat service is never asked, and only the stored
   * query can reach the database.
   */
  lemma PostedIdIsReplayed(s: DataTalkStore, question: string, questionId: Option<int>, schema: seq<Table>,
                           chat: ChatService, db: Database, like: LikeMatcher)
    requires s.Valid() && IdTruthy(questionId) && s.Owned(questionId.value)
    ensures var rec := s.rows[questionId.value];
      var a := s.GetAnswer(question, questionId, schema, chat, db, like);
      && a.reply.id == Some(questionId.value) && a.reply.query == Some(rec.query)
      && (a.calls == [] || a.calls == [DbCall(rec.query)])
  {
    var rec := s.rows[questionId.value];
    if !rec.isError {
      CacheHitRunsStoredQuery(s, question, questionId, schema, chat, db, like);
    }
  }

  /**
   * Without a reusable record the chat service is asked exactly once, first, with the stored
   * key and a prompt whose user message is the question; every later call is a database call.
   */
  lemma MissAsksChatServiceOnce(s: DataTalkStore, question: string, questionId: Option<int>, schema: seq<Table>,
                                chat: ChatService, db: Database, like: LikeMatcher)
    requires s.Valid() && s.CachedRecord(question, questionId, like).None?
    ensures var a := s.GetAnswer(question, questionId, schema, chat, db, like);
      && 1 <= |a.calls| <= 3
      && a.calls[0] == ChatCall(ChatRequest(s.SettingValue(ApiKeySetting), PreparePrompt(question, schema)))
      && a.calls[0].request.prompt.user == question
      && (forall k :: 1 <= k < |a.calls| ==> a.calls[k].DbCall?)
  {
  }

  /**
   * A failed chat request ends the pipeline before the database is touched, whatever its
   * message. A non-empty message is returned as the only content of the reply; an empty one
   * is not an error, so executeQuery runs on the null query and rejects it as not a SELECT.
   */
  lemma ChatFailureStopsBeforeDatabase(s: DataTalkStore, question: string, questionId: Option<int>, schema: seq<Table>,
                                       chat: ChatService, db: Database, like: LikeMatcher)
    requires s.Valid() && s.CachedRecord(question, questionId, like).None?
    requires chat(ChatRequest(s.SettingValue(ApiKeySetting), PreparePrompt(question, schema))).ChatFailure?
    ensures var a := s.GetAnswer(question, questionId, schema, chat, db, like);
      var o := chat(ChatRequest(s.SettingValue(ApiKeySetting), PreparePrompt(question, schema)));
      && |a.calls| == 1 && a.calls[0].ChatCall?
      && (Truthy(Some(o.message)) ==> a.reply == ReplyTemplate().(error := Some(Message(o.message))))
      && (!Truthy(Some(o.message)) ==> a.reply.error == Some(NotSelect) && a.reply.answer.None?)
      && !ShouldStore(questionId, a.reply)
  {
  }

  /**
   * The reply's rows are the result of the last query run: when the last call is to the
   * database, its rows become the answer (and the reply has no error), or its message becomes
   * the error. When no query ran, there is no answer.
   */
  lemma AnswerIsLastQueryResult(s: DataTalkStore, question: string, questionId: Option<int>, schema: seq<Table>,
                                chat: ChatService, db: Database, like: LikeMatcher)
    requires s.Valid()
    ensures var a := s.GetAnswer(question, questionId, schema, chat, db, like);
      && (a.calls != [] && a.calls[|a.calls| - 1].DbCall? ==>
            var last := db(a.calls[|a.calls| - 1].sql);
            && (last.DbRows? ==> a.reply.answer == Some(last.rows) && !HasError(a.reply))
            && (last.DbError? ==> a.reply.error == Some(Message(last.message))))
      && (a.calls == [] || a.calls[|a.calls| - 1].ChatCall? ==> a.reply.answer.None?)
  {
    var a := s.GetAnswer(question, questionId, schema, chat, db, like);
    var reply: Reply;
    var pre: seq<ExternalCall>;
    match s.CachedRecord(question, questionId, like)
    case Some(rec) =>
      reply := ReplyFromQuestion(rec, schema);
      pre := [];
    case None =>
      var request := ChatRequest(s.SettingValue(ApiKeySetting), PreparePrompt(question, schema));
      reply := ReplyFromChat(request.prompt, chat(request));
      pre := [ChatCall(request)];
    if !HasError(reply) {
      var e := ExecuteAsWritten(reply, db);
      assert a.reply == e.reply && a.calls == pre + DbCalls(e.calls);
      ExecuteLastCallDecides(reply, db);
      if e.calls != [] {
        assert a.calls[|a.calls| - 1] == DbCall(e.calls[|e.calls| - 1]);
      }
    }
  }

  /**
   * On a miss answered by a completion, the reply carries the completion's query,
   * alternative and usage and the prepared prompt; the first choice is run right after the
   * chat request exactly when it passes the SELECT checks, and otherwise nothing is run.
   */
  lemma MissRunsCompletion(s: DataTalkStore, question: string, questionId: Option<int>, schema: seq<Table>,
                           chat: ChatService, db: Database, like: LikeMatcher)
    requires s.Valid() && s.CachedRecord(question, questionId, like).None?
    requires chat(ChatRequest(s.SettingValue(ApiKeySetting), PreparePrompt(question, schema))).Completion?
    ensures var a := s.GetAnswer(question, questionId, schema, chat, db, like);
      var o := chat(ChatRequest(s.SettingValue(ApiKeySetting), PreparePrompt(question, schema)));
      && a.reply.query == o.query && a.reply.alternativeQuery == o.alternative && a.reply.tokenUsage == o.usage
      && a.reply.prompt == Some(PreparePrompt(question, schema))
      && (Acceptable(o.query.GetOr("")) <==> |a.calls| >= 2 && a.calls[1] == DbCall(o.query.GetOr("")))
  {
    var request := ChatRequest(s.SettingValue(ApiKeySetting), PreparePrompt(question, schema));
    var reply := ReplyFromChat(request.prompt, chat(request));
    ExecuteKeepsQueries(reply, db);
    assert QueryText(reply) == chat(request).query.GetOr("");
  }

  /**
   * Only a fresh answer is stored: when the store decision holds, no id was posted, no record
   * was reused, the chat service was asked first, and the answer carries no error.
   */
  lemma StoredAnswersAreFresh(s: DataTalkStore, question: string, questionId: Option<int>, schema: seq<Table>,
                              chat: ChatService, db: Database, like: LikeMatcher)
    requires s.Valid()
    requires ShouldStore(questionId, s.GetAnswer(question, questionId, schema, chat, db, like).reply)
    ensures var a := s.GetAnswer(question, questionId, schema, chat, db, like);
      && !IdTruthy(questionId)
      && s.CachedRecord(question, questionId, like).None?
      && a.calls != [] && a.calls[0].ChatCall?
      && !HasError(a.reply)
  {
    if s.CachedRecord(question, questionId, like).Some? {
      CacheHitSkipsChatService(s, question, questionId, schema, chat, db, like);
    }
  }

  /**
   * As written, the unchecked alternative reaches the store: on a miss, a failing primary
   * query followed by an alternative that is no SELECT but yields rows (`SHOW TABLES`) gives
   * an answer without error, so the question is stored, with the primary text that failed
   * as its query and the alternative's rows as its answer.
   */
  lemma FailedPrimaryIsStored(s: DataTalkStore, question: string, schema: seq<Table>, like: LikeMatcher)
    requires s.Valid() && s.rows == map[]
    ensures var chat: ChatService := _ => Completion(Some("SELECT * FROM missing"), Some("SHOW TABLES"), None);
      var db: Database := q =>
        if q == "SELECT * FROM missing" then DbError("Table 'missing' doesn't exist")
        else DbRows([map["Tables_in_app" := "users"]]);
      var a := s.GetAnswer(question, None, schema, chat, db, like);
      && ShouldStore(None, a.reply)
      && a.reply.query == Some("SELECT * FROM missing")
      && a.reply.answer == Some([map["Tables_in_app" := "users"]])
      && a.calls[1..] == [DbCall("SELECT * FROM missing"), DbCall("SHOW TABLES")]
      && !Acceptable("SHOW TABLES")
  {
    SelectFromMissingIsAcceptable();
    ShowIsNotSelect();
  }
}
