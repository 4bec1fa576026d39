/**
 * The service's mutable state and the routes that change it: the
 * conversation store, the active-quiz store and the leaderboard table, with
 * `grok_chat_completion`, `/chat`, `/carbon-footprint`, `/quiz/start`,
 * `/quiz/submit` and `/quiz/leaderboard`. Generator calls and database
 * failures are inputs.
 */
module Backend {
  import opened Wrappers
  import opened AsciiText
  import opened QuizParser
  import opened Grader
  import opened Leaderboard
  import opened Chat
  import opened Helpers

  /** What `/quiz/submit` answers: the score, a 404 when no quiz is active
      for the name, or a 500 when something raised before the commit. */
  datatype SubmitResponse = Scored(score: nat, total: nat) | SessionNotFound | ServerError

  /** What `/quiz/leaderboard` answers: the entries, or a 500. */
  datatype BoardResponse = Board(entries: seq<Standing>) | BoardError

  /** The caller id `grok_chat_completion` defaults to, used by `/chat`. */
  const DefaultUser := "user-1"

  /** The caller id of `/carbon-footprint`. */
  const CarbonUser := "carbon-footprint"

  function Lookup<V>(m: map<string, V>, k: string): Option<V> {
    if k in m then Some(m[k]) else None
  }

  /** The quiz a name has on record: `active_quizzes.get(username)`, with an
      absent entry read as the empty list since `not` treats both alike. */
  function SessionOf(quizzes: map<string, seq<Question>>, user: string): seq<Question> {
    if user in quizzes then quizzes[user] else []
  }

  /** Every quiz in the store is the parse of some text, with at most five
      well-formed questions. */
  ghost predicate ParsedStore(quizzes: map<string, seq<Question>>) {
    forall user :: user in quizzes ==>
      && (exists text :: quizzes[user] == Parse(text))
      && |quizzes[user]| <= MaxQuestions
      && forall k :: 0 <= k < |quizzes[user]| ==> WellFormed(quizzes[user][k])
  }

  /** Removing a user's quiz keeps the rest parsed. */
  lemma ParsedStoreRemove(quizzes: map<string, seq<Question>>, user: string)
    requires ParsedStore(quizzes)
    ensures ParsedStore(quizzes - {user})
  {
  }

  class Service {
    /** `conversations`: caller id to message history. */
    var conversations: map<string, seq<Message>>
    /** `active_quizzes`: user name to the questions of the quiz they were
        given. */
    var activeQuizzes: map<string, seq<Question>>
    /** The `leaderboard` table, in row order. */
    var rows: seq<Row>

    /** Every stored quiz is one the parser produced from some generator
        text, so it has at most five questions, each well formed. */
    ghost predicate Valid()
      reads this
    {
      ParsedStore(activeQuizzes)
    }

    /** A freshly started process: both in-memory stores empty, the table as
        the database holds it. */
    constructor (table: seq<Row>)
      ensures Valid()
      ensures conversations == map[] && activeQuizzes == map[] && rows == table
    {
      conversations := map[];
      activeQuizzes := map[];
      rows := table;
    }

    /** `grok_chat_completion`: the history of `userId` is created with the
        system message if it does not exist, gains the user's message, and
        gains the reply only when the generator answered with status 200.
        No other caller's history changes. */
    method ChatCompletion(message: string, language: string, ageLevel: string, userId: string,
                          outcome: Outcome) returns (reply: string)
      modifies this`conversations
      requires Answered(outcome)
      ensures reply == ReplyText(outcome)
      ensures conversations == old(conversations)[userId :=
                NextHistory(Lookup(old(conversations), userId), message, language, ageLevel, outcome)]
    {
      if userId !in conversations {
        conversations := conversations[userId := [Message(System, SystemPrompt(language, ageLevel))]];
      }
      conversations := conversations[userId := conversations[userId] + [Message(User, message)]];
      if outcome.Replied? {
        reply := Strip(outcome.content);
        conversations := conversations[userId := conversations[userId] + [Message(Assistant, reply)]];
      } else {
        reply := ReplyText(outcome);
      }
    }

    /** `/chat`: a completion under the default caller id. */
    method Chat(message: string, language: string, ageLevel: string, outcome: Outcome)
      returns (text: string)
      modifies this`conversations
      requires Answered(outcome)
      ensures text == ReplyText(outcome)
      ensures conversations == old(conversations)[DefaultUser :=
                NextHistory(Lookup(old(conversations), DefaultUser), message, language, ageLevel, outcome)]
    {
      text := ChatCompletion(message, language, ageLevel, DefaultUser, outcome);
    }

    /** `/carbon-footprint`: a completion under its own caller id, in English
        for an adult, whose reply becomes at most three tips. */
    method CarbonFootprint(prompt: string, outcome: Outcome) returns (tips: seq<string>)
      modifies this`conversations
      requires Answered(outcome)
      ensures tips == CarbonTips(ReplyText(outcome)) && |tips| <= MaxTips
      ensures conversations == old(conversations)[CarbonUser :=
                NextHistory(Lookup(old(conversations), CarbonUser), prompt, "en", "adult", outcome)]
    {
      var text := ChatCompletion(prompt, "en", "adult", CarbonUser, outcome);
      tips := CarbonTips(text);
      CarbonTipsFromLines(text);
    }

    /** `/quiz/start`: the generator's text, under the user's own caller id,
        is parsed and the result, even an empty list, replaces whatever quiz
        the user had. Other users' quizzes and the table are untouched. */
    method StartQuiz(username: string, prompt: string, outcome: Outcome)
      returns (questions: seq<Question>)
      modifies this`conversations, this`activeQuizzes
      requires Answered(outcome)
      requires Valid()
      ensures Valid()
      ensures questions == Parse(ReplyText(outcome))
      ensures |questions| <= MaxQuestions
      ensures forall k :: 0 <= k < |questions| ==> WellFormed(questions[k])
      ensures activeQuizzes == old(activeQuizzes)[username := questions]
      ensures conversations == old(conversations)[username :=
                NextHistory(Lookup(old(conversations), username), prompt, "en", "12", outcome)]
    {
      var text := ChatCompletion(prompt, "en", "12", username, outcome);
      questions := ParseQuiz(text);
      activeQuizzes := activeQuizzes[username := questions];
    }

    /** `/quiz/submit`. `answers` is the parsed answer list, or `None` when
        `json.loads` or reading `q`/`ans` from an element raises; `dbFails`
        says that the query or the commit raised. A name without a quiz, or
        with an empty one, gets a 404 and nothing changes. A failure before
        the commit is rolled back: table and quiz stay as they were. After a
        commit the first row with the name holds the score, or one row was
        added for it, and the quiz is gone. */
    method SubmitQuiz(username: string, answers: Option<seq<Entry>>, dbFails: bool)
      returns (response: SubmitResponse)
      modifies this`activeQuizzes, this`rows
      requires Valid()
      ensures Valid()
      ensures var session := SessionOf(old(activeQuizzes), username);
              if session == [] then
                response == SessionNotFound && rows == old(rows) && activeQuizzes == old(activeQuizzes)
              else if answers.None? || dbFails then
                response == ServerError && rows == old(rows) && activeQuizzes == old(activeQuizzes)
              else
                var score := CorrectCount(session, answers.value);
                && response == Scored(score, |session|)
                && rows == Upsert(old(rows), username, score)
                && activeQuizzes == old(activeQuizzes) - {username}
    {
      if username !in activeQuizzes || activeQuizzes[username] == [] {
        return SessionNotFound;
      }
      var session := activeQuizzes[username];
      if answers.None? {
        return ServerError;
      }
      var score, total := Grade(session, answers.value);
      assert score == CorrectCount(session, answers.value) by {
        assert HitsBelow(session, answers.value, |answers.value|)
            == set j | 0 <= j < |answers.value| && Hits(session, answers.value[j]);
      }
      if dbFails {
        return ServerError;
      }
      UpsertRow(username, score);
      ParsedStoreRemove(activeQuizzes, username);
      activeQuizzes := activeQuizzes - {username};
      response := Scored(score, total);
    }

    /** The write of `submit_quiz` on the row the query found: the record's
        score is overwritten, or a new record is added. */
    method UpsertRow(username: string, score: int)
      modifies this`rows
      ensures rows == Upsert(old(rows), username, score)
    {
      match FirstRow(rows, username)
      case Some(i) =>
        rows := rows[i := rows[i].(score := score)];
      case None =>
        rows := rows + [Row(NextId(rows), username, score)];
    }

    /** `/quiz/leaderboard`: at most ten `(username, score)` entries of the
        table in non-increasing score order, a 500 when the query raises.
        Nothing changes. */
    method GetLeaderboard(dbFails: bool) returns (response: BoardResponse)
      ensures response.Board? <==> !dbFails
      ensures response.Board? ==> |response.entries| <= TopCount && IsTopTen(rows, response.entries)
    {
      if dbFails {
        return BoardError;
      }
      TopTenShape(rows);
      response := Board(TopTen(rows));
    }
  }

}
