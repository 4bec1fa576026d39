/**
 * The conversation bookkeeping of `grok_chat_completion`: every caller id
 * owns a message history that starts with one system message, gains the
 * user's message on every call and the assistant's reply only when the
 * generator answered with status 200. The HTTP call itself is an input.
 */
module Chat {
  import opened Wrappers
  import opened AsciiText

  datatype Role = System | User | Assistant

  /** One `{"role", "content"}` entry of a history. */
  datatype Message = Message(role: Role, content: string)

  /** How the call to the text generator ended. */
  datatype Outcome =
      /** Status 200 with `choices[0].message.content` in the body. */
    | Replied(content: string)
      /** Any other status, with the body text; `status` is never 200, which
          always takes the first branch (see `Answered`). */
    | Refused(status: int, text: string)
      /** An exception: the request failed, or a status-200 body lacked the
          fields read from it; `error` is `str(e)`. */
    | Raised(error: string)

  /** The two characters of the warning sign U+26A0 with its emoji variation
      selector, which open every failure text. */
  const Warning: string := "\U{26A0}\U{FE0F}"

  /** An outcome the call can produce: a status-200 answer is never a
      refusal. */
  predicate Answered(outcome: Outcome) {
    outcome.Refused? ==> outcome.status != 200
  }

  /** `f"Respond in {language}, for age level {age_level}."` */
  function SystemPrompt(language: string, ageLevel: string): string {
    "Respond in " + language + ", for age level " + ageLevel + "."
  }

  /** The text handed back to the caller. */
  function ReplyText(outcome: Outcome): (r: string)
    ensures outcome.Replied? ==> r == Strip(outcome.content)
    ensures !outcome.Replied? ==> |r| >= |Warning| && r[..|Warning|] == Warning
  {
    match outcome
    case Replied(content) => Strip(content)
    case Refused(status, text) => Warning + " API Error " + IntToDecimal(status) + ": " + text
    case Raised(error) => Warning + " Exception: " + error
  }

  /** The history of a caller after one call: created with the system message
      on the first call for that id, then the user's message, then the
      stripped reply when there was one. `previous` is `None` for an id with
      no history yet. */
  function NextHistory(previous: Option<seq<Message>>, message: string, language: string,
                       ageLevel: string, outcome: Outcome): seq<Message>
  {
    var base := if previous.Some? then previous.value else [Message(System, SystemPrompt(language, ageLevel))];
    var asked := base + [Message(User, message)];
    if outcome.Replied? then asked + [Message(Assistant, ReplyText(outcome))] else asked
  }

  // ---------------------------------------------------------------------
  // Properties
  // ---------------------------------------------------------------------

  /** A new id's history begins with one system message built from the first
      call's language and age level, and no other system message follows
      from that call. */
  lemma FirstCallCreatesSystemMessage(message: string, language: string, ageLevel: string, outcome: Outcome)
    ensures var h := NextHistory(None, message, language, ageLevel, outcome);
            h[0] == Message(System, SystemPrompt(language, ageLevel))
            && forall k :: 1 <= k < |h| ==> h[k].role != System
  {
  }

  /** Each call keeps the old history as a prefix and adds the user's message
      and, on status 200 only, the assistant's reply: two entries on success,
      one otherwise. */
  lemma CallExtendsHistory(history: seq<Message>, message: string, language: string,
                           ageLevel: string, outcome: Outcome)
    ensures var h := NextHistory(Some(history), message, language, ageLevel, outcome);
            && history <= h
            && |h| == |history| + (if outcome.Replied? then 2 else 1)
            && h[|history|] == Message(User, message)
            && (outcome.Replied? ==> h[|history| + 1] == Message(Assistant, ReplyText(outcome)))
  {
  }

  /** Language and age level only matter on an id's first call. */
  lemma LaterCallsIgnoreLanguage(history: seq<Message>, message: string, outcome: Outcome,
                                 l1: string, a1: string, l2: string, a2: string)
    ensures NextHistory(Some(history), message, l1, a1, outcome)
         == NextHistory(Some(history), message, l2, a2, outcome)
  {
  }

  /** Over a run of calls, the history of one id holds exactly one system
      message (the first), one user message per call and one assistant
      message per successful call. */
  function Replay(previous: Option<seq<Message>>, calls: seq<(string, Outcome)>,
                  language: string, ageLevel: string): (h: seq<Message>)
    decreases |calls|
  {
    if calls == [] then (if previous.Some? then previous.value else [])
    else
      var next := NextHistory(previous, calls[0].0, language, ageLevel, calls[0].1);
      Replay(Some(next), calls[1..], language, ageLevel)
  }

  function CountRole(h: seq<Message>, role: Role): nat {
    if h == [] then 0 else CountRole(h[..|h| - 1], role) + (if h[|h| - 1].role == role then 1 else 0)
  }

  function CountReplies(calls: seq<(string, Outcome)>): nat {
    if calls == [] then 0 else (if calls[0].1.Replied? then 1 else 0) + CountReplies(calls[1..])
  }

  lemma CountRoleSnoc(a: seq<Message>, m: Message, role: Role)
    ensures CountRole(a + [m], role) == CountRole(a, role) + (if m.role == role then 1 else 0)
  {
    assert (a + [m])[..|a|] == a;
  }

  /** One call on an existing history: one more user message, one more
      assistant message on success, no system message. */
  lemma StepCounts(history: seq<Message>, message: string, language: string, ageLevel: string,
                   outcome: Outcome)
    ensures var h := NextHistory(Some(history), message, language, ageLevel, outcome);
            && history <= h
            && CountRole(h, System) == CountRole(history, System)
            && CountRole(h, User) == CountRole(history, User) + 1
            && CountRole(h, Assistant) == CountRole(history, Assistant) + (if outcome.Replied? then 1 else 0)
  {
    var asked := history + [Message(User, message)];
    CountRoleSnoc(history, Message(User, message), System);
    CountRoleSnoc(history, Message(User, message), User);
    CountRoleSnoc(history, Message(User, message), Assistant);
    if outcome.Replied? {
      var m := Message(Assistant, ReplyText(outcome));
      CountRoleSnoc(asked, m, System);
      CountRoleSnoc(asked, m, User);
      CountRoleSnoc(asked, m, Assistant);
      assert history <= asked <= asked + [m];
    }
  }

  /** Message counts after a run of calls that starts from `history`. */
  lemma {:induction false} ReplayCounts(history: seq<Message>, calls: seq<(string, Outcome)>,
                                        language: string, ageLevel: string)
    ensures var h := Replay(Some(history), calls, language, ageLevel);
            && history <= h
            && CountRole(h, System) == CountRole(history, System)
            && CountRole(h, User) == CountRole(history, User) + |calls|
            && CountRole(h, Assistant) == CountRole(history, Assistant) + CountReplies(calls)
    decreases |calls|
  {
    if calls != [] {
      var next := NextHistory(Some(history), calls[0].0, language, ageLevel, calls[0].1);
      StepCounts(history, calls[0].0, language, ageLevel, calls[0].1);
      ReplayCounts(next, calls[1..], language, ageLevel);
    }
  }

  /** A fresh id's history after `n` calls: one system message, `n` user
      messages and as many assistant messages as calls that succeeded. */
  lemma FreshReplayCounts(first: string, outcome: Outcome, calls: seq<(string, Outcome)>,
                          language: string, ageLevel: string)
    ensures var all := [(first, outcome)] + calls;
            var h := Replay(None, all, language, ageLevel);
            && |h| >= 1
            && h[0] == Message(System, SystemPrompt(language, ageLevel))
            && CountRole(h, System) == 1
            && CountRole(h, User) == |all|
            && CountRole(h, Assistant) == CountReplies(all)
  {
    var all := [(first, outcome)] + calls;
    var sys := [Message(System, SystemPrompt(language, ageLevel))];
    var next := NextHistory(None, first, language, ageLevel, outcome);
    assert all[1..] == calls;
    ReplayCounts(sys, [(first, outcome)] + calls, language, ageLevel);
    assert Replay(Some(sys), all, language, ageLevel) == Replay(None, all, language, ageLevel);
    assert CountRole(sys, System) == 1 && CountRole(sys, User) == 0 && CountRole(sys, Assistant) == 0 by {
      assert sys[..0] == [];
    }
  }

}
