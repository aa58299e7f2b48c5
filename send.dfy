/**
 * What `handleSend` does to the sessions, as one function of the store before
 * the call, the text in the input box, the response of the completion
 * endpoint and the frame parser. The class in module App runs the reader loop
 * step by step and is proved to end in exactly this state.
 */
module Send {
  import opened Options
  import opened Text
  import opened Chat
  import opened Stream

  /**
   * The completion request: either `fetch` throws or the response is not ok or
   * has no body (all three reach the `catch` before any placeholder exists), or
   * the body yields this sequence of reads.
   */
  datatype Response = Rejected | Streamed(body: seq<Read>)

  /**
   * How the request ends: refused before any placeholder exists, or a stream
   * read to its end or up to a read that throws.
   */
  datatype Outcome = Refused | Ended(end: StreamEnd)

  /** The outcome of a response: the reader loop's result on the body. */
  function OutcomeOf(response: Response, parse: string -> Option<string>): (o: Outcome)
    ensures o.Refused? <==> response.Rejected?
  {
    match response
    case Rejected => Refused
    case Streamed(body) => Ended(Drain(Start, body, parse))
  }

  /** The assistant message appended when anything in the request throws. */
  const ErrorText: string := "\U{274C} Error: Could not reach LM Studio API."

  /** The prefix a title must have for the first reply to rename the chat. */
  const RenamePrefix: string := "New"

  /** The guard `if (!input.trim() || !activeSession) return;` lets the call through. */
  predicate Proceeds(ss: seq<Session>, active: Option<Id>, input: string) {
    !IsBlank(input) && active.Some? && HasSession(ss, active.value)
  }

  /** The auto-rename test: the title before the send starts with "New" and the user text is not blank. */
  predicate AutoRename(title: string, input: string) {
    StartsWith(title, RenamePrefix) && !IsBlank(input)
  }

  /**
   * The title the `try` block gives the chat: the first 30 characters of the
   * input when a streamed reply ran to its end and the old title qualifies.
   */
  function NewTitle(title: string, input: string, outcome: Outcome): Option<string> {
    if outcome.Ended? && outcome.end.Finished? && AutoRename(title, input)
    then Some(Take(input, TitleLimit)) else None
  }

  /**
   * The rename test looks only at the prefix, so a title that an earlier
   * rename took from an input starting with "New" qualifies again: the next
   * finished send renames the chat once more.
   */
  lemma RenameAgain(first: string, next: string, reply: string)
    requires StartsWith(first, RenamePrefix) && !IsBlank(next)
    ensures NewTitle(Take(first, TitleLimit), next, Ended(Finished(reply))) == Some(Take(next, TitleLimit))
  {
    var t := Take(first, TitleLimit);
    assert t[..|RenamePrefix|] == first[..|RenamePrefix|];
  }

  /** The whole effect of one `handleSend` call: the guard, the user message, then the `try` block. */
  function SendSpec(ss: seq<Session>, active: Option<Id>, input: string, response: Response,
                    parse: string -> Option<string>, n: Id): seq<Session>
  {
    if !Proceeds(ss, active, input) then ss
    else
      var target := active.value;
      Deliver(AppendTo(ss, target, Message(n, User, input)), target, Find(ss, target).value.title, input,
              OutcomeOf(response, parse), n + 1)
  }

  /**
   * The `try` block and its `catch`, in the order the code applies its updates,
   * to the sessions that already hold the user message; `title` is the active
   * chat's title before the call and `k` the next fresh id.
   */
  function Deliver(withUser: seq<Session>, target: Id, title: string, input: string, outcome: Outcome,
                   k: Id): seq<Session>
  {
    match outcome
    case Refused => AppendTo(withUser, target, Message(k, Assistant, ErrorText))
    case Ended(Finished(t)) =>
      var replied := AppendTo(withUser, target, Message(k, Assistant, t));
      if AutoRename(title, input) then RenameIn(replied, target, Take(input, TitleLimit)) else replied
    case Ended(Failed(p)) =>
      AppendTo(AppendTo(withUser, target, Message(k, Assistant, p)), target, Message(k + 1, Assistant, ErrorText))
  }

  /**
   * Past the guard, a call is the `try` block applied to the sessions with the
   * user message appended, and it draws one id for the user message and one
   * per reply.
   */
  lemma SendProceeds(ss: seq<Session>, active: Option<Id>, input: string, response: Response,
                     parse: string -> Option<string>, n: Id)
    requires Proceeds(ss, active, input)
    ensures SendSpec(ss, active, input, response, parse, n)
            == Deliver(AppendTo(ss, active.value, Message(n, User, input)), active.value,
                       Find(ss, active.value).value.title, input, OutcomeOf(response, parse), n + 1)
    ensures IdsDrawn(ss, active, input, response, parse) == 1 + |Replies(OutcomeOf(response, parse), 0)|
  {
  }

  /**
   * The assistant messages one call leaves after the user message, numbered
   * from `k`: the error message alone when the request is refused; the reply
   * when the stream ends; the partial reply and then the error message when a
   * read throws.
   */
  function Replies(outcome: Outcome, k: Id): (r: seq<Message>)
    ensures |r| == if outcome.Ended? && outcome.end.Failed? then 2 else 1
    ensures forall j :: 0 <= j < |r| ==> r[j].role == Assistant && r[j].id == k + j
    ensures outcome.Ended? ==> r[0].content == outcome.end.text
    ensures |r| == 2 || outcome.Refused? ==> r[|r| - 1].content == ErrorText
  {
    match outcome
    case Refused => [Message(k, Assistant, ErrorText)]
    case Ended(Finished(t)) => [Message(k, Assistant, t)]
    case Ended(Failed(p)) => [Message(k, Assistant, p), Message(k + 1, Assistant, ErrorText)]
  }

  /** How many fresh ids one call draws. */
  function IdsDrawn(ss: seq<Session>, active: Option<Id>, input: string, response: Response,
                    parse: string -> Option<string>): (d: nat)
    ensures d == 0 || 2 <= d <= 3
  {
    if Proceeds(ss, active, input) then 1 + |Replies(OutcomeOf(response, parse), 0)| else 0
  }

  /**
   * `r` is `ss` with `extra` appended to the messages of chat `target`, that
   * chat's title replaced by `title` when one is given, and nothing else
   * changed: the order, the ids and every other chat stay.
   */
  predicate Extends(ss: seq<Session>, r: seq<Session>, target: Id, extra: seq<Message>, title: Option<string>) {
    && |r| == |ss|
    && forall i :: 0 <= i < |ss| ==>
      && r[i].id == ss[i].id
      && (ss[i].id != target ==> r[i] == ss[i])
      && (ss[i].id == target ==>
            && r[i].messages == ss[i].messages + extra
            && r[i].title == if title.Some? then title.value else ss[i].title)
  }

  lemma AppendExtends(ss: seq<Session>, target: Id, m: Message)
    ensures Extends(ss, AppendTo(ss, target, m), target, [m], None)
  {
    AppendToAt(ss, target, m);
  }

  lemma RenameExtends(ss: seq<Session>, target: Id, t: string)
    ensures Extends(ss, RenameIn(ss, target, t), target, [], Some(t))
  {
    RenameInAt(ss, target, t);
  }

  /** Two extensions of the same chat, one after the other, are one extension. */
  lemma ExtendsThen(ss: seq<Session>, mid: seq<Session>, r: seq<Session>, target: Id,
                    e1: seq<Message>, e2: seq<Message>, title: Option<string>)
    requires Extends(ss, mid, target, e1, None) && Extends(mid, r, target, e2, title)
    ensures Extends(ss, r, target, e1 + e2, title)
  {
    forall i | 0 <= i < |ss| && ss[i].id == target ensures r[i].messages == ss[i].messages + (e1 + e2) {
      AppendAssoc(ss[i].messages, e1, e2);
    }
  }

  /**
   * The `try` block adds exactly the replies to the target chat, and renames
   * it exactly when the stream ran to its end and the old title qualifies.
   */
  lemma DeliverExtends(withUser: seq<Session>, target: Id, title: string, input: string, outcome: Outcome, k: Id)
    ensures Extends(withUser, Deliver(withUser, target, title, input, outcome, k), target,
                    Replies(outcome, k), NewTitle(title, input, outcome))
  {
    var rs := Replies(outcome, k);
    AppendExtends(withUser, target, rs[0]);
    var once := AppendTo(withUser, target, rs[0]);
    if outcome.Ended? {
      match outcome.end
      case Finished(t) =>
        if AutoRename(title, input) {
          RenameExtends(once, target, Take(input, TitleLimit));
          ExtendsThen(withUser, once, RenameIn(once, target, Take(input, TitleLimit)), target,
                      [rs[0]], [], Some(Take(input, TitleLimit)));
          assert [rs[0]] + [] == rs;
        }
      case Failed(p) =>
        AppendExtends(once, target, rs[1]);
        ExtendsThen(withUser, once, AppendTo(once, target, rs[1]), target, [rs[0]], [rs[1]], None);
        assert [rs[0]] + [rs[1]] == rs;
    }
  }

  /**
   * Blank input or no active chat changes nothing. A call that passes the
   * guard touches only the active chat: its messages become the old ones, the
   * user message with the untrimmed input, and the replies; its title becomes
   * the first 30 characters of the input exactly when the chat is renamed.
   * Every other session, the order and the ids stay.
   */
  lemma SendEffect(ss: seq<Session>, active: Option<Id>, input: string, response: Response,
                   parse: string -> Option<string>, n: Id)
    ensures !Proceeds(ss, active, input) ==> SendSpec(ss, active, input, response, parse, n) == ss
    ensures Proceeds(ss, active, input) ==>
      Extends(ss, SendSpec(ss, active, input, response, parse, n), active.value,
              [Message(n, User, input)] + Replies(OutcomeOf(response, parse), n + 1),
              NewTitle(Find(ss, active.value).value.title, input, OutcomeOf(response, parse)))
  {
    if Proceeds(ss, active, input) {
      var target, u, o := active.value, Message(n, User, input), OutcomeOf(response, parse);
      var title := Find(ss, target).value.title;
      DeliverExtends(AppendTo(ss, target, u), target, title, input, o, n + 1);
      AppendThenExtends(ss, SendSpec(ss, active, input, response, parse, n), target, u, Replies(o, n + 1),
                        NewTitle(title, input, o));
    }
  }

  /** The guard passes for a new chat in front of the others exactly when the input is not blank. */
  lemma NewChatProceeds(ss: seq<Session>, title: string, n: Id, text: string)
    ensures Proceeds([NewSession(n, title)] + ss, Some(n), text) <==> !IsBlank(text)
  {
    assert ([NewSession(n, title)] + ss)[0].id == n;
  }

  /** Extending the new chat in front of chats with older ids leaves those chats as they are. */
  lemma ExtendsNewChat(ss: seq<Session>, title: string, n: Id, r: seq<Session>, extra: seq<Message>,
                       t: Option<string>)
    requires IdsBelow(ss, n) && Extends([NewSession(n, title)] + ss, r, n, extra, t)
    ensures |r| == |ss| + 1 && r[0].id == n && r[1..] == ss && r[0].messages == extra
  {
    var mid := [NewSession(n, title)] + ss;
    assert mid[0].id == n;
    forall i | 1 <= i < |mid| ensures r[i] == mid[i] {
      assert mid[i] == ss[i - 1] && SessionIdsBelow(ss[i - 1], n);
    }
    assert r[1..] == mid[1..] == ss;
  }

  /**
   * A send into a new chat put in front of the others: the guard passes
   * exactly when the input is not blank, and then the new chat gets the
   * user message and the replies while every other chat stays.
   */
  lemma SendToNewChat(ss: seq<Session>, title: string, n: Id, text: string, response: Response,
                      parse: string -> Option<string>)
    requires IdsBelow(ss, n)
    ensures var mid := [NewSession(n, title)] + ss;
      var r := SendSpec(mid, Some(n), text, response, parse, n + 1);
      && (Proceeds(mid, Some(n), text) <==> !IsBlank(text))
      && (IsBlank(text) ==> r == mid)
      && (!IsBlank(text) ==>
            && |r| == |mid| && r[0].id == n && r[1..] == ss
            && r[0].messages == [Message(n + 1, User, text)] + Replies(OutcomeOf(response, parse), n + 2))
  {
    var mid := [NewSession(n, title)] + ss;
    NewChatProceeds(ss, title, n, text);
    SendEffect(mid, Some(n), text, response, parse, n + 1);
    if !IsBlank(text) {
      var o := OutcomeOf(response, parse);
      ExtendsNewChat(ss, title, n, SendSpec(mid, Some(n), text, response, parse, n + 1),
                     [Message(n + 1, User, text)] + Replies(o, n + 2),
                     NewTitle(Find(mid, n).value.title, text, o));
    }
  }

  /**
   * A `handleSend` whose render had no active chat returns at its guard,
   * whatever that render's message box held: nothing changes and no id is drawn.
   */
  lemma NoActiveNoSend(ss: seq<Session>, active: Option<Id>, input: string, response: Response,
                       parse: string -> Option<string>, n: Id)
    requires active.None? || !HasSession(ss, active.value)
    ensures !Proceeds(ss, active, input)
    ensures SendSpec(ss, active, input, response, parse, n) == ss
    ensures IdsDrawn(ss, active, input, response, parse) == 0
  {
  }

  /**
   * The reply of a streamed call, read off the frames: its text is every
   * non-empty token, in order, before the first `[DONE]` and before the first
   * read that throws; the error message follows it exactly when a read throws
   * before any `[DONE]`.
   */
  lemma StreamedReplies(body: seq<Read>, parse: string -> Option<string>, k: Id)
    ensures var rs, fs := Replies(OutcomeOf(Streamed(body), parse), k), StreamFrames(body, parse);
      && rs[0].content == Concat(Deltas(fs))
      && (|rs| == 2 <==> Sentinel !in fs && Broken in body)
  {
    DrainSpec("", body, parse);
    assert "" + Concat(Deltas(StreamFrames(body, parse))) == Concat(Deltas(StreamFrames(body, parse)));
  }

  /** Appending messages with ids below `m` to one chat keeps every id below `m`. */
  lemma ExtendKeepsIds(ss: seq<Session>, r: seq<Session>, target: Id, extra: seq<Message>,
                       title: Option<string>, n: nat, m: nat)
    requires IdsBelow(ss, n) && n <= m && Extends(ss, r, target, extra, title)
    requires forall j :: 0 <= j < |extra| ==> extra[j].id < m
    ensures IdsBelow(r, m)
  {
    forall i | 0 <= i < |r| ensures SessionIdsBelow(r[i], m) {
      if ss[i].id == target {
        var ms := r[i].messages;
        forall j | 0 <= j < |ms| ensures ms[j].id < m {
          if j >= |ss[i].messages| {
            assert ms[j] == extra[j - |ss[i].messages|];
          } else {
            assert ms[j] == ss[i].messages[j];
          }
        }
      }
    }
  }

  /** An extension keeps every session, so it keeps a valid active id valid. */
  lemma ExtendsKeepsActive(ss: seq<Session>, r: seq<Session>, target: Id, extra: seq<Message>,
                           title: Option<string>, active: Option<Id>)
    requires ActiveValid(ss, active) && Extends(ss, r, target, extra, title)
    ensures ActiveValid(r, active)
  {
    if active.Some? {
      var k :| 0 <= k < |ss| && ss[k].id == active.value;
      assert r[k].id == active.value;
    }
  }

  /** A call keeps every id below the advanced counter and keeps the active id valid. */
  lemma SendKeepsInvariant(ss: seq<Session>, active: Option<Id>, input: string, response: Response,
                           parse: string -> Option<string>, n: Id)
    requires IdsBelow(ss, n) && ActiveValid(ss, active)
    ensures IdsBelow(SendSpec(ss, active, input, response, parse, n), n + IdsDrawn(ss, active, input, response, parse))
    ensures ActiveValid(SendSpec(ss, active, input, response, parse, n), active)
  {
    if Proceeds(ss, active, input) {
      SendProceeds(ss, active, input, response, parse, n);
      DeliverKeepsInvariant(ss, active, input, Find(ss, active.value).value.title, OutcomeOf(response, parse), n);
    }
  }

  /** The user message and the replies of one call all take ids below the advanced counter. */
  lemma NewIdsBelow(user: Message, rs: seq<Message>, n: Id)
    requires user.id == n
    requires forall j :: 0 <= j < |rs| ==> rs[j].id == n + 1 + j
    ensures var extra := [user] + rs;
      forall j :: 0 <= j < |extra| ==> extra[j].id < n + 1 + |rs|
  {
    var extra := [user] + rs;
    forall j | 0 <= j < |extra| ensures extra[j].id < n + 1 + |rs| {
      if j > 0 {
        assert extra[j] == rs[j - 1];
      }
    }
  }

  /** Appending a message and then extending the result extends the original by both. */
  lemma AppendThenExtends(ss: seq<Session>, r: seq<Session>, target: Id, user: Message, rs: seq<Message>,
                          title: Option<string>)
    requires Extends(AppendTo(ss, target, user), r, target, rs, title)
    ensures Extends(ss, r, target, [user] + rs, title)
  {
    AppendExtends(ss, target, user);
    ExtendsThen(ss, AppendTo(ss, target, user), r, target, [user], rs, title);
  }

  /**
   * Extending a chat by a message with id `n` and replies numbered from
   * `n + 1` keeps the invariant with the counter advanced past the replies.
   */
  lemma ExtendsKeepsInvariant(ss: seq<Session>, r: seq<Session>, target: Id, user: Message, rs: seq<Message>,
                              title: Option<string>, n: Id, active: Option<Id>)
    requires IdsBelow(ss, n) && ActiveValid(ss, active) && user.id == n
    requires forall j :: 0 <= j < |rs| ==> rs[j].id == n + 1 + j
    requires Extends(ss, r, target, [user] + rs, title)
    ensures IdsBelow(r, n + 1 + |rs|) && ActiveValid(r, active)
  {
    ExtendsKeepsActive(ss, r, target, [user] + rs, title, active);
    NewIdsBelow(user, rs, n);
    ExtendKeepsIds(ss, r, target, [user] + rs, title, n, n + 1 + |rs|);
  }

  /**
   * The `try` block keeps the store's invariant once the user message, with a
   * fresh id, is in the active chat: every id stays below the counter
   * advanced past the replies, and the active chat still exists.
   */
  lemma DeliverKeepsInvariant(ss: seq<Session>, active: Option<Id>, text: string, title: string,
                              outcome: Outcome, n: Id)
    requires IdsBelow(ss, n) && active.Some? && HasSession(ss, active.value)
    ensures var r := Deliver(AppendTo(ss, active.value, Message(n, User, text)), active.value, title, text,
                             outcome, n + 1);
      IdsBelow(r, n + 1 + |Replies(outcome, 0)|) && ActiveValid(r, active)
  {
    var target, user, rs := active.value, Message(n, User, text), Replies(outcome, n + 1);
    var r := Deliver(AppendTo(ss, target, user), target, title, text, outcome, n + 1);
    DeliverExtends(AppendTo(ss, target, user), target, title, text, outcome, n + 1);
    AppendThenExtends(ss, r, target, user, rs, NewTitle(title, text, outcome));
    ExtendsKeepsInvariant(ss, r, target, user, rs, NewTitle(title, text, outcome), n, active);
  }
}
