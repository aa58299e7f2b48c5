/**
 * The `App` component's chat state as an object: `sessions`, `activeSessionId`,
 * the text box `input` and the `loading` flag are fields, every `setX` call is
 * an assignment to one of them, and the handlers are methods. The fresh-id
 * counter `nextId` stands for the time-based id strings.
 */
module App {
  import opened Options
  import opened Text
  import opened Chat
  import opened Stream
  import opened Send

  class ChatApp {
    var sessions: seq<Session>
    var activeSessionId: Option<Id>
    var input: string
    var loading: bool
    var nextId: Id

    /** Every id in the store is below the counter, and the active id names a session or is null. */
    ghost predicate Valid()
      reads this
    {
      IdsBelow(sessions, nextId) && ActiveValid(sessions, activeSessionId)
    }

    /**
     * The initial `useState` values followed by the load effect: a snapshot, when
     * there is one, becomes the sessions with missing message ids filled in, and
     * its first session becomes active.
     */
    constructor Mount(stored: Option<seq<StoredSession>>)
      ensures Valid()
      ensures stored.None? ==> sessions == [] && activeSessionId == None
      ensures stored.Some? ==> sessions == Backfill(stored.value, StoredBound(stored.value)).0
      ensures sessions != [] ==> activeSessionId == Some(sessions[0].id)
      ensures sessions == [] ==> activeSessionId == None
      ensures input == [] && !loading
    {
      sessions := [];
      activeSessionId := None;
      input := "";
      loading := false;
      nextId := 0;
      new;
      if stored.Some? {
        var b := StoredBound(stored.value);
        var (withIds, n) := Backfill(stored.value, b);
        BackfillIdsBelow(stored.value, b, b);
        sessions := withIds;
        nextId := n;
        if |withIds| > 0 {
          activeSessionId := Some(withIds[0].id);
        }
      }
    }

    /** The message box's `onChange`. */
    method Type(text: string)
      modifies this
      ensures input == text
      ensures sessions == old(sessions) && activeSessionId == old(activeSessionId)
      ensures nextId == old(nextId) && loading == old(loading)
    {
      input := text;
    }

    /** `createNewChat`: an empty "New Conversation" in front, made active, and the box cleared. */
    method CreateNewChat()
      requires Valid()
      modifies this
      ensures Valid()
      ensures sessions == [NewSession(old(nextId), DefaultTitle)] + old(sessions)
      ensures activeSessionId == Some(old(nextId))
      ensures !HasSession(old(sessions), old(nextId))
      ensures input == [] && nextId == old(nextId) + 1 && loading == old(loading)
    {
      var newChat := NewSession(nextId, DefaultTitle);
      PrependKeepsIds(sessions, newChat, nextId, nextId + 1);
      nextId := nextId + 1;
      sessions := [newChat] + sessions;
      activeSessionId := Some(newChat.id);
      input := "";
      assert sessions[0].id == newChat.id;
    }

    /**
     * `handleSuggestion(text)` without the delayed send: a chat titled with at
     * most the first 30 characters of `text`, made active, with `text` in the box.
     */
    method HandleSuggestion(text: string)
      requires Valid()
      modifies this
      ensures Valid()
      ensures sessions == [NewSession(old(nextId), SuggestionTitle(text))] + old(sessions)
      ensures |sessions[0].title| <= TitleLimit
      ensures activeSessionId == Some(old(nextId))
      ensures !HasSession(old(sessions), old(nextId))
      ensures input == text && nextId == old(nextId) + 1 && loading == old(loading)
    {
      var newChat := NewSession(nextId, SuggestionTitle(text));
      PrependKeepsIds(sessions, newChat, nextId, nextId + 1);
      nextId := nextId + 1;
      sessions := [newChat] + sessions;
      activeSessionId := Some(newChat.id);
      input := text;
      assert sessions[0].id == newChat.id;
    }

    /**
     * `deleteChat(id)`: the sessions with that id go, the rest keep their order;
     * deleting the active chat activates the first one left, deleting the last
     * one leaves no active chat, and otherwise the active chat stays.
     */
    method DeleteChat(id: Id)
      requires Valid()
      modifies this
      ensures Valid()
      ensures sessions == Without(old(sessions), id)
      ensures !HasSession(sessions, id)
      ensures old(activeSessionId) == Some(id) && sessions != [] ==> activeSessionId == Some(sessions[0].id)
      ensures sessions == [] ==> activeSessionId == None
      ensures old(activeSessionId) != Some(id) && sessions != [] ==> activeSessionId == old(activeSessionId)
      ensures input == old(input) && nextId == old(nextId) && loading == old(loading)
    {
      var filtered := Without(sessions, id);
      DeleteKeepsInvariant(sessions, activeSessionId, id, nextId);
      sessions := filtered;
      if activeSessionId == Some(id) && |filtered| > 0 {
        activeSessionId := Some(filtered[0].id);
      } else if |filtered| == 0 {
        activeSessionId := None;
      }
    }

    /** `renameChat(id, title)`: the matching sessions get the title; nothing else changes. */
    method RenameChat(id: Id, title: string)
      requires Valid()
      modifies this
      ensures Valid()
      ensures sessions == RenameIn(old(sessions), id, title)
      ensures activeSessionId == old(activeSessionId) && input == old(input)
      ensures nextId == old(nextId) && loading == old(loading)
    {
      RenameKeepsInvariant(sessions, activeSessionId, id, title, nextId);
      sessions := RenameIn(sessions, id, title);
    }

    /** The inline editor's Enter or blur: renames to the trimmed text, or "Untitled" when it is blank. */
    method CommitRename(id: Id, editingValue: string)
      requires Valid()
      modifies this
      ensures Valid()
      ensures sessions == RenameIn(old(sessions), id, InlineTitle(editingValue))
      ensures forall i :: 0 <= i < |sessions| && sessions[i].id == id ==> sessions[i].title != []
      ensures activeSessionId == old(activeSessionId) && input == old(input)
      ensures nextId == old(nextId) && loading == old(loading)
    {
      var v := InlineTitle(editingValue);
      RenameInAt(sessions, id, v);
      RenameChat(id, v);
    }

    /**
     * The Duplicate menu item on `sessions[k]`: a copy in front with a fresh id,
     * " (copy)" after the title and a fresh id for every message; the active chat stays.
     */
    method Duplicate(k: nat)
      requires Valid() && k < |sessions|
      modifies this
      ensures Valid()
      ensures sessions == [Copy(old(sessions)[k], old(nextId))] + old(sessions)
      ensures !HasSession(old(sessions), sessions[0].id)
      ensures nextId == old(nextId) + 1 + |old(sessions)[k].messages|
      ensures activeSessionId == old(activeSessionId) && input == old(input) && loading == old(loading)
    {
      var copy := Copy(sessions[k], nextId);
      DuplicateFresh(sessions, k, nextId);
      PrependKeepsActive(sessions, copy, activeSessionId);
      nextId := nextId + 1 + |sessions[k].messages|;
      sessions := [copy] + sessions;
      assert forall i :: 1 <= i < |sessions| ==> sessions[i] == old(sessions)[i - 1];
    }

    /**
     * `handleSend` against a response: the guard, then the rest of the call.
     * It ends in exactly the state `SendSpec` describes and keeps the store's
     * invariant.
     */
    method HandleSend(response: Response, parse: string -> Option<string>)
      requires Valid()
      modifies this
      ensures Valid()
      ensures sessions == SendSpec(old(sessions), old(activeSessionId), old(input), response, parse, old(nextId))
      ensures nextId == old(nextId) + IdsDrawn(old(sessions), old(activeSessionId), old(input), response, parse)
      ensures activeSessionId == old(activeSessionId)
      ensures input == if Proceeds(old(sessions), old(activeSessionId), old(input)) then [] else old(input)
      ensures loading == if Proceeds(old(sessions), old(activeSessionId), old(input)) then false else old(loading)
    {
      if IsBlank(input) || activeSessionId.None? || Find(sessions, activeSessionId.value).None? {
        return;
      }
      var ss, active, text, n := sessions, activeSessionId, input, nextId;
      var _ := Submit(response, parse);
      SendProceeds(ss, active, text, response, parse, n);
      SendKeepsInvariant(ss, active, text, response, parse, n);
    }

    /**
     * A suggestion button as written: `handleSuggestion(text)`, and then, 50 ms
     * later, the `handleSend` of the render that showed the button. The buttons
     * appear only while no chat is active, so that `handleSend` sees no active
     * chat and returns at its guard: the new chat stays empty and the text
     * stays in the box.
     */
    method SuggestionClick(text: string, response: Response, parse: string -> Option<string>)
      requires Valid()
      requires activeSessionId.None? || !HasSession(sessions, activeSessionId.value)
      modifies this
      ensures Valid()
      ensures sessions == [NewSession(old(nextId), SuggestionTitle(text))] + old(sessions)
      ensures sessions[0].messages == []
      ensures activeSessionId == Some(old(nextId))
      ensures input == text && nextId == old(nextId) + 1 && loading == old(loading)
    {
      // the values the delayed `handleSend` closes over
      var ss, active, typed := sessions, activeSessionId, input;
      HandleSuggestion(text);
      NoActiveNoSend(ss, active, typed, response, parse, nextId);
    }

    /**
     * What a suggestion button is meant to do: create the chat and send the
     * text in it. `Send.SendToNewChat` shows that the new chat then gets the
     * user message and the replies, and every other chat stays as it was.
     */
    method SuggestionSend(text: string, response: Response, parse: string -> Option<string>)
      requires Valid()
      modifies this
      ensures Valid()
      ensures sessions == SendSpec([NewSession(old(nextId), SuggestionTitle(text))] + old(sessions),
                                   Some(old(nextId)), text, response, parse, old(nextId) + 1)
      ensures activeSessionId == Some(old(nextId))
      ensures input == if IsBlank(text) then text else []
      ensures loading == if IsBlank(text) then old(loading) else false
      ensures nextId == old(nextId) + 1 + IdsDrawn([NewSession(old(nextId), SuggestionTitle(text))] + old(sessions),
                                                   Some(old(nextId)), text, response, parse)
    {
      var n := nextId;
      HandleSuggestion(text);
      NewChatProceeds(old(sessions), SuggestionTitle(text), n, text);
      HandleSend(response, parse);
    }

    /**
     * `handleSend` past its guard: the user message with the untrimmed input,
     * the cleared input box, `loading` set for the request, the `try` block,
     * and `loading` cleared again in `finally`.
     */
    method Submit(response: Response, parse: string -> Option<string>) returns (outcome: Outcome)
      requires activeSessionId.Some? && Find(sessions, activeSessionId.value).Some?
      modifies this
      ensures outcome == OutcomeOf(response, parse)
      ensures sessions == Deliver(AppendTo(old(sessions), old(activeSessionId).value, Message(old(nextId), User, old(input))),
                                  old(activeSessionId).value, Find(old(sessions), old(activeSessionId).value).value.title,
                                  old(input), outcome, old(nextId) + 1)
      ensures nextId == old(nextId) + 1 + |Replies(outcome, 0)|
      ensures activeSessionId == old(activeSessionId) && input == [] && !loading
    {
      // the values of this render, which the handler's closure sees
      var ss, active, text, n := sessions, activeSessionId, input, nextId;
      var withUser := AppendTo(ss, active.value, Message(n, User, text));
      nextId := n + 1;
      sessions := withUser;
      input := "";
      loading := true;
      outcome := Respond(withUser, n + 1, active.value, Find(ss, active.value).value.title, text, response, parse);
      // `finally`
      loading := false;
    }

    /**
     * The `try` block from the request on, with its `catch`: a refused request
     * appends the error message; a streamed one appends the placeholder, runs
     * the reader loop, and then either renames the chat or appends the error
     * message after the partial reply. It returns how the request ended.
     */
    method Respond(withUser: seq<Session>, k: Id, target: Id, title: string, text: string, response: Response,
                   parse: string -> Option<string>)
      returns (outcome: Outcome)
      requires sessions == withUser && nextId == k
      modifies this
      ensures outcome == OutcomeOf(response, parse)
      ensures sessions == Deliver(withUser, target, title, text, outcome, k)
      ensures nextId == k + |Replies(outcome, 0)|
      ensures activeSessionId == old(activeSessionId) && input == old(input) && loading == old(loading)
    {
      match response {
        case Rejected =>
          sessions := AppendTo(sessions, target, Message(nextId, Assistant, ErrorText));
          nextId := nextId + 1;
          outcome := Refused;
        case Streamed(body) =>
          var placeholder := Message(nextId, Assistant, "");
          nextId := nextId + 1;
          sessions := AppendTo(sessions, target, placeholder);
          var fullMessage, failed := ReadStream(body, parse, withUser, target, placeholder);
          outcome := Ended(if failed then Failed(fullMessage) else Finished(fullMessage));
          if failed {
            sessions := AppendTo(sessions, target, Message(nextId, Assistant, ErrorText));
            nextId := nextId + 1;
          } else if AutoRename(title, text) {
            sessions := RenameIn(sessions, target, Take(text, TitleLimit));
          }
      }
    }

    /**
     * The `while (!done)` reader loop: each chunk's lines update the
     * placeholder, and the loop ends at a `[DONE]` line, at the end of the body,
     * or at a read that throws. The text it leaves is the one `Drain` gives.
     */
    method ReadStream(body: seq<Read>, parse: string -> Option<string>,
                      withUser: seq<Session>, target: Id, placeholder: Message)
      returns (fullMessage: string, failed: bool)
      requires placeholder.content == [] && sessions == AppendTo(withUser, target, placeholder)
      modifies this
      ensures sessions == AppendTo(withUser, target, placeholder.(content := fullMessage))
      ensures Drain(Start, body, parse) == if failed then Failed(fullMessage) else Finished(fullMessage)
      ensures activeSessionId == old(activeSessionId) && input == old(input)
      ensures nextId == old(nextId) && loading == old(loading)
    {
      var done, i := false, 0;
      fullMessage, failed := "", false;
      assert body[0..] == body && placeholder.(content := fullMessage) == placeholder;
      while !done
        invariant i <= |body| && !failed
        invariant sessions == AppendTo(withUser, target, placeholder.(content := fullMessage))
        invariant Drain(Decoder(fullMessage, done), body[i..], parse) == Drain(Start, body, parse)
        invariant activeSessionId == old(activeSessionId) && input == old(input)
        invariant nextId == old(nextId) && loading == old(loading)
        decreases |body| - i, if done then 0 else 1
      {
        if i < |body| && body[i].Broken? {
          failed := true;
          return;
        }
        // `reader.read()`: the next chunk, or `done` with an empty chunk past the end
        var chunk, streamDone := if i < |body| then body[i].text else "", i == |body|;
        done := streamDone;
        if !streamDone {
          assert body[i..][1..] == body[i + 1..];
          i := i + 1;
        } else {
          assert Lines(chunk) == [] by { assert Split("", '\n') == [""]; }
        }
        var sawDone;
        fullMessage, sawDone := ScanChunk(chunk, parse, withUser, target, placeholder, fullMessage);
        if sawDone {
          done := true;
        }
      }
    }

    /**
     * The `for` loop over one chunk's trimmed, non-empty lines, left with `break`
     * at `[DONE]`: each non-empty token is appended to the text and written into
     * the last message. It ends where `Feed` says.
     */
    method ScanChunk(chunk: string, parse: string -> Option<string>,
                     withUser: seq<Session>, target: Id, placeholder: Message, text: string)
      returns (fullMessage: string, sawDone: bool)
      requires sessions == AppendTo(withUser, target, placeholder.(content := text))
      modifies this
      ensures Decoder(fullMessage, sawDone) == Feed(Decoder(text, false), chunk, parse)
      ensures sessions == AppendTo(withUser, target, placeholder.(content := fullMessage))
      ensures activeSessionId == old(activeSessionId) && input == old(input)
      ensures nextId == old(nextId) && loading == old(loading)
    {
      var lines := Lines(chunk);
      fullMessage, sawDone := text, false;
      var j := 0;
      assert lines[0..] == lines;
      while j < |lines|
        invariant j <= |lines|
        invariant ScanFrom(Decoder(fullMessage, false), lines[j..], parse) == Feed(Decoder(text, false), chunk, parse)
        invariant sessions == AppendTo(withUser, target, placeholder.(content := fullMessage))
        invariant activeSessionId == old(activeSessionId) && input == old(input)
        invariant nextId == old(nextId) && loading == old(loading)
      {
        var line := lines[j];
        ScanFromCons(Decoder(fullMessage, false), lines[j..], parse);
        assert lines[j..][0] == line && lines[j..][1..] == lines[j + 1..];
        if StartsWith(line, DataPrefix) {
          var data := Payload(line);
          if data == DoneMarker {
            // `done = true; break;`, and nothing follows the loop
            sawDone := true;
            return;
          }
          // `JSON.parse` and `choices?.[0]?.delta?.content || ""`; a throw is caught and ignored
          var token := match parse(data) case Some(t) => t case None => "";
          if token != [] {
            ReplaceLastAfterAppend(withUser, target, placeholder.(content := fullMessage), fullMessage + token);
            fullMessage := fullMessage + token;
            sessions := ReplaceLastIn(sessions, target, fullMessage);
          }
        }
        j := j + 1;
      }
    }
  }

  /** Putting a session with ids below `m` in front of sessions with ids below `n <= m` keeps every id below `m`. */
  lemma PrependKeepsIds(ss: seq<Session>, s: Session, n: nat, m: nat)
    requires IdsBelow(ss, n) && n <= m && SessionIdsBelow(s, m)
    ensures IdsBelow([s] + ss, m)
  {
    var r := [s] + ss;
    forall i | 0 <= i < |r| ensures SessionIdsBelow(r[i], m) {
      if i > 0 { assert r[i] == ss[i - 1]; }
    }
  }

  /** Putting a session in front keeps every session there. */
  lemma PrependKeepsActive(ss: seq<Session>, s: Session, active: Option<Id>)
    requires ActiveValid(ss, active)
    ensures ActiveValid([s] + ss, active)
  {
    if active.Some? {
      var k :| 0 <= k < |ss| && ss[k].id == active.value;
      assert ([s] + ss)[k + 1] == ss[k];
    }
  }

  /** Renaming keeps ids and order, so it keeps the store's invariant. */
  lemma RenameKeepsInvariant(ss: seq<Session>, active: Option<Id>, id: Id, title: string, n: nat)
    requires IdsBelow(ss, n) && ActiveValid(ss, active)
    ensures IdsBelow(RenameIn(ss, id, title), n) && ActiveValid(RenameIn(ss, id, title), active)
  {
    var r := RenameIn(ss, id, title);
    RenameInAt(ss, id, title);
    forall i | 0 <= i < |r| ensures SessionIdsBelow(r[i], n) {
      assert SessionIdsBelow(ss[i], n);
    }
    if active.Some? {
      var k :| 0 <= k < |ss| && ss[k].id == active.value;
      assert r[k].id == active.value;
    }
  }
}
