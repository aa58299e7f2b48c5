/**
 * The session store of the chat client: sessions, their messages, and the
 * array expressions (`filter`, `map` with spread, prepend, append, replace-last)
 * by which `App` derives each new `sessions` value from the previous one.
 * Ids are natural numbers drawn from a counter instead of time-based strings.
 */
module Chat {
  import opened Options
  import opened Text

  type Id = nat

  datatype Role = User | Assistant | System

  datatype Message = Message(id: Id, role: Role, content: string)

  datatype Session = Session(id: Id, title: string, messages: seq<Message>)

  /** Title of a chat made with the "new chat" button. */
  const DefaultTitle: string := "New Conversation"
  /** Title the inline editor falls back to when the edited text is blank. */
  const UntitledTitle: string := "Untitled"
  /** Appended to the title of a duplicated chat. */
  const CopySuffix: string := " (copy)"
  /** Longest title derived from a suggestion or from the first user message. */
  const TitleLimit: nat := 30

  // ---------------------------------------------------------------------------
  // Lookup

  predicate HasSession(ss: seq<Session>, id: Id) {
    exists i :: 0 <= i < |ss| && ss[i].id == id
  }

  /** `sessions.find(s => s.id === id)`: the first session with that id, if any. */
  function Find(ss: seq<Session>, id: Id): (r: Option<Session>)
    ensures r.None? <==> !HasSession(ss, id)
    ensures r.Some? ==> exists k :: 0 <= k < |ss| && ss[k] == r.value && r.value.id == id
                                    && forall j :: 0 <= j < k ==> ss[j].id != id
  {
    if ss == [] then None
    else if ss[0].id == id then Some(ss[0])
    else
      var r := Find(ss[1..], id);
      assert forall i :: 1 <= i < |ss| ==> ss[i] == ss[1..][i - 1];
      r
  }

  /** The active id names an existing session, or there is no active session. */
  predicate ActiveValid(ss: seq<Session>, active: Option<Id>) {
    active.Some? ==> HasSession(ss, active.value)
  }

  /** Every session id and every message id is below `n`, so `n` and above are fresh. */
  predicate IdsBelow(ss: seq<Session>, n: nat) {
    forall i :: 0 <= i < |ss| ==> SessionIdsBelow(ss[i], n)
  }

  predicate SessionIdsBelow(s: Session, n: nat) {
    s.id < n && forall j :: 0 <= j < |s.messages| ==> s.messages[j].id < n
  }

  lemma IdsBelowMono(ss: seq<Session>, n: nat, m: nat)
    requires IdsBelow(ss, n) && n <= m
    ensures IdsBelow(ss, m)
  {
  }

  // ---------------------------------------------------------------------------
  // `prev.map(s => s.id === id ? f(s) : s)`

  /** Applies `f` to every session with the given id and leaves the others as they are. */
  function UpdateWhere(ss: seq<Session>, id: Id, f: Session -> Session): (r: seq<Session>)
    ensures |r| == |ss|
  {
    if ss == [] then [] else [if ss[0].id == id then f(ss[0]) else ss[0]] + UpdateWhere(ss[1..], id, f)
  }

  /** `map` touches every position: the sessions with the id are rewritten by `f`, the others kept. */
  lemma {:induction false} UpdateWhereAt(ss: seq<Session>, id: Id, f: Session -> Session)
    ensures var r := UpdateWhere(ss, id, f);
      forall i :: 0 <= i < |ss| ==> r[i] == if ss[i].id == id then f(ss[i]) else ss[i]
  {
    if ss != [] {
      UpdateWhereAt(ss[1..], id, f);
      assert forall i :: 1 <= i < |ss| ==> ss[i] == ss[1..][i - 1];
    }
  }

  /** `renameChat(id, title)`. */
  function RenameIn(ss: seq<Session>, id: Id, title: string): (r: seq<Session>)
    ensures |r| == |ss|
  {
    UpdateWhere(ss, id, (s: Session) => s.(title := title))
  }

  /** Renaming sets the title of the chats with that id and touches nothing else. */
  lemma RenameInAt(ss: seq<Session>, id: Id, title: string)
    ensures var r := RenameIn(ss, id, title);
      forall i :: 0 <= i < |ss| ==>
        && r[i].id == ss[i].id
        && r[i].messages == ss[i].messages
        && r[i].title == (if ss[i].id == id then title else ss[i].title)
  {
    UpdateWhereAt(ss, id, (s: Session) => s.(title := title));
  }

  /** `{ ...s, messages: [...s.messages, m] }` for every session with the given id. */
  function AppendTo(ss: seq<Session>, id: Id, m: Message): (r: seq<Session>)
    ensures |r| == |ss|
  {
    UpdateWhere(ss, id, (s: Session) => s.(messages := s.messages + [m]))
  }

  /** Appending puts `m` after the messages of the chats with that id and touches nothing else. */
  lemma AppendToAt(ss: seq<Session>, id: Id, m: Message)
    ensures var r := AppendTo(ss, id, m);
      forall i :: 0 <= i < |ss| ==>
        && r[i].id == ss[i].id
        && r[i].title == ss[i].title
        && r[i].messages == (if ss[i].id == id then ss[i].messages + [m] else ss[i].messages)
  {
    UpdateWhereAt(ss, id, (s: Session) => s.(messages := s.messages + [m]));
  }

  /**
   * `messages.map((m, idx) => idx === messages.length - 1 ? { ...m, content } : m)`:
   * only the content of the last message changes; an empty list stays empty.
   */
  function ReplaceLast(ms: seq<Message>, content: string): (r: seq<Message>)
    ensures |r| == |ms|
    ensures forall j :: 0 <= j < |ms| - 1 ==> r[j] == ms[j]
    ensures ms != [] ==> r[|ms| - 1] == ms[|ms| - 1].(content := content)
  {
    if ms == [] then [] else ms[..|ms| - 1] + [ms[|ms| - 1].(content := content)]
  }

  /** The streaming update: the last message of every session with the given id gets `content`. */
  function ReplaceLastIn(ss: seq<Session>, id: Id, content: string): (r: seq<Session>)
    ensures |r| == |ss|
  {
    UpdateWhere(ss, id, (s: Session) => s.(messages := ReplaceLast(s.messages, content)))
  }

  /** The streaming update rewrites the last message of the chats with that id and touches nothing else. */
  lemma ReplaceLastInAt(ss: seq<Session>, id: Id, content: string)
    ensures var r := ReplaceLastIn(ss, id, content);
      forall i :: 0 <= i < |ss| ==>
        && r[i].id == ss[i].id
        && r[i].title == ss[i].title
        && r[i].messages == (if ss[i].id == id then ReplaceLast(ss[i].messages, content) else ss[i].messages)
  {
    UpdateWhereAt(ss, id, (s: Session) => s.(messages := ReplaceLast(s.messages, content)));
  }

  // ---------------------------------------------------------------------------
  // Creating, deleting, duplicating

  /** A chat with no messages, as `createNewChat` and `handleSuggestion` build it. */
  function NewSession(id: Id, title: string): (s: Session)
    ensures s.id == id && s.title == title && s.messages == []
  {
    Session(id, title, [])
  }

  /** `text.length > 30 ? text.slice(0, 30) : text`. */
  function SuggestionTitle(text: string): (r: string)
    ensures |r| <= TitleLimit
    ensures |text| <= TitleLimit ==> r == text
    ensures |text| > TitleLimit ==> r == text[..TitleLimit]
  {
    if |text| > TitleLimit then text[..TitleLimit] else text
  }

  /** `sessions.filter(s => s.id !== id)`. */
  function Without(ss: seq<Session>, id: Id): (r: seq<Session>)
    ensures |r| <= |ss|
    ensures forall i :: 0 <= i < |r| ==> r[i].id != id && r[i] in ss
    ensures forall i :: 0 <= i < |ss| && ss[i].id != id ==> ss[i] in r
  {
    if ss == [] then []
    else
      var rest := Without(ss[1..], id);
      assert forall i :: 1 <= i < |ss| ==> ss[i] == ss[1..][i - 1];
      if ss[0].id == id then rest else [ss[0]] + rest
  }

  /** Which session `deleteChat(id)` makes active, given what is left after the filter. */
  function NextActive(active: Option<Id>, id: Id, remaining: seq<Session>): Option<Id> {
    if active == Some(id) && |remaining| > 0 then Some(remaining[0].id)
    else if |remaining| == 0 then None
    else active
  }

  /** The copy the Duplicate menu item builds from `s`, taking ids from `n` upward. */
  function Copy(s: Session, n: Id): (c: Session)
    ensures c.id == n && c.title == s.title + CopySuffix
    ensures |c.messages| == |s.messages|
    ensures forall j :: 0 <= j < |s.messages| ==>
      && c.messages[j].role == s.messages[j].role
      && c.messages[j].content == s.messages[j].content
      && c.messages[j].id == n + 1 + j
  {
    Session(n, s.title + CopySuffix, Renumber(s.messages, n + 1))
  }

  /** `messages.map(m => ({ ...m, id: fresh }))`, the fresh ids being `k`, `k + 1`, ... */
  function Renumber(ms: seq<Message>, k: Id): (r: seq<Message>)
    ensures |r| == |ms|
    ensures forall j :: 0 <= j < |ms| ==> r[j] == ms[j].(id := k + j)
  {
    if ms == [] then []
    else
      var r := [ms[0].(id := k)] + Renumber(ms[1..], k + 1);
      assert forall j :: 1 <= j < |ms| ==> ms[j] == ms[1..][j - 1];
      r
  }

  // ---------------------------------------------------------------------------
  // Persistence snapshot and the load-time id backfill

  /** A message as read back from the snapshot: its id may be missing. */
  datatype StoredMessage = StoredMessage(id: Option<Id>, role: Role, content: string)

  /** A session as read back from the snapshot: its message list may be missing. */
  datatype StoredSession = StoredSession(id: Id, title: string, messages: Option<seq<StoredMessage>>)

  /** What `JSON.stringify(sessions)` stores, seen as data. */
  function Save(ss: seq<Session>): (r: seq<StoredSession>)
    ensures |r| == |ss|
  {
    if ss == [] then [] else [SaveSession(ss[0])] + Save(ss[1..])
  }

  function SaveSession(s: Session): StoredSession {
    StoredSession(s.id, s.title, Some(SaveMessages(s.messages)))
  }

  function SaveMessages(ms: seq<Message>): seq<StoredMessage> {
    if ms == [] then [] else [StoredMessage(Some(ms[0].id), ms[0].role, ms[0].content)] + SaveMessages(ms[1..])
  }

  /**
   * `(sess.messages || []).map(m => m.id ? m : { ...m, id: fresh })`, the fresh
   * ids being `n`, `n + 1`, ... in order; also yields the next unused counter value.
   */
  function FillMessages(ms: seq<StoredMessage>, n: Id): (r: (seq<Message>, Id))
    ensures |r.0| == |ms| && n <= r.1
    ensures forall j :: 0 <= j < |ms| ==>
      && r.0[j].role == ms[j].role && r.0[j].content == ms[j].content
      && (ms[j].id.Some? ==> r.0[j].id == ms[j].id.value)
      && (ms[j].id.None? ==> n <= r.0[j].id < r.1)
  {
    if ms == [] then ([], n)
    else
      var m := ms[0];
      var head := Message(if m.id.Some? then m.id.value else n, m.role, m.content);
      var tail := FillMessages(ms[1..], if m.id.Some? then n else n + 1);
      assert forall j :: 1 <= j < |ms| ==> ms[j] == ms[1..][j - 1];
      ([head] + tail.0, tail.1)
  }

  /** Filling a non-empty list fills its head, then its tail from the counter the head leaves. */
  lemma FillCons(ms: seq<StoredMessage>, n: Id)
    requires ms != []
    ensures var n', r := if ms[0].id.Some? then n else n + 1, FillMessages(ms, n);
      && r.0 == [Message(if ms[0].id.Some? then ms[0].id.value else n, ms[0].role, ms[0].content)]
                + FillMessages(ms[1..], n').0
      && forall j :: 1 <= j < |ms| ==> ms[j] == ms[1..][j - 1] && r.0[j] == FillMessages(ms[1..], n').0[j - 1]
  {
  }

  /** The fresh ids go to the messages without one in increasing order, so no two of them clash. */
  lemma {:induction false} FillFreshIncreasing(ms: seq<StoredMessage>, n: Id)
    ensures var r := FillMessages(ms, n);
      forall i, j :: 0 <= i < j < |ms| && ms[i].id.None? && ms[j].id.None? ==> r.0[i].id < r.0[j].id
  {
    if ms != [] {
      var n' := if ms[0].id.Some? then n else n + 1;
      var r, tail := FillMessages(ms, n).0, FillMessages(ms[1..], n').0;
      FillCons(ms, n);
      FillFreshIncreasing(ms[1..], n');
      forall i, j | 0 <= i < j < |ms| && ms[i].id.None? && ms[j].id.None? ensures r[i].id < r[j].id {
        if i == 0 {
          assert n' <= tail[j - 1].id;
        } else {
          assert r[i] == tail[i - 1] && r[j] == tail[j - 1];
        }
      }
    }
  }

  /** The load effect's `parsed.map(...)`: sessions keep id, title and order; messages are backfilled. */
  function Backfill(stored: seq<StoredSession>, n: Id): (r: (seq<Session>, Id))
    ensures |r.0| == |stored| && n <= r.1
  {
    if stored == [] then ([], n)
    else
      var st := stored[0];
      var filled := FillMessages(StoredMessages(st), n);
      var rest := Backfill(stored[1..], filled.1);
      ([Session(st.id, st.title, filled.0)] + rest.0, rest.1)
  }

  /** The messages of a stored session as the load effect reads them (`sess.messages || []`). */
  function StoredMessages(st: StoredSession): seq<StoredMessage> {
    if st.messages.Some? then st.messages.value else []
  }

  /** Loading a non-empty snapshot loads its first session, then the rest from the counter that leaves. */
  lemma BackfillCons(stored: seq<StoredSession>, n: Id)
    requires stored != []
    ensures var st, filled := stored[0], FillMessages(StoredMessages(stored[0]), n);
      Backfill(stored, n) == ([Session(st.id, st.title, filled.0)] + Backfill(stored[1..], filled.1).0,
                              Backfill(stored[1..], filled.1).1)
  {
  }

  /** Loading keeps every session's id and title, in order. */
  lemma {:induction false} BackfillKeeps(stored: seq<StoredSession>, n: Id)
    ensures var r := Backfill(stored, n).0;
      forall i :: 0 <= i < |stored| ==> r[i].id == stored[i].id && r[i].title == stored[i].title
  {
    if stored != [] {
      var n' := FillMessages(StoredMessages(stored[0]), n).1;
      var r, rest := Backfill(stored, n).0, Backfill(stored[1..], n').0;
      BackfillCons(stored, n);
      BackfillKeeps(stored[1..], n');
      forall i | 1 <= i < |stored| ensures r[i].id == stored[i].id && r[i].title == stored[i].title {
        assert stored[i] == stored[1..][i - 1] && r[i] == rest[i - 1];
      }
    }
  }

  /**
   * `out` is `ms` loaded: as many messages, with the same roles and contents,
   * and every id that was stored kept.
   */
  predicate LoadedFrom(ms: seq<StoredMessage>, out: seq<Message>) {
    && |out| == |ms|
    && forall j :: 0 <= j < |ms| ==>
         && out[j].role == ms[j].role && out[j].content == ms[j].content
         && (ms[j].id.Some? ==> out[j].id == ms[j].id.value)
  }

  /** Loading keeps every stored message of every session, filling in only the missing ids. */
  lemma {:induction false} BackfillMessages(stored: seq<StoredSession>, n: Id)
    ensures var r := Backfill(stored, n).0;
      forall i :: 0 <= i < |stored| ==> LoadedFrom(StoredMessages(stored[i]), r[i].messages)
  {
    if stored != [] {
      var filled := FillMessages(StoredMessages(stored[0]), n);
      var r, rest := Backfill(stored, n).0, Backfill(stored[1..], filled.1).0;
      BackfillCons(stored, n);
      BackfillMessages(stored[1..], filled.1);
      assert r[0].messages == filled.0;
      forall i | 1 <= i < |stored| ensures LoadedFrom(StoredMessages(stored[i]), r[i].messages) {
        assert stored[i] == stored[1..][i - 1] && r[i] == rest[i - 1];
      }
    }
  }

  /** Every id present in the snapshot is below `b`. */
  predicate StoredIdsBelow(stored: seq<StoredSession>, b: nat) {
    forall i :: 0 <= i < |stored| ==> StoredSessionIdsBelow(stored[i], b)
  }

  predicate StoredSessionIdsBelow(st: StoredSession, b: nat) {
    && st.id < b
    && (st.messages.Some? ==>
          forall j :: 0 <= j < |st.messages.value| && st.messages.value[j].id.Some? ==>
            st.messages.value[j].id.value < b)
  }

  /** One more than the largest id present in the snapshot (0 when there is none). */
  function StoredBound(stored: seq<StoredSession>): (b: nat)
    ensures StoredIdsBelow(stored, b)
  {
    if stored == [] then 0
    else
      var st := stored[0];
      var here := Max(st.id + 1, if st.messages.Some? then MessagesBound(st.messages.value) else 0);
      var b := Max(here, StoredBound(stored[1..]));
      assert forall i :: 1 <= i < |stored| ==> stored[i] == stored[1..][i - 1];
      b
  }

  function MessagesBound(ms: seq<StoredMessage>): (b: nat)
    ensures forall j :: 0 <= j < |ms| && ms[j].id.Some? ==> ms[j].id.value < b
  {
    if ms == [] then 0
    else
      var b := Max(if ms[0].id.Some? then ms[0].id.value + 1 else 0, MessagesBound(ms[1..]));
      assert forall j :: 1 <= j < |ms| ==> ms[j] == ms[1..][j - 1];
      b
  }

  function Max(a: nat, b: nat): nat {
    if a < b then b else a
  }

  // ---------------------------------------------------------------------------
  // Properties of the store operations

  /** `filter` keeps order: filtering a concatenation filters each part. */
  lemma {:induction false} WithoutAppend(a: seq<Session>, b: seq<Session>, id: Id)
    ensures Without(a + b, id) == Without(a, id) + Without(b, id)
  {
    if a == [] {
      assert a + b == b;
    } else {
      var ab := a + b;
      assert ab[0] == a[0] && ab[1..] == a[1..] + b;
      WithoutAppend(a[1..], b, id);
      if a[0].id == id {
        assert Without(ab, id) == Without(a[1..] + b, id);
      } else {
        assert Without(ab, id) == [a[0]] + Without(a[1..] + b, id);
        assert Without(a, id) == [a[0]] + Without(a[1..], id);
      }
    }
  }

  /** Deleting an id no session has changes nothing. */
  lemma {:induction false} WithoutAbsent(ss: seq<Session>, id: Id)
    requires !HasSession(ss, id)
    ensures Without(ss, id) == ss
  {
    if ss != [] {
      assert ss[0].id != id;
      WithoutAbsent(ss[1..], id);
      assert [ss[0]] + ss[1..] == ss;
    }
  }

  /**
   * `deleteChat` keeps the store's invariants: the active id still names a
   * remaining session (or is null), and no id that was fresh stops being fresh.
   */
  lemma DeleteKeepsInvariant(ss: seq<Session>, active: Option<Id>, id: Id, n: nat)
    requires ActiveValid(ss, active) && IdsBelow(ss, n)
    ensures var r := Without(ss, id);
      && ActiveValid(r, NextActive(active, id, r))
      && IdsBelow(r, n)
      && !HasSession(r, id)
  {
    var r := Without(ss, id);
    if active.Some? && active.value != id && |r| > 0 {
      var k :| 0 <= k < |ss| && ss[k].id == active.value;
      assert ss[k] in r;
      var j :| 0 <= j < |r| && r[j] == ss[k];
      assert HasSession(r, active.value);
    }
    forall i | 0 <= i < |r| ensures SessionIdsBelow(r[i], n) {
      var k :| 0 <= k < |ss| && ss[k] == r[i];
    }
  }

  /** Renaming twice is renaming once, to the second title. */
  lemma RenameTwice(ss: seq<Session>, id: Id, a: string, b: string)
    ensures RenameIn(RenameIn(ss, id, a), id, b) == RenameIn(ss, id, b)
  {
    var l, r := RenameIn(RenameIn(ss, id, a), id, b), RenameIn(ss, id, b);
    RenameInAt(ss, id, a);
    RenameInAt(RenameIn(ss, id, a), id, b);
    RenameInAt(ss, id, b);
    forall i | 0 <= i < |ss| ensures l[i] == r[i] {
      assert l[i].title == r[i].title;
    }
  }

  /** Renaming a chat back to its title restores the collection exactly. */
  lemma RenameRestores(ss: seq<Session>, id: Id, t: string)
    requires forall i :: 0 <= i < |ss| && ss[i].id == id ==> ss[i].title == t
    ensures RenameIn(ss, id, t) == ss
  {
    var r := RenameIn(ss, id, t);
    RenameInAt(ss, id, t);
    forall i | 0 <= i < |ss| ensures r[i] == ss[i] {
      assert r[i].title == ss[i].title;
    }
  }

  /** The inline editor's title: `editingValue.trim() || "Untitled"`. */
  function InlineTitle(editingValue: string): (r: string)
    ensures r != [] && Trimmed(r)
    ensures !IsBlank(editingValue) ==> r == Trim(editingValue)
    ensures IsBlank(editingValue) ==> r == UntitledTitle
  {
    var t := Trim(editingValue);
    TrimShape(editingValue);
    if t == [] then UntitledTitle else t
  }

  /** One streaming update after the placeholder was appended just rewrites that placeholder. */
  lemma ReplaceLastAfterAppend(ss: seq<Session>, id: Id, m: Message, c: string)
    ensures ReplaceLastIn(AppendTo(ss, id, m), id, c) == AppendTo(ss, id, m.(content := c))
  {
    var l, r := ReplaceLastIn(AppendTo(ss, id, m), id, c), AppendTo(ss, id, m.(content := c));
    AppendToAt(ss, id, m);
    ReplaceLastInAt(AppendTo(ss, id, m), id, c);
    AppendToAt(ss, id, m.(content := c));
    forall i | 0 <= i < |ss| ensures l[i] == r[i] {
      if ss[i].id == id {
        var ms := ss[i].messages;
        assert (ms + [m])[..|ms|] == ms;
        assert l[i].messages == r[i].messages;
      }
    }
  }

  /** A later streaming update overwrites an earlier one. */
  lemma ReplaceLastOverwrites(ss: seq<Session>, id: Id, a: string, b: string)
    ensures ReplaceLastIn(ReplaceLastIn(ss, id, a), id, b) == ReplaceLastIn(ss, id, b)
  {
    var l, r := ReplaceLastIn(ReplaceLastIn(ss, id, a), id, b), ReplaceLastIn(ss, id, b);
    ReplaceLastInAt(ss, id, a);
    ReplaceLastInAt(ReplaceLastIn(ss, id, a), id, b);
    ReplaceLastInAt(ss, id, b);
    forall i | 0 <= i < |ss| ensures l[i] == r[i] {
      if ss[i].id == id {
        assert l[i].messages == r[i].messages;
      }
    }
  }

  /**
   * Duplicating session `ss[k]` with the counter at `n` gives a copy whose id and
   * message ids are all new and distinct, and the collection with the copy in
   * front still has every id below the advanced counter.
   */
  lemma DuplicateFresh(ss: seq<Session>, k: nat, n: nat)
    requires IdsBelow(ss, n) && k < |ss|
    ensures var c := Copy(ss[k], n);
      && !HasSession(ss, c.id)
      && c.id != ss[k].id
      && (forall j :: 0 <= j < |c.messages| ==> c.messages[j].id != ss[k].messages[j].id)
      && (forall i, j, j' :: 0 <= i < |ss| && 0 <= j < |c.messages| && 0 <= j' < |ss[i].messages| ==>
            c.messages[j].id != ss[i].messages[j'].id)
      && (forall j, j' :: 0 <= j < j' < |c.messages| ==> c.messages[j].id != c.messages[j'].id)
      && IdsBelow([c] + ss, n + 1 + |ss[k].messages|)
  {
    var c := Copy(ss[k], n);
    var m := n + 1 + |ss[k].messages|;
    IdsBelowMono(ss, n, m);
    var r := [c] + ss;
    forall i | 0 <= i < |r| ensures SessionIdsBelow(r[i], m) {
      if i > 0 { assert r[i] == ss[i - 1]; }
    }
  }

  /** Every saved message has its id, so filling a saved list changes nothing and draws no id. */
  lemma {:induction false} FillSaved(ms: seq<Message>, n: Id)
    ensures FillMessages(SaveMessages(ms), n) == (ms, n)
  {
    if ms != [] {
      FillSaved(ms[1..], n);
      assert SaveMessages(ms)[1..] == SaveMessages(ms[1..]);
      assert [ms[0]] + ms[1..] == ms;
    }
  }

  /** Loading a snapshot the store saved gives back the same sessions and uses no fresh id. */
  lemma {:induction false} LoadSaveRoundTrip(ss: seq<Session>, n: Id)
    ensures Backfill(Save(ss), n) == (ss, n)
  {
    if ss != [] {
      var stored := Save(ss);
      assert stored[0] == SaveSession(ss[0]) && stored[1..] == Save(ss[1..]);
      FillSaved(ss[0].messages, n);
      LoadSaveRoundTrip(ss[1..], n);
      assert Session(ss[0].id, ss[0].title, ss[0].messages) == ss[0];
      assert [ss[0]] + ss[1..] == ss;
    }
  }

  /**
   * When the counter starts at or above every id in the snapshot, every id of
   * the loaded sessions is below the counter the backfill returns.
   */
  lemma {:induction false} BackfillIdsBelow(stored: seq<StoredSession>, b: nat, n: Id)
    requires StoredIdsBelow(stored, b) && b <= n
    ensures IdsBelow(Backfill(stored, n).0, Backfill(stored, n).1)
  {
    if stored != [] {
      var st := stored[0];
      var src := StoredMessages(st);
      var filled := FillMessages(src, n);
      var ms, n' := filled.0, filled.1;
      var next := Backfill(stored[1..], n');
      var rest, n'' := next.0, next.1;
      assert StoredIdsBelow(stored[1..], b) by {
        forall i | 0 <= i < |stored| - 1 ensures StoredSessionIdsBelow(stored[1..][i], b) {
          assert stored[1..][i] == stored[i + 1];
        }
      }
      BackfillIdsBelow(stored[1..], b, n');
      var r := Backfill(stored, n).0;
      assert r == [Session(st.id, st.title, ms)] + rest;
      assert StoredSessionIdsBelow(st, b);
      assert SessionIdsBelow(r[0], n'');
      IdsBelowMono(rest, n'', n'');
      forall i | 0 <= i < |r| ensures SessionIdsBelow(r[i], n'') {
        if i > 0 { assert r[i] == rest[i - 1]; }
      }
    }
  }
}
