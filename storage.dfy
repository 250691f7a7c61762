/**
 * The in-memory record store of the portfolio server (`MemStorage`): three
 * independent collections (users, contact messages, study sessions), each a
 * map from integer id to record with its own id counter.  Timestamps are
 * milliseconds since the epoch, supplied by the caller as `now` in place of
 * the wall clock.
 */
module Storage {
  import opened Wrappers
  import opened Schema
  import TimeOrder

  datatype User = User(id: int, username: string, password: string)
  /** A user as submitted for registration: everything but the id. */
  datatype InsertUser = InsertUser(username: string, password: string)

  datatype ContactMessage = ContactMessage(
    id: int, name: string, email: string, subject: Option<string>, message: string, createdAt: int)
  /** A contact-form submission; `subject` may be left out. */
  datatype InsertContactMessage = InsertContactMessage(
    name: string, email: string, subject: Option<string>, message: string)

  datatype StudySession = StudySession(
    id: int, timerType: TimerType, duration: int, theme: Theme, completed: bool, createdAt: int)
  /** A new study session; `completed` may be left out. */
  datatype InsertStudySession = InsertStudySession(
    timerType: TimerType, duration: int, theme: Theme, completed: Option<bool>)
  /** A partial study session: every field may be present or absent, `id` and `createdAt` included. */
  datatype SessionPatch = SessionPatch(
    id: Option<int>, timerType: Option<TimerType>, duration: Option<int>,
    theme: Option<Theme>, completed: Option<bool>, createdAt: Option<int>)

  /** `subject || null`: an absent or empty subject is stored as null. */
  function StoredSubject(subject: Option<string>): (r: Option<string>)
    ensures r.Some? <==> subject.Some? && subject.value != ""
    ensures r.Some? ==> r == subject
  {
    match subject
    case Some(s) => if s == "" then None else Some(s)
    case None => None
  }

  /** `completed || false`: only an explicit `true` marks a new session completed. */
  function StoredCompleted(completed: Option<bool>): (r: bool)
    ensures r <==> completed == Some(true)
  {
    match completed
    case Some(c) => c
    case None => false
  }

  function Override<T>(update: Option<T>, current: T): T
  {
    match update
    case Some(v) => v
    case None => current
  }

  /** The shallow merge `{...s, ...p}`: fields present in `p` win, all others are kept from `s`. */
  function Merge(s: StudySession, p: SessionPatch): (r: StudySession)
    ensures r.id == (if p.id.Some? then p.id.value else s.id)
    ensures r.timerType == (if p.timerType.Some? then p.timerType.value else s.timerType)
    ensures r.duration == (if p.duration.Some? then p.duration.value else s.duration)
    ensures r.theme == (if p.theme.Some? then p.theme.value else s.theme)
    ensures r.completed == (if p.completed.Some? then p.completed.value else s.completed)
    ensures r.createdAt == (if p.createdAt.Some? then p.createdAt.value else s.createdAt)
  {
    StudySession(
      Override(p.id, s.id), Override(p.timerType, s.timerType), Override(p.duration, s.duration),
      Override(p.theme, s.theme), Override(p.completed, s.completed), Override(p.createdAt, s.createdAt))
  }

  const NoChanges := SessionPatch(None, None, None, None, None, None)

  function FirstPresent<T>(a: Option<T>, b: Option<T>): Option<T>
  {
    if a.Some? then a else b
  }

  /** Applying `p` and then `q` is one merge of `q` laid over `p`. */
  function Then(p: SessionPatch, q: SessionPatch): SessionPatch
  {
    SessionPatch(
      FirstPresent(q.id, p.id), FirstPresent(q.timerType, p.timerType),
      FirstPresent(q.duration, p.duration), FirstPresent(q.theme, p.theme),
      FirstPresent(q.completed, p.completed), FirstPresent(q.createdAt, p.createdAt))
  }

  /** An empty patch leaves the session as it is. */
  lemma MergeNoChanges(s: StudySession)
    ensures Merge(s, NoChanges) == s
  {
  }

  /** Merging the same patch twice is merging it once. */
  lemma MergeIdempotent(s: StudySession, p: SessionPatch)
    ensures Merge(Merge(s, p), p) == Merge(s, p)
  {
  }

  /** Two successive merges: the later value of each field wins. */
  lemma MergeThen(s: StudySession, p: SessionPatch, q: SessionPatch)
    ensures Merge(Merge(s, p), q) == Merge(s, Then(p, q))
  {
  }

  /** Marking a session completed changes `completed` and nothing else. */
  lemma MergeCompletedOnly(s: StudySession, done: bool)
    ensures Merge(s, NoChanges.(completed := Some(done))) == s.(completed := done)
  {
  }

  /** `m` holds exactly the ids a counter now at `next` has handed out: 1, ..., next - 1. */
  ghost predicate Issued<T>(m: map<int, T>, next: int)
  {
    forall k :: k in m <==> 1 <= k < next
  }

  /** A collection holding the ids 1, ..., next - 1 holds next - 1 records. */
  lemma {:induction false} IssuedCount<T>(m: map<int, T>, next: int)
    requires next >= 1 && Issued(m, next)
    ensures |m| == next - 1
    decreases next
  {
    if next > 1 {
      var rest := m - {next - 1};
      assert Issued(rest, next - 1);
      IssuedCount(rest, next - 1);
      assert m.Keys == rest.Keys + {next - 1};
    } else {
      assert forall k :: k !in m;
      assert m.Keys == {};
    }
  }

  class MemStorage {
    var users: map<int, User>
    var contactMessages: map<int, ContactMessage>
    var studySessions: map<int, StudySession>
    var currentUserId: int
    var currentMessageId: int
    var currentSessionId: int

    /**
     * Every collection holds exactly the ids its counter has issued, so an
     * id is never reused.  Users and messages are stored under their own id;
     * a session's `id` field can be overwritten by an update.
     */
    ghost predicate Valid()
      reads this
    {
      && currentUserId >= 1 && currentMessageId >= 1 && currentSessionId >= 1
      && Issued(users, currentUserId)
      && Issued(contactMessages, currentMessageId)
      && Issued(studySessions, currentSessionId)
      && (forall k :: k in users ==> users[k].id == k)
      && (forall k :: k in contactMessages ==> contactMessages[k].id == k)
    }

    constructor ()
      ensures Valid()
      ensures users == map[] && contactMessages == map[] && studySessions == map[]
      ensures currentUserId == 1 && currentMessageId == 1 && currentSessionId == 1
    {
      users, contactMessages, studySessions := map[], map[], map[];
      currentUserId, currentMessageId, currentSessionId := 1, 1, 1;
    }

    /** Key lookup: a user exactly for the ids handed out so far. */
    function GetUser(id: int): (r: Option<User>)
      reads this
      requires Valid()
      ensures r.Some? <==> 1 <= id < currentUserId
      ensures r.Some? ==> r.value.id == id && r.value in users.Values
    {
      if id in users then Some(users[id]) else None
    }

    /** Linear scan in insertion order: the first user with this username, if any. */
    method GetUserByUsername(username: string) returns (r: Option<User>)
      requires Valid()
      ensures r.None? <==> forall k :: k in users ==> users[k].username != username
      ensures r.Some? ==> r.value.id in users && users[r.value.id] == r.value && r.value.username == username
      ensures r.Some? ==> forall k :: k in users && k < r.value.id ==> users[k].username != username
    {
      var k := 1;
      while k < currentUserId
        invariant 1 <= k <= currentUserId
        invariant forall j :: 1 <= j < k ==> users[j].username != username
      {
        if users[k].username == username {
          return Some(users[k]);
        }
        k := k + 1;
      }
      return None;
    }

    method CreateUser(insertUser: InsertUser) returns (r: User)
      requires Valid()
      modifies this`users, this`currentUserId
      ensures Valid()
      ensures r == User(old(currentUserId), insertUser.username, insertUser.password)
      ensures old(currentUserId) !in old(users)
      ensures users == old(users)[r.id := r]
      ensures currentUserId == old(currentUserId) + 1
      ensures GetUser(r.id) == Some(r)
    {
      var id := currentUserId;
      currentUserId := currentUserId + 1;
      r := User(id, insertUser.username, insertUser.password);
      users := users[id := r];
    }

    method CreateContactMessage(insertMessage: InsertContactMessage, now: int) returns (r: ContactMessage)
      requires Valid()
      modifies this`contactMessages, this`currentMessageId
      ensures Valid()
      ensures r.id == old(currentMessageId) && r.id !in old(contactMessages)
      ensures r.name == insertMessage.name && r.email == insertMessage.email && r.message == insertMessage.message
      ensures r.subject == StoredSubject(insertMessage.subject)
      ensures r.createdAt == now
      ensures contactMessages == old(contactMessages)[r.id := r]
      ensures currentMessageId == old(currentMessageId) + 1
    {
      var id := currentMessageId;
      currentMessageId := currentMessageId + 1;
      r := ContactMessage(id, insertMessage.name, insertMessage.email,
                          StoredSubject(insertMessage.subject), insertMessage.message, now);
      contactMessages := contactMessages[id := r];
    }

    /**
     * All messages, newest first; equal timestamps in insertion (id) order.
     * `order` is the sequence of keys the result was read from.
     */
    method GetContactMessages() returns (r: seq<ContactMessage>, ghost order: seq<int>)
      requires Valid()
      ensures |r| == |contactMessages|
      ensures forall i :: 0 <= i < |r| ==> r[i] in contactMessages.Values
      ensures forall i, j :: 0 <= i < j < |r| ==> r[i].createdAt >= r[j].createdAt
      ensures |order| == |r|
      ensures forall k :: k in contactMessages <==> k in order
      ensures forall i :: 0 <= i < |r| ==> order[i] in contactMessages && r[i] == contactMessages[order[i]]
      ensures forall i :: 0 <= i < |r| ==> r[i].id == order[i]
      ensures forall i, j :: 0 <= i < j < |r| ==>
                r[i].createdAt > r[j].createdAt || (r[i].createdAt == r[j].createdAt && r[i].id < r[j].id)
    {
      var times := map k | k in contactMessages :: contactMessages[k].createdAt;
      var ks := NewestFirstKeys(currentMessageId, times);
      r := TimeOrder.Lookup(contactMessages, ks);
      order := ks;
      MessagesListed(contactMessages, times, currentMessageId, ks, r);
    }

    method CreateStudySession(insertSession: InsertStudySession, now: int) returns (r: StudySession)
      requires Valid()
      modifies this`studySessions, this`currentSessionId
      ensures Valid()
      ensures r.id == old(currentSessionId) && r.id !in old(studySessions)
      ensures r.timerType == insertSession.timerType && r.duration == insertSession.duration
      ensures r.theme == insertSession.theme
      ensures r.completed == StoredCompleted(insertSession.completed)
      ensures r.createdAt == now
      ensures studySessions == old(studySessions)[r.id := r]
      ensures currentSessionId == old(currentSessionId) + 1
    {
      var id := currentSessionId;
      currentSessionId := currentSessionId + 1;
      r := StudySession(id, insertSession.timerType, insertSession.duration, insertSession.theme,
                        StoredCompleted(insertSession.completed), now);
      studySessions := studySessions[id := r];
    }

    /**
     * All sessions, newest first; equal timestamps in insertion (key) order.
     * `order` is the sequence of keys the result was read from.
     */
    method GetStudySessions() returns (r: seq<StudySession>, ghost order: seq<int>)
      requires Valid()
      ensures |r| == |studySessions|
      ensures forall i :: 0 <= i < |r| ==> r[i] in studySessions.Values
      ensures forall i, j :: 0 <= i < j < |r| ==> r[i].createdAt >= r[j].createdAt
      ensures |order| == |r|
      ensures forall k :: k in studySessions <==> k in order
      ensures forall i :: 0 <= i < |r| ==> order[i] in studySessions && r[i] == studySessions[order[i]]
      ensures forall i, j :: 0 <= i < j < |r| ==>
                r[i].createdAt > r[j].createdAt || (r[i].createdAt == r[j].createdAt && order[i] < order[j])
    {
      var times := map k | k in studySessions :: studySessions[k].createdAt;
      var ks := NewestFirstKeys(currentSessionId, times);
      r := TimeOrder.Lookup(studySessions, ks);
      order := ks;
      SessionsListed(studySessions, times, currentSessionId, ks, r);
    }

    /** Shallow merge of `updates` into the session stored under `id`; absent when there is none. */
    method UpdateStudySession(id: int, updates: SessionPatch) returns (r: Option<StudySession>)
      requires Valid()
      modifies this`studySessions
      ensures Valid()
      ensures id !in old(studySessions) ==> r == None && studySessions == old(studySessions)
      ensures id in old(studySessions) ==>
                && r == Some(Merge(old(studySessions)[id], updates))
                && studySessions == old(studySessions)[id := r.value]
    {
      if id !in studySessions {
        return None;
      }
      var updated := Merge(studySessions[id], updates);
      studySessions := studySessions[id := updated];
      r := Some(updated);
    }
  }

  /** The messages read out under the sorted keys are every message once, newest first. */
  lemma MessagesListed(m: map<int, ContactMessage>, times: map<int, int>, next: int, ks: seq<int>, r: seq<ContactMessage>)
    requires next >= 1 && Issued(m, next) && forall k :: k in m ==> m[k].id == k
    requires forall k :: k in times <==> k in m
    requires forall k :: k in m ==> times[k] == m[k].createdAt
    requires ks == NewestFirstKeys(next, times)
    requires r == TimeOrder.Lookup(m, ks)
    ensures |r| == |ks| == |m|
    ensures forall k :: k in m <==> k in ks
    ensures forall i :: 0 <= i < |r| ==> ks[i] in m && r[i] == m[ks[i]] && r[i] in m.Values && r[i].id == ks[i]
    ensures forall i, j :: 0 <= i < j < |r| ==>
              r[i].createdAt > r[j].createdAt || (r[i].createdAt == r[j].createdAt && r[i].id < r[j].id)
    ensures forall i, j :: 0 <= i < j < |r| ==> r[i].createdAt >= r[j].createdAt
  {
    IssuedCount(m, next);
    forall i | 0 <= i < |r|
      ensures ks[i] in m && r[i] == m[ks[i]] && r[i] in m.Values
      ensures times[ks[i]] == r[i].createdAt && r[i].id == ks[i]
    {
      assert ks[i] in m;
    }
    forall i, j | 0 <= i < j < |r|
      ensures r[i].createdAt > r[j].createdAt || (r[i].createdAt == r[j].createdAt && r[i].id < r[j].id)
    {
      assert times[ks[i]] == r[i].createdAt && times[ks[j]] == r[j].createdAt;
    }
  }

  /** The sessions read out under the sorted keys are every session once, newest first. */
  lemma SessionsListed(m: map<int, StudySession>, times: map<int, int>, next: int, ks: seq<int>, r: seq<StudySession>)
    requires next >= 1 && Issued(m, next)
    requires forall k :: k in times <==> k in m
    requires forall k :: k in m ==> times[k] == m[k].createdAt
    requires ks == NewestFirstKeys(next, times)
    requires r == TimeOrder.Lookup(m, ks)
    ensures |r| == |ks| == |m|
    ensures forall k :: k in m <==> k in ks
    ensures forall i :: 0 <= i < |r| ==> ks[i] in m && r[i] == m[ks[i]] && r[i] in m.Values
    ensures forall i, j :: 0 <= i < j < |r| ==>
              r[i].createdAt > r[j].createdAt || (r[i].createdAt == r[j].createdAt && ks[i] < ks[j])
    ensures forall i, j :: 0 <= i < j < |r| ==> r[i].createdAt >= r[j].createdAt
  {
    IssuedCount(m, next);
    forall i | 0 <= i < |r|
      ensures ks[i] in m && r[i] == m[ks[i]] && r[i] in m.Values
      ensures times[ks[i]] == r[i].createdAt
    {
      assert ks[i] in m;
    }
    forall i, j | 0 <= i < j < |r|
      ensures r[i].createdAt > r[j].createdAt || (r[i].createdAt == r[j].createdAt && ks[i] < ks[j])
    {
      assert times[ks[i]] == r[i].createdAt && times[ks[j]] == r[j].createdAt;
    }
  }

  /**
   * The keys 1 .. next - 1 of a collection (its insertion order), sorted newest
   * first: a permutation of the keys in which each key precedes the later ones.
   */
  function NewestFirstKeys(next: int, t: map<int, int>): (ks: seq<int>)
    requires next >= 1 && Issued(t, next)
    ensures TimeOrder.Timed(ks, t)
    ensures |ks| == next - 1
    ensures forall k :: k in t <==> k in ks
    ensures forall i, j :: 0 <= i < j < |ks| ==>
              t[ks[i]] > t[ks[j]] || (t[ks[i]] == t[ks[j]] && ks[i] < ks[j])
  {
    var keys := TimeOrder.InsertionOrder(next);
    var ks := TimeOrder.Sort(keys, t);
    TimeOrder.SameKeys(ks, keys);
    TimeOrder.InsertionOrderKeys(next);
    assert |ks| == |multiset(ks)| == |multiset(keys)| == |keys|;
    assert TimeOrder.NewestFirst(ks, t);
    ks
  }
}

/** What a caller of the store can conclude from its contracts alone. */
module StorageScenarios {
  import opened Wrappers
  import opened Schema
  import opened Storage

  /** Three messages sent one after another are listed newest first, with ids 1, 2, 3. */
  method ThreeMessages()
  {
    var store := new MemStorage();
    var a := store.CreateContactMessage(InsertContactMessage("A", "a@x.org", None, "hi"), 100);
    assert store.contactMessages == map[1 := a];
    var b := store.CreateContactMessage(InsertContactMessage("B", "b@x.org", Some(""), "hi"), 200);
    assert store.contactMessages == map[1 := a, 2 := b];
    var c := store.CreateContactMessage(InsertContactMessage("C", "c@x.org", Some("re"), "hi"), 300);
    ghost var m := store.contactMessages;
    assert m == map[1 := a, 2 := b, 3 := c];
    assert a.id == 1 && b.id == 2 && c.id == 3;
    assert a.subject == None && b.subject == None && c.subject == Some("re");
    var listed, order := store.GetContactMessages();
    NewestOfThree(m, listed, order, a, b, c);
  }

  lemma NewestOfThree(m: map<int, ContactMessage>, listed: seq<ContactMessage>, order: seq<int>,
                      a: ContactMessage, b: ContactMessage, c: ContactMessage)
    requires m == map[1 := a, 2 := b, 3 := c] && a.createdAt < b.createdAt < c.createdAt
    requires |listed| == |order| == |m|
    requires forall i :: 0 <= i < |listed| ==> order[i] in m && listed[i] == m[order[i]]
    requires forall i, j :: 0 <= i < j < |listed| ==>
               listed[i].createdAt > listed[j].createdAt
               || (listed[i].createdAt == listed[j].createdAt && listed[i].id < listed[j].id)
    ensures listed == [c, b, a]
  {
    assert |m| == 3 by { assert m.Keys == {1, 2, 3}; }
    forall i | 0 <= i < 3 ensures listed[i] == a || listed[i] == b || listed[i] == c {
      assert order[i] in m;
    }
    // timestamps differ, so no two places hold the same message
    assert listed[0].createdAt > listed[1].createdAt > listed[2].createdAt;
    assert listed[0] == c && listed[1] == b && listed[2] == a;
  }

  /** A new session is not completed; marking it completed keeps its id and timestamp. */
  method CompleteASession()
  {
    var store := new MemStorage();
    var s := store.CreateStudySession(InsertStudySession(Pomodoro, 1500, Forest, None), 100);
    assert s.id == 1 && !s.completed && s.createdAt == 100;
    var updated := store.UpdateStudySession(1, NoChanges.(completed := Some(true)));
    assert updated == Some(s.(completed := true));
    var missing := store.UpdateStudySession(2, NoChanges.(completed := Some(true)));
    assert missing == None;
  }
}
