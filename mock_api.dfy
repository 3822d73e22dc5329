/** The in-memory mock backend: the user tables with login and patient
    registration, and the doctor-patient message log with conversations,
    sending, the per-doctor conversation overview and read marking. */
module MockApi {

  import opened Wrappers
  import opened Sequences

  datatype Role = Patient | Doctor | Management

  datatype Gender = Male | Female | Other

  datatype CaseType = Cardiology | Orthopedics | General | Neurology

  /** The role-specific part of a user record. */
  datatype Profile =
    | DoctorProfile(specialization: string, contact: string, patients: seq<string>)
    | PatientProfile(age: int, gender: Gender, caseType: CaseType, assignedDoctorId: string)
    | StaffProfile

  /** A user; `password` is None on the copies handed back to clients. */
  datatype User = User(
    id: string,
    name: string,
    role: Role,
    username: string,
    password: Option<string>,
    profile: Profile)

  datatype RegistrationData = RegistrationData(
    name: string,
    username: string,
    age: int,
    gender: Gender,
    caseType: CaseType,
    password: string)

  /** A doctor-patient message; `timestamp` is the time in milliseconds. */
  datatype Message = Message(
    id: string,
    senderId: string,
    receiverId: string,
    text: string,
    timestamp: int,
    read: bool)

  datatype Conversation = Conversation(patient: User, lastMessage: Message, unreadCount: nat)

  /** Every self-registered patient is assigned to this doctor. */
  const DefaultDoctorId := "doc-1"

  // ---------------------------------------------------------------------
  // Users

  predicate HasCredentials(u: User, username: string, password: string)
  {
    u.username == username && u.password == Some(password)
  }

  predicate UsernameTaken(users: seq<User>, username: string)
  {
    exists i :: 0 <= i < |users| && users[i].username == username
  }

  ghost predicate UsernamesUnique(users: seq<User>)
  {
    forall i, j :: 0 <= i < j < |users| ==> users[i].username != users[j].username
  }

  /** The login check: the first user whose username and password both
      match, returned without its password. */
  function Login(users: seq<User>, username: string, password: string): (r: Option<User>)
    ensures r.Some? <==> exists i :: 0 <= i < |users| && HasCredentials(users[i], username, password)
    ensures r.Some? ==> r.value.password == None
    ensures r.Some? ==>
      exists i :: 0 <= i < |users| && HasCredentials(users[i], username, password) &&
        r.value == users[i].(password := None) &&
        forall j :: 0 <= j < i ==> !HasCredentials(users[j], username, password)
  {
    match Find(users, (u: User) => HasCredentials(u, username, password))
    case None => None
    case Some(u) => Some(u.(password := None))
  }

  /** A user with this id, looked up the way `find` does. */
  function FindById(users: seq<User>, id: string): (r: Option<User>)
    ensures r.None? <==> forall i :: 0 <= i < |users| ==> users[i].id != id
    ensures r.Some? ==> r.value.id == id && r.value in users
    ensures r.Some? ==>
      exists i :: 0 <= i < |users| && users[i] == r.value &&
        forall j :: 0 <= j < i ==> users[j].id != id
  {
    Find(users, (u: User) => u.id == id)
  }

  /** The ids on a doctor's patient roster. */
  function Roster(doctor: User): seq<string>
  {
    if doctor.profile.DoctorProfile? then doctor.profile.patients else []
  }

  /** The patients on a doctor's roster, in the order of the patient table;
      empty for an unknown doctor. */
  function DoctorPatients(doctors: seq<User>, patients: seq<User>, doctorId: string): (r: seq<User>)
    ensures FindById(doctors, doctorId).None? ==> r == []
    ensures FindById(doctors, doctorId).Some? ==>
      var roster := Roster(FindById(doctors, doctorId).value);
      (forall p :: p in r <==> p in patients && p.id in roster) &&
      (forall p :: multiset(r)[p] == if p.id in roster then multiset(patients)[p] else 0) &&
      IsSubsequence(r, patients)
  {
    match FindById(doctors, doctorId)
    case None => []
    case Some(doctor) =>
      var onRoster := (p: User) => p.id in Roster(doctor);
      FilterMembers(patients, onRoster);
      FilterIsSubsequence(patients, onRoster);
      Filter(patients, onRoster)
  }

  /** The patient record that registration creates. */
  function NewPatient(data: RegistrationData, id: string): User
  {
    User(id, data.name, Patient, data.username, Some(data.password),
         PatientProfile(data.age, data.gender, data.caseType, DefaultDoctorId))
  }

  /** A user added under a fresh username is the one login finds for it. */
  lemma {:induction false} LoginAfterRegister(users: seq<User>, p: User, password: string)
    requires !UsernameTaken(users, p.username) && p.password == Some(password)
    ensures Login(users + [p], p.username, password) == Some(p.(password := None))
  {
    var s := users + [p];
    var r := Login(s, p.username, password);
    assert HasCredentials(s[|users|], p.username, password);
    forall j | 0 <= j < |users| ensures !HasCredentials(s[j], p.username, password) {
      assert s[j] == users[j];
    }
  }

  // ---------------------------------------------------------------------
  // Messages

  predicate Between(m: Message, a: string, b: string)
  {
    (m.senderId == a && m.receiverId == b) || (m.senderId == b && m.receiverId == a)
  }

  function Timestamp(m: Message): int
  {
    m.timestamp
  }

  /** The messages exchanged by `a` and `b` in either direction, oldest
      first; messages with equal timestamps stay in log order. */
  function GetConversation(messages: seq<Message>, a: string, b: string): (r: seq<Message>)
    ensures forall m :: m in r <==> m in messages && Between(m, a, b)
    ensures forall m :: multiset(r)[m] == if Between(m, a, b) then multiset(messages)[m] else 0
    ensures SortedBy(r, Timestamp)
    ensures forall t :: IsSubsequence(WithKey(r, Timestamp, t), messages)
  {
    var between := (m: Message) => Between(m, a, b);
    var exchanged := Filter(messages, between);
    FilterMembers(messages, between);
    FilterIsSubsequence(messages, between);
    var r := SortBy(exchanged, Timestamp);
    SortByKeepsElements(exchanged, Timestamp);
    forall t ensures IsSubsequence(WithKey(r, Timestamp, t), messages) {
      SortByStable(exchanged, Timestamp, t);
      SubsequenceTransitive(WithKey(exchanged, Timestamp, t), exchanged, messages);
    }
    r
  }

  // ----- The conversation overview of one doctor ------------------------

  predicate Involves(m: Message, doctorId: string)
  {
    m.senderId == doctorId || m.receiverId == doctorId
  }

  /** The other party of a message that involves the doctor. */
  function PartnerOf(m: Message, doctorId: string): string
  {
    if m.senderId == doctorId then m.receiverId else m.senderId
  }

  predicate IsKnownPatient(patients: seq<User>, id: string)
  {
    exists i :: 0 <= i < |patients| && patients[i].id == id
  }

  /** The messages the doctor sent or received, in log order. */
  function DoctorMessages(messages: seq<Message>, doctorId: string): (r: seq<Message>)
    ensures forall m :: m in r <==> m in messages && Involves(m, doctorId)
    ensures forall m :: multiset(r)[m] == if Involves(m, doctorId) then multiset(messages)[m] else 0
    ensures IsSubsequence(r, messages)
  {
    FilterMembers(messages, InvolvesDoctor(doctorId));
    FilterIsSubsequence(messages, InvolvesDoctor(doctorId));
    Filter(messages, InvolvesDoctor(doctorId))
  }

  /** The filter condition of `DoctorMessages`, named so that lemmas about
      the filter can refer to the same function value. */
  function InvolvesDoctor(doctorId: string): Message -> bool
  {
    m => Involves(m, doctorId)
  }

  /** Reference model of the first pass over the doctor's messages `dm`: the
      patient ids in the order they first became keys of the overview. */
  function PartnerKeys(dm: seq<Message>, doctorId: string, patients: seq<User>): seq<string>
  {
    if dm == [] then []
    else
      var keys := PartnerKeys(dm[..|dm| - 1], doctorId, patients);
      var pid := PartnerOf(dm[|dm| - 1], doctorId);
      if IsKnownPatient(patients, pid) && pid !in keys then keys + [pid] else keys
  }

  /** Reference model of the first pass: the message it keeps as latest for
      `pid`, replacing it only by a strictly newer one. */
  function LatestWith(dm: seq<Message>, doctorId: string, pid: string): Option<Message>
  {
    if dm == [] then None
    else
      var prev := LatestWith(dm[..|dm| - 1], doctorId, pid);
      var m := dm[|dm| - 1];
      if PartnerOf(m, doctorId) == pid && (prev.None? || prev.value.timestamp < m.timestamp)
      then Some(m) else prev
  }

  predicate UnreadFrom(m: Message, pid: string, doctorId: string)
  {
    m.receiverId == doctorId && !m.read && m.senderId == pid
  }

  /** Reference model of the second pass: unread messages from `pid` to the doctor. */
  function UnreadCount(dm: seq<Message>, pid: string, doctorId: string): nat
  {
    if dm == [] then 0
    else UnreadCount(dm[..|dm| - 1], pid, doctorId) + if UnreadFrom(dm[|dm| - 1], pid, doctorId) then 1 else 0
  }

  /** Newer conversations first. */
  function Recency(c: Conversation): int
  {
    -c.lastMessage.timestamp
  }

  lemma {:induction false} PartnerKeysSound(dm: seq<Message>, doctorId: string, patients: seq<User>)
    ensures forall k :: k in PartnerKeys(dm, doctorId, patients) ==>
      IsKnownPatient(patients, k) && LatestWith(dm, doctorId, k).Some?
    ensures forall k :: IsKnownPatient(patients, k) && LatestWith(dm, doctorId, k).Some? ==>
      k in PartnerKeys(dm, doctorId, patients)
    ensures Distinct(PartnerKeys(dm, doctorId, patients))
  {
    if dm != [] {
      var pre := dm[..|dm| - 1];
      PartnerKeysSound(pre, doctorId, patients);
      var pid := PartnerOf(dm[|dm| - 1], doctorId);
      assert forall k :: k != pid ==> LatestWith(dm, doctorId, k) == LatestWith(pre, doctorId, k);
    }
  }

  /** `dm[k]` is a latest message exchanged with `pid`, and the first of
      the latest ones in log order. */
  ghost predicate IsLatestAt(dm: seq<Message>, doctorId: string, pid: string, k: int)
  {
    0 <= k < |dm| && PartnerOf(dm[k], doctorId) == pid &&
    (forall j :: 0 <= j < |dm| && PartnerOf(dm[j], doctorId) == pid ==> dm[j].timestamp <= dm[k].timestamp) &&
    (forall j :: 0 <= j < k && PartnerOf(dm[j], doctorId) == pid ==> dm[j].timestamp < dm[k].timestamp)
  }

  /** What the first pass keeps for a patient: nothing when the doctor
      exchanged no message with them, otherwise the newest message, the
      earliest one in the log when several share the newest time. */
  lemma {:induction false} LatestWithIsLatest(dm: seq<Message>, doctorId: string, pid: string)
    ensures LatestWith(dm, doctorId, pid).None? <==> forall i :: 0 <= i < |dm| ==> PartnerOf(dm[i], doctorId) != pid
    ensures LatestWith(dm, doctorId, pid).Some? ==>
      exists k :: IsLatestAt(dm, doctorId, pid, k) && dm[k] == LatestWith(dm, doctorId, pid).value
  {
    LatestWithNone(dm, doctorId, pid);
    LatestWithSome(dm, doctorId, pid);
  }

  lemma {:induction false} LatestWithNone(dm: seq<Message>, doctorId: string, pid: string)
    ensures LatestWith(dm, doctorId, pid).None? <==> forall i :: 0 <= i < |dm| ==> PartnerOf(dm[i], doctorId) != pid
  {
    if dm != [] {
      var pre := dm[..|dm| - 1];
      LatestWithNone(pre, doctorId, pid);
      assert forall i :: 0 <= i < |pre| ==> dm[i] == pre[i];
    }
  }

  lemma {:induction false} LatestWithSome(dm: seq<Message>, doctorId: string, pid: string)
    ensures LatestWith(dm, doctorId, pid).Some? ==>
      exists k :: IsLatestAt(dm, doctorId, pid, k) && dm[k] == LatestWith(dm, doctorId, pid).value
  {
    if dm != [] {
      var pre := dm[..|dm| - 1];
      var m := dm[|dm| - 1];
      LatestWithNone(pre, doctorId, pid);
      LatestWithSome(pre, doctorId, pid);
      var prev := LatestWith(pre, doctorId, pid);
      assert forall i :: 0 <= i < |pre| ==> dm[i] == pre[i];
      if PartnerOf(m, doctorId) == pid && (prev.None? || prev.value.timestamp < m.timestamp) {
        if prev.Some? {
          var k :| IsLatestAt(pre, doctorId, pid, k) && pre[k] == prev.value;
          assert IsLatestAt(dm, doctorId, pid, |dm| - 1);
        } else {
          assert IsLatestAt(dm, doctorId, pid, |dm| - 1);
        }
      } else if prev.Some? {
        var k :| IsLatestAt(pre, doctorId, pid, k) && pre[k] == prev.value;
        assert IsLatestAt(dm, doctorId, pid, k);
      }
    }
  }

  lemma {:induction false} UnreadCountConcat(a: seq<Message>, b: seq<Message>, pid: string, doctorId: string)
    ensures UnreadCount(a + b, pid, doctorId) == UnreadCount(a, pid, doctorId) + UnreadCount(b, pid, doctorId)
  {
    if b == [] {
      assert a + b == a;
    } else {
      var pre := b[..|b| - 1];
      UnreadCountConcat(a, pre, pid, doctorId);
      assert (a + b)[..|a + b| - 1] == a + pre;
      assert (a + b)[|a + b| - 1] == b[|b| - 1];
    }
  }

  /** Counting over the doctor's messages counts every unread message from
      `pid` to the doctor in the whole log. */
  lemma {:induction false} UnreadInDoctorMessages(messages: seq<Message>, pid: string, doctorId: string)
    ensures UnreadCount(DoctorMessages(messages, doctorId), pid, doctorId) == UnreadCount(messages, pid, doctorId)
  {
    if messages != [] {
      var pre := messages[..|messages| - 1];
      var m := messages[|messages| - 1];
      var keep := InvolvesDoctor(doctorId);
      assert messages == pre + [m];
      calc {
        UnreadCount(DoctorMessages(messages, doctorId), pid, doctorId);
        UnreadCount(Filter(pre + [m], keep), pid, doctorId);
        { FilterConcat(pre, [m], keep); }
        UnreadCount(Filter(pre, keep) + Filter([m], keep), pid, doctorId);
        { UnreadCountConcat(Filter(pre, keep), Filter([m], keep), pid, doctorId); }
        UnreadCount(Filter(pre, keep), pid, doctorId) + UnreadCount(Filter([m], keep), pid, doctorId);
        { UnreadInDoctorMessages(pre, pid, doctorId); UnreadOfOne(m, pid, doctorId); }
        UnreadCount(pre, pid, doctorId) + UnreadCount([m], pid, doctorId);
        { UnreadCountConcat(pre, [m], pid, doctorId); }
        UnreadCount(messages, pid, doctorId);
      }
    }
  }

  lemma UnreadOfOne(m: Message, pid: string, doctorId: string)
    ensures UnreadCount(Filter([m], InvolvesDoctor(doctorId)), pid, doctorId) == UnreadCount([m], pid, doctorId)
  {
    assert Filter([m][1..], InvolvesDoctor(doctorId)) == [];
    assert [m][..0] == [];
  }


  /** The overview entry for one patient. */
  function Entry(dm: seq<Message>, patients: seq<User>, doctorId: string, pid: string): Conversation
    requires IsKnownPatient(patients, pid) && LatestWith(dm, doctorId, pid).Some?
  {
    Conversation(FindById(patients, pid).value, LatestWith(dm, doctorId, pid).value,
                 UnreadCount(dm, pid, doctorId))
  }

  /** Reference model of the whole overview: one entry per key, in key order,
      then sorted newest first. */
  function DoctorConversations(messages: seq<Message>, patients: seq<User>, doctorId: string): seq<Conversation>
  {
    var dm := DoctorMessages(messages, doctorId);
    SortBy(Entries(dm, patients, doctorId), Recency)
  }

  /** One entry per key, in key order. */
  function Entries(dm: seq<Message>, patients: seq<User>, doctorId: string): (r: seq<Conversation>)
    ensures |r| == |PartnerKeys(dm, doctorId, patients)|
  {
    var keys := PartnerKeys(dm, doctorId, patients);
    PartnerKeysSound(dm, doctorId, patients);
    seq(|keys|, i requires 0 <= i < |keys| => Entry(dm, patients, doctorId, keys[i]))
  }

  /** What each entry holds, that every key has an entry and that no two
      entries belong to the same patient. */
  lemma EntriesFacts(dm: seq<Message>, patients: seq<User>, doctorId: string)
    ensures forall c :: c in Entries(dm, patients, doctorId) ==>
      FindById(patients, c.patient.id) == Some(c.patient) &&
      LatestWith(dm, doctorId, c.patient.id) == Some(c.lastMessage) &&
      c.unreadCount == UnreadCount(dm, c.patient.id, doctorId)
    ensures forall pid :: IsKnownPatient(patients, pid) && LatestWith(dm, doctorId, pid).Some? ==>
      exists c :: c in Entries(dm, patients, doctorId) && c.patient.id == pid
    ensures forall i, j :: 0 <= i < j < |Entries(dm, patients, doctorId)| ==>
      Entries(dm, patients, doctorId)[i].patient.id != Entries(dm, patients, doctorId)[j].patient.id
  {
    var keys := PartnerKeys(dm, doctorId, patients);
    var e := Entries(dm, patients, doctorId);
    PartnerKeysSound(dm, doctorId, patients);
    assert forall i :: 0 <= i < |e| ==> e[i].patient.id == keys[i];
    forall pid | IsKnownPatient(patients, pid) && LatestWith(dm, doctorId, pid).Some?
      ensures exists c :: c in e && c.patient.id == pid
    {
      var i :| 0 <= i < |keys| && keys[i] == pid;
      assert e[i] in e;
    }
  }

  /** The overview is ordered newest first. */
  lemma ConversationsNewestFirst(messages: seq<Message>, patients: seq<User>, doctorId: string)
    ensures forall i, j :: 0 <= i < j < |DoctorConversations(messages, patients, doctorId)| ==>
      DoctorConversations(messages, patients, doctorId)[i].lastMessage.timestamp >=
      DoctorConversations(messages, patients, doctorId)[j].lastMessage.timestamp
  {
    var r := DoctorConversations(messages, patients, doctorId);
    assert SortedBy(r, Recency);
    forall i, j | 0 <= i < j < |r| ensures r[i].lastMessage.timestamp >= r[j].lastMessage.timestamp {
      assert Recency(r[i]) <= Recency(r[j]);
    }
  }

  /** No patient appears twice in the overview. */
  lemma ConversationsOnePerPatient(messages: seq<Message>, patients: seq<User>, doctorId: string)
    ensures forall i, j :: 0 <= i < j < |DoctorConversations(messages, patients, doctorId)| ==>
      DoctorConversations(messages, patients, doctorId)[i].patient.id !=
      DoctorConversations(messages, patients, doctorId)[j].patient.id
  {
    var dm := DoctorMessages(messages, doctorId);
    var e := Entries(dm, patients, doctorId);
    EntriesFacts(dm, patients, doctorId);
    PermutationDistinctKeys(e, SortBy(e, Recency), (c: Conversation) => c.patient.id);
  }

  /** Each entry of the overview is a known patient's record with the
      newest message the doctor exchanged with them and the number of their
      unread messages to the doctor. */
  lemma ConversationContents(messages: seq<Message>, patients: seq<User>, doctorId: string)
    ensures forall c :: c in DoctorConversations(messages, patients, doctorId) ==>
      FindById(patients, c.patient.id) == Some(c.patient) &&
      c.lastMessage in messages && Involves(c.lastMessage, doctorId) &&
      PartnerOf(c.lastMessage, doctorId) == c.patient.id &&
      (forall m :: m in messages && Involves(m, doctorId) && PartnerOf(m, doctorId) == c.patient.id ==>
        m.timestamp <= c.lastMessage.timestamp) &&
      c.unreadCount == UnreadCount(messages, c.patient.id, doctorId)
  {
    var e := Entries(DoctorMessages(messages, doctorId), patients, doctorId);
    SortByKeepsElements(e, Recency);
    forall c | c in DoctorConversations(messages, patients, doctorId)
      ensures FindById(patients, c.patient.id) == Some(c.patient)
      ensures c.lastMessage in messages && Involves(c.lastMessage, doctorId)
      ensures PartnerOf(c.lastMessage, doctorId) == c.patient.id
      ensures forall m :: m in messages && Involves(m, doctorId) && PartnerOf(m, doctorId) == c.patient.id ==>
        m.timestamp <= c.lastMessage.timestamp
      ensures c.unreadCount == UnreadCount(messages, c.patient.id, doctorId)
    {
      EntryContents(messages, patients, doctorId, c);
    }
  }

  lemma EntryContents(messages: seq<Message>, patients: seq<User>, doctorId: string, c: Conversation)
    requires c in Entries(DoctorMessages(messages, doctorId), patients, doctorId)
    ensures FindById(patients, c.patient.id) == Some(c.patient)
    ensures c.lastMessage in messages && Involves(c.lastMessage, doctorId)
    ensures PartnerOf(c.lastMessage, doctorId) == c.patient.id
    ensures forall m :: m in messages && Involves(m, doctorId) && PartnerOf(m, doctorId) == c.patient.id ==>
      m.timestamp <= c.lastMessage.timestamp
    ensures c.unreadCount == UnreadCount(messages, c.patient.id, doctorId)
  {
    var dm := DoctorMessages(messages, doctorId);
    EntriesFacts(dm, patients, doctorId);
    LatestWithIsLatest(dm, doctorId, c.patient.id);
    var k :| IsLatestAt(dm, doctorId, c.patient.id, k) && dm[k] == c.lastMessage;
    assert dm[k] in dm;
    forall m | m in messages && Involves(m, doctorId) && PartnerOf(m, doctorId) == c.patient.id
      ensures m.timestamp <= c.lastMessage.timestamp
    {
      assert m in dm;
      var j :| 0 <= j < |dm| && dm[j] == m;
    }
    UnreadInDoctorMessages(messages, c.patient.id, doctorId);
  }

  /** When message ids are unique in the log, no two overview entries share
      the id of their last message. */
  lemma ConversationsDistinctLastIds(messages: seq<Message>, patients: seq<User>, doctorId: string)
    requires forall i, j :: 0 <= i < j < |messages| ==> messages[i].id != messages[j].id
    ensures forall i, j :: 0 <= i < j < |DoctorConversations(messages, patients, doctorId)| ==>
      DoctorConversations(messages, patients, doctorId)[i].lastMessage.id !=
      DoctorConversations(messages, patients, doctorId)[j].lastMessage.id
  {
    var r := DoctorConversations(messages, patients, doctorId);
    ConversationsOnePerPatient(messages, patients, doctorId);
    ConversationContents(messages, patients, doctorId);
    forall i, j | 0 <= i < j < |r| ensures r[i].lastMessage.id != r[j].lastMessage.id {
      assert r[i] in r && r[j] in r;
      var x :| 0 <= x < |messages| && messages[x] == r[i].lastMessage;
      var y :| 0 <= y < |messages| && messages[y] == r[j].lastMessage;
      assert x < y || y < x;
    }
  }

  /** Every known patient the doctor exchanged a message with has an entry. */
  lemma ConversationsComplete(messages: seq<Message>, patients: seq<User>, doctorId: string)
    ensures forall m :: m in messages && Involves(m, doctorId) && IsKnownPatient(patients, PartnerOf(m, doctorId)) ==>
      exists c :: c in DoctorConversations(messages, patients, doctorId) && c.patient.id == PartnerOf(m, doctorId)
  {
    var dm := DoctorMessages(messages, doctorId);
    var e := Entries(dm, patients, doctorId);
    EntriesFacts(dm, patients, doctorId);
    SortByKeepsElements(e, Recency);
    forall m | m in messages && Involves(m, doctorId) && IsKnownPatient(patients, PartnerOf(m, doctorId))
      ensures exists c :: c in DoctorConversations(messages, patients, doctorId) && c.patient.id == PartnerOf(m, doctorId)
    {
      var pid := PartnerOf(m, doctorId);
      assert m in dm;
      var i :| 0 <= i < |dm| && dm[i] == m;
      LatestWithIsLatest(dm, doctorId, pid);
      var c :| c in e && c.patient.id == pid;
      assert c in DoctorConversations(messages, patients, doctorId);
    }
  }

  /** Reference model of the record the first pass builds. */
  ghost function FirstPass(dm: seq<Message>, doctorId: string, patients: seq<User>): map<string, Conversation>
  {
    if dm == [] then map[]
    else
      var conversations := FirstPass(dm[..|dm| - 1], doctorId, patients);
      var m := dm[|dm| - 1];
      var pid := PartnerOf(m, doctorId);
      if IsKnownPatient(patients, pid) && FindById(patients, pid).Some? &&
         (pid !in conversations || conversations[pid].lastMessage.timestamp < m.timestamp)
      then conversations[pid := Conversation(FindById(patients, pid).value, m, 0)]
      else conversations
  }

  /** The record after the first pass has exactly the keys, all of them
      known patients. */
  lemma {:induction false} FirstPassKeys(dm: seq<Message>, doctorId: string, patients: seq<User>)
    ensures forall k :: k in FirstPass(dm, doctorId, patients) <==> k in PartnerKeys(dm, doctorId, patients)
    ensures forall k :: k in FirstPass(dm, doctorId, patients) ==> IsKnownPatient(patients, k)
  {
    if dm != [] {
      var seen := dm[..|dm| - 1];
      FirstPassKeys(seen, doctorId, patients);
      var pid := PartnerOf(dm[|dm| - 1], doctorId);
      if IsKnownPatient(patients, pid) {
        assert FindById(patients, pid).Some?;
      }
    }
  }

  /** The entry of a patient carries the patient's record and latest
      message, and a known patient without entry has no message. */
  lemma {:induction false} FirstPassLatest(dm: seq<Message>, doctorId: string, patients: seq<User>)
    ensures forall k :: k in FirstPass(dm, doctorId, patients) ==>
      FindById(patients, k).Some? && LatestWith(dm, doctorId, k).Some? &&
      FirstPass(dm, doctorId, patients)[k] ==
        Conversation(FindById(patients, k).value, LatestWith(dm, doctorId, k).value, 0)
    ensures forall k :: IsKnownPatient(patients, k) && k !in FirstPass(dm, doctorId, patients) ==>
      LatestWith(dm, doctorId, k).None?
  {
    if dm != [] {
      var seen := dm[..|dm| - 1];
      FirstPassLatest(seen, doctorId, patients);
      var m := dm[|dm| - 1];
      var pid := PartnerOf(m, doctorId);
      var before := FirstPass(seen, doctorId, patients);
      var after := FirstPass(dm, doctorId, patients);
      forall k | k != pid
        ensures LatestWith(dm, doctorId, k) == LatestWith(seen, doctorId, k)
        ensures k in after <==> k in before
        ensures k in after ==> after[k] == before[k]
      {
      }
      if IsKnownPatient(patients, pid) {
        assert FindById(patients, pid).Some?;
      }
    }
  }

  /** The first pass of the overview: for every known patient the doctor
      exchanged messages with, the latest message (a later message replaces
      the kept one only when strictly newer), with `keys` the order in which
      the patient ids became keys of the record. */
  method CollectLatest(dm: seq<Message>, patients: seq<User>, doctorId: string)
    returns (conversations: map<string, Conversation>, keys: seq<string>)
    ensures keys == PartnerKeys(dm, doctorId, patients)
    ensures forall k :: k in conversations <==> k in keys
    ensures forall k :: k in conversations ==>
      IsKnownPatient(patients, k) && LatestWith(dm, doctorId, k).Some? &&
      conversations[k] == Conversation(FindById(patients, k).value, LatestWith(dm, doctorId, k).value, 0)
  {
    conversations, keys := map[], [];
    for i := 0 to |dm|
      invariant conversations == FirstPass(dm[..i], doctorId, patients)
      invariant keys == PartnerKeys(dm[..i], doctorId, patients)
    {
      var message := dm[i];
      assert dm[..i + 1][..i] == dm[..i];
      FirstPassKeys(dm[..i], doctorId, patients);
      var patientId := if message.senderId == doctorId then message.receiverId else message.senderId;
      if !IsKnownPatient(patients, patientId) {
        continue;
      }
      if patientId !in conversations || conversations[patientId].lastMessage.timestamp < message.timestamp {
        var patient := FindById(patients, patientId);
        if patient.Some? {
          if patientId !in conversations {
            keys := keys + [patientId];
          }
          conversations := conversations[patientId := Conversation(patient.value, message, 0)];
        }
      }
    }
    assert dm[..|dm|] == dm;
    FirstPassKeys(dm, doctorId, patients);
    FirstPassLatest(dm, doctorId, patients);
  }

  /** The second pass of the overview: each unread message to the doctor
      adds one to its sender's entry, when the sender has one. */
  method CountUnread(dm: seq<Message>, doctorId: string, entries: map<string, Conversation>)
    returns (conversations: map<string, Conversation>)
    ensures conversations.Keys == entries.Keys
    ensures forall k :: k in conversations ==>
      conversations[k] == entries[k].(unreadCount := entries[k].unreadCount + UnreadCount(dm, k, doctorId))
  {
    conversations := entries;
    for j := 0 to |dm|
      invariant conversations.Keys == entries.Keys
      invariant forall k :: k in conversations ==>
        conversations[k] == entries[k].(unreadCount := entries[k].unreadCount + UnreadCount(dm[..j], k, doctorId))
    {
      assert dm[..j + 1][..j] == dm[..j];
      var message := dm[j];
      if message.receiverId == doctorId && !message.read {
        var patientId := message.senderId;
        if patientId in conversations {
          conversations := conversations[patientId := conversations[patientId].(unreadCount := conversations[patientId].unreadCount + 1)];
        }
      }
    }
    assert dm[..|dm|] == dm;
  }

  /** The overview of one doctor's conversations: two passes over the
      doctor's messages that fill a record keyed by patient id, then its
      values sorted by the last message's time, newest first. */
  method GetDoctorConversations(messages: seq<Message>, patients: seq<User>, doctorId: string)
    returns (list: seq<Conversation>)
    ensures list == DoctorConversations(messages, patients, doctorId)
  {
    var dm := DoctorMessages(messages, doctorId);
    var latest, keys := CollectLatest(dm, patients, doctorId);
    var conversations := CountUnread(dm, doctorId, latest);
    var values := seq(|keys|, i requires 0 <= i < |keys| => conversations[keys[i]]);  // Object.values
    assert values == Entries(dm, patients, doctorId);
    list := SortBy(values, Recency);
  }

  // ----- Read marking ---------------------------------------------------

  /** The message log after every message from `sender` to `receiver` is
      marked read. */
  function MarkedRead(messages: seq<Message>, sender: string, receiver: string): (r: seq<Message>)
    ensures |r| == |messages|
    ensures forall i :: 0 <= i < |r| && r[i].senderId == sender && r[i].receiverId == receiver ==> r[i].read
    ensures forall i :: 0 <= i < |r| && !(messages[i].senderId == sender && messages[i].receiverId == receiver) ==>
      r[i] == messages[i]
    ensures forall i :: 0 <= i < |r| ==> r[i].(read := messages[i].read) == messages[i]
  {
    seq(|messages|, i requires 0 <= i < |messages| =>
      if messages[i].senderId == sender && messages[i].receiverId == receiver && !messages[i].read
      then messages[i].(read := true) else messages[i])
  }

  /** Marking read twice is marking read once. */
  lemma MarkedReadIdempotent(messages: seq<Message>, sender: string, receiver: string)
    ensures MarkedRead(MarkedRead(messages, sender, receiver), sender, receiver) == MarkedRead(messages, sender, receiver)
  {
  }

  /** Once a patient's messages to a doctor are marked read, none of them
      counts as unread in the doctor's overview. */
  lemma {:induction false} NoUnreadAfterMarking(messages: seq<Message>, pid: string, doctorId: string)
    ensures UnreadCount(MarkedRead(messages, pid, doctorId), pid, doctorId) == 0
  {
    if messages != [] {
      var pre := messages[..|messages| - 1];
      NoUnreadAfterMarking(pre, pid, doctorId);
      assert MarkedRead(messages, pid, doctorId)[..|messages| - 1] == MarkedRead(pre, pid, doctorId);
    }
  }

  /** Once a patient's messages to a doctor are marked read, that patient's
      entry in the doctor's overview shows no unread messages. */
  lemma MarkingClearsOverviewCount(messages: seq<Message>, patients: seq<User>, doctorId: string, pid: string)
    ensures forall c :: c in DoctorConversations(MarkedRead(messages, pid, doctorId), patients, doctorId) ==>
      c.patient.id == pid ==> c.unreadCount == 0
  {
    ConversationContents(MarkedRead(messages, pid, doctorId), patients, doctorId);
    NoUnreadAfterMarking(messages, pid, doctorId);
  }

  // ---------------------------------------------------------------------
  // The mutable backend state

  class Backend {
    var doctors: seq<User>
    var patients: seq<User>
    var allUsers: seq<User>
    var messages: seq<Message>

    constructor (doctors0: seq<User>, patients0: seq<User>, staff: seq<User>, messages0: seq<Message>)
      ensures doctors == doctors0 && patients == patients0 && messages == messages0
      ensures allUsers == doctors0 + patients0 + staff
    {
      doctors, patients, messages := doctors0, patients0, messages0;
      allUsers := doctors0 + patients0 + staff;
    }

    /** Registers a new patient under `id` (the source's `patient-<clock>`),
        or returns None when the username is already in use. */
    method Register(data: RegistrationData, id: string) returns (r: Option<User>)
      modifies this
      ensures UsernameTaken(old(allUsers), data.username) ==>
        r == None && allUsers == old(allUsers) && patients == old(patients)
      ensures !UsernameTaken(old(allUsers), data.username) ==>
        patients == old(patients) + [NewPatient(data, id)] &&
        allUsers == old(allUsers) + [NewPatient(data, id)] &&
        r == Some(NewPatient(data, id).(password := None))
      ensures r.Some? ==> r.value.role == Patient && r.value.profile.assignedDoctorId == DefaultDoctorId
      ensures doctors == old(doctors) && messages == old(messages)
      ensures UsernamesUnique(old(allUsers)) ==> UsernamesUnique(allUsers)
    {
      if UsernameTaken(allUsers, data.username) {
        return None;
      }
      var newPatient := NewPatient(data, id);
      patients := patients + [newPatient];
      allUsers := allUsers + [newPatient];
      r := Some(newPatient.(password := None));
    }

    /** Appends a new unread message; `id` and `now` stand for the id and the
        time the source takes from the clock. */
    method SendMessage(senderId: string, receiverId: string, text: string, id: string, now: int)
      returns (m: Message)
      modifies this
      ensures m == Message(id, senderId, receiverId, text, now, false)
      ensures messages == old(messages) + [m]
      ensures doctors == old(doctors) && patients == old(patients) && allUsers == old(allUsers)
    {
      m := Message(id, senderId, receiverId, text, now, false);
      messages := messages + [m];
    }

    /** Marks every message from `senderId` to `receiverId` read, in place. */
    method MarkMessagesAsRead(senderId: string, receiverId: string)
      modifies this
      ensures messages == MarkedRead(old(messages), senderId, receiverId)
      ensures doctors == old(doctors) && patients == old(patients) && allUsers == old(allUsers)
    {
      ghost var before := messages;
      var i := 0;
      while i < |messages|
        invariant 0 <= i <= |messages| == |before|
        invariant messages[..i] == MarkedRead(before, senderId, receiverId)[..i]
        invariant messages[i..] == before[i..]
        invariant doctors == old(doctors) && patients == old(patients) && allUsers == old(allUsers)
      {
        var m := messages[i];
        if m.senderId == senderId && m.receiverId == receiverId && !m.read {
          messages := messages[i := m.(read := true)];
        }
        i := i + 1;
      }
      assert messages == messages[..i];
    }
  }
}
