/**
 * The application's state provider (App.tsx): the signed-in session, and a
 * cache of the store's six collections that is replaced wholesale after
 * each mutation. The accessors the pages use are pure filters, sorts and
 * lookups over the cached arrays.
 */
module App {
  import opened Types
  import opened Seqs
  import opened Store

  // ---------------------------------------------------------------------
  // Selectors

  function UserIdOf(u: User): string { u.id }
  function DocumentTeam(d: Document): string { d.teamId }
  /** The pair a chat filter compares: team and channel. */
  function MessageScope(m: ChatMessage): (string, string) { (m.teamId, m.channelId) }
  function MessageTime(m: ChatMessage): int { m.timestamp }
  /** Later meetings have a smaller key, so ascending order of this key is
      the newest-first order. */
  function Recency(m: Meeting): int { -m.dateTime }

  // ---------------------------------------------------------------------
  // Accessors

  /** getTeam: the first cached team with that id. */
  function GetTeam(teams: seq<Team>, teamId: string): (r: Option<Team>)
    ensures r.Some? <==> exists i :: 0 <= i < |teams| && teams[i].id == teamId
    ensures r.Some? ==> r.value.id == teamId &&
                        exists i :: 0 <= i < |teams| && teams[i] == r.value &&
                                    forall j :: 0 <= j < i ==> teams[j].id != teamId
  {
    Find(teams, TeamIdOf, teamId)
  }

  /** getUser: the first cached user with that id. */
  function GetUser(users: seq<User>, userId: string): (r: Option<User>)
    ensures r.Some? <==> exists i :: 0 <= i < |users| && users[i].id == userId
    ensures r.Some? ==> r.value.id == userId &&
                        exists i :: 0 <= i < |users| && users[i] == r.value &&
                                    forall j :: 0 <= j < i ==> users[j].id != userId
  {
    Find(users, UserIdOf, userId)
  }

  /** getTeamMeetings: exactly the team's meetings, each as often as it is
      cached, newest first. */
  function GetTeamMeetings(meetings: seq<Meeting>, teamId: string): (r: seq<Meeting>)
    ensures forall m :: multiset(r)[m] == if m.teamId == teamId then multiset(meetings)[m] else 0
    ensures forall i, j :: 0 <= i < j < |r| ==> r[i].dateTime >= r[j].dateTime
  {
    var mine := Where(meetings, MeetingTeam, teamId);
    var r := SortBy(mine, Recency);
    assert forall i, j :: 0 <= i < j < |r| ==> Recency(r[i]) <= Recency(r[j]);
    r
  }

  /** getTeamDocuments: the team's documents in cached order. */
  function GetTeamDocuments(documents: seq<Document>, teamId: string): (r: seq<Document>)
    ensures forall d :: d in r <==> d in documents && d.teamId == teamId
    ensures forall d :: multiset(r)[d] == if d.teamId == teamId then multiset(documents)[d] else 0
  {
    Where(documents, DocumentTeam, teamId)
  }

  /** getTeamFiles: the team's locker items in cached order. */
  function GetTeamFiles(files: seq<FileLockerItem>, teamId: string): (r: seq<FileLockerItem>)
    ensures forall f :: f in r <==> f in files && f.teamId == teamId
    ensures forall f :: multiset(r)[f] == if f.teamId == teamId then multiset(files)[f] else 0
  {
    Where(files, FileTeam, teamId)
  }

  /** getTeamMessages: exactly the messages of that team posted to that
      channel, oldest first. */
  function GetTeamMessages(messages: seq<ChatMessage>, teamId: string, channelId: string): (r: seq<ChatMessage>)
    ensures forall m :: multiset(r)[m] ==
              if m.teamId == teamId && m.channelId == channelId then multiset(messages)[m] else 0
    ensures forall i, j :: 0 <= i < j < |r| ==> r[i].timestamp <= r[j].timestamp
  {
    var r := SortBy(Where(messages, MessageScope, (teamId, channelId)), MessageTime);
    assert forall i, j :: 0 <= i < j < |r| ==> MessageTime(r[i]) <= MessageTime(r[j]);
    r
  }

  /** A team lists the user among its members. */
  predicate HasMember(team: Team, userId: string) {
    exists m :: m in team.members && m.userId == userId
  }

  /** The teams that list the user, in cached order. */
  function TeamsOf(teams: seq<Team>, userId: string): (r: seq<Team>)
    ensures |r| <= |teams|
    ensures forall t :: t in r <==> t in teams && HasMember(t, userId)
    ensures forall t :: multiset(r)[t] == if HasMember(t, userId) then multiset(teams)[t] else 0
  {
    if teams == [] then []
    else
      assert teams == [teams[0]] + teams[1..];
      if HasMember(teams[0], userId) then [teams[0]] + TeamsOf(teams[1..], userId)
      else TeamsOf(teams[1..], userId)
  }

  /** The Sidebar's team list: the signed-in user's teams, none when
      signed out. */
  function UserTeams(currentUser: Option<User>, teams: seq<Team>): (r: seq<Team>)
    ensures currentUser.None? ==> r == []
    ensures currentUser.Some? ==> forall t :: t in r <==> t in teams && HasMember(t, currentUser.value.id)
  {
    match currentUser
    case None => []
    case Some(user) => TeamsOf(teams, user.id)
  }

  // ---------------------------------------------------------------------
  // Properties of the accessors

  /** A document added to the cache is listed last for its team, after the
      team's earlier documents, and other teams' lists do not change. */
  lemma DocumentsAfterAdd(documents: seq<Document>, d: Document, teamId: string)
    ensures GetTeamDocuments(documents + [d], teamId) ==
            GetTeamDocuments(documents, teamId) + (if d.teamId == teamId then [d] else [])
  {
    WhereAppend(documents, [d], DocumentTeam, teamId);
  }

  /** Locker items keep the same order-preserving filter. */
  lemma FilesAfterAdd(files: seq<FileLockerItem>, f: FileLockerItem, teamId: string)
    ensures GetTeamFiles(files + [f], teamId) ==
            GetTeamFiles(files, teamId) + (if f.teamId == teamId then [f] else [])
  {
    WhereAppend(files, [f], FileTeam, teamId);
  }

  /** A direct message is filed under the channel it was sent to only: the
      recipient's channel id is the one compared, so a message from `a` to
      `b` shows when viewing channel `b` and not when viewing channel `a`. */
  lemma DirectMessageOneWay(messages: seq<ChatMessage>, m: ChatMessage, a: string, b: string)
    requires m in messages && m.senderId == a && m.channelId == b && a != b
    ensures m in GetTeamMessages(messages, m.teamId, b)
    ensures m !in GetTeamMessages(messages, m.teamId, a)
  {
    var r := GetTeamMessages(messages, m.teamId, b);
    assert multiset(messages)[m] > 0;
    assert multiset(r)[m] > 0;
  }

  /** After createTeam, the new team is found by its id with its owner as
      its only member, and the owner's Sidebar lists it. */
  lemma CreatedTeamVisible(t: Tables, teamId: string, name: string, owner: User)
    requires KeysHold(t) && TeamIdFree(t, teamId)
    ensures var teams := GetTeams(WithTeam(t, teamId, name, owner.id));
            var team := Team(teamId, name, owner.id, [TeamMember(owner.id, Owner)]);
            GetTeam(teams, teamId) == Some(team) && team in UserTeams(Some(owner), teams)
  {
    var before := GetTeams(t);
    var team := Team(teamId, name, owner.id, [TeamMember(owner.id, Owner)]);
    CreateTeamListsTeam(t, teamId, name, owner.id);
    var teams := before + [team];
    forall i | 0 <= i < |before| ensures TeamIdOf(teams[i]) != teamId {
      assert t.teams[i] in t.teams;
    }
    assert UniqueBy(teams, TeamIdOf);
    FindUnique(teams, TeamIdOf, team);
    assert TeamMember(owner.id, Owner) in team.members;
  }

  // ---------------------------------------------------------------------
  // The provider

  class AppProvider {
    const store: DB
    var isDbReady: bool
    var currentUser: Option<User>
    /** The session as last written to durable storage. */
    var storedUser: Option<User>
    var users: seq<User>
    var teams: seq<Team>
    var meetings: seq<Meeting>
    var documents: seq<Document>
    var files: seq<FileLockerItem>
    var messages: seq<ChatMessage>

    /** The session is always the stored one, and the store is open once
        the provider says it is ready. */
    ghost predicate Valid()
      reads this, store
    {
      store.Valid() && (isDbReady ==> store.isInitialized) && storedUser == currentUser
    }

    /** The cache holds the store's current collections. */
    ghost predicate Synced()
      reads this, store
    {
      && users == GetUsers(store.db)
      && teams == GetTeams(store.db)
      && meetings == store.db.meetings
      && documents == GetDocuments(store.db)
      && files == store.db.files
      && messages == store.db.messages
    }

    /** The session restored from durable storage, an empty cache, and a
        store not yet opened. */
    constructor(store: DB, storedUser: Option<User>)
      requires store.Valid()
      ensures Valid() && !isDbReady && this.store == store
      ensures currentUser == storedUser
      ensures users == [] && teams == [] && meetings == [] && documents == [] && files == [] && messages == []
    {
      this.store := store;
      isDbReady := false;
      currentUser := storedUser;
      this.storedUser := storedUser;
      users, teams, meetings, documents, files := [], [], [], [], [];
      messages := [];
    }

    /** The start-up effect: open the store, fill the cache, then report
        ready; if the store fails to open, nothing after it happens. */
    method Start() returns (ok: bool)
      requires Valid() && !isDbReady
      modifies this, store
      ensures Valid() && currentUser == old(currentUser)
      ensures ok == isDbReady && ok == store.isInitialized
      ensures ok ==> Synced()
      ensures old(store.isInitialized) ==> ok && store.db == old(store.db)
    {
      ok := store.Init();
      if !ok {
        return;
      }
      ReloadData();
      isDbReady := true;
    }

    /** reloadData: every cached array becomes the getter's result. */
    method ReloadData()
      requires Valid() && store.isInitialized
      modifies this`users, this`teams, this`meetings, this`documents, this`files, this`messages
      ensures Valid() && Synced()
    {
      users := GetUsers(store.db);
      teams := GetTeams(store.db);
      meetings := store.db.meetings;
      documents := GetDocuments(store.db);
      files := store.db.files;
      messages := store.db.messages;
    }

    /** login: signs in the matching user; a failed attempt keeps the
        session as it was. */
    method Login(email: string, pass: string) returns (ok: bool)
      requires Valid() && isDbReady
      modifies this`currentUser, this`storedUser
      ensures Valid()
      ensures ok <==> Store.Login(store.db, email, pass).Some?
      ensures ok ==> currentUser == Store.Login(store.db, email, pass)
      ensures !ok ==> currentUser == old(currentUser)
    {
      var user := Store.Login(store.db, email, pass);
      if user.Some? {
        currentUser := user;
        storedUser := currentUser;
        return true;
      }
      ok := false;
    }

    /** logout: no one is signed in. */
    method Logout()
      requires Valid()
      modifies this`currentUser, this`storedUser
      ensures Valid() && currentUser.None?
    {
      currentUser := None;
      storedUser := currentUser;
    }

    /** signup: a rejected signup changes nothing; an accepted one signs the
        new user in. The cache is not reloaded. */
    method Signup(id: string, name: string, email: string, pass: string) returns (ok: bool)
      requires Valid() && isDbReady
      modifies this`currentUser, this`storedUser, store
      ensures Valid() && isDbReady
      ensures ok <==> SignupAccepted(old(store.db), id, email)
      ensures ok ==> store.db == WithUser(old(store.db), UserRow(id, name, email, pass)) &&
                     currentUser == Some(FullUser(UserRow(id, name, email, pass)))
      ensures !ok ==> unchanged(store) && currentUser == old(currentUser)
    {
      ghost var before := store.db;
      var success := store.Signup(id, name, email, pass);
      if !success {
        return false;
      }
      LoginAfterSignup(before, UserRow(id, name, email, pass));
      ok := Login(email, pass);
    }

    /** createTeam: nothing happens when no one is signed in; otherwise the
        signed-in user's team is created and the cache reloaded. */
    method CreateTeam(teamId: string, name: string)
      requires Valid() && isDbReady && TeamIdFree(store.db, teamId)
      modifies this, store
      ensures Valid() && isDbReady && currentUser == old(currentUser)
      ensures old(currentUser).None? ==> unchanged(this) && unchanged(store)
      ensures old(currentUser).Some? ==>
                store.db == WithTeam(old(store.db), teamId, name, old(currentUser).value.id) && Synced()
    {
      if currentUser.None? {
        return;
      }
      store.CreateTeam(teamId, name, currentUser.value);
      ReloadData();
    }

    method AddMeeting(meeting: Meeting)
      requires Valid() && isDbReady && MeetingIdFree(store.db, meeting.id)
      modifies this, store
      ensures Valid() && isDbReady && currentUser == old(currentUser) && Synced()
      ensures store.db == WithMeeting(old(store.db), meeting)
    {
      store.AddMeeting(meeting);
      ReloadData();
    }

    method AddDocument(doc: Document)
      requires Valid() && isDbReady && DocumentIdFree(store.db, doc.id)
      modifies this, store
      ensures Valid() && isDbReady && currentUser == old(currentUser) && Synced()
      ensures store.db == WithDocument(old(store.db), doc)
    {
      store.AddDocument(doc);
      ReloadData();
    }

    method AddFile(file: FileLockerItem)
      requires Valid() && isDbReady && FileIdFree(store.db, file.id)
      modifies this, store
      ensures Valid() && isDbReady && currentUser == old(currentUser) && Synced()
      ensures store.db == WithFile(old(store.db), file)
    {
      store.AddFile(file);
      ReloadData();
    }

    method AddMessage(msg: ChatMessage)
      requires Valid() && isDbReady && MessageIdFree(store.db, msg.id)
      modifies this, store
      ensures Valid() && isDbReady && currentUser == old(currentUser) && Synced()
      ensures store.db == WithMessage(old(store.db), msg)
    {
      store.AddMessage(msg);
      ReloadData();
    }

    method UpdateUserRole(teamId: string, userId: string, role: Role)
      requires Valid() && isDbReady
      modifies this, store
      ensures Valid() && isDbReady && currentUser == old(currentUser) && Synced()
      ensures store.db == WithRole(old(store.db), teamId, userId, role)
    {
      store.UpdateUserRole(teamId, userId, role);
      ReloadData();
    }

    /** addTeamMember: the store's answer is passed on; the cache is
        reloaded only when the member was added. */
    method AddTeamMember(teamId: string, email: string) returns (result: AddMemberResult)
      requires Valid() && isDbReady
      modifies this, store
      ensures Valid() && isDbReady && currentUser == old(currentUser)
      ensures result == AddMemberOutcome(old(store.db), teamId, email)
      ensures result.success ==>
                store.db == WithMember(old(store.db), teamId, GetUserByEmail(old(store.db), email).value.id) &&
                Synced()
      ensures !result.success ==> unchanged(this) && unchanged(store)
    {
      result := store.AddTeamMember(teamId, email);
      if result.success {
        ReloadData();
      }
    }

    method RemoveTeamMember(teamId: string, userId: string)
      requires Valid() && isDbReady
      modifies this, store
      ensures Valid() && isDbReady && currentUser == old(currentUser) && Synced()
      ensures store.db == WithoutMember(old(store.db), teamId, userId)
    {
      store.RemoveTeamMember(teamId, userId);
      ReloadData();
    }

    method DeleteTeam(teamId: string)
      requires Valid() && isDbReady
      modifies this, store
      ensures Valid() && isDbReady && currentUser == old(currentUser) && Synced()
      ensures store.db == Cascade(old(store.db), teamId, |CascadeTables|)
    {
      store.DeleteTeam(teamId);
      ReloadData();
    }
  }

  /** The Sidebar's new-team prompt: a cancelled or empty answer creates
      nothing. */
  method SidebarCreateTeam(app: AppProvider, answer: Option<string>, teamId: string)
    requires app.Valid() && app.isDbReady && TeamIdFree(app.store.db, teamId)
    modifies app, app.store
    ensures app.Valid() && app.isDbReady && app.currentUser == old(app.currentUser)
    ensures (answer.None? || answer == Some("") || old(app.currentUser).None?) ==>
              unchanged(app) && unchanged(app.store)
    ensures answer.Some? && answer != Some("") && old(app.currentUser).Some? ==>
              app.store.db == WithTeam(old(app.store.db), teamId, answer.value, old(app.currentUser).value.id) &&
              app.Synced()
  {
    if answer.Some? && answer.value != "" {
      app.CreateTeam(teamId, answer.value);
    }
  }
}
