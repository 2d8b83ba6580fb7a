/**
 * The client-side relational store (services/db.ts). The SQL engine is
 * replaced by its tables: seven sequences of rows in insertion order, with
 * the keys the schema declares. Queries are functions of the tables; the
 * `DB` object holds the live tables, the initialisation flag and the
 * base64 text it last wrote to durable storage, and its mutations rewrite
 * the tables and then save.
 */
module Store {
  import opened Types
  import opened Seqs
  import Base64

  type uint8 = Base64.uint8

  // ---------------------------------------------------------------------
  // Schema

  /** A `users` row; the table's own password column is always present. */
  datatype UserRow = UserRow(id: string, name: string, email: string, password: string)

  datatype TeamRow = TeamRow(id: string, name: string, ownerId: string)

  datatype MemberRow = MemberRow(teamId: string, userId: string, role: Role)

  /** A `documents` row: the protection flag is the INTEGER 1 or 0. */
  datatype DocumentRow = DocumentRow(id: string, teamId: string, name: string, content: string,
                                     passwordProtected: int, password: Option<string>,
                                     createdBy: string)

  datatype Tables = Tables(users: seq<UserRow>, teams: seq<TeamRow>, members: seq<MemberRow>,
                           meetings: seq<Meeting>, documents: seq<DocumentRow>,
                           files: seq<FileLockerItem>, messages: seq<ChatMessage>)

  const EmptyTables: Tables := Tables([], [], [], [], [], [], [])

  // Columns, as selectors for the keys and the WHERE clauses.
  function UserId(r: UserRow): string { r.id }
  function UserEmail(r: UserRow): string { r.email }
  function UserCredentials(r: UserRow): (string, string) { (r.email, r.password) }
  function TeamRowId(r: TeamRow): string { r.id }
  function MemberKey(r: MemberRow): (string, string) { (r.teamId, r.userId) }
  function MemberTeam(r: MemberRow): string { r.teamId }
  function MeetingId(m: Meeting): string { m.id }
  function MeetingTeam(m: Meeting): string { m.teamId }
  function DocumentRowId(r: DocumentRow): string { r.id }
  function DocumentRowTeam(r: DocumentRow): string { r.teamId }
  function FileId(f: FileLockerItem): string { f.id }
  function FileTeam(f: FileLockerItem): string { f.teamId }
  function MessageId(m: ChatMessage): string { m.id }
  function MessageTeam(m: ChatMessage): string { m.teamId }

  /** The schema's key constraints: `id` is the primary key of every table
      but team_members, `email` is UNIQUE on users, and team_members is keyed
      by (teamId, userId). */
  ghost predicate KeysHold(t: Tables) {
    && UniqueBy(t.users, UserId) && UniqueBy(t.users, UserEmail)
    && UniqueBy(t.teams, TeamRowId)
    && UniqueBy(t.members, MemberKey)
    && UniqueBy(t.meetings, MeetingId)
    && UniqueBy(t.documents, DocumentRowId)
    && UniqueBy(t.files, FileId)
    && UniqueBy(t.messages, MessageId)
  }

  // ---------------------------------------------------------------------
  // Result sets

  /** A value of a result cell. */
  datatype SqlValue = Null | Integer(int) | Text(string)

  /** One statement's result: the column names and one row of values each. */
  datatype ResultSet = ResultSet(columns: seq<string>, values: seq<seq<SqlValue>>)

  /** A row turned into an object: each property holds a cell, or is
      present but undefined (None) when the row has no cell at that index. */
  type RowObject = map<string, Option<SqlValue>>

  function Cell(row: seq<SqlValue>, i: nat): Option<SqlValue> {
    if i < |row| then Some(row[i]) else None
  }

  /** The position of the last column named `c`. */
  function LastIndexOf(columns: seq<string>, c: string): (i: nat)
    requires c in columns
    ensures i < |columns| && columns[i] == c
    ensures forall j :: i < j < |columns| ==> columns[j] != c
  {
    var n := |columns| - 1;
    if columns[n] == c then n
    else
      assert columns == columns[..n] + [columns[n]];
      LastIndexOf(columns[..n], c)
  }

  /** Assigns `obj[columns[i]] = row[i]` for each column in order, so the
      last of several equal column names decides the property. */
  function ParseRow(columns: seq<string>, row: seq<SqlValue>): (r: RowObject)
    ensures r.Keys == set c | c in columns
    ensures forall c :: c in columns ==> r[c] == Cell(row, LastIndexOf(columns, c))
    decreases |columns|
  {
    if columns == [] then map[]
    else
      var n := |columns| - 1;
      assert columns == columns[..n] + [columns[n]];
      ParseRow(columns[..n], row)[columns[n] := Cell(row, n)]
  }

  /** parseResults: the rows of the first result set as objects; no
      result set gives no rows. */
  function ParseResults(results: seq<ResultSet>): (r: seq<RowObject>)
    ensures results == [] ==> r == []
    ensures results != [] ==> |r| == |results[0].values|
    ensures results != [] ==>
              forall k :: 0 <= k < |r| ==> r[k].Keys == set c | c in results[0].columns
    ensures results != [] ==>
              forall k, c :: 0 <= k < |r| && c in results[0].columns ==>
                r[k][c] == Cell(results[0].values[k], LastIndexOf(results[0].columns, c))
  {
    if results == [] then []
    else
      var rs := results[0];
      seq(|rs.values|, k requires 0 <= k < |rs.values| => ParseRow(rs.columns, rs.values[k]))
  }

  // ---------------------------------------------------------------------
  // Queries

  /** The user a row describes, with every column selected. */
  function FullUser(r: UserRow): User {
    User(r.id, r.name, r.email, Some(r.password))
  }

  /** The user a row describes through `SELECT id, name, email`. */
  function PublicUser(r: UserRow): User {
    User(r.id, r.name, r.email, None)
  }

  /** getUsers: every row, in table order, without its password. */
  function GetUsers(t: Tables): (r: seq<User>)
    ensures |r| == |t.users|
    ensures forall i :: 0 <= i < |r| ==>
              r[i].id == t.users[i].id && r[i].name == t.users[i].name &&
              r[i].email == t.users[i].email
    ensures forall u :: u in r ==> u.password.None?
  {
    seq(|t.users|, i requires 0 <= i < |t.users| => PublicUser(t.users[i]))
  }

  /** login: the first row with exactly this email and exactly this
      password, all columns included; none when there is no such row. */
  function Login(t: Tables, email: string, pass: string): (r: Option<User>)
    ensures r.Some? <==> exists i :: 0 <= i < |t.users| &&
                                     t.users[i].email == email && t.users[i].password == pass
    ensures r.Some? ==> exists i :: 0 <= i < |t.users| && t.users[i].email == email &&
                                    t.users[i].password == pass && r.value == FullUser(t.users[i])
  {
    match Find(t.users, UserCredentials, (email, pass))
    case None => None
    case Some(row) => Some(FullUser(row))
  }

  /** getUserByEmail: the row with that email, without its password. */
  function GetUserByEmail(t: Tables, email: string): (r: Option<User>)
    ensures r.Some? <==> exists i :: 0 <= i < |t.users| && t.users[i].email == email
    ensures r.Some? ==> exists i :: 0 <= i < |t.users| && t.users[i].email == email &&
                                    r.value == PublicUser(t.users[i])
  {
    match Find(t.users, UserEmail, email)
    case None => None
    case Some(row) => Some(PublicUser(row))
  }

  /** The membership rows of one team, without their team id, in table
      order. */
  function MembersOf(rows: seq<MemberRow>, teamId: string): (r: seq<TeamMember>)
    ensures forall m :: m in r <==> MemberRow(teamId, m.userId, m.role) in rows
    ensures (forall x :: x in rows ==> x.teamId != teamId) ==> r == []
  {
    if rows == [] then []
    else
      var rest := MembersOf(rows[1..], teamId);
      assert forall x :: x in rows <==> x == rows[0] || x in rows[1..];
      if rows[0].teamId == teamId then [TeamMember(rows[0].userId, rows[0].role)] + rest
      else rest
  }

  /** getTeams: every team row, in table order, joined with its members. */
  function GetTeams(t: Tables): (r: seq<Team>)
    ensures |r| == |t.teams|
    ensures forall i :: 0 <= i < |r| ==>
              r[i].id == t.teams[i].id && r[i].name == t.teams[i].name &&
              r[i].ownerId == t.teams[i].ownerId
    ensures forall i, m :: 0 <= i < |r| ==>
              (m in r[i].members <==> MemberRow(r[i].id, m.userId, m.role) in t.members)
  {
    seq(|t.teams|, i requires 0 <= i < |t.teams| =>
          Team(t.teams[i].id, t.teams[i].name, t.teams[i].ownerId,
               MembersOf(t.members, t.teams[i].id)))
  }

  /** The document a row describes: the flag reads as true exactly when
      the stored integer is 1. */
  function AsDocument(r: DocumentRow): Document {
    Document(r.id, r.teamId, r.name, r.content, r.passwordProtected == 1, r.password, r.createdBy)
  }

  /** The row addDocument writes: the flag is stored as 1 or 0. */
  function AsDocumentRow(d: Document): (r: DocumentRow)
    ensures r.passwordProtected == 0 || r.passwordProtected == 1
  {
    DocumentRow(d.id, d.teamId, d.name, d.content, if d.passwordProtected then 1 else 0,
                d.password, d.createdBy)
  }

  /** Reading a stored document gives back the document that was stored. */
  lemma DocumentFlagRoundTrip(d: Document)
    ensures AsDocument(AsDocumentRow(d)) == d
  {
  }

  /** getDocuments: every row, in table order, with its flag booleanised. */
  function GetDocuments(t: Tables): (r: seq<Document>)
    ensures |r| == |t.documents|
    ensures forall i :: 0 <= i < |r| ==>
              r[i].id == t.documents[i].id && r[i].content == t.documents[i].content &&
              (r[i].passwordProtected <==> t.documents[i].passwordProtected == 1)
  {
    seq(|t.documents|, i requires 0 <= i < |t.documents| => AsDocument(t.documents[i]))
  }

  // ---------------------------------------------------------------------
  // The tables after each mutation

  /** signup's insert is accepted unless the generated id or the email is
      already in the table (primary key or UNIQUE violation). */
  predicate SignupAccepted(t: Tables, id: string, email: string) {
    Find(t.users, UserId, id).None? && Find(t.users, UserEmail, email).None?
  }

  function WithUser(t: Tables, row: UserRow): (r: Tables)
    requires KeysHold(t) && SignupAccepted(t, row.id, row.email)
    ensures KeysHold(r)
    ensures r.users == t.users + [row]
    ensures r.(users := t.users) == t
  {
    AppendKeepsUnique(t.users, row, UserId);
    AppendKeepsUnique(t.users, row, UserEmail);
    t.(users := t.users + [row])
  }

  /** A generated team id that no team and no membership row uses. */
  ghost predicate TeamIdFree(t: Tables, teamId: string) {
    (forall r :: r in t.teams ==> r.id != teamId) &&
    (forall m :: m in t.members ==> m.teamId != teamId)
  }

  /** createTeam: the team row and its owner's membership row. */
  function WithTeam(t: Tables, teamId: string, name: string, ownerId: string): (r: Tables)
    requires KeysHold(t) && TeamIdFree(t, teamId)
    ensures KeysHold(r)
    ensures r.teams == t.teams + [TeamRow(teamId, name, ownerId)]
    ensures r.members == t.members + [MemberRow(teamId, ownerId, Owner)]
    ensures r.(teams := t.teams, members := t.members) == t
  {
    var m := MemberRow(teamId, ownerId, Owner);
    AppendKeepsUnique(t.teams, TeamRow(teamId, name, ownerId), TeamRowId);
    AppendKeepsUnique(t.members, m, MemberKey);
    t.(teams := t.teams + [TeamRow(teamId, name, ownerId)], members := t.members + [m])
  }

  /** addTeamMember's insert, with the role `member`. */
  function WithMember(t: Tables, teamId: string, userId: string): (r: Tables)
    requires KeysHold(t) && Find(t.members, MemberKey, (teamId, userId)).None?
    ensures KeysHold(r)
    ensures r.members == t.members + [MemberRow(teamId, userId, Member)]
    ensures r.(members := t.members) == t
  {
    AppendKeepsUnique(t.members, MemberRow(teamId, userId, Member), MemberKey);
    t.(members := t.members + [MemberRow(teamId, userId, Member)])
  }

  /** removeTeamMember: `DELETE FROM team_members WHERE teamId = ? AND userId = ?`. */
  function WithoutMember(t: Tables, teamId: string, userId: string): (r: Tables)
    requires KeysHold(t)
    ensures KeysHold(r)
    ensures forall m :: m in r.members <==> m in t.members && (m.teamId, m.userId) != (teamId, userId)
    ensures r.(members := t.members) == t
  {
    ExceptKeepsUnique(t.members, MemberKey, (teamId, userId), MemberKey);
    t.(members := Except(t.members, MemberKey, (teamId, userId)))
  }

  /** updateUserRole: `UPDATE team_members SET role = ? WHERE teamId = ? AND userId = ?`. */
  function SetRole(rows: seq<MemberRow>, teamId: string, userId: string, role: Role): (r: seq<MemberRow>)
    ensures |r| == |rows|
    ensures forall i :: 0 <= i < |r| ==> MemberKey(r[i]) == MemberKey(rows[i])
    ensures forall i :: 0 <= i < |r| ==>
              r[i] == if MemberKey(rows[i]) == (teamId, userId) then rows[i].(role := role) else rows[i]
  {
    seq(|rows|, i requires 0 <= i < |rows| =>
          if MemberKey(rows[i]) == (teamId, userId) then rows[i].(role := role) else rows[i])
  }

  function WithRole(t: Tables, teamId: string, userId: string, role: Role): (r: Tables)
    requires KeysHold(t)
    ensures KeysHold(r)
    ensures r.members == SetRole(t.members, teamId, userId, role)
    ensures r.(members := t.members) == t
  {
    var rows := SetRole(t.members, teamId, userId, role);
    assert forall i, j :: 0 <= i < j < |rows| ==> MemberKey(rows[i]) != MemberKey(rows[j]) by {
      forall i, j | 0 <= i < j < |rows| ensures MemberKey(rows[i]) != MemberKey(rows[j]) {
        assert MemberKey(t.members[i]) != MemberKey(t.members[j]);
      }
    }
    t.(members := rows)
  }

  /** Some row of `rows` has the membership key `k`. */
  ghost predicate HasMemberKey(rows: seq<MemberRow>, k: (string, string)) {
    exists m :: m in rows && MemberKey(m) == k
  }

  /** After updateUserRole the member holds the new role, and no
      membership appears or disappears. */
  lemma RoleUpdated(t: Tables, teamId: string, userId: string, role: Role)
    requires KeysHold(t)
    ensures var r := WithRole(t, teamId, userId, role);
      && (forall m :: m in r.members && MemberKey(m) == (teamId, userId) ==> m.role == role)
      && (forall m :: m in t.members && MemberKey(m) == (teamId, userId) ==> m.(role := role) in r.members)
      && (forall k :: HasMemberKey(r.members, k) <==> HasMemberKey(t.members, k))
  {
    var r := WithRole(t, teamId, userId, role);
    forall m | m in t.members && MemberKey(m) == (teamId, userId)
      ensures m.(role := role) in r.members
    {
      var i :| 0 <= i < |t.members| && t.members[i] == m;
      assert r.members[i] == m.(role := role);
    }
    forall k | HasMemberKey(t.members, k)
      ensures HasMemberKey(r.members, k)
    {
      var m :| m in t.members && MemberKey(m) == k;
      var i :| 0 <= i < |t.members| && t.members[i] == m;
      assert MemberKey(r.members[i]) == k;
    }
  }

  lemma {:induction false} MembersOfAppend(rows: seq<MemberRow>, m: MemberRow, teamId: string)
    ensures MembersOf(rows + [m], teamId) ==
            MembersOf(rows, teamId) + (if m.teamId == teamId then [TeamMember(m.userId, m.role)] else [])
  {
    if rows == [] {
      assert rows + [m] == [m];
    } else {
      assert (rows + [m])[1..] == rows[1..] + [m];
      MembersOfAppend(rows[1..], m, teamId);
    }
  }

  /** After createTeam, getTeams lists the earlier teams unchanged, then the
      new team with its owner as its only member. */
  lemma CreateTeamListsTeam(t: Tables, teamId: string, name: string, ownerId: string)
    requires KeysHold(t) && TeamIdFree(t, teamId)
    ensures GetTeams(WithTeam(t, teamId, name, ownerId)) ==
            GetTeams(t) + [Team(teamId, name, ownerId, [TeamMember(ownerId, Owner)])]
  {
    var r := WithTeam(t, teamId, name, ownerId);
    var m := MemberRow(teamId, ownerId, Owner);
    var before, after := GetTeams(t), GetTeams(r);
    forall i | 0 <= i < |t.teams| ensures after[i] == before[i] {
      assert r.teams[i] == t.teams[i] && t.teams[i] in t.teams;
      MembersOfAppend(t.members, m, t.teams[i].id);
    }
    MembersOfAppend(t.members, m, teamId);
    assert r.teams[|t.teams|] == TeamRow(teamId, name, ownerId);
    assert after[|t.teams|] == Team(teamId, name, ownerId, [TeamMember(ownerId, Owner)]);
    assert after == before + [after[|t.teams|]];
  }

  /** A user just signed up can log in with the same email and password,
      and gets back exactly the row written. */
  lemma LoginAfterSignup(t: Tables, row: UserRow)
    requires KeysHold(t) && SignupAccepted(t, row.id, row.email)
    ensures Login(WithUser(t, row), row.email, row.password) == Some(FullUser(row))
  {
    var users := WithUser(t, row).users;
    UniqueByRefines(users, UserEmail, UserCredentials);
    assert row in users;
    FindUnique(users, UserCredentials, row);
  }

  /** A document written by addDocument reads back unchanged, after every
      document written before it. */
  lemma AddDocumentThenGet(t: Tables, d: Document)
    requires KeysHold(t) && DocumentIdFree(t, d.id)
    ensures GetDocuments(WithDocument(t, d)) == GetDocuments(t) + [d]
  {
    DocumentFlagRoundTrip(d);
  }

  /** removeTeamMember with a key no row has changes nothing. */
  lemma RemoveAbsentMember(t: Tables, teamId: string, userId: string)
    requires KeysHold(t)
    requires forall m :: m in t.members ==> MemberKey(m) != (teamId, userId)
    ensures WithoutMember(t, teamId, userId) == t
  {
    ExceptNothing(t.members, MemberKey, (teamId, userId));
  }

  /** updateUserRole with a key no row has changes nothing. */
  lemma SetRoleAbsent(t: Tables, teamId: string, userId: string, role: Role)
    requires KeysHold(t)
    requires forall m :: m in t.members ==> MemberKey(m) != (teamId, userId)
    ensures WithRole(t, teamId, userId, role) == t
  {
    var r := WithRole(t, teamId, userId, role);
    forall i | 0 <= i < |t.members| ensures r.members[i] == t.members[i] {
      assert t.members[i] in t.members;
    }
  }

  ghost predicate MeetingIdFree(t: Tables, id: string) { forall m :: m in t.meetings ==> m.id != id }
  ghost predicate DocumentIdFree(t: Tables, id: string) { forall d :: d in t.documents ==> d.id != id }
  ghost predicate FileIdFree(t: Tables, id: string) { forall f :: f in t.files ==> f.id != id }
  ghost predicate MessageIdFree(t: Tables, id: string) { forall m :: m in t.messages ==> m.id != id }

  function WithMeeting(t: Tables, m: Meeting): (r: Tables)
    requires KeysHold(t) && MeetingIdFree(t, m.id)
    ensures KeysHold(r)
    ensures r.meetings == t.meetings + [m]
    ensures r.(meetings := t.meetings) == t
  {
    AppendKeepsUnique(t.meetings, m, MeetingId);
    t.(meetings := t.meetings + [m])
  }

  function WithDocument(t: Tables, d: Document): (r: Tables)
    requires KeysHold(t) && DocumentIdFree(t, d.id)
    ensures KeysHold(r)
    ensures r.documents == t.documents + [AsDocumentRow(d)]
    ensures r.(documents := t.documents) == t
  {
    AppendKeepsUnique(t.documents, AsDocumentRow(d), DocumentRowId);
    t.(documents := t.documents + [AsDocumentRow(d)])
  }

  function WithFile(t: Tables, f: FileLockerItem): (r: Tables)
    requires KeysHold(t) && FileIdFree(t, f.id)
    ensures KeysHold(r)
    ensures r.files == t.files + [f]
    ensures r.(files := t.files) == t
  {
    AppendKeepsUnique(t.files, f, FileId);
    t.(files := t.files + [f])
  }

  function WithMessage(t: Tables, m: ChatMessage): (r: Tables)
    requires KeysHold(t) && MessageIdFree(t, m.id)
    ensures KeysHold(r)
    ensures r.messages == t.messages + [m]
    ensures r.(messages := t.messages) == t
  {
    AppendKeepsUnique(t.messages, m, MessageId);
    t.(messages := t.messages + [m])
  }

  // ---------------------------------------------------------------------
  // deleteTeam's cascade: one `DELETE FROM <table> WHERE <column> = ?` per
  // entry of its two parallel lists.

  datatype Table = UsersTable | TeamsTable | MembersTable | MeetingsTable
                 | DocumentsTable | FilesTable | MessagesTable

  datatype Column = IdColumn | TeamIdColumn

  predicate HasColumn(table: Table, column: Column) {
    match column
    case IdColumn => table != MembersTable
    case TeamIdColumn => table != UsersTable && table != TeamsTable
  }

  const CascadeTables: seq<Table> :=
    [TeamsTable, MembersTable, MeetingsTable, DocumentsTable, FilesTable, MessagesTable]

  const CascadeColumns: seq<Column> :=
    [IdColumn, TeamIdColumn, TeamIdColumn, TeamIdColumn, TeamIdColumn, TeamIdColumn]

  /** `DELETE FROM table WHERE column = v`. */
  function DeleteWhere(t: Tables, table: Table, column: Column, v: string): Tables
    requires HasColumn(table, column)
  {
    match table
    case UsersTable => t.(users := Except(t.users, UserId, v))
    case TeamsTable => t.(teams := Except(t.teams, TeamRowId, v))
    case MembersTable => t.(members := Except(t.members, MemberTeam, v))
    case MeetingsTable =>
      if column == IdColumn then t.(meetings := Except(t.meetings, MeetingId, v)) else t.(meetings := Except(t.meetings, MeetingTeam, v))
    case DocumentsTable =>
      if column == IdColumn then t.(documents := Except(t.documents, DocumentRowId, v)) else t.(documents := Except(t.documents, DocumentRowTeam, v))
    case FilesTable =>
      if column == IdColumn then t.(files := Except(t.files, FileId, v)) else t.(files := Except(t.files, FileTeam, v))
    case MessagesTable =>
      if column == IdColumn then t.(messages := Except(t.messages, MessageId, v)) else t.(messages := Except(t.messages, MessageTeam, v))
  }

  /** A delete leaves every other table untouched. */
  lemma DeleteWhereFrame(t: Tables, table: Table, column: Column, v: string)
    requires HasColumn(table, column)
    ensures var r := DeleteWhere(t, table, column, v);
      && (table != UsersTable ==> r.users == t.users)
      && (table != TeamsTable ==> r.teams == t.teams)
      && (table != MembersTable ==> r.members == t.members)
      && (table != MeetingsTable ==> r.meetings == t.meetings)
      && (table != DocumentsTable ==> r.documents == t.documents)
      && (table != FilesTable ==> r.files == t.files)
      && (table != MessagesTable ==> r.messages == t.messages)
  {
  }

  /** The tables after the first `n` deletes of the cascade. */
  function Cascade(t: Tables, teamId: string, n: nat): Tables
    requires n <= |CascadeTables|
  {
    if n == 0 then t
    else DeleteWhere(Cascade(t, teamId, n - 1), CascadeTables[n - 1], CascadeColumns[n - 1], teamId)
  }

  /** The cascade, written out: one filter per table it names. */
  function CascadeResult(t: Tables, teamId: string): Tables {
    t.(teams := Except(t.teams, TeamRowId, teamId),
       members := Except(t.members, MemberTeam, teamId),
       meetings := Except(t.meetings, MeetingTeam, teamId),
       documents := Except(t.documents, DocumentRowTeam, teamId),
       files := Except(t.files, FileTeam, teamId),
       messages := Except(t.messages, MessageTeam, teamId))
  }

  /** Every table of the cascade has the column it is filtered on. */
  lemma CascadeColumnExists(i: nat)
    requires i < |CascadeTables|
    ensures HasColumn(CascadeTables[i], CascadeColumns[i])
  {
  }

  /** One more delete of the cascade. */
  lemma CascadeUnfold(t: Tables, teamId: string, n: nat)
    requires 0 < n <= |CascadeTables|
    requires HasColumn(CascadeTables[n - 1], CascadeColumns[n - 1])
    ensures Cascade(t, teamId, n) ==
            DeleteWhere(Cascade(t, teamId, n - 1), CascadeTables[n - 1], CascadeColumns[n - 1], teamId)
  {
  }

  /** The six deletes of the cascade, table by table. */
  lemma CascadeSteps(t: Tables, teamId: string)
    ensures Cascade(t, teamId, 1) == DeleteWhere(t, TeamsTable, IdColumn, teamId)
    ensures Cascade(t, teamId, 2) == DeleteWhere(Cascade(t, teamId, 1), MembersTable, TeamIdColumn, teamId)
    ensures Cascade(t, teamId, 3) == DeleteWhere(Cascade(t, teamId, 2), MeetingsTable, TeamIdColumn, teamId)
    ensures Cascade(t, teamId, 4) == DeleteWhere(Cascade(t, teamId, 3), DocumentsTable, TeamIdColumn, teamId)
    ensures Cascade(t, teamId, 5) == DeleteWhere(Cascade(t, teamId, 4), FilesTable, TeamIdColumn, teamId)
    ensures Cascade(t, teamId, 6) == DeleteWhere(Cascade(t, teamId, 5), MessagesTable, TeamIdColumn, teamId)
  {
    CascadeUnfold(t, teamId, 1);
    CascadeUnfold(t, teamId, 2);
    CascadeUnfold(t, teamId, 3);
    CascadeUnfold(t, teamId, 4);
    CascadeUnfold(t, teamId, 5);
    CascadeUnfold(t, teamId, 6);
  }

  // Each delete of the cascade, on the table it names.

  lemma DeleteTeamRow(c: Tables, teamId: string)
    ensures DeleteWhere(c, TeamsTable, IdColumn, teamId) == c.(teams := Except(c.teams, TeamRowId, teamId))
  {
  }

  lemma DeleteTeamMembers(c: Tables, teamId: string)
    ensures DeleteWhere(c, MembersTable, TeamIdColumn, teamId) == c.(members := Except(c.members, MemberTeam, teamId))
  {
  }

  lemma DeleteTeamMeetings(c: Tables, teamId: string)
    ensures DeleteWhere(c, MeetingsTable, TeamIdColumn, teamId) == c.(meetings := Except(c.meetings, MeetingTeam, teamId))
  {
  }

  lemma DeleteTeamDocuments(c: Tables, teamId: string)
    ensures DeleteWhere(c, DocumentsTable, TeamIdColumn, teamId) == c.(documents := Except(c.documents, DocumentRowTeam, teamId))
  {
  }

  lemma DeleteTeamFiles(c: Tables, teamId: string)
    ensures DeleteWhere(c, FilesTable, TeamIdColumn, teamId) == c.(files := Except(c.files, FileTeam, teamId))
  {
  }

  lemma DeleteTeamMessages(c: Tables, teamId: string)
    ensures DeleteWhere(c, MessagesTable, TeamIdColumn, teamId) == c.(messages := Except(c.messages, MessageTeam, teamId))
  {
  }

  /** The first three deletes: the team row, its memberships and its
      meetings. */
  lemma CascadeFirstThree(t: Tables, teamId: string)
    ensures Cascade(t, teamId, 3) ==
            t.(teams := Except(t.teams, TeamRowId, teamId),
               members := Except(t.members, MemberTeam, teamId),
               meetings := Except(t.meetings, MeetingTeam, teamId))
  {
    CascadeSteps(t, teamId);
    var c1 := Cascade(t, teamId, 1);
    var c2 := Cascade(t, teamId, 2);
    DeleteTeamRow(t, teamId);
    assert c1 == t.(teams := Except(t.teams, TeamRowId, teamId));
    DeleteTeamMembers(c1, teamId);
    assert c2 == c1.(members := Except(t.members, MemberTeam, teamId));
    DeleteTeamMeetings(c2, teamId);
  }

  lemma CascadeIsResult(t: Tables, teamId: string)
    ensures Cascade(t, teamId, |CascadeTables|) == CascadeResult(t, teamId)
  {
    CascadeSteps(t, teamId);
    CascadeFirstThree(t, teamId);
    var c3 := Cascade(t, teamId, 3);
    var c4 := Cascade(t, teamId, 4);
    var c5 := Cascade(t, teamId, 5);
    DeleteTeamDocuments(c3, teamId);
    assert c4 == c3.(documents := Except(t.documents, DocumentRowTeam, teamId));
    DeleteTeamFiles(c4, teamId);
    assert c5 == c4.(files := Except(t.files, FileTeam, teamId));
    DeleteTeamMessages(c5, teamId);
  }

  /** Deleting a team's rows never breaks a key. */
  lemma CascadeKeepsKeys(t: Tables, teamId: string)
    requires KeysHold(t)
    ensures KeysHold(Cascade(t, teamId, |CascadeTables|))
  {
    CascadeIsResult(t, teamId);
    ExceptKeepsUnique(t.teams, TeamRowId, teamId, TeamRowId);
    ExceptKeepsUnique(t.members, MemberTeam, teamId, MemberKey);
    ExceptKeepsUnique(t.meetings, MeetingTeam, teamId, MeetingId);
    ExceptKeepsUnique(t.documents, DocumentRowTeam, teamId, DocumentRowId);
    ExceptKeepsUnique(t.files, FileTeam, teamId, FileId);
    ExceptKeepsUnique(t.messages, MessageTeam, teamId, MessageId);
  }

  /** After the whole cascade, no teams row has the team's id and no row of
      the five dependent tables has it as its teamId; users are untouched
      and every row that belongs to another team is still there. */
  lemma CascadeComplete(t: Tables, teamId: string)
    ensures var r := Cascade(t, teamId, |CascadeTables|);
      && r.users == t.users
      && (forall x :: x in r.teams <==> x in t.teams && x.id != teamId)
      && (forall x :: x in r.members <==> x in t.members && x.teamId != teamId)
      && (forall x :: x in r.meetings <==> x in t.meetings && x.teamId != teamId)
      && (forall x :: x in r.documents <==> x in t.documents && x.teamId != teamId)
      && (forall x :: x in r.files <==> x in t.files && x.teamId != teamId)
      && (forall x :: x in r.messages <==> x in t.messages && x.teamId != teamId)
  {
    CascadeIsResult(t, teamId);
  }

  // ---------------------------------------------------------------------
  // Persistence

  /** The SQL engine's two entry points the store relies on: `export()` of
      the live database to a byte image, and `new Database(bytes)`, which
      fails on an image it cannot read. */
  datatype Engine = Engine(exportImage: Tables -> seq<uint8>, openImage: seq<uint8> -> Option<Tables>)
  {
    /** An image carries the schema, so whatever loads satisfies its keys. */
    ghost predicate KeepsKeys() {
      forall b :: openImage(b).Some? ==> KeysHold(openImage(b).value)
    }

    /** Loading an exported image gives the same tables back; an image is
        never empty. */
    ghost predicate RoundTrips() {
      forall t :: KeysHold(t) ==> exportImage(t) != [] && openImage(exportImage(t)) == Some(t)
    }
  }

  /** What init makes of a stored text: decode it, then load the image. */
  function Restore(e: Engine, stored: string): Option<Tables> {
    match Base64.Decode(stored)
    case None => None
    case Some(image) => e.openImage(image)
  }

  /** What save leaves in storage for some tables, read back by a later
      init, gives those tables: the store survives a reload. */
  lemma SaveThenRestore(e: Engine, t: Tables)
    requires e.RoundTrips() && KeysHold(t)
    ensures Base64.Encode(e.exportImage(t)) != ""
    ensures Restore(e, Base64.Encode(e.exportImage(t))) == Some(t)
  {
    Base64.DecodeEncode(e.exportImage(t));
  }

  /** The message addTeamMember returns with each outcome. */
  datatype AddMemberResult = AddMemberResult(success: bool, message: string)

  const UserNotFound: string := "Usuário não encontrado."
  const AlreadyMember: string := "Usuário já é membro deste time."
  const MemberAdded: string := "Membro adicionado com sucesso!"
  const AddMemberFailed: string := "Ocorreu um erro ao adicionar o membro."

  /** Whether the team, if its row exists, already lists the user: the
      check addTeamMember makes before inserting. */
  predicate ListedMember(t: Tables, teamId: string, userId: string) {
    match Find(GetTeams(t), TeamIdOf, teamId)
    case None => false
    case Some(team) => exists m :: m in team.members && m.userId == userId
  }

  function TeamIdOf(t: Team): string { t.id }

  /** When the team exists, its listing and the membership key agree, so
      the insert can fail only for rows left under a team id with no team. */
  lemma ListedMemberMatchesKey(t: Tables, teamId: string, userId: string)
    requires Find(t.teams, TeamRowId, teamId).Some?
    ensures ListedMember(t, teamId, userId) <==> HasMemberKey(t.members, (teamId, userId))
  {
    var teams := GetTeams(t);
    var i :| 0 <= i < |t.teams| && t.teams[i].id == teamId;
    assert TeamIdOf(teams[i]) == teamId;
    var team := Find(teams, TeamIdOf, teamId).value;
    if HasMemberKey(t.members, (teamId, userId)) {
      var m :| m in t.members && MemberKey(m) == (teamId, userId);
      assert MemberRow(team.id, m.userId, m.role) == m;
      assert TeamMember(m.userId, m.role) in team.members;
    }
  }

  /** addTeamMember's answer: no user with that email; the team already
      lists the user; the insert breaks the membership key; or added. */
  function AddMemberOutcome(t: Tables, teamId: string, email: string): (r: AddMemberResult)
    ensures r.success <==> r.message == MemberAdded
    ensures r.message == UserNotFound <==> GetUserByEmail(t, email).None?
    ensures r.success ==>
              GetUserByEmail(t, email).Some? &&
              Find(t.members, MemberKey, (teamId, GetUserByEmail(t, email).value.id)).None?
  {
    match GetUserByEmail(t, email)
    case None => AddMemberResult(false, UserNotFound)
    case Some(user) =>
      if ListedMember(t, teamId, user.id) then AddMemberResult(false, AlreadyMember)
      else if Find(t.members, MemberKey, (teamId, user.id)).Some? then AddMemberResult(false, AddMemberFailed)
      else AddMemberResult(true, MemberAdded)
  }

  /** Whatever the team id, a known user is added exactly when no
      membership row for the pair exists. */
  lemma AddMemberAddsExactlyNonMembers(t: Tables, teamId: string, email: string)
    ensures var r := AddMemberOutcome(t, teamId, email);
            var user := GetUserByEmail(t, email);
            r.success <==> user.Some? && !HasMemberKey(t.members, (teamId, user.value.id))
  {
    var user := GetUserByEmail(t, email);
    if user.Some? {
      ListedMemberHasKey(t, teamId, user.value.id);
      FindMemberKey(t.members, (teamId, user.value.id));
    }
  }

  /** A user the team's listing shows has a membership row under the team
      id, whether or not the team's row exists. */
  lemma ListedMemberHasKey(t: Tables, teamId: string, userId: string)
    ensures ListedMember(t, teamId, userId) ==> HasMemberKey(t.members, (teamId, userId))
  {
    var found := Find(GetTeams(t), TeamIdOf, teamId);
    if found.Some? && exists m :: m in found.value.members && m.userId == userId {
      var team := found.value;
      var teams := GetTeams(t);
      var i :| 0 <= i < |teams| && teams[i] == team;
      var m :| m in team.members && m.userId == userId;
      assert MemberRow(team.id, m.userId, m.role) in t.members;
      assert MemberKey(MemberRow(team.id, m.userId, m.role)) == (teamId, userId);
    }
  }

  /** For a team that exists, a known user is added exactly when no
      membership row for the pair exists, and the error message can only be
      that the user is already a member. */
  lemma AddMemberToExistingTeam(t: Tables, teamId: string, email: string)
    requires Find(t.teams, TeamRowId, teamId).Some?
    ensures var r := AddMemberOutcome(t, teamId, email);
            var user := GetUserByEmail(t, email);
            && (r.success <==> user.Some? && !HasMemberKey(t.members, (teamId, user.value.id)))
            && (r.message == AlreadyMember <==> user.Some? && HasMemberKey(t.members, (teamId, user.value.id)))
            && r.message != AddMemberFailed
  {
    var user := GetUserByEmail(t, email);
    if user.Some? {
      ListedMemberMatchesKey(t, teamId, user.value.id);
      FindMemberKey(t.members, (teamId, user.value.id));
    }
  }

  /** The insert's key check and the membership test agree. */
  lemma FindMemberKey(rows: seq<MemberRow>, k: (string, string))
    ensures Find(rows, MemberKey, k).Some? <==> HasMemberKey(rows, k)
  {
    if HasMemberKey(rows, k) {
      var m :| m in rows && MemberKey(m) == k;
      var i :| 0 <= i < |rows| && rows[i] == m;
      assert MemberKey(rows[i]) == k;
    }
  }

  // ---------------------------------------------------------------------
  // The store object

  class DB {
    /** The live database. */
    var db: Tables
    var isInitialized: bool
    /** The text stored under the store's durable-storage key, if any. */
    var savedBlob: Option<string>
    const engine: Engine

    ghost predicate Valid()
      reads this
    {
      KeysHold(db) && engine.KeepsKeys()
    }

    /** The stored text is the encoding of the current tables' image. */
    ghost predicate Persisted()
      reads this
    {
      savedBlob == Some(Base64.Encode(engine.exportImage(db)))
    }

    /** A store over `engine`, with `stored` as the durable storage's
        current content under the store's key. */
    constructor(engine: Engine, stored: Option<string>)
      requires engine.KeepsKeys()
      ensures Valid() && !isInitialized
      ensures this.engine == engine && savedBlob == stored && db == EmptyTables
    {
      this.engine := engine;
      savedBlob := stored;
      db := EmptyTables;
      isInitialized := false;
    }

    /** init: a no-op once it has succeeded; otherwise it restores the
        stored image when there is a non-empty one, and creates the empty
        schema (and saves it) when there is none. Decoding or loading a bad
        image fails and leaves the store uninitialised. */
    method Init() returns (ok: bool)
      requires Valid()
      modifies this
      ensures Valid()
      ensures old(isInitialized) ==> ok && unchanged(this)
      ensures !old(isInitialized) && (old(savedBlob).None? || old(savedBlob) == Some("")) ==>
                ok && isInitialized && db == EmptyTables && Persisted()
      ensures !old(isInitialized) && old(savedBlob).Some? && old(savedBlob) != Some("") ==>
                ok == Restore(engine, old(savedBlob).value).Some? &&
                (ok ==> isInitialized && db == Restore(engine, old(savedBlob).value).value &&
                        savedBlob == old(savedBlob)) &&
                (!ok ==> unchanged(this))
    {
      if isInitialized {
        return true;
      }
      if savedBlob.Some? && savedBlob.value != "" {
        var bytes := Base64ToUint8Array(savedBlob.value);
        if bytes.None? {
          return false;
        }
        var loaded := engine.openImage(bytes.value[..]);
        if loaded.None? {
          return false;
        }
        db := loaded.value;
      } else {
        db := EmptyTables;
        CreateTables();
      }
      isInitialized := true;
      ok := true;
    }

    /** save: the whole image, base64-encoded, replaces the stored text. */
    method Save()
      modifies this`savedBlob
      ensures Persisted()
    {
      var image := engine.exportImage(db);
      var bytes := new uint8[|image|](i requires 0 <= i < |image| => image[i]);
      assert bytes[..] == image;
      var text := Uint8ArrayToBase64(bytes);
      savedBlob := Some(text);
    }

    /** uint8ArrayToBase64: one character per byte, then `btoa`. */
    static method Uint8ArrayToBase64(bytes: array<uint8>) returns (s: string)
      ensures s == Base64.Encode(bytes[..])
    {
      var binary := "";
      var len := bytes.Length;
      for i := 0 to len
        invariant |binary| == i
        invariant forall k :: 0 <= k < i ==> binary[k] as int == bytes[k] as int
      {
        binary := binary + [bytes[i] as int as char];
      }
      assert binary == Base64.BinaryOf(bytes[..]);
      Base64.CodeUnitsBinaryOf(bytes[..]);
      s := Base64.Btoa(binary).value;
    }

    /** base64ToUint8Array: `atob`, then one byte per character (a
        Uint8Array element keeps the low eight bits); fails where `atob`
        throws. */
    static method Base64ToUint8Array(base64: string) returns (bytes: Option<array<uint8>>)
      ensures bytes.None? <==> Base64.Decode(base64).None?
      ensures bytes.Some? ==> Base64.Decode(base64) == Some(bytes.value[..])
    {
      var decoded := Base64.Atob(base64);
      if decoded.None? {
        return None;
      }
      var arr := CharCodes(decoded.value);
      Base64.AtobCodeUnits(base64);
      bytes := Some(arr);
    }

    /** The copy loop of base64ToUint8Array: each character's code, kept
        to its low eight bits. */
    static method CharCodes(binary: string) returns (arr: array<uint8>)
      requires Base64.IsBinary(binary)
      ensures fresh(arr) && arr[..] == Base64.CodeUnits(binary)
    {
      var len := |binary|;
      arr := new uint8[len];
      for i := 0 to len
        invariant forall k :: 0 <= k < i ==> arr[k] as int == binary[k] as int % 256
      {
        arr[i] := (binary[i] as int % 256) as uint8;
      }
      assert arr[..] == Base64.CodeUnits(binary);
    }

    /** createTables: the empty schema, saved at once. */
    method CreateTables()
      requires Valid()
      modifies this`db, this`savedBlob
      ensures Valid() && db == EmptyTables && Persisted()
    {
      db := EmptyTables;
      Save();
    }

    /** signup: inserts the user and saves; a duplicate email (or a clash
        of the generated id) is caught and reported as false, with nothing
        changed. */
    method Signup(id: string, name: string, email: string, password: string) returns (ok: bool)
      requires Valid() && isInitialized
      modifies this
      ensures Valid() && isInitialized
      ensures ok <==> SignupAccepted(old(db), id, email)
      ensures ok ==> db == WithUser(old(db), UserRow(id, name, email, password)) && Persisted()
      ensures !ok ==> unchanged(this)
    {
      if !SignupAccepted(db, id, email) {
        return false;
      }
      db := WithUser(db, UserRow(id, name, email, password));
      Save();
      ok := true;
    }

    /** createTeam: the team row and the owner's membership row, then save. */
    method CreateTeam(teamId: string, name: string, owner: User)
      requires Valid() && isInitialized && TeamIdFree(db, teamId)
      modifies this
      ensures Valid() && isInitialized && Persisted()
      ensures db == WithTeam(old(db), teamId, name, owner.id)
    {
      db := WithTeam(db, teamId, name, owner.id);
      Save();
    }

    /** addTeamMember: an unknown email and a member the team already lists
        are reported without any change; otherwise the membership row is
        inserted with role `member`, whether or not the team exists, and an
        insert the key rejects is reported as an error. */
    method AddTeamMember(teamId: string, email: string) returns (result: AddMemberResult)
      requires Valid() && isInitialized
      modifies this
      ensures Valid() && isInitialized
      ensures result == AddMemberOutcome(old(db), teamId, email)
      ensures result.success ==>
                db == WithMember(old(db), teamId, GetUserByEmail(old(db), email).value.id) && Persisted()
      ensures !result.success ==> unchanged(this)
    {
      var user := GetUserByEmail(db, email);
      if user.None? {
        return AddMemberResult(false, UserNotFound);
      }
      if ListedMember(db, teamId, user.value.id) {
        return AddMemberResult(false, AlreadyMember);
      }
      if Find(db.members, MemberKey, (teamId, user.value.id)).Some? {
        return AddMemberResult(false, AddMemberFailed);
      }
      db := WithMember(db, teamId, user.value.id);
      Save();
      result := AddMemberResult(true, MemberAdded);
    }

    /** removeTeamMember: deletes the row with that key, if there is one. */
    method RemoveTeamMember(teamId: string, userId: string)
      requires Valid() && isInitialized
      modifies this
      ensures Valid() && isInitialized && Persisted()
      ensures db == WithoutMember(old(db), teamId, userId)
    {
      db := WithoutMember(db, teamId, userId);
      Save();
    }

    /** The loop of deleteTeam: each table of the list, filtered on the
        column at the same position. */
    static method RunCascade(t: Tables, teamId: string) returns (r: Tables)
      ensures r == Cascade(t, teamId, |CascadeTables|)
    {
      r := t;
      var i := 0;
      while i < |CascadeTables|
        invariant 0 <= i <= |CascadeTables|
        invariant r == Cascade(t, teamId, i)
      {
        CascadeColumnExists(i);
        CascadeUnfold(t, teamId, i + 1);
        r := DeleteWhere(r, CascadeTables[i], CascadeColumns[i], teamId);
        i := i + 1;
      }
    }

    /** deleteTeam: the six deletes of the cascade, in list order, then save. */
    method DeleteTeam(teamId: string)
      requires Valid() && isInitialized
      modifies this
      ensures Valid() && isInitialized && Persisted()
      ensures db == Cascade(old(db), teamId, |CascadeTables|)
    {
      var tables := RunCascade(db, teamId);
      CascadeKeepsKeys(db, teamId);
      db := tables;
      Save();
    }

    method AddMeeting(meeting: Meeting)
      requires Valid() && isInitialized && MeetingIdFree(db, meeting.id)
      modifies this
      ensures Valid() && isInitialized && Persisted()
      ensures db == WithMeeting(old(db), meeting)
    {
      db := WithMeeting(db, meeting);
      Save();
    }

    method AddDocument(doc: Document)
      requires Valid() && isInitialized && DocumentIdFree(db, doc.id)
      modifies this
      ensures Valid() && isInitialized && Persisted()
      ensures db == WithDocument(old(db), doc)
    {
      db := WithDocument(db, doc);
      Save();
    }

    method AddFile(file: FileLockerItem)
      requires Valid() && isInitialized && FileIdFree(db, file.id)
      modifies this
      ensures Valid() && isInitialized && Persisted()
      ensures db == WithFile(old(db), file)
    {
      db := WithFile(db, file);
      Save();
    }

    method AddMessage(msg: ChatMessage)
      requires Valid() && isInitialized && MessageIdFree(db, msg.id)
      modifies this
      ensures Valid() && isInitialized && Persisted()
      ensures db == WithMessage(old(db), msg)
    {
      db := WithMessage(db, msg);
      Save();
    }

    /** updateUserRole: overwrites the role of the row with that key, if
        any, whatever the role was. */
    method UpdateUserRole(teamId: string, userId: string, role: Role)
      requires Valid() && isInitialized
      modifies this
      ensures Valid() && isInitialized && Persisted()
      ensures db == WithRole(old(db), teamId, userId, role)
    {
      db := WithRole(db, teamId, userId, role);
      Save();
    }
  }

  /** A second store opened on what the first one saved holds the same
      tables: serialising and restoring reproduces every row. */
  method Reopen(d: DB) returns (d2: DB, ok: bool)
    requires d.Valid() && d.Persisted() && d.engine.RoundTrips()
    ensures ok && d2.isInitialized && d2.db == d.db
  {
    d2 := new DB(d.engine, d.savedBlob);
    SaveThenRestore(d.engine, d.db);
    ok := d2.Init();
  }
}
