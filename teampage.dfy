/**
 * The team page (components/Team.tsx): the rules its tabs apply before
 * calling the provider — who may manage members, how an uploaded file is
 * classified, when a protected document is shown, which submissions are
 * sent — and the submit handlers that call the provider and then reset
 * their forms.
 */
module TeamPage {
  import opened Types
  import opened Seqs
  import opened Store
  import opened App

  // ---------------------------------------------------------------------
  // File classification

  /** ASCII lower case; a case-insensitive regular expression without the
      unicode flag folds exactly these letters. */
  function LowerAscii(c: char): char {
    if 'A' <= c <= 'Z' then (c as int + 32) as char else c
  }

  function Lowered(s: string): (r: string)
    ensures |r| == |s| && forall i :: 0 <= i < |s| ==> r[i] == LowerAscii(s[i])
  {
    seq(|s|, i requires 0 <= i < |s| => LowerAscii(s[i]))
  }

  /** `ext` (lower case) ends `name`, compared letter by letter up to case. */
  predicate EndsWithIgnoringCase(name: string, ext: string) {
    |ext| <= |name| &&
    forall i :: 0 <= i < |ext| ==> LowerAscii(name[|name| - |ext| + i]) == ext[i]
  }

  /** The same test, stated on the lower-cased name. */
  lemma EndsWithIgnoringCaseIsSuffix(name: string, ext: string)
    ensures EndsWithIgnoringCase(name, ext) <==> |ext| <= |name| && Lowered(name)[|name| - |ext|..] == ext
  {
    if |ext| <= |name| {
      var tail := Lowered(name)[|name| - |ext|..];
      assert forall i :: 0 <= i < |ext| ==> tail[i] == LowerAscii(name[|name| - |ext| + i]);
    }
  }

  const ImageExtensions: seq<string> := [".jpg", ".jpeg", ".png", ".gif", ".svg"]
  const VideoExtensions: seq<string> := [".mp4", ".mov", ".avi"]

  /** Whether the lower-cased name ends with one of `exts`. */
  ghost predicate HasExtension(name: string, exts: seq<string>) {
    exists e :: e in exts && |e| <= |name| && Lowered(name)[|name| - |e|..] == e
  }

  /** The regular expression's test: one of the alternatives ends the
      name, up to case. */
  predicate EndsWithAny(name: string, exts: seq<string>) {
    exists e :: e in exts && EndsWithIgnoringCase(name, e)
  }

  lemma EndsWithAnyIsExtension(name: string, exts: seq<string>)
    ensures EndsWithAny(name, exts) <==> HasExtension(name, exts)
  {
    forall e | e in exts {
      EndsWithIgnoringCaseIsSuffix(name, e);
    }
  }

  /** getFileType: image extensions are tested first, then `.pdf`, then
      the video extensions; anything else is `other`. */
  function GetFileType(name: string): (r: FileType)
    ensures r == Image <==> HasExtension(name, ImageExtensions)
    ensures r == Pdf <==> !HasExtension(name, ImageExtensions) && HasExtension(name, [".pdf"])
    ensures r == Video <==> !HasExtension(name, ImageExtensions) && !HasExtension(name, [".pdf"]) &&
                            HasExtension(name, VideoExtensions)
    ensures r != Link
  {
    EndsWithAnyIsExtension(name, ImageExtensions);
    EndsWithAnyIsExtension(name, [".pdf"]);
    EndsWithAnyIsExtension(name, VideoExtensions);
    if EndsWithAny(name, ImageExtensions) then Image
    else if EndsWithAny(name, [".pdf"]) then Pdf
    else if EndsWithAny(name, VideoExtensions) then Video
    else Other
  }

  /** The type a locker item is stored with: a link in link mode, the
      classified file type in upload mode. */
  function LockerItemType(linkMode: bool, fileName: string): FileType
  {
    if linkMode then Link else GetFileType(fileName)
  }

  // ---------------------------------------------------------------------
  // Members and permissions

  function MemberUserId(m: TeamMember): string { m.userId }

  /** The viewer's role in the team: that of the first membership row with
      the viewer's id, if any. */
  function ViewerRole(team: Team, viewer: User): (r: Option<Role>)
    ensures r.Some? <==> exists m :: m in team.members && m.userId == viewer.id
    ensures r.Some? ==> TeamMember(viewer.id, r.value) in team.members
  {
    match Find(team.members, MemberUserId, viewer.id)
    case None => None
    case Some(m) => Some(m.role)
  }

  /** Owners and sub-admins manage members: they see the add button and
      the actions column. */
  predicate CanManageMembers(viewerRole: Option<Role>) {
    viewerRole == Some(Owner) || viewerRole == Some(SubAdmin)
  }

  /** Whether the viewer is offered removal of a member with `memberRole`. */
  function CanBeRemoved(viewerRole: Option<Role>, memberRole: Role): (r: bool)
    ensures memberRole == Owner ==> !r
    ensures viewerRole == Some(Owner) ==> (r <==> memberRole != Owner)
    ensures viewerRole == Some(SubAdmin) ==> (r <==> memberRole == Member)
    ensures !CanManageMembers(viewerRole) ==> !r
  {
    memberRole != Owner &&
    (viewerRole == Some(Owner) || (viewerRole == Some(SubAdmin) && memberRole == Member))
  }

  /** The role selector is shown for a member only to an owner, and never
      on an owner's row. */
  predicate RoleSelectOffered(viewerRole: Option<Role>, memberRole: Role) {
    CanManageMembers(viewerRole) && viewerRole == Some(Owner) && memberRole != Owner
  }

  /** The roles the selector offers. */
  const RoleOptions: seq<Role> := [Member, SubAdmin]

  /** The delete-team control is shown to the owner only. */
  predicate DeleteTeamOffered(viewerRole: Option<Role>) {
    viewerRole == Some(Owner)
  }

  /** Every action the members tab offers needs a managing role, and none
      of them can take a team's owner out or make anyone an owner. */
  lemma MemberActionsNeedManager(viewerRole: Option<Role>, memberRole: Role)
    ensures CanBeRemoved(viewerRole, memberRole) ==> CanManageMembers(viewerRole)
    ensures RoleSelectOffered(viewerRole, memberRole) ==> CanBeRemoved(viewerRole, memberRole)
    ensures DeleteTeamOffered(viewerRole) ==> CanManageMembers(viewerRole)
    ensures Owner !in RoleOptions
  {
  }

  /** A sub-admin can remove plain members only: neither the owner nor
      another sub-admin. */
  lemma SubAdminRemovesOnlyMembers(memberRole: Role)
    ensures CanBeRemoved(Some(SubAdmin), memberRole) <==> memberRole == Member
  {
  }

  // ---------------------------------------------------------------------
  // Documents and chat

  /** handleDocClick: the content shown, if any. An unprotected document
      is always shown; a protected one when the answer to the password
      prompt (none when the prompt is cancelled) equals the stored
      password. */
  function RevealedContent(doc: Document, entered: Option<string>): (r: Option<string>)
    ensures r.Some? ==> r.value == doc.content
    ensures !doc.passwordProtected ==> r.Some?
    ensures doc.passwordProtected ==> (r.Some? <==> entered == doc.password)
  {
    if !doc.passwordProtected || entered == doc.password then Some(doc.content) else None
  }

  /** The document the documents form submits: a password only when the
      protection box is checked. */
  function FormDocument(id: string, teamId: string, name: string, content: string,
                        isProtected: bool, password: string, createdBy: string): (d: Document)
    ensures d.passwordProtected == isProtected
    ensures d.password.Some? <==> isProtected
  {
    Document(id, teamId, name, content, isProtected, if isProtected then Some(password) else None, createdBy)
  }

  /** A document protected through the form, and read back from the store,
      opens with exactly the password typed when it was created, and never
      for a cancelled prompt. */
  lemma ProtectedDocumentOpensWithItsPassword(t: Tables, id: string, teamId: string, name: string,
                                              content: string, password: string, createdBy: string,
                                              entered: Option<string>)
    requires KeysHold(t) && DocumentIdFree(t, id)
    ensures var stored := GetDocuments(WithDocument(t, FormDocument(id, teamId, name, content, true, password, createdBy)));
            |stored| > 0 &&
            (RevealedContent(stored[|stored| - 1], entered).Some? <==> entered == Some(password))
  {
    AddDocumentThenGet(t, FormDocument(id, teamId, name, content, true, password, createdBy));
  }

  /** The characters `String.prototype.trim` removes: white space and line
      terminators. */
  predicate IsJsWhitespace(c: char) {
    c == '\t' || c == '\n' || c == '\U{000B}' || c == '\U{000C}' || c == '\r' || c == ' ' ||
    c == '\U{00A0}' || c == '\U{1680}' || ('\U{2000}' <= c <= '\U{200A}') ||
    c == '\U{2028}' || c == '\U{2029}' || c == '\U{202F}' || c == '\U{205F}' ||
    c == '\U{3000}' || c == '\U{FEFF}'
  }

  function TrimStart(s: string): (r: string)
    ensures |r| <= |s| && r == s[|s| - |r|..]
    ensures r == [] || !IsJsWhitespace(r[0])
    ensures forall i :: 0 <= i < |s| - |r| ==> IsJsWhitespace(s[i])
  {
    if s == [] || !IsJsWhitespace(s[0]) then s else TrimStart(s[1..])
  }

  function TrimEnd(s: string): (r: string)
    ensures |r| <= |s| && r == s[..|r|]
    ensures r == [] || !IsJsWhitespace(r[|r| - 1])
    ensures forall i :: |r| <= i < |s| ==> IsJsWhitespace(s[i])
  {
    if s == [] || !IsJsWhitespace(s[|s| - 1]) then s else TrimEnd(s[..|s| - 1])
  }

  /** `s.trim()`. */
  function Trim(s: string): string {
    TrimEnd(TrimStart(s))
  }

  /** A message trims to nothing exactly when it is all white space. */
  lemma TrimEmptyIff(s: string)
    ensures Trim(s) == [] <==> forall i :: 0 <= i < |s| ==> IsJsWhitespace(s[i])
  {
    var u := TrimStart(s);
    if u != [] {
      assert !IsJsWhitespace(u[0]) && s[|s| - |u|] == u[0];
    }
  }

  /** The direct-message list: the team's members other than the viewer,
      in listing order (all of them when no one is signed in). */
  function DirectMessageTargets(members: seq<TeamMember>, viewerId: Option<string>): (r: seq<TeamMember>)
    ensures forall m :: m in r <==> m in members && Some(m.userId) != viewerId
    ensures forall m :: multiset(r)[m] == if Some(m.userId) != viewerId then multiset(members)[m] else 0
  {
    if members == [] then []
    else
      assert members == [members[0]] + members[1..];
      var rest := DirectMessageTargets(members[1..], viewerId);
      if Some(members[0].userId) != viewerId then [members[0]] + rest else rest
  }

  // ---------------------------------------------------------------------
  // The tabs' forms

  class MeetingsView {
    const app: AppProvider
    const teamId: string
    var isModalOpen: bool
    var title: string
    var meetLink: string
    /** The date-time input: none while it is empty. */
    var dateTime: Option<int>

    constructor(app: AppProvider, teamId: string)
      ensures this.app == app && this.teamId == teamId
      ensures !isModalOpen && title == "" && meetLink == "" && dateTime.None?
    {
      this.app := app;
      this.teamId := teamId;
      isModalOpen := false;
      title := "";
      meetLink := "";
      dateTime := None;
    }

    /** handleSubmit: with a title, a link, a date and a signed-in user,
        schedules the meeting and clears the form; otherwise nothing. */
    method HandleSubmit(id: string)
      requires app.Valid() && app.isDbReady && MeetingIdFree(app.store.db, id)
      modifies this, app, app.store
      ensures app.Valid() && app.isDbReady
      ensures var ready := old(title) != "" && old(meetLink) != "" && old(dateTime).Some? &&
                           old(app.currentUser).Some?;
              (ready ==>
                 app.store.db == WithMeeting(old(app.store.db),
                                   Meeting(id, teamId, old(title), old(meetLink), old(dateTime).value,
                                           old(app.currentUser).value.id)) &&
                 app.Synced() && !isModalOpen && title == "" && meetLink == "" && dateTime.None?) &&
              (!ready ==> unchanged(this) && unchanged(app) && unchanged(app.store))
    {
      if title != "" && meetLink != "" && dateTime.Some? && app.currentUser.Some? {
        app.AddMeeting(Meeting(id, teamId, title, meetLink, dateTime.value, app.currentUser.value.id));
        isModalOpen := false;
        title, meetLink, dateTime := "", "", None;
      }
    }
  }

  class DocumentsView {
    const app: AppProvider
    const teamId: string
    var isModalOpen: bool
    var name: string
    var content: string
    var isProtected: bool
    var password: string

    constructor(app: AppProvider, teamId: string)
      ensures this.app == app && this.teamId == teamId
      ensures !isModalOpen && name == "" && content == "" && !isProtected && password == ""
    {
      this.app := app;
      this.teamId := teamId;
      isModalOpen := false;
      name, content, password := "", "", "";
      isProtected := false;
    }

    /** handleSubmit: with a name, content and a signed-in user, adds the
        document (with its password only if protected) and clears the
        form; otherwise nothing. */
    method HandleSubmit(id: string)
      requires app.Valid() && app.isDbReady && DocumentIdFree(app.store.db, id)
      modifies this, app, app.store
      ensures app.Valid() && app.isDbReady
      ensures var ready := old(name) != "" && old(content) != "" && old(app.currentUser).Some?;
              (ready ==>
                 app.store.db == WithDocument(old(app.store.db),
                                   FormDocument(id, teamId, old(name), old(content), old(isProtected),
                                                old(password), old(app.currentUser).value.id)) &&
                 app.Synced() && !isModalOpen && name == "" && content == "" && !isProtected &&
                 password == "") &&
              (!ready ==> unchanged(this) && unchanged(app) && unchanged(app.store))
    {
      if name != "" && content != "" && app.currentUser.Some? {
        app.AddDocument(FormDocument(id, teamId, name, content, isProtected, password, app.currentUser.value.id));
        isModalOpen := false;
        name, content := "", "";
        isProtected := false;
        password := "";
      }
    }
  }

  class LockersView {
    const app: AppProvider
    const teamId: string
    var isModalOpen: bool
    var fileName: string
    var fileUrl: string
    /** The form's mode: a link typed in, or an uploaded file. */
    var linkMode: bool

    constructor(app: AppProvider, teamId: string)
      ensures this.app == app && this.teamId == teamId
      ensures !isModalOpen && fileName == "" && fileUrl == "" && linkMode
    {
      this.app := app;
      this.teamId := teamId;
      isModalOpen := false;
      fileName, fileUrl := "", "";
      linkMode := true;
    }

    /** handleSubmit: without a name, a URL or a signed-in user nothing
        happens; otherwise the item is stored with its type and the form
        goes back to an empty link. */
    method HandleSubmit(id: string)
      requires app.Valid() && app.isDbReady && FileIdFree(app.store.db, id)
      modifies this, app, app.store
      ensures app.Valid() && app.isDbReady
      ensures var ready := old(fileName) != "" && old(fileUrl) != "" && old(app.currentUser).Some?;
              (ready ==>
                 app.store.db == WithFile(old(app.store.db),
                                   FileLockerItem(id, teamId, old(fileName),
                                                  LockerItemType(old(linkMode), old(fileName)),
                                                  old(fileUrl), old(app.currentUser).value.id)) &&
                 app.Synced() && !isModalOpen && fileName == "" && fileUrl == "" && linkMode) &&
              (!ready ==> unchanged(this) && unchanged(app) && unchanged(app.store))
    {
      if fileName != "" && fileUrl != "" && app.currentUser.Some? {
        var kind := LockerItemType(linkMode, fileName);
        app.AddFile(FileLockerItem(id, teamId, fileName, kind, fileUrl, app.currentUser.value.id));
        isModalOpen := false;
        fileName, fileUrl := "", "";
        linkMode := true;
      }
    }
  }

  class ChatView {
    const app: AppProvider
    const teamId: string
    var activeChannel: string
    var message: string

    constructor(app: AppProvider, teamId: string)
      ensures this.app == app && this.teamId == teamId
      ensures activeChannel == PublicChannel && message == ""
    {
      this.app := app;
      this.teamId := teamId;
      activeChannel := PublicChannel;
      message := "";
    }

    /** handleSend: a message that is not all white space, from a
        signed-in user, is posted as typed to the active channel at `now`,
        and the input is cleared; otherwise nothing happens. */
    method HandleSend(id: string, now: int)
      requires app.Valid() && app.isDbReady && MessageIdFree(app.store.db, id)
      modifies this, app, app.store
      ensures app.Valid() && app.isDbReady
      ensures var ready := Trim(old(message)) != "" && old(app.currentUser).Some?;
              (ready ==>
                 app.store.db == WithMessage(old(app.store.db),
                                   ChatMessage(id, teamId, old(activeChannel),
                                               old(app.currentUser).value.id, old(message), now)) &&
                 app.Synced() && message == "" && activeChannel == old(activeChannel)) &&
              (!ready ==> unchanged(this) && unchanged(app) && unchanged(app.store))
    {
      if Trim(message) != "" && app.currentUser.Some? {
        app.AddMessage(ChatMessage(id, teamId, activeChannel, app.currentUser.value.id, message, now));
        message := "";
      }
    }
  }

  /** What the delete-team confirmation led to. */
  datatype DeleteOutcome = Deleted | NameMismatch | Cancelled

  class MembersView {
    const app: AppProvider
    const teamId: string
    var isAddModalOpen: bool
    var emailToAdd: string
    var addMemberError: string

    constructor(app: AppProvider, teamId: string)
      ensures this.app == app && this.teamId == teamId
      ensures !isAddModalOpen && emailToAdd == "" && addMemberError == ""
    {
      this.app := app;
      this.teamId := teamId;
      isAddModalOpen := false;
      emailToAdd, addMemberError := "", "";
    }

    /** handleAddMember: an empty email does nothing; otherwise the form
        closes on success and shows the store's message on failure. */
    method HandleAddMember()
      requires app.Valid() && app.isDbReady
      modifies this, app, app.store
      ensures app.Valid() && app.isDbReady
      ensures old(emailToAdd) == "" ==> unchanged(this) && unchanged(app) && unchanged(app.store)
      ensures old(emailToAdd) != "" ==>
                var outcome := AddMemberOutcome(old(app.store.db), teamId, old(emailToAdd));
                (outcome.success ==>
                   app.store.db == WithMember(old(app.store.db), teamId,
                                              GetUserByEmail(old(app.store.db), old(emailToAdd)).value.id) &&
                   app.Synced() && addMemberError == "" && emailToAdd == "" && !isAddModalOpen) &&
                (!outcome.success ==>
                   addMemberError == outcome.message && emailToAdd == old(emailToAdd) &&
                   isAddModalOpen == old(isAddModalOpen) && unchanged(app.store))
    {
      if emailToAdd == "" {
        return;
      }
      addMemberError := "";
      var result := app.AddTeamMember(teamId, emailToAdd);
      if result.success {
        isAddModalOpen := false;
        emailToAdd := "";
      } else {
        addMemberError := result.message;
      }
    }

    /** handleRemoveMember: removes the member once the viewer confirms. */
    method HandleRemoveMember(userId: string, confirmed: bool)
      requires app.Valid() && app.isDbReady
      modifies app, app.store
      ensures app.Valid() && app.isDbReady
      ensures confirmed ==> app.store.db == WithoutMember(old(app.store.db), teamId, userId) && app.Synced()
      ensures !confirmed ==> unchanged(app) && unchanged(app.store)
    {
      if confirmed {
        app.RemoveTeamMember(teamId, userId);
      }
    }

    /** handleDeleteTeam: the team is deleted only when the answer to the
        prompt is exactly the name of the team as the provider caches it
        (the view renders, and so offers the control, only when that team
        is found); a cancelled prompt and a wrong name change nothing. */
    method HandleDeleteTeam(confirmation: Option<string>) returns (outcome: DeleteOutcome)
      requires app.Valid() && app.isDbReady
      requires GetTeam(app.teams, teamId).Some?
      modifies app, app.store
      ensures app.Valid() && app.isDbReady
      ensures outcome == Deleted <==> confirmation == Some(old(GetTeam(app.teams, teamId)).value.name)
      ensures outcome == Cancelled <==> confirmation.None?
      ensures outcome == Deleted ==>
                app.store.db == Cascade(old(app.store.db), teamId, |CascadeTables|) && app.Synced()
      ensures outcome != Deleted ==> unchanged(app) && unchanged(app.store)
    {
      var team := GetTeam(app.teams, teamId).value;
      if confirmation == Some(team.name) {
        app.DeleteTeam(teamId);
        return Deleted;
      }
      outcome := if confirmation.Some? then NameMismatch else Cancelled;
    }
  }
}
