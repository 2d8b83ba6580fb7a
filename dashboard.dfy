/**
 * The dashboard (components/Dashboard.tsx): projections of the cached
 * collections onto the signed-in user's teams, each cut to its first three
 * entries in cached order, and the counters shown above them. The current
 * time is a parameter.
 */
module Dashboard {
  import opened Types
  import opened Seqs
  import opened App

  /** The number of entries the dashboard lists per panel. */
  const PanelSize: nat := 3

  /** The ids of the given teams, in order. */
  function TeamIds(teams: seq<Team>): (r: seq<string>)
    ensures |r| == |teams| && forall i :: 0 <= i < |r| ==> r[i] == teams[i].id
    ensures forall id :: id in r <==> exists t :: t in teams && t.id == id
  {
    seq(|teams|, i requires 0 <= i < |teams| => teams[i].id)
  }

  /** The ids of the signed-in user's teams. */
  function UserTeamIds(currentUser: Option<User>, teams: seq<Team>): (r: seq<string>)
    ensures currentUser.None? ==> r == []
    ensures currentUser.Some? ==>
              forall id :: id in r <==> exists t :: t in teams && t.id == id && HasMember(t, currentUser.value.id)
  {
    TeamIds(UserTeams(currentUser, teams))
  }

  /** A meeting of one of `teamIds` whose time is strictly after `now`. */
  predicate IsUpcoming(m: Meeting, teamIds: seq<string>, now: int) {
    m.teamId in teamIds && m.dateTime > now
  }

  /** The upcoming meetings, in cached order (no sorting). */
  function Upcoming(meetings: seq<Meeting>, teamIds: seq<string>, now: int): (r: seq<Meeting>)
    ensures |r| <= |meetings|
    ensures forall m :: m in r <==> m in meetings && IsUpcoming(m, teamIds, now)
    ensures teamIds == [] ==> r == []
  {
    if meetings == [] then []
    else
      assert meetings == [meetings[0]] + meetings[1..];
      var rest := Upcoming(meetings[1..], teamIds, now);
      if IsUpcoming(meetings[0], teamIds, now) then [meetings[0]] + rest else rest
  }

  /** The filter keeps cached order: a meeting stored later comes later. */
  lemma {:induction false} UpcomingAppend(meetings: seq<Meeting>, m: Meeting, teamIds: seq<string>, now: int)
    ensures Upcoming(meetings + [m], teamIds, now) ==
            Upcoming(meetings, teamIds, now) + (if IsUpcoming(m, teamIds, now) then [m] else [])
  {
    if meetings == [] {
      assert meetings + [m] == [m];
    } else {
      assert (meetings + [m])[1..] == meetings[1..] + [m];
      UpcomingAppend(meetings[1..], m, teamIds, now);
    }
  }

  /** upcomingMeetings: the first three upcoming meetings of the user's
      teams. */
  function UpcomingMeetings(currentUser: Option<User>, teams: seq<Team>, meetings: seq<Meeting>, now: int)
    : (r: seq<Meeting>)
    ensures |r| <= PanelSize
    ensures r <= Upcoming(meetings, UserTeamIds(currentUser, teams), now)
    ensures |r| == PanelSize || r == Upcoming(meetings, UserTeamIds(currentUser, teams), now)
    ensures forall m :: m in r ==> m in meetings && IsUpcoming(m, UserTeamIds(currentUser, teams), now)
  {
    var all := Upcoming(meetings, UserTeamIds(currentUser, teams), now);
    var r := Take(all, PanelSize);
    assert forall m :: m in r ==> m in all;
    r
  }

  /** With three upcoming meetings already listed, a meeting stored later
      does not enter the panel, however soon it is: the panel shows stored
      order, not the nearest dates. */
  lemma PanelKeepsStoredOrder(currentUser: Option<User>, teams: seq<Team>, meetings: seq<Meeting>,
                              m: Meeting, now: int)
    requires |Upcoming(meetings, UserTeamIds(currentUser, teams), now)| >= PanelSize
    ensures UpcomingMeetings(currentUser, teams, meetings + [m], now) ==
            UpcomingMeetings(currentUser, teams, meetings, now)
  {
    var ids := UserTeamIds(currentUser, teams);
    UpcomingAppend(meetings, m, ids, now);
    var before := Upcoming(meetings, ids, now);
    var after := Upcoming(meetings + [m], ids, now);
    assert after[..PanelSize] == before[..PanelSize];
    assert Take(after, PanelSize) == after[..PanelSize];
    assert Take(before, PanelSize) == before[..PanelSize];
  }

  /** The documents of any of `teamIds`, in cached order. */
  function TeamDocuments(documents: seq<Document>, teamIds: seq<string>): (r: seq<Document>)
    ensures |r| <= |documents|
    ensures forall d :: d in r <==> d in documents && d.teamId in teamIds
    ensures teamIds == [] ==> r == []
  {
    if documents == [] then []
    else
      assert documents == [documents[0]] + documents[1..];
      var rest := TeamDocuments(documents[1..], teamIds);
      if documents[0].teamId in teamIds then [documents[0]] + rest else rest
  }

  lemma {:induction false} TeamDocumentsAppend(documents: seq<Document>, d: Document, teamIds: seq<string>)
    ensures TeamDocuments(documents + [d], teamIds) ==
            TeamDocuments(documents, teamIds) + (if d.teamId in teamIds then [d] else [])
  {
    if documents == [] {
      assert documents + [d] == [d];
    } else {
      assert (documents + [d])[1..] == documents[1..] + [d];
      TeamDocumentsAppend(documents[1..], d, teamIds);
    }
  }

  /** recentDocuments: the first three documents of the user's teams. */
  function RecentDocuments(currentUser: Option<User>, teams: seq<Team>, documents: seq<Document>)
    : (r: seq<Document>)
    ensures |r| <= PanelSize
    ensures r <= TeamDocuments(documents, UserTeamIds(currentUser, teams))
    ensures |r| == PanelSize || r == TeamDocuments(documents, UserTeamIds(currentUser, teams))
    ensures forall d :: d in r ==> d in documents && d.teamId in UserTeamIds(currentUser, teams)
  {
    var all := TeamDocuments(documents, UserTeamIds(currentUser, teams));
    var r := Take(all, PanelSize);
    assert forall d :: d in r ==> d in all;
    r
  }

  /** The positions of the documents that belong to one of `teamIds`. */
  ghost function OwnedPositions(documents: seq<Document>, teamIds: seq<string>): set<int> {
    set i | 0 <= i < |documents| && documents[i].teamId in teamIds
  }

  /** The document counter counts every cached document of one of
      `teamIds`, one per position. */
  lemma {:induction false} DocumentCountIsPositions(documents: seq<Document>, teamIds: seq<string>)
    ensures |TeamDocuments(documents, teamIds)| == |OwnedPositions(documents, teamIds)|
    decreases |documents|
  {
    if documents == [] {
      assert OwnedPositions(documents, teamIds) == {};
    } else {
      var n := |documents| - 1;
      var prefix, d := documents[..n], documents[n];
      assert documents == prefix + [d];
      DocumentCountIsPositions(prefix, teamIds);
      TeamDocumentsAppend(prefix, d, teamIds);
      OwnedPositionsAppend(prefix, d, teamIds);
    }
  }

  lemma OwnedPositionsAppend(documents: seq<Document>, d: Document, teamIds: seq<string>)
    ensures OwnedPositions(documents + [d], teamIds) ==
            OwnedPositions(documents, teamIds) + (if d.teamId in teamIds then {|documents|} else {})
    ensures |documents| !in OwnedPositions(documents, teamIds)
  {
    var all := documents + [d];
    assert forall i :: 0 <= i < |documents| ==> all[i] == documents[i];
  }

  /** The three counters: teams, upcoming meetings (at most three, since
      the panel's list is counted) and documents. */
  datatype Counters = Counters(teams: nat, upcomingMeetings: nat, documents: nat)

  function DashboardCounters(currentUser: Option<User>, teams: seq<Team>, meetings: seq<Meeting>,
                             documents: seq<Document>, now: int): (r: Counters)
    ensures r.teams == |UserTeams(currentUser, teams)| && r.teams <= |teams|
    ensures r.upcomingMeetings <= PanelSize
    ensures r.documents == |OwnedPositions(documents, UserTeamIds(currentUser, teams))|
    ensures currentUser.None? ==> r == Counters(0, 0, 0)
  {
    var ids := UserTeamIds(currentUser, teams);
    DocumentCountIsPositions(documents, ids);
    Counters(|UserTeams(currentUser, teams)|, |UpcomingMeetings(currentUser, teams, meetings, now)|,
             |TeamDocuments(documents, ids)|)
  }
}
