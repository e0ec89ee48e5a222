/** The about page: leadership passed through, teams shown in a fixed order. */
module About {
  import opened Wrappers
  import opened Json

  /** The display order of the teams, independent of the file's own order. */
  const TeamOrder: seq<string> := [
    "UI/UX Design",
    "Social Media",
    "CP & DSA",
    "PR & Partnership",
    "Event Management",
    "Web Development"
  ]

  /** The team file; a key the file lacks reads as `None` (`dict.get` then supplies the default). */
  datatype TeamFile = TeamFile(leadership: Option<Value>, teams: Option<map<string, Value>>)

  datatype Team = Team(name: string, members: Value)

  datatype AboutPage = AboutPage(leadership: Value, teams: seq<Team>)

  /** `load_team_data`: the file, or empty leadership and no teams when it does not exist. */
  function LoadTeamData(stored: Option<TeamFile>): (f: TeamFile)
    ensures stored.None? ==> f == TeamFile(Some(List([])), Some(map[]))
    ensures stored.Some? ==> f == stored.value
  {
    match stored
    case None => TeamFile(Some(List([])), Some(map[]))
    case Some(f) => f
  }

  predicate Distinct(names: seq<string>) {
    forall i, j :: 0 <= i < j < |names| ==> names[i] != names[j]
  }

  /** Where `name` stands in `order`. */
  function Position(order: seq<string>, name: string): (p: nat)
    requires name in order
    ensures p < |order| && order[p] == name
  {
    if order[0] == name then 0 else 1 + Position(order[1..], name)
  }

  /**
   * The team-ordering loop: one entry per name of `order` that is a key of
   * `teams`, in the order of `order`, carrying that key's members unchanged.
   */
  function Organize(order: seq<string>, teams: map<string, Value>): (r: seq<Team>)
    ensures |r| <= |order|
    ensures forall i :: 0 <= i < |r| ==> r[i].name in order && r[i].name in teams && r[i].members == teams[r[i].name]
    decreases |order|
  {
    if order == [] then []
    else
      var rest := Organize(order[1..], teams);
      if order[0] in teams then [Team(order[0], teams[order[0]])] + rest else rest
  }

  /** `Organize` shows a team exactly when the name is both in the order and in the file. */
  lemma {:induction false} OrganizeCovers(order: seq<string>, teams: map<string, Value>, name: string)
    ensures (exists i :: 0 <= i < |Organize(order, teams)| && Organize(order, teams)[i].name == name)
      <==> name in order && name in teams
    decreases |order|
  {
    var r := Organize(order, teams);
    if order != [] {
      var rest := Organize(order[1..], teams);
      OrganizeCovers(order[1..], teams, name);
      assert name in order <==> name == order[0] || name in order[1..];
      if order[0] in teams {
        assert r[0].name == order[0];
        assert forall i :: 1 <= i < |r| ==> r[i] == rest[i - 1];
        if exists i :: 0 <= i < |rest| && rest[i].name == name {
          var i :| 0 <= i < |rest| && rest[i].name == name;
          assert r[i + 1].name == name;
        }
      }
    }
  }

  /** The names of `r` all appear in `order`, at strictly increasing positions. */
  predicate FollowsOrder(order: seq<string>, r: seq<Team>) {
    forall i, j :: 0 <= i < j < |r| ==>
      r[i].name in order && r[j].name in order && Position(order, r[i].name) < Position(order, r[j].name)
  }

  /** With distinct names in `order`, the teams come out in strictly increasing position. */
  lemma {:induction false} OrganizeOrdered(order: seq<string>, teams: map<string, Value>)
    requires Distinct(order)
    ensures FollowsOrder(order, Organize(order, teams))
    decreases |order|
  {
    var r := Organize(order, teams);
    if order != [] {
      var rest := Organize(order[1..], teams);
      assert Distinct(order[1..]);
      OrganizeOrdered(order[1..], teams);
      assert FollowsOrder(order[1..], rest);
      assert forall i :: 0 <= i < |rest| ==> rest[i].name in order[1..];
      forall i | 0 <= i < |rest|
        ensures rest[i].name != order[0]
        ensures Position(order, rest[i].name) == 1 + Position(order[1..], rest[i].name)
      {
        var p := Position(order[1..], rest[i].name);
        assert order[p + 1] == rest[i].name;
      }
      if order[0] in teams {
        assert forall i :: 1 <= i < |r| ==> r[i] == rest[i - 1];
        assert Position(order, r[0].name) == 0;
        forall i, j | 0 <= i < j < |r|
          ensures Position(order, r[i].name) < Position(order, r[j].name)
        {
          assert r[j] == rest[j - 1];
          assert Position(order, rest[j - 1].name) == 1 + Position(order[1..], rest[j - 1].name);
          if i > 0 {
            assert r[i] == rest[i - 1];
            assert Position(order, rest[i - 1].name) == 1 + Position(order[1..], rest[i - 1].name);
            assert Position(order[1..], rest[i - 1].name) < Position(order[1..], rest[j - 1].name);
          }
        }
      }
    }
  }

  lemma TeamOrderDistinct()
    ensures Distinct(TeamOrder)
  {
  }

  /** The team mapping of a file, `{}` when the key is absent. */
  function FileTeams(f: TeamFile): map<string, Value> {
    if f.teams.Some? then f.teams.value else map[]
  }

  /**
   * The `about` route: leadership passed through (`[]` when absent) and at
   * most six teams, in `TeamOrder`, each present exactly when the file names
   * it, with its members as stored.
   */
  function AboutView(stored: Option<TeamFile>): (page: AboutPage)
    ensures var f := LoadTeamData(stored);
      page.leadership == (if f.leadership.Some? then f.leadership.value else List([]))
    ensures |page.teams| <= |TeamOrder|
    ensures var teams := FileTeams(LoadTeamData(stored));
      forall i :: 0 <= i < |page.teams| ==>
        page.teams[i].name in TeamOrder && page.teams[i].name in teams && page.teams[i].members == teams[page.teams[i].name]
    ensures stored.None? ==> page == AboutPage(List([]), [])
  {
    var f := LoadTeamData(stored);
    var leadership := if f.leadership.Some? then f.leadership.value else List([]);
    AboutPage(leadership, Organize(TeamOrder, FileTeams(f)))
  }

  /** Every team the file and the fixed order share is shown, and only those, in the fixed order. */
  lemma AboutViewTeams(stored: Option<TeamFile>, name: string)
    ensures var page := AboutView(stored);
      (exists i :: 0 <= i < |page.teams| && page.teams[i].name == name)
        <==> name in TeamOrder && name in FileTeams(LoadTeamData(stored))
    ensures FollowsOrder(TeamOrder, AboutView(stored).teams)
  {
    var teams := FileTeams(LoadTeamData(stored));
    assert AboutView(stored).teams == Organize(TeamOrder, teams);
    OrganizeCovers(TeamOrder, teams, name);
    TeamOrderDistinct();
    OrganizeOrdered(TeamOrder, teams);
  }
}
