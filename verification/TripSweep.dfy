/** The status sweep: three date-driven phases move trip ids between a user's pending, current and
    history columns, and new trips are appended to the current column. */
module TripSweep {
  import opened Wrappers
  import opened TripStrings

  /** Dates of a trip, as day numbers; absent where the text is no date. */
  datatype Trip = Trip(begin: Option<int>, end: Option<int>)

  /** The three text columns of a user, any of which may be NULL. */
  datatype Row = Row(pending: Option<string>, current: Option<string>, history: Option<string>)

  datatype Column = Pending | Current | History

  function Get(row: Row, c: Column): Option<string> {
    match c
    case Pending => row.pending
    case Current => row.current
    case History => row.history
  }

  function Set(row: Row, c: Column, s: string): Row {
    match c
    case Pending => row.(pending := Some(s))
    case Current => row.(current := Some(s))
    case History => row.(history := Some(s))
  }

  /** NULL reads as the empty text. */
  function Text(s: Option<string>): string {
    if s.None? then "" else s.value
  }

  /** The phases, in the order they run. */
  datatype Phase = Started | Postponed | Finished {
    function From(): Column {
      if Started? then Pending else Current
    }

    function To(): Column {
      match this
      case Started => Current
      case Postponed => Pending
      case Finished => History
    }

    function Date(t: Trip): Option<int> {
      if Finished? then t.end else t.begin
    }

    /** Whether a trip with this date has to move. */
    predicate Moves(date: int, today: int) {
      if Postponed? then date > today else date < today
    }
  }

  type Trips = map<string, Trip>

  /** The trip exists and its date can be parsed. */
  predicate Readable(p: Phase, trips: Trips, id: string) {
    id in trips && p.Date(trips[id]).Some?
  }

  predicate AllReadable(p: Phase, trips: Trips, ids: seq<string>) {
    forall k :: 0 <= k < |ids| ==> Readable(p, trips, ids[k])
  }

  predicate MovesId(p: Phase, trips: Trips, today: int, id: string) {
    Readable(p, trips, id) && p.Moves(p.Date(trips[id]).value, today)
  }

  /** The ids that move, or those that stay, in order. */
  function Select(p: Phase, trips: Trips, today: int, ids: seq<string>, moving: bool): seq<string> {
    if ids == [] then []
    else
      var head := if MovesId(p, trips, today, ids[0]) == moving then [ids[0]] else [];
      head + Select(p, trips, today, ids[1..], moving)
  }

  // ----- what a phase does to the texts -----

  datatype Outcome = Outcome(row: Row, completed: bool)

  /** One phase on any texts. A failed lookup or an unreadable date leaves everything as it was. */
  function PhaseRow(p: Phase, trips: Trips, today: int, row: Row): Outcome {
    var text := Text(Get(row, p.From()));
    if text == "" then Outcome(row, true)
    else
      var ids := Split(text);
      if !AllReadable(p, trips, ids) then Outcome(row, false)
      else
        var row' := Set(row, p.From(), Join(Select(p, trips, today, ids, false)));
        Outcome(Set(row', p.To(), Text(Get(row', p.To())) + Join(Select(p, trips, today, ids, true))), true)
  }

  function SweepRow(trips: Trips, today: int, row: Row): Outcome {
    var a := PhaseRow(Started, trips, today, row);
    if !a.completed then a
    else
      var b := PhaseRow(Postponed, trips, today, a.row);
      if !b.completed then b else PhaseRow(Finished, trips, today, b.row)
  }

  // ----- when the database fails between the two updates of a phase -----

  /** Only the column that the phase takes from has been stored. */
  function CutRow(p: Phase, trips: Trips, today: int, row: Row): Outcome {
    var text := Text(Get(row, p.From()));
    if text == "" then Outcome(row, true)
    else
      var ids := Split(text);
      if !AllReadable(p, trips, ids) then Outcome(row, false)
      else Outcome(Set(row, p.From(), Join(Select(p, trips, today, ids, false))), false)
  }

  /** A phase; `broken` says that the database fails between its updates. */
  function PhaseWith(p: Phase, trips: Trips, today: int, row: Row, broken: bool): Outcome {
    if broken then CutRow(p, trips, today, row) else PhaseRow(p, trips, today, row)
  }

  /** A sweep; the database fails between the updates of the phase `broken`, if there is one. */
  function SweepWith(trips: Trips, today: int, row: Row, broken: Option<Phase>): Outcome {
    var a := PhaseWith(Started, trips, today, row, broken == Some(Started));
    if !a.completed then a
    else
      var b := PhaseWith(Postponed, trips, today, a.row, broken == Some(Postponed));
      if !b.completed then b else PhaseWith(Finished, trips, today, b.row, broken == Some(Finished))
  }

  // ----- appending -----

  /** Appending an id to the current column. */
  function AppendRow(row: Row, id: string): Row {
    row.(current := Some(Text(row.current) + id + ","))
  }

  type Users = map<string, Row>

  function AppendFor(users: Users, name: string, id: string): Users {
    if name in users then users[name := AppendRow(users[name], id)] else users
  }

  function AppendForAll(users: Users, names: seq<string>, id: string): Users {
    if names == [] then users else AppendForAll(AppendFor(users, names[0], id), names[1..], id)
  }

  lemma {:induction false} AppendForAllSplit(users: Users, names: seq<string>, n: nat, id: string)
    requires n < |names|
    ensures AppendForAll(users, names[..n + 1], id) == AppendFor(AppendForAll(users, names[..n], id), names[n], id)
    decreases n
  {
    if n == 0 {
      assert names[..1][1..] == [] && names[..0] == [];
    } else {
      assert names[..n + 1][1..] == names[1..][..n] && names[..n][1..] == names[1..][..n - 1];
      assert names[..n + 1][0] == names[..n][0] == names[0];
      AppendForAllSplit(AppendFor(users, names[0], id), names[1..], n - 1, id);
    }
  }

  lemma {:induction false} SelectAppend(p: Phase, trips: Trips, today: int, ids: seq<string>, n: nat, moving: bool)
    requires n < |ids|
    ensures Select(p, trips, today, ids[..n + 1], moving)
         == Select(p, trips, today, ids[..n], moving)
            + (if MovesId(p, trips, today, ids[n]) == moving then [ids[n]] else [])
    decreases n
  {
    if n == 0 {
      assert ids[..1][1..] == [] && ids[..0] == [];
    } else {
      assert ids[..n + 1][1..] == ids[1..][..n] && ids[..n][1..] == ids[1..][..n - 1];
      assert ids[..n + 1][0] == ids[..n][0] == ids[0];
      SelectAppend(p, trips, today, ids[1..], n - 1, moving);
    }
  }

  /** What one more id adds to the two texts. */
  lemma {:induction false} ClassifyStep(p: Phase, trips: Trips, today: int, ids: seq<string>, i: nat)
    requires i < |ids|
    ensures var moved, kept := Select(p, trips, today, ids[..i], true), Select(p, trips, today, ids[..i], false);
            if MovesId(p, trips, today, ids[i]) then
              && Join(Select(p, trips, today, ids[..i + 1], true)) == Join(moved) + (ids[i] + ",")
              && Join(Select(p, trips, today, ids[..i + 1], false)) == Join(kept)
            else
              && Join(Select(p, trips, today, ids[..i + 1], true)) == Join(moved)
              && Join(Select(p, trips, today, ids[..i + 1], false)) == Join(kept) + (ids[i] + ",")
  {
    var moved, kept := Select(p, trips, today, ids[..i], true), Select(p, trips, today, ids[..i], false);
    SelectAppend(p, trips, today, ids, i, false);
    SelectAppend(p, trips, today, ids, i, true);
    JoinOne(moved, ids[i]);
    JoinOne(kept, ids[i]);
    assert kept + [] == kept && moved + [] == moved;
  }

  lemma {:induction false} UpdateSame(users: Users, name: string)
    requires name in users
    ensures users[name := users[name]] == users
  {
  }

  lemma {:induction false} UpdateTwice(users: Users, name: string, a: Row, b: Row)
    ensures users[name := a][name := b] == users[name := b]
  {
  }

  // ----- the servlets -----

  class Database {
    var users: Users
    var trips: Trips

    constructor (users: Users, trips: Trips)
      ensures this.users == users && this.trips == trips
    {
      this.users, this.trips := users, trips;
    }

    /** `SELECT <column> FROM User WHERE username = ?` */
    method Read(username: string, c: Column) returns (text: string)
      ensures text == if username in users then Text(Get(users[username], c)) else ""
    {
      text := "";
      if username in users {
        text := Text(Get(users[username], c));
      }
    }

    /** `UPDATE User SET <column> = ? WHERE username = ?` */
    method Write(username: string, c: Column, text: string)
      modifies this`users
      ensures users
           == if username in old(users) then old(users)[username := Set(old(users)[username], c, text)] else old(users)
    {
      if username in users {
        users := users[username := Set(users[username], c, text)];
      }
    }

    /** `SELECT Date_... FROM Trip WHERE TripID = ?`, for every id. */
    method LookUp(p: Phase, ids: seq<string>) returns (ok: bool, dates: seq<Option<int>>)
      ensures ok <==> forall k :: 0 <= k < |ids| ==> ids[k] in trips
      ensures ok ==> |dates| == |ids| && forall k :: 0 <= k < |ids| ==> dates[k] == p.Date(trips[ids[k]])
    {
      dates := [];
      for i := 0 to |ids|
        invariant |dates| == i
        invariant forall k :: 0 <= k < i ==> ids[k] in trips && dates[k] == p.Date(trips[ids[k]])
      {
        if ids[i] !in trips {
          return false, dates;
        }
        dates := dates + [p.Date(trips[ids[i]])];
      }
      return true, dates;
    }

    /** Sorts the ids into the text that stays and the text that moves. */
    method Classify(p: Phase, ids: seq<string>, dates: seq<Option<int>>, today: int)
      returns (ok: bool, keep: string, move: string)
      requires |dates| == |ids|
      requires forall k :: 0 <= k < |ids| ==> ids[k] in trips && dates[k] == p.Date(trips[ids[k]])
      ensures ok == AllReadable(p, trips, ids)
      ensures ok ==> keep == Join(Select(p, trips, today, ids, false))
      ensures ok ==> move == Join(Select(p, trips, today, ids, true))
    {
      keep, move := "", "";
      assert ids[..0] == [];
      for i := 0 to |ids|
        invariant forall k :: 0 <= k < i ==> Readable(p, trips, ids[k])
        invariant keep == Join(Select(p, trips, today, ids[..i], false))
        invariant move == Join(Select(p, trips, today, ids[..i], true))
      {
        if dates[i].None? {
          assert !Readable(p, trips, ids[i]);
          return false, keep, move;
        }
        ClassifyStep(p, trips, today, ids, i);
        if p.Moves(dates[i].value, today) {
          move := move + (ids[i] + ",");
        } else {
          keep := keep + (ids[i] + ",");
        }
      }
      assert ids[..|ids|] == ids;
      return true, keep, move;
    }

    /** One phase: look up every date, sort the ids into two texts, then store both. With `broken`
        the database fails between the two updates. */
    method RunPhase(username: string, p: Phase, today: int, broken: bool) returns (completed: bool)
      modifies this`users
      ensures username !in old(users) ==> completed && users == old(users)
      ensures username in old(users) ==>
                var r := PhaseWith(p, trips, today, old(users)[username], broken);
                completed == r.completed && users == old(users)[username := r.row]
    {
      ghost var row := if username in users then users[username] else Row(None, None, None);
      if username in users {
        UpdateSame(users, username);
      }
      var text := Read(username, p.From());
      if text == "" {
        return true;
      }
      var ids := Split(text);
      var found, dates := LookUp(p, ids);
      if !found {
        return false;
      }
      var readable, keep, move := Classify(p, ids, dates, today);
      if !readable {
        return false;
      }
      Write(username, p.From(), keep);
      if broken {
        return false;
      }
      ghost var row' := Set(row, p.From(), keep);
      var original := Read(username, p.To());
      Write(username, p.To(), original + move);
      UpdateTwice(old(users), username, row', Set(row', p.To(), original + move));
      return true;
    }

    /** `UpdateTripStatus.doPost`; the database fails between the updates of the phase `broken`, if
        there is one. */
    method UpdateTripStatus(username: string, today: int, broken: Option<Phase>) returns (completed: bool)
      modifies this`users
      ensures username !in old(users) ==> completed && users == old(users)
      ensures username in old(users) ==>
                var r := SweepWith(trips, today, old(users)[username], broken);
                completed == r.completed && users == old(users)[username := r.row]
    {
      ghost var row := if username in users then users[username] else Row(None, None, None);
      ghost var a := PhaseWith(Started, trips, today, row, broken == Some(Started));
      ghost var b := PhaseWith(Postponed, trips, today, a.row, broken == Some(Postponed));
      ghost var c := PhaseWith(Finished, trips, today, b.row, broken == Some(Finished));
      UpdateTwice(users, username, a.row, b.row);
      UpdateTwice(users, username, b.row, c.row);
      completed := RunPhase(username, Started, today, broken == Some(Started));
      if completed {
        completed := RunPhase(username, Postponed, today, broken == Some(Postponed));
      }
      if completed {
        completed := RunPhase(username, Finished, today, broken == Some(Finished));
      }
    }

    /** `NewTrip.doPost`: stores the trip, then appends its id for every invited user and for the
        owner. Names that are not in the table are ignored. */
    method NewTrip(id: string, trip: Trip, invited: Option<string>, owner: string)
      modifies this
      ensures trips == old(trips)[id := trip]
      ensures users == AppendFor(AppendForAll(old(users), Split(Text(invited)), id), owner, id)
    {
      trips := trips[id := trip];
      var names := Split(Text(invited));
      assert names[..0] == [];
      for i := 0 to |names|
        invariant trips == old(trips)[id := trip]
        invariant users == AppendForAll(old(users), names[..i], id)
      {
        AppendForAllSplit(old(users), names, i, id);
        Append(names[i], id);
      }
      assert names[..|names|] == names;
      Append(owner, id);
    }

    /** Reads the current column, appends the id and writes it back. */
    method Append(username: string, id: string)
      modifies this`users
      ensures users == AppendFor(old(users), username, id)
    {
      var text := Read(username, Current);
      text := text + id + ",";
      Write(username, Current, text);
    }
  }
}
