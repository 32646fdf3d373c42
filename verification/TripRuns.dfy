/** What the sweep does to a user's lists of trips, and what holds over whole runs of new trips and
    sweeps. */
module TripRuns {
  import opened Wrappers
  import opened TripStrings
  import opened TripSweep

  datatype Lists = Lists(pending: seq<string>, current: seq<string>, history: seq<string>)

  /** The ids a text stands for. */
  function Ids(text: string): seq<string> {
    if text == "" then [] else Split(text)
  }

  /** Every id is followed by its comma. */
  predicate Formatted(text: string) {
    AreIds(Ids(text)) && text == Join(Ids(text))
  }

  function ListsOf(row: Row): Lists {
    Lists(Ids(Text(row.pending)), Ids(Text(row.current)), Ids(Text(row.history)))
  }

  predicate RowFormatted(row: Row) {
    Formatted(Text(row.pending)) && Formatted(Text(row.current)) && Formatted(Text(row.history))
  }

  function Of(l: Lists, c: Column): seq<string> {
    match c
    case Pending => l.pending
    case Current => l.current
    case History => l.history
  }

  function Put(l: Lists, c: Column, ids: seq<string>): Lists {
    match c
    case Pending => l.(pending := ids)
    case Current => l.(current := ids)
    case History => l.(history := ids)
  }

  lemma {:induction false} IdsOfJoin(ids: seq<string>)
    requires AreIds(ids)
    ensures Ids(Join(ids)) == ids && Formatted(Join(ids))
  {
    if ids != [] {
      SplitOfJoin(ids);
    }
  }

  lemma {:induction false} JoinedTexts(a: string, b: seq<string>)
    requires Formatted(a) && AreIds(b)
    ensures Ids(a + Join(b)) == Ids(a) + b && Formatted(a + Join(b))
  {
    JoinAppend(Ids(a), b);
    IdsOfJoin(Ids(a) + b);
  }

  // ----- the phases on lists -----

  function PhaseLists(p: Phase, trips: Trips, today: int, l: Lists): (r: (Lists, bool)) {
    var ids := Of(l, p.From());
    if ids == [] then (l, true)
    else if !AllReadable(p, trips, ids) then (l, false)
    else
      var l' := Put(l, p.From(), Select(p, trips, today, ids, false));
      (Put(l', p.To(), Of(l', p.To()) + Select(p, trips, today, ids, true)), true)
  }

  function SweepLists(trips: Trips, today: int, l: Lists): (Lists, bool) {
    var a := PhaseLists(Started, trips, today, l);
    if !a.1 then a
    else
      var b := PhaseLists(Postponed, trips, today, a.0);
      if !b.1 then b else PhaseLists(Finished, trips, today, b.0)
  }

  lemma {:induction false} SelectIds(p: Phase, trips: Trips, today: int, ids: seq<string>, moving: bool)
    requires AreIds(ids)
    ensures AreIds(Select(p, trips, today, ids, moving))
    decreases |ids|
  {
    if ids != [] {
      SelectIds(p, trips, today, ids[1..], moving);
    }
  }

  /** Storing a formatted text in one column changes that list and no other. */
  lemma {:induction false} SetLists(row: Row, c: Column, text: string)
    requires RowFormatted(row) && Formatted(text)
    ensures RowFormatted(Set(row, c, text)) && ListsOf(Set(row, c, text)) == Put(ListsOf(row), c, Ids(text))
  {
  }

  lemma {:induction false} GetLists(row: Row, c: Column)
    requires RowFormatted(row)
    ensures Formatted(Text(Get(row, c))) && Ids(Text(Get(row, c))) == Of(ListsOf(row), c)
  {
  }

  /** A phase on the texts is the phase on the lists they stand for. */
  lemma {:induction false} PhaseRefines(p: Phase, trips: Trips, today: int, row: Row)
    requires RowFormatted(row)
    ensures var r := PhaseRow(p, trips, today, row);
            RowFormatted(r.row) && (ListsOf(r.row), r.completed) == PhaseLists(p, trips, today, ListsOf(row))
  {
    GetLists(row, p.From());
    var ids := Of(ListsOf(row), p.From());
    if ids != [] && AllReadable(p, trips, ids) {
      var stay, move := Select(p, trips, today, ids, false), Select(p, trips, today, ids, true);
      SelectIds(p, trips, today, ids, false);
      SelectIds(p, trips, today, ids, true);
      IdsOfJoin(stay);
      SetLists(row, p.From(), Join(stay));
      var row' := Set(row, p.From(), Join(stay));
      GetLists(row', p.To());
      JoinedTexts(Text(Get(row', p.To())), move);
      SetLists(row', p.To(), Text(Get(row', p.To())) + Join(move));
    }
  }

  /** The sweep keeps the texts well formed and does on them what it does on the lists. */
  lemma {:induction false} SweepRefines(trips: Trips, today: int, row: Row)
    requires RowFormatted(row)
    ensures var r := SweepRow(trips, today, row);
            RowFormatted(r.row) && (ListsOf(r.row), r.completed) == SweepLists(trips, today, ListsOf(row))
  {
    PhaseRefines(Started, trips, today, row);
    var a := PhaseRow(Started, trips, today, row);
    PhaseRefines(Postponed, trips, today, a.row);
    PhaseRefines(Finished, trips, today, PhaseRow(Postponed, trips, today, a.row).row);
  }

  // ----- conservation -----

  function AllIds(l: Lists): multiset<string> {
    multiset(l.pending) + multiset(l.current) + multiset(l.history)
  }

  lemma {:induction false} SelectStep(p: Phase, trips: Trips, today: int, ids: seq<string>, moving: bool)
    requires ids != []
    ensures multiset(Select(p, trips, today, ids, moving))
         == (if MovesId(p, trips, today, ids[0]) == moving then multiset{ids[0]} else multiset{})
          + multiset(Select(p, trips, today, ids[1..], moving))
  {
  }

  lemma {:induction false} HeadAndTail(ids: seq<string>)
    requires ids != []
    ensures multiset(ids) == multiset{ids[0]} + multiset(ids[1..])
  {
    assert ids == [ids[0]] + ids[1..];
  }

  lemma {:induction false} Rearranged(x: multiset<string>, a: multiset<string>, b: multiset<string>)
    ensures (x + a) + (multiset{} + b) == x + (a + b)
    ensures (multiset{} + a) + (x + b) == x + (a + b)
  {
  }

  lemma {:induction false} SelectPartitions(p: Phase, trips: Trips, today: int, ids: seq<string>)
    ensures var stay, move := Select(p, trips, today, ids, false), Select(p, trips, today, ids, true);
            multiset(stay) + multiset(move) == multiset(ids)
    decreases |ids|
  {
    if ids != [] {
      SelectPartitions(p, trips, today, ids[1..]);
      SelectStep(p, trips, today, ids, false);
      SelectStep(p, trips, today, ids, true);
      HeadAndTail(ids);
      Rearranged(multiset{ids[0]}, multiset(Select(p, trips, today, ids[1..], false)),
                 multiset(Select(p, trips, today, ids[1..], true)));
    }
  }

  /** What a phase that finds its dates does to the two columns it works on, and to the third. */
  lemma {:induction false} PhaseListsAt(p: Phase, trips: Trips, today: int, l: Lists)
    requires Of(l, p.From()) == [] || AllReadable(p, trips, Of(l, p.From()))
    ensures var l', ids := PhaseLists(p, trips, today, l).0, Of(l, p.From());
            && Of(l', p.From()) == Select(p, trips, today, ids, false)
            && Of(l', p.To()) == Of(l, p.To()) + Select(p, trips, today, ids, true)
            && (p.Finished? ==> l'.pending == l.pending) && (!p.Finished? ==> l'.history == l.history)
  {
    if Of(l, p.From()) == [] {
      assert Of(l, p.To()) + [] == Of(l, p.To());
    }
  }

  lemma {:induction false} Shifted(ids: seq<string>, other: seq<string>, stay: seq<string>, move: seq<string>)
    requires multiset(stay) + multiset(move) == multiset(ids)
    ensures multiset(stay) + multiset(other + move) == multiset(ids) + multiset(other)
  {
    assert multiset(other + move) == multiset(other) + multiset(move);
  }

  lemma {:induction false} SumsReordered(a: multiset<string>, b: multiset<string>, c: multiset<string>)
    ensures b + a + c == a + b + c && c + a + b == a + b + c && c + b + a == a + b + c
  {
  }

  lemma {:induction false} PhaseConserves(p: Phase, trips: Trips, today: int, l: Lists)
    ensures AllIds(PhaseLists(p, trips, today, l).0) == AllIds(l)
  {
    var ids, other := Of(l, p.From()), Of(l, p.To());
    if ids == [] || AllReadable(p, trips, ids) {
      var l' := PhaseLists(p, trips, today, l).0;
      PhaseListsAt(p, trips, today, l);
      SelectPartitions(p, trips, today, ids);
      Shifted(ids, other, Of(l', p.From()), Of(l', p.To())[|other|..]);
      TwoColumns(p, l, l');
    }
  }

  /** What a phase conserves in the two columns it works on, it conserves in all three. */
  lemma {:induction false} TwoColumns(p: Phase, l: Lists, l': Lists)
    requires multiset(Of(l', p.From())) + multiset(Of(l', p.To()))
          == multiset(Of(l, p.From())) + multiset(Of(l, p.To()))
    requires (p.Finished? ==> l'.pending == l.pending) && (!p.Finished? ==> l'.history == l.history)
    ensures AllIds(l') == AllIds(l)
  {
    match p
    case Started =>
    case Postponed =>
      SumsReordered(multiset(l.current), multiset(l.pending), multiset(l.history));
      SumsReordered(multiset(l'.current), multiset(l'.pending), multiset(l'.history));
    case Finished =>
      SumsReordered(multiset(l.current), multiset(l.history), multiset(l.pending));
      SumsReordered(multiset(l'.current), multiset(l'.history), multiset(l'.pending));
  }

  /** No id is lost or duplicated, whether the sweep completes or breaks off between phases. */
  lemma {:induction false} SweepConserves(trips: Trips, today: int, row: Row)
    requires RowFormatted(row)
    ensures AllIds(ListsOf(SweepRow(trips, today, row).row)) == AllIds(ListsOf(row))
  {
    SweepRefines(trips, today, row);
    var l := ListsOf(row);
    PhaseConserves(Started, trips, today, l);
    var a := PhaseLists(Started, trips, today, l).0;
    PhaseConserves(Postponed, trips, today, a);
    PhaseConserves(Finished, trips, today, PhaseLists(Postponed, trips, today, a).0);
  }

  // ----- what a database failure between two updates loses -----

  /** The ids a phase is to move, if it gets as far as storing. */
  function Moving(p: Phase, trips: Trips, today: int, l: Lists): seq<string> {
    if AllReadable(p, trips, Of(l, p.From())) then Select(p, trips, today, Of(l, p.From()), true) else []
  }

  /** The ids that are to move in the phase `broken` of a sweep, if the sweep gets there. */
  function Lost(trips: Trips, today: int, row: Row, broken: Phase): seq<string> {
    var a := PhaseRow(Started, trips, today, row);
    var b := PhaseRow(Postponed, trips, today, a.row);
    match broken
    case Started => Moving(Started, trips, today, ListsOf(row))
    case Postponed => if a.completed then Moving(Postponed, trips, today, ListsOf(a.row)) else []
    case Finished => if a.completed && b.completed then Moving(Finished, trips, today, ListsOf(b.row)) else []
  }

  lemma {:induction false} RemovedFrom(l: Lists, c: Column, stay: seq<string>, move: seq<string>)
    requires multiset(stay) + multiset(move) == multiset(Of(l, c))
    ensures AllIds(Put(l, c, stay)) + multiset(move) == AllIds(l)
  {
  }

  /** `row'` holds the ids of `row` without those in `lost`. */
  predicate Loses(row: Row, row': Row, lost: seq<string>) {
    RowFormatted(row') && AllIds(ListsOf(row')) + multiset(lost) == AllIds(ListsOf(row))
  }

  /** A phase whose second update fails loses exactly the ids it was to move. */
  lemma {:induction false} CutLoses(p: Phase, trips: Trips, today: int, row: Row)
    requires RowFormatted(row)
    ensures var r := CutRow(p, trips, today, row);
            && Loses(row, r.row, Moving(p, trips, today, ListsOf(row)))
            && (r.completed ==> r.row == row && Moving(p, trips, today, ListsOf(row)) == [])
  {
    GetLists(row, p.From());
    var ids := Of(ListsOf(row), p.From());
    if ids != [] && AllReadable(p, trips, ids) {
      var stay := Select(p, trips, today, ids, false);
      SelectIds(p, trips, today, ids, false);
      IdsOfJoin(stay);
      SetLists(row, p.From(), Join(stay));
      SelectPartitions(p, trips, today, ids);
      RemovedFrom(ListsOf(row), p.From(), stay, Select(p, trips, today, ids, true));
    }
  }

  lemma {:induction false} PhaseLosesNothing(p: Phase, trips: Trips, today: int, row: Row)
    requires RowFormatted(row)
    ensures Loses(row, PhaseRow(p, trips, today, row).row, [])
  {
    PhaseRefines(p, trips, today, row);
    PhaseConserves(p, trips, today, ListsOf(row));
  }

  lemma {:induction false} LosesAfter(a: Row, b: Row, c: Row, lost: seq<string>)
    requires Loses(a, b, []) && Loses(b, c, lost)
    ensures Loses(a, c, lost)
  {
    assert AllIds(ListsOf(b)) + multiset([]) == AllIds(ListsOf(b));
  }

  /** The same for the phase in question, with the rest of the sweep if there is nothing to store. */
  lemma {:induction false} BrokenFrom(trips: Trips, today: int, row: Row, broken: Phase)
    requires RowFormatted(row)
    ensures var r := CutRow(broken, trips, today, row);
            r.completed ==> r.row == row && Moving(broken, trips, today, ListsOf(row)) == []
    ensures Loses(row, CutRow(broken, trips, today, row).row, Moving(broken, trips, today, ListsOf(row)))
    ensures var b := PhaseRow(Postponed, trips, today, row); Loses(row, b.row, [])
    ensures var b := PhaseRow(Postponed, trips, today, row); Loses(row, PhaseRow(Finished, trips, today, b.row).row, [])
    ensures Loses(row, PhaseRow(Finished, trips, today, row).row, [])
  {
    CutLoses(broken, trips, today, row);
    var b := PhaseRow(Postponed, trips, today, row);
    PhaseLosesNothing(Postponed, trips, today, row);
    PhaseLosesNothing(Finished, trips, today, row);
    PhaseLosesNothing(Finished, trips, today, b.row);
    LosesAfter(row, b.row, PhaseRow(Finished, trips, today, b.row).row, []);
  }

  lemma {:induction false} BrokenLater(trips: Trips, today: int, row: Row, a: Row, broken: Phase)
    requires Loses(row, a, []) && (broken.Postponed? || broken.Finished?)
    ensures var b := PhaseWith(Postponed, trips, today, a, broken.Postponed?);
            var r := if b.completed then PhaseWith(Finished, trips, today, b.row, broken.Finished?) else b;
            var lost := if broken.Postponed? then Moving(Postponed, trips, today, ListsOf(a))
                        else if b.completed then Moving(Finished, trips, today, ListsOf(b.row)) else [];
            Loses(row, r.row, lost)
  {
    if broken.Postponed? {
      BrokenFrom(trips, today, a, Postponed);
      LosesAfter(row, a, CutRow(Postponed, trips, today, a).row, Moving(Postponed, trips, today, ListsOf(a)));
      LosesAfter(row, a, PhaseRow(Finished, trips, today, a).row, []);
    } else {
      var b := PhaseRow(Postponed, trips, today, a);
      PhaseLosesNothing(Postponed, trips, today, a);
      LosesAfter(row, a, b.row, []);
      BrokenFrom(trips, today, b.row, Finished);
      LosesAfter(row, b.row, CutRow(Finished, trips, today, b.row).row, Moving(Finished, trips, today, ListsOf(b.row)));
    }
  }

  lemma {:induction false} FirstBroken(trips: Trips, today: int, row: Row)
    ensures var a := CutRow(Started, trips, today, row);
            SweepWith(trips, today, row, Some(Started))
            == if !a.completed then a
               else
                 var b := PhaseRow(Postponed, trips, today, a.row);
                 if b.completed then PhaseRow(Finished, trips, today, b.row) else b
  {
  }

  lemma {:induction false} StartedBroken(trips: Trips, today: int, row: Row)
    requires RowFormatted(row)
    ensures Loses(row, SweepWith(trips, today, row, Some(Started)).row, Moving(Started, trips, today, ListsOf(row)))
  {
    FirstBroken(trips, today, row);
    BrokenFrom(trips, today, row, Started);
  }

  lemma {:induction false} LaterBroken(trips: Trips, today: int, row: Row, broken: Phase)
    requires broken.Postponed? || broken.Finished?
    ensures var a := PhaseRow(Started, trips, today, row);
            SweepWith(trips, today, row, Some(broken))
            == if !a.completed then a
               else
                 var b := PhaseWith(Postponed, trips, today, a.row, broken.Postponed?);
                 if b.completed then PhaseWith(Finished, trips, today, b.row, broken.Finished?) else b
  {
  }

  lemma {:induction false} BrokenSweep(trips: Trips, today: int, row: Row, broken: Phase)
    requires RowFormatted(row)
    ensures Loses(row, SweepWith(trips, today, row, Some(broken)).row, Lost(trips, today, row, broken))
  {
    if broken.Started? {
      StartedBroken(trips, today, row);
    } else {
      var a := PhaseRow(Started, trips, today, row);
      LaterBroken(trips, today, row, broken);
      PhaseLosesNothing(Started, trips, today, row);
      if a.completed {
        BrokenLater(trips, today, row, a.row, broken);
      }
    }
  }

  /** A sweep whose database fails between the two updates of a phase keeps all texts well formed
      and loses exactly the ids that the phase was to move: it conserves the ids if and only if
      there are none. */
  lemma {:induction false} BrokenSweepLoses(trips: Trips, today: int, row: Row, broken: Phase)
    requires RowFormatted(row)
    ensures var r, lost := SweepWith(trips, today, row, Some(broken)).row, Lost(trips, today, row, broken);
            && RowFormatted(r) && AllIds(ListsOf(r)) + multiset(lost) == AllIds(ListsOf(row))
            && (AllIds(ListsOf(r)) == AllIds(ListsOf(row)) <==> lost == [])
  {
    var r, lost := SweepWith(trips, today, row, Some(broken)).row, Lost(trips, today, row, broken);
    BrokenSweep(trips, today, row, broken);
    NothingAdded(AllIds(ListsOf(r)), lost);
  }

  lemma {:induction false} NothingAdded(ids: multiset<string>, lost: seq<string>)
    ensures ids + multiset(lost) == ids <==> lost == []
  {
    assert |ids + multiset(lost)| == |ids| + |lost|;
  }

  /** Without a failure it is the sweep. */
  lemma {:induction false} UnbrokenSweep(trips: Trips, today: int, row: Row)
    ensures SweepWith(trips, today, row, None) == SweepRow(trips, today, row)
  {
  }

  lemma {:induction false} SelectOne(p: Phase, trips: Trips, today: int, id: string)
    requires MovesId(p, trips, today, id)
    ensures Select(p, trips, today, [id], true) == [id] && AllReadable(p, trips, [id])
  {
    assert [id][1..] == [];
  }

  /** A user with one pending trip that has begun loses it if the first phase breaks off. */
  lemma {:induction false} OneTripLost(trips: Trips, today: int, row: Row)
    requires row == Row(Some("7,"), None, None) && trips == map["7" := Trip(Some(today - 1), None)]
    ensures RowFormatted(row) && AllIds(ListsOf(row)) == multiset{"7"}
    ensures Lost(trips, today, row, Started) == ["7"]
    ensures AllIds(ListsOf(SweepWith(trips, today, row, Some(Started)).row)) == multiset{}
  {
    OneId();
    assert ListsOf(row) == Lists(["7"], [], []);
    SelectOne(Started, trips, today, "7");
    BrokenSweepLoses(trips, today, row, Started);
    NothingLeft(AllIds(ListsOf(SweepWith(trips, today, row, Some(Started)).row)));
  }

  lemma {:induction false} OneId()
    ensures Ids("7,") == ["7"] && Formatted("7,") && Ids("") == [] && Formatted("")
  {
    assert ["7"][1..] == [];
    assert Join(["7"]) == "7" + "," + "" == "7,";
    IdsOfJoin(["7"]);
    IdsOfJoin([]);
  }

  lemma {:induction false} NothingLeft(ids: multiset<string>)
    requires ids + multiset(["7"]) == multiset{"7"}
    ensures ids == multiset{}
  {
    assert |ids + multiset(["7"])| == |ids| + 1;
  }

  // ----- classification -----

  predicate Stays(p: Phase, trips: Trips, today: int, id: string) {
    Readable(p, trips, id) && !p.Moves(p.Date(trips[id]).value, today)
  }

  predicate AllStay(p: Phase, trips: Trips, today: int, ids: seq<string>) {
    forall k :: 0 <= k < |ids| ==> Stays(p, trips, today, ids[k])
  }

  predicate AllMove(p: Phase, trips: Trips, today: int, ids: seq<string>) {
    forall k :: 0 <= k < |ids| ==> MovesId(p, trips, today, ids[k])
  }

  lemma {:induction false} SelectSorts(p: Phase, trips: Trips, today: int, ids: seq<string>)
    requires AllReadable(p, trips, ids)
    ensures AllStay(p, trips, today, Select(p, trips, today, ids, false))
    ensures AllMove(p, trips, today, Select(p, trips, today, ids, true))
    decreases |ids|
  {
    if ids != [] {
      assert Readable(p, trips, ids[0]);
      assert AllReadable(p, trips, ids[1..]);
      SelectSorts(p, trips, today, ids[1..]);
    }
  }

  /** A selection only drops ids. */
  lemma {:induction false} SelectKeeps(p: Phase, trips: Trips, today: int, ids: seq<string>, moving: bool,
                                      q: Phase, day: int)
    requires AllStay(q, trips, day, ids)
    ensures AllStay(q, trips, day, Select(p, trips, today, ids, moving))
    decreases |ids|
  {
    if ids != [] {
      assert AllStay(q, trips, day, ids[1..]);
      SelectKeeps(p, trips, today, ids[1..], moving, q, day);
    }
  }

  /** Pending trips begin today or later; current ones have begun and have not ended. */
  predicate Classified(trips: Trips, today: int, l: Lists) {
    && AllStay(Started, trips, today, l.pending)
    && AllStay(Postponed, trips, today, l.current)
    && AllStay(Finished, trips, today, l.current)
  }

  lemma {:induction false} PostponedStayPending(trips: Trips, today: int, ids: seq<string>)
    requires AllMove(Postponed, trips, today, ids)
    ensures AllStay(Started, trips, today, ids)
  {
    forall k | 0 <= k < |ids|
      ensures Stays(Started, trips, today, ids[k])
    {
      assert MovesId(Postponed, trips, today, ids[k]);
    }
  }

  lemma {:induction false} SweepClassifiesLists(trips: Trips, today: int, l: Lists)
    requires SweepLists(trips, today, l).1
    ensures Classified(trips, today, SweepLists(trips, today, l).0)
  {
    var a := PhaseLists(Started, trips, today, l).0;
    if l.pending != [] {
      SelectSorts(Started, trips, today, l.pending);
    }
    assert AllStay(Started, trips, today, a.pending);
    var b := PhaseLists(Postponed, trips, today, a).0;
    if a.current != [] {
      SelectSorts(Postponed, trips, today, a.current);
      PostponedStayPending(trips, today, Select(Postponed, trips, today, a.current, true));
    }
    assert AllStay(Started, trips, today, b.pending) && AllStay(Postponed, trips, today, b.current);
    if b.current != [] {
      SelectSorts(Finished, trips, today, b.current);
      SelectKeeps(Finished, trips, today, b.current, false, Postponed, today);
    }
  }

  /** What a completed sweep leaves behind is sorted by date. */
  lemma {:induction false} SweepClassifies(trips: Trips, today: int, row: Row)
    requires RowFormatted(row) && SweepRow(trips, today, row).completed
    ensures var l := ListsOf(SweepRow(trips, today, row).row);
            && (forall id :: id in l.pending ==>
                  id in trips && trips[id].begin.Some? && trips[id].begin.value >= today)
            && (forall id :: id in l.current ==>
                  && id in trips && trips[id].begin.Some? && trips[id].end.Some?
                  && trips[id].begin.value <= today <= trips[id].end.value)
  {
    SweepRefines(trips, today, row);
    SweepClassifiesLists(trips, today, ListsOf(row));
    var l := ListsOf(SweepRow(trips, today, row).row);
    forall id | id in l.pending
      ensures id in trips && trips[id].begin.Some? && trips[id].begin.value >= today
    {
      assert Stays(Started, trips, today, id);
    }
    forall id | id in l.current
      ensures id in trips && trips[id].begin.Some? && trips[id].end.Some?
      ensures trips[id].begin.value <= today <= trips[id].end.value
    {
      assert Stays(Postponed, trips, today, id) && Stays(Finished, trips, today, id);
    }
  }

  // ----- when a sweep completes -----

  /** The dates a sweep looks at: when every trip begins, and when those end that have begun. */
  ghost predicate Dated(trips: Trips, today: int, l: Lists) {
    && (forall id :: id in l.pending || id in l.current ==> id in trips && trips[id].begin.Some?)
    && (forall id :: id in l.pending && trips[id].begin.value < today ==> trips[id].end.Some?)
    && (forall id :: id in l.current && trips[id].begin.value <= today ==> trips[id].end.Some?)
  }

  predicate EachReadable(p: Phase, trips: Trips, ids: seq<string>) {
    forall id :: id in ids ==> Readable(p, trips, id)
  }

  lemma {:induction false} PhaseCompletes(p: Phase, trips: Trips, today: int, l: Lists)
    ensures PhaseLists(p, trips, today, l).1 <==> EachReadable(p, trips, Of(l, p.From()))
  {
    var ids := Of(l, p.From());
    if EachReadable(p, trips, ids) {
      assert forall k :: 0 <= k < |ids| ==> ids[k] in ids;
    }
  }

  /** A selection has the ids that it asks for. */
  lemma {:induction false} SelectHas(p: Phase, trips: Trips, today: int, ids: seq<string>, moving: bool, id: string)
    ensures id in Select(p, trips, today, ids, moving) <==> id in ids && MovesId(p, trips, today, id) == moving
    decreases |ids|
  {
    if ids != [] {
      SelectHas(p, trips, today, ids[1..], moving, id);
      assert id in ids <==> id == ids[0] || id in ids[1..];
    }
  }

  /** Which ids a completed phase leaves in the column it takes from, and adds to the other. */
  lemma {:induction false} PhaseMembers(p: Phase, trips: Trips, today: int, l: Lists, id: string)
    requires PhaseLists(p, trips, today, l).1
    ensures var l', ids := PhaseLists(p, trips, today, l).0, Of(l, p.From());
            && (id in Of(l', p.From()) <==> id in ids && !MovesId(p, trips, today, id))
            && (id in Of(l', p.To()) <==> id in Of(l, p.To()) || (id in ids && MovesId(p, trips, today, id)))
  {
    PhaseListsAt(p, trips, today, l);
    SelectHas(p, trips, today, Of(l, p.From()), false, id);
    SelectHas(p, trips, today, Of(l, p.From()), true, id);
  }

  /** What is in the current list when the last phase looks at it. */
  lemma {:induction false} BeforeFinished(trips: Trips, today: int, l: Lists, id: string)
    requires EachReadable(Started, trips, l.pending) && EachReadable(Postponed, trips, l.current)
    ensures var a := PhaseLists(Started, trips, today, l);
            var b := PhaseLists(Postponed, trips, today, a.0);
            && a.1 && b.1
            && (id in b.0.current <==>
                  && (id in l.current || (id in l.pending && MovesId(Started, trips, today, id)))
                  && !MovesId(Postponed, trips, today, id))
  {
    var a := PhaseLists(Started, trips, today, l).0;
    PhaseCompletes(Started, trips, today, l);
    forall other | other in a.current
      ensures Readable(Postponed, trips, other)
    {
      PhaseMembers(Started, trips, today, l, other);
    }
    PhaseCompletes(Postponed, trips, today, a);
    PhaseMembers(Started, trips, today, l, id);
    PhaseMembers(Postponed, trips, today, a, id);
  }

  lemma {:induction false} StartedKeepsCurrent(trips: Trips, today: int, l: Lists)
    requires SweepLists(trips, today, l).1
    ensures EachReadable(Started, trips, l.pending) && EachReadable(Postponed, trips, l.current)
  {
    var a := PhaseLists(Started, trips, today, l).0;
    PhaseCompletes(Started, trips, today, l);
    PhaseCompletes(Postponed, trips, today, a);
    forall id | id in l.current
      ensures Readable(Postponed, trips, id)
    {
      PhaseMembers(Started, trips, today, l, id);
    }
  }

  /** Whether an id that the last phase looks at needs an end date. */
  lemma {:induction false} EndNeeded(trips: Trips, today: int, l: Lists, id: string)
    requires EachReadable(Started, trips, l.pending) && EachReadable(Postponed, trips, l.current)
    ensures var b := PhaseLists(Postponed, trips, today, PhaseLists(Started, trips, today, l).0).0;
            id in b.current <==>
              || (id in l.pending && trips[id].begin.value < today)
              || (id in l.current && trips[id].begin.value <= today)
  {
    BeforeFinished(trips, today, l, id);
    assert id in l.pending ==> Readable(Started, trips, id);
    assert id in l.current ==> Readable(Postponed, trips, id);
  }

  lemma {:induction false} SweepListsComplete(trips: Trips, today: int, l: Lists)
    ensures SweepLists(trips, today, l).1 <==> Dated(trips, today, l)
  {
    var b := PhaseLists(Postponed, trips, today, PhaseLists(Started, trips, today, l).0).0;
    PhaseCompletes(Finished, trips, today, b);
    if SweepLists(trips, today, l).1 {
      StartedKeepsCurrent(trips, today, l);
      BeforeFinished(trips, today, l, "");
      forall id | id in l.pending || id in l.current
        ensures id in trips && trips[id].begin.Some?
        ensures id in l.pending && trips[id].begin.value < today ==> trips[id].end.Some?
        ensures id in l.current && trips[id].begin.value <= today ==> trips[id].end.Some?
      {
        assert id in l.pending ==> Readable(Started, trips, id);
        assert id in l.current ==> Readable(Postponed, trips, id);
        EndNeeded(trips, today, l, id);
      }
    }
    if Dated(trips, today, l) {
      assert EachReadable(Started, trips, l.pending) && EachReadable(Postponed, trips, l.current);
      BeforeFinished(trips, today, l, "");
      forall id | id in b.current
        ensures Readable(Finished, trips, id)
      {
        EndNeeded(trips, today, l, id);
      }
    }
  }

  /** A sweep completes exactly when every pending or current id is a trip with a begin date and
      those that have begun have an end date. */
  lemma {:induction false} SweepCompletes(trips: Trips, today: int, row: Row)
    requires RowFormatted(row)
    ensures SweepRow(trips, today, row).completed <==> Dated(trips, today, ListsOf(row))
  {
    SweepRefines(trips, today, row);
    SweepListsComplete(trips, today, ListsOf(row));
  }

  // ----- idempotence -----

  lemma {:induction false} SelectOfStaying(p: Phase, trips: Trips, today: int, ids: seq<string>)
    requires AllStay(p, trips, today, ids)
    ensures Select(p, trips, today, ids, false) == ids && Select(p, trips, today, ids, true) == []
    ensures AllReadable(p, trips, ids)
    decreases |ids|
  {
    if ids != [] {
      assert Stays(p, trips, today, ids[0]);
      assert AllStay(p, trips, today, ids[1..]);
      SelectOfStaying(p, trips, today, ids[1..]);
      assert AllReadable(p, trips, ids) by {
        forall k | 0 <= k < |ids|
          ensures Readable(p, trips, ids[k])
        {
          assert Stays(p, trips, today, ids[k]);
        }
      }
    }
  }

  /** The column a phase writes to is not NULL when the phase has something to look at. */
  predicate Touched(p: Phase, row: Row) {
    Text(Get(row, p.From())) != "" ==> Get(row, p.To()).Some?
  }

  lemma {:induction false} SetSame(row: Row, c: Column)
    requires Get(row, c).Some?
    ensures Set(row, c, Text(Get(row, c))) == row
  {
  }

  /** A phase that finds nothing to move rewrites what is there. */
  lemma {:induction false} PhaseRests(p: Phase, trips: Trips, today: int, row: Row)
    requires RowFormatted(row) && Touched(p, row)
    requires AllStay(p, trips, today, Of(ListsOf(row), p.From()))
    ensures PhaseRow(p, trips, today, row) == Outcome(row, true)
  {
    var text := Text(Get(row, p.From()));
    if text != "" {
      GetLists(row, p.From());
      var ids := Split(text);
      SelectOfStaying(p, trips, today, ids);
      SetSame(row, p.From());
      var other := Text(Get(row, p.To()));
      assert other + "" == other;
      SetSame(row, p.To());
    }
  }

  /** A completed phase has stored what it looked at, and no phase stores NULL. */
  lemma {:induction false} PhaseTouches(p: Phase, trips: Trips, today: int, row: Row)
    requires PhaseRow(p, trips, today, row).completed
    ensures Touched(p, PhaseRow(p, trips, today, row).row)
    ensures forall c :: Get(row, c).Some? ==> Get(PhaseRow(p, trips, today, row).row, c).Some?
  {
  }

  /** The phase that fills a column also stores the column it takes from. */
  lemma {:induction false} PostponedTouches(trips: Trips, today: int, row: Row)
    requires Touched(Started, row) && PhaseRow(Postponed, trips, today, row).completed
    ensures Touched(Started, PhaseRow(Postponed, trips, today, row).row)
  {
  }

  /** The last phase does not fill an empty current column. */
  lemma {:induction false} FinishedKeepsEmpty(trips: Trips, today: int, row: Row)
    ensures Text(row.current) == "" ==> PhaseRow(Finished, trips, today, row).row == row
    ensures PhaseRow(Finished, trips, today, row).row.pending == row.pending
  {
  }

  lemma {:induction false} SweepTouches(trips: Trips, today: int, row: Row)
    requires SweepRow(trips, today, row).completed
    ensures var r := SweepRow(trips, today, row).row;
            Touched(Started, r) && Touched(Postponed, r) && Touched(Finished, r)
  {
    var a := PhaseRow(Started, trips, today, row).row;
    PhaseTouches(Started, trips, today, row);
    var b := PhaseRow(Postponed, trips, today, a).row;
    PhaseTouches(Postponed, trips, today, a);
    PostponedTouches(trips, today, a);
    PhaseTouches(Finished, trips, today, b);
    FinishedKeepsEmpty(trips, today, b);
    assert Get(b, Current).Some? ==> Get(PhaseRow(Finished, trips, today, b).row, Current).Some?;
  }

  /** Repeating a completed sweep on the same day completes and changes no text. */
  lemma {:induction false} SweepIsIdempotent(trips: Trips, today: int, row: Row)
    requires RowFormatted(row) && SweepRow(trips, today, row).completed
    ensures var r := SweepRow(trips, today, row).row; SweepRow(trips, today, r) == Outcome(r, true)
  {
    var r := SweepRow(trips, today, row).row;
    SweepRefines(trips, today, row);
    SweepClassifiesLists(trips, today, ListsOf(row));
    SweepTouches(trips, today, row);
    PhaseRests(Started, trips, today, r);
    PhaseRests(Postponed, trips, today, r);
    PhaseRests(Finished, trips, today, r);
  }

  // ----- runs -----

  datatype Db = Db(users: Users, trips: Trips)

  datatype Op =
    | Create(id: string, trip: Trip, invited: Option<string>, owner: string)
    | Sweep(username: string, today: int)

  function Step(db: Db, op: Op): Db {
    match op
    case Create(id, trip, invited, owner) =>
      Db(AppendFor(AppendForAll(db.users, Split(Text(invited)), id), owner, id), db.trips[id := trip])
    case Sweep(username, today) =>
      if username in db.users then
        db.(users := db.users[username := SweepRow(db.trips, today, db.users[username]).row])
      else db
  }

  function Run(db: Db, ops: seq<Op>): Db
    decreases |ops|
  {
    if ops == [] then db else Run(Step(db, ops[0]), ops[1..])
  }

  /** New ids are proper and unused. */
  predicate OpOk(db: Db, op: Op) {
    op.Create? ==> IsId(op.id) && op.id !in db.trips
  }

  predicate OpsOk(db: Db, ops: seq<Op>)
    decreases |ops|
  {
    ops == [] || (OpOk(db, ops[0]) && OpsOk(Step(db, ops[0]), ops[1..]))
  }

  /** Sweeps happen on days from `day` on that never go back. */
  predicate DaysFrom(day: int, ops: seq<Op>)
    decreases |ops|
  {
    ops == [] ||
    match ops[0]
    case Create(_, _, _, _) => DaysFrom(day, ops[1..])
    case Sweep(_, today) => day <= today && DaysFrom(today, ops[1..])
  }

  predicate DbFormatted(db: Db) {
    UsersFormatted(db.users)
  }

  // ----- what a run on texts means -----

  function Copies(id: string, n: nat): (s: seq<string>)
    ensures |s| == n && forall k :: 0 <= k < n ==> s[k] == id
  {
    seq(n, _ => id)
  }

  /** How often a user is named. */
  function Times(names: seq<string>, u: string): nat {
    if names == [] then 0 else (if names[0] == u then 1 else 0) + Times(names[1..], u)
  }

  /** `n` more entries of a trip at the end of the current list. */
  function Plus(l: Lists, id: string, n: nat): Lists {
    l.(current := l.current + Copies(id, n))
  }

  lemma {:induction false} PlusPlus(l: Lists, id: string, m: nat, n: nat)
    ensures Plus(Plus(l, id, m), id, n) == Plus(l, id, m + n)
    ensures Plus(l, id, 0) == l
  {
    assert l.current + Copies(id, m) + Copies(id, n) == l.current + Copies(id, m + n);
    assert l.current + Copies(id, 0) == l.current;
  }

  lemma {:induction false} TimesConcat(a: seq<string>, b: seq<string>, u: string)
    ensures Times(a + b, u) == Times(a, u) + Times(b, u)
    decreases |a|
  {
    if a == [] {
      assert a + b == b;
    } else {
      assert (a + b)[1..] == a[1..] + b;
      TimesConcat(a[1..], b, u);
    }
  }

  lemma {:induction false} AppendRefines(row: Row, id: string)
    requires RowFormatted(row) && IsId(id)
    ensures RowFormatted(AppendRow(row, id))
    ensures ListsOf(AppendRow(row, id)) == Plus(ListsOf(row), id, 1)
  {
    JoinedTexts(Text(row.current), [id]);
    OneJoined(Text(row.current), id);
  }

  lemma {:induction false} OneJoined(text: string, id: string)
    ensures text + Join([id]) == text + id + "," && Copies(id, 1) == [id]
  {
    JoinOne([], id);
    assert [] + [id] == [id] && Join([]) + (id + ",") == id + ",";
    assert text + (id + ",") == text + id + ",";
  }

  predicate UsersFormatted(users: Users) {
    forall u :: u in users ==> RowFormatted(users[u])
  }

  /** Every user has got one entry of the trip for each time the names mention the user. */
  predicate UsersPlus(users: Users, users': Users, id: string, names: seq<string>) {
    && users'.Keys == users.Keys && UsersFormatted(users')
    && forall u :: u in users ==> ListsOf(users'[u]) == Plus(ListsOf(users[u]), id, Times(names, u))
  }

  lemma {:induction false} TimesOne(name: string, u: string)
    ensures Times([name], u) == if name == u then 1 else 0
  {
    assert [name][1..] == [];
  }

  lemma {:induction false} UserPlusOne(users: Users, name: string, id: string, u: string)
    requires IsId(id) && u in users && RowFormatted(users[u])
    ensures var users' := AppendFor(users, name, id);
            && u in users' && RowFormatted(users'[u])
            && ListsOf(users'[u]) == Plus(ListsOf(users[u]), id, Times([name], u))
  {
    TimesOne(name, u);
    if name == u {
      AppendRefines(users[u], id);
    } else {
      PlusPlus(ListsOf(users[u]), id, 0, 0);
    }
  }

  lemma {:induction false} AppendForPlus(users: Users, name: string, id: string)
    requires IsId(id) && UsersFormatted(users)
    ensures UsersPlus(users, AppendFor(users, name, id), id, [name])
  {
    forall u | u in users
      ensures RowFormatted(AppendFor(users, name, id)[u])
      ensures ListsOf(AppendFor(users, name, id)[u]) == Plus(ListsOf(users[u]), id, Times([name], u))
    {
      UserPlusOne(users, name, id, u);
    }
  }

  lemma {:induction false} PlusThenPlus(a: Users, b: Users, c: Users, id: string, one: seq<string>, two: seq<string>)
    requires UsersPlus(a, b, id, one) && UsersPlus(b, c, id, two)
    ensures UsersPlus(a, c, id, one + two)
  {
    forall u | u in a
      ensures ListsOf(c[u]) == Plus(ListsOf(a[u]), id, Times(one + two, u))
    {
      TimesConcat(one, two, u);
      PlusPlus(ListsOf(a[u]), id, Times(one, u), Times(two, u));
    }
  }

  lemma {:induction false} NobodyNamed(users: Users, id: string)
    requires UsersFormatted(users)
    ensures UsersPlus(users, users, id, [])
  {
    forall u | u in users
      ensures ListsOf(users[u]) == Plus(ListsOf(users[u]), id, 0)
    {
      PlusPlus(ListsOf(users[u]), id, 0, 0);
    }
  }

  lemma {:induction false} AppendForAllPlus(users: Users, names: seq<string>, id: string)
    requires IsId(id) && UsersFormatted(users)
    ensures UsersPlus(users, AppendForAll(users, names, id), id, names)
    decreases |names|
  {
    if names == [] {
      NobodyNamed(users, id);
    } else {
      var mid := AppendFor(users, names[0], id);
      AppendForPlus(users, names[0], id);
      AppendForAllPlus(mid, names[1..], id);
      PlusThenPlus(users, mid, AppendForAll(mid, names[1..], id), id, [names[0]], names[1..]);
      assert [names[0]] + names[1..] == names;
    }
  }

  /** A new trip: each user gets one entry of it for each time the user is among the invited names,
      and the owner one more. */
  lemma {:induction false} CreateExactly(db: Db, op: Op)
    requires DbFormatted(db) && op.Create? && OpOk(db, op)
    ensures UsersPlus(db.users, Step(db, op).users, op.id, Split(Text(op.invited)) + [op.owner])
  {
    var names := Split(Text(op.invited));
    var mid := AppendForAll(db.users, names, op.id);
    AppendForAllPlus(db.users, names, op.id);
    AppendForPlus(mid, op.owner, op.id);
    PlusThenPlus(db.users, mid, AppendFor(mid, op.owner, op.id), op.id, names, [op.owner]);
  }

  lemma {:induction false} UserOfPlus(users: Users, users': Users, id: string, names: seq<string>, u: string)
    requires UsersPlus(users, users', id, names) && u in users
    ensures u in users' && ListsOf(users'[u]) == Plus(ListsOf(users[u]), id, Times(names, u))
  {
  }

  lemma {:induction false} TimesNamed(names: seq<string>, owner: string, u: string)
    ensures Times(names + [owner], u) == multiset(names)[u] + if u == owner then 1 else 0
  {
    TimesConcat(names, [owner], u);
    TimesOne(owner, u);
    TimesIsCount(names, u);
  }

  lemma {:induction false} TimesIsCount(names: seq<string>, u: string)
    ensures Times(names, u) == multiset(names)[u]
    decreases |names|
  {
    if names != [] {
      TimesIsCount(names[1..], u);
      HeadAndTail(names);
    }
  }

  /** The same for a text that lists the invited names with commas between them, whether or not
      there are commas behind the last: every name in it counts, the first and the last included. */
  lemma {:induction false} CreateNamed(db: Db, op: Op, names: seq<string>, last: string, commas: nat, u: string)
    requires DbFormatted(db) && op.Create? && OpOk(db, op) && u in db.users
    requires AreIds(names) && IsId(last) && op.invited == Some(Join(names) + last + Commas(commas))
    ensures var n := multiset(names + [last])[u] + if u == op.owner then 1 else 0;
            var users := Step(db, op).users;
            u in users && ListsOf(users[u]) == Plus(ListsOf(db.users[u]), op.id, n)
  {
    SplitOfNames(names, last, commas);
    CreateExactly(db, op);
    UserOfPlus(db.users, Step(db, op).users, op.id, names + [last] + [op.owner], u);
    TimesNamed(names + [last], op.owner, u);
  }

  /** The table of users with the lists that the texts stand for. */
  datatype ListDb = ListDb(users: map<string, Lists>, trips: Trips)

  function MeaningOf(users: Users): (m: map<string, Lists>)
    ensures m.Keys == users.Keys
  {
    map u | u in users :: ListsOf(users[u])
  }

  function Meaning(db: Db): ListDb {
    ListDb(MeaningOf(db.users), db.trips)
  }

  function PlusAll(users: map<string, Lists>, id: string, names: seq<string>): (m: map<string, Lists>)
    ensures m.Keys == users.Keys
  {
    map u | u in users :: Plus(users[u], id, Times(names, u))
  }

  function StepLists(db: ListDb, op: Op): ListDb {
    match op
    case Create(id, trip, invited, owner) =>
      ListDb(PlusAll(db.users, id, Split(Text(invited)) + [owner]), db.trips[id := trip])
    case Sweep(username, today) =>
      if username in db.users then
        db.(users := db.users[username := SweepLists(db.trips, today, db.users[username]).0])
      else db
  }

  function RunLists(db: ListDb, ops: seq<Op>): ListDb
    decreases |ops|
  {
    if ops == [] then db else RunLists(StepLists(db, ops[0]), ops[1..])
  }

  lemma {:induction false} MeaningOfPlus(users: Users, users': Users, id: string, names: seq<string>)
    requires UsersPlus(users, users', id, names)
    ensures MeaningOf(users') == PlusAll(MeaningOf(users), id, names)
  {
    forall u | u in users
      ensures MeaningOf(users')[u] == PlusAll(MeaningOf(users), id, names)[u]
    {
      assert MeaningOf(users')[u] == Plus(ListsOf(users[u]), id, Times(names, u));
    }
  }

  lemma {:induction false} MeaningOfUpdate(users: Users, name: string, row: Row)
    requires name in users
    ensures MeaningOf(users[name := row]) == MeaningOf(users)[name := ListsOf(row)]
  {
  }

  lemma {:induction false} UpdateFormatted(users: Users, name: string, row: Row)
    requires UsersFormatted(users) && RowFormatted(row)
    ensures UsersFormatted(users[name := row])
  {
  }

  /** A step on the texts is the step on the lists. */
  lemma {:induction false} StepRefines(db: Db, op: Op)
    requires DbFormatted(db) && OpOk(db, op)
    ensures DbFormatted(Step(db, op)) && Meaning(Step(db, op)) == StepLists(Meaning(db), op)
  {
    match op
    case Create(id, _, invited, owner) =>
      CreateExactly(db, op);
      MeaningOfPlus(db.users, Step(db, op).users, id, Split(Text(invited)) + [owner]);
    case Sweep(username, today) =>
      if username in db.users {
        var row := SweepRow(db.trips, today, db.users[username]).row;
        SweepRefines(db.trips, today, db.users[username]);
        MeaningOfUpdate(db.users, username, row);
        UpdateFormatted(db.users, username, row);
      }
  }

  /** A run on the texts keeps them well formed and is the run on the lists they stand for. */
  lemma {:induction false} RunRefines(db: Db, ops: seq<Op>)
    requires DbFormatted(db) && OpsOk(db, ops)
    ensures DbFormatted(Run(db, ops)) && Meaning(Run(db, ops)) == RunLists(Meaning(db), ops)
    decreases |ops|
  {
    if ops != [] {
      StepRefines(db, ops[0]);
      RunRefines(Step(db, ops[0]), ops[1..]);
    }
  }

  // ----- a trip that has been swept never moves back -----

  function Count(ids: seq<string>, id: string): nat {
    multiset(ids)[id]
  }

  function Total(l: Lists, id: string): nat {
    Count(l.pending, id) + Count(l.current, id) + Count(l.history, id)
  }

  /** Between `l` and `l'`, occurrences of `id` have only moved in the order pending, current,
      history; none has been lost and none has been added. */
  predicate Forward(l: Lists, l': Lists, id: string) {
    && Total(l', id) == Total(l, id)
    && Count(l'.pending, id) <= Count(l.pending, id)
    && Count(l'.pending, id) + Count(l'.current, id) <= Count(l.pending, id) + Count(l.current, id)
    && Count(l'.history, id) >= Count(l.history, id)
  }

  /** No swept trip in the current list begins after `day`. */
  predicate NotAhead(trips: Trips, l: Lists, swept: set<string>, day: int) {
    forall id :: id in swept && id in l.current ==> Stays(Postponed, trips, day, id)
  }

  lemma {:induction false} SelectSome(p: Phase, trips: Trips, today: int, ids: seq<string>, moving: bool, id: string)
    requires id in Select(p, trips, today, ids, moving)
    ensures id in ids && MovesId(p, trips, today, id) == moving
    decreases |ids|
  {
    if ids != [] && !(MovesId(p, trips, today, ids[0]) == moving && ids[0] == id) {
      SelectSome(p, trips, today, ids[1..], moving, id);
    }
  }

  lemma {:induction false} CountSelected(p: Phase, trips: Trips, today: int, ids: seq<string>, id: string)
    ensures var stay, move := Select(p, trips, today, ids, false), Select(p, trips, today, ids, true);
            && Count(stay, id) + Count(move, id) == Count(ids, id)
            && (id in stay ==> id in ids && !MovesId(p, trips, today, id))
            && (id in move ==> id in ids && MovesId(p, trips, today, id))
            && (id !in move ==> Count(move, id) == 0)
  {
    var stay, move := Select(p, trips, today, ids, false), Select(p, trips, today, ids, true);
    SelectPartitions(p, trips, today, ids);
    assert (multiset(stay) + multiset(move))[id] == multiset(stay)[id] + multiset(move)[id];
    if id in stay {
      SelectSome(p, trips, today, ids, false, id);
    }
    if id in move {
      SelectSome(p, trips, today, ids, true, id);
    }
  }

  lemma {:induction false} CountConcat(a: seq<string>, b: seq<string>, id: string)
    ensures Count(a + b, id) == Count(a, id) + Count(b, id)
    ensures id in a + b <==> id in a || id in b
  {
    assert multiset(a + b) == multiset(a) + multiset(b);
  }

  /** What a phase does to the occurrences of one id. */
  lemma {:induction false} PhaseCounts(p: Phase, trips: Trips, today: int, l: Lists, id: string)
    requires Of(l, p.From()) != [] && AllReadable(p, trips, Of(l, p.From()))
    ensures var l' := PhaseLists(p, trips, today, l).0;
            var ids, stay := Of(l, p.From()), Of(l', p.From());
            && Count(stay, id) <= Count(ids, id)
            && Count(stay, id) + Count(Of(l', p.To()), id) == Count(ids, id) + Count(Of(l, p.To()), id)
            && (id in stay ==> id in ids && !MovesId(p, trips, today, id))
            && (id in Of(l', p.To()) ==> id in Of(l, p.To()) || MovesId(p, trips, today, id))
            && (!MovesId(p, trips, today, id) ==> Count(stay, id) == Count(ids, id))
            && Of(l, p.To()) <= Of(l', p.To())
  {
    PhaseListsAt(p, trips, today, l);
    var ids := Of(l, p.From());
    CountSelected(p, trips, today, ids, id);
    CountConcat(Of(l, p.To()), Select(p, trips, today, ids, true), id);
  }

  /** A completed phase moves every occurrence of an id, or none. */
  lemma {:induction false} PhaseSends(p: Phase, trips: Trips, today: int, l: Lists, id: string)
    requires PhaseLists(p, trips, today, l).1
    ensures var l' := PhaseLists(p, trips, today, l).0;
            var n, moves := Count(Of(l, p.From()), id), MovesId(p, trips, today, id);
            && Count(Of(l', p.From()), id) == (if moves then 0 else n)
            && Count(Of(l', p.To()), id) == Count(Of(l, p.To()), id) + (if moves then n else 0)
    ensures !p.Finished? ==> PhaseLists(p, trips, today, l).0.history == l.history
    ensures p.Finished? ==> PhaseLists(p, trips, today, l).0.pending == l.pending
  {
    PhaseListsAt(p, trips, today, l);
    CountSelected(p, trips, today, Of(l, p.From()), id);
    CountConcat(Of(l, p.To()), Select(p, trips, today, Of(l, p.From()), true), id);
  }

  /** The occurrences of one id in each list. */
  datatype Counts = Counts(pending: nat, current: nat, history: nat)

  function CountsOf(l: Lists, id: string): Counts {
    Counts(Count(l.pending, id), Count(l.current, id), Count(l.history, id))
  }

  function AfterPhase(p: Phase, moves: bool, c: Counts): Counts {
    if !moves then c
    else
      match p
      case Started => Counts(0, c.current + c.pending, c.history)
      case Postponed => Counts(c.pending + c.current, 0, c.history)
      case Finished => Counts(c.pending, 0, c.history + c.current)
  }

  lemma {:induction false} PhaseSendsAll(p: Phase, trips: Trips, today: int, l: Lists, id: string)
    requires PhaseLists(p, trips, today, l).1
    ensures CountsOf(PhaseLists(p, trips, today, l).0, id)
         == AfterPhase(p, MovesId(p, trips, today, id), CountsOf(l, id))
  {
    PhaseSends(p, trips, today, l, id);
  }

  lemma {:induction false} SweepSendsAll(trips: Trips, today: int, l: Lists, id: string)
    requires SweepLists(trips, today, l).1
    ensures CountsOf(SweepLists(trips, today, l).0, id)
         == AfterPhase(Finished, MovesId(Finished, trips, today, id),
              AfterPhase(Postponed, MovesId(Postponed, trips, today, id),
                AfterPhase(Started, MovesId(Started, trips, today, id), CountsOf(l, id))))
  {
    PhaseSendsAll(Started, trips, today, l, id);
    var a := PhaseLists(Started, trips, today, l).0;
    PhaseSendsAll(Postponed, trips, today, a, id);
    PhaseSendsAll(Finished, trips, today, PhaseLists(Postponed, trips, today, a).0, id);
  }

  /** Where the occurrences of a trip belong, by its dates alone. */
  function ByDate(c: Counts, trip: Trip, today: int): Counts
    requires trip.begin.Some?
  {
    var begin := trip.begin.value;
    var ended := trip.end.Some? && trip.end.value < today;
    var begun := (if begin < today then c.pending else 0) + (if begin <= today then c.current else 0);
    Counts((if begin >= today then c.pending else 0) + (if begin > today then c.current else 0),
           if ended then 0 else begun,
           c.history + if ended then begun else 0)
  }

  lemma {:induction false} PhasesByDate(c: Counts, trips: Trips, today: int, id: string)
    requires id in trips && trips[id].begin.Some?
    ensures AfterPhase(Finished, MovesId(Finished, trips, today, id),
              AfterPhase(Postponed, MovesId(Postponed, trips, today, id),
                AfterPhase(Started, MovesId(Started, trips, today, id), c)))
         == ByDate(c, trips[id], today)
  {
  }

  /** A completed sweep puts every occurrence of a trip where it belongs. */
  lemma {:induction false} SweepSends(trips: Trips, today: int, row: Row, id: string)
    requires RowFormatted(row) && SweepRow(trips, today, row).completed
    requires id in trips && trips[id].begin.Some?
    ensures CountsOf(ListsOf(SweepRow(trips, today, row).row), id)
         == ByDate(CountsOf(ListsOf(row), id), trips[id], today)
  {
    SweepRefines(trips, today, row);
    SweepSendsAll(trips, today, ListsOf(row), id);
    PhasesByDate(CountsOf(ListsOf(row), id), trips, today, id);
  }

  lemma {:induction false} TotalOfAll(l: Lists, id: string)
    ensures Total(l, id) == AllIds(l)[id]
  {
  }

  lemma {:induction false} PhaseKeepsTotal(p: Phase, trips: Trips, today: int, l: Lists, id: string)
    ensures Total(PhaseLists(p, trips, today, l).0, id) == Total(l, id)
  {
    PhaseConserves(p, trips, today, l);
    TotalOfAll(l, id);
    TotalOfAll(PhaseLists(p, trips, today, l).0, id);
  }

  lemma {:induction false} OnePhaseForward(p: Phase, trips: Trips, today: int, l: Lists, swept: set<string>, id: string)
    requires NotAhead(trips, l, swept, today) && id in swept
    ensures var l' := PhaseLists(p, trips, today, l).0;
            Forward(l, l', id) && (id in l'.current ==> Stays(Postponed, trips, today, id))
  {
    var ids := Of(l, p.From());
    PhaseKeepsTotal(p, trips, today, l, id);
    if ids != [] && AllReadable(p, trips, ids) {
      PhaseCounts(p, trips, today, l, id);
      if p.Postponed? && Count(l.current, id) > 0 {
        assert id in l.current;
      }
    }
  }

  lemma {:induction false} HistoryGrows(p: Phase, trips: Trips, today: int, l: Lists)
    ensures l.history <= PhaseLists(p, trips, today, l).0.history
  {
  }

  lemma {:induction false} LaterDay(trips: Trips, l: Lists, swept: set<string>, day: int, today: int)
    requires NotAhead(trips, l, swept, day) && day <= today
    ensures NotAhead(trips, l, swept, today)
  {
    forall id | id in swept && id in l.current
      ensures Stays(Postponed, trips, today, id)
    {
      assert Stays(Postponed, trips, day, id);
    }
  }

  /** One phase moves swept trips forward only. */
  lemma {:induction false} PhaseForward(p: Phase, trips: Trips, today: int, l: Lists, swept: set<string>)
    requires NotAhead(trips, l, swept, today)
    ensures var l' := PhaseLists(p, trips, today, l).0;
            && NotAhead(trips, l', swept, today) && l.history <= l'.history
            && forall id :: id in swept ==> Forward(l, l', id)
  {
    var l' := PhaseLists(p, trips, today, l).0;
    HistoryGrows(p, trips, today, l);
    forall id | id in swept
      ensures Forward(l, l', id) && (id in l'.current ==> Stays(Postponed, trips, today, id))
    {
      OnePhaseForward(p, trips, today, l, swept, id);
    }
  }

  predicate AllForward(l: Lists, l': Lists, swept: set<string>) {
    l.history <= l'.history && forall id :: id in swept ==> Forward(l, l', id)
  }

  lemma {:induction false} ForwardTransitive(a: Lists, b: Lists, c: Lists, swept: set<string>)
    requires AllForward(a, b, swept) && AllForward(b, c, swept)
    ensures AllForward(a, c, swept)
  {
    forall id | id in swept
      ensures Forward(a, c, id)
    {
      assert Forward(a, b, id) && Forward(b, c, id);
    }
  }

  /** So does a sweep, whether it completes or not. */
  lemma {:induction false} SweepForward(trips: Trips, day: int, today: int, l: Lists, swept: set<string>)
    requires NotAhead(trips, l, swept, day) && day <= today
    ensures var l' := SweepLists(trips, today, l).0;
            NotAhead(trips, l', swept, today) && AllForward(l, l', swept)
  {
    LaterDay(trips, l, swept, day, today);
    PhaseForward(Started, trips, today, l, swept);
    var a := PhaseLists(Started, trips, today, l);
    if a.1 {
      PhaseForward(Postponed, trips, today, a.0, swept);
      var b := PhaseLists(Postponed, trips, today, a.0);
      ForwardTransitive(l, a.0, b.0, swept);
      if b.1 {
        PhaseForward(Finished, trips, today, b.0, swept);
        ForwardTransitive(l, b.0, PhaseLists(Finished, trips, today, b.0).0, swept);
      }
    }
  }

  lemma {:induction false} CountAppended(ids: seq<string>, id: string, n: nat, other: string)
    requires other != id
    ensures Count(ids + Copies(id, n), other) == Count(ids, other)
    ensures other in ids + Copies(id, n) <==> other in ids
  {
    assert other !in Copies(id, n);
    CountConcat(ids, Copies(id, n), other);
  }

  /** Appending a new id does not touch trips that are already known. */
  lemma {:induction false} AppendForward(trips: Trips, l: Lists, id: string, n: nat, trip: Trip, swept: set<string>,
                                         day: int)
    requires NotAhead(trips, l, swept, day) && id !in swept
    ensures NotAhead(trips[id := trip], Plus(l, id, n), swept, day) && AllForward(l, Plus(l, id, n), swept)
  {
    var l' := Plus(l, id, n);
    forall other | other in swept
      ensures Forward(l, l', other)
      ensures other in l'.current ==> Stays(Postponed, trips[id := trip], day, other)
    {
      CountAppended(l.current, id, n, other);
      if other in l'.current {
        assert Stays(Postponed, trips, day, other);
      }
    }
  }

  lemma {:induction false} NothingMoves(l: Lists, swept: set<string>)
    ensures AllForward(l, l, swept)
  {
  }

  /** What one step leaves true for user `u`, seen from `db` on day `day`. */
  predicate StepSafe(db: Db, db': Db, u: string, swept: set<string>, day: int)
    requires u in db.users
  {
    && DbFormatted(db') && u in db'.users && swept <= db'.trips.Keys
    && AllForward(ListsOf(db.users[u]), ListsOf(db'.users[u]), swept)
    && NotAhead(db'.trips, ListsOf(db'.users[u]), swept, day)
  }

  lemma {:induction false} CreateIsSafe(db: Db, op: Op, u: string, swept: set<string>, day: int)
    requires DbFormatted(db) && u in db.users && op.Create? && OpOk(db, op) && swept <= db.trips.Keys
    requires NotAhead(db.trips, ListsOf(db.users[u]), swept, day)
    ensures StepSafe(db, Step(db, op), u, swept, day)
  {
    CreateExactly(db, op);
    var n := Times(Split(Text(op.invited)) + [op.owner], u);
    AppendForward(db.trips, ListsOf(db.users[u]), op.id, n, op.trip, swept, day);
  }

  /** The user who is swept. */
  lemma {:induction false} OwnSweepIsSafe(db: Db, u: string, today: int, swept: set<string>, day: int)
    requires DbFormatted(db) && u in db.users && day <= today
    requires NotAhead(db.trips, ListsOf(db.users[u]), swept, day)
    ensures var row := SweepRow(db.trips, today, db.users[u]).row;
            && RowFormatted(row) && AllForward(ListsOf(db.users[u]), ListsOf(row), swept)
            && NotAhead(db.trips, ListsOf(row), swept, today)
  {
    SweepRefines(db.trips, today, db.users[u]);
    SweepForward(db.trips, day, today, ListsOf(db.users[u]), swept);
  }

  lemma {:induction false} SweepIsSafe(db: Db, op: Op, u: string, swept: set<string>, day: int)
    requires DbFormatted(db) && u in db.users && op.Sweep? && swept <= db.trips.Keys && day <= op.today
    requires NotAhead(db.trips, ListsOf(db.users[u]), swept, day)
    ensures StepSafe(db, Step(db, op), u, swept, op.today)
  {
    var l := ListsOf(db.users[u]);
    if op.username in db.users {
      var row := SweepRow(db.trips, op.today, db.users[op.username]).row;
      assert RowFormatted(row) by {
        SweepRefines(db.trips, op.today, db.users[op.username]);
      }
      UpdateFormatted(db.users, op.username, row);
    }
    if op.username == u {
      OwnSweepIsSafe(db, u, op.today, swept, day);
    } else {
      LaterDay(db.trips, l, swept, day, op.today);
      NothingMoves(l, swept);
    }
  }

  lemma {:induction false} StepIsSafe(db: Db, op: Op, u: string, swept: set<string>, day: int)
    requires DbFormatted(db) && u in db.users && OpOk(db, op) && swept <= db.trips.Keys
    requires NotAhead(db.trips, ListsOf(db.users[u]), swept, day)
    requires op.Sweep? ==> day <= op.today
    ensures StepSafe(db, Step(db, op), u, swept, if op.Sweep? then op.today else day)
  {
    if op.Create? {
      CreateIsSafe(db, op, u, swept, day);
    } else {
      SweepIsSafe(db, op, u, swept, day);
    }
  }

  /** Over any run with days that do not go back, all texts stay well formed, a user's history only
      grows at its end, and trips that have been swept only move forward. */
  lemma {:induction false} RunsAreSafe(db: Db, ops: seq<Op>, u: string, swept: set<string>, day: int)
    requires DbFormatted(db) && u in db.users && OpsOk(db, ops) && swept <= db.trips.Keys
    requires NotAhead(db.trips, ListsOf(db.users[u]), swept, day) && DaysFrom(day, ops)
    ensures var db' := Run(db, ops);
            DbFormatted(db') && u in db'.users && AllForward(ListsOf(db.users[u]), ListsOf(db'.users[u]), swept)
    decreases |ops|
  {
    if ops != [] {
      var op, next := ops[0], Step(db, ops[0]);
      StepIsSafe(db, op, u, swept, day);
      RunsAreSafe(next, ops[1..], u, swept, if op.Sweep? then op.today else day);
      ForwardTransitive(ListsOf(db.users[u]), ListsOf(next.users[u]), ListsOf(Run(db, ops).users[u]), swept);
    }
  }

  /** The trips a user has that are in the table of trips. */
  function Known(trips: Trips, l: Lists): set<string> {
    set id | id in trips && (id in l.pending || id in l.current || id in l.history)
  }

  /** After a completed sweep, every pending or current trip is in the table of trips, and none of
      the user's trips in that table ever moves back. */
  lemma {:induction false} SweptTripsMoveForward(db: Db, u: string, today: int, ops: seq<Op>)
    requires DbFormatted(db) && u in db.users && SweepRow(db.trips, today, db.users[u]).completed
    requires OpsOk(Step(db, Sweep(u, today)), ops) && DaysFrom(today, ops)
    ensures var db1 := Step(db, Sweep(u, today));
            var db2 := Run(db1, ops);
            var l1 := ListsOf(db1.users[u]);
            && DbFormatted(db2) && u in db2.users
            && l1.history <= ListsOf(db2.users[u]).history
            && (forall id :: id in l1.pending || id in l1.current ==> id in Known(db.trips, l1))
            && (forall id :: id in Known(db.trips, l1) ==> Forward(l1, ListsOf(db2.users[u]), id))
  {
    var db1 := Step(db, Sweep(u, today));
    var l, l' := ListsOf(db.users[u]), ListsOf(db1.users[u]);
    SweepRefines(db.trips, today, db.users[u]);
    SweepClassifiesLists(db.trips, today, l);
    forall id | id in l'.pending || id in l'.current
      ensures id in db.trips && (id in l'.current ==> Stays(Postponed, db.trips, today, id))
    {
      assert id in l'.pending ==> Stays(Started, db.trips, today, id);
    }
    RunsAreSafe(db1, ops, u, Known(db.trips, l'), today);
  }
}
