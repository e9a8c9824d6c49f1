/**
 * The "events by user" report: rows of a join of gamers, users, events and
 * games are folded into one group per organizing gamer, each group holding
 * that gamer's events.  The fold is a loop that searches the groups built so
 * far for the row's gamer and either appends the event to the group found,
 * in place, or appends a new group.
 */
module EventsByUser {
  import opened Models

  /** One row of the report query. */
  datatype Row = Row(
    gamerId: GamerId,
    id: EventId,
    description: string,
    date: DateTime,
    gameId: GameId,
    gameName: string,
    fullName: string)

  /** The per-event entry the report keeps: the row without its gamer id, game id and full name. */
  datatype EventEntry = EventEntry(id: EventId, description: string, date: DateTime, gameName: string)

  /** A gamer's group as the template receives it. */
  datatype Group = Group(gamerId: GamerId, fullName: string, events: seq<EventEntry>)

  /** The dictionary the report builds for one row: its id, description, date and game name. */
  function Entry(row: Row): EventEntry
  {
    EventEntry(row.id, row.description, row.date, row.gameName)
  }

  // ---------------------------------------------------------------------
  // Reference definitions, stated on the rows alone

  function GamerIds(rows: seq<Row>): set<GamerId>
  {
    set r | r in rows :: r.gamerId
  }

  function GroupIds(groups: seq<Group>): set<GamerId>
  {
    set g | g in groups :: g.gamerId
  }

  /** The entries of the rows of gamer `id`, in row order. */
  function EventsOf(rows: seq<Row>, id: GamerId): seq<EventEntry>
  {
    if rows == [] then []
    else
      var last := rows[|rows| - 1];
      EventsOf(rows[..|rows| - 1], id) + if last.gamerId == id then [Entry(last)] else []
  }

  /** The position of the first row of gamer `id`. */
  function FirstIndex(rows: seq<Row>, id: GamerId): (k: nat)
    requires id in GamerIds(rows)
    ensures k < |rows| && rows[k].gamerId == id
  {
    if rows[0].gamerId == id then 0
    else
      assert id in GamerIds(rows[1..]) by {
        var r :| r in rows && r.gamerId == id;
        assert r in rows[1..];
      }
      1 + FirstIndex(rows[1..], id)
  }

  function TotalEvents(groups: seq<Group>): nat
  {
    if groups == [] then 0
    else TotalEvents(groups[..|groups| - 1]) + |groups[|groups| - 1].events|
  }

  // ---------------------------------------------------------------------
  // The fold, one row at a time

  /**
   * The position of the group of gamer `id`, or -1.  Like the report's search,
   * which does not stop at a match, it finds the last such group.
   */
  function IndexOf(groups: seq<Group>, id: GamerId): (k: int)
    ensures -1 <= k < |groups|
    ensures 0 <= k ==> groups[k].gamerId == id
    ensures 0 <= k ==> forall j :: k < j < |groups| ==> groups[j].gamerId != id
    ensures k == -1 ==> forall j :: 0 <= j < |groups| ==> groups[j].gamerId != id
  {
    if groups == [] then -1
    else if groups[|groups| - 1].gamerId == id then |groups| - 1
    else IndexOf(groups[..|groups| - 1], id)
  }

  /** The search finds a group exactly when some group belongs to the gamer. */
  lemma IndexOfIds(groups: seq<Group>, id: GamerId)
    ensures IndexOf(groups, id) == -1 <==> id !in GroupIds(groups)
  {
    var k := IndexOf(groups, id);
    if 0 <= k {
      assert groups[k] in groups;
    }
  }

  /** One step of the fold: the row's entry joins its gamer's group, or opens a new one. */
  function Insert(groups: seq<Group>, row: Row): seq<Group>
  {
    var k := IndexOf(groups, row.gamerId);
    if 0 <= k then groups[k := groups[k].(events := groups[k].events + [Entry(row)])]
    else groups + [Group(row.gamerId, row.fullName, [Entry(row)])]
  }

  /** The report's group list for `rows`. */
  function Grouped(rows: seq<Row>): seq<Group>
  {
    if rows == [] then [] else Insert(Grouped(rows[..|rows| - 1]), rows[|rows| - 1])
  }

  // ---------------------------------------------------------------------
  // What one step of the fold does

  /** No two groups belong to the same gamer. */
  predicate UniqueGamers(groups: seq<Group>)
  {
    forall i, j :: 0 <= i < j < |groups| ==> groups[i].gamerId != groups[j].gamerId
  }

  lemma GamerIdsSnoc(rows: seq<Row>)
    requires rows != []
    ensures GamerIds(rows) == GamerIds(rows[..|rows| - 1]) + {rows[|rows| - 1].gamerId}
  {
    assert rows == rows[..|rows| - 1] + [rows[|rows| - 1]];
  }

  lemma InsertIds(groups: seq<Group>, row: Row)
    ensures GroupIds(Insert(groups, row)) == GroupIds(groups) + {row.gamerId}
    ensures |Insert(groups, row)| == if row.gamerId in GroupIds(groups) then |groups| else |groups| + 1
  {
    var k := IndexOf(groups, row.gamerId);
    var r := Insert(groups, row);
    IndexOfIds(groups, row.gamerId);
    if 0 <= k {
      forall x
        ensures x in GroupIds(r) <==> x in GroupIds(groups)
      {
        if x in GroupIds(r) {
          var i :| 0 <= i < |r| && r[i].gamerId == x;
          assert groups[i] in groups;
        }
        if x in GroupIds(groups) {
          var i :| 0 <= i < |groups| && groups[i].gamerId == x;
          assert r[i] in r;
        }
      }
    } else {
      assert r == groups + [Group(row.gamerId, row.fullName, [Entry(row)])];
    }
  }

  lemma InsertUnique(groups: seq<Group>, row: Row)
    requires UniqueGamers(groups)
    ensures UniqueGamers(Insert(groups, row))
  {
  }

  lemma {:induction false} EventsOfAbsent(rows: seq<Row>, id: GamerId)
    requires id !in GamerIds(rows)
    ensures EventsOf(rows, id) == []
  {
    if rows != [] {
      GamerIdsSnoc(rows);
      EventsOfAbsent(rows[..|rows| - 1], id);
    }
  }

  lemma {:induction false} TotalEventsUpdate(groups: seq<Group>, k: nat, g: Group)
    requires k < |groups|
    ensures TotalEvents(groups[k := g]) == TotalEvents(groups) - |groups[k].events| + |g.events|
  {
    var n := |groups|;
    var r := groups[k := g];
    if k == n - 1 {
      assert r[..n - 1] == groups[..n - 1];
    } else {
      assert r[..n - 1] == groups[..n - 1][k := g];
      TotalEventsUpdate(groups[..n - 1], k, g);
    }
  }

  lemma TotalEventsSnoc(groups: seq<Group>, g: Group)
    ensures TotalEvents(groups + [g]) == TotalEvents(groups) + |g.events|
  {
    assert (groups + [g])[..|groups|] == groups;
  }

  /** No row before the first row of gamer `id` belongs to that gamer. */
  lemma {:induction false} FirstIndexIsFirst(rows: seq<Row>, id: GamerId, j: nat)
    requires id in GamerIds(rows) && j < FirstIndex(rows, id)
    ensures rows[j].gamerId != id
  {
    if 0 < j {
      assert id in GamerIds(rows[1..]) by {
        var r :| r in rows && r.gamerId == id;
        assert r in rows[1..];
      }
      FirstIndexIsFirst(rows[1..], id, j - 1);
    }
  }

  /** A gamer already seen keeps the position of their first row when a row is added. */
  lemma FirstIndexSnoc(rows: seq<Row>, id: GamerId)
    requires rows != [] && id in GamerIds(rows[..|rows| - 1])
    ensures id in GamerIds(rows)
    ensures FirstIndex(rows, id) == FirstIndex(rows[..|rows| - 1], id)
  {
    GamerIdsSnoc(rows);
    var p := rows[..|rows| - 1];
    var a, b := FirstIndex(rows, id), FirstIndex(p, id);
    if a < b {
      assert p[a] == rows[a];
      FirstIndexIsFirst(p, id, a);
    } else if b < a {
      assert rows[b] == p[b];
      FirstIndexIsFirst(rows, id, b);
    }
  }

  /** A gamer first seen in the last row has their first row there. */
  lemma FirstIndexNew(rows: seq<Row>)
    requires rows != [] && rows[|rows| - 1].gamerId !in GamerIds(rows[..|rows| - 1])
    ensures rows[|rows| - 1].gamerId in GamerIds(rows)
    ensures FirstIndex(rows, rows[|rows| - 1].gamerId) == |rows| - 1
  {
    var p := rows[..|rows| - 1];
    var id := rows[|rows| - 1].gamerId;
    assert rows[|rows| - 1] in rows;
  }

  predicate EventsMatch(groups: seq<Group>, rows: seq<Row>)
  {
    forall k :: 0 <= k < |groups| ==> groups[k].events == EventsOf(rows, groups[k].gamerId)
  }

  predicate FromRows(groups: seq<Group>, rows: seq<Row>)
  {
    forall k :: 0 <= k < |groups| ==> groups[k].gamerId in GamerIds(rows)
  }

  predicate InFirstOrder(groups: seq<Group>, rows: seq<Row>)
  {
    && FromRows(groups, rows)
    && forall i, j :: 0 <= i < j < |groups| ==>
         FirstIndex(rows, groups[i].gamerId) < FirstIndex(rows, groups[j].gamerId)
  }

  predicate NamedByFirstRow(groups: seq<Group>, rows: seq<Row>)
  {
    && FromRows(groups, rows)
    && forall k :: 0 <= k < |groups| ==>
         groups[k].fullName == rows[FirstIndex(rows, groups[k].gamerId)].fullName
  }

  lemma InsertEvents(groups: seq<Group>, p: seq<Row>, row: Row)
    requires EventsMatch(groups, p) && UniqueGamers(groups) && GroupIds(groups) == GamerIds(p)
    ensures EventsMatch(Insert(groups, row), p + [row])
  {
    var rows := p + [row];
    assert rows[..|rows| - 1] == p;
    var r := Insert(groups, row);
    var k := IndexOf(groups, row.gamerId);
    if k < 0 {
      IndexOfIds(groups, row.gamerId);
      EventsOfAbsent(p, row.gamerId);
    }
    forall j | 0 <= j < |r|
      ensures r[j].events == EventsOf(rows, r[j].gamerId)
    {
      if j < |groups| && j != k {
        assert r[j] == groups[j];
        assert groups[j].gamerId != row.gamerId by {
          if k < 0 {
            assert groups[j] in groups;
          }
        }
      }
    }
  }

  /** Positions of first rows do not move when a row is added. */
  lemma FirstIndexesKept(groups: seq<Group>, p: seq<Row>, row: Row)
    requires FromRows(groups, p)
    ensures FromRows(groups, p + [row])
    ensures forall k :: 0 <= k < |groups| ==>
      FirstIndex(p + [row], groups[k].gamerId) == FirstIndex(p, groups[k].gamerId)
  {
    var rows := p + [row];
    assert rows[..|rows| - 1] == p;
    forall k | 0 <= k < |groups|
      ensures groups[k].gamerId in GamerIds(rows)
      ensures FirstIndex(rows, groups[k].gamerId) == FirstIndex(p, groups[k].gamerId)
    {
      FirstIndexSnoc(rows, groups[k].gamerId);
    }
  }

  lemma InsertOrder(groups: seq<Group>, p: seq<Row>, row: Row)
    requires InFirstOrder(groups, p) && GroupIds(groups) == GamerIds(p)
    ensures InFirstOrder(Insert(groups, row), p + [row])
  {
    var rows := p + [row];
    assert rows[..|rows| - 1] == p;
    FirstIndexesKept(groups, p, row);
    var r := Insert(groups, row);
    if IndexOf(groups, row.gamerId) < 0 {
      IndexOfIds(groups, row.gamerId);
      FirstIndexNew(rows);
      var g := Group(row.gamerId, row.fullName, [Entry(row)]);
      assert r == groups + [g];
      OrderSnoc(groups, rows, g);
    } else {
      assert forall i :: 0 <= i < |r| ==> r[i].gamerId == groups[i].gamerId;
    }
  }

  /** A group whose gamer first occurs after every listed gamer may go last. */
  lemma OrderSnoc(groups: seq<Group>, rows: seq<Row>, g: Group)
    requires InFirstOrder(groups, rows) && g.gamerId in GamerIds(rows)
    requires forall k :: 0 <= k < |groups| ==>
      FirstIndex(rows, groups[k].gamerId) < FirstIndex(rows, g.gamerId)
    ensures InFirstOrder(groups + [g], rows)
  {
    var r := groups + [g];
    forall i, j | 0 <= i < j < |r|
      ensures FirstIndex(rows, r[i].gamerId) < FirstIndex(rows, r[j].gamerId)
    {
      assert r[i] == groups[i];
      if j < |groups| {
        assert r[j] == groups[j];
      }
    }
  }

  lemma InsertFullName(groups: seq<Group>, p: seq<Row>, row: Row)
    requires NamedByFirstRow(groups, p) && GroupIds(groups) == GamerIds(p)
    ensures NamedByFirstRow(Insert(groups, row), p + [row])
  {
    var rows := p + [row];
    assert rows[..|rows| - 1] == p;
    FirstIndexesKept(groups, p, row);
    var r := Insert(groups, row);
    if IndexOf(groups, row.gamerId) < 0 {
      IndexOfIds(groups, row.gamerId);
      FirstIndexNew(rows);
      var g := Group(row.gamerId, row.fullName, [Entry(row)]);
      assert r == groups + [g];
      NameSnoc(groups, rows, g);
    } else {
      forall k | 0 <= k < |r|
        ensures r[k].gamerId == groups[k].gamerId && r[k].fullName == groups[k].fullName
      {
      }
      forall k | 0 <= k < |groups|
        ensures rows[FirstIndex(rows, groups[k].gamerId)] == p[FirstIndex(p, groups[k].gamerId)]
      {
      }
    }
  }

  /** A group named after the first row of its gamer may be added to named groups. */
  lemma NameSnoc(groups: seq<Group>, rows: seq<Row>, g: Group)
    requires NamedByFirstRow(groups, rows) && g.gamerId in GamerIds(rows)
    requires g.fullName == rows[FirstIndex(rows, g.gamerId)].fullName
    ensures NamedByFirstRow(groups + [g], rows)
  {
    var r := groups + [g];
    forall k | 0 <= k < |r|
      ensures r[k].gamerId in GamerIds(rows)
      ensures r[k].fullName == rows[FirstIndex(rows, r[k].gamerId)].fullName
    {
      if k < |groups| {
        assert r[k] == groups[k];
      }
    }
  }

  lemma {:induction false} GroupedIds(rows: seq<Row>)
    ensures GroupIds(Grouped(rows)) == GamerIds(rows)
  {
    if rows != [] {
      var p := rows[..|rows| - 1];
      GroupedIds(p);
      InsertIds(Grouped(p), rows[|rows| - 1]);
      GamerIdsSnoc(rows);
    }
  }

  /** Every gamer has at most one group. */
  lemma {:induction false} GroupedUnique(rows: seq<Row>)
    ensures UniqueGamers(Grouped(rows))
  {
    if rows != [] {
      var p := rows[..|rows| - 1];
      GroupedUnique(p);
      InsertUnique(Grouped(p), rows[|rows| - 1]);
    }
  }

  /** There are as many groups as distinct gamers in the rows; no rows, no groups. */
  lemma {:induction false} GroupedCount(rows: seq<Row>)
    ensures |Grouped(rows)| == |GamerIds(rows)|
    ensures rows == [] <==> Grouped(rows) == []
  {
    if rows != [] {
      var p := rows[..|rows| - 1];
      GroupedCount(p);
      GroupedIds(p);
      InsertIds(Grouped(p), rows[|rows| - 1]);
      GamerIdsSnoc(rows);
    }
  }

  /** Each group holds the entries of exactly its gamer's rows, in row order. */
  lemma {:induction false} GroupedEvents(rows: seq<Row>)
    ensures forall k :: 0 <= k < |Grouped(rows)| ==>
      Grouped(rows)[k].events == EventsOf(rows, Grouped(rows)[k].gamerId)
  {
    if rows != [] {
      var p := rows[..|rows| - 1];
      var row := rows[|rows| - 1];
      assert rows == p + [row];
      GroupedEvents(p);
      GroupedUnique(p);
      GroupedIds(p);
      InsertEvents(Grouped(p), p, row);
    }
  }

  /** Every row yields exactly one entry: the groups hold as many entries as there are rows. */
  lemma {:induction false} GroupedTotal(rows: seq<Row>)
    ensures TotalEvents(Grouped(rows)) == |rows|
  {
    if rows != [] {
      var p := rows[..|rows| - 1];
      var row := rows[|rows| - 1];
      var groups := Grouped(p);
      GroupedTotal(p);
      var k := IndexOf(groups, row.gamerId);
      if 0 <= k {
        TotalEventsUpdate(groups, k, groups[k].(events := groups[k].events + [Entry(row)]));
      } else {
        TotalEventsSnoc(groups, Group(row.gamerId, row.fullName, [Entry(row)]));
      }
    }
  }

  /** Groups appear in the order in which their gamers first occur in the rows. */
  lemma {:induction false} GroupedOrder(rows: seq<Row>)
    ensures forall k :: 0 <= k < |Grouped(rows)| ==> Grouped(rows)[k].gamerId in GamerIds(rows)
    ensures forall i, j :: 0 <= i < j < |Grouped(rows)| ==>
      FirstIndex(rows, Grouped(rows)[i].gamerId) < FirstIndex(rows, Grouped(rows)[j].gamerId)
  {
    if rows == [] {
    } else {
      var p := rows[..|rows| - 1];
      var row := rows[|rows| - 1];
      assert rows == p + [row];
      GroupedOrder(p);
      GroupedIds(p);
      InsertOrder(Grouped(p), p, row);
    }
  }

  /** A group's full name is the one on its gamer's first row; later rows do not change it. */
  lemma {:induction false} GroupedFullName(rows: seq<Row>)
    ensures forall k :: 0 <= k < |Grouped(rows)| ==> Grouped(rows)[k].gamerId in GamerIds(rows)
    ensures forall k :: 0 <= k < |Grouped(rows)| ==>
      Grouped(rows)[k].fullName == rows[FirstIndex(rows, Grouped(rows)[k].gamerId)].fullName
  {
    if rows == [] {
    } else {
      var p := rows[..|rows| - 1];
      var row := rows[|rows| - 1];
      assert rows == p + [row];
      GroupedFullName(p);
      GroupedIds(p);
      InsertFullName(Grouped(p), p, row);
    }
  }

  // ---------------------------------------------------------------------
  // The report's loop

  /** The per-gamer dictionary the report builds; only its event list changes, by appending. */
  class GamerEvents {
    const gamerId: GamerId
    const fullName: string
    var events: seq<EventEntry>

    constructor (gamerId: GamerId, fullName: string, first: EventEntry)
      ensures this.gamerId == gamerId && this.fullName == fullName && events == [first]
    {
      this.gamerId := gamerId;
      this.fullName := fullName;
      events := [first];
    }

    function View(): Group
      reads this
    {
      Group(gamerId, fullName, events)
    }

    method Append(e: EventEntry)
      modifies this
      ensures events == old(events) + [e]
    {
      events := events + [e];
    }
  }

  /** The group objects `objects`, in list order, currently hold exactly `groups`. */
  predicate Represents(objects: seq<GamerEvents>, groups: seq<Group>)
    reads objects
  {
    |objects| == |groups| && forall k :: 0 <= k < |objects| ==> objects[k].View() == groups[k]
  }

  /** No group object occurs twice in the list. */
  predicate Distinct(objects: seq<GamerEvents>)
  {
    forall k, l :: 0 <= k < l < |objects| ==> objects[k] != objects[l]
  }

  /**
   * The report's search for the row's gamer: it looks at every group and keeps
   * the last one whose gamer matches, or none.
   */
  method FindGroup(eventsByUser: seq<GamerEvents>, ghost groups: seq<Group>, gamerId: GamerId)
    returns (userDict: GamerEvents?, ghost at: int)
    requires Represents(eventsByUser, groups)
    ensures at == IndexOf(groups, gamerId)
    ensures userDict == null <==> IndexOf(groups, gamerId) == -1
    ensures userDict != null ==> userDict == eventsByUser[IndexOf(groups, gamerId)]
  {
    userDict, at := null, -1;
    var j := 0;
    while j < |eventsByUser|
      invariant 0 <= j <= |eventsByUser|
      invariant at == IndexOf(groups[..j], gamerId)
      invariant userDict == if at < 0 then null else eventsByUser[at]
    {
      assert groups[..j + 1][..j] == groups[..j];
      assert groups[j].gamerId == eventsByUser[j].gamerId;
      if eventsByUser[j].gamerId == gamerId {
        userDict := eventsByUser[j];
        at := j;
      }
      j := j + 1;
    }
    assert groups[..j] == groups;
  }

  /**
   * One pass of the report's loop: the row's entry is appended in place to the
   * group of its gamer, or a new group holding just that entry is appended.
   */
  method AddRow(eventsByUser: seq<GamerEvents>, ghost groups: seq<Group>, row: Row)
    returns (next: seq<GamerEvents>)
    requires Distinct(eventsByUser) && Represents(eventsByUser, groups)
    modifies eventsByUser
    ensures Distinct(next) && Represents(next, Insert(groups, row))
    ensures |eventsByUser| <= |next| && next[..|eventsByUser|] == eventsByUser
    ensures forall k :: 0 <= k < |next| ==> next[k] in eventsByUser || fresh(next[k])
  {
    var event := Entry(row);
    var userDict, at := FindGroup(eventsByUser, groups, row.gamerId);
    if userDict != null {
      userDict.Append(event);
      next := eventsByUser;
      forall k | 0 <= k < |next| && k != at
        ensures next[k].View() == groups[k]
      {
        assert next[k] != userDict;
      }
    } else {
      var group := new GamerEvents(row.gamerId, row.fullName, event);
      next := eventsByUser + [group];
    }
  }

  /**
   * The report's fold over the query rows.  The result is a list of distinct,
   * newly made group objects that hold `Grouped(rows)`, one per gamer.
   */
  method EventsByUserReport(rows: seq<Row>) returns (eventsByUser: seq<GamerEvents>)
    ensures forall k :: 0 <= k < |eventsByUser| ==> fresh(eventsByUser[k])
    ensures Distinct(eventsByUser) && Represents(eventsByUser, Grouped(rows))
    ensures |eventsByUser| == |GamerIds(rows)|
  {
    eventsByUser := [];
    var i := 0;
    while i < |rows|
      invariant 0 <= i <= |rows|
      invariant forall k :: 0 <= k < |eventsByUser| ==> fresh(eventsByUser[k])
      invariant Distinct(eventsByUser) && Represents(eventsByUser, Grouped(rows[..i]))
    {
      var row := rows[i];
      assert rows[..i + 1][..i] == rows[..i];
      eventsByUser := AddRow(eventsByUser, Grouped(rows[..i]), row);
      i := i + 1;
    }
    assert rows[..i] == rows;
    GroupedCount(rows);
  }
}
