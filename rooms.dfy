/** The room directory of the chat service (server.js:14-48): the stored room
    record, the defaults of room creation, and the two read-only discovery
    queries, which are filter/sort/map pipelines over a snapshot of the
    directory. */
module Rooms {
  import opened Wrappers

  type RoomId = string

  /** Name given to a room created without one, explicitly or on first join. */
  const DefaultName: string := "Untitled Room"

  /** Error text of the random-room endpoint when nothing is public. */
  const NoPublicRooms: string := "No public rooms available"

  /** A stored room. `usersCount` is written back by the socket handlers from
      the size of the room's membership set. */
  datatype Room = Room(id: RoomId, name: string, isPublic: bool, createdAt: int, usersCount: nat)

  /** The projection `{ id, name, usersCount }` of the public listing. */
  datatype Summary = Summary(id: RoomId, name: string, usersCount: nat)

  /** The JSON values a request-body field can hold. Fractional numbers are not
      modelled; an object or an array is modelled without its contents, since
      only its truthiness is ever used. */
  datatype JsonValue = Undefined | Null | Bool(b: bool) | Num(n: int) | Str(s: string) | Obj | Arr

  /** JavaScript truthiness, as `!!v` computes it. */
  function Truthy(v: JsonValue): (t: bool)
    ensures v.Undefined? || v.Null? ==> !t
    ensures v.Obj? || v.Arr? ==> t
    ensures v.Bool? ==> (t <==> v.b)
    ensures v.Num? ==> (t <==> v.n != 0)
    ensures v.Str? ==> (t <==> v.s != "")
  {
    match v
    case Undefined => false
    case Null => false
    case Bool(b) => b
    case Num(n) => n != 0
    case Str(s) => s != ""
    case Obj => true
    case Arr => true
  }

  /** Truthiness of an optional string field: neither missing nor empty. */
  function Present(v: Option<string>): (p: bool)
    ensures p <==> v != None && v != Some("")
  {
    v.Some? && v.value != ""
  }

  /** The record built by `POST /api/rooms` from the request body, a fresh id
      and the clock reading. */
  function NewRoom(id: RoomId, name: Option<string>, isPublic: JsonValue, now: int): (r: Room)
    ensures r.id == id && r.createdAt == now && r.usersCount == 0
    ensures name.None? ==> r.name == DefaultName
    ensures name.Some? ==> r.name == name.value
    ensures isPublic.Undefined? ==> r.isPublic
    ensures !isPublic.Undefined? ==> (r.isPublic <==> Truthy(isPublic))
  {
    Room(id, name.GetOr(DefaultName), isPublic.Undefined? || Truthy(isPublic), now, 0)
  }

  /** The room `join-room` materialises for an id it does not know: private,
      untitled, empty. */
  function ImplicitRoom(id: RoomId, now: int): (r: Room)
    ensures r.id == id && r.name == DefaultName && !r.isPublic
    ensures r.createdAt == now && r.usersCount == 0
  {
    Room(id, DefaultName, false, now, 0)
  }

  /** The JavaScript `Map` of rooms as a map plus its key insertion order:
      every key once, in the map, and each room stored under its own id. */
  ghost predicate WellFormed(rooms: map<RoomId, Room>, order: seq<RoomId>) {
    && (forall i, j :: 0 <= i < j < |order| ==> order[i] != order[j])
    && (forall k :: k in rooms <==> k in order)
    && (forall k :: k in rooms ==> rooms[k].id == k)
  }

  /** `rooms.set(id, room)` keeps the Map well formed: a new key goes last,
      an existing key keeps its place. */
  lemma SetKeepsWellFormed(rooms: map<RoomId, Room>, order: seq<RoomId>, id: RoomId, room: Room)
    requires WellFormed(rooms, order)
    requires room.id == id
    ensures WellFormed(rooms[id := room], if id in rooms then order else order + [id])
  {
  }

  /** `Array.from(rooms.values())`: the rooms in insertion order. */
  function Snapshot(rooms: map<RoomId, Room>, order: seq<RoomId>): (s: seq<Room>)
    requires forall i :: 0 <= i < |order| ==> order[i] in rooms
    ensures |s| == |order|
    ensures forall i :: 0 <= i < |order| ==> s[i] == rooms[order[i]]
  {
    if order == [] then [] else [rooms[order[0]]] + Snapshot(rooms, order[1..])
  }

  ghost predicate DistinctIds(rs: seq<Room>) {
    forall i, j :: 0 <= i < j < |rs| ==> rs[i].id != rs[j].id
  }

  ghost predicate NewestFirst(rs: seq<Room>) {
    forall i, j :: 0 <= i < j < |rs| ==> rs[i].createdAt >= rs[j].createdAt
  }

  /** The snapshot of a well-formed directory holds exactly its rooms, each once. */
  lemma SnapshotHoldsDirectory(rooms: map<RoomId, Room>, order: seq<RoomId>)
    requires WellFormed(rooms, order)
    ensures forall i :: 0 <= i < |order| ==> order[i] in rooms
    ensures forall x :: x in Snapshot(rooms, order) <==> x.id in rooms && rooms[x.id] == x
    ensures DistinctIds(Snapshot(rooms, order))
  {
  }

  /** `.filter(r => r.public)`, keeping the order of the input. */
  function PublicOnly(rs: seq<Room>): (r: seq<Room>)
    ensures forall x :: x in r <==> x in rs && x.isPublic
  {
    if rs == [] then []
    else
      assert forall x :: x in rs <==> x == rs[0] || x in rs[1..];
      if rs[0].isPublic then [rs[0]] + PublicOnly(rs[1..]) else PublicOnly(rs[1..])
  }

  /** Filtering never makes two entries share an id. */
  lemma {:induction false} PublicOnlyDistinct(rs: seq<Room>)
    requires DistinctIds(rs)
    ensures DistinctIds(PublicOnly(rs))
  {
    if rs != [] {
      var tail := rs[1..];
      assert DistinctIds(tail) by {
        forall i, j | 0 <= i < j < |tail| ensures tail[i].id != tail[j].id {
          assert tail[i] == rs[i + 1] && tail[j] == rs[j + 1];
        }
      }
      PublicOnlyDistinct(tail);
      if rs[0].isPublic {
        var rest := PublicOnly(tail);
        forall j | 0 <= j < |rest| ensures rest[j].id != rs[0].id {
          assert rest[j] in tail;
          var m :| 0 <= m < |tail| && tail[m] == rest[j];
          assert rs[m + 1] == rest[j];
        }
        ConsDistinct(rs[0], rest);
      }
    }
  }

  /** An entry whose id is new to a list without repeated ids may go in front. */
  lemma ConsDistinct(x: Room, s: seq<Room>)
    requires DistinctIds(s)
    requires forall j :: 0 <= j < |s| ==> s[j].id != x.id
    ensures DistinctIds([x] + s)
  {
  }

  /** Places `x` before the first element that is not newer than it, so an
      element keeps its place ahead of later elements with the same `createdAt`. */
  function Insert(x: Room, s: seq<Room>): (r: seq<Room>)
    ensures multiset(r) == multiset(s) + multiset{x}
  {
    if s == [] || s[0].createdAt <= x.createdAt then [x] + s
    else
      assert s == [s[0]] + s[1..];
      [s[0]] + Insert(x, s[1..])
  }

  lemma InsertMembers(x: Room, s: seq<Room>, y: Room)
    ensures y in Insert(x, s) <==> y == x || y in s
  {
  }

  /** Inserting into a newest-first list keeps it newest first. */
  lemma {:induction false} InsertNewestFirst(x: Room, s: seq<Room>)
    requires NewestFirst(s)
    ensures NewestFirst(Insert(x, s))
  {
    if s != [] && s[0].createdAt > x.createdAt {
      var tail := s[1..];
      assert NewestFirst(tail) by {
        forall i, j | 0 <= i < j < |tail| ensures tail[i].createdAt >= tail[j].createdAt {
          assert tail[i] == s[i + 1] && tail[j] == s[j + 1];
        }
      }
      InsertNewestFirst(x, tail);
      var rest := Insert(x, tail);
      forall j | 0 <= j < |rest| ensures rest[j].createdAt <= s[0].createdAt {
        InsertMembers(x, tail, rest[j]);
        if rest[j] != x {
          var m :| 0 <= m < |tail| && tail[m] == rest[j];
          assert s[m + 1] == rest[j];
        }
      }
      var r := [s[0]] + rest;
      forall i, j | 0 <= i < j < |r| ensures r[i].createdAt >= r[j].createdAt {
        assert r[j] == rest[j - 1];
        if i > 0 { assert r[i] == rest[i - 1]; }
      }
    }
  }

  /** Inserting an entry with a new id keeps the ids distinct. */
  lemma {:induction false} InsertDistinct(x: Room, s: seq<Room>)
    requires DistinctIds(s)
    requires forall y :: y in s ==> y.id != x.id
    ensures DistinctIds(Insert(x, s))
  {
    if s == [] || s[0].createdAt <= x.createdAt {
      forall j | 0 <= j < |s| ensures s[j].id != x.id {
        assert s[j] in s;
      }
      ConsDistinct(x, s);
    } else {
      var tail := s[1..];
      assert DistinctIds(tail) by {
        forall i, j | 0 <= i < j < |tail| ensures tail[i].id != tail[j].id {
          assert tail[i] == s[i + 1] && tail[j] == s[j + 1];
        }
      }
      assert forall y :: y in tail ==> y in s;
      InsertDistinct(x, tail);
      var rest := Insert(x, tail);
      forall j | 0 <= j < |rest| ensures rest[j].id != s[0].id {
        InsertMembers(x, tail, rest[j]);
        assert s[0] in s;
        if rest[j] != x {
          var m :| 0 <= m < |tail| && tail[m] == rest[j];
          assert s[m + 1] == rest[j];
        }
      }
      ConsDistinct(s[0], rest);
    }
  }

  /** `.sort((a, b) => b.createdAt - a.createdAt)`: a permutation of its input.
      Equal `createdAt` values keep their input order by construction, as
      ECMAScript's stable sort keeps them; only the permutation and the order
      by `createdAt` are proved. */
  function SortNewestFirst(rs: seq<Room>): (r: seq<Room>)
    ensures multiset(r) == multiset(rs)
  {
    if rs == [] then []
    else
      assert rs == [rs[0]] + rs[1..];
      Insert(rs[0], SortNewestFirst(rs[1..]))
  }

  lemma SortMembers(rs: seq<Room>, y: Room)
    ensures y in SortNewestFirst(rs) <==> y in rs
  {
    assert y in SortNewestFirst(rs) <==> y in multiset(SortNewestFirst(rs));
    assert y in rs <==> y in multiset(rs);
  }

  /** The sorted listing is newest first. */
  lemma {:induction false} SortIsNewestFirst(rs: seq<Room>)
    ensures NewestFirst(SortNewestFirst(rs))
  {
    if rs != [] {
      SortIsNewestFirst(rs[1..]);
      InsertNewestFirst(rs[0], SortNewestFirst(rs[1..]));
    }
  }

  /** Sorting never makes two entries share an id. */
  lemma {:induction false} SortDistinct(rs: seq<Room>)
    requires DistinctIds(rs)
    ensures DistinctIds(SortNewestFirst(rs))
  {
    if rs != [] {
      var tail := rs[1..];
      assert DistinctIds(tail) by {
        forall i, j | 0 <= i < j < |tail| ensures tail[i].id != tail[j].id {
          assert tail[i] == rs[i + 1] && tail[j] == rs[j + 1];
        }
      }
      SortDistinct(tail);
      var rest := SortNewestFirst(tail);
      forall y | y in rest ensures y.id != rs[0].id {
        SortMembers(tail, y);
        var m :| 0 <= m < |tail| && tail[m] == y;
        assert rs[m + 1] == y;
      }
      InsertDistinct(rs[0], rest);
    }
  }

  /** The listing entry of a room: its id, name and count, nothing else. */
  function Project(r: Room): (e: Summary)
    ensures e.id == r.id && e.name == r.name && e.usersCount == r.usersCount
  {
    Summary(r.id, r.name, r.usersCount)
  }

  /** `.map(r => ({ id: r.id, name: r.name, usersCount: r.usersCount }))`. */
  function ProjectAll(rs: seq<Room>): (r: seq<Summary>)
    ensures |r| == |rs|
    ensures forall i :: 0 <= i < |rs| ==> r[i] == Project(rs[i])
  {
    if rs == [] then [] else [Project(rs[0])] + ProjectAll(rs[1..])
  }

  /** `GET /api/rooms/public`: every public room exactly once, projected, newest first. */
  function ListPublic(rooms: map<RoomId, Room>, order: seq<RoomId>): (r: seq<Summary>)
    requires WellFormed(rooms, order)
    ensures forall i :: 0 <= i < |r| ==>
      r[i].id in rooms && rooms[r[i].id].isPublic && r[i] == Project(rooms[r[i].id])
    ensures forall k :: k in rooms && rooms[k].isPublic ==> Project(rooms[k]) in r
    ensures forall i, j :: 0 <= i < j < |r| ==> r[i].id != r[j].id
    ensures forall i, j :: 0 <= i < j < |r| ==> rooms[r[i].id].createdAt >= rooms[r[j].id].createdAt
  {
    SnapshotHoldsDirectory(rooms, order);
    var snap := Snapshot(rooms, order);
    var sorted := SortNewestFirst(PublicOnly(snap));
    ListingFacts(rooms, order);
    ProjectAll(sorted)
  }

  /** What the body of the public listing needs about the sorted public rooms. */
  lemma ListingFacts(rooms: map<RoomId, Room>, order: seq<RoomId>)
    requires WellFormed(rooms, order)
    ensures forall i :: 0 <= i < |order| ==> order[i] in rooms
    ensures var sorted := SortNewestFirst(PublicOnly(Snapshot(rooms, order)));
      && (forall i :: 0 <= i < |sorted| ==> sorted[i].id in rooms && rooms[sorted[i].id] == sorted[i] && sorted[i].isPublic)
      && (forall k :: k in rooms && rooms[k].isPublic ==> exists i :: 0 <= i < |sorted| && sorted[i] == rooms[k])
      && DistinctIds(sorted)
      && NewestFirst(sorted)
  {
    SnapshotHoldsDirectory(rooms, order);
    var snap := Snapshot(rooms, order);
    var pub := PublicOnly(snap);
    var sorted := SortNewestFirst(pub);
    forall i | 0 <= i < |sorted| ensures sorted[i].id in rooms && rooms[sorted[i].id] == sorted[i] && sorted[i].isPublic {
      SortMembers(pub, sorted[i]);
    }
    forall k | k in rooms && rooms[k].isPublic ensures exists i :: 0 <= i < |sorted| && sorted[i] == rooms[k] {
      SortMembers(pub, rooms[k]);
    }
    PublicOnlyDistinct(snap);
    SortDistinct(pub);
    SortIsNewestFirst(pub);
  }

  /** `GET /api/rooms/random`: the public rooms in insertion order, indexed by
      the draw `k`, which `Math.floor(Math.random() * n)` keeps below `n`. */
  function RandomPublic(rooms: map<RoomId, Room>, order: seq<RoomId>, k: nat): (r: Result<Room, string>)
    requires WellFormed(rooms, order)
    requires PublicOnly(Snapshot(rooms, order)) == [] || k < |PublicOnly(Snapshot(rooms, order))|
    ensures r.Failure? <==> forall key :: key in rooms ==> !rooms[key].isPublic
    ensures r.Failure? ==> r.error == NoPublicRooms
    ensures r.Success? ==> r.value.id in rooms && rooms[r.value.id] == r.value && r.value.isPublic
  {
    SnapshotHoldsDirectory(rooms, order);
    var pub := PublicOnly(Snapshot(rooms, order));
    if |pub| == 0 then
      assert forall key :: key in rooms ==> !rooms[key].isPublic by {
        forall key | key in rooms ensures !rooms[key].isPublic {
          assert rooms[key] in Snapshot(rooms, order);
        }
      }
      Failure(NoPublicRooms)
    else
      assert pub[k] in pub;
      Success(pub[k])
  }

  /** With exactly one public room, the only admissible draw is 0 and it picks that room. */
  lemma OnlyPublicRoomIsPicked(rooms: map<RoomId, Room>, order: seq<RoomId>, id: RoomId)
    requires WellFormed(rooms, order)
    requires id in rooms && rooms[id].isPublic
    requires forall key :: key in rooms && rooms[key].isPublic ==> key == id
    ensures |PublicOnly(Snapshot(rooms, order))| == 1
    ensures RandomPublic(rooms, order, 0) == Success(rooms[id])
  {
    SnapshotHoldsDirectory(rooms, order);
    var pub := PublicOnly(Snapshot(rooms, order));
    PublicOnlyDistinct(Snapshot(rooms, order));
    assert rooms[id] in pub;
    assert forall i :: 0 <= i < |pub| ==> pub[i] in pub;
    assert |pub| > 1 ==> pub[0].id == pub[1].id;
  }

  /** The draw is a bijection between `[0, n)` and the public rooms: every
      public room comes from some draw, and no two draws pick the same room.
      A uniform draw therefore picks each public room with probability `1/n`. */
  lemma {:induction false} EachPublicRoomHasOneDraw(rooms: map<RoomId, Room>, order: seq<RoomId>, key: RoomId)
    requires WellFormed(rooms, order)
    requires key in rooms && rooms[key].isPublic
    ensures exists k :: 0 <= k < |PublicOnly(Snapshot(rooms, order))| && RandomPublic(rooms, order, k) == Success(rooms[key])
    ensures forall k1, k2 :: 0 <= k1 < k2 < |PublicOnly(Snapshot(rooms, order))| ==>
      RandomPublic(rooms, order, k1) != RandomPublic(rooms, order, k2)
  {
    SnapshotHoldsDirectory(rooms, order);
    var snap := Snapshot(rooms, order);
    var pub := PublicOnly(snap);
    PublicOnlyDistinct(snap);
    assert rooms[key] in snap;
    assert rooms[key] in pub;
    var i :| 0 <= i < |pub| && pub[i] == rooms[key];
    assert RandomPublic(rooms, order, i) == Success(rooms[key]);
    forall k1, k2 | 0 <= k1 < k2 < |pub| ensures RandomPublic(rooms, order, k1) != RandomPublic(rooms, order, k2) {
      assert RandomPublic(rooms, order, k1) == Success(pub[k1]);
      assert RandomPublic(rooms, order, k2) == Success(pub[k2]);
      assert pub[k1].id != pub[k2].id;
    }
  }
}
