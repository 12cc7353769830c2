/**
 * The service catalogue of lib/services.js and the copy of it sorted by
 * duration that the booking flow lists (components/BookingFlow.js).
 */
module Services {
  import opened Wrappers

  /** One bookable service: its id, its name and how long it takes in minutes. */
  datatype Service = Service(id: int, name: string, duration: int)

  const Catalogue: seq<Service> := [
    Service(1, NameOf(1), 120),
    Service(2, NameOf(2), 180),
    Service(3, NameOf(3), 180),
    Service(4, NameOf(4), 180),
    Service(5, NameOf(5), 180),
    Service(6, NameOf(6), 150),
    Service(7, NameOf(7), 150),
    Service(8, NameOf(8), 90)
  ]

  /** The display name of each catalogue id (empty outside 1..8). */
  function NameOf(id: int): (name: string)
    ensures 1 <= id <= 8 <==> |name| > 0
  {
    match id
    case 1 => "Retoque (Mantenimiento)"
    case 2 => "Reconstrucción Uñas Mordidas (Onicofagía)"
    case 3 => "Uñas Acrílicas"
    case 4 => "Uñas Polygel"
    case 5 => "Uñas Softgel"
    case 6 => "Kapping o Baño Polygel o Acrílico sobre uña natural"
    case 7 => "Reforzamiento Nivelación Rubber"
    case 8 => "Esmaltado Permanente"
    case _ => ""
  }

  /** The ids are 1..8 in order, hence unique; every duration is a positive
      number of half hours. */
  lemma CatalogueWellFormed()
    ensures |Catalogue| == 8
    ensures forall i :: 0 <= i < |Catalogue| ==> Catalogue[i].id == i + 1
    ensures forall i, j :: 0 <= i < j < |Catalogue| ==> Catalogue[i].id != Catalogue[j].id
    ensures forall s :: s in Catalogue ==> s.duration > 0 && s.duration % 30 == 0
  {
  }

  /** `services.find(s => s.id === id)` over any list. */
  function Find(services: seq<Service>, id: int): (found: Option<Service>)
    ensures found.Some? <==> exists s :: s in services && s.id == id
    ensures found.Some? ==> found.value in services && found.value.id == id
  {
    if |services| == 0 then None
    else if services[0].id == id then Some(services[0])
    else Find(services[1..], id)
  }

  /** `Find` returns the first service carrying the id. */
  lemma {:induction false} FindReturnsFirst(services: seq<Service>, id: int, i: nat)
    requires i < |services| && services[i].id == id
    requires forall j :: 0 <= j < i ==> services[j].id != id
    ensures Find(services, id) == Some(services[i])
  {
    if i > 0 {
      FindReturnsFirst(services[1..], id, i - 1);
    }
  }

  /** The catalogue entry for an id: present exactly for ids 1..8. */
  function Lookup(id: int): (found: Option<Service>)
    ensures found.Some? <==> 1 <= id <= 8
    ensures found.Some? ==> found.value == Catalogue[id - 1]
  {
    if 1 <= id <= 8 then
      FindCatalogued(id);
      Find(Catalogue, id)
    else
      FindUncatalogued(id);
      Find(Catalogue, id)
  }

  lemma FindCatalogued(id: int)
    requires 1 <= id <= 8
    ensures Find(Catalogue, id) == Some(Catalogue[id - 1])
  {
    CatalogueWellFormed();
    FindReturnsFirst(Catalogue, id, id - 1);
  }

  lemma FindUncatalogued(id: int)
    requires !(1 <= id <= 8)
    ensures Find(Catalogue, id) == None
  {
    CatalogueWellFormed();
    forall s | s in Catalogue
      ensures s.id != id
    {
      var i :| 0 <= i < |Catalogue| && Catalogue[i] == s;
    }
  }

  predicate SortedByDuration(services: seq<Service>)
  {
    forall i, j :: 0 <= i < j < |services| ==> services[i].duration <= services[j].duration
  }

  /** Places `x` ahead of the first service that does not take less time. */
  function Insert(x: Service, sorted: seq<Service>): seq<Service>
  {
    if |sorted| == 0 || x.duration <= sorted[0].duration then [x] + sorted
    else [sorted[0]] + Insert(x, sorted[1..])
  }

  /**
   * `[...services].sort((a, b) => a.duration - b.duration)`: a stable sort
   * (as JavaScript's `Array.prototype.sort` is), so services of equal
   * duration keep their catalogue order.
   */
  function SortByDuration(services: seq<Service>): seq<Service>
  {
    if |services| == 0 then []
    else Insert(services[0], SortByDuration(services[1..]))
  }

  /** Insertion keeps the list's contents, plus `x`. */
  lemma {:induction false} InsertPermutes(x: Service, sorted: seq<Service>)
    ensures multiset(Insert(x, sorted)) == multiset(sorted) + multiset{x}
  {
    if |sorted| > 0 && x.duration > sorted[0].duration {
      InsertPermutes(x, sorted[1..]);
      assert sorted == [sorted[0]] + sorted[1..];
    }
  }

  /** Insertion into a sorted list leaves it sorted. */
  lemma {:induction false} InsertSorted(x: Service, sorted: seq<Service>)
    requires SortedByDuration(sorted)
    ensures SortedByDuration(Insert(x, sorted))
  {
    if |sorted| > 0 && x.duration > sorted[0].duration {
      var rest := Insert(x, sorted[1..]);
      InsertSorted(x, sorted[1..]);
      InsertPermutes(x, sorted[1..]);
      forall k | 0 <= k < |rest|
        ensures sorted[0].duration <= rest[k].duration
      {
        assert rest[k] in multiset(rest);
        if rest[k] != x {
          assert rest[k] in multiset(sorted[1..]);
          var j :| 0 <= j < |sorted[1..]| && sorted[1..][j] == rest[k];
          assert sorted[j + 1] == rest[k];
        }
      }
    }
  }

  /** The sort returns the same services in non-decreasing duration. */
  lemma {:induction false} SortByDurationSortsAndPermutes(services: seq<Service>)
    ensures SortedByDuration(SortByDuration(services))
    ensures multiset(SortByDuration(services)) == multiset(services)
  {
    if |services| > 0 {
      SortByDurationSortsAndPermutes(services[1..]);
      InsertSorted(services[0], SortByDuration(services[1..]));
      InsertPermutes(services[0], SortByDuration(services[1..]));
      assert services == [services[0]] + services[1..];
    }
  }

  /** The list the flow offers, shortest service first. */
  function SortedCatalogue(): (r: seq<Service>)
    ensures SortedByDuration(r) && multiset(r) == multiset(Catalogue)
  {
    SortByDurationSortsAndPermutes(Catalogue);
    SortByDuration(Catalogue)
  }

  /**
   * Inserting past a run of strictly shorter services lands `x` right
   * after that run.
   */
  lemma {:induction false} InsertAfterShorter(x: Service, shorter: seq<Service>, rest: seq<Service>)
    requires forall k :: 0 <= k < |shorter| ==> shorter[k].duration < x.duration
    requires |rest| == 0 || x.duration <= rest[0].duration
    ensures Insert(x, shorter + rest) == shorter + [x] + rest
  {
    if |shorter| == 0 {
      assert shorter + rest == rest;
    } else {
      assert (shorter + rest)[0] == shorter[0];
      assert (shorter + rest)[1..] == shorter[1..] + rest;
      InsertAfterShorter(x, shorter[1..], rest);
      assert shorter + [x] + rest == [shorter[0]] + (shorter[1..] + [x] + rest);
    }
  }

  lemma SortStep(services: seq<Service>)
    requires |services| > 0
    ensures SortByDuration(services) == Insert(services[0], SortByDuration(services[1..]))
  {
  }

  /** Equal durations keep catalogue order: 6 before 7, and 2, 3, 4, 5 in turn. */
  lemma SortedCatalogueOrder()
    ensures var c := Catalogue; SortedCatalogue() == [c[7], c[0], c[5], c[6], c[1], c[2], c[3], c[4]]
  {
    var c := Catalogue;
    assert c[0].duration == 120 && c[7].duration == 90;
    assert c[1].duration == 180 && c[2].duration == 180 && c[3].duration == 180 && c[4].duration == 180;
    assert c[5].duration == 150 && c[6].duration == 150;
    SortOfCatalogueShape(c);
  }

  /** Eight services whose durations are the catalogue's: 120, 180, 180, 180, 180, 150, 150, 90. */
  predicate CatalogueShape(c: seq<Service>)
  {
    |c| == 8 && c[0].duration == 120 && c[7].duration == 90 &&
    c[1].duration == 180 && c[2].duration == 180 && c[3].duration == 180 && c[4].duration == 180 &&
    c[5].duration == 150 && c[6].duration == 150
  }

  /** Sorting `x` ahead of a sorted tail whose first run is strictly shorter places `x` after that run. */
  lemma SortConsAfterShorter(services: seq<Service>, shorter: seq<Service>, rest: seq<Service>)
    requires |services| > 0 && SortByDuration(services[1..]) == shorter + rest
    requires forall k :: 0 <= k < |shorter| ==> shorter[k].duration < services[0].duration
    requires |rest| == 0 || services[0].duration <= rest[0].duration
    ensures SortByDuration(services) == shorter + [services[0]] + rest
  {
    SortStep(services);
    InsertAfterShorter(services[0], shorter, rest);
  }

  lemma SortFromFourth(c: seq<Service>)
    requires CatalogueShape(c)
    ensures SortByDuration(c[3..]) == [c[7], c[5], c[6], c[3], c[4]]
  {
    SortOfLastFour(c[4..]);
    assert c[3..][1..] == c[4..] && c[3..][0] == c[3];
    assert [c[7], c[5], c[6]] + [c[4]] == SortByDuration(c[4..]);
    SortConsAfterShorter(c[3..], [c[7], c[5], c[6]], [c[4]]);
  }

  lemma SortFromThird(c: seq<Service>)
    requires CatalogueShape(c)
    ensures SortByDuration(c[2..]) == [c[7], c[5], c[6], c[2], c[3], c[4]]
  {
    SortFromFourth(c);
    assert c[2..][1..] == c[3..] && c[2..][0] == c[2];
    assert [c[7], c[5], c[6]] + [c[3], c[4]] == SortByDuration(c[3..]);
    SortConsAfterShorter(c[2..], [c[7], c[5], c[6]], [c[3], c[4]]);
  }

  lemma SortFromSecond(c: seq<Service>)
    requires CatalogueShape(c)
    ensures SortByDuration(c[1..]) == [c[7], c[5], c[6], c[1], c[2], c[3], c[4]]
  {
    SortFromThird(c);
    assert c[1..][1..] == c[2..] && c[1..][0] == c[1];
    assert [c[7], c[5], c[6]] + [c[2], c[3], c[4]] == SortByDuration(c[2..]);
    SortConsAfterShorter(c[1..], [c[7], c[5], c[6]], [c[2], c[3], c[4]]);
  }

  /**
   * The sort of any eight services whose durations are the catalogue's
   * (120, 180, 180, 180, 180, 150, 150, 90) picks them in the order
   * 8, 1, 6, 7, 2, 3, 4, 5 (by position).
   */
  lemma SortOfCatalogueShape(c: seq<Service>)
    requires CatalogueShape(c)
    ensures SortByDuration(c) == [c[7], c[0], c[5], c[6], c[1], c[2], c[3], c[4]]
  {
    SortFromSecond(c);
    assert [c[7]] + [c[5], c[6], c[1], c[2], c[3], c[4]] == SortByDuration(c[1..]);
    SortConsAfterShorter(c, [c[7]], [c[5], c[6], c[1], c[2], c[3], c[4]]);
  }

  /** The catalogue's last four durations (180, 150, 150, 90) sort to positions 3, 1, 2, 0. */
  lemma SortOfLastFour(t: seq<Service>)
    requires |t| == 4
    requires t[0].duration == 180 && t[1].duration == 150 && t[2].duration == 150 && t[3].duration == 90
    ensures SortByDuration(t) == [t[3], t[1], t[2], t[0]]
  {
    var l3 := SortByDuration(t[3..]);
    assert l3 == [t[3]] by {
      SortStep(t[3..]);
      assert t[3..][1..] == [];
    }
    var l2 := SortByDuration(t[2..]);
    assert l2 == [t[3], t[2]] by {
      SortStep(t[2..]);
      assert t[2..][1..] == t[3..];
      assert [t[3]] + [] == l3;
      InsertAfterShorter(t[2], [t[3]], []);
      assert [t[3]] + [t[2]] + [] == [t[3], t[2]];
    }
    var l1 := SortByDuration(t[1..]);
    assert l1 == [t[3], t[1], t[2]] by {
      SortStep(t[1..]);
      assert t[1..][1..] == t[2..];
      assert [t[3]] + [t[2]] == l2;
      InsertAfterShorter(t[1], [t[3]], [t[2]]);
      assert [t[3]] + [t[1]] + [t[2]] == [t[3], t[1], t[2]];
    }
    SortStep(t);
    assert [t[3], t[1], t[2]] + [] == l1;
    InsertAfterShorter(t[0], [t[3], t[1], t[2]], []);
    assert [t[3], t[1], t[2]] + [t[0]] + [] == [t[3], t[1], t[2], t[0]];
  }
}
