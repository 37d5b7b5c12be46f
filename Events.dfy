/**
  The event record and the whole-collection operations the calendar applies to
  its in-memory list: filtering (`Array.prototype.filter`), the first index with
  a given id (`findIndex`), replacing that element, and removing by id.
*/
module Events {

  /** One calendar entry. `date` is `YYYY-MM-DD` text, `time` is `HH:MM` or empty. */
  datatype Event = Event(
    id: string,
    title: string,
    date: string,
    time: string,
    description: string,
    member: string,
    createdAt: string,
    updatedAt: string)

  /** The elements of `s` that satisfy `keep`, in their original order. */
  function Filter(s: seq<Event>, keep: Event -> bool): (r: seq<Event>)
    ensures |r| <= |s|
    ensures forall e :: e in r <==> e in s && keep(e)
  {
    if s == [] then []
    else (if keep(s[0]) then [s[0]] else []) + Filter(s[1..], keep)
  }

  /** Filtering works piecewise, so the kept elements keep their relative order. */
  lemma {:induction false} FilterAppend(a: seq<Event>, b: seq<Event>, keep: Event -> bool)
    ensures Filter(a + b, keep) == Filter(a, keep) + Filter(b, keep)
  {
    if a == [] {
      assert a + b == b;
    } else {
      assert (a + b)[0] == a[0] && (a + b)[1..] == a[1..] + b;
      FilterAppend(a[1..], b, keep);
    }
  }

  /** A filter that every element passes changes nothing. */
  lemma {:induction false} FilterKeepsAll(s: seq<Event>, keep: Event -> bool)
    requires forall e :: e in s ==> keep(e)
    ensures Filter(s, keep) == s
  {
    if s != [] {
      FilterKeepsAll(s[1..], keep);
    }
  }

  /** The index of the first event with id `id`, or -1 when there is none. */
  function FindIndex(s: seq<Event>, id: string): (r: int)
    ensures -1 <= r < |s|
    ensures r == -1 <==> forall j :: 0 <= j < |s| ==> s[j].id != id
    ensures r >= 0 ==> s[r].id == id && forall j :: 0 <= j < r ==> s[j].id != id
  {
    if s == [] then -1
    else if s[0].id == id then 0
    else
      var k := FindIndex(s[1..], id);
      if k == -1 then -1 else k + 1
  }

  /**
    The collection after an edit: the first event with id `id` becomes `e`;
    with no such event the collection is unchanged.
  */
  function ReplaceFirst(s: seq<Event>, id: string, e: Event): (r: seq<Event>)
    ensures |r| == |s|
    ensures (forall j :: 0 <= j < |s| ==> s[j].id != id) ==> r == s
    ensures forall j :: 0 <= j < |s| ==>
      r[j] == if s[j].id == id && forall i :: 0 <= i < j ==> s[i].id != id then e else s[j]
  {
    var index := FindIndex(s, id);
    if index == -1 then s else s[index := e]
  }

  /** The collection after deleting id `id`: every event with another id, in order. */
  function RemoveById(s: seq<Event>, id: string): (r: seq<Event>)
    ensures forall e :: e in r <==> e in s && e.id != id
  {
    Filter(s, (e: Event) => e.id != id)
  }

  /** Deleting an id that is not present changes nothing. */
  lemma RemoveAbsentId(s: seq<Event>, id: string)
    requires forall e :: e in s ==> e.id != id
    ensures RemoveById(s, id) == s
  {
    FilterKeepsAll(s, (e: Event) => e.id != id);
  }

  /** Deleting twice is deleting once. */
  lemma RemoveByIdIdempotent(s: seq<Event>, id: string)
    ensures RemoveById(RemoveById(s, id), id) == RemoveById(s, id)
  {
    RemoveAbsentId(RemoveById(s, id), id);
  }

  /** Deletion preserves the relative order of what remains: it works piece by piece. */
  lemma RemoveByIdAppend(a: seq<Event>, b: seq<Event>, id: string)
    ensures RemoveById(a + b, id) == RemoveById(a, id) + RemoveById(b, id)
  {
    FilterAppend(a, b, (e: Event) => e.id != id);
  }

  /** On a single event, deletion drops it exactly when its id matches. */
  lemma RemoveByIdSingle(e: Event, id: string)
    ensures RemoveById([e], id) == if e.id == id then [] else [e]
  {
    assert [e][1..] == [];
  }
}
