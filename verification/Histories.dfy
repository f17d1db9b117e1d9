/**
  Whole runs of the routing table: what it stores is a function of what it was offered,
  not of the order, the repeats or the splits.
 */
module Histories {
  import opened NodeIds
  import opened KClosest
  import opened Contacts
  import opened Tables
  import opened Reference

  datatype Event = Offered(c: Contact) | Removed(id: NodeID)

  /** A table after a run of calls, first call first. */
  function Run(local: Contact, k: nat, events: seq<Event>): (t: Table)
    ensures Shape(t) && t.local == local && t.k == k
  {
    if events == [] then New(local, k)
    else
      var t := Run(local, k, events[..|events| - 1]);
      match events[|events| - 1]
      case Offered(c) => Update(t, c).0
      case Removed(id) => Remove(t, id)
  }

  function RunReference(local: Contact, k: nat, events: seq<Event>): set<Contact>
    requires k > 0
  {
    if events == [] then {local}
    else
      var A := RunReference(local, k, events[..|events| - 1]);
      match events[|events| - 1]
      case Offered(c) => Offer(A, c, local, k)
      case Removed(id) => Forget(A, id)
  }

  /** The local node is never asked to leave. */
  predicate KeepsLocal(local: Contact, events: seq<Event>) {
    forall i :: 0 <= i < |events| ==> events[i] != Removed(local.id)
  }

  /**
    In every run of updates and of removals of other nodes the table keeps its invariant
    and stores exactly what the unsplit reference stores.
   */
  lemma {:induction false} RunRefinesReference(local: Contact, k: nat, events: seq<Event>)
    requires k > 0 && KeepsLocal(local, events)
    ensures TableInv(Run(local, k, events))
    ensures Stored(Run(local, k, events)) == RunReference(local, k, events)
  {
    if events == [] {
      NewInv(local, k);
    } else {
      var before := events[..|events| - 1];
      RunRefinesReference(local, k, before);
      var t := Run(local, k, before);
      assert events[|events| - 1] != Removed(local.id);
      match events[|events| - 1] {
        case Offered(c) =>
          UpdateInv(t, c);
          UpdateRefines(t, c);
        case Removed(id) =>
          RemoveSpec(t, id);
      }
    }
  }

  /** No call in such a run ends in the no-split error. */
  lemma {:induction false} RunNeverFails(local: Contact, k: nat, events: seq<Event>, c: Contact)
    requires k > 0 && KeepsLocal(local, events)
    ensures Update(Run(local, k, events), c).1 == Updated
  {
    RunRefinesReference(local, k, events);
    UpdateInv(Run(local, k, events), c);
  }

  // ---------------------------------------------------------------- offers only

  function Offers(offers: seq<Contact>): seq<Event> {
    seq(|offers|, i requires 0 <= i < |offers| => Offered(offers[i]))
  }

  lemma {:induction false} OffersKeepLocal(local: Contact, offers: seq<Contact>)
    ensures KeepsLocal(local, Offers(offers))
    ensures offers != [] ==> Offers(offers)[..|offers| - 1] == Offers(offers[..|offers| - 1])
  {
  }

  /** Everyone ever heard of: the local node, and for each other identifier its last record. */
  function Known(local: Contact, offers: seq<Contact>): set<Contact> {
    if offers == [] then {local}
    else
      var A := Known(local, offers[..|offers| - 1]);
      var c := offers[|offers| - 1];
      if c.id == local.id then A else Replace(A, c)
  }

  lemma {:induction false} KnownIsLatest(local: Contact, offers: seq<Contact>, c: Contact)
    ensures c.id == local.id ==> (c in Known(local, offers) <==> c == local)
    ensures c.id != local.id ==>
      (c in Known(local, offers) <==>
       exists i :: 0 <= i < |offers| && offers[i] == c && forall j :: i < j < |offers| ==> offers[j].id != c.id)
  {
    if offers != [] {
      var n := |offers| - 1;
      var before := offers[..n];
      KnownIsLatest(local, before, c);
      if c.id != local.id {
        if c in Known(local, offers) {
          if offers[n] == c {
          } else {
            assert offers[n].id != c.id;
            assert c in Known(local, before);
            var i :| 0 <= i < |before| && before[i] == c && forall j :: i < j < |before| ==> before[j].id != c.id;
            assert offers[i] == c;
            assert forall j :: i < j < |offers| ==> j == n || offers[j] == before[j];
          }
        }
        if i :| 0 <= i < |offers| && offers[i] == c && forall j :: i < j < |offers| ==> offers[j].id != c.id {
          if i < n {
            assert before[i] == c && offers[n].id != c.id;
            assert forall j :: i < j < |before| ==> before[j] == offers[j];
          }
        }
      }
    }
  }

  lemma {:induction false} LastId(s: seq<Contact>)
    requires s != []
    ensures Ids(Elems(s)) == Ids(Elems(s[..|s| - 1])) + {s[|s| - 1].id}
  {
    var p, c := s[..|s| - 1], s[|s| - 1];
    assert s == p + [c];
    assert Elems(s) == Elems(p) + {c};
  }

  lemma {:induction false} KnownIds(local: Contact, offers: seq<Contact>)
    ensures Ids(Known(local, offers)) == {local.id} + Ids(Elems(offers))
  {
    if offers == [] {
      assert Ids({local}) == {local.id};
    } else {
      var before, c := offers[..|offers| - 1], offers[|offers| - 1];
      KnownIds(local, before);
      LastId(offers);
      if c.id != local.id {
        IdsOfReplacement(Known(local, before), c);
      }
    }
  }

  lemma {:induction false} KnownUnique(local: Contact, offers: seq<Contact>)
    ensures UniqueIds(Known(local, offers)) && local in Known(local, offers)
  {
    if offers != [] {
      KnownUnique(local, offers[..|offers| - 1]);
    }
  }

  lemma {:induction false} IdsOfReplacement(A: set<Contact>, c: Contact)
    ensures Ids(Replace(A, c)) == Ids(A) + {c.id}
  {
    forall id
      ensures id in Ids(Replace(A, c)) <==> id in Ids(A) || id == c.id
    {
      if id in Ids(A) && id != c.id {
        var x :| x in A && x.id == id;
        assert x in Replace(A, c);
      }
      assert c in Replace(A, c);
    }
  }

  /** Of the known contacts, the local node and the closest of each prefix length. */
  function Trimmed(A: set<Contact>, local: Contact, k: nat): set<Contact>
    requires k > 0
  {
    set x | x in A && (x.id == local.id || x.id in CellKeep(A, local, k, Depth(local, x.id)))
  }

  function CellKeep(A: set<Contact>, local: Contact, k: nat, i: nat): set<NodeID>
    requires k > 0
  {
    Closest(Ids(Cell(A, local, i)), Capacity(i, k), local.id)
  }

  lemma {:induction false} TrimmedCell(A: set<Contact>, local: Contact, k: nat, i: nat)
    requires k > 0 && i < KEY_BITS
    ensures Ids(Cell(Trimmed(A, local, k), local, i)) == CellKeep(A, local, k, i)
  {
    NoneCloserThanSelf(local, local.id);
    var keep := CellKeep(A, local, k, i);
    forall id
      ensures id in Ids(Cell(Trimmed(A, local, k), local, i)) <==> id in keep
    {
      if id in keep {
        var x :| x in Cell(A, local, i) && x.id == id;
        assert x in Cell(Trimmed(A, local, k), local, i);
      }
    }
  }

  lemma {:induction false} CellIdsOfReplace(A: set<Contact>, c: Contact, local: Contact, i: nat)
    requires Depth(local, c.id) == i
    ensures Ids(Cell(Replace(A, c), local, i)) == Ids(Cell(A, local, i)) + {c.id}
  {
    assert Cell(Replace(A, c), local, i) == Replace(Cell(A, local, i), c);
    IdsOfReplacement(Cell(A, local, i), c);
  }

  /** Trimming commutes with offering, so trimming as one goes loses nothing. */
  lemma {:induction false} OfferTrimmed(A: set<Contact>, c: Contact, local: Contact, k: nat)
    requires k > 0 && c.id != local.id
    ensures Offer(Trimmed(A, local, k), c, local, k) == Trimmed(Replace(A, c), local, k)
  {
    var i := Depth(local, c.id);
    NoneCloserThanSelf(local, c.id);
    var B := Trimmed(A, local, k);
    var S := Ids(Cell(A, local, i));
    var keep := Closest(Ids(Cell(Replace(B, c), local, i)), Capacity(i, k), local.id);
    CellIdsOfReplace(A, c, local, i);
    CellIdsOfReplace(B, c, local, i);
    TrimmedCell(A, local, k, i);
    ClosestStreams(S, c.id, Capacity(i, k), local.id);
    assert keep == CellKeep(Replace(A, c), local, k, i);
    assert keep <= CellKeep(A, local, k, i) + {c.id};
    forall x
      ensures x in Offer(B, c, local, k) <==> x in Trimmed(Replace(A, c), local, k)
    {
      if Depth(local, x.id) != i {
        assert Cell(Replace(A, c), local, Depth(local, x.id)) == Cell(A, local, Depth(local, x.id));
      } else {
        NoneCloserThanSelf(local, x.id);
      }
    }
  }

  /** What the reference holds after any offers: every known contact, trimmed once. */
  lemma {:induction false} ReferenceIsTrimmed(local: Contact, k: nat, offers: seq<Contact>)
    requires k > 0
    ensures RunReference(local, k, Offers(offers)) == Trimmed(Known(local, offers), local, k)
  {
    OffersKeepLocal(local, offers);
    if offers != [] {
      var before, c := offers[..|offers| - 1], offers[|offers| - 1];
      ReferenceIsTrimmed(local, k, before);
      if c.id != local.id {
        OfferTrimmed(Known(local, before), c, local, k);
      }
    }
  }

  /**
    After any offers, the table holds the local node and, for each prefix length, the
    closest of all contacts ever offered with that prefix length, each in its last record.
   */
  lemma {:induction false} StoredIsTrimmed(local: Contact, k: nat, offers: seq<Contact>)
    requires k > 0
    ensures Stored(Run(local, k, Offers(offers))) == Trimmed(Known(local, offers), local, k)
    ensures TableInv(Run(local, k, Offers(offers)))
  {
    OffersKeepLocal(local, offers);
    RunRefinesReference(local, k, Offers(offers));
    ReferenceIsTrimmed(local, k, offers);
  }

  // ---------------------------------------------------------------- k of each prefix length

  /** The promise: k contacts of every prefix length. */
  function KOfEach(A: set<Contact>, local: Contact, k: nat): set<Contact> {
    set x | x in A &&
      (x.id == local.id || x.id in Closest(Ids(Cell(A, local, Depth(local, x.id))), k, local.id))
  }

  predicate OffersSibling(local: Contact, offers: seq<Contact>) {
    exists i :: 0 <= i < |offers| && Depth(local, offers[i].id) == KEY_BITS - 1
  }

  lemma {:induction false} SiblingCell(A: set<Contact>, local: Contact, x: Contact)
    requires x in A && Depth(local, x.id) == KEY_BITS - 1
    ensures Ids(Cell(A, local, KEY_BITS - 1)) == {x.id}
  {
    assert x in Cell(A, local, KEY_BITS - 1);
    forall y | y in Cell(A, local, KEY_BITS - 1)
      ensures y.id == x.id
    {
      DeepestSiblingUnique(local.id, x.id, y.id);
    }
  }

  lemma {:induction false} TrimmedIsKOfEach(A: set<Contact>, local: Contact, k: nat)
    requires k > 0
    ensures Trimmed(A, local, k) == KOfEach(A, local, k)
      <==> k > 1 || forall x :: x in A ==> Depth(local, x.id) != KEY_BITS - 1
  {
    NoneCloserThanSelf(local, local.id);
    forall x | x in A && Depth(local, x.id) == KEY_BITS - 1
      ensures x in KOfEach(A, local, k)
      ensures x in Trimmed(A, local, k) <==> k > 1
    {
      SiblingCell(A, local, x);
      FewAreAllClosest({x.id}, k, local.id);
      ClosestCount({x.id}, k - 1, local.id);
      if k > 1 {
        FewAreAllClosest({x.id}, k - 1, local.id);
      }
    }
    forall x | x in A && Depth(local, x.id) != KEY_BITS - 1
      ensures x in KOfEach(A, local, k) <==> x in Trimmed(A, local, k)
    {
    }
  }

  /**
    The table holds the k closest of every prefix length exactly when k > 1 or the one
    identifier that differs from the local one in its last bit alone was never offered:
    with k = 1 that sibling competes with the local node for the single place and loses.
   */
  lemma {:induction false} StoredIsKOfEach(local: Contact, k: nat, offers: seq<Contact>)
    requires k > 0
    ensures Stored(Run(local, k, Offers(offers))) == KOfEach(Known(local, offers), local, k)
      <==> k > 1 || !OffersSibling(local, offers)
  {
    StoredIsTrimmed(local, k, offers);
    TrimmedIsKOfEach(Known(local, offers), local, k);
    SiblingKnown(local, offers);
  }

  lemma {:induction false} SiblingKnown(local: Contact, offers: seq<Contact>)
    ensures OffersSibling(local, offers) <==>
      exists x :: x in Known(local, offers) && Depth(local, x.id) == KEY_BITS - 1
  {
    KnownIds(local, offers);
    NoneCloserThanSelf(local, local.id);
    if OffersSibling(local, offers) {
      var i :| 0 <= i < |offers| && Depth(local, offers[i].id) == KEY_BITS - 1;
      assert offers[i] in Elems(offers);
      assert offers[i].id in Ids(Known(local, offers));
      var x :| x in Known(local, offers) && x.id == offers[i].id;
      assert Depth(local, x.id) == KEY_BITS - 1;
    }
    if x :| x in Known(local, offers) && Depth(local, x.id) == KEY_BITS - 1 {
      assert x.id in Ids(Known(local, offers));
      ElemsIds(offers, x.id);
    }
  }

  /**
    Order and repeats do not matter: two runs that offer the same identifiers end with the
    same identifiers stored, and with the same contacts if the last records agree.
   */
  lemma {:induction false} SameOffersSameTable(local: Contact, k: nat, offers: seq<Contact>, offers': seq<Contact>)
    requires k > 0
    requires Ids(Elems(offers)) == Ids(Elems(offers'))
    ensures Ids(Stored(Run(local, k, Offers(offers)))) == Ids(Stored(Run(local, k, Offers(offers'))))
    ensures Known(local, offers) == Known(local, offers') ==>
      Stored(Run(local, k, Offers(offers))) == Stored(Run(local, k, Offers(offers')))
  {
    StoredIsTrimmed(local, k, offers);
    StoredIsTrimmed(local, k, offers');
    KnownIds(local, offers);
    KnownIds(local, offers');
    TrimmedIdsByIds(Known(local, offers), Known(local, offers'), local, k);
    TrimmedIdsByIds(Known(local, offers'), Known(local, offers), local, k);
  }

  lemma {:induction false} CellIdsByIds(A: set<Contact>, B: set<Contact>, local: Contact, i: nat)
    requires Ids(A) == Ids(B)
    ensures Ids(Cell(A, local, i)) == Ids(Cell(B, local, i))
  {
    forall id
      ensures id in Ids(Cell(A, local, i)) <==> id in Ids(A) && Depth(local, id) == i
      ensures id in Ids(Cell(B, local, i)) <==> id in Ids(B) && Depth(local, id) == i
    {
      if id in Ids(A) && Depth(local, id) == i {
        var x :| x in A && x.id == id;
        assert x in Cell(A, local, i);
        var y :| y in B && y.id == id;
        assert y in Cell(B, local, i);
      }
    }
  }

  lemma {:induction false} TrimmedIdsByIds(A: set<Contact>, B: set<Contact>, local: Contact, k: nat)
    requires k > 0 && Ids(A) == Ids(B)
    ensures Ids(Trimmed(A, local, k)) <= Ids(Trimmed(B, local, k))
  {
    forall id | id in Ids(Trimmed(A, local, k))
      ensures id in Ids(Trimmed(B, local, k))
    {
      CellIdsByIds(A, B, local, Depth(local, id));
      assert id in Ids(B);
      var y :| y in B && y.id == id;
      assert y in Trimmed(B, local, k);
    }
  }
}
