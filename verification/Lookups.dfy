/**
  The iterative lookup of network/manager.go: a shortlist seeded from the routing table,
  rounds of at most alpha queries to peers not asked before, until the farthest place of
  the shortlist stops improving or everyone on it has been asked.

  The network is an arbitrary function from a round and a peer to a reply, so the results
  hold for whatever peers answer. A round waits three seconds at most: replies that come
  later join the shortlist while a later round waits, or never. Contacts in replies are
  never deduplicated and equal distances may come out of the sort in any order, so results
  are stated on distances.
 */
module Lookups {
  import opened Bytes
  import opened NodeIds
  import KClosest
  import opened Contacts
  import opened Rankings
  import RT = RoutingTables
  import Q = Queries

  /** A reply, or the error that stands for one: unreachable, timed out, malformed. */
  datatype Reply = Failed | Nodes(contacts: seq<Contact>)

  type Network = (nat, Contact) -> Reply

  /** What one round looked like: the shortlist, sorted and trimmed, who on it was asked, and what came in. */
  datatype Round = Round(shortlist: seq<Contact>, queries: seq<Contact>, arrived: seq<Contact>)

  /** A peer asked in a round. */
  datatype Call = Call(round: nat, peer: Contact)

  /** How far the far end of a shortlist is from the target. */
  function Furthest(shortlist: seq<Contact>, t: NodeID): nat {
    if shortlist == [] then 0 else Distance(shortlist[|shortlist| - 1].id, t)
  }

  function ReplyOf(net: Network, round: nat, c: Contact): seq<Contact> {
    match net(round, c)
    case Failed => []
    case Nodes(s) => s
  }

  /** What some calls bring in, once answered. */
  function Answers(net: Network, calls: seq<Call>): seq<Contact> {
    if calls == [] then []
    else Answers(net, calls[..|calls| - 1]) + ReplyOf(net, calls[|calls| - 1].round, calls[|calls| - 1].peer)
  }

  function Calls(round: nat, queries: seq<Contact>): seq<Call> {
    seq(|queries|, i requires 0 <= i < |queries| => Call(round, queries[i]))
  }

  /** Every call of some rounds. */
  function AllCalls(rounds: seq<Round>): seq<Call> {
    if rounds == [] then []
    else AllCalls(rounds[..|rounds| - 1]) + Calls(|rounds| - 1, rounds[|rounds| - 1].queries)
  }

  /** Every contact received in some rounds. */
  function Heard(rounds: seq<Round>): seq<Contact> {
    if rounds == [] then [] else Heard(rounds[..|rounds| - 1]) + rounds[|rounds| - 1].arrived
  }

  /** Every answer has either come in or is still out; nothing else has come in. */
  predicate Accounted(net: Network, rounds: seq<Round>, late: seq<Call>) {
    multiset(Heard(rounds)) + multiset(Answers(net, late)) == multiset(Answers(net, AllCalls(rounds)))
  }

  /** Everyone asked in some rounds, in order. */
  function Asked(rounds: seq<Round>): seq<Contact> {
    if rounds == [] then [] else Asked(rounds[..|rounds| - 1]) + rounds[|rounds| - 1].queries
  }

  function Addresses(s: seq<Contact>): set<string> {
    set c | c in s :: c.UDPAddress()
  }

  predicate NoAddressTwice(s: seq<Contact>) {
    forall i, j :: 0 <= i < j < |s| ==> s[i].UDPAddress() != s[j].UDPAddress()
  }

  /** The shortlist's distances once some rounds are over. */
  function Shortlisted(seeds: seq<Contact>, rounds: seq<Round>, k: nat, t: NodeID): seq<nat> {
    Best(k, Distances(seeds + Heard(rounds), t))
  }

  /** Nobody on the shortlist was passed over for someone farther, or left out while alpha allowed. */
  predicate ClosestFirst(shortlist: seq<Contact>, queries: seq<Contact>, asked: set<string>, alpha: nat, t: NodeID) {
    forall c :: c in shortlist ==>
      || c.UDPAddress() in asked
      || (|queries| == alpha && forall i :: 0 <= i < |queries| ==> Distance(queries[i].id, t) <= Distance(c.id, t))
  }

  /**
    One round kept the rules: it asked at least one peer and at most alpha, the closest not
    asked before, off a shortlist whose far end had come closer.
   */
  predicate RoundInOrder(seeds: seq<Contact>, rounds: seq<Round>, r: nat, k: nat, alpha: nat, t: NodeID)
    requires r < |rounds|
  {
    var now := rounds[r];
    && now.shortlist != [] && Ordered(now.shortlist, t)
    && Distances(now.shortlist, t) == Shortlisted(seeds, rounds[..r], k, t)
    && multiset(now.shortlist) <= multiset(seeds + Heard(rounds[..r]))
    && 1 <= |now.queries| <= alpha
    && (forall i :: 0 <= i < |now.queries| ==> now.queries[i] in now.shortlist)
    && ClosestFirst(now.shortlist, now.queries, Addresses(Asked(rounds[..r])) + Addresses(now.queries), alpha, t)
    && (r > 0 && Furthest(rounds[r - 1].shortlist, t) != 0 ==> Furthest(now.shortlist, t) < Furthest(rounds[r - 1].shortlist, t))
  }

  predicate InOrder(seeds: seq<Contact>, rounds: seq<Round>, k: nat, alpha: nat, t: NodeID) {
    && (forall r :: 0 <= r < |rounds| ==> RoundInOrder(seeds, rounds, r, k, alpha, t))
    && NoAddressTwice(Asked(rounds))
  }

  /** Replies come from a world of finitely many addresses. */
  ghost predicate Confined(net: Network, world: set<string>) {
    forall r, c :: Addresses(ReplyOf(net, r, c)) <= world
  }

  // ---------------------------------------------------------------- steps of a round

  /** The furthest distance comes from the zero array only if it is zero. */
  lemma {:induction false} ZeroDistanceArray(d: NodeID)
    ensures Num(Bits(d)) == 0 <==> d == seq(KEY_BYTES, _ => 0)
  {
    var z: NodeID := seq(KEY_BYTES, _ => 0);
    FullPrefixIsEquality(z, z);
    assert Bits(z) == DiffBits(z, z) by {
      forall i | 0 <= i < KEY_BITS
        ensures Bits(z)[i] == DiffBits(z, z)[i]
      {
        ZeroByteHasNoBits(z[i / 8]);
      }
    }
    if Num(Bits(d)) == 0 {
      NumInjective(Bits(d), Bits(z));
      forall i | 0 <= i < KEY_BITS
        ensures Bit(d, i) == Bit(z, i)
      {
        assert Bits(d)[i] == Bits(z)[i];
      }
      BitsDetermineID(d, z);
    }
  }

  lemma {:induction false} AddressesConcat(a: seq<Contact>, b: seq<Contact>)
    ensures Addresses(a + b) == Addresses(a) + Addresses(b)
  {
    assert forall c :: c in a + b <==> c in a || c in b;
    forall x | x in Addresses(a) + Addresses(b)
      ensures x in Addresses(a + b)
    {
      var c :| (c in a || c in b) && c.UDPAddress() == x;
      assert c in a + b;
    }
  }

  lemma {:induction false} AnswersConfined(net: Network, calls: seq<Call>, world: set<string>)
    requires Confined(net, world)
    ensures Addresses(Answers(net, calls)) <= world
  {
    if calls != [] {
      var p, c := calls[..|calls| - 1], calls[|calls| - 1];
      AnswersConfined(net, p, world);
      AddressesConcat(Answers(net, p), ReplyOf(net, c.round, c.peer));
    }
  }

  lemma {:induction false} FreshAddressFits(s: seq<Contact>, c: Contact)
    requires NoAddressTwice(s) && c.UDPAddress() !in Addresses(s)
    ensures NoAddressTwice(s + [c])
  {
    assert forall j :: 0 <= j < |s| ==> s[j].UDPAddress() in Addresses(s);
  }

  /** Up to alpha members of the shortlist whose addresses have not been asked, closest first. */
  method PickUnqueried(shortlist: seq<Contact>, asked: set<string>, alpha: nat, ghost t: NodeID)
    returns (toQuery: seq<Contact>, queried: set<string>)
    requires Ordered(shortlist, t)
    ensures |toQuery| <= alpha
    ensures forall i :: 0 <= i < |toQuery| ==> toQuery[i] in shortlist && toQuery[i].UDPAddress() !in asked
    ensures NoAddressTwice(toQuery)
    ensures queried == asked + Addresses(toQuery)
    ensures ClosestFirst(shortlist, toQuery, queried, alpha, t)
  {
    toQuery, queried := [], asked;
    for i := 0 to |shortlist|
      invariant |toQuery| <= alpha
      invariant forall j :: 0 <= j < |toQuery| ==> toQuery[j] in shortlist && toQuery[j].UDPAddress() !in asked
      invariant NoAddressTwice(toQuery)
      invariant queried == asked + Addresses(toQuery)
      invariant forall h, j :: 0 <= h < |toQuery| && i <= j < |shortlist| ==> Distance(toQuery[h].id, t) <= Distance(shortlist[j].id, t)
      invariant ClosestFirst(shortlist[..i], toQuery, queried, alpha, t)
    {
      var c := shortlist[i];
      var addr := c.UDPAddress();
      assert shortlist[..i + 1] == shortlist[..i] + [c];
      if addr !in queried && |toQuery| < alpha {
        queried := queried + {addr};
        AddressesConcat(toQuery, [c]);
        assert Addresses([c]) == {addr} by { assert c in [c]; }
        FreshAddressFits(toQuery, c);
        toQuery := toQuery + [c];
      }
    }
    assert shortlist[..|shortlist|] == shortlist;
  }

  lemma {:induction false} AnswersConcat(net: Network, a: seq<Call>, b: seq<Call>)
    ensures Answers(net, a + b) == Answers(net, a) + Answers(net, b)
    decreases |b|
  {
    if b == [] {
      assert a + b == a;
    } else {
      var c := b[..|b| - 1];
      AnswersConcat(net, a, c);
      assert (a + b)[..|a + b| - 1] == a + c;
      var reply := ReplyOf(net, b[|b| - 1].round, b[|b| - 1].peer);
      assert Answers(net, a + b) == Answers(net, a + c) + reply;
      assert Answers(net, a) + (Answers(net, c) + reply) == (Answers(net, a) + Answers(net, c)) + reply;
    }
  }

  lemma {:induction false} AnswerPulledOut(net: Network, s: seq<Call>, i: nat)
    requires i < |s|
    ensures multiset(Answers(net, s)) ==
            multiset(Answers(net, s[..i] + s[i + 1..])) + multiset(ReplyOf(net, s[i].round, s[i].peer))
  {
    assert s == s[..i] + ([s[i]] + s[i + 1..]);
    AnswersConcat(net, s[..i], [s[i]] + s[i + 1..]);
    AnswersConcat(net, [s[i]], s[i + 1..]);
    AnswersConcat(net, s[..i], s[i + 1..]);
    assert Answers(net, [s[i]]) == ReplyOf(net, s[i].round, s[i].peer) by {
      assert [s[i]][..0] == [];
    }
  }

  /**
    Waits for calls to be answered, in whatever order they are, until none is out or the time
    is up: `patience` of them are answered in time. Replies are appended whole.
   */
  method Await(net: Network, calls: seq<Call>, patience: nat) returns (arrived: seq<Contact>, late: seq<Call>)
    ensures multiset(arrived) + multiset(Answers(net, late)) == multiset(Answers(net, calls))
    ensures |late| == if patience >= |calls| then 0 else |calls| - patience
    ensures forall c :: c in late ==> c in calls
  {
    arrived, late := [], calls;
    var answered := 0;
    while late != [] && answered < patience
      invariant multiset(arrived) + multiset(Answers(net, late)) == multiset(Answers(net, calls))
      invariant answered <= patience && answered + |late| == |calls|
      invariant forall c :: c in late ==> c in calls
      decreases |late|
    {
      var i :| 0 <= i < |late|;
      AnswerPulledOut(net, late, i);
      match net(late[i].round, late[i].peer) {
        case Failed =>
        case Nodes(s) => arrived := arrived + s;
      }
      late := late[..i] + late[i + 1..];
      answered := answered + 1;
    }
  }

  /** Sort by distance and cut at k. */
  method SortAndTrim(s: seq<Contact>, k: nat, t: NodeID) returns (r: seq<Contact>)
    ensures Ordered(r, t)
    ensures Distances(r, t) == Best(k, Distances(s, t))
    ensures multiset(r) <= multiset(s)
    ensures |s| <= k ==> multiset(r) == multiset(s)
  {
    var sorted := SortSlice(s, t);
    OrderedDistances(sorted, s, t);
    MultisetElems(sorted, s);
    r := sorted;
    if |r| > k {
      assert sorted == sorted[..k] + sorted[k..];
      r := r[..k];
    }
    assert Distances(r, t) == Truncate(Distances(sorted, t), k);
  }

  lemma {:induction false} MembersOf(r: seq<Contact>, s: seq<Contact>)
    requires multiset(r) <= multiset(s)
    ensures forall c :: c in r ==> c in s
  {
    forall c | c in r
      ensures c in s
    {
      assert c in multiset(r);
    }
  }

  // ---------------------------------------------------------------- the loop's invariant

  /** What comes in joins what was heard before, whatever the shortlist has dropped since. */
  lemma {:induction false} ShortlistAbsorbs(seeds: seq<Contact>, rounds: seq<Round>, round: Round,
                                            shortlist: seq<Contact>, k: nat, t: NodeID)
    requires Distances(shortlist, t) == Shortlisted(seeds, rounds, k, t)
    ensures Best(k, Distances(shortlist + round.arrived, t)) == Shortlisted(seeds, rounds + [round], k, t)
  {
    var before := seeds + Heard(rounds);
    assert (rounds + [round])[..|rounds|] == rounds;
    assert seeds + Heard(rounds + [round]) == before + round.arrived;
    DistancesConcat(before, round.arrived, t);
    DistancesConcat(shortlist, round.arrived, t);
    BestStreams(k, Distances(before, t), Distances(round.arrived, t));
  }

  /** No contact is made up: what is kept and what comes in were seeds or have been heard. */
  lemma {:induction false} ContactsAbsorbed(seeds: seq<Contact>, rounds: seq<Round>, round: Round, shortlist: seq<Contact>)
    requires multiset(shortlist) <= multiset(seeds + Heard(rounds)) && multiset(round.shortlist) <= multiset(shortlist)
    ensures multiset(round.shortlist + round.arrived) <= multiset(seeds + Heard(rounds + [round]))
  {
    assert (rounds + [round])[..|rounds|] == rounds;
    assert seeds + Heard(rounds + [round]) == (seeds + Heard(rounds)) + round.arrived;
  }

  /** A round's calls join those still out; what arrives is no longer out. */
  lemma {:induction false} RoundAccounted(net: Network, rounds: seq<Round>, round: Round, late: seq<Call>, late': seq<Call>)
    requires Accounted(net, rounds, late)
    requires
      multiset(round.arrived) + multiset(Answers(net, late')) ==
      multiset(Answers(net, late + Calls(|rounds|, round.queries)))
    ensures Accounted(net, rounds + [round], late')
  {
    var calls := Calls(|rounds|, round.queries);
    var rounds' := rounds + [round];
    assert rounds'[..|rounds|] == rounds;
    AnswersConcat(net, late, calls);
    AnswersConcat(net, AllCalls(rounds), calls);
    assert Heard(rounds') == Heard(rounds) + round.arrived;
    assert AllCalls(rounds') == AllCalls(rounds) + calls;
    SumsShift(multiset(Heard(rounds)), multiset(round.arrived), multiset(Answers(net, late)),
      multiset(Answers(net, late')), multiset(Answers(net, AllCalls(rounds))), multiset(Answers(net, calls)));
  }

  lemma {:induction false} SumsShift<T>(heard: multiset<T>, arrived: multiset<T>, late: multiset<T>, late': multiset<T>,
                                        all: multiset<T>, calls: multiset<T>)
    requires heard + late == all && arrived + late' == late + calls
    ensures heard + arrived + late' == all + calls
  {
    assert heard + (arrived + late') == heard + (late + calls) == (heard + late) + calls;
  }

  lemma {:induction false} RoundsExtend(seeds: seq<Contact>, rounds: seq<Round>, round: Round, k: nat, alpha: nat, t: NodeID)
    requires InOrder(seeds, rounds, k, alpha, t)
    requires RoundInOrder(seeds, rounds + [round], |rounds|, k, alpha, t)
    requires NoAddressTwice(round.queries)
    requires forall i :: 0 <= i < |round.queries| ==> round.queries[i].UDPAddress() !in Addresses(Asked(rounds))
    ensures InOrder(seeds, rounds + [round], k, alpha, t)
    ensures Addresses(Asked(rounds + [round])) == Addresses(Asked(rounds)) + Addresses(round.queries)
  {
    var all := rounds + [round];
    assert all[..|rounds|] == rounds;
    forall r | 0 <= r < |all|
      ensures RoundInOrder(seeds, all, r, k, alpha, t)
    {
      if r < |rounds| {
        assert all[..r] == rounds[..r] && all[r] == rounds[r];
        assert RoundInOrder(seeds, rounds, r, k, alpha, t);
      }
    }
    AddressesConcat(Asked(rounds), round.queries);
    var a, b := Asked(rounds), round.queries;
    assert forall i :: 0 <= i < |a| ==> a[i].UDPAddress() in Addresses(a);
  }

  /** A round whose queries come off the trimmed shortlist, asked for the first time, is in order. */
  lemma {:induction false} RoundAdvances(seeds: seq<Contact>, rounds: seq<Round>, round: Round, k: nat, alpha: nat, t: NodeID)
    requires InOrder(seeds, rounds, k, alpha, t)
    requires round.shortlist != [] && Ordered(round.shortlist, t)
    requires Distances(round.shortlist, t) == Shortlisted(seeds, rounds, k, t)
    requires multiset(round.shortlist) <= multiset(seeds + Heard(rounds))
    requires rounds != [] && Furthest(rounds[|rounds| - 1].shortlist, t) != 0 ==>
      Furthest(round.shortlist, t) < Furthest(rounds[|rounds| - 1].shortlist, t)
    requires 1 <= |round.queries| <= alpha && NoAddressTwice(round.queries)
    requires forall i :: 0 <= i < |round.queries| ==>
      round.queries[i] in round.shortlist && round.queries[i].UDPAddress() !in Addresses(Asked(rounds))
    requires ClosestFirst(round.shortlist, round.queries, Addresses(Asked(rounds)) + Addresses(round.queries), alpha, t)
    ensures
      var rounds' := rounds + [round];
      && InOrder(seeds, rounds', k, alpha, t)
      && Addresses(Asked(rounds')) == Addresses(Asked(rounds)) + Addresses(round.queries)
      && |Addresses(Asked(rounds'))| > |Addresses(Asked(rounds))|
  {
    assert (rounds + [round])[..|rounds|] == rounds;
    RoundsExtend(seeds, rounds, round, k, alpha, t);
    var a := round.queries[0].UDPAddress();
    assert a in Addresses(round.queries);
    KClosest.SubsetSize(Addresses(Asked(rounds)) + {a}, Addresses(Asked(rounds + [round])));
  }

  lemma {:induction false} AddressesSubset(a: seq<Contact>, b: seq<Contact>)
    requires forall c :: c in a ==> c in b
    ensures Addresses(a) <= Addresses(b)
  {
  }

  lemma {:induction false} ArrivedInWorld(net: Network, calls: seq<Call>, late: seq<Call>, arrived: seq<Contact>, world: set<string>)
    requires Confined(net, world)
    requires multiset(arrived) + multiset(Answers(net, late)) == multiset(Answers(net, calls))
    ensures Addresses(arrived) <= world
  {
    AnswersConfined(net, calls, world);
    forall c | c in arrived
      ensures c in Answers(net, calls)
    {
      assert c in multiset(arrived) + multiset(Answers(net, late));
    }
    AddressesSubset(arrived, Answers(net, calls));
  }

  /** Why the rounds ended: no gain at the far end of the shortlist, or nobody left to ask. */
  predicate Finished(found: seq<Contact>, rounds: seq<Round>, alpha: nat, t: NodeID) {
    || (rounds != [] && found != [] && Furthest(rounds[|rounds| - 1].shortlist, t) != 0
        && Furthest(found, t) >= Furthest(rounds[|rounds| - 1].shortlist, t))
    || alpha == 0
    || (forall c :: c in found ==> c.UDPAddress() in Addresses(Asked(rounds)))
  }

  /** What holds whenever the loop of `Lookup` begins a round. */
  ghost predicate Underway(seeds: seq<Contact>, net: Network, rounds: seq<Round>, shortlist: seq<Contact>, late: seq<Call>,
                           prevFurthest: nat, queried: set<string>, k: nat, alpha: nat, t: NodeID, world: set<string>)
  {
    && Best(k, Distances(shortlist, t)) == Shortlisted(seeds, rounds, k, t)
    && multiset(shortlist) <= multiset(seeds + Heard(rounds))
    && InOrder(seeds, rounds, k, alpha, t)
    && Accounted(net, rounds, late)
    && queried == Addresses(Asked(rounds))
    && prevFurthest == (if rounds == [] then 0 else Furthest(rounds[|rounds| - 1].shortlist, t))
    && Addresses(shortlist) <= world && queried <= world
    && |rounds| <= |queried|
  }

  /** One more round keeps the loop underway, and asks an address never asked before. */
  lemma {:induction false} OneMoreRound(
    seeds: seq<Contact>, net: Network, rounds: seq<Round>, round: Round, shortlist: seq<Contact>, late: seq<Call>, late': seq<Call>,
    prevFurthest: nat, queried: set<string>, k: nat, alpha: nat, t: NodeID, world: set<string>)
    requires Underway(seeds, net, rounds, shortlist, late, prevFurthest, queried, k, alpha, t, world)
    requires Confined(net, world)
    requires round.shortlist != [] && Ordered(round.shortlist, t)
    requires Distances(round.shortlist, t) == Best(k, Distances(shortlist, t))
    requires multiset(round.shortlist) <= multiset(shortlist)
    requires prevFurthest != 0 ==> Furthest(round.shortlist, t) < prevFurthest
    requires 1 <= |round.queries| <= alpha && NoAddressTwice(round.queries)
    requires forall i :: 0 <= i < |round.queries| ==>
      round.queries[i] in round.shortlist && round.queries[i].UDPAddress() !in queried
    requires ClosestFirst(round.shortlist, round.queries, queried + Addresses(round.queries), alpha, t)
    requires
      multiset(round.arrived) + multiset(Answers(net, late')) ==
      multiset(Answers(net, late + Calls(|rounds|, round.queries)))
    ensures
      var asked := queried + Addresses(round.queries);
      && Underway(seeds, net, rounds + [round], round.shortlist + round.arrived, late', Furthest(round.shortlist, t), asked, k, alpha, t, world)
      && world - asked < world - queried
  {
    RoundAdvances(seeds, rounds, round, k, alpha, t);
    MembersOf(round.shortlist, shortlist);
    ContactsAbsorbed(seeds, rounds, round, shortlist);
    ShortlistAbsorbs(seeds, rounds, round, round.shortlist, k, t);
    RoundAccounted(net, rounds, round, late, late');
    AddressesSubset(round.shortlist, shortlist);
    AddressesSubset(round.queries, round.shortlist);
    ArrivedInWorld(net, late + Calls(|rounds|, round.queries), late', round.arrived, world);
    AddressesConcat(round.shortlist, round.arrived);
    var a := round.queries[0].UDPAddress();
    assert a in Addresses(round.queries) && a !in queried;
  }

  /** The top of the loop: sort, trim, look for a gain at the far end, and pick whom to ask. */
  method PlanRound(shortlist: seq<Contact>, prevFurthest: NodeID, queried: set<string>, k: nat, alpha: nat, target: NodeID)
    returns (trimmed: seq<Contact>, furthest: NodeID, toQuery: seq<Contact>, nowQueried: set<string>)
    requires shortlist != [] && k > 0
    ensures trimmed != [] && Ordered(trimmed, target)
    ensures Distances(trimmed, target) == Best(k, Distances(shortlist, target))
    ensures multiset(trimmed) <= multiset(shortlist)
    ensures Num(Bits(furthest)) == Furthest(trimmed, target)
    ensures |toQuery| <= alpha && NoAddressTwice(toQuery)
    ensures forall i :: 0 <= i < |toQuery| ==> toQuery[i] in trimmed && toQuery[i].UDPAddress() !in queried
    ensures nowQueried == queried + Addresses(toQuery)
    ensures toQuery != [] ==> ClosestFirst(trimmed, toQuery, nowQueried, alpha, target)
    ensures toQuery != [] ==> Num(Bits(prevFurthest)) == 0 || Num(Bits(furthest)) < Num(Bits(prevFurthest))
    ensures toQuery == [] ==>
      || (Num(Bits(prevFurthest)) != 0 && Num(Bits(furthest)) >= Num(Bits(prevFurthest)))
      || alpha == 0
      || (forall c :: c in trimmed ==> c.UDPAddress() in queried)
  {
    trimmed := SortAndTrim(shortlist, k, target);
    BestIdempotent(k, Distances(shortlist, target));
    furthest := XorDistance(trimmed[|trimmed| - 1].id, target);
    var zero: NodeID := seq(KEY_BYTES, _ => 0);
    ZeroDistanceArray(prevFurthest);
    var closer := LessDistance(furthest, prevFurthest);
    if prevFurthest != zero && !closer {
      return trimmed, furthest, [], queried;
    }
    toQuery, nowQueried := PickUnqueried(trimmed, queried, alpha, target);
  }

  /** The final sort and trim: of a list already trimmed, at most the order of ties changes. */
  method Conclude(trimmed: seq<Contact>, k: nat, t: NodeID) returns (found: seq<Contact>)
    requires Ordered(trimmed, t) && |trimmed| <= k
    ensures Ordered(found, t)
    ensures Distances(found, t) == Distances(trimmed, t)
    ensures multiset(found) == multiset(trimmed)
  {
    found := SortAndTrim(trimmed, k, t);
    AscendingIsSorted(Distances(trimmed, t));
  }

  /** What a lookup promises of its result. */
  ghost predicate Answered(found: seq<Contact>, seeds: seq<Contact>, rounds: seq<Round>, k: nat, alpha: nat, t: NodeID) {
    && Ordered(found, t)
    && Distances(found, t) == Shortlisted(seeds, rounds, k, t)
    && multiset(found) <= multiset(seeds + Heard(rounds))
    && Finished(found, rounds, alpha, t)
  }

  lemma {:induction false} ConcludesAnswered(
    seeds: seq<Contact>, net: Network, rounds: seq<Round>, shortlist: seq<Contact>, late: seq<Call>, trimmed: seq<Contact>,
    found: seq<Contact>, prevFurthest: nat, queried: set<string>, k: nat, alpha: nat, t: NodeID, world: set<string>)
    requires Underway(seeds, net, rounds, shortlist, late, prevFurthest, queried, k, alpha, t, world)
    requires trimmed != [] && Distances(trimmed, t) == Best(k, Distances(shortlist, t)) && multiset(trimmed) <= multiset(shortlist)
    requires Ordered(found, t) && Distances(found, t) == Distances(trimmed, t) && multiset(found) == multiset(trimmed)
    requires
      || (prevFurthest != 0 && Furthest(trimmed, t) >= prevFurthest)
      || alpha == 0
      || (forall c :: c in trimmed ==> c.UDPAddress() in queried)
    ensures Answered(found, seeds, rounds, k, alpha, t)
  {
    assert |found| == |Distances(found, t)| == |trimmed|;
    assert Distances(found, t)[|found| - 1] == Distances(trimmed, t)[|trimmed| - 1];
    MembersOf(found, trimmed);
  }

  lemma {:induction false} NobodyAnswered(
    seeds: seq<Contact>, net: Network, rounds: seq<Round>, late: seq<Call>,
    prevFurthest: nat, queried: set<string>, k: nat, alpha: nat, t: NodeID, world: set<string>)
    requires Underway(seeds, net, rounds, [], late, prevFurthest, queried, k, alpha, t, world)
    ensures Answered([], seeds, rounds, k, alpha, t)
  {
    BestIdempotent(k, Distances([], t));
  }

  lemma {:induction false} StartsUnderway(seeds: seq<Contact>, net: Network, k: nat, alpha: nat, t: NodeID, world: set<string>)
    requires Addresses(seeds) <= world
    ensures Underway(seeds, net, [], seeds, [], 0, {}, k, alpha, t, world)
  {
    assert seeds + Heard([]) == seeds;
  }

  /** The rounds, from a given shortlist on. `patience` says how many replies each wait is long enough for. */
  method Rounds(seeds: seq<Contact>, net: Network, patience: nat -> nat, target: NodeID, k: nat, alpha: nat, ghost world: set<string>)
    returns (found: seq<Contact>, rounds: seq<Round>, late: seq<Call>)
    requires k > 0 && Confined(net, world) && Addresses(seeds) <= world
    ensures Ordered(found, target)
    ensures Distances(found, target) == Shortlisted(seeds, rounds, k, target)
    ensures multiset(found) <= multiset(seeds + Heard(rounds))
    ensures InOrder(seeds, rounds, k, alpha, target)
    ensures Finished(found, rounds, alpha, target)
    ensures |rounds| <= |world|
    ensures Accounted(net, rounds, late)
    ensures (forall r :: 0 <= r < |rounds| ==> patience(r) >= alpha) ==> late == []
  {
    var shortlist := seeds;
    rounds, late := [], [];
    var queried: set<string> := {};
    var prevFurthest: NodeID := seq(KEY_BYTES, _ => 0);
    ZeroDistanceArray(prevFurthest);
    StartsUnderway(seeds, net, k, alpha, target, world);
    while true
      invariant Underway(seeds, net, rounds, shortlist, late, Num(Bits(prevFurthest)), queried, k, alpha, target, world)
      invariant (forall r :: 0 <= r < |rounds| ==> patience(r) >= alpha) ==> late == []
      decreases world - queried
    {
      BestIdempotent(k, Distances(shortlist, target));
      KClosest.SubsetSize(queried, world);
      if |shortlist| == 0 {
        NobodyAnswered(seeds, net, rounds, late, Num(Bits(prevFurthest)), queried, k, alpha, target, world);
        return [], rounds, late;
      }
      var trimmed, furthest, toQuery, nowQueried := PlanRound(shortlist, prevFurthest, queried, k, alpha, target);
      if |toQuery| == 0 {
        assert |trimmed| == |Distances(trimmed, target)|;
        found := Conclude(trimmed, k, target);
        ConcludesAnswered(seeds, net, rounds, shortlist, late, trimmed, found, Num(Bits(prevFurthest)), queried, k, alpha, target, world);
        return;
      }
      var arrived, stillOut := Await(net, late + Calls(|rounds|, toQuery), patience(|rounds|));
      var round := Round(trimmed, toQuery, arrived);
      OneMoreRound(seeds, net, rounds, round, shortlist, late, stillOut, Num(Bits(prevFurthest)), queried, k, alpha, target, world);
      prevFurthest := furthest;
      queried := nowQueried;
      rounds := rounds + [round];
      shortlist := trimmed + arrived;
      late := stillOut;
    }
  }

  /**
    The result holds the k smallest distances among the seeds and everything received, in
    contacts that were seeds or were received, each no more often than that. No address is asked twice and no round asks more than alpha; the furthest distance falls
    strictly from round to round until it is zero; in a world of N addresses there are at
    most N rounds. Every answer was received or is still out, and none is if no wait was cut
    short.
   */
  method Lookup(rt: RT.RoutingTable, net: Network, patience: nat -> nat, target: NodeID, k: nat, alpha: nat, ghost world: set<string>)
    returns (found: seq<Contact>, rounds: seq<Round>, late: seq<Call>)
    requires rt.Valid() && k > 0
    requires Confined(net, world)
    requires Addresses(Q.ClosestK(rt.View(), target)) <= world
    ensures Ordered(found, target)
    ensures Distances(found, target) == Shortlisted(Q.ClosestK(rt.View(), target), rounds, k, target)
    ensures multiset(found) <= multiset(Q.ClosestK(rt.View(), target) + Heard(rounds))
    ensures InOrder(Q.ClosestK(rt.View(), target), rounds, k, alpha, target)
    ensures Finished(found, rounds, alpha, target)
    ensures |rounds| <= |world|
    ensures Accounted(net, rounds, late)
    ensures (forall r :: 0 <= r < |rounds| ==> patience(r) >= alpha) ==> late == []
  {
    var shortlist := rt.ClosestK(target);
    found, rounds, late := Rounds(shortlist, net, patience, target, k, alpha, world);
  }

  /**
    The order of the rounds in plain terms. Whoever is asked is on the round's shortlist,
    which holds seeds and received contacts alone, and nobody is asked at an address of an
    earlier round or of the same one. Whoever is on the shortlist and has not been asked
    so far had alpha others before it, none of them farther.
   */
  lemma {:induction false} RoundsSpelledOut(seeds: seq<Contact>, rounds: seq<Round>, k: nat, alpha: nat, t: NodeID, r: nat, i: nat)
    requires InOrder(seeds, rounds, k, alpha, t) && r < |rounds| && i < |rounds[r].queries|
    ensures 1 <= |rounds[r].queries| <= alpha && |rounds[r].shortlist| <= k
    ensures rounds[r].queries[i] in rounds[r].shortlist
    ensures forall c :: c in rounds[r].shortlist ==> c in seeds || exists q :: 0 <= q < r && c in rounds[q].arrived
    ensures forall h :: 0 <= h < i ==> rounds[r].queries[h].UDPAddress() != rounds[r].queries[i].UDPAddress()
    ensures forall q, h :: 0 <= q < r && 0 <= h < |rounds[q].queries| ==>
      rounds[q].queries[h].UDPAddress() != rounds[r].queries[i].UDPAddress()
    ensures forall c :: c in rounds[r].shortlist ==>
      || (exists q, h :: 0 <= q <= r && 0 <= h < |rounds[q].queries| && rounds[q].queries[h].UDPAddress() == c.UDPAddress())
      || (|rounds[r].queries| == alpha && Distance(rounds[r].queries[i].id, t) <= Distance(c.id, t))
  {
    assert RoundInOrder(seeds, rounds, r, k, alpha, t);
    BestIdempotent(k, Distances(seeds + Heard(rounds[..r]), t));
    assert |rounds[r].shortlist| == |Distances(rounds[r].shortlist, t)|;
    forall c | c in rounds[r].shortlist
      ensures c in seeds || exists q :: 0 <= q < r && c in rounds[q].arrived
    {
      MembersOf(rounds[r].shortlist, seeds + Heard(rounds[..r]));
      if c !in seeds {
        HeardWhen(rounds, r, c);
      }
    }
    AskedOnce(rounds, r, i);
    forall c | c in rounds[r].shortlist && c.UDPAddress() in Addresses(Asked(rounds[..r])) + Addresses(rounds[r].queries)
      ensures exists q, h :: 0 <= q <= r && 0 <= h < |rounds[q].queries| && rounds[q].queries[h].UDPAddress() == c.UDPAddress()
    {
      AskedWhen(rounds, r, c.UDPAddress());
    }
  }

  /** Why a lookup ended, in plain terms. */
  lemma {:induction false} EndSpelledOut(found: seq<Contact>, rounds: seq<Round>, alpha: nat, t: NodeID)
    requires Finished(found, rounds, alpha, t)
    requires forall r :: 0 <= r < |rounds| ==> rounds[r].shortlist != []
    ensures
      || alpha == 0
      || (rounds != [] && found != []
          && var last := rounds[|rounds| - 1].shortlist;
             0 < Distance(last[|last| - 1].id, t) <= Distance(found[|found| - 1].id, t))
      || (forall c :: c in found ==>
            exists q, h :: 0 <= q < |rounds| && 0 <= h < |rounds[q].queries| && rounds[q].queries[h].UDPAddress() == c.UDPAddress())
  {
    if forall c :: c in found ==> c.UDPAddress() in Addresses(Asked(rounds)) {
      forall c | c in found
        ensures exists q, h :: 0 <= q < |rounds| && 0 <= h < |rounds[q].queries| && rounds[q].queries[h].UDPAddress() == c.UDPAddress()
      {
        assert rounds != [];
        AskedSnoc(rounds, |rounds|);
        assert rounds[..|rounds|] == rounds;
        AddressesConcat(Asked(rounds[..|rounds| - 1]), rounds[|rounds| - 1].queries);
        AskedWhen(rounds, |rounds| - 1, c.UDPAddress());
      }
    }
  }

  lemma {:induction false} HeardWhen(rounds: seq<Round>, r: nat, c: Contact)
    requires r <= |rounds| && c in Heard(rounds[..r])
    ensures exists q :: 0 <= q < r && c in rounds[q].arrived
    decreases r
  {
    HeardSnoc(rounds, r);
    if c !in rounds[r - 1].arrived {
      HeardWhen(rounds, r - 1, c);
    }
  }

  lemma {:induction false} AskedSnoc(rounds: seq<Round>, r: nat)
    requires 0 < r <= |rounds|
    ensures Asked(rounds[..r]) == Asked(rounds[..r - 1]) + rounds[r - 1].queries
  {
    assert rounds[..r][..r - 1] == rounds[..r - 1];
  }

  lemma {:induction false} AskedWhen(rounds: seq<Round>, r: nat, address: string)
    requires r < |rounds| && address in Addresses(Asked(rounds[..r])) + Addresses(rounds[r].queries)
    ensures exists q, h :: 0 <= q <= r && 0 <= h < |rounds[q].queries| && rounds[q].queries[h].UDPAddress() == address
    decreases r
  {
    if address in Addresses(rounds[r].queries) {
      var c :| c in rounds[r].queries && c.UDPAddress() == address;
      var h :| 0 <= h < |rounds[r].queries| && rounds[r].queries[h] == c;
      assert rounds[r].queries[h].UDPAddress() == address;
    } else {
      AskedSnoc(rounds, r);
      AddressesConcat(Asked(rounds[..r - 1]), rounds[r - 1].queries);
      AskedWhen(rounds, r - 1, address);
    }
  }

  /** Where a query stands in the list of everyone asked. */
  lemma {:induction false} AskedPlace(rounds: seq<Round>, n: nat, r: nat, i: nat)
    requires r < n <= |rounds| && i < |rounds[r].queries|
    ensures
      var at := |Asked(rounds[..r])| + i;
      at < |Asked(rounds[..n])| && Asked(rounds[..n])[at] == rounds[r].queries[i]
    decreases n
  {
    AskedSnoc(rounds, n);
    if r < n - 1 {
      AskedPlace(rounds, n - 1, r, i);
    }
  }

  lemma {:induction false} AskedOnce(rounds: seq<Round>, r: nat, i: nat)
    requires NoAddressTwice(Asked(rounds)) && r < |rounds| && i < |rounds[r].queries|
    ensures forall h :: 0 <= h < i ==> rounds[r].queries[h].UDPAddress() != rounds[r].queries[i].UDPAddress()
    ensures forall q, h :: 0 <= q < r && 0 <= h < |rounds[q].queries| ==>
      rounds[q].queries[h].UDPAddress() != rounds[r].queries[i].UDPAddress()
  {
    var n := |rounds|;
    assert rounds[..n] == rounds;
    AskedPlace(rounds, n, r, i);
    forall h | 0 <= h < i
      ensures rounds[r].queries[h].UDPAddress() != rounds[r].queries[i].UDPAddress()
    {
      AskedPlace(rounds, n, r, h);
    }
    forall q, h | 0 <= q < r && 0 <= h < |rounds[q].queries|
      ensures rounds[q].queries[h].UDPAddress() != rounds[r].queries[i].UDPAddress()
    {
      AskedPlace(rounds, n, q, h);
      AskedPlace(rounds, r, q, h);
    }
  }

  /** Place by place, a lookup's result is at least as close as the table's own answer. */
  lemma {:induction false} NeverFartherThanSeeds(seeds: seq<Contact>, rounds: seq<Round>, found: seq<Contact>, k: nat, t: NodeID)
    requires Ordered(seeds, t) && |seeds| <= k
    requires Distances(found, t) == Shortlisted(seeds, rounds, k, t)
    ensures |found| >= |seeds|
    ensures forall i :: 0 <= i < |seeds| ==> Distance(found[i].id, t) <= Distance(seeds[i].id, t)
  {
    var a, b := Distances(seeds, t), Distances(Heard(rounds), t);
    assert Distances(seeds + Heard(rounds), t) == a + b;
    BestImproves(k, a, b);
    AscendingIsSorted(a);
    assert Best(k, a) == a;
    forall i | 0 <= i < |seeds|
      ensures Distance(found[i].id, t) <= Distance(seeds[i].id, t)
    {
      assert Distances(found, t)[i] <= a[i];
    }
  }

  lemma {:induction false} LastDistance(s: seq<Contact>, t: NodeID)
    requires s != []
    ensures Distances(s, t)[|s| - 1] == Furthest(s, t)
  {
  }

  /** While there is room for everyone heard of, the far end cannot come closer. */
  lemma {:induction false} GainFills(prev: seq<Contact>, now: seq<Contact>, before: seq<Contact>, news: seq<Contact>, k: nat, t: NodeID)
    requires prev != [] && now != [] && Furthest(now, t) < Furthest(prev, t)
    requires Distances(prev, t) == Best(k, Distances(before, t))
    requires Distances(now, t) == Best(k, Distances(before + news, t))
    ensures |now| == k
  {
    DistancesConcat(before, news, t);
    var a, b := Distances(before, t), Distances(news, t);
    BestIdempotent(k, a);
    BestIdempotent(k, a + b);
    LastDistance(prev, t);
    LastDistance(now, t);
    if |a + b| < k {
      BestRecedes(k, a, b);
    }
  }

  lemma {:induction false} RoundShortlist(seeds: seq<Contact>, rounds: seq<Round>, r: nat, k: nat, alpha: nat, t: NodeID)
    requires InOrder(seeds, rounds, k, alpha, t) && r < |rounds|
    ensures rounds[r].shortlist != []
    ensures Distances(rounds[r].shortlist, t) == Best(k, Distances(seeds + Heard(rounds[..r]), t))
    ensures r > 0 && Furthest(rounds[r - 1].shortlist, t) != 0 ==>
      Furthest(rounds[r].shortlist, t) < Furthest(rounds[r - 1].shortlist, t)
  {
    assert RoundInOrder(seeds, rounds, r, k, alpha, t);
  }

  /** So a round that follows another, the target not yet reached, has a full shortlist. */
  lemma {:induction false} FollowingRoundIsFull(seeds: seq<Contact>, rounds: seq<Round>, r: nat, k: nat, alpha: nat, t: NodeID)
    requires InOrder(seeds, rounds, k, alpha, t)
    requires 0 < r < |rounds| && Furthest(rounds[r - 1].shortlist, t) != 0
    ensures |rounds[r].shortlist| == k
    ensures k <= |seeds + Heard(rounds[..r])|
  {
    RoundShortlist(seeds, rounds, r - 1, k, alpha, t);
    RoundShortlist(seeds, rounds, r, k, alpha, t);
    var before, news := seeds + Heard(rounds[..r - 1]), rounds[r - 1].arrived;
    HeardSnoc(rounds, r);
    assert seeds + Heard(rounds[..r]) == before + news;
    GainFills(rounds[r - 1].shortlist, rounds[r].shortlist, before, news, k, t);
    BestIdempotent(k, Distances(before + news, t));
    assert |rounds[r].shortlist| == |Distances(rounds[r].shortlist, t)|;
  }

  lemma {:induction false} HeardSnoc(rounds: seq<Round>, r: nat)
    requires 0 < r <= |rounds|
    ensures Heard(rounds[..r]) == Heard(rounds[..r - 1]) + rounds[r - 1].arrived
  {
    assert rounds[..r][..r - 1] == rounds[..r - 1];
  }

  /** So a lookup that has heard of fewer than k contacts asks no one it heard of. */
  lemma {:induction false} FewContactsOneRound(seeds: seq<Contact>, rounds: seq<Round>, k: nat, alpha: nat, t: NodeID)
    requires InOrder(seeds, rounds, k, alpha, t)
    requires rounds != [] && Furthest(rounds[0].shortlist, t) != 0
    requires |seeds| + |rounds[0].arrived| < k
    ensures |rounds| == 1
  {
    if |rounds| > 1 {
      HeardSnoc(rounds, 1);
      assert Heard(rounds[..0]) == [];
      FollowingRoundIsFull(seeds, rounds, 1, k, alpha, t);
    }
  }
}
