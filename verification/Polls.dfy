/** A device's replica of dashboard polls: first create wins, each voter's latest vote wins. */
module Polls {
  datatype Poll = Poll(parent: string, options: seq<string>, digest: string)

  datatype Vote = Vote(parent: string, poll: string, voter: string, option: string, eventId: string, at: int)

  datatype Row = Row(option: string, eventId: string, at: int)

  datatype Ballot = Ballot(poll: string, voter: string)

  datatype Upsert = InsertedNew | IdempotentSamePayload | IgnoredConflictingPayload

  type PollTable = map<string, Poll>
  type VoteTable = map<Ballot, Row>

  /** The poll exists under that parent and offers the option. */
  predicate Admissible(polls: PollTable, v: Vote) {
    v.poll in polls && polls[v.poll].parent == v.parent && v.option in polls[v.poll].options
  }

  function RowOf(v: Vote): Row {
    Row(v.option, v.eventId, v.at)
  }

  function BallotOf(v: Vote): Ballot {
    Ballot(v.poll, v.voter)
  }

  /** INSERT ... ON CONFLICT DO UPDATE, when the vote is no older than the stored one. */
  function Cast(polls: PollTable, votes: VoteTable, v: Vote): VoteTable {
    if !Admissible(polls, v) || (BallotOf(v) in votes && v.at < votes[BallotOf(v)].at) then votes
    else votes[BallotOf(v) := RowOf(v)]
  }

  function CastAll(polls: PollTable, votes: VoteTable, vs: seq<Vote>): VoteTable {
    if vs == [] then votes else Cast(polls, CastAll(polls, votes, vs[..|vs| - 1]), vs[|vs| - 1])
  }

  /** Every stored vote names a known poll and one of its options. */
  predicate Consistent(polls: PollTable, votes: VoteTable) {
    forall b | b in votes :: b.poll in polls && votes[b].option in polls[b.poll].options
  }

  class PollReplica {
    var polls: PollTable
    var votes: VoteTable

    constructor ()
      ensures polls == map[] && votes == map[]
    {
      polls, votes := map[], map[];
    }

    ghost predicate Valid()
      reads this
    {
      Consistent(polls, votes)
    }

    method InsertPollCreate(id: string, p: Poll) returns (r: Upsert)
      requires Valid()
      modifies this`polls
      ensures Valid()
      ensures polls == if id in old(polls) then old(polls) else old(polls)[id := p]
      ensures r.InsertedNew? <==> id !in old(polls)
      ensures r.IdempotentSamePayload? <==> id in old(polls) && old(polls)[id].digest == p.digest
    {
      if id in polls {
        if polls[id].digest == p.digest {
          return IdempotentSamePayload;
        }
        return IgnoredConflictingPayload;
      }
      polls := polls[id := p];
      return InsertedNew;
    }

    method ApplyVote(v: Vote) returns (counted: bool)
      requires Valid()
      modifies this`votes
      ensures Valid() && votes == Cast(polls, old(votes), v)
      ensures counted <==> Admissible(polls, v)
      ensures counted ==>
        && Ballot(v.poll, v.voter) in votes
        && votes[Ballot(v.poll, v.voter)] ==
          if Ballot(v.poll, v.voter) in old(votes) && v.at < old(votes)[Ballot(v.poll, v.voter)].at
          then old(votes)[Ballot(v.poll, v.voter)] else Row(v.option, v.eventId, v.at)
      ensures forall b | b != Ballot(v.poll, v.voter) ::
        (b in votes <==> b in old(votes)) && (b in votes ==> votes[b] == old(votes)[b])
    {
      if v.poll !in polls {
        return false;
      }
      var p := polls[v.poll];
      if p.parent != v.parent {
        return false;
      }
      if v.option !in p.options {
        return false;
      }
      var b := Ballot(v.poll, v.voter);
      if b !in votes || v.at >= votes[b].at {
        votes := votes[b := Row(v.option, v.eventId, v.at)];
      }
      return true;
    }

    /** The listed tally of one poll: per option, how many current votes name it. */
    method Tally(id: string) returns (tallies: seq<nat>)
      requires Valid() && id in polls
      ensures |tallies| == |polls[id].options|
      ensures forall i | 0 <= i < |tallies| :: tallies[i] == |VotersFor(Choices(votes, id), polls[id].options[i])|
      ensures forall i | 0 <= i < |tallies| :: tallies[i] == |VotersOf(votes, id, polls[id].options[i])|
      ensures Sum(tallies) >= |Choices(votes, id)| == |set b | b in votes && b.poll == id :: b.voter|
      ensures Sum(tallies) == |Choices(votes, id)| <==>
        forall v | v in Choices(votes, id) :: Multiplicity(polls[id].options, Choices(votes, id)[v]) == 1
    {
      var choices := Choices(votes, id);
      var counts := GroupByOption(choices);
      tallies := [];
      for i := 0 to |polls[id].options|
        invariant |tallies| == i
        invariant forall j | 0 <= j < i :: tallies[j] == |VotersFor(choices, polls[id].options[j])|
      {
        var o := polls[id].options[i];
        if o !in counts {
          assert VotersFor(choices, o) == {};
        }
        tallies := tallies + [if o in counts then counts[o] else 0];
      }
      SumOfTallies(polls[id].options, choices, tallies);
      ChoicesAre(votes, id);
      TalliesCountVotersIff(polls[id].options, choices);
    }
  }

  /** Who chose what in one poll. */
  function Choices(votes: VoteTable, id: string): map<string, string> {
    map v | v in (set b | b in votes && b.poll == id :: b.voter) :: votes[Ballot(id, v)].option
  }

  function VotersFor(choices: map<string, string>, option: string): set<string> {
    set v | v in choices && choices[v] == option
  }

  /** Those of some voters who chose an option. */
  function Chose(choices: map<string, string>, among: set<string>, option: string): set<string> {
    set v | v in among && v in choices && choices[v] == option
  }

  lemma OneMoreVoter(choices: map<string, string>, among: set<string>, v: string, option: string)
    requires v in choices && v !in among
    ensures Chose(choices, among + {v}, option) == Chose(choices, among, option) + if choices[v] == option then {v} else {}
    ensures |Chose(choices, among + {v}, option)| == |Chose(choices, among, option)| + if choices[v] == option then 1 else 0
  {
  }

  /** SELECT option, COUNT(*) ... GROUP BY option. */
  method GroupByOption(choices: map<string, string>) returns (counts: map<string, nat>)
    ensures forall o :: o in counts <==> VotersFor(choices, o) != {}
    ensures forall o | o in counts :: counts[o] == |VotersFor(choices, o)|
  {
    counts := map[];
    var counted: set<string> := {};
    while choices.Keys - counted != {}
      invariant counted <= choices.Keys
      invariant forall o :: o in counts <==> Chose(choices, counted, o) != {}
      invariant forall o | o in counts :: counts[o] == |Chose(choices, counted, o)|
      decreases choices.Keys - counted
    {
      var v :| v in choices.Keys - counted;
      forall o
        ensures Chose(choices, counted + {v}, o) == Chose(choices, counted, o) + if choices[v] == o then {v} else {}
        ensures |Chose(choices, counted + {v}, o)| == |Chose(choices, counted, o)| + if choices[v] == o then 1 else 0
      {
        OneMoreVoter(choices, counted, v, o);
      }
      hide Chose;
      counts := counts[choices[v] := (if choices[v] in counts then counts[choices[v]] else 0) + 1];
      counted := counted + {v};
    }
    forall v | v in choices
      ensures v in counted
    {
      assert v !in choices.Keys - counted;
    }
    forall o
      ensures Chose(choices, counted, o) == VotersFor(choices, o)
    {
    }
  }

  // ---- One row per voter -----------------------------------------------------------------

  /** The poll exists, belongs to the vote's parent and lists its option. */
  lemma AdmissibleIff(polls: PollTable, v: Vote)
    ensures Admissible(polls, v) <==>
      && v.poll in polls.Keys && v.parent == polls[v.poll].parent
      && exists i :: 0 <= i < |polls[v.poll].options| && polls[v.poll].options[i] == v.option
  {
  }

  /** A voter's vote that is not earlier than any other they cast in the poll, nor followed by one of its time. */
  predicate VoterLatest(polls: PollTable, vs: seq<Vote>, i: nat)
    requires i < |vs|
  {
    && Admissible(polls, vs[i])
    && forall j | 0 <= j < |vs| && Admissible(polls, vs[j]) && vs[j].poll == vs[i].poll && vs[j].voter == vs[i].voter ::
         vs[j].at <= vs[i].at && (i < j ==> vs[j].at < vs[i].at)
  }

  /**
   * After any votes there is one row for each voter with an admissible vote in each poll, and no
   * other: it holds the option, event and time of that voter's latest one.
   */
  lemma OneRowPerVoter(polls: PollTable, vs: seq<Vote>, poll: string, voter: string)
    ensures var votes := CastAll(polls, map[], vs);
      && (Ballot(poll, voter) in votes <==> exists v :: v in vs && Admissible(polls, v) && v.poll == poll && v.voter == voter)
      && (Ballot(poll, voter) in votes ==>
            exists i :: 0 <= i < |vs| && vs[i].poll == poll && vs[i].voter == voter && VoterLatest(polls, vs, i)
              && votes[Ballot(poll, voter)] == Row(vs[i].option, vs[i].eventId, vs[i].at))
  {
    var b := Ballot(poll, voter);
    BallotHoldsWinner(polls, vs, b);
    if v :| v in vs && Admissible(polls, v) && v.poll == poll && v.voter == voter {
      var i :| 0 <= i < |vs| && vs[i] == v;
      assert BallotOf(vs[i]) == b;
    }
    if b in CastAll(polls, map[], vs) {
      var i :| 0 <= i < |vs| && BallotOf(vs[i]) == b && Wins(polls, vs, i) && CastAll(polls, map[], vs)[b] == RowOf(vs[i]);
      assert vs[i] in vs && vs[i].poll == poll && vs[i].voter == voter;
      forall j | 0 <= j < |vs| && Admissible(polls, vs[j]) && vs[j].poll == vs[i].poll && vs[j].voter == vs[i].voter
        ensures BallotOf(vs[j]) == BallotOf(vs[i])
      {
      }
      assert VoterLatest(polls, vs, i);
    }
  }

  /** The voters of a poll whose current row names an option. */
  function VotersOf(votes: VoteTable, poll: string, option: string): set<string> {
    set b | b in votes && b.poll == poll && votes[b].option == option :: b.voter
  }

  lemma ChoicesAre(votes: VoteTable, poll: string)
    ensures forall v :: v in Choices(votes, poll) <==> Ballot(poll, v) in votes
    ensures forall v | v in Choices(votes, poll) :: Choices(votes, poll)[v] == votes[Ballot(poll, v)].option
    ensures forall o :: VotersFor(Choices(votes, poll), o) == VotersOf(votes, poll, o)
    ensures Choices(votes, poll).Keys == set b | b in votes && b.poll == poll :: b.voter
  {
    forall v
      ensures v in Choices(votes, poll) <==> Ballot(poll, v) in votes
    {
      if Ballot(poll, v) in votes {
        assert Ballot(poll, v).voter == v;
      }
    }
    forall o, v
      ensures v in VotersFor(Choices(votes, poll), o) <==> v in VotersOf(votes, poll, o)
    {
      if v in VotersFor(Choices(votes, poll), o) {
        assert Ballot(poll, v) in votes && Ballot(poll, v).voter == v;
      }
    }
  }

  /** An option's voters, after any votes, are those whose latest admissible vote names it. */
  lemma VotersOfAre(polls: PollTable, vs: seq<Vote>, poll: string, option: string, voter: string)
    ensures voter in VotersOf(CastAll(polls, map[], vs), poll, option)
      <==> exists i :: 0 <= i < |vs| && vs[i].poll == poll && vs[i].voter == voter && vs[i].option == option && VoterLatest(polls, vs, i)
  {
    var votes, b := CastAll(polls, map[], vs), Ballot(poll, voter);
    OneRowPerVoter(polls, vs, poll, voter);
    if voter in VotersOf(votes, poll, option) {
      assert b in votes && votes[b].option == option;
      var i :| 0 <= i < |vs| && vs[i].poll == poll && vs[i].voter == voter && VoterLatest(polls, vs, i)
        && votes[b] == Row(vs[i].option, vs[i].eventId, vs[i].at);
    }
    if i :| 0 <= i < |vs| && vs[i].poll == poll && vs[i].voter == voter && vs[i].option == option && VoterLatest(polls, vs, i) {
      assert vs[i] in vs && b in votes;
      var j :| 0 <= j < |vs| && vs[j].poll == poll && vs[j].voter == voter && VoterLatest(polls, vs, j)
        && votes[b] == Row(vs[j].option, vs[j].eventId, vs[j].at);
      assert i == j;
      assert b.voter == voter;
    }
  }

  // ---- Convergence -----------------------------------------------------------------------

  lemma {:induction false} CastingKeepsConsistent(polls: PollTable, votes: VoteTable, vs: seq<Vote>)
    requires Consistent(polls, votes)
    ensures Consistent(polls, CastAll(polls, votes, vs))
  {
    if vs == [] {
    } else {
      CastingKeepsConsistent(polls, votes, vs[..|vs| - 1]);
    }
  }

  /** Vote i is its voter's latest admissible one; among equal times, the last delivered. */
  predicate Wins(polls: PollTable, vs: seq<Vote>, i: nat)
    requires i < |vs|
  {
    && Admissible(polls, vs[i])
    && forall j | 0 <= j < |vs| && Admissible(polls, vs[j]) && BallotOf(vs[j]) == BallotOf(vs[i]) ::
         vs[j].at <= vs[i].at && (i < j ==> vs[j].at < vs[i].at)
  }

  /** From no votes, a ballot holds exactly its winning vote, and nothing if it has no admissible one. */
  lemma {:induction false} BallotHoldsWinner(polls: PollTable, vs: seq<Vote>, b: Ballot)
    ensures b in CastAll(polls, map[], vs) <==> exists i :: 0 <= i < |vs| && Admissible(polls, vs[i]) && BallotOf(vs[i]) == b
    ensures b in CastAll(polls, map[], vs) ==> exists i ::
      0 <= i < |vs| && BallotOf(vs[i]) == b && Wins(polls, vs, i) && CastAll(polls, map[], vs)[b] == RowOf(vs[i])
  {
    if vs == [] {
    } else {
      var n := |vs| - 1;
      var front, v := vs[..n], vs[n];
      var before := CastAll(polls, map[], front);
      var after := CastAll(polls, map[], vs);
      BallotHoldsWinner(polls, front, b);
      if BallotOf(v) != b || !Admissible(polls, v) || (b in before && v.at < before[b].at) {
        if b in after {
          var i :| 0 <= i < |front| && BallotOf(front[i]) == b && Wins(polls, front, i) && before[b] == RowOf(front[i]);
          assert vs[i] == front[i];
          WinnerSurvives(polls, vs, i, n);
        }
        if i :| 0 <= i < |vs| && Admissible(polls, vs[i]) && BallotOf(vs[i]) == b {
          if i < n {
            assert front[i] == vs[i];
          }
        }
      } else {
        assert Admissible(polls, v);
        forall j | 0 <= j < n && Admissible(polls, vs[j]) && BallotOf(vs[j]) == b
          ensures vs[j].at <= v.at
        {
          assert front[j] == vs[j];
          assert b in before;
          var i :| 0 <= i < |front| && BallotOf(front[i]) == b && Wins(polls, front, i) && before[b] == RowOf(front[i]);
        }
        assert Wins(polls, vs, n);
      }
    }
  }

  lemma WinnerSurvives(polls: PollTable, vs: seq<Vote>, i: nat, n: nat)
    requires i < n == |vs| - 1 && Wins(polls, vs[..n], i)
    requires Admissible(polls, vs[n]) && BallotOf(vs[n]) == BallotOf(vs[i]) ==> vs[n].at < vs[i].at
    ensures Wins(polls, vs, i)
  {
  }

  lemma WinnerOf(polls: PollTable, vs: seq<Vote>, b: Ballot) returns (w: Vote)
    requires b in CastAll(polls, map[], vs)
    ensures w in vs && Admissible(polls, w) && BallotOf(w) == b && CastAll(polls, map[], vs)[b] == RowOf(w)
    ensures forall v | v in vs && Admissible(polls, v) && BallotOf(v) == b :: v.at <= w.at
  {
    BallotHoldsWinner(polls, vs, b);
    var i :| 0 <= i < |vs| && BallotOf(vs[i]) == b && Wins(polls, vs, i) && CastAll(polls, map[], vs)[b] == RowOf(vs[i]);
    w := vs[i];
  }

  lemma LatestStored(polls: PollTable, vs: seq<Vote>, v: Vote)
    requires v in vs && Admissible(polls, v)
    ensures BallotOf(v) in CastAll(polls, map[], vs) && CastAll(polls, map[], vs)[BallotOf(v)].at >= v.at
  {
  }

  /** The same votes, in any order and with any repeats. */
  ghost predicate SameVotes(a: seq<Vote>, b: seq<Vote>) {
    forall v :: v in a <==> v in b
  }

  /** An admissible vote, none of its ballot later. */
  predicate LatestOfBallot(polls: PollTable, vs: seq<Vote>, v: Vote) {
    v in vs && Admissible(polls, v) && forall w | w in vs && Admissible(polls, w) && BallotOf(w) == BallotOf(v) :: w.at <= v.at
  }

  /** The latest votes of each ballot say the same. */
  ghost predicate LatestAgree(polls: PollTable, vs: seq<Vote>) {
    forall v, w | LatestOfBallot(polls, vs, v) && LatestOfBallot(polls, vs, w) && BallotOf(v) == BallotOf(w) :: RowOf(v) == RowOf(w)
  }

  /** Replicas that know the poll and saw the same votes agree when each ballot's latest votes do. */
  lemma ReplicasConverge(polls: PollTable, a: seq<Vote>, b: seq<Vote>)
    requires SameVotes(a, b) && LatestAgree(polls, a)
    ensures CastAll(polls, map[], a) == CastAll(polls, map[], b)
  {
    var x, y := CastAll(polls, map[], a), CastAll(polls, map[], b);
    forall ballot
      ensures (ballot in x <==> ballot in y) && (ballot in x ==> x[ballot] == y[ballot])
    {
      if ballot in x { SameBallot(polls, a, b, ballot); }
      if ballot in y { SameBallot(polls, b, a, ballot); }
    }
  }

  lemma SameBallot(polls: PollTable, a: seq<Vote>, b: seq<Vote>, ballot: Ballot)
    requires SameVotes(a, b) && (LatestAgree(polls, a) || LatestAgree(polls, b)) && ballot in CastAll(polls, map[], a)
    ensures ballot in CastAll(polls, map[], b) && CastAll(polls, map[], b)[ballot] == CastAll(polls, map[], a)[ballot]
  {
    var v := WinnerOf(polls, a, ballot);
    LatestStored(polls, b, v);
    var w := WinnerOf(polls, b, ballot);
    assert LatestOfBallot(polls, a, v) && LatestOfBallot(polls, b, v) && LatestOfBallot(polls, a, w) && LatestOfBallot(polls, b, w);
  }

  /** A latest vote, cast after everything else, is what its ballot holds. */
  lemma LatestCastLast(polls: PollTable, vs: seq<Vote>, v: Vote)
    requires LatestOfBallot(polls, vs, v)
    ensures SameVotes(vs, vs + [v])
    ensures BallotOf(v) in CastAll(polls, map[], vs + [v]) && CastAll(polls, map[], vs + [v])[BallotOf(v)] == RowOf(v)
  {
    assert (vs + [v])[..|vs|] == vs;
    LatestStored(polls, vs, v);
    var w := WinnerOf(polls, vs, BallotOf(v));
  }

  /** All orders of some votes give the same rows if and only if the latest votes of each ballot say the same. */
  lemma VoteOrderFreeIff(polls: PollTable, a: seq<Vote>)
    ensures (forall b | SameVotes(a, b) :: CastAll(polls, map[], b) == CastAll(polls, map[], a)) <==> LatestAgree(polls, a)
  {
    if LatestAgree(polls, a) {
      forall b | SameVotes(a, b)
        ensures CastAll(polls, map[], b) == CastAll(polls, map[], a)
      {
        ReplicasConverge(polls, a, b);
      }
    } else {
      var v, w :| LatestOfBallot(polls, a, v) && LatestOfBallot(polls, a, w) && BallotOf(v) == BallotOf(w) && RowOf(v) != RowOf(w);
      LatestCastLast(polls, a, v);
      LatestCastLast(polls, a, w);
      hide CastAll, LatestOfBallot;
      assert CastAll(polls, map[], a + [v]) != CastAll(polls, map[], a + [w]);
    }
  }

  /** Two admissible votes of one voter: the order they arrive in is irrelevant unless their times are equal. */
  lemma OrderMattersIff(polls: PollTable, v: Vote, w: Vote)
    requires Admissible(polls, v) && Admissible(polls, w) && BallotOf(v) == BallotOf(w)
    ensures Cast(polls, Cast(polls, map[], v), w) == Cast(polls, Cast(polls, map[], w), v) <==> v.at != w.at || RowOf(v) == RowOf(w)
  {
  }

  // ---- Creates and votes in one stream ---------------------------------------------------

  datatype Event = Create(id: string, poll: Poll) | Voted(vote: Vote)

  datatype Replica = Replica(polls: PollTable, votes: VoteTable)

  function React(r: Replica, e: Event): Replica {
    match e
    case Create(id, p) => if id in r.polls then r else r.(polls := r.polls[id := p])
    case Voted(v) => r.(votes := Cast(r.polls, r.votes, v))
  }

  function ReactAll(events: seq<Event>): Replica {
    if events == [] then Replica(map[], map[]) else React(ReactAll(events[..|events| - 1]), events[|events| - 1])
  }

  /** The votes of a stream, in order. */
  function Votes(events: seq<Event>): seq<Vote> {
    if events == [] then []
    else
      var n := |events| - 1;
      Votes(events[..n]) + if events[n].Voted? then [events[n].vote] else []
  }

  /** The votes of a stream that found their poll already there. */
  function Timely(events: seq<Event>): seq<Vote> {
    if events == [] then []
    else
      var n := |events| - 1;
      Timely(events[..n])
      + if events[n].Voted? && events[n].vote.poll in ReactAll(events[..n]).polls then [events[n].vote] else []
  }

  lemma {:induction false} CastsAgree(polls: PollTable, polls': PollTable, votes: VoteTable, vs: seq<Vote>)
    requires forall id | id in polls :: id in polls' && polls'[id] == polls[id]
    requires forall i | 0 <= i < |vs| :: vs[i].poll in polls
    ensures CastAll(polls, votes, vs) == CastAll(polls', votes, vs)
  {
    if vs == [] {
    } else {
      var n := |vs| - 1;
      CastsAgree(polls, polls', votes, vs[..n]);
      assert vs[n].poll in polls;
    }
  }

  lemma ReactCountsTimely(r: Replica, timely: seq<Vote>, e: Event)
    requires r.votes == CastAll(r.polls, map[], timely) && forall i | 0 <= i < |timely| :: timely[i].poll in r.polls
    ensures var timely' := timely + if e.Voted? && e.vote.poll in r.polls then [e.vote] else [];
      && React(r, e).votes == CastAll(React(r, e).polls, map[], timely')
      && forall i | 0 <= i < |timely'| :: timely'[i].poll in React(r, e).polls
  {
    match e
    case Create(_, _) =>
      CastsAgree(r.polls, React(r, e).polls, map[], timely);
      assert timely + [] == timely;
    case Voted(v) =>
      assert (timely + [v])[..|timely|] == timely && timely + [] == timely;
  }

  /** A poll, once created, never changes; a replica's votes are those of its timely votes alone. */
  lemma {:induction false} StreamCountsTimely(events: seq<Event>)
    ensures var r := ReactAll(events); r.votes == CastAll(r.polls, map[], Timely(events))
    ensures forall i | 0 <= i < |Timely(events)| :: Timely(events)[i].poll in ReactAll(events).polls
  {
    hide CastAll, React;
    if events == [] {
      assert CastAll(map[], map[], []) == map[] by { NothingCast(map[]); }
    } else {
      var n := |events| - 1;
      StreamCountsTimely(events[..n]);
      ReactCountsTimely(ReactAll(events[..n]), Timely(events[..n]), events[n]);
    }
  }

  lemma NothingCast(polls: PollTable)
    ensures CastAll(polls, map[], []) == map[]
  {
  }

  /** A timely admissible vote of the same voter is at least as late. */
  predicate Overtaken(polls: PollTable, timely: seq<Vote>, v: Vote) {
    exists w :: w in timely && Admissible(polls, w) && BallotOf(w) == BallotOf(v) && w.at >= v.at
  }

  /** Whether a table is nowhere behind another: no row missing or earlier, and rows of one time equal. */
  predicate NotBehind(x: VoteTable, y: VoteTable) {
    forall b | b in x :: b in y && x[b].at <= y[b].at && (x[b].at == y[b].at ==> x[b] == y[b])
  }

  lemma CastBothNotBehind(polls: PollTable, x: VoteTable, y: VoteTable, v: Vote)
    requires NotBehind(x, y)
    ensures NotBehind(Cast(polls, x, v), Cast(polls, y, v))
  {
  }

  lemma CastOneNotBehind(polls: PollTable, x: VoteTable, y: VoteTable, v: Vote)
    requires NotBehind(x, y) && BallotOf(v) !in x
    ensures NotBehind(x, Cast(polls, y, v))
  {
  }

  /** Rows of timely votes only, on polls already known. */
  lemma {:induction false} CastOnKnown(polls: PollTable, known: set<string>, vs: seq<Vote>)
    requires forall i | 0 <= i < |vs| :: vs[i].poll in known
    ensures forall b | b in CastAll(polls, map[], vs) :: b.poll in known
  {
    if vs == [] {
    } else {
      CastOnKnown(polls, known, vs[..|vs| - 1]);
    }
  }

  lemma CastSnoc(polls: PollTable, vs: seq<Vote>, v: Vote)
    ensures CastAll(polls, map[], vs + [v]) == Cast(polls, CastAll(polls, map[], vs), v)
  {
  }

  /** A stream's early votes precede its timely ones of the same poll, so ties fall the same way with and without them. */
  lemma {:induction false} TimelyNotBehind(polls: PollTable, events: seq<Event>)
    ensures NotBehind(CastAll(polls, map[], Timely(events)), CastAll(polls, map[], Votes(events)))
  {
    hide CastAll, Cast, NotBehind;
    if events == [] {
      NothingCast(polls);
      assert NotBehind(map[], map[]) by { NoneBehind(); }
    } else {
      var n := |events| - 1;
      var front := events[..n];
      TimelyNotBehind(polls, front);
      if events[n].Voted? {
        var v := events[n].vote;
        CastSnoc(polls, Votes(front), v);
        if v.poll in ReactAll(front).polls {
          CastSnoc(polls, Timely(front), v);
          CastBothNotBehind(polls, CastAll(polls, map[], Timely(front)), CastAll(polls, map[], Votes(front)), v);
        } else {
          StreamCountsTimely(front);
          CastOnKnown(polls, ReactAll(front).polls.Keys, Timely(front));
          CastOneNotBehind(polls, CastAll(polls, map[], Timely(front)), CastAll(polls, map[], Votes(front)), v);
          assert Timely(events) == Timely(front);
        }
      } else {
        assert Timely(events) == Timely(front) && Votes(events) == Votes(front);
      }
    }
  }

  lemma NoneBehind()
    ensures NotBehind(map[], map[])
  {
  }

  lemma OvertakenStored(polls: PollTable, timely: seq<Vote>, all: seq<Vote>, b: Ballot)
    requires b in CastAll(polls, map[], all)
    requires forall v | v in all && Admissible(polls, v) :: Overtaken(polls, timely, v)
    ensures b in CastAll(polls, map[], timely) && CastAll(polls, map[], timely)[b].at >= CastAll(polls, map[], all)[b].at
  {
    var w := WinnerOf(polls, all, b);
    var v :| v in timely && Admissible(polls, v) && BallotOf(v) == b && v.at >= w.at;
    LatestStored(polls, timely, v);
  }

  lemma StoredOvertakes(polls: PollTable, timely: seq<Vote>, all: seq<Vote>, v: Vote)
    requires CastAll(polls, map[], timely) == CastAll(polls, map[], all) && v in all && Admissible(polls, v)
    ensures Overtaken(polls, timely, v)
  {
    LatestStored(polls, all, v);
    var w := WinnerOf(polls, timely, BallotOf(v));
  }

  /**
   * A vote that arrives before its poll is dropped, not kept for later. So a stream leaves the
   * rows it would leave with every create first if and only if each vote its poll admits is
   * overtaken by a timely one, itself included when it was timely.
   */
  lemma StreamLosesNothingIff(events: seq<Event>)
    ensures var r := ReactAll(events);
      r.votes == CastAll(r.polls, map[], Votes(events))
      <==> forall v | v in Votes(events) && Admissible(r.polls, v) :: Overtaken(r.polls, Timely(events), v)
  {
    var polls, timely, all := ReactAll(events).polls, Timely(events), Votes(events);
    StreamCountsTimely(events);
    TimelyNotBehind(polls, events);
    hide CastAll, ReactAll, Timely, Votes, Overtaken, Admissible;
    var x, y := CastAll(polls, map[], timely), CastAll(polls, map[], all);
    if x == y {
      forall v | v in all && Admissible(polls, v)
        ensures Overtaken(polls, timely, v)
      {
        StoredOvertakes(polls, timely, all, v);
      }
    }
    if forall v | v in all && Admissible(polls, v) :: Overtaken(polls, timely, v) {
      forall b | b in y
        ensures b in x && x[b] == y[b]
      {
        OvertakenStored(polls, timely, all, b);
      }
      assert x == y;
    }
  }

  /** One vote before its poll: the rows are those of the vote after it exactly when the poll does not admit it. */
  lemma EarlyVoteIsLostIff(id: string, p: Poll, v: Vote)
    requires v.poll == id
    ensures ReactAll([Voted(v), Create(id, p)]).votes == ReactAll([Create(id, p), Voted(v)]).votes <==> !Admissible(map[id := p], v)
  {
    var early, late := [Voted(v), Create(id, p)], [Create(id, p), Voted(v)];
    assert early[..1] == [Voted(v)] && late[..1] == [Create(id, p)] && early[..1][..0] == [] && late[..1][..0] == [];
    assert ReactAll(early[..1]) == Replica(map[], map[]);
    assert ReactAll(late[..1]) == Replica(map[id := p], map[]);
  }

  /** Each poll id is created with one payload. */
  ghost predicate OnePayloadPerPoll(events: seq<Event>) {
    forall e, f | e in events && f in events && e.Create? && f.Create? && e.id == f.id :: e.poll == f.poll
  }

  lemma {:induction false} PollsAre(events: seq<Event>)
    requires OnePayloadPerPoll(events)
    ensures forall id :: id in ReactAll(events).polls <==> exists e :: e in events && e.Create? && e.id == id
    ensures forall e | e in events && e.Create? :: ReactAll(events).polls[e.id] == e.poll
  {
    if events == [] {
    } else {
      var n := |events| - 1;
      assert events == events[..n] + [events[n]];
      PollsAre(events[..n]);
    }
  }

  lemma {:induction false} VotesAre(events: seq<Event>)
    ensures forall v :: v in Votes(events) <==> Voted(v) in events
  {
    if events == [] {
    } else {
      var n := |events| - 1;
      assert events == events[..n] + [events[n]];
      VotesAre(events[..n]);
    }
  }

  /** The stream leaves the rows it would leave with every create first. */
  ghost predicate Lossless(events: seq<Event>) {
    forall v | v in Votes(events) && Admissible(ReactAll(events).polls, v) :: Overtaken(ReactAll(events).polls, Timely(events), v)
  }

  ghost predicate SameEvents(a: seq<Event>, b: seq<Event>) {
    forall e :: e in a <==> e in b
  }

  /** Replicas that saw the same events in orders that lose nothing agree when each ballot's latest votes do. */
  lemma StreamsConverge(a: seq<Event>, b: seq<Event>)
    requires SameEvents(a, b) && OnePayloadPerPoll(a) && LatestAgree(ReactAll(a).polls, Votes(a))
    requires Lossless(a) && Lossless(b)
    ensures ReactAll(a) == ReactAll(b)
  {
    VotesAre(a);
    VotesAre(b);
    SamePolls(a, b);
    StreamLosesNothingIff(a);
    StreamLosesNothingIff(b);
    hide ReactAll, Timely, CastAll, Overtaken;
    ReplicasConverge(ReactAll(a).polls, Votes(a), Votes(b));
  }

  function Creates(events: seq<Event>): seq<Event> {
    if events == [] then []
    else Creates(events[..|events| - 1]) + if events[|events| - 1].Create? then [events[|events| - 1]] else []
  }

  lemma ReactSnoc(events: seq<Event>, e: Event)
    ensures ReactAll(events + [e]) == React(ReactAll(events), e)
    ensures Votes(events + [e]) == Votes(events) + if e.Voted? then [e.vote] else []
  {
  }

  lemma {:induction false} CreatesAre(events: seq<Event>)
    ensures forall e :: e in Creates(events) <==> e in events && e.Create?
    ensures Votes(Creates(events)) == [] && ReactAll(Creates(events)).votes == map[]
  {
    if events == [] {
    } else {
      var n := |events| - 1;
      assert events == events[..n] + [events[n]];
      CreatesAre(events[..n]);
      ReactSnoc(Creates(events[..n]), events[n]);
      hide ReactAll, Votes;
      if !events[n].Create? {
        assert Creates(events) == Creates(events[..n]);
      }
    }
  }

  /** After all its polls are known, a stream casts all its votes. */
  lemma {:induction false} CastsOnKnownPolls(p: seq<Event>, xs: seq<Event>)
    requires ReactAll(p).votes == map[] && Votes(p) == [] && forall e | e in xs && e.Create? :: e.id in ReactAll(p).polls
    ensures ReactAll(p + xs) == Replica(ReactAll(p).polls, CastAll(ReactAll(p).polls, map[], Votes(xs)))
    ensures Votes(p + xs) == Votes(xs)
  {
    if xs == [] {
      assert p + xs == p;
    } else {
      var n := |xs| - 1;
      var front, e := xs[..n], xs[n];
      assert xs == front + [e] && p + xs == (p + front) + [e];
      CastsOnKnownPolls(p, front);
      ReactSnoc(p + front, e);
      ReactSnoc(front, e);
      hide ReactAll, Votes, CastAll;
      assert e in xs;
      if e.Voted? {
        CastSnoc(ReactAll(p).polls, Votes(front), e.vote);
      } else {
        assert Votes(xs) == Votes(front);
      }
    }
  }

  /** An order that loses nothing and ends with a given vote. */
  lemma EndingWith(a: seq<Event>, v: Vote) returns (b: seq<Event>)
    requires OnePayloadPerPoll(a) && Voted(v) in a
    ensures SameEvents(a, b) && Lossless(b)
    ensures ReactAll(b).votes == CastAll(ReactAll(a).polls, map[], Votes(a) + [v])
  {
    var p, xs := Creates(a), a + [Voted(v)];
    CreatesAre(a);
    assert OnePayloadPerPoll(p);
    PollsAre(p);
    b := p + xs;
    assert xs[..|a|] == a && Votes(xs) == Votes(a) + [v];
    CastsOnKnownPolls(p, xs);
    SamePolls(a, b);
    StreamLosesNothingIff(b);
  }

  /** All orders of some events that lose nothing leave the same replica if and only if each ballot's latest votes say the same. */
  lemma StreamOrderFreeIff(a: seq<Event>)
    requires OnePayloadPerPoll(a)
    ensures (forall b, c | SameEvents(a, b) && SameEvents(a, c) && Lossless(b) && Lossless(c) :: ReactAll(b) == ReactAll(c))
       <==> LatestAgree(ReactAll(a).polls, Votes(a))
  {
    var polls := ReactAll(a).polls;
    if LatestAgree(polls, Votes(a)) {
      forall b, c | SameEvents(a, b) && SameEvents(a, c) && Lossless(b) && Lossless(c)
        ensures ReactAll(b) == ReactAll(c)
      {
        AgreementCarries(a, b);
        StreamsConverge(b, c);
      }
    } else {
      var v, w :| LatestOfBallot(polls, Votes(a), v) && LatestOfBallot(polls, Votes(a), w) && BallotOf(v) == BallotOf(w) && RowOf(v) != RowOf(w);
      VotesAre(a);
      LatestCastLast(polls, Votes(a), v);
      LatestCastLast(polls, Votes(a), w);
      hide CastAll, LatestOfBallot, ReactAll, Votes, Lossless, SameEvents;
      var b := EndingWith(a, v);
      var c := EndingWith(a, w);
      assert ReactAll(b) != ReactAll(c);
    }
  }

  lemma AgreementCarries(a: seq<Event>, b: seq<Event>)
    requires SameEvents(a, b) && OnePayloadPerPoll(a) && LatestAgree(ReactAll(a).polls, Votes(a))
    ensures OnePayloadPerPoll(b) && LatestAgree(ReactAll(b).polls, Votes(b))
  {
    VotesAre(a);
    VotesAre(b);
    SamePolls(a, b);
    hide ReactAll, Votes;
    forall v | LatestOfBallot(ReactAll(b).polls, Votes(b), v)
      ensures LatestOfBallot(ReactAll(a).polls, Votes(a), v)
    {
    }
  }

  lemma SamePolls(a: seq<Event>, b: seq<Event>)
    requires SameEvents(a, b) && OnePayloadPerPoll(a)
    ensures ReactAll(a).polls == ReactAll(b).polls
  {
    PollsAre(a);
    PollsAre(b);
    hide ReactAll;
    forall id
      ensures (id in ReactAll(a).polls <==> id in ReactAll(b).polls)
      ensures id in ReactAll(a).polls ==> ReactAll(a).polls[id] == ReactAll(b).polls[id]
    {
      if id in ReactAll(a).polls {
        var e :| e in a && e.Create? && e.id == id;
      }
    }
  }

  // ---- Conservation ----------------------------------------------------------------------

  function Multiplicity(options: seq<string>, o: string): nat {
    multiset(options)[o]
  }

  /** The sum of some tallies. */
  function Sum(tallies: seq<nat>): nat {
    if tallies == [] then 0 else Sum(tallies[..|tallies| - 1]) + tallies[|tallies| - 1]
  }

  lemma {:induction false} SumOfTallies(options: seq<string>, choices: map<string, string>, tallies: seq<nat>)
    requires |tallies| == |options| && forall i | 0 <= i < |tallies| :: tallies[i] == |VotersFor(choices, options[i])|
    ensures Sum(tallies) == TallySum(options, choices)
  {
    if options == [] {
    } else {
      SumOfTallies(options[..|options| - 1], choices, tallies[..|options| - 1]);
    }
  }

  function TallySum(options: seq<string>, choices: map<string, string>): nat {
    if options == [] then 0
    else TallySum(options[..|options| - 1], choices) + |VotersFor(choices, options[|options| - 1])|
  }

  /** One voter contributes to the sum once for each place their option is listed. */
  lemma {:induction false} VoterContributes(options: seq<string>, choices: map<string, string>, v: string)
    requires v in choices
    ensures TallySum(options, choices) == TallySum(options, choices - {v}) + Multiplicity(options, choices[v])
  {
    if options == [] {
    } else {
      var n := |options| - 1;
      var o := options[n];
      assert options == options[..n] + [o];
      VoterContributes(options[..n], choices, v);
      var rest := choices - {v};
      if choices[v] == o {
        assert VotersFor(choices, o) == VotersFor(rest, o) + {v};
      } else {
        assert VotersFor(choices, o) == VotersFor(rest, o);
      }
    }
  }

  lemma {:induction false} NoVotersNoTally(options: seq<string>, choices: map<string, string>)
    requires choices == map[]
    ensures TallySum(options, choices) == 0
  {
    if options == [] {
    } else {
      NoVotersNoTally(options[..|options| - 1], choices);
      assert VotersFor(choices, options[|options| - 1]) == {};
    }
  }

  /**
   * The tallies account for every voter; they add up to the number of voters exactly when
   * every option somebody chose is listed once.
   */
  lemma {:induction false} TalliesCountVotersIff(options: seq<string>, choices: map<string, string>)
    requires forall v | v in choices :: choices[v] in options
    ensures TallySum(options, choices) >= |choices|
    ensures TallySum(options, choices) == |choices| <==> forall v | v in choices :: Multiplicity(options, choices[v]) == 1
    decreases |choices|
  {
    if choices == map[] {
      NoVotersNoTally(options, choices);
    } else {
      var v :| v in choices;
      var rest := choices - {v};
      assert rest.Keys == choices.Keys - {v};
      assert |rest| == |rest.Keys| && |choices| == |choices.Keys|;
      VoterContributes(options, choices, v);
      TalliesCountVotersIff(options, rest);
      assert Multiplicity(options, choices[v]) >= 1;
      forall w | w in choices && w != v
        ensures w in rest && rest[w] == choices[w]
      {
      }
    }
  }
}
