/** The poll widget's vote controller (app/components/PollsDisplay.js).
    It keeps, for the signed-in user, a map from poll to the option voted
    for. A click runs a three-way state machine on that map: a first vote
    inserts, a click on the recorded option withdraws it, and a click on
    another option deletes the old vote and then inserts the new one.
    Every call to the backend is replaced by its outcome, given as a
    parameter, and the writes a call issues are returned as descriptors. */
module Polls {
  import opened Seqs

  type UserId = nat
  type PollId = nat
  type OptionId = nat

  /** One row of `poll_votes` as fetched for the current user. */
  datatype VoteRow = VoteRow(poll: PollId, option: OptionId)

  /** A write sent to the `poll_votes` table. */
  datatype VoteWrite =
    | DeleteVote(poll: PollId, user: UserId)
    | InsertVote(poll: PollId, option: OptionId, user: UserId)

  /** JavaScript truthiness of a numeric id, as in `if (existingVote)`. */
  predicate Truthy(id: OptionId) { id != 0 }

  /** The vote map that `fetchUserVotes` builds: rows are applied in order,
      each setting its poll's entry. */
  function VotesOf(rows: seq<VoteRow>): (m: map<PollId, OptionId>)
    ensures rows != [] ==> rows[|rows| - 1].poll in m && m[rows[|rows| - 1].poll] == rows[|rows| - 1].option
  {
    if rows == [] then map[]
    else
      var last := rows[|rows| - 1];
      VotesOf(rows[..|rows| - 1])[last.poll := last.option]
  }

  /** The keys of the vote map are exactly the polls of the rows. */
  lemma {:induction false} VotesOfKeys(rows: seq<VoteRow>)
    ensures forall p :: p in VotesOf(rows) <==> exists i :: 0 <= i < |rows| && rows[i].poll == p
  {
    if rows != [] {
      var n := |rows| - 1;
      VotesOfKeys(rows[..n]);
      assert forall i :: 0 <= i < n ==> rows[..n][i] == rows[i];
    }
  }

  /** A poll maps to the option of its last row: a later row overrides an
      earlier one. */
  lemma {:induction false} VotesOfLastWins(rows: seq<VoteRow>, i: nat)
    requires i < |rows|
    requires forall j :: i < j < |rows| ==> rows[j].poll != rows[i].poll
    ensures rows[i].poll in VotesOf(rows) && VotesOf(rows)[rows[i].poll] == rows[i].option
  {
    var n := |rows| - 1;
    if i < n {
      assert forall j :: i < j < n ==> rows[..n][j] == rows[j];
      VotesOfLastWins(rows[..n], i);
    }
  }

  /** The vote map after `handleVote(poll, option)` with the given backend outcomes. */
  function NextVotes(votes: map<PollId, OptionId>, user: Option<UserId>, poll: PollId,
                     option: OptionId, deleteOk: bool, insertOk: bool): (m: map<PollId, OptionId>)
    // without a signed-in user nothing changes
    ensures user.None? ==> m == votes
    // no other poll's entry is touched
    ensures forall q :: q != poll ==> (q in m <==> q in votes)
    ensures forall q :: q in m && q != poll ==> m[q] == votes[q]
    // the only vote a click can record is the clicked option
    ensures poll in m ==> m == votes || m[poll] == option
    // withdrawal: a click on the recorded option removes the vote when the delete succeeds
    ensures user.Some? && poll in votes && votes[poll] == option ==>
              (poll !in m <==> deleteOk) && (!deleteOk ==> m == votes)
    // first vote or switch: only the insert's outcome decides the new map
    ensures user.Some? && !(poll in votes && votes[poll] == option) ==>
              (insertOk ==> poll in m && m[poll] == option) && (!insertOk ==> m == votes)
  {
    if user.None? then votes
    else if poll in votes && votes[poll] == option then
      (if deleteOk then votes - {poll} else votes)
    else if insertOk then votes[poll := option]
    else votes
  }

  /** The writes `handleVote(poll, option)` issues, in order. A switch always
      sends the delete of the old vote and then the insert, whatever the delete
      returned; a recorded vote with a falsy id skips the delete. */
  function VoteWrites(votes: map<PollId, OptionId>, user: Option<UserId>, poll: PollId,
                      option: OptionId): (w: seq<VoteWrite>)
    ensures user.None? ==> w == []
    ensures user.Some? && poll in votes && votes[poll] == option ==>
              w == [DeleteVote(poll, user.value)]
    ensures user.Some? && !(poll in votes && votes[poll] == option) ==>
              |w| == (if poll in votes && Truthy(votes[poll]) then 2 else 1) &&
              w[|w| - 1] == InsertVote(poll, option, user.value) &&
              (|w| == 2 ==> w[0] == DeleteVote(poll, user.value))
  {
    if user.None? then []
    else if poll in votes && votes[poll] == option then [DeleteVote(poll, user.value)]
    else
      (if poll in votes && Truthy(votes[poll]) then [DeleteVote(poll, user.value)] else [])
      + [InsertVote(poll, option, user.value)]
  }

  /** Voting twice for the same option, both writes succeeding, from a state
      with no vote on that poll, gives back the original map. */
  lemma ToggleRestores(votes: map<PollId, OptionId>, u: UserId, poll: PollId, option: OptionId)
    requires poll !in votes
    ensures NextVotes(NextVotes(votes, Some(u), poll, option, true, true), Some(u), poll, option, true, true)
            == votes
  {
    var once := NextVotes(votes, Some(u), poll, option, true, true);
    assert once == votes[poll := option];
    assert once - {poll} == votes;
  }

  /** Voting for A and then for B (B != A), each insert succeeding, leaves exactly
      one vote on the poll, for B, whatever the intermediate delete returned. */
  lemma SwitchEndsOnSecondChoice(votes: map<PollId, OptionId>, u: UserId, poll: PollId,
                                 a: OptionId, b: OptionId, deleteOk: bool)
    requires a != b && poll !in votes
    ensures var after := NextVotes(NextVotes(votes, Some(u), poll, a, true, true),
                                   Some(u), poll, b, deleteOk, true);
            poll in after && after[poll] == b
  {
  }

  /** `totalVotes`: the sum of the options' `votes_count` (the `reduce`),
      which bounds every option's count. */
  function TotalVotes(counts: seq<nat>): (t: nat)
    ensures forall i :: 0 <= i < |counts| ==> counts[i] <= t
    ensures t == 0 <==> forall i :: 0 <= i < |counts| ==> counts[i] == 0
    ensures |counts| == 1 ==> t == counts[0]
  {
    if counts == [] then 0 else counts[0] + TotalVotes(counts[1..])
  }

  /** The total of two lists of options is the sum of their totals: the
      `reduce` adds every count exactly once. */
  lemma {:induction false} TotalVotesAppend(a: seq<nat>, b: seq<nat>)
    ensures TotalVotes(a + b) == TotalVotes(a) + TotalVotes(b)
  {
    if a == [] {
      assert a + b == b;
    } else {
      assert (a + b)[0] == a[0];
      assert (a + b)[1..] == a[1..] + b;
      TotalVotesAppend(a[1..], b);
    }
  }

  /** An option with 3 of a poll's 12 votes shows 25%. */
  lemma ThreeOfTwelve()
    ensures Percentage(3, TotalVotes([3, 9])) == 25.0
  {
    assert [3, 9] == [3] + [9];
    TotalVotesAppend([3], [9]);
  }

  /** The percentage shown for an option with `count` votes out of `total`:
      0 when nobody voted, otherwise the exact ratio times 100 (the source
      then rounds it with `toFixed(0)`). */
  function Percentage(count: nat, total: nat): (p: real)
    ensures total == 0 ==> p == 0.0
    ensures count <= total ==> 0.0 <= p <= 100.0
    ensures total > 0 ==> p * total as real == 100.0 * count as real
  {
    if total > 0 then count as real / total as real * 100.0 else 0.0
  }

  /** Every option of a poll shows a percentage between 0 and 100. */
  lemma PercentagesInRange(counts: seq<nat>, i: nat)
    requires i < |counts|
    ensures 0.0 <= Percentage(counts[i], TotalVotes(counts)) <= 100.0
  {
  }

  /** `isExpired`: the poll has a deadline and it lies before `now`. */
  function IsExpired(deadline: Option<int>, now: int): (e: bool)
    ensures e <==> deadline.Some? && deadline.value < now
  {
    match deadline
    case None => false
    case Some(d) => d < now
  }

  /** `isSelected`: the option is the one recorded for its poll. */
  function IsSelected(votes: map<PollId, OptionId>, poll: PollId, option: OptionId): (s: bool)
    ensures s <==> poll in votes && votes[poll] == option
  {
    poll in votes && votes[poll] == option
  }

  /** Among a poll's options with distinct ids, at most one shows as selected. */
  lemma AtMostOneSelected(votes: map<PollId, OptionId>, poll: PollId, options: seq<OptionId>, i: nat, j: nat)
    requires forall a, b :: 0 <= a < b < |options| ==> options[a] != options[b]
    requires i < |options| && j < |options|
    requires IsSelected(votes, poll, options[i]) && IsSelected(votes, poll, options[j])
    ensures i == j
  {
  }

  /** The state of one `PollsDisplay`: the signed-in user and `userVotes`. */
  class VoteController {
    var user: Option<UserId>
    var votes: map<PollId, OptionId>

    /** `useState(null)` and `useState({})`. */
    constructor ()
      ensures user == None && votes == map[]
    {
      user := None;
      votes := map[];
    }

    /** `fetchUserVotes`: on success, rebuild the map from the rows one by one;
        on a failed select, keep it. */
    method FetchUserVotes(rows: seq<VoteRow>, ok: bool)
      modifies this`votes
      ensures ok ==> votes == VotesOf(rows)
      ensures !ok ==> votes == old(votes)
    {
      if ok {
        var votesMap: map<PollId, OptionId> := map[];
        var i := 0;
        while i < |rows|
          invariant 0 <= i <= |rows|
          invariant votesMap == VotesOf(rows[..i])
        {
          assert rows[..i + 1][..i] == rows[..i];
          votesMap := votesMap[rows[i].poll := rows[i].option];
          i := i + 1;
        }
        assert rows[..|rows|] == rows;
        votes := votesMap;
      }
    }

    /** `checkUser`: record the session's user and, when there is one, fetch
        their votes. */
    method CheckUser(session: Option<UserId>, rows: seq<VoteRow>, fetchOk: bool)
      modifies this
      ensures user == session
      ensures session.Some? && fetchOk ==> votes == VotesOf(rows)
      ensures session.None? || !fetchOk ==> votes == old(votes)
    {
      user := session;
      if session.Some? {
        FetchUserVotes(rows, fetchOk);
      }
    }

    /** `handleVote(poll, option)`: `deleteOk` is the outcome of the delete of
        a withdrawal (a switch ignores its delete's outcome), `insertOk` that
        of the insert. */
    method HandleVote(poll: PollId, option: OptionId, deleteOk: bool, insertOk: bool)
      returns (writes: seq<VoteWrite>)
      modifies this`votes
      ensures votes == NextVotes(old(votes), user, poll, option, deleteOk, insertOk)
      ensures writes == VoteWrites(old(votes), user, poll, option)
    {
      if user.None? {
        return [];
      }
      var existing: Option<OptionId> := if poll in votes then Some(votes[poll]) else None;
      if existing == Some(option) {
        writes := [DeleteVote(poll, user.value)];
        if deleteOk {
          var newVotes := votes;
          newVotes := newVotes - {poll};
          votes := newVotes;
        }
      } else {
        writes := [];
        if existing.Some? && Truthy(existing.value) {
          writes := writes + [DeleteVote(poll, user.value)];
        }
        writes := writes + [InsertVote(poll, option, user.value)];
        if insertOk {
          votes := votes[poll := option];
        }
      }
    }

    /** An option button's click: `!isExpired && handleVote(poll.id, option.id)`. */
    method Click(poll: PollId, option: OptionId, deadline: Option<int>, now: int,
                 deleteOk: bool, insertOk: bool)
      returns (writes: seq<VoteWrite>)
      modifies this`votes
      ensures IsExpired(deadline, now) ==> votes == old(votes) && writes == []
      ensures !IsExpired(deadline, now) ==>
                votes == NextVotes(old(votes), user, poll, option, deleteOk, insertOk) &&
                writes == VoteWrites(old(votes), user, poll, option)
    {
      if IsExpired(deadline, now) {
        return [];
      }
      writes := HandleVote(poll, option, deleteOk, insertOk);
    }
  }
}
