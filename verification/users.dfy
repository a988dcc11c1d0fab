/** The selection rules of chatter/usermaintenance.py: which Twitter list a
    batch of new users goes to, how many of them fit, the daily count that
    paces additions, and how a refresh splits user ids into updates and
    suspensions. The database, Twitter and the clock are parameters. */
module Users {
  import opened Common
  import opened Strings
  import opened Sorting
  import opened Util

  const ListPrefix: string := "chatter"
  const MaxUsersPerList: int := 4999
  const MaxUsersPerDay: int := 1000
  const RestPeriodSeconds: real := 86400.0
  const ListSleepSeconds: real := 15.0

  /** One row of the list-count query: a list and its member count. */
  datatype ListCount = ListCount(listId: string, num: int)

  predicate HasRoom(row: ListCount) {
    row.num < MaxUsersPerList
  }

  /** Where the batch goes: an existing list with room, or a list to create. */
  datatype Target = Existing(slug: string, count: int) | Create(slug: string)

  /** The loop over `list_counts`: the first list with room, counting the
      full lists passed on the way. */
  function FirstWithRoom(counts: seq<ListCount>, passed: nat): (r: (Option<nat>, nat))
    ensures r.0.None? ==> r.1 == passed + |counts| && forall i :: 0 <= i < |counts| ==> !HasRoom(counts[i])
    ensures r.0.Some? ==> && r.0.value < |counts| && HasRoom(counts[r.0.value])
                          && r.1 == passed + r.0.value
                          && forall i :: 0 <= i < r.0.value ==> !HasRoom(counts[i])
  {
    if |counts| == 0 then (None, passed)
    else if HasRoom(counts[0]) then (Some(0), passed)
    else
      var (i, n) := FirstWithRoom(counts[1..], passed + 1);
      assert forall k :: 1 <= k < |counts| ==> counts[k] == counts[1..][k - 1];
      (if i.Some? then Some(i.value + 1) else None, n)
  }

  /** The list choice of `maintain_lists`: the first list, in the given
      order, with fewer than 4999 members; if none has room, a new list
      named `chatter<n+1>` for `n` lists. */
  function ChooseList(counts: seq<ListCount>): (t: Target)
    ensures t.Existing? <==> exists i :: 0 <= i < |counts| && HasRoom(counts[i])
    ensures t.Existing? ==> exists i :: && 0 <= i < |counts| && HasRoom(counts[i])
                                        && (forall j :: 0 <= j < i ==> !HasRoom(counts[j]))
                                        && t == Existing(counts[i].listId, counts[i].num)
    ensures t.Create? ==> t.slug == ListPrefix + NatToString(|counts| + 1)
    ensures TargetCount(t) < MaxUsersPerList
  {
    var (i, passed) := FirstWithRoom(counts, 1);
    match i
    case Some(k) => Existing(counts[k].listId, counts[k].num)
    case None => Create(ListPrefix + NatToString(passed))
  }

  /** The users already on a target list. */
  function TargetCount(t: Target): int {
    if t.Existing? then t.count else 0
  }

  /** `uids[:MAX_USERS_PER_LIST - list_user_count]`: the batch cut to the
      room left, so the list never passes 4999 members. */
  function Assign(t: Target, uids: seq<int>): (r: seq<int>)
    requires TargetCount(t) < MaxUsersPerList
    ensures |r| <= |uids| && r == uids[..|r|]
    ensures TargetCount(t) + |r| <= MaxUsersPerList
    ensures |r| == if |uids| <= MaxUsersPerList - TargetCount(t) then |uids| else MaxUsersPerList - TargetCount(t)
  {
    SliceTo(uids, MaxUsersPerList - TargetCount(t))
  }

  /** `total_users_added` and the start of the current day. */
  datatype DayCounter = DayCounter(total: int, start: real)

  /** How long the loop sleeps after a batch: the normal pause, or the rest
      of the day once the daily number of additions is reached. */
  datatype Pause = Normal | RestOfDay(seconds: real)

  /** The sleep as the source computes it: `86400 - elapsed + 5` seconds
      once 1000 users were added, whatever `elapsed` is. */
  function PauseAsWritten(total: int, elapsed: real): (p: Pause)
    ensures p.Normal? <==> total < MaxUsersPerDay
    ensures p.RestOfDay? ==> p.seconds + elapsed == RestPeriodSeconds + 5.0
  {
    if total < MaxUsersPerDay then Normal else RestOfDay(RestPeriodSeconds - elapsed + 5.0)
  }

  /** When the thousandth addition comes more than 86405 seconds into the
      day, the computed sleep is negative, which `time.sleep` rejects with
      `ValueError`, ending the loop. */
  lemma NegativeSleepAsWritten()
    ensures PauseAsWritten(1000, 86420.0) == RestOfDay(-15.0)
  {
  }

  /** The sleep evidently intended: the rest of the day, and none if the
      day is already over. */
  function DayPause(total: int, elapsed: real): (p: Pause)
    ensures p.Normal? <==> total < MaxUsersPerDay
    ensures p.RestOfDay? ==> p.seconds >= 0.0
    ensures p.RestOfDay? && elapsed <= RestPeriodSeconds + 5.0 ==> p == PauseAsWritten(total, elapsed)
  {
    if total < MaxUsersPerDay then Normal
    else if elapsed > RestPeriodSeconds + 5.0 then RestOfDay(0.0)
    else RestOfDay(RestPeriodSeconds - elapsed + 5.0)
  }

  /** One batch of `maintain_lists`: the list, the rows recorded, the
      pause, and the counter for the next pass, or `None` when the sleep
      raises and the loop ends (after the rows were recorded). */
  datatype ListBatch = ListBatch(target: Target, members: seq<(string, int)>, pause: Pause, counter: Option<DayCounter>)

  /** The rows `(slug, uid)` recorded for the assigned users. */
  function Pairs(slug: string, uids: seq<int>): (r: seq<(string, int)>)
    ensures |r| == |uids|
    ensures forall i :: 0 <= i < |r| ==> r[i] == (slug, uids[i])
  {
    seq(|uids|, i requires 0 <= i < |uids| => (slug, uids[i]))
  }

  /** `time.sleep` rejects a negative duration with `ValueError`. */
  predicate SleepRaises(p: Pause) {
    p.RestOfDay? && p.seconds < 0.0
  }

  /** The batch once the pause is chosen: the counter grows by the batch,
      restarts once more than a day has passed, and is lost when the sleep
      raises. */
  function Batch(c: DayCounter, t: Target, batch: seq<int>, pause: Pause,
                 elapsed: real, elapsedAfterRest: real, now: real): ListBatch
  {
    var secs := if pause.Normal? then elapsed else elapsedAfterRest;
    var c' := if SleepRaises(pause) then None
              else if secs > RestPeriodSeconds then Some(DayCounter(0, now))
              else Some(c.(total := c.total + |batch|));
    ListBatch(t, Pairs(t.slug, batch), pause, c')
  }

  /** One pass of the `maintain_lists` loop with users waiting, as written.
      `elapsed` is the time since the day started, measured after the batch;
      `elapsedAfterRest` the same measured again after a rest-of-day sleep;
      `now` the clock should the day restart. The pause is the one the
      source computes; when it is negative the loop ends there. Otherwise
      the counter grows by exactly the number of users assigned, and
      restarts from 0 once more than a day has passed. */
  function ListsRound(c: DayCounter, uids: seq<int>, counts: seq<ListCount>,
                      elapsed: real, elapsedAfterRest: real, now: real): (b: Option<ListBatch>)
    ensures b.None? <==> |uids| == 0
    ensures b.Some? ==>
              && b.value.target == ChooseList(counts)
              && TargetCount(b.value.target) + |b.value.members| <= MaxUsersPerList
              && 0 < |b.value.members| <= |uids|
              && (forall i :: 0 <= i < |b.value.members| ==> b.value.members[i] == (b.value.target.slug, uids[i]))
              && b.value.pause == PauseAsWritten(c.total + |b.value.members|, elapsed)
    ensures b.Some? ==>
              && (b.value.counter.None? <==> c.total + |b.value.members| >= MaxUsersPerDay
                                             && elapsed > RestPeriodSeconds + 5.0)
              && var secs := if b.value.pause.Normal? then elapsed else elapsedAfterRest;
                 && (b.value.counter.Some? && secs > RestPeriodSeconds ==> b.value.counter == Some(DayCounter(0, now)))
                 && (b.value.counter.Some? && secs <= RestPeriodSeconds ==>
                       b.value.counter == Some(c.(total := c.total + |b.value.members|)))
  {
    if |uids| == 0 then None
    else
      var t := ChooseList(counts);
      var batch := Assign(t, uids);
      Some(Batch(c, t, batch, PauseAsWritten(c.total + |batch|, elapsed), elapsed, elapsedAfterRest, now))
  }

  /** The thousandth user of the day added 86420 seconds in: the round
      records the batch and then ends the loop on the negative sleep. */
  lemma NegativeSleepEndsRound(now: real, later: real)
    ensures var b := ListsRound(DayCounter(999, 0.0), [7], [], 86420.0, later, now);
            && b.Some? && b.value.members == [(ListPrefix + "1", 7)]
            && b.value.pause == RestOfDay(-15.0) && b.value.counter.None?
  {
    assert NatToString(1) == "1";
  }

  /** The same pass with the corrected pause: it never ends the loop, and
      the pause is never negative. */
  function ListsRoundCorrected(c: DayCounter, uids: seq<int>, counts: seq<ListCount>,
                               elapsed: real, elapsedAfterRest: real, now: real): (b: Option<ListBatch>)
    ensures b.None? <==> |uids| == 0
    ensures b.Some? ==>
              && b.value.counter.Some?
              && b.value.pause == DayPause(c.total + |b.value.members|, elapsed)
              && (b.value.pause.RestOfDay? ==> b.value.pause.seconds >= 0.0)
  {
    if |uids| == 0 then None
    else
      var t := ChooseList(counts);
      var batch := Assign(t, uids);
      Some(Batch(c, t, batch, DayPause(c.total + |batch|, elapsed), elapsed, elapsedAfterRest, now))
  }

  /** Whenever the round as written does not end the loop, the corrected
      round does exactly the same. */
  lemma CorrectedRoundAgrees(c: DayCounter, uids: seq<int>, counts: seq<ListCount>,
                             elapsed: real, elapsedAfterRest: real, now: real)
    ensures var b := ListsRound(c, uids, counts, elapsed, elapsedAfterRest, now);
            b.Some? && b.value.counter.Some? ==>
              ListsRoundCorrected(c, uids, counts, elapsed, elapsedAfterRest, now) == b
  {
  }

  // ---------------------------------------------------------------- users

  /** The fields of a user that a refresh writes back. */
  datatype UserInfo = UserInfo(id: int, screenName: string, friends: int, followers: int,
                               name: string, imageUrl: string, location: string)

  /** `{x['id']: x for x in response}`: one entry per id in the response. */
  function InfoMap(response: seq<UserInfo>): (m: map<int, UserInfo>)
    ensures forall id :: id in m <==> exists i :: 0 <= i < |response| && response[i].id == id
    ensures forall id :: id in m ==> m[id].id == id
  {
    if |response| == 0 then map[]
    else
      var init := response[..|response| - 1];
      var last := response[|response| - 1];
      assert forall i :: 0 <= i < |init| ==> init[i] == response[i];
      InfoMap(init)[last.id := last]
  }

  /** A later entry for the same id overrides an earlier one: the map holds
      the last entry of each id. */
  lemma {:induction false} InfoMapLastWins(response: seq<UserInfo>, i: nat)
    requires i < |response|
    requires forall j :: i < j < |response| ==> response[j].id != response[i].id
    ensures InfoMap(response)[response[i].id] == response[i]
  {
    if i < |response| - 1 {
      var init := response[..|response| - 1];
      assert init[i] == response[i];
      InfoMapLastWins(init, i);
    }
  }

  /** The uids found in `m` (`present`) or missing from it, in order. */
  function Select(uids: seq<int>, m: map<int, UserInfo>, present: bool): (r: seq<int>)
    ensures IsSubsequence(r, uids)
    ensures forall u :: multiset(r)[u] == if (u in m) == present then multiset(uids)[u] else 0
    ensures forall i :: 0 <= i < |r| ==> (r[i] in m) == present
  {
    if |uids| == 0 then []
    else
      var rest := Select(uids[1..], m, present);
      assert uids == [uids[0]] + uids[1..];
      if (uids[0] in m) == present then [uids[0]] + rest
      else
        assert |rest| > 0 ==> rest[0] != uids[0];
        rest
  }

  /** `(screen_name, friends, followers, name, image, location, uid)`. */
  datatype UserUpdate = UserUpdate(screenName: string, friends: int, followers: int,
                                   name: string, imageUrl: string, location: string, uid: int)

  function UpdateOf(ui: UserInfo, uid: int): UserUpdate {
    UserUpdate(ui.screenName, ui.friends, ui.followers, ui.name, ui.imageUrl, ui.location, uid)
  }

  /** `updates` and `suspensions` split `uids` by the response: each uid
      goes to exactly one of them, order kept, the found ones carrying their
      latest info. */
  ghost predicate IsRoundSplit(uids: seq<int>, response: seq<UserInfo>, updates: seq<UserUpdate>, suspensions: seq<int>) {
    && IsSubsequence(UpdateIds(updates), uids)
    && IsSubsequence(suspensions, uids)
    && (forall u :: multiset(UpdateIds(updates))[u] == if u in InfoMap(response) then multiset(uids)[u] else 0)
    && (forall u :: multiset(suspensions)[u] == if u in InfoMap(response) then 0 else multiset(uids)[u])
    && (forall i :: 0 <= i < |updates| ==>
          (updates[i].uid in InfoMap(response)
           && updates[i] == UpdateOf(InfoMap(response)[updates[i].uid], updates[i].uid)))
    && |updates| + |suspensions| == |uids|
  }

  /** The body of one round: every uid found in the response becomes an
      update carrying its latest info, every other uid a suspension. */
  function SplitUids(uids: seq<int>, response: seq<UserInfo>): (r: (seq<UserUpdate>, seq<int>))
    ensures IsRoundSplit(uids, response, r.0, r.1)
  {
    var m := InfoMap(response);
    var found := Select(uids, m, true);
    SelectSplits(uids, m);
    (UpdatesFor(found, m), Select(uids, m, false))
  }

  /** One update per uid, each carrying that uid's info. */
  function UpdatesFor(found: seq<int>, m: map<int, UserInfo>): (r: seq<UserUpdate>)
    requires forall i :: 0 <= i < |found| ==> found[i] in m
    ensures UpdateIds(r) == found
    ensures forall i :: 0 <= i < |r| ==> r[i].uid in m && r[i] == UpdateOf(m[r[i].uid], r[i].uid)
  {
    var r := seq(|found|, i requires 0 <= i < |found| => UpdateOf(m[found[i]], found[i]));
    assert UpdateIds(r) == found;
    r
  }

  /** One round of `maintain_users`. Only an empty first fetch ends the job
      (`None`); an empty later fetch is a round with nothing to update or
      suspend. */
  function UsersRound(uids: seq<int>, response: seq<UserInfo>, first: bool): (r: Option<(seq<UserUpdate>, seq<int>)>)
    ensures r.None? <==> first && |uids| == 0
    ensures r.Some? ==> IsRoundSplit(uids, response, r.value.0, r.value.1)
  {
    if first && |uids| == 0 then None else Some(SplitUids(uids, response))
  }

  /** The uid of each update, in order. */
  function UpdateIds(updates: seq<UserUpdate>): (r: seq<int>)
    ensures |r| == |updates| && forall i :: 0 <= i < |r| ==> r[i] == updates[i].uid
  {
    seq(|updates|, i requires 0 <= i < |updates| => updates[i].uid)
  }

  /** Each uid goes to exactly one of the two selections. */
  lemma {:induction false} SelectSplits(uids: seq<int>, m: map<int, UserInfo>)
    ensures |Select(uids, m, true)| + |Select(uids, m, false)| == |uids|
  {
    if |uids| > 0 {
      SelectSplits(uids[1..], m);
    }
  }
}
