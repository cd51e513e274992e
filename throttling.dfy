/** The per-user rate limiter (`ThrottlingMiddleware`). Time is integer
    milliseconds; the map holds each user's last admitted request. */
module Throttling {

  /** Requests closer than this to the last admitted one are rejected (0.5 s). */
  const MinIntervalMs: int := 500
  /** Entries not newer than this are dropped on an admission (1 minute). */
  const RetentionMs: int := 60000

  /** The admission test: no earlier entry, or at least 0.5 s since it. */
  predicate Admits(timestamps: map<int, int>, userId: int, now: int)
  {
    userId !in timestamps || now - timestamps[userId] >= MinIntervalMs
  }

  /** The pruning comprehension: the entries newer than `cutoff`. */
  function Pruned(timestamps: map<int, int>, cutoff: int): map<int, int>
  {
    map u | u in timestamps && timestamps[u] > cutoff :: timestamps[u]
  }

  /** One call of the middleware: whether the handler runs, and the new map. */
  function Step(timestamps: map<int, int>, userId: int, now: int): (bool, map<int, int>)
  {
    if Admits(timestamps, userId, now) then
      (true, Pruned(timestamps[userId := now], now - RetentionMs))
    else
      (false, timestamps)
  }

  class ThrottlingMiddleware {
    /** `self.user_timestamps` */
    var userTimestamps: map<int, int>

    constructor()
      ensures userTimestamps == map[]
    {
      userTimestamps := map[];
    }

    /** `__call__`: returns whether the handler is invoked. */
    method Call(userId: int, now: int) returns (admitted: bool)
      modifies this
      ensures (admitted, userTimestamps) == Step(old(userTimestamps), userId, now)
    {
      if userId in userTimestamps {
        var lastRequest := userTimestamps[userId];
        var timePassed := now - lastRequest;
        if timePassed < MinIntervalMs {
          return false;
        }
      }
      userTimestamps := userTimestamps[userId := now];
      var cutoffTime := now - RetentionMs;
      userTimestamps := map u | u in userTimestamps && userTimestamps[u] > cutoffTime :: userTimestamps[u];
      return true;
    }
  }

  /** A user with no entry is admitted and recorded at `now`. */
  lemma AbsentUserAdmitted(timestamps: map<int, int>, userId: int, now: int)
    requires userId !in timestamps
    ensures Step(timestamps, userId, now).0
    ensures userId in Step(timestamps, userId, now).1 && Step(timestamps, userId, now).1[userId] == now
  {
  }

  /** Less than 0.5 s after the last admission: rejected, and the map is left
      exactly as it was (no refresh, no pruning). */
  lemma TooSoonRejected(timestamps: map<int, int>, userId: int, now: int)
    requires userId in timestamps && now - timestamps[userId] < MinIntervalMs
    ensures !Step(timestamps, userId, now).0
    ensures Step(timestamps, userId, now).1 == timestamps
  {
  }

  /** The outcome of a call is exactly the admission test. */
  lemma StepAdmitsIff(timestamps: map<int, int>, userId: int, now: int)
    ensures Step(timestamps, userId, now).0 <==>
      (userId !in timestamps || now - timestamps[userId] >= MinIntervalMs)
  {
  }

  /** After an admission: the user's entry is `now`; every entry is newer than
      one minute ago; every entry was there before with the same timestamp,
      apart from the user's own; and every other entry newer than the cutoff
      survives. */
  lemma AdmissionState(timestamps: map<int, int>, userId: int, now: int)
    requires Admits(timestamps, userId, now)
    ensures var m := Step(timestamps, userId, now).1;
      userId in m && m[userId] == now &&
      (forall u :: u in m ==> m[u] > now - RetentionMs) &&
      (forall u :: u in m && u != userId ==> u in timestamps && m[u] == timestamps[u]) &&
      (forall u :: u in timestamps && u != userId && timestamps[u] > now - RetentionMs ==> u in m)
  {
  }

  /** Pruning only removes entries. */
  lemma PruneOnlyRemoves(timestamps: map<int, int>, cutoff: int)
    ensures Pruned(timestamps, cutoff).Keys <= timestamps.Keys
    ensures forall u :: u in Pruned(timestamps, cutoff) ==> Pruned(timestamps, cutoff)[u] == timestamps[u]
  {
  }

  /** An entry older than the retention window is gone after an admission of
      any user. */
  lemma StaleEntryCollected(timestamps: map<int, int>, userId: int, other: int, now: int)
    requires Admits(timestamps, userId, now) && other != userId
    requires other in timestamps && timestamps[other] <= now - RetentionMs
    ensures other !in Step(timestamps, userId, now).1
  {
  }

  /** For a user admitted at t, requests at t, t + 0.3 s and t + 0.6 s are
      admitted, rejected, admitted:
      the rejection does not refresh the timestamp. */
  lemma SpacingExample(timestamps: map<int, int>, userId: int, t: int)
    requires Admits(timestamps, userId, t)
    ensures var s1 := Step(timestamps, userId, t);
      var s2 := Step(s1.1, userId, t + 300);
      var s3 := Step(s2.1, userId, t + 600);
      s1.0 && !s2.0 && s3.0 && s3.1[userId] == t + 600
  {
    var s1 := Step(timestamps, userId, t);
    assert s1.1[userId] == t;
    var s2 := Step(s1.1, userId, t + 300);
    assert s2.1 == s1.1;
  }
}
