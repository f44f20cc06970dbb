/**
  The records that the progress store and the profile store hand to the pages.
  The stores themselves (src/utils/progressTracker and src/utils/userProfile) are
  not part of this model; only the shapes their readers rely on are.
*/
module Stores {
  import opened Builtins

  datatype Role = User | Moderator | Admin

  datatype Sex = Male | Female | Other | PreferNotToSay

  /** A stored profile; `role` may be missing from an old record. */
  datatype UserProfile = UserProfile(
    username: string,
    email: string,
    birthdate: Option<string>,
    sex: Option<Sex>,
    phoneNumber: Option<string>,
    joinDate: Option<string>,
    role: Option<Role>)

  datatype TopicProgress = TopicProgress(completed: int, total: int, percentage: int)

  /**
    A user's progress. The store's JavaScript objects (`timeSpent`, `quizScores`,
    `topicProgress`) are kept as their entries, in iteration order.
  */
  datatype UserProgress = UserProgress(
    completedLessons: seq<string>,
    timeSpent: seq<(string, int)>,
    quizScores: seq<(string, int)>,
    topicProgress: seq<(string, TopicProgress)>,
    studyStreak: int)

  /** The values of an object's entries, in order (`Object.values`). */
  function Values<V>(entries: seq<(string, V)>): (r: seq<V>)
    ensures |r| == |entries| && forall i :: 0 <= i < |entries| ==> r[i] == entries[i].1
  {
    seq(|entries|, i requires 0 <= i < |entries| => entries[i].1)
  }

  /** Property access `obj[key]` on an object given by its entries. */
  function Lookup<V>(entries: seq<(string, V)>, key: string): (r: Option<V>)
    ensures r.Some? ==> exists i :: 0 <= i < |entries| && entries[i] == (key, r.value)
    ensures r.None? <==> forall i :: 0 <= i < |entries| ==> entries[i].0 != key
  {
    match Find(entries, (e: (string, V)) => e.0 == key)
    case None => None
    case Some(e) => Some(e.1)
  }
}
