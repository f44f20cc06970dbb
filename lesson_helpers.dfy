/**
  In-topic navigation of src/utils/lessonHelpers.ts: which topic holds a lesson,
  and the lesson before and after it in that topic's list.
*/
module LessonHelpers {
  import opened Builtins
  import opened Catalog

  /** The object `findTopicByLessonId` returns. */
  datatype TopicMatch = TopicMatch(topicId: string, topicName: string, topicLessons: seq<string>)

  function MatchOf(t: Topic): TopicMatch
  {
    TopicMatch(t.id, t.name, t.lessons)
  }

  /** `findTopicByLessonId`: the first topic, in array order, whose list includes the lesson. */
  function FindTopicByLessonId(topics: seq<Topic>, lessonId: string): (r: Option<TopicMatch>)
    ensures r.None? <==> forall j :: 0 <= j < |topics| ==> lessonId !in topics[j].lessons
    ensures r.Some? ==> exists i :: FirstTopicListing(topics, lessonId, i) && r.value == MatchOf(topics[i])
    ensures r.Some? ==> lessonId in r.value.topicLessons
  {
    match Find(topics, (t: Topic) => lessonId in t.lessons)
    case None => None
    case Some(t) => Some(MatchOf(t))
  }

  /** `getNextLesson`: the lesson after this one in its topic, or null. */
  function GetNextLesson(topics: seq<Topic>, currentLessonId: string): (r: Option<string>)
    ensures var f := FindTopicByLessonId(topics, currentLessonId);
      r.None? <==> (f.None? || (var l := f.value.topicLessons;
                                |l| > 0 && l[|l| - 1] == currentLessonId && currentLessonId !in l[..|l| - 1]))
    ensures r.Some? ==> var l := FindTopicByLessonId(topics, currentLessonId).value.topicLessons;
      exists k :: 0 <= k < |l| - 1 && l[k] == currentLessonId && currentLessonId !in l[..k] && r.value == l[k + 1]
  {
    match FindTopicByLessonId(topics, currentLessonId)
    case None => None
    case Some(topic) =>
      var l := topic.topicLessons;
      match IndexOf(l, currentLessonId)
      case None => None
      case Some(currentIndex) =>
        if currentIndex == |l| - 1 then
          assert l[..|l| - 1] == l[..currentIndex];
          None
        else
          assert currentLessonId in l[..currentIndex + 1];
          assert l[..currentIndex + 1] <= l[..|l| - 1];
          Some(l[currentIndex + 1])
  }

  /** `getPreviousLesson`: the lesson before this one in its topic, or null. */
  function GetPreviousLesson(topics: seq<Topic>, currentLessonId: string): (r: Option<string>)
    ensures var f := FindTopicByLessonId(topics, currentLessonId);
      r.None? <==> (f.None? || f.value.topicLessons[0] == currentLessonId)
    ensures r.Some? ==> var l := FindTopicByLessonId(topics, currentLessonId).value.topicLessons;
      exists k :: 1 <= k < |l| && l[k] == currentLessonId && currentLessonId !in l[..k] && r.value == l[k - 1]
  {
    match FindTopicByLessonId(topics, currentLessonId)
    case None => None
    case Some(topic) =>
      var l := topic.topicLessons;
      match IndexOf(l, currentLessonId)
      case None => None
      case Some(currentIndex) =>
        if currentIndex == 0 then None
        else Some(l[currentIndex - 1])
  }

  /** When lessons are partitioned, the topic found for a listed lesson is the one listing it. */
  lemma FindTopicOfListedLesson(topics: seq<Topic>, i: nat, p: nat)
    requires LessonsPartitioned(topics)
    requires i < |topics| && p < |topics[i].lessons|
    ensures FindTopicByLessonId(topics, topics[i].lessons[p]) == Some(MatchOf(topics[i]))
    ensures IndexOf(topics[i].lessons, topics[i].lessons[p]) == Some(p)
  {
    var x := topics[i].lessons[p];
    var f := FindTopicByLessonId(topics, x);
    var i' :| FirstTopicListing(topics, x, i') && f.value == MatchOf(topics[i']);
    var q :| 0 <= q < |topics[i'].lessons| && topics[i'].lessons[q] == x;
    assert topics[i].lessons[p] == topics[i'].lessons[q];
    var k := IndexOf(topics[i].lessons, x);
    assert topics[i].lessons[p] == topics[i].lessons[k.value];
  }

  /** When lessons are partitioned, the neighbours of a listed lesson are those in its list. */
  lemma NeighboursAt(topics: seq<Topic>, i: nat, k: nat)
    requires LessonsPartitioned(topics)
    requires i < |topics| && k < |topics[i].lessons|
    ensures var l := topics[i].lessons;
      GetNextLesson(topics, l[k]) == (if k + 1 < |l| then Some(l[k + 1]) else None)
    ensures var l := topics[i].lessons;
      GetPreviousLesson(topics, l[k]) == (if k > 0 then Some(l[k - 1]) else None)
  {
    FindTopicOfListedLesson(topics, i, k);
  }

  /** A lesson some topic lists sits at a position of the first topic listing it. */
  lemma ListedLessonPosition(topics: seq<Topic>, x: string) returns (i: nat, k: nat)
    requires FindTopicByLessonId(topics, x).Some?
    ensures i < |topics| && k < |topics[i].lessons| && topics[i].lessons[k] == x
  {
    var i' :| FirstTopicListing(topics, x, i') && FindTopicByLessonId(topics, x).value == MatchOf(topics[i']);
    i := i';
    k :| 0 <= k < |topics[i].lessons| && topics[i].lessons[k] == x;
  }

  /**
    Going forward then back returns to the same lesson, and conversely, when every
    lesson is listed once in all topics.
  */
  lemma NextPreviousRoundTrip(topics: seq<Topic>, a: string, b: string)
    requires LessonsPartitioned(topics)
    ensures GetNextLesson(topics, a) == Some(b) <==> GetPreviousLesson(topics, b) == Some(a)
  {
    if GetNextLesson(topics, a) == Some(b) {
      var i, k := ListedLessonPosition(topics, a);
      NeighboursAt(topics, i, k);
      NeighboursAt(topics, i, k + 1);
    }
    if GetPreviousLesson(topics, b) == Some(a) {
      var i, k := ListedLessonPosition(topics, b);
      NeighboursAt(topics, i, k);
      NeighboursAt(topics, i, k - 1);
    }
  }

  /**
    Navigation never leaves the topic: when lessons are partitioned, the next lesson
    resolves to the same topic as the current one.
  */
  lemma NextStaysInTopic(topics: seq<Topic>, a: string)
    requires LessonsPartitioned(topics) && GetNextLesson(topics, a).Some?
    ensures FindTopicByLessonId(topics, GetNextLesson(topics, a).value) == FindTopicByLessonId(topics, a)
  {
    var i, k := ListedLessonPosition(topics, a);
    NeighboursAt(topics, i, k);
    FindTopicOfListedLesson(topics, i, k);
    FindTopicOfListedLesson(topics, i, k + 1);
  }

  /** Likewise the previous lesson resolves to the same topic as the current one. */
  lemma PreviousStaysInTopic(topics: seq<Topic>, a: string)
    requires LessonsPartitioned(topics) && GetPreviousLesson(topics, a).Some?
    ensures FindTopicByLessonId(topics, GetPreviousLesson(topics, a).value) == FindTopicByLessonId(topics, a)
  {
    var i, k := ListedLessonPosition(topics, a);
    NeighboursAt(topics, i, k);
    FindTopicOfListedLesson(topics, i, k);
    FindTopicOfListedLesson(topics, i, k - 1);
  }
}
