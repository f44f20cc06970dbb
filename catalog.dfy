/**
  The learning catalog of src/data/lessons.ts: a three-level tree
  course -> topic ids -> lesson ids, with the lessons kept in a record keyed by id.
*/
module Catalog {
  import opened Builtins

  /** CEFR levels, in increasing order of difficulty. */
  datatype Level = A1 | A2 | B1 | B2

  /** A lesson's quiz, reduced to its number of options and the index of the right one. */
  datatype Exercise = Exercise(optionCount: nat, correctAnswer: int)

  /** A lesson, without its prose (key points, examples, media). */
  datatype Lesson = Lesson(id: string, title: string, description: string, difficulty: Level,
                           practiceExercise: Option<Exercise>)

  datatype Topic = Topic(id: string, name: string, lessons: seq<string>, difficulty: Level)

  datatype Course = Course(id: string, level: Level, topics: seq<string>, estimatedHours: nat)

  /**
    The three constants `lessons`, `topics` and `courses`. The `lessons` record is
    kept as its entries in iteration order, since the search reads it in that order.
  */
  datatype Catalog = Catalog(lessons: seq<(string, Lesson)>, topics: seq<Topic>, courses: seq<Course>)

  function Keys(entries: seq<(string, Lesson)>): (r: seq<string>)
    ensures |r| == |entries| && forall i :: 0 <= i < |entries| ==> r[i] == entries[i].0
  {
    seq(|entries|, i requires 0 <= i < |entries| => entries[i].0)
  }

  function TopicIds(topics: seq<Topic>): (r: seq<string>)
    ensures |r| == |topics| && forall i :: 0 <= i < |topics| ==> r[i] == topics[i].id
  {
    seq(|topics|, i requires 0 <= i < |topics| => topics[i].id)
  }

  /** Every topic's lesson list, in topic order. */
  function LessonLists(topics: seq<Topic>): (r: seq<seq<string>>)
    ensures |r| == |topics| && forall i :: 0 <= i < |topics| ==> r[i] == topics[i].lessons
  {
    seq(|topics|, i requires 0 <= i < |topics| => topics[i].lessons)
  }

  /** Every course's topic-id list, in course order. */
  function TopicLists(courses: seq<Course>): (r: seq<seq<string>>)
    ensures |r| == |courses| && forall i :: 0 <= i < |courses| ==> r[i] == courses[i].topics
  {
    seq(|courses|, i requires 0 <= i < |courses| => courses[i].topics)
  }

  // ---------------------------------------------------------------------------
  // The structural invariants the catalog data carries
  // ---------------------------------------------------------------------------

  /** Each record key is the `id` of the lesson stored under it, and keys are distinct. */
  ghost predicate KeysAreIds(c: Catalog)
  {
    && (forall i :: 0 <= i < |c.lessons| ==> c.lessons[i].0 == c.lessons[i].1.id)
    && (forall i, j :: 0 <= i < j < |c.lessons| ==> c.lessons[i].0 != c.lessons[j].0)
  }

  /** Every lesson id a topic lists is a key, and every key is listed exactly once in all. */
  ghost predicate LessonsFormTree(c: Catalog)
  {
    && (forall t, x :: t in c.topics && x in t.lessons ==> x in Keys(c.lessons))
    && (forall x :: x in Keys(c.lessons) ==> multiset(Flatten(LessonLists(c.topics)))[x] == 1)
  }

  /** Topic ids are distinct, each is listed by exactly one course, and every listed id exists. */
  ghost predicate TopicsFormTree(c: Catalog)
  {
    && (forall i, j :: 0 <= i < j < |c.topics| ==> c.topics[i].id != c.topics[j].id)
    && (forall t :: t in c.topics ==> multiset(Flatten(TopicLists(c.courses)))[t.id] == 1)
    && (forall co, y :: co in c.courses && y in co.topics ==> y in TopicIds(c.topics))
  }

  ghost predicate CourseIdsUnique(c: Catalog)
  {
    forall i, j :: 0 <= i < j < |c.courses| ==> c.courses[i].id != c.courses[j].id
  }

  /** A topic's difficulty is the level of the course that lists it. */
  ghost predicate LevelsAgree(c: Catalog)
  {
    forall co, t :: co in c.courses && t in c.topics && t.id in co.topics ==> t.difficulty == co.level
  }

  /** Every quiz's `correctAnswer` indexes one of its options. */
  ghost predicate AnswersInRange(c: Catalog)
  {
    forall e :: e in c.lessons && e.1.practiceExercise.Some? ==>
      0 <= e.1.practiceExercise.value.correctAnswer < e.1.practiceExercise.value.optionCount
  }

  ghost predicate WellFormed(c: Catalog)
  {
    KeysAreIds(c) && LessonsFormTree(c) && TopicsFormTree(c) && CourseIdsUnique(c) &&
    LevelsAgree(c) && AnswersInRange(c)
  }

  /**
    No lesson id occurs twice in the topics' lists: not in two topics, and not twice
    in one topic.
  */
  ghost predicate LessonsPartitioned(topics: seq<Topic>)
  {
    forall i, j, p, q ::
      (0 <= i < |topics| && 0 <= j < |topics| && 0 <= p < |topics[i].lessons| && 0 <= q < |topics[j].lessons| &&
       topics[i].lessons[p] == topics[j].lessons[q]) ==> i == j && p == q
  }

  lemma WellFormedPartitionsLessons(c: Catalog)
    requires WellFormed(c)
    ensures LessonsPartitioned(c.topics)
  {
    var ts := c.topics;
    forall i, j, p, q |
      0 <= i < |ts| && 0 <= j < |ts| && 0 <= p < |ts[i].lessons| && 0 <= q < |ts[j].lessons| &&
      ts[i].lessons[p] == ts[j].lessons[q]
      ensures i == j && p == q
    {
      var x := ts[i].lessons[p];
      assert x in ts[i].lessons;
      assert ts[i] in ts;
      assert x in Keys(c.lessons);
      var ls := LessonLists(ts);
      if i < j {
        assert x in ls[i] && x in ls[j];
        FlattenCountTwoLists(ls, i, j, x);
      } else if j < i {
        assert x in ls[i] && x in ls[j];
        FlattenCountTwoLists(ls, j, i, x);
      } else if p < q {
        TwoPositionsCount(ts[i].lessons, p, q);
        FlattenCountAtLeast(ls, i, x);
      } else if q < p {
        TwoPositionsCount(ts[i].lessons, q, p);
        FlattenCountAtLeast(ls, i, x);
      }
    }
  }

  /** A topic id is listed by at most one course, so two courses listing it are the same course. */
  lemma WellFormedTopicInOneCourse(c: Catalog, t: Topic, i: nat, j: nat)
    requires WellFormed(c)
    requires t in c.topics && i < |c.courses| && j < |c.courses|
    requires t.id in c.courses[i].topics && t.id in c.courses[j].topics
    ensures i == j
  {
    var tl := TopicLists(c.courses);
    if i < j {
      FlattenCountTwoLists(tl, i, j, t.id);
    } else if j < i {
      FlattenCountTwoLists(tl, j, i, t.id);
    }
  }

  // ---------------------------------------------------------------------------
  // Lookups
  // ---------------------------------------------------------------------------

  /** Topic `i` is the first, in array order, whose list includes lesson `x`. */
  predicate FirstTopicListing(topics: seq<Topic>, x: string, i: int)
  {
    0 <= i < |topics| && x in topics[i].lessons && forall k :: 0 <= k < i ==> x !in topics[k].lessons
  }

  /** Course `j` is the first, in array order, whose list includes topic id `y`. */
  predicate FirstCourseListing(courses: seq<Course>, y: string, j: int)
  {
    0 <= j < |courses| && y in courses[j].topics && forall k :: 0 <= k < j ==> y !in courses[k].topics
  }

  /** `getTopicById`: `topics.find(t => t.id === topicId)`. */
  function GetTopicById(c: Catalog, topicId: string): (r: Option<Topic>)
    ensures r.Some? ==> r.value in c.topics && r.value.id == topicId
    ensures r.None? <==> topicId !in TopicIds(c.topics)
  {
    Find(c.topics, (t: Topic) => t.id == topicId)
  }

  /** `getCourseById`: `courses.find(c => c.id === courseId)`. */
  function GetCourseById(c: Catalog, courseId: string): (r: Option<Course>)
    ensures r.Some? ==> r.value in c.courses && r.value.id == courseId
    ensures r.None? <==> forall co :: co in c.courses ==> co.id != courseId
  {
    Find(c.courses, (co: Course) => co.id == courseId)
  }

  /** With distinct topic ids, `getTopicById` finds a topic exactly when it is that topic's id. */
  lemma GetTopicByIdExact(c: Catalog, topicId: string, t: Topic)
    requires forall i, j :: 0 <= i < j < |c.topics| ==> c.topics[i].id != c.topics[j].id
    ensures GetTopicById(c, topicId) == Some(t) <==> t in c.topics && t.id == topicId
  {
    if t in c.topics && t.id == topicId {
      var r := GetTopicById(c, topicId);
      var k :| 0 <= k < |c.topics| && c.topics[k] == t;
      assert TopicIds(c.topics)[k] == topicId;
      var i :| 0 <= i < |c.topics| && c.topics[i] == r.value && c.topics[i].id == topicId &&
               forall j :: 0 <= j < i ==> c.topics[j].id != topicId;
      assert i == k;
    }
  }

  /** With distinct course ids, `getCourseById` finds a course exactly when it is that course's id. */
  lemma GetCourseByIdExact(c: Catalog, courseId: string, co: Course)
    requires CourseIdsUnique(c)
    ensures GetCourseById(c, courseId) == Some(co) <==> co in c.courses && co.id == courseId
  {
    if co in c.courses && co.id == courseId {
      var r := GetCourseById(c, courseId);
      var k :| 0 <= k < |c.courses| && c.courses[k] == co;
      var i :| 0 <= i < |c.courses| && c.courses[i] == r.value && c.courses[i].id == courseId &&
               forall j :: 0 <= j < i ==> c.courses[j].id != courseId;
      assert i == k;
    }
  }

  // ---------------------------------------------------------------------------
  // getCourseLessons
  // ---------------------------------------------------------------------------

  /** The lessons of the topics named by `ids`, in that order; unknown ids add nothing. */
  function LessonsOfTopicIds(c: Catalog, ids: seq<string>): seq<string>
  {
    if |ids| == 0 then []
    else
      LessonsOfTopicIds(c, ids[..|ids| - 1]) +
      match GetTopicById(c, ids[|ids| - 1])
      case Some(t) => t.lessons
      case None => []
  }

  /** What `getCourseLessons(courseId)` returns. */
  function CourseLessons(c: Catalog, courseId: string): (r: seq<string>)
    ensures (forall co :: co in c.courses ==> co.id != courseId) ==> r == []
  {
    match GetCourseById(c, courseId)
    case None => []
    case Some(co) => LessonsOfTopicIds(c, co.topics)
  }

  /** `getCourseLessons`: looks the course up, then pushes each known topic's lessons in turn. */
  method GetCourseLessons(c: Catalog, courseId: string) returns (allLessons: seq<string>)
    ensures allLessons == CourseLessons(c, courseId)
  {
    var course := GetCourseById(c, courseId);
    if course.None? {
      return [];
    }
    var ids := course.value.topics;
    allLessons := [];
    var i := 0;
    while i < |ids|
      invariant 0 <= i <= |ids|
      invariant allLessons == LessonsOfTopicIds(c, ids[..i])
    {
      assert ids[..i + 1][..i] == ids[..i];
      var topic := GetTopicById(c, ids[i]);
      if topic.Some? {
        allLessons := allLessons + topic.value.lessons;
      }
      i := i + 1;
    }
    assert ids[..i] == ids;
  }

  /** The topic id `id` resolves to a topic that lists lesson `x`. */
  predicate NamesTopicWith(c: Catalog, id: string, x: string)
  {
    GetTopicById(c, id).Some? && x in GetTopicById(c, id).value.lessons
  }

  /** A lesson id is in the list exactly when some named id resolves to a topic listing it. */
  lemma {:induction false} LessonsOfTopicIdsMembership(c: Catalog, ids: seq<string>, x: string)
    ensures x in LessonsOfTopicIds(c, ids) <==> exists k :: 0 <= k < |ids| && NamesTopicWith(c, ids[k], x)
  {
    if |ids| > 0 {
      var front := ids[..|ids| - 1];
      var last := ids[|ids| - 1];
      LessonsOfTopicIdsMembership(c, front, x);
      assert x in LessonsOfTopicIds(c, ids) <==> x in LessonsOfTopicIds(c, front) || NamesTopicWith(c, last, x);
      if exists k :: 0 <= k < |front| && NamesTopicWith(c, front[k], x) {
        var k :| 0 <= k < |front| && NamesTopicWith(c, front[k], x);
        assert ids[k] == front[k];
      }
      if exists k :: 0 <= k < |ids| && NamesTopicWith(c, ids[k], x) {
        var k :| 0 <= k < |ids| && NamesTopicWith(c, ids[k], x);
        if k < |ids| - 1 {
          assert front[k] == ids[k];
        }
      }
    }
  }

  /** The lesson `x` belongs to course `co`: some topic of `co` lists it. */
  ghost predicate InCourse(c: Catalog, co: Course, x: string)
  {
    exists t :: t in c.topics && t.id in co.topics && x in t.lessons
  }

  /**
    In a well-formed catalog, `getCourseLessons(co.id)` lists exactly the lessons of
    the course's topics.
  */
  lemma CourseLessonsMembership(c: Catalog, co: Course, x: string)
    requires WellFormed(c) && co in c.courses
    ensures x in CourseLessons(c, co.id) <==> InCourse(c, co, x)
  {
    GetCourseByIdExact(c, co.id, co);
    LessonsOfTopicIdsMembership(c, co.topics, x);
    if x in CourseLessons(c, co.id) {
      var k :| 0 <= k < |co.topics| && NamesTopicWith(c, co.topics[k], x);
      var t := GetTopicById(c, co.topics[k]).value;
      assert t in c.topics && t.id in co.topics && x in t.lessons;
    }
    if InCourse(c, co, x) {
      var t :| t in c.topics && t.id in co.topics && x in t.lessons;
      GetTopicByIdExact(c, t.id, t);
      var k :| 0 <= k < |co.topics| && co.topics[k] == t.id;
      assert GetTopicById(c, co.topics[k]) == Some(t);
    }
  }

  /** In a well-formed catalog every lesson is listed by a topic of some course. */
  lemma EveryLessonInSomeCourse(c: Catalog, x: string)
    requires WellFormed(c) && x in Keys(c.lessons)
    ensures exists co :: co in c.courses && InCourse(c, co, x)
  {
    var ls := LessonLists(c.topics);
    FlattenMembership(ls, x);
    var i :| 0 <= i < |ls| && x in ls[i];
    var t := c.topics[i];
    assert t in c.topics;
    var tl := TopicLists(c.courses);
    assert multiset(Flatten(tl))[t.id] == 1;
    FlattenMembership(tl, t.id);
    var j :| 0 <= j < |tl| && t.id in tl[j];
    assert c.courses[j] in c.courses && InCourse(c, c.courses[j], x);
  }

  /** In a well-formed catalog no lesson is listed by topics of two different courses. */
  lemma LessonInAtMostOneCourse(c: Catalog, x: string, co1: Course, co2: Course)
    requires WellFormed(c) && co1 in c.courses && co2 in c.courses
    requires InCourse(c, co1, x) && InCourse(c, co2, x)
    ensures co1 == co2
  {
    WellFormedPartitionsLessons(c);
    var t1 :| t1 in c.topics && t1.id in co1.topics && x in t1.lessons;
    var t2 :| t2 in c.topics && t2.id in co2.topics && x in t2.lessons;
    SameTopicForLesson(c.topics, t1, t2, x);
    var i1 :| 0 <= i1 < |c.courses| && c.courses[i1] == co1;
    var i2 :| 0 <= i2 < |c.courses| && c.courses[i2] == co2;
    WellFormedTopicInOneCourse(c, t1, i1, i2);
  }

  /** When lessons are partitioned, two topics listing the same lesson are one topic. */
  lemma SameTopicForLesson(topics: seq<Topic>, t1: Topic, t2: Topic, x: string)
    requires LessonsPartitioned(topics)
    requires t1 in topics && t2 in topics && x in t1.lessons && x in t2.lessons
    ensures t1 == t2
  {
    var i :| 0 <= i < |topics| && topics[i] == t1;
    var j :| 0 <= j < |topics| && topics[j] == t2;
    var p :| 0 <= p < |t1.lessons| && t1.lessons[p] == x;
    var q :| 0 <= q < |t2.lessons| && t2.lessons[q] == x;
    assert topics[i].lessons[p] == topics[j].lessons[q];
  }
}
