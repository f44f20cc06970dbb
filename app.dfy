/**
  The logic of the application shell, src/App.tsx: which course the current view
  belongs to, the lesson search, which chrome is visible, and the session
  transitions of login, sign-up and logout.
*/
module AppShell {
  import opened Builtins
  import opened Catalog
  import opened Stores

  /** The course shown when the view names neither a course nor a known lesson. */
  const DefaultCourse: string := "course-a1"

  /** The most search results shown. */
  const MaxResults: nat := 5

  predicate IsCourseView(view: string)
  {
    StartsWith(view, "course-")
  }

  // ---------------------------------------------------------------------------
  // getCurrentCourse
  // ---------------------------------------------------------------------------

  /**
    `getCurrentCourse`: a course view is its own course; a lesson view resolves
    lesson -> first topic listing it -> first course listing that topic; anything
    else falls back to the A1 course.
  */
  function GetCurrentCourse(c: Catalog, currentView: string): (r: string)
    ensures IsCourseView(currentView) ==> r == currentView
    ensures !IsCourseView(currentView) && currentView !in Keys(c.lessons) ==> r == DefaultCourse
    ensures !IsCourseView(currentView) && (forall i :: 0 <= i < |c.topics| ==> currentView !in c.topics[i].lessons) ==>
      r == DefaultCourse
    ensures r == currentView || r == DefaultCourse || exists co :: co in c.courses && co.id == r
  {
    if IsCourseView(currentView) then currentView
    else if currentView in Keys(c.lessons) then
      match Find(c.topics, (t: Topic) => currentView in t.lessons)
      case None => DefaultCourse
      case Some(topic) =>
        match Find(c.courses, (co: Course) => topic.id in co.topics)
        case None => DefaultCourse
        case Some(course) => course.id
    else DefaultCourse
  }

  /**
    A lesson view resolves through the first topic listing the lesson: to the first
    course listing that topic, or to the default course when no course lists it.
  */
  lemma CurrentCourseOfLessonView(c: Catalog, view: string, i: nat)
    requires !IsCourseView(view) && view in Keys(c.lessons) && FirstTopicListing(c.topics, view, i)
    ensures forall j :: FirstCourseListing(c.courses, c.topics[i].id, j) ==> GetCurrentCourse(c, view) == c.courses[j].id
    ensures (forall j :: 0 <= j < |c.courses| ==> c.topics[i].id !in c.courses[j].topics) ==>
      GetCurrentCourse(c, view) == DefaultCourse
  {
    var topic := Find(c.topics, (t: Topic) => view in t.lessons);
    var i' :| 0 <= i' < |c.topics| && c.topics[i'] == topic.value && view in c.topics[i'].lessons &&
              forall k :: 0 <= k < i' ==> view !in c.topics[k].lessons;
    assert i' == i;
    var y := c.topics[i].id;
    forall j | FirstCourseListing(c.courses, y, j)
      ensures GetCurrentCourse(c, view) == c.courses[j].id
    {
      var course := Find(c.courses, (co: Course) => y in co.topics);
      var j' :| 0 <= j' < |c.courses| && c.courses[j'] == course.value && y in c.courses[j'].topics &&
                forall k :: 0 <= k < j' ==> y !in c.courses[k].topics;
      assert j' == j;
    }
  }

  /**
    In a well-formed catalog, a lesson view resolves to the one course whose topics
    list the lesson.
  */
  lemma CurrentCourseOfLesson(c: Catalog, view: string, co: Course)
    requires WellFormed(c) && view in Keys(c.lessons) && !IsCourseView(view)
    requires co in c.courses && InCourse(c, co, view)
    ensures GetCurrentCourse(c, view) == co.id
  {
    WellFormedPartitionsLessons(c);
    var t :| t in c.topics && t.id in co.topics && view in t.lessons;
    var i := FirstTopicListingExists(c.topics, t, view);
    SameTopicForLesson(c.topics, t, c.topics[i], view);
    var k :| 0 <= k < |c.courses| && c.courses[k] == co;
    var j := FirstCourseListingExists(c.courses, co, t.id);
    WellFormedTopicInOneCourse(c, t, j, k);
    CurrentCourseOfLessonView(c, view, i);
  }

  lemma FirstTopicListingExists(topics: seq<Topic>, t: Topic, x: string) returns (i: nat)
    requires t in topics && x in t.lessons
    ensures FirstTopicListing(topics, x, i)
  {
    var found := Find(topics, (t': Topic) => x in t'.lessons);
    i :| 0 <= i < |topics| && topics[i] == found.value && x in topics[i].lessons &&
         forall k :: 0 <= k < i ==> x !in topics[k].lessons;
  }

  lemma FirstCourseListingExists(courses: seq<Course>, co: Course, y: string) returns (j: nat)
    requires co in courses && y in co.topics
    ensures FirstCourseListing(courses, y, j)
  {
    var found := Find(courses, (co': Course) => y in co'.topics);
    j :| 0 <= j < |courses| && courses[j] == found.value && y in courses[j].topics &&
         forall k :: 0 <= k < j ==> y !in courses[k].topics;
  }

  /**
    In a well-formed catalog, the course resolved for a lesson view is one whose
    `getCourseLessons` list holds that lesson.
  */
  lemma CurrentCourseListsLesson(c: Catalog, view: string)
    requires WellFormed(c) && view in Keys(c.lessons) && !IsCourseView(view)
    ensures view in CourseLessons(c, GetCurrentCourse(c, view))
  {
    EveryLessonInSomeCourse(c, view);
    var co :| co in c.courses && InCourse(c, co, view);
    CurrentCourseOfLesson(c, view, co);
    CourseLessonsMembership(c, co, view);
  }

  // ---------------------------------------------------------------------------
  // searchLessons
  // ---------------------------------------------------------------------------

  datatype SearchHit = SearchHit(id: string, title: string, description: string, difficulty: Level)

  function HitOf(entry: (string, Lesson)): SearchHit
  {
    SearchHit(entry.0, entry.1.title, entry.1.description, entry.1.difficulty)
  }

  /** The lowercased title or description contains the (already lowercased) query. */
  predicate MatchesQuery(lesson: Lesson, query: string)
  {
    Contains(Lower(lesson.title), query) || Contains(Lower(lesson.description), query)
  }

  /** Every matching entry, in iteration order: the array the search fills before slicing. */
  function Hits(entries: seq<(string, Lesson)>, query: string): seq<SearchHit>
  {
    if |entries| == 0 then []
    else
      var last := entries[|entries| - 1];
      Hits(entries[..|entries| - 1], query) + (if MatchesQuery(last.1, query) then [HitOf(last)] else [])
  }

  /** `slice(0, n)` */
  function Take<T>(s: seq<T>, n: nat): (r: seq<T>)
    ensures |r| <= n && r <= s
    ensures |s| <= n ==> r == s
  {
    if |s| <= n then s else s[..n]
  }

  /** A hit is exactly a matching entry's summary. */
  lemma {:induction false} HitsMembership(entries: seq<(string, Lesson)>, query: string, h: SearchHit)
    ensures h in Hits(entries, query) <==>
      exists i :: 0 <= i < |entries| && MatchesQuery(entries[i].1, query) && h == HitOf(entries[i])
  {
    if |entries| > 0 {
      var front := entries[..|entries| - 1];
      HitsMembership(front, query, h);
      if exists i :: 0 <= i < |front| && MatchesQuery(front[i].1, query) && h == HitOf(front[i]) {
        var i :| 0 <= i < |front| && MatchesQuery(front[i].1, query) && h == HitOf(front[i]);
        assert entries[i] == front[i];
      }
      if exists i :: 0 <= i < |entries| && MatchesQuery(entries[i].1, query) && h == HitOf(entries[i]) {
        var i :| 0 <= i < |entries| && MatchesQuery(entries[i].1, query) && h == HitOf(entries[i]);
        if i < |front| {
          assert front[i] == entries[i];
        }
      }
    }
  }

  /** Hits keep the record's order: the hits of a concatenation are the concatenated hits. */
  lemma {:induction false} HitsAppend(a: seq<(string, Lesson)>, b: seq<(string, Lesson)>, query: string)
    ensures Hits(a + b, query) == Hits(a, query) + Hits(b, query)
  {
    if |b| > 0 {
      var b' := b[..|b| - 1];
      assert (a + b)[..|a + b| - 1] == a + b';
      HitsAppend(a, b', query);
    } else {
      assert a + b == a;
    }
  }

  /**
    `searchLessons`: nothing for a blank query; otherwise each record entry whose
    lowercased title or description contains the lowercased, untrimmed query, in
    iteration order, at most five.
  */
  method SearchLessons(lessons: seq<(string, Lesson)>, searchQuery: string) returns (results: seq<SearchHit>)
    ensures IsBlank(searchQuery) ==> results == []
    ensures !IsBlank(searchQuery) ==> results == Take(Hits(lessons, Lower(searchQuery)), MaxResults)
    ensures |results| <= MaxResults
    ensures forall h :: h in results ==>
      exists e :: e in lessons && MatchesQuery(e.1, Lower(searchQuery)) && h == HitOf(e)
  {
    if IsBlank(searchQuery) {
      return [];
    }
    var query := Lower(searchQuery);
    var found: seq<SearchHit> := [];
    for i := 0 to |lessons|
      invariant found == Hits(lessons[..i], query)
    {
      assert lessons[..i + 1][..i] == lessons[..i];
      var entry := lessons[i];
      if MatchesQuery(entry.1, query) {
        found := found + [HitOf(entry)];
      }
    }
    assert lessons[..|lessons|] == lessons;
    results := Take(found, MaxResults);
    forall h | h in results
      ensures exists e :: e in lessons && MatchesQuery(e.1, query) && h == HitOf(e)
    {
      assert h in found;
      HitsMembership(lessons, query, h);
      var i :| 0 <= i < |lessons| && MatchesQuery(lessons[i].1, query) && h == HitOf(lessons[i]);
      assert lessons[i] in lessons;
    }
  }

  // ---------------------------------------------------------------------------
  // What is visible
  // ---------------------------------------------------------------------------

  /** The signed-in user held by the shell. */
  datatype SessionUser = SessionUser(username: string, email: Option<string>, role: Role)

  /** `showMainUI`: navigation and footer, for a signed-in user outside the entry pages. */
  function ShowMainUI(user: Option<SessionUser>, currentView: string): (r: bool)
    ensures r ==> user.Some?
    ensures user.Some? && IsCourseView(currentView) ==> r
  {
    assert IsCourseView(currentView) ==> currentView[0] == 'c' by {
      if IsCourseView(currentView) {
        assert currentView[..7][0] == currentView[0];
      }
    }
    user.Some? && currentView !in {"login", "signup", "welcome"}
  }

  /**
    `showSidebar`: a signed-in user on a lesson or other content view, not on a course
    view nor on one of the full-width pages. The sidebar is drawn with the main UI.
  */
  function ShowSidebar(user: Option<SessionUser>, currentView: string): (r: bool)
    ensures r <==> ShowMainUI(user, currentView) && !IsCourseView(currentView) &&
                   currentView !in {"home", "progress", "coach", "account", "admin"}
  {
    user.Some? &&
    currentView != "home" && currentView != "welcome" && currentView != "progress" &&
    currentView != "coach" && currentView != "login" && currentView != "signup" &&
    currentView != "account" && currentView != "admin" && !IsCourseView(currentView)
  }

  /** The admin item of the user menu, for administrators and moderators only. */
  function ShowAdminMenu(user: SessionUser): (r: bool)
    ensures r <==> user.role != User
  {
    user.role == Admin || user.role == Moderator
  }

  // ---------------------------------------------------------------------------
  // Session transitions
  // ---------------------------------------------------------------------------

  /** The role given to a new account: administrator exactly for the name "admin" in any case. */
  function RoleForName(username: string): (r: Role)
    ensures r != Moderator
  {
    if Lower(username) == "admin" then Admin else User
  }

  /** The name is "admin" up to the case of its letters. */
  predicate IsAdminName(username: string)
  {
    |username| == 5 && forall i :: 0 <= i < 5 ==> username[i] == "admin"[i] || username[i] == "ADMIN"[i]
  }

  lemma RoleForNameIsCaseInsensitive(username: string)
    ensures RoleForName(username) == Admin <==> IsAdminName(username)
  {
    if IsAdminName(username) {
      var low := Lower(username);
      forall i | 0 <= i < 5 ensures low[i] == "admin"[i] {
        assert low[i] == LowerChar(username[i]);
      }
      assert low == "admin";
    }
    if RoleForName(username) == Admin {
      var low := Lower(username);
      assert |username| == 5;
      forall i | 0 <= i < 5 ensures username[i] == "admin"[i] || username[i] == "ADMIN"[i] {
        assert low[i] == "admin"[i];
        assert low[i] == LowerChar(username[i]);
      }
    }
  }

  /** `profile?.role || 'user'`: the stored role, or an ordinary user without one. */
  function LoginRole(stored: Option<UserProfile>): (r: Role)
    ensures stored.None? ==> r == User
    ensures stored.Some? && stored.value.role.Some? ==> r == stored.value.role.value
    ensures stored.Some? && stored.value.role.None? ==> r == User
    ensures r != User ==> stored.Some? && stored.value.role == Some(r)
  {
    if stored.Some? && stored.value.role.Some? then stored.value.role.value else User
  }

  /** What `createUserProfile(username, email, { role })` stores for a new profile. */
  function NewProfile(username: string, email: string, role: Role, joinDate: string): UserProfile
  {
    UserProfile(username, email, None, None, None, Some(joinDate), Some(role))
  }

  /**
    The shell's state: the current view, the signed-in user, the search box, and
    the record the profile store holds (read by `getUserProfile`).
  */
  class Session {
    var currentView: string
    var user: Option<SessionUser>
    var searchQuery: string
    var showSearchResults: bool
    var stored: Option<UserProfile>

    /** A signed-in session always has a stored profile. */
    ghost predicate Valid()
      reads this
    {
      user.Some? ==> stored.Some?
    }

    /** The shell as first rendered, over whatever profile the store already holds. */
    constructor (stored: Option<UserProfile>)
      ensures Valid()
      ensures currentView == "welcome" && user.None? && searchQuery == "" && !showSearchResults
      ensures this.stored == stored
      ensures !ShowMainUI(user, currentView)
    {
      currentView := "welcome";
      user := None;
      searchQuery := "";
      showSearchResults := false;
      this.stored := stored;
    }

    /**
      `handleLogin`: the session takes the stored role (or "user"); a profile is
      created, with the name-derived role, only when none is stored; the view goes home.
    */
    method HandleLogin(username: string, now: string)
      modifies this
      ensures Valid()
      ensures user == Some(SessionUser(username, None, LoginRole(old(stored))))
      ensures stored == if old(stored).None? then Some(NewProfile(username, "", RoleForName(username), now))
                        else old(stored)
      ensures currentView == "home"
      ensures searchQuery == old(searchQuery) && showSearchResults == old(showSearchResults)
      ensures ShowMainUI(user, currentView) && !ShowSidebar(user, currentView)
    {
      var profile := stored;
      var role := LoginRole(profile);
      user := Some(SessionUser(username, None, role));
      if profile.None? {
        stored := Some(NewProfile(username, "", RoleForName(username), now));
      }
      currentView := "home";
    }

    /**
      `handleSignUp`: the session and the new profile both get the name-derived role;
      the view goes home.
    */
    method HandleSignUp(username: string, email: string, now: string)
      modifies this
      ensures Valid()
      ensures user == Some(SessionUser(username, Some(email), RoleForName(username)))
      ensures stored == if old(stored).None? then Some(NewProfile(username, email, RoleForName(username), now))
                        else old(stored)
      ensures currentView == "home"
      ensures searchQuery == old(searchQuery) && showSearchResults == old(showSearchResults)
      ensures ShowMainUI(user, currentView) && !ShowSidebar(user, currentView)
    {
      var role := RoleForName(username);
      user := Some(SessionUser(username, Some(email), role));
      if stored.None? {
        stored := Some(NewProfile(username, email, role, now));
      }
      currentView := "home";
    }

    /** `handleLogout`: no user, no stored profile, back to the welcome page. */
    method HandleLogout()
      modifies this
      ensures Valid()
      ensures user.None? && stored.None? && currentView == "welcome"
      ensures searchQuery == old(searchQuery) && showSearchResults == old(showSearchResults)
      ensures !ShowMainUI(user, currentView) && !ShowSidebar(user, currentView)
    {
      user := None;
      stored := None;
      currentView := "welcome";
    }

    /** `handleSearchSelect`: open the chosen lesson and close the search. */
    method HandleSearchSelect(lessonId: string)
      requires Valid()
      modifies this
      ensures Valid()
      ensures currentView == lessonId && searchQuery == "" && !showSearchResults
      ensures user == old(user) && stored == old(stored)
      ensures ShowMainUI(user, currentView) <==> user.Some? && lessonId !in {"login", "signup", "welcome"}
    {
      currentView := lessonId;
      searchQuery := "";
      showSearchResults := false;
    }
  }

  /**
    A first login as "admin" on a browser with no stored profile: the session runs
    with role "user" while the profile created for it records "admin".
  */
  method FirstLoginAsAdmin(now: string) returns (sessionRole: Role, storedRole: Option<Role>)
    ensures sessionRole == User && storedRole == Some(Admin)
  {
    var s := new Session(None);
    s.HandleLogin("admin", now);
    sessionRole := s.user.value.role;
    storedRole := s.stored.value.role;
  }

  /**
    Signing in and then out: the main UI appears with the sign-in, whatever the name,
    and is gone again after the logout.
  */
  method SignInThenOut(username: string, now: string) returns (afterLogin: bool, afterLogout: bool)
    ensures afterLogin && !afterLogout
  {
    var s := new Session(None);
    s.HandleLogin(username, now);
    afterLogin := ShowMainUI(s.user, s.currentView);
    s.HandleLogout();
    afterLogout := ShowMainUI(s.user, s.currentView);
  }

  /** After login or sign-up the home page shows the main UI and no sidebar. */
  lemma HomeAfterSignIn(user: SessionUser)
    ensures ShowMainUI(Some(user), "home") && !ShowSidebar(Some(user), "home")
  {
  }
}
