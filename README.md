# English-learning app: catalog, navigation, shell and account logic in Dafny

This project models the deterministic logic of an English-learning web app:

- **The learning catalog** of `src/data/lessons.ts`. It is a three-level tree: courses list topic ids, topics list lesson ids, and lessons sit in a record keyed by id. The catalog's lookups `getTopicById`, `getCourseById` and `getCourseLessons` are modelled.
- **In-topic navigation** of `src/utils/lessonHelpers.ts`: `findTopicByLessonId`, `getNextLesson` and `getPreviousLesson`.
- **The application shell** of `src/App.tsx`:
  - the course a view belongs to;
  - the lesson search, capped at five results;
  - which chrome is visible;
  - login, sign-up, logout and search-select as transitions of the shell's state.
- **The account page** of `frontend/components/AccountPage.tsx`:
  - validating, saving and cancelling the profile form;
  - the learning statistics;
  - the membership-duration bucketing.

The catalog's structural invariants are one predicate, `Catalog.WellFormed`. It says that:

- every record key is its lesson's id;
- every lesson is listed by exactly one topic;
- every topic is listed by exactly one course;
- a topic's difficulty is its course's level;
- every quiz answer index is in range.

The navigation and course-resolution results are proved for every catalog that satisfies it.

Files:

| file | module | contents |
|---|---|---|
| `builtins.dfy` | `Builtins` | the JavaScript library behaviour the code relies on: `Array.find`, `findIndex`, `indexOf`, `filter`, `String.includes`, `startsWith`, lowercasing, the `\s` class and `trim()` emptiness; also `Flatten` and counting lemmas |
| `catalog.dfy` | `Catalog` | the catalog shapes, its invariants and lookups, `getCourseLessons` (a method with a loop, proved against `CourseLessons`) |
| `lesson_helpers.dfy` | `LessonHelpers` | topic lookup, next and previous lesson, the round trip |
| `stores.dfy` | `Stores` | the records the progress store and the profile store hand out |
| `app.dfy` | `AppShell` | `getCurrentCourse`, `searchLessons` (a method with a loop), visibility, roles, the `Session` class |
| `account_page.dfy` | `Account` | form validation, the `AccountPage` class, the statistics, `getMemberDuration` |

JavaScript objects that the code iterates over are kept as their entries, in iteration order, as `seq<(string, V)>`. This covers the `lessons` record and the `timeSpent`, `quizScores` and `topicProgress` maps. The search's result order, and the first match `find` returns, depend on that order.

## Model

| member | source | states |
|---|---|---|
| Catalog.GetTopicById | src/data/lessons.ts:1576-1578 | a result is a topic of the catalog with the asked id; it is absent exactly when no topic has that id |
| Catalog.GetTopicByIdExact | src/data/lessons.ts:1576-1578 | with distinct topic ids, the lookup returns `t` if and only if `t` is a topic with that id |
| Catalog.GetCourseById | src/data/lessons.ts:1581-1583 | a result is a course of the catalog with the asked id; it is absent exactly when no course has that id |
| Catalog.GetCourseByIdExact | src/data/lessons.ts:1581-1583 | with distinct course ids, the lookup returns `co` if and only if `co` is a course with that id |
| Catalog.CourseLessons | src/data/lessons.ts:1560-1562 | the lessons of an unknown course id are the empty list |
| Catalog.GetCourseLessons | src/data/lessons.ts:1560-1573 | the loop that pushes each known topic's lessons in turn returns the concatenation of the lesson lists of the course's topics, in the course's topic order, skipping unknown topic ids; an unknown course gives the empty list |
| Catalog.LessonsOfTopicIdsMembership | src/data/lessons.ts:1564-1572 | a lesson is in the concatenated list if and only if one of the named topic ids resolves to a topic listing it |
| Catalog.CourseLessonsMembership | src/data/lessons.ts:1560-1573 | in a well-formed catalog, a course's lesson list holds exactly the lessons listed by the course's topics |
| Catalog.WellFormedPartitionsLessons | src/data/lessons.ts:1417-1514 | when every lesson key is listed exactly once over all topics, no lesson id appears in two topics or twice in one topic |
| Catalog.WellFormedTopicInOneCourse | src/data/lessons.ts:1516-1557 | in a well-formed catalog, two courses that list the same topic are the same course |
| Catalog.SameTopicForLesson | src/data/lessons.ts:1417-1514 | when lessons are partitioned, two topics listing the same lesson are the same topic |
| Catalog.EveryLessonInSomeCourse | src/data/lessons.ts:36-1557 | in a well-formed catalog, every lesson of the record is listed by a topic of some course |
| Catalog.LessonInAtMostOneCourse | src/data/lessons.ts:1417-1557 | in a well-formed catalog, no lesson belongs to two different courses |
| LessonHelpers.FindTopicByLessonId | src/utils/lessonHelpers.ts:4-19 | the result is absent exactly when no topic lists the lesson; otherwise it is the id, name and list of the first topic, in array order, that lists it, and that list contains the lesson |
| LessonHelpers.GetNextLesson | src/utils/lessonHelpers.ts:22-32 | there is no next lesson exactly when no topic lists the id or its first occurrence is the list's last position; otherwise the result is the element after its first occurrence |
| LessonHelpers.GetPreviousLesson | src/utils/lessonHelpers.ts:35-45 | there is no previous lesson exactly when no topic lists the id or it is at index 0; otherwise the result is the element before its first occurrence |
| LessonHelpers.FindTopicOfListedLesson | src/utils/lessonHelpers.ts:9-16 | when lessons are partitioned, the lookup of a listed lesson yields the topic that lists it, and `indexOf` yields the lesson's position there |
| LessonHelpers.NeighboursAt | src/utils/lessonHelpers.ts:22-45 | when lessons are partitioned, the next and previous lessons of the lesson at position k are those at k+1 and k-1 of the same list, or none at the ends |
| LessonHelpers.NextPreviousRoundTrip | src/utils/lessonHelpers.ts:22-45 | when lessons are partitioned, the next lesson of a is b if and only if the previous lesson of b is a |
| LessonHelpers.NextStaysInTopic | src/utils/lessonHelpers.ts:22-32 | when lessons are partitioned, the next lesson lies in the same topic as the current one |
| LessonHelpers.PreviousStaysInTopic | src/utils/lessonHelpers.ts:35-45 | when lessons are partitioned, the previous lesson lies in the same topic as the current one |
| AppShell.GetCurrentCourse | src/App.tsx:68-88 | a view starting with "course-" is returned unchanged, even for a course that does not exist; a view that is not a lesson key, or that no topic lists, gives "course-a1"; any other result is the id of some course |
| AppShell.CurrentCourseOfLessonView | src/App.tsx:75-87 | a lesson view resolves through the first topic listing the lesson: to the id of the first course listing that topic, or to "course-a1" when no course lists it |
| AppShell.CurrentCourseOfLesson | src/App.tsx:75-84 | in a well-formed catalog, a lesson view resolves to the one course whose topics list the lesson |
| AppShell.CurrentCourseListsLesson | src/App.tsx:68-88 | in a well-formed catalog, the course resolved for a lesson view is a course whose `getCourseLessons` list holds that lesson |
| AppShell.HitsMembership | src/App.tsx:127-141 | a search hit is exactly the summary of a record entry whose lowercased title or description contains the query |
| AppShell.HitsAppend | src/App.tsx:127-141 | hits keep the record's iteration order: the hits of a concatenation are the concatenated hits |
| AppShell.SearchLessons | src/App.tsx:124-145 | a query that is blank after trimming gives no results; otherwise the result is the first five hits, in record order, of the lowercased but untrimmed query; there are at most five, and each is the summary of a matching entry |
| AppShell.ShowMainUI | src/App.tsx:265 | navigation and footer are shown only to a signed-in user, and always to a signed-in user on a course view |
| AppShell.ShowSidebar | src/App.tsx:93-94 | the sidebar is shown exactly when the main UI is, the view is not a course view, and it is none of "home", "progress", "coach", "account" and "admin" |
| AppShell.ShowAdminMenu | src/App.tsx:388 | the admin menu item is shown if and only if the role is not "user" (it is "admin" or "moderator") |
| AppShell.RoleForName | src/App.tsx:108-110 | a role derived from a username is never "moderator" |
| AppShell.RoleForNameIsCaseInsensitive | src/App.tsx:108-110 | the derived role is "admin" if and only if the name is "admin" in any mix of letter case |
| AppShell.LoginRole | src/App.tsx:97-98 | the login role is the role the stored profile records; it is "user" when no profile is stored or the profile records no role |
| AppShell.Session.constructor | src/App.tsx:60-64 | the shell starts on "welcome" with no user, an empty search box and the search results hidden, so without the main UI |
| AppShell.Session.HandleLogin | src/App.tsx:96-106 | the session user takes the stored role, or "user"; a profile with the name-derived role is created only when none is stored; the view becomes "home"; the search state is unchanged; the main UI is shown and the sidebar is not |
| AppShell.Session.HandleSignUp | src/App.tsx:108-115 | the session user and a newly created profile both get the name-derived role; the view becomes "home", with the main UI and without the sidebar |
| AppShell.Session.HandleLogout | src/App.tsx:117-121 | no user, no stored profile, and the view is "welcome"; neither the main UI nor the sidebar is shown |
| AppShell.Session.HandleSearchSelect | src/App.tsx:147-151 | the view becomes the chosen lesson, the query is cleared and the results are hidden; user and profile are unchanged; the main UI is shown exactly when a user is signed in and the lesson id is not an entry page |
| AppShell.FirstLoginAsAdmin | src/App.tsx:96-106 | a first login as "admin" with no stored profile runs the session as "user" while the created profile records "admin" |
| AppShell.SignInThenOut | src/App.tsx:96-121 | after a login the main UI is shown, whatever the name, and after the following logout it is not |
| AppShell.HomeAfterSignIn | src/App.tsx:265 | on "home" a signed-in user sees the main UI and no sidebar |
| Account.Optional | frontend/components/AccountPage.tsx:88-90 | an empty form field becomes absent; any other value is kept |
| Account.FieldOf | frontend/components/AccountPage.tsx:56-58 | a stored optional shows as itself, and an absent one as the empty string |
| Account.EmailPatternIsShape | frontend/components/AccountPage.tsx:79 | the email pattern matches exactly the strings with no whitespace, exactly one '@', a non-empty part before it, and a '.' in the domain that is neither its first nor its last character |
| Account.ValidateForm | frontend/components/AccountPage.tsx:72-91 | the form is rejected for missing fields exactly when the username or email is empty; it is rejected for the email exactly when both are present and the email has the wrong shape; an accepted form keeps the username and email |
| Account.SaveThenCancelRestoresForm | frontend/components/AccountPage.tsx:85-107 | once the store reflects a saved update, the form rebuilt from the stored profile is the form that was saved |
| Account.CancelThenSaveSendsProfile | frontend/components/AccountPage.tsx:72-107 | a form restored from a valid stored profile saves back exactly that profile's fields |
| Account.AccountPage.constructor | frontend/components/AccountPage.tsx:49-70 | on mount the form shows the stored profile, else the signed-in user's name and email, else nothing; editing is off |
| Account.AccountPage.StartEditing | frontend/components/AccountPage.tsx:174 | the edit button turns editing on and changes nothing else |
| Account.AccountPage.HandleSave | frontend/components/AccountPage.tsx:72-97 | a rejected form sends nothing, keeps the shown profile and the editing flag, and raises the matching error notice; an accepted form sends its update, shows the re-read profile and ends editing |
| Account.AccountPage.HandleCancel | frontend/components/AccountPage.tsx:99-110 | the form is restored from the shown profile, when there is one; editing ends; nothing is sent |
| Account.RoundDiv | frontend/components/AccountPage.tsx:115 | the result is the integer nearest p/q, with halves rounded up |
| Account.CompletionPercentage | frontend/components/AccountPage.tsx:113-115 | 0 with no lessons; otherwise 100·completed/total rounded; between 0 and 100 when no more lessons are completed than exist; exactly 100 when all are |
| Account.TotalTimeSpent | frontend/components/AccountPage.tsx:118 | the sum of the time values is non-negative when every value is |
| Account.TotalTimeAdditive | frontend/components/AccountPage.tsx:118 | the total time splits over any split of the entries |
| Account.SumBounds | frontend/components/AccountPage.tsx:118-123 | a sum of n values, each between lo and hi, lies between n·lo and n·hi |
| Account.AverageScore | frontend/components/AccountPage.tsx:121-124 | 0 with no scores; otherwise the sum over the count, rounded; between 0 and 100 when every score is |
| Account.CompletedTopics | frontend/components/AccountPage.tsx:127-130 | a topic is kept if and only if it is a given topic whose progress entry exists with percentage 100; each complete topic is kept as often as it occurs and every other one is dropped |
| Account.CompletedTopicsLength | frontend/components/AccountPage.tsx:127-130 | the filtered list is as long as the number of positions holding a complete topic |
| Account.CompletedTopicCount | frontend/components/AccountPage.tsx:127-130 | the count is the number of positions whose topic has a progress entry at percentage 100; hence at most the number of topics, 0 when none is complete, and positive when all of a non-empty list are |
| Account.MemberDuration | frontend/components/AccountPage.tsx:133-145 | "new" exactly when no join date is stored (missing or empty); otherwise days below 7, whole weeks below 30, whole months of 30 days below 365, whole years of 365 days from there on |

## Left out

- The progress store and the profile store (`src/utils/progressTracker`, `src/utils/userProfile`) are not part of this model. Their records are inputs (`Stores.UserProgress`, `Stores.UserProfile`).
- The shell keeps the profile store's record as its field `stored`. `createUserProfile` is assumed to create a profile only when none is stored; the profile store's code is not modelled.
- `updateUserProfile` is modelled only as a call, logged in `sentUpdates`. The profile the page reads back afterwards is the parameter `reread` of `AccountPage.HandleSave`, so the store's merge is not modelled.
- `src/i18n/config.ts` is not part of this model. It holds translation tables and i18next set-up, with no logic.
- `src/components/TopicLesson.tsx` is not part of this model. It is rendering plus calls into the progress store.
- The toasts' text, `t()` lookups, JSX rendering, the mobile menu and React's effect scheduling are left out. A toast is kept only as its kind, in `notices`.
- The concrete catalog data (36 lessons, 12 topics, 4 courses) is not transcribed. Every result is proved for any catalog that satisfies `WellFormed`, which states the invariants that data carries.
- Lesson difficulty is not part of `WellFormed`. The lesson "time-telling" is A1 while its topic "daily-life" is A2 (src/data/lessons.ts:193-197 and 1442-1448). Only topic difficulty equals course level.
- Lesson prose (key points, examples, explanations, media) and option texts are not modelled. A quiz is kept as its option count and `correctAnswer`.
- The catalog that `AccountPage.tsx` imports from `../data/courses` is not part of this model. Its topics and progress are parameters of the statistics.
- Account.MemberDuration: the clock, the parsing of the join date and the ceiling of the millisecond difference are left out. The whole number of days is the input `diffDays`, so an unparsable date (NaN) is not modelled.
- Account.RoundDiv: `Math.round` of a floating-point quotient is modelled as exact rounding of the rational quotient. Float error at .5 boundaries is not modelled.
- Account.CompletionPercentage: the source computes `(c / t) * 100` in floating point. The model rounds the exact value 100·c/t.
- Builtins.Lower: `toLowerCase` is modelled for ASCII letters only. Other letters keep their case.
- JavaScript's ordering of integer-like object keys first does not arise for the catalog's keys and is not modelled. Entry order is the order given.
- Inherited object properties (`lessons["constructor"]`, say) are not modelled: a view counts as a lesson only when it is a key of the record.
- Editing the form field by field (the inputs' change handlers) is not modelled. `formData` changes only on mount, cancel and the methods above.
