/**
  The logic of the account page, frontend/components/AccountPage.tsx: validating
  and saving the profile form, cancelling an edit, and the learning statistics.
*/
module Account {
  import opened Builtins
  import opened Stores
  import Catalog
  import AppShell

  // ---------------------------------------------------------------------------
  // The profile form
  // ---------------------------------------------------------------------------

  /** The form's fields; an empty string stands for "not given", and so does `sex == None`. */
  datatype FormData = FormData(username: string, email: string, birthdate: string, sex: Option<Sex>, phoneNumber: string)

  /** The argument passed to `updateUserProfile`. */
  datatype ProfileUpdate = ProfileUpdate(username: string, email: string, birthdate: Option<string>,
                                         sex: Option<Sex>, phoneNumber: Option<string>)

  datatype SaveError = RequiredFields | InvalidEmail

  datatype SaveResult = Accepted(update: ProfileUpdate) | Rejected(error: SaveError)

  /** The toasts the page raises. */
  datatype Notice = Failed(error: SaveError) | Saved

  /** `value || undefined` on a form field. */
  function Optional(field: string): (r: Option<string>)
    ensures r.None? <==> field == ""
    ensures r.Some? ==> r.value == field
  {
    if field == "" then None else Some(field)
  }

  /** `value || ''` on a stored optional field. */
  function FieldOf(value: Option<string>): (r: string)
    ensures value.Some? && value.value != "" ==> r == value.value
    ensures r == "" <==> value.None? || value == Some("")
  {
    if value.Some? then value.value else ""
  }

  /** The form filled from a stored profile, absent optionals shown empty. */
  function FormOf(p: UserProfile): FormData
  {
    FormData(p.username, p.email, FieldOf(p.birthdate), p.sex, FieldOf(p.phoneNumber))
  }

  /** No whitespace and no '@': one run of `[^\s@]`. */
  predicate NoSpaceOrAt(s: string)
  {
    forall m :: 0 <= m < |s| ==> !IsSpace(s[m]) && s[m] != '@'
  }

  /**
    The test `/^[^\s@]+@[^\s@]+\.[^\s@]+$/`: three non-empty runs without whitespace
    or '@', joined by '@' (at `i`) and '.' (at `j`).
  */
  predicate EmailPatternMatches(s: string)
  {
    exists i, j :: 0 < i && i + 1 < j && j + 1 < |s| && s[i] == '@' && s[j] == '.' &&
      NoSpaceOrAt(s[..i]) && NoSpaceOrAt(s[i + 1..j]) && NoSpaceOrAt(s[j + 1..])
  }

  /**
    The shape of an accepted address, stated without the pattern: no whitespace,
    exactly one '@', a non-empty part before it, and after it a domain holding a '.'
    that is neither its first nor its last character.
  */
  predicate EmailShape(s: string)
  {
    && (forall m :: 0 <= m < |s| ==> !IsSpace(s[m]))
    && exists k :: 0 < k < |s| && s[k] == '@' && (forall m :: 0 <= m < |s| && m != k ==> s[m] != '@') &&
         exists d :: k + 1 < d < |s| - 1 && s[d] == '.'
  }

  lemma EmailPatternIsShape(s: string)
    ensures EmailPatternMatches(s) <==> EmailShape(s)
  {
    if EmailPatternMatches(s) {
      var i, j :| 0 < i && i + 1 < j && j + 1 < |s| && s[i] == '@' && s[j] == '.' &&
        NoSpaceOrAt(s[..i]) && NoSpaceOrAt(s[i + 1..j]) && NoSpaceOrAt(s[j + 1..]);
      forall m | 0 <= m < |s| && m != i && m != j
        ensures !IsSpace(s[m]) && s[m] != '@'
      {
        if m < i {
          assert s[..i][m] == s[m];
        } else if m < j {
          assert s[i + 1..j][m - i - 1] == s[m];
        } else {
          assert s[j + 1..][m - j - 1] == s[m];
        }
      }
      assert !IsSpace(s[i]) && !IsSpace(s[j]);
      assert EmailShape(s) by {
        assert 0 < i < |s| && s[i] == '@' && (forall m :: 0 <= m < |s| && m != i ==> s[m] != '@');
        assert i + 1 < j < |s| - 1 && s[j] == '.';
      }
    }
    if EmailShape(s) {
      var k :| 0 < k < |s| && s[k] == '@' && (forall m :: 0 <= m < |s| && m != k ==> s[m] != '@') &&
        exists d :: k + 1 < d < |s| - 1 && s[d] == '.';
      var d :| k + 1 < d < |s| - 1 && s[d] == '.';
      assert NoSpaceOrAt(s[..k]) by {
        forall m | 0 <= m < k ensures !IsSpace(s[..k][m]) && s[..k][m] != '@' {
          assert s[..k][m] == s[m];
        }
      }
      var domainHead, domainTail := s[k + 1..d], s[d + 1..];
      assert NoSpaceOrAt(domainHead) by {
        forall m | 0 <= m < |domainHead| ensures !IsSpace(domainHead[m]) && domainHead[m] != '@' {
          assert domainHead[m] == s[k + 1 + m];
        }
      }
      assert NoSpaceOrAt(domainTail) by {
        forall m | 0 <= m < |domainTail| ensures !IsSpace(domainTail[m]) && domainTail[m] != '@' {
          assert domainTail[m] == s[d + 1 + m];
        }
      }
    }
  }

  /**
    The checks of `handleSave`, in order: username and email present, then the
    email pattern; an accepted form becomes the update, empty optionals absent.
  */
  function ValidateForm(f: FormData): (r: SaveResult)
    ensures r == Rejected(RequiredFields) <==> f.username == "" || f.email == ""
    ensures r == Rejected(InvalidEmail) <==> f.username != "" && f.email != "" && !EmailShape(f.email)
    ensures r.Accepted? ==> r.update.username == f.username && r.update.email == f.email && EmailShape(f.email)
  {
    EmailPatternIsShape(f.email);
    if f.username == "" || f.email == "" then Rejected(RequiredFields)
    else if !EmailPatternMatches(f.email) then Rejected(InvalidEmail)
    else Accepted(ProfileUpdate(f.username, f.email, Optional(f.birthdate), f.sex, Optional(f.phoneNumber)))
  }

  /** The stored profile after the store has merged an update into it. */
  predicate Reflects(p: UserProfile, u: ProfileUpdate)
  {
    p.username == u.username && p.email == u.email && p.birthdate == u.birthdate &&
    p.sex == u.sex && p.phoneNumber == u.phoneNumber
  }

  /**
    Saving then cancelling shows the form that was saved: form -> update -> stored
    profile -> form is the identity, once the store reflects the update.
  */
  lemma SaveThenCancelRestoresForm(f: FormData, p: UserProfile)
    requires ValidateForm(f).Accepted? && Reflects(p, ValidateForm(f).update)
    ensures FormOf(p) == f
  {
  }

  /**
    Cancelling then saving sends back the stored profile, as long as its username is
    set, its email has the accepted shape, and no optional is stored as "".
  */
  lemma CancelThenSaveSendsProfile(p: UserProfile)
    requires p.username != "" && EmailShape(p.email)
    requires p.birthdate != Some("") && p.phoneNumber != Some("")
    ensures ValidateForm(FormOf(p)) == Accepted(ProfileUpdate(p.username, p.email, p.birthdate, p.sex, p.phoneNumber))
  {
  }

  /** The page's state: the edit switch, the profile it shows, the form, and what it sent. */
  class AccountPage {
    var isEditing: bool
    var profile: Option<UserProfile>
    var formData: FormData
    /** The updates passed to the profile store, oldest first. */
    var sentUpdates: seq<ProfileUpdate>
    var notices: seq<Notice>

    /**
      Mounting: the form shows the stored profile when there is one, else the
      signed-in user's name and email, else nothing.
    */
    constructor (stored: Option<UserProfile>, user: Option<AppShell.SessionUser>)
      ensures !isEditing && profile == stored && sentUpdates == [] && notices == []
      ensures stored.Some? ==> formData == FormOf(stored.value)
      ensures stored.None? && user.Some? ==>
        formData == FormData(user.value.username, FieldOf(user.value.email), "", None, "")
      ensures stored.None? && user.None? ==> formData == FormData("", "", "", None, "")
    {
      isEditing := false;
      profile := stored;
      sentUpdates := [];
      notices := [];
      if stored.Some? {
        formData := FormOf(stored.value);
      } else if user.Some? {
        formData := FormData(user.value.username, FieldOf(user.value.email), "", None, "");
      } else {
        formData := FormData("", "", "", None, "");
      }
    }

    /** The edit button. */
    method StartEditing()
      modifies this
      ensures isEditing
      ensures profile == old(profile) && formData == old(formData)
      ensures sentUpdates == old(sentUpdates) && notices == old(notices)
    {
      isEditing := true;
    }

    /**
      `handleSave`. A rejected form changes nothing but the toasts: nothing is sent,
      the shown profile stays and editing stays as it was. An accepted form is sent
      to the store, the page shows the profile read back from the store (`reread`),
      and editing ends.
    */
    method HandleSave(reread: Option<UserProfile>)
      modifies this
      ensures formData == old(formData)
      ensures ValidateForm(old(formData)).Rejected? ==>
        && sentUpdates == old(sentUpdates) && profile == old(profile) && isEditing == old(isEditing)
        && notices == old(notices) + [Failed(ValidateForm(old(formData)).error)]
      ensures ValidateForm(old(formData)).Accepted? ==>
        && sentUpdates == old(sentUpdates) + [ValidateForm(old(formData)).update]
        && profile == reread && !isEditing && notices == old(notices) + [Saved]
    {
      var result := ValidateForm(formData);
      match result {
        case Rejected(e) =>
          notices := notices + [Failed(e)];
        case Accepted(u) =>
          sentUpdates := sentUpdates + [u];
          profile := reread;
          isEditing := false;
          notices := notices + [Saved];
      }
    }

    /** `handleCancel`: the form goes back to the shown profile, if any; nothing is sent. */
    method HandleCancel()
      modifies this
      ensures !isEditing
      ensures formData == if old(profile).Some? then FormOf(old(profile).value) else old(formData)
      ensures profile == old(profile) && sentUpdates == old(sentUpdates) && notices == old(notices)
    {
      if profile.Some? {
        formData := FormOf(profile.value);
      }
      isEditing := false;
    }
  }

  // ---------------------------------------------------------------------------
  // Statistics
  // ---------------------------------------------------------------------------

  /**
    `Math.round(p / q)` for `q > 0`, on exact rationals: the integer nearest to p/q,
    halves rounded up.
  */
  function RoundDiv(p: int, q: int): (r: int)
    requires q > 0
    ensures 2 * (q * r) <= 2 * p + q < 2 * (q * r) + 2 * q
  {
    var a, b := 2 * p + q, 2 * q;
    assert a == b * (a / b) + a % b;
    a / b
  }

  /** `totalLessons > 0 ? Math.round(completedCount / totalLessons * 100) : 0` */
  function CompletionPercentage(completedCount: nat, totalLessons: nat): (r: int)
    ensures totalLessons == 0 ==> r == 0
    ensures totalLessons > 0 ==>
      2 * (totalLessons * r) <= 200 * completedCount + totalLessons < 2 * (totalLessons * r) + 2 * totalLessons
    ensures completedCount <= totalLessons ==> 0 <= r <= 100
    ensures 0 < totalLessons == completedCount ==> r == 100
  {
    if totalLessons > 0 then
      var r := RoundDiv(100 * completedCount, totalLessons);
      assert completedCount <= totalLessons ==> 0 <= r <= 100 && (completedCount == totalLessons ==> r == 100) by {
        if completedCount <= totalLessons {
          MultiplyMonotone(100, completedCount, totalLessons);
          WithinHalf(r, 100 * completedCount, totalLessons, 0, 100);
        }
      }
      r
    else 0
  }

  /**
    An integer within a half of p/q, where p/q lies between lo and hi, lies between
    them too.
  */
  lemma WithinHalf(r: int, p: int, q: int, lo: int, hi: int)
    requires q > 0 && 2 * (q * r) <= 2 * p + q < 2 * (q * r) + 2 * q
    requires q * lo <= p <= q * hi
    ensures lo <= r <= hi
    ensures p == q * hi ==> r == hi
  {
    assert q * (hi + 1) == q * hi + q;
    assert q * (r + 1) == q * r + q;
    if r > hi {
      MultiplyMonotone(q, hi + 1, r);
    }
    if r < lo {
      MultiplyMonotone(q, r + 1, lo);
    }
    if p == q * hi && r < hi {
      MultiplyMonotone(q, r + 1, hi);
    }
  }

  lemma MultiplyMonotone(q: int, a: int, b: int)
    requires q > 0 && a <= b
    ensures q * a <= q * b
  {
  }

  /** `reduce((sum, x) => sum + x, 0)`, left to right. */
  function Sum(s: seq<int>): int
  {
    if |s| == 0 then 0 else Sum(s[..|s| - 1]) + s[|s| - 1]
  }

  lemma {:induction false} SumAppend(a: seq<int>, b: seq<int>)
    ensures Sum(a + b) == Sum(a) + Sum(b)
  {
    if |b| > 0 {
      assert (a + b)[..|a + b| - 1] == a + b[..|b| - 1];
      SumAppend(a, b[..|b| - 1]);
    } else {
      assert a + b == a;
    }
  }

  lemma {:induction false} SumBounds(s: seq<int>, lo: int, hi: int)
    requires forall i :: 0 <= i < |s| ==> lo <= s[i] <= hi
    ensures |s| * lo <= Sum(s) <= |s| * hi
  {
    if |s| > 0 {
      SumBounds(s[..|s| - 1], lo, hi);
      assert (|s| - 1) * hi + hi == |s| * hi;
      assert (|s| - 1) * lo + lo == |s| * lo;
    }
  }

  /** Total study time: the sum of the per-lesson minutes. */
  function TotalTimeSpent(progress: UserProgress): (r: int)
    ensures (forall i :: 0 <= i < |progress.timeSpent| ==> progress.timeSpent[i].1 >= 0) ==> r >= 0
  {
    var v := Values(progress.timeSpent);
    assert (forall i :: 0 <= i < |v| ==> v[i] >= 0) ==> Sum(v) >= 0 by {
      if forall i :: 0 <= i < |v| ==> v[i] >= 0 {
        SumNonNegative(v);
      }
    }
    Sum(v)
  }

  lemma {:induction false} SumNonNegative(s: seq<int>)
    requires forall i :: 0 <= i < |s| ==> s[i] >= 0
    ensures Sum(s) >= 0
  {
    if |s| > 0 {
      SumNonNegative(s[..|s| - 1]);
    }
  }

  /** Total time splits over any split of the entries. */
  lemma TotalTimeAdditive(p: UserProgress, a: seq<(string, int)>, b: seq<(string, int)>)
    requires p.timeSpent == a + b
    ensures TotalTimeSpent(p) == Sum(Values(a)) + Sum(Values(b))
  {
    assert Values(a + b) == Values(a) + Values(b);
    SumAppend(Values(a), Values(b));
  }

  /** The rounded mean of the quiz scores, or 0 with no scores. */
  function AverageScore(progress: UserProgress): (r: int)
    ensures |progress.quizScores| == 0 ==> r == 0
    ensures var n := |progress.quizScores|; var total := Sum(Values(progress.quizScores));
      n > 0 ==> 2 * (n * r) <= 2 * total + n < 2 * (n * r) + 2 * n
    ensures (forall i :: 0 <= i < |progress.quizScores| ==> 0 <= progress.quizScores[i].1 <= 100) ==> 0 <= r <= 100
  {
    var scores := Values(progress.quizScores);
    if |scores| > 0 then
      var r := RoundDiv(Sum(scores), |scores|);
      assert (forall i :: 0 <= i < |scores| ==> 0 <= scores[i] <= 100) ==> 0 <= r <= 100 by {
        if forall i :: 0 <= i < |scores| ==> 0 <= scores[i] <= 100 {
          SumBounds(scores, 0, 100);
          WithinHalf(r, Sum(scores), |scores|, 0, 100);
        }
      }
      r
    else 0
  }

  /** `progress.topicProgress[id]` exists and is at 100 percent. */
  predicate TopicComplete(progress: UserProgress, topicId: string)
  {
    var entry := Lookup(progress.topicProgress, topicId);
    entry.Some? && entry.value.percentage == 100
  }

  /** `topics.filter(...)`: the topics whose cached progress is complete, in order. */
  function CompletedTopics(topics: seq<Catalog.Topic>, progress: UserProgress): (r: seq<Catalog.Topic>)
    ensures |r| <= |topics|
    ensures forall t :: t in r <==> t in topics && TopicComplete(progress, t.id)
    ensures forall t :: multiset(r)[t] == if TopicComplete(progress, t.id) then multiset(topics)[t] else 0
  {
    var complete := (t: Catalog.Topic) => TopicComplete(progress, t.id);
    var r := Filter(topics, complete);
    assert forall t :: multiset(r)[t] == if complete(t) then multiset(topics)[t] else 0 by {
      forall t ensures multiset(r)[t] == if complete(t) then multiset(topics)[t] else 0 {
        FilterMultiset(topics, complete, t);
      }
    }
    r
  }

  /** The filter's length is the number of positions holding a complete topic. */
  lemma CompletedTopicsLength(topics: seq<Catalog.Topic>, progress: UserProgress)
    ensures |CompletedTopics(topics, progress)| == |set i | 0 <= i < |topics| && TopicComplete(progress, topics[i].id)|
  {
    var complete := (t: Catalog.Topic) => TopicComplete(progress, t.id);
    FilterLength(topics, complete);
    assert Positions(topics, complete) == set i | 0 <= i < |topics| && TopicComplete(progress, topics[i].id);
  }

  /** The completed-topics figure: how many of the topics are complete. */
  function CompletedTopicCount(topics: seq<Catalog.Topic>, progress: UserProgress): (r: nat)
    ensures r == |set i | 0 <= i < |topics| && TopicComplete(progress, topics[i].id)|
    ensures r <= |topics|
    ensures (forall t :: t in topics ==> !TopicComplete(progress, t.id)) ==> r == 0
    ensures |topics| > 0 && (forall t :: t in topics ==> TopicComplete(progress, t.id)) ==> r > 0
  {
    CompletedTopicsLength(topics, progress);
    var done := CompletedTopics(topics, progress);
    assert |topics| > 0 ==> topics[0] in topics;
    if |done| > 0 then assert done[0] in done; |done| else |done|
  }

  /** How long ago the profile joined, in the unit the page shows. */
  datatype Duration = New | Days(n: nat) | Weeks(n: nat) | Months(n: nat) | Years(n: nat)

  /**
    `getMemberDuration`, with `diffDays` the whole days since joining (the clock is
    not part of this model): days below a week, weeks below 30 days, months below a
    year of 365 days, then years, each count rounded down.
  */
  function MemberDuration(profile: Option<UserProfile>, diffDays: nat): (r: Duration)
    ensures r == New <==> profile.None? || profile.value.joinDate.None? || profile.value.joinDate == Some("")
    ensures r.Days? ==> diffDays < 7 && r.n == diffDays
    ensures r.Weeks? ==> 7 <= diffDays < 30 && 7 * r.n <= diffDays < 7 * r.n + 7 && 1 <= r.n <= 4
    ensures r.Months? ==> 30 <= diffDays < 365 && 30 * r.n <= diffDays < 30 * r.n + 30 && 1 <= r.n <= 12
    ensures r.Years? ==> 365 <= diffDays && 365 * r.n <= diffDays < 365 * r.n + 365 && 1 <= r.n
    ensures r != New ==> (diffDays < 7 <==> r.Days?) && (7 <= diffDays < 30 <==> r.Weeks?) &&
                         (30 <= diffDays < 365 <==> r.Months?) && (365 <= diffDays <==> r.Years?)
  {
    if profile.None? || profile.value.joinDate.None? || profile.value.joinDate == Some("") then New
    else if diffDays < 7 then Days(diffDays)
    else if diffDays < 30 then Weeks(diffDays / 7)
    else if diffDays < 365 then Months(diffDays / 30)
    else Years(diffDays / 365)
  }
}
