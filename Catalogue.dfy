/**
 * The course catalogue (app.py, `get_subjects`, `get_topics`,
 * `get_chapters`): per course, a list of subjects, each with a list of
 * topics, each with its chapters. The two courses' records use different key
 * names on disk ("Subject"/"Topics"/"Topic"/"Chapters" for NEET PG,
 * "subject"/"topics"/"name"/"chapters" for USMLE); here both have one shape,
 * and the catalogue is a value handed to each lookup.
 */
module Catalogue {
  import opened Wrappers
  import opened Courses
  import opened Sorting

  datatype TopicEntry = TopicEntry(name: string, chapters: seq<string>)

  datatype SubjectEntry = SubjectEntry(name: string, topics: seq<TopicEntry>)

  datatype Catalogue = Catalogue(neet: seq<SubjectEntry>, usmle: seq<SubjectEntry>)

  /** The subject list a course reads; an unknown course reads nothing. */
  function Listing(cat: Catalogue, course: string): seq<SubjectEntry> {
    if course == NeetPg then cat.neet
    else if course == Usmle then cat.usmle
    else []
  }

  function SubjectNames(subjects: seq<SubjectEntry>): (r: seq<string>)
    ensures |r| == |subjects|
    ensures forall i :: 0 <= i < |r| ==> r[i] == subjects[i].name
  {
    seq(|subjects|, i requires 0 <= i < |subjects| => subjects[i].name)
  }

  /** The same projection as `SubjectNames`, on the topic entries of one
      subject, which are records of another type. */
  function TopicNames(topics: seq<TopicEntry>): (r: seq<string>)
    ensures |r| == |topics|
    ensures forall i :: 0 <= i < |r| ==> r[i] == topics[i].name
  {
    seq(|topics|, i requires 0 <= i < |topics| => topics[i].name)
  }

  /** The position of the first `x` in `s`, if any. */
  function FirstIndex(s: seq<string>, x: string): (r: Option<nat>)
    ensures r.Some? ==> r.value < |s| && s[r.value] == x
    ensures r.Some? ==> forall j :: 0 <= j < r.value ==> s[j] != x
    ensures r.None? <==> x !in s
  {
    if s == [] then None
    else if s[0] == x then Some(0)
    else match FirstIndex(s[1..], x)
      case None => None
      case Some(k) => Some(k + 1)
  }

  /** An index holding `x` with no `x` before it is the first index of `x`. */
  lemma FirstIndexAt(s: seq<string>, x: string, i: nat)
    requires i < |s| && s[i] == x
    requires forall j :: 0 <= j < i ==> s[j] != x
    ensures FirstIndex(s, x) == Some(i)
  {
  }

  /** `get_subjects`: the course's subject names in ascending order, each as
      often as it is listed; nothing for an unknown course. */
  function GetSubjects(cat: Catalogue, course: string): (r: seq<string>)
    ensures Sorted(r)
    ensures course == NeetPg ==> multiset(r) == multiset(SubjectNames(cat.neet))
    ensures course == Usmle ==> multiset(r) == multiset(SubjectNames(cat.usmle))
    ensures !IsKnownCourse(course) ==> r == []
  {
    if course == NeetPg then SortStrings(SubjectNames(cat.neet))
    else if course == Usmle then SortStrings(SubjectNames(cat.usmle))
    else []
  }

  /** The topics `get_topics` reports: those of the first subject of the
      course with the given name, in ascending order; nothing when no subject
      has that name or the course is unknown. */
  function TopicsOf(cat: Catalogue, course: string, subject: string): (r: seq<string>)
    ensures Sorted(r)
    ensures match FirstIndex(SubjectNames(Listing(cat, course)), subject)
            case None => r == []
            case Some(i) =>
              multiset(r) == multiset(TopicNames(Listing(cat, course)[i].topics))
  {
    var subjects := Listing(cat, course);
    match FirstIndex(SubjectNames(subjects), subject)
    case None => []
    case Some(i) => SortStrings(TopicNames(subjects[i].topics))
  }

  /** The chapters `get_chapters` reports: those of the first topic with the
      given name inside the first subject with the given name. */
  function ChaptersOf(cat: Catalogue, course: string, subject: string, topic: string): (r: seq<string>)
    ensures subject !in SubjectNames(Listing(cat, course)) ==> r == []
    ensures !IsKnownCourse(course) ==> r == []
  {
    var subjects := Listing(cat, course);
    match FirstIndex(SubjectNames(subjects), subject)
    case None => []
    case Some(i) =>
      var topics := subjects[i].topics;
      match FirstIndex(TopicNames(topics), topic)
      case None => []
      case Some(t) => topics[t].chapters
  }

  /** `get_topics`: scans the course's subjects and stops at the first one
      with the requested name. */
  method GetTopics(cat: Catalogue, course: string, subject: string) returns (topics: seq<string>)
    ensures topics == TopicsOf(cat, course, subject)
  {
    topics := [];
    var data: seq<SubjectEntry>;
    if course == NeetPg {
      data := cat.neet;
    } else if course == Usmle {
      data := cat.usmle;
    } else {
      return;
    }
    var i := 0;
    while i < |data|
      invariant 0 <= i <= |data|
      invariant forall j :: 0 <= j < i ==> data[j].name != subject
      invariant topics == []
    {
      if data[i].name == subject {
        FirstIndexAt(SubjectNames(data), subject, i);
        topics := SortStrings(TopicNames(data[i].topics));
        break;
      }
      i := i + 1;
    }
  }

  /** `get_chapters`: scans for the first subject with the requested name,
      then its topics for the first with the requested name. The outer scan
      stops at that subject whether or not the inner scan found the topic. */
  method GetChapters(cat: Catalogue, course: string, subject: string, topic: string)
    returns (chapters: seq<string>)
    ensures chapters == ChaptersOf(cat, course, subject, topic)
  {
    chapters := [];
    var data: seq<SubjectEntry>;
    if course == NeetPg {
      data := cat.neet;
    } else if course == Usmle {
      data := cat.usmle;
    } else {
      return;
    }
    var i := 0;
    while i < |data|
      invariant 0 <= i <= |data|
      invariant forall j :: 0 <= j < i ==> data[j].name != subject
      invariant chapters == []
    {
      if data[i].name == subject {
        FirstIndexAt(SubjectNames(data), subject, i);
        var topics := data[i].topics;
        var k := 0;
        while k < |topics|
          invariant 0 <= k <= |topics|
          invariant forall j :: 0 <= j < k ==> topics[j].name != topic
          invariant chapters == []
        {
          if topics[k].name == topic {
            FirstIndexAt(TopicNames(topics), topic, k);
            chapters := topics[k].chapters;
            break;
          }
          k := k + 1;
        }
        break;
      }
      i := i + 1;
    }
  }

  /** When the first subject of a course with the requested name has a topic
      with the requested name, the chapters are those of the first such
      topic; when it has none, the result is empty, even if a later subject
      with the same name has that topic. */
  lemma ChaptersFromFirstMatches(cat: Catalogue, course: string, subject: string, topic: string, i: nat)
    requires i < |Listing(cat, course)| && Listing(cat, course)[i].name == subject
    requires forall j :: 0 <= j < i ==> Listing(cat, course)[j].name != subject
    ensures var topics := Listing(cat, course)[i].topics;
      (forall t :: 0 <= t < |topics| ==> topics[t].name != topic) ==>
        ChaptersOf(cat, course, subject, topic) == []
    ensures var topics := Listing(cat, course)[i].topics;
      forall t ::
        (0 <= t < |topics| && topics[t].name == topic
         && forall u :: 0 <= u < t ==> topics[u].name != topic)
        ==> ChaptersOf(cat, course, subject, topic) == topics[t].chapters
  {
    var names := SubjectNames(Listing(cat, course));
    assert FirstIndex(names, subject) == Some(i) by {
      assert names[i] == subject;
    }
  }

  /** A subject name or a course nobody lists yields no topics and no
      chapters. */
  lemma UnknownSubjectYieldsNothing(cat: Catalogue, course: string, subject: string, topic: string)
    requires forall j :: 0 <= j < |Listing(cat, course)| ==> Listing(cat, course)[j].name != subject
    ensures TopicsOf(cat, course, subject) == []
    ensures ChaptersOf(cat, course, subject, topic) == []
  {
    assert subject !in SubjectNames(Listing(cat, course));
  }

  /** The outer `break`: a second "Anatomy" that does list "Thorax" is never
      reached once the first "Anatomy" has been searched. */
  lemma ChaptersStopAtFirstSubject()
    ensures ChaptersOf(
      Catalogue([SubjectEntry("Anatomy", [TopicEntry("Limbs", ["Hand"])]),
                 SubjectEntry("Anatomy", [TopicEntry("Thorax", ["Heart"])])], []),
      NeetPg, "Anatomy", "Thorax") == []
  {
  }
}
