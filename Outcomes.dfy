/** What the matcher answers for the five quick actions and for a query
    that matches nothing, and the table entry it can never answer with.
    Each is a consequence of first-match-wins order over the table. */
module Outcomes {
  import opened Text
  import opened Campus
  import opened Matcher

  // ------------------------------------------------ splitting the keys

  lemma SplitOne(key: string)
    requires ' ' !in key
    ensures Split(key, ' ') == [key]
  {
    SplitJoin([key], ' ');
  }

  lemma SplitTwo(key: string, a: string, b: string)
    requires key == a + " " + b && ' ' !in a && ' ' !in b
    ensures Split(key, ' ') == [a, b]
  {
    SplitJoin([a, b], ' ');
    assert Join([a, b], ' ') == a + " " + b;
  }

  /** A key does not match when the query contains neither its category
      nor any of its words. */
  lemma Misses(q: string, category: string, key: string, words: seq<string>)
    requires Split(key, ' ') == words
    requires !Contains(q, category)
    requires forall w :: w in words ==> !Contains(q, w)
    ensures !KeyMatches(q, category, key)
  {
    KeyMatchesByWords(q, category, key);
  }

  /** A key matches when one of its words occurs in the query. */
  lemma HitsWord(q: string, category: string, key: string, words: seq<string>, w: string)
    requires Split(key, ' ') == words && w in words && Contains(q, w)
    ensures KeyMatches(q, category, key)
  {
    KeyMatchesByWords(q, category, key);
  }

  /** A lower-case needle found in the query is found in the lowercased
      query. */
  lemma FoundLowered(query: string, pre: string, needle: string, post: string)
    requires query == pre + needle + post
    requires forall c :: c in needle ==> !IsUpper(c)
    ensures Contains(Lower(query), needle)
  {
    assert OccursAt(query, needle, |pre|) by {
      assert query[|pre|..|pre| + |needle|] == needle;
    }
    ContainsAt(query, needle, |pre|);
    LowerContains(query, needle);
    LowerNoUpper(needle);
  }

  /** Every character of the lowercased query is one of `chars`. */
  lemma LowerWithin(query: string, chars: string)
    requires forall d :: d in query ==> LowerChar(d) in chars
    ensures forall c :: c in Lower(query) ==> c in chars
  {
    assert forall i :: 0 <= i < |query| ==> query[i] in query;
  }

  /** A character outside `chars` is not in a string drawn from `chars`. */
  lemma Absent(q: string, chars: string, c: char)
    requires forall d :: d in q ==> d in chars
    requires c !in chars
    ensures c !in q
  {
  }

  // ---------------------------------------------- the table, key by key
  // The facts below are stated about the literal keys; the lemmas that
  // combine them take the flattened table as a parameter `es` and name
  // only the triples they need, so that no proof carries all ten.

  lemma Key0Misses(q: string)
    requires !Contains(q, "schedules") && !Contains(q, "class") && !Contains(q, "schedule")
    ensures !KeyMatches(q, "schedules", "class schedule")
  {
    SplitTwo("class schedule", "class", "schedule");
    Misses(q, "schedules", "class schedule", ["class", "schedule"]);
  }

  lemma Key1Misses(q: string)
    requires !Contains(q, "schedules") && !Contains(q, "exam") && !Contains(q, "schedule")
    ensures !KeyMatches(q, "schedules", "exam schedule")
  {
    SplitTwo("exam schedule", "exam", "schedule");
    Misses(q, "schedules", "exam schedule", ["exam", "schedule"]);
  }

  lemma Key2Misses(q: string)
    requires !Contains(q, "faculty") && !Contains(q, "information")
    ensures !KeyMatches(q, "faculty", "faculty information")
  {
    SplitTwo("faculty information", "faculty", "information");
    Misses(q, "faculty", "faculty information", ["faculty", "information"]);
  }

  lemma Key3Misses(q: string)
    requires !Contains(q, "faculty") && !Contains(q, "office") && !Contains(q, "hours")
    ensures !KeyMatches(q, "faculty", "office hours")
  {
    SplitTwo("office hours", "office", "hours");
    Misses(q, "faculty", "office hours", ["office", "hours"]);
  }

  lemma Key4Misses(q: string)
    requires !Contains(q, "dining") && !Contains(q, "hours")
    ensures !KeyMatches(q, "dining", "dining hours")
  {
    SplitTwo("dining hours", "dining", "hours");
    Misses(q, "dining", "dining hours", ["dining", "hours"]);
  }

  lemma Key5Misses(q: string)
    requires !Contains(q, "dining") && !Contains(q, "menu")
    ensures !KeyMatches(q, "dining", "menu")
  {
    SplitOne("menu");
    Misses(q, "dining", "menu", ["menu"]);
  }

  lemma Key6Misses(q: string)
    requires !Contains(q, "library") && !Contains(q, "services")
    ensures !KeyMatches(q, "library", "library services")
  {
    SplitTwo("library services", "library", "services");
    Misses(q, "library", "library services", ["library", "services"]);
  }

  lemma Key7Misses(q: string)
    requires !Contains(q, "library") && !Contains(q, "hours")
    ensures !KeyMatches(q, "library", "library hours")
  {
    SplitTwo("library hours", "library", "hours");
    Misses(q, "library", "library hours", ["library", "hours"]);
  }

  lemma Key8Misses(q: string)
    requires !Contains(q, "admin") && !Contains(q, "registration")
    ensures !KeyMatches(q, "admin", "registration")
  {
    SplitOne("registration");
    Misses(q, "admin", "registration", ["registration"]);
  }

  lemma Key9Misses(q: string)
    requires !Contains(q, "admin") && !Contains(q, "financial") && !Contains(q, "aid")
    ensures !KeyMatches(q, "admin", "financial aid")
  {
    SplitTwo("financial aid", "financial", "aid");
    Misses(q, "admin", "financial aid", ["financial", "aid"]);
  }

  /** "class" in the query makes the first key match. */
  lemma Key0HitsClass(q: string)
    requires Contains(q, "class")
    ensures KeyMatches(q, "schedules", "class schedule")
  {
    SplitTwo("class schedule", "class", "schedule");
    HitsWord(q, "schedules", "class schedule", ["class", "schedule"], "class");
  }

  /** "hours" in the query makes the fourth key, "office hours", match. */
  lemma Key3HitsHours(q: string)
    requires Contains(q, "hours")
    ensures KeyMatches(q, "faculty", "office hours")
  {
    SplitTwo("office hours", "office", "hours");
    HitsWord(q, "faculty", "office hours", ["office", "hours"], "hours");
  }

  /** The eighth key, "library hours", matches only through "library" or
      "hours". */
  lemma Key7Needs(q: string)
    ensures KeyMatches(q, "library", "library hours") ==> Contains(q, "library") || Contains(q, "hours")
  {
    SplitTwo("library hours", "library", "hours");
    KeyMatchesByWords(q, "library", "library hours");
  }

  // ------------------------------------------------------ quick actions

  /** "Show me my class schedule for today" is answered with the class
      schedule: "class" is a word of the very first key. */
  lemma ClassScheduleAnswer(query: string)
    requires query == "Show me my class schedule for today"
    ensures FindRelevantInfo(query) == Info(ClassSchedule, "schedules")
  {
    FoundLowered(query, "Show me my ", "class", " schedule for today");
    Key0HitsClass(Lower(query));
    CampusEntry0();
    FirstMatchAnswer(query, 0);
  }

  /** "How do I register for classes?" is answered with the class
      schedule, not with registration: "class" occurs inside "classes",
      and the first key is tried first. */
  lemma RegistrationAnswer(query: string)
    requires query == "How do I register for classes?"
    ensures FindRelevantInfo(query) == Info(ClassSchedule, "schedules")
  {
    FoundLowered(query, "How do I register for ", "class", "es?");
    Key0HitsClass(Lower(query));
    CampusEntry0();
    FirstMatchAnswer(query, 0);
  }

  lemma FacultyAbsent(q: string)
    requires forall d :: d in q ==> d in "find aculytorm"
    ensures 's' !in q && 'x' !in q
  {
    Absent(q, "find aculytorm", 's');
    Absent(q, "find aculytorm", 'x');
  }

  lemma FacultyChars(query: string)
    requires query == "Find faculty information"
    ensures 's' !in Lower(query) && 'x' !in Lower(query)
  {
    LowerWithin(query, "find aculytorm");
    FacultyAbsent(Lower(query));
  }

  /** With no 's' in the query, the two schedule keys miss, so the
      faculty-information key is the first match once "faculty" occurs. */
  lemma FacultyFirstMatch(q: string, es: seq<Entry>)
    requires 's' !in q && 'x' !in q
    requires Contains(q, "faculty")
    requires |es| == 10 && es[0].category == "schedules" && es[0].key == "class schedule"
    requires es[1].category == "schedules" && es[1].key == "exam schedule"
    requires es[2].category == "faculty"
    ensures IsFirstMatch(q, es, 2)
  {
    NotContainsMissingChar(q, "schedules", 's');
    NotContainsMissingChar(q, "schedule", 's');
    NotContainsMissingChar(q, "class", 's');
    NotContainsMissingChar(q, "exam", 'x');
    Key0Misses(q);
    Key1Misses(q);
    forall j | 0 <= j < 2 ensures !EntryMatches(q, es[j]) {
      assert j == 0 || j == 1;
    }
  }

  /** "Find faculty information" is answered with the faculty directory. */
  lemma FacultyAnswer(query: string)
    requires query == "Find faculty information"
    ensures FindRelevantInfo(query) == Info(FacultyDirectory, "faculty")
  {
    FacultyChars(query);
    FoundLowered(query, "Find ", "faculty", " information");
    CampusEntry0();
    CampusEntry1();
    CampusEntry2();
    FacultyFirstMatch(Lower(query), CampusEntries());
    FirstMatchAnswer(query, 2);
  }

  lemma DiningAbsent(q: string)
    requires forall d :: d in q ==> d in "what redinglous?"
    ensures 'c' !in q && 'x' !in q && 'f' !in q
  {
    Absent(q, "what redinglous?", 'c');
    Absent(q, "what redinglous?", 'x');
    Absent(q, "what redinglous?", 'f');
  }

  lemma DiningChars(query: string)
    requires query == "What are the dining hall hours?"
    ensures 'c' !in Lower(query) && 'x' !in Lower(query) && 'f' !in Lower(query)
  {
    LowerWithin(query, "what redinglous?");
    DiningAbsent(Lower(query));
  }

  /** With no 'c', 'x' or 'f' in the query, the first three keys miss, so
      "office hours" is the first match once "hours" occurs. */
  lemma DiningFirstMatch(q: string, es: seq<Entry>)
    requires 'c' !in q && 'x' !in q && 'f' !in q
    requires Contains(q, "hours")
    requires |es| == 10 && es[0].category == "schedules" && es[0].key == "class schedule"
    requires es[1].category == "schedules" && es[1].key == "exam schedule"
    requires es[2].category == "faculty" && es[2].key == "faculty information"
    requires es[3].category == "faculty" && es[3].key == "office hours"
    ensures IsFirstMatch(q, es, 3)
  {
    NotContainsMissingChar(q, "schedules", 'c');
    NotContainsMissingChar(q, "schedule", 'c');
    NotContainsMissingChar(q, "class", 'c');
    NotContainsMissingChar(q, "exam", 'x');
    NotContainsMissingChar(q, "faculty", 'f');
    NotContainsMissingChar(q, "information", 'f');
    Key0Misses(q);
    Key1Misses(q);
    Key2Misses(q);
    Key3HitsHours(q);
    forall j | 0 <= j < 3 ensures !EntryMatches(q, es[j]) {
      assert j == 0 || j == 1 || j == 2;
    }
  }

  /** "What are the dining hall hours?" is answered with the faculty
      office hours, not with the dining hours: the word "hours" of
      "office hours" is tried first. */
  lemma DiningHoursAnswer(query: string)
    requires query == "What are the dining hall hours?"
    ensures FindRelevantInfo(query) == Info(OfficeHours, "faculty")
  {
    DiningChars(query);
    FoundLowered(query, "What are the dining hall ", "hours", "?");
    CampusEntry0();
    CampusEntry1();
    CampusEntry2();
    CampusEntry3();
    DiningFirstMatch(Lower(query), CampusEntries());
    FirstMatchAnswer(query, 3);
  }

  /** The lowercased library query, cut at its last space. */
  lemma LibraryLowered(query: string)
    requires query == "Tell me about library services"
    ensures Lower(query) == Lower("Tell me about library") + " " + "services"
  {
    assert query == "Tell me about library" + " " + "services";
    LowerAppend("Tell me about library" + " ", "services");
    LowerAppend("Tell me about library", " ");
    LowerNoUpper(" ");
    LowerNoUpper("services");
  }

  /** No "class" in the lowercased library query: its only 'c' is in
      "services", which has no 'l'. */
  lemma LibraryHasNoClass(query: string)
    requires query == "Tell me about library services"
    ensures !Contains(Lower(query), "class")
  {
    var a := "Tell me about library";
    LibraryLowered(query);
    LowerLacks(a, 'c');
    NotContainsMissingChar(Lower(a), "class", 'c');
    NotContainsMissingChar("services", "class", 'l');
    if Contains(Lower(query), "class") {
      ContainsAround(Lower(a), ' ', "services", "class");
    }
  }

  lemma LibraryAbsent(q: string)
    requires forall d :: d in q ==> d in "tel maboutirysvc"
    ensures 'h' !in q && 'x' !in q && 'f' !in q
    ensures 'd' !in q && 'n' !in q
  {
    Absent(q, "tel maboutirysvc", 'h');
    Absent(q, "tel maboutirysvc", 'x');
    Absent(q, "tel maboutirysvc", 'f');
    Absent(q, "tel maboutirysvc", 'd');
    Absent(q, "tel maboutirysvc", 'n');
  }

  lemma LibraryChars(query: string)
    requires query == "Tell me about library services"
    ensures 'h' !in Lower(query) && 'x' !in Lower(query) && 'f' !in Lower(query)
    ensures 'd' !in Lower(query) && 'n' !in Lower(query)
  {
    LowerWithin(query, "tel maboutirysvc");
    LibraryAbsent(Lower(query));
  }

  /** The first three keys miss the library query. */
  lemma LibraryMissesFirstThree(q: string, es: seq<Entry>)
    requires 'h' !in q && 'x' !in q && 'f' !in q
    requires !Contains(q, "class")
    requires |es| == 10 && es[0].category == "schedules" && es[0].key == "class schedule"
    requires es[1].category == "schedules" && es[1].key == "exam schedule"
    requires es[2].category == "faculty" && es[2].key == "faculty information"
    ensures forall j :: 0 <= j < 3 ==> !EntryMatches(q, es[j])
  {
    NotContainsMissingChar(q, "schedules", 'h');
    NotContainsMissingChar(q, "schedule", 'h');
    NotContainsMissingChar(q, "exam", 'x');
    NotContainsMissingChar(q, "faculty", 'f');
    NotContainsMissingChar(q, "information", 'f');
    Key0Misses(q);
    Key1Misses(q);
    Key2Misses(q);
    forall j | 0 <= j < 3 ensures !EntryMatches(q, es[j]) {
      assert j == 0 || j == 1 || j == 2;
    }
  }

  /** The next three keys miss the library query. */
  lemma LibraryMissesNextThree(q: string, es: seq<Entry>)
    requires 'h' !in q && 'f' !in q && 'd' !in q && 'n' !in q
    requires |es| == 10 && es[3].category == "faculty" && es[3].key == "office hours"
    requires es[4].category == "dining" && es[4].key == "dining hours"
    requires es[5].category == "dining" && es[5].key == "menu"
    ensures forall j :: 3 <= j < 6 ==> !EntryMatches(q, es[j])
  {
    NotContainsMissingChar(q, "faculty", 'f');
    NotContainsMissingChar(q, "office", 'f');
    NotContainsMissingChar(q, "hours", 'h');
    NotContainsMissingChar(q, "dining", 'd');
    NotContainsMissingChar(q, "menu", 'n');
    Key3Misses(q);
    Key4Misses(q);
    Key5Misses(q);
    forall j | 3 <= j < 6 ensures !EntryMatches(q, es[j]) {
      assert j == 3 || j == 4 || j == 5;
    }
  }

  /** The first six keys of the campus table miss the library query. */
  lemma LibraryMissesFirstSix(q: string)
    requires 'h' !in q && 'x' !in q && 'f' !in q && 'd' !in q && 'n' !in q
    requires !Contains(q, "class")
    ensures |CampusEntries()| == 10 && forall j :: 0 <= j < 6 ==> !EntryMatches(q, CampusEntries()[j])
  {
    CampusEntry0();
    CampusEntry1();
    CampusEntry2();
    LibraryMissesFirstThree(q, CampusEntries());
    CampusEntry3();
    CampusEntry4();
    CampusEntry5();
    LibraryMissesNextThree(q, CampusEntries());
  }

  /** With no 'h', 'x', 'f', 'd' or 'n' in the query and no "class", the
      first six keys miss, so "library services" is the first match once
      "library" occurs. */
  lemma LibraryFirstMatch(q: string)
    requires 'h' !in q && 'x' !in q && 'f' !in q && 'd' !in q && 'n' !in q
    requires !Contains(q, "class")
    requires Contains(q, "library")
    ensures IsFirstMatch(q, CampusEntries(), 6)
    ensures CampusEntries()[6] == Entry("library", "library services", LibraryServices)
  {
    LibraryMissesFirstSix(q);
    CampusEntry6();
  }

  /** "Tell me about library services" is answered with the library
      services. */
  lemma LibraryAnswer(query: string)
    requires query == "Tell me about library services"
    ensures FindRelevantInfo(query) == Info(LibraryServices, "library")
  {
    LibraryChars(query);
    LibraryHasNoClass(query);
    FoundLowered(query, "Tell me about ", "library", " services");
    LibraryFirstMatch(Lower(query));
    FirstMatchAnswer(query, 6);
  }

  lemma QuickAction0Answer()
    ensures FindRelevantInfo(QuickActions[0].query) == Info(ClassSchedule, "schedules")
  {
    ClassScheduleAnswer(QuickActions[0].query);
  }

  lemma QuickAction1Answer()
    ensures FindRelevantInfo(QuickActions[1].query) == Info(FacultyDirectory, "faculty")
  {
    FacultyAnswer(QuickActions[1].query);
  }

  lemma QuickAction2Answer()
    ensures FindRelevantInfo(QuickActions[2].query) == Info(OfficeHours, "faculty")
    ensures QuickActions[2].category == "dining"
  {
    DiningHoursAnswer(QuickActions[2].query);
  }

  lemma QuickAction3Answer()
    ensures FindRelevantInfo(QuickActions[3].query) == Info(LibraryServices, "library")
  {
    LibraryAnswer(QuickActions[3].query);
  }

  lemma QuickAction4Answer()
    ensures FindRelevantInfo(QuickActions[4].query) == Info(ClassSchedule, "schedules")
    ensures QuickActions[4].category == "admin"
  {
    RegistrationAnswer(QuickActions[4].query);
  }

  /** The answers to the five quick actions. Three land in the category
      their button names; the "Dining Hours" and "Registration Help"
      buttons do not. */
  lemma QuickActionAnswers()
    ensures |QuickActions| == 5
    ensures forall i :: 0 <= i < |QuickActions| ==>
      (FindRelevantInfo(QuickActions[i].query).category == QuickActions[i].category <==> i in {0, 1, 3})
  {
    QuickAction0Answer();
    QuickAction1Answer();
    QuickAction2Answer();
    QuickAction3Answer();
    QuickAction4Answer();
    forall i | 0 <= i < |QuickActions|
      ensures FindRelevantInfo(QuickActions[i].query).category == QuickActions[i].category <==> i in {0, 1, 3}
    {
      assert i in {0, 1, 2, 3, 4};
    }
  }

  // ---------------------------------------------------------- the fallback

  /** The first five keys miss a query without 'a', 'e', 'i' and 'o'. */
  lemma NoVowelMissesFirstFive(q: string, es: seq<Entry>)
    requires 'a' !in q && 'e' !in q && 'i' !in q && 'o' !in q
    requires |es| == 10 && es[0].category == "schedules" && es[0].key == "class schedule"
    requires es[1].category == "schedules" && es[1].key == "exam schedule"
    requires es[2].category == "faculty" && es[2].key == "faculty information"
    requires es[3].category == "faculty" && es[3].key == "office hours"
    requires es[4].category == "dining" && es[4].key == "dining hours"
    ensures forall j :: 0 <= j < 5 ==> !EntryMatches(q, es[j])
  {
    NotContainsMissingChar(q, "schedules", 'e');
    NotContainsMissingChar(q, "class", 'a');
    NotContainsMissingChar(q, "schedule", 'e');
    NotContainsMissingChar(q, "exam", 'e');
    NotContainsMissingChar(q, "faculty", 'a');
    NotContainsMissingChar(q, "information", 'i');
    NotContainsMissingChar(q, "office", 'o');
    NotContainsMissingChar(q, "hours", 'o');
    NotContainsMissingChar(q, "dining", 'i');
    Key0Misses(q);
    Key1Misses(q);
    Key2Misses(q);
    Key3Misses(q);
    Key4Misses(q);
    forall j | 0 <= j < 5 ensures !EntryMatches(q, es[j]) {
      assert j in {0, 1, 2, 3, 4};
    }
  }

  /** The last five keys miss a query without 'a', 'e', 'i' and 'o'. */
  lemma NoVowelMissesLastFive(q: string, es: seq<Entry>)
    requires 'a' !in q && 'e' !in q && 'i' !in q && 'o' !in q
    requires |es| == 10 && es[5].category == "dining" && es[5].key == "menu"
    requires es[6].category == "library" && es[6].key == "library services"
    requires es[7].category == "library" && es[7].key == "library hours"
    requires es[8].category == "admin" && es[8].key == "registration"
    requires es[9].category == "admin" && es[9].key == "financial aid"
    ensures forall j :: 5 <= j < 10 ==> !EntryMatches(q, es[j])
  {
    NotContainsMissingChar(q, "dining", 'i');
    NotContainsMissingChar(q, "menu", 'e');
    NotContainsMissingChar(q, "library", 'i');
    NotContainsMissingChar(q, "services", 'e');
    NotContainsMissingChar(q, "hours", 'o');
    NotContainsMissingChar(q, "admin", 'a');
    NotContainsMissingChar(q, "registration", 'e');
    NotContainsMissingChar(q, "financial", 'i');
    NotContainsMissingChar(q, "aid", 'a');
    Key5Misses(q);
    Key6Misses(q);
    Key7Misses(q);
    Key8Misses(q);
    Key9Misses(q);
    forall j | 5 <= j < 10 ensures !EntryMatches(q, es[j]) {
      assert j in {5, 6, 7, 8, 9};
    }
  }

  /** Every category name and every key word holds an 'a', 'e', 'i' or
      'o', so no triple of the campus table matches a query without them. */
  lemma NoVowelNoMatch(q: string)
    requires 'a' !in q && 'e' !in q && 'i' !in q && 'o' !in q
    ensures NoMatch(q, CampusEntries())
  {
    CampusEntry0();
    CampusEntry1();
    CampusEntry2();
    CampusEntry3();
    CampusEntry4();
    NoVowelMissesFirstFive(q, CampusEntries());
    CampusEntry5();
    CampusEntry6();
    CampusEntry7();
    CampusEntry8();
    CampusEntry9();
    NoVowelMissesLastFive(q, CampusEntries());
  }

  /** A query with no 'a', 'e', 'i' or 'o' in either case gets the
      fallback. */
  lemma NoVowelFallback(query: string)
    requires forall c :: c in query ==> LowerChar(c) !in "aeio"
    ensures FindRelevantInfo(query) == Fallback
  {
    LowerLacks(query, 'a');
    LowerLacks(query, 'e');
    LowerLacks(query, 'i');
    LowerLacks(query, 'o');
    NoVowelNoMatch(Lower(query));
    FindRelevantInfoFirstMatch(query);
  }

  /** "xyz123" gets the fallback. */
  lemma XyzFallback(query: string)
    requires query == "xyz123"
    ensures FindRelevantInfo(query) == Fallback
  {
    NoVowelFallback(query);
  }

  // ------------------------------------------------ the unreachable entry

  /** Only the eighth triple carries the library-hours answer. */
  lemma LibraryHoursOnlyAt7(k: int)
    requires 0 <= k < |CampusEntries()| && CampusEntries()[k].answer == LibraryHours
    ensures k == 7
  {
    CampusEntryAt();
    assert k in {0, 1, 2, 3, 4, 5, 6, 7, 8, 9};
  }

  /** The library-hours key is never the first match: whatever makes it
      match ("library" or "hours") makes an earlier key match. */
  lemma LibraryHoursNeverFirst(q: string, es: seq<Entry>)
    requires |es| == 10 && es[3].category == "faculty" && es[3].key == "office hours"
    requires es[6].category == "library"
    requires es[7].category == "library" && es[7].key == "library hours"
    ensures !IsFirstMatch(q, es, 7)
  {
    Key7Needs(q);
    if EntryMatches(q, es[7]) {
      if Contains(q, "library") {
        assert EntryMatches(q, es[6]);
      } else {
        Key3HitsHours(q);
        assert EntryMatches(q, es[3]);
      }
    }
  }

  /** No query is answered with the library hours. */
  lemma LibraryHoursUnreachable(query: string)
    ensures FindRelevantInfo(query).answer != LibraryHours
  {
    FindRelevantInfoFirstMatch(query);
    var r := FindRelevantInfo(query);
    if r != Fallback {
      var k :| IsFirstMatch(Lower(query), CampusEntries(), k) && r == InfoOf(CampusEntries()[k]);
      CampusEntry3();
      CampusEntry6();
      CampusEntry7();
      LibraryHoursNeverFirst(Lower(query), CampusEntries());
      if r.answer == LibraryHours {
        LibraryHoursOnlyAt7(k);
      }
    }
  }
}
