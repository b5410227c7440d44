/** `findRelevantInfo`: the keyword matcher that picks the assistant's
    answer. The query is lowercased, the table is walked category by
    category and key by key, and the first key that matches wins. */
module Matcher {
  import opened Text
  import opened Campus

  datatype Option<T> = None | Some(value: T)

  /** The `{ content, category }` pair the matcher returns; the content
      is the text of `answer`. */
  datatype Info = Info(answer: Answer, category: string) {
    function Content(): string {
      AnswerText(answer)
    }
  }

  /** The answer given when no key matches. */
  const Fallback := Info(GeneralHelp, GeneralCategory)

  /** A key matches when the lowercased query contains the key, or the
      category name, or some space-separated word of the key. */
  predicate KeyMatches(q: string, category: string, key: string) {
    Contains(q, key) || Contains(q, category) || SomeWordIn(q, Split(key, ' '))
  }

  /** `words.some(word => q.includes(word))`, scanned left to right. */
  predicate SomeWordIn(q: string, words: seq<string>) {
    words != [] && (Contains(q, words[0]) || SomeWordIn(q, words[1..]))
  }

  lemma {:induction false} SomeWordInIff(q: string, words: seq<string>)
    ensures SomeWordIn(q, words) <==> exists w :: w in words && Contains(q, w)
  {
    if words != [] {
      SomeWordInIff(q, words[1..]);
      assert words == [words[0]] + words[1..];
    }
  }

  /** The first test is implied by the third: the key contains each of
      its words, so a query that contains the key contains its first
      word. A key therefore matches exactly when the query contains the
      category name or one of the key's words. */
  lemma KeyMatchesByWords(q: string, category: string, key: string)
    ensures KeyMatches(q, category, key)
            <==> Contains(q, category) || exists w :: w in Split(key, ' ') && Contains(q, w)
  {
    var words := Split(key, ' ');
    SomeWordInIff(q, words);
    if Contains(q, key) {
      SplitPieceOccurs(key, ' ', words[0]);
      ContainsTransitive(q, key, words[0]);
    }
  }

  /** The inner loop: the first key of one category that matches. */
  function FindInCategory(q: string, category: string, entries: seq<(string, Answer)>): Option<Info> {
    if entries == [] then None
    else if KeyMatches(q, category, entries[0].0) then Some(Info(entries[0].1, category))
    else FindInCategory(q, category, entries[1..])
  }

  /** The outer loop: the first category holding a matching key. */
  function FindInTable(q: string, table: Table): Option<Info> {
    if table == [] then None
    else match FindInCategory(q, table[0].0, table[0].1)
      case Some(info) => Some(info)
      case None => FindInTable(q, table[1..])
  }

  /** `findRelevantInfo(query)`. */
  function FindRelevantInfo(query: string): Info {
    match FindInTable(Lower(query), CampusData)
    case Some(info) => info
    case None => Fallback
  }

  // ------------------------------------------------------------------
  // Reference definition: the table flattened into (category, key,
  // answer) triples in declaration order, and "the first triple that
  // matches".

  datatype Entry = Entry(category: string, key: string, answer: Answer)

  function InfoOf(e: Entry): Info {
    Info(e.answer, e.category)
  }

  function CategoryEntries(category: string, entries: seq<(string, Answer)>): (es: seq<Entry>)
    ensures |es| == |entries|
    ensures forall i :: 0 <= i < |es| ==> es[i] == Entry(category, entries[i].0, entries[i].1)
  {
    if entries == [] then []
    else [Entry(category, entries[0].0, entries[0].1)] + CategoryEntries(category, entries[1..])
  }

  function Entries(table: Table): seq<Entry> {
    if table == [] then []
    else CategoryEntries(table[0].0, table[0].1) + Entries(table[1..])
  }

  /** The campus table as a flat sequence of triples. */
  function CampusEntries(): seq<Entry> {
    Entries(CampusData)
  }

  predicate EntryMatches(q: string, e: Entry) {
    KeyMatches(q, e.category, e.key)
  }

  ghost predicate NoMatch(q: string, es: seq<Entry>) {
    forall k :: 0 <= k < |es| ==> !EntryMatches(q, es[k])
  }

  /** `es[k]` matches and no earlier triple does. */
  ghost predicate IsFirstMatch(q: string, es: seq<Entry>, k: int) {
    0 <= k < |es| && EntryMatches(q, es[k]) && forall j :: 0 <= j < k ==> !EntryMatches(q, es[j])
  }

  /** At most one triple is the first match. */
  lemma FirstMatchUnique(q: string, es: seq<Entry>, k1: int, k2: int)
    requires IsFirstMatch(q, es, k1) && IsFirstMatch(q, es, k2)
    ensures k1 == k2
  {
  }

  /** How the first match of a concatenation comes from its parts. */
  lemma FirstMatchAppend(q: string, a: seq<Entry>, b: seq<Entry>)
    ensures NoMatch(q, a + b) <==> NoMatch(q, a) && NoMatch(q, b)
    ensures forall k :: IsFirstMatch(q, a, k) ==> IsFirstMatch(q, a + b, k)
    ensures forall k :: NoMatch(q, a) && IsFirstMatch(q, b, k) ==> IsFirstMatch(q, a + b, |a| + k)
  {
    if NoMatch(q, a) && NoMatch(q, b) {
      forall k | 0 <= k < |a + b| ensures !EntryMatches(q, (a + b)[k]) {
        if k >= |a| {
          assert (a + b)[k] == b[k - |a|];
        }
      }
    }
    if NoMatch(q, a + b) {
      forall k | 0 <= k < |a| ensures !EntryMatches(q, a[k]) {
        assert (a + b)[k] == a[k];
      }
      forall k | 0 <= k < |b| ensures !EntryMatches(q, b[k]) {
        assert (a + b)[|a| + k] == b[k];
      }
    }
    forall k | NoMatch(q, a) && IsFirstMatch(q, b, k) ensures IsFirstMatch(q, a + b, |a| + k) {
      forall j | 0 <= j < |a| + k ensures !EntryMatches(q, (a + b)[j]) {
        if j >= |a| {
          assert (a + b)[j] == b[j - |a|];
        }
      }
    }
  }

  /** The inner loop returns the first matching triple of its category,
      and nothing exactly when no triple of it matches. */
  lemma {:induction false} FindInCategoryFirstMatch(q: string, category: string, entries: seq<(string, Answer)>)
    ensures var r := FindInCategory(q, category, entries);
            var es := CategoryEntries(category, entries);
            (r.None? <==> NoMatch(q, es))
            && (r.Some? ==> exists k :: IsFirstMatch(q, es, k) && r.value == InfoOf(es[k]))
  {
    if entries != [] {
      var head := [Entry(category, entries[0].0, entries[0].1)];
      var tail := CategoryEntries(category, entries[1..]);
      assert CategoryEntries(category, entries) == head + tail;
      FindInCategoryFirstMatch(q, category, entries[1..]);
      FirstMatchAppend(q, head, tail);
      if KeyMatches(q, category, entries[0].0) {
        assert IsFirstMatch(q, head + tail, 0);
      } else if FindInCategory(q, category, entries[1..]).Some? {
        var k :| IsFirstMatch(q, tail, k) && FindInCategory(q, category, entries[1..]).value == InfoOf(tail[k]);
        assert IsFirstMatch(q, head + tail, 1 + k);
      }
    }
  }

  /** The nested walk over the table is the first match over the
      flattened triples; it returns nothing exactly when no triple
      matches. */
  lemma {:induction false} FindInTableFirstMatch(q: string, table: Table)
    ensures var r := FindInTable(q, table);
            var es := Entries(table);
            (r.None? <==> NoMatch(q, es))
            && (r.Some? ==> exists k :: IsFirstMatch(q, es, k) && r.value == InfoOf(es[k]))
  {
    if table != [] {
      var a := CategoryEntries(table[0].0, table[0].1);
      var b := Entries(table[1..]);
      FindInCategoryFirstMatch(q, table[0].0, table[0].1);
      FindInTableFirstMatch(q, table[1..]);
      FirstMatchAppend(q, a, b);
      match FindInCategory(q, table[0].0, table[0].1)
      case Some(info) =>
        var k :| IsFirstMatch(q, a, k) && info == InfoOf(a[k]);
        assert (a + b)[k] == a[k];
      case None =>
        if FindInTable(q, table[1..]).Some? {
          var k :| IsFirstMatch(q, b, k) && FindInTable(q, table[1..]).value == InfoOf(b[k]);
          assert (a + b)[|a| + k] == b[k];
        }
    }
  }

  /** Every flattened triple comes from one key of one category. */
  lemma {:induction false} EntriesFromTable(t: Table, k: int)
    requires 0 <= k < |Entries(t)|
    ensures exists c, e :: c in t && e in c.1 && Entries(t)[k] == Entry(c.0, e.0, e.1)
  {
    var a := CategoryEntries(t[0].0, t[0].1);
    if k < |a| {
      assert Entries(t)[k] == a[k];
      assert t[0] in t && t[0].1[k] in t[0].1;
    } else {
      assert Entries(t)[k] == Entries(t[1..])[k - |a|];
      EntriesFromTable(t[1..], k - |a|);
      var c, e :| c in t[1..] && e in c.1 && Entries(t[1..])[k - |a|] == Entry(c.0, e.0, e.1);
      assert c in t;
    }
  }

  /** A table of five categories with two keys each, flattened. */
  lemma EntriesOfFiveByTwo(t: Table)
    requires |t| == 5 && forall i :: 0 <= i < 5 ==> |t[i].1| == 2
    ensures Entries(t) == [
      Entry(t[0].0, t[0].1[0].0, t[0].1[0].1), Entry(t[0].0, t[0].1[1].0, t[0].1[1].1),
      Entry(t[1].0, t[1].1[0].0, t[1].1[0].1), Entry(t[1].0, t[1].1[1].0, t[1].1[1].1),
      Entry(t[2].0, t[2].1[0].0, t[2].1[0].1), Entry(t[2].0, t[2].1[1].0, t[2].1[1].1),
      Entry(t[3].0, t[3].1[0].0, t[3].1[0].1), Entry(t[3].0, t[3].1[1].0, t[3].1[1].1),
      Entry(t[4].0, t[4].1[0].0, t[4].1[0].1), Entry(t[4].0, t[4].1[1].0, t[4].1[1].1)]
  {
    assert t[4..][1..] == [];
    assert t[3..][1..] == t[4..];
    assert t[2..][1..] == t[3..];
    assert t[1..][1..] == t[2..];
    var c0, c1, c2, c3, c4 := CategoryEntries(t[0].0, t[0].1), CategoryEntries(t[1].0, t[1].1),
      CategoryEntries(t[2].0, t[2].1), CategoryEntries(t[3].0, t[3].1), CategoryEntries(t[4].0, t[4].1);
    assert Entries(t[4..]) == c4;
    assert Entries(t[3..]) == c3 + c4;
    assert Entries(t[2..]) == c2 + c3 + c4;
    assert Entries(t[1..]) == c1 + c2 + c3 + c4;
    assert Entries(t) == c0 + c1 + c2 + c3 + c4;
  }

  /** The campus table, flattened. */
  lemma CampusEntriesAre()
    ensures CampusEntries() == [
      Entry("schedules", "class schedule", ClassSchedule),
      Entry("schedules", "exam schedule", ExamSchedule),
      Entry("faculty", "faculty information", FacultyDirectory),
      Entry("faculty", "office hours", OfficeHours),
      Entry("dining", "dining hours", DiningHours),
      Entry("dining", "menu", Menu),
      Entry("library", "library services", LibraryServices),
      Entry("library", "library hours", LibraryHours),
      Entry("admin", "registration", Registration),
      Entry("admin", "financial aid", FinancialAid)]
  {
    EntriesOfFiveByTwo(CampusData);
  }

  /** The flattened campus table, triple by triple. */
  lemma CampusEntryAt()
    ensures |CampusEntries()| == 10
    ensures CampusEntries()[0] == Entry("schedules", "class schedule", ClassSchedule)
    ensures CampusEntries()[1] == Entry("schedules", "exam schedule", ExamSchedule)
    ensures CampusEntries()[2] == Entry("faculty", "faculty information", FacultyDirectory)
    ensures CampusEntries()[3] == Entry("faculty", "office hours", OfficeHours)
    ensures CampusEntries()[4] == Entry("dining", "dining hours", DiningHours)
    ensures CampusEntries()[5] == Entry("dining", "menu", Menu)
    ensures CampusEntries()[6] == Entry("library", "library services", LibraryServices)
    ensures CampusEntries()[7] == Entry("library", "library hours", LibraryHours)
    ensures CampusEntries()[8] == Entry("admin", "registration", Registration)
    ensures CampusEntries()[9] == Entry("admin", "financial aid", FinancialAid)
  {
    CampusEntriesAre();
  }

  // One triple at a time, so that a proof about one key does not carry
  // the literals of all ten.

  lemma CampusEntry0()
    ensures |CampusEntries()| == 10 && CampusEntries()[0] == Entry("schedules", "class schedule", ClassSchedule)
  {
    CampusEntryAt();
  }

  lemma CampusEntry1()
    ensures |CampusEntries()| == 10 && CampusEntries()[1] == Entry("schedules", "exam schedule", ExamSchedule)
  {
    CampusEntryAt();
  }

  lemma CampusEntry2()
    ensures |CampusEntries()| == 10 && CampusEntries()[2] == Entry("faculty", "faculty information", FacultyDirectory)
  {
    CampusEntryAt();
  }

  lemma CampusEntry3()
    ensures |CampusEntries()| == 10 && CampusEntries()[3] == Entry("faculty", "office hours", OfficeHours)
  {
    CampusEntryAt();
  }

  lemma CampusEntry4()
    ensures |CampusEntries()| == 10 && CampusEntries()[4] == Entry("dining", "dining hours", DiningHours)
  {
    CampusEntryAt();
  }

  lemma CampusEntry5()
    ensures |CampusEntries()| == 10 && CampusEntries()[5] == Entry("dining", "menu", Menu)
  {
    CampusEntryAt();
  }

  lemma CampusEntry6()
    ensures |CampusEntries()| == 10 && CampusEntries()[6] == Entry("library", "library services", LibraryServices)
  {
    CampusEntryAt();
  }

  lemma CampusEntry7()
    ensures |CampusEntries()| == 10 && CampusEntries()[7] == Entry("library", "library hours", LibraryHours)
  {
    CampusEntryAt();
  }

  lemma CampusEntry8()
    ensures |CampusEntries()| == 10 && CampusEntries()[8] == Entry("admin", "registration", Registration)
  {
    CampusEntryAt();
  }

  lemma CampusEntry9()
    ensures |CampusEntries()| == 10 && CampusEntries()[9] == Entry("admin", "financial aid", FinancialAid)
  {
    CampusEntryAt();
  }

  /** No triple of the campus table reads as the fallback. */
  lemma CampusEntryNotFallback(k: int)
    requires 0 <= k < |CampusEntries()|
    ensures InfoOf(CampusEntries()[k]) != Fallback
  {
    CampusEntryAt();
    assert k in {0, 1, 2, 3, 4, 5, 6, 7, 8, 9};
  }

  /** `findRelevantInfo` returns the first matching triple of the campus
      table, and the fallback exactly when no triple matches. */
  lemma FindRelevantInfoFirstMatch(query: string)
    ensures var q := Lower(query);
            var r := FindRelevantInfo(query);
            (r == Fallback <==> NoMatch(q, CampusEntries()))
            && (r != Fallback ==> exists k :: IsFirstMatch(q, CampusEntries(), k) && r == InfoOf(CampusEntries()[k]))
  {
    var q := Lower(query);
    FindInTableFirstMatch(q, CampusData);
    var r := FindInTable(q, CampusData);
    if r.Some? {
      var k :| IsFirstMatch(q, CampusEntries(), k) && r.value == InfoOf(CampusEntries()[k]);
      CampusEntryNotFallback(k);
    }
  }

  /** Given the first matching triple, the answer is that triple. */
  lemma FirstMatchAnswer(query: string, k: int)
    requires IsFirstMatch(Lower(query), CampusEntries(), k)
    ensures FindRelevantInfo(query) == InfoOf(CampusEntries()[k])
  {
    FindRelevantInfoFirstMatch(query);
    var r := FindRelevantInfo(query);
    if r != Fallback {
      var k' :| IsFirstMatch(Lower(query), CampusEntries(), k') && r == InfoOf(CampusEntries()[k']);
      FirstMatchUnique(Lower(query), CampusEntries(), k, k');
    }
  }

  /** Totality and range: the answer is the fallback, or the answer of
      some key of some category of the table, reported under that
      category. */
  lemma FindRelevantInfoRange(query: string)
    ensures var r := FindRelevantInfo(query);
            r == Fallback || exists c, e :: c in CampusData && e in c.1 && r == Info(e.1, c.0)
  {
    FindRelevantInfoFirstMatch(query);
    var r := FindRelevantInfo(query);
    if r != Fallback {
      var k :| IsFirstMatch(Lower(query), CampusEntries(), k) && r == InfoOf(CampusEntries()[k]);
      EntriesFromTable(CampusData, k);
    }
  }

  /** The categories of the campus table are the five names, none of
      them "general". */
  lemma CampusEntryCategory(k: int)
    requires 0 <= k < |CampusEntries()|
    ensures CampusEntries()[k].category in {"schedules", "faculty", "dining", "library", "admin"}
  {
    CampusEntryAt();
    assert k in {0, 1, 2, 3, 4, 5, 6, 7, 8, 9};
  }

  /** The category of the answer is one of the five table categories or
      "general", and it is "general" exactly for the fallback. */
  lemma FindRelevantInfoCategory(query: string)
    ensures var r := FindRelevantInfo(query);
            r.category in {"schedules", "faculty", "dining", "library", "admin", "general"}
            && (r.category == GeneralCategory <==> r == Fallback)
  {
    FindRelevantInfoFirstMatch(query);
    var r := FindRelevantInfo(query);
    if r != Fallback {
      var k :| IsFirstMatch(Lower(query), CampusEntries(), k) && r == InfoOf(CampusEntries()[k]);
      CampusEntryCategory(k);
    }
  }

  /** Matching ignores the case of the query. */
  lemma FindRelevantInfoCaseInsensitive(query: string)
    ensures FindRelevantInfo(Lower(query)) == FindRelevantInfo(query)
  {
    LowerIdempotent(query);
  }
}
