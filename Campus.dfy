/** The static data of the campus assistant: the lookup table the matcher
    scans, its canned answers, the fallback answer and the quick-action
    buttons. */
module Campus {

  /** The canned answers. Each is named here and spelled out by `AnswerText`,
      so that reasoning about which answer is chosen does not carry the
      texts themselves. `GeneralHelp` is the fallback. */
  datatype Answer =
    | ClassSchedule | ExamSchedule
    | FacultyDirectory | OfficeHours
    | DiningHours | Menu
    | LibraryServices | LibraryHours
    | Registration | FinancialAid
    | GeneralHelp

  /** The text of each canned answer, verbatim. */
  function AnswerText(a: Answer): string {
    match a
    case ClassSchedule => "📅 **Today's Classes**\n\n• **9:00 AM - 10:30 AM**: Computer Science 101 (Room A-204)\n• **11:00 AM - 12:30 PM**: Mathematics 201 (Room B-105)\n• **2:00 PM - 3:30 PM**: Physics Lab (Lab C-301)\n• **4:00 PM - 5:30 PM**: English Literature (Room D-202)"
    case ExamSchedule => "📝 **Upcoming Exams**\n\n• **March 15**: Midterm - Computer Science 101\n• **March 18**: Quiz - Mathematics 201\n• **March 22**: Final Project Due - Physics Lab\n• **March 25**: Essay Submission - English Literature"
    case FacultyDirectory => "👨\U{200D}🏫 **Faculty Directory**\n\n• **Dr. Sarah Johnson** - Computer Science Dept.\n  📧 s.johnson@university.edu | 📞 (555) 123-4567\n  🕒 Office Hours: Mon-Wed 2-4 PM\n\n• **Prof. Michael Chen** - Mathematics Dept.\n  📧 m.chen@university.edu | 📞 (555) 234-5678\n  🕒 Office Hours: Tue-Thu 10 AM-12 PM"
    case OfficeHours => "🕒 **Faculty Office Hours**\n\n• Most faculty hold office hours Tuesday-Thursday\n• Check individual faculty pages for specific times\n• Virtual office hours available via Zoom\n• Book appointments through the student portal"
    case DiningHours => "🍽\U{FE0F} **Dining Hall Hours**\n\n**Main Cafeteria**\n• Breakfast: 7:00 AM - 10:00 AM\n• Lunch: 11:30 AM - 2:30 PM\n• Dinner: 5:00 PM - 8:00 PM\n\n**Student Union Food Court**\n• Monday-Friday: 8:00 AM - 9:00 PM\n• Weekend: 10:00 AM - 8:00 PM"
    case Menu => "📋 **Today's Menu**\n\n**Lunch Special**\n• Grilled Chicken with Rice\n• Vegetarian Pasta Primavera\n• Fresh Salad Bar\n• Daily Soup: Tomato Basil\n\n**Allergen-Free Options Available**"
    case LibraryServices => "📚 **Library Services**\n\n• **Study Spaces**: Individual & group study rooms\n• **Research Help**: Librarian assistance available\n• **Computer Lab**: 24/7 access with student ID\n• **Printing**: Black & white + color printing\n• **Digital Resources**: Access to academic databases"
    case LibraryHours => "🕒 **Library Hours**\n\n• **Monday-Thursday**: 7:00 AM - 11:00 PM\n• **Friday**: 7:00 AM - 8:00 PM\n• **Saturday**: 9:00 AM - 6:00 PM\n• **Sunday**: 11:00 AM - 10:00 PM\n• **24/7 Study Area**: Always accessible"
    case Registration => "📝 **Course Registration**\n\n1. **Log in** to the student portal\n2. **Browse** available courses by department\n3. **Check** prerequisites and availability\n4. **Add** courses to your schedule\n5. **Submit** registration before deadline\n\n**Registration Dates**: March 1-15 for Fall semester"
    case FinancialAid => "💰 **Financial Aid**\n\n• **FAFSA Deadline**: March 1st annually\n• **Scholarships**: Check scholarship portal monthly\n• **Work-Study**: Applications due February 15th\n• **Emergency Funds**: Contact Student Services\n\n📞 Financial Aid Office: (555) 345-6789"
    case GeneralHelp => "I'd be happy to help! I can assist you with:\n\n🗓\U{FE0F} **Schedules** - Class schedules, exam dates\n👨\U{200D}🏫 **Faculty** - Directory, office hours\n🍽\U{FE0F} **Dining** - Hours, menus, locations\n📚 **Library** - Services, hours, resources\n📋 **Administration** - Registration, financial aid\n\nPlease let me know what specific information you need!"
  }

  /** The nested object `{ category: { key: answer } }`, as an ordered
      sequence: JavaScript enumerates these string keys in insertion order
      (OrdinaryOwnPropertyKeys, section 10.1.11.1 of ECMA-262). */
  type Table = seq<(string, seq<(string, Answer)>)>

  /** The lookup table, in declaration order. */
  const CampusData: Table := [
    ("schedules", [("class schedule", ClassSchedule), ("exam schedule", ExamSchedule)]),
    ("faculty", [("faculty information", FacultyDirectory), ("office hours", OfficeHours)]),
    ("dining", [("dining hours", DiningHours), ("menu", Menu)]),
    ("library", [("library services", LibraryServices), ("library hours", LibraryHours)]),
    ("admin", [("registration", Registration), ("financial aid", FinancialAid)])
  ]

  /** The category reported when nothing in the table matches. */
  const GeneralCategory := "general"

  /** A preset button; its icon is presentation and is left out;
      `caption` is the source's `label` (a reserved word in Dafny). */
  datatype QuickAction = QuickAction(caption: string, query: string, category: string)

  /** The quick-action buttons, in display order. */
  const QuickActions: seq<QuickAction> := [
    QuickAction("Class Schedule", "Show me my class schedule for today", "schedules"),
    QuickAction("Faculty Directory", "Find faculty information", "faculty"),
    QuickAction("Dining Hours", "What are the dining hall hours?", "dining"),
    QuickAction("Library Services", "Tell me about library services", "library"),
    QuickAction("Registration Help", "How do I register for classes?", "admin")
  ]
}
