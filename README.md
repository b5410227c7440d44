# Campus assistant: keyword matcher and conversation state

This project models the logic of the campus chat widget
`src/components/CampusAssistant.tsx` in Dafny. It has two parts.

The **matcher**, `findRelevantInfo`, answers a student's query from a
fixed table. The table has five categories (schedules, faculty, dining,
library, admin), each with two keys. The matcher:

- lowercases the query;
- walks the categories, and the keys within each category, in
  declaration order;
- returns the first key for which the query contains the key, the
  category name, or any space-separated word of the key;
- returns a fixed help text under the category "general" when no key
  matches.

The **conversation** holds:

- the list of messages, which starts with a greeting;
- the input box;
- the typing indicator.

Sending a non-blank message appends it, clears the input and turns on
the indicator. A timer later appends the matcher's answer and turns the
indicator off. Each quick-action button sends its preset query.

Files:

- `Text.dfy` models the JavaScript string operations the source uses: `trim`
  (through the blank test), `toLowerCase`, `includes` and `split(" ")`.
  Each has a declarative partner and the lemma that connects the two.
- `Campus.dfy` holds the table, the canned answers and the quick-action
  buttons, as written in the source.
- `Matcher.dfy` holds the matcher as nested recursion over the ordered
  table. It also gives a reference definition, "the first matching
  (category, key, answer) triple of the flattened table", and proves
  that the two agree.
- `Outcomes.dfy` proves what the matcher answers for the five quick
  actions, when it gives the fallback, and that one table entry is
  unreachable.
- `Conversation.dfy` holds the conversation as a class with the fields
  `messages`, `inputValue` and `isTyping`, and the methods `Send`,
  `Reply` and `HandleQuickAction`.

Each canned answer is identified by a constructor of `Campus.Answer`
(`ClassSchedule`, `OfficeHours`, …). `Campus.AnswerText` spells out
each answer's exact text. The matcher picks an answer by its key and
never inspects the text. So "the content returned" is stated as "the
answer returned", and a bot message's content is `AnswerText` of that
answer. This keeps the long texts out of the proofs about matching.

Two behaviours of the code are worth stating outright:

- The "Dining Hours" button (`CampusAssistant.tsx:39`) is answered with
  the faculty "office hours" entry, not with dining information. The word
  "hours" of the earlier key "office hours" matches first, as
  `Outcomes.DiningHoursAnswer` proves.
- The quick-action buttons (`CampusAssistant.tsx:175-184`) have no
  `disabled` attribute, so they can be pressed while the assistant is
  typing. Several replies can then be pending at once, and each timer
  may fire in any order. `Reply` may therefore be called for any
  pending message.

## Model

| member | source | states |
|---|---|---|
| Text.TrimEmptyIffBlank | src/components/CampusAssistant.tsx:112 | `message.trim()` is empty exactly when every character of the message is ECMAScript whitespace or a line terminator |
| Text.TrimStart | src/components/CampusAssistant.tsx:112 | the result is the suffix left after removing the leading whitespace run, and it does not start with whitespace |
| Text.TrimEnd | src/components/CampusAssistant.tsx:112 | the result is the prefix left after removing the trailing whitespace run, and it does not end with whitespace |
| Text.Lower | src/components/CampusAssistant.tsx:91 | lowercasing keeps the length and maps each character to its lower-case form, with no upper-case letter left |
| Text.LowerIdempotent | src/components/CampusAssistant.tsx:91 | lowercasing twice is lowercasing once |
| Text.LowerContains | src/components/CampusAssistant.tsx:91-98 | a substring of the query stays a substring after both are lowercased |
| Text.ContainsIff | src/components/CampusAssistant.tsx:96-98 | the scanning `includes` holds exactly when the needle occurs at some index (the empty needle always does) |
| Text.ContainsTransitive | src/components/CampusAssistant.tsx:96-98 | a substring of a substring is a substring |
| Text.Split | src/components/CampusAssistant.tsx:98 | `split(" ")` gives at least one piece and no piece contains the separator |
| Text.JoinSplit | src/components/CampusAssistant.tsx:98 | joining the pieces of `split` with the separator gives back the string |
| Text.SplitJoin | src/components/CampusAssistant.tsx:98 | splitting a join of separator-free pieces gives back the pieces, empty ones included |
| Text.SplitPieceOccurs | src/components/CampusAssistant.tsx:98 | every piece of a key is a substring of the key |
| Matcher.SomeWordInIff | src/components/CampusAssistant.tsx:98 | `.some(word => q.includes(word))` holds exactly when some word of the list is a substring of the query |
| Matcher.KeyMatchesByWords | src/components/CampusAssistant.tsx:96-98 | the three-way match test holds exactly when the query contains the category or one word of the key; the whole-key test is implied by the word test |
| Matcher.FindInCategoryFirstMatch | src/components/CampusAssistant.tsx:95-100 | the inner loop returns the first matching key of its category, and nothing exactly when no key of it matches |
| Matcher.FindInTableFirstMatch | src/components/CampusAssistant.tsx:94-102 | the nested loops return the first matching triple of the flattened table, and nothing exactly when no triple matches |
| Matcher.FirstMatchUnique | src/components/CampusAssistant.tsx:94-101 | there is at most one first matching triple |
| Matcher.EntriesFromTable | src/components/CampusAssistant.tsx:94-95 | every flattened triple comes from one key of one category of the table |
| Matcher.CampusEntriesAre | src/components/CampusAssistant.tsx:45-66 | the campus table flattens to its ten (category, key, answer) triples in declaration order |
| Matcher.FindRelevantInfoFirstMatch | src/components/CampusAssistant.tsx:90-108 | the result is the fallback exactly when no triple matches; otherwise it is the first matching triple's answer and category |
| Matcher.FirstMatchAnswer | src/components/CampusAssistant.tsx:94-101 | once the first matching triple is known, the result is that triple |
| Matcher.FindRelevantInfoRange | src/components/CampusAssistant.tsx:90-109 | the result is the fallback, or some key's answer reported under that key's category |
| Matcher.FindRelevantInfoCategory | src/components/CampusAssistant.tsx:90-109 | the category is one of schedules, faculty, dining, library, admin or general, and it is general exactly for the fallback |
| Matcher.FindRelevantInfoCaseInsensitive | src/components/CampusAssistant.tsx:91 | a query and its lowercase form get the same answer |
| Outcomes.ClassScheduleAnswer | src/components/CampusAssistant.tsx:37 | "Show me my class schedule for today" gets the class schedule under schedules |
| Outcomes.FacultyAnswer | src/components/CampusAssistant.tsx:38 | "Find faculty information" gets the faculty directory under faculty |
| Outcomes.DiningHoursAnswer | src/components/CampusAssistant.tsx:39 | "What are the dining hall hours?" gets the faculty office hours, not dining, because the word "hours" of "office hours" is tried first |
| Outcomes.LibraryAnswer | src/components/CampusAssistant.tsx:40 | "Tell me about library services" gets the library services under library |
| Outcomes.RegistrationAnswer | src/components/CampusAssistant.tsx:41 | "How do I register for classes?" gets the class schedule, not registration, because "class" occurs in "classes" |
| Outcomes.QuickActionAnswers | src/components/CampusAssistant.tsx:36-42 | the answer's category equals the button's category exactly for the first, second and fourth buttons |
| Outcomes.NoVowelFallback | src/components/CampusAssistant.tsx:104-108 | a query with no a, e, i or o in either case gets the general fallback |
| Outcomes.XyzFallback | src/components/CampusAssistant.tsx:104-108 | "xyz123" gets the general fallback |
| Outcomes.LibraryHoursNeverFirst | src/components/CampusAssistant.tsx:52-60 | the "library hours" key is never the first match: a query that matches it also matches "library services" or "office hours" earlier |
| Outcomes.LibraryHoursUnreachable | src/components/CampusAssistant.tsx:60 | no query is answered with the library hours |
| Conversation.BadgeIffMatch | src/components/CampusAssistant.tsx:214 | a reply shows the category badge exactly when some key of the table matched the query |
| Conversation.SendKeepsValid | src/components/CampusAssistant.tsx:121-123 | appending a user message and marking it pending keeps the conversation invariant |
| Conversation.ReplyKeepsValid | src/components/CampusAssistant.tsx:137-138 | appending a reply to a pending message and clearing it keeps the conversation invariant |
| Conversation.Assistant.constructor | src/components/CampusAssistant.tsx:69-78 | the conversation starts with only the greeting, which is from the assistant and has no category; the input is empty and nobody is typing |
| Conversation.Assistant.SetInput | src/components/CampusAssistant.tsx:256 | typing into the input box sets its value and leaves the messages, the typing indicator and the pending replies unchanged |
| Conversation.Assistant.Send | src/components/CampusAssistant.tsx:111-123 | blank input changes nothing; otherwise exactly one user message with the untrimmed text is appended, the earlier messages are kept, the input is cleared and the typing indicator is on |
| Conversation.Assistant.Reply | src/components/CampusAssistant.tsx:126-139 | exactly one assistant message is appended, with the matcher's answer and category for the pending text; the earlier messages are kept and the typing indicator is off |
| Conversation.Assistant.HandleQuickAction | src/components/CampusAssistant.tsx:142-144 | a quick action has exactly the effect of sending its query |

## Left out

- Rendering is left out, because it is presentation only: the JSX, the
  icons, the scroll area, the badge markup, CSS classes, `scrollToBottom`,
  the `useEffect` and the refs. The badge condition is kept as
  `Conversation.ShowsBadge`.
- Message ids (`Date.now()`) and timestamps (`new Date()`) are left out.
  They come from the clock, and no behaviour depends on them.
- The `setTimeout` and its random 1–2 second delay are not modelled.
  Instead, the callback is the separate `Reply` step. Because of timing,
  any pending message may be answered next.
- Text.Lower: models `toLowerCase` on ASCII letters only, because full
  Unicode case mapping is out of reach here. Every key and category is
  lower-case ASCII, so the match outcome differs only for queries with
  non-ASCII capitals whose lower-case forms spell a key.
- `handleKeyPress` (Enter without Shift), the Send button's `onClick`
  (which sends the current `inputValue`) and the `disabled` wiring of the
  input and the Send button are not modelled, because they are DOM event
  handling. The input's `onChange` is kept as `Assistant.SetInput`.
  The Send button is enabled when the input is non-blank and the
  assistant is not typing. The quick-action buttons are never disabled.
- React's batching of `useState` setters is not modelled. Each setter is
  an immediate field update, in program order.
- The functional updates `setMessages(prev => [...prev, m])` are
  modelled as appending to the current `messages` field, which is what
  they do when applied in order.
