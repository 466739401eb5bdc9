# Book-club app: in-memory decision logic

This project models the decision logic inside the UI handlers of a small
community book-club web app, and proves properties of it in Dafny. Elsewhere
the app does little more than bind forms and lists to remote tables. The
parts modelled:

- **Poll vote controller** (`app/components/PollsDisplay.js`). It holds a
  class with the signed-in user and the user's vote map (poll id to option
  id). `fetchUserVotes` builds the map from the fetched rows in a loop.
  `handleVote` is the three-way click state machine: a first vote inserts,
  a click on the recorded option withdraws it, and a click on another
  option deletes the old vote and inserts the new one. The file also
  derives the vote total, each option's percentage, the expiry decision
  and the "selected" flag.
- **Admin forms** (`app/admin/page.js`). Poll submission covers blank-option
  filtering, the two-option minimum, edit versus create, and resolving each
  option to free text or to a catalog book. The option list is edited in
  place (add, remove, update at an index) under the button gating that keeps
  it within 2..6 entries. The book form is converted to a record with
  nullable fields and back.
- **Shelves** (`app/my-books/page.js`): per-shelf counts, the shelf filter,
  tab labels and emoji with their fallbacks, and the five-star rating row.
- **Catalog genres** (`app/books/page.js`): the de-duplicated genre list
  headed by `'all'`, the genre filter, per-genre counts and when the genre
  bar is shown.
- **Event times** (`app/components/EventCalendar.js`): `formatTime` (24-hour
  to 12-hour clock) and `isToday`.

Every backend call is replaced by its outcome, which the caller passes in:
success or failure as a `bool`, the new poll's id and the session's user as
an `Option`, and the fetched vote rows as a `seq<VoteRow>`. The operations
that send writes (`HandleVote`, `Click`, `PlanSubmit`, `SubmitPoll`) return
them in order as a sequence of write descriptors. The clock ("now", today's
ISO timestamp) is also a parameter.

Files:

- `Seqs.dfy`: `Option` and a generic `Filter` with its order lemma.
- `Text.dfy`: the JavaScript string operations the screens use.
- `Polls.dfy`, `PollAdmin.dfy`, `Shelves.dfy`, `Catalog.dfy`, `Events.dfy`:
  one module per source file.

JavaScript truthiness is written out where the source relies on it:
- `if (existingVote)` treats option id 0 as "no vote";
- `userBook.rating &&` treats a rating of 0 as "no rating";
- `|| null` and `|| ''` treat `''` and `0` as missing.

## Model

| member | source | states |
|---|---|---|
| Seqs.Filter | app/admin/page.js:231 | `Array.prototype.filter`: the result is no longer than the input, every kept element satisfies the predicate and comes from the input, and every input element satisfying it is kept |
| Seqs.FilterIsIndexed | app/my-books/page.js:54-56 | a filter keeps order: the result has one element per matching index, and its k-th element is the input at the k-th matching index, with the indices strictly increasing and exactly those that match |
| Text.Trim | app/admin/page.js:231 | `trim()` is empty exactly for an all-whitespace string and otherwise starts and ends with a non-whitespace character |
| Text.ParseDecimal | app/admin/page.js:277 | `parseInt` gives a number exactly when the text is a non-empty digit string |
| Text.NatToDecimal | app/components/EventCalendar.js:45 | a number is written as a digit string with no leading zero |
| Text.ParseNatToDecimal | app/components/EventCalendar.js:45 | reading back the written number gives the number |
| Text.NatToDecimalOfCanonical | app/admin/page.js:166-167 | writing back the value of a canonical digit string of at most 15 digits gives that string |
| Text.LeadingDigitPositive | app/admin/page.js:166-167 | a digit string with a non-zero first digit has a positive value, so `|| ''` keeps it |
| Text.Split | app/components/EventCalendar.js:41 | `split` always yields at least one piece |
| Text.JoinSplit | app/components/EventCalendar.js:41 | joining the pieces of a split with the separator gives back the string |
| Text.SplitHead | app/components/EventCalendar.js:41 | a separator-free head followed by the separator is the first piece, and the rest splits on its own |
| Text.SplitFirst | app/components/EventCalendar.js:41 | the first piece of a split is the text before the first separator |
| Text.SplitNoSeparator | app/components/EventCalendar.js:41 | a string without the separator splits into itself alone |
| Polls.VotesOf | app/components/PollsDisplay.js:53-56 | the map after applying the rows in order, each row setting its poll's entry; the last row's poll maps to its option |
| Polls.VotesOfKeys | app/components/PollsDisplay.js:53-56 | the keys of the fetched vote map are exactly the polls in the rows |
| Polls.VotesOfLastWins | app/components/PollsDisplay.js:53-56 | each poll maps to the option of its last row: a later row overrides an earlier one |
| Polls.NextVotes | app/components/PollsDisplay.js:61-113 | the new vote map: without a user, nothing changes; other polls are never touched; a click on the recorded option removes the poll exactly when the delete succeeds; otherwise the insert's outcome alone decides, setting the poll to the clicked option on success and changing nothing on failure |
| Polls.VoteWrites | app/components/PollsDisplay.js:61-104 | the writes of a click: none without a user; a withdrawal is a single delete; otherwise two writes (the delete, then the insert) when a truthy vote is recorded, and the single insert when none is |
| Polls.ToggleRestores | app/components/PollsDisplay.js:69-110 | voting twice for the same option on a poll with no vote, both writes succeeding, restores the original map |
| Polls.SwitchEndsOnSecondChoice | app/components/PollsDisplay.js:87-110 | voting for A then B (B differs from A) with both inserts succeeding leaves B recorded, whatever the intermediate delete returned |
| Polls.TotalVotes | app/components/PollsDisplay.js:137 | the total bounds every option's count, is 0 exactly when every count is 0, and is the count itself for a single option (with `TotalVotesAppend` this pins it to the sum) |
| Polls.TotalVotesAppend | app/components/PollsDisplay.js:137 | the `reduce` is additive: the total of two lists of options is the sum of their totals |
| Polls.ThreeOfTwelve | app/components/PollsDisplay.js:137-169 | an option with 3 of a poll's 12 votes (counts 3 and 9) shows 25% |
| Polls.Percentage | app/components/PollsDisplay.js:169 | 0 when nobody voted; otherwise the exact ratio times 100, within 0..100 when the count does not exceed the total |
| Polls.PercentagesInRange | app/components/PollsDisplay.js:137-169 | every option of a poll shows a percentage in 0..100 |
| Polls.IsExpired | app/components/PollsDisplay.js:139-140 | expired exactly when a deadline is set and lies before now |
| Polls.IsSelected | app/components/PollsDisplay.js:170 | an option shows as selected exactly when it is the one recorded for its poll |
| Polls.AtMostOneSelected | app/components/PollsDisplay.js:170 | among options with distinct ids, at most one shows as selected |
| Polls.VoteController.constructor | app/components/PollsDisplay.js:8-9 | starts with no user and an empty vote map |
| Polls.VoteController.FetchUserVotes | app/components/PollsDisplay.js:46-59 | on success the map becomes the map built from the rows one by one (a loop proved against `VotesOf`); on failure it is kept |
| Polls.VoteController.CheckUser | app/components/PollsDisplay.js:18-24 | records the session's user; fetches that user's votes when there is one, and keeps the map otherwise |
| Polls.VoteController.HandleVote | app/components/PollsDisplay.js:61-113 | the new map is `NextVotes` of the old one and the writes are `VoteWrites` |
| Polls.VoteController.Click | app/components/PollsDisplay.js:175 | a click on an expired poll changes nothing and sends nothing; otherwise it is `HandleVote` |
| PollAdmin.ValidOptions | app/admin/page.js:231 | the valid options are non-blank entries of the list, and every non-blank entry is among them |
| PollAdmin.ValidOptionsInOrder | app/admin/page.js:231 | the valid options are exactly the non-blank entries, in their original order |
| PollAdmin.FindBook | app/admin/page.js:280 | `find` yields nothing exactly when no catalog book has the id, and otherwise the first book that has it |
| PollAdmin.ResolveOption | app/admin/page.js:276-282 | non-numeric text stays as typed, with no book id; numeric text sets the book id; it takes the first matching book's title when that title is non-empty and otherwise keeps the raw text, also when no book matches |
| PollAdmin.OptionRows | app/admin/page.js:276-283 | exactly one option row per valid option, in order, each carrying the new poll's id |
| PollAdmin.PollRowOf | app/admin/page.js:259-267 | the poll row copies the form, with an empty deadline sent as null |
| PollAdmin.PlanSubmit | app/admin/page.js:226-298 | fewer than two valid options: rejected with no write. Edit mode: a single update of the poll row, ending `Updated` or `UpdateFailed` by the backend's answer. Create mode without a signed-in user: nothing is sent (`user.id` throws). Create mode with a user: the poll insert carrying that user as its creator, then, only when it returns an id, one insert of the option rows for that id; it ends `PollInsertFailed`, `OptionsInsertFailed` or `Created` |
| PollAdmin.RejectsOneFilledOption | app/admin/page.js:231-235 | the options `""`, `"  "`, `"Book A"` are rejected before any write |
| PollAdmin.OnlyThirdFilled | app/admin/page.js:231 | of three options of which only the last is non-blank, only that one is valid |
| PollAdmin.WithoutIndex | app/admin/page.js:351 | removing index i gives the entries before i followed by those after it; an index out of range leaves the list unchanged |
| PollAdmin.PollEditor.AddOffered | app/admin/page.js:923 | the add button is shown (create mode, fewer than 6 options) only when one more option still fits within 6 |
| PollAdmin.PollEditor.RemoveOffered | app/admin/page.js:911 | a remove button is shown (more than 2 options) only when the list keeps at least 2 after the removal |
| PollAdmin.PollEditor.constructor | app/admin/page.js:30-36 | starts in create mode with an empty form and three empty options, so within 2..6 |
| PollAdmin.PollEditor.AddPollOption | app/admin/page.js:346-348 | appends one empty option; when the add button is shown (create mode, fewer than 6), a list within 2..6 stays within 2..6 |
| PollAdmin.PollEditor.RemovePollOption | app/admin/page.js:350-353 | drops exactly that entry and keeps the order of the rest; when the remove button is shown (more than 2), a list within 2..6 stays within 2..6 |
| PollAdmin.PollEditor.UpdatePollOption | app/admin/page.js:355-359 | only that entry changes, to the new value, and the length is kept |
| PollAdmin.PollEditor.EditPoll | app/admin/page.js:300-309 | enters edit mode for the poll; the form holds its fields, with a missing description as `''` and the deadline cut to its date part; the options are the poll's option texts |
| PollAdmin.PollEditor.CancelPollEdit | app/admin/page.js:340-344 | back to create mode with the empty form and three empty options |
| PollAdmin.PollEditor.SubmitPoll | app/admin/page.js:226-298 | the submission is `PlanSubmit` of the editor's state; the form resets only after a successful update or creation, and is otherwise left as it was |
| PollAdmin.OrNull | app/admin/page.js:106-109 | `field || null`: null exactly for the empty string, the text otherwise |
| PollAdmin.NumberOrNull | app/admin/page.js:110-111 | an empty field is null; otherwise the field's number when it parses, and null (NaN) otherwise |
| PollAdmin.OrEmpty | app/admin/page.js:162-165 | `value || ''`: empty exactly for null or `''`, the text otherwise |
| PollAdmin.NumberOrEmpty | app/admin/page.js:166-167 | `value || ''` on a number: empty exactly for null or 0; a positive number shows as text that parses back to it |
| PollAdmin.BookDataOf | app/admin/page.js:103-112 | the saved record copies title and author; each optional text field is null exactly when the form field is empty and the text otherwise; each number is present exactly when the field is a digit string, with its value |
| PollAdmin.EditBook | app/admin/page.js:157-169 | the form copies title and author; each text field is empty exactly for null or `''` and the text otherwise; each number field is empty exactly for null or 0 and otherwise text that reads back as the number |
| PollAdmin.BookRoundTrip | app/admin/page.js:103-169 | editing a stored book and saving it unchanged reproduces it: null stays null, non-empty text is unchanged, and positive years and page counts below 10^15 are unchanged |
| PollAdmin.FormRoundTrip | app/admin/page.js:103-169 | saving a form whose number fields are empty or canonical positive numbers of at most 15 digits, then editing the result, gives back the same form |
| PollAdmin.NumberTextRoundTrip | app/admin/page.js:110-111 | an empty or canonical positive number field of at most 15 digits survives parsing and display |
| Shelves.ShelfCountsOf | app/my-books/page.js:45-52 | `all` is the number of rows; each shelf count is the number of rows on that shelf |
| Shelves.ShelfCountsSum | app/my-books/page.js:45-52 | when every row is on a known shelf, the three shelf counts add up to `all` |
| Shelves.FilteredBooks | app/my-books/page.js:54-56 | the `'all'` tab shows every row; any other tab shows exactly the rows on that shelf |
| Shelves.FilteredBooksInOrder | app/my-books/page.js:54-56 | shelf filtering keeps the rows' order |
| Shelves.TabCount | app/my-books/page.js:128 | `counts[shelf]` is defined exactly for the four tab keys |
| Shelves.TabCountMatchesList | app/my-books/page.js:118-128 | the count on each of the four tabs equals the length of the list that tab shows |
| Shelves.ShelfLabel | app/my-books/page.js:58-66 | the fixed label for the four tab keys, and the key itself otherwise |
| Shelves.ShelfEmoji | app/my-books/page.js:68-76 | the table's emoji for the four keys, and the books emoji for anything else |
| Shelves.Stars | app/my-books/page.js:197-208 | the row shows only for a truthy rating; it has five stars, star k filled exactly when k is at most the rating |
| Shelves.FilledPrefixCount | app/my-books/page.js:199-207 | a row whose first r stars are filled and the rest empty has r filled stars |
| Shelves.StarsForRating | app/my-books/page.js:199-207 | a rating r in 1..5 fills exactly r of the five stars |
| Catalog.GenreValues | app/books/page.js:27 | one entry per book with a non-empty genre, in book order: the k-th entry is the genre of the k-th such book |
| Catalog.GenreValuesMembers | app/books/page.js:27 | the genre values are non-empty and are exactly the non-empty genres of the books |
| Catalog.FirstIndex | app/books/page.js:27 | the position of the first occurrence |
| Catalog.Distinct | app/books/page.js:27 | `[...new Set(s)]`: no duplicates, the same elements, in first-occurrence order |
| Catalog.FirstIndexOfPrefix | app/books/page.js:27 | an element of a prefix first occurs at the same place in the whole sequence |
| Catalog.FirstIndexUnique | app/books/page.js:27 | the first occurrence is the only occurrence with none before it |
| Catalog.Genres | app/books/page.js:27 | `'all'` first; the rest have no duplicates and are exactly the non-empty genres of the books |
| Catalog.GenresInFirstOccurrenceOrder | app/books/page.js:27 | the genres after `'all'` appear in the order their first occurrences have among the books' genres |
| Catalog.GenresInBookOrder | app/books/page.js:27 | for two genres after `'all'`, the first book of the earlier genre comes before the first book of the later one |
| Catalog.FirstBookAt | app/books/page.js:27 | a genre's first place among the genre values is the position of the first book with that genre |
| Catalog.FilteredBooks | app/books/page.js:29-31 | `'all'` shows every book; a genre shows exactly the books of that genre |
| Catalog.FilteredBooksInOrder | app/books/page.js:29-31 | genre filtering keeps catalog order |
| Catalog.GenreCount | app/books/page.js:77 | the count on a genre's button is the length of the list filtered to that genre |
| Catalog.ShowGenreBar | app/books/page.js:61 | the genre bar is shown exactly when some book has a non-empty genre |
| Events.DisplayHour | app/components/EventCalendar.js:44 | `hour % 12 || 12`: 12 for a NaN hour, always in 1..12 and congruent to the hour modulo 12; for hours 0..23 it is 12 exactly for hours 0 and 12 |
| Events.Suffix | app/components/EventCalendar.js:43 | "PM" exactly for an hour of 12 or more, "AM" otherwise (NaN included) |
| Events.FormatTime | app/components/EventCalendar.js:39-46 | null exactly for a missing or empty time string |
| Events.FormatTimeOfClockTime | app/components/EventCalendar.js:41-45 | "HH:MM" or "HH:MM:SS" shows as the 12-hour hour, the minutes copied unchanged and AM/PM by the hour; seconds are dropped |
| Events.SplitClockTime | app/components/EventCalendar.js:41 | the first two pieces of "HH:MM[:SS]" are the hour and minute texts |
| Events.DigitsHaveNoColon | app/components/EventCalendar.js:41 | a digit string holds no ':' |
| Events.FormatTimeHourPiece | app/components/EventCalendar.js:42-45 | the text before the output's first ':' is the displayed hour, and reads back as it |
| Events.IsToday | app/components/EventCalendar.js:48-51 | a date is today exactly when it is a 'T'-free prefix of the current ISO timestamp that ends at a 'T' or at the end of the timestamp |
| Events.TodayPrefix | app/components/EventCalendar.js:49 | the text before the first 'T' is the only 'T'-free prefix that ends at a 'T' or at the end |
| Events.IsTodayIffSameDay | app/components/EventCalendar.js:48-51 | for a current timestamp "YYYY-MM-DDT…", an event is today exactly when its date equals "YYYY-MM-DD" |

Remarks on the source:

- Edit mode of `handlePollSubmit` updates only the poll row
  (`app/admin/page.js:237-257`); the option list typed while editing is not
  written. The model follows the code.
- A book whose genre is the literal text `"all"` collides with the `'all'`
  sentinel of `app/books/page.js:27-31`: its button selects every book and
  shows no count. The model keeps this behaviour.
- When a poll's option insert fails, the poll row already inserted stays
  (`app/admin/page.js:259-291`); `PlanSubmit` reports `OptionsInsertFailed`
  with both writes sent.

## Left out

- Backend calls (Supabase select, insert, update, delete, `auth.getUser`). A foreign service: only their outcomes are modelled, as parameters: success or failure, the new poll's id, and the session's user.
- Ordering and limits done by the backend (`order`, `limit` in the fetch queries). The backend does them, not this code.
- `votes_count` maintenance. It happens on the server, so the model takes the counts as given and does not relate them to vote rows.
- `fetchActivePolls` after a vote, `fetchPolls` after a submission, and the "You voted" badge. These are reloads and rendering with no decision logic.
- Clock and locale behaviour: `new Date()`, `toLocaleDateString`, `isThisWeek`, `formatDate`, and parsing deadlines into dates. Time is a parameter: deadlines and now are integers, and today is the current ISO timestamp string.
- Numbers are exact naturals where JavaScript has doubles. Above 2^53 the source rounds the values of `NumberOrNull` (`parseInt` at app/admin/page.js:110-111), and so the numbers `BookDataOf` saves and `ResolveOption`'s book id; `String` then writes the rounded value, or exponent notation from 10^21.
- Text.NatToDecimalOfCanonical: stated only for digit strings of at most 15 digits, because longer ones may not survive the double.
- PollAdmin.NumberTextRoundTrip: stated only for number fields of at most 15 digits, for the same reason.
- PollAdmin.FormRoundTrip: stated only for number fields of at most 15 digits, for the same reason.
- PollAdmin.BookRoundTrip: stated only for stored numbers below 10^15, for the same reason.
- Polls.Percentage: gives the exact ratio instead of the `toFixed(0)` rounding, which is floating-point formatting.
- Text.ParseDecimal: implements `parseInt` only on plain digit strings. Leading whitespace, a sign, `0x` prefixes and a numeric prefix followed by other text ("12abc") count as NaN. Negative book years therefore are not modelled.
- PollAdmin.PollEditor.UpdatePollOption: requires an index inside the list. JavaScript would grow the array with holes for a larger index, but the form only ever calls it with an index of an existing row.
- The non-atomic vote switch (delete, then insert, with the delete's error ignored) is modelled as written, not corrected.
- Shelf and rating changes, deletion, and the other CRUD handlers for books, posts and events (including the writes of `handleBookSubmit`): they bind straight to the backend. The model covers only the construction of `bookData`.
- `app/dashboard/page.js` and `lib/adminHelpers.js` are not part of this model. They hold backend-bound CRUD and a role comparison.
- React rendering, routing, `alert` and `confirm` prompts: presentation only.
- Shelves.ShelfLabel and Shelves.ShelfEmoji: a key naming an `Object.prototype` member (such as `"constructor"`) is treated as unknown. JavaScript would look it up on the prototype.
