/** The admin console's form logic (app/admin/page.js): the poll form's
    option list and its submission (validation, then the poll row, then one
    option row per valid option), and the book form's conversion to a
    record with nullable fields and back. Backend calls are replaced by
    their outcomes; a submission returns the writes it would send. */
module PollAdmin {
  import opened Seqs
  import opened Text

  type PollId = nat
  type BookId = nat
  type UserId = nat

  // ---------------------------------------------------------------------
  // Poll form
  // ---------------------------------------------------------------------

  /** An entry of `booksForPolls` (the author is only displayed). */
  datatype CatalogBook = CatalogBook(id: BookId, title: string)

  /** The poll form's fields (`pollForm`). */
  datatype PollForm = PollForm(question: string, description: string, deadline: string, isActive: bool)

  /** The poll row sent on create or update. */
  datatype PollRow = PollRow(question: string, description: string, deadline: Option<string>, isActive: bool)

  /** A row of `poll_options` sent on create. */
  datatype OptionRow = OptionRow(pollId: PollId, optionText: string, bookId: Option<BookId>)

  datatype PollWrite =
    | UpdatePoll(id: PollId, row: PollRow)
    | InsertPoll(row: PollRow, createdBy: UserId)
    | InsertOptions(rows: seq<OptionRow>)

  /** How a submission ends. `SignedOut` is create mode without a signed-in
      user: reading `user.id` for `created_by` throws before the insert is sent. */
  datatype SubmitOutcome =
    Rejected | Updated | UpdateFailed | SignedOut | PollInsertFailed | OptionsInsertFailed | Created

  /** What a submission did: how it ended and the writes it sent, in order. */
  datatype Submission = Submission(outcome: SubmitOutcome, writes: seq<PollWrite>)

  const EmptyPollForm := PollForm("", "", "", true)
  const InitialOptions: seq<string> := ["", "", ""]

  /** `opt.trim() !== ''`. */
  predicate IsFilled(opt: string) {
    Trim(opt) != ""
  }

  /** `pollOptions.filter(opt => opt.trim() !== '')`. */
  function ValidOptions(options: seq<string>): (valid: seq<string>)
    ensures forall i :: 0 <= i < |valid| ==> !IsBlank(valid[i]) && valid[i] in options
    ensures forall i :: 0 <= i < |options| && !IsBlank(options[i]) ==> options[i] in valid
  {
    Filter(IsFilled, options)
  }

  /** The valid options are exactly the non-blank entries, in their original
      order: they are the entries at the increasing list of non-blank indices. */
  lemma ValidOptionsInOrder(options: seq<string>)
    ensures var idx := IndicesWhere(IsFilled, options);
            |ValidOptions(options)| == |idx| &&
            (forall k :: 0 <= k < |idx| ==> ValidOptions(options)[k] == options[idx[k]]) &&
            (forall k, l :: 0 <= k < l < |idx| ==> idx[k] < idx[l]) &&
            (forall i :: 0 <= i < |options| ==> (i in idx <==> !IsBlank(options[i])))
  {
    FilterIsIndexed(IsFilled, options);
  }

  /** `booksForPolls.find(b => b.id === id)`: the first catalog entry with that id. */
  function FindBook(catalog: seq<CatalogBook>, id: BookId): (r: Option<CatalogBook>)
    ensures r.None? <==> forall k :: 0 <= k < |catalog| ==> catalog[k].id != id
    ensures forall k :: (0 <= k < |catalog| && catalog[k].id == id &&
                         (forall j :: 0 <= j < k ==> catalog[j].id != id)) ==> r == Some(catalog[k])
  {
    if catalog == [] then None
    else if catalog[0].id == id then Some(catalog[0])
    else
      var r := FindBook(catalog[1..], id);
      assert forall k :: 1 <= k < |catalog| ==> catalog[1..][k - 1] == catalog[k];
      r
  }

  /** How one valid option becomes an option row: a non-numeric option is
      free text with no book; a numeric one names a book id, and takes that
      book's title when a catalog book with that id has a non-empty title,
      keeping the raw text otherwise. */
  function ResolveOption(option: string, catalog: seq<CatalogBook>, pollId: PollId): (row: OptionRow)
    ensures row.pollId == pollId
    ensures !IsDecimal(option) ==> row.optionText == option && row.bookId == None
    ensures IsDecimal(option) ==> row.bookId == Some(DecimalValue(option))
    ensures (IsDecimal(option) && forall k :: 0 <= k < |catalog| ==> catalog[k].id != DecimalValue(option)) ==>
              row.optionText == option
    ensures IsDecimal(option) ==>
              forall k :: (0 <= k < |catalog| && catalog[k].id == DecimalValue(option) &&
                           (forall j :: 0 <= j < k ==> catalog[j].id != catalog[k].id)) ==>
                row.optionText == (if catalog[k].title != "" then catalog[k].title else option)
  {
    var bookId := ParseDecimal(option);
    var text :=
      if bookId.None? then option
      else match FindBook(catalog, bookId.value)
        case Some(b) => if b.title != "" then b.title else option
        case None => option;
    OptionRow(pollId, text, bookId)
  }

  /** `validOptions.map(...)`: one row per valid option, all for the new poll. */
  function OptionRows(valid: seq<string>, catalog: seq<CatalogBook>, pollId: PollId): (rows: seq<OptionRow>)
    ensures |rows| == |valid|
    ensures forall i :: 0 <= i < |rows| ==> rows[i].pollId == pollId
    ensures forall i :: 0 <= i < |rows| ==> rows[i] == ResolveOption(valid[i], catalog, pollId)
  {
    seq(|valid|, i requires 0 <= i < |valid| => ResolveOption(valid[i], catalog, pollId))
  }

  /** The poll row built from the form: `deadline || null`; the description
      is sent as typed, even when empty. */
  function PollRowOf(form: PollForm): (row: PollRow)
    ensures row.deadline.None? <==> form.deadline == ""
    ensures row.deadline.Some? ==> row.deadline.value == form.deadline
    ensures row.question == form.question && row.description == form.description
    ensures row.isActive == form.isActive
  {
    PollRow(form.question, form.description, if form.deadline == "" then None else Some(form.deadline),
            form.isActive)
  }

  /** `handlePollSubmit`: `user` is the session's user (read first, at line
      229). With fewer than two non-blank options nothing is written; in edit
      mode only the poll row is updated; in create mode, with a signed-in user,
      the poll is inserted and, when that returns the new id, one option row
      per valid option is inserted for it. */
  function PlanSubmit(options: seq<string>, editing: Option<PollId>, form: PollForm,
                      catalog: seq<CatalogBook>, user: Option<UserId>, updateOk: bool,
                      inserted: Option<PollId>, optionsOk: bool): (s: Submission)
    ensures s.outcome == Rejected <==> |ValidOptions(options)| < 2
    ensures s.outcome == Rejected ==> s.writes == []
    ensures s.outcome != Rejected && editing.Some? ==>
              s.writes == [UpdatePoll(editing.value, PollRowOf(form))] &&
              s.outcome == (if updateOk then Updated else UpdateFailed)
    ensures s.outcome != Rejected && editing.None? && user.None? ==>
              s.outcome == SignedOut && s.writes == []
    ensures s.outcome != Rejected && editing.None? && user.Some? ==>
              1 <= |s.writes| <= 2 && s.writes[0] == InsertPoll(PollRowOf(form), user.value) &&
              (|s.writes| == 2 <==> inserted.Some?) &&
              s.outcome == (if inserted.None? then PollInsertFailed
                            else if optionsOk then Created else OptionsInsertFailed)
    ensures |s.writes| == 2 ==>
              s.writes[1].InsertOptions? &&
              |s.writes[1].rows| == |ValidOptions(options)| &&
              forall i :: 0 <= i < |s.writes[1].rows| ==>
                s.writes[1].rows[i].pollId == inserted.value &&
                s.writes[1].rows[i] == ResolveOption(ValidOptions(options)[i], catalog, inserted.value)
  {
    var valid := ValidOptions(options);
    if |valid| < 2 then Submission(Rejected, [])
    else if editing.Some? then
      Submission(if updateOk then Updated else UpdateFailed, [UpdatePoll(editing.value, PollRowOf(form))])
    else if user.None? then Submission(SignedOut, [])
    else if inserted.None? then
      Submission(PollInsertFailed, [InsertPoll(PollRowOf(form), user.value)])
    else
      Submission(if optionsOk then Created else OptionsInsertFailed,
                 [InsertPoll(PollRowOf(form), user.value),
                  InsertOptions(OptionRows(valid, catalog, inserted.value))])
  }

  /** The options `["", "  ", "Book A"]` are rejected before any write. */
  lemma RejectsOneFilledOption(editing: Option<PollId>, form: PollForm, catalog: seq<CatalogBook>,
                               user: Option<UserId>, updateOk: bool, inserted: Option<PollId>,
                               optionsOk: bool)
    ensures PlanSubmit(["", "  ", "Book A"], editing, form, catalog, user, updateOk, inserted, optionsOk)
            == Submission(Rejected, [])
  {
    OneFilledOption();
  }

  lemma OneFilledOption()
    ensures ValidOptions(["", "  ", "Book A"]) == ["Book A"]
  {
    FillStatus();
    OnlyThirdFilled("", "  ", "Book A");
  }

  lemma OnlyThirdFilled(a: string, b: string, c: string)
    requires !IsFilled(a) && !IsFilled(b) && IsFilled(c)
    ensures ValidOptions([a, b, c]) == [c]
  {
    calc {
      Filter(IsFilled, [a, b, c]);
    == { assert [a, b, c][1..] == [b, c]; }
      Filter(IsFilled, [b, c]);
    == { assert [b, c][1..] == [c]; }
      Filter(IsFilled, [c]);
    == { assert [c][1..] == []; }
      [c];
    }
  }

  lemma FillStatus()
    ensures !IsFilled("") && !IsFilled("  ") && IsFilled("Book A")
  {
    assert IsBlank("  ") by { assert IsWhitespace("  "[0]) && IsWhitespace("  "[1]); }
    assert !IsBlank("Book A") by { assert !IsWhitespace("Book A"[0]); }
  }

  /** `list.filter((_, i) => i !== index)`: drop the entry at `index`, if any. */
  function WithoutIndex<T>(s: seq<T>, index: nat): (r: seq<T>)
    ensures index < |s| ==> r == s[..index] + s[index + 1..]
    ensures index >= |s| ==> r == s
  {
    if s == [] then []
    else if index == 0 then s[1..]
    else [s[0]] + WithoutIndex(s[1..], index - 1)
  }

  /** The poll editor's state: the form, its option list and the poll being
      edited, if any. */
  class PollEditor {
    var form: PollForm
    var options: seq<string>
    var editing: Option<PollId>

    /** The "Add another option" button is shown only in create mode below six options. */
    predicate AddOffered()
      reads this
      ensures AddOffered() ==> |options| + 1 <= 6
    {
      editing.None? && |options| < 6
    }

    /** A row's remove button is shown only above two options. */
    predicate RemoveOffered()
      reads this
      ensures RemoveOffered() ==> |options| - 1 >= 2
    {
      |options| > 2
    }

    predicate InBounds()
      reads this
    {
      2 <= |options| <= 6
    }

    /** The initial state: an empty form in create mode with three empty options. */
    constructor ()
      ensures form == EmptyPollForm && options == InitialOptions && editing == None
      ensures InBounds()
    {
      form := EmptyPollForm;
      options := InitialOptions;
      editing := None;
    }

    /** `addPollOption`: append one empty option; through the button the list
        stays within 2..6. */
    method AddPollOption()
      modifies this`options
      ensures options == old(options) + [""]
      ensures old(AddOffered()) && old(InBounds()) ==> InBounds()
    {
      options := options + [""];
    }

    /** `removePollOption(index)`: drop exactly entry `index`, keeping the order
        of the rest; through a row's button the list stays within 2..6. */
    method RemovePollOption(index: nat)
      modifies this`options
      ensures options == WithoutIndex(old(options), index)
      ensures index < |old(options)| ==> |options| == |old(options)| - 1
      ensures old(RemoveOffered()) && old(InBounds()) && index < |old(options)| ==> InBounds()
    {
      options := WithoutIndex(options, index);
    }

    /** `updatePollOption(index, value)`: only entry `index` changes and the
        length is kept. */
    method UpdatePollOption(index: nat, value: string)
      requires index < |options|
      modifies this`options
      ensures |options| == |old(options)|
      ensures options[index] == value
      ensures forall i :: 0 <= i < |options| && i != index ==> options[i] == old(options)[i]
    {
      var newOptions := options;
      newOptions := newOptions[index := value];
      options := newOptions;
    }

    /** `editPoll(poll)`: load an existing poll into the form; its deadline is
        the date part of the stored timestamp. */
    method EditPoll(id: PollId, question: string, description: Option<string>,
                    deadline: Option<string>, isActive: bool, optionTexts: seq<string>)
      modifies this
      ensures editing == Some(id) && options == optionTexts
      ensures form == PollForm(question, if description.Some? then description.value else "",
                               if deadline.Some? && deadline.value != "" then Split(deadline.value, 'T')[0] else "",
                               isActive)
    {
      editing := Some(id);
      var desc := if description.Some? then description.value else "";
      var day := if deadline.Some? && deadline.value != "" then Split(deadline.value, 'T')[0] else "";
      form := PollForm(question, desc, day, isActive);
      options := optionTexts;
    }

    /** `cancelPollEdit`: back to an empty form in create mode. */
    method CancelPollEdit()
      modifies this
      ensures form == EmptyPollForm && options == InitialOptions && editing == None
    {
      editing := None;
      form := EmptyPollForm;
      options := InitialOptions;
    }

    /** `handlePollSubmit`: send the writes of `PlanSubmit`; reset the form
        only on full success, keep it otherwise. */
    method SubmitPoll(catalog: seq<CatalogBook>, user: Option<UserId>, updateOk: bool,
                      inserted: Option<PollId>, optionsOk: bool)
      returns (s: Submission)
      modifies this
      ensures s == PlanSubmit(old(options), old(editing), old(form), catalog, user, updateOk, inserted, optionsOk)
      ensures s.outcome == Updated || s.outcome == Created ==>
                form == EmptyPollForm && options == InitialOptions && editing == None
      ensures !(s.outcome == Updated || s.outcome == Created) ==>
                form == old(form) && options == old(options) && editing == old(editing)
    {
      s := PlanSubmit(options, editing, form, catalog, user, updateOk, inserted, optionsOk);
      if s.outcome == Updated || s.outcome == Created {
        editing := None;
        form := EmptyPollForm;
        options := InitialOptions;
      }
    }
  }

  // ---------------------------------------------------------------------
  // Book form
  // ---------------------------------------------------------------------

  /** The book form's fields, all text as typed (`bookForm`). */
  datatype BookForm = BookForm(title: string, author: string, description: string, coverUrl: string,
                               isbn: string, genre: string, publishedYear: string, pageCount: string)

  /** A book record with nullable optional fields (`bookData`, and a stored book). */
  datatype BookData = BookData(title: string, author: string, description: Option<string>,
                               coverUrl: Option<string>, isbn: Option<string>, genre: Option<string>,
                               publishedYear: Option<nat>, pageCount: Option<nat>)

  /** `field || null` on a text field. */
  function OrNull(s: string): (r: Option<string>)
    ensures r.None? <==> s == ""
    ensures r.Some? ==> r.value == s
  {
    if s == "" then None else Some(s)
  }

  /** `field ? parseInt(field) : null`; a NaN reaches the backend as null. */
  function NumberOrNull(s: string): (r: Option<nat>)
    ensures s == "" ==> r.None?
    ensures r.Some? <==> IsDecimal(s)
    ensures r.Some? ==> r.value == DecimalValue(s)
  {
    if s == "" then None else ParseDecimal(s)
  }

  /** `value || ''` on a nullable text field. */
  function OrEmpty(v: Option<string>): (s: string)
    ensures s == "" <==> v.None? || v.value == ""
    ensures v.Some? ==> s == v.value
  {
    if v.Some? then v.value else ""
  }

  /** `value || ''` on a nullable number, as the number input shows it; 0 is
      falsy and shows as empty. */
  function NumberOrEmpty(v: Option<nat>): (s: string)
    ensures s == "" <==> v.None? || v.value == 0
    ensures v.Some? && v.value != 0 ==> ParseDecimal(s) == Some(v.value)
  {
    if v.Some? && v.value != 0 then
      ParseNatToDecimal(v.value);
      NatToDecimal(v.value)
    else ""
  }

  /** An optional text field saved from `s`: null exactly when `s` is empty,
      `s` otherwise. */
  predicate SavesText(o: Option<string>, s: string) {
    (o.None? <==> s == "") && (o.Some? ==> o.value == s)
  }

  /** An optional number saved from `s`: present exactly when `s` is a digit
      string, with its value. */
  predicate SavesNumber(o: Option<nat>, s: string) {
    (o.Some? <==> IsDecimal(s)) && (o.Some? ==> o.value == DecimalValue(s))
  }

  /** `bookData`, built from the form in `handleBookSubmit`. */
  function BookDataOf(form: BookForm): (book: BookData)
    ensures book.title == form.title && book.author == form.author
    ensures SavesText(book.description, form.description) && SavesText(book.coverUrl, form.coverUrl)
    ensures SavesText(book.isbn, form.isbn) && SavesText(book.genre, form.genre)
    ensures SavesNumber(book.publishedYear, form.publishedYear) && SavesNumber(book.pageCount, form.pageCount)
  {
    BookData(form.title, form.author, OrNull(form.description), OrNull(form.coverUrl),
             OrNull(form.isbn), OrNull(form.genre), NumberOrNull(form.publishedYear),
             NumberOrNull(form.pageCount))
  }

  /** A form text field shown for `o`: empty exactly for null or `''`. */
  predicate ShowsText(s: string, o: Option<string>) {
    (s == "" <==> o.None? || o.value == "") && (o.Some? ==> s == o.value)
  }

  /** A form number field shown for `o`: empty exactly for null or 0 (falsy),
      otherwise text that reads back as the number. */
  predicate ShowsNumber(s: string, o: Option<nat>) {
    (s == "" <==> o.None? || o.value == 0) && (o.Some? && o.value != 0 ==> ParseDecimal(s) == Some(o.value))
  }

  /** `editBook(book)`: the form filled from a stored book. */
  function EditBook(book: BookData): (form: BookForm)
    ensures form.title == book.title && form.author == book.author
    ensures ShowsText(form.description, book.description) && ShowsText(form.coverUrl, book.coverUrl)
    ensures ShowsText(form.isbn, book.isbn) && ShowsText(form.genre, book.genre)
    ensures ShowsNumber(form.publishedYear, book.publishedYear) && ShowsNumber(form.pageCount, book.pageCount)
  {
    BookForm(book.title, book.author, OrEmpty(book.description), OrEmpty(book.coverUrl),
             OrEmpty(book.isbn), OrEmpty(book.genre), NumberOrEmpty(book.publishedYear),
             NumberOrEmpty(book.pageCount))
  }

  /** 10^15: below it a JavaScript double holds every integer exactly and
      `String` writes it as plain digits. */
  const MaxExactNumber: nat := 1_000_000_000_000_000

  /** Optional text is null or non-empty; optional numbers are null or
      positive and below `MaxExactNumber`. */
  predicate CanonicalBook(book: BookData) {
    && (book.description.Some? ==> book.description.value != "")
    && (book.coverUrl.Some? ==> book.coverUrl.value != "")
    && (book.isbn.Some? ==> book.isbn.value != "")
    && (book.genre.Some? ==> book.genre.value != "")
    && (book.publishedYear.Some? ==> 0 < book.publishedYear.value < MaxExactNumber)
    && (book.pageCount.Some? ==> 0 < book.pageCount.value < MaxExactNumber)
  }

  /** Empty, or the decimal form of a positive number without leading zeros,
      of at most 15 digits (below 2^53, so a JavaScript double holds it exactly). */
  predicate CanonicalNumberText(s: string) {
    s == "" || (IsDecimal(s) && s[0] != '0' && |s| <= 15)
  }

  /** Editing a stored book and saving it unchanged gives back the same record. */
  lemma BookRoundTrip(book: BookData)
    requires CanonicalBook(book)
    ensures BookDataOf(EditBook(book)) == book
  {
  }

  /** Saving a form and editing the result gives back the same form, when its
      number fields hold canonical positive numbers or nothing. */
  lemma {:induction false} FormRoundTrip(form: BookForm)
    requires CanonicalNumberText(form.publishedYear) && CanonicalNumberText(form.pageCount)
    ensures EditBook(BookDataOf(form)) == form
  {
    NumberTextRoundTrip(form.publishedYear);
    NumberTextRoundTrip(form.pageCount);
  }

  lemma NumberTextRoundTrip(s: string)
    requires CanonicalNumberText(s)
    ensures NumberOrEmpty(NumberOrNull(s)) == s
  {
    if s != "" {
      LeadingDigitPositive(s);
      NatToDecimalOfCanonical(s);
    }
  }
}
