/** The four command handlers of the expense tracker over its backing file. Each one
    reads the whole file, transforms the collection in memory and, for `add` and a
    successful `delete`, writes the whole collection back. */
module Tracker {
  import opened Wrappers
  import opened Expenses

  /** What reading the backing file can find: no file; a file whose text is blank;
      a file whose text is not valid JSON (`JSON.parse` throws); or the records it
      holds, taken verbatim. Valid JSON that is not an array of records is not part of
      this model. */
  datatype FileContent = Missing | Blank | Malformed | Records(items: seq<Expense>)

  datatype AddOutcome =
    | Added           // "New expense added successfully."
    | MissingField    // an option given as empty text: "Description and amount are required.";
                      // an option left out: the command-line parser's own error; exit status 1 either way
    | NegativeAmount  // "Expense amount must be positive number.", exit status 1

  datatype DeleteOutcome =
    | NoExpenses      // no backing file: "No expenses found."
    | NotFound        // "Expense with the given id not found."
    | Deleted         // "Expense deleted successfully."
    | Failed          // the content did not parse: the error is printed, exit status 1

  datatype ListOutcome =
    | NothingToList   // no backing file, or an empty collection: "No expenses found."
    | ListFailed      // the content did not parse: the error is printed, exit status 1
    | Table(rows: seq<Row>)

  datatype SummaryOutcome =
    | NoSummary       // no backing file: "No expenses found."
    | SummaryFailed   // the content did not parse: the error is printed, exit status 1
    | Report(summary: map<string, real>, total: Option<real>)

  /** The collection `add` starts from: it tolerates a missing, blank or unreadable file
      by starting from the empty collection, which it then writes over the file. */
  function CollectionForAdd(f: FileContent): seq<Expense>
  {
    if f.Records? then f.items else []
  }

  /** An amount option is missing when it was not given or was given as empty text;
      `None` stands for both. A description is missing when it is absent or empty. */
  predicate RequiredMissing(description: Option<string>, amount: Option<real>)
  {
    description == None || description == Some("") || amount == None
  }

  /** The backing file, with the number of times it has been overwritten. */
  class ExpenseStore {
    var content: FileContent
    var writes: nat

    constructor (content: FileContent)
      ensures this.content == content && writes == 0
    {
      this.content := content;
      writes := 0;
    }

    /** The `add` command. `id` stands for the fresh `uuidv4()` and `timestamp` for
        `new Date().toISOString()`. The options are checked before the file is touched;
        a valid expense is appended to the collection read from the file, and the
        collection is written back. */
    method Add(description: Option<string>, amount: Option<real>, id: string, timestamp: string)
      returns (outcome: AddOutcome)
      modifies this
      ensures outcome == MissingField <==> RequiredMissing(description, amount)
      ensures outcome == NegativeAmount <==> !RequiredMissing(description, amount) && amount.value < 0.0
      ensures outcome != Added ==> content == old(content) && writes == old(writes)
      ensures outcome == Added ==> description.Some? && amount.Some? && writes == old(writes) + 1
      ensures outcome == Added && old(content).Records? ==>
        content == Records(old(content).items
                           + [Expense(id, description.value, amount.value, DateOf(timestamp))])
      ensures outcome == Added && !old(content).Records? ==>
        content == Records([Expense(id, description.value, amount.value, DateOf(timestamp))])
    {
      if RequiredMissing(description, amount) {
        return MissingField;
      }
      if amount.value < 0.0 {
        return NegativeAmount;
      }
      var expenses := CollectionForAdd(content);
      var newExpense := Expense(id, description.value, amount.value, DateOf(timestamp));
      expenses := expenses + [newExpense];
      content := Records(expenses);
      writes := writes + 1;
      outcome := Added;
    }

    /** The `delete` command: find the first record with the id; if there is one, remove
        it and write the collection back, otherwise leave the file alone. */
    method Delete(id: string) returns (outcome: DeleteOutcome)
      modifies this
      ensures old(content) == Missing ==> outcome == NoExpenses
      ensures old(content) == Blank || old(content) == Malformed ==> outcome == Failed
      ensures old(content).Records? ==>
        (outcome == NotFound <==> !HasId(old(content).items, id))
        && (outcome == Deleted <==> HasId(old(content).items, id))
      ensures outcome != Deleted ==> content == old(content) && writes == old(writes)
      ensures outcome == Deleted ==>
        && old(content).Records?
        && content == Records(RemoveFirst(old(content).items, id))
        && writes == old(writes) + 1
    {
      match content
      case Missing =>
        outcome := NoExpenses;
      case Blank =>
        outcome := Failed;
      case Malformed =>
        outcome := Failed;
      case Records(expenses) =>
        var expenseIndex := FindIndex(expenses, id);
        if expenseIndex == -1 {
          outcome := NotFound;
        } else {
          RemoveFirstAt(expenses, id, expenseIndex);
          content := Records(expenses[..expenseIndex] + expenses[expenseIndex + 1..]);
          writes := writes + 1;
          outcome := Deleted;
        }
    }

    /** The `list` command: one numbered row per record, in storage order. */
    function List(): (r: ListOutcome)
      reads this
      ensures r == NothingToList <==> content == Missing || content == Records([])
      ensures r == ListFailed <==> content == Blank || content == Malformed
      ensures r.Table? ==>
        content.Records? && |r.rows| == |content.items| > 0
        && forall i :: 0 <= i < |r.rows| ==>
             r.rows[i].number == i + 1 && r.rows[i].date == content.items[i].date
             && r.rows[i].description == content.items[i].description
             && r.rows[i].amount == content.items[i].amount
    {
      match content
      case Missing => NothingToList
      case Blank => ListFailed
      case Malformed => ListFailed
      case Records(expenses) =>
        if |expenses| == 0 then NothingToList else Table(ListRows(expenses))
    }

    /** The `summary` command: the reduction over the collection, and the total printed
        for the month, which is `undefined` (here `None`) when the month's key is absent. */
    function Summary(month: Option<string>): (r: SummaryOutcome)
      reads this
      ensures content == Missing <==> r == NoSummary
      ensures content == Blank || content == Malformed <==> r == SummaryFailed
      ensures r.Report? ==>
        && content.Records?
        && var matching := InMonthRecords(content.items, month);
           && r.summary.Keys <= {KeyOf(month)}
           && (r.total == None <==> matching == [])
           && (matching == [] ==> r.summary == map[])
           && (r.total.Some? ==> r.summary == map[KeyOf(month) := Sum(matching)]
                                 && r.total == Some(Sum(matching)))
    {
      match content
      case Missing => NoSummary
      case Blank => SummaryFailed
      case Malformed => SummaryFailed
      case Records(expenses) =>
        var summary := Summarize(expenses, month);
        var key := KeyOf(month);
        SummarizeTotals(expenses, month);
        Report(summary, if key in summary then Some(summary[key]) else None)
    }
  }
}
