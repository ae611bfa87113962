/** The task records of the board, how a record is built from the creation
    form, the category columns the board shows, and the overdue check. */
module Tasks {
  import opened Text
  import opened Dates

  /** A task record as the board stores it. Every field is the string the
      form produced; `sharedWith` is the list of user names. */
  datatype Task = Task(
    id: string,
    name: string,
    description: string,
    dueDate: string,
    priority: string,
    sharedWith: seq<string>,
    category: string)

  /** The values of the creation form's fields when it is submitted. */
  datatype Form = Form(
    taskName: string,
    description: string,
    dueDate: string,
    priority: string,
    shareWith: string)

  const NotYetStarted: string := "Not Yet Started"
  const InProgress: string := "In Progress"
  const Finished: string := "Finished"

  /** The three fixed columns, in display order. */
  const Categories: seq<string> := [NotYetStarted, InProgress, Finished]

  /** The three categories are different strings. */
  lemma CategoriesDistinct()
    ensures NotYetStarted != InProgress && NotYetStarted != Finished && InProgress != Finished
  {
    assert |NotYetStarted| == 15 && |InProgress| == 11 && |Finished| == 8;
  }

  /** The priority a fresh form starts with. */
  const DefaultPriority: string := "Medium"

  /** The form as it is before anything is typed and after each submit. */
  const EmptyForm: Form := Form("", "", "", DefaultPriority, "")

  // ---------------------------------------------------------------------
  // task creation

  /** `shareWith.split(",").map(user => user.trim())`: one entry per
      comma-separated piece, each trimmed; empty pieces are kept. */
  function SharedWith(shareWith: string): (r: seq<string>)
    ensures |r| == Occurrences(shareWith, ',') + 1
    ensures forall i :: 0 <= i < |r| ==> r[i] == Trim(Split(shareWith, ',')[i])
  {
    var pieces := Split(shareWith, ',');
    seq(|pieces|, i requires 0 <= i < |pieces| => Trim(pieces[i]))
  }

  /** No entry contains a comma or starts or ends with whitespace. */
  lemma SharedWithEntriesAreClean(shareWith: string)
    ensures forall i :: 0 <= i < |SharedWith(shareWith)| ==>
      var u := SharedWith(shareWith)[i];
      ',' !in u && (u == [] || (!IsWhitespace(u[0]) && !IsWhitespace(u[|u| - 1])))
  {
    var pieces := Split(shareWith, ',');
    SplitPiecesExcludeSeparator(shareWith, ',');
    forall i | 0 <= i < |pieces|
      ensures ',' !in SharedWith(shareWith)[i]
    {
      var p := pieces[i];
      TrimIsInfix(p);
      var k := LeadingWhitespace(p);
      forall j | 0 <= j < |Trim(p)| ensures Trim(p)[j] != ',' {
        assert Trim(p)[j] == p[k + j];
      }
    }
  }

  /** Blank input gives one empty name, not an empty list. */
  lemma SharedWithOfEmptyInput()
    ensures SharedWith("") == [""]
  {
    assert Split("", ',') == [""];
    assert Trim("") == "";
  }

  /** A comma-separated list of clean names is read back as that list. */
  lemma SharedWithOfJoin(users: seq<string>)
    requires |users| > 0
    requires forall i :: 0 <= i < |users| ==> ',' !in users[i] && Trim(users[i]) == users[i]
    ensures SharedWith(Join(users, ',')) == users
  {
    SplitJoin(users, ',');
  }

  /** A lone comma gives two empty names. */
  lemma SharedWithOfLoneComma()
    ensures SharedWith(",") == ["", ""]
  {
    assert ","[1..] == "";
    assert Split(",", ',') == ["", ""];
    assert Trim("") == "";
  }

  /** The record that `handleTaskSubmit` appends: the form's fields copied,
      the shared-with list split and trimmed, and the first column. The
      identifier is a parameter: the board derives it from the clock. */
  function NewTask(form: Form, id: string): (t: Task)
    ensures t.id == id && t.category == NotYetStarted && t.category in Categories
    ensures t.name == form.taskName && t.description == form.description
    ensures t.dueDate == form.dueDate && t.priority == form.priority
    ensures t.sharedWith == SharedWith(form.shareWith)
    ensures |t.sharedWith| == Occurrences(form.shareWith, ',') + 1
  {
    Task(id, form.taskName, form.description, form.dueDate, form.priority,
         SharedWith(form.shareWith), NotYetStarted)
  }

  // ---------------------------------------------------------------------
  // columns

  /** Every task sits in one of the three columns. */
  predicate AllCategorized(tasks: seq<Task>)
  {
    forall i :: 0 <= i < |tasks| ==> tasks[i].category in Categories
  }

  /** `tasks.filter(task => task.category === category)`. */
  function Column(tasks: seq<Task>, category: string): (r: seq<Task>)
    ensures |r| <= |tasks|
    ensures forall k :: 0 <= k < |r| ==> r[k].category == category
  {
    if |tasks| == 0 then []
    else
      var prefix := Column(tasks[..|tasks| - 1], category);
      var last := tasks[|tasks| - 1];
      if last.category == category then prefix + [last] else prefix
  }

  /** The positions in `tasks` of the tasks in a column, in the order the
      column shows them: column entry k is the task at master position
      `ColumnPositions(tasks, category)[k]`. The positions strictly increase
      (the column keeps the master order) and every task of that category
      has its position listed. */
  function ColumnPositions(tasks: seq<Task>, category: string): (ps: seq<nat>)
    ensures |ps| == |Column(tasks, category)|
    ensures forall k :: 0 <= k < |ps| ==>
      ps[k] < |tasks| && Column(tasks, category)[k] == tasks[ps[k]]
    ensures forall k, l :: 0 <= k < l < |ps| ==> ps[k] < ps[l]
    ensures forall i :: 0 <= i < |tasks| && tasks[i].category == category ==> i in ps
  {
    if |tasks| == 0 then []
    else
      var n := |tasks| - 1;
      var prefix := ColumnPositions(tasks[..n], category);
      if tasks[n].category == category then prefix + [n] else prefix
  }

  /** Filtering a concatenation filters each part. */
  lemma {:induction false} ColumnConcat(s: seq<Task>, t: seq<Task>, category: string)
    ensures Column(s + t, category) == Column(s, category) + Column(t, category)
  {
    if |t| == 0 {
      assert s + t == s;
    } else {
      var n := |t| - 1;
      assert (s + t)[..|s + t| - 1] == s + t[..n];
      ColumnConcat(s, t[..n], category);
    }
  }

  lemma ColumnOfOne(t: Task, category: string)
    ensures Column([t], category) == if t.category == category then [t] else []
  {
    assert [t][..0] == [];
  }

  /** Appending a task extends its own column only. */
  lemma ColumnSnoc(front: seq<Task>, last: Task, category: string)
    ensures Column(front + [last], category) ==
            Column(front, category) + (if last.category == category then [last] else [])
  {
    assert (front + [last])[..|front|] == front;
  }

  /** When every task is categorized, the three columns together hold every
      task exactly once. */
  lemma {:induction false} ColumnsPartition(tasks: seq<Task>)
    requires AllCategorized(tasks)
    ensures multiset(Column(tasks, NotYetStarted)) + multiset(Column(tasks, InProgress)) +
            multiset(Column(tasks, Finished)) == multiset(tasks)
  {
    if |tasks| > 0 {
      var n := |tasks| - 1;
      var front, last := tasks[..n], tasks[n];
      assert tasks == front + [last];
      assert AllCategorized(front) by {
        forall i | 0 <= i < n ensures front[i].category in Categories {
          assert front[i] == tasks[i];
        }
      }
      ColumnsPartition(front);
      ColumnSnoc(front, last, NotYetStarted);
      ColumnSnoc(front, last, InProgress);
      ColumnSnoc(front, last, Finished);
      CategoriesDistinct();
      var a, b, c := multiset(Column(front, NotYetStarted)), multiset(Column(front, InProgress)),
                     multiset(Column(front, Finished));
      var a', b', c' := multiset(Column(tasks, NotYetStarted)), multiset(Column(tasks, InProgress)),
                        multiset(Column(tasks, Finished));
      assert multiset(tasks) == multiset(front) + multiset{last};
      if last.category == NotYetStarted {
        assert a' == a + multiset{last} && b' == b && c' == c;
      } else if last.category == InProgress {
        assert a' == a && b' == b + multiset{last} && c' == c;
      } else {
        assert a' == a && b' == b && c' == c + multiset{last};
      }
    }
  }

  /** So the three column lengths add up to the number of tasks. */
  lemma ColumnSizesAddUp(tasks: seq<Task>)
    requires AllCategorized(tasks)
    ensures |Column(tasks, NotYetStarted)| + |Column(tasks, InProgress)| +
            |Column(tasks, Finished)| == |tasks|
  {
    ColumnsPartition(tasks);
    assert |multiset(tasks)| == |tasks|;
  }

  /** A newly appended task shows up last in the first column and nowhere
      else. */
  lemma NewTaskJoinsFirstColumn(tasks: seq<Task>, form: Form, id: string, category: string)
    ensures Column(tasks + [NewTask(form, id)], category) ==
            if category == NotYetStarted then Column(tasks, category) + [NewTask(form, id)]
            else Column(tasks, category)
  {
    ColumnConcat(tasks, [NewTask(form, id)], category);
    ColumnOfOne(NewTask(form, id), category);
  }

  /** A list whose tasks all have the category "Not Yet Started" is its own
      first column, in the same order. Every `NewTask` has that category, so
      tasks submitted one after another with no drag in between make up the
      first column in the order they were created. */
  lemma {:induction false} CreatedTasksFormFirstColumn(created: seq<Task>)
    requires forall i :: 0 <= i < |created| ==> created[i].category == NotYetStarted
    ensures Column(created, NotYetStarted) == created
  {
    if |created| > 0 {
      var n := |created| - 1;
      CreatedTasksFormFirstColumn(created[..n]);
      assert created == created[..n] + [created[n]];
    }
  }

  // ---------------------------------------------------------------------
  // overdue

  /** `task.dueDate && task.dueDate < today`: a non-empty due date that
      compares below today's date as a string. Since string order is total,
      that is a due date that is set, is not today's, and does not come after
      today. Today's date is a parameter: the board reads it from the clock. */
  function IsOverdue(task: Task, today: string): (r: bool)
    ensures r <==> task.dueDate != "" && task.dueDate != today && !LexLess(today, task.dueDate)
  {
    LexLessIrreflexive(today);
    LexLessAsymmetric(task.dueDate, today);
    var overdue := task.dueDate != "" && LexLess(task.dueDate, today);
    if task.dueDate == today then overdue
    else LexLessTotal(task.dueDate, today); overdue
  }

  /** A task without a due date is never overdue. */
  lemma NoDueDateNeverOverdue(task: Task, today: string)
    requires task.dueDate == ""
    ensures !IsOverdue(task, today)
  {
  }

  /** For well-formed dates, overdue means due on an earlier calendar day. */
  lemma IsOverdueChronological(task: Task, today: string)
    requires IsIsoDate(task.dueDate) && IsIsoDate(today)
    ensures IsOverdue(task, today) <==> Earlier(task.dueDate, today)
  {
    IsoDateOrderIsChronological(task.dueDate, today);
  }

  /** A task due a month before today is overdue; one due a month after is
      not. */
  lemma OverdueExamples(task: Task)
    ensures IsOverdue(task.(dueDate := "2024-05-01"), "2024-06-01")
    ensures !IsOverdue(task.(dueDate := "2024-07-01"), "2024-06-01")
  {
    assert "2024-05-01" == "2024-0" + "5-01";
    assert "2024-06-01" == "2024-0" + "6-01";
    assert "2024-07-01" == "2024-0" + "7-01";
    LexLessIrreflexive("2024-0");
    LexLessConcat("2024-0", "2024-0", "5-01", "6-01");
    LexLessConcat("2024-0", "2024-0", "7-01", "6-01");
  }

  /** A task due today is not overdue. */
  lemma DueTodayNotOverdue(task: Task, today: string)
    requires task.dueDate == today
    ensures !IsOverdue(task, today)
  {
    LexLessIrreflexive(today);
  }
}
