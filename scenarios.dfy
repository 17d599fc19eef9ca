/** Clients of the store that follow a user through the page; each assertion
    is what the store's contracts guarantee at that point, for every title of
    the stated kind. */
module Scenarios {
  import opened Text
  import opened TaskList
  import opened Store

  /** Add one task, then complete it, then look at each view. */
  method AddThenComplete(title: string)
    requires title != [] && IsTrimmed(title)
  {
    var s := new TaskStore(Empty);
    TrimOfTrimmed(title);
    s.AddTask(title, "m1");
    var task := Task("m1", title, false);
    assert s.tasks == [task];
    assert RemainingCount([task]) == 1;
    assert s.ItemsLeft() == "1 item left";
    s.ToggleTask("m1");
    var done := task.(completed := true);
    assert s.tasks == [done];
    assert RemainingCount([done]) == 0;
    assert s.ItemsLeft() == "0 items left";
    s.SetFilter("active");
    assert s.Visible() == [];
    s.SetFilter("completed");
    assert s.Visible() == [done];
  }

  /** A blank title adds nothing and saves nothing; clearing with nothing
      completed keeps every task in order. */
  method BlankAddThenClear(blank: string, first: string, second: string)
    requires AllSpace(blank)
    requires first != [] && IsTrimmed(first) && second != [] && IsTrimmed(second)
  {
    var s := new TaskStore(Unreadable);
    s.AddTask(blank, "x1");
    assert s.tasks == [] && s.persisted == Unreadable;
    TrimOfTrimmed(first);
    TrimOfTrimmed(second);
    s.AddTask(first, "a1");
    s.AddTask(second, "b1");
    var both := [Task("a1", first, false), Task("b1", second, false)];
    assert s.tasks == both;
    SelectAll(both, NotCompleted);
    s.ClearCompleted();
    assert s.tasks == both && s.Synced();
  }

  /** Committing a blank edit removes the task instead of leaving it with an
      empty title. */
  method EditToBlank(title: string, blank: string)
    requires title != [] && IsTrimmed(title) && AllSpace(blank)
  {
    var s := new TaskStore(Holds([]));
    TrimOfTrimmed(title);
    s.AddTask(title, "x1");
    var task := Task("x1", title, false);
    assert s.tasks == [task];
    var e := new EditSession(s, task);
    e.Type(blank);
    EnterThenBlur(e, title);
    BlankEditOfOnlyTask(task, blank);
    assert s.tasks == [];
  }

  lemma BlankEditOfOnlyTask(t: Task, blank: string)
    requires AllSpace(blank)
    ensures Edited([t], t.id, blank) == []
  {
    EditedBlankIsDeleted([t], t.id, blank);
    assert HasId([t], t.id);
    DeletedRemovesOne([t], t.id);
  }
}
