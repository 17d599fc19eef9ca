/** The task store: the one mutable state object of the to-do page (its task
    list and its filter), the operations that change it, each followed by a
    save to the storage slot, and the inline-edit session that commits an
    edit through it. */
module Store {
  import opened Text
  import opened TaskList

  /** What the single storage slot holds: nothing, text that does not parse,
      or a serialised task list. Whatever parses is taken as it is; nothing
      checks its shape. */
  datatype Slot = Empty | Unreadable | Holds(tasks: seq<Task>)

  class TaskStore {
    var tasks: seq<Task>
    var filter: string
    /** The storage slot; every save writes the whole list into it. */
    ghost var persisted: Slot

    /** The slot holds exactly the in-memory list. */
    ghost predicate Synced()
      reads this
    {
      persisted == Holds(tasks)
    }

    /** The store's promises about its list. */
    ghost predicate Valid()
      reads this
    {
      WellFormed(tasks)
    }

    /** Page start: the list is what the slot holds, or empty when the slot is
        empty or unreadable; the filter starts at 'all'. */
    constructor (stored: Slot)
      ensures tasks == (if stored.Holds? then stored.tasks else [])
      ensures filter == "all" && persisted == stored
      ensures stored.Holds? ==> Synced()
    {
      tasks := if stored.Holds? then stored.tasks else [];
      filter := "all";
      persisted := stored;
    }

    /** Writes the whole list to the slot. */
    ghost method Save()
      modifies this`persisted
      ensures Synced()
    {
      persisted := Holds(tasks);
    }

    /** addTask, with `id` the identifier the page generates for the new
        task. A blank title returns before anything is changed or saved. */
    method AddTask(title: string, id: string)
      modifies this
      ensures tasks == Added(old(tasks), id, title) && filter == old(filter)
      ensures if Trim(title) == [] then persisted == old(persisted) else Synced()
      ensures old(Synced()) ==> Synced()
      ensures old(Valid()) && !HasId(old(tasks), id) ==> Valid()
    {
      var trimmed := Trim(title);
      if trimmed == [] {
        return;
      }
      if Valid() && !HasId(tasks, id) {
        AddedWellFormed(tasks, id, title);
      }
      tasks := tasks + [Task(id, trimmed, false)];
      Save();
    }

    /** toggleTask: flips the flag of the first task carrying `id` and saves,
        found or not. */
    method ToggleTask(id: string)
      modifies this
      ensures tasks == Toggled(old(tasks), id) && filter == old(filter)
      ensures Synced()
      ensures old(Valid()) ==> Valid()
    {
      if Valid() {
        ToggledWellFormed(tasks, id);
      }
      var found := FindIndex(tasks, id);
      if found.Some? {
        var t := tasks[found.value];
        tasks := tasks[found.value := t.(completed := !t.completed)];
      }
      Save();
    }

    /** deleteTask: keeps the tasks whose id differs, and saves. */
    method DeleteTask(id: string)
      modifies this
      ensures tasks == Deleted(old(tasks), id) && filter == old(filter)
      ensures Synced()
      ensures old(Valid()) ==> Valid()
    {
      if Valid() {
        DeletedWellFormed(tasks, id);
      }
      tasks := Select(tasks, IdIsNot(id));
      Save();
    }

    /** clearCompleted: keeps the tasks not completed, and saves. */
    method ClearCompleted()
      modifies this
      ensures tasks == Cleared(old(tasks)) && filter == old(filter)
      ensures Synced()
      ensures old(Valid()) ==> Valid()
    {
      if Valid() {
        ClearedWellFormed(tasks);
      }
      tasks := Select(tasks, NotCompleted);
      Save();
    }

    /** editTask: an unknown id returns before anything is changed or saved;
        a blank title deletes the task; otherwise the task is renamed in
        place. */
    method EditTask(id: string, newTitle: string)
      modifies this
      ensures tasks == Edited(old(tasks), id, newTitle) && filter == old(filter)
      ensures if HasId(old(tasks), id) then Synced() else persisted == old(persisted)
      ensures old(Synced()) ==> Synced()
      ensures old(Valid()) ==> Valid()
    {
      if Valid() {
        EditedWellFormed(tasks, id, newTitle);
      }
      var found := FindIndex(tasks, id);
      if found.None? {
        return;
      }
      var val := Trim(newTitle);
      if val == [] {
        tasks := Select(tasks, IdIsNot(id));
      } else {
        var t := tasks[found.value];
        tasks := tasks[found.value := t.(title := val)];
      }
      Save();
    }

    /** setFilter: changes the filter only; nothing is saved. */
    method SetFilter(value: string)
      modifies this`filter
      ensures filter == value
      ensures tasks == old(tasks) && persisted == old(persisted)
    {
      filter := value;
    }

    /** The tasks the list shows under the current filter. */
    function Visible(): (r: seq<Task>)
      reads this
      ensures IsSubsequence(r, tasks)
      ensures filter == "active" ==> forall t :: t in r <==> t in tasks && !t.completed
      ensures filter == "completed" ==> forall t :: t in r <==> t in tasks && t.completed
    {
      FilteredViews(tasks, filter);
      FilteredTasks(tasks, filter)
    }

    /** The counter label: it counts the tasks of the active view of the
        whole list, whichever view the filter currently shows. */
    function ItemsLeft(): (r: string)
      reads this
      ensures r == CounterText(|FilteredTasks(tasks, "active")|)
    {
      CounterText(RemainingCount(tasks))
    }
  }

  /** One inline edit of one task's title: the edit field with its current
      text, and whether its key and blur listeners are still attached. */
  class EditSession {
    const store: TaskStore
    const taskId: string
    /** The text currently in the edit field. */
    var value: string
    /** Both listeners are attached; `Finish` detaches them. */
    var listening: bool

    /** startEdit: the field starts out holding the task's current title. */
    constructor (store: TaskStore, task: Task)
      ensures this.store == store && taskId == task.id
      ensures value == task.title && listening
    {
      this.store := store;
      taskId := task.id;
      value := task.title;
      listening := true;
    }

    /** The user changes the text in the field. */
    method Type(text: string)
      modifies this`value
      ensures value == text
    {
      value := text;
    }

    /** finish: detaches both listeners, then either commits the field's text
        through editTask or only re-renders, which leaves the store as it
        was. */
    method Finish(commit: bool)
      modifies this`listening, store
      ensures !listening
      ensures commit ==> store.tasks == Edited(old(store.tasks), taskId, value)
      ensures commit ==> if HasId(old(store.tasks), taskId) then store.Synced() else store.persisted == old(store.persisted)
      ensures !commit ==> store.tasks == old(store.tasks) && store.persisted == old(store.persisted)
      ensures store.filter == old(store.filter)
      ensures old(store.Valid()) ==> store.Valid()
    {
      listening := false;
      if commit {
        store.EditTask(taskId, value);
      }
    }

    /** The keydown listener: Enter commits, Escape cancels, any other key
        does nothing. Once the session has finished the listener is gone and
        no key has any effect. */
    method OnKey(key: string)
      modifies this`listening, store
      ensures listening == (old(listening) && key != "Enter" && key != "Escape")
      ensures old(listening) && key == "Enter" ==> store.tasks == Edited(old(store.tasks), taskId, value)
      ensures old(listening) && key == "Enter" ==>
        if HasId(old(store.tasks), taskId) then store.Synced() else store.persisted == old(store.persisted)
      ensures !(old(listening) && key == "Enter") ==>
        store.tasks == old(store.tasks) && store.persisted == old(store.persisted)
      ensures store.filter == old(store.filter)
      ensures old(store.Valid()) ==> store.Valid()
    {
      if listening {
        if key == "Enter" {
          Finish(true);
        } else if key == "Escape" {
          Finish(false);
        }
      }
    }

    /** The blur listener: losing focus commits, unless the session has
        already finished. */
    method OnBlur()
      modifies this`listening, store
      ensures !listening
      ensures old(listening) ==> store.tasks == Edited(old(store.tasks), taskId, value)
      ensures old(listening) ==>
        if HasId(old(store.tasks), taskId) then store.Synced() else store.persisted == old(store.persisted)
      ensures !old(listening) ==> store.tasks == old(store.tasks) && store.persisted == old(store.persisted)
      ensures store.filter == old(store.filter)
      ensures old(store.Valid()) ==> store.Valid()
    {
      if listening {
        Finish(true);
      }
    }
  }

  /** Enter commits the field's text; the blur that follows when the
      re-render removes the field finds no listener, so whatever the field
      holds by then never reaches the store. */
  method EnterThenBlur(s: EditSession, later: string)
    requires s.listening
    modifies s`listening, s`value, s.store
    ensures s.store.tasks == Edited(old(s.store.tasks), s.taskId, old(s.value))
    ensures if HasId(old(s.store.tasks), s.taskId) then s.store.Synced() else s.store.persisted == old(s.store.persisted)
    ensures s.store.filter == old(s.store.filter)
    ensures !s.listening && s.value == later
  {
    s.OnKey("Enter");
    s.Type(later);
    s.OnBlur();
  }

  /** Escape cancels; the blur that follows finds no listener, so nothing is
      committed at all. */
  method EscapeThenBlur(s: EditSession)
    requires s.listening
    modifies s`listening, s.store
    ensures s.store.tasks == old(s.store.tasks) && s.store.persisted == old(s.store.persisted)
    ensures !s.listening
  {
    s.OnKey("Escape");
    s.OnBlur();
  }
}
