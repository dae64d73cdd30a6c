/** The task list's state and its event handlers: the module-level variables
    tasks, currentPage, itemsPerPage and editId become the fields of one
    TaskStore object, and each handler a method that updates them in place.
    The text box, the clock, the confirmation dialog and the id generator are
    outside the model: each handler receives what it would have read from
    them as a parameter. */
module TaskList {
  import opened Text
  import opened Tasks
  import opened Pagination

  /** The page size before the user picks one. */
  const DefaultItemsPerPage := 5

  /** What the render draws, without the markup: the pager summary and either
      the placeholder of an empty list or the tasks of the current page. */
  datatype View = NoTasks(pager: Pager) | Rows(rows: seq<Task>, pager: Pager)

  class TaskStore {
    var tasks: seq<Task>
    var currentPage: int
    var itemsPerPage: int
    var editId: Option<string>
    /** What the browser's storage holds under the key 'tasks' (None: nothing
        stored yet). */
    ghost var saved: Option<seq<Task>>

    /** The page size is positive, as every option of the page-size selector
        is. */
    ghost predicate Valid()
      reads this
    {
      itemsPerPage > 0
    }

    /** The page-bounds invariant on the store. */
    ghost predicate InBounds()
      reads this
    {
      Valid() && PageInBounds(currentPage, |tasks|, itemsPerPage)
    }

    /** The truth value JavaScript gives editId: null and the empty string are
        false. */
    predicate EditActive()
      reads this
      ensures EditActive() ==> editId.Some? && |editId.value| > 0
      ensures editId == None || editId == Some("") ==> !EditActive()
    {
      editId.Some? && editId.value != ""
    }

    /** Start-up: the initial values of the four variables, then loadTasks
        with the list parsed from storage, which it sorts newest-first. */
    constructor (stored: Option<seq<Task>>)
      ensures Valid() && InBounds()
      ensures tasks == (if stored.Some? then SortNewestFirst(stored.value) else [])
      ensures NewestFirst(tasks)
      ensures currentPage == 1 && itemsPerPage == DefaultItemsPerPage && editId == None
      ensures saved == stored
    {
      tasks := [];
      currentPage := 1;
      itemsPerPage := DefaultItemsPerPage;
      editId := None;
      saved := stored;
      if stored.Some? {
        tasks := SortNewestFirst(stored.value);
        SortSorts(stored.value);
      }
    }

    /** saveTasks: storage now holds the whole list. */
    ghost method SaveTasks()
      modifies this`saved
      ensures saved == Some(tasks)
    {
      saved := Some(tasks);
    }

    /** What addTask does: nothing for a blank input; otherwise the new task,
        with the trimmed text, goes in front of the unchanged old list, the
        list is saved and the first page is shown. The edit state is left as
        it was. */
    twostate predicate Added(input: string, now: int, freshId: string)
      reads this
    {
      && itemsPerPage == old(itemsPerPage)
      && editId == old(editId)
      && if Trim(input) == [] then
           tasks == old(tasks) && currentPage == old(currentPage) && saved == old(saved)
         else
           && tasks == [Task(freshId, Trim(input), now)] + old(tasks)
           && currentPage == 1
           && saved == Some(tasks)
    }

    /** addTask, with input for the text box, now for the clock and freshId
        for the id taken from it. */
    method Add(input: string, now: int, freshId: string)
      requires Valid()
      modifies this
      ensures Valid() && Added(input, now, freshId)
      ensures Trim(input) != [] ==> InBounds()
      ensures old(InBounds()) ==> InBounds()
      ensures old(UniqueIds(tasks)) && freshId !in old(Ids(tasks)) ==> UniqueIds(tasks)
      ensures old(NewestFirst(tasks)) && (old(tasks) != [] ==> old(tasks)[0].createdAt <= now)
              ==> NewestFirst(tasks)
    {
      var text := Trim(input);
      if text != [] {
        ghost var before := tasks;
        var task := Task(freshId, text, now);
        tasks := [task] + tasks;
        SaveTasks();
        currentPage := 1;
        if UniqueIds(before) && freshId !in Ids(before) {
          PrependKeepsUnique(task, before);
        }
        if NewestFirst(before) && (before != [] ==> before[0].createdAt <= now) {
          PrependKeepsNewestFirst(task, before);
        }
      }
    }

    /** editTask: switches to edit mode for id when a task carries it, and
        does nothing otherwise. */
    method Edit(id: string)
      modifies this`editId
      ensures editId == if id in Ids(tasks) then Some(id) else old(editId)
    {
      if FindIndex(tasks, id) != -1 {
        editId := Some(id);
      }
    }

    /** resetEdit: back to add mode. */
    method ResetEdit()
      modifies this`editId
      ensures editId == None
    {
      editId := None;
    }

    /** What updateTask does: when the trimmed input is not empty, edit mode
        is on and some task carries editId, the first such task gets the text
        and the time of the edit, the list is re-sorted and saved and edit mode
        ends; otherwise nothing changes. The page stays. */
    twostate predicate Updated(input: string, now: int)
      reads this
    {
      var text := Trim(input);
      var i := if old(editId).Some? then FindIndex(old(tasks), old(editId).value) else -1;
      && currentPage == old(currentPage)
      && itemsPerPage == old(itemsPerPage)
      && if text != [] && old(EditActive()) && i != -1 then
           && tasks == SortNewestFirst(Revise(old(tasks), i, text, now))
           && editId == None
           && saved == Some(tasks)
         else
           tasks == old(tasks) && editId == old(editId) && saved == old(saved)
    }

    /** The body of updateTask once the task is found: the task at i gets the
        text and the time, the list is re-sorted newest-first and saved, and
        edit mode ends. The ids are permuted and the page stays. */
    method ReviseAndResort(i: int, text: string, now: int)
      requires 0 <= i < |tasks|
      modifies this
      ensures tasks == SortNewestFirst(Revise(old(tasks), i, text, now))
      ensures |tasks| == old(|tasks|) && NewestFirst(tasks)
      ensures multiset(Ids(tasks)) == old(multiset(Ids(tasks)))
      ensures saved == Some(tasks) && editId == None
      ensures currentPage == old(currentPage) && itemsPerPage == old(itemsPerPage)
    {
      ReviseThenSort(tasks, i, text, now);
      tasks := SortNewestFirst(Revise(tasks, i, text, now));
      SaveTasks();
      ResetEdit();
    }

    /** updateTask, with input for the text box and now for the clock. */
    method Update(input: string, now: int)
      requires Valid()
      modifies this
      ensures Valid() && Updated(input, now)
      ensures old(InBounds()) ==> InBounds()
      ensures multiset(Ids(tasks)) == old(multiset(Ids(tasks)))
      ensures UniqueIds(tasks) == old(UniqueIds(tasks))
      ensures Trim(input) != [] && old(EditActive()) && old(editId).value in old(Ids(tasks)) ==> NewestFirst(tasks)
    {
      var text := Trim(input);
      if text != [] && EditActive() {
        var taskIndex := FindIndex(tasks, editId.value);
        if taskIndex != -1 {
          ReviseAndResort(taskIndex, text, now);
        }
      }
    }

    /** deleteTask, with confirmed for the answer to the confirmation dialog:
        when confirmed, every task carrying id is dropped, the list is saved,
        and a current page past Math.ceil(|tasks| / itemsPerPage) (and past
        1) is moved back to it. Edit mode is not touched. */
    method Delete(id: string, confirmed: bool)
      requires Valid()
      modifies this
      ensures Valid() && itemsPerPage == old(itemsPerPage) && editId == old(editId)
      ensures if confirmed then
                && tasks == RemoveId(old(tasks), id)
                && saved == Some(tasks)
                && currentPage == PageAfterDelete(old(currentPage), |tasks|, itemsPerPage)
              else
                tasks == old(tasks) && saved == old(saved) && currentPage == old(currentPage)
      ensures old(InBounds() && UniqueIds(tasks)) ==> InBounds() && UniqueIds(tasks)
      ensures old(NewestFirst(tasks)) ==> NewestFirst(tasks)
    {
      if confirmed {
        ghost var before, page := tasks, currentPage;
        tasks := RemoveId(tasks, id);
        SaveTasks();
        var totalPages := CeilDiv(|tasks|, itemsPerPage);
        if currentPage > totalPages && currentPage > 1 {
          currentPage := totalPages;
        }
        if NewestFirst(before) {
          RemoveIdKeepsNewestFirst(before, id);
        }
        if PageInBounds(page, |before|, itemsPerPage) && UniqueIds(before) {
          RemoveIdUnique(before, id);
          DeleteKeepsPageInBounds(page, |before|, |tasks|, itemsPerPage);
        }
      }
    }

    /** The "previous" button: one page back unless on page 1 already. */
    method Prev()
      requires Valid()
      modifies this`currentPage
      ensures currentPage == if old(currentPage) > 1 then old(currentPage) - 1 else old(currentPage)
      ensures old(InBounds()) ==> InBounds()
    {
      if currentPage > 1 {
        currentPage := currentPage - 1;
      }
    }

    /** The "next" button: one page on unless that would pass
        Math.ceil(|tasks| / itemsPerPage). */
    method Next()
      requires Valid()
      modifies this`currentPage
      ensures currentPage ==
        if old(currentPage) < CeilDiv(|tasks|, itemsPerPage) then old(currentPage) + 1 else old(currentPage)
      ensures old(InBounds()) ==> InBounds()
    {
      var totalPages := CeilDiv(|tasks|, itemsPerPage);
      if currentPage < totalPages {
        currentPage := currentPage + 1;
      }
    }

    /** The page-size selector: the chosen size, from the first page. */
    method SetItemsPerPage(n: int)
      requires n > 0
      modifies this`itemsPerPage, this`currentPage
      ensures itemsPerPage == n && currentPage == 1
      ensures InBounds()
    {
      itemsPerPage := n;
      currentPage := 1;
    }

    /** The submit button and the Enter key: update in edit mode, add
        otherwise. */
    method Submit(input: string, now: int, freshId: string)
      requires Valid()
      modifies this
      ensures Valid()
      ensures if old(EditActive()) then Updated(input, now) else Added(input, now, freshId)
      ensures old(InBounds()) ==> InBounds()
    {
      if EditActive() {
        Update(input, now);
      } else {
        Add(input, now, freshId);
      }
    }

    /** renderTasks without the markup: the placeholder exactly when the list
        is empty, otherwise the current page, at most itemsPerPage tasks, none
        of them missing while the page is within the bounds. */
    function Render(): (v: View)
      reads this
      requires Valid()
      ensures v.pager == PagerView(|tasks|, currentPage, itemsPerPage)
      ensures v.NoTasks? <==> tasks == []
      ensures v.Rows? ==> |v.rows| <= itemsPerPage
      ensures v.Rows? && InBounds() ==> v.rows != []
    {
      var pager := PagerView(|tasks|, currentPage, itemsPerPage);
      if |tasks| == 0 then
        NoTasks(pager)
      else
        PageInBoundsShowsTasks(tasks, currentPage, itemsPerPage);
        Rows(PageSlice(tasks, currentPage, itemsPerPage), pager)
    }
  }

  /** Without unique ids a delete can break the page bounds: two tasks that
      share an id, one a page, the second page shown; deleting that id
      empties the list, and the clamp sets the page to
      Math.ceil(0 / 1) = 0. */
  lemma DuplicateIdsCanLeavePageZero()
    ensures var s := [Task("1", "a", 0), Task("1", "b", 0)];
      && PageInBounds(2, |s|, 1)
      && RemoveId(s, "1") == []
      && PageAfterDelete(2, |RemoveId(s, "1")|, 1) == 0
      && !PageInBounds(0, 0, 1)
  {
  }
}
