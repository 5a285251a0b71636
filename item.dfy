/**
 * A to-do item: an id, a task description and a completion flag that
 * starts out false and that the owning collection flips in place.
 */
module Item {

  class ToDoItem {
    var id: int
    var task: string
    var complete: bool

    constructor (id: int, task: string)
      ensures this.id == id && this.task == task && !complete
    {
      this.id := id;
      this.task := task;
      complete := false;
    }
  }

  /** The answer shown after "completed?" in an item's detail line: "Yes" for a completed item, "No" otherwise. */
  function CompletionText(complete: bool): (text: string)
    ensures text == "Yes" <==> complete
    ensures text == "No" <==> !complete
  {
    if complete then "Yes" else "No"
  }
}
