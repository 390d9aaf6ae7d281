/**
 * The HTTP handlers of the server over the task store: the task routes with
 * their status codes, the chat route that turns a completion into a reply and
 * at most one new task, and the seeding of an empty table.
 */
module ServerRoutes {
  import opened Wrappers
  import opened JsString
  import opened Schema
  import opened Storage
  import opened SharedRoutes
  import opened TaskExtraction

  datatype Body =
    | TaskBody(row: Task)
    | TaskList(tasks: seq<Task>)
    | Message(text: string)
    | NoContent
    | ChatReply(message: string, task: Option<ChatTask>)

  datatype Response = Response(status: int, body: Body)

  /** JavaScript `v || fallback` for a nullable string. */
  function OrString(v: Option<string>, fallback: string): (r: string)
    ensures v.None? ==> r == fallback
    ensures fallback == "" ==> r == v.GetOr("")
  {
    if v.Some? && v.value != "" then v.value else fallback
  }

  /** JavaScript `v || fallback` for a nullable integer. */
  function OrInt(v: Option<int>, fallback: int): (r: int)
    ensures v.None? ==> r == fallback
    ensures fallback == 0 ==> r == v.GetOr(0)
  {
    if v.Some? && v.value != 0 then v.value else fallback
  }

  /**
   * The `task` of the chat reply, built from the stored row. The `||`
   * fallbacks are the only falsy values of their columns besides null, so the
   * reply carries the stored description and time limit, or "" and 0 for null.
   */
  function ChatTaskOf(t: Task): (c: ChatTask)
    ensures c.title == t.title
    ensures c.description == t.description.GetOr("")
    ensures c.timeLimit == t.timeLimit.GetOr(0)
  {
    ChatTask(t.title, OrString(t.description, ""), OrInt(t.timeLimit, 0))
  }

  /** `GET /api/tasks`: 200 with every row in creation order. */
  method ListTasks(store: TaskTable) returns (res: Response)
    ensures res == Response(200, TaskList(store.rows))
  {
    var tasks := store.GetTasks();
    res := Response(200, TaskList(tasks));
  }

  /**
   * `POST /api/tasks`. `input` is the validated body (`None` when validation
   * throws), `storeAccepts` whether the database takes the row.
   */
  method CreateTaskRoute(store: TaskTable, input: Option<InsertTask>, storeAccepts: InsertTask -> bool, now: int)
    returns (res: Response)
    requires store.Valid()
    modifies store
    ensures store.Valid()
    ensures input.None? ==>
              res == Response(400, Message("Invalid input")) && unchanged(store)
    ensures input.Some? && !storeAccepts(input.value) ==>
              res == Response(500, Message("Internal server error")) && unchanged(store)
    ensures input.Some? && storeAccepts(input.value) ==>
              && res == Response(201, TaskBody(NewRow(input.value, old(store.nextId), now)))
              && store.rows == old(store.rows) + [res.body.row]
              && store.nextId == old(store.nextId) + 1
  {
    if input.None? {
      res := Response(400, Message("Invalid input"));
      return;
    }
    if !storeAccepts(input.value) {
      res := Response(500, Message("Internal server error"));
      return;
    }
    var task := store.CreateTask(input.value, now);
    res := Response(201, TaskBody(task));
  }

  /** `PATCH /api/tasks/:id/complete`: 200 with the updated row, or 404 and no change for an unknown id. */
  method CompleteTaskRoute(store: TaskTable, id: int) returns (res: Response)
    requires store.Valid()
    modifies store
    ensures store.Valid() && store.nextId == old(store.nextId)
    ensures FindIndex(old(store.rows), id).None? ==>
              res == Response(404, Message("Task not found")) && store.rows == old(store.rows)
    ensures FindIndex(old(store.rows), id).Some? ==>
              var k := FindIndex(old(store.rows), id).value;
              && res == Response(200, TaskBody(old(store.rows)[k].(completed := Some(true))))
              && store.rows == old(store.rows)[k := res.body.row]
  {
    var task := store.CompleteTask(id);
    if task.None? {
      res := Response(404, Message("Task not found"));
    } else {
      res := Response(200, TaskBody(task.value));
    }
  }

  /** `DELETE /api/tasks/:id`: always 204, whether or not the id was there. */
  method DeleteTaskRoute(store: TaskTable, id: int) returns (res: Response)
    requires store.Valid()
    modifies store
    ensures store.Valid() && store.nextId == old(store.nextId)
    ensures res == Response(204, NoContent)
    ensures store.rows == DeleteRows(old(store.rows), id)
  {
    store.DeleteTask(id);
    res := Response(204, NoContent);
  }

  /** The outcome of the call to the language model. */
  datatype Completion = CallFailed | Reply(content: Option<string>)

  /**
   * `POST /api/chat`. `requestValid` says whether the body validated,
   * `completion` is the model's answer, `parse` stands for `JSON.parse` and
   * `storeAccepts` for the database's verdict on the row. A failed request or
   * model call is a 500; otherwise the reply is the extraction's message and,
   * when a row was stored, that row's task. At most one row is added.
   */
  method ChatRoute(store: TaskTable, requestValid: bool, completion: Completion,
                   parse: string -> Option<TaskJson>, storeAccepts: InsertTask -> bool, now: int)
    returns (res: Response)
    requires store.Valid()
    modifies store
    ensures store.Valid()
    ensures !requestValid || completion.CallFailed? ==>
              res == Response(500, Message("Failed to process chat")) && unchanged(store)
    ensures requestValid && completion.Reply? ==>
              var x := Extract(completion.content, parse, storeAccepts);
              && res.status == 200
              && res.body.ChatReply? && res.body.message == x.message
              && (x.row.None? ==> res.body.task.None? && unchanged(store))
              && (x.row.Some? ==>
                    var stored := NewRow(x.row.value, old(store.nextId), now);
                    && store.rows == old(store.rows) + [stored]
                    && store.nextId == old(store.nextId) + 1
                    && res.body.task == Some(ChatTaskOf(stored)))
  {
    if !requestValid || completion.CallFailed? {
      res := Response(500, Message("Failed to process chat"));
      return;
    }
    var aiContent := completion.content.GetOr("");
    var finalMessage := aiContent;
    var createdTask: Option<Task> := None;
    ghost var x := Extract(completion.content, parse, storeAccepts);

    var taskMatch := FindDirective(aiContent);
    if taskMatch.Some? && Payload(aiContent, taskMatch.value) != [] {
      var m := taskMatch.value;
      var taskData := parse(Trim(Payload(aiContent, m)));
      if taskData.Some? {
        var row := RowOf(taskData.value);
        if row.Some? && storeAccepts(row.value) {
          assert x.row == row;
          var task := store.CreateTask(row.value, now);
          createdTask := Some(task);
          finalMessage := Trim(Replace(aiContent, MatchedText(aiContent, m), ""));
          assert x.message == finalMessage;
        } else {
          assert x == Extraction(aiContent, None);
        }
      } else {
        assert x == Extraction(aiContent, None);
      }
    } else {
      assert x == Extraction(aiContent, None);
    }

    res := Response(200, ChatReply(finalMessage,
                                   if createdTask.Some? then Some(ChatTaskOf(createdTask.value)) else None));
  }

  const BiologyTask := InsertTask("Review Biology Chapter 5", Some("Focus on cell division and mitosis."), Some(45))
  const MathTask := InsertTask("Math Problems: Quadratic Equations", Some("Solve exercise 4.2 questions 1-10."), Some(60))

  /**
   * Seeding at start-up: an empty table receives the two fixed tasks; a
   * non-empty one is left alone. Each insert reads the clock on its own,
   * at `firstNow` and `secondNow`.
   */
  method Seed(store: TaskTable, firstNow: int, secondNow: int)
    requires store.Valid()
    modifies store
    ensures store.Valid()
    ensures old(store.rows) == [] ==>
              && store.rows == [NewRow(BiologyTask, old(store.nextId), firstNow), NewRow(MathTask, old(store.nextId) + 1, secondNow)]
              && store.nextId == old(store.nextId) + 2
    ensures old(store.rows) != [] ==> unchanged(store)
  {
    var existing := store.GetTasks();
    if |existing| == 0 {
      var first := store.CreateTask(BiologyTask, firstNow);
      var second := store.CreateTask(MathTask, secondNow);
    }
  }
}
