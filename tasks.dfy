/**
 * A task record as the report builder reads it, and the rendering of one task
 * into its text block (runrun_telegram_report.py, lines 23-45), with the
 * fallback each field falls back on and the status test that picks its bucket
 * (line 48).
 *
 * A record field is an Option. For the fields read with `task.get(k) or ...`
 * (title, assignments, names, project, id) None stands for a key that is
 * absent or holds null, both falsy. For the two read with a default,
 * `get(k, default)` ("task_status_name", "assignee_name"), None stands for an
 * absent key only: a null there is not representable (Python raises on it).
 */
module Tasks {
  import opened Wrappers
  import opened PyStr

  /** The task id as the API delivers it: a number, or a text. */
  datatype TaskId = NumId(n: int) | TextId(s: string)

  /** One entry of a task's "assignments" list; only "assignee_name" is read. */
  datatype Assignment = Assignment(assigneeName: Option<string>)

  datatype Task = Task(
    id: Option<TaskId>,
    title: Option<string>,
    assignments: Option<seq<Assignment>>,
    responsibleName: Option<string>,
    userName: Option<string>,
    projectName: Option<string>,
    statusName: Option<string>)

  const NoTitle := "Sem título"
  const UnknownPerson := "Desconhecido"
  const NoProject := "Projeto não identificado"
  const NoStatus := "Status desconhecido"
  const NoUrl := "URL indisponível"
  const TaskUrlPrefix := "https://runrun.it/tasks/"
  /** The status that sends a task to the "Prazo Solicitado" bucket, lower-cased. */
  const UrgentStatus := "prazo solicitado"

  /** Python truthiness of an optional string: present and not empty. */
  predicate Truthy(x: Option<string>) {
    x.Some? && x.value != ""
  }

  /** Python's `x or fallback` for an optional string. */
  function Or(x: Option<string>, fallback: string): string {
    if Truthy(x) then x.value else fallback
  }

  /** Line 23: the title, or "Sem título" when it is missing or empty. */
  function Title(t: Task): (r: string)
    ensures r != ""
    ensures Truthy(t.title) ==> r == t.title.value
    ensures !Truthy(t.title) ==> r == NoTitle
  {
    Or(t.title, NoTitle)
  }

  /** Line 26-27: the assignment list counts only when present and non-empty. */
  predicate HasAssignments(t: Task) {
    t.assignments.Some? && t.assignments.value != []
  }

  /** Line 28: each assignee's name, "Desconhecido" where the key is missing. */
  function AssigneeNames(assignments: seq<Assignment>): (r: seq<string>)
    ensures |r| == |assignments|
    ensures forall i :: 0 <= i < |r| ==>
      r[i] == if assignments[i].assigneeName.Some? then assignments[i].assigneeName.value else UnknownPerson
  {
    if assignments == [] then []
    else AssigneeNames(assignments[..|assignments| - 1]) + [assignments[|assignments| - 1].assigneeName.GetOr(UnknownPerson)]
  }

  /**
   * Lines 26-30: who is responsible. With assignments, their names joined by
   * ", "; otherwise the first of "responsible_name" and "user_name" that is
   * truthy, else "Desconhecido".
   */
  function Responsible(t: Task): (r: string)
    ensures HasAssignments(t) ==> r == Join(", ", AssigneeNames(t.assignments.value))
    ensures !HasAssignments(t) && Truthy(t.responsibleName) ==> r == t.responsibleName.value
    ensures !HasAssignments(t) && !Truthy(t.responsibleName) && Truthy(t.userName) ==> r == t.userName.value
    ensures !HasAssignments(t) && !Truthy(t.responsibleName) && !Truthy(t.userName) ==> r == UnknownPerson
    ensures !HasAssignments(t) ==> r != ""
  {
    if HasAssignments(t) then Join(", ", AssigneeNames(t.assignments.value))
    else Or(t.responsibleName, Or(t.userName, UnknownPerson))
  }

  /** Line 33: the project name shown in the block. */
  function Project(t: Task): (r: string)
    ensures r != ""
    ensures Truthy(t.projectName) ==> r == t.projectName.value
    ensures !Truthy(t.projectName) ==> r == NoProject
  {
    Or(t.projectName, NoProject)
  }

  /** Python truthiness of the id: present, and not 0 or "". A truthy id renders as a non-empty text. */
  predicate IdTruthy(id: Option<TaskId>)
    ensures IdTruthy(id) ==> id.Some? && IdText(id.value) != []
  {
    match id
    case None => false
    case Some(NumId(n)) => n != 0
    case Some(TextId(s)) => s != ""
  }

  /** The id as an f-string renders it: a text id as it is, a numeric id as decimal text that reads back as the number. */
  function IdText(id: TaskId): (r: string)
    ensures id.NumId? ==> ParseInt(r) == Some(id.n)
    ensures id.TextId? ==> r == id.s
  {
    match id
    case NumId(n) => IntToDecimalRoundTrip(n); IntToDecimal(n)
    case TextId(s) => s
  }

  /** Lines 34-35: the task's link, or "URL indisponível" when the id is falsy. */
  function Link(t: Task): (r: string)
    ensures IdTruthy(t.id) ==> r == TaskUrlPrefix + IdText(t.id.value)
    ensures !IdTruthy(t.id) ==> r == NoUrl
  {
    if IdTruthy(t.id) then TaskUrlPrefix + IdText(t.id.value) else NoUrl
  }

  /** Line 36: the status, defaulted only when the key is absent (an empty status stays empty). */
  function Status(t: Task): (r: string)
    ensures t.statusName.Some? ==> r == t.statusName.value
    ensures t.statusName.None? ==> r == NoStatus
  {
    t.statusName.GetOr(NoStatus)
  }

  /**
   * Line 48: the task goes to the "Prazo Solicitado" bucket. An equality test,
   * not a substring test; the default "Status desconhecido" never passes it, so
   * only a present status key can make a task urgent.
   */
  predicate IsUrgent(t: Task)
    ensures IsUrgent(t) <==> t.statusName.Some? && Lower(t.statusName.value) == UrgentStatus
  {
    assert t.statusName.None? ==> |Lower(Status(t))| != |UrgentStatus|;
    Lower(Status(t)) == UrgentStatus
  }

  /** A text that ends as every block does, with ">\n\n". */
  predicate Closes(s: string) {
    EndsWith(s, ">\n\n")
  }

  /** Lines 39-45: the text block of one task, the f-string's pieces concatenated. */
  function RenderBlock(t: Task): (b: string)
    ensures Opens(b) && Closes(b)
  {
    var parts := BlockParts(t);
    var b := Join("", parts);
    JoinStartsWith("", parts);
    JoinEndsWith("", parts);
    OpensWithPrefix(b, parts[0]);
    EndsWithSuffix(b, parts[14], ">\n\n");
    b
  }

  /** The literal and interpolated pieces of the f-string of lines 40-44, in order. */
  function BlockParts(t: Task): (parts: seq<string>)
    ensures |parts| == 15
    ensures parts[0] == "\U{1F4CC} <b>"
    ensures parts[14] == "\">Abrir tarefa</a>\n\n"
  {
    [ "\U{1F4CC} <b>", Title(t), "</b>\n",
      "\U{1F464} Responsável: ", Responsible(t), "\n",
      "\U{1F4C2} Projeto: ", Project(t), "\n",
      "\U{2699}\U{FE0F} Status: ", Status(t), "\n",
      "\U{1F517} <a href=\"", Link(t), "\">Abrir tarefa</a>\n\n" ]
  }

  // ---------------------------------------------------------------------------
  // Properties of the fallbacks and of the bucket test
  // ---------------------------------------------------------------------------

  /** The block opens with the title line: the title in bold after the pin. */
  lemma BlockOpensWithTitle(t: Task)
    ensures StartsWith(RenderBlock(t), "\U{1F4CC} <b>" + Title(t) + "</b>\n")
  {
    var parts := BlockParts(t);
    ConcatStartsWithFirstThree(parts);
    assert RenderBlock(t) == Join("", parts);
    assert parts[0] + parts[1] + parts[2] == "\U{1F4CC} <b>" + Title(t) + "</b>\n";
  }

  /** The block closes with the link line, the link as the anchor's target, then a blank line. */
  lemma BlockClosesWithLink(t: Task)
    ensures EndsWith(RenderBlock(t), "\U{1F517} <a href=\"" + Link(t) + "\">Abrir tarefa</a>\n\n")
  {
    var parts := BlockParts(t);
    ConcatEndsWithLastThree(parts);
    assert RenderBlock(t) == Join("", parts);
    assert parts[12] + parts[13] + parts[14] == "\U{1F517} <a href=\"" + Link(t) + "\">Abrir tarefa</a>\n\n";
  }

  /** With a single assignment, the responsible string is that assignee's name, or "Desconhecido" when the key is missing. */
  lemma SingleAssignee(t: Task, a: Assignment)
    requires t.assignments == Some([a])
    ensures Responsible(t) == a.assigneeName.GetOr(UnknownPerson)
  {
  }

  /** With several assignments, the responsible string holds every name, with ", " between neighbours. */
  lemma ResponsibleLength(t: Task)
    requires HasAssignments(t)
    ensures var names := AssigneeNames(t.assignments.value);
      |Responsible(t)| == TotalLength(names) + 2 * (|names| - 1)
  {
  }

  /** The link is a task URL exactly when the id is truthy. */
  lemma LinkIsUrlIff(t: Task)
    ensures StartsWith(Link(t), TaskUrlPrefix) <==> IdTruthy(t.id)
  {
    if !IdTruthy(t.id) {
      assert Link(t)[0] != TaskUrlPrefix[0];
    }
  }

  /** Two tasks with different non-zero numeric ids get different links. */
  lemma DistinctNumericIdsDistinctLinks(t: Task, u: Task)
    requires t.id.Some? && t.id.value.NumId? && t.id.value.n != 0
    requires u.id.Some? && u.id.value.NumId? && u.id.value.n != 0
    requires t.id.value.n != u.id.value.n
    ensures Link(t) != Link(u)
  {
    IntToDecimalInjective(t.id.value.n, u.id.value.n);
    var a, b := IntToDecimal(t.id.value.n), IntToDecimal(u.id.value.n);
    assert (TaskUrlPrefix + a)[|TaskUrlPrefix|..] == a;
    assert (TaskUrlPrefix + b)[|TaskUrlPrefix|..] == b;
  }

  /** The test is an equality: an urgent status has exactly the marker's length, so a longer status that merely contains it is not urgent. */
  lemma UrgentHasMarkerLength(t: Task)
    requires IsUrgent(t)
    ensures t.statusName.Some? && |t.statusName.value| == |UrgentStatus|
  {
  }

  /** The test ignores case: statuses equal up to case land in the same bucket. */
  lemma UrgentIgnoresCase(t: Task, u: Task)
    requires t.statusName.Some? && u.statusName.Some?
    requires Lower(t.statusName.value) == Lower(u.statusName.value)
    ensures IsUrgent(t) <==> IsUrgent(u)
  {
  }

  lemma LowerOfUrgentSpelling(s: string)
    requires |s| == |UrgentStatus|
    requires forall i :: 0 <= i < |s| ==> LowerChar(s[i]) == UrgentStatus[i]
    ensures Lower(s) == UrgentStatus
  {
    forall i | 0 <= i < |s|
      ensures Lower(s)[i] == UrgentStatus[i]
    {
      LowerAt(s, i);
    }
  }

  /** "Prazo Solicitado" and "PRAZO SOLICITADO" are urgent; "Prazo Solicitado (cliente)" is not. */
  lemma UrgentExamples(t: Task)
    ensures t.statusName == Some("Prazo Solicitado") ==> IsUrgent(t)
    ensures t.statusName == Some("PRAZO SOLICITADO") ==> IsUrgent(t)
    ensures t.statusName == Some("Prazo Solicitado (cliente)") ==> !IsUrgent(t)
  {
    LowerOfUrgentSpelling("Prazo Solicitado");
    LowerOfUrgentSpelling("PRAZO SOLICITADO");
  }
}
