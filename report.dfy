/**
 * The report builder of main() in runrun_telegram_report.py (lines 9-63):
 * sort the tasks, send a fixed sentence when there are none, otherwise
 * render every task into the "Prazo Solicitado" bucket or the "Outras" bucket,
 * join the buckets that received a block, strip the result and hand it to the
 * splitting sender.
 *
 * Fetching the tasks and the users, and the two senders, are outside the
 * model: the task list is the method's input and the send is its result.
 */
module Report {
  import opened PyStr
  import opened Tasks
  import opened ProjectSort

  const PrazoTitle := "<b>\U{26A0}\U{FE0F} Tarefas com 'Prazo Solicitado':</b>"
  const OutrasTitle := "<b>\U{1F4CB} Outras tarefas para hoje:</b>"
  /** The initial contents of the two accumulators (lines 18-19). */
  const PrazoHeading := PrazoTitle + "\n\n"
  const OutrasHeading := OutrasTitle + "\n\n"
  const NoTasksMessage := "\U{2705} Nenhuma tarefa agendada para hoje."

  /** The destinations CHAT_ID and CHAT_ID_SECUNDARIO. */
  datatype Config = Config(chatId: string, secondaryChatId: string)

  function Destinations(cfg: Config): seq<string> {
    [cfg.chatId, cfg.secondaryChatId]
  }

  /** The one call main() makes to deliver a text: send_to_telegram (line 13) or split_and_send_message (line 63). */
  datatype Delivery =
    | SendToTelegram(text: string, chatIds: seq<string>)
    | SplitAndSend(text: string, chatIds: seq<string>)

  // ---------------------------------------------------------------------------
  // Buckets
  // ---------------------------------------------------------------------------

  /** The tasks of `s` whose urgency is `urgent`, in their order in `s`. */
  function Select(s: seq<Task>, urgent: bool): (r: seq<Task>)
    ensures |r| <= |s|
    ensures forall i :: 0 <= i < |r| ==> IsUrgent(r[i]) == urgent
  {
    if s == [] then []
    else Select(s[..|s| - 1], urgent) + (if IsUrgent(s[|s| - 1]) == urgent then [s[|s| - 1]] else [])
  }

  /** The blocks of the tasks of `s`, one after the other. */
  function Blocks(s: seq<Task>): (r: string)
    ensures r == [] <==> s == []
    ensures BucketText(r)
  {
    if s == [] then ""
    else
      var init, b := Blocks(s[..|s| - 1]), RenderBlock(s[|s| - 1]);
      assert (init + b)[|init + b| - 3..] == b[|b| - 3..];
      assert (init + b)[0] == if init == [] then b[0] else init[0];
      init + b
  }

  /** What a bucket's blocks look like from outside: nothing, or a text that opens with a non-space and ends with ">\n\n". */
  predicate BucketText(b: string) {
    b == [] || (Opens(b) && Closes(b))
  }

  lemma SelectSnoc(s: seq<Task>, t: Task, urgent: bool)
    ensures Select(s + [t], urgent) == Select(s, urgent) + (if IsUrgent(t) == urgent then [t] else [])
  {
    assert (s + [t])[..|s|] == s;
  }

  lemma BlocksSnoc(s: seq<Task>, t: Task)
    ensures Blocks(s + [t]) == Blocks(s) + RenderBlock(t)
  {
    assert (s + [t])[..|s|] == s;
  }

  /** Lines 18-51: every task's block is appended to exactly one of the two accumulators. */
  method BuildBuckets(tasks: array<Task>) returns (prazo: string, outras: string)
    ensures prazo == PrazoHeading + Blocks(Select(tasks[..], true))
    ensures outras == OutrasHeading + Blocks(Select(tasks[..], false))
  {
    prazo := PrazoHeading;
    outras := OutrasHeading;
    for i := 0 to tasks.Length
      invariant prazo == PrazoHeading + Blocks(Select(tasks[..i], true))
      invariant outras == OutrasHeading + Blocks(Select(tasks[..i], false))
    {
      var task := tasks[i];
      var block := RenderBlock(task);
      ghost var urgent, other := Select(tasks[..i], true), Select(tasks[..i], false);
      assert tasks[..i + 1] == tasks[..i] + [task];
      SelectSnoc(tasks[..i], task, true);
      SelectSnoc(tasks[..i], task, false);
      if IsUrgent(task) {
        assert Select(tasks[..i + 1], true) == urgent + [task];
        assert Select(tasks[..i + 1], false) == other;
        BlocksSnoc(urgent, task);
        AppendAssoc(PrazoHeading, Blocks(urgent), block);
        prazo := prazo + block;
      } else {
        assert Select(tasks[..i + 1], false) == other + [task];
        assert Select(tasks[..i + 1], true) == urgent;
        BlocksSnoc(other, task);
        AppendAssoc(OutrasHeading, Blocks(other), block);
        outras := outras + block;
      }
    }
    assert tasks[..tasks.Length] == tasks[..];
  }

  // ---------------------------------------------------------------------------
  // Joining the buckets
  // ---------------------------------------------------------------------------

  /** What full_message holds: each non-empty bucket under its heading, with "\n" between the two; empty only when both buckets are. */
  function Assembled(urgent: seq<Task>, other: seq<Task>): (r: string)
    ensures r == [] <==> urgent == [] && other == []
  {
    Stitch(Blocks(urgent), Blocks(other))
  }

  /**
   * The stitching of lines 54-60 on the blocks of the two buckets: empty only
   * when both are, the "Prazo Solicitado" section first and the "Outras" section last.
   */
  function Stitch(bu: string, bo: string): (r: string)
    ensures r == [] <==> bu == [] && bo == []
    ensures bu != [] ==> StartsWith(r, PrazoHeading + bu)
    ensures bo != [] ==> EndsWith(r, OutrasHeading + bo)
  {
    (if bu != [] then PrazoHeading + bu else "")
    + (if bu != [] && bo != [] then "\n" else "")
    + (if bo != [] then OutrasHeading + bo else "")
  }

  /**
   * The tests of lines 55 and 57: a bucket stripped differs from its bare title
   * exactly when it received a block, since every block opens with a non-space character.
   */
  lemma BucketHasBlocksIff(title: string, b: string)
    requires title != [] && !IsSpace(title[0]) && !IsSpace(title[|title| - 1])
    requires BucketText(b)
    ensures Strip(title + "\n\n" + b) != title <==> b != []
  {
    var m := title + "\n\n" + b;
    LStripNonSpaceStart(m);
    if b == [] {
      assert m == title + "\n\n";
      RStripAppendedSpace(title, "\n\n");
    } else {
      assert m[|title| + 2] == b[0];
      RStripKeeps(m, |title| + 2);
    }
  }

  /** Lines 54-60: joins the two accumulators, leaving out a bucket with no block. */
  method JoinBuckets(ghost bu: string, ghost bo: string, prazo: string, outras: string)
    returns (full: string)
    requires BucketText(bu) && BucketText(bo)
    requires prazo == PrazoHeading + bu
    requires outras == OutrasHeading + bo
    ensures full == Stitch(bu, bo)
  {
    BucketHasBlocksIff(PrazoTitle, bu);
    BucketHasBlocksIff(OutrasTitle, bo);
    AppendEmpty(prazo);
    AppendEmpty(outras);
    full := "";
    if Strip(prazo) != PrazoTitle {
      full := full + prazo;
    }
    assert full == if bu != [] then prazo else "";
    if Strip(outras) != OutrasTitle {
      if full != "" {
        full := full + "\n";
      }
      full := full + outras;
    }
    StitchCases(bu, bo);
  }

  /** Stitch, case by case. */
  lemma StitchCases(bu: string, bo: string)
    ensures bu == [] && bo == [] ==> Stitch(bu, bo) == ""
    ensures bu != [] && bo == [] ==> Stitch(bu, bo) == PrazoHeading + bu
    ensures bu == [] && bo != [] ==> Stitch(bu, bo) == OutrasHeading + bo
    ensures bu != [] && bo != [] ==> Stitch(bu, bo) == (PrazoHeading + bu) + "\n" + (OutrasHeading + bo)
  {
    AppendEmpty("");
    AppendEmpty(PrazoHeading + bu);
    AppendEmpty(OutrasHeading + bo);
  }

  // ---------------------------------------------------------------------------
  // The whole run
  // ---------------------------------------------------------------------------

  /** The delivery main() makes for the task list once it is sorted: always to both destinations, the fixed sentence exactly when there are no tasks. */
  function Delivered(cfg: Config, sorted: seq<Task>): (d: Delivery)
    ensures d.chatIds == [cfg.chatId, cfg.secondaryChatId]
    ensures d.SendToTelegram? <==> sorted == []
    ensures d.SendToTelegram? ==> d.text == NoTasksMessage
  {
    if sorted == [] then SendToTelegram(NoTasksMessage, Destinations(cfg))
    else SplitAndSend(Strip(Assembled(Select(sorted, true), Select(sorted, false))), Destinations(cfg))
  }

  /** main() from line 9 on: sorts the list in place and makes exactly one delivery. */
  method RunReport(cfg: Config, tasks: array<Task>) returns (d: Delivery)
    modifies tasks
    ensures tasks[..] == SortByProject(old(tasks[..]))
    ensures d == Delivered(cfg, tasks[..])
  {
    SortTasksInPlace(tasks);
    if tasks.Length == 0 {
      d := SendToTelegram(NoTasksMessage, Destinations(cfg));
      return;
    }
    var prazo, outras := BuildBuckets(tasks);
    var full := JoinBuckets(Blocks(Select(tasks[..], true)), Blocks(Select(tasks[..], false)), prazo, outras);
    d := SplitAndSend(Strip(full), Destinations(cfg));
  }

  // ---------------------------------------------------------------------------
  // Properties
  // ---------------------------------------------------------------------------

  /** Select keeps order: what comes from an earlier part of the list comes first. */
  lemma {:induction false} SelectAppend(a: seq<Task>, b: seq<Task>, urgent: bool)
    ensures Select(a + b, urgent) == Select(a, urgent) + Select(b, urgent)
  {
    if b == [] {
      assert a + b == a;
    } else {
      var init, t := b[..|b| - 1], b[|b| - 1];
      assert b == init + [t];
      assert a + b == (a + init) + [t];
      SelectSnoc(a + init, t, urgent);
      SelectSnoc(init, t, urgent);
      SelectAppend(a, init, urgent);
    }
  }

  /** Every task lands in exactly one bucket: the buckets split the list's multiset. */
  lemma {:induction false} BucketsPartition(s: seq<Task>)
    ensures multiset(Select(s, true)) + multiset(Select(s, false)) == multiset(s)
    ensures |Select(s, true)| + |Select(s, false)| == |s|
  {
    if s != [] {
      var init, t := s[..|s| - 1], s[|s| - 1];
      BucketsPartition(init);
      assert s == init + [t];
      SelectSnoc(init, t, true);
      SelectSnoc(init, t, false);
    }
  }

  /** A task is in the urgent bucket exactly when it is in the list and urgent; likewise for the other bucket. */
  lemma {:induction false} BucketMembership(s: seq<Task>, t: Task, urgent: bool)
    ensures t in Select(s, urgent) <==> t in s && IsUrgent(t) == urgent
  {
    if s != [] {
      BucketMembership(s[..|s| - 1], t, urgent);
      assert s == s[..|s| - 1] + [s[|s| - 1]];
    }
  }

  /** The message handed on is the assembled text without its final blank line, and it is not empty. */
  lemma MessageIsAssembledText(urgent: seq<Task>, other: seq<Task>)
    requires urgent != [] || other != []
    ensures var m := Assembled(urgent, other);
      |m| >= 3 && Strip(m) == m[..|m| - 2] && Strip(m) != []
  {
    StitchMessage(Blocks(urgent), Blocks(other), Assembled(urgent, other));
  }

  /** The two headings open with their titles, and the titles tell each other apart at their fourth character. */
  lemma HeadingFacts()
    ensures Opens(PrazoHeading) && Opens(OutrasHeading)
    ensures StartsWith(PrazoHeading, PrazoTitle) && StartsWith(OutrasHeading, OutrasTitle)
    ensures |PrazoTitle| > 3 && |OutrasTitle| > 3 && PrazoTitle[3] != OutrasTitle[3]
  {
    PrefixOfAppend(PrazoTitle, "\n\n");
    PrefixOfAppend(OutrasTitle, "\n\n");
  }

  lemma CatShape(x: string, y: string)
    requires Opens(x) && Closes(y)
    ensures Opens(x + y) && Closes(x + y) && StartsWith(x + y, x) && |x + y| >= |x| + 3
  {
    assert (x + y)[0] == x[0];
    assert (x + y)[|x + y| - 3..] == y[|y| - 3..];
    PrefixOfAppend(x, y);
  }

  /** The joined buckets open with the first present heading, hold a block after it, and close with ">\n\n". */
  lemma StitchShape(bu: string, bo: string)
    requires BucketText(bu) && BucketText(bo)
    requires bu != [] || bo != []
    ensures var m, head := Stitch(bu, bo), if bu != [] then PrazoHeading else OutrasHeading;
      Opens(m) && Closes(m) && StartsWith(m, head) && |m| >= |head| + 3
  {
    StitchCases(bu, bo);
    HeadingFacts();
    if bu != [] && bo != [] {
      CatShape(PrazoHeading, bu);
      var x := PrazoHeading + bu + "\n";
      assert x[0] == (PrazoHeading + bu)[0];
      PrefixOfAppend(PrazoHeading + bu, "\n");
      assert StartsWith(x, PrazoHeading) by {
        assert x[..|PrazoHeading|] == (PrazoHeading + bu)[..|PrazoHeading|];
      }
      CatShape(OutrasHeading, bo);
      CatShape(x, OutrasHeading + bo);
      assert (x + (OutrasHeading + bo))[..|PrazoHeading|] == x[..|PrazoHeading|];
    } else if bu != [] {
      CatShape(PrazoHeading, bu);
    } else {
      CatShape(OutrasHeading, bo);
    }
  }

  /** Stripping the joined buckets removes exactly the final blank line. */
  lemma StitchMessage(bu: string, bo: string, m: string)
    requires BucketText(bu) && BucketText(bo)
    requires bu != [] || bo != []
    requires m == Stitch(bu, bo)
    ensures |m| >= 3 && Strip(m) == m[..|m| - 2] && Strip(m) != []
  {
    StitchShape(bu, bo);
    StripDropsFinalBlankLine(m);
  }

  /** The message opens with the "Prazo Solicitado" title exactly when some task is urgent, and with the "Outras" title exactly when none is. */
  lemma MessageOpening(urgent: seq<Task>, other: seq<Task>)
    requires urgent != [] || other != []
    ensures StartsWith(Strip(Assembled(urgent, other)), PrazoTitle) <==> urgent != []
    ensures StartsWith(Strip(Assembled(urgent, other)), OutrasTitle) <==> urgent == []
  {
    StitchOpening(Blocks(urgent), Blocks(other));
  }

  /** A text that starts with `head`, which starts with `title`, still starts with `title` without its last two characters, and not with a `rival` title that differs at the fourth character. */
  lemma OpeningKept(m: string, head: string, title: string, rival: string)
    requires StartsWith(m, head) && StartsWith(head, title) && |m| >= |head| + 3
    requires |title| > 3 && |rival| > 3 && title[3] != rival[3]
    ensures StartsWith(m[..|m| - 2], title) && !StartsWith(m[..|m| - 2], rival)
  {
    var r := m[..|m| - 2];
    assert r[..|title|] == m[..|title|] == head[..|title|] == title;
    assert r[3] == title[3];
  }

  lemma StitchOpening(bu: string, bo: string)
    requires BucketText(bu) && BucketText(bo)
    requires bu != [] || bo != []
    ensures StartsWith(Strip(Stitch(bu, bo)), PrazoTitle) <==> bu != []
    ensures StartsWith(Strip(Stitch(bu, bo)), OutrasTitle) <==> bu == []
  {
    var m := Stitch(bu, bo);
    StitchShape(bu, bo);
    StripDropsFinalBlankLine(m);
    HeadingFacts();
    if bu != [] {
      OpeningKept(m, PrazoHeading, PrazoTitle, OutrasTitle);
    } else {
      OpeningKept(m, OutrasHeading, OutrasTitle, PrazoTitle);
    }
  }

  /** No tasks: the one delivery is the fixed sentence to both destinations, and only then. */
  lemma NoTasksReport(cfg: Config, input: seq<Task>)
    ensures Delivered(cfg, SortByProject(input)) == SendToTelegram(NoTasksMessage, [cfg.chatId, cfg.secondaryChatId])
      <==> input == []
  {
  }

  /** A non-empty task list: the one delivery goes through the splitting sender to both destinations, with a non-empty text. */
  lemma TasksReport(cfg: Config, sorted: seq<Task>)
    requires sorted != []
    ensures var d := Delivered(cfg, sorted);
      && d.SplitAndSend?
      && d.chatIds == [cfg.chatId, cfg.secondaryChatId]
      && d.text != []
  {
    var urgent, other := Select(sorted, true), Select(sorted, false);
    assert urgent != [] || other != [] by { SomeBucketFilled(sorted); }
    assert Strip(Assembled(urgent, other)) != [] by { MessageIsAssembledText(urgent, other); }
  }

  /** A non-empty list fills at least one bucket. */
  lemma SomeBucketFilled(s: seq<Task>)
    requires s != []
    ensures Select(s, true) != [] || Select(s, false) != []
  {
    BucketsPartition(s);
  }

  /** Whatever the input, the two buckets of the sorted list hold every input task exactly once. */
  lemma ReportHoldsEveryTask(input: seq<Task>)
    ensures var sorted := SortByProject(input);
      multiset(Select(sorted, true)) + multiset(Select(sorted, false)) == multiset(input)
  {
    SortPermutes(input);
    BucketsPartition(SortByProject(input));
  }
}
