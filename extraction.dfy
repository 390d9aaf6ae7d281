/**
 * Task-directive extraction from a chat completion.
 *
 * The reply of the language model may carry one task, written as a JSON
 * object between `$$TASK_JSON$$` and `$$END_TASK_JSON$$`. The handler looks for
 * the first begin marker and the nearest end marker after it (what the lazy
 * pattern `\$\$TASK_JSON\$\$([\s\S]*?)\$\$END_TASK_JSON\$\$` matches), parses the
 * trimmed payload, and hands the row to the store. Only when both succeed is
 * the matched span cut out of the displayed text, which is then trimmed; every
 * failure in between leaves the text as it came.
 */
module TaskExtraction {
  import opened Wrappers
  import opened JsString
  import opened Schema

  const BeginMarker := "$$TASK_JSON$$"
  const EndMarker := "$$END_TASK_JSON$$"

  /** A match: the begin marker at `begin`, the end marker at `end`. */
  datatype Span = Span(begin: nat, end: nat)

  /** There is a begin marker followed, later, by an end marker. */
  ghost predicate HasDirective(s: string) {
    exists p, q :: OccursAt(s, BeginMarker, p) && p + |BeginMarker| <= q && OccursAt(s, EndMarker, q)
  }

  /** `m` is the leftmost, shortest match: the first begin marker and the nearest end marker after it. */
  ghost predicate IsDirectiveMatch(s: string, m: Span) {
    && IsFirstOccurrence(s, BeginMarker, m.begin)
    && m.begin + |BeginMarker| <= m.end
    && OccursAt(s, EndMarker, m.end)
    && forall j :: m.begin + |BeginMarker| <= j < m.end ==> !OccursAt(s, EndMarker, j)
  }

  /** The regular-expression match of the handler, by direct search. */
  function FindDirective(s: string): (m: Option<Span>)
    ensures m.Some? ==> IsDirectiveMatch(s, m.value)
  {
    match IndexOf(s, BeginMarker)
    case None => None
    case Some(p) =>
      match IndexFrom(s, EndMarker, p + |BeginMarker|)
      case None => None
      case Some(q) => Some(Span(p, q))
  }

  /** The search finds nothing exactly when there is no begin marker followed later by an end marker. */
  lemma FindDirectiveComplete(s: string)
    ensures FindDirective(s).None? <==> !HasDirective(s)
  {
    match IndexOf(s, BeginMarker)
    case None =>
    case Some(p) =>
      match IndexFrom(s, EndMarker, p + |BeginMarker|)
      case None =>
        forall p', q' | OccursAt(s, BeginMarker, p') && p' + |BeginMarker| <= q'
          ensures !OccursAt(s, EndMarker, q')
        {
          assert p <= p';
        }
      case Some(q) =>
        assert OccursAt(s, BeginMarker, p) && OccursAt(s, EndMarker, q);
  }

  /** At most one span satisfies the match definition. */
  lemma DirectiveMatchUnique(s: string, m1: Span, m2: Span)
    requires IsDirectiveMatch(s, m1) && IsDirectiveMatch(s, m2)
    ensures m1 == m2
  {
  }

  /** `taskMatch[0]`: the whole span, markers included. */
  function MatchedText(s: string, m: Span): (r: string)
    requires IsDirectiveMatch(s, m)
    ensures |BeginMarker| + |EndMarker| <= |r|
    ensures r[..|BeginMarker|] == BeginMarker && r[|r| - |EndMarker|..] == EndMarker
  {
    s[m.begin..m.end + |EndMarker|]
  }

  /** `taskMatch[1]`: what lies strictly between the markers. */
  function Payload(s: string, m: Span): (r: string)
    requires IsDirectiveMatch(s, m)
    ensures MatchedText(s, m) == BeginMarker + r + EndMarker
  {
    s[m.begin + |BeginMarker|..m.end]
  }

  /**
   * `replace(taskMatch[0], "")` removes exactly the matched span: the first
   * occurrence of the span's text is the match itself, because that text
   * starts with the begin marker and no begin marker comes earlier.
   */
  lemma RemovesMatchedSpan(s: string, m: Span)
    requires IsDirectiveMatch(s, m)
    ensures Replace(s, MatchedText(s, m), "") == s[..m.begin] + s[m.end + |EndMarker|..]
  {
    var t := MatchedText(s, m);
    assert IsFirstOccurrence(s, t, m.begin) by {
      forall j | 0 <= j < m.begin ensures !OccursAt(s, t, j) {
        if OccursAt(s, t, j) {
          PrefixOccurs(s, t, BeginMarker, j);
        }
      }
    }
  }

  /**
   * The fields read off the parsed payload (`taskData.title` and so on),
   * `None` where the value is missing or null.
   */
  datatype TaskJson = TaskJson(title: Option<string>, description: Option<string>, timeLimit: Option<int>)

  /** The row handed to `createTask`; the store refuses a row without a title (NOT NULL). */
  function RowOf(json: TaskJson): (r: Option<InsertTask>)
    ensures r.None? <==> json.title.None?
    ensures r.Some? ==> TaskJson(Some(r.value.title), r.value.description, r.value.timeLimit) == json
  {
    match json.title
    case None => None
    case Some(title) => Some(InsertTask(title, json.description, json.timeLimit))
  }

  /** The outcome of one chat turn: the text to display and the row to create, if any. */
  datatype Extraction = Extraction(message: string, row: Option<InsertTask>)

  /**
   * `Extract(content, parse, storeAccepts)`: `content` is the completion
   * (`None` for null), `parse` is `JSON.parse` (`None` when it throws),
   * `storeAccepts` says whether the database takes the row.
   */
  function Extract(content: Option<string>, parse: string -> Option<TaskJson>,
                   storeAccepts: InsertTask -> bool): (r: Extraction)
    ensures r.row.None? ==> r.message == content.GetOr("")
    ensures r.row.Some? ==> storeAccepts(r.row.value)
  {
    var text := content.GetOr("");
    match FindDirective(text)
    case None => Extraction(text, None)
    case Some(m) =>
      var payload := Payload(text, m);
      if payload == [] then Extraction(text, None)
      else
        match parse(Trim(payload))
        case None => Extraction(text, None)
        case Some(json) =>
          match RowOf(json)
          case None => Extraction(text, None)
          case Some(row) =>
            if storeAccepts(row) then
              Extraction(Trim(Replace(text, MatchedText(text, m), "")), Some(row))
            else Extraction(text, None)
  }

  /** Without a begin marker followed later by an end marker, the text is returned as is and no task is made. */
  lemma ExtractWithoutDirective(text: string, parse: string -> Option<TaskJson>, storeAccepts: InsertTask -> bool)
    requires !HasDirective(text)
    ensures Extract(Some(text), parse, storeAccepts) == Extraction(text, None)
  {
    FindDirectiveComplete(text);
  }

  /** A null completion is read as the empty string. */
  lemma ExtractNullContent(parse: string -> Option<TaskJson>, storeAccepts: InsertTask -> bool)
    ensures Extract(None, parse, storeAccepts) == Extraction("", None)
  {
    FindDirectiveComplete("");
  }

  /** Markers with nothing between them count as no directive. */
  lemma ExtractEmptyPayload(text: string, m: Span, parse: string -> Option<TaskJson>, storeAccepts: InsertTask -> bool)
    requires IsDirectiveMatch(text, m) && m.end == m.begin + |BeginMarker|
    ensures Extract(Some(text), parse, storeAccepts) == Extraction(text, None)
  {
    DirectiveMatchUnique(text, m, FindDirective(text).value);
  }

  /**
   * When the trimmed payload parses, the title is present and the store
   * takes the row, the row carries the payload's fields and the message is
   * the text without the matched span, trimmed. Text after the end marker,
   * later marker pairs included, stays in the message.
   */
  lemma ExtractSuccess(text: string, m: Span, json: TaskJson, title: string,
                       parse: string -> Option<TaskJson>, storeAccepts: InsertTask -> bool)
    requires IsDirectiveMatch(text, m) && m.end > m.begin + |BeginMarker|
    requires parse(Trim(Payload(text, m))) == Some(json) && json.title == Some(title)
    requires storeAccepts(InsertTask(title, json.description, json.timeLimit))
    ensures Extract(Some(text), parse, storeAccepts)
         == Extraction(Trim(text[..m.begin] + text[m.end + |EndMarker|..]),
                       Some(InsertTask(title, json.description, json.timeLimit)))
  {
    FindDirectiveComplete(text);
    DirectiveMatchUnique(text, m, FindDirective(text).value);
    RemovesMatchedSpan(text, m);
  }

  /**
   * A payload that does not parse, a row without a title, or a row the store
   * refuses: the failure is swallowed, the text keeps its markers and no task is made.
   */
  lemma ExtractFailure(text: string, m: Span, parse: string -> Option<TaskJson>, storeAccepts: InsertTask -> bool)
    requires IsDirectiveMatch(text, m)
    requires || parse(Trim(Payload(text, m))).None?
             || RowOf(parse(Trim(Payload(text, m))).value).None?
             || !storeAccepts(RowOf(parse(Trim(Payload(text, m))).value).value)
    ensures Extract(Some(text), parse, storeAccepts) == Extraction(text, None)
  {
    FindDirectiveComplete(text);
    DirectiveMatchUnique(text, m, FindDirective(text).value);
  }

  /** The first begin marker and, from `from` on, the first end marker of `a + marker + b`. */
  lemma MarkerAfter(a: string, marker: string, b: string, from: nat)
    requires marker == BeginMarker || marker == EndMarker
    requires from <= |a| && '$' !in a[from..]
    ensures IndexFrom(a + marker + b, marker, from) == Some(|a|)
  {
    IndexFromAfter(a, marker, b, from);
  }

  /** The search result, from the two marker searches it is made of. */
  lemma FindDirectiveIs(s: string, p: nat, q: nat)
    requires IndexOf(s, BeginMarker) == Some(p)
    requires IndexFrom(s, EndMarker, p + |BeginMarker|) == Some(q)
    ensures FindDirective(s) == Some(Span(p, q))
  {
  }

  /** The first begin marker of `pre + begin + payload + end + post`, when `pre` holds no `$`. */
  lemma BeginFound(pre: string, payload: string, post: string)
    requires '$' !in pre
    ensures IndexOf(pre + BeginMarker + payload + EndMarker + post, BeginMarker) == Some(|pre|)
  {
    var rest := payload + EndMarker + post;
    assert pre + BeginMarker + payload + EndMarker + post == pre + BeginMarker + rest;
    assert pre[0..] == pre;
    MarkerAfter(pre, BeginMarker, rest, 0);
  }

  /** The first end marker after the begin marker, when the payload holds no `$`. */
  lemma EndFound(pre: string, payload: string, post: string)
    requires '$' !in payload
    ensures IndexFrom(pre + BeginMarker + payload + EndMarker + post, EndMarker, |pre| + |BeginMarker|)
         == Some(|pre| + |BeginMarker| + |payload|)
  {
    var a := pre + BeginMarker + payload;
    assert a[|pre| + |BeginMarker|..] == payload;
    MarkerAfter(a, EndMarker, post, |pre| + |BeginMarker|);
  }

  /** The directive of `pre + begin + payload + end + post`, when neither `pre` nor `payload` holds a `$`. */
  lemma DirectiveOf(pre: string, payload: string, post: string)
    requires '$' !in pre && '$' !in payload
    ensures FindDirective(pre + BeginMarker + payload + EndMarker + post)
         == Some(Span(|pre|, |pre| + |BeginMarker| + |payload|))
  {
    BeginFound(pre, payload, post);
    EndFound(pre, payload, post);
    FindDirectiveIs(pre + BeginMarker + payload + EndMarker + post, |pre|, |pre| + |BeginMarker| + |payload|);
  }

  /** The parts of `pre + begin + payload + end + post` around its directive. */
  lemma SpanOf(text: string, m: Span, pre: string, payload: string, post: string)
    requires '$' !in pre && '$' !in payload
    requires text == pre + BeginMarker + payload + EndMarker + post
    requires m == Span(|pre|, |pre| + |BeginMarker| + |payload|)
    ensures IsDirectiveMatch(text, m)
    ensures Payload(text, m) == payload
    ensures text[..m.begin] == pre && text[m.end + |EndMarker|..] == post
  {
    DirectiveOf(pre, payload, post);
  }

  /** Extraction of `pre + begin + payload + end + post` when neither `pre` nor `payload` holds a `$`. */
  lemma ExtractOf(pre: string, payload: string, post: string, json: TaskJson, title: string,
                  parse: string -> Option<TaskJson>, storeAccepts: InsertTask -> bool)
    requires '$' !in pre && '$' !in payload && payload != []
    requires parse(Trim(payload)) == Some(json) && json.title == Some(title)
    requires storeAccepts(InsertTask(title, json.description, json.timeLimit))
    ensures Extract(Some(pre + BeginMarker + payload + EndMarker + post), parse, storeAccepts)
         == Extraction(Trim(pre + post), Some(InsertTask(title, json.description, json.timeLimit)))
  {
    var text := pre + BeginMarker + payload + EndMarker + post;
    var m := Span(|pre|, |pre| + |BeginMarker| + |payload|);
    SpanOf(text, m, pre, payload, post);
    ExtractSuccess(text, m, json, title, parse, storeAccepts);
  }

  /** The payload `{"title":"Algebra","description":"Do exercises","timeLimit":30}` on a line of its own. */
  const ScenarioPayload := "\n{\"title\":" + "\"Algebra\"," + "\"description\":" + "\"Do exercises\"," + "\"timeLimit\":30}\n"

  /**
   * A reply ending in a directive, laid out as the system prompt asks, displays
   * as the text before the directive, trimmed, and yields the task the payload
   * describes.
   */
  lemma ScenarioDirectiveAtEnd(text: string, parse: string -> Option<TaskJson>, storeAccepts: InsertTask -> bool)
    requires text == "Great job! " + BeginMarker + ScenarioPayload + EndMarker
    requires parse(Trim(ScenarioPayload)) == Some(TaskJson(Some("Algebra"), Some("Do exercises"), Some(30)))
    requires storeAccepts(InsertTask("Algebra", Some("Do exercises"), Some(30)))
    ensures Extract(Some(text), parse, storeAccepts)
         == Extraction("Great job!", Some(InsertTask("Algebra", Some("Do exercises"), Some(30))))
  {
    assert text == "Great job! " + BeginMarker + ScenarioPayload + EndMarker + "";
    ScenarioPayloadPlain();
    ExtractOf("Great job! ", ScenarioPayload, "", TaskJson(Some("Algebra"), Some("Do exercises"), Some(30)), "Algebra",
              parse, storeAccepts);
    ScenarioMessage();
  }

  lemma ScenarioPayloadPlain()
    ensures '$' !in ScenarioPayload
  {
    assert '$' !in "\n{\"title\":" && '$' !in "\"Algebra\"," && '$' !in "\"description\":";
    assert '$' !in "\"Do exercises\"," && '$' !in "\"timeLimit\":30}\n";
  }

  lemma ScenarioMessage()
    ensures Trim("Great job! " + "") == "Great job!"
  {
    assert "Great job! " + "" == "" + "Great job!" + " ";
    TrimPadded("", "Great job!", " ");
  }

  /**
   * Text after the matched end marker is kept, later marker pairs included,
   * and is not searched again: running the extraction a second time on the
   * displayed text of a reply with two directives creates a second task and
   * changes the text again, so the extraction is not idempotent.
   */
  lemma SecondDirectiveSurvives(text: string, second: string, json: TaskJson, title: string,
                                parse: string -> Option<TaskJson>, storeAccepts: InsertTask -> bool)
    requires second == BeginMarker + "2" + EndMarker
    requires text == BeginMarker + "1" + EndMarker + " " + second
    requires parse("1") == Some(json) && parse("2") == Some(json) && json.title == Some(title)
    requires storeAccepts(InsertTask(title, json.description, json.timeLimit))
    ensures Extract(Some(text), parse, storeAccepts)
         == Extraction(second, Some(InsertTask(title, json.description, json.timeLimit)))
    ensures Extract(Some(second), parse, storeAccepts)
         == Extraction("", Some(InsertTask(title, json.description, json.timeLimit)))
  {
    FirstOfTwo(text, second, json, title, parse, storeAccepts);
    LoneDirective(second, json, title, parse, storeAccepts);
  }

  /**
   * A reply with a single directive and no other `$` is left alone by a
   * second pass: its displayed text holds no marker, so extracting again
   * gives the same text back and makes no task.
   */
  lemma SecondPassHarmless(pre: string, payload: string, post: string, message: string, json: TaskJson, title: string,
                           parse: string -> Option<TaskJson>, storeAccepts: InsertTask -> bool)
    requires '$' !in pre && '$' !in payload && '$' !in post && payload != []
    requires parse(Trim(payload)) == Some(json) && json.title == Some(title)
    requires storeAccepts(InsertTask(title, json.description, json.timeLimit))
    requires message == Trim(pre + post)
    ensures Extract(Some(pre + BeginMarker + payload + EndMarker + post), parse, storeAccepts)
         == Extraction(message, Some(InsertTask(title, json.description, json.timeLimit)))
    ensures Extract(Some(message), parse, storeAccepts) == Extraction(message, None)
  {
    ExtractOf(pre, payload, post, json, title, parse, storeAccepts);
    TrimKeepsOut(pre + post, '$');
    NoDollarNoDirective(message);
    ExtractWithoutDirective(message, parse, storeAccepts);
  }

  /** Trimming never brings in a character the text did not hold. */
  lemma TrimKeepsOut(s: string, c: char)
    requires c !in s
    ensures c !in Trim(s)
  {
    var r := Trim(s);
    var i :| 0 <= i <= |s| - |r| && r == s[i..i + |r|]
             && AllWhitespace(s[..i]) && AllWhitespace(s[i + |r|..]);
    forall k | 0 <= k < |r| ensures r[k] != c {
      assert r[k] == s[i + k];
    }
  }

  /** A text without `$` holds no begin marker, hence no directive. */
  lemma NoDollarNoDirective(s: string)
    requires '$' !in s
    ensures !HasDirective(s)
  {
    forall p | 0 <= p && p + |BeginMarker| <= |s| ensures !OccursAt(s, BeginMarker, p) {
      assert s[p..p + |BeginMarker|][0] == s[p] != '$';
    }
  }

  lemma FirstOfTwo(text: string, second: string, json: TaskJson, title: string,
                   parse: string -> Option<TaskJson>, storeAccepts: InsertTask -> bool)
    requires second == BeginMarker + "2" + EndMarker
    requires text == BeginMarker + "1" + EndMarker + " " + second
    requires parse("1") == Some(json) && json.title == Some(title)
    requires storeAccepts(InsertTask(title, json.description, json.timeLimit))
    ensures Extract(Some(text), parse, storeAccepts)
         == Extraction(second, Some(InsertTask(title, json.description, json.timeLimit)))
  {
    TrimDigit("1");
    assert text == "" + BeginMarker + "1" + EndMarker + (" " + second);
    ExtractOf("", "1", " " + second, json, title, parse, storeAccepts);
    assert second[0] == '$' && second[|second| - 1] == '$';
    TrimSpaceBefore(second);
  }

  lemma TrimSpaceBefore(t: string)
    requires t != [] && t[0] == '$' && t[|t| - 1] == '$'
    ensures Trim("" + (" " + t)) == t
  {
    assert "" + (" " + t) == " " + t + "";
    TrimPadded(" ", t, "");
  }

  lemma LoneDirective(second: string, json: TaskJson, title: string,
                      parse: string -> Option<TaskJson>, storeAccepts: InsertTask -> bool)
    requires second == BeginMarker + "2" + EndMarker
    requires parse("2") == Some(json) && json.title == Some(title)
    requires storeAccepts(InsertTask(title, json.description, json.timeLimit))
    ensures Extract(Some(second), parse, storeAccepts)
         == Extraction("", Some(InsertTask(title, json.description, json.timeLimit)))
  {
    TrimDigit("2");
    assert second == "" + BeginMarker + "2" + EndMarker + "";
    ExtractOf("", "2", "", json, title, parse, storeAccepts);
    assert AllWhitespace("" + "");
  }

  lemma TrimDigit(d: string)
    requires d == "1" || d == "2"
    ensures Trim(d) == d
  {
    assert d == [] + d + [];
    TrimPadded([], d, []);
  }
}
