/** The per-session state of the page and the two kinds of rerun that drive it
    (app.py, lines 25-32, 55, 104-130). Each user interaction reruns `main()`
    from the top against the state kept for the session; here each rerun is one
    method call. The question-answering chain is the total function `respond`. */
module Session {
  import opened Wrappers
  import opened TableParser

  /** What is sent to the question-answering chain: the fixed rubric prompt
      (lines 56-83, whose text is not modelled) or a question typed by the user. */
  datatype Query = Rubric | Question(text: string)

  /** One chat bubble: its text, whether it is the user's, and the history
      index its key is made from. */
  datatype Message = Message(text: string, isUser: bool, index: nat)

  /** What one rerun with a document shows. `Crashed` is the rerun that ends in
      the IndexError of line 94, before anything else is shown or stored. */
  datatype Page = Crashed | Shown(table: Option<Table>, messages: seq<Message>)

  /** The bubbles for history indices n - 1 down to 0: for each, the answer
      first and then the question. */
  function Transcript(past: seq<string>, generated: seq<string>, n: nat): (shown: seq<Message>)
    requires n <= |past| && n <= |generated|
    ensures |shown| == 2 * n
  {
    if n == 0 then []
    else [Message(generated[n - 1], false, n - 1), Message(past[n - 1], true, n - 1)]
         + Transcript(past, generated, n - 1)
  }

  /** Bubbles 2k and 2k + 1 show the answer and the question of history entry
      n - 1 - k: most recent first, each answer beside its own question. */
  lemma {:induction false} TranscriptAt(past: seq<string>, generated: seq<string>, n: nat, k: nat)
    requires n <= |past| && n <= |generated| && k < n
    ensures Transcript(past, generated, n)[2 * k] == Message(generated[n - 1 - k], false, n - 1 - k)
    ensures Transcript(past, generated, n)[2 * k + 1] == Message(past[n - 1 - k], true, n - 1 - k)
  {
    if k > 0 {
      TranscriptAt(past, generated, n - 1, k - 1);
    }
  }

  class SessionState {
    /** The questions asked, oldest first. */
    var past: seq<string>
    /** The answers, index-aligned with `past`. */
    var generated: seq<string>
    /** Whether the rubric table has been computed for the current document. */
    var initialQuerySent: bool
    /** The rubric table kept for later reruns. */
    var initialAnswer: Option<Table>

    /** The two histories stay aligned, and a table is kept exactly when the
        rubric call has succeeded since the last reset. */
    ghost predicate Valid()
      reads this
    {
      |past| == |generated| && (initialQuerySent <==> initialAnswer.Some?)
    }

    /** Lines 25-32: the first rerun of a session starts from empty state. */
    constructor ()
      ensures Valid()
      ensures past == [] && generated == [] && !initialQuerySent && initialAnswer == None
    {
      past := [];
      generated := [];
      initialQuerySent := false;
      initialAnswer := None;
    }

    /** Lines 120-123: the bubbles, visiting the history from the last index
        to the first. */
    method Messages() returns (shown: seq<Message>)
      requires Valid()
      ensures shown == Transcript(past, generated, |generated|)
    {
      var questions, answers := past, generated;
      shown := [];
      if |answers| > 0 {
        var i := |answers| - 1;
        while i >= 0
          invariant -1 <= i < |answers|
          invariant shown + Transcript(questions, answers, i + 1) == Transcript(questions, answers, |answers|)
        {
          var pair := [Message(answers[i], false, i), Message(questions[i], true, i)];
          assert Transcript(questions, answers, i + 1) == pair + Transcript(questions, answers, i);
          assert (shown + pair) + Transcript(questions, answers, i) == shown + (pair + Transcript(questions, answers, i));
          shown := shown + pair;
          i := i - 1;
        }
        assert shown + Transcript(questions, answers, 0) == shown;
      }
    }

    /** Lines 55-123: a rerun while a document is uploaded, with the text of
        the question box. The rubric call is made only while the flag is
        false, and a failed parse ends the rerun with nothing changed. The
        table shown is always the kept one; a non-empty question appends its
        answer to the history, and the whole history is shown. `calls` lists
        what was sent to `respond`, in order. */
    method RerunWithDocument(respond: Query -> string, question: string) returns (page: Page, calls: seq<Query>)
      requires Valid()
      modifies this
      ensures Valid()
      ensures page.Crashed? <==> !old(initialQuerySent) && ParseTable(respond(Rubric)).None?
      ensures old(initialQuerySent) ==> initialQuerySent && initialAnswer == old(initialAnswer)
      ensures !old(initialQuerySent) ==> initialAnswer == ParseTable(respond(Rubric))
      ensures page.Crashed? ==> past == old(past) && generated == old(generated) && !initialQuerySent
      ensures page.Shown? ==> initialQuerySent && page.table == initialAnswer
      ensures page.Shown? ==>
                past == old(past) + (if question == "" then [] else [question]) &&
                generated == old(generated) + (if question == "" then [] else [respond(Question(question))])
      ensures page.Shown? ==> page.messages == Transcript(past, generated, |generated|)
      ensures calls == (if old(initialQuerySent) then [] else [Rubric])
                       + (if page.Shown? && question != "" then [Question(question)] else [])
    {
      var shownTable: Option<Table>;
      calls := [];
      if !initialQuerySent {
        var reply := respond(Rubric);
        calls := calls + [Rubric];
        var parsed := ParseTable(reply);
        if parsed.None? {
          page := Crashed;
          return;
        }
        shownTable := parsed;
        if initialAnswer.None? {
          initialAnswer := parsed;
        }
        initialQuerySent := true;
      } else {
        shownTable := initialAnswer;
      }
      if question != "" {
        var answer := respond(Question(question));
        calls := calls + [Question(question)];
        past := past + [question];
        generated := generated + [answer];
      }
      var messages := Messages();
      page := Shown(shownTable, messages);
    }

    /** Lines 124-129: a rerun with no document clears the history, lowers the
        flag and drops the kept table, whatever the state was. */
    method RerunWithoutDocument()
      modifies this
      ensures Valid()
      ensures past == [] && generated == [] && !initialQuerySent && initialAnswer == None
    {
      generated := [];
      past := [];
      initialQuerySent := false;
      if initialAnswer.Some? {
        initialAnswer := None;
      }
    }
  }

  /** The parse of each responder's rubric reply. */
  function RubricTables(responds: seq<Query -> string>): (tables: seq<Option<Table>>)
    ensures |tables| == |responds|
  {
    seq(|responds|, k requires 0 <= k < |responds| => ParseTable(responds[k](Rubric)))
  }

  /** The first table among the first n parse results, if any parsed. */
  function FirstTable(tables: seq<Option<Table>>, n: nat): Option<Table>
    requires n <= |tables|
  {
    if n == 0 then None
    else if FirstTable(tables, n - 1).Some? then FirstTable(tables, n - 1)
    else tables[n - 1]
  }

  /** Once a rubric reply has parsed, later replies do not change the first
      table. */
  lemma {:induction false} FirstTableStable(tables: seq<Option<Table>>, n: nat, m: nat)
    requires n <= m <= |tables| && FirstTable(tables, n).Some?
    ensures FirstTable(tables, m) == FirstTable(tables, n)
  {
    if m > n {
      FirstTableStable(tables, n, m - 1);
    }
  }

  /** No table after n replies exactly when none of the first n parsed. */
  lemma {:induction false} FirstTableNone(tables: seq<Option<Table>>, n: nat)
    requires n <= |tables|
    ensures FirstTable(tables, n).None? <==> forall j :: 0 <= j < n ==> tables[j].None?
  {
    if n > 0 {
      FirstTableNone(tables, n - 1);
    }
  }

  /** When reply j is the first to parse, the first table after any n > j
      replies is reply j's table. */
  lemma {:induction false} FirstTableIsFirst(tables: seq<Option<Table>>, j: nat, n: nat)
    requires j < n <= |tables| && tables[j].Some?
    requires forall i :: 0 <= i < j ==> tables[i].None?
    ensures FirstTable(tables, n) == tables[j]
  {
    if n == j + 1 {
      FirstTableNone(tables, j);
    } else {
      FirstTableIsFirst(tables, j, n - 1);
    }
  }

  /** Number of crashed pages. */
  function CrashCount(pages: seq<Page>): nat
  {
    if |pages| == 0 then 0
    else CrashCount(pages[..|pages| - 1]) + (if pages[|pages| - 1].Crashed? then 1 else 0)
  }

  /** Page k is what rerun k shows given the first table after k + 1 rubric
      replies: a crash when none has parsed, otherwise that table. */
  predicate PageFits(page: Page, first: Option<Table>)
  {
    (page.Crashed? <==> first.None?) && (page.Shown? ==> page.table == first)
  }

  /** Every page fits the first table of its rerun. */
  predicate PagesFit(pages: seq<Page>, tables: seq<Option<Table>>)
    requires |pages| <= |tables|
  {
    forall k :: 0 <= k < |pages| ==> PageFits(pages[k], FirstTable(tables, k + 1))
  }

  lemma {:induction false} PagesFitAppend(pages: seq<Page>, page: Page, tables: seq<Option<Table>>)
    requires |pages| < |tables| && PagesFit(pages, tables)
    requires PageFits(page, FirstTable(tables, |pages| + 1))
    ensures PagesFit(pages + [page], tables)
  {
    forall k | 0 <= k < |pages| + 1
      ensures PageFits((pages + [page])[k], FirstTable(tables, k + 1))
    {
      if k < |pages| {
        assert (pages + [page])[k] == pages[k];
      } else {
        assert (pages + [page])[k] == page;
      }
    }
  }

  /** `PagesFit` spelled out: a crash exactly when no table yet, and
      otherwise the first table. */
  lemma {:induction false} PagesFitMeans(pages: seq<Page>, tables: seq<Option<Table>>)
    requires |pages| <= |tables| && PagesFit(pages, tables)
    ensures forall k :: 0 <= k < |pages| ==> (pages[k].Crashed? <==> FirstTable(tables, k + 1).None?)
    ensures forall k :: 0 <= k < |pages| ==> pages[k].Shown? ==> pages[k].table == FirstTable(tables, k + 1)
  {
    forall k | 0 <= k < |pages|
      ensures (pages[k].Crashed? <==> FirstTable(tables, k + 1).None?)
      ensures pages[k].Shown? ==> pages[k].table == FirstTable(tables, k + 1)
    {
      assert PageFits(pages[k], FirstTable(tables, k + 1));
    }
  }

  lemma {:induction false} CrashCountAppend(pages: seq<Page>, page: Page)
    ensures CrashCount(pages + [page]) == CrashCount(pages) + (if page.Crashed? then 1 else 0)
  {
    assert (pages + [page])[..|pages|] == pages;
  }

  /** A session that uploads a document and then asks the given questions, one
      rerun each; rerun k is served by `responds[k]`, as each rerun rebuilds
      the chain and asks the model again. Rerun k crashes exactly when no
      rubric reply up to and including its own has parsed, and otherwise shows
      the table of the first reply that parsed (which `FirstTableStable` keeps
      fixed from then on). `rubricCalls` counts the reruns whose calls include
      the rubric prompt: one per crashed rerun, and one more for the rerun
      whose reply parsed. */
  method UploadThenAsk(responds: seq<Query -> string>, questions: seq<string>)
    returns (pages: seq<Page>, rubricCalls: nat)
    requires |responds| == |questions| + 1
    ensures |pages| == |responds|
    ensures forall k :: 0 <= k < |pages| ==>
              (pages[k].Crashed? <==> FirstTable(RubricTables(responds), k + 1).None?)
    ensures forall k :: 0 <= k < |pages| ==>
              pages[k].Shown? ==> pages[k].table == FirstTable(RubricTables(responds), k + 1)
    ensures rubricCalls == CrashCount(pages) + (if FirstTable(RubricTables(responds), |responds|).Some? then 1 else 0)
  {
    ghost var tables := RubricTables(responds);
    var session := new SessionState();
    pages := [];
    rubricCalls := 0;
    var i := 0;
    while i < |responds|
      invariant 0 <= i <= |responds| && |pages| == i
      invariant session.Valid()
      invariant session.initialAnswer == FirstTable(tables, i)
      invariant PagesFit(pages, tables)
      invariant rubricCalls == CrashCount(pages) + (if FirstTable(tables, i).Some? then 1 else 0)
    {
      var question := if i == 0 then "" else questions[i - 1];
      var respond := responds[i];
      ghost var before := FirstTable(tables, i);
      ghost var after := FirstTable(tables, i + 1);
      assert after == if before.Some? then before else ParseTable(respond(Rubric));
      var page, calls := session.RerunWithDocument(respond, question);
      assert session.initialAnswer == after;
      assert PageFits(page, after);
      assert Rubric in calls <==> before.None?;
      if Rubric in calls {
        rubricCalls := rubricCalls + 1;
      }
      PagesFitAppend(pages, page, tables);
      CrashCountAppend(pages, page);
      pages := pages + [page];
      i := i + 1;
    }
    PagesFitMeans(pages, tables);
  }

  /** Upload a document, ask a question, remove the document and upload
      another: the second document gets its own rubric call and starts with an
      empty history. */
  method RemoveThenUpload(first: Query -> string, question: string, second: Query -> string)
    returns (page: Page, calls: seq<Query>)
    ensures |calls| >= 1 && calls[0] == Rubric
    ensures page.Crashed? <==> ParseTable(second(Rubric)).None?
    ensures page.Shown? ==> page.table == ParseTable(second(Rubric)) && page.messages == []
  {
    var session := new SessionState();
    var p0, c0 := session.RerunWithDocument(first, "");
    var p1, c1 := session.RerunWithDocument(first, question);
    session.RerunWithoutDocument();
    page, calls := session.RerunWithDocument(second, "");
  }
}
