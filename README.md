# Green Metrics Bot: rubric-table parser and session state

Green Metrics Bot is a one-page Streamlit tool: the user uploads a PDF
sustainability report, the page asks a retrieval-augmented language model to
score it against a fixed ESG rubric, shows the score table, and then answers
follow-up questions from the same document. Almost all of `app.py` hands work to
libraries (PDF extraction, text splitting, embeddings, a vector index, the hosted
model, Streamlit, pandas). This project models the two parts of `main()` that
carry logic of their own, and proves what they do.

- **The rubric-table parser** (`TextSplit`, `TableParser`). The model's reply is
  split on newlines, each line on `|`; lines whose fields are all `""` or `" "`
  are dropped; the first remaining line is the header, untrimmed; every later
  line is cut to the header's width or padded with `None`. `TextSplit.Split` is
  Python's `str.split` with an explicit separator (empty fields kept, k
  separators give k + 1 fields). `TableParser.ParseTable` returns `None` where
  app.py raises `IndexError` because no line is left.
- **The session state** (`Session`). `Session.SessionState` is a class with the
  four fields of `st.session_state` (`past`, `generated`, `initialQuerySent`,
  `initialAnswer`), a constructor for the first-rerun initialisation, one method
  per kind of rerun (with a document and the text of the question box, or with no
  document), and the loop that lays out the chat history most recent first; that
  loop's specification is the function `Transcript`. The question-answering
  chain is a total function parameter `respond: Query -> string`, where `Query`
  is either the rubric prompt or a user question. Two client methods run several
  reruns on a fresh session and prove how the state carries across them.

Behaviour of app.py that the model reproduces:

- The blank-line test at line 92 treats only `""` and `" "` as empty, not every
  whitespace string: a line of two spaces or a tab survives and can become the
  header.
- The rubric flag is set at line 108, after the reply has been split and its
  header taken at line 94. A reply with no table line raises there, so the rerun
  ends with the state untouched and the next rerun with the document sends the
  rubric prompt again, to a chain built afresh. Each rerun's rubric reply can
  therefore differ; `Session.UploadThenAsk` takes one responder per rerun and
  proves that the reruns before the first parseable reply crash and every later
  one shows that reply's table without asking again.

## Model

| member | source | states |
|---|---|---|
| `TextSplit.Split` | app.py:89-90 | `str.split` on one character never returns an empty list |
| `TextSplit.SplitCount` | app.py:89-90 | splitting a string with k separators gives exactly k + 1 fields, so empty fields are kept |
| `TextSplit.SplitFieldsFree` | app.py:89-90 | no field produced by the split contains the separator |
| `TextSplit.JoinSplit` | app.py:89-90 | joining the fields with the separator gives back the original text, so the split loses no character |
| `TextSplit.SplitJoin` | app.py:89-90 | splitting a join of separator-free fields gives back exactly those fields, so the split is the inverse of the join |
| `TableParser.ReplyLines` | app.py:89-90 | the reply split on newlines, each line split on the pipe character; `ReplyLinesFields` states its shape |
| `TableParser.ReplyLinesFields` | app.py:89-90 | a reply with k newlines gives k + 1 field lists, and no field holds a pipe character |
| `TableParser.IsBlank` | app.py:92 | the two field values the filter treats as empty: `""` and `" "`, nothing else |
| `TableParser.HasContent` | app.py:92 | the filter's test: a line has content when at least one field is not `IsBlank` |
| `TableParser.DropBlankLines` | app.py:92 | no more lines are kept than given, and every kept line has a field other than `""` and `" "` |
| `TableParser.DropBlankLinesNone` | app.py:92-94 | nothing is kept exactly when no input line has a field other than `""` and `" "` |
| `TableParser.DropBlankLinesMember` | app.py:92 | a line is kept if and only if it is in the input and has a field other than `""` and `" "` |
| `TableParser.DropBlankLinesAppend` | app.py:92 | the filter keeps line by line: the kept lines of a concatenation are the kept lines of each part, in the original order |
| `TableParser.DropBlankLinesFirst` | app.py:92-95 | the first kept line is the first input line with content, and the rest are the kept lines after it |
| `TableParser.Reshape` | app.py:99-100 | a reshaped row is exactly as wide as the header; cell j is field j where the line has one and `None` up to the header width otherwise; extra fields are dropped |
| `TableParser.ReshapeAll` | app.py:100 | one row per content line, in order, each exactly as wide as the header |
| `TableParser.ReshapeAllCells` | app.py:99-100 | row k has the header's width and holds, cell by cell, field j of content line k or `None` |
| `TableParser.TableOf` | app.py:94-100 | on the split lines: the table is missing exactly when no line has content, and every row has the header's width |
| `TableParser.ParseTable` | app.py:89-100 | on the reply text: no table exactly when no line of the reply has a field other than `""` and `" "` (the IndexError of line 94); otherwise every row has the header's width |
| `TableParser.TableOfShape` | app.py:92-100 | the header is the untrimmed field list of the first line with content; the rows are the later lines with content, in order, each reshaped to the header's width |
| `TableParser.WellFormedReply` | app.py:89-100 | a reply of one header line and one content line, with or without a trailing newline, parses to that header and that line reshaped |
| `TableParser.ExampleRubricReply` | app.py:89-100 | the reply made of the pipe-separated header line Indicator, Score, Feedback, the content line Carbon, 7, Good tracking and a trailing newline parses to that header and the single row of those three cells |
| `TableParser.ExampleShortRow` | app.py:99-100 | a content line with two fields under a three-column header gets `None` as its third cell |
| `TableParser.ExampleNoTable` | app.py:92-94 | a reply whose lines hold only `""` and `" "` fields has no table |
| `TableParser.ExampleTwoSpaces` | app.py:92-94 | a line of two spaces is not blank and becomes the header of an empty table |
| `Session.Transcript` | app.py:120-123 | the history shown has two bubbles per question/answer pair |
| `Session.TranscriptAt` | app.py:120-123 | bubbles 2k and 2k + 1 are the answer and the question of history entry n - 1 - k: most recent first, each answer with its own question |
| `Session.SessionState.constructor` | app.py:25-32 | a new session has empty histories, the flag false and no kept table |
| `Session.SessionState.Messages` | app.py:120-123 | the loop from the last index to the first produces exactly `Transcript` of the current history |
| `Session.SessionState.RerunWithDocument` | app.py:55-123 | the rubric prompt is sent only when the flag is false; a reply without a table crashes the rerun with nothing changed; otherwise the flag is true and the table is kept, a kept table is never replaced, the shown table is the kept one, a non-empty question appends itself to `past` and its answer to `generated` (an empty one changes neither), and the history is shown most recent first |
| `Session.SessionState.RerunWithoutDocument` | app.py:124-129 | whatever the prior state, both histories are empty, the flag is false and no table is kept |
| `Session.RubricTables` | app.py:51-100 | rerun k's rubric reply, from the chain built on that rerun, parsed |
| `Session.FirstTableNone` | app.py:55-108 | no table is kept after n reruns exactly when none of their rubric replies parsed |
| `Session.FirstTableIsFirst` | app.py:55-108 | when reply j is the first to parse, the table kept after any later rerun is reply j's |
| `Session.FirstTableStable` | app.py:55-111 | once a table is kept, later reruns do not change it |
| `Session.UploadThenAsk` | app.py:51-112 | over an upload rerun and one rerun per question, each with its own responder: rerun k crashes exactly when none of the rubric replies up to its own parsed, and otherwise shows the first table that parsed; the rubric prompt goes out once per crashed rerun plus once for the rerun whose reply parsed |
| `Session.RemoveThenUpload` | app.py:55-129 | after a document is used, removed and another uploaded, the new document gets a fresh rubric call, its own table and an empty history |

## Left out

- PDF text extraction and the page loop (app.py:39-42): library calls with no logic of their own.
- Chunking with `CharacterTextSplitter` (app.py:44-50): its size and overlap guarantees belong to the library, whose code is not part of this model.
- Embeddings, the vector index, the retrieval chain and the hosted model (app.py:16-18, 51-54): replaced by the total function `respond`; network errors, quotas and malformed API responses, which would abort the rerun, are not modelled.
- The text of the rubric prompt (app.py:56-83): only a constant, represented by the query `Rubric`.
- `pd.DataFrame`, `st.table` and `message` (app.py:102-103, 112, 122-123): the model keeps the header and rows handed to the table and the order of the bubbles; a bubble's key `str(i)` / `str(i) + '_user'` is represented by the index and the user flag.
- `TableParser.ParseTable`, `Session.SessionState.RerunWithDocument`: a parsed table is always taken to display. In app.py, building the frame or displaying it (lines 102-103) may still raise on a parsed table, for instance when the display rejects repeated column names: the markdown-style header line `|a|b|` splits to `["", "a", "b", ""]`, with two columns named `""`. Such a rerun ends before lines 104-108 with the flag still false, so the next rerun sends the rubric prompt again; the model shows the table and sets the flag instead. The column rules of pandas and Streamlit are library code and not part of this model.
- `load_dotenv`, page configuration, the header, the upload and text widgets, and the `print` calls (app.py:13, 21-23, 35, 86, 93, 96-97, 101): environment and UI plumbing. The question box's text is a parameter of `RerunWithDocument`, the presence of a file is the choice between the two rerun methods.
- Streamlit's rerun and concurrency model: reduced to sequential method calls on one session object.
- Characters are Dafny `char`s; Python string semantics beyond `split` on one character (code points, encodings) are not modelled.
