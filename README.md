# Tutor-Agent core, modelled in Dafny

Tutor-Agent is a personal tutoring pipeline. It indexes a student's notes
for similarity search. Each session then runs three language-model agents
in a fixed order:

1. The question agent drafts four questions from the syllabus and the progress report.
2. The marking agent marks the student's four answers against the notes.
3. The update agent rewrites the progress report.

This project models the parts of the repository whose behaviour the code
itself fixes:

- **Calendar helpers** (`get_time.py`): `get_year`, `get_date` (dd-mm-yyyy) and
  `get_date_and_time`, whose day of the year comes from a 365-day
  month-length table (module `GetTime`, on top of `Decimal`).
- **Retrieval-result formatting** (`search_notes` in `Load_docs.py`): from the
  moment the vector index has ranked the stored chunks. This covers the k = 4
  cut, the empty-result sentinel, the numbered blocks labelled with their
  source and the `"\n"` join (module `LoadDocs`, on top of `Text`).
- **The progress-report file** (`read_file` / `write_file` in `Load_docs.py`):
  a class holding the file's state. Read never raises. Write overwrites the
  whole file (module `ProgressFile`).
- **The session script** (`main.py`): the four-answer console loop, the
  assembly of the marking prompt (Prompt2) and the update prompt (Prompt3),
  and the question → mark → update pipeline. Each agent is an input
  (module `TutorSession`).

Inputs that stand for the outside world:

- The clock reading `datetime.now()` is an `Instant` record.
- The index's ranking of chunks for a query is a `seq<Document>`.
- Operating-system failures of the progress file are `Option` arguments carrying the exception's message.
- The lines the student types are a `seq<string>`.
- Each agent is a function from the conversation it is given to the messages it adds.

The code does less than its docstrings suggest in a few places, and the model follows the code:

- The progress-report round trip is exact only for text without carriage returns.
  `read_file` opens the file in text mode with Python's default newline handling,
  so `"\r\n"` and a lone `"\r"` read back as `"\n"`. `ProgressFile.WriteThenRead`
  states the round trip under that condition; `ProgressFile.CarriageReturnBreaksRoundTrip`
  exhibits the exception.
- `write_file` "overwrites the content of the progress report" (its docstring,
  Load_docs.py:127), but a failed write need not leave the earlier content in
  place: `open(..., "w")` truncates before writing. The model tells the two
  failures apart (`WriteFault`): a failed open leaves the file as it was, a
  failure after the open leaves a prefix of the new content
  (`ProgressFile.WriteNeverMixes`).
- A day-of-year count has 366 days in leap years. The code's table always gives February 28 days, so in a leap year
  29 February and 1 March are both day 60 (`GetTime.LeapDayCollides`).
- The rule for choosing topics struggled with five or more days ago exists only as
  prompt text given to the question agent (agents.py:44-45). It is not code, so it is not modelled.

## Model

| member | source | states |
|---|---|---|
| `Decimal.NatToString` | Load_docs.py:103 | `str(n)` is a non-empty run of decimal digits that starts with '0' exactly when n is 0 (no leading zeros) |
| `Decimal.ParseNatToString` | get_time.py:12 | `int(...)` applied to the decimal rendering of a year gives the year back |
| `Decimal.NatToStringParse` | get_time.py:44-49 | rendering what `int` parsed from a canonical numeral gives the numeral back, so rendering and parsing are inverse |
| `Decimal.NatToStringLength` | get_time.py:24 | a number with k + 1 decimal digits renders as exactly k + 1 characters |
| `Decimal.Pad2` | get_time.py:25-26 | the `%d` / `%m` rendering is two digits that `int` reads back as the number |
| `Decimal.Pad2ZeroPads` | get_time.py:25-26 | the two-digit rendering is `str(n)` with one leading "0" below 10 and `str(n)` otherwise |
| `Decimal.DigitRunStops` | Load_docs.py:103 | the digit run of a number followed by a non-digit ends exactly at the end of the number |
| `GetTime.GetYear` | get_time.py:4-13 | `int(now.strftime("%Y"))` is the clock's year |
| `GetTime.GetDate` | get_time.py:16-28 | the date text parses back as (day, month, year) in that order; for a four-digit year it is 10 characters with '-' at indices 2 and 5 and digits elsewhere |
| `GetTime.FourDigitYear` | get_time.py:24 | years 1000 to 9999 render as four characters |
| `GetTime.GetDateAndTime` | get_time.py:31-57 | the tuple is (year, month, day, num_days, hour, minute, second) of the clock reading, each field parsed back from its `strftime` rendering |
| `GetTime.TableTotal` | get_time.py:52-55 | the month-length table sums to 365, and 31 December is day 365 |
| `GetTime.DayOfYearJanuary` | get_time.py:55 | in January num_days is the day of the month |
| `GetTime.TableMatchesCalendar` | get_time.py:52 | the table matches the Gregorian month lengths exactly except for February of a leap year |
| `GetTime.DayOfYearIncreasing` | get_time.py:52-55 | for dates the table admits, a later (month, day) has a strictly larger num_days |
| `GetTime.DayOfYearInjective` | get_time.py:52-55 | for dates the table admits, equal num_days holds if and only if the dates are equal |
| `GetTime.DayOfYearBounds` | get_time.py:52-55 | for every valid clock reading, 29 February included, 1 ≤ num_days ≤ 365 |
| `GetTime.LeapDayCollides` | get_time.py:52-55 | in a leap year 29 February and 1 March are both valid and both map to 60 |
| `GetTime.DateAgreesWithDateAndTime` | get_time.py:23-46 | get_date, get_year and get_date_and_time agree on the year, month and day of the same instant |
| `GetTime.SumPrefixGrows` | get_time.py:55 | a longer slice of the table sums to at least the shorter slice's sum plus the next entry |
| `Text.Split` | Load_docs.py:105 | the reference reading of `"\n".join`: splitting at a character yields at least one piece, and joining the pieces with it gives the text back |
| `Text.JoinAt` | Load_docs.py:105 | part i of a "\n"-joined text sits right after the earlier parts and their separators, and is followed by the separator unless it is last |
| `Text.JoinLength` | Load_docs.py:105 | joining n parts adds exactly n − 1 separators |
| `Text.SplitJoin` | Load_docs.py:105 | splitting text joined with a separator no part contains gives the parts back |
| `Text.SplitAfter` | Load_docs.py:105 | splitting at the first separator gives the piece before it followed by the split of the rest |
| `LoadDocs.TopK` | Load_docs.py:93 | the search keeps at most k chunks, a prefix of the ranking, and all of them when fewer than k exist |
| `LoadDocs.SearchNotes` | Load_docs.py:72-105 | the returned text is the formatting of the first four ranked chunks, and it is the sentinel exactly when nothing was found |
| `LoadDocs.SentinelIffEmpty` | Load_docs.py:96-97 | the result equals "No relevant information found in the notes." if and only if no chunk was found |
| `LoadDocs.ResultsOpenWithFirstHeader` | Load_docs.py:99-105 | a non-empty result starts with "--- Result 1 from " and so never equals the sentinel |
| `LoadDocs.ResultsLength` | Load_docs.py:105 | the result's length is the sum of the block lengths plus one separator between each pair of neighbouring blocks |
| `LoadDocs.ParseHeaderOfHeader` | Load_docs.py:102-103 | the header of block i reads back as the number i + 1 and the chunk's source, or "Unknown source" when the metadata has none |
| `LoadDocs.ParseHeaderOf` | Load_docs.py:103 | any header "--- Result {n} from {source} ---" reads back as (n, source), whatever the source text |
| `LoadDocs.BlockAt` | Load_docs.py:99-105 | for any chunk content, line breaks included, block i of the result sits right after blocks 0..i-1 and their "\n" separators, in retrieval order, and is followed by a "\n" unless it is the last |
| `LoadDocs.BlockReadBack` | Load_docs.py:102-104 | wherever block i appears, its header reads back as (i + 1, the chunk's source or "Unknown source") and the chunk's content follows the header's line break unchanged, whatever the content holds |
| `LoadDocs.SplitBlocksFrom` | Load_docs.py:99-105 | for single-line chunks, the joined blocks read line by line as header, content and an empty line per block |
| `LoadDocs.ResultLinesAt` | Load_docs.py:99-105 | line 3i of that reading is block i's header, line 3i + 1 its content, line 3i + 2 empty |
| `LoadDocs.DecodeResults` | Load_docs.py:99-105 | for single-line chunks the result has 3n lines: block i's header reads back as (i + 1, its source), then its content, then an empty line, so blocks are numbered consecutively from 1 in retrieval order |
| `LoadDocs.AtMostFourResults` | Load_docs.py:93 | at most four blocks are ever formatted |
| `ProgressFile.UniversalNewlines` | Load_docs.py:117-118 | text-mode reading leaves no carriage return in what it returns |
| `ProgressFile.UniversalNewlinesKeeps` | Load_docs.py:117-118 | text without a carriage return reads back unchanged |
| `ProgressFile.ProgressStore.ReadFile` | Load_docs.py:109-122 | reading never raises: a missing file gives "File not found.", any other failure gives text starting "Error reading file: ", and a file without carriage returns gives its content unchanged; the stored state is not changed |
| `ProgressFile.ProgressStore.WriteFile` | Load_docs.py:125-139 | a successful write replaces the whole file with the content and returns "File successfully updated."; a failed one returns text starting "Error writing to file: " and leaves the earlier file (open failed) or a prefix of the content (write failed) |
| `ProgressFile.WriteNeverMixes` | Load_docs.py:134-139 | after any write the file is either the earlier file untouched or a prefix of the new content, all of it exactly when the write succeeded |
| `ProgressFile.WriteThenRead` | Load_docs.py:116-137 | a read after a successful write returns exactly the content written, with nothing of the earlier file left, for content without carriage returns |
| `ProgressFile.CarriageReturnBreaksRoundTrip` | Load_docs.py:117-118 | writing "a\rb" and reading back gives "a\nb" |
| `ProgressFile.ReadWriteBackStable` | Load_docs.py:116-137 | reading the report, writing back what was read and reading again gives the same text |
| `ProgressFile.SentinelIsAmbiguous` | Load_docs.py:117-120 | a report whose content is "File not found." reads the same as a missing report |
| `TutorSession.Invoke` | main.py:17-18 | the agent's conversation opens with the prompt as the only user message |
| `TutorSession.StageOutputIsLastReply` | main.py:21 | a stage's text is the content of the last message the agent added, or the prompt if it added none |
| `TutorSession.CollectAnswers` | main.py:25-28 | the prompts are "Question 1/4: " to "Question 4/4: "; Student_answers is the first four lines, each followed by one space, and its length is their total length plus 4 |
| `TutorSession.AnswerPromptsSpelled` | main.py:27 | the four console prompts spelled out |
| `TutorSession.RunSession` | main.py:13-45 | the stages run once each, in the order question, mark, update; the syllabus is the first stage's only message; Prompt2 is built only from the questions and the answers; Prompt3 only from Prompt2 and the marking; each stage's result is its agent's last message |
| `TutorSession.AnswerTextFront` | main.py:28 | the answer text is the first answer, a space, then the text of the remaining answers |
| `TutorSession.AnswerTextPrefix` | main.py:26-28 | the text of the first i answers is a prefix of the text of all of them |
| `TutorSession.AnswerTextLength` | main.py:28 | the answer text is as long as the answers together plus one space per answer |
| `TutorSession.AnswerAt` | main.py:26-28 | answer i appears whole, followed by one space, right after the earlier answers and their spaces |
| `TutorSession.SplitAnswers` | main.py:28 | answers without spaces are recovered by splitting the answer text on spaces, with one trailing empty piece |
| `TutorSession.MarkingPromptOneLine` | main.py:31 | for all questions and answers: Prompt2 holds a line break if and only if the questions or the answers hold one, and right after the questions stand the two characters '/' and 'n', not a line break |
| `TutorSession.MarkingPromptInjective` | main.py:31 | given the length of the questions, Prompt2 determines both the questions and the answers |
| `TutorSession.UpdatePromptExtends` | main.py:39 | Prompt2 is a prefix of Prompt3, followed by "The feedback the student got: " and the marking |

## Left out

- agents.py is not part of this model. It configures the three LangChain agents, the ChatOpenAI client and the API key. Its topic-selection and marking rules are natural-language prompt text, not code.
- Tool calls the agents make (`get_date`, `read_file`, `search_notes`, `write_file`) happen inside the opaque agents. The session model therefore does not connect the progress file or the search to the stages.
- `load_documents` (Load_docs.py:22-36) is glob and file reading.
- `create_faiss_index` (Load_docs.py:40-69) is left out: chunking by `RecursiveCharacterTextSplitter(chunk_size=800, chunk_overlap=200)`, embedding and `save_local` are foreign library calls. So are main.py:7-10, which run it at startup.
- `FAISS.load_local`, `OpenAIEmbeddings` and `similarity_search` (Load_docs.py:85-93) are left out. The ranking they produce is an input; only the cut to k = 4 is modelled.
- `datetime.now()` is an input record.
- `GetTime.YearText`: years below 1000 render unpadded, as the C library's `strftime` does on Linux. How `%Y` renders them depends on the platform and the Python version; others may zero-pad them to four digits.
- The text of exceptions (`{e}`) is an input. So is how many characters a failed write got into the file; a failure in the middle of a multi-byte UTF-8 character is not modelled.
- `ProgressFile.ProgressStore.WriteFile`: that a successful write leaves exactly the content assumes `os.linesep` is "\n". On Windows the text-mode write turns each "\n" into "\r\n", which a later read turns back into "\n".
- `TutorSession.RunSession`: an exception from any `agent.invoke` (an API failure after the client's `max_retries=2`, agents.py:33) or from `open(TOPICS_DIR)` (main.py:13) ends the script, and no later stage runs. The model has every agent return and the syllabus file read successfully.
- `print` and the echo of the questions to the console (main.py:22, 45) are left out.
- `TutorSession.CollectAnswers` and `TutorSession.RunSession` require at least four console lines. With fewer, `input()` raises EOFError and the script stops; that failure is not modelled.
- The read of the syllabus file (main.py:13-14) is an input string.
