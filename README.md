# PDF Q&A dataset generator: the parsing and collecting core, in Dafny

The generator in `data_gen.py` works in three steps. It reads the text of a
PDF page by page. It asks an LLM, for every text chunk, for "simple" and
"complex" question/answer pairs in a `Q: …` / `A: …` line format. It parses
each completion into `{question, answer}` records. This project models the
three pieces of that pipeline that the repository implements itself, and
proves properties of them:

- **The completion parser** (`QAGenerator._parse_qa_output`). The parser
  strips the whole completion and splits it at `"\n"`. It then walks the
  lines with an index:
  - A `Q:` line always takes the line after it with it. If that line starts
    with `A:`, the two make a pair.
  - Any other line is passed over.
  - The question and the answer are the text after the two-character
    marker, stripped.
- **The pair-collecting loop** (`QAGenerator.generate_qa_pairs`). Chunk by
  chunk, the loop makes the simple call and then the complex call. It
  appends the parsed pairs of each.
- **The page-text accumulator** (`PDFProcessor._extract_from_path`). Each
  page's text is appended, followed by a newline.

Modules, one file each:

- `py_strings.dfy` (`PyStrings`): the Python `str` operations the parser
  relies on. `strip()` removes the characters Python's `str.isspace` accepts,
  so a trailing `'\r'` on a line is removed too. Also `startswith`, `s[k:]`
  (empty past the end), `split("\n")` (the empty string gives `[""]`, and
  empty pieces are kept) and `"\n".join`.
- `qa_parser.dfy` (`QAParser`): the parser as a method with a `while` loop,
  against the specification function `ScanFrom`, plus two independent
  reference definitions:
  - a two-state machine that reads one line at a time;
  - a definition, by recursion on the index, of which lines the scan
    *visits* and where it *emits* a pair.
- `qa_generator.dfy` (`QAGenerator`): the chunk loop as a method. The batch
  functions take the completion parser as a parameter, so their order,
  concatenation and failure lemmas hold for any parser. The method
  instantiates the parser with `ParseOutput`.
- `pdf_processor.dfy` (`PdfProcessor`): the page loop as a method.

Inputs the model takes in place of outside code:

- **The LLM.** The output of every call is an input: a
  `ChunkReplies(simple, complex)` per chunk, each call either
  `Reply(text)` or `CallFailed(reason)`. In the source, a failed call
  raises an exception that leaves `generate_qa_pairs`. No pairs come back
  from that batch; the model returns `Err(reason)` for it.
- **The chunk texts.** These only go into the prompts, so they are not
  inputs of the model.
- **The PDF library.** The text it extracts from every page is an input: a
  sequence of strings.

Two consequences of the code worth keeping in mind:

- The loop appends `"\n"` after every page, the last one included, so the
  text is not the pages joined by newlines but has one more newline at the
  end (see `PageTextIsJoin`).
- A `Q:` line always consumes the line after it, even another `Q:` line,
  which then gives no pair (see `FailedQuestionSwallowsNextQuestion`).

## Model

| member | source | states |
|---|---|---|
| PyStrings.Split | data_gen.py:104 | `split("\n")` always gives at least one piece, and no piece contains a newline |
| PyStrings.LStripSpec | data_gen.py:104 | `lstrip` keeps a suffix of the string, cuts off only whitespace, and what it keeps does not start with whitespace |
| PyStrings.RStripSpec | data_gen.py:104 | `rstrip` keeps a prefix of the string, cuts off only whitespace, and what it keeps does not end with whitespace |
| PyStrings.StripSpec | data_gen.py:104 | `strip()` keeps a contiguous piece with only whitespace before and after it; the piece neither starts nor ends with whitespace, and it is empty exactly when the string is all whitespace |
| PyStrings.StripIgnoresPadding | data_gen.py:104 | whitespace added before and after a string does not change its `strip()` |
| PyStrings.JoinSplit | data_gen.py:104 | joining the pieces of `split("\n")` with newlines gives back the original string |
| PyStrings.SplitLength | data_gen.py:104 | `split("\n")` gives one more piece than the string has newlines |
| PyStrings.SplitJoin | data_gen.py:104 | splitting a newline-join of newline-free pieces gives back the pieces, so split and join are inverse |
| QAParser.ParseQAOutput | data_gen.py:101-117 | parsing a completion gives exactly `ParseOutput(output)`: the scan of the lines of the stripped completion |
| QAParser.ScanLines | data_gen.py:106-116 | the index loop gives exactly the pairs `ScanFrom(lines, 0)` defines; the index goes up by 2 after a `Q:` line and by 1 otherwise, which is the loop's termination measure |
| QAParser.ScanAgreesWithMachine | data_gen.py:106-116 | the index scan agrees with a two-state machine reading one line at a time: waiting for a question, or waiting for the answer of the last question, where the next line is consumed whatever it is |
| QAParser.EmitPositionsFrom | data_gen.py:107-112 | the emitting indices from `i` on are listed in strictly increasing order, and an index is listed exactly when it is a visited `Q:` line followed by an `A:` line |
| QAParser.VisitedStep | data_gen.py:108-115 | at a visited `Q:` line, the next line is never visited and the one after is; a visited line that is not a `Q:` line emits nothing and the next line is visited |
| QAParser.QuestionStep | data_gen.py:108-113 | at a visited `Q:` line with a next line, the visits emit that pair exactly when the next line is an `A:` line, and nothing for the consumed line |
| QAParser.ScanCollectsFromVisited | data_gen.py:106-116 | from every visited index on, the scan gives exactly the pairs emitted at the visited positions from there on |
| QAParser.ScanEmitsAtVisitedQuestions | data_gen.py:106-116 | the result has one pair per emitting index, in increasing index order, each built from the `Q:` line there and the `A:` line after it |
| QAParser.ParsedPairsComeFromAdjacentLines | data_gen.py:108-112 | every parsed pair comes from some `Q:` line directly followed by an `A:` line, its question and answer being `strip(line[2:])` of those two lines |
| QAParser.ScanBoundsFrom | data_gen.py:106-116 | from index `i` on, the scan gives at most one pair per two remaining lines and at most one per remaining `Q:` line |
| QAParser.ScanBounds | data_gen.py:106-116 | the number of pairs is at most `len(lines) // 2` and at most the number of `Q:` lines |
| QAParser.ParseIgnoresSurroundingWhitespace | data_gen.py:104 | whitespace before and after the whole completion does not change the parsed pairs |
| QAParser.BlankOutputGivesNoPairs | data_gen.py:104-117 | an empty or all-whitespace completion gives no pairs |
| QAParser.FailedQuestionSwallowsNextQuestion | data_gen.py:108-113 | for `"Q: a\nQ: b\nA: c"` the second `Q:` line is consumed as the missing answer of the first, and there are no pairs |
| QAParser.TrailingQuestionWithoutAnswerIsDropped | data_gen.py:108-115 | a complete pair, a blank line, and then a last `Q:` line with no next line give only the complete pair |
| QAParser.CarriageReturnsAreStripped | data_gen.py:104-115 | with `"\r\n"` line ends every line but the last keeps its `'\r'`; the markers are still recognised, the `'\r'` is stripped off each question and answer, and a line holding only `'\r'` is passed over, so two pairs come out |
| QAGenerator.ExtendWithReply | data_gen.py:92-93 | one call and the `extend` after it: the parsed pairs of the completion are appended, or the call's failure is the outcome |
| QAGenerator.GenerateQAPairs | data_gen.py:82-99 | the loop gives exactly `Generate(ParseOutput, replies)`: the chunks in order, the simple call before the complex one, stopping at the first failed call |
| QAGenerator.FailureAbortsBatch | data_gen.py:87-97 | once a chunk has failed, the chunks after it do not change the outcome |
| QAGenerator.GenerateWithoutFailures | data_gen.py:84-99 | the batch succeeds exactly when every call returns a completion, and then it gives, chunk by chunk, the parsed simple pairs followed by the parsed complex pairs; for no chunks this is the empty list |
| QAGenerator.CallsInChunkOrder | data_gen.py:87-97 | chunk `k`'s simple call is call `2k` and its complex call is call `2k + 1` |
| QAGenerator.CallsAllReplied | data_gen.py:92-96 | every chunk got both completions exactly when every call returned a completion |
| QAGenerator.FailureIsFirstFailedCall | data_gen.py:92-96 | a batch with a failed call fails with the reason of the first failed call, in call order |
| QAGenerator.GenerateFailsAtFirstFailedCall | data_gen.py:82-99 | the batch fails exactly when some call fails, and then with the reason of the first failed call |
| QAGenerator.GenerateConcat | data_gen.py:84-99 | a batch split in two gives the pairs of the first part followed by those of the second; a failure in the first part decides the outcome |
| PdfProcessor.ExtractFromPath | data_gen.py:40-46 | the page loop gives exactly `PageText(pages)`: every page's text followed by a newline, in page order |
| PdfProcessor.PageTextLength | data_gen.py:43-46 | the text is as long as all page texts together plus the number of pages, and it is empty exactly when there are no pages |
| PdfProcessor.PageTextConcat | data_gen.py:43-46 | the text of pages `a + b` is the text of `a` followed by the text of `b` |
| PdfProcessor.PageTextIsJoin | data_gen.py:43-46 | the text is the pages joined by newlines, with one more newline after the last page |
| PdfProcessor.PageTextSplitsIntoPages | data_gen.py:43-46 | when no page text holds a newline, splitting the text at newlines gives the pages back, followed by one empty piece |

## Left out

- PDF reading (`PdfReader`, `page.extract_text`, data_gen.py:42, 45): a foreign library. The page texts are an input.
- `PDFProcessor.extract_text` (data_gen.py:20-38): temporary-file handling and removal. This is file system I/O only.
- Chunking (`RecursiveCharacterTextSplitter`, data_gen.py:14-18, 48-50): the splitter's code is not part of this model.
- LLM set-up and calls (`Ollama`, the two prompt templates, `LLMChain.run`, data_gen.py:53-80, 92, 96): a network service. Each call's completion or failure is an input.
- The chunk texts: they only feed the prompts, so they do not appear in the model.
- Progress reporting (data_gen.py:86, 88-89): a UI callback with floating-point fractions.
- `process_pdf` (data_gen.py:119-149): the DataFrame, the CSV file, and wrapping errors into a UI error. These are I/O and presentation.
- The Gradio interface (data_gen.py:151-177), the `backend/` service and chat page, `hr.py` and the `frontend/`. They are shells that forward text to the LLM and show the result.
- Records as dictionaries: a `{"question": …, "answer": …}` dict is the datatype `QAPair`.
- Failures other than a failed LLM call, such as running out of memory, are not modelled. The parser itself cannot raise.
- Python strings may contain lone surrogates; Dafny's `char` here is a Unicode scalar value, so those strings are not modelled.
