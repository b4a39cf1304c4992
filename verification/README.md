# chat-twin-ai transcript core, in Dafny

A model of the part of chat-twin-ai that turns an exported WhatsApp
transcript into data, and of the proofs about it:

- **the header pattern** shared by both parsers (`Header`): a line is a
  message header when it starts with a date `d/d/dddd` (one or two digits
  for day and month, four for the year), `", "`, a time `H:MM` or
  `HH:MM`, any number of LEFT-TO-RIGHT MARKs, whitespace, an optional
  `AM`/`PM`/`am`/`pm`, and `" - "`; the rest of the line is the body. The
  matcher `Header.Classify` is deterministic; it is proved sound and
  complete against an independent grammar (`Derivation`, `WellFormed`,
  `Render`), whose readings of a line are unique, so the capture groups
  the backtracking regex returns are determined;
- **the segmenter and the summary** of `process_chat_file` (`Processor`,
  `ChatStats`): a left fold over the lines of the text that starts a
  record at each header and appends every other line, stripped, to the
  record in progress; and the total, the number of distinct senders and
  the three most frequent senders;
- **the document extractor** `load_whatsapp_chat` (`ChatLoader`): one
  document per header whose body holds `": "`, proved to be exactly the
  segmenter's records that have a sender, cut down to their first line;
- **the store decision and the prompt** of `get_or_create_vectorstore`
  and `ask_persona` (`VectorStore`): load when both per-user artifacts
  exist, refuse an empty document list before touching anything,
  otherwise remove both artifacts, write the text dump and save a new
  index; and the prompt that carries the retrieved contents, the persona
  and the question verbatim.

Strings are `seq<char>`. `Text` holds the string primitives with Python's
meaning: `str.strip()`, `str.split(c)`, `sep.join`, `pat in s` and
`s.split(pat, 1)`. Whitespace is the set `str.isspace` accepts, which is
also what `\s` matches in a `str` pattern.

What the code does not do, the model does not do either:
- The pattern accepts only a four-digit year (`d/d/dddd`) and the separator `" - "`.
- The loader keeps every sender's documents.
- A record's text is never stripped again once it is complete, so the empty pieces that blank continuation lines leave at its end stay.

Retrieval and the language model are function parameters of
`VectorStore.Ask`. The file system is a map from path to entry. Reading
the upload, the Streamlit interface and printing are outside the model.
`VectorStore.AskPersona` is `Ask` with the source's own prompt text.

## Model

| member | source | states |
|---|---|---|
| Text.SplitOnce | utils/processor.py:22-23 | `": " in body` decides the split. If it holds, the body is the sender, `": "` and the message. The split is at the first occurrence: no occurrence of the pattern starts inside the sender. |
| Text.Split | utils/processor.py:7 | `text.split("\n")` yields at least one piece. No piece holds a line feed, and joining the pieces with line feeds gives the text back. |
| Text.SplitJoin | utils/processor.py:7 | Splitting undoes joining when no part holds the separator. |
| Text.Strip | utils/processor.py:27 | `strip()` leaves no whitespace at either end and never lengthens the text. |
| Text.StripTrims | utils/processor.py:27 | `strip()` removes only a whitespace prefix and a whitespace suffix. |
| Text.StripUnique | utils/processor.py:29 | Whatever whitespace surrounds a core with no whitespace at either end, `strip()` returns exactly that core. |
| Text.StripIdempotent | utils/processor.py:29 | Stripping twice is stripping once. |
| Header.Classify | utils/processor.py:8 | A match has a body with no line feed, a date that starts with a digit, a time that ends with one, and a meridiem that is one of the four spellings. |
| Header.ClassifySound | utils/processor.py:8 | Every line the matcher accepts is spelled out by a well-formed derivation of the pattern, and the groups returned are that derivation's captures. |
| Header.ClassifyComplete | utils/chat_loader.py:7 | Every line the pattern's grammar derives is accepted, with that derivation's groups. |
| Header.ParseComplete | utils/processor.py:8 | The matcher recovers every well-formed derivation from the line it spells. |
| Header.DerivationUnique | utils/processor.py:8 | Two well-formed derivations of the same line are equal, so the groups of a match are determined. |
| Header.ClassifyEmpty | utils/processor.py:14 | The empty line, which a trailing line feed produces, is not a header. |
| Processor.SplitSender | utils/processor.py:22-25 | There is no sender exactly when the body lacks `": "`, and then the message is the whole body. Otherwise the body is sender, `": "` and message, and the sender has no `": "`. |
| Processor.Read | utils/processor.py:14-29 | A line is a header exactly when the pattern matches. A header opens a record whose datetime is set; any other line contributes its stripped text. |
| Processor.Step | utils/processor.py:13-29 | One iteration never changes a finished record and adds at most one. It adds one exactly when a header arrives while a record with a datetime is in progress. A continuation keeps the datetime and sender of the record in progress and only extends its text. |
| Processor.Fold | utils/processor.py:13-29 | The loop finishes at most one record per line, and every finished record has a datetime. |
| Processor.ProcessLines | utils/processor.py:7-32 | Every record `process_chat_file` builds has a datetime, so lines before the first header never form a record. |
| Processor.DateTimeFormat | utils/processor.py:19-20 | The datetime is `date + ", " + time`, followed by `" " + meridiem` only when a meridiem was captured. The final `strip()` removes nothing else. |
| Processor.RecordSender | utils/processor.py:22-27 | A header's record has no sender exactly when the body lacks `": "`, and then its message is the stripped body. Otherwise the sender is the text before the first `": "` and the message is the stripped rest. |
| Processor.FoldInvariant | utils/processor.py:13-29 | After any prefix of lines, the fold holds the records of every header but the last. The record in progress is the last header's record extended by the lines after it. |
| Processor.SegmentIsReference | utils/processor.py:13-32 | The records are exactly one per header line, in order, the last one flushed. Each is the record its header opens, extended by the lines up to the next header. |
| Processor.PreambleIgnored | utils/processor.py:11-32 | Lines before the first header change no record. |
| Processor.NoHeaderNoRecord | utils/processor.py:28-32 | A text without header lines yields no record. |
| Processor.EmptyTextNoRecord | utils/processor.py:7-32 | The empty text yields no record. |
| Processor.ProcessLinesRecords | utils/processor.py:13-32 | There are as many records as header lines. A line's position is listed exactly when the pattern matches it, and the positions increase. |
| Processor.ProcessLinesFields | utils/processor.py:19-27 | The k-th record has the k-th header's datetime and sender. |
| Processor.ProcessLinesText | utils/processor.py:27-29 | Splitting the k-th record's text on line feeds gives its stripped first message, then every line up to the next header, each stripped and in order. Blank lines give empty pieces. |
| Processor.ExtendJoins | utils/processor.py:29 | Appending continuations joins their stripped texts onto the message, one per line. |
| ChatStats.CountPositive | utils/processor.py:38 | A sender has a positive count exactly when some record has that sender. |
| ChatStats.CountPermutation | utils/processor.py:39 | A sender's count does not depend on the order of the records. |
| ChatStats.SendersPermutation | utils/processor.py:38 | The set of senders does not depend on the order of the records. |
| ChatStats.FirstSeen | utils/processor.py:38 | Lists each sender once, and nothing else. |
| ChatStats.Select | utils/processor.py:39 | Takes the k most frequent candidates, each once, with exact counts and most frequent first. No candidate left out has a larger count than one listed. |
| ChatStats.TopUsers | utils/processor.py:39 | The top senders are an admissible `value_counts().head(3)`: min(3, number of senders) entries, no None, exact counts, most frequent first, and none omitted that sent more. |
| ChatStats.TopUsersPermutation | utils/processor.py:39 | Whether a top-sender list is admissible does not depend on the order of the records. |
| ChatStats.ComputeStats | utils/processor.py:34-40 | The summary fails exactly on an empty record list, which has no `sender` column. Otherwise it holds the record count, the number of distinct senders and admissible top senders. |
| ChatStats.StatsPermutation | utils/processor.py:37-39 | Total, user count and admissible top senders are unchanged by reordering the records. |
| ChatStats.NoSenders | utils/processor.py:38-39 | When every sender is None, Users is 0 and Top Users is empty. |
| ChatStats.ProcessChatFile | utils/processor.py:6-42 | `process_chat_file` fails exactly when the text has no record. Otherwise it returns the records, their number as the total, the number of distinct senders as Users, and an admissible top three. |
| ChatStats.EmptyChatFails | utils/processor.py:34-39 | The empty text has no summary. |
| ChatStats.TotalIsHeaderCount | utils/processor.py:34-37 | There is a summary exactly when the text has a header line, and its total is the number of header lines. |
| ChatLoader.DocumentOf | utils/chat_loader.py:13-21 | A line yields a document exactly when it is a header whose body holds `": "`. The content and the sender are the stripped text after and before the first `": "`. The datetime has the processor's format, and the content is one line. |
| ChatLoader.DocumentsExact | utils/chat_loader.py:12-21 | Over lines already split, there is one document per header line with a sender, in line order, and nothing from any other line. |
| ChatLoader.LoadWhatsappChat | utils/chat_loader.py:6-23 | `load_whatsapp_chat` gives one document per line of the text that is a header with a sender, in line order, and nothing from any other line. Each content is a single line. |
| ChatLoader.LoaderMatchesProcessor | utils/chat_loader.py:12-21 | The documents correspond one to one, in order, with the processor's records that have a sender. Each pair has the same datetime and stripped sender, and the content is the record's first line. |
| ChatLoader.ContentIsFirstLine | utils/chat_loader.py:21 | A document's content is a prefix of its record's text and the first of the record's lines. |
| VectorStore.GetOrCreate | utils/vectorstore.py:16-48 | Loads, ignoring `docs`, exactly when both artifacts exist. When it cannot load, it fails, changing nothing, exactly when `docs` is empty, and builds from `docs` otherwise. A build replaces both artifacts, writing the dump and the new index, and creates each missing directory as a directory entry, as `os.makedirs` does. Every other path keeps its entry, and nothing else is created. |
| VectorStore.LoadAfterBuild | utils/vectorstore.py:22-24 | After a successful call, the next call for the same user loads, even with no documents. |
| VectorStore.Dump | utils/vectorstore.py:41-43 | The dump is empty exactly when there are no documents. Otherwise it ends with a line feed, and it has at least one character per document. |
| VectorStore.OtherUsersUntouched | utils/vectorstore.py:18-19 | A call for one user leaves another user's artifacts as they were. |
| VectorStore.DumpIsJoin | utils/vectorstore.py:41-43 | The dump is the contents joined by line feeds, plus a final line feed. |
| VectorStore.DumpLines | utils/vectorstore.py:41-43 | Reading a dump of one-line contents back line by line gives the contents in order, then one empty piece. |
| VectorStore.ChatDumpLines | utils/vectorstore.py:41-43 | The dump of a chat's documents reads back into their contents. |
| VectorStore.JoinAt | utils/vectorstore.py:61 | Each retrieved content appears verbatim in the context at its offset. Between two consecutive contents stands exactly the separator `"\n\n"`. |
| VectorStore.FillVerbatim | utils/vectorstore.py:63-81 | The prompt holds the persona (twice), the context and the query verbatim, in that order. |
| VectorStore.PromptHolds | utils/vectorstore.py:61-81 | Every retrieved content, the persona and the query appear verbatim in the prompt. The contents appear in retrieval order, without overlap and with `"\n\n"` between consecutive ones. |
| VectorStore.Ask | utils/vectorstore.py:50-85 | The prompt sent holds the persona, every retrieved content in order with `"\n\n"` between them, and the query. The answer is the response's `content` when it has one and its text form otherwise. |
| VectorStore.AskPersona | utils/vectorstore.py:50-85 | With the source's own prompt text, the persona is named right after the opening instructions. The answer is the response's `content` when it has one and its text form otherwise. |

## Left out

- main.py: the Streamlit interface, session state and the upload are not modelled. It only calls the modelled functions: an empty list to force a load (main.py:38) and every sender's documents to the builder (main.py:60-61).
- FAISS, the embeddings and the language model are external libraries and are not modelled. A loaded store records its path and a built store records its documents; retrieval (MMR, k = 20) and the model are function parameters of `Ask`. `VectorStore.AskPersona` fixes the prompt text.
- The module-level conversation memory (utils/vectorstore.py:14) is never used. `load_dotenv` and the `print` calls, including the prompt preview, are side effects without results.
- pandas: the data frame is the list of records. `value_counts` fixes no order between senders with equal counts, so `IsTopUsers` admits every tie order, and `TopUsers` picks the sender seen first.
- Header.Classify: `\d` is ASCII digits only. Python also accepts other Unicode decimal digits in a `str` pattern.
- `docs=None` is not modelled. Only lists are, and an empty list takes the error path as `not docs` does.
- VectorStore.OtherUsersUntouched: holds in the source only when both `user` and `other` are plain path components. Paths are opaque keys here, so names such as `""`, `"."`, `".."` or ones holding `/` are not resolved. In the source such a name can make the index path `vectorstores/<user>` name a directory other than that user's own index. `""` and `"."` name the store directory itself, and `".."` names the working directory. `"../chats"` names the chats directory. When that user's chat file is missing, `shutil.rmtree` (utils/vectorstore.py:33-34) then deletes other users' indexes or dumps. Sender names come from the uploaded text, so such a name can reach the function.
- VectorStore.AskPersona: states only where the persona sits and what the answer is. Where the contents and the query sit is `VectorStore.Ask`'s contract, which holds for every template, the source's included.
- The file system is flat: a path is a key, so a `/` inside a user name and what lies under a directory are not modelled. Failures of `rmtree`, `remove`, `makedirs` or `open` on an entry of the wrong kind, and I/O or encoding errors, are left out.
- A crash between removing the old artifacts and saving the new index is not modelled. The build is one step.
- Reading the uploaded bytes and decoding them as UTF-8 happen in main.py and are left out.
