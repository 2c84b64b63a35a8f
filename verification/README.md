# Medicine and health lookups of the Hindi health assistant

This project models the server-side lookup rules of the assistant's Flask
back end (`app.py`) and proves properties of them in Dafny. The back end
answers three kinds of request:

- `search_medicine`. The query is lowered. The reply describes the first row of
  the medicine table whose lowered `medicine_name` equals the query. If there is
  no such row, or the query or the table is empty, the reply is a fixed
  not-found message.
- `search_by_filename`. The lowered medicine names are scanned in table order.
  The scan stops at the first name that occurs in the lowered filename. That
  name is looked up again by equality, and the row found is described under an
  "identified" header. Otherwise the reply is a fixed fallback message.
- `chat`, up to the call to the language model. The message is lowered and
  split on white space. The terms are joined with `|` into a regular
  expression, which is searched, ignoring case, in the `keyword` column of the
  health table. The first matching row gives a context line. The prompt opens
  with that context when there is one, and with the question otherwise.

The two tables are sequences of row records (`Medicines.Medicine`,
`HealthChat.HealthRow`). An empty table is an empty sequence. A missing
`keyword` cell is `None`.

The files:

- `text.dfy`, module `Text`: the Python string operations the lookups use.
  These are `str.lower()` (`Lower`), `a in b` on strings (`IsSubstring`),
  `str.split()` (`Words`) and `str.join` (`Join`).
- `frame.dfy`, module `Frame`: the pandas idiom `df[mask].iloc[0]`. `Select`
  is the mask filter, and `FirstIndex` is the position of the first marked row.
- `medicines.dfy`, module `Medicines`: `search_medicine` as the function
  `SearchMedicine`. `search_by_filename` as the method `SearchByFilename`, a
  loop with `break` like the source's. It is proved against the specification
  function `FilenameReply`.
- `health_chat.dfy`, module `HealthChat`: retrieval (`Context`), prompt choice
  (`Prompt`, `ChatPrompt`) and the reply (`Chat`). The model call is a
  parameter `generate`, which maps a prompt to its generated text or to `Failed`.

The source's `if found_medicine:` test treats an empty name as false. So in the
filename lookup, a first hit whose lowered name is empty gives the fallback. The
empty string occurs in every filename, so such a row also hides every later
row. The model keeps this behaviour (`FilenameReply`, `FilenameFallback`,
`FilenameFallbackOnly`).

## Model

| member | source | states |
|---|---|---|
| `Text.Lower` | app.py:91 | the lowered string has the same length, and each character is the lowered character at the same position |
| `Text.LowerIdempotent` | app.py:91-94 | lowering an already lowered string changes nothing |
| `Text.SubstringAt` | app.py:107 | the scan behind `a in b` succeeds exactly when some window of `b` equals `a` |
| `Text.SubstringTrivial` | app.py:107 | the empty string occurs in every string, and every string occurs in itself |
| `Text.Words` | app.py:61 | every term of `split()` is non-empty, holds no white space and is made of characters of the message |
| `Text.WordsConcat` | app.py:61 | the terms, put back together, are exactly the non-white-space characters of the message, in order |
| `Text.WordsEmpty` | app.py:61 | a message has no terms exactly when it is all white space |
| `Text.WordsSplitAt` | app.py:61 | a white-space character splits the message into two parts whose terms follow one another: terms never straddle white space |
| `Text.WordsOfWord` | app.py:61 | a non-empty string without white space is a single term |
| `Text.WordsOfJoin` | app.py:61 | splitting non-empty, space-free words joined by spaces gives the same words back, so each term is a maximal run |
| `Text.IsSpace` | app.py:61 | no contract; the characters Python's `str.isspace()` accepts, which decide where `split()` cuts (see `Text.WordsSplitAt`) |
| `Text.IsSubstring` | app.py:107 | no contract; Python's `a in b` as a scan over the start positions, characterised by `Text.SubstringAt` |
| `Text.Join` | app.py:63 | no contract; `sep.join(ws)`, inverted by `HealthChat.Branches` (see `HealthChat.BranchesOfPattern`) and by `Text.Words` for a space separator (see `Text.WordsOfJoin`) |
| `Frame.Select` | app.py:94 | `df[mask]` keeps exactly the rows the mask marks: every kept row is marked and from the table, and every marked row is kept |
| `Frame.SelectAppend` | app.py:94 | `df[mask]` keeps table order: filtering two tables one after the other gives the kept rows of the first, then those of the second |
| `Frame.FirstIndex` | app.py:106-109 | a first-match position holds a marked row and no earlier row is marked; with no position, no row is marked |
| `Frame.SelectFirst` | app.py:94-96 | `df[mask]` is empty exactly when no row is marked; otherwise its `.iloc[0]` is the first marked row of the table |
| `Frame.FirstIndexIgnoresLater` | app.py:106-109 | appending rows after the table leaves the first match unchanged |
| `Medicines.NameIs` | app.py:94 | no contract; the mask comparing each row's lowered name with the lowered query, also used for the re-lookup at app.py:111; see `Medicines.SearchMedicineNotFound`, `Medicines.SearchMedicineFound` and `Medicines.RelookupFindsScanRow` |
| `Medicines.NameIn` | app.py:107 | no contract; the test that a row's lowered name occurs in the lowered filename; see `Medicines.FilenameIdentifies`, `Medicines.FilenameFallback`, `Medicines.FilenameFallbackOnly` and `Medicines.SearchByFilename` |
| `Medicines.MedicineReply` | app.py:97 | no contract; the description of one row; `Medicines.RepliesDiffer` and `Medicines.SearchMedicineFound` state its use |
| `Medicines.IdentifiedReply` | app.py:113 | no contract; the header, the row's name and its description; see `Medicines.FilenameAgreesWithSearch` |
| `Medicines.RepliesDiffer` | app.py:92-97 | a medicine description never equals the not-found or the fallback message |
| `Medicines.SearchMedicine` | app.py:89-98 | no contract; its properties are stated by `Medicines.SearchMedicineNotFound`, `Medicines.SearchMedicineFound`, `Medicines.SearchMedicineIgnoresCase` and `Medicines.SearchMedicineFindsOwnName` |
| `Medicines.SearchMedicineNotFound` | app.py:91-98 | the not-found message comes back exactly when the query is empty or no lowered name equals the lowered query (so always for an empty table) |
| `Medicines.SearchMedicineFound` | app.py:94-97 | when row i is the first whose lowered name equals the lowered query, the reply gives row i's uses, side effects and disclaimer, in that order |
| `Medicines.SearchMedicineIgnoresCase` | app.py:91-94 | lowering the query first does not change the reply |
| `Medicines.SearchMedicineFindsOwnName` | app.py:91-97 | a medicine with a non-empty name is found by that name written in any case |
| `Medicines.RelookupFindsScanRow` | app.py:106-112 | after the scan stops at row i, the lookup by equality finds row i again and its first row is row i |
| `Medicines.FilenameReply` | app.py:100-114 | no contract; the specification of `search_by_filename`, whose properties `Medicines.FilenameIdentifies`, `Medicines.FilenameFallback`, `Medicines.FilenameFallbackOnly`, `Medicines.FilenameIgnoresLaterRows` and `Medicines.FilenameAgreesWithSearch` state |
| `Medicines.SearchByFilename` | app.py:100-114 | the loop with `break` and the re-lookup produce exactly the reply of `FilenameReply` (first row whose lowered name occurs in the lowered filename) |
| `Medicines.FilenameIdentifies` | app.py:102-113 | when row i has the first lowered name that occurs in the lowered filename, and that name is not empty, the reply names and describes row i |
| `Medicines.FilenameFallback` | app.py:103-110 | an empty filename, no name occurring (as with an empty table), or an empty first hit gives the fallback |
| `Medicines.FilenameFallbackOnly` | app.py:103-114 | the fallback comes back only in those cases |
| `Medicines.FilenameIgnoresLaterRows` | app.py:106-109 | once the scan has stopped at row i, the rows after i can be replaced by any rows and the reply stays the same |
| `Medicines.FilenameAgreesWithSearch` | app.py:111-113 | the identified medicine is described exactly as `search_medicine` describes it when asked for its own name |
| `HealthChat.Terms` | app.py:61 | no contract; `split()` of the lowered message; see `HealthChat.KeywordMatchesTerms`, `HealthChat.ContextFoundByTerms` and `HealthChat.ContextWithoutTerms` |
| `HealthChat.Pattern` | app.py:63 | no contract; the terms joined with bars; see `HealthChat.BranchesOfPattern` and `HealthChat.KeywordMatchesTerms` |
| `HealthChat.Branches` | app.py:63 | the branches of an alternation: there is always at least one; `HealthChat.BranchesOfPattern` shows it undoes the join |
| `HealthChat.PatternFinds` | app.py:63 | no contract; a case-insensitive search for one of the literal branches; `HealthChat.KeywordMatchesTerms` states what it means for the terms |
| `HealthChat.KeywordMatches` | app.py:63 | no contract; the mask, false for a missing keyword; see `HealthChat.KeywordMatchesTerms` |
| `HealthChat.BranchesOfPattern` | app.py:63 | reading back the alternation made by joining the terms with bars gives the terms again when none holds a bar; no terms give one empty branch |
| `HealthChat.KeywordMatchesTerms` | app.py:61-63 | for a message without a bar character, a row matches exactly when its keyword is present and contains one of the terms, ignoring case; with no terms, any present keyword matches |
| `HealthChat.ContextOf` | app.py:67 | no contract; the context line of one row; see `HealthChat.ContextFromFirstMatch` |
| `HealthChat.Context` | app.py:56-67 | no contract; its properties are stated by `HealthChat.ContextEmpty`, `HealthChat.ContextFoundByTerms`, `HealthChat.ContextFromFirstMatch` and `HealthChat.ContextWithoutTerms` |
| `HealthChat.ContextEmpty` | app.py:57-67 | the context is empty exactly when no row of the health table matches (so always for an empty table) |
| `HealthChat.ContextFoundByTerms` | app.py:60-67 | for a message without a bar character, context is found exactly when the table is non-empty and some row has a present keyword containing one of the message's terms |
| `HealthChat.ContextFromFirstMatch` | app.py:65-67 | when row i is the first matching row, the context is made from row i alone |
| `HealthChat.ContextWithoutTerms` | app.py:61-66 | for an all-white-space message, the context comes from the first row whose keyword is present |
| `HealthChat.Prompt` | app.py:74-77 | no contract; the two prompt templates; see `HealthChat.PromptChoice` |
| `HealthChat.ChatPrompt` | app.py:74-77 | no contract; the prompt for the lowered message and its retrieved context; see `HealthChat.ChatPromptWithContext` and `HealthChat.ChatPromptWithoutContext` |
| `HealthChat.PromptChoice` | app.py:74-77 | the prompt opens with "Context: " exactly when there is context, and with "User's Question: " exactly when there is none |
| `HealthChat.ChatPromptWithContext` | app.py:74-75 | with a first matching row i, the prompt opens with row i's context followed by the lowered question |
| `HealthChat.ChatPromptWithoutContext` | app.py:76-77 | with no matching row, the prompt opens with the lowered question and not with "Context: " |
| `HealthChat.ChatWithoutModel` | app.py:70-71 | with no model configured, the reply is the configuration error for every message without regex metacharacters, every table and every generator |
| `HealthChat.Chat` | app.py:69-87 | no contract; the configuration error without a model, otherwise the model's text for `HealthChat.ChatPrompt` or the apology when the call fails; see `HealthChat.ChatWithoutModel` |

## Left out

- The page routes and `render_template` (app.py:39-51), `jsonify`, and reading the JSON request are web plumbing. The lookups take the request field as a string. A missing field is the empty string, as in the source's `.get(key, '')`.
- Loading the two CSV files and the `FileNotFoundError` fallbacks (app.py:24-37) are file I/O. The tables are inputs, and a missing file is an empty sequence.
- Configuring the Gemini client and calling `generate_content` (app.py:12-22, 80-85) are a foreign network call. Whether a model is configured is a boolean input. The call is the function parameter `generate`, whose `Failed` outcome stands for any exception raised by the call or by reading `.text`.
- The `print` diagnostics are left out.
- Text.Lower: folds only the ASCII capitals A-Z. Python's `str.lower()` also lowers other cased letters, and a few of them change length. Devanagari text has no case. The case-insensitive keyword search (`HealthChat.PatternFinds`) applies the same `Lower` to both sides, so it has the same gap: Python's `re.IGNORECASE` also folds non-ASCII letters.
- HealthChat.Context: the regular expression is modelled only as an alternation of literal branches, each searched ignoring case. The precondition `LiteralText` excludes messages with any other metacharacter (`. ^ $ * + ? { } [ ] \ ( )`). Such a message would be read as regex syntax by the source, or would make it raise an error.
- Medicine names are plain strings. A missing (NaN) `medicine_name` is outside the model. It never equals a query, and it would make `med_name in filename` raise a `TypeError`. Other missing cells would be formatted as `nan`, and the model takes every cell as the text that gets formatted.
- HealthChat.Context: a non-empty health table whose `keyword` column holds no text at all (every cell missing, or every cell a number) makes pandas refuse the `.str` accessor at app.py:63, and `chat` fails with an `AttributeError` before the model test at app.py:70. The model does not capture this error; it returns an empty context there (for example for `[HealthRow(None, ...)]`).
- A non-empty table without the expected column would raise `KeyError` in the source; the row records always have every column.
- The browser scripts (static/js/script.js, static/js/medicine.js, static/js/auth.js) are DOM and fetch wiring, speech APIs and a simulated login. They are not part of this model.
