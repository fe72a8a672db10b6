# Instagram wine & food content generator — instruction parser and history store

This project models the two pieces of logic in `app.py` of the Instagram
content generator that do not belong to the external agent framework:

- the keyword-based instruction parser of `PromptInterface`
  (`_parse_instruction`, `_extract_topic`, `_extract_style`,
  `_extract_requirements`). It turns a free-text prompt into a topic, a style,
  a list of requirement tags and a save flag;
- the content history of `InstagramContentGenerator`
  (`_save_content_history`, `get_content_history`). This is a JSON array in
  `content_history.json` that is read whole, extended by one entry and written
  back.

Files and modules:

- `text.dfy` (`Text`): the string primitives the parser uses. These are
  ASCII `str.lower()`, the substring test `a in b`, `str.split()` with no
  arguments (maximal runs of non-whitespace, using Python's whitespace set) and
  `' '.join(...)`. It also proves that `split` undoes `join` on tokens, and
  that the tokens of any string are its non-whitespace characters, in order.
- `parser.dfy` (`Parser`): the stop-word list and the two keyword tables as
  ordered `seq<(string, seq<string>)>` data, with one matching routine
  (`AnyIn`). Specification functions (`Topic`, `Style`, `Requirements`,
  `SaveFile`) give the result of each extractor. The loop methods
  `ExtractTopic`, `ExtractStyle` and `ExtractRequirements` follow the source's
  loops and are proved equal to them. `ParseInstruction` composes the
  specification functions, as `_parse_instruction` composes the helpers.
- `history.dfy` (`History`): class `HistoryFile` models the history file. Its
  fields are `present` (the file exists) and `entries` (the decoded array).
- `generator.dfy` (`Generator`): `generate_content` and `process_prompt`. The
  agent team is a `string -> string` parameter and the clock readings are
  parameters.

Where the code and its tests (`tests/test_prompt.py`) disagree, the model
follows the code:

- The style table is tried in the order casual, professional, fun, elegant,
  educational. A prompt containing both "fun" and "casual" gets `casual`.
- An empty prompt yields an empty topic. A prompt with only whitespace or only
  instruction words yields the whole prompt as its topic. Nothing is raised,
  and no error value exists.
- Only one style is returned. The only requirement tags are the six in the
  table.
- `process_prompt` nests the parsed fields under `parsed_instruction`.

## Model

| member | source | states |
|---|---|---|
| `Text.WordLength` | app.py:311 | the first word of a string is its longest separator-free prefix, ended by a separator or the end of the string |
| `Text.Split` | app.py:311 | `str.split()` returns only non-empty tokens with no whitespace; the empty string has no tokens |
| `Text.SplitConcat` | app.py:311 | the tokens of `str.split()`, laid end to end, are exactly the non-whitespace characters of the prompt in their original order |
| `Text.SplitAtSpace` | app.py:311 | a whitespace character always separates tokens: the tokens of `a + c + b` are the tokens of `a` followed by those of `b` |
| `Text.SplitJoin` | app.py:311-322 | splitting the single-space join of tokens gives back exactly those tokens, in order |
| `Text.JoinNonEmpty` | app.py:322 | joining at least one token never gives the empty string |
| `Text.LowerSubstring` | app.py:285-300 | searching `prompt.lower()` for a lower-case phrase is the same as finding a window of the prompt equal to the phrase up to ASCII case |
| `Parser.TopicWords` | app.py:311-316 | the kept words are exactly the prompt's words that are not stop-words once lower-cased; there are no more of them than words |
| `Parser.TopicWordsAppend` | app.py:314-316 | the filter works word by word: filtering a concatenation gives the filtered parts concatenated, so every surviving occurrence is kept in its original order |
| `Parser.TopicWordsOne` | app.py:315-316 | a single word is kept, unchanged in case, exactly when its lower-case form is not a stop-word |
| `Parser.TopicWordsFixpoint` | app.py:314-316 | a word list without stop-words passes the filter unchanged |
| `Parser.TopicTokens` | app.py:311-322 | when some word survives, the topic's own tokens are exactly the surviving words in original order and case, and none is a stop-word |
| `Parser.TopicEmptyIff` | app.py:318-322 | the topic is empty exactly when the prompt is empty |
| `Parser.TopicFallback` | app.py:318-320 | when every token is a stop-word, or the prompt has no token (empty or whitespace only), the topic is the prompt itself |
| `Parser.TopicIdempotent` | app.py:303-322 | extracting the topic from an extracted topic returns it unchanged |
| `Parser.ExtractTopic` | app.py:303-322 | the loop computes the topic; when every token is a stop-word (or there are none) the result is the original prompt |
| `Parser.FirstMatchIsFirst` | app.py:334-336 | the first row whose keywords occur wins, whatever later rows match |
| `Parser.FirstMatchDefault` | app.py:338 | with no matching row the default is returned |
| `Parser.NoFirstMatch` | app.py:334-338 | if no row is the first match, then no row matches at all |
| `Parser.StyleTableNames` | app.py:326-338 | the five style names are distinct from each other and from `conversational` |
| `Parser.StylePrecedence` | app.py:324-338 | a style is returned iff its keywords occur and no earlier style's keywords do; `conversational` is returned iff no keyword occurs |
| `Parser.ExtractStyle` | app.py:324-338 | the loop with its early return yields the style fixed by the precedence rule, both directions |
| `Parser.Selected` | app.py:353-355 | every row whose patterns occur contributes its name; every name collected comes from a matching row; there are no more names than rows |
| `Parser.SelectedInTableOrder` | app.py:353-357 | collected names appear in the order of their rows in the table |
| `Parser.SelectedExactly` | app.py:353-357 | for a table with distinct names, the collected list has no duplicates and holds a name iff that row matches |
| `Parser.RequirementTableNames` | app.py:344-351 | the six requirement tags are distinct |
| `Parser.RequirementsCharacterised` | app.py:340-357 | a tag is reported iff one of its patterns occurs in the lower-cased prompt; tags are in declared order, without duplicates, at most six |
| `Parser.ExtractRequirements` | app.py:340-357 | the loop's list is the specified one: a tag is present iff one of its patterns matches, and there are no duplicates |
| `Parser.ParseInstruction` | app.py:275-301 | the parsed topic is empty iff the prompt is; the topic is either the prompt itself or free of stop-words; at most six requirements |
| `Parser.ParseIgnoresCase` | app.py:285-300 | prompts that differ only in ASCII letter case get the same style, requirements and save flag |
| `Parser.SaveFlagIffPhrase` | app.py:300 | the save flag is false iff "no save" or "don't save" occurs in the prompt in any letter case |
| `History.HistoryFile.SaveContentHistory` | app.py:180-206 | after a save the file exists and holds the old entries (none if it was absent) followed by exactly one new entry with the given timestamp, topic and content; earlier entries are unchanged |
| `History.HistoryFile.GetContentHistory` | app.py:208-220 | reading an absent file gives the empty list; otherwise the stored entries |
| `Generator.GenerateContent` | app.py:153-178 | the result carries the topic, the second clock reading and the service's text; the history gains exactly that text under the first clock reading iff saving was asked, and is untouched otherwise |
| `Generator.ProcessPrompt` | app.py:250-273 | the parsed instruction is `ParseInstruction(prompt)`; the generated record is the extracted topic, the second clock reading and the service's text for that topic; the history grows by one entry exactly when the prompt does not say "no save" or "don't save" |

## Left out

- Agent, team and model construction (`_create_writer_agent`, `_create_illustrator_agent`, `_create_content_team`, app.py:52-151). These are configuration objects handed to the external agent library. The team is a `string -> string` parameter of `GenerateContent`.
- The text the service produces, its printing to the console and any failure in it. The service is a total function, so a failed generation, which appends nothing, is not modelled.
- JSON encoding and decoding, UTF-8 file I/O and `mkdir`. The file is the pair `present`/`entries`. A file that exists but does not decode, which raises in `json.load`, is not modelled.
- `datetime.now()`: each clock reading is a parameter (`savedAt`, `returnedAt`).
- Unicode `str.lower()`: `Text.Lower` lower-cases only `A`-`Z`. Non-ASCII letters, and characters whose lower case is longer, are left unchanged.
- `setup_environment`, `get_multiline_input`, `main` and the interactive menu (app.py:222-239, 359-540). These are about environment variables and console input.
- Concurrent writers to the history file. The model is sequential.
- `PromptInterface.session_context`. It is initialised and never used by the modelled code.
