# the_quiz — a Dafny model of the quiz pipeline

`the_quiz` is a terminal trivia quiz written in Rust. It reads `questions.xml`. It folds
the markup reader's events into a flat list of data pieces (tag name plus text). It cuts
that list into question blocks at every `prompt` piece. Then it plays one round per
question: the options are shown in shuffled order, one key is read, and the round is
scored.

This project models those three stages as Dafny methods that follow the Rust loops. Each
method's contract ties it to an independent reference definition or a partition property.
Lemmas state the quirks and invariants of the stages.

- `types.dfy` (`Types`): `Result`, the three ways a run ends abnormally (`Error`), and the
  `DataPiece` and `Question` records.
- `parse.dfy` (`Parse`): `parse_data`. The reader is replaced by a sequence of
  `ReaderEvent`s: `Start(name)`, `End(name)`, `Chars(text)`, `Other` and `Err(message)`.
  The reference definition `Pieces` emits one piece per end tag that names the most
  recently opened element. The piece carries the text of the most recent characters event.
- `assemble.dfy` (`Assemble`): `generate_questions`. The first loop is `Partition`. The
  second loop is `AssembleBlock` applied to each block. `IsPromptPartition` is the
  partition property. `BlockQuestion` is the reference definition of one block's question:
  the last prompt wins, the last correct answer wins, and incorrect answers accumulate in
  order.
- `game.dfy` (`Game`): the deterministic part of `run_game`. The shuffle is passed in as
  `options`, which must be a rearrangement of `0..=n`. The single terminal read is passed
  in as an `InputEvent`. `Selection` is the reference definition of the position a key
  picks. `AnsweredCorrectly` is the reference definition of a won round.

Abnormal ends are `Failure` results:
- A reader error makes `parse_data` print the error and exit with code 1. This is
  `MalformedXml(message)`, carrying the first error's message.
- An unknown tag makes `generate_questions` panic. This is `UnhandledProperty(tag)`,
  carrying the first unknown tag.
- `char::from_digit(option + 1, 10).expect(..)` panics on any key event once a question
  has 9 or more wrong answers. This is `OptionNotDigit`.

Behaviour of the code worth knowing:
- The text buffer is replaced, never appended to, and never cleared.
- A well-formed end tag that names an element other than the most recently opened one,
  such as the end of an enclosing element, yields no piece and no message.
- Question blocks are delimited only by `prompt` pieces.
- An unknown tag in a block is fatal.
- A key that labels no option scores the round wrong. The quiz does not wait for another key.
- A question's text is empty when its block has no prompt. This happens for the first
  question whenever the first piece is not a prompt, and for the single question built
  from an empty piece list.

## Model

| member | source | states |
|---|---|---|
| Parse.ParseData | src/main.rs:41-74 | The run fails exactly when some reader item is an error, and then it reports the first error's message. Otherwise the pieces are exactly the reference list `Pieces`: one per end tag naming the most recently opened element, with the latest text. |
| Parse.FirstErrorAt | src/main.rs:66-69 | An error item with no error before it decides the reported message, so the earliest error aborts the run. |
| Parse.PiecesBound | src/main.rs:53-60 | There are never more pieces than end tags. |
| Parse.PiecesPrefix | src/main.rs:47-65 | The pieces of a prefix of the events are a prefix of the pieces of all events. Pieces are only appended, in event order. |
| Parse.PiecesOrigin | src/main.rs:50-63 | A piece is emitted if and only if some end tag closes the most recently opened name. The piece then has that name as its type and the latest text before that end tag as its data. |
| Parse.OtherIsInert | src/main.rs:64 | Inserting an event that is not a start tag, end tag or text anywhere changes neither the last name, nor the last text, nor the output. |
| Parse.LeafElement | src/main.rs:50-63 | A start tag, its text and its matching end tag append exactly one piece with that name and text. |
| Parse.EmptyElementKeepsText | src/main.rs:50-63 | Text is never cleared: after any events, an element without text yields a piece carrying the latest text seen before it. |
| Parse.EnclosingEndIsSkipped | src/main.rs:53-60 | After any events, an end tag that does not name the most recently opened element, such as the end of an enclosing element, adds no piece. |
| Parse.StaleTextAndNesting | src/main.rs:50-63 | Example of both effects: in q(a("x"), b()) the element b yields the text "x", and q yields no piece. |
| Assemble.Partition | src/main.rs:78-87 | The blocks are non-empty ranges that lie end to end from 0 to the list's length. Each opens at 0 or at a prompt and holds no further prompt. An empty list gives the single block [0, 0). The number of blocks is 1 plus the number of prompts at index 1 or later. |
| Assemble.TilesCover | src/main.rs:80-87 | Every index of the piece list lies in some block. |
| Assemble.BlockStarts | src/main.rs:80-87 | An index opens a block if and only if it is 0 or it holds a prompt. |
| Assemble.AssembleBlock | src/main.rs:92-112 | A block fails exactly when it holds an unknown tag, and the error names the first one. Otherwise the question equals the reference `BlockQuestion`: last prompt, last correct answer (each "" when absent), and incorrect answers in block order. |
| Assemble.GenerateQuestions | src/main.rs:76-116 | The run fails exactly when some piece has an unknown tag, naming the first. Otherwise there is one question per block of the prompt partition, in order: 1 plus the number of later prompts. An empty list yields one question with empty text, empty answer and no wrong answers. |
| Assemble.QuestionText | src/main.rs:82-99 | A question's text is the data of its block's first piece when that piece is a prompt, and "" otherwise. Every block after the first opens at a prompt. |
| Assemble.OneQuestionScenario | src/main.rs:96-112 | The pieces prompt "Q1", correctAnswer "A" and incorrectAnswers "B" give the question ("Q1", "A", ["B"]). |
| Game.ShuffleFacts | src/main.rs:129-130 | A rearrangement of 0..=n contains every value up to n, and has the same multiset as 0..=n. |
| Game.ShowOptions | src/main.rs:127-138 | Exactly one position holds the value n, and it is the recorded correct position. That position shows the answer. Every other position i shows wrong answer number options[i], which is in bounds. Lines are numbered from 1. The shown texts are a rearrangement of the wrong answers plus the answer. |
| Game.ShownTexts | src/main.rs:131-138 | The texts the display loop prints are the multiset of all answers. |
| Game.ResolveKey | src/main.rs:140-160 | With 10 or more options, a key event panics. Otherwise the answer is `Selection`: digit d with 1 <= d <= option count picks position d - 1, though the loop runs over option values. Any other key, a non-key event or a read error gives usize::MAX. |
| Game.KeyPicksLabel | src/main.rs:146-152 | Pressing the digit printed beside position i picks position i. The round is won if and only if that position holds the answer. |
| Game.KeyTwoScenario | src/main.rs:140-173 | Key 2 wins if and only if the second line shows the answer. Key 0, a non-character key and a read error never win. |
| Game.PlayRound | src/main.rs:124-174 | A round fails exactly on a key event with 9 or more wrong answers. Otherwise the answer is the selected position and the correct position shows the answer. Exactly one counter goes up: `correct` if the key picked the correct position, otherwise `incorrect`. |
| Game.RunGame | src/main.rs:118-181 | The run fails exactly when some round panics. Otherwise correct plus incorrect equals the number of questions, and correct equals the number of rounds whose key picked the correct position. |

## Left out

- `main` and the Ctrl-C handler (src/main.rs:13-23) are process plumbing. The three stages are modelled separately, and a process exit or panic is a `Failure`.
- `load_file` (src/main.rs:25-39) is file I/O. A missing file is not modelled.
- The xml-rs `EventReader` is a foreign library. It is replaced by the sequence of items it yields, and element names are local names. Whitespace, CDATA, comments, processing instructions and document start/end all become `Other`, which the code ignores.
- crossterm `read` and the pending-event drain loop (src/main.rs:142-164) are terminal I/O. Each round takes one `InputEvent`. The drained events do not affect the round. A failing `poll` (its `expect`) is not modelled.
- `thread_rng` and `shuffle` (src/main.rs:120, 130) are randomness. Each round's order is a parameter required to be a rearrangement of `0..=n`.
- `println!` and the coloured styling are output only. The option lines are returned as (number, text) pairs, and the other printed lines are not modelled.
- `ReaderEvent` lists need not be well-formed markup. The model therefore also accepts event lists xml-rs never yields, such as an end tag with no matching start tag, which xml-rs reports as an error.
- Tally: the two counters (src/main.rs:121-122) are Rust `i32` values, and the model uses unbounded `nat`. Overflow would need more than 2^31 questions.
- `usize` is taken to be 64 bits wide, and `UsizeMax` is its maximum. Rounds require fewer than `UsizeMax` wrong answers, which any vector satisfies.
