# FlashMind core in Dafny

FlashMind is a Streamlit study assistant. A user uploads a document or pastes a text. The app names its subject, greets the user, and then holds a chat about it with a language model. Under any assistant message the user can ask for flashcards: the model writes "Q: … A: …" lines, and the app parses them into question/answer cards that can be flipped on screen or mailed.

This project models the two deterministic parts of `src/app.py`:

- **The flashcard parser** (`Flashcards`). The completion is stripped and split on every "Q:". The segments without "A:" are dropped. Each remaining segment is split on every "A:", and exactly the two-part splits become cards, both halves stripped. The module also proves how the model's requested format parses back.
- **The session controller** (`SessionState.Session`). The class has one field per session-state entry and one method per user action: choosing upload or paste, going back, receiving a file, processing it, submitting pasted text, a chat turn, asking for flashcards, drawing them, and the email form. Every method states its new state as a transition function on a `Snapshot` value, and the lemmas about those functions say what each step keeps and guarantees.
- **The chat request** (`Conversation`). Each request is four bootstrap turns followed by the filtered, role-mapped history. The module also has the loop that accumulates the streamed reply.
- **Python string operations** (`Text`). These are `str.split`, `str.strip` (with Python's whitespace set), `in` and `startswith`. A `join` is defined only as the inverse that states what a split keeps.

Replies of the language model, the text extractors and the stream are parameters. `None` stands for a call that raised.

## Model

| member | source | states |
|---|---|---|
| Text.Split | src/app.py:314 | `str.split` on a non-empty separator: at least one part, exactly one part iff the separator does not occur, and then the part is the whole string |
| Text.JoinSplit | src/app.py:314 | joining the parts of a split with the separator gives back the original string |
| Text.SplitJoin | src/app.py:314 | for a marker of two different characters, such as "Q:" or "A:", splitting a join of marker-free parts gives back exactly those parts |
| Text.SplitCountsOccurrences | src/app.py:323 | a split on a marker has one more part than the marker has non-overlapping occurrences |
| Text.SplitCharConcat | src/app.py:645 | splitting `x + c + y` on the character `c` gives the parts of `x` followed by the parts of `y` |
| Text.SplitPartsLack | src/app.py:314 | a pattern absent from a string is absent from every part of any split of it |
| Text.Strip | src/app.py:324-325 | `str.strip()` leaves no leading or trailing whitespace, never lengthens its input, and leaves nothing exactly when the input is all whitespace |
| Text.StripPadded | src/app.py:324-325 | stripping an already stripped text padded with whitespace on both sides gives the text back |
| Text.Contains | src/app.py:314 | Python's `sep in s`: the separator occurs somewhere, so it is never longer than the string |
| Text.ContainsChar | src/app.py:538 | for a one-character separator, `in` is character membership |
| Text.StartsWith | src/app.py:776-778 | `s.startswith(p)` holds exactly when `s` is `p` followed by the rest of `s` |
| Text.IndexOf | src/app.py:314 | the result is the first occurrence of the separator, or `None` exactly when it never occurs |
| Flashcards.AnswerSplits | src/app.py:314 | the list comprehension keeps at most one split per segment, and every kept split has at least two parts |
| Flashcards.ParseFlashcards | src/app.py:314-326 | never more cards than segments containing "A:", and never more of those than "Q:" segments |
| Flashcards.BuildCards | src/app.py:321-328 | the appending loop builds exactly the cards of the two-part splits, in order, and skips (warns about) all the others |
| Flashcards.Generate | src/app.py:310-335 | a raised call fails; "no pairs" iff the stripped reply has no candidate pair; a new batch iff the parse is non-empty, and then the batch is the parse |
| Flashcards.NoPairsExactly | src/app.py:314-318 | a completion has no candidate pair exactly when none of its "Q:" segments contains "A:" |
| Flashcards.WellFormedSplit | src/app.py:323 | a segment splits on "A:" into exactly two parts iff "A:" occurs in it exactly once |
| Flashcards.ParseMatchesReference | src/app.py:314-326 | the parse is one card per segment with exactly one "A:", in segment order, made of the stripped text before and after that "A:"; segments with zero or several "A:" give nothing |
| Flashcards.CardSources | src/app.py:314-326 | the cards come from strictly increasing segment positions, every well-formed segment is one of them, and the k-th card is that of the k-th such segment |
| Flashcards.NoAnswerMarkerNoCards | src/app.py:314-318 | a completion without "A:" has no candidate pair and gives no card |
| Flashcards.FormatRoundTrip | src/app.py:297-300 | cards written one per line as "Q: question A: answer" parse back to exactly the same cards, when no question or answer has surrounding whitespace or a marker |
| Flashcards.TwoCardExample | src/app.py:314-326 | a two-line reply in the requested format parses into its two cards |
| Flashcards.EmptySegmentDropped | src/app.py:314 | the empty text before a leading "Q:" is dropped by the comprehension |
| Conversation.Say | src/app.py:685 | a one-text message has that text as its first part |
| Conversation.ApiRole | src/app.py:781 | the API role is never Assistant, and it is User exactly when the session role is User |
| Conversation.Forwarded | src/app.py:774-788 | the filtering loop forwards at most one message per history message; which ones, in what order and with what roles is stated by `OriginIndex` and `ApiRoles` |
| Conversation.BuildApiMessages | src/app.py:766-788 | the request-building loop returns the four bootstrap turns followed by the forwarded history |
| Conversation.ForwardedSnoc | src/app.py:774-788 | one more history message is forwarded last, mapped, exactly when none of the four patterns matches it |
| Conversation.PromptForwarded | src/app.py:762-788 | a typed prompt is the last message of the request unless it equals the system prompt or starts with the document-turn prefix |
| Conversation.OriginIndex | src/app.py:774-788 | every forwarded message is the mapped copy of a kept history message, in increasing history order, and no kept message is missed |
| Conversation.ApiRoles | src/app.py:766-788 | every message of a request has the role User or Model |
| Conversation.AllKeptForwarded | src/app.py:774-788 | a history with no bootstrap-looking message is forwarded whole, only the roles changed |
| Conversation.BootstrapRecognised | src/app.py:768-778 | of the four bootstrap turns the filter recognises the first, third and fourth, not the greeting |
| Conversation.ConcatNonEmpty | src/app.py:803-805 | skipping the empty chunks does not change the concatenated reply |
| Conversation.NonEmpty | src/app.py:804 | the kept chunks are all non-empty and never more than the chunks |
| Conversation.ReadStream | src/app.py:802-805 | the stream loop's reply is the concatenation of the non-empty chunks, which is the concatenation of all of them |
| SessionState.Initial | src/app.py:189-207 | the initial entries satisfy the session invariant |
| SessionState.LowerAscii | src/app.py:645 | lower-casing keeps the length, maps every ASCII upper-case letter to its lower-case letter and leaves every other character as it is |
| SessionState.Extension | src/app.py:645 | the extension never holds a dot, and a name without a dot is its own (lower-cased) extension |
| SessionState.KindOf | src/app.py:645-660 | a file goes to the PDF, DOCX or TXT extractor exactly when its extension is "pdf", "docx" or "txt"; every other extension is unsupported |
| SessionState.TitleOf | src/app.py:674-679 | a failed title request gives the fallback title; otherwise the title is the stripped reply |
| SessionState.ValidAddress | src/app.py:538 | the address check holds exactly when the address is non-empty and both `"@" in address` and `"." in address` hold as Python substring tests |
| SessionState.Dispatch | src/app.py:507-527 | no target without a chosen message; the document for the first message once its cards were asked for and a document is there; a later assistant message's text; a lost index exactly when the index is neither of those positions |
| SessionState.EmailFor | src/app.py:537-543 | a plausible address gets the stored cards handed over; any other address gets nothing |
| SessionState.EmailAfterRender | src/app.py:507-543 | since the flashcard area is drawn before the email form in every run, "Send Email" mails the batch generated in that run, not the one on screen |
| SessionState.ProcessedPatternUnused | src/app.py:774-780 | no session message has the Model role, so the fourth filter pattern never matches, and a message is forwarded exactly when the other three patterns miss it |
| SessionState.AcceptConsistent | src/app.py:662-687 | accepting a text keeps the invariant, leaves exactly one assistant greeting and clears the flashcard choice |
| SessionState.ProcessedConsistent | src/app.py:643-687 | processing an upload keeps the invariant, whatever the extractor and the title request returned |
| SessionState.PastedConsistent | src/app.py:706-733 | submitting the paste area keeps the invariant and changes nothing exactly when the text is empty |
| SessionState.ChattedConsistent | src/app.py:754-814 | a chat turn keeps the history as a prefix and appends the prompt as a user message, then, exactly when the stream completed, an assistant message holding the concatenated chunks; the flashcard choice is dropped, the email form hidden, the first chat marked, and nothing else changes |
| SessionState.RequestedConsistent | src/app.py:493-504 | pressing a flashcard button keeps the invariant, and the dispatch then finds the document or a response |
| SessionState.DispatchFindsText | src/app.py:507-527 | in a consistent session the dispatch finds the document for the first message and the message text for a later one; the error branches cannot be reached |
| SessionState.RenderedCards | src/app.py:316-335 | the stored cards change only when a request was made and its reply parses into at least one card, and are then replaced by exactly those cards; a failed call, no request or an empty parse leaves the whole state unchanged |
| SessionState.FirstQuestionRequest | src/app.py:681-788 | the first question after a text is accepted is sent after the bootstrap turns and the greeting, which reaches the model as a Model turn |
| SessionState.ExtensionAfterLastDot | src/app.py:645 | a file's extension is the lower-cased text after its last dot |
| SessionState.UpperCaseExtension | src/app.py:645-652 | a name ending in ".PDF" goes to the PDF extractor |
| SessionState.Session.constructor | src/app.py:189-207 | a new session holds the initial entries |
| SessionState.Session.ChooseUpload | src/app.py:584-586 | "Upload Document" moves to the upload screen and changes nothing else |
| SessionState.Session.ChoosePaste | src/app.py:615-617 | "Paste Text" moves to the paste screen and changes nothing else |
| SessionState.Session.GoBack | src/app.py:637-639 | "Go Back" returns to the start screen and changes nothing else |
| SessionState.Session.ReceiveUpload | src/app.py:631-634 | a received file is kept and the screen moves to processing |
| SessionState.Session.ProcessUpload | src/app.py:643-687 | an unsupported extension returns to the start screen; an empty or failed extraction changes nothing; otherwise the text is accepted under the stripped title or "your document" |
| SessionState.Session.Greet | src/app.py:681-686 | the reset-and-greet sequence on the processing or paste screen, for a non-empty text: the text and title are stored, the messages become one greeting, the flashcard choice is cleared, the chat screen is shown, and the invariant is kept |
| SessionState.Session.SubmitPastedText | src/app.py:703-733 | empty text changes nothing; otherwise the text is accepted under the stripped title or "your text" |
| SessionState.Session.SendChat | src/app.py:754-814 | an empty prompt does nothing; otherwise the request is the bootstrap plus the filtered history ending with the prompt, and the state is the chat-turn transition |
| SessionState.Session.RequestFlashcards | src/app.py:493-504 | a flashcard button records its message index, and marks the first message's cards as asked for |
| SessionState.Session.RenderFlashcards | src/app.py:507-527 | the model is asked about the dispatch target's text with the default limit, a lost index is reset, and the cards are replaced only by a non-empty parse |
| SessionState.Session.ToggleEmailForm | src/app.py:471-473 | the email button flips the form's visibility and nothing else |
| SessionState.Session.SubmitEmail | src/app.py:537-543 | the mail is handed over (as `EmailFor` says), with the stored cards and title, exactly when the address is non-empty and contains "@" and "."; only then is the form hidden |
| SessionState.Session.CloseEmailForm | src/app.py:544-548 | with no cards to send, "Close Email Form" hides the form and nothing else |

## Left out

- The language-model calls (configuration, the generation prompts and the network) are left out. Their outcomes are parameters: an `Option<string>` for the title and flashcard requests, and an `Option<seq<string>>` of chunk texts for the stream. The model records which request would be sent: `FlashcardRequest` for cards and the message list for chat.
- PDF, DOCX and TXT extraction are left out; the extracted text is a parameter. The file's bytes are not modelled, only its name.
- SendGrid, the secrets lookup and the HTML email are left out. `SubmitEmail` returns the `EmailRequest` it would hand over, and the sender's own success or failure does not affect the state.
- The prompt-file read, the CSS and background images (including the random choice of a background), and all Streamlit rendering are left out. This covers the flashcard HTML component, the warnings and error texts, and `st.rerun`. Each script run is a sequence of explicit method calls in the model.
- The image branch of the message display and of the history filter is modelled only as an `Image` part forwarded as it is. No part of the application ever creates one.
- `SessionState.LowerAscii` lower-cases ASCII letters only, while `str.lower()` is full Unicode. This does not change which names map to "pdf", "docx" or "txt": no non-ASCII character lower-cases to a letter of those words.
- The first part of every history message is a text (`Conversation.Readable`). The source reads `parts[0]["text"]` and would raise on any other message, and the application creates no other.
- `SessionState.Session.SubmitPastedText`: requires the text to be at most 100000 characters, the limit the text area enforces before the code sees the text.
- `SessionState.Session.ToggleEmailForm`: requires stored cards. This approximates "the button is drawn under a batch that was just generated": the model does not track whether the batch on screen is the fresh one.
- `SessionState.Session.RenderFlashcards`: the source draws the flashcard area on every script run while a flashcard target is chosen, before the email form and the chat input are handled. The model leaves that ordering to the caller: a run that handles an action is `RenderFlashcards` followed by the action's own method. A "Send Email" run therefore asks the model again and mails the fresh batch (`SessionState.EmailAfterRender`). A chat turn likewise asks for one more generation before it resets the target. No method runs a whole script pass on its own.
- `SessionState.Session.RenderFlashcards`: the flashcard request's limit of 15 is only prompt text, so the parsed cards are not cut to 15. This follows the code.
- Three behaviours of the code worth noting:
  - the text before the first "Q:" is a segment like the others (it is dropped only when it has no "A:");
  - a segment with two or more "A:" is skipped rather than cut at its first "A:";
  - a failed or empty extraction leaves the app on the processing screen instead of going back to the start screen.
- The bootstrap turns are put straight into each request and never enter the history. Under the session invariant no history message has the Model role, so the filter's fourth pattern is dead code (`SessionState.ProcessedPatternUnused`). The session's own greeting ("Oh, I see you want to learn about …") matches no pattern and is forwarded as a Model turn (`SessionState.FirstQuestionRequest`).
