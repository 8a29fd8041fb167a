/**
 * The session-state controller of the application (src/app.py, the state
 * initialisation and the top-level screen logic): one Session object whose
 * fields are the session-state entries, and one method per user action.
 *
 * Every method states its new state as a transition function of the old
 * state (`State() == Step(old(State()), ...)`); the transition functions are
 * ordinary functions on the `Snapshot` value, and the lemmas below them say
 * what they keep and what they guarantee. Replies of the language model and
 * of the text extractors are parameters (`None` when the call raised).
 */
module SessionState {
  import opened Wrappers
  import opened Text
  import opened Flashcards
  import opened Conversation

  /** The `app_state` values. */
  datatype Screen = InitialInput | UploadingDocument | Processing | PastingText | Chatting

  /** An uploaded file, as far as the controller looks at it: its name. */
  datatype UploadedFile = UploadedFile(name: string)

  /** The extractor chosen for a file. */
  datatype FileKind = Pdf | Docx | Txt | Unsupported

  /** What an accepted email form hands to the mail sender. */
  datatype EmailRequest = EmailRequest(recipient: string, cards: seq<Card>, subject: Option<string>)

  /** What a flashcard step asks the model for: cards about `source`, at most `limit` of them. */
  datatype FlashcardRequest = FlashcardRequest(source: string, limit: nat)

  /** Every session-state entry at one moment. */
  datatype Snapshot = Snapshot(
    appState: Screen,
    messages: seq<Message>,
    documentText: Option<string>,
    subjectTitle: Option<string>,
    firstChatUsed: bool,
    flashIdx: int,              // index of the assistant message whose flashcards are shown, or -1
    initialGenerated: bool,     // the flashcards of the first assistant message were asked for
    showEmailForm: bool,
    cards: seq<Card>,           // the most recently generated flashcards
    uploadedFile: Option<UploadedFile>)

  const PasteLimit: nat := 100000
  const DocumentFallbackTitle: string := "your document"
  const TextFallbackTitle: string := "your text"

  // ---------------------------------------------------------------------------
  // Values the steps are made of.
  // ---------------------------------------------------------------------------

  /** The entries as the application initialises them. */
  function Initial(): (st: Snapshot)
    ensures Consistent(st)
  {
    Snapshot(InitialInput, [], None, None, false, -1, false, false, [], None)
  }

  /** What the session keeps true between steps. */
  predicate Consistent(st: Snapshot) {
    && AllReadable(st.messages)
    && (forall k :: 0 <= k < |st.messages| ==> st.messages[k].role != Model)
    && (st.flashIdx == -1 || (0 <= st.flashIdx < |st.messages| && st.messages[st.flashIdx].role == Assistant))
    && (st.flashIdx == 0 ==> st.initialGenerated)
    && (st.appState == Chatting <==> st.messages != [])
    && (st.appState == Processing ==> st.uploadedFile.Some?)
    && (st.appState == Chatting ==>
          st.documentText.Some? && st.documentText.value != [] && st.subjectTitle.Some?)
  }

  /** ASCII lower-casing of `str.lower()`: every upper-case letter becomes its lower-case letter, nothing else changes. */
  function LowerAscii(s: string): (r: string)
    ensures |r| == |s|
    ensures forall k :: 0 <= k < |s| ==>
      if 'A' <= s[k] <= 'Z' then r[k] as int == s[k] as int + 32 else r[k] == s[k]
    decreases |s|
  {
    if s == [] then []
    else
      var c := s[0];
      [if 'A' <= c <= 'Z' then (c as int + 32) as char else c] + LowerAscii(s[1..])
  }

  /**
   * `name.split('.')[-1].lower()`: it never holds a dot, and a name without a
   * dot is its own extension.
   */
  function Extension(name: string): (ext: string)
    ensures '.' !in ext
    ensures '.' !in name ==> ext == LowerAscii(name)
  {
    var parts := Split(name, ".");
    var last := parts[|parts| - 1];
    ContainsChar(last, '.');
    ContainsChar(name, '.');
    LowerAscii(last)
  }

  /** The extractor chosen for a file: by its extension, and none for every other extension. */
  function KindOf(name: string): (kind: FileKind)
    ensures kind == Pdf <==> Extension(name) == "pdf"
    ensures kind == Docx <==> Extension(name) == "docx"
    ensures kind == Txt <==> Extension(name) == "txt"
  {
    var ext := Extension(name);
    if ext == "pdf" then Pdf
    else if ext == "docx" then Docx
    else if ext == "txt" then Txt
    else Unsupported
  }

  /** The subject title: the stripped reply, or the fallback when the call raised. */
  function TitleOf(reply: Option<string>, fallback: string): (title: string)
    ensures reply.None? ==> title == fallback
    ensures reply.Some? ==> IsStripped(title) && |title| <= |reply.value|
  {
    match reply
    case None => fallback
    case Some(t) => Strip(t)
  }

  const GreetingHead: string := "Oh, I see you want to learn about **"
  const GreetingTail: string := "**. What would you like to know about this subject matter?"

  function GreetingText(title: string): string {
    GreetingHead + title + GreetingTail
  }

  /**
   * The address check of the email form: `"@" in address` and `"." in address`
   * are substring tests, which for one-character strings are character membership.
   */
  predicate ValidAddress(address: string)
    ensures ValidAddress(address) <==> address != [] && Contains(address, "@") && Contains(address, ".")
  {
    ContainsChar(address, '@');
    ContainsChar(address, '.');
    address != [] && '@' in address && '.' in address
  }

  // ---------------------------------------------------------------------------
  // The transitions.
  // ---------------------------------------------------------------------------

  /** The reset-and-greet sequence once a document or a pasted text is accepted. */
  function Accept(st: Snapshot, text: string, title: string): Snapshot {
    st.(documentText := Some(text), subjectTitle := Some(title),
        messages := [Say(Assistant, GreetingText(title))],
        flashIdx := -1, initialGenerated := false, appState := Chatting)
  }

  /** Processing an uploaded file, given what its extractor returned. */
  function Processed(st: Snapshot, extracted: Option<string>, titleReply: Option<string>): Snapshot
    requires st.uploadedFile.Some?
  {
    if KindOf(st.uploadedFile.value.name) == Unsupported then st.(appState := InitialInput)
    else if extracted.None? || extracted.value == [] then st
    else Accept(st, extracted.value, TitleOf(titleReply, DocumentFallbackTitle))
  }

  /** Submitting the paste area. */
  function Pasted(st: Snapshot, text: string, titleReply: Option<string>): Snapshot {
    if text == [] then st else Accept(st, text, TitleOf(titleReply, TextFallbackTitle))
  }

  /** A chat turn; `stream` holds the chunk texts, `None` when the call or the stream raised. */
  function Chatted(st: Snapshot, prompt: string, stream: Option<seq<string>>): Snapshot {
    if prompt == [] then st
    else
      var asked := st.(firstChatUsed := true, flashIdx := -1, showEmailForm := false,
                       messages := st.messages + [Say(User, prompt)]);
      match stream
      case None => asked
      case Some(chunks) => asked.(messages := asked.messages + [Say(Assistant, Concat(chunks))])
  }

  /** The buttons drawn under the assistant messages: the first one once, every later one always. */
  predicate HasFlashcardButton(st: Snapshot, i: int) {
    0 <= i < |st.messages| && st.messages[i].role == Assistant
    && ((i == 0 && !st.initialGenerated) || i > 0)
  }

  function Requested(st: Snapshot, i: int): Snapshot {
    if i == 0 then st.(flashIdx := 0, initialGenerated := true) else st.(flashIdx := i)
  }

  /** Where the flashcards on screen are generated from. */
  datatype Target =
    | NoTarget                      // no flashcards are shown
    | FromDocument(text: string)    // the whole document, for the first message
    | DocumentMissing               // an error is shown
    | FromResponse(text: string)    // the text of a later assistant message
    | NotAResponse                  // a warning is shown
    | Lost                          // a warning is shown and the choice is reset

  /**
   * The flashcard-target dispatch: nothing without a chosen message; the
   * document for the first message once its cards were asked for; the text
   * of a later assistant message; otherwise one of the error cases.
   */
  function Dispatch(st: Snapshot): (t: Target)
    ensures t == NoTarget <==> st.flashIdx == -1
    ensures t.FromDocument? <==>
      st.flashIdx == 0 && st.initialGenerated && st.documentText.Some? && st.documentText.value != []
    ensures t.FromDocument? ==> Some(t.text) == st.documentText
    ensures t.FromResponse? ==>
      0 < st.flashIdx < |st.messages| && st.messages[st.flashIdx].role == Assistant
      && Readable(st.messages[st.flashIdx]) && t.text == Lead(st.messages[st.flashIdx])
    ensures t == Lost <==>
      st.flashIdx != -1 && !(st.flashIdx == 0 && st.initialGenerated) && !(0 < st.flashIdx < |st.messages|)
  {
    var i := st.flashIdx;
    if i == -1 then NoTarget
    else if i == 0 && st.initialGenerated then
      (if st.documentText.Some? && st.documentText.value != [] then FromDocument(st.documentText.value)
       else DocumentMissing)
    else if 0 < i < |st.messages| then
      (var m := st.messages[i];
       if m.role == Assistant && Readable(m) then FromResponse(Lead(m)) else NotAResponse)
    else Lost
  }

  /** The model request a target leads to; both targets ask for the default limit. */
  function RequestFor(t: Target): Option<FlashcardRequest> {
    match t
    case FromDocument(text) => Some(FlashcardRequest(text, PromptCardLimit))
    case FromResponse(text) => Some(FlashcardRequest(text, PromptCardLimit))
    case _ => None
  }

  /** Drawing the flashcards, given the model's reply to the request of the target. */
  function Rendered(st: Snapshot, reply: Option<string>): Snapshot {
    var t := Dispatch(st);
    if t == Lost then st.(flashIdx := -1)
    else if RequestFor(t).Some? && reply.Some? && ParseFlashcards(Strip(reply.value)) != [] then
      st.(cards := ParseFlashcards(Strip(reply.value)))
    else st
  }

  /** What "Send Email" hands to the mail sender: the stored cards and title, for a plausible address only. */
  function EmailFor(st: Snapshot, address: string): (sent: Option<EmailRequest>)
    ensures sent.Some? <==> ValidAddress(address)
    ensures sent.Some? ==> sent.value.recipient == address && sent.value.cards == st.cards
  {
    if ValidAddress(address) then Some(EmailRequest(address, st.cards, st.subjectTitle)) else None
  }

  // ---------------------------------------------------------------------------
  // What the transitions keep and guarantee.
  // ---------------------------------------------------------------------------

  lemma AcceptConsistent(st: Snapshot, text: string, title: string)
    requires Consistent(st) && text != []
    ensures Consistent(Accept(st, text, title))
    ensures Accept(st, text, title).messages == [Say(Assistant, GreetingText(title))]
    ensures Dispatch(Accept(st, text, title)) == NoTarget
  {
  }

  lemma ProcessedConsistent(st: Snapshot, extracted: Option<string>, titleReply: Option<string>)
    requires Consistent(st) && st.appState == Processing
    ensures Consistent(Processed(st, extracted, titleReply))
  {
  }

  lemma PastedConsistent(st: Snapshot, text: string, titleReply: Option<string>)
    requires Consistent(st) && st.appState == PastingText
    ensures Consistent(Pasted(st, text, titleReply))
    ensures Pasted(st, text, titleReply) == st <==> text == []
  {
  }

  /**
   * A chat turn keeps the history it found as a prefix, adds the prompt as a
   * user message, and adds an assistant message exactly when the stream
   * completed; the flashcard choice is dropped and the email form hidden.
   */
  lemma ChattedConsistent(st: Snapshot, prompt: string, stream: Option<seq<string>>)
    requires Consistent(st) && st.appState == Chatting && prompt != []
    ensures var next := Chatted(st, prompt, stream);
      && Consistent(next)
      && |next.messages| == |st.messages| + (if stream.Some? then 2 else 1)
      && next.messages[..|st.messages|] == st.messages
      && next.messages[|st.messages|] == Say(User, prompt)
      && (stream.Some? ==> next.messages[|st.messages| + 1] == Say(Assistant, Concat(stream.value)))
      && next.flashIdx == -1 && !next.showEmailForm && next.firstChatUsed
      && next.(messages := st.messages, flashIdx := st.flashIdx, showEmailForm := st.showEmailForm,
               firstChatUsed := st.firstChatUsed) == st
  {
    var next := Chatted(st, prompt, stream);
    var asked := st.messages + [Say(User, prompt)];
    assert AllReadable(asked) by {
      assert forall k :: 0 <= k < |st.messages| ==> asked[k] == st.messages[k];
    }
    if stream.Some? {
      var full := asked + [Say(Assistant, Concat(stream.value))];
      assert forall k :: 0 <= k < |asked| ==> full[k] == asked[k];
      assert next.messages == full;
    }
  }

  lemma RequestedConsistent(st: Snapshot, i: int)
    requires Consistent(st) && HasFlashcardButton(st, i)
    ensures Consistent(Requested(st, i))
    ensures Dispatch(Requested(st, i)).FromDocument? || Dispatch(Requested(st, i)).FromResponse?
  {
  }

  /**
   * In a consistent session the dispatch always finds a text: the missing
   * document, the non-response and the lost index cases cannot happen.
   */
  lemma DispatchFindsText(st: Snapshot)
    requires Consistent(st)
    ensures Dispatch(st) == NoTarget || Dispatch(st).FromDocument? || Dispatch(st).FromResponse?
    ensures Dispatch(st) == NoTarget <==> st.flashIdx == -1
    ensures Dispatch(st).FromDocument? ==> Some(Dispatch(st).text) == st.documentText
    ensures Dispatch(st).FromResponse? ==>
      exists k :: 0 < k < |st.messages| && st.messages[k].role == Assistant && Dispatch(st).text == Lead(st.messages[k])
  {
    if st.flashIdx > 0 {
      assert Readable(st.messages[st.flashIdx]);
    }
  }

  /**
   * The stored cards change only when a request was made and its reply
   * parses into at least one card; then they are replaced by exactly those cards.
   */
  lemma RenderedCards(st: Snapshot, reply: Option<string>)
    requires Consistent(st)
    ensures Consistent(Rendered(st, reply))
    ensures Rendered(st, reply).cards != st.cards ==>
      && RequestFor(Dispatch(st)).Some? && reply.Some? && ParseFlashcards(Strip(reply.value)) != []
      && Rendered(st, reply).cards == ParseFlashcards(Strip(reply.value))
    ensures reply.None? || RequestFor(Dispatch(st)).None? || ParseFlashcards(Strip(reply.value)) == [] ==>
      Rendered(st, reply) == st
    ensures RequestFor(Dispatch(st)).Some? && reply.Some? && ParseFlashcards(Strip(reply.value)) != [] ==>
      Rendered(st, reply).cards == ParseFlashcards(Strip(reply.value))
    ensures Rendered(st, reply).(cards := st.cards) == st
  {
    DispatchFindsText(st);
  }

  /**
   * The first question after a document is accepted is sent after the four
   * bootstrap turns and the greeting, which reaches the model as a Model turn.
   */
  lemma FirstQuestionRequest(systemPrompt: string, st: Snapshot, text: string, title: string, prompt: string)
    requires prompt != systemPrompt && !StartsWith(prompt, DocumentPrefix)
    ensures var history := Accept(st, text, title).messages + [Say(User, prompt)];
      && AllReadable(history)
      && ApiMessages(systemPrompt, text, title, history)
         == Bootstrap(systemPrompt, text, title) + [Say(Model, GreetingText(title)), Say(User, prompt)]
  {
    var greeting := Say(Assistant, GreetingText(title));
    assert !StartsWith(GreetingText(title), GreetingPrefix) by {
      assert GreetingText(title)[0] == GreetingHead[0] != GreetingPrefix[0];
    }
    ForwardedSnoc(systemPrompt, [], greeting);
    assert [] + [greeting] == [greeting];
    PromptForwarded(systemPrompt, [greeting], prompt);
  }

  /**
   * Every script run draws the flashcard area before it handles the email
   * form. So while a flashcard target is chosen, "Send Email" mails the cards
   * of the generation made in that same run, not the batch the user saw.
   */
  lemma EmailAfterRender(st: Snapshot, reply: Option<string>, address: string)
    requires Consistent(st) && st.flashIdx != -1 && ValidAddress(address)
    requires reply.Some? && ParseFlashcards(Strip(reply.value)) != []
    ensures EmailFor(Rendered(st, reply), address)
         == Some(EmailRequest(address, ParseFlashcards(Strip(reply.value)), st.subjectTitle))
  {
    DispatchFindsText(st);
  }

  /**
   * No session message has the Model role, so the fourth pattern of the
   * history filter never matches: a history message is forwarded exactly when
   * it is not the system prompt, the greeting pattern or the document pattern.
   */
  lemma ProcessedPatternUnused(systemPrompt: string, st: Snapshot)
    requires Consistent(st)
    ensures forall k :: 0 <= k < |st.messages| ==>
      && !IsProcessedTurn(st.messages[k])
      && (Kept(systemPrompt, st.messages[k]) <==>
            !(IsSystemPromptTurn(systemPrompt, st.messages[k]) || IsGreetingTurn(st.messages[k])
              || IsDocumentTurn(st.messages[k])))
  {
  }

  /** A file name's kind is read from the text after its last dot, in any letter case. */
  lemma ExtensionAfterLastDot(base: string, ext: string)
    requires '.' !in ext
    ensures Extension(base + "." + ext) == LowerAscii(ext)
  {
    LacksLead(ext, ".");
    SplitCharConcat(base, '.', ext);
    assert base + "." + ext == base + ['.'] + ext;
  }

  /** The letter case of an extension does not matter: "notes.PDF" goes to the PDF extractor. */
  lemma UpperCaseExtension(base: string)
    ensures KindOf(base + ".PDF") == Pdf
  {
    ExtensionAfterLastDot(base, "PDF");
    assert base + ".PDF" == base + "." + "PDF";
    assert LowerAscii("PDF") == "pdf";
  }

  // ---------------------------------------------------------------------------
  // The session object.
  // ---------------------------------------------------------------------------

  class Session {
    /** The system prompt read (and stripped) at start-up. */
    const systemPrompt: string

    var appState: Screen
    var messages: seq<Message>
    var documentText: Option<string>
    var subjectTitle: Option<string>
    var firstChatUsed: bool
    var flashIdx: int
    var initialGenerated: bool
    var showEmailForm: bool
    var cards: seq<Card>
    var uploadedFile: Option<UploadedFile>

    function State(): Snapshot
      reads this
    {
      Snapshot(appState, messages, documentText, subjectTitle, firstChatUsed,
               flashIdx, initialGenerated, showEmailForm, cards, uploadedFile)
    }

    predicate Valid()
      reads this
    {
      Consistent(State())
    }

    constructor (systemPrompt: string)
      ensures this.systemPrompt == systemPrompt
      ensures State() == Initial() && Valid()
    {
      this.systemPrompt := systemPrompt;
      appState := InitialInput;
      messages := [];
      documentText := None;
      subjectTitle := None;
      firstChatUsed := false;
      flashIdx := -1;
      initialGenerated := false;
      showEmailForm := false;
      cards := [];
      uploadedFile := None;
    }

    /** "Upload Document" on the start screen. */
    method ChooseUpload()
      requires Valid() && appState == InitialInput
      modifies this`appState
      ensures State() == old(State()).(appState := UploadingDocument) && Valid()
    {
      appState := UploadingDocument;
    }

    /** "Paste Text" on the start screen. */
    method ChoosePaste()
      requires Valid() && appState == InitialInput
      modifies this`appState
      ensures State() == old(State()).(appState := PastingText) && Valid()
    {
      appState := PastingText;
    }

    /** "Go Back" from the upload or the paste screen. */
    method GoBack()
      requires Valid() && (appState == UploadingDocument || appState == PastingText)
      modifies this`appState
      ensures State() == old(State()).(appState := InitialInput) && Valid()
    {
      appState := InitialInput;
    }

    /** The uploader returned a file. */
    method ReceiveUpload(file: UploadedFile)
      requires Valid() && appState == UploadingDocument
      modifies this`appState, this`uploadedFile
      ensures State() == old(State()).(appState := Processing, uploadedFile := Some(file)) && Valid()
    {
      appState := Processing;
      uploadedFile := Some(file);
    }

    /**
     * The processing screen: the extractor chosen by the file's extension
     * returned `extracted`, and the title request returned `titleReply`.
     */
    method ProcessUpload(extracted: Option<string>, titleReply: Option<string>)
      requires Valid() && appState == Processing
      modifies this`appState, this`documentText, this`subjectTitle, this`messages,
               this`flashIdx, this`initialGenerated
      ensures old(uploadedFile).Some?
      ensures State() == Processed(old(State()), extracted, titleReply) && Valid()
    {
      ghost var before := State();
      ProcessedConsistent(before, extracted, titleReply);
      var kind := KindOf(uploadedFile.value.name);
      if kind == Unsupported {
        appState := InitialInput;
        return;
      }
      if extracted.Some? && extracted.value != [] {
        Greet(extracted.value, TitleOf(titleReply, DocumentFallbackTitle));
      }
    }

    /** The reset-and-greet sequence shared by an accepted upload and an accepted paste. */
    method Greet(text: string, title: string)
      requires Valid() && (appState == Processing || appState == PastingText) && text != []
      modifies this`appState, this`documentText, this`subjectTitle, this`messages,
               this`flashIdx, this`initialGenerated
      ensures State() == Accept(old(State()), text, title) && Valid()
    {
      AcceptConsistent(State(), text, title);
      documentText := Some(text);
      subjectTitle := Some(title);
      messages := [];
      flashIdx := -1;
      initialGenerated := false;
      messages := messages + [Say(Assistant, GreetingText(title))];
      appState := Chatting;
    }

    /** "Submit Text" on the paste screen. */
    method SubmitPastedText(text: string, titleReply: Option<string>)
      requires Valid() && appState == PastingText && |text| <= PasteLimit
      modifies this`appState, this`documentText, this`subjectTitle, this`messages,
               this`flashIdx, this`initialGenerated
      ensures State() == Pasted(old(State()), text, titleReply) && Valid()
    {
      PastedConsistent(State(), text, titleReply);
      if text != [] {
        Greet(text, TitleOf(titleReply, TextFallbackTitle));
      }
    }

    /**
     * A chat turn. `request` is the message list sent to the model (`None`
     * when the prompt was empty and nothing happened); `stream` is what the
     * model streamed back, `None` when the call or the stream raised.
     */
    method SendChat(prompt: string, stream: Option<seq<string>>) returns (request: Option<seq<Message>>)
      requires Valid() && appState == Chatting
      modifies this`firstChatUsed, this`flashIdx, this`showEmailForm, this`messages
      ensures request.Some? <==> prompt != []
      ensures request.Some? ==>
        AllReadable(old(messages) + [Say(User, prompt)]) &&
        request.value == ApiMessages(systemPrompt, documentText.value, subjectTitle.value,
                                     old(messages) + [Say(User, prompt)])
      ensures State() == Chatted(old(State()), prompt, stream) && Valid()
    {
      if prompt == [] {
        return None;
      }
      ChattedConsistent(State(), prompt, stream);
      firstChatUsed := true;
      flashIdx := -1;
      showEmailForm := false;
      messages := messages + [Say(User, prompt)];
      var api := BuildApiMessages(systemPrompt, documentText.value, subjectTitle.value, messages);
      request := Some(api);
      if stream.Some? {
        var full := ReadStream(stream.value);
        messages := messages + [Say(Assistant, full)];
      }
    }

    /** A "Generate flashcards" button under assistant message `i`. */
    method RequestFlashcards(i: int)
      requires Valid() && HasFlashcardButton(State(), i)
      modifies this`flashIdx, this`initialGenerated
      ensures State() == Requested(old(State()), i) && Valid()
    {
      RequestedConsistent(State(), i);
      flashIdx := i;
      if i == 0 {
        initialGenerated := true;
      }
    }

    /**
     * The flashcard area: the dispatch picks the text, the model is asked
     * (`request`), and `reply` is its completion, `None` when the call raised.
     */
    method RenderFlashcards(reply: Option<string>) returns (request: Option<FlashcardRequest>)
      modifies this`flashIdx, this`cards
      ensures request == RequestFor(Dispatch(old(State())))
      ensures State() == Rendered(old(State()), reply)
      ensures old(Valid()) ==> Valid()
    {
      if Valid() {
        RenderedCards(State(), reply);
      }
      request := None;
      if flashIdx == -1 {
        return;
      }
      var target := Dispatch(State());
      if target == Lost {
        flashIdx := -1;
        return;
      }
      request := RequestFor(target);
      if request.Some? {
        var outcome := Generate(reply);
        if outcome.Generated? {
          cards := outcome.cards;
        }
      }
    }

    /** "Email My Flashcards", drawn under freshly generated cards. */
    method ToggleEmailForm()
      requires Valid() && cards != []
      modifies this`showEmailForm
      ensures State() == old(State()).(showEmailForm := !old(showEmailForm)) && Valid()
    {
      showEmailForm := !showEmailForm;
    }

    /** "Send Email" in the email form: the mail is handed over only for a plausible address. */
    method SubmitEmail(address: string) returns (sent: Option<EmailRequest>)
      requires Valid() && showEmailForm && cards != []
      modifies this`showEmailForm
      ensures sent.Some? <==> ValidAddress(address)
      ensures sent.Some? ==> sent.value == EmailRequest(address, cards, subjectTitle)
      ensures sent == EmailFor(old(State()), address)
      ensures State() == old(State()).(showEmailForm := !ValidAddress(address)) && Valid()
    {
      sent := None;
      if address != [] && '@' in address && '.' in address {
        sent := Some(EmailRequest(address, cards, subjectTitle));
        showEmailForm := false;
      }
    }

    /** "Close Email Form", offered while there are no cards to send. */
    method CloseEmailForm()
      requires Valid() && showEmailForm && cards == []
      modifies this`showEmailForm
      ensures State() == old(State()).(showEmailForm := false) && Valid()
    {
      showEmailForm := false;
    }
  }
}
