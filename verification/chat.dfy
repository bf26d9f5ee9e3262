/** The chat view: a transcript per document, kept in storage under a key derived from the document
    name, a send guard, and the reply (or a fixed apology) appended when the model call ends. */
module Chat {
  import opened Wrappers
  import opened Strings
  import opened Types
  import opened Storage
  import Gemini

  const HistoryPrefix: string := "chatHistory_"

  /** The storage key of a document's transcript. */
  function HistoryKey(pdfName: string): (k: string)
    ensures IsPrefix(HistoryPrefix, k) && k[|HistoryPrefix|..] == pdfName
  {
    HistoryPrefix + pdfName
  }

  /** Different documents never share a key. */
  lemma HistoryKeyInjective(a: string, b: string)
    ensures HistoryKey(a) == HistoryKey(b) <==> a == b
  {
    if HistoryKey(a) == HistoryKey(b) {
      assert a == HistoryKey(a)[|HistoryPrefix|..];
    }
  }

  const ErrorReply: string := "Sorry, I encountered an error. Please try again."

  /** How much of the document text goes with each question. */
  const ContextLimit: nat := 20000

  datatype ChatState = ChatState(messages: seq<ChatMessage>, input: string, responding: bool)

  /** The transcript loaded for a document: none without a name, and none when nothing (or the empty
      string) is stored or the stored value does not parse. */
  function Load(store: Store, pdfName: string, codec: Codec<seq<ChatMessage>>): (r: seq<ChatMessage>)
    ensures pdfName == "" ==> r == []
    ensures pdfName != "" && (HistoryKey(pdfName) !in store || store[HistoryKey(pdfName)] == "") ==> r == []
    ensures pdfName != "" && HistoryKey(pdfName) in store && codec.decode(store[HistoryKey(pdfName)]).None? ==> r == []
    ensures pdfName != "" && HistoryKey(pdfName) in store ==>
      var stored := store[HistoryKey(pdfName)];
      stored != "" && codec.decode(stored).Some? ==> r == codec.decode(stored).value
  {
    if pdfName == "" then []
    else
      match GetItem(store, HistoryKey(pdfName))
      case None => []
      case Some(stored) => if stored == "" then [] else codec.decode(stored).GetOr([])
  }

  /** The persistence effect: with a document name, a non-empty transcript is written under its key
      and an empty one removes the key. No other key changes. */
  function Persist(store: Store, pdfName: string, messages: seq<ChatMessage>, codec: Codec<seq<ChatMessage>>): (r: Store)
    ensures pdfName == "" ==> r == store
    ensures pdfName != "" && |messages| > 0 ==> GetItem(r, HistoryKey(pdfName)) == Some(codec.encode(messages))
    ensures pdfName != "" && |messages| == 0 ==> GetItem(r, HistoryKey(pdfName)) == None
    ensures forall k :: k != HistoryKey(pdfName) ==> GetItem(r, k) == GetItem(store, k)
  {
    if pdfName == "" then store
    else if |messages| > 0 then SetItem(store, HistoryKey(pdfName), codec.encode(messages))
    else RemoveItem(store, HistoryKey(pdfName))
  }

  /** What is persisted for a document is what a later visit loads. */
  lemma PersistThenLoad(store: Store, pdfName: string, messages: seq<ChatMessage>, codec: Codec<seq<ChatMessage>>)
    requires Lossless(codec)
    requires pdfName != ""
    ensures Load(Persist(store, pdfName, messages, codec), pdfName, codec) == messages
  {
    if |messages| > 0 {
      assert codec.decode(codec.encode(messages)) == Some(messages) && |codec.encode(messages)| > 0;
    }
  }

  /** Persisting one document's transcript leaves every other document's transcript as it was. */
  lemma PersistIsolated(store: Store, pdfName: string, other: string, messages: seq<ChatMessage>,
                        codec: Codec<seq<ChatMessage>>)
    requires other != pdfName
    ensures Load(Persist(store, pdfName, messages, codec), other, codec) == Load(store, other, codec)
  {
    HistoryKeyInjective(pdfName, other);
  }

  /** The send guard: an input of white space only, or a reply still pending. */
  predicate CanSend(c: ChatState) {
    Trim(c.input) != "" && !c.responding
  }

  /** `handleSend` up to the model call: the untrimmed input is appended as one user message, the
      input is cleared and a reply is pending. A guarded send changes nothing. */
  function Send(c: ChatState): (c': ChatState)
    ensures !CanSend(c) ==> c' == c
    ensures CanSend(c) ==>
      c'.messages == c.messages + [ChatMessage(User, c.input)] && c'.input == "" && c'.responding
  {
    if !CanSend(c) then c
    else ChatState(c.messages + [ChatMessage(User, c.input)], "", true)
  }

  /** The context sent with a question: the first 20000 UTF-16 code units of the document text, so
      the whole text when it fits, otherwise the longest prefix that fits. */
  function ChatContext(pdfText: string): (r: string)
    ensures IsPrefix(r, pdfText)
    ensures Utf16Length(r) <= ContextLimit
    ensures |r| < |pdfText| ==> Utf16Length(r) + CodeUnits(pdfText[|r|]) > ContextLimit
    ensures Utf16Length(pdfText) <= ContextLimit ==> r == pdfText
    ensures Bmp(pdfText) ==> r == Substring(pdfText, 0, ContextLimit)
  {
    PrefixUnitsShort(pdfText, ContextLimit);
    PrefixUnitsBmp(pdfText, ContextLimit);
    PrefixUnits(pdfText, ContextLimit)
  }

  /** The end of `handleSend`: one model message, the reply or the fixed apology when the call
      fails, and nothing pending. */
  function Finish(c: ChatState, reply: Option<string>): (c': ChatState)
    ensures c'.messages == c.messages + [ChatMessage(Model, reply.GetOr(ErrorReply))]
    ensures c'.input == c.input && !c'.responding
  {
    c.(messages := c.messages + [ChatMessage(Model, reply.GetOr(ErrorReply))], responding := false)
  }

  /** A whole exchange. `model` answers a prompt given the context, or fails. */
  function Exchange(c: ChatState, pdfText: string, model: (string, string) -> Option<string>): (c': ChatState)
    ensures !CanSend(c) ==> c' == c
  {
    if !CanSend(c) then c
    else
      var sent := Send(c);
      var reply := match Gemini.ChatPrompt(sent.messages)
        case None => None
        case Some(prompt) => model(prompt, ChatContext(pdfText));
      Finish(sent, reply)
  }

  /** An exchange adds exactly two messages: the user's input as typed, then the model's answer to
      that input (or the apology), and leaves nothing pending. */
  lemma ExchangeAppendsTwo(c: ChatState, pdfText: string, model: (string, string) -> Option<string>)
    requires CanSend(c)
    ensures var c' := Exchange(c, pdfText, model);
      var answer := model(c.input, ChatContext(pdfText));
      && c'.messages == c.messages + [ChatMessage(User, c.input), ChatMessage(Model, answer.GetOr(ErrorReply))]
      && c'.input == "" && !c'.responding
  {
    var sent := Send(c);
    assert Gemini.ChatPrompt(sent.messages) == Some(c.input);
  }

  /** `handleClearHistory`: with a document name and a confirmation, the transcript empties. */
  function Clear(c: ChatState, pdfName: string, confirmed: bool): (c': ChatState)
    ensures pdfName != "" && confirmed ==> c'.messages == [] && c' == c.(messages := [])
    ensures pdfName == "" || !confirmed ==> c' == c
  {
    if pdfName != "" && confirmed then c.(messages := []) else c
  }

  /** A confirmed clear, once persisted, leaves nothing for the next visit to load. */
  lemma ClearForgets(c: ChatState, store: Store, pdfName: string, codec: Codec<seq<ChatMessage>>)
    requires pdfName != ""
    ensures Load(Persist(store, pdfName, Clear(c, pdfName, true).messages, codec), pdfName, codec) == []
  {
  }
}
